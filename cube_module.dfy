/** The module object: the live cubelet grid, the queue of turns waiting to be
    performed, and the operations that change them. */
module CubeModule {
  import opened Moves
  import opened Rotation
  import opened Scramble
  import opened Command

  /** The grid rewrite of one turn: a new grid filled slot by slot, x then y
      then z, as the module's triple loop does. It builds exactly the grid
      turned that gives every slot its CubeletAfter. The target grid is a
      ghost parameter, described slot by slot in the precondition, so that
      the loop invariants compare array entries with plain sequence entries
      instead of re-deriving the turn at every step; PerformRotation passes
      Apply(g, m). */
  method Rotated(g: Grid, m: Move, ghost turned: Grid) returns (r: Grid)
    requires forall s :: turned[Index(s)] == CubeletAfter(g, m, s)
    ensures r == turned
  {
    var newCubelets := new int[27];
    for x := 0 to 3
      modifies newCubelets
      invariant forall i :: 0 <= i < 9 * x ==> newCubelets[i] == turned[i]
    {
      for y := 0 to 3
        modifies newCubelets
        invariant forall i :: 0 <= i < 9 * x + 3 * y ==> newCubelets[i] == turned[i]
      {
        RotateRow(g, m, x, y, newCubelets, turned);
      }
    }
    r := newCubelets[..];
  }

  /** The innermost loop of the rewrite, over slots (x, y, 0..2): each slot is
      given CubeletAfter, the cubelet of its source slot when it is on the
      turned layer and its own cubelet otherwise. */
  method RotateRow(g: Grid, m: Move, x: Coord, y: Coord, newCubelets: array<int>, ghost turned: Grid)
    requires newCubelets.Length == 27
    requires forall s :: turned[Index(s)] == CubeletAfter(g, m, s)
    requires forall i :: 0 <= i < 9 * x + 3 * y ==> newCubelets[i] == turned[i]
    modifies newCubelets
    ensures forall i :: 0 <= i < 9 * x + 3 * y + 3 ==> newCubelets[i] == turned[i]
  {
    for z := 0 to 3
      invariant forall i :: 0 <= i < 9 * x + 3 * y + z ==> newCubelets[i] == turned[i]
    {
      var s := Slot(x, y, z);
      assert turned[Index(s)] == CubeletAfter(g, m, s);
      newCubelets[Index(s)] := CubeletAfter(g, m, s);
    }
  }

  /** How many queued turns the consumer has performed after some passes:
      one per pass until the queue runs dry. */
  function Performed(passes: nat, queued: nat): nat {
    if passes < queued then passes else queued
  }

  /** One more pass performs the front of what is left of the queue, if
      anything is left. */
  lemma OnePass(g: Grid, q: seq<Move>, t: nat)
    ensures q[Performed(t, |q|)..] == [] ==> Performed(t + 1, |q|) == Performed(t, |q|)
    ensures q[Performed(t, |q|)..] != [] ==>
      var k := Performed(t, |q|);
      Performed(t + 1, |q|) == k + 1 && q[k..][0] == q[k] && q[k..][1..] == q[k + 1..] &&
      ApplyAll(g, q[..k + 1]) == Apply(ApplyAll(g, q[..k]), q[k])
  {
    var k := Performed(t, |q|);
    if k < |q| {
      ApplyAllSnoc(g, q, k);
      assert q[k..][1..] == q[k + 1..];
    }
  }

  class RubiksCube {
    /** The live grid: the module's 3×3×3 cubelet array, flattened by Index. */
    var cubelets: Grid
    /** Turns waiting to be performed, front first. */
    var queue: seq<Move>

    /** No cubelet is in two slots. */
    ghost predicate Valid()
      reads this
    {
      Distinct(cubelets)
    }

    /** Every slot starts with its own cubelet and nothing is queued. */
    constructor ()
      ensures Valid()
      ensures cubelets == Solved && queue == []
    {
      cubelets := Solved;
      queue := [];
    }

    /** One turn: the rewritten grid replaces the old one. */
    method PerformRotation(m: Move)
      requires Valid()
      modifies this`cubelets
      ensures Valid()
      ensures cubelets == Apply(old(cubelets), m)
    {
      ApplySlotwise(cubelets, m);
      var newCubelets := Rotated(cubelets, m, Apply(cubelets, m));
      ApplyKeepsDistinct(cubelets, m);
      cubelets := newCubelets;
    }

    /** One pass of the queue consumer: take the front turn, if any, and
        perform it. */
    method PerformMovesStep()
      requires Valid()
      modifies this
      ensures Valid()
      ensures old(queue) == [] ==> queue == [] && cubelets == old(cubelets)
      ensures old(queue) != [] ==>
        queue == old(queue)[1..] && cubelets == Apply(old(cubelets), old(queue)[0])
    {
      if |queue| > 0 {
        var move := queue[0];
        queue := queue[1..];
        PerformRotation(move);
      }
    }

    /** The queue consumer run for a number of passes: the queue's front turns
        are performed in order, first in first out. */
    method PerformMoves(passes: nat)
      requires Valid()
      modifies this
      ensures Valid()
      ensures queue == old(queue)[Performed(passes, |old(queue)|)..]
      ensures cubelets == ApplyAll(old(cubelets), old(queue)[..Performed(passes, |old(queue)|)])
    {
      ghost var q, g := queue, cubelets;
      for t := 0 to passes
        invariant Valid()
        invariant queue == q[Performed(t, |q|)..]
        invariant cubelets == ApplyAll(g, q[..Performed(t, |q|)])
      {
        OnePass(g, q, t);
        PerformMovesStep();
      }
    }

    /** The text command: its tokens in order, a move name performing that
        turn, a face letter with 2 performing it twice, anything else skipped. */
    method ProcessTwitchCommand(command: string)
      requires Valid()
      modifies this`cubelets
      ensures Valid()
      ensures cubelets == RunCommand(old(cubelets), command)
    {
      ghost var g := cubelets;
      var tokens := Split(command);
      for i := 0 to |tokens|
        invariant Valid()
        invariant cubelets == ApplyAll(g, CommandMoves(tokens[..i]))
      {
        var cmd := tokens[i];
        ghost var before := cubelets;
        RunTokensStep(g, tokens, i);
        var rot := Lookup(cmd);
        if rot.Some? {
          PerformRotation(rot.value);
        } else if |cmd| == 2 && cmd[1] == '2' && Lookup(cmd[..1]).Some? {
          var twice := Lookup(cmd[..1]).value;
          PerformRotation(twice);
          PerformRotation(twice);
        }
        TokenEffect(before, cmd);
      }
      assert tokens[..|tokens|] == tokens;
    }

    /** Activation: compute the solution from the bomb's serial number, ports,
        port plates and indicators, then queue every solution move, last first,
        as its opposite. An exception on the way leaves the queue untouched. */
    method ActivateModule(serial: string, ports: seq<string>, hasEmptyPlate: bool, litCount: nat, unlitCount: nat)
      returns (solution: Result<seq<string>>)
      modifies this`queue
      ensures solution == Solution(serial, ColumnShifts(ports), hasEmptyPlate, litCount, unlitCount)
      ensures solution.Success? ==>
        AllMoveNames(solution.value) && queue == old(queue) + ScrambleQueue(solution.value)
      ensures solution.Failure? ==> queue == old(queue)
    {
      var colShifts := ComputeColumnShifts(ports);
      var rows := Rows(serial, colShifts);
      if rows.Failure? {
        return Failure(rows.error);
      }
      var list := SolutionMoves(rows.value, hasEmptyPlate);
      var moves := new string[|list|](i requires 0 <= i < |list| => list[i]);
      assert moves[..] == list;
      if litCount >= unlitCount {
        if moves.Length < InvertedCount {
          return Failure(TooFewMovesToInvert(moves.Length));
        }
        InvertFirstSix(moves);
      }
      solution := Success(moves[..]);
      SolutionShape(serial, colShifts, hasEmptyPlate, litCount, unlitCount);
      EnqueueScramble(moves);
    }

    /** The queueing loop of activation: the moves from last to first, each
        looked up under its opposite name. */
    method EnqueueScramble(moves: array<string>)
      requires AllMoveNames(moves[..])
      modifies this`queue
      ensures queue == old(queue) + ScrambleQueue(moves[..])
    {
      ghost var scramble := ScrambleQueue(moves[..]);
      var j := moves.Length;
      while j > 0
        invariant 0 <= j <= moves.Length
        invariant queue == old(queue) + scramble[..moves.Length - j]
      {
        j := j - 1;
        assert IsMoveName(moves[..][j]);
        var next := Resolve(Opposite(moves[j]));
        assert next == scramble[moves.Length - 1 - j];
        assert scramble[..moves.Length - j] == scramble[..moves.Length - 1 - j] + [next];
        queue := queue + [next];
      }
      assert scramble[..moves.Length] == scramble;
    }
  }
}
