/** The solution and scramble the module computes when it activates: column
    shifts from the ports, one table row per serial character, the row pairs
    laid out by the port-plate rule, the indicator rule, and the queued
    scramble that undoes the solution. */
module Scramble {
  import opened Moves
  import opened Rotation

  /** The exceptions that stop activation before anything is queued. */
  datatype ActivationError =
    | ShiftIndexOutOfRange(position: nat)  // colShifts[n % 3] with a negative remainder
    | TooFewMovesToInvert(count: nat)      // moves[i] for some i < 6 past the end

  datatype Result<T> = Success(value: T) | Failure(error: ActivationError)

  /** The solution table: twelve rows of two move names. */
  const Table: seq<(string, string)> := [
    ("L'", "F'"), ("D'", "U'"), ("U", "B'"), ("F", "B"),
    ("L", "D"), ("R'", "U"), ("U'", "F"), ("B'", "L'"),
    ("B", "R"), ("D", "L"), ("R", "D'"), ("F'", "R'")
  ]

  /** How many moves of the list the indicator rule inverts. */
  const InvertedCount := 6

  /** The turns the table's names stand for, row by row. */
  const TableMoves: seq<(Move, Move)> := [
    (LPrime, FPrime), (DPrime, UPrime), (U, BPrime), (F, B),
    (L, D), (RPrime, U), (UPrime, F), (BPrime, LPrime),
    (B, R), (D, L), (R, DPrime), (FPrime, RPrime)
  ]

  /** Every name in the table is a move name, for the turns listed in TableMoves. */
  lemma TableNamesAreMoves()
    ensures |Table| == 12
    ensures forall r :: 0 <= r < |Table| ==>
      Lookup(Table[r].0) == Some(TableMoves[r].0) && Lookup(Table[r].1) == Some(TableMoves[r].1)
  {
    forall r | 0 <= r < |Table|
      ensures Lookup(Table[r].0) == Some(TableMoves[r].0) && Lookup(Table[r].1) == Some(TableMoves[r].1)
    {
      var (a, b) := TableMoves[r];
      assert Table[r] == (Name(a), Name(b)) by {
        assert Table == seq(12, k requires 0 <= k < 12 => (Name(TableMoves[k].0), Name(TableMoves[k].1)));
      }
      LookupName(a);
      LookupName(b);
    }
  }

  // Column shifts

  /** Occurrences of port p in the list. */
  function Count(ports: seq<string>, p: string): nat
    decreases |ports|
  {
    if ports == [] then 0
    else Count(ports[..|ports| - 1], p) + (if ports[|ports| - 1] == p then 1 else 0)
  }

  /** Column A counts PS/2 ports once and serial ports twice, column B parallel
      ports once and stereo RCA ports twice, column C DVI ports once and RJ-45
      ports twice. */
  function ColumnShifts(ports: seq<string>): (shifts: seq<int>)
    ensures |shifts| == 3
    ensures forall k :: 0 <= k < 3 ==> shifts[k] >= 0
  {
    [Count(ports, "PS2") + 2 * Count(ports, "Serial"),
     Count(ports, "Parallel") + 2 * Count(ports, "StereoRCA"),
     Count(ports, "DVI") + 2 * Count(ports, "RJ45")]
  }

  /** The six port names that shift a column are six different strings. */
  lemma PortNamesDiffer()
    ensures "PS2" != "Serial" && "PS2" != "Parallel" && "PS2" != "StereoRCA" && "PS2" != "DVI" && "PS2" != "RJ45"
    ensures "Serial" != "Parallel" && "Serial" != "StereoRCA" && "Serial" != "DVI" && "Serial" != "RJ45"
    ensures "Parallel" != "StereoRCA" && "Parallel" != "DVI" && "Parallel" != "RJ45"
    ensures "StereoRCA" != "DVI" && "StereoRCA" != "RJ45" && "DVI" != "RJ45"
  {
    assert "PS2"[0] == 'P' && "Serial"[0] == 'S' && "Parallel"[0] == 'P' && "StereoRCA"[0] == 'S';
    assert "DVI"[0] == 'D' && "RJ45"[0] == 'R' && "PS2"[1] == 'S' && "Parallel"[1] == 'a';
    assert "Serial"[1] == 'e' && "StereoRCA"[1] == 't';
  }

  /** The port loop of activation: bump the column each port belongs to. */
  method ComputeColumnShifts(ports: seq<string>) returns (shifts: seq<int>)
    ensures shifts == ColumnShifts(ports)
  {
    var colShifts := new int[3](_ => 0);
    PortNamesDiffer();
    for i := 0 to |ports|
      invariant colShifts[0] == Count(ports[..i], "PS2") + 2 * Count(ports[..i], "Serial")
      invariant colShifts[1] == Count(ports[..i], "Parallel") + 2 * Count(ports[..i], "StereoRCA")
      invariant colShifts[2] == Count(ports[..i], "DVI") + 2 * Count(ports[..i], "RJ45")
    {
      var port := ports[i];
      assert ports[..i + 1][..i] == ports[..i];
      if port == "PS2" {
        colShifts[0] := colShifts[0] + 1;
      } else if port == "Parallel" {
        colShifts[1] := colShifts[1] + 1;
      } else if port == "DVI" {
        colShifts[2] := colShifts[2] + 1;
      } else if port == "Serial" {
        colShifts[0] := colShifts[0] + 2;
      } else if port == "StereoRCA" {
        colShifts[1] := colShifts[1] + 2;
      } else if port == "RJ45" {
        colShifts[2] := colShifts[2] + 2;
      }
    }
    assert ports[..|ports|] == ports;
    shifts := colShifts[..];
    assert shifts == [shifts[0], shifts[1], shifts[2]];
  }

  // Rows

  predicate IsSerialCharacter(ch: char) {
    '0' <= ch <= '9' || 'A' <= ch <= 'Z'
  }

  /** Digits count as themselves, every other character as its distance from
      'A' plus ten. */
  function CharValue(ch: char): (v: int)
    ensures IsSerialCharacter(ch) ==> 0 <= v < 36
    ensures '0' <= ch <= '9' ==> v < 10
    ensures 'A' <= ch <= 'Z' ==> 10 <= v
  {
    if '0' <= ch <= '9' then ch as int - '0' as int else ch as int - 'A' as int + 10
  }

  /** Integer division that truncates toward zero, as C#'s / does. */
  function TruncDiv(a: int, b: int): (q: int)
    requires b > 0
    ensures a >= 0 ==> 0 <= q && b * q <= a
    ensures a <= 0 ==> q <= 0 && a <= b * q
  {
    if a >= 0 then a / b else -((-a) / b)
  }

  /** The remainder that goes with TruncDiv, as C#'s % does: it takes the sign
      of the dividend. */
  function TruncRem(a: int, b: int): (r: int)
    requires b > 0
    ensures a == b * TruncDiv(a, b) + r
    ensures -b < r < b
    ensures a >= 0 ==> r >= 0
    ensures a <= 0 ==> r <= 0
  {
    if a >= 0 then a % b else -((-a) % b)
  }

  /** The table row a serial character selects: n / 3 less the shift of column
      n % 3, brought into range by the double remainder. None when n % 3 is
      negative, where the shift lookup is out of the array's bounds. A row is
      the unique table index congruent to n / 3 less the shift. */
  function Row(ch: char, shifts: seq<int>): (r: Option<int>)
    requires |shifts| == 3
    ensures r.None? <==> TruncRem(CharValue(ch), 3) < 0
    ensures r.Some? ==> 0 <= r.value < |Table|
    ensures r.Some? ==>
      (r.value - (TruncDiv(CharValue(ch), 3) - shifts[TruncRem(CharValue(ch), 3)])) % |Table| == 0
  {
    var n := CharValue(ch);
    var column := TruncRem(n, 3);
    if column < 0 then None
    else
      var k := TruncDiv(n, 3) - shifts[column];
      Some(Wrap(k))
  }

  /** C#'s ((k % 12) + 12) % 12, 12 being the table's length: the
      representative of k modulo 12 in [0, 12), whatever the sign of k. */
  function Wrap(k: int): (r: int)
    ensures 0 <= r < 12
    ensures (r - k) % 12 == 0
  {
    TruncRem(TruncRem(k, 12) + 12, 12)
  }

  /** Every digit and upper-case letter selects a row. */
  lemma SerialCharacterHasRow(ch: char, shifts: seq<int>)
    requires |shifts| == 3
    requires IsSerialCharacter(ch)
    ensures 0 <= CharValue(ch) < 36
    ensures Row(ch, shifts).Some?
  {
  }

  /** The rows of a serial number, or the position of the first character
      whose shift lookup fails. */
  function Rows(serial: string, shifts: seq<int>): (r: Result<seq<int>>)
    requires |shifts| == 3
    ensures r.Success? <==> forall i :: 0 <= i < |serial| ==> Row(serial[i], shifts).Some?
    ensures r.Success? ==> |r.value| == |serial|
    ensures r.Success? ==> forall i :: 0 <= i < |serial| ==> r.value[i] == Row(serial[i], shifts).value
    ensures r.Failure? ==>
      r.error.ShiftIndexOutOfRange? && r.error.position < |serial| &&
      Row(serial[r.error.position], shifts).None? &&
      forall i :: 0 <= i < r.error.position ==> Row(serial[i], shifts).Some?
    decreases |serial|
  {
    if serial == [] then Success([])
    else
      match Row(serial[0], shifts)
      case None => Failure(ShiftIndexOutOfRange(0))
      case Some(row) =>
        match Rows(serial[1..], shifts)
        case Failure(e) => Failure(ShiftIndexOutOfRange(e.position + 1))
        case Success(rest) => Success([row] + rest)
  }

  // Move lists

  predicate TableRows(rows: seq<int>) {
    forall i :: 0 <= i < |rows| ==> 0 <= rows[i] < |Table|
  }

  /** The table pair each row selects. */
  function RowPairs(rows: seq<int>): (ps: seq<(string, string)>)
    requires TableRows(rows)
  {
    seq(|rows|, i requires 0 <= i < |rows| => Table[rows[i]])
  }

  /** The first element of every pair, in order. */
  function Firsts<T>(ps: seq<(T, T)>): seq<T> {
    seq(|ps|, i requires 0 <= i < |ps| => ps[i].0)
  }

  /** The second element of every pair, in order. */
  function Seconds<T>(ps: seq<(T, T)>): seq<T> {
    seq(|ps|, i requires 0 <= i < |ps| => ps[i].1)
  }

  /** The pairs laid out one after another: elements 2k and 2k + 1 are pair k. */
  function Flatten<T>(ps: seq<(T, T)>): (xs: seq<T>)
    ensures |xs| == 2 * |ps|
    ensures forall k :: 0 <= k < |ps| ==> xs[2 * k] == ps[k].0 && xs[2 * k + 1] == ps[k].1
    decreases |ps|
  {
    if ps == [] then [] else [ps[0].0, ps[0].1] + Flatten(ps[1..])
  }

  /** Reading the pairs column by column or pair by pair gives the same
      elements, only in a different order. */
  lemma {:induction false} ColumnsPermuteFlatten<T>(ps: seq<(T, T)>)
    ensures multiset(Firsts(ps) + Seconds(ps)) == multiset(Flatten(ps))
    decreases |ps|
  {
    if ps != [] {
      var rest := ps[1..];
      var a, b := ps[0].0, ps[0].1;
      ColumnsPermuteFlatten(rest);
      ColumnsCons(ps);
      assert Flatten(ps) == [a, b] + Flatten(rest);
      calc {
        multiset(Firsts(ps) + Seconds(ps));
        multiset([a] + Firsts(rest) + [b] + Seconds(rest));
        multiset([a, b]) + multiset(Firsts(rest) + Seconds(rest));
        multiset([a, b] + Flatten(rest));
      }
    }
  }

  lemma ColumnsCons<T>(ps: seq<(T, T)>)
    requires ps != []
    ensures Firsts(ps) + Seconds(ps) == [ps[0].0] + Firsts(ps[1..]) + [ps[0].1] + Seconds(ps[1..])
  {
    assert Firsts(ps) == [ps[0].0] + Firsts(ps[1..]);
    assert Seconds(ps) == [ps[0].1] + Seconds(ps[1..]);
  }

  /** With an empty port plate all first moves come before all second moves;
      otherwise the pairs are laid out one after another. */
  function SolutionMoves(rows: seq<int>, hasEmptyPlate: bool): (ms: seq<string>)
    requires TableRows(rows)
    ensures |ms| == 2 * |rows|
  {
    var ps := RowPairs(rows);
    if hasEmptyPlate then Firsts(ps) + Seconds(ps) else Flatten(ps)
  }

  /** Both layouts hold two moves per row and differ only in order: position k
      and |rows| + k of the plate layout are positions 2k and 2k + 1 of the
      paired one, and the two lists are permutations of each other. */
  lemma LayoutsDifferOnlyInOrder(rows: seq<int>)
    requires TableRows(rows)
    ensures |SolutionMoves(rows, true)| == |SolutionMoves(rows, false)| == 2 * |rows|
    ensures forall k :: 0 <= k < |rows| ==>
      SolutionMoves(rows, true)[k] == SolutionMoves(rows, false)[2 * k] == Table[rows[k]].0 &&
      SolutionMoves(rows, true)[|rows| + k] == SolutionMoves(rows, false)[2 * k + 1] == Table[rows[k]].1
    ensures multiset(SolutionMoves(rows, true)) == multiset(SolutionMoves(rows, false))
  {
    ColumnsPermuteFlatten(RowPairs(rows));
  }

  predicate AllMoveNames(ms: seq<string>) {
    forall i :: 0 <= i < |ms| ==> IsMoveName(ms[i])
  }

  /** Both names of every pair are move names. */
  predicate PairsOfNames(ps: seq<(string, string)>) {
    forall k :: 0 <= k < |ps| ==> IsMoveName(ps[k].0) && IsMoveName(ps[k].1)
  }

  lemma RowPairsAreNames(rows: seq<int>)
    requires TableRows(rows)
    ensures PairsOfNames(RowPairs(rows))
  {
    TableNamesAreMoves();
    forall k | 0 <= k < |rows|
      ensures IsMoveName(RowPairs(rows)[k].0) && IsMoveName(RowPairs(rows)[k].1)
    {
      assert RowPairs(rows)[k] == Table[rows[k]];
    }
  }

  /** Laying out pairs of move names column by column lists only move names. */
  lemma ColumnsKeepNames(ps: seq<(string, string)>)
    requires PairsOfNames(ps)
    ensures AllMoveNames(Firsts(ps) + Seconds(ps))
  {
    var xs := Firsts(ps) + Seconds(ps);
    forall i | 0 <= i < |xs|
      ensures IsMoveName(xs[i])
    {
      ColumnsAt(ps, i);
    }
  }

  /** Entry i of the column layout: the first elements, then the second ones. */
  lemma ColumnsAt<T>(ps: seq<(T, T)>, i: nat)
    requires i < 2 * |ps|
    ensures |Firsts(ps) + Seconds(ps)| == 2 * |ps|
    ensures i < |ps| ==> (Firsts(ps) + Seconds(ps))[i] == ps[i].0
    ensures i >= |ps| ==> (Firsts(ps) + Seconds(ps))[i] == ps[i - |ps|].1
  {
  }

  /** Laying out pairs of move names pair by pair lists only move names. */
  lemma PairsKeepNames(ps: seq<(string, string)>)
    requires PairsOfNames(ps)
    ensures AllMoveNames(Flatten(ps))
  {
    var xs := Flatten(ps);
    forall i | 0 <= i < |xs|
      ensures IsMoveName(xs[i])
    {
      FlattenAt(ps, i);
      var k := i / 2;
      assert xs[i] == ps[k].0 || xs[i] == ps[k].1;
    }
  }

  /** Entry i of the pair-by-pair layout belongs to pair i / 2. */
  lemma FlattenAt<T>(ps: seq<(T, T)>, i: nat)
    requires i < 2 * |ps|
    ensures i / 2 < |ps|
    ensures i == 2 * (i / 2) || i == 2 * (i / 2) + 1
    ensures i == 2 * (i / 2) ==> Flatten(ps)[i] == ps[i / 2].0
    ensures i == 2 * (i / 2) + 1 ==> Flatten(ps)[i] == ps[i / 2].1
  {
  }

  /** Every move either layout lists is a move name. */
  lemma SolutionMovesAreNames(rows: seq<int>, hasEmptyPlate: bool)
    requires TableRows(rows)
    ensures AllMoveNames(SolutionMoves(rows, hasEmptyPlate))
  {
    RowPairsAreNames(rows);
    if hasEmptyPlate {
      ColumnsKeepNames(RowPairs(rows));
    } else {
      PairsKeepNames(RowPairs(rows));
    }
  }

  /** The indicator rule: each of the first six moves replaced by its opposite. */
  function InvertPrefix(ms: seq<string>): (r: seq<string>)
    requires |ms| >= InvertedCount
  {
    seq(|ms|, i requires 0 <= i < |ms| => if i < InvertedCount then Opposite(ms[i]) else ms[i])
  }

  /** The indicator loop of activation, rewriting the first six entries in place. */
  method InvertFirstSix(moves: array<string>)
    requires moves.Length >= InvertedCount
    modifies moves
    ensures moves[..] == InvertPrefix(old(moves[..]))
  {
    for i := 0 to InvertedCount
      invariant moves[..] == seq(moves.Length, k requires 0 <= k < moves.Length =>
        if k < i then Opposite(old(moves[k])) else old(moves[k]))
    {
      moves[i] := Opposite(moves[i]);
    }
  }

  /** On a list of move names the rule changes exactly the first six entries,
      each into the inverse turn, keeps the list a list of move names, and
      undoes itself. */
  lemma InvertPrefixExact(ms: seq<string>)
    requires |ms| >= InvertedCount && AllMoveNames(ms)
    ensures |InvertPrefix(ms)| == |ms| && AllMoveNames(InvertPrefix(ms))
    ensures forall i :: 0 <= i < |ms| ==> (InvertPrefix(ms)[i] != ms[i] <==> i < InvertedCount)
    ensures forall i :: 0 <= i < InvertedCount ==> Resolve(InvertPrefix(ms)[i]) == Inverse(Resolve(ms[i]))
    ensures InvertPrefix(InvertPrefix(ms)) == ms
  {
    forall i | 0 <= i < InvertedCount
      ensures Opposite(ms[i]) != ms[i] && Opposite(Opposite(ms[i])) == ms[i]
    {
      OppositeInvolution(ms[i]);
    }
  }

  // The solution and the scramble

  /** The solution the module computes, or the exception that stops it: the
      indicator rule applies when lit indicators are at least as many as unlit
      ones, and needs at least six moves. */
  function Solution(serial: string, shifts: seq<int>, hasEmptyPlate: bool, litCount: nat, unlitCount: nat)
    : (r: Result<seq<string>>)
    requires |shifts| == 3
  {
    match Rows(serial, shifts)
    case Failure(e) => Failure(e)
    case Success(rows) =>
      var moves := SolutionMoves(rows, hasEmptyPlate);
      if litCount >= unlitCount then
        if |moves| < InvertedCount then Failure(TooFewMovesToInvert(|moves|))
        else Success(InvertPrefix(moves))
      else Success(moves)
  }

  /** A solution has two move names per serial character; it exists exactly
      when every character selects a row and, if the indicator rule applies,
      the serial has at least three characters. */
  lemma SolutionShape(serial: string, shifts: seq<int>, hasEmptyPlate: bool, litCount: nat, unlitCount: nat)
    requires |shifts| == 3
    ensures var r := Solution(serial, shifts, hasEmptyPlate, litCount, unlitCount);
      r.Success? <==>
        (forall i :: 0 <= i < |serial| ==> Row(serial[i], shifts).Some?) &&
        (litCount >= unlitCount ==> 2 * |serial| >= InvertedCount)
    ensures var r := Solution(serial, shifts, hasEmptyPlate, litCount, unlitCount);
      r.Success? ==> |r.value| == 2 * |serial| && AllMoveNames(r.value)
  {
    var rs := Rows(serial, shifts);
    if rs.Success? {
      var rows := rs.value;
      LayoutsDifferOnlyInOrder(rows);
      var moves := SolutionMoves(rows, hasEmptyPlate);
      SolutionMovesAreNames(rows, hasEmptyPlate);
      if litCount >= unlitCount && |moves| >= InvertedCount {
        InvertPrefixExact(moves);
      }
    }
  }

  /** A serial number of at least three digits and upper-case letters always
      yields a solution. */
  lemma SerialNumberSolves(serial: string, shifts: seq<int>, hasEmptyPlate: bool, litCount: nat, unlitCount: nat)
    requires |shifts| == 3
    requires |serial| >= 3
    requires forall i :: 0 <= i < |serial| ==> IsSerialCharacter(serial[i])
    ensures Solution(serial, shifts, hasEmptyPlate, litCount, unlitCount).Success?
  {
    forall i | 0 <= i < |serial|
      ensures Row(serial[i], shifts).Some?
    {
      SerialCharacterHasRow(serial[i], shifts);
    }
    SolutionShape(serial, shifts, hasEmptyPlate, litCount, unlitCount);
  }

  /** The turns a list of move names stands for. */
  function Resolved(ms: seq<string>): (r: seq<Move>)
    requires AllMoveNames(ms)
  {
    seq(|ms|, i requires 0 <= i < |ms| => Resolve(ms[i]))
  }

  /** What activation queues: the solution read backwards, each move replaced
      by its opposite. */
  function ScrambleQueue(solution: seq<string>): (q: seq<Move>)
    requires AllMoveNames(solution)
    ensures |q| == |solution|
  {
    var n := |solution|;
    seq(n, i requires 0 <= i < n => Resolve(Opposite(solution[n - 1 - i])))
  }

  /** The queued scramble is exactly the undo list of the solution's turns. */
  lemma ScrambleUndoesSolution(solution: seq<string>)
    requires AllMoveNames(solution)
    ensures ScrambleQueue(solution) == Undo(Resolved(solution))
  {
    var n := |solution|;
    forall i | 0 <= i < n
      ensures ScrambleQueue(solution)[i] == Undo(Resolved(solution))[i]
    {
      ResolveOpposite(solution[n - 1 - i]);
    }
  }

  /** Applying the scramble and then the solution returns any grid to the
      arrangement it started from. */
  lemma ScrambleThenSolve(g: Grid, solution: seq<string>)
    requires AllMoveNames(solution)
    ensures ApplyAll(ApplyAll(g, ScrambleQueue(solution)), Resolved(solution)) == g
  {
    ScrambleUndoesSolution(solution);
    UndoThenApply(g, Resolved(solution));
  }
}
