/** The rotation step as a function on the 27-entry cubelet grid, its fold over
    a list of moves, and the group laws the move table makes it obey. */
module Rotation {
  import opened Moves

  /** One cubelet id per slot, stored at Index(slot); the core slot is included,
      as in the module's 3×3×3 array. */
  type Grid = g: seq<int> | |g| == 27 witness seq(27, i => 0)

  /** The arrangement the module starts from: every slot holds its own cubelet. */
  const Solved: Grid := seq(27, i => i)

  /** Each cubelet appears in at most one slot. */
  predicate Distinct(g: Grid) {
    forall i, j :: 0 <= i < j < 27 ==> g[i] != g[j]
  }

  /** One turn: a slot on the move's layer takes the cubelet from its source
      slot, every other slot keeps its cubelet. */
  function Apply(g: Grid, m: Move): (r: Grid)
    ensures forall s :: !OnLayer(m, s) ==> r[Index(s)] == g[Index(s)]
    ensures r[Index(Centre(m))] == g[Index(Centre(m))]
  {
    SlotsIndexed();
    seq(27, i requires 0 <= i < 27 => CubeletAfter(g, m, SlotAt(i)))
  }

  lemma SlotsIndexed()
    ensures forall s :: SlotAt(Index(s)) == s
  {
    forall s
      ensures SlotAt(Index(s)) == s
    {
      SlotAtIndex(s);
    }
  }

  /** The cubelet slot s holds after turn m. */
  function CubeletAfter(g: Grid, m: Move, s: Slot): int {
    if OnLayer(m, s) then g[Index(Source(m, s))] else g[Index(s)]
  }

  /** Slot-wise reading of Apply. */
  lemma ApplyAt(g: Grid, m: Move, s: Slot)
    ensures Apply(g, m)[Index(s)] == if OnLayer(m, s) then g[Index(Source(m, s))] else g[Index(s)]
  {
    SlotAtIndex(s);
  }

  /** ApplyAt for every slot at once, phrased with CubeletAfter, the form the
      module's rewrite loop uses. */
  lemma ApplySlotwise(g: Grid, m: Move)
    ensures forall s :: Apply(g, m)[Index(s)] == CubeletAfter(g, m, s)
  {
    forall s
      ensures Apply(g, m)[Index(s)] == CubeletAfter(g, m, s)
    {
      ApplyAt(g, m, s);
    }
  }

  /** Two grids that agree on every slot are equal. */
  lemma GridsEqual(a: Grid, b: Grid)
    requires forall s :: a[Index(s)] == b[Index(s)]
    ensures a == b
  {
    forall i | 0 <= i < 27
      ensures a[i] == b[i]
    {
      assert Index(SlotAt(i)) == i;
    }
  }

  /** The inverse turn undoes a turn. */
  lemma ApplyThenInverse(g: Grid, m: Move)
    ensures Apply(Apply(g, m), Inverse(m)) == g
  {
    var h := Apply(g, m);
    var r := Apply(h, Inverse(m));
    forall s
      ensures r[Index(s)] == g[Index(s)]
    {
      ApplyAt(h, Inverse(m), s);
      if OnLayer(m, s) {
        InverseInvolution(m);
        ApplyAt(g, m, Source(Inverse(m), s));
      }
    }
    GridsEqual(r, g);
  }

  /** A turn undoes its inverse. */
  lemma InverseThenApply(g: Grid, m: Move)
    ensures Apply(Apply(g, Inverse(m)), m) == g
  {
    ApplyThenInverse(g, Inverse(m));
    InverseInvolution(m);
  }

  /** Performing the turn a name stands for and then the turn its opposite
      name stands for restores the grid. */
  lemma OppositeNameUndoes(g: Grid, s: string)
    requires IsMoveName(s)
    ensures IsMoveName(Opposite(s))
    ensures Apply(Apply(g, Resolve(s)), Resolve(Opposite(s))) == g
  {
    ApplyThenInverse(g, Resolve(s));
  }

  /** Every turn has order four. */
  lemma ApplyFourTimes(g: Grid, m: Move)
    ensures Apply(Apply(Apply(Apply(g, m), m), m), m) == g
  {
    var g1 := Apply(g, m);
    var g2 := Apply(g1, m);
    var g3 := Apply(g2, m);
    var g4 := Apply(g3, m);
    forall s
      ensures g4[Index(s)] == g[Index(s)]
    {
      ApplyAt(g3, m, s);
      if OnLayer(m, s) {
        var s1 := Source(m, s);
        var s2 := Source(m, s1);
        var s3 := Source(m, s2);
        ApplyAt(g2, m, s1);
        ApplyAt(g1, m, s2);
        ApplyAt(g, m, s3);
        SourceOrderFour(m, s);
      }
    }
    GridsEqual(g4, g);
  }

  /** Turns of opposite faces commute. */
  lemma OppositeSidesCommute(g: Grid, m: Move, o: Move)
    requires OppositeSides(m, o)
    ensures Apply(Apply(g, m), o) == Apply(Apply(g, o), m)
  {
    var mo := Apply(Apply(g, m), o);
    var om := Apply(Apply(g, o), m);
    forall s
      ensures mo[Index(s)] == om[Index(s)]
    {
      OppositeSidesDisjoint(m, o, s);
      OppositeSidesDisjoint(o, m, s);
      ApplyAt(Apply(g, m), o, s);
      ApplyAt(Apply(g, o), m, s);
      ApplyAt(g, m, s);
      ApplyAt(g, o, s);
      if OnLayer(o, s) {
        OppositeSidesDisjoint(m, o, Source(o, s));
        ApplyAt(g, m, Source(o, s));
      }
      if OnLayer(m, s) {
        OppositeSidesDisjoint(o, m, Source(m, s));
        ApplyAt(g, o, Source(m, s));
      }
    }
    GridsEqual(mo, om);
  }

  /** No turn moves a face centre's cubelet (nor the core's). */
  lemma FaceCentresStay(g: Grid, m: Move, c: Slot)
    requires IsFaceCentre(c) || c == Core
    ensures Apply(g, m)[Index(c)] == g[Index(c)]
  {
    if OnLayer(m, c) {
      FaceCentreOnLayer(m, c);
    }
  }

  /** A turn only rearranges cubelets: the cubelets on the grid afterwards are
      exactly those before. */
  lemma ApplyKeepsCubelets(g: Grid, m: Move)
    ensures forall c :: c in Apply(g, m) <==> c in g
  {
    ApplyBringsOnlyCubelets(g, m);
    ApplyLosesNoCubelet(g, m);
  }

  lemma ApplyBringsOnlyCubelets(g: Grid, m: Move)
    ensures forall c :: c in Apply(g, m) ==> c in g
  {
    forall c | c in Apply(g, m)
      ensures c in g
    {
      var i :| 0 <= i < 27 && Apply(g, m)[i] == c;
      var s := SlotAt(i);
      TakenAt(g, m, s);
      assert g[Index(Taken(m, s))] == c;
    }
  }

  lemma ApplyLosesNoCubelet(g: Grid, m: Move)
    ensures forall c :: c in g ==> c in Apply(g, m)
  {
    forall c | c in g
      ensures c in Apply(g, m)
    {
      var j :| 0 <= j < 27 && g[j] == c;
      var t := SlotAt(j);
      var s := if OnLayer(m, t) then Source(Inverse(m), t) else t;
      TakenOnto(m, t);
      TakenAt(g, m, s);
      assert Apply(g, m)[Index(s)] == c;
    }
  }

  /** The slot whose cubelet a turn brings to s. */
  function Taken(m: Move, s: Slot): Slot {
    if OnLayer(m, s) then Source(m, s) else s
  }

  lemma TakenAt(g: Grid, m: Move, s: Slot)
    ensures Apply(g, m)[Index(s)] == g[Index(Taken(m, s))]
  {
    ApplyAt(g, m, s);
  }

  /** Every slot's cubelet is taken somewhere: by its preimage under the turn. */
  lemma TakenOnto(m: Move, t: Slot)
    ensures Taken(m, if OnLayer(m, t) then Source(Inverse(m), t) else t) == t
  {
    if OnLayer(m, t) {
      SourceBijectiveOnLayer(m);
    }
  }

  lemma TakenInjective(m: Move, s: Slot, t: Slot)
    requires s != t
    ensures Taken(m, s) != Taken(m, t)
  {
    if OnLayer(m, s) && OnLayer(m, t) {
      SourceBijectiveOnLayer(m);
    }
  }

  lemma IndexInjective(s: Slot, t: Slot)
    requires s != t
    ensures Index(s) != Index(t)
  {
    SlotAtIndex(s);
    SlotAtIndex(t);
  }

  /** A turn never puts one cubelet into two slots. */
  lemma ApplyKeepsDistinct(g: Grid, m: Move)
    requires Distinct(g)
    ensures Distinct(Apply(g, m))
  {
    var r := Apply(g, m);
    forall i, j | 0 <= i < j < 27
      ensures r[i] != r[j]
    {
      var si, sj := SlotAt(i), SlotAt(j);
      TakenAt(g, m, si);
      TakenAt(g, m, sj);
      TakenInjective(m, si, sj);
      IndexInjective(Taken(m, si), Taken(m, sj));
    }
  }

  /** A list of turns, applied first to last. */
  function ApplyAll(g: Grid, ms: seq<Move>): Grid
    decreases |ms|
  {
    if ms == [] then g else ApplyAll(Apply(g, ms[0]), ms[1..])
  }

  lemma {:induction false} ApplyAllAppend(g: Grid, a: seq<Move>, b: seq<Move>)
    ensures ApplyAll(g, a + b) == ApplyAll(ApplyAll(g, a), b)
    decreases |a|
  {
    if a == [] {
      assert a + b == b;
    } else {
      assert (a + b)[0] == a[0];
      assert (a + b)[1..] == a[1..] + b;
      ApplyAllAppend(Apply(g, a[0]), a[1..], b);
    }
  }

  /** Performing the first k + 1 turns of a list is performing the first k and
      then turn k. */
  lemma ApplyAllSnoc(g: Grid, q: seq<Move>, k: nat)
    requires k < |q|
    ensures ApplyAll(g, q[..k + 1]) == Apply(ApplyAll(g, q[..k]), q[k])
  {
    assert q[..k + 1] == q[..k] + [q[k]];
    ApplyAllAppend(g, q[..k], [q[k]]);
  }

  lemma {:induction false} ApplyAllPermutes(g: Grid, ms: seq<Move>)
    requires Distinct(g)
    ensures Distinct(ApplyAll(g, ms))
    decreases |ms|
  {
    if ms != [] {
      ApplyKeepsDistinct(g, ms[0]);
      ApplyAllPermutes(Apply(g, ms[0]), ms[1..]);
    }
  }

  /** The list that undoes ms: its inverses, last first. */
  function Undo(ms: seq<Move>): (u: seq<Move>)
    ensures |u| == |ms|
    ensures forall i :: 0 <= i < |ms| ==> u[i] == Inverse(ms[|ms| - 1 - i])
  {
    seq(|ms|, i requires 0 <= i < |ms| => Inverse(ms[|ms| - 1 - i]))
  }

  /** Undoing the undo list gives back the original list. */
  lemma UndoInvolution(ms: seq<Move>)
    ensures Undo(Undo(ms)) == ms
  {
    forall i | 0 <= i < |ms|
      ensures Undo(Undo(ms))[i] == ms[i]
    {
      InverseInvolution(ms[i]);
    }
  }

  /** The undo list of a concatenation undoes the second part first. */
  lemma UndoAppend(a: seq<Move>, b: seq<Move>)
    ensures Undo(a + b) == Undo(b) + Undo(a)
  {
  }

  lemma UndoCons(m: Move, ms: seq<Move>)
    ensures Undo([m] + ms) == Undo(ms) + [Inverse(m)]
  {
  }

  /** Applying Undo(ms) and then ms leaves any grid as it was. */
  lemma {:induction false} UndoThenApply(g: Grid, ms: seq<Move>)
    ensures ApplyAll(ApplyAll(g, Undo(ms)), ms) == g
    decreases |ms|
  {
    if ms != [] {
      var m, rest := ms[0], ms[1..];
      assert ms == [m] + rest;
      UndoCons(m, rest);
      var h := ApplyAll(g, Undo(rest));
      ApplyAllAppend(g, Undo(rest), [Inverse(m)]);
      assert ApplyAll(g, Undo(ms)) == Apply(h, Inverse(m));
      InverseThenApply(h, m);
      UndoThenApply(g, rest);
    }
  }

  /** Applying ms and then Undo(ms) leaves any grid as it was. */
  lemma {:induction false} ApplyThenUndo(g: Grid, ms: seq<Move>)
    ensures ApplyAll(ApplyAll(g, ms), Undo(ms)) == g
    decreases |ms|
  {
    if ms != [] {
      var m, rest := ms[0], ms[1..];
      assert ms == [m] + rest;
      UndoCons(m, rest);
      var h := Apply(g, m);
      ApplyThenUndo(h, rest);
      ApplyAllAppend(ApplyAll(h, rest), Undo(rest), [Inverse(m)]);
      ApplyThenInverse(g, m);
    }
  }
}
