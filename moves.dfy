/** The move table of the cube module: the 27 grid slots, the twelve named
    quarter-turns (each a layer predicate and a source-coordinate map), and the
    string names under which the module looks the turns up. */
module Moves {

  datatype Option<T> = None | Some(value: T)

  /** One coordinate of the 3×3×3 grid. */
  type Coord = c: int | 0 <= c <= 2

  /** A grid position; (1, 1, 1) is the core, which no turn moves. */
  datatype Slot = Slot(x: Coord, y: Coord, z: Coord)

  const Core: Slot := Slot(1, 1, 1)

  /** The six slots with exactly two middle coordinates. */
  predicate IsFaceCentre(s: Slot) {
    (s.x == 1 && s.y == 1 && s.z != 1) ||
    (s.x == 1 && s.y != 1 && s.z == 1) ||
    (s.x != 1 && s.y == 1 && s.z == 1)
  }

  /** The grid is stored flat: slot (x, y, z) lives at 9x + 3y + z. */
  function Index(s: Slot): (i: nat)
    ensures i < 27
  {
    9 * s.x + 3 * s.y + s.z
  }

  /** The slot stored at index i. */
  function SlotAt(i: nat): (s: Slot)
    requires i < 27
    ensures Index(s) == i
  {
    var x := if i < 9 then 0 else if i < 18 then 1 else 2;
    var r := i - 9 * x;
    var y := if r < 3 then 0 else if r < 6 then 1 else 2;
    Slot(x, y, r - 3 * y)
  }

  lemma SlotAtIndex(s: Slot)
    ensures SlotAt(Index(s)) == s
  {
  }

  /** The twelve quarter-turns of the move table; XPrime is the
      counter-clockwise turn written X' in the module. */
  datatype Move = F | FPrime | B | BPrime | L | LPrime | R | RPrime | U | UPrime | D | DPrime

  /** The layer predicate of a move: the nine slots it carries round. */
  predicate OnLayer(m: Move, s: Slot) {
    match m
    case F | FPrime => s.z == 0
    case B | BPrime => s.z == 2
    case L | LPrime => s.x == 0
    case R | RPrime => s.x == 2
    case U | UPrime => s.y == 0
    case D | DPrime => s.y == 2
  }

  /** The source-coordinate map of a move: after the turn, slot s holds the
      cubelet that was at Source(m, s). The map never leaves the cube and keeps
      the turned layer's coordinate, so a slot is on the layer exactly when its
      source is. */
  function Source(m: Move, s: Slot): (t: Slot)
    ensures OnLayer(m, t) <==> OnLayer(m, s)
  {
    var x, y, z := s.x, s.y, s.z;
    match m
    case F => Slot(y, 2 - x, z)
    case FPrime => Slot(2 - y, x, z)
    case B => Slot(2 - y, x, z)
    case BPrime => Slot(y, 2 - x, z)
    case L => Slot(x, z, 2 - y)
    case LPrime => Slot(x, 2 - z, y)
    case R => Slot(x, 2 - z, y)
    case RPrime => Slot(x, z, 2 - y)
    case U => Slot(2 - z, y, x)
    case UPrime => Slot(z, y, 2 - x)
    case D => Slot(z, y, 2 - x)
    case DPrime => Slot(2 - z, y, x)
  }

  /** The turn of the same layer in the other direction: its source map undoes
      that of m on every slot. */
  function Inverse(m: Move): (r: Move)
    ensures r != m
    ensures forall s :: OnLayer(r, s) == OnLayer(m, s)
    ensures forall s :: Source(m, Source(r, s)) == s
  {
    match m
    case F => FPrime
    case FPrime => F
    case B => BPrime
    case BPrime => B
    case L => LPrime
    case LPrime => L
    case R => RPrime
    case RPrime => R
    case U => UPrime
    case UPrime => U
    case D => DPrime
    case DPrime => D
  }

  lemma InverseInvolution(m: Move)
    ensures Inverse(Inverse(m)) == m
  {
  }

  /** On its own layer the source map is a bijection: distinct slots have
      distinct sources, and every layer slot is the source of a layer slot. */
  lemma SourceBijectiveOnLayer(m: Move)
    ensures forall s, t :: OnLayer(m, s) && OnLayer(m, t) && Source(m, s) == Source(m, t) ==> s == t
    ensures forall t :: OnLayer(m, t) ==> OnLayer(m, Source(Inverse(m), t)) && Source(m, Source(Inverse(m), t)) == t
  {
    forall s, t | OnLayer(m, s) && OnLayer(m, t) && Source(m, s) == Source(m, t)
      ensures s == t
    {
      InverseInvolution(m);
      assert Source(Inverse(m), Source(m, s)) == s;
      assert Source(Inverse(m), Source(m, t)) == t;
    }
  }

  /** The half-turn about a move's axis: the two coordinates across the axis
      are reflected through the middle. */
  function HalfTurn(m: Move, s: Slot): Slot {
    match m
    case F | FPrime | B | BPrime => Slot(2 - s.x, 2 - s.y, s.z)
    case L | LPrime | R | RPrime => Slot(s.x, 2 - s.y, 2 - s.z)
    case U | UPrime | D | DPrime => Slot(2 - s.x, s.y, 2 - s.z)
  }

  /** Two quarter-turns of a layer, in either direction, make its half-turn. */
  lemma TwoQuarterTurns(m: Move, s: Slot)
    ensures Source(m, Source(m, s)) == HalfTurn(m, s)
  {
    var x, y, z := s.x, s.y, s.z;
    var t := Source(m, s);
    match m
    case F => assert t == Slot(y, 2 - x, z);
    case FPrime => assert t == Slot(2 - y, x, z);
    case B => assert t == Slot(2 - y, x, z);
    case BPrime => assert t == Slot(y, 2 - x, z);
    case L => assert t == Slot(x, z, 2 - y);
    case LPrime => assert t == Slot(x, 2 - z, y);
    case R => assert t == Slot(x, 2 - z, y);
    case RPrime => assert t == Slot(x, z, 2 - y);
    case U => assert t == Slot(2 - z, y, x);
    case UPrime => assert t == Slot(z, y, 2 - x);
    case D => assert t == Slot(z, y, 2 - x);
    case DPrime => assert t == Slot(2 - z, y, x);
  }

  /** Four quarter-turns of one layer bring every slot's source back to itself. */
  lemma SourceOrderFour(m: Move, s: Slot)
    ensures Source(m, Source(m, Source(m, Source(m, s)))) == s
  {
    TwoQuarterTurns(m, s);
    TwoQuarterTurns(m, HalfTurn(m, s));
  }

  /** The centre slot of the face a move turns. */
  function Centre(m: Move): (c: Slot)
    ensures IsFaceCentre(c) && OnLayer(m, c)
    ensures Source(m, c) == c
  {
    match m
    case F | FPrime => Slot(1, 1, 0)
    case B | BPrime => Slot(1, 1, 2)
    case L | LPrime => Slot(0, 1, 1)
    case R | RPrime => Slot(2, 1, 1)
    case U | UPrime => Slot(1, 0, 1)
    case D | DPrime => Slot(1, 2, 1)
  }

  /** A face centre is on a move's layer only when it is that move's own centre,
      and the core is on no layer. */
  lemma FaceCentreOnLayer(m: Move, c: Slot)
    requires IsFaceCentre(c) && OnLayer(m, c)
    ensures c == Centre(m)
    ensures !OnLayer(m, Core)
  {
  }

  /** m and o turn the two parallel faces on either side of the core:
      F/B, L/R or U/D, in either direction. */
  predicate OppositeSides(m: Move, o: Move) {
    match m
    case F | FPrime => o == B || o == BPrime
    case B | BPrime => o == F || o == FPrime
    case L | LPrime => o == R || o == RPrime
    case R | RPrime => o == L || o == LPrime
    case U | UPrime => o == D || o == DPrime
    case D | DPrime => o == U || o == UPrime
  }

  /** Opposite-side turns act on disjoint layers, and each one's source map
      keeps the slots of the other's layer where they are. */
  lemma OppositeSidesDisjoint(m: Move, o: Move, s: Slot)
    requires OppositeSides(m, o)
    ensures !(OnLayer(m, s) && OnLayer(o, s))
    ensures OnLayer(m, Source(o, s)) <==> OnLayer(m, s)
    ensures OppositeSides(o, m)
  {
  }

  // Names

  /** The name the solution table uses for a move. */
  function Name(m: Move): string {
    match m
    case F => "F"
    case FPrime => "F'"
    case B => "B"
    case BPrime => "B'"
    case L => "L"
    case LPrime => "L'"
    case R => "R"
    case RPrime => "R'"
    case U => "U"
    case UPrime => "U'"
    case D => "D"
    case DPrime => "D'"
  }

  /** The key under which the move dictionary stores a move. */
  function Key(m: Move): string {
    match m
    case F => "f"
    case FPrime => "f'"
    case B => "b"
    case BPrime => "b'"
    case L => "l"
    case LPrime => "l'"
    case R => "r"
    case RPrime => "r'"
    case U => "u"
    case UPrime => "u'"
    case D => "d"
    case DPrime => "d'"
  }

  function Lower(c: char): char {
    if 'A' <= c <= 'Z' then (c as int + 32) as char else c
  }

  /** ASCII case folding: no upper-case letter survives, and every
      character is replaced by its lower-case form. */
  function LowerString(s: string): (r: string)
    ensures |r| == |s|
    ensures forall i :: 0 <= i < |r| ==> !('A' <= r[i] <= 'Z')
    ensures forall i :: 0 <= i < |s| ==> r[i] == Lower(s[i])
  {
    seq(|s|, i requires 0 <= i < |s| => Lower(s[i]))
  }

  /** Folding an already folded string changes nothing. */
  lemma LowerStringIdempotent(s: string)
    ensures LowerString(LowerString(s)) == LowerString(s)
  {
    var t := LowerString(s);
    assert forall i :: 0 <= i < |t| ==> Lower(t[i]) == t[i];
  }

  /** The clockwise turn of the face named by a lower-case letter. */
  function FaceTurn(c: char): Option<Move> {
    if c == 'f' then Some(F)
    else if c == 'b' then Some(B)
    else if c == 'l' then Some(L)
    else if c == 'r' then Some(R)
    else if c == 'u' then Some(U)
    else if c == 'd' then Some(D)
    else None
  }

  /** Case-insensitive lookup in the move dictionary: a string finds a move
      exactly when its lower-case form is that move's key. */
  function Lookup(s: string): (r: Option<Move>)
    ensures r.Some? ==> LowerString(s) == Key(r.value)
    ensures r.None? ==> forall m :: LowerString(s) != Key(m)
  {
    if |s| == 1 then FaceTurn(Lower(s[0]))
    else if |s| == 2 && s[1] == '\'' then
      match FaceTurn(Lower(s[0]))
      case Some(m) => Some(Inverse(m))
      case None => None
    else None
  }

  predicate IsMoveName(s: string) {
    Lookup(s).Some?
  }

  /** The move a valid name stands for. */
  function Resolve(s: string): Move
    requires IsMoveName(s)
  {
    Lookup(s).value
  }

  lemma LookupName(m: Move)
    ensures Lookup(Name(m)) == Some(m)
    ensures Lookup(Key(m)) == Some(m)
  {
  }

  /** The module's name-level inverse: drop a trailing apostrophe, or add one.
      On a move name it names the inverse turn. */
  function Opposite(s: string): (r: string)
    ensures IsMoveName(s) ==> Lookup(r) == Some(Inverse(Resolve(s)))
  {
    if |s| > 0 && s[|s| - 1] == '\'' then s[..1] else s + "'"
  }

  /** Opposite is an involution on move names, and never fixes one. */
  lemma OppositeInvolution(s: string)
    requires IsMoveName(s)
    ensures Opposite(Opposite(s)) == s
    ensures Opposite(s) != s
  {
  }

  /** The opposite of a move name is the name of the inverse turn. */
  lemma ResolveOpposite(s: string)
    requires IsMoveName(s)
    ensures IsMoveName(Opposite(s)) && Resolve(Opposite(s)) == Inverse(Resolve(s))
  {
  }

  lemma OppositeName(m: Move)
    ensures Opposite(Name(m)) == Name(Inverse(m))
  {
  }
}
