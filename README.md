# Rubik's Cube module — a verified model

This project models the core of the "Rubik's Cube" bomb module
(`Assets/RubiksCubeModule.cs`):

- the move table. It holds twelve named quarter-turns (`f`, `f'`, `b`, …, `d'`). Each turn has a
  layer predicate (`OnAxis`) and a source-coordinate map (`MapX`/`MapY`/`MapZ`);
- the rotation step `PerformRotation`, which rewrites the 3×3×3 cubelet array;
- the name-level inverse `opposite`;
- activation, which computes the solution from the bomb's serial number, ports, port plates and
  indicators, then queues the scramble (the solution reversed, each move replaced by its opposite);
- the queue consumer `PerformMoves`;
- the text command handler `ProcessTwitchCommand`.

Files and modules:

| file | module | contents |
|---|---|---|
| `moves.dfy` | `Moves` | grid slots, the `Move` datatype, layer predicates and source maps, `Inverse`, names, the case-insensitive `Lookup`, `Opposite` |
| `rotation.dfy` | `Rotation` | the 27-entry grid, `Apply` (one turn as a function), `ApplyAll`, `Undo` and the group laws |
| `scramble.dfy` | `Scramble` | the solution table, column shifts, rows, the two layouts, the indicator rule, the scramble queue |
| `command.dfy` | `Command` | splitting a command into tokens, the turns each token stands for, `RunCommand` |
| `cube_module.dfy` | `CubeModule` | the class `RubiksCube`, with the cubelet grid and the queue as fields, and the imperative operations |

The cubelet array is a flat `seq<int>` of 27 cubelet ids. Slot (x, y, z) is stored at 9x + 3y + z.
The core slot is kept, as in the source's `Transform[3,3,3]`. `PerformRotation` fills a fresh
array in the same triple loop as the source, then installs it. The loop body's choice between an
on-layer slot's source cubelet and its own cubelet is the function `Rotation.CubeletAfter`. Its contract ties the new grid to
the function `Rotation.Apply`. Every law of the move group is proved about `Apply`:

- inverse;
- order four;
- commuting opposite faces;
- fixed face centres;
- permutation of the cubelets.

What the source does, and the model with it:

- The row of a serial character is `((n / 3 − shift[n % 3]) % 12 + 12) % 12`: the column's shift
  is subtracted from n / 3.
- When at least as many indicators are lit as unlit, the first six moves (indices 0–5) are
  inverted.
- An unknown token in a command is skipped, and the rest of the command still runs.
- The grid has 27 slots, including the core.
- Activation takes its inputs from the serial number, ports, port plates and indicators only. There is no colour
  shuffle, no solution minimiser, no move history or reset, and no solved-state check.

C#'s `/` and `%` truncate toward zero, and the model writes them out as `TruncDiv` and `TruncRem`.
For a character below `'0'` that is not a digit, `n % 3` can be negative. `colShifts[n % 3]` then
throws. If the indicator rule applies to fewer than six moves, `moves[i]` throws. The model
returns both exceptions as `Failure` values, and in both cases nothing is queued.

## Model

| member | source | states |
|---|---|---|
| Moves.OnLayer | Assets/RubiksCubeModule.cs:152-163 | the `OnAxis` predicate of each move: the nine slots whose coordinate along the turned axis is that face's; it has no ensures of its own, and Source, FaceCentreOnLayer and OppositeSidesDisjoint state its properties |
| Moves.Source | Assets/RubiksCubeModule.cs:152-163 | the source-coordinate map of every move, exactly as the table lists it; a slot is on the turned layer iff its source slot is |
| Moves.Inverse | Assets/RubiksCubeModule.cs:152-163 | each move has a partner turn of the same layer whose map undoes its map on every slot, and the partner is a different move |
| Moves.InverseInvolution | Assets/RubiksCubeModule.cs:152-163 | the partner of the partner is the move itself |
| Moves.SourceBijectiveOnLayer | Assets/RubiksCubeModule.cs:152-163 | on its layer, each move's map is injective and onto (a bijection of the nine layer slots) |
| Moves.SourceOrderFour | Assets/RubiksCubeModule.cs:152-163 | applying a move's map four times gives back the slot |
| Moves.TwoQuarterTurns | Assets/RubiksCubeModule.cs:152-163 | two quarter-turns of a layer, clockwise or counter-clockwise, reflect the two coordinates across the axis (a half-turn) |
| Moves.Centre | Assets/RubiksCubeModule.cs:152-163 | each move's face centre is on its layer and is a fixed point of its map |
| Moves.FaceCentreOnLayer | Assets/RubiksCubeModule.cs:152-163 | the only face centre on a move's layer is that move's own centre |
| Moves.OppositeSidesDisjoint | Assets/RubiksCubeModule.cs:152-163 | turns of opposite faces have disjoint layers, and neither map moves a slot on or off the other's layer |
| Moves.LowerString | Assets/RubiksCubeModule.cs:151 | case folding keeps the length and leaves no upper-case letter |
| Moves.LowerStringIdempotent | Assets/RubiksCubeModule.cs:151 | folding an already folded string changes nothing |
| Moves.Lookup | Assets/RubiksCubeModule.cs:151-163 | the dictionary finds a move exactly when the string, case-folded, is that move's key; otherwise no key matches |
| Moves.LookupName | Assets/RubiksCubeModule.cs:151-163 | every move's table name and its dictionary key both look up to that move |
| Moves.Opposite | Assets/RubiksCubeModule.cs:109-114 | for every move name, the opposite name looks up to the inverse turn |
| Moves.OppositeInvolution | Assets/RubiksCubeModule.cs:109-114 | on a move name, `opposite` is an involution and never returns its argument |
| Moves.ResolveOpposite | Assets/RubiksCubeModule.cs:109-114 | the opposite of a move name is again a move name, and it names the inverse turn |
| Moves.OppositeName | Assets/RubiksCubeModule.cs:109-114 | the opposite of a move's name is the name of its inverse |
| Rotation.Apply | Assets/RubiksCubeModule.cs:186-197 | one turn leaves every slot off the layer unchanged, and leaves the turned face's centre unchanged |
| Rotation.ApplyAt | Assets/RubiksCubeModule.cs:190-196 | after a turn, an on-layer slot holds the cubelet from its source slot, and every other slot keeps its own |
| Rotation.CubeletAfter | Assets/RubiksCubeModule.cs:190-196 | the loop body's choice for one slot; it has no ensures of its own, and ApplyAt and ApplySlotwise tie it to Apply |
| Rotation.ApplyThenInverse | Assets/RubiksCubeModule.cs:186-197 | a turn followed by its inverse restores every grid |
| Rotation.InverseThenApply | Assets/RubiksCubeModule.cs:186-197 | an inverse turn followed by the turn restores every grid |
| Rotation.OppositeNameUndoes | Assets/RubiksCubeModule.cs:109-114 | the turn a name stands for, followed by the turn its opposite name stands for, restores every grid |
| Rotation.ApplyFourTimes | Assets/RubiksCubeModule.cs:186-197 | every turn has order four on grids |
| Rotation.OppositeSidesCommute | Assets/RubiksCubeModule.cs:152-163 | turns of opposite faces commute on every grid |
| Rotation.FaceCentresStay | Assets/RubiksCubeModule.cs:186-197 | no turn moves the cubelet at a face centre or at the core |
| Rotation.ApplyKeepsCubelets | Assets/RubiksCubeModule.cs:186-197 | a turn keeps exactly the same set of cubelets on the grid |
| Rotation.ApplyKeepsDistinct | Assets/RubiksCubeModule.cs:186-197 | a turn never puts one cubelet into two slots |
| Rotation.ApplyAll | Assets/RubiksCubeModule.cs:116-128 | the turns of a list performed first to last, as the queue consumer and the command loop do; it has no ensures of its own, and ApplyAllAppend, ApplyAllPermutes and PerformMoves state its properties |
| Rotation.ApplyAllAppend | Assets/RubiksCubeModule.cs:116-128 | performing a list of queued turns is performing its first part, then the rest |
| Rotation.ApplyAllPermutes | Assets/RubiksCubeModule.cs:116-128 | any sequence of turns keeps the cubelets distinct |
| Rotation.UndoInvolution | Assets/RubiksCubeModule.cs:104-105 | undoing the undo list of a turn list gives back that list |
| Rotation.UndoAppend | Assets/RubiksCubeModule.cs:104-105 | the undo list of a concatenation is the second part undone, then the first |
| Rotation.UndoThenApply | Assets/RubiksCubeModule.cs:104-105 | the undo list followed by the list restores every grid |
| Rotation.ApplyThenUndo | Assets/RubiksCubeModule.cs:104-105 | the list followed by its undo list restores every grid |
| Scramble.TableNamesAreMoves | Assets/RubiksCubeModule.cs:79 | the table has twelve rows, and every name in it is a move name for the listed turn |
| Scramble.ColumnShifts | Assets/RubiksCubeModule.cs:80-90 | there are three column shifts, and none is negative |
| Scramble.ComputeColumnShifts | Assets/RubiksCubeModule.cs:80-90 | the port loop adds 1 for PS2/Parallel/DVI and 2 for Serial/StereoRCA/RJ45 to columns A/B/C, and ignores other ports |
| Scramble.CharValue | Assets/RubiksCubeModule.cs:92 | a digit or upper-case letter has a value in [0, 36): digits below 10, letters from 10 up |
| Scramble.TruncDiv | Assets/RubiksCubeModule.cs:92 | the quotient rounds toward zero: it has the sign of the dividend and never exceeds it in magnitude; TruncRem completes a == b·q + r |
| Scramble.TruncRem | Assets/RubiksCubeModule.cs:92 | C#'s remainder: dividend = divisor × truncated quotient + remainder, with the remainder smaller than the divisor in magnitude and signed like the dividend |
| Scramble.Row | Assets/RubiksCubeModule.cs:92 | a character's row exists iff its column index n % 3 is non-negative; the row then lies in [0, 12) and is congruent mod 12 to n / 3 minus that column's shift |
| Scramble.Wrap | Assets/RubiksCubeModule.cs:92 | the double remainder by the table length gives a value in [0, 12) congruent to its argument mod 12, for negative arguments too |
| Scramble.SerialCharacterHasRow | Assets/RubiksCubeModule.cs:92 | every digit and upper-case letter selects a row |
| Scramble.Rows | Assets/RubiksCubeModule.cs:92 | the rows exist iff every character has one, with one row per character, in order; otherwise the failure names the first failing position |
| Scramble.Flatten | Assets/RubiksCubeModule.cs:97 | the paired layout puts row k's moves at positions 2k and 2k+1 |
| Scramble.SolutionMoves | Assets/RubiksCubeModule.cs:94-97 | either layout holds two moves per row; LayoutsDifferOnlyInOrder and SolutionMovesAreNames state the rest |
| Scramble.ColumnsPermuteFlatten | Assets/RubiksCubeModule.cs:94-97 | column-by-column and pair-by-pair layouts hold the same multiset of moves |
| Scramble.LayoutsDifferOnlyInOrder | Assets/RubiksCubeModule.cs:94-97 | both layouts have 2 moves per row; plate-layout positions k and n+k are paired positions 2k and 2k+1; the layouts are permutations of each other |
| Scramble.SolutionMovesAreNames | Assets/RubiksCubeModule.cs:94-97 | every move either layout lists is a move name |
| Scramble.InvertPrefix | Assets/RubiksCubeModule.cs:98-100 | the indicator rule on a list; it has no ensures of its own, and InvertPrefixExact states what it changes |
| Scramble.InvertFirstSix | Assets/RubiksCubeModule.cs:98-100 | the in-place loop replaces exactly the first six entries by their opposites |
| Scramble.InvertPrefixExact | Assets/RubiksCubeModule.cs:98-100 | on move names the rule changes exactly indices 0-5, each into its inverse turn, and applied twice gives back the list |
| Scramble.Solution | Assets/RubiksCubeModule.cs:92-100 | the solution or the exception that stops it; it has no ensures of its own, and SolutionShape and SerialNumberSolves state its properties |
| Scramble.SolutionShape | Assets/RubiksCubeModule.cs:92-100 | a solution exists iff every character has a row and, under the indicator rule, there are at least six moves; it has 2 move names per serial character |
| Scramble.SerialNumberSolves | Assets/RubiksCubeModule.cs:92-100 | a serial of at least three digits and upper-case letters always yields a solution |
| Scramble.ScrambleQueue | Assets/RubiksCubeModule.cs:104-105 | one queued turn per solution move; ScrambleUndoesSolution states that the queue is the solution's undo list |
| Scramble.ScrambleUndoesSolution | Assets/RubiksCubeModule.cs:104-105 | the queued scramble is the solution's turns reversed, each inverted |
| Scramble.ScrambleThenSolve | Assets/RubiksCubeModule.cs:102-105 | performing the scramble and then the solution returns any grid to where it started |
| Command.SplitFrom | Assets/RubiksCubeModule.cs:168 | splitting on spaces with empty entries removed yields only non-empty, space-free tokens |
| Command.Split | Assets/RubiksCubeModule.cs:168 | a command's tokens are non-empty and space-free |
| Command.SplitFromSpace | Assets/RubiksCubeModule.cs:168 | a space ends the token being read: the text before and after it split independently, so surplus spaces give no empty tokens |
| Command.SplitOnSpace | Assets/RubiksCubeModule.cs:168 | a command splits at any space into the tokens before it followed by the tokens after it |
| Command.SplitWord | Assets/RubiksCubeModule.cs:168 | a non-empty run of non-space characters is exactly one token |
| Command.SplitExample | Assets/RubiksCubeModule.cs:168 | leading, doubled and trailing spaces are dropped: " r  u " gives the tokens "r" and "u" |
| Command.SplitJoin | Assets/RubiksCubeModule.cs:168 | splitting tokens written with single spaces gives back exactly those tokens |
| Command.TokenMoves | Assets/RubiksCubeModule.cs:170-180 | a token stands for at most two turns |
| Command.CommandMoves | Assets/RubiksCubeModule.cs:168-181 | the turns of a token list, left to right; it has no ensures of its own, and CommandMovesAppend and UnknownTokenSkipped state its properties |
| Command.CommandMovesAppend | Assets/RubiksCubeModule.cs:168-181 | the turns of a token list are those of its first part, then those of the rest |
| Command.TokensLeftToRight | Assets/RubiksCubeModule.cs:168-181 | tokens take effect on the grid from left to right |
| Command.RunCommand | Assets/RubiksCubeModule.cs:168-181 | what a command does to the grid; it has no ensures of its own, and ProcessTwitchCommand, DoubleTurnIsTwoTurns and TokenIgnoresCase state its properties |
| Command.RunTokensStep | Assets/RubiksCubeModule.cs:168-181 | running i+1 tokens is running i tokens and then token i |
| Command.TokenEffect | Assets/RubiksCubeModule.cs:170-180 | a move name performs its turn; a face name followed by 2 performs that turn twice; any other token leaves the grid unchanged |
| Command.DoubleTurnIsTwoTurns | Assets/RubiksCubeModule.cs:174-180 | "x2" does the same as "x x", namely turn x twice, for every face letter in either case |
| Command.LookupIgnoresCase | Assets/RubiksCubeModule.cs:151 | lookup of a string and of its lower-case form agree |
| Command.TokenIgnoresCase | Assets/RubiksCubeModule.cs:171-174 | a token stands for the same turns in any case |
| Command.UnknownTokenSkipped | Assets/RubiksCubeModule.cs:171-180 | dropping a token that is neither a move name nor a face name followed by 2 leaves a command's turns unchanged |
| CubeModule.RubiksCube.constructor | Assets/RubiksCubeModule.cs:27-41 | the queue starts empty (the field initialiser of line 27) and every slot starts with its own cubelet (the loop of lines 36-41) |
| CubeModule.Rotated | Assets/RubiksCubeModule.cs:186-196 | the x/y loops over a fresh array produce exactly the grid that gives every slot its on-layer source cubelet or its own |
| CubeModule.RotateRow | Assets/RubiksCubeModule.cs:189-196 | the z loop fills slots (x, y, 0..2) correctly and keeps the slots filled before them |
| CubeModule.RubiksCube.PerformRotation | Assets/RubiksCubeModule.cs:184-197 | the grid installed is exactly the one `Apply` describes, and the cubelets stay distinct |
| CubeModule.RubiksCube.PerformMovesStep | Assets/RubiksCubeModule.cs:121-126 | one pass dequeues the front turn, if any, and performs it |
| CubeModule.OnePass | Assets/RubiksCubeModule.cs:121-126 | one more pass performs exactly the next queued turn, or nothing once the queue is empty |
| CubeModule.RubiksCube.PerformMoves | Assets/RubiksCubeModule.cs:116-128 | after some passes, the first min(passes, queue length) queued turns have been performed in order and removed from the front of the queue |
| CubeModule.RubiksCube.ProcessTwitchCommand | Assets/RubiksCubeModule.cs:166-182 | the grid becomes the command's turns applied left to right, as `RunCommand` describes |
| CubeModule.RubiksCube.ActivateModule | Assets/RubiksCubeModule.cs:77-107 | the result is the specified solution or exception; on success the scramble is appended to the queue, and on an exception the queue is unchanged |
| CubeModule.RubiksCube.EnqueueScramble | Assets/RubiksCubeModule.cs:104-105 | the moves are enqueued last first, each as the turn of its opposite name |

## Left out

- Rendering is not modelled: the sticker creation in `Start`, `CreateSticker`, the cube's initial
  orientation, the `Rotation` angle function of each move, and the animation loop and re-parenting
  after the grid rewrite. The model's grid holds cubelet ids, not scene objects.
- Coroutine scheduling is not modelled:
  - `PerformMoves` is modelled as a number of passes, since its `while (!_isSolved)` loop has no
    end in this source;
  - the interleaving of `PerformMoves` with `ProcessTwitchCommand`, both of which call
    `PerformRotation`, is not modelled;
  - the frames yielded between steps are not modelled.
- The bomb queries (`GetSerialNumber`, `GetPorts`, `GetPortPlates`, `GetOnIndicators`,
  `GetOffIndicators`) are parameters of `ActivateModule`: the serial string, the port list,
  whether any plate is empty, and the two indicator counts.
- Debug logging is not modelled, and neither are the module id counter and the `instantaneous`
  flag of `PerformRotation`.
- Moves.Lookup: only ASCII letters are case-folded, and characters are compared one by one. The
  source's invariant-culture comparison may also fold some non-ASCII characters to the twelve
  keys' letters, and it may ignore characters such as the soft hyphen U+00AD, so a key followed by
  one would still match in the source but not here.
- Characters are Unicode scalar values here, while C# strings count UTF-16 code units. The length
  test on a token (`cmd.Length == 2`) and the per-character rows of the serial number differ from
  the source for characters outside the Basic Multilingual Plane. `opposite` (line 111) tests the
  trailing apostrophe with a culture-sensitive `EndsWith`, and the model tests the last character
  directly; the two agree on every table name, the only strings the source passes to it.
- `Assets/CubeletInfo.cs` (a record of a scene object and its orientation, unused by the core) is not part of this model.
