# Find Your Hat — a verified model of the grid engine

"Find Your Hat" is a terminal game. The player starts at the top-left cell
`(0, 0)` of a `rows x cols` field of grass (`░`) and must reach the hat (`^`)
one step per turn: up, down, left or right. Stepping into a hole (`O`) or off
the field ends the game. This project models the game's engine in Dafny:

- **Field generation** (`generator.dfy`, module `Generator`). One hat is
  placed by drawing random coordinates until a draw is not the start cell.
  Holes are then placed by drawing until the requested number of holes stand
  on cells that are neither the start, the hat nor an existing hole. Finally
  the player glyph is written at `(0, 0)`. The random source is a finite
  sequence of coordinate draws, consumed in order. When the draws run out
  before the work is done, the run has not finished and `ok` is false. The
  generator is proved to finish exactly when `Finishes` holds of the draws.
  A one-cell field never finishes, and neither does a request for more holes
  than there are cells other than the start and the hat. Every other request
  can finish: on a field of at least two cells, some draws let the generator
  finish whenever the holes asked for fit in the cells other than the start
  and the hat. So these two cases are exactly the requests that can never
  finish. When a run finishes,
  the field holds the player only at `(0, 0)`, exactly one hat away from the
  start, and exactly the requested number of holes. The holes are the distinct
  free cells drawn after the hat.
- **The game** (`game.dfy`, module `Game`, class `Field`). The field is a 2-D
  array mutated in place, with the player's position and the `gamePlay` flag
  beside it. A move ends the game when it leaves the field, hits a hole or
  finds the hat. In those cases the field and the position are unchanged.
  Otherwise the old cell becomes the trail, the new cell becomes the player,
  and no other cell changes. Moves keep the hat and the holes where they are,
  keep the player in bounds on a `*` cell, and keep the start cell free of
  hats and holes. The turn loop lower-cases each input line and dispatches it
  to a move, a quit or "not recognised". Its course is specified by a
  function, `Play`, over the input lines: the loop is proved to take exactly
  the turns `Play` gives, and `Play` is proved to stop reading right after
  the turn that ends the game.
- **Cells** (`cells.dfy`, module `Cells`): the cell tags, coordinates, and the
  facts about sets of cells that the counting arguments need.
- **Scenarios** (`scenarios.dfy`): four short sessions whose course follows
  from the contracts alone. One walks to the hat, one falls into a hole, one
  steps off the field, and one shows that the hole loop keeps only the first
  free draw when a single hole is asked for.

The player and the trail are the same glyph `*` in the code. So the model
has one tag, `Star`, and two names for it, `Player` and `Path`. A visited
cell behaves like grass when the player steps on it again. The generator
places no cap on the number of holes. A request it cannot satisfy makes the
hole loop run forever, and the model proves that such a run never finishes,
while any request that fits can finish.

## Model

| member | source | states |
|---|---|---|
| `Cells.GlyphsDistinct` | index.js:4-8 | the four tags print as four different characters; the player and the trail both print as `*` |
| `Cells.AllCellsCard` | index.js:39 | a `rows x cols` field has exactly `rows * cols` cells |
| `Cells.PlaceableCells` | index.js:61-63 | distinct cells other than the start and the hat number at most `rows * cols - 2` |
| `Generator.HoleCount` | index.js:40 | the hole count is `percentHoles` percent of the cell count rounded down, and it is non-negative for a non-negative percentage |
| `Generator.ClampedHolesFit` | index.js:180 | on a square field whose side is at least 2, with the percentage clamped to 0..50 as the start dialogue does, the holes asked for fit beside the start and the hat, and some draws let the generator finish (the dialogue itself does not keep the side at least 2) |
| `Generator.FirstOffStart` | index.js:47-50 | the index of the first draw that is not `(0, 0)`: every earlier draw is `(0, 0)` |
| `Generator.OneCellNeverFinishes` | index.js:47-50 | on a 1 x 1 field no sequence of draws lets the hat loop end |
| `Generator.TooManyHolesNeverFinish` | index.js:55-67 | asking for more than `rows * cols - 2` holes, no sequence of draws lets the hole loop end |
| `Generator.CanFinish` | index.js:46-67 | on a field of at least two cells, asking for at most `rows * cols - 2` holes, some sequence of in-grid draws ends both the hat loop and the hole loop |
| `Generator.DrawHat` | index.js:46-50 | the hat loop ends exactly when some draw is off the start; the hat is the first such draw, in bounds and not `(0, 0)` |
| `Generator.PlaceHoles` | index.js:54-67 | the holes placed are exactly the distinct drawn cells other than the start and the hat; the loop ends with the requested count or stops only when the draws run out; the hat is never overwritten |
| `Generator.GenerateField` | index.js:37-73 | a `rows x cols` field that finishes exactly when the draws suffice; on finishing: player only at `(0, 0)`, exactly one hat (not at the start), exactly the requested number of holes (none at the start or on the hat), grass elsewhere |
| `Game.Shift` | index.js:103-108 | a move goes one cell: `u` and `d` change the row by -1 and +1, `l` and `r` the column by -1 and +1 |
| `Game.LowerCases` | index.js:149 | `Lower`, the model of `toLowerCase`: lower-casing keeps the length, leaves no upper-case letter, and changes a character only when it is an upper-case letter, into its lower-case partner |
| `Game.DispatchCases` | index.js:149-162 | `Dispatch`, the model of the `switch` on the lower-cased input: an input is a move exactly when it is one of `u d l r` in either case, and then that letter in either case; a quit exactly when it is `q` or `Q`; otherwise not recognised |
| `Game.DispatchLetter` | index.js:150-155 | each direction letter, lower or upper case, dispatches to the move in that direction |
| `Game.PlayStops` | index.js:144-164 | the turn loop starts where the player stands, reads a token only while the game is on, reads one whenever the game is on and a token is left, and ends with the game still on only when every token has been read; the game is then on exactly when the last turn was a plain move or an unrecognised token, so the loop stops right after a quit or a move that ends the game |
| `Game.PlayTurns` | index.js:144-164 | each turn of the loop is the turn its token dispatches to, taken from where the previous turn left the player: a move reports the step's outcome and moves the player only on a plain move, a quit and an unrecognised token leave the player put; every turn but the last lets the game go on |
| `Game.Field.constructor` | index.js:77-84 | a new game has the given size and percentage, the player at `(0, 0)`, an empty field and `gamePlay` false |
| `Game.Field.GenerateField` | index.js:86-88 | the game's field becomes exactly the generator's output: it satisfies the class invariant, the hat is the first draw off the start, the holes are the free cells drawn after the hat up to the last draw the generator used (`drawn`), their number is the requested count, and only the start cell shows `*` |
| `Game.Field.IsInBounds` | index.js:94-96 | a position is in bounds exactly when it lies in the grid (the same test the generator's draws and the class invariant use), that is, when it is one of the field's `rows * cols` cells |
| `Game.Field.OneHat` | index.js:118-133 | while the invariant holds there is exactly one hat, its hole cells are the recorded holes, and the start cell is neither a hat nor a hole |
| `Game.Field.EndGame` | index.js:166-170 | `gamePlay` becomes false and nothing else changes |
| `Game.Field.UpdatePlayer` | index.js:98-135 | the step reports out of bounds, into a hole, the hat or a plain move, checked in that order on the field's hat and holes; only a plain move moves the player one step, and every other outcome ends the game with the player put; the new cell joins the `*` cells, and the invariant holds with the same array, hat and holes |
| `Game.Field.StepCells` | index.js:110-133 | the cell-level effect of a step: an ending step changes no cell; a plain move turns the old cell into the trail and the new one into the player and changes no other cell; the outcome is decided by the cell stepped onto |
| `Game.Field.HandleInput` | index.js:149-162 | the turn and the player's new position are those its token dispatches to; the game goes on exactly when the turn was a plain move or an unrecognised token, and a quit or an ending step turns it off; the invariant holds with the same hat and holes |
| `Game.Field.Retraced` | index.js:131-132 | between two valid states of one field with the same hat and holes, the cells that joined the `*` cells show `*` and every other cell is as it was |
| `Game.Field.UpdateGame` | index.js:144-164 | the tokens read, the turns taken, the positions walked and the final `gamePlay` are exactly the session the turn loop plays on this field from the player's position (so, by `PlayStops` and `PlayTurns`, no move is made once the game has ended); the player ends on the path's last cell, the cells walked join the `*` cells, and the invariant holds with the same array, hat and holes |
| `Game.Field.StartGame` | index.js:137-142 | generation finishes exactly when the draws suffice; then the field is valid with the generated hat and holes (the free cells drawn after the hat up to the last draw used, as many as requested), and the tokens read, turns and path are the session the turn loop plays from `(0, 0)` on the generated field; afterwards the cells walked show `*` and every other cell is as the generator laid it out |

## Left out

- Console output is not modelled: `welcomeMsg`, `printField` and every message. Which message a move or a turn prints is returned as a `MoveOutcome` or a `Turn` value.
- Reading input with `prompt-sync` and the start-up dialogue (field size, percentage, `parseInt(...) || default`) are input and output. The turn loop takes its input lines as a sequence. When that sequence runs out, the loop stops. The dialogue's clamp of the percentage to 0..50 appears only as the hypothesis of `Generator.ClampedHolesFit`.
- `process.exit()` is process control; ending the game is modelled as `gamePlay` becoming false, after which the turn loop makes no further move.
- `Math.random()` is a foreign random source. Each coordinate pair it yields is one draw of a supplied sequence, and the draws must lie inside the field. The uniform distribution is not modelled.
- Generator.HoleCount: computes the rounded-down percentage exactly in integers; the code computes `(percentHoles / 100) * totalCells` in floating point, which can come out one lower (29 percent of 100 cells gives 28).
- Game.LowerCases: `Lower` lower-cases ASCII letters only, where `toLowerCase` maps all of Unicode. The gap is confined to `Lower` as a model of `toLowerCase`: outside `A`-`Z` no character lower-cases to `u`, `d`, `l`, `r` or `q`, so `Dispatch` agrees with the switch at index.js:149-161 on every input.
- Fields with fewer than one row or column are excluded by the preconditions. On them the code does not build a `rows x cols` field. A negative row count, or a negative column count with at least one row, throws at index.js:43. With zero rows, the hat loop never ends for 0 or 1 columns; otherwise it exits, and writing the hat into the missing row throws at index.js:52. With zero columns, one row never ends the hat loop, and two or more rows give a ragged field on which every move is out of bounds (index.js:94-96).
- The start dialogue's field size is `parseInt(...) || 10` (index.js:177). It turns 0 into 10 but lets 1 and negative sizes through; a side of 1 gives the one-cell field on which the hat loop never ends (`Generator.OneCellNeverFinishes`).
- The constructor's default of 30 percent holes is not modelled; the percentage is always passed.
- The turns taken and the positions walked (`turns`, `path`) are ghost outputs of `UpdateGame` and `StartGame`; the code keeps no such record. Likewise the hat's cell, the hole cells and the `*` cells are ghost fields of `Field` that the class invariant ties to the array, cell by cell.
- `updatePlayer` on a direction other than `u`, `d`, `l`, `r` is not modelled, since the dispatch never passes one; `Direction` has only the four values.
