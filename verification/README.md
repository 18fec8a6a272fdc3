# gameofwar simulation core in Dafny

This project models the simulation engine of *gameofwar*, a Game of Life on a
fixed-size board. Every cell is alive or dead and belongs to a team: Red, Blue
or Neutral. A newborn cell takes its team from its living parents. Five parts
are modelled:

- **`TeamCell`** (`src/conway/cell.rs`) has `Team`, `Cell` and `Cell::new`.
  It also has `inherit_from`: the parents' teams are tallied into three
  counters, and one opposing parent vetoes a team.
- **`Grid`** (`src/conway/cells.rs`) is the column-major board `Cells` with
  `new`, `get`, `get_mut` and `set`, plus the clipped eight-cell
  neighbourhood `get_neighbors`.
- **`GridIterator`** (`src/conway/cells.rs`) is `CellsIterator`, an `(x, y)`
  cursor with x varying fastest, with `next` and `size_hint`.
- **`Life`** (`src/conway/mod.rs`) is `GameOfLife` with its stored width and
  height, and these operations:
  - `tick`, the double-buffered generation step. It reads the old board and
    writes to a clone.
  - `clear`.
  - `randomize`, with the random source turned into a parameter.
  - `glider`.
- **`GliderMotion`** proves the glider scenario: after `glider`, four
  ticks move the glider one cell right and one cell down on every board of
  at least 5 x 5.

A Rust panic that some input can reach is modelled as an explicit result,
`Outcome.Panicked(kind)`. These are:

- the `assert!` in `Cells::new`;
- the neighbour-count check in `get_neighbors`;
- the out-of-range index that `set`'s guard lets through;
- the `unwrap` in `glider`.

The `unwrap`s in `tick` and `clear` cannot fail, and neither can the
neighbour-count check for an on-board cell. Those are proof obligations, not
outcomes.

A reference returned by `get_mut` is modelled together with the write made
through it: `GetMut(x, y, edit)` returns the board with cell `(x, y)` replaced
by `edit` of its old value. The references returned by `get_neighbors` are
modelled by the cells they point at, and by the positions of those cells.

`Tick` is a loop-for-loop transcription of `tick`. It is proved equal to the
pure `NextGeneration`, and `NextGeneration` is characterised separately by
Life's B3/S23 rule over an independently written eight-term neighbour count.

## Model

| member | source | states |
|---|---|---|
| `TeamCell.NewCell` | src/conway/cell.rs:18-23 | A new cell is dead and Neutral. |
| `TeamCell.CountTeams` | src/conway/cell.rs:26-33 | Every parent lands in exactly one bucket: the three counts sum to the number of parents, and each count is the multiplicity of its team among the parents. |
| `TeamCell.Decide` | src/conway/cell.rs:35-39 | The match picks Red exactly when Red ≥ 1 and Blue = 0, Blue exactly when Blue ≥ 1 and Red = 0, and Neutral exactly when both are zero or both are positive. |
| `TeamCell.InheritFrom` | src/conway/cell.rs:25-40 | Only the team changes, `alive` is untouched. The team is Red iff some parent is Red and none is Blue, Blue symmetrically, and Neutral iff Red and Blue are both present or both absent (only Neutral parents, or none). |
| `TeamCell.PresentIffCounted` | src/conway/cell.rs:31-36 | A team occurs among the parents exactly when its counter ends up non-zero. |
| `TeamCell.InheritIgnoresOrder` | src/conway/cell.rs:26-39 | Two parent lists with the same multiset of teams give the same inherited cell. |
| `TeamCell.ContestedBirthIsNeutral` | src/conway/cell.rs:35-38 | Two Red parents and one Blue parent give a Neutral cell. |
| `TeamCell.UncontestedBirthIsRed` | src/conway/cell.rs:35-36 | Three Red parents give a Red cell. |
| `Grid.New` | src/conway/cells.rs:10-20 | Panics with the assertion exactly when width < 2 or height < 2. Otherwise the board is rectangular with `width` columns of `height` cells, all dead and Neutral. |
| `Grid.Cells.Get` | src/conway/cells.rs:51-62 | Returns nothing exactly when x < 0, y < 0, x ≥ width or y ≥ height. Otherwise returns the cell in column x, row y. |
| `Grid.Cells.GetMut` | src/conway/cells.rs:64-75 | Has the same bounds as `get`. A write through the reference changes cell (x, y) to the written value, and nothing else: not the other cells, not the dimensions. |
| `Grid.Cells.SetAsWritten` | src/conway/cells.rs:77-86 | With the `\|\|` guard: a negative coordinate is a no-op. Both coordinates in range replace that cell only. The call panics with an index error exactly when both coordinates are non-negative and exactly one is out of range. |
| `Grid.Cells.Set` | src/conway/cells.rs:77-86 | With the intended `&&` guard: an in-range write replaces only that cell and keeps the dimensions; any other write leaves the board unchanged. |
| `Grid.Cells.GetAfterSet` | src/conway/cells.rs:51-86 | Reading back the written position gives the new cell, and every other read is unchanged. |
| `Grid.Cells.SetAsWrittenAgrees` | src/conway/cells.rs:77-86 | Wherever the `\|\|` version does not panic, it writes what the `&&` version writes. In range the two coincide. |
| `Grid.Cells.SetAsWrittenPanicsOffBoard` | src/conway/cells.rs:83-84 | On every board, `set(width, 0, c)` panics as written but is ignored by the corrected guard. |
| `Grid.Cells.GetNeighbors` | src/conway/cells.rs:22-45 | Panics, with the count, exactly when the number of pushed positions is not 3, 5 or 8. Otherwise it returns the cells at the pushed positions, in push order, all on the board. For every on-board centre the count check passes, and the count is 3 at a corner, 5 on a non-corner edge and 8 inside. |
| `Grid.Cells.OffBoardNeighbors` | src/conway/cells.rs:38-42 | The count check can fire. Centred one column past the right edge in the top row, only 2 neighbours are on the board and the call panics. One row lower, on a board of at least 3 rows, there are 3 and the call returns them. |
| `Grid.Cells.NeighborPositionsInBounds` | src/conway/cells.rs:32-34 | Every position whose cell is pushed is on the board. |
| `Grid.Cells.NeighborPositionsExact` | src/conway/cells.rs:27-36 | A position is pushed iff it is on the board and one of the eight around the centre; the centre itself is never pushed. Positions come strictly in x-outer, y-inner order, so none repeats. |
| `Grid.Cells.ColumnExact` | src/conway/cells.rs:28-35 | One pass of the inner loop keeps exactly the on-board rows cy-1..cy+1 of its column other than the centre, in row order. |
| `Grid.Cells.NeighborCount` | src/conway/cells.rs:38-42 | At every on-board position the number of neighbours is 3 at a corner, 5 on an edge and 8 inside, so the panic is unreachable. |
| `GridIterator.Start` | src/conway/cells.rs:96-102 | A fresh iterator has yielded nothing yet: its position index is 0. |
| `GridIterator.Next` | src/conway/cells.rs:108-124 | Returns nothing exactly when the rows are used up, and then the cursor stays put. Otherwise returns `(x, y, cells[x][y])` under the cursor, and the cursor moves one step in row-major order, staying reachable. |
| `GridIterator.DrainFrom` | src/conway/cells.rs:108-124 | From any reachable cursor, the items still to come are exactly those for the remaining positions, in order. |
| `GridIterator.IterYieldsEveryCell` | src/conway/cells.rs:47-49 | A full traversal yields exactly width·height items. The k-th item is (k mod width, k div width, cell there). |
| `GridIterator.IterVisitsEveryPosition` | src/conway/cells.rs:108-124 | Every on-board position is yielded, with its cell. |
| `GridIterator.IterVisitsNoPositionTwice` | src/conway/cells.rs:108-124 | No two items of a traversal share a position. |
| `GridIterator.ExhaustedStaysExhausted` | src/conway/cells.rs:109-111 | Once the rows are used up, every further `next` returns nothing and the cursor does not move. |
| `GridIterator.RunToEnd` | src/conway/cells.rs:113-121 | After as many steps as there are positions left, the cursor rests at (0, height), where `next` returns nothing. |
| `GridIterator.SizeHint` | src/conway/cells.rs:126-130 | The lower bound is 0 and the upper bound is width·height. Together they bracket the number of items still to come, and the upper bound is exact for a fresh iterator. |
| `Life.NewGame` | src/conway/mod.rs:18-25 | Panics exactly when `Cells::new` does. Otherwise the stored width and height are the board's, and every cell is `Cell::new()`. |
| `Life.LiveOnly` | src/conway/mod.rs:33 | The filter keeps exactly the live cells and never lengthens the list. |
| `Life.LiveOnlyMultiplicity` | src/conway/mod.rs:33 | The filter keeps each live cell value as often as it occurs in the neighbour list and drops every dead one. So the population is the number of live entries. |
| `Life.LiveTeam` | src/conway/mod.rs:33 | The filtered parents contain a team exactly when some live entry of the neighbour list belongs to it. |
| `Life.LiveParents` | src/conway/mod.rs:32-34 | The parents of an on-board cell number at most 8, and all are alive. |
| `Life.PopulationIsLiveNeighborCount` | src/conway/mod.rs:32-34 | The population `tick` computes equals Life's neighbour count, the number of live cells among the eight around (x, y). |
| `Life.ThreeParentsFit` | src/conway/mod.rs:39-42 | A birth's three parents never overflow the `u8` counters of `inherit_from`. |
| `Life.RuleIsLife` | src/conway/mod.rs:37-43 | The next state is alive iff the cell is alive with 2 or 3 parents, or dead with exactly 3. A birth takes `inherit_from` of its parents; every other outcome keeps the team, and a survivor is unchanged. |
| `Life.StepCell` | src/conway/mod.rs:32-43 | One inner-loop body changes only cell (x, y) of the clone, to the rule's verdict on the old cell. Both `unwrap`s succeed. |
| `Life.StepColumn` | src/conway/mod.rs:31-44 | After the inner loop, column x of the clone holds the rule's verdict on every old cell of that column, and no other column has changed. |
| `Life.Tick` | src/conway/mod.rs:27-47 | Keeps the dimensions and the stored width and height. Every new cell is the rule applied to the old cell and its live neighbours read from the old board, so the result equals `NextGeneration` of the old board. |
| `Life.NextGenerationCases` | src/conway/mod.rs:37-43 | Stated with Life's neighbour count: a lonely or crowded live cell dies and keeps its team. A dead cell with exactly 3 live neighbours is born with the inherited team. Every other cell is copied unchanged. |
| `Life.ParentTeams` | src/conway/mod.rs:32-33 | A team occurs among the parents handed to `inherit_from` exactly when one of the cell's on-board neighbours is alive and belongs to that team. |
| `Life.TeamAtPositions` | src/conway/cells.rs:27-36 | Cells read at exactly the on-board neighbour positions contain a live cell of a team exactly when the board has such a neighbour. |
| `Life.BirthTeam` | src/conway/mod.rs:39-42 | A dead cell with exactly 3 live neighbours is alive after a tick. Its team is Red exactly when some live neighbour is Red and none is Blue, Blue symmetrically, and Neutral exactly when Red and Blue neighbours are both present or both absent. |
| `Life.LonelyCellDies` | src/conway/mod.rs:37-38 | A live cell with no live neighbours is dead after a tick. |
| `Life.BlockIsStillLife` | src/conway/mod.rs:27-47 | A board whose only live cells form a 2 x 2 block is unchanged by a tick, teams included. |
| `Life.BlockLastsForever` | src/conway/mod.rs:27-47 | Such a board is unchanged after any number of ticks. |
| `Life.Clear` | src/conway/mod.rs:50-56 | Keeps the dimensions. Every cell ends dead with its team unchanged, and clearing an all-dead board changes nothing, so clearing is idempotent. |
| `Life.RandomCell` | src/conway/cell.rs:43-50 | A drawn cell lives as the draw says, and its team is Red or Blue (never Neutral), as the draw says. |
| `Life.Randomize` | src/conway/mod.rs:59-66 | Keeps the dimensions. Every cell lives as its draw says and is Red or Blue. |
| `Life.Glider` | src/conway/mod.rs:69-75 | Panics with a failed `unwrap` exactly when width < 4 or height < 4. Otherwise keeps the dimensions, makes the live cells exactly (2,1), (3,2), (3,3), (2,3), (1,3), and leaves every team as it was. |
| `Life.GliderStep` | src/conway/mod.rs:72-74 | Each loop step brings one more glider cell to life and changes nothing else. |
| `GliderMotion.SeedIsGlider` | src/conway/mod.rs:71 | The plane's phase 0 lists exactly the five cells `glider` brings to life. |
| `GliderMotion.PlaneStep` | src/conway/mod.rs:37-43 | On the unbounded plane, Life's rule takes each glider phase to the next, and the fourth step gives phase 0 moved by (1, 1). |
| `GliderMotion.CountIsPlane` | src/conway/mod.rs:32-34 | On a board of at least 5 x 5 holding a glider phase, the board's neighbour count equals the plane's: no live cell is clipped away. |
| `GliderMotion.TickFollowsPlane` | src/conway/mod.rs:27-47 | On such a board, one tick leaves exactly the cells of the next phase alive. |
| `GliderMotion.FourTicks` | src/conway/mod.rs:27-47 | Four generations from phase 0 reach phase 4. |
| `GliderMotion.GliderTranslates` | src/conway/mod.rs:27-47 | When the live cells of a board of at least 5 x 5 are exactly the glider's, after four ticks they are exactly the glider's moved by (1, 1). |
| `GliderMotion.GliderFlight` | src/conway/mod.rs:27-75 | `glider` followed by four calls of `tick` on a board of at least 5 x 5 never panics, and leaves exactly the glider's cells moved by (1, 1) alive. |

## Left out

- `src/main.rs` (window, rendering, event loop, floating-point tick timer) is not part of this model. It is I/O and user interface.
- The `Indexer` trait of `src/utils/mod.rs` is not part of this model. Coordinates are mathematical integers, and its one relevant behaviour, the negativity test before the `as usize` cast, is kept in `Get`, `GetMut`, `SetAsWritten` and `Set`.
- The `HashMap` of `inherit_from` is three counters (`Tally`), and Rust references, lifetimes and `Clone` are values. The iterator's borrowed board is passed to each call.
- Panic messages are not modelled; a panic carries only its kind.
- `TeamCell.InheritFrom` requires every team count to fit in a `u8` (at most 255). In a debug build a larger count panics, and in a release build it wraps; neither is modelled. `tick`, the only caller, passes exactly three parents (`Life.ThreeParentsFit`).
- `Grid.Cells.GetNeighbors` takes natural numbers. The `as isize` cast, which wraps for coordinates of 2^63 and above, is not modelled; `tick` never passes such coordinates.
- `GridIterator.SizeHint` uses an unbounded product. The `usize` overflow of width·height on an enormous board is not modelled.
- `Life.Randomize` models the random generator as a function `draws` from position to draw, so the 0.4 live probability, the uniform Red/Blue choice and the thread-local generator are not modelled. Its `set` calls are always in range, so it uses the corrected `Set`; the two guards agree there (`Grid.Cells.SetAsWrittenAgrees`).
- `Life.Randomize` does not state which team each cell gets (`Life.RandomCell` does); it only states that no cell is Neutral.
- `Life.Tick` (like `Life.Clear`, `Life.Glider` and `Life.Randomize`) requires the stored width and height to be the board's dimensions. In Rust, `cells` is a public field (src/conway/mod.rs:14) while `width` and `height` are private, so a caller could assign a board of another shape, and `tick` would then update only part of it or panic in the neighbour-count check. The model assumes nobody replaces `cells`; no caller in the repository does.
- The glider scenario is proved only for boards of at least 5 x 5. On smaller boards the edge clips the glider, and the model states nothing about where it ends up; no team is stated after the four ticks either.

## Findings

| source | as written | input that shows it | evidently intended | confidence | as-written member | corrected member |
|---|---|---|---|---|---|---|
| src/conway/cells.rs:83 | `set` guards the write with `x < width \|\| y < height`, so a write with one coordinate in range and the other past the end passes the guard and indexes out of bounds. | `set(width, 0, c)` on any board (or `set(0, height, c)`) | `x < width && y < height`, as in `get` and `get_mut`: out-of-range writes are ignored | high; not executed | `Grid.Cells.SetAsWritten`, exhibited by `Grid.Cells.SetAsWrittenPanicsOffBoard` | `Grid.Cells.Set`, with `Grid.Cells.GetAfterSet` |
