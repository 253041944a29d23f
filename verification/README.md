# Game of Life universe, modelled in Dafny

This project models the `Universe` engine of a WebAssembly Game of Life in
Dafny and proves properties of the model. A universe is a `width` by `height`
torus of cells stored row-major in one dense boolean sequence. `tick` advances
it one generation by Conway's B3/S23 rule. Every cell's next state is computed
from the pre-tick cells and written into a separate buffer, which replaces the
cells at the end. Between ticks the host can call `set_cells`, `toggle_cell`
and `clear`, and can create universes with `from_dimensions` or `new`.

Modules, one per concern of `src/lib.rs`:

- `Grid` (grid.dfy): the `Universe` datatype (`width`, `height`, `cells`), row-major `Index`, `Alive`, grid extensionality, and the `width`/`height`/`get_cells` accessors.
- `Rules` (rules.dfy): the B3/S23 `NextState` rule.
- `Neighbors` (neighbors.dfy): `live_neighbor_count` as a pure sum (`LiveNeighbors`) and as the source's nested loop (`LiveNeighborCount`). Also a reference torus count with signed offsets, and the locality of the count.
- `Step` (step.dfy): the functional `Tick` and iterated `TickN`; the nested-loop `TickLoop` with its column loop `TickRow`, proved equal to `Tick`; the dead-grid lemmas.
- `Mutators` (mutators.dfy): `from_dimensions`, `clear`, `toggle_cell`, `set_cells`.
- `Demo` (demo.dfy): `new`, the 64 by 64 universe seeded with the fixed demonstration pattern.
- `Patterns` (patterns.dfy): the block still life and the period-two blinker.

Modelling choices:

- The source's `u32` values become `nat`. `FixedBitSet` becomes `seq<bool>`; bit packing has no effect on behaviour.
- The neighbour count follows the code literally. The offsets are the non-negative values `height - 1, 0, 1` and `width - 1, 0, 1`, and the test that skips a cell's own position looks at the offset VALUES. On a torus at least 2 by 2 this is exactly the eight-neighbour count (`LiveNeighborsIsTorusCount`). On a grid 1 cell high or wide, `height - 1` or `width - 1` is itself 0, so more pairs are skipped. A lone live cell on a 1 by 1 grid counts itself 5 times, not 8 (`OneByOneCountsFive`). The model keeps that behaviour.
- Zero dimensions: the code accepts them. `from_dimensions(0, h)` builds an empty universe, and `tick` on it does nothing, because the loops never run and `live_neighbor_count` is never called. So `Valid` only demands `|cells| == width * height`, `FromDimensions` has no precondition, and `Tick` is total on valid universes. Only the neighbour count, which needs an in-bounds cell, implies positive dimensions. This follows the code rather than a policy of rejecting non-positive dimensions at construction.
- Coordinates passed to `set_cells` and `toggle_cell` must be in bounds (`InBounds`). The source does not check them; see Left out.

## Model

| member | source | states |
|---|---|---|
| Grid.Index | src/lib.rs:48-50 | An in-bounds (row, column) maps to a position inside the storage, below `width * height`. |
| Grid.IndexDecode | src/lib.rs:48-50 | Division and remainder of an index by the width give back the row and the column it was computed from. |
| Grid.IndexSurjective | src/lib.rs:48-50 | Every storage position is the index of the in-bounds coordinate (i / width, i % width): row-major indexing covers the whole storage. |
| Grid.IndexInjective | src/lib.rs:48-50 | Two in-bounds coordinates have the same index iff they are the same coordinate. |
| Grid.Extensionality | src/lib.rs:40-44 | Two valid universes with the same dimensions that agree on every in-bounds cell are equal: the cells are exactly the row-major liveness table. |
| Rules.NextState | src/lib.rs:136-147 | The rule table: a live cell with fewer than 2 or more than 3 neighbours dies, one with 2 or 3 survives, a dead cell with exactly 3 is born, and every other dead cell stays dead. Equivalently, next is alive iff n = 3, or the cell is alive and n = 2. |
| Neighbors.LiveNeighbors | src/lib.rs:52-68 | The count of live wrapped neighbours never exceeds 8: the zero-offset pair is skipped and each other pair adds 0 or 1. |
| Neighbors.LiveNeighborCount | src/lib.rs:52-68 | The nested loop over the offset lists, which skips the zero pair, reduces coordinates modulo the dimensions and adds 1 per live cell, returns exactly `LiveNeighbors`, and so at most 8. |
| Neighbors.LiveNeighborsIsTorusCount | src/lib.rs:52-68 | On a torus at least 2 by 2, the count equals the reference eight-neighbour count with signed offsets -1, 0 and +1 reduced by mathematical modulo. |
| Neighbors.OriginNeighbors | src/lib.rs:54-63 | The cell (0, 0) counts exactly (h-1, w-1), (h-1, 0), (h-1, 1), (0, w-1), (0, 1), (1, w-1), (1, 0) and (1, 1): offsets wrap on both axes. |
| Neighbors.OneByOneCountsFive | src/lib.rs:54-58 | On a 1 by 1 grid the offset `width - 1` is 0 too, so the source skips extra pairs: a lone live cell counts 5, where the eight-neighbour torus count gives 8. |
| Neighbors.CountIsLocal | src/lib.rs:52-68 | The count of a cell (and its own liveness) is determined by the cell and its eight torus neighbours alone, for every grid shape. |
| Step.Tick | src/lib.rs:118-156 | A tick keeps width, height and storage size. Each new cell is `NextState` of that cell's pre-tick liveness and pre-tick neighbour count. |
| Step.TickLoop | src/lib.rs:118-156 | The source's algorithm returns exactly `Tick`. It clones the cells into `next`, walks the rows in order reading only the old cells, and replaces the cells with `next` at the end. |
| Step.TickRow | src/lib.rs:123-152 | The column loop for one row keeps the buffer's size, keeps the verdicts already written for earlier rows, and adds the verdict of every cell of the row. |
| Step.TickIsLocal | src/lib.rs:120-151 | Simultaneity: two universes that agree on a cell's neighbourhood before the tick agree on that cell after it, whatever else they hold. |
| Step.DeadGridIsFixed | src/lib.rs:118-156 | A tick leaves an all-dead universe unchanged. |
| Step.DeadGridStaysDead | src/lib.rs:118-156 | An all-dead universe is unchanged after any number of ticks. |
| Mutators.FromDimensions | src/lib.rs:106-116 | `from_dimensions(w, h)` has width w, height h, `w * h` cells, and every cell dead. |
| Mutators.Clear | src/lib.rs:170-172 | `clear` kills every cell and keeps the dimensions and the storage size. |
| Mutators.ClearIsFresh | src/lib.rs:170-172 | Clearing any valid universe gives the fresh universe of its dimensions. |
| Mutators.ToggleCell | src/lib.rs:174-177 | `toggle_cell(r, c)` flips cell (r, c), leaves every other cell and the dimensions unchanged. |
| Mutators.ToggleTwice | src/lib.rs:174-177 | Toggling the same cell twice restores the universe. |
| Mutators.SetCell | src/lib.rs:76-77 | One loop round of `set_cells` makes (r, c) alive and leaves every other cell unchanged. |
| Mutators.SetCells | src/lib.rs:74-79 | After `set_cells(list)`, a cell is alive iff it is listed or was alive before. The dimensions are unchanged. |
| Mutators.SetCellsIdempotent | src/lib.rs:74-79 | Applying `set_cells` with the same list a second time changes nothing. |
| Mutators.SetCellsOnlyAdds | src/lib.rs:74-79 | If every listed cell is already alive, `set_cells` changes nothing; it never kills a cell. |
| Mutators.SetCellsOnFresh | src/lib.rs:74-79 | On an all-dead universe (fresh from `from_dimensions`, or cleared), `set_cells(list)` leaves alive exactly the listed coordinates. |
| Demo.Seeded | src/lib.rs:91-101 | A fresh `width` by `height` universe with an in-bounds pattern written by `set_cells` is alive exactly on the pattern. |
| Demo.New | src/lib.rs:85-104 | `new` builds a 64 by 64 universe that is alive exactly on the fixed demonstration pattern. |
| Patterns.BlockExists | src/lib.rs:74-79 | `set_cells` with the four block coordinates on an all-dead 4 by 4 universe draws exactly the block. |
| Patterns.BlockIsStill | src/lib.rs:118-156 | A 2 by 2 block in the middle of a 4 by 4 torus is unchanged by a tick (a still life). |
| Patterns.BlinkerExists | src/lib.rs:74-79 | `set_cells` with the three line coordinates on an all-dead 5 by 5 universe draws exactly the horizontal blinker. |
| Patterns.BlinkerOscillates | src/lib.rs:118-156 | A horizontal three-cell line in the middle of a 5 by 5 torus becomes the vertical line through the same centre after one tick, and the vertical one becomes horizontal. |
| Patterns.BlinkerChanges | src/lib.rs:118-156 | One tick changes the horizontal blinker. |
| Patterns.BlinkerReturns | src/lib.rs:118-156 | Two ticks restore the horizontal blinker. |
| Patterns.BlinkerPeriodTwo | src/lib.rs:118-156 | The blinker differs from itself after one tick and returns to itself after exactly two. |

## Left out

- `Timer` and its `Drop` implementation (src/lib.rs:16-31): console timing through the host, which is I/O.
- The `wee_alloc` global allocator, the panic-hook installation and the `wasm_bindgen` host bindings: plumbing with no behaviour to state.
- `cells()`, which hands the host the memory address of the bit set's storage: address exposure with no behaviour beyond `get_cells`.
- `get_cells`, `width` and `height` are modelled as plain accessors (`Grid.GetCells`, `Grid.Width`, `Grid.Height`) with no contracts. They return a field.
- The `FixedBitSet` library is not part of this model: its bit packing is represented by `seq<bool>`.
- `u32` arithmetic: `row * width + column`, `row + delta_row` and `width * height` are unbounded `nat` here. Universes large enough to overflow are not modelled.
- The `u8` neighbour count is a `nat`. It never exceeds 8, so nothing is lost.
- Out-of-range coordinates for `set_cells` and `toggle_cell` are excluded by precondition. In the source, a position at or past the end of the bit set panics. A column at or past the width whose row-major position is still inside the storage silently writes a cell of a later row.
- Mutation in place: the source's `&mut self` operations are modelled as functions returning the new universe.
