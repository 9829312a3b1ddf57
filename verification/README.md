# Game of Life grid: a Dafny model

This project models the cell grid of a small Game of Life viewer written in
Rust on top of the macroquad drawing library. The program keeps a vector of
`GRID_WIDTH * GRID_HEIGHT` (40 × 40 = 1600) cells, each `Alive` or `Dead`.
At start-up it allocates two such vectors, `cells` and `buffer`, all `Dead`.
It then seeds `cells`: each cell becomes `Alive` when its random draw in
`[0, 10)` is 0. After that, every frame walks `cells` in index order. For
each `Alive` index `i` it computes the column `x = i % GRID_WIDTH` and the
row `y = i / GRID_WIDTH` and calls `color_cell(x, y)`. That function asserts
`x < 40` and `y < 40`, which panics in Rust when false, and then fills the
20 × 20 pixel rectangle at `(CELL_WIDTH * x, CELL_HEIGHT * y)`.

The main result is that those assertions never fire from the frame scan.
Every call the scan makes passes them (`World.ScanFrame`, `World.FrameNeverPanics`).
The bound is also tight: index `i` passes exactly when `i < 1600`
(`World.AssertsMatchGrid`). Beyond that, the model proves these facts:

- Each `Alive` cell is coloured exactly once per frame, in increasing index
  order, and no `Dead` cell is coloured.
- Distinct cells get distinct coordinates and pixel-disjoint rectangles.
- Together, the rectangles tile the 800 × 800 window.
- Seeding sets a cell `Alive` exactly when its draw is 0, and never kills a
  live cell.

Layout:

- `grid.dfy`, module `Grid`: `U32` (Rust's `u32`, so every arithmetic
  result is checked to stay in range), `CellState`, the size constants,
  `Coord`, and the index ↔ coordinate conversion.
- `render.dfy`, module `Render`: `color_cell` as `ColorCell`, which returns
  either `Drawn(rect)` or `Panicked(which assertion)`, plus lemmas about
  the rectangles' pixels.
- `world.dfy`, module `World`: allocation, seeding (an in-place method over
  an `array`), the frame scan (a method with loop invariants), `main` up to
  its first frame, and the specification functions and lemmas they are
  proved against.

The random generator is replaced by an input sequence of draws, one per
cell in index order. Each draw has type `Draw`, a newtype for `0..10`.

The program has no neighbour-count rule, no generation update, no diff and no
reseed, and the model adds none of them. The second vector `buffer` is
allocated and then never read or written. The model allocates it and proves
that it stays all `Dead`.

## Model

| member | source | states |
|---|---|---|
| `Grid.CoordOf` | src/main.rs:51-52 | The column is always `< GRID_WIDTH`. For any index that fits in `u32`, `y * GRID_WIDTH + x` gives the index back. The row is `< GRID_HEIGHT` exactly when the index is below `GRID_WIDTH * GRID_HEIGHT`. The body models the truncating `as u32` cast; for larger indices the contract promises only the column bound. |
| `Grid.CoordOfIndexOf` | src/main.rs:51-52 | Every in-bounds `(x, y)` has an index below 1600, and the scan maps that index back to `(x, y)`. The conversion is therefore a bijection between the 1600 indices and the grid's coordinates. |
| `Grid.CoordOfInjective` | src/main.rs:51-52 | Two distinct indices of the grid never map to the same coordinate. |
| `Grid.GridTilesWindow` | src/main.rs:9-14 | `CELL_WIDTH * GRID_WIDTH == WIDTH`, `CELL_HEIGHT * GRID_HEIGHT == HEIGHT`, and the grid holds 1600 cells. |
| `Render.ColorCell` | src/main.rs:83-93 | Succeeds exactly when `x < GRID_WIDTH` and `y < GRID_HEIGHT`, so the literal `40` equals the grid size. Otherwise it panics, and the column assertion is the one that fires exactly when `x` is out of range, since it is checked first. A drawn rectangle is cell-sized and lies inside the window. |
| `Render.CellPixels` | src/main.rs:87-91 | Cell `(x, y)`'s rectangle covers exactly the pixels `(px, py)` with `px / CELL_WIDTH == x` and `py / CELL_HEIGHT == y`. |
| `Render.DistinctCellsDisjoint` | src/main.rs:87-91 | The rectangles of two different in-bounds cells share no pixel. |
| `Render.WindowCovered` | src/main.rs:9-14 | Every pixel of the window lies in the rectangle of some in-bounds cell. |
| `World.NewGrid` | src/main.rs:21-28 | Allocates a fresh vector of exactly `GRID_WIDTH * GRID_HEIGHT` cells, all `Dead`. |
| `World.Seeded` | src/main.rs:36-40 | Seeding preserves the grid length. |
| `World.SeededAt` | src/main.rs:36-40 | After seeding, cell `i` is `Alive` if draw `i` was 0 and otherwise keeps its old state. |
| `World.SeedKeepsAlive` | src/main.rs:36-40 | Seeding never turns a live cell `Dead`. |
| `World.SeedFromDead` | src/main.rs:21-40 | Starting from the all-`Dead` allocation, cell `i` is `Alive` after seeding exactly when draw `i` was 0, and `Dead` exactly when it was not. |
| `World.SeedIdempotent` | src/main.rs:36-40 | Seeding a second time with the same draws changes nothing. |
| `World.Seed` | src/main.rs:36-40 | The in-place pass over the array leaves exactly the `Seeded` grid of its old contents and the draws. |
| `World.CallsBelow` | src/main.rs:49-56 | Every call made while walking the first `n` cells is for an index below `n`. Every call's coordinate is inside the grid. |
| `World.CallsBelowMember` | src/main.rs:49-56 | Walking the first `n` cells colours index `i` exactly when `i < n` and cell `i` is `Alive`. |
| `World.CallsBelowIncreasing` | src/main.rs:49-56 | The calls come in strictly increasing index order. |
| `World.FrameCallsExact` | src/main.rs:49-56 | In one frame, `color_cell` is called for index `i` exactly when cell `i` is `Alive`. The calls come in strictly increasing index order, so each live cell is coloured exactly once. |
| `World.FrameNeverPanics` | src/main.rs:84-85 | Every `color_cell` call the frame scan makes passes both assertions. |
| `World.AssertsMatchGrid` | src/main.rs:84-85 | The scan's coordinate for index `i` passes the assertions exactly when `i < GRID_WIDTH * GRID_HEIGHT`. Beyond that bound it is the row assertion that fires. |
| `World.FrameRectsDisjoint` | src/main.rs:87-91 | Two different calls in one frame draw rectangles that share no pixel. |
| `World.ScanFrame` | src/main.rs:49-56 | The scan makes exactly the `FrameCalls` of the grid. Every call passes `color_cell`'s assertions, and the rectangle it returns is the one drawn. The scan only reads `cells`. |
| `World.Startup` | src/main.rs:21-56 | `main` up to its first frame produces two fresh, distinct vectors. `cells` is the seeded all-`Dead` grid, `buffer` is still all `Dead`, and the frame's calls are those of `cells`, each of which succeeds. |
| `World.FirstFrameFromDraws` | src/main.rs:36-56 | In the first frame, cell `i` is coloured exactly when its draw was 0. |

## Left out

- Window and drawing calls into macroquad (`request_new_screen_size`, `clear_background`, `draw_line`, `draw_rectangle`, `Image::gen_image_color`, `Texture2D::from_image`) are foreign code. `color_cell` is modelled by its two assertions and the integer rectangle it passes on. The cast of the rectangle's fields to `f32` is not modelled.
- `draw_lines` only draws grid lines, using floating-point pixel constants. It affects no state.
- The `async` endless frame loop and `next_frame().await` are host frame pacing. The model scans one frame. No frame changes `cells`, so every later frame makes the same calls.
- `rand::gen_range` is replaced by an input sequence of draws, one per cell, each in `0..10`. The generator's distribution is not modelled.
- `World.ScanFrame`: requires the vector to have at most `GRID_WIDTH * GRID_HEIGHT` cells. The program always holds exactly that many, because the vector is never resized. `World.AssertsMatchGrid` shows that a longer vector would make the scan panic.
