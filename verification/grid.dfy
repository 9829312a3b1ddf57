/**
 * The fixed-size cell grid of the Game of Life window: the two cell
 * states, the window and grid size constants, and the row-major
 * arithmetic that turns a cell's index into its column and row.
 */
module Grid {

  /** Rust's `u32`. The newtype makes Dafny check that no arithmetic leaves its range. */
  newtype U32 = x: int | 0 <= x < 0x1_0000_0000

  /** The state of one cell. */
  datatype CellState = Alive | Dead

  const WIDTH: U32 := 800
  const HEIGHT: U32 := 800
  const GRID_WIDTH: U32 := 40
  const GRID_HEIGHT: U32 := 40
  const CELL_WIDTH: U32 := WIDTH / GRID_WIDTH
  const CELL_HEIGHT: U32 := HEIGHT / GRID_HEIGHT

  /** Length of each cell vector, `(GRID_WIDTH * GRID_HEIGHT) as usize`. */
  const GRID_CELLS: nat := (GRID_WIDTH * GRID_HEIGHT) as nat

  /** A column `x` and a row `y` of the grid, as the frame scan computes them. */
  datatype Coord = Coord(x: U32, y: U32)

  /** The row-major index of a coordinate: the inverse of `CoordOf`. */
  function IndexOf(c: Coord): nat
  {
    c.y as nat * GRID_WIDTH as nat + c.x as nat
  }

  /**
   * The coordinate the frame scan derives from the vector index `i`:
   * `i as u32` (which truncates to 32 bits), then `% GRID_WIDTH` for the
   * column and `/ GRID_WIDTH` for the row.
   */
  function CoordOf(i: nat): (c: Coord)
    ensures c.x < GRID_WIDTH
    ensures i < 0x1_0000_0000 ==> IndexOf(c) == i
    ensures i < 0x1_0000_0000 ==> (c.y < GRID_HEIGHT <==> i < GRID_CELLS)
  {
    var i32 := (i % 0x1_0000_0000) as U32;
    Coord(i32 % GRID_WIDTH, i32 / GRID_WIDTH)
  }

  /** Every in-bounds coordinate is the image of exactly the index `IndexOf` gives it. */
  lemma CoordOfIndexOf(c: Coord)
    requires c.x < GRID_WIDTH && c.y < GRID_HEIGHT
    ensures IndexOf(c) < GRID_CELLS
    ensures CoordOf(IndexOf(c)) == c
  {
  }

  /** Distinct indices of the grid give distinct coordinates. */
  lemma CoordOfInjective(i: nat, j: nat)
    requires i < GRID_CELLS && j < GRID_CELLS && i != j
    ensures CoordOf(i) != CoordOf(j)
  {
  }

  /** The cell size divides the window exactly, so the grid tiles the window. */
  lemma GridTilesWindow()
    ensures CELL_WIDTH * GRID_WIDTH == WIDTH
    ensures CELL_HEIGHT * GRID_HEIGHT == HEIGHT
    ensures GRID_CELLS == 1600
  {
  }
}
