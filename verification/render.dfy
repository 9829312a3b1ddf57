/**
 * `color_cell`: the two bounds assertions it makes before drawing, and the
 * integer rectangle (origin and size) it hands to the drawing library.
 */
module Render {
  import opened Grid

  /** A rectangle in window pixels: origin `left`/`top`, extent `width`/`height`. */
  datatype Rect = Rect(left: U32, top: U32, width: U32, height: U32)

  /** Which of `color_cell`'s two `assert!`s fired. */
  datatype AssertFailure = ColumnOutOfRange | RowOutOfRange

  /** The result of one `color_cell` call: a rectangle drawn, or a panic. */
  datatype Outcome = Drawn(rect: Rect) | Panicked(failure: AssertFailure)

  /** The bound `color_cell` writes as a literal in both of its assertions. */
  const ASSERTED_BOUND: U32 := 40

  /** Whether pixel `(px, py)` lies inside `r` (half-open on the right and bottom). */
  predicate Covers(r: Rect, px: int, py: int)
  {
    r.left as int <= px < r.left as int + r.width as int &&
    r.top as int <= py < r.top as int + r.height as int
  }

  /** Whether `r` lies inside the `WIDTH` by `HEIGHT` window. */
  predicate InWindow(r: Rect)
  {
    r.left as int + r.width as int <= WIDTH as int &&
    r.top as int + r.height as int <= HEIGHT as int
  }

  /**
   * `color_cell(x, y)`: panics unless `x < 40`, then unless `y < 40`;
   * otherwise draws the cell-sized rectangle at `(CELL_WIDTH * x, CELL_HEIGHT * y)`.
   * The literal bound is exactly the grid's size, so the call succeeds on
   * precisely the coordinates of the grid, and the rectangle it draws is a
   * whole cell of the window.
   */
  function ColorCell(x: U32, y: U32): (r: Outcome)
    ensures r.Drawn? <==> x < GRID_WIDTH && y < GRID_HEIGHT
    ensures r == Panicked(ColumnOutOfRange) <==> x >= GRID_WIDTH
    ensures r.Drawn? ==> InWindow(r.rect)
    ensures r.Drawn? ==> r.rect.width == CELL_WIDTH && r.rect.height == CELL_HEIGHT
  {
    if !(x < ASSERTED_BOUND) then Panicked(ColumnOutOfRange)
    else if !(y < ASSERTED_BOUND) then Panicked(RowOutOfRange)
    else Drawn(Rect(CELL_WIDTH * x, CELL_HEIGHT * y, CELL_WIDTH, CELL_HEIGHT))
  }

  /**
   * The rectangle drawn for cell `(x, y)` covers exactly the pixels whose
   * column divided by the cell width is `x` and whose row divided by the
   * cell height is `y`: the rectangle identifies its cell.
   */
  lemma CellPixels(x: U32, y: U32, px: int, py: int)
    requires x < GRID_WIDTH && y < GRID_HEIGHT
    ensures Covers(ColorCell(x, y).rect, px, py) <==>
      0 <= px && 0 <= py && px / CELL_WIDTH as int == x as int && py / CELL_HEIGHT as int == y as int
  {
    var r := ColorCell(x, y).rect;
    assert r.left as int == 20 * x as int && r.top as int == 20 * y as int;
  }

  /** Rectangles of two different in-bounds cells share no pixel. */
  lemma DistinctCellsDisjoint(a: Coord, b: Coord, px: int, py: int)
    requires a.x < GRID_WIDTH && a.y < GRID_HEIGHT
    requires b.x < GRID_WIDTH && b.y < GRID_HEIGHT
    requires a != b
    ensures !(Covers(ColorCell(a.x, a.y).rect, px, py) && Covers(ColorCell(b.x, b.y).rect, px, py))
  {
    CellPixels(a.x, a.y, px, py);
    CellPixels(b.x, b.y, px, py);
  }

  /** Every pixel of the window belongs to the rectangle of some in-bounds cell. */
  lemma WindowCovered(px: int, py: int)
    requires 0 <= px < WIDTH as int && 0 <= py < HEIGHT as int
    ensures exists x: U32, y: U32 :: x < GRID_WIDTH && y < GRID_HEIGHT && Covers(ColorCell(x, y).rect, px, py)
  {
    var x := px / 20;
    var y := py / 20;
    assert x < 40 && y < 40;
    CellPixels(x as U32, y as U32, px, py);
  }
}
