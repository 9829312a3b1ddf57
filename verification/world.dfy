/**
 * The program's grid state and what it does with it: allocating the
 * `cells` and `buffer` vectors, seeding `cells` from the random source,
 * and the per-frame scan that calls `color_cell` for every live cell.
 */
module World {
  import opened Grid
  import opened Render

  /** One draw of `rand::gen_range(0, 10)`. */
  newtype Draw = d: int | 0 <= d < 10

  /** A grid of `n` cells, all `Dead`. */
  function DeadGrid(n: nat): (g: seq<CellState>)
    ensures |g| == n && forall i :: 0 <= i < n ==> g[i] == Dead
  {
    seq(n, _ => Dead)
  }

  /** Allocates a vector of `GRID_CELLS` cells, all `Dead`. */
  method NewGrid() returns (g: array<CellState>)
    ensures fresh(g)
    ensures g[..] == DeadGrid(GRID_CELLS)
  {
    g := new CellState[GRID_CELLS](_ => Dead);
  }

  // ---------------------------------------------------------------- seeding

  /**
   * The grid after seeding: cell `k` of the first `|g|` cells, given draw
   * `draws[k]`, becomes `Alive` on a draw of 0 and is otherwise left as it was.
   */
  function Seeded(g: seq<CellState>, draws: seq<Draw>): (r: seq<CellState>)
    requires |draws| == |g|
    ensures |r| == |g|
    decreases |g|
  {
    if g == [] then []
    else
      var n := |g| - 1;
      Seeded(g[..n], draws[..n]) + [if draws[n] == 0 then Alive else g[n]]
  }

  /** Cell `i` after seeding depends only on cell `i` before and draw `i`. */
  lemma {:induction false} SeededAt(g: seq<CellState>, draws: seq<Draw>, i: nat)
    requires |draws| == |g| && i < |g|
    ensures Seeded(g, draws)[i] == (if draws[i] == 0 then Alive else g[i])
    decreases |g|
  {
    var n := |g| - 1;
    if i < n {
      SeededAt(g[..n], draws[..n], i);
    }
  }

  /** Seeding never kills a cell: whatever was `Alive` stays `Alive`. */
  lemma {:induction false} SeedKeepsAlive(g: seq<CellState>, draws: seq<Draw>, i: nat)
    requires |draws| == |g| && i < |g| && g[i] == Alive
    ensures Seeded(g, draws)[i] == Alive
  {
    SeededAt(g, draws, i);
  }

  /** Seeding a freshly allocated grid: cell `i` is `Alive` exactly when draw `i` was 0. */
  lemma {:induction false} SeedFromDead(draws: seq<Draw>, i: nat)
    requires i < |draws|
    ensures Seeded(DeadGrid(|draws|), draws)[i] == Alive <==> draws[i] == 0
    ensures Seeded(DeadGrid(|draws|), draws)[i] == Dead <==> draws[i] != 0
  {
    SeededAt(DeadGrid(|draws|), draws, i);
  }

  /** Seeding twice with the same draws is the same as seeding once. */
  lemma {:induction false} SeedIdempotent(g: seq<CellState>, draws: seq<Draw>)
    requires |draws| == |g|
    ensures Seeded(Seeded(g, draws), draws) == Seeded(g, draws)
  {
    var once := Seeded(g, draws);
    forall i | 0 <= i < |g|
      ensures Seeded(once, draws)[i] == once[i]
    {
      SeededAt(g, draws, i);
      SeededAt(once, draws, i);
    }
  }

  /**
   * The seeding pass over `cells.iter_mut()`: one draw per cell, in index
   * order; a draw of 0 sets the cell `Alive`, any other draw leaves it.
   */
  method Seed(cells: array<CellState>, draws: seq<Draw>)
    requires |draws| == cells.Length
    modifies cells
    ensures cells[..] == Seeded(old(cells[..]), draws)
  {
    ghost var before := cells[..];
    for i := 0 to cells.Length
      invariant cells[..i] == Seeded(before[..i], draws[..i])
      invariant cells[i..] == before[i..]
    {
      assert before[..i + 1][..i] == before[..i];
      assert draws[..i + 1][..i] == draws[..i];
      if draws[i] == 0 {
        cells[i] := Alive;
      }
      assert cells[..i + 1] == cells[..i] + [cells[i]];
    }
    assert before[..cells.Length] == before && draws[..cells.Length] == draws;
  }

  // ------------------------------------------------------------- frame scan

  /**
   * The `color_cell` calls the frame scan makes while walking the first `n`
   * cells: one call, with the cell's coordinate, for every `Alive` index,
   * in increasing index order.
   */
  function CallsBelow(g: seq<CellState>, n: nat): (calls: seq<Coord>)
    requires n <= |g| <= GRID_CELLS
    ensures forall k :: 0 <= k < |calls| ==> IndexOf(calls[k]) < n
    ensures forall k :: 0 <= k < |calls| ==> calls[k].x < GRID_WIDTH && calls[k].y < GRID_HEIGHT
  {
    if n == 0 then []
    else CallsBelow(g, n - 1) + (if g[n - 1] == Alive then [CoordOf(n - 1)] else [])
  }

  /** The `color_cell` calls of one whole frame. */
  function FrameCalls(g: seq<CellState>): seq<Coord>
    requires |g| <= GRID_CELLS
  {
    CallsBelow(g, |g|)
  }

  /** Index `i` is coloured among the first `n` cells exactly when it is one of them and `Alive`. */
  lemma {:induction false} CallsBelowMember(g: seq<CellState>, n: nat, i: nat)
    requires n <= |g| <= GRID_CELLS && i < |g|
    ensures CoordOf(i) in CallsBelow(g, n) <==> i < n && g[i] == Alive
  {
    if n > 0 {
      CallsBelowMember(g, n - 1, i);
      if i != n - 1 {
        CoordOfInjective(i, n - 1);
      }
    }
  }

  /** The calls come in strictly increasing index order. */
  lemma {:induction false} CallsBelowIncreasing(g: seq<CellState>, n: nat)
    requires n <= |g| <= GRID_CELLS
    ensures forall a, b :: 0 <= a < b < |CallsBelow(g, n)| ==>
      IndexOf(CallsBelow(g, n)[a]) < IndexOf(CallsBelow(g, n)[b])
  {
    if n > 0 {
      CallsBelowIncreasing(g, n - 1);
    }
  }

  /**
   * In one frame, `color_cell` is called for cell `i` exactly when it is
   * `Alive`, and then exactly once: the calls are in increasing index order,
   * so no coordinate is coloured twice.
   */
  lemma FrameCallsExact(g: seq<CellState>, i: nat)
    requires |g| <= GRID_CELLS && i < |g|
    ensures CoordOf(i) in FrameCalls(g) <==> g[i] == Alive
    ensures forall a, b :: 0 <= a < b < |FrameCalls(g)| ==>
      IndexOf(FrameCalls(g)[a]) < IndexOf(FrameCalls(g)[b])
  {
    CallsBelowMember(g, |g|, i);
    CallsBelowIncreasing(g, |g|);
  }

  /** Every call the frame scan makes passes both of `color_cell`'s assertions. */
  lemma FrameNeverPanics(g: seq<CellState>, k: nat)
    requires |g| <= GRID_CELLS && k < |FrameCalls(g)|
    ensures ColorCell(FrameCalls(g)[k].x, FrameCalls(g)[k].y).Drawn?
  {
  }

  /**
   * The assertions are tight: the scan's coordinate of index `i` passes them
   * exactly when `i` lies within the `GRID_WIDTH * GRID_HEIGHT` cells, so
   * one more cell in the vector would make the scan panic.
   */
  lemma AssertsMatchGrid(i: nat)
    requires i < 0x1_0000_0000
    ensures ColorCell(CoordOf(i).x, CoordOf(i).y).Drawn? <==> i < GRID_CELLS
    ensures i >= GRID_CELLS ==> ColorCell(CoordOf(i).x, CoordOf(i).y) == Panicked(RowOutOfRange)
  {
  }

  /** The rectangles of two different calls in one frame share no pixel. */
  lemma FrameRectsDisjoint(g: seq<CellState>, a: nat, b: nat, px: int, py: int)
    requires |g| <= GRID_CELLS && a < b < |FrameCalls(g)|
    ensures !(Covers(ColorCell(FrameCalls(g)[a].x, FrameCalls(g)[a].y).rect, px, py) &&
              Covers(ColorCell(FrameCalls(g)[b].x, FrameCalls(g)[b].y).rect, px, py))
  {
    CallsBelowIncreasing(g, |g|);
    DistinctCellsDisjoint(FrameCalls(g)[a], FrameCalls(g)[b], px, py);
  }

  /**
   * One iteration of the frame loop: walk `cells` in index order and, for
   * every `Alive` index, compute its column and row and call `color_cell`.
   * Returns the calls made and the rectangles drawn; `cells` is only read.
   */
  method ScanFrame(cells: array<CellState>) returns (calls: seq<Coord>, rects: seq<Rect>)
    requires cells.Length <= GRID_CELLS
    ensures calls == FrameCalls(cells[..])
    ensures |rects| == |calls|
    ensures forall k :: 0 <= k < |calls| ==> ColorCell(calls[k].x, calls[k].y) == Drawn(rects[k])
  {
    calls, rects := [], [];
    for i := 0 to cells.Length
      invariant calls == CallsBelow(cells[..], i)
      invariant |rects| == |calls|
      invariant forall k :: 0 <= k < |calls| ==> ColorCell(calls[k].x, calls[k].y) == Drawn(rects[k])
    {
      if cells[i] == Alive {
        var c := CoordOf(i);
        var outcome := ColorCell(c.x, c.y);
        calls := calls + [c];
        rects := rects + [outcome.rect];
      }
    }
  }

  /**
   * `main` up to the end of its first frame: allocate `cells` and `buffer`,
   * seed `cells` with one draw per cell, then scan one frame. The frame leaves
   * both vectors as they were, and `buffer` is never touched after allocation.
   */
  method Startup(draws: seq<Draw>)
    returns (cells: array<CellState>, buffer: array<CellState>, calls: seq<Coord>, rects: seq<Rect>)
    requires |draws| == GRID_CELLS
    ensures fresh(cells) && fresh(buffer) && cells != buffer
    ensures cells[..] == Seeded(DeadGrid(GRID_CELLS), draws)
    ensures buffer[..] == DeadGrid(GRID_CELLS)
    ensures calls == FrameCalls(cells[..])
    ensures |rects| == |calls|
    ensures forall k :: 0 <= k < |calls| ==> ColorCell(calls[k].x, calls[k].y) == Drawn(rects[k])
  {
    cells := NewGrid();
    buffer := NewGrid();
    Seed(cells, draws);
    calls, rects := ScanFrame(cells);
  }

  /** In the first frame, cell `i` is coloured exactly when its draw was 0. */
  lemma FirstFrameFromDraws(draws: seq<Draw>, i: nat)
    requires |draws| == GRID_CELLS && i < GRID_CELLS
    ensures CoordOf(i) in FrameCalls(Seeded(DeadGrid(GRID_CELLS), draws)) <==> draws[i] == 0
  {
    SeedFromDead(draws, i);
    FrameCallsExact(Seeded(DeadGrid(GRID_CELLS), draws), i);
  }
}
