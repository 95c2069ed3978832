/** The render scheduler (breakout.c render, render_brick): a cached game counter and a
    full-render flag decide between repainting every brick and blanking only the cells
    flagged for erasing. Pixel rectangles come from float geometry and are inputs here,
    one per cell. */
module Render {
  import opened Grid
  import opened Colors

  /** A brick's pixel rectangle: top-left corner, width and height. */
  datatype Rect = Rect(x: nat, y: nat, width: nat, height: nat)

  /** The canvas offset of row i, column j of a rectangle at (x, y). */
  function PixelOffset(x: nat, y: nat, canvasWidth: nat, i: nat, j: nat): nat {
    (y + i) * canvasWidth + x + j
  }

  /** Offset `k` is written when the first `rows` rows of a `width`-wide rectangle are filled. */
  ghost predicate Covers(x: nat, y: nat, canvasWidth: nat, width: nat, rows: nat, k: int) {
    exists i: nat, j: nat :: i < rows && j < width && k == PixelOffset(x, y, canvasWidth, i, j)
  }

  /** Offset `k` is one of the first `cols` pixels of row `i`. */
  ghost predicate RowCovers(x: nat, y: nat, canvasWidth: nat, i: nat, cols: nat, k: int) {
    exists j: nat :: j < cols && k == PixelOffset(x, y, canvasWidth, i, j)
  }

  /** The rectangle's last pixel, and so every pixel of it, lies inside a canvas of `len`. */
  predicate Fits(x: nat, y: nat, canvasWidth: nat, width: nat, height: nat, len: nat) {
    width == 0 || height == 0 || PixelOffset(x, y, canvasWidth, height - 1, width - 1) < len
  }

  lemma OffsetBelowLast(x: nat, y: nat, canvasWidth: nat, width: nat, height: nat, i: nat, j: nat)
    requires i < height && j < width
    ensures PixelOffset(x, y, canvasWidth, i, j) <= PixelOffset(x, y, canvasWidth, height - 1, width - 1)
  {
    MulMonotone(y + i, y + height - 1, canvasWidth);
  }

  lemma AllOffsetsFit(x: nat, y: nat, canvasWidth: nat, width: nat, height: nat, len: nat)
    requires Fits(x, y, canvasWidth, width, height, len)
    ensures forall i: nat, j: nat | i < height && j < width :: PixelOffset(x, y, canvasWidth, i, j) < len
  {
    forall i: nat, j: nat | i < height && j < width
      ensures PixelOffset(x, y, canvasWidth, i, j) < len
    {
      OffsetBelowLast(x, y, canvasWidth, width, height, i, j);
    }
  }

  /** One more pixel of row i. */
  lemma RowCoversNext(x: nat, y: nat, canvasWidth: nat, i: nat, cols: nat)
    ensures forall k: int :: RowCovers(x, y, canvasWidth, i, cols + 1, k)
              <==> RowCovers(x, y, canvasWidth, i, cols, k) || k == PixelOffset(x, y, canvasWidth, i, cols)
  {
    forall k: int | RowCovers(x, y, canvasWidth, i, cols + 1, k)
      ensures RowCovers(x, y, canvasWidth, i, cols, k) || k == PixelOffset(x, y, canvasWidth, i, cols)
    {
      var j: nat :| j < cols + 1 && k == PixelOffset(x, y, canvasWidth, i, j);
      if j < cols {
        assert RowCovers(x, y, canvasWidth, i, cols, k);
      }
    }
    assert RowCovers(x, y, canvasWidth, i, cols + 1, PixelOffset(x, y, canvasWidth, i, cols));
  }

  /** One more full row. */
  lemma CoversNext(x: nat, y: nat, canvasWidth: nat, width: nat, rows: nat)
    ensures forall k: int :: Covers(x, y, canvasWidth, width, rows + 1, k)
              <==> Covers(x, y, canvasWidth, width, rows, k) || RowCovers(x, y, canvasWidth, rows, width, k)
  {
    forall k: int | Covers(x, y, canvasWidth, width, rows + 1, k)
      ensures Covers(x, y, canvasWidth, width, rows, k) || RowCovers(x, y, canvasWidth, rows, width, k)
    {
      var i: nat, j: nat :| i < rows + 1 && j < width && k == PixelOffset(x, y, canvasWidth, i, j);
      if i < rows {
        assert Covers(x, y, canvasWidth, width, rows, k);
      } else {
        assert RowCovers(x, y, canvasWidth, rows, width, k);
      }
    }
    forall k: int | RowCovers(x, y, canvasWidth, rows, width, k)
      ensures Covers(x, y, canvasWidth, width, rows + 1, k)
    {
      var j: nat :| j < width && k == PixelOffset(x, y, canvasWidth, rows, j);
      assert rows < rows + 1 && k == PixelOffset(x, y, canvasWidth, rows, j);
    }
  }

  /** render_brick: fill a rectangle with one colour. Exactly the rectangle's pixels
      `(y + i) * canvasWidth + x + j` hold the colour afterwards; every other pixel keeps
      its value. */
  method RenderBrick(canvas: seq<Pixel>, x: nat, y: nat, canvasWidth: nat, width: nat, height: nat, color: Pixel)
    returns (out: seq<Pixel>)
    requires Fits(x, y, canvasWidth, width, height, |canvas|)
    ensures |out| == |canvas|
    ensures forall i: nat, j: nat | i < height && j < width :: out[PixelOffset(x, y, canvasWidth, i, j)] == color
    ensures forall k | 0 <= k < |canvas| && !Covers(x, y, canvasWidth, width, height, k) :: out[k] == canvas[k]
  {
    AllOffsetsFit(x, y, canvasWidth, width, height, |canvas|);
    out := canvas;
    var i := 0;
    while i < height
      invariant i <= height
      invariant |out| == |canvas|
      invariant forall i': nat, j': nat | i' < i && j' < width :: out[PixelOffset(x, y, canvasWidth, i', j')] == color
      invariant forall k | 0 <= k < |canvas| && !Covers(x, y, canvasWidth, width, i, k) :: out[k] == canvas[k]
    {
      var before := out;
      out := FillRow(out, x, y, canvasWidth, i, width, color);
      forall i': nat, j': nat | i' < i + 1 && j' < width
        ensures out[PixelOffset(x, y, canvasWidth, i', j')] == color
      {
        var k := PixelOffset(x, y, canvasWidth, i', j');
        if RowCovers(x, y, canvasWidth, i, width, k) {
          var j'': nat :| j'' < width && k == PixelOffset(x, y, canvasWidth, i, j'');
        } else {
          assert i' < i;
        }
      }
      CoversNext(x, y, canvasWidth, width, i);
      i := i + 1;
    }
  }

  /** The inner loop of render_brick: the first `width` pixels of row i. */
  method FillRow(canvas: seq<Pixel>, x: nat, y: nat, canvasWidth: nat, i: nat, width: nat, color: Pixel)
    returns (out: seq<Pixel>)
    requires forall j: nat | j < width :: PixelOffset(x, y, canvasWidth, i, j) < |canvas|
    ensures |out| == |canvas|
    ensures forall j: nat | j < width :: out[PixelOffset(x, y, canvasWidth, i, j)] == color
    ensures forall k | 0 <= k < |canvas| && !RowCovers(x, y, canvasWidth, i, width, k) :: out[k] == canvas[k]
  {
    out := canvas;
    var j := 0;
    while j < width
      invariant j <= width
      invariant |out| == |canvas|
      invariant forall j': nat | j' < j :: out[PixelOffset(x, y, canvasWidth, i, j')] == color
      invariant forall k | 0 <= k < |canvas| && !RowCovers(x, y, canvasWidth, i, j, k) :: out[k] == canvas[k]
    {
      RowCoversNext(x, y, canvasWidth, i, j);
      out := out[PixelOffset(x, y, canvasWidth, i, j) := color];
      j := j + 1;
    }
  }

  /** The presentation side's cache: the full-render flag and the last game counter seen. */
  datatype RenderCache = RenderCache(needsFullRender: bool, gameCount: nat)

  /** needs_full_render starts true and the cached game_count at 0. */
  const InitialCache: RenderCache := RenderCache(true, 0)

  /** Because the flag starts set, the first frame repaints every cell with its pattern
      colour, whatever state it is given. */
  lemma FirstFrameRepaints(s: SaveState)
    requires WellFormed(s) && s.colorFunc < ColorFuncCount
    ensures FullRepaint(InitialCache, s)
    ensures Schedule(InitialCache, s).1 == FullPlan(s)
    ensures Schedule(InitialCache, s).0 == RenderCache(false, s.gameCount)
  {
  }

  /** One render_brick call of a render pass: the cell and the colour painted over it. */
  datatype Paint = Paint(cell: nat, color: Pixel)

  function Cells(plan: seq<Paint>): set<nat> {
    set p | p in plan :: p.cell
  }

  /** Whether this frame repaints everything: the flag is set, or the grid was reset
      since the cached counter was taken. */
  predicate FullRepaint(cache: RenderCache, s: SaveState) {
    cache.needsFullRender || cache.gameCount != s.gameCount
  }

  /** The full branch: every cell once, in the source's loop order (row by row, and
      column by column within a row), the cell at column x and row y painted with
      get_color_for_brick(x, y). */
  function FullPlan(s: SaveState): (plan: seq<Paint>)
    requires s.colorFunc < ColorFuncCount
    ensures |plan| == CellCount && OnGrid(plan)
    ensures forall n | 0 <= n < |plan| :: plan[n].cell == n
    ensures forall x: nat, y: nat | InGrid(x, y) :: plan[CellIndex(x, y)].color == ColorFor(s.colorFunc, x, y)
  {
    seq(CellCount, n requires 0 <= n < CellCount =>
      Paint(n, ColorFor(s.colorFunc, n % BricksPerRow, n / BricksPerRow)))
  }

  /** The incremental branch from cell k on: blank flagged cells in row-major order. */
  function ErasePlan(s: SaveState, k: nat): (plan: seq<Paint>)
    requires WellFormed(s) && k <= CellCount
    ensures BlanksFrom(plan, k)
    ensures Increasing(plan)
    decreases CellCount - k
  {
    if k == CellCount then []
    else if GetCell(s, k).needsErasing then
      var rest := ErasePlan(s, k + 1);
      BlankCons(k, rest);
      [Paint(k, 0)] + rest
    else ErasePlan(s, k + 1)
  }

  /** The incremental plan from k on blanks exactly the flagged cells from k on. */
  lemma ErasePlanCells(s: SaveState, k: nat)
    requires WellFormed(s) && k <= CellCount
    ensures forall c: nat | k <= c < CellCount :: c in Cells(ErasePlan(s, k)) <==> GetCell(s, c).needsErasing
    ensures forall c | c in Cells(ErasePlan(s, k)) :: k <= c < CellCount
  {
    forall c: nat
      ensures c in Cells(ErasePlan(s, k)) <==> k <= c < CellCount && GetCell(s, c).needsErasing
    {
      ErasePlanHas(s, k, c);
    }
  }

  lemma {:induction false} ErasePlanHas(s: SaveState, k: nat, c: nat)
    requires WellFormed(s) && k <= CellCount
    ensures c in Cells(ErasePlan(s, k)) <==> k <= c < CellCount && GetCell(s, c).needsErasing
    decreases CellCount - k
  {
    if k < CellCount {
      ErasePlanHas(s, k + 1, c);
      if GetCell(s, k).needsErasing {
        ErasePlanFlagged(s, k, c);
      } else {
        ErasePlanSkips(s, k, c);
      }
    } else {
      assert ErasePlan(s, k) == [];
      assert Cells([]) == {};
    }
  }

  lemma ErasePlanSkips(s: SaveState, k: nat, c: nat)
    requires WellFormed(s) && k < CellCount && !GetCell(s, k).needsErasing
    requires c in Cells(ErasePlan(s, k + 1)) <==> k + 1 <= c < CellCount && GetCell(s, c).needsErasing
    ensures c in Cells(ErasePlan(s, k)) <==> k <= c < CellCount && GetCell(s, c).needsErasing
  {
    assert ErasePlan(s, k) == ErasePlan(s, k + 1);
  }

  lemma ErasePlanFlagged(s: SaveState, k: nat, c: nat)
    requires WellFormed(s) && k < CellCount && GetCell(s, k).needsErasing
    requires c in Cells(ErasePlan(s, k + 1)) <==> k + 1 <= c < CellCount && GetCell(s, c).needsErasing
    ensures c in Cells(ErasePlan(s, k)) <==> k <= c < CellCount && GetCell(s, c).needsErasing
  {
    var rest := ErasePlan(s, k + 1);
    BlankCons(k, rest);
    assert ErasePlan(s, k) == [Paint(k, 0)] + rest;
  }

  /** Every command of the plan blanks a cell from k on. */
  predicate BlanksFrom(plan: seq<Paint>, k: nat) {
    forall n | 0 <= n < |plan| :: k <= plan[n].cell < CellCount && plan[n].color == 0
  }

  /** The plan visits cells in strictly increasing order. */
  predicate Increasing(plan: seq<Paint>) {
    forall n, m | 0 <= n < m < |plan| :: plan[n].cell < plan[m].cell
  }

  /** Blanking cell k in front of a plan for the cells after k. */
  lemma BlankCons(k: nat, rest: seq<Paint>)
    requires k < CellCount && BlanksFrom(rest, k + 1) && Increasing(rest)
    ensures BlanksFrom([Paint(k, 0)] + rest, k) && Increasing([Paint(k, 0)] + rest)
    ensures Cells([Paint(k, 0)] + rest) == {k} + Cells(rest)
  {
    var plan := [Paint(k, 0)] + rest;
    assert forall n | 1 <= n < |plan| :: plan[n] == rest[n - 1];
    assert forall q | q in plan :: q == Paint(k, 0) || q in rest;
  }

  /** The decision render makes each frame. Afterwards the full-render flag is always
      clear and the cache holds the state's game counter. A full repaint paints every
      cell with its pattern colour; otherwise exactly the flagged cells are blanked, in
      row-major order, and the cache is unchanged. */
  function Schedule(cache: RenderCache, s: SaveState): (r: (RenderCache, seq<Paint>))
    requires WellFormed(s) && s.colorFunc < ColorFuncCount
    ensures !r.0.needsFullRender && r.0.gameCount == s.gameCount
    ensures FullRepaint(cache, s) ==> |r.1| == CellCount
    ensures FullRepaint(cache, s) ==> forall n | 0 <= n < CellCount ::
              r.1[n] == Paint(n, ColorFor(s.colorFunc, n % BricksPerRow, n / BricksPerRow))
    ensures !FullRepaint(cache, s) ==> r.0 == cache
    ensures !FullRepaint(cache, s) ==> forall n | 0 <= n < |r.1| :: r.1[n].cell < CellCount && r.1[n].color == 0
    ensures !FullRepaint(cache, s) ==> forall c: nat | c < CellCount :: c in Cells(r.1) <==> GetCell(s, c).needsErasing
    ensures forall n | 0 <= n < |r.1| :: r.1[n].cell < CellCount
    ensures forall n, m | 0 <= n < m < |r.1| :: r.1[n].cell < r.1[m].cell
  {
    var seen := if cache.gameCount != s.gameCount then RenderCache(true, s.gameCount) else cache;
    if seen.needsFullRender then (RenderCache(false, seen.gameCount), FullPlan(s))
    else
      ErasePlanCells(s, 0);
      (seen, ErasePlan(s, 0))
  }

  /** As written, render never stores the cleared needs_erasing bit, so a frame that
      follows any frame on the same state blanks every flagged cell again. */
  lemma FlaggedCellsRepaintedEveryFrame(cache: RenderCache, s: SaveState, c: nat)
    requires WellFormed(s) && s.colorFunc < ColorFuncCount
    requires c < CellCount && GetCell(s, c).needsErasing
    ensures !FullRepaint(Schedule(cache, s).0, s)
    ensures c in Cells(Schedule(Schedule(cache, s).0, s).1)
  {
  }

  /** The write-back the incremental branch intends: clear the needs_erasing bit of every
      painted cell. Painted cells keep `destroyed` and lose the flag; no other cell changes. */
  function Acknowledge(s: SaveState, plan: seq<Paint>): (r: SaveState)
    requires WellFormed(s)
    requires forall n | 0 <= n < |plan| :: plan[n].cell < CellCount
    ensures WellFormed(r)
    ensures r.bricksCount == s.bricksCount && r.gameCount == s.gameCount && r.colorFunc == s.colorFunc
    ensures forall c: nat | c < CellCount ::
              GetCell(r, c) == if c in Cells(plan) then Brick(GetCell(s, c).destroyed, false) else GetCell(s, c)
    decreases |plan|
  {
    if |plan| == 0 then s
    else
      var first := ClearErasing(s, plan[0].cell);
      ClearGet(s, plan[0].cell);
      assert Cells(plan) == {plan[0].cell} + Cells(plan[1..]);
      Acknowledge(first, plan[1..])
  }

  /** Acknowledging painted cells keeps the state invariant. */
  lemma AcknowledgeKeepsConsistent(s: SaveState, plan: seq<Paint>)
    requires Consistent(s)
    requires forall n | 0 <= n < |plan| :: plan[n].cell < CellCount
    ensures Consistent(Acknowledge(s, plan))
  {
    LiveBelowFrame(s, Acknowledge(s, plan), CellCount);
  }

  /** With the write-back, an incremental frame on an unchanged grid paints nothing: each
      destroyed brick is blanked once. */
  lemma AcknowledgedCellsNotRepainted(cache: RenderCache, s: SaveState)
    requires WellFormed(s) && s.colorFunc < ColorFuncCount
    requires !FullRepaint(cache, s)
    ensures var (next, plan) := Schedule(cache, s);
            Schedule(next, Acknowledge(s, plan)).1 == []
  {
    var (next, plan) := Schedule(cache, s);
    var t := Acknowledge(s, plan);
    assert next == cache && t.gameCount == s.gameCount;
    assert !FullRepaint(next, t);
    forall c: nat | c < CellCount
      ensures !GetCell(t, c).needsErasing
    {
      if c !in Cells(plan) {
        assert !GetCell(s, c).needsErasing;
      }
    }
    NoFlagsNothingToErase(t, 0);
  }

  /** After a step that destroyed one brick, on a grid with nothing else left to erase, the
      next incremental frame blanks that brick and nothing else. */
  lemma SingleDestroyRepaintsOneCell(cache: RenderCache, s: SaveState, c: nat)
    requires WellFormed(s) && s.colorFunc < ColorFuncCount && c < CellCount
    requires !FullRepaint(cache, s)
    requires GetCell(s, c).needsErasing
    requires forall d: nat | d < CellCount && d != c :: !GetCell(s, d).needsErasing
    ensures Schedule(cache, s).1 == [Paint(c, 0)]
  {
    OneFlagOneErase(s, 0, c);
  }

  lemma {:induction false} NoFlagsNothingToErase(s: SaveState, k: nat)
    requires WellFormed(s) && k <= CellCount
    requires forall d: nat | k <= d < CellCount :: !GetCell(s, d).needsErasing
    ensures ErasePlan(s, k) == []
    decreases CellCount - k
  {
    if k < CellCount {
      NoFlagsNothingToErase(s, k + 1);
    }
  }

  lemma {:induction false} OneFlagOneErase(s: SaveState, k: nat, c: nat)
    requires WellFormed(s) && k <= c < CellCount && GetCell(s, c).needsErasing
    requires forall d: nat | k <= d < CellCount && d != c :: !GetCell(s, d).needsErasing
    ensures ErasePlan(s, k) == [Paint(c, 0)]
    decreases CellCount - k
  {
    if k < c {
      OneFlagOneErase(s, k + 1, c);
      assert ErasePlan(s, k) == ErasePlan(s, k + 1);
    } else {
      NoFlagsNothingToErase(s, k + 1);
      assert ErasePlan(s, k) == [Paint(k, 0)] + ErasePlan(s, k + 1);
    }
  }

  /** A cell's pixel rectangle covers canvas offset k. */
  ghost predicate InRect(rect: Rect, canvasWidth: nat, k: int) {
    Covers(rect.x, rect.y, canvasWidth, rect.width, rect.height, k)
  }

  predicate RectFits(rect: Rect, canvasWidth: nat, len: nat) {
    Fits(rect.x, rect.y, canvasWidth, rect.width, rect.height, len)
  }

  /** Every command of a plan names a cell of the grid. */
  predicate OnGrid(plan: seq<Paint>) {
    forall n | 0 <= n < |plan| :: plan[n].cell < CellCount
  }

  /** Reference meaning of a pass, pixel by pixel: after the paints of `plan`, pixel k
      holds the colour of the last paint whose rectangle covers it, or its old value when
      none does. */
  ghost function PixelAfter(canvas: seq<Pixel>, canvasWidth: nat, layout: seq<Rect>, plan: seq<Paint>, k: nat): Pixel
    requires |layout| == CellCount && OnGrid(plan) && k < |canvas|
    decreases |plan|
  {
    if |plan| == 0 then canvas[k]
    else
      var last := plan[|plan| - 1];
      if InRect(layout[last.cell], canvasWidth, k) then last.color
      else PixelAfter(canvas, canvasWidth, layout, plan[..|plan| - 1], k)
  }

  /** The whole canvas after a pass. */
  ghost function Frame(canvas: seq<Pixel>, canvasWidth: nat, layout: seq<Rect>, plan: seq<Paint>): (out: seq<Pixel>)
    requires |layout| == CellCount && OnGrid(plan)
    ensures |out| == |canvas|
  {
    seq(|canvas|, k requires 0 <= k < |canvas| => PixelAfter(canvas, canvasWidth, layout, plan, k))
  }

  /** A pixel that a pass changes lies in the rectangle of one of its paints and holds that
      paint's colour. */
  lemma {:induction false} PixelAfterChanged(canvas: seq<Pixel>, canvasWidth: nat, layout: seq<Rect>, plan: seq<Paint>, k: nat)
    requires |layout| == CellCount && OnGrid(plan) && k < |canvas|
    requires PixelAfter(canvas, canvasWidth, layout, plan, k) != canvas[k]
    ensures exists n :: 0 <= n < |plan| && InRect(layout[plan[n].cell], canvasWidth, k)
                        && PixelAfter(canvas, canvasWidth, layout, plan, k) == plan[n].color
    decreases |plan|
  {
    var last := |plan| - 1;
    if !InRect(layout[plan[last].cell], canvasWidth, k) {
      var front := plan[..last];
      PixelAfterChanged(canvas, canvasWidth, layout, front, k);
      var n :| 0 <= n < |front| && InRect(layout[front[n].cell], canvasWidth, k)
               && PixelAfter(canvas, canvasWidth, layout, front, k) == front[n].color;
      assert plan[n] == front[n];
    }
  }

  /** A pixel covered by paint n and by no later paint holds paint n's colour. */
  lemma {:induction false} PixelAfterLast(canvas: seq<Pixel>, canvasWidth: nat, layout: seq<Rect>, plan: seq<Paint>, k: nat, n: nat)
    requires |layout| == CellCount && OnGrid(plan) && k < |canvas| && n < |plan|
    requires InRect(layout[plan[n].cell], canvasWidth, k)
    requires forall m | n < m < |plan| :: !InRect(layout[plan[m].cell], canvasWidth, k)
    ensures PixelAfter(canvas, canvasWidth, layout, plan, k) == plan[n].color
    decreases |plan|
  {
    var last := |plan| - 1;
    if n < last {
      var front := plan[..last];
      assert front[n] == plan[n];
      assert forall m | n < m < |front| :: front[m] == plan[m];
      PixelAfterLast(canvas, canvasWidth, layout, front, k, n);
    }
  }

  /** When every paint of a pass has one colour, every pixel any of them covers ends in it. */
  lemma {:induction false} PixelAfterUniform(canvas: seq<Pixel>, canvasWidth: nat, layout: seq<Rect>, plan: seq<Paint>, k: nat, n: nat, color: Pixel)
    requires |layout| == CellCount && OnGrid(plan) && k < |canvas| && n < |plan|
    requires forall m | 0 <= m < |plan| :: plan[m].color == color
    requires InRect(layout[plan[n].cell], canvasWidth, k)
    ensures PixelAfter(canvas, canvasWidth, layout, plan, k) == color
    decreases |plan|
  {
    var last := |plan| - 1;
    if n < last && !InRect(layout[plan[last].cell], canvasWidth, k) {
      var front := plan[..last];
      assert front[n] == plan[n];
      PixelAfterUniform(canvas, canvasWidth, layout, front, k, n, color);
    }
  }

  /** The render_brick calls of one pass, in plan order. The result is the reference frame:
      each pixel holds the colour of the last paint covering it and every other pixel is
      kept; in particular a pixel changes only inside a painted rectangle, to that paint's
      colour. */
  method PaintPlan(canvas: seq<Pixel>, canvasWidth: nat, layout: seq<Rect>, plan: seq<Paint>)
    returns (out: seq<Pixel>)
    requires |layout| == CellCount
    requires forall c | 0 <= c < CellCount :: RectFits(layout[c], canvasWidth, |canvas|)
    requires OnGrid(plan)
    ensures out == Frame(canvas, canvasWidth, layout, plan)
    ensures forall k | 0 <= k < |canvas| && out[k] != canvas[k] ::
              exists n :: 0 <= n < |plan| && InRect(layout[plan[n].cell], canvasWidth, k) && out[k] == plan[n].color
  {
    out := canvas;
    var n := 0;
    while n < |plan|
      invariant n <= |plan|
      invariant |out| == |canvas|
      invariant forall k | 0 <= k < |canvas| :: out[k] == PixelAfter(canvas, canvasWidth, layout, plan[..n], k)
    {
      var rect := layout[plan[n].cell];
      ghost var before := out;
      out := RenderBrick(out, rect.x, rect.y, canvasWidth, rect.width, rect.height, plan[n].color);
      forall k | 0 <= k < |canvas|
        ensures out[k] == PixelAfter(canvas, canvasWidth, layout, plan[..n + 1], k)
      {
        assert plan[..n + 1][..n] == plan[..n];
        if InRect(rect, canvasWidth, k) {
          var i: nat, j: nat :| i < rect.height && j < rect.width && k == PixelOffset(rect.x, rect.y, canvasWidth, i, j);
          assert out[k] == plan[n].color;
        } else {
          assert out[k] == before[k];
        }
      }
      n := n + 1;
    }
    assert plan[..n] == plan;
    forall k | 0 <= k < |canvas| && out[k] != canvas[k]
      ensures exists n :: 0 <= n < |plan| && InRect(layout[plan[n].cell], canvasWidth, k) && out[k] == plan[n].color
    {
      PixelAfterChanged(canvas, canvasWidth, layout, plan, k);
    }
  }

  /** render, with the intended write-back of the erase flags and one rectangle per cell for
      both branches. The cache always ends with the full-render flag clear and the state's
      game counter, and the canvas is the reference frame of the scheduled plan.
      A full repaint leaves the state alone; a pixel of a cell's rectangle that no later
      cell's rectangle covers holds that cell's pattern colour, and no pixel changes
      outside the rectangles. An incremental frame keeps the cache, blanks every pixel of
      every flagged cell's rectangle, changes no other pixel, and clears every flag while
      keeping `destroyed`. A consistent state stays consistent. */
  method Render(cache: RenderCache, s: SaveState, canvas: seq<Pixel>, canvasWidth: nat, layout: seq<Rect>)
    returns (next: RenderCache, t: SaveState, out: seq<Pixel>)
    requires WellFormed(s) && s.colorFunc < ColorFuncCount
    requires |layout| == CellCount
    requires forall c | 0 <= c < CellCount :: RectFits(layout[c], canvasWidth, |canvas|)
    ensures !next.needsFullRender && next.gameCount == s.gameCount
    ensures |out| == |canvas|
    ensures OnGrid(Schedule(cache, s).1) && out == Frame(canvas, canvasWidth, layout, Schedule(cache, s).1)
    ensures WellFormed(t)
    ensures Consistent(s) ==> Consistent(t)
    ensures FullRepaint(cache, s) ==> t == s
    ensures FullRepaint(cache, s) ==>
              forall c, k | 0 <= c < CellCount && 0 <= k < |canvas| && InRect(layout[c], canvasWidth, k)
                            && (forall d | c < d < CellCount :: !InRect(layout[d], canvasWidth, k)) ::
                out[k] == ColorFor(s.colorFunc, c % BricksPerRow, c / BricksPerRow)
    ensures FullRepaint(cache, s) ==>
              forall k | 0 <= k < |canvas| && out[k] != canvas[k] ::
                exists c :: 0 <= c < CellCount && InRect(layout[c], canvasWidth, k)
                            && out[k] == ColorFor(s.colorFunc, c % BricksPerRow, c / BricksPerRow)
    ensures !FullRepaint(cache, s) ==> next == cache
    ensures !FullRepaint(cache, s) ==>
              && t.bricksCount == s.bricksCount && t.gameCount == s.gameCount && t.colorFunc == s.colorFunc
              && forall c: nat | c < CellCount :: GetCell(t, c) == Brick(GetCell(s, c).destroyed, false)
    ensures !FullRepaint(cache, s) ==>
              forall c, k | 0 <= c < CellCount && GetCell(s, c).needsErasing && 0 <= k < |canvas|
                            && InRect(layout[c], canvasWidth, k) ::
                out[k] == 0
    ensures !FullRepaint(cache, s) ==>
              forall k | 0 <= k < |canvas| && out[k] != canvas[k] ::
                out[k] == 0 && exists c :: 0 <= c < CellCount && GetCell(s, c).needsErasing && InRect(layout[c], canvasWidth, k)
  {
    var plan;
    next, plan := Schedule(cache, s).0, Schedule(cache, s).1;
    out := PaintPlan(canvas, canvasWidth, layout, plan);
    if FullRepaint(cache, s) {
      t := s;
      FullRepaintPixels(s, canvas, canvasWidth, layout, plan, out);
    } else {
      t := Acknowledge(s, plan);
      if Consistent(s) {
        AcknowledgeKeepsConsistent(s, plan);
      }
      EraseFramePixels(s, canvas, canvasWidth, layout, plan, out);
    }
  }

  /** The pixels of a full repaint. */
  lemma FullRepaintPixels(s: SaveState, canvas: seq<Pixel>, canvasWidth: nat, layout: seq<Rect>, plan: seq<Paint>, out: seq<Pixel>)
    requires WellFormed(s) && s.colorFunc < ColorFuncCount && |layout| == CellCount
    requires plan == FullPlan(s) && out == Frame(canvas, canvasWidth, layout, plan)
    ensures forall c, k | 0 <= c < CellCount && 0 <= k < |canvas| && InRect(layout[c], canvasWidth, k)
                          && (forall d | c < d < CellCount :: !InRect(layout[d], canvasWidth, k)) ::
              out[k] == ColorFor(s.colorFunc, c % BricksPerRow, c / BricksPerRow)
    ensures forall k | 0 <= k < |canvas| && out[k] != canvas[k] ::
              exists c :: 0 <= c < CellCount && InRect(layout[c], canvasWidth, k)
                          && out[k] == ColorFor(s.colorFunc, c % BricksPerRow, c / BricksPerRow)
  {
    forall c, k | 0 <= c < CellCount && 0 <= k < |canvas| && InRect(layout[c], canvasWidth, k)
                  && (forall d | c < d < CellCount :: !InRect(layout[d], canvasWidth, k))
      ensures out[k] == ColorFor(s.colorFunc, c % BricksPerRow, c / BricksPerRow)
    {
      PixelAfterLast(canvas, canvasWidth, layout, plan, k, c);
    }
    forall k | 0 <= k < |canvas| && out[k] != canvas[k]
      ensures exists c :: 0 <= c < CellCount && InRect(layout[c], canvasWidth, k)
                          && out[k] == ColorFor(s.colorFunc, c % BricksPerRow, c / BricksPerRow)
    {
      PixelAfterChanged(canvas, canvasWidth, layout, plan, k);
      var n :| 0 <= n < |plan| && InRect(layout[plan[n].cell], canvasWidth, k) && out[k] == plan[n].color;
      assert plan[n].cell == n;
    }
  }

  /** The pixels of an incremental frame. */
  lemma EraseFramePixels(s: SaveState, canvas: seq<Pixel>, canvasWidth: nat, layout: seq<Rect>, plan: seq<Paint>, out: seq<Pixel>)
    requires WellFormed(s) && |layout| == CellCount
    requires plan == ErasePlan(s, 0) && out == Frame(canvas, canvasWidth, layout, plan)
    ensures forall c, k | 0 <= c < CellCount && GetCell(s, c).needsErasing && 0 <= k < |canvas|
                          && InRect(layout[c], canvasWidth, k) ::
              out[k] == 0
    ensures forall k | 0 <= k < |canvas| && out[k] != canvas[k] ::
              out[k] == 0 && exists c :: 0 <= c < CellCount && GetCell(s, c).needsErasing && InRect(layout[c], canvasWidth, k)
  {
    ErasePlanCells(s, 0);
    forall c, k | 0 <= c < CellCount && GetCell(s, c).needsErasing && 0 <= k < |canvas| && InRect(layout[c], canvasWidth, k)
      ensures out[k] == 0
    {
      assert c in Cells(plan);
      var p :| p in plan && p.cell == c;
      var n :| 0 <= n < |plan| && plan[n] == p;
      PixelAfterUniform(canvas, canvasWidth, layout, plan, k, n, 0);
    }
    forall k | 0 <= k < |canvas| && out[k] != canvas[k]
      ensures out[k] == 0 && exists c :: 0 <= c < CellCount && GetCell(s, c).needsErasing && InRect(layout[c], canvasWidth, k)
    {
      PixelAfterChanged(canvas, canvasWidth, layout, plan, k);
      var n :| 0 <= n < |plan| && InRect(layout[plan[n].cell], canvasWidth, k) && out[k] == plan[n].color;
      assert plan[n] in plan;
      assert plan[n].cell in Cells(plan);
    }
  }

  /** As written, `render` places a brick with double-precision arithmetic when it paints
      it (breakout.c:411, 413, dividing by `0.7`) and with single-precision arithmetic when
      it erases it (breakout.c:430, 432, dividing by `0.7f`), so a cell has a paint
      rectangle and an erase rectangle that need not agree. A pixel that cell c's paint
      rectangle covers, that no later cell repaints and that no erased rectangle covers,
      keeps c's opaque colour through the frame that should have blanked c. */
  lemma MisalignedEraseKeepsColour(s: SaveState, t: SaveState, canvas: seq<Pixel>, canvasWidth: nat,
                                    paintLayout: seq<Rect>, eraseLayout: seq<Rect>, c: nat, k: nat)
    requires WellFormed(s) && s.colorFunc < ColorFuncCount && WellFormed(t)
    requires |paintLayout| == CellCount && |eraseLayout| == CellCount
    requires c < CellCount && GetCell(t, c).needsErasing && k < |canvas|
    requires InRect(paintLayout[c], canvasWidth, k)
    requires forall d | c < d < CellCount :: !InRect(paintLayout[d], canvasWidth, k)
    requires forall d | 0 <= d < CellCount && GetCell(t, d).needsErasing :: !InRect(eraseLayout[d], canvasWidth, k)
    ensures var painted := Frame(canvas, canvasWidth, paintLayout, FullPlan(s));
            var erased := Frame(painted, canvasWidth, eraseLayout, ErasePlan(t, 0));
            erased[k] == ColorFor(s.colorFunc, c % BricksPerRow, c / BricksPerRow) && erased[k] != 0
  {
    var painted := Frame(canvas, canvasWidth, paintLayout, FullPlan(s));
    var plan := ErasePlan(t, 0);
    FullRepaintPixels(s, canvas, canvasWidth, paintLayout, FullPlan(s), painted);
    ErasePlanCells(t, 0);
    forall n | 0 <= n < |plan|
      ensures !InRect(eraseLayout[plan[n].cell], canvasWidth, k)
    {
      assert plan[n] in plan;
      assert plan[n].cell in Cells(plan);
    }
    if PixelAfter(painted, canvasWidth, eraseLayout, plan, k) != painted[k] {
      PixelAfterChanged(painted, canvasWidth, eraseLayout, plan, k);
      assert false;
    }
    ColorsAreOpaque(s.colorFunc, c % BricksPerRow, c / BricksPerRow);
  }

  /** The shape of the disagreement: an erase rectangle that starts one pixel row below
      the paint rectangle misses every pixel of the painted rectangle's top row, whatever
      the two heights. Single and double precision place row 6 of the grid at pixel rows
      70 and 71 on a 140-pixel-high canvas, and row 9 at pixel rows 66 and 67 on a
      100-pixel-high one. */
  lemma EraseOneRowLowMissesTopRow(x: nat, y: nat, width: nat, paintHeight: nat, eraseHeight: nat, canvasWidth: nat, col: nat)
    requires col < width && 0 < paintHeight && x + width <= canvasWidth
    ensures InRect(Rect(x, y, width, paintHeight), canvasWidth, PixelOffset(x, y, canvasWidth, 0, col))
    ensures !InRect(Rect(x, y + 1, width, eraseHeight), canvasWidth, PixelOffset(x, y, canvasWidth, 0, col))
  {
    var k := PixelOffset(x, y, canvasWidth, 0, col);
    if InRect(Rect(x, y + 1, width, eraseHeight), canvasWidth, k) {
      var i: nat, j: nat :| i < eraseHeight && j < width && k == PixelOffset(x, y + 1, canvasWidth, i, j);
      MulMonotone(y + 1, y + 1 + i, canvasWidth);
      assert false;
    }
  }

  /** With one rectangle per cell for both branches, as the model's Render has it, a cell
      flagged after a full repaint is blanked completely by the next incremental frame. */
  lemma EraseBlanksPaintedBrick(s: SaveState, t: SaveState, canvas: seq<Pixel>, canvasWidth: nat,
                                layout: seq<Rect>, c: nat, k: nat)
    requires WellFormed(s) && s.colorFunc < ColorFuncCount && WellFormed(t)
    requires |layout| == CellCount
    requires c < CellCount && GetCell(t, c).needsErasing && k < |canvas|
    requires InRect(layout[c], canvasWidth, k)
    ensures var painted := Frame(canvas, canvasWidth, layout, FullPlan(s));
            Frame(painted, canvasWidth, layout, ErasePlan(t, 0))[k] == 0
  {
    var painted := Frame(canvas, canvasWidth, layout, FullPlan(s));
    EraseFramePixels(t, painted, canvasWidth, layout, ErasePlan(t, 0), Frame(painted, canvasWidth, layout, ErasePlan(t, 0)));
  }
}
