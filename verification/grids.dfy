/**
 * The figure's grid as the slot resolver sees it: its size, its layout array,
 * and the block each added widget was given. Adding a widget is the external
 * `add_widget` call, modelled only by its effect: the next free id is written
 * into exactly the requested cells.
 */
module Grids {
  import opened Layouts

  /**
   * A grid of `rows` by `cols` cells. The widget with id `k` was added with the
   * block `placed[k]`; ids are handed out in order, so the next id is `|placed|`.
   */
  datatype Grid = Grid(rows: nat, cols: nat, layout: Layout, placed: seq<Rect>)

  /** The layout has the grid's shape, and each cell is empty or holds an id already handed out. */
  ghost predicate WellFormed(g: Grid) {
    && |g.layout| == g.rows
    && Shaped(g.layout, g.cols)
    && forall r, c :: 0 <= r < g.rows && 0 <= c < g.cols ==> Empty <= g.layout[r][c] < |g.placed|
  }

  /** Every widget lies inside the grid, and the cells holding its id are exactly its block. */
  ghost predicate Consistent(g: Grid) {
    && WellFormed(g)
    && (forall k :: 0 <= k < |g.placed| ==> g.placed[k].Within(g.rows, g.cols))
    && forall k, r, c :: 0 <= k < |g.placed| && 0 <= r < g.rows && 0 <= c < g.cols ==>
         (g.layout[r][c] == k <==> g.placed[k].Contains(r, c))
  }

  /**
   * The grid's `add_widget(widget, row, col, row_span, col_span)`: the new
   * widget gets the next id, which is written into exactly the cells of `rect`.
   */
  function AddWidget(g: Grid, rect: Rect): (res: (Grid, nat))
    requires WellFormed(g) && rect.Within(g.rows, g.cols)
    ensures var (g', id) := res;
      && id == |g.placed|
      && WellFormed(g')
      && g'.rows == g.rows && g'.cols == g.cols
      && g'.placed == g.placed + [rect]
      && (forall r, c :: 0 <= r < g.rows && 0 <= c < g.cols ==> g.layout[r][c] != id)
      && (forall r, c :: 0 <= r < g.rows && 0 <= c < g.cols ==>
            g'.layout[r][c] == (if rect.Contains(r, c) then id else g.layout[r][c]))
  {
    var id := |g.placed|;
    (Grid(g.rows, g.cols, Mark(g.layout, rect, id), g.placed + [rect]), id)
  }

  /** Adding a widget on empty cells keeps every widget's cells exactly its block. */
  lemma AddWidgetKeepsConsistent(g: Grid, rect: Rect)
    requires Consistent(g) && rect.Within(g.rows, g.cols)
    requires AllEmpty(g.layout, rect)
    ensures Consistent(AddWidget(g, rect).0)
  {
    var (g', id) := AddWidget(g, rect);
    forall k, r, c | 0 <= k < |g'.placed| && 0 <= r < g'.rows && 0 <= c < g'.cols
      ensures g'.layout[r][c] == k <==> g'.placed[k].Contains(r, c)
    {
      if k < id && rect.Contains(r, c) {
        assert g.layout[r][c] == Empty;
      }
    }
  }

  /** No two widgets of a consistent grid share a cell. */
  lemma PlacedDisjoint(g: Grid)
    requires Consistent(g)
    ensures forall i, j :: 0 <= i < j < |g.placed| ==> Disjoint(g.placed[i], g.placed[j])
  {
    forall i, j | 0 <= i < j < |g.placed|
      ensures Disjoint(g.placed[i], g.placed[j])
    {
      var a, b := g.placed[i], g.placed[j];
      var r := if a.r0 <= b.r0 then b.r0 else a.r0;
      var c := if a.c0 <= b.c0 then b.c0 else a.c0;
      assert a.Contains(r, c) ==> g.layout[r][c] == i;
      assert b.Contains(r, c) ==> g.layout[r][c] == j;
    }
  }

  /** A widget of a consistent grid holds as many cells as its block has. */
  lemma FootprintCount(g: Grid, k: nat)
    requires Consistent(g) && k < |g.placed|
    ensures CountId(g.layout, k) == g.placed[k].Area()
  {
    CountIdOfRect(g.layout, g.cols, k, g.placed[k]);
  }

  /** Two blocks with positive sides, one inside the other and of equal area, are the same block. */
  lemma InsideWithSameArea(inner: Rect, outer: Rect)
    requires !inner.IsEmpty()
    requires outer.r0 <= inner.r0 && inner.r1 <= outer.r1 && outer.c0 <= inner.c0 && inner.c1 <= outer.c1
    requires inner.Area() == outer.Area()
    ensures inner == outer
  {
    var h, w := inner.r1 - inner.r0, inner.c1 - inner.c0;
    var H, W := outer.r1 - outer.r0, outer.c1 - outer.c0;
    assert h * w <= H * w by {
      assert H * w - h * w == (H - h) * w;
    }
    assert H * w <= H * W by {
      assert H * W - H * w == H * (W - w);
    }
    ZeroProduct(H - h, w);
    ZeroProduct(W - w, H);
  }

  lemma ZeroProduct(x: int, y: int)
    requires x >= 0 && y > 0 && x * y == 0
    ensures x == 0
  {
  }

  /**
   * In a consistent grid, a non-empty block can be handed back as widget `w`
   * exactly when it is the whole block `w` was added with.
   */
  lemma ReusableIffFootprint(g: Grid, rect: Rect, w: int)
    requires Consistent(g) && rect.Within(g.rows, g.cols) && !rect.IsEmpty()
    ensures Reusable(g.layout, rect, w) <==> 0 <= w < |g.placed| && g.placed[w] == rect
  {
    if 0 <= w < |g.placed| && g.placed[w] == rect {
      FootprintCount(g, w);
    }
    if Reusable(g.layout, rect, w) {
      assert g.layout[rect.r0][rect.c0] == w;
      var outer := g.placed[w];
      assert outer.Contains(rect.r0, rect.c0);
      assert g.layout[rect.r1 - 1][rect.c1 - 1] == w;
      assert outer.Contains(rect.r1 - 1, rect.c1 - 1);
      FootprintCount(g, w);
      InsideWithSameArea(rect, outer);
    }
  }
}
