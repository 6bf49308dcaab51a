/**
 * A figure and its slot resolver: `fig[idx]` finds the plot widget that
 * occupies exactly the requested block of the grid, or adds a new one on a
 * block that is entirely free, or rejects the request.
 */
module Figures {
  import opened Outcomes
  import opened Layouts
  import opened Selectors
  import opened Grids

  /** A figure: its grid, and the plot widgets it added to that grid, oldest first. */
  datatype Fig = Fig(grid: Grid, plotWidgets: seq<nat>)

  /** The two kinds of failure of `fig[idx]`: a malformed index, or a block that clashes with the grid. */
  datatype Error = BadIndex(reason: IndexError) | Collision

  /** The figure after `fig[idx]`, and the widget id it returned or the error it raised. */
  datatype Reply = Reply(fig: Fig, widget: Result<nat, Error>)

  /**
   * What holds of every figure: a consistent grid, and plot widgets that are
   * widgets of it, listed in the order the grid added them.
   */
  ghost predicate Inv(fig: Fig) {
    && Consistent(fig.grid)
    && (forall i :: 0 <= i < |fig.plotWidgets| ==> fig.plotWidgets[i] < |fig.grid.placed|)
    && (forall i, j :: 0 <= i < j < |fig.plotWidgets| ==> fig.plotWidgets[i] < fig.plotWidgets[j])
  }

  /** The plot widgets are every widget of the grid, oldest first. */
  ghost predicate ListsEveryWidget(fig: Fig) {
    fig.plotWidgets == seq(|fig.grid.placed|, k => k)
  }

  /** A new figure: an empty grid of the given size and no plot widgets. */
  function NewFig(rows: nat, cols: nat): (fig: Fig)
    ensures Inv(fig) && ListsEveryWidget(fig)
    ensures fig.grid.rows == rows && fig.grid.cols == cols
    ensures fig.plotWidgets == [] && fig.grid.placed == []
    ensures forall r, c :: 0 <= r < rows && 0 <= c < cols ==> fig.grid.layout[r][c] == Empty
  {
    Fig(Grid(rows, cols, seq(rows, _ => seq(cols, _ => Empty)), []), [])
  }

  /**
   * The figure's plot widgets, oldest first: widgets of its grid in the order
   * they were added, and every widget of the grid when the figure added them all.
   */
  function PlotWidgets(fig: Fig): (ws: seq<nat>)
    requires Inv(fig)
    ensures forall i :: 0 <= i < |ws| ==> ws[i] < |fig.grid.placed|
    ensures forall i, j :: 0 <= i < j < |ws| ==> ws[i] < ws[j]
    ensures ListsEveryWidget(fig) ==> |ws| == |fig.grid.placed| && forall k :: 0 <= k < |ws| ==> ws[k] == k
  {
    fig.plotWidgets
  }

  /** An index that normalises asks only for cells inside the grid. */
  predicate RequestFits(g: Grid, idx: Index) {
    var n := Normalise(idx, g.rows, g.cols);
    n.Success? ==> n.value.Within(g.rows, g.cols)
  }

  /**
   * `fig[idx]`. A malformed index is rejected. A block with no occupied cell
   * gets a new widget, which is also appended to the plot widgets. A block
   * every cell of which belongs to one widget that has no other cell gives
   * back that widget. Anything else is a collision. Nothing changes on failure.
   */
  function GetItem(fig: Fig, idx: Index): (r: Reply)
    requires WellFormed(fig.grid) && RequestFits(fig.grid, idx)
    ensures WellFormed(r.fig.grid)
    ensures r.fig.grid.rows == fig.grid.rows && r.fig.grid.cols == fig.grid.cols
    ensures r.widget.Failure? ==> r.fig == fig
    ensures var n := Normalise(idx, fig.grid.rows, fig.grid.cols);
      n.Failure? ==> r.widget == Failure(BadIndex(n.error))
    ensures var n := Normalise(idx, fig.grid.rows, fig.grid.cols);
      n.Success? ==>
        var rect, g := n.value, fig.grid;
        && (AllEmpty(g.layout, rect) <==> r.widget == Success(|g.placed|))
        && (AllEmpty(g.layout, rect) ==>
              && r.fig.grid == AddWidget(g, rect).0
              && r.fig.plotWidgets == fig.plotWidgets + [|g.placed|])
        && (!AllEmpty(g.layout, rect) ==> r.fig == fig)
        && (!AllEmpty(g.layout, rect) && r.widget.Success? ==> Reusable(g.layout, rect, r.widget.value))
        && (forall w :: Reusable(g.layout, rect, w) ==> r.widget == Success(w))
        && (r.widget.Failure? ==> r.widget.error == Collision)
  {
    var g := fig.grid;
    match Normalise(idx, g.rows, g.cols)
    case Failure(e) => Reply(fig, Failure(BadIndex(e)))
    case Success(rect) =>
      if !AnyOccupied(g.layout, rect) then
        var (g', id) := AddWidget(g, rect);
        EmptyNotReusable(g.layout, rect);
        Reply(Fig(g', fig.plotWidgets + [id]), Success(id))
      else
        var existing := Occupants(g.layout, rect);
        // Only read when `existing` has a single value, which is then this one.
        var w := g.layout[rect.r0][rect.c0];
        SingleOccupant(g.layout, rect);
        if |existing| != 1 || CountId(g.layout, w) != rect.Area() then Reply(fig, Failure(Collision))
        else Reply(fig, Success(w))
  }
}
