/**
 * Properties of `fig[idx]` across calls: the figure's invariant is kept,
 * widgets never overlap, an existing widget is found exactly at its own block,
 * asking twice is asking once, and worked examples on a 2 by 2 grid.
 */
module FigureProperties {
  import opened Outcomes
  import opened Layouts
  import opened Selectors
  import opened Grids
  import opened Figures

  /** `fig[idx]` keeps the figure's invariant, whatever its outcome. */
  lemma GetItemKeepsInv(fig: Fig, idx: Index)
    requires Inv(fig) && RequestFits(fig.grid, idx)
    ensures Inv(GetItem(fig, idx).fig)
  {
    var n := Normalise(idx, fig.grid.rows, fig.grid.cols);
    if n.Success? && AllEmpty(fig.grid.layout, n.value) {
      AddWidgetKeepsConsistent(fig.grid, n.value);
    }
  }

  /**
   * On a non-empty block, `fig[idx]` returns widget `w` without changing the
   * figure exactly when `w` was added with that very block.
   */
  lemma ReturnsExistingIffExactBlock(fig: Fig, idx: Index, w: nat)
    requires Inv(fig) && RequestFits(fig.grid, idx)
    requires Normalise(idx, fig.grid.rows, fig.grid.cols).Success?
    requires !Normalise(idx, fig.grid.rows, fig.grid.cols).value.IsEmpty()
    ensures GetItem(fig, idx) == Reply(fig, Success(w)) <==>
              w < |fig.grid.placed| && fig.grid.placed[w] == Normalise(idx, fig.grid.rows, fig.grid.cols).value
  {
    var rect := Normalise(idx, fig.grid.rows, fig.grid.cols).value;
    ReusableIffFootprint(fig.grid, rect, w);
  }

  /** A non-empty block that lies inside widget `k`'s block but is not all of it is a collision. */
  lemma StrictSubBlockCollides(fig: Fig, idx: Index, k: nat)
    requires Inv(fig) && RequestFits(fig.grid, idx)
    requires Normalise(idx, fig.grid.rows, fig.grid.cols).Success?
    requires var rect := Normalise(idx, fig.grid.rows, fig.grid.cols).value;
      && !rect.IsEmpty()
      && k < |fig.grid.placed|
      && var outer := fig.grid.placed[k];
      && outer.r0 <= rect.r0 && rect.r1 <= outer.r1 && outer.c0 <= rect.c0 && rect.c1 <= outer.c1
      && rect != outer
    ensures GetItem(fig, idx) == Reply(fig, Failure(Collision))
  {
    var rect := Normalise(idx, fig.grid.rows, fig.grid.cols).value;
    assert fig.grid.layout[rect.r0][rect.c0] == k;
    ReusableIffFootprint(fig.grid, rect, k);
  }

  /**
   * A block whose cells do not all hold the same value (an empty and an
   * occupied cell, or cells of two widgets) is a collision.
   */
  lemma MixedBlockCollides(fig: Fig, idx: Index, ra: int, ca: int, rb: int, cb: int)
    requires WellFormed(fig.grid) && RequestFits(fig.grid, idx)
    requires Normalise(idx, fig.grid.rows, fig.grid.cols).Success?
    requires var rect := Normalise(idx, fig.grid.rows, fig.grid.cols).value;
      && rect.Contains(ra, ca) && rect.Contains(rb, cb)
      && fig.grid.layout[ra][ca] != fig.grid.layout[rb][cb]
    ensures GetItem(fig, idx) == Reply(fig, Failure(Collision))
  {
  }

  /** Asking again for the block just returned or added gives back the same widget and changes nothing. */
  lemma GetItemIdempotent(fig: Fig, idx: Index)
    requires Inv(fig) && RequestFits(fig.grid, idx)
    requires Normalise(idx, fig.grid.rows, fig.grid.cols).Success?
    requires !Normalise(idx, fig.grid.rows, fig.grid.cols).value.IsEmpty()
    ensures var r := GetItem(fig, idx);
      r.widget.Success? ==> GetItem(r.fig, idx) == Reply(r.fig, r.widget)
  {
    var rect := Normalise(idx, fig.grid.rows, fig.grid.cols).value;
    var r := GetItem(fig, idx);
    if r.widget.Success? {
      var w := r.widget.value;
      GetItemKeepsInv(fig, idx);
      if !AllEmpty(fig.grid.layout, rect) {
        ReturnsExistingIffExactBlock(fig, idx, w);
      }
      assert r.fig.grid.placed[w] == rect;
      ReturnsExistingIffExactBlock(r.fig, idx, w);
    }
  }

  /** An empty block is never found again: each request for it adds one more widget. */
  lemma EmptyBlockAddsEveryTime(fig: Fig, idx: Index)
    requires WellFormed(fig.grid) && RequestFits(fig.grid, idx)
    requires Normalise(idx, fig.grid.rows, fig.grid.cols).Success?
    requires Normalise(idx, fig.grid.rows, fig.grid.cols).value.IsEmpty()
    ensures var r := GetItem(fig, idx);
      && r.widget == Success(|fig.grid.placed|)
      && GetItem(r.fig, idx).widget == Success(|fig.grid.placed| + 1)
  {
  }

  /** The figure after the requests `idxs`, made one after the other. */
  function Run(fig: Fig, idxs: seq<Index>): (f: Fig)
    requires WellFormed(fig.grid)
    requires forall i :: 0 <= i < |idxs| ==> RequestFits(fig.grid, idxs[i])
    ensures WellFormed(f.grid)
    ensures f.grid.rows == fig.grid.rows && f.grid.cols == fig.grid.cols
    decreases |idxs|
  {
    if |idxs| == 0 then fig
    else
      var next := GetItem(fig, idxs[0]).fig;
      var rest := idxs[1..];
      assert forall i :: 0 <= i < |rest| ==> RequestFits(next.grid, rest[i]) by {
        forall i | 0 <= i < |rest|
          ensures RequestFits(next.grid, rest[i])
        {
          assert rest[i] == idxs[i + 1];
          assert RequestFits(fig.grid, idxs[i + 1]);
        }
      }
      Run(next, rest)
  }

  /**
   * Whatever requests a new figure receives, its widgets keep to their
   * blocks, never overlap, and its plot widgets stay distinct.
   */
  lemma {:induction false} RunKeepsInv(fig: Fig, idxs: seq<Index>)
    requires Inv(fig)
    requires forall i :: 0 <= i < |idxs| ==> RequestFits(fig.grid, idxs[i])
    ensures Inv(Run(fig, idxs))
    ensures var g := Run(fig, idxs).grid;
      forall i, j :: 0 <= i < j < |g.placed| ==> Disjoint(g.placed[i], g.placed[j])
    decreases |idxs|
  {
    if |idxs| == 0 {
      PlacedDisjoint(fig.grid);
    } else {
      GetItemKeepsInv(fig, idxs[0]);
      var next := GetItem(fig, idxs[0]).fig;
      var rest := idxs[1..];
      forall i | 0 <= i < |rest|
        ensures RequestFits(next.grid, rest[i])
      {
        assert rest[i] == idxs[i + 1];
        assert RequestFits(fig.grid, idxs[i + 1]);
      }
      RunKeepsInv(next, rest);
      assert Run(fig, idxs) == Run(next, rest);
    }
  }

  /** `fig[idx]` keeps the plot widgets equal to every widget of the grid, oldest first. */
  lemma GetItemKeepsListsEveryWidget(fig: Fig, idx: Index)
    requires WellFormed(fig.grid) && RequestFits(fig.grid, idx)
    requires ListsEveryWidget(fig)
    ensures ListsEveryWidget(GetItem(fig, idx).fig)
  {
    var r := GetItem(fig, idx);
    var n := Normalise(idx, fig.grid.rows, fig.grid.cols);
    if n.Success? && AllEmpty(fig.grid.layout, n.value) {
      assert r.fig.grid.placed == fig.grid.placed + [n.value];
      assert r.fig.plotWidgets == seq(|r.fig.grid.placed|, k => k);
    }
  }

  /**
   * After any requests, a new figure's `plot_widgets` lists every widget it
   * added, oldest first: widget `k` is the `k`-th one.
   */
  lemma {:induction false} RunListsEveryWidget(fig: Fig, idxs: seq<Index>)
    requires WellFormed(fig.grid) && ListsEveryWidget(fig)
    requires forall i :: 0 <= i < |idxs| ==> RequestFits(fig.grid, idxs[i])
    ensures ListsEveryWidget(Run(fig, idxs))
    decreases |idxs|
  {
    if |idxs| > 0 {
      GetItemKeepsListsEveryWidget(fig, idxs[0]);
      var next := GetItem(fig, idxs[0]).fig;
      var rest := idxs[1..];
      forall i | 0 <= i < |rest|
        ensures RequestFits(next.grid, rest[i])
      {
        assert rest[i] == idxs[i + 1];
        assert RequestFits(fig.grid, idxs[i + 1]);
      }
      RunListsEveryWidget(next, rest);
      assert Run(fig, idxs) == Run(next, rest);
    }
  }

  /** A slice from `a` to `b` with no step. */
  function Range(a: int, b: int): Selector {
    Slice(Some(a), Some(b), None)
  }

  /** On a 2 by 2 figure, `fig[0]` adds widget 0 on the whole of row 0. */
  lemma FirstRowExample()
    ensures var a := GetItem(NewFig(2, 2), Bare(Int(0)));
      && a.widget == Success(0)
      && a.fig.grid.placed == [Rect(0, 1, 0, 2)]
      && a.fig.plotWidgets == [0]
  {
    var f0 := NewFig(2, 2);
    assert Normalise(Bare(Int(0)), 2, 2) == Success(Rect(0, 1, 0, 2));
    assert AllEmpty(f0.grid.layout, Rect(0, 1, 0, 2));
  }

  /** Continuing on that figure, `fig[0, :]` gives widget 0 back and changes nothing. */
  lemma SameRowAgainExample()
    ensures var a := GetItem(NewFig(2, 2), Bare(Int(0))).fig;
      GetItem(a, Tuple([Int(0), FullSlice])) == Reply(a, Success(0))
  {
    var f0 := NewFig(2, 2);
    FirstRowExample();
    GetItemKeepsInv(f0, Bare(Int(0)));
    var a := GetItem(f0, Bare(Int(0))).fig;
    assert Normalise(Tuple([Int(0), FullSlice]), 2, 2) == Success(Rect(0, 1, 0, 2));
    ReturnsExistingIffExactBlock(a, Tuple([Int(0), FullSlice]), 0);
  }

  /** Continuing on that figure, `fig[1]` adds widget 1 on row 1, apart from widget 0. */
  lemma SecondRowExample()
    ensures var a := GetItem(NewFig(2, 2), Bare(Int(0))).fig;
      var b := GetItem(a, Bare(Int(1)));
      && b.widget == Success(1)
      && b.fig.grid.placed == [Rect(0, 1, 0, 2), Rect(1, 2, 0, 2)]
      && b.fig.plotWidgets == [0, 1]
  {
    var f0 := NewFig(2, 2);
    FirstRowExample();
    var a := GetItem(f0, Bare(Int(0))).fig;
    assert Normalise(Bare(Int(1)), 2, 2) == Success(Rect(1, 2, 0, 2));
    assert AllEmpty(a.grid.layout, Rect(1, 2, 0, 2));
  }

  /** On a 2 by 2 figure, a request inside a 2 by 2 widget collides. */
  lemma SubBlockExample()
    ensures var f0 := NewFig(2, 2);
      var a := GetItem(f0, Tuple([Range(0, 2), Range(0, 2)]));
      && a.widget == Success(0)
      && GetItem(a.fig, Tuple([Range(0, 1), Range(0, 1)])) == Reply(a.fig, Failure(Collision))
  {
    var f0 := NewFig(2, 2);
    var a := GetItem(f0, Tuple([Range(0, 2), Range(0, 2)]));
    assert AllEmpty(f0.grid.layout, Rect(0, 2, 0, 2));
    GetItemKeepsInv(f0, Tuple([Range(0, 2), Range(0, 2)]));
    StrictSubBlockCollides(a.fig, Tuple([Range(0, 1), Range(0, 1)]), 0);
  }

  /** On a 2 by 2 figure with widgets on two diagonal cells, a request spanning both collides. */
  lemma SpanningExample()
    ensures var f0 := NewFig(2, 2);
      var a := GetItem(f0, Tuple([Range(0, 1), Range(0, 1)]));
      var b := GetItem(a.fig, Tuple([Range(1, 2), Range(1, 2)]));
      && a.widget == Success(0)
      && b.widget == Success(1)
      && GetItem(b.fig, Tuple([Range(0, 2), Range(0, 2)])) == Reply(b.fig, Failure(Collision))
  {
    var f0 := NewFig(2, 2);
    var a := GetItem(f0, Tuple([Range(0, 1), Range(0, 1)]));
    assert AllEmpty(f0.grid.layout, Rect(0, 1, 0, 1));
    assert AllEmpty(a.fig.grid.layout, Rect(1, 2, 1, 2));
    var b := GetItem(a.fig, Tuple([Range(1, 2), Range(1, 2)]));
    MixedBlockCollides(b.fig, Tuple([Range(0, 2), Range(0, 2)]), 0, 0, 1, 1);
  }

  /** A step of 2 on either axis, or a tuple of three selectors, is rejected and changes nothing. */
  lemma BadIndexExamples(fig: Fig)
    requires WellFormed(fig.grid)
    ensures GetItem(fig, Bare(Slice(None, None, Some(2)))) == Reply(fig, Failure(BadIndex(BadStep(2))))
    ensures GetItem(fig, Tuple([Int(0), Slice(None, None, Some(2))])) == Reply(fig, Failure(BadIndex(BadStep(2))))
    ensures GetItem(fig, Tuple([Int(0), Int(0), Int(0)])) == Reply(fig, Failure(BadIndex(IncorrectIndex)))
  {
  }
}
