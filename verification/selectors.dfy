/**
 * Normalisation of a figure index `fig[...]` into the block of grid cells it
 * requests: each axis becomes a half-open `[start, end)` span.
 */
module Selectors {
  import opened Outcomes
  import opened Layouts

  /** What one axis of an index can be: an integer, a slice, or anything else. */
  datatype Selector =
    | Int(i: int)
    | Slice(start: Option<int>, stop: Option<int>, step: Option<int>)
    | Other

  /** The slice with every part left out: the whole axis. */
  const FullSlice: Selector := Slice(None, None, None)

  /** The key of `fig[...]`: a single selector, or a tuple of them. */
  datatype Index = Bare(sel: Selector) | Tuple(items: seq<Selector>)

  /** Why an index is rejected before the grid is looked at. */
  datatype IndexError =
    | IncorrectIndex   // the tuple has neither one nor two selectors
    | NotSliceOrInt    // a selector is neither an integer nor a slice
    | BadStep(step: int)  // a slice step other than one

  /** A half-open range `[start, end)` of rows or of columns. */
  datatype Span = Span(start: int, end: int)

  /** The selectors of an index, a lone selector read as a one-element tuple. */
  function Selectors(idx: Index): seq<Selector> {
    match idx
    case Bare(sel) => [sel]
    case Tuple(items) => items
  }

  /** Whether a selector is accepted on an axis: an integer, or a slice with no step or step one. */
  predicate Accepted(sel: Selector) {
    sel.Int? || (sel.Slice? && (sel.step == None || sel.step == Some(1)))
  }

  /**
   * One axis of the index, on an axis of `size` cells. An integer `i` is the
   * one-cell span starting at `i`; a slice keeps the bounds it gives and fills
   * a missing start with 0 and a missing stop with `size`.
   */
  function NormaliseAxis(sel: Selector, size: nat): (r: Result<Span, IndexError>)
    ensures r.Success? <==> Accepted(sel)
    ensures sel.Other? ==> r == Failure(NotSliceOrInt)
    ensures sel.Slice? && !Accepted(sel) ==> r == Failure(BadStep(sel.step.value))
    ensures sel.Int? ==> r.Success? && r.value.start == sel.i && r.value.end - r.value.start == 1
    ensures r.Success? && sel.Slice? ==>
              && (sel.start.Some? ==> r.value.start == sel.start.value)
              && (sel.start.None? ==> r.value.start == 0)
              && (sel.stop.Some? ==> r.value.end == sel.stop.value)
              && (sel.stop.None? ==> r.value.end == size)
    decreases if sel.Int? then 1 else 0
  {
    match sel
    case Int(i) => NormaliseAxis(Slice(Some(i), Some(i + 1), None), size)
    case Other => Failure(NotSliceOrInt)
    case Slice(start, stop, step) =>
      if step.Some? && step.value != 1 then Failure(BadStep(step.value))
      else Success(Span(start.GetOr(0), stop.GetOr(size)))
  }

  /**
   * The whole index, on a grid of `rows` by `cols` cells. A single selector
   * requests whole rows; any tuple length other than one or two is rejected;
   * the row selector is checked before the column selector.
   */
  function Normalise(idx: Index, rows: nat, cols: nat): (r: Result<Rect, IndexError>)
    ensures r == Failure(IncorrectIndex) <==> |Selectors(idx)| != 1 && |Selectors(idx)| != 2
    ensures |Selectors(idx)| in {1, 2} ==>
              var s := Selectors(idx);
              var colSel := if |s| == 2 then s[1] else FullSlice;
              && (!Accepted(s[0]) ==> r == Failure(NormaliseAxis(s[0], rows).error))
              && (Accepted(s[0]) && !Accepted(colSel) ==> r == Failure(NormaliseAxis(colSel, cols).error))
              && (r.Success? <==> Accepted(s[0]) && Accepted(colSel))
              && (r.Success? ==>
                    && Span(r.value.r0, r.value.r1) == NormaliseAxis(s[0], rows).value
                    && Span(r.value.c0, r.value.c1) == NormaliseAxis(colSel, cols).value)
  {
    var items := Selectors(idx);
    var items := if |items| == 1 then items + [FullSlice] else items;
    if |items| != 2 then Failure(IncorrectIndex)
    else
      match NormaliseAxis(items[0], rows)
      case Failure(e) => Failure(e)
      case Success(rowSpan) =>
        match NormaliseAxis(items[1], cols)
        case Failure(e) => Failure(e)
        case Success(colSpan) => Success(Rect(rowSpan.start, rowSpan.end, colSpan.start, colSpan.end))
  }

  /** An integer selector asks for exactly what the one-cell slice `i:i+1` asks for. */
  lemma IntIsUnitSlice(i: int, size: nat)
    ensures NormaliseAxis(Int(i), size) == NormaliseAxis(Slice(Some(i), Some(i + 1), None), size)
    ensures NormaliseAxis(Int(i), size) == Success(Span(i, i + 1))
  {
  }

  /** A slice with no parts covers the whole axis, and a step of one is the same as no step. */
  lemma MissingBoundsCoverAxis(size: nat, start: Option<int>, stop: Option<int>)
    ensures NormaliseAxis(FullSlice, size) == Success(Span(0, size))
    ensures NormaliseAxis(Slice(start, stop, Some(1)), size) == NormaliseAxis(Slice(start, stop, None), size)
  {
  }

  /**
   * `fig[s]`, `fig[(s,)]` and `fig[s, :]` all request the same cells; in
   * particular `fig[r]` requests row `r` across every column.
   */
  lemma SingleSelectorTakesWholeRows(s: Selector, r: int, rows: nat, cols: nat)
    ensures Normalise(Bare(s), rows, cols) == Normalise(Tuple([s]), rows, cols)
    ensures Normalise(Bare(s), rows, cols) == Normalise(Tuple([s, FullSlice]), rows, cols)
    ensures Normalise(Bare(Int(r)), rows, cols) == Success(Rect(r, r + 1, 0, cols))
  {
  }
}
