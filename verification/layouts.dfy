/**
 * Layout arrays: the grid's record, cell by cell, of which widget occupies it.
 * A cell holds a widget id (a natural number) or `Empty`.
 */
module Layouts {

  /** The value of a cell that no widget occupies. */
  const Empty: int := -1

  /** A layout array, row by row. */
  type Layout = seq<seq<int>>

  /** The half-open block of cells `[r0, r1) x [c0, c1)`. */
  datatype Rect = Rect(r0: int, r1: int, c0: int, c1: int) {

    predicate Contains(r: int, c: int) {
      r0 <= r < r1 && c0 <= c < c1
    }

    /** True when the block holds no cell at all. */
    predicate IsEmpty() {
      r1 <= r0 || c1 <= c0
    }

    /** True when both spans lie inside a grid of `rows` by `cols` cells. */
    predicate Within(rows: int, cols: int) {
      0 <= r0 <= r1 <= rows && 0 <= c0 <= c1 <= cols
    }

    /** The product of the two spans (`np.prod(np.diff(lims))` in vispy's `Fig.__getitem__`). */
    function Area(): int {
      (r1 - r0) * (c1 - c0)
    }
  }

  /** Two blocks share no cell. */
  predicate Disjoint(a: Rect, b: Rect) {
    a.IsEmpty() || b.IsEmpty() || a.r1 <= b.r0 || b.r1 <= a.r0 || a.c1 <= b.c0 || b.c1 <= a.c0
  }

  /** Every row of `l` has `cols` cells. */
  predicate Shaped(l: Layout, cols: int) {
    forall r :: 0 <= r < |l| ==> |l[r]| == cols
  }

  /** Every cell `rect` addresses exists in `l`. */
  predicate Covers(l: Layout, rect: Rect) {
    && 0 <= rect.r0 <= rect.r1 <= |l|
    && 0 <= rect.c0 <= rect.c1
    && forall r :: rect.r0 <= r < rect.r1 ==> rect.c1 <= |l[r]|
  }

  /** No cell of `rect` is occupied. */
  ghost predicate AllEmpty(l: Layout, rect: Rect)
    requires Covers(l, rect)
  {
    forall r, c :: rect.Contains(r, c) ==> l[r][c] == Empty
  }

  /** Every cell of `rect` holds `w`. */
  ghost predicate HeldBy(l: Layout, rect: Rect, w: int)
    requires Covers(l, rect)
  {
    forall r, c :: rect.Contains(r, c) ==> l[r][c] == w
  }

  /** Some cell of `rect` is occupied: numpy's `any()` over the sub-array shifted by one. */
  predicate AnyOccupied(l: Layout, rect: Rect)
    requires Covers(l, rect)
  {
    exists r, c | rect.r0 <= r < rect.r1 && rect.c0 <= c < rect.c1 :: l[r][c] != Empty
  }

  /** The distinct values found in `rect`: the set built from the raveled sub-array. */
  function Occupants(l: Layout, rect: Rect): set<int>
    requires Covers(l, rect)
  {
    set r, c | rect.r0 <= r < rect.r1 && rect.c0 <= c < rect.c1 :: l[r][c]
  }

  /** How many cells of `row` hold `w`. */
  function CountRow(row: seq<int>, w: int): nat {
    if |row| == 0 then 0
    else CountRow(row[..|row| - 1], w) + (if row[|row| - 1] == w then 1 else 0)
  }

  /** How many cells of the whole layout hold `w`: `(layout == ii).sum()` in vispy's `Fig.__getitem__`. */
  function CountId(l: Layout, w: int): nat {
    if |l| == 0 then 0
    else CountId(l[..|l| - 1], w) + CountRow(l[|l| - 1], w)
  }

  /**
   * `rect` can be handed back as an existing widget `w`: it is a non-empty block,
   * every cell of it holds `w`, and `w` occupies no more cells than the block has.
   */
  ghost predicate Reusable(l: Layout, rect: Rect, w: int)
    requires Covers(l, rect)
  {
    w != Empty && !rect.IsEmpty() && HeldBy(l, rect, w) && CountId(l, w) == rect.Area()
  }

  /** The layout with every cell of `rect` set to `id` and every other cell as it was. */
  function Mark(l: Layout, rect: Rect, id: int): (m: Layout)
    ensures |m| == |l|
    ensures forall r :: 0 <= r < |l| ==> |m[r]| == |l[r]|
    ensures forall r, c :: 0 <= r < |l| && 0 <= c < |l[r]| ==>
              m[r][c] == (if rect.Contains(r, c) then id else l[r][c])
  {
    seq(|l|, r requires 0 <= r < |l| =>
      seq(|l[r]|, c requires 0 <= c < |l[r]| => if rect.Contains(r, c) then id else l[r][c]))
  }

  function Min(a: int, b: int): int {
    if a <= b then a else b
  }

  /**
   * A row in which exactly the columns `[c0, c1)` hold `w` counts the part of
   * that span that lies inside the row.
   */
  lemma {:induction false} CountRowOfSpan(row: seq<int>, w: int, c0: int, c1: int)
    requires 0 <= c0 <= c1
    requires forall c :: 0 <= c < |row| ==> (row[c] == w <==> c0 <= c < c1)
    ensures CountRow(row, w) == Min(c1, |row|) - Min(c0, |row|)
  {
    if |row| > 0 {
      var n := |row| - 1;
      var prefix := row[..n];
      assert forall c :: 0 <= c < |prefix| ==> prefix[c] == row[c];
      CountRowOfSpan(prefix, w, c0, c1);
    }
  }

  /**
   * A layout in which exactly the cells of `[r0, r1) x [c0, c1)` hold `w` counts
   * the part of that block that lies inside its rows.
   */
  lemma {:induction false} CountIdOfBlock(l: Layout, cols: int, w: int, rect: Rect)
    requires Shaped(l, cols)
    requires 0 <= rect.r0 <= rect.r1 && 0 <= rect.c0 <= rect.c1 <= cols
    requires forall r, c :: 0 <= r < |l| && 0 <= c < cols ==> (l[r][c] == w <==> rect.Contains(r, c))
    ensures CountId(l, w) == (Min(rect.r1, |l|) - Min(rect.r0, |l|)) * (rect.c1 - rect.c0)
  {
    if |l| > 0 {
      var n := |l| - 1;
      var prefix := l[..n];
      assert forall r :: 0 <= r < |prefix| ==> prefix[r] == l[r];
      CountIdOfBlock(prefix, cols, w, rect);
      var width := rect.c1 - rect.c0;
      var before := Min(rect.r1, n) - Min(rect.r0, n);
      assert CountId(prefix, w) == before * width;
      assert CountId(l, w) == before * width + CountRow(l[n], w);
      if rect.r0 <= n < rect.r1 {
        CountRowOfSpan(l[n], w, rect.c0, rect.c1);
        assert Min(rect.r1, n + 1) - Min(rect.r0, n + 1) == before + 1;
        assert (before + 1) * width == before * width + width;
      } else {
        CountRowOfSpan(l[n], w, 0, 0);
        assert Min(rect.r1, n + 1) - Min(rect.r0, n + 1) == before;
      }
    }
  }

  /** A layout whose cells holding `w` are exactly those of `rect` holds `w` `rect.Area()` times. */
  lemma CountIdOfRect(l: Layout, cols: int, w: int, rect: Rect)
    requires Shaped(l, cols) && rect.Within(|l|, cols)
    requires forall r, c :: 0 <= r < |l| && 0 <= c < cols ==> (l[r][c] == w <==> rect.Contains(r, c))
    ensures CountId(l, w) == rect.Area()
  {
    CountIdOfBlock(l, cols, w, rect);
  }

  /** `|S| == 1` exactly when `S` is `{x}`, for any `x` in `S`. */
  lemma SingletonCard(s: set<int>, x: int)
    requires x in s
    ensures |s| == 1 <==> s == {x}
  {
    var rest := s - {x};
    assert s == rest + {x};
    assert |s| == |rest| + 1;
  }

  /**
   * The values in a non-empty block form a single value exactly when every cell
   * holds the value of the block's first cell.
   */
  lemma SingleOccupant(l: Layout, rect: Rect)
    requires Covers(l, rect) && !rect.IsEmpty()
    ensures |Occupants(l, rect)| == 1 <==> HeldBy(l, rect, l[rect.r0][rect.c0])
  {
    var w := l[rect.r0][rect.c0];
    var occ := Occupants(l, rect);
    assert w in occ;
    SingletonCard(occ, w);
    if HeldBy(l, rect, w) {
      assert occ == {w};
    } else {
      var r, c :| rect.Contains(r, c) && l[r][c] != w;
      assert l[r][c] in occ;
    }
  }

  /** A block with no occupied cell cannot be handed back as any widget. */
  lemma EmptyNotReusable(l: Layout, rect: Rect)
    requires Covers(l, rect) && AllEmpty(l, rect)
    ensures forall w :: !Reusable(l, rect, w)
  {
    forall w
      ensures !Reusable(l, rect, w)
    {
      if !rect.IsEmpty() {
        assert l[rect.r0][rect.c0] == Empty;
      }
    }
  }
}
