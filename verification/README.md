# Grid-slot resolver of the vispy plotting figure, in Dafny

This project models the slot resolver behind `fig[idx]` in vispy's high-level
plotting API (`Fig.__getitem__` in `vispy/plot/_plot.py`). A figure owns a grid
of cells. Its *layout array* records, for each cell, the id of the widget that
occupies it, or −1 for a free cell. `fig[idx]` does three things:

1. It normalises the index to a block of cells `[r0, r1) × [c0, c1)`. The index is
   one selector or a tuple of one or two selectors. Each selector is an integer
   or a slice with step `None`/1. A lone selector takes every column.
2. It inspects the layout array inside that block.
3. It then does exactly one of these:
   - if the block is entirely free, it adds a new plot widget there;
   - if one widget holds the whole block and no other cell, it returns that widget;
   - otherwise it raises a collision error.

The model is purely functional. `Figures.GetItem` takes the figure (grid plus
plot-widget list) and the index. It returns the figure after the call, together
with either the widget id or the error.

Modules:

- `Outcomes`: `Option` for slice parts that may be left out, and `Result` for a value or the exception raised instead.
- `Layouts`: blocks (`Rect`), layout arrays, counting the cells that hold an id,
  and the facts the resolver's tests rely on.
- `Selectors`: selectors, indexes and their normalisation (lines 34-52).
- `Grids`: the grid state. It has the external `add_widget`, modelled by its
  effect only: the next id is written into exactly the requested cells. It also
  has the consistency invariant: each widget's cells are exactly the block it was
  added with.
- `Figures`: the figure, `fig[idx]`, and the `plot_widgets` accessor.
- `FigureProperties`: properties across calls, and worked examples on a 2×2 figure.

Widget ids are the grid's running counter. Widget `k` is the k-th widget added to
the grid, and `placed[k]` is the block it was added with. The model returns the id
where `Fig.__getitem__` returns the widget object registered under that id.

## Model

| member | source | states |
|---|---|---|
| Selectors.NormaliseAxis | vispy/plot/_plot.py:42-52 | an axis selector is accepted iff it is an int or a slice with step None/1; anything else raises "not slice or int", a bad step raises with that step; int `i` gives the one-cell span starting at `i`; a slice keeps the bounds it gives, a missing start becomes 0 and a missing stop the axis size |
| Selectors.Normalise | vispy/plot/_plot.py:34-52 | an index is rejected as incorrect iff it has neither one nor two selectors; a single selector gets a full column slice; the row selector's error is reported before the column selector's; on success the block's row and column spans are the two axes' spans |
| Selectors.IntIsUnitSlice | vispy/plot/_plot.py:43-44 | an integer selector `i` requests exactly what the slice `i:i+1` requests, the span `[i, i+1)` |
| Selectors.MissingBoundsCoverAxis | vispy/plot/_plot.py:48-51 | a slice with no bounds covers `[0, size)`, and step 1 is the same as no step |
| Selectors.SingleSelectorTakesWholeRows | vispy/plot/_plot.py:34-37 | `fig[s]`, `fig[(s,)]` and `fig[s, :]` request the same block; `fig[r]` requests `[r, r+1) × [0, ncols)` |
| Layouts.CountIdOfRect | vispy/plot/_plot.py:58-59 | if the cells holding `w` are exactly a block inside the grid, the count of `w` over the whole layout equals the block's area |
| Layouts.SingleOccupant | vispy/plot/_plot.py:56-58 | the set of values in a non-empty block has one element iff every cell holds the block's first value, so reading any element of that set is reading the one owner |
| Layouts.EmptyNotReusable | vispy/plot/_plot.py:54-55 | a block with no occupied cell cannot be handed back as any existing widget |
| Grids.AddWidget | vispy/plot/_plot.py:63-65 | adding a widget gives it the next id, which no cell held before; exactly the cells of the block now hold it, every other cell is unchanged, and the block is recorded as the widget's span |
| Grids.AddWidgetKeepsConsistent | vispy/plot/_plot.py:55-65 | adding a widget on a free block keeps every widget's cells exactly its recorded block |
| Grids.PlacedDisjoint | vispy/plot/_plot.py:55-65 | in a consistent grid, no two widgets' blocks share a cell |
| Grids.FootprintCount | vispy/plot/_plot.py:58-59 | in a consistent grid, a widget's cell count equals its block's area |
| Grids.InsideWithSameArea | vispy/plot/_plot.py:58-59 | a non-empty block inside another block of the same area is that block, so the count test rules out strict sub-blocks |
| Grids.ReusableIffFootprint | vispy/plot/_plot.py:55-61 | in a consistent grid, a non-empty block passes both reuse tests for `w` (every cell holds `w`, `w`'s count equals the area) iff it is exactly the block `w` was added with |
| Figures.NewFig | vispy/plot/_plot.py:21-25 | a new figure has an all-free grid and no plot widgets, meets the figure invariant, and lists every widget of its (empty) grid |
| Figures.PlotWidgets | vispy/plot/_plot.py:27-30 | the plot widgets are widgets of the grid in strictly increasing id order, i.e. the order the grid added them; when the figure added every widget of its grid, they are exactly widgets `0 .. n-1` in that order |
| Figures.GetItem | vispy/plot/_plot.py:32-68 | a malformed index raises its index error; a free block gets the next id, the grid is marked by `add_widget`, and the id is appended last to the plot widgets; otherwise the figure is unchanged, and the call returns `w` only when every cell holds `w` and `w`'s count equals the area; every such `w` is returned; every other case is a collision; a failure changes nothing |
| FigureProperties.GetItemKeepsInv | vispy/plot/_plot.py:53-68 | every outcome of `fig[idx]` keeps the grid consistent and the plot widgets widgets of it, oldest first |
| FigureProperties.GetItemKeepsListsEveryWidget | vispy/plot/_plot.py:62-67 | if the plot widgets are every widget of the grid, oldest first, they still are after `fig[idx]`: a new widget is appended last, nothing else changes the list |
| FigureProperties.RunListsEveryWidget | vispy/plot/_plot.py:25-30 | after any sequence of requests on a new figure, `plot_widgets` is every widget the figure added, oldest first |
| FigureProperties.ReturnsExistingIffExactBlock | vispy/plot/_plot.py:55-61 | on a non-empty block, `fig[idx]` returns `w` with no change iff `w` was added with exactly that block |
| FigureProperties.StrictSubBlockCollides | vispy/plot/_plot.py:56-60 | a non-empty block strictly inside one widget's block raises a collision and changes nothing |
| FigureProperties.MixedBlockCollides | vispy/plot/_plot.py:56-60 | a block holding two different values (free and occupied, or two widgets) raises a collision and changes nothing |
| FigureProperties.GetItemIdempotent | vispy/plot/_plot.py:55-68 | after `fig[idx]` succeeds on a non-empty block, repeating it returns the same widget and changes nothing |
| FigureProperties.EmptyBlockAddsEveryTime | vispy/plot/_plot.py:54-67 | a zero-area block is never found again: each request for it adds one more widget |
| FigureProperties.Run | vispy/plot/_plot.py:32-68 | any sequence of requests keeps the grid well formed and its size unchanged |
| FigureProperties.RunKeepsInv | vispy/plot/_plot.py:55-68 | after any sequence of requests, the figure invariant holds and all widgets' blocks are pairwise disjoint |
| FigureProperties.FirstRowExample | vispy/plot/_plot.py:36-37 | on a 2×2 figure, `fig[0]` adds widget 0 on `[0,1) × [0,2)` and lists it as the only plot widget |
| FigureProperties.SameRowAgainExample | vispy/plot/_plot.py:55-61 | on that figure, `fig[0, :]` returns widget 0 and changes nothing |
| FigureProperties.SecondRowExample | vispy/plot/_plot.py:62-68 | on that figure, `fig[1]` adds widget 1 on `[1,2) × [0,2)` and appends it to the plot widgets |
| FigureProperties.SubBlockExample | vispy/plot/_plot.py:56-60 | after a widget on `[0,2) × [0,2)`, requesting `[0,1) × [0,1)` is a collision |
| FigureProperties.SpanningExample | vispy/plot/_plot.py:56-60 | after widgets on `[0,1) × [0,1)` and `[1,2) × [1,2)`, requesting `[0,2) × [0,2)` is a collision |
| FigureProperties.BadIndexExamples | vispy/plot/_plot.py:38-49 | a step of 2 on either axis, or a three-selector tuple, is rejected and changes nothing |

## Left out

- The drawing methods `_PlotWidget.line/image/volume/spectrogram` (lines 74-101) only hand data to external visual and camera constructors, so they are not modelled.
- The spectrogram maths (the STFT and `20*log10`) is floating-point work over an external function, so it is not modelled.
- Canvas construction, window options and the camera set on a new widget (lines 21-24, 66) are rendering plumbing. `NewFig` keeps only the empty grid and the empty plot-widget list.
- The grid's own bookkeeping is not part of this model. This includes growing the grid when a widget is added past its edge. The grid size is fixed, and `add_widget` is modelled only by the cells it marks.
- Figures.GetItem: requires that a normalised index asks only for cells inside the grid (`0 <= start <= end <= size` on both axes). Out-of-range and negative bounds follow numpy's clamping and Python's negative indexing, which are not modelled.
- Figures.GetItem: requires a well-formed grid: the layout has the grid's shape, and each cell is −1 or an id already handed out.
- Figures.PlotWidgets: requires the figure invariant. Every figure built by `NewFig` and `GetItem` meets it.
- Python's `bool` counting as `int` is not modelled. Slice bounds and steps that are not integers (a step of `1.0`, which `Fig.__getitem__` accepts because `1.0 != 1` is false) are not modelled either.
- `Fig.__getitem__` raises `ValueError` for every failure. The model separates index errors (`BadIndex`) from `Collision`, and within index errors it keeps the three messages apart.

## Notes

- `Fig.__getitem__` does not restrict a request to a non-empty block. A zero-area slice such as `fig[0:0]` finds no occupied cell, so it adds a widget with a zero span. That widget holds no cell, so the same request adds yet another widget next time (`FigureProperties.EmptyBlockAddsEveryTime`). Idempotence is therefore stated for non-empty blocks only. What the real grid does with a zero span is outside this model.
- `list(existing)[0]` picks an arbitrary value from the set of values in the block. It is only used when that set has exactly one value. The model reads the block's first cell instead, which is the same value in that case (`Layouts.SingleOccupant`).
