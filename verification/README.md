# TermGraph braille raster pipeline in Dafny

TermGraph draws numeric (x, y) series as a scatter plot in a text terminal.
Every terminal cell is one character of the Unicode Braille Patterns block
(U+2800..U+28FF), which encodes a 2-wide, 4-tall matrix of dots. This project
models the integer part of that pipeline, from occupied dot coordinates to the
final character grid, and proves what each stage promises. The stages are:

- **Dot-panel encoder** (`braille.dfy`, module `Braille`). `_hex_to_dots` and
  `_panel_to_dots` turn an 8-entry 0/1 panel into one braille character. The
  panel is weighted by the bit-order permutation `[0, 3, 1, 4, 2, 5, 6, 7]` and
  offset from U+2800. A decoder `Decode` is the encoder's partner: the two are
  proved to be mutual inverses.
- **Rasteriser** (`raster.dfy`, module `Raster`). `_checker` and `_plot_points`
  work over a set of integer dot coordinates. `PlotPoints` is a method with the
  source's two loops. It is proved equal to the declarative `Rasterise`, and
  `DotShown` proves that every dot inside the rasterised area (the first
  `2 * ColCount(width)` columns and `4 * RowCount(height)` rows of dots) can
  be read back from its cell.
- **Box drawer** (`box.dfy`, module `Box`). `create_box` with its chain of
  corner and edge tests is proved equal to a row-by-row frame definition for
  boxes at least 2 cells wide and 2 cells tall, and every cell of the box is
  proved opaque.
- **Layers** (`layers.dfy`, module `Layers`). This covers `_pad_layer` (with
  `Unpad` as its inverse), `_combine_layers` and `_append_layers_h`.
  Compositing is a fold of "paint the opaque cells of the next layer". Its
  reference definition `Topmost` takes, per cell, the last layer that is
  opaque there.
- **Plot orchestration** (`plot.dfy`, module `Plot`). `plot` from the colour
  list to the composited grid: the yellow box as base layer, then one padded
  raster layer per series pair in colour `palette[k % len(palette)]`.
- **Legend** (`legend.dfy`, module `Legend`). `_plot_lables` packs labels into
  rows, then pads them and paints them over a box of their own.
- `colors.dfy` (module `Colors`) holds the `tcolors` constants and `c`.
- `results.dfy` (module `Results`) holds the `Result` type. Its errors are
  named after the Python exceptions the source raises (`IndexError`,
  `ZeroDivisionError`).

A cell is *transparent* when it is a plain space or the blank braille
character U+2800; every other cell is *opaque* and hides the layers below it.

Python exceptions become `Err` results:

- An empty layer makes `_pad_layer` fail, because `layer[0]` raises
  `IndexError`.
- An opaque cell outside the base layer makes `_combine_layers` fail.
- Indexing an empty colour list with `index % len(colors)` raises
  `ZeroDivisionError`.

A plot with height below 1 rasterises to no rows, and padding those rows fails.

With labels None or `[]`, `label_list` stays empty. `create_box` still
builds the legend box (termgraph.py:157), but `_pad_layer([])` then raises
`IndexError` at `layer[0]` (line 101), so the legend is never printed.
`Legend.Legend` returns `Err(IndexError)` for both.

A label of exactly `width + 1` characters goes on a row of its own, and its
last letter lands on the right border of the legend box (column `width + 1`).
The code draws it over the border; only a longer label fails with
`IndexError`. `Legend.LongLabelOnBorder` shows this for width 2 and the
label "abc".

The legend's wrap test is parameterised by a `Measure`:

- `Colored` is the code as written: the length of the coloured label,
  escape sequences included.
- `Visible` is the evidently intended reading: the visible length of the
  label.

Every legend lemma that does not depend on the measure is proved for both. See
"Findings".

## Model

| member | source | states |
|---|---|---|
| Colors.StripWrap | src/termgraph/tcolors.py:15-17 | `c(color, text)` only surrounds the text: stripping the same colour prefix and the reset sequence gives the text back |
| Braille.HexToDots | src/termgraph/termgraph.py:6-7 | two nibbles give exactly one character, and it lies in the braille block U+2800..U+28FF |
| Braille.PanelToDots | src/termgraph/termgraph.py:9-17 | a panel gives one braille character whose code point is 10240 plus the sum of `2^steps[i] * panel[i]`, so the split into `v % 16` and `int(v/16)` and the recombination lose nothing |
| Braille.DecodeEncode | src/termgraph/termgraph.py:9-17 | decoding the glyph of any panel gives back that panel, so the permutation is undone exactly |
| Braille.EncodeDecode | src/termgraph/termgraph.py:9-17 | every character of the braille block is the glyph of some panel, so the encoder reaches all 256 patterns |
| Braille.PanelEntry | src/termgraph/termgraph.py:9-17 | each of the eight dots of a panel can be read back from its glyph |
| Braille.PanelToDotsInjective | src/termgraph/termgraph.py:9-17 | two panels have the same glyph if and only if they are equal |
| Braille.BlankIffEmpty | src/termgraph/termgraph.py:9-17 | a panel encodes to the blank U+2800 if and only if all eight of its dots are 0 |
| Raster.DuplicatePointCollapses | src/termgraph/termgraph.py:45 | `set(zip(xs, ys))` forgets multiplicity: listing a point a second time leaves the occupied set unchanged |
| Raster.Check | src/termgraph/termgraph.py:30-31 | the checker returns 1 exactly when the dot is in the occupied set, and 0 otherwise |
| Raster.WindowOrder | src/termgraph/termgraph.py:51-55 | panel entry `2*dy + dx` of the window at (x, y) is the dot at (x+dx, y+dy): row by row, left before right |
| Raster.WindowZeroIffEmpty | src/termgraph/termgraph.py:51-55 | a window's panel is all zeros if and only if no occupied dot lies in its 2x4 area |
| Raster.Cell | src/termgraph/termgraph.py:57-60 | a cell is transparent exactly when its window holds no dot. It is then the blank braille character; otherwise it is the window's glyph wrapped in the series colour |
| Raster.RangeCounts | src/termgraph/termgraph.py:48-50 | the loops visit row r (dot row 4r) exactly when `4r < height - 4` and column c (dot column 2c) exactly when `2c < width - 2` |
| Raster.PlotRow | src/termgraph/termgraph.py:49-60 | the inner loop builds one cell per visited column, cell c being the cell of the window at dot column 2c |
| Raster.PlotPoints | src/termgraph/termgraph.py:33-63 | the two loops produce exactly the declarative raster of the occupied set, cell (r, c) covering the window from dot (2c, 4r) |
| Raster.CellShown | src/termgraph/termgraph.py:57-60 | stripping the series colour from a cell gives back the glyph of its window, blank cells included |
| Raster.RasterShown | src/termgraph/termgraph.py:48-60 | for every raster cell (r, c) inside the grid, stripping its colour gives the glyph of the window from dot (2c, 4r) |
| Raster.GlyphDot | src/termgraph/termgraph.py:51-57 | decoding a window's glyph at position `2*dy + dx` gives the checker's value at dot (x+dx, y+dy) |
| Raster.DotShown | src/termgraph/termgraph.py:33-63 | every dot inside the rasterised area can be read back: decoding the covering cell gives 1 at that dot's position exactly when the dot is occupied |
| Box.CreateBox | src/termgraph/termgraph.py:66-96 | the box has `height` rows of `width` cells (none for negative sizes). Every cell is the colour, the glyph chosen by the first matching test of the chain, and the reset |
| Box.BoxIsFrame | src/termgraph/termgraph.py:79-92 | for boxes at least 2x2 the chain of tests draws the frame: rounded corners, horizontal top and bottom edges, vertical side edges and a blank interior |
| Box.BoxOpaque | src/termgraph/termgraph.py:83-92 | no box cell is transparent, so the box is a fully opaque base layer |
| Layers.PadLayer | src/termgraph/termgraph.py:98-106 | an empty layer fails with IndexError. Otherwise there are two more rows; the top and bottom rows are spaces as wide as the first row plus two; every middle row gets one space at each end and keeps its cells one column in |
| Layers.UnpadPad | src/termgraph/termgraph.py:98-106 | removing the one-cell border from a padded layer gives the layer back |
| Layers.PadRect | src/termgraph/termgraph.py:98-106 | padding a non-empty r x w layer gives an (r+2) x (w+2) layer whose border cells are all transparent |
| Layers.PadBorderTransparent | src/termgraph/termgraph.py:98-106 | every opaque cell of a padded layer lies strictly inside its border |
| Layers.Paint | src/termgraph/termgraph.py:111-115 | painting one layer keeps the base's shape; each cell is the upper layer's cell where that is opaque and the base's cell elsewhere |
| Layers.CombineLayers | src/termgraph/termgraph.py:108-116 | compositing succeeds exactly when the stack is non-empty and every opaque cell of every upper layer lies inside the base. Otherwise it fails with IndexError, from `layer_stack[0]` or from the out-of-range write. The result has the base's shape, and each cell is the cell of the topmost layer opaque there, else the base's |
| Layers.TopmostNoneOpaque | src/termgraph/termgraph.py:111-115 | where no upper layer is opaque, the base cell shows |
| Layers.TopmostLastOpaque | src/termgraph/termgraph.py:111-115 | where layer k is opaque and no later layer is, layer k's cell shows: the last opaque layer wins |
| Layers.StackIsTopmost | src/termgraph/termgraph.py:110-116 | painting the layers one after another, bottom to top, gives the topmost-opaque cell at every position |
| Layers.TransparentTopLeavesBase | src/termgraph/termgraph.py:108-116 | adding a top layer with no opaque cell changes neither the result nor whether compositing fails |
| Layers.CombineSelf | src/termgraph/termgraph.py:108-116 | compositing a layer over itself gives that layer |
| Layers.CombineInStages | src/termgraph/termgraph.py:108-116 | compositing a stack in one go equals compositing a prefix first and then the rest over that result, failures included |
| Layers.StagesAgree | src/termgraph/termgraph.py:108-116 | when compositing both in one go and in two stages succeeds, the two grids are equal |
| Layers.AppendLayersH | src/termgraph/termgraph.py:136-137 | row-wise concatenation stops at the shorter layer; each row is the left row followed by the right row |
| Layers.AppendRect | src/termgraph/termgraph.py:136-137 | two layers with r rows of widths wa and wb concatenate into r rows of width wa + wb |
| Plot.RasterGeometry | src/termgraph/termgraph.py:202 | the dot extents `width*2+1` and `height*4+2` give a raster of exactly `height` rows of `width` cells |
| Plot.SeriesLayers | src/termgraph/termgraph.py:200-202 | there is one padded layer per series pair, in order. Pair k is drawn in `palette[int(2k/2) % len(palette)]`, and the layers fail with IndexError exactly when there is a pair and the height is below 1 |
| Plot.SeriesLayerFits | src/termgraph/termgraph.py:182-202 | a padded series layer never has an opaque cell outside the `(width+2) x (height+2)` box |
| Plot.Plot | src/termgraph/termgraph.py:178-204 | the plot fails with ZeroDivisionError exactly when there is a pair and the colour list is empty. It succeeds exactly when there are no pairs, or there are colours and at least one row. On success it is a `(height+2) x (width+2)` grid |
| Plot.SeriesLayerCell | src/termgraph/termgraph.py:202 | cell (i, j) of a series' raster sits at (i+1, j+1) of its padded layer |
| Plot.PlotIsComposite | src/termgraph/termgraph.py:182-204 | the plot is the composite of the box and the series layers in order |
| Plot.LayerCellAt | src/termgraph/termgraph.py:200-202 | pair k's layer is opaque at interior cell (i, j) exactly when the pair has a dot in that window. It then shows the pair's glyph in colour `palette[k % len(palette)]` |
| Plot.PlotCellIsTopmost | src/termgraph/termgraph.py:204 | every plot cell is the topmost opaque cell among the box and the series layers |
| Plot.LayersTransparentFrom | src/termgraph/termgraph.py:200-204 | layers of pairs without a dot in window (i, j) are transparent at that cell |
| Plot.BoxInterior | src/termgraph/termgraph.py:182 | inside its border the plot box holds yellow blanks |
| Plot.CompositeInteriorEmpty | src/termgraph/termgraph.py:204 | where no pair has a dot in window (i, j), the series layers leave the base cell there |
| Plot.CompositeInteriorLast | src/termgraph/termgraph.py:204 | where pair k is the last pair with a dot in window (i, j), the series layers show pair k's coloured glyph there |
| Plot.PlotInteriorEmpty | src/termgraph/termgraph.py:178-204 | a plot cell whose window holds no dot of any pair shows the yellow box interior |
| Plot.PlotInteriorLast | src/termgraph/termgraph.py:178-204 | a plot cell shows the glyph of the last pair with a dot in its window, in that pair's colour `palette[k % len(palette)]` |
| Plot.PlotBorder | src/termgraph/termgraph.py:182-204 | the plot's border is exactly the box's border: no series layer paints over it |
| Legend.LabelLen | src/termgraph/termgraph.py:146-148 | the measure of a label in the wrap test is never below its visible length |
| Legend.LabelCells | src/termgraph/termgraph.py:152 | a label becomes one cell per character, each character wrapped in the label's colour |
| Legend.Entry | src/termgraph/termgraph.py:152-153 | a label adds its cells followed by one separating space |
| Legend.LabelRows | src/termgraph/termgraph.py:141-155 | packing fails with ZeroDivisionError exactly when there is a label and no colour. It yields no rows exactly when the label list is absent or empty |
| Legend.PackKeepsOrder | src/termgraph/termgraph.py:144-153 | after any number of labels, the closed rows followed by the current row are those labels' entries in order |
| Legend.PackKeepsOrderStep | src/termgraph/termgraph.py:148-153 | one packing step, whether it closes the current row or extends it, appends exactly the next label's entry to the rows read in order |
| Legend.LabelsInOrder | src/termgraph/termgraph.py:141-155 | reading the legend rows in order gives every label's cells in label order, each followed by a space |
| Legend.PackShape | src/termgraph/termgraph.py:144-153 | after a label the current row is non-empty, and only the first closed row can be empty. It is empty exactly when the first label failed the wrap test |
| Legend.LeadingEmptyRow | src/termgraph/termgraph.py:145-155 | the first legend row is empty if and only if the first label's measure exceeds `width`, and every other row holds cells |
| Legend.PackBound | src/termgraph/termgraph.py:145-153 | when no label is longer than `width`, no row has more than `width + 1` cells, under either measure |
| Legend.PackBoundStep | src/termgraph/termgraph.py:148-153 | one packing step keeps every row within `width + 1` cells when the label is at most `width` long |
| Legend.LabelRowsBound | src/termgraph/termgraph.py:141-155 | when no label is longer than `width`, every finished legend row holds at most `width + 1` cells |
| Legend.FitsIffRowsFit | src/termgraph/termgraph.py:157-159 | the padded rows can be painted over the legend box exactly when every visible label cell lies within `width + 1` columns |
| Legend.Legend | src/termgraph/termgraph.py:141-159 | an absent or empty label list fails with IndexError, and labels without colours fail with ZeroDivisionError. Otherwise the legend is drawn exactly when every visible cell fits the box, and fails with IndexError when one does not. A drawn legend has two more rows than the label rows, each `width + 2` cells wide (none when that is negative) |
| Legend.LegendShowsLabels | src/termgraph/termgraph.py:157-159 | every visible label cell appears in the legend one row down and one column right of its place in the rows |
| Legend.PaddedShown | src/termgraph/termgraph.py:157-159 | when every visible cell of the rows lies within `width + 1` columns, painting the padded rows over the legend box succeeds, and each visible cell shows one row down and one column right of its place |
| Legend.PaddedCellClear | src/termgraph/termgraph.py:98-106 | every cell of the padded rows other than a visible label cell is transparent |
| Legend.PaddedKeepsBox | src/termgraph/termgraph.py:157-159 | when the rows fit, every legend cell that is not a visible label cell is the box's own cell, border or blank interior |
| Legend.LegendDrawn | src/termgraph/termgraph.py:141-159 | with a label, a colour and no label longer than `width`, the legend is drawn |
| Legend.ColoredSplitsShortLabels | src/termgraph/termgraph.py:146-148 | as written, the labels "a" and "b" in the default colours go on two rows of a 10-column legend, though their four cells fit one row |
| Legend.VisibleKeepsShortLabels | src/termgraph/termgraph.py:146-148 | measured by visible length, the same two labels share one row |
| Legend.VisibleNoEarlyWrap | src/termgraph/termgraph.py:146-153 | measured by visible length, no row is closed while the entries so far span at most `width + 1` cells |
| Legend.VisibleOneRow | src/termgraph/termgraph.py:146-155 | measured by visible length, labels whose entries fit in `width + 1` cells make a legend of exactly one row holding all of them in order |
| Legend.LongLabelRows | src/termgraph/termgraph.py:145-155 | under either measure, the label "abc" at width 2 fails the wrap test on an empty row, giving an empty first row and then its own row |
| Legend.LongLabelOnBorder | src/termgraph/termgraph.py:157-159 | that legend is still drawn, and its cell (2, 3), the box's right border, shows the blue "c" instead of the yellow vertical bar |

## Left out

- Float normalisation is not modelled: `_inverse_lerp`, `_lerp` and `_normalize_list` (termgraph.py:19-28), the scaling and `int()` truncation in `_plot_points` (43-44), and the bounds scan in `plot` (184-198). The rasteriser takes the truncated integer dot coordinates as input, and a series pair is given as those coordinates.
- The float stage's own errors are left out with it: `max()` and `min()` of an empty series raise ValueError, and `_inverse_lerp` divides by zero when all values are equal.
- An odd number of series lists is not modelled: `plots[i + 1]` raises IndexError there. The model takes whole pairs (`Plot.Series`), so it cannot express an odd count.
- Printing is not modelled: `_print_layer`, `_print_size`, `_plot_vals` and `main` (118-126, 209-224). The model returns the grid that would be printed.
- `_axis` (128-134) is not modelled. It formats floats and `plot` does not call it.
- `plot` prints the plot and then calls `_plot_lables` (205-207). The model gives the plot (`Plot.Plot`) and the legend (`Legend.Legend`) as two separate results, so a legend error that follows a printed plot is not one combined outcome. `plot` calls the legend only when `labels` is not None; `Legend.Legend` also covers a direct call with None.
- `_plot_lables` takes a `height` parameter that it never uses. It is left out of `Legend.Legend`.
- Layers.CombineLayers: `layer_stack[0][:]` copies only the outer list, so the source writes into the base layer's rows in place. The model returns a new grid. Every caller builds a fresh base, so the aliasing is not visible to them.
- Braille.Panel has exactly eight entries. `zip` in `_panel_to_dots` would accept other lengths, but `_plot_points` always builds eight.
- Default arguments are not modelled: every member takes them explicitly. This covers `plot`'s `size=(80, 15)` (line 164), `_plot_points`' `color=tcolors.BLUE` (line 38) and `create_box`'s `color=tcolors.YELLOW` (line 66). The source's callers always pass a colour to `_plot_points`, and the model passes Yellow to `Box.CreateBox` at both call sites, in `plot` and in `_plot_lables`.
- Colors.Wrap states only the length of its result in its own contract. The content is stated by `Colors.StripWrap`.

## Findings

| source | as written | input that shows it | evidently intended | confidence | as-written member | corrected member |
|---|---|---|---|---|---|---|
| src/termgraph/termgraph.py:146-148 | The wrap test measures `current_label`, the coloured label, which includes the colour prefix and the reset (9 extra characters for the default colours). The visible-length list built on line 147 is stored under the misspelled name `currnet_label` and never used. | width 10, labels `["a", "b"]`, default colours: the second test is 2 + 10 > 10, so "b" starts a second row although the two entries take 4 cells. | The test measures the label's visible length (the list bound on line 147), so labels share a row while their cells fit. | not executed | Legend.ColoredSplitsShortLabels | Legend.VisibleOneRow |
