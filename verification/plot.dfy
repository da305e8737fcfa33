/** The orchestration geometry of `plot`: one opaque box as the base layer,
    one padded raster layer per series pair on top, composited. */
module Plot {
  import opened Results
  import opened Colors
  import opened Braille
  import opened Layers
  import opened Box
  import opened Raster

  /** One series pair, already scaled and truncated to dot coordinates. */
  datatype Series = Series(xs: seq<int>, ys: seq<int>)

  function Dots(s: Series): Raster.Dots {
    Occupied(s.xs, s.ys)
  }

  /** Dot extents handed to the rasteriser for a plot of width x height cells. */
  function DotWidth(width: int): int { width * 2 + 1 }
  function DotHeight(height: int): int { height * 4 + 2 }

  /** The palette in use: the caller's, or the default one. */
  function Palette(colors: Option<seq<string>>): seq<string> {
    if colors.Some? then colors.value else DefaultPalette
  }

  /** Colour of the series pair whose x series sits at index i (even) of the
      flat series list: `color_list[int(i/2) % len(color_list)]`. */
  function ColorOf(palette: seq<string>, i: nat): string
    requires |palette| > 0
  {
    palette[(i / 2) % |palette|]
  }

  /** The extents `width*2+1` and `height*4+2` give a raster of exactly
      `height` rows of `width` cells. */
  lemma RasterGeometry(width: int, height: int)
    ensures RowCount(DotHeight(height)) == Count(height)
    ensures ColCount(DotWidth(width)) == Count(width)
  {
  }

  /** The padded raster layer of one series. */
  function SeriesLayer(s: Series, width: int, height: int, color: string): Result<Grid>
  {
    PadLayer(Rasterise(Dots(s), DotWidth(width), DotHeight(height), color))
  }

  /** The padded layers of series k, k+1, ..., in order, each in its colour. */
  function SeriesLayers(series: seq<Series>, width: int, height: int, palette: seq<string>, k: nat): (r: Result<seq<Grid>>)
    requires |palette| > 0
    ensures r.Ok? <==> (k >= |series| || height >= 1)
    ensures r.Err? ==> r.error == IndexError
    ensures r.Ok? ==> |r.value| == if k >= |series| then 0 else |series| - k
    ensures r.Ok? ==> forall m :: 0 <= m < |r.value| ==>
              SeriesLayer(series[k + m], width, height, ColorOf(palette, 2 * (k + m))) == Ok(r.value[m])
    decreases |series| - k
  {
    if k >= |series| then Ok([])
    else
      RasterGeometry(width, height);
      var layer := SeriesLayer(series[k], width, height, ColorOf(palette, 2 * k));
      var rest := SeriesLayers(series, width, height, palette, k + 1);
      if layer.Err? || rest.Err? then Err(IndexError) else Ok([layer.value] + rest.value)
  }

  /** A series layer never reaches outside the box it is composited on. */
  lemma SeriesLayerFits(s: Series, width: int, height: int, color: string)
    requires height >= 1
    ensures SeriesLayer(s, width, height, color).Ok?
    ensures Fits(CreateBox(width + 2, height + 2, Yellow), SeriesLayer(s, width, height, color).value)
  {
    RasterGeometry(width, height);
    var raster := Rasterise(Dots(s), DotWidth(width), DotHeight(height), color);
    PadRect(raster, height, Count(width));
    var layer := SeriesLayer(s, width, height, color).value;
    if width < 0 {
      assert forall r, c :: !OpaqueAt(layer, r, c);
    }
  }

  /** `plot` up to printing: the composited grid. */
  function Plot(width: int, height: int, series: seq<Series>, colors: Option<seq<string>>): (r: Result<Grid>)
    ensures r == Err(ZeroDivisionError) <==> |series| > 0 && |Palette(colors)| == 0
    ensures r.Ok? <==> |series| == 0 || (|Palette(colors)| > 0 && height >= 1)
    ensures r.Ok? ==> Rect(r.value, Count(height + 2), Count(width + 2))
  {
    var palette := Palette(colors);
    var box := CreateBox(width + 2, height + 2, Yellow);
    if |series| == 0 then CombineLayers([box])
    else if |palette| == 0 then Err(ZeroDivisionError)
    else
      var layers :- SeriesLayers(series, width, height, palette, 0);
      var stack := [box] + layers;
      forall k | 1 <= k < |stack|
        ensures Fits(stack[0], stack[k])
      {
        SeriesLayerFits(series[k - 1], width, height, ColorOf(palette, 2 * (k - 1)));
      }
      CombineLayers(stack)
  }

  /** Cell (i, j) of a series' raster sits at (i + 1, j + 1) of its layer. */
  lemma SeriesLayerCell(s: Series, width: int, height: int, color: string, i: int, j: int)
    requires 0 <= i < height && 0 <= j < width
    ensures SeriesLayer(s, width, height, color).Ok?
    ensures i + 1 < |SeriesLayer(s, width, height, color).value|
    ensures j + 1 < |SeriesLayer(s, width, height, color).value[i + 1]|
    ensures SeriesLayer(s, width, height, color).value[i + 1][j + 1] == Cell(Dots(s), 2 * j, 4 * i, color)
  {
    RasterGeometry(width, height);
  }

  /** With a non-empty palette and at least one row, the plot is the
      composite of the box and the series layers. */
  lemma PlotIsComposite(width: int, height: int, series: seq<Series>, colors: Option<seq<string>>)
    requires |Palette(colors)| > 0 && height >= 1 && |series| > 0
    ensures SeriesLayers(series, width, height, Palette(colors), 0).Ok?
    ensures Plot(width, height, series, colors)
         == CombineLayers([CreateBox(width + 2, height + 2, Yellow)] + SeriesLayers(series, width, height, Palette(colors), 0).value)
  {
  }

  /** Cell (i, j) of the plotting area in the layer of series pair k: opaque
      exactly when the pair has a dot in that window, and then the pair's
      glyph in the pair's colour. */
  lemma LayerCellAt(series: seq<Series>, width: int, height: int, palette: seq<string>, k: int, i: int, j: int)
    requires |palette| > 0 && 0 <= k < |series|
    requires 0 <= i < height && 0 <= j < width
    ensures SeriesLayers(series, width, height, palette, 0).Ok?
    ensures |SeriesLayers(series, width, height, palette, 0).value| == |series|
    ensures OpaqueAt(SeriesLayers(series, width, height, palette, 0).value[k], i + 1, j + 1)
            <==> !WindowEmpty(Dots(series[k]), 2 * j, 4 * i)
    ensures !WindowEmpty(Dots(series[k]), 2 * j, 4 * i) ==>
              SeriesLayers(series, width, height, palette, 0).value[k][i + 1][j + 1]
              == Wrap(palette[k % |palette|], PanelToDots(Window(Dots(series[k]), 2 * j, 4 * i)))
  {
    assert (2 * k) / 2 == k;
    SeriesLayerCell(series[k], width, height, ColorOf(palette, 2 * k), i, j);
  }

  /** The plot cell at (r, c) is the composite of the box and the layers. */
  lemma PlotCellIsTopmost(width: int, height: int, series: seq<Series>, colors: Option<seq<string>>, r: int, c: int)
    requires |Palette(colors)| > 0 && height >= 1 && |series| > 0
    requires 0 <= r < height + 2 && 0 <= c < Count(width + 2)
    ensures Plot(width, height, series, colors).Ok?
    ensures SeriesLayers(series, width, height, Palette(colors), 0).Ok?
    ensures Plot(width, height, series, colors).value[r][c]
         == Topmost(CreateBox(width + 2, height + 2, Yellow), SeriesLayers(series, width, height, Palette(colors), 0).value, r, c)
  {
    PlotIsComposite(width, height, series, colors);
    var box := CreateBox(width + 2, height + 2, Yellow);
    var layers := SeriesLayers(series, width, height, Palette(colors), 0).value;
    assert ([box] + layers)[1..] == layers;
  }

  /** Series layers whose pair has no dot in window (i, j) are transparent there. */
  lemma LayersTransparentFrom(series: seq<Series>, width: int, height: int, palette: seq<string>, k: int, i: int, j: int)
    requires |palette| > 0 && height >= 1 && 0 <= k
    requires 0 <= i < height && 0 <= j < width
    requires forall m :: k <= m < |series| ==> WindowEmpty(Dots(series[m]), 2 * j, 4 * i)
    ensures SeriesLayers(series, width, height, palette, 0).Ok?
    ensures forall m :: k <= m < |SeriesLayers(series, width, height, palette, 0).value| ==>
              !OpaqueAt(SeriesLayers(series, width, height, palette, 0).value[m], i + 1, j + 1)
  {
    var layers := SeriesLayers(series, width, height, palette, 0).value;
    forall m | k <= m < |layers|
      ensures !OpaqueAt(layers[m], i + 1, j + 1)
    {
      LayerCellAt(series, width, height, palette, m, i, j);
    }
  }

  /** Inside its border the box holds blank cells. */
  lemma BoxInterior(width: int, height: int, i: int, j: int)
    requires 0 <= i < height && 0 <= j < width
    ensures |CreateBox(width + 2, height + 2, Yellow)| == height + 2
    ensures |CreateBox(width + 2, height + 2, Yellow)[i + 1]| == width + 2
    ensures CreateBox(width + 2, height + 2, Yellow)[i + 1][j + 1] == Wrap(Yellow, " ")
  {
  }

  /** Where no series pair has a dot in window (i, j), compositing the
      layers over any base leaves the base cell. */
  lemma CompositeInteriorEmpty(box: Grid, series: seq<Series>, width: int, height: int, palette: seq<string>, i: int, j: int)
    requires |palette| > 0 && height >= 1
    requires 0 <= i < height && 0 <= j < width
    requires i + 1 < |box| && j + 1 < |box[i + 1]|
    requires forall k :: 0 <= k < |series| ==> WindowEmpty(Dots(series[k]), 2 * j, 4 * i)
    ensures SeriesLayers(series, width, height, palette, 0).Ok?
    ensures Topmost(box, SeriesLayers(series, width, height, palette, 0).value, i + 1, j + 1) == box[i + 1][j + 1]
  {
    LayersTransparentFrom(series, width, height, palette, 0, i, j);
    TopmostNoneOpaque(box, SeriesLayers(series, width, height, palette, 0).value, i + 1, j + 1);
  }

  /** When pair k is the last with a dot in window (i, j), compositing the
      layers over any base yields pair k's glyph there. */
  lemma CompositeInteriorLast(box: Grid, series: seq<Series>, width: int, height: int, palette: seq<string>, i: int, j: int, k: int)
    requires |palette| > 0 && height >= 1
    requires 0 <= i < height && 0 <= j < width
    requires i + 1 < |box| && j + 1 < |box[i + 1]|
    requires 0 <= k < |series| && !WindowEmpty(Dots(series[k]), 2 * j, 4 * i)
    requires forall m :: k < m < |series| ==> WindowEmpty(Dots(series[m]), 2 * j, 4 * i)
    ensures SeriesLayers(series, width, height, palette, 0).Ok?
    ensures Topmost(box, SeriesLayers(series, width, height, palette, 0).value, i + 1, j + 1)
            == Wrap(palette[k % |palette|], PanelToDots(Window(Dots(series[k]), 2 * j, 4 * i)))
  {
    LayerCellAt(series, width, height, palette, k, i, j);
    LayersTransparentFrom(series, width, height, palette, k + 1, i, j);
    TopmostLastOpaque(box, SeriesLayers(series, width, height, palette, 0).value, i + 1, j + 1, k);
  }

  /** Where no series pair has a dot in window (i, j), the plot shows the
      box interior at cell (i, j) of the plotting area. */
  lemma PlotInteriorEmpty(width: int, height: int, series: seq<Series>, colors: Option<seq<string>>, i: int, j: int)
    requires |Palette(colors)| > 0 && height >= 1
    requires 0 <= i < height && 0 <= j < width
    requires forall k :: 0 <= k < |series| ==> WindowEmpty(Dots(series[k]), 2 * j, 4 * i)
    ensures Plot(width, height, series, colors).Ok?
    ensures Plot(width, height, series, colors).value[i + 1][j + 1] == Wrap(Yellow, " ")
  {
    if |series| == 0 {
      var box := CreateBox(width + 2, height + 2, Yellow);
      BoxInterior(width, height, i, j);
      var none: seq<Grid> := [];
      assert [box][1..] == none;
      assert Plot(width, height, series, colors).value[i + 1][j + 1] == Topmost(box, none, i + 1, j + 1);
    } else {
      BoxInterior(width, height, i, j);
      PlotCellIsTopmost(width, height, series, colors, i + 1, j + 1);
      CompositeInteriorEmpty(CreateBox(width + 2, height + 2, Yellow), series, width, height, Palette(colors), i, j);
    }
  }

  /** At cell (i, j) of the plotting area the plot shows the glyph of the
      last series pair k whose window there holds a dot, in that pair's
      colour `palette[k % len(palette)]`. */
  lemma PlotInteriorLast(width: int, height: int, series: seq<Series>, colors: Option<seq<string>>, i: int, j: int, k: int)
    requires |Palette(colors)| > 0 && height >= 1
    requires 0 <= i < height && 0 <= j < width
    requires 0 <= k < |series| && !WindowEmpty(Dots(series[k]), 2 * j, 4 * i)
    requires forall m :: k < m < |series| ==> WindowEmpty(Dots(series[m]), 2 * j, 4 * i)
    ensures Plot(width, height, series, colors).Ok?
    ensures Plot(width, height, series, colors).value[i + 1][j + 1]
            == Wrap(Palette(colors)[k % |Palette(colors)|], PanelToDots(Window(Dots(series[k]), 2 * j, 4 * i)))
  {
    BoxInterior(width, height, i, j);
    PlotCellIsTopmost(width, height, series, colors, i + 1, j + 1);
    CompositeInteriorLast(CreateBox(width + 2, height + 2, Yellow), series, width, height, Palette(colors), i, j, k);
  }

  /** The border of the plot is the box: no series layer paints over it. */
  lemma PlotBorder(width: int, height: int, series: seq<Series>, colors: Option<seq<string>>, y: int, x: int)
    requires |Palette(colors)| > 0 && height >= 1 && width >= 0
    requires 0 <= y < height + 2 && 0 <= x < width + 2
    requires y == 0 || y == height + 1 || x == 0 || x == width + 1
    ensures Plot(width, height, series, colors).Ok?
    ensures Plot(width, height, series, colors).value[y][x] == CreateBox(width + 2, height + 2, Yellow)[y][x]
  {
    var palette := Palette(colors);
    var box := CreateBox(width + 2, height + 2, Yellow);
    if |series| > 0 {
      PlotCellIsTopmost(width, height, series, colors, y, x);
      var layers := SeriesLayers(series, width, height, palette, 0).value;
      RasterGeometry(width, height);
      forall k | 0 <= k < |layers|
        ensures !OpaqueAt(layers[k], y, x)
      {
        var raster := Rasterise(Dots(series[k]), DotWidth(width), DotHeight(height), ColorOf(palette, 2 * k));
        PadRect(raster, height, width);
      }
      TopmostNoneOpaque(box, layers, y, x);
    }
  }
}
