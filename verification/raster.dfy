/** The point rasteriser: a set of integer dot coordinates becomes a grid of
    braille cells, each cell covering a 2-wide, 4-tall window of dots. The
    float normalisation and truncation that produce the coordinates happen
    before this module. */
module Raster {
  import opened Braille
  import opened Colors
  import opened Layers

  /** The set of occupied dot coordinates (column, row). */
  type Dots = set<(int, int)>

  /** `set(zip(norm_xs, norm_ys))`: pairs up the two coordinate lists,
      stopping at the shorter, and forgets order and multiplicity. */
  function Occupied(xs: seq<int>, ys: seq<int>): Dots
  {
    set i | 0 <= i < |xs| && i < |ys| :: (xs[i], ys[i])
  }

  /** A point listed twice contributes nothing the first listing did not. */
  lemma DuplicatePointCollapses(xs: seq<int>, ys: seq<int>, i: int)
    requires |xs| == |ys| && 0 <= i < |xs|
    ensures Occupied(xs + [xs[i]], ys + [ys[i]]) == Occupied(xs, ys)
  {
    var a, b := Occupied(xs + [xs[i]], ys + [ys[i]]), Occupied(xs, ys);
    forall p | p in a ensures p in b {
      var k :| 0 <= k < |xs| + 1 && p == ((xs + [xs[i]])[k], (ys + [ys[i]])[k]);
      if k == |xs| {
        assert p == (xs[i], ys[i]);
      } else {
        assert p == (xs[k], ys[k]);
      }
    }
    forall p | p in b ensures p in a {
      var k :| 0 <= k < |xs| && p == (xs[k], ys[k]);
      assert p == ((xs + [xs[i]])[k], (ys + [ys[i]])[k]);
    }
  }

  /** `_checker`: 1 when the dot is occupied. */
  function Check(d: Dots, x: int, y: int): (b: Bit)
    ensures b == 1 <==> (x, y) in d
  {
    if (x, y) in d then 1 else 0
  }

  /** The panel of the window whose top-left dot is (x, y), sampled in the
      order of the source's window list. */
  function Window(d: Dots, x: int, y: int): Panel
  {
    [Check(d, x, y), Check(d, x + 1, y),
     Check(d, x, y + 1), Check(d, x + 1, y + 1),
     Check(d, x, y + 2), Check(d, x + 1, y + 2),
     Check(d, x, y + 3), Check(d, x + 1, y + 3)]
  }

  /** Panel entry 2 * dy + dx of a window is the dot dx columns right of and
      dy rows below its top-left dot. */
  lemma WindowOrder(d: Dots, x: int, y: int, dx: int, dy: int)
    requires 0 <= dx < 2 && 0 <= dy < 4
    ensures Window(d, x, y)[2 * dy + dx] == Check(d, x + dx, y + dy)
  {
    if dy == 0 {
    } else if dy == 1 {
    } else if dy == 2 {
    } else {
    }
  }

  /** No occupied dot lies in the 2 x 4 window at (x, y). */
  predicate WindowEmpty(d: Dots, x: int, y: int) {
    forall q :: q in d ==> !(x <= q.0 < x + 2 && y <= q.1 < y + 4)
  }

  lemma WindowZeroIffEmpty(d: Dots, x: int, y: int)
    ensures (forall i :: 0 <= i < 8 ==> Window(d, x, y)[i] == 0) <==> WindowEmpty(d, x, y)
  {
    var p := Window(d, x, y);
    if !WindowEmpty(d, x, y) {
      var q :| q in d && x <= q.0 < x + 2 && y <= q.1 < y + 4;
      var dx, dy := q.0 - x, q.1 - y;
      WindowOrder(d, x, y, dx, dy);
      assert p[2 * dy + dx] == 1;
    }
  }

  /** One output cell: the glyph of its window, coloured unless blank. */
  function Cell(d: Dots, x: int, y: int, color: string): (r: string)
    ensures Transparent(r) <==> WindowEmpty(d, x, y)
    ensures WindowEmpty(d, x, y) ==> r == Blank
    ensures !WindowEmpty(d, x, y) ==> r == Wrap(color, PanelToDots(Window(d, x, y)))
  {
    var glyph := PanelToDots(Window(d, x, y));
    BlankIffEmpty(Window(d, x, y));
    WindowZeroIffEmpty(d, x, y);
    WrapIsLong(color, glyph);
    if glyph != Blank then Wrap(color, glyph) else glyph
  }

  /** Number of values in `range(0, stop, step)`. */
  function RangeLen(stop: int, step: int): nat
    requires step > 0
  {
    if stop <= 0 then 0 else (stop + step - 1) / step
  }

  /** Rows of output: one per y in range(0, height - 4, 4). */
  function RowCount(height: int): nat { RangeLen(height - 4, 4) }

  /** Cells per row: one per x in range(0, width - 2, 2). */
  function ColCount(width: int): nat { RangeLen(width - 2, 2) }

  /** Row r starts at dot row 4r and column c at dot column 2c exactly for the
      values the two `range` loops visit. */
  lemma RangeCounts(width: int, height: int)
    ensures forall r :: 0 <= r ==> (r < RowCount(height) <==> 4 * r < height - 4)
    ensures forall c :: 0 <= c ==> (c < ColCount(width) <==> 2 * c < width - 2)
  {
  }

  /** The rasterised grid, cell (r, c) covering dots from (2c, 4r). */
  function Rasterise(d: Dots, width: int, height: int, color: string): (g: Grid)
    ensures Rect(g, RowCount(height), ColCount(width))
    ensures forall r, c :: 0 <= r < |g| && 0 <= c < |g[r]| ==> g[r][c] == Cell(d, 2 * c, 4 * r, color)
  {
    seq(RowCount(height), r requires 0 <= r < RowCount(height) =>
      seq(ColCount(width), c requires 0 <= c < ColCount(width) => Cell(d, 2 * c, 4 * r, color)))
  }

  /** The inner loop of `_plot_points`: one row of cells at dot row y. */
  method PlotRow(d: Dots, width: int, y: int, color: string) returns (row: Row)
    ensures |row| == ColCount(width)
    ensures forall c :: 0 <= c < |row| ==> row[c] == Cell(d, 2 * c, y, color)
  {
    row := [];
    var x := 0;
    while x < width - 2
      invariant x == 2 * |row| && |row| <= ColCount(width)
      invariant forall c :: 0 <= c < |row| ==> row[c] == Cell(d, 2 * c, y, color)
    {
      ghost var prev := row;
      row := row + [Cell(d, x, y, color)];
      forall c | 0 <= c < |row|
        ensures row[c] == Cell(d, 2 * c, y, color)
      {
        if c < |prev| {
          assert row[c] == prev[c];
        } else {
          assert x == 2 * c;
        }
      }
      x := x + 2;
    }
  }

  /** `_plot_points` over integer dot coordinates: the source's two loops. */
  method PlotPoints(xs: seq<int>, ys: seq<int>, width: int, height: int, color: string) returns (out: Grid)
    ensures out == Rasterise(Occupied(xs, ys), width, height, color)
  {
    var d := Occupied(xs, ys);
    ghost var spec := Rasterise(d, width, height, color);
    out := [];
    var y := 0;
    while y < height - 4
      invariant y == 4 * |out| && |out| <= RowCount(height)
      invariant out == spec[..|out|]
    {
      var row := PlotRow(d, width, y, color);
      assert row == spec[|out|];
      assert spec[..|out| + 1] == spec[..|out|] + [row];
      out := out + [row];
      y := y + 4;
    }
  }

  /** Stripping a cell's colour gives back the glyph of its window, blank
      cells included. */
  lemma CellShown(d: Dots, x: int, y: int, color: string)
    ensures Strip(color, Cell(d, x, y, color)) == PanelToDots(Window(d, x, y))
  {
    var glyph := PanelToDots(Window(d, x, y));
    if WindowEmpty(d, x, y) {
      BlankIffEmpty(Window(d, x, y));
      WindowZeroIffEmpty(d, x, y);
    } else {
      StripWrap(color, glyph);
    }
  }

  /** Stripping the colour of raster cell (r, c) gives the glyph of the
      window from dot (2c, 4r). */
  lemma RasterShown(d: Dots, width: int, height: int, color: string, r: int, c: int)
    requires 0 <= r < RowCount(height) && 0 <= c < ColCount(width)
    ensures Strip(color, Rasterise(d, width, height, color)[r][c]) == PanelToDots(Window(d, 2 * c, 4 * r))
  {
    CellShown(d, 2 * c, 4 * r, color);
  }

  /** Decoding the glyph of the window at (x, y) recovers each dot of it. */
  lemma GlyphDot(d: Dots, x: int, y: int, dx: int, dy: int)
    requires 0 <= dx < 2 && 0 <= dy < 4
    ensures Decode(PanelToDots(Window(d, x, y))[0])[2 * dy + dx] == Check(d, x + dx, y + dy)
  {
    PanelEntry(Window(d, x, y), 2 * dy + dx);
    WindowOrder(d, x, y, dx, dy);
  }

  /** Every dot inside the raster is visible: decoding the cell that covers
      dot (px, py) gives 1 at that dot's panel position exactly when the dot
      is occupied. */
  lemma DotShown(d: Dots, width: int, height: int, color: string, px: int, py: int)
    requires 0 <= px < 2 * ColCount(width) && 0 <= py < 4 * RowCount(height)
    ensures var g := Rasterise(d, width, height, color);
            var s := Strip(color, g[py / 4][px / 2]);
            |s| == 1 && IsBraille(s[0]) && Decode(s[0])[2 * (py % 4) + px % 2] == (if (px, py) in d then 1 else 0)
  {
    var r, c := py / 4, px / 2;
    assert py == 4 * r + py % 4 && px == 2 * c + px % 2;
    RasterShown(d, width, height, color, r, c);
    GlyphDot(d, 2 * c, 4 * r, px % 2, py % 4);
  }
}
