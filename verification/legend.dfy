/** The legend printed under a plot: labels are cut into coloured one-character
    cells, packed into rows no wider than the plot, padded and drawn inside a
    box of their own. */
module Legend {
  import opened Results
  import opened Colors
  import opened Layers
  import opened Box

  /** How the wrap test measures a label. The source measures the coloured
      label, escape sequences included (`Colored`); the evidently intended
      measure is the label's visible length (`Visible`). */
  datatype Measure = Colored | Visible

  function LabelLen(m: Measure, color: string, name: string): (n: nat)
    ensures n >= |name|
  {
    match m
    case Colored => |Wrap(color, name)|
    case Visible => |name|
  }

  /** One cell per character of the label, each in the label's colour. */
  function LabelCells(color: string, name: string): (r: Row)
    ensures |r| == |name|
    ensures forall j :: 0 <= j < |name| ==> r[j] == Wrap(color, [name[j]])
  {
    seq(|name|, j requires 0 <= j < |name| => Wrap(color, [name[j]]))
  }

  /** What one label adds to its row: its cells and a separating space. */
  function Entry(color: string, name: string): (r: Row)
    ensures |r| == |name| + 1 && r[|name|] == " "
    ensures forall j :: 0 <= j < |name| ==> r[j] == Wrap(color, [name[j]])
  {
    LabelCells(color, name) + [" "]
  }

  /** The colour of label k: `color_list[k % len(color_list)]`. */
  function LabelColor(palette: seq<string>, k: nat): string
    requires |palette| > 0
  {
    palette[k % |palette|]
  }

  /** The rows of cells in reading order, joined into one row. */
  function Flatten(rows: seq<Row>): Row
    decreases |rows|
  {
    if |rows| == 0 then [] else Flatten(rows[..|rows| - 1]) + rows[|rows| - 1]
  }

  /** The entries of the first n labels, in order. */
  function Entries(labels: seq<string>, palette: seq<string>, n: nat): (r: Row)
    requires |palette| > 0 && n <= |labels|
  {
    if n == 0 then [] else Entries(labels, palette, n - 1) + Entry(LabelColor(palette, n - 1), labels[n - 1])
  }

  /** Finished rows and the row being filled. */
  datatype Packing = Packing(rows: seq<Row>, current: Row)

  /** The wrap test before label n: does it fail to fit after `current`? */
  predicate Overflows(m: Measure, width: int, current: Row, color: string, name: string) {
    |current| + LabelLen(m, color, name) > width
  }

  /** The packing loop of `_plot_lables` after its first n labels. */
  function Pack(m: Measure, width: int, labels: seq<string>, palette: seq<string>, n: nat): Packing
    requires |palette| > 0 && n <= |labels|
    decreases n
  {
    if n == 0 then Packing([], [])
    else
      var p := Pack(m, width, labels, palette, n - 1);
      var color := LabelColor(palette, n - 1);
      var name := labels[n - 1];
      if Overflows(m, width, p.current, color, name)
      then Packing(p.rows + [p.current], Entry(color, name))
      else Packing(p.rows, p.current + Entry(color, name))
  }

  /** The rows `_plot_lables` builds. Indexing the palette by
      `index % len(color_list)` divides by zero when the palette is empty
      and there is a label. */
  function LabelRows(m: Measure, width: int, labels: Option<seq<string>>, palette: seq<string>): (r: Result<seq<Row>>)
    ensures r == Err(ZeroDivisionError) <==> labels.Some? && |labels.value| > 0 && |palette| == 0
    ensures r.Ok? ==> (|r.value| == 0 <==> labels.None? || |labels.value| == 0)
  {
    if labels.None? || |labels.value| == 0 then Ok([])
    else if |palette| == 0 then Err(ZeroDivisionError)
    else
      var p := Pack(m, width, labels.value, palette, |labels.value|);
      Ok(if |p.current| > 0 then p.rows + [p.current] else p.rows)
  }

  lemma FlattenAppend(rows: seq<Row>, row: Row)
    ensures Flatten(rows + [row]) == Flatten(rows) + row
  {
    assert (rows + [row])[..|rows|] == rows;
  }

  /** Packing loses and reorders nothing: the finished rows followed by the
      current row are the entries of the labels seen so far. */
  lemma {:induction false} PackKeepsOrder(m: Measure, width: int, labels: seq<string>, palette: seq<string>, n: nat)
    requires |palette| > 0 && n <= |labels|
    ensures Flatten(Pack(m, width, labels, palette, n).rows) + Pack(m, width, labels, palette, n).current
            == Entries(labels, palette, n)
  {
    if n > 0 {
      PackKeepsOrder(m, width, labels, palette, n - 1);
      PackKeepsOrderStep(m, width, labels, palette, n - 1, n);
      assert Entries(labels, palette, n) == Entries(labels, palette, n - 1) + Entry(LabelColor(palette, n - 1), labels[n - 1]);
    }
  }

  /** One packing step appends the next label's entry to the rows read in
      order, whether or not it closes the current row. */
  lemma PackKeepsOrderStep(m: Measure, width: int, labels: seq<string>, palette: seq<string>, k: nat, n: nat)
    requires |palette| > 0 && n == k + 1 && n <= |labels|
    ensures Flatten(Pack(m, width, labels, palette, n).rows) + Pack(m, width, labels, palette, n).current
            == Flatten(Pack(m, width, labels, palette, k).rows) + Pack(m, width, labels, palette, k).current
               + Entry(LabelColor(palette, k), labels[k])
  {
    var p := Pack(m, width, labels, palette, k);
    var e := Entry(LabelColor(palette, k), labels[k]);
    if Overflows(m, width, p.current, LabelColor(palette, k), labels[k]) {
      FlattenAppend(p.rows, p.current);
    } else {
      assert Flatten(p.rows) + p.current + e == Flatten(p.rows) + (p.current + e);
    }
  }

  /** Reading the legend rows in order gives every label's cells, in label
      order, each followed by a space. */
  lemma LabelsInOrder(m: Measure, width: int, labels: seq<string>, palette: seq<string>)
    requires |labels| > 0 && |palette| > 0
    ensures LabelRows(m, width, Some(labels), palette).Ok?
    ensures Flatten(LabelRows(m, width, Some(labels), palette).value) == Entries(labels, palette, |labels|)
  {
    var p := Pack(m, width, labels, palette, |labels|);
    PackKeepsOrder(m, width, labels, palette, |labels|);
    if |p.current| > 0 {
      FlattenAppend(p.rows, p.current);
    }
  }

  /** Only the wrap test before the first label can close an empty row:
      after any label the current row holds that label's entry, so every
      later row is non-empty, and the first row is empty exactly when the
      first label failed the test. */
  lemma {:induction false} PackShape(m: Measure, width: int, labels: seq<string>, palette: seq<string>, n: nat)
    requires |palette| > 0 && 0 < n <= |labels|
    ensures |Pack(m, width, labels, palette, n).current| > 0
    ensures forall i :: 1 <= i < |Pack(m, width, labels, palette, n).rows| ==> |Pack(m, width, labels, palette, n).rows[i]| > 0
    ensures (|Pack(m, width, labels, palette, n).rows| > 0 && Pack(m, width, labels, palette, n).rows[0] == [])
            <==> Overflows(m, width, [], LabelColor(palette, 0), labels[0])
  {
    if n > 1 {
      PackShape(m, width, labels, palette, n - 1);
      var p := Pack(m, width, labels, palette, n - 1);
      var q := Pack(m, width, labels, palette, n);
      if Overflows(m, width, p.current, LabelColor(palette, n - 1), labels[n - 1]) {
        assert q.rows == p.rows + [p.current];
        assert forall i :: 0 <= i < |p.rows| ==> q.rows[i] == p.rows[i];
      }
    }
  }

  /** A leading empty row appears exactly when the first label fails the
      wrap test against the empty row; every other row holds a label. */
  lemma LeadingEmptyRow(m: Measure, width: int, labels: seq<string>, palette: seq<string>)
    requires |labels| > 0 && |palette| > 0
    ensures LabelRows(m, width, Some(labels), palette).Ok?
    ensures var rows := LabelRows(m, width, Some(labels), palette).value;
            (rows[0] == [] <==> LabelLen(m, LabelColor(palette, 0), labels[0]) > width)
            && forall i :: 1 <= i < |rows| ==> |rows[i]| > 0
  {
    var p := Pack(m, width, labels, palette, |labels|);
    PackShape(m, width, labels, palette, |labels|);
    var rows := p.rows + [p.current];
    assert forall i :: 0 <= i < |p.rows| ==> rows[i] == p.rows[i];
  }

  /** When every label is at most `width` characters long, no row is longer
      than `width + 1` cells, whichever measure the wrap test uses. */
  lemma {:induction false} PackBound(m: Measure, width: int, labels: seq<string>, palette: seq<string>, n: nat)
    requires |palette| > 0 && 0 < n <= |labels|
    requires forall k :: 0 <= k < |labels| ==> |labels[k]| <= width
    ensures |Pack(m, width, labels, palette, n).current| <= width + 1
    ensures forall i :: 0 <= i < |Pack(m, width, labels, palette, n).rows| ==> |Pack(m, width, labels, palette, n).rows[i]| <= width + 1
  {
    if n > 1 {
      PackBound(m, width, labels, palette, n - 1);
    } else {
      assert |labels[0]| <= width;
    }
    PackBoundStep(m, width, labels, palette, n - 1, n);
  }

  /** One step of the bound: a row closed before label n - 1 is the previous
      current row, and the new current row stays within `width + 1`. */
  lemma PackBoundStep(m: Measure, width: int, labels: seq<string>, palette: seq<string>, k: nat, n: nat)
    requires |palette| > 0 && n == k + 1 && n <= |labels|
    requires |labels[k]| <= width
    requires |Pack(m, width, labels, palette, k).current| <= width + 1
    requires forall i :: 0 <= i < |Pack(m, width, labels, palette, k).rows| ==> |Pack(m, width, labels, palette, k).rows[i]| <= width + 1
    ensures |Pack(m, width, labels, palette, n).current| <= width + 1
    ensures forall i :: 0 <= i < |Pack(m, width, labels, palette, n).rows| ==> |Pack(m, width, labels, palette, n).rows[i]| <= width + 1
  {
    var p := Pack(m, width, labels, palette, k);
    var q := Pack(m, width, labels, palette, n);
    if Overflows(m, width, p.current, LabelColor(palette, k), labels[k]) {
      assert q.rows == p.rows + [p.current];
      assert forall i :: 0 <= i < |p.rows| ==> q.rows[i] == p.rows[i];
    }
  }

  /** Every visible cell of the label rows lies within `width + 1` columns,
      that is within the legend box, right border included. */
  predicate RowsFit(rows: seq<Row>, width: int) {
    forall i, j :: 0 <= i < |rows| && 0 <= j < |rows[i]| && !Transparent(rows[i][j]) ==> j <= width
  }

  lemma RowsFitByLength(rows: seq<Row>, width: int)
    requires forall i :: 0 <= i < |rows| ==> |rows[i]| <= width + 1
    ensures RowsFit(rows, width)
  {
  }

  /** The padded rows can be painted over the legend box exactly when they
      fit inside it. */
  lemma FitsIffRowsFit(rows: seq<Row>, width: int)
    requires |rows| > 0
    ensures PadLayer(rows).Ok?
    ensures Fits(CreateBox(width + 2, |rows| + 2, Yellow), PadLayer(rows).value) <==> RowsFit(rows, width)
  {
    var box := CreateBox(width + 2, |rows| + 2, Yellow);
    var padded := PadLayer(rows).value;
    if Fits(box, padded) {
      forall i, j | 0 <= i < |rows| && 0 <= j < |rows[i]| && !Transparent(rows[i][j])
        ensures j <= width
      {
        assert padded[i + 1][j + 1] == rows[i][j];
        assert OpaqueAt(padded, i + 1, j + 1);
      }
    }
    if RowsFit(rows, width) {
      PadBorderTransparent(rows);
      forall r, c | 0 <= r < |padded| && 0 <= c < |padded[r]| && OpaqueAt(padded, r, c)
        ensures r < |box| && c < |box[r]|
      {
        assert padded[r][c] == rows[r - 1][c - 1];
      }
    }
  }

  /** `_plot_lables`: the label rows, padded and painted over a box as wide
      as the plot. With no labels the padding step fails on the empty row
      list; a visible cell beyond the box fails the compositing. */
  function Legend(m: Measure, width: int, labels: Option<seq<string>>, palette: seq<string>): (r: Result<Grid>)
    ensures labels.None? || |labels.value| == 0 ==> r == Err(IndexError)
    ensures labels.Some? && |labels.value| > 0 && |palette| == 0 ==> r == Err(ZeroDivisionError)
    ensures labels.Some? && |labels.value| > 0 && |palette| > 0 ==>
              (r.Ok? <==> RowsFit(LabelRows(m, width, labels, palette).value, width))
    ensures labels.Some? && |labels.value| > 0 && |palette| > 0 && r.Err? ==> r.error == IndexError
    ensures r.Ok? ==> |r.value| == |LabelRows(m, width, labels, palette).value| + 2
    ensures r.Ok? ==> forall i :: 0 <= i < |r.value| ==> |r.value[i]| == Count(width + 2)
  {
    var rows :- LabelRows(m, width, labels, palette);
    var box := CreateBox(width + 2, |rows| + 2, Yellow);
    var padded :- PadLayer(rows);
    FitsIffRowsFit(rows, width);
    CombineLayers([box, padded])
  }

  /** Every visible label cell appears in the legend one row and one column
      in from the border. */
  lemma LegendShowsLabels(m: Measure, width: int, labels: seq<string>, palette: seq<string>)
    ensures Legend(m, width, Some(labels), palette).Ok? ==>
            var rows := LabelRows(m, width, Some(labels), palette).value;
            forall i, j :: 0 <= i < |rows| && 0 <= j < |rows[i]| && !Transparent(rows[i][j]) ==>
              Legend(m, width, Some(labels), palette).value[i + 1][j + 1] == rows[i][j]
  {
    if Legend(m, width, Some(labels), palette).Ok? {
      var rows := LabelRows(m, width, Some(labels), palette).value;
      FitsIffRowsFit(rows, width);
      var box := CreateBox(width + 2, |rows| + 2, Yellow);
      assert Legend(m, width, Some(labels), palette) == CombineLayers([box, PadLayer(rows).value]);
      forall i, j | 0 <= i < |rows| && 0 <= j < |rows[i]| && !Transparent(rows[i][j])
        ensures Legend(m, width, Some(labels), palette).value[i + 1][j + 1] == rows[i][j]
      {
        PaddedShown(rows, width, i, j);
      }
    }
  }

  /** A visible cell of rows that fit shows through the legend box, one row
      and one column in from its border. */
  lemma PaddedShown(rows: seq<Row>, width: int, i: int, j: int)
    requires |rows| > 0 && RowsFit(rows, width)
    requires 0 <= i < |rows| && 0 <= j < |rows[i]| && !Transparent(rows[i][j])
    ensures PadLayer(rows).Ok?
    ensures CombineLayers([CreateBox(width + 2, |rows| + 2, Yellow), PadLayer(rows).value]).Ok?
    ensures CombineLayers([CreateBox(width + 2, |rows| + 2, Yellow), PadLayer(rows).value]).value[i + 1][j + 1] == rows[i][j]
  {
    FitsIffRowsFit(rows, width);
    var box := CreateBox(width + 2, |rows| + 2, Yellow);
    var padded := PadLayer(rows).value;
    assert [box, padded][1..] == [padded];
    var none: seq<Grid> := [];
    assert [padded][..0] == none;
    assert OpaqueAt(padded, i + 1, j + 1);
  }

  /** A cell of the padded rows that is not one of the visible label cells
      is transparent. */
  lemma PaddedCellClear(rows: seq<Row>, r: int, c: int)
    requires |rows| > 0
    requires !(1 <= r <= |rows| && 1 <= c <= |rows[r - 1]| && !Transparent(rows[r - 1][c - 1]))
    ensures PadLayer(rows).Ok? && !OpaqueAt(PadLayer(rows).value, r, c)
  {
    PadBorderTransparent(rows);
  }

  /** Every legend cell that is not a visible label cell keeps the box's
      cell: its border, or a blank of its interior. */
  lemma PaddedKeepsBox(rows: seq<Row>, width: int, r: int, c: int)
    requires |rows| > 0 && RowsFit(rows, width)
    requires 0 <= r < |rows| + 2 && 0 <= c < Count(width + 2)
    requires !(1 <= r <= |rows| && 1 <= c <= |rows[r - 1]| && !Transparent(rows[r - 1][c - 1]))
    ensures PadLayer(rows).Ok?
    ensures CombineLayers([CreateBox(width + 2, |rows| + 2, Yellow), PadLayer(rows).value]).Ok?
    ensures CombineLayers([CreateBox(width + 2, |rows| + 2, Yellow), PadLayer(rows).value]).value[r][c]
            == CreateBox(width + 2, |rows| + 2, Yellow)[r][c]
  {
    FitsIffRowsFit(rows, width);
    PaddedCellClear(rows, r, c);
    var box := CreateBox(width + 2, |rows| + 2, Yellow);
    var padded := PadLayer(rows).value;
    assert [box, padded][1..] == [padded];
    var none: seq<Grid> := [];
    assert [padded][..0] == none;
    assert Topmost(box, [padded], r, c) == Topmost(box, none, r, c);
  }

  /** When no label is longer than `width`, no legend row is longer than
      `width + 1` cells. */
  lemma LabelRowsBound(m: Measure, width: int, labels: seq<string>, palette: seq<string>)
    requires |labels| > 0 && |palette| > 0
    requires forall k :: 0 <= k < |labels| ==> |labels[k]| <= width
    ensures LabelRows(m, width, Some(labels), palette).Ok?
    ensures forall i :: 0 <= i < |LabelRows(m, width, Some(labels), palette).value| ==>
              |LabelRows(m, width, Some(labels), palette).value[i]| <= width + 1
  {
    var p := Pack(m, width, labels, palette, |labels|);
    PackBound(m, width, labels, palette, |labels|);
    PackShape(m, width, labels, palette, |labels|);
    var rows := p.rows + [p.current];
    assert LabelRows(m, width, Some(labels), palette).value == rows;
    assert forall i :: 0 <= i < |p.rows| ==> rows[i] == p.rows[i];
  }

  /** With at least one label, a colour, and no label wider than the plot,
      the legend is drawn. */
  lemma LegendDrawn(m: Measure, width: int, labels: seq<string>, palette: seq<string>)
    requires |labels| > 0 && |palette| > 0
    requires forall k :: 0 <= k < |labels| ==> |labels[k]| <= width
    ensures Legend(m, width, Some(labels), palette).Ok?
  {
    LabelRowsBound(m, width, labels, palette);
    RowsFitByLength(LabelRows(m, width, Some(labels), palette).value, width);
  }

  // ---- the wrap test of lines 146-148 ----

  /** As written, the wrap test counts the colour's escape bytes: two
      one-letter labels, four cells in all, are split over two rows of a
      ten-column legend. */
  lemma ColoredSplitsShortLabels()
    ensures LabelRows(Colored, 10, Some(["a", "b"]), DefaultPalette)
         == Ok([[Wrap(Blue, "a"), " "], [Wrap(Green, "b"), " "]])
  {
    var labels := ["a", "b"];
    assert |Wrap(Blue, "a")| == 10 && |Wrap(Green, "b")| == 10;
    var p1 := Pack(Colored, 10, labels, DefaultPalette, 1);
    assert p1 == Packing([], [Wrap(Blue, "a"), " "]);
    var p2 := Pack(Colored, 10, labels, DefaultPalette, 2);
    assert p2 == Packing([[Wrap(Blue, "a"), " "]], [Wrap(Green, "b"), " "]);
    assert LabelRows(Colored, 10, Some(labels), DefaultPalette) == Ok(p2.rows + [p2.current]);
    assert p2.rows + [p2.current] == [[Wrap(Blue, "a"), " "], [Wrap(Green, "b"), " "]];
  }

  /** Under either measure a label one character longer than `width` goes on
      a row of its own, after an empty first row. */
  lemma LongLabelRows(m: Measure)
    ensures LabelRows(m, 2, Some(["abc"]), [Blue])
         == Ok([[], [Wrap(Blue, "a"), Wrap(Blue, "b"), Wrap(Blue, "c"), " "]])
  {
    var labels, palette := ["abc"], [Blue];
    var e := [Wrap(Blue, "a"), Wrap(Blue, "b"), Wrap(Blue, "c"), " "];
    assert Entry(Blue, "abc") == e;
    var empty: Row := [];
    var p := Pack(m, 2, labels, palette, 1);
    assert Overflows(m, 2, empty, LabelColor(palette, 0), labels[0]);
    assert p == Packing([empty], e);
    assert p.rows + [p.current] == [empty, e];
  }

  /** The last letter of that label is painted over the right border of the
      legend box instead of failing. */
  lemma LongLabelOnBorder(m: Measure)
    ensures Legend(m, 2, Some(["abc"]), [Blue]).Ok?
    ensures Legend(m, 2, Some(["abc"]), [Blue]).value[2][3] == Wrap(Blue, "c")
    ensures CreateBox(4, 4, Yellow)[2][3] == Wrap(Yellow, Vertical)
  {
    var rows: seq<Row> := [[], [Wrap(Blue, "a"), Wrap(Blue, "b"), Wrap(Blue, "c"), " "]];
    LongLabelRows(m);
    assert RowsFit(rows, 2);
    PaddedShown(rows, 2, 1, 2);
    FitsIffRowsFit(rows, 2);
    assert Legend(m, 2, Some(["abc"]), [Blue]) == CombineLayers([CreateBox(4, 4, Yellow), PadLayer(rows).value]);
  }

  /** Measured by visible length, the same labels share one row. */
  lemma VisibleKeepsShortLabels()
    ensures LabelRows(Visible, 10, Some(["a", "b"]), DefaultPalette)
         == Ok([[Wrap(Blue, "a"), " ", Wrap(Green, "b"), " "]])
  {
    var labels := ["a", "b"];
    var p1 := Pack(Visible, 10, labels, DefaultPalette, 1);
    assert p1 == Packing([], [Wrap(Blue, "a"), " "]);
    var p2 := Pack(Visible, 10, labels, DefaultPalette, 2);
    assert p2 == Packing([], [Wrap(Blue, "a"), " "] + [Wrap(Green, "b"), " "]);
    assert [Wrap(Blue, "a"), " "] + [Wrap(Green, "b"), " "] == [Wrap(Blue, "a"), " ", Wrap(Green, "b"), " "];
    assert LabelRows(Visible, 10, Some(labels), DefaultPalette) == Ok(p2.rows + [p2.current]);
    assert p2.rows + [p2.current] == [[Wrap(Blue, "a"), " ", Wrap(Green, "b"), " "]];
  }

  /** Measured by visible length, the row is cut only when the labels do
      not fit: while the entries so far span at most `width + 1` cells no
      row has been closed and the current row holds all of them. */
  lemma {:induction false} VisibleNoEarlyWrap(width: int, labels: seq<string>, palette: seq<string>, n: nat)
    requires |palette| > 0 && n <= |labels|
    requires |Entries(labels, palette, n)| <= width + 1
    ensures Pack(Visible, width, labels, palette, n).rows == []
    ensures Pack(Visible, width, labels, palette, n).current == Entries(labels, palette, n)
  {
    if n > 0 {
      VisibleNoEarlyWrap(width, labels, palette, n - 1);
    }
  }

  /** Labels whose entries fit in `width + 1` cells make a one-row legend. */
  lemma VisibleOneRow(width: int, labels: seq<string>, palette: seq<string>)
    requires |labels| > 0 && |palette| > 0
    requires |Entries(labels, palette, |labels|)| <= width + 1
    ensures LabelRows(Visible, width, Some(labels), palette) == Ok([Entries(labels, palette, |labels|)])
  {
    VisibleNoEarlyWrap(width, labels, palette, |labels|);
    PackShape(Visible, width, labels, palette, |labels|);
    var p := Pack(Visible, width, labels, palette, |labels|);
    assert LabelRows(Visible, width, Some(labels), palette) == Ok(p.rows + [p.current]);
    assert p.rows + [p.current] == [Entries(labels, palette, |labels|)];
  }
}
