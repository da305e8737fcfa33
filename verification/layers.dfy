/** Layers are grids of rendered cells (one string per terminal cell). This
    module holds the layer operations: padding, compositing and horizontal
    concatenation. */
module Layers {
  import opened Results
  import Braille

  type Row = seq<string>
  type Grid = seq<Row>

  /** A plain space and the blank braille glyph let lower layers show through. */
  predicate Transparent(s: string) {
    s == " " || s == Braille.Blank
  }

  /** Cell (r, c) exists in `g` and hides what lies below it. */
  predicate OpaqueAt(g: Grid, r: int, c: int) {
    0 <= r < |g| && 0 <= c < |g[r]| && !Transparent(g[r][c])
  }

  /** `g` has `rows` rows of `cols` cells each. */
  predicate Rect(g: Grid, rows: int, cols: int) {
    |g| == rows && forall r :: 0 <= r < |g| ==> |g[r]| == cols
  }

  predicate SameShape(a: Grid, b: Grid) {
    |a| == |b| && forall r :: 0 <= r < |a| ==> |a[r]| == |b[r]|
  }

  function Spaces(n: nat): (r: Row)
    ensures |r| == n && forall j :: 0 <= j < n ==> r[j] == " "
  {
    seq(n, _ => " ")
  }

  // ---- _pad_layer ----

  /** Surrounds a layer with a one-cell border of spaces. The border rows are
      as wide as the first row plus two; an empty layer has no first row. */
  function PadLayer(layer: Grid): (r: Result<Grid>)
    ensures r.Err? <==> |layer| == 0
    ensures r.Err? ==> r.error == IndexError
    ensures r.Ok? ==> |r.value| == |layer| + 2
    ensures r.Ok? ==> r.value[0] == Spaces(|layer[0]| + 2) && r.value[|layer| + 1] == Spaces(|layer[0]| + 2)
    ensures r.Ok? ==> forall i :: 0 <= i < |layer| ==>
              |r.value[i + 1]| == |layer[i]| + 2 && r.value[i + 1][0] == " " && r.value[i + 1][|layer[i]| + 1] == " "
    ensures r.Ok? ==> forall i, j :: 0 <= i < |layer| && 0 <= j < |layer[i]| ==> r.value[i + 1][j + 1] == layer[i][j]
  {
    if |layer| == 0 then Err(IndexError)
    else
      var width := |layer[0]|;
      var middle := seq(|layer|, i requires 0 <= i < |layer| => [" "] + layer[i] + [" "]);
      Ok([Spaces(width + 2)] + middle + [Spaces(width + 2)])
  }

  /** Strips a one-cell border: the inverse of padding. */
  function Unpad(g: Grid): Grid
    requires |g| >= 2 && forall i :: 0 <= i < |g| ==> |g[i]| >= 2
  {
    seq(|g| - 2, i requires 0 <= i < |g| - 2 => g[i + 1][1..|g[i + 1]| - 1])
  }

  /** Padding loses nothing: removing the border gives the layer back. */
  lemma UnpadPad(layer: Grid)
    requires |layer| > 0
    ensures PadLayer(layer).Ok?
    ensures Unpad(PadLayer(layer).value) == layer
  {
    var p := PadLayer(layer).value;
    forall i | 0 <= i < |layer|
      ensures p[i + 1][1..|p[i + 1]| - 1] == layer[i]
    {
    }
  }

  /** A non-empty r x w layer pads to (r+2) x (w+2) and its border is transparent. */
  lemma PadRect(layer: Grid, rows: int, cols: int)
    requires rows > 0 && Rect(layer, rows, cols)
    ensures PadLayer(layer).Ok? && Rect(PadLayer(layer).value, rows + 2, cols + 2)
    ensures forall i, j :: 0 <= i < rows + 2 && 0 <= j < cols + 2 && (i == 0 || i == rows + 1 || j == 0 || j == cols + 1)
              ==> !OpaqueAt(PadLayer(layer).value, i, j)
  {
  }

  /** The border that padding adds is never opaque. */
  lemma PadBorderTransparent(rows: Grid)
    requires |rows| > 0
    ensures PadLayer(rows).Ok?
    ensures forall r, c :: OpaqueAt(PadLayer(rows).value, r, c) ==>
              1 <= r <= |rows| && 1 <= c <= |rows[r - 1]|
  {
    var padded := PadLayer(rows).value;
    forall r, c | 0 <= r < |padded| && 0 <= c < |padded[r]| && !(1 <= r <= |rows| && 1 <= c <= |rows[r - 1]|)
      ensures !OpaqueAt(padded, r, c)
    {
      if r == 0 || r == |rows| + 1 {
        assert padded[r] == Spaces(|rows[0]| + 2);
      } else {
        assert |padded[r]| == |rows[r - 1]| + 2;
      }
    }
  }

  // ---- _combine_layers ----

  /** Every opaque cell of `top` lands on a cell of `base`; otherwise the
      source's write `out[line_index][char_index]` is out of range. */
  predicate Fits(base: Grid, top: Grid) {
    forall r, c :: 0 <= r < |top| && 0 <= c < |top[r]| && OpaqueAt(top, r, c) ==> r < |base| && c < |base[r]|
  }

  /** Paints the opaque cells of `top` over `base`. */
  function Paint(base: Grid, top: Grid): (r: Grid)
    requires Fits(base, top)
    ensures SameShape(r, base)
    ensures forall i, j :: 0 <= i < |base| && 0 <= j < |base[i]| ==>
              r[i][j] == if OpaqueAt(top, i, j) then top[i][j] else base[i][j]
  {
    seq(|base|, i requires 0 <= i < |base| =>
      seq(|base[i]|, j requires 0 <= j < |base[i]| => if OpaqueAt(top, i, j) then top[i][j] else base[i][j]))
  }

  lemma FitsSameShape(a: Grid, b: Grid, top: Grid)
    requires SameShape(a, b) && Fits(b, top)
    ensures Fits(a, top)
  {
  }

  /** Paints `layers` over `base`, bottom to top. */
  function Stack(base: Grid, layers: seq<Grid>): (r: Grid)
    requires forall k :: 0 <= k < |layers| ==> Fits(base, layers[k])
    ensures SameShape(r, base)
    decreases |layers|
  {
    if |layers| == 0 then base
    else
      var below := Stack(base, layers[..|layers| - 1]);
      FitsSameShape(below, base, layers[|layers| - 1]);
      Paint(below, layers[|layers| - 1])
  }

  /** Reference definition of one composited cell: the cell of the last layer
      that is opaque there, or the base cell when none is. */
  function Topmost(base: Grid, layers: seq<Grid>, r: int, c: int): string
    requires 0 <= r < |base| && 0 <= c < |base[r]|
    decreases |layers|
  {
    if |layers| == 0 then base[r][c]
    else if OpaqueAt(layers[|layers| - 1], r, c) then layers[|layers| - 1][r][c]
    else Topmost(base, layers[..|layers| - 1], r, c)
  }

  /** When no layer is opaque at a cell, the base shows. */
  lemma {:induction false} TopmostNoneOpaque(base: Grid, layers: seq<Grid>, r: int, c: int)
    requires 0 <= r < |base| && 0 <= c < |base[r]|
    requires forall k :: 0 <= k < |layers| ==> !OpaqueAt(layers[k], r, c)
    ensures Topmost(base, layers, r, c) == base[r][c]
    decreases |layers|
  {
    if |layers| > 0 {
      var n := |layers| - 1;
      assert forall k :: 0 <= k < n ==> layers[..n][k] == layers[k];
      TopmostNoneOpaque(base, layers[..n], r, c);
    }
  }

  /** When layer k is opaque at a cell and every later layer is transparent
      there, layer k shows. */
  lemma {:induction false} TopmostLastOpaque(base: Grid, layers: seq<Grid>, r: int, c: int, k: int)
    requires 0 <= r < |base| && 0 <= c < |base[r]|
    requires 0 <= k < |layers| && OpaqueAt(layers[k], r, c)
    requires forall m :: k < m < |layers| ==> !OpaqueAt(layers[m], r, c)
    ensures Topmost(base, layers, r, c) == layers[k][r][c]
    decreases |layers|
  {
    var n := |layers| - 1;
    if k < n {
      assert forall m :: k < m < n ==> layers[..n][m] == layers[m];
      TopmostLastOpaque(base, layers[..n], r, c, k);
    }
  }

  lemma {:induction false} StackIsTopmost(base: Grid, layers: seq<Grid>)
    requires forall k :: 0 <= k < |layers| ==> Fits(base, layers[k])
    ensures forall r, c :: 0 <= r < |base| && 0 <= c < |base[r]| ==> Stack(base, layers)[r][c] == Topmost(base, layers, r, c)
    decreases |layers|
  {
    if |layers| > 0 {
      StackIsTopmost(base, layers[..|layers| - 1]);
    }
  }

  /** `_combine_layers`: the first layer is the base; every later layer is
      painted over it in order. It fails on an empty stack and when an
      opaque cell of a later layer lies outside the base. */
  function CombineLayers(stack: seq<Grid>): (r: Result<Grid>)
    ensures r.Ok? <==> |stack| > 0 && forall k :: 1 <= k < |stack| ==> Fits(stack[0], stack[k])
    ensures r.Err? ==> r.error == IndexError
    ensures r.Ok? ==> SameShape(r.value, stack[0])
    ensures r.Ok? ==> forall i, j :: 0 <= i < |stack[0]| && 0 <= j < |stack[0][i]| ==>
              r.value[i][j] == Topmost(stack[0], stack[1..], i, j)
  {
    if |stack| == 0 then Err(IndexError)
    else if forall k :: 1 <= k < |stack| ==> Fits(stack[0], stack[k]) then
      StackIsTopmost(stack[0], stack[1..]);
      Ok(Stack(stack[0], stack[1..]))
    else Err(IndexError)
  }

  /** A top layer without opaque cells leaves the composite unchanged. */
  lemma TransparentTopLeavesBase(stack: seq<Grid>, top: Grid)
    requires |stack| > 0
    requires forall r, c :: !OpaqueAt(top, r, c)
    ensures CombineLayers(stack + [top]) == CombineLayers(stack)
  {
    var s := stack + [top];
    assert s[1..][..|s| - 2] == stack[1..];
    assert forall k :: 0 <= k < |stack| ==> s[k] == stack[k];
    if CombineLayers(stack).Ok? {
      assert Fits(s[0], top);
      assert CombineLayers(s).Ok?;
      var a, b := CombineLayers(s).value, CombineLayers(stack).value;
      forall i, j | 0 <= i < |a| && 0 <= j < |a[i]|
        ensures a[i][j] == b[i][j]
      {
        assert s[1..][|s| - 2] == top;
      }
      GridExt(a, b);
    } else {
      var k :| 1 <= k < |stack| && !Fits(stack[0], stack[k]);
      assert !Fits(s[0], s[k]);
    }
  }

  /** Combining a layer with itself gives the layer. */
  lemma CombineSelf(a: Grid)
    ensures CombineLayers([a, a]) == Ok(a)
  {
    var s := [a, a];
    assert Fits(s[0], s[1]);
    var out := CombineLayers(s).value;
    var none: seq<Grid> := [];
    assert s[1..] == [a] && [a][..0] == none;
    forall i, j | 0 <= i < |a| && 0 <= j < |a[i]|
      ensures out[i][j] == a[i][j]
    {
      assert out[i][j] == Topmost(a, [a], i, j);
      if !OpaqueAt(a, i, j) {
        assert Topmost(a, [a], i, j) == Topmost(a, none, i, j);
      }
    }
    GridExt(out, a);
  }

  /** When both ways of compositing succeed they give the same grid. */
  lemma StagesAgree(s: seq<Grid>, t: seq<Grid>, m: Grid)
    requires |s| > 0 && CombineLayers(s) == Ok(m)
    requires CombineLayers(s + t).Ok? && CombineLayers([m] + t).Ok?
    ensures CombineLayers(s + t).value == CombineLayers([m] + t).value
  {
    var st, mt := s + t, [m] + t;
    var a, b := CombineLayers(st).value, CombineLayers(mt).value;
    forall i, j | 0 <= i < |a| && 0 <= j < |a[i]|
      ensures a[i][j] == b[i][j]
    {
      assert st[1..] == s[1..] + t;
      TopmostAppend(s[0], s[1..], t, m, i, j);
      assert mt[1..] == t;
    }
    GridExt(a, b);
  }

  /** Compositing a stack in two stages gives the same grid as at once. */
  lemma {:induction false} CombineInStages(s: seq<Grid>, t: seq<Grid>)
    requires |s| > 0
    ensures CombineLayers(s + t)
         == match CombineLayers(s)
            case Err(e) => Err(e)
            case Ok(m) => CombineLayers([m] + t)
  {
    var st := s + t;
    var m0 := CombineLayers(s);
    if m0.Ok? {
      var m := m0.value;
      var mt := [m] + t;
      forall k | 1 <= k < |mt|
        ensures Fits(m, mt[k]) <==> Fits(s[0], mt[k])
      {
        if Fits(s[0], mt[k]) { FitsSameShape(m, s[0], mt[k]); }
        if Fits(m, mt[k]) { FitsSameShape(s[0], m, mt[k]); }
      }
      assert forall k :: 1 <= k < |mt| ==> mt[k] == st[|s| - 1 + k];
      assert forall k :: 1 <= k < |s| ==> st[k] == s[k];
      if CombineLayers(mt).Ok? {
        assert CombineLayers(st).Ok?;
        StagesAgree(s, t, m);
      } else {
        var k :| 1 <= k < |mt| && !Fits(m, mt[k]);
        assert !Fits(st[0], st[|s| - 1 + k]);
      }
    } else {
      var k :| 1 <= k < |s| && !Fits(s[0], s[k]);
      assert !Fits(st[0], st[k]);
    }
  }

  lemma GridExt(a: Grid, b: Grid)
    requires SameShape(a, b)
    requires forall i, j :: 0 <= i < |a| && 0 <= j < |a[i]| ==> a[i][j] == b[i][j]
    ensures a == b
  {
    forall i | 0 <= i < |a| ensures a[i] == b[i] { }
  }

  /** Compositing `u + t` over `base` is compositing `t` over any grid that
      already shows the composite of `u` at that cell. */
  lemma {:induction false} TopmostAppend(base: Grid, u: seq<Grid>, t: seq<Grid>, m: Grid, r: int, c: int)
    requires 0 <= r < |base| && 0 <= c < |base[r]|
    requires 0 <= r < |m| && 0 <= c < |m[r]|
    requires m[r][c] == Topmost(base, u, r, c)
    ensures Topmost(base, u + t, r, c) == Topmost(m, t, r, c)
    decreases |t|
  {
    if |t| == 0 {
      assert u + t == u;
    } else {
      var n := |t| - 1;
      assert (u + t)[..|u + t| - 1] == u + t[..n];
      TopmostAppend(base, u, t[..n], m, r, c);
    }
  }

  // ---- _append_layers_h ----

  /** Row-wise concatenation, stopping at the shorter of the two layers. */
  function AppendLayersH(a: Grid, b: Grid): (r: Grid)
    ensures |r| == if |a| <= |b| then |a| else |b|
    ensures forall i :: 0 <= i < |r| ==>
              |r[i]| == |a[i]| + |b[i]| && r[i][..|a[i]|] == a[i] && r[i][|a[i]|..] == b[i]
  {
    var n := if |a| <= |b| then |a| else |b|;
    seq(n, i requires 0 <= i < n => a[i] + b[i])
  }

  /** Two layers with the same number of rows concatenate into one whose rows
      are as wide as both together. */
  lemma AppendRect(a: Grid, b: Grid, rows: int, wa: int, wb: int)
    requires Rect(a, rows, wa) && Rect(b, rows, wb)
    ensures Rect(AppendLayersH(a, b), rows, wa + wb)
  {
  }
}
