/** The dot-panel encoder: a 2x4 occupancy panel becomes one character of the
    Unicode Braille Patterns block U+2800..U+28FF. */
module Braille {

  /** One dot of a panel, 0 (empty) or 1 (set), as the checker returns it. */
  type Bit = b: int | 0 <= b <= 1

  /** The eight dots of one terminal cell, in the order the rasteriser samples
      them: (x0,y0), (x1,y0), (x0,y1), (x1,y1), (x0,y2), (x1,y2), (x0,y3), (x1,y3). */
  type Panel = p: seq<Bit> | |p| == 8 witness [0, 0, 0, 0, 0, 0, 0, 0]

  /** First code point of the braille block. */
  const Base: int := 10240

  /** Bit position of each panel entry in the braille code point. */
  const Steps: seq<nat> := [0, 3, 1, 4, 2, 5, 6, 7]

  /** The empty braille pattern U+2800, which prints as a blank. */
  const Blank: string := "\U{2800}"

  predicate IsBraille(c: char) {
    Base <= c as int < Base + 256
  }

  function Pow2(n: nat): (r: nat)
    ensures r >= 1
  {
    if n == 0 then 1 else 2 * Pow2(n - 1)
  }

  /** Sum of 2^steps[i] * panel[i] over the zip of both sequences. */
  function WeightedSum(steps: seq<nat>, panel: seq<Bit>): nat
  {
    if |steps| == 0 || |panel| == 0 then 0
    else Pow2(steps[0]) * panel[0] + WeightedSum(steps[1..], panel[1..])
  }

  /** The code-point offset `v` of a panel. */
  function PanelValue(panel: Panel): nat
  {
    WeightedSum(Steps, panel)
  }

  /** Character of the braille block from a low nibble `a` and a high nibble `b`. */
  function HexToDots(a: int, b: int): (r: string)
    requires 0 <= a < 16 && 0 <= b < 16
    ensures |r| == 1 && IsBraille(r[0])
  {
    [(Base + b * 16 + a) as char]
  }

  /** `_panel_to_dots`: the value is split into nibbles and recombined; the
      split is the identity, so the glyph is U+2800 plus the weighted sum. */
  function PanelToDots(panel: Panel): (r: string)
    ensures |r| == 1 && IsBraille(r[0])
    ensures r[0] as int == Base + PanelValue(panel)
  {
    PanelValueBound(panel);
    var v := PanelValue(panel);
    var a := v % 16;
    var b := v / 16;
    HexToDots(a, b)
  }

  // ---- Bits of a code-point offset, least significant first ----

  function FromBits(bs: seq<Bit>): nat
  {
    if |bs| == 0 then 0 else bs[0] + 2 * FromBits(bs[1..])
  }

  function ToBits(v: nat, n: nat): (r: seq<Bit>)
    ensures |r| == n
  {
    if n == 0 then [] else [v % 2] + ToBits(v / 2, n - 1)
  }

  lemma {:induction false} FromBitsBound(bs: seq<Bit>)
    ensures FromBits(bs) < Pow2(|bs|)
  {
    if |bs| > 0 {
      FromBitsBound(bs[1..]);
    }
  }

  /** Reading back the bits of a number recovers them. */
  lemma {:induction false} ToBitsFromBits(bs: seq<Bit>)
    ensures ToBits(FromBits(bs), |bs|) == bs
  {
    if |bs| > 0 {
      var v := FromBits(bs);
      assert v % 2 == bs[0] && v / 2 == FromBits(bs[1..]);
      ToBitsFromBits(bs[1..]);
      assert ToBits(v, |bs|) == [bs[0]] + bs[1..];
    }
  }

  /** A number below 2^n is recovered from its n low bits. */
  lemma {:induction false} FromBitsToBits(v: nat, n: nat)
    requires v < Pow2(n)
    ensures FromBits(ToBits(v, n)) == v
  {
    if n > 0 {
      FromBitsToBits(v / 2, n - 1);
      assert ToBits(v, n)[1..] == ToBits(v / 2, n - 1);
    }
  }

  /** The panel entries rearranged into code-point bit order (bit j first). */
  function DotBits(p: Panel): (r: seq<Bit>)
    ensures |r| == 8
  {
    [p[0], p[2], p[4], p[1], p[3], p[5], p[6], p[7]]
  }

  /** The code point offset written out with the bit weight of each entry. */
  function Expanded(p: Panel): int
  {
    var p0: int, p1: int, p2: int, p3: int := p[0], p[1], p[2], p[3];
    var p4: int, p5: int, p6: int, p7: int := p[4], p[5], p[6], p[7];
    p0 + 8 * p1 + 2 * p2 + 16 * p3 + 4 * p4 + 32 * p5 + 64 * p6 + 128 * p7
  }

  lemma UnfoldWeightedSum(p: Panel)
    ensures WeightedSum(Steps, p) == Expanded(p)
  {
    assert Pow2(3) == 8 && Pow2(4) == 16 && Pow2(5) == 32 && Pow2(6) == 64 && Pow2(7) == 128;
    var s, q := Steps, p;
    var p0: int, p1: int, p2: int, p3: int := p[0], p[1], p[2], p[3];
    var p4: int, p5: int, p6: int, p7: int := p[4], p[5], p[6], p[7];
    assert WeightedSum(s[7..], q[7..]) == 128 * p7;
    assert WeightedSum(s[6..], q[6..]) == 64 * p6 + 128 * p7;
    assert WeightedSum(s[5..], q[5..]) == 32 * p5 + 64 * p6 + 128 * p7;
    assert WeightedSum(s[4..], q[4..]) == 4 * p4 + 32 * p5 + 64 * p6 + 128 * p7;
    assert WeightedSum(s[3..], q[3..]) == 16 * p3 + 4 * p4 + 32 * p5 + 64 * p6 + 128 * p7;
    assert WeightedSum(s[2..], q[2..]) == 2 * p2 + 16 * p3 + 4 * p4 + 32 * p5 + 64 * p6 + 128 * p7;
    assert WeightedSum(s[1..], q[1..]) == 8 * p1 + 2 * p2 + 16 * p3 + 4 * p4 + 32 * p5 + 64 * p6 + 128 * p7;
  }

  lemma UnfoldFromBits(p: Panel)
    ensures FromBits(DotBits(p)) == Expanded(p)
  {
    var b := DotBits(p);
    var p0: int, p1: int, p2: int, p3: int := p[0], p[1], p[2], p[3];
    var p4: int, p5: int, p6: int, p7: int := p[4], p[5], p[6], p[7];
    assert FromBits(b[8..]) == 0;
    assert FromBits(b[7..]) == p7;
    assert FromBits(b[6..]) == p6 + 2 * p7;
    assert FromBits(b[5..]) == p5 + 2 * p6 + 4 * p7;
    assert FromBits(b[4..]) == p3 + 2 * p5 + 4 * p6 + 8 * p7;
    assert FromBits(b[3..]) == p1 + 2 * p3 + 4 * p5 + 8 * p6 + 16 * p7;
    assert FromBits(b[2..]) == p4 + 2 * p1 + 4 * p3 + 8 * p5 + 16 * p6 + 32 * p7;
    assert FromBits(b[1..]) == p2 + 2 * p4 + 4 * p1 + 8 * p3 + 16 * p5 + 32 * p6 + 64 * p7;
  }

  /** The weighted sum through `Steps` is the binary number whose bit
      Steps[i] is panel entry i. */
  lemma PanelValueBits(p: Panel)
    ensures PanelValue(p) == FromBits(DotBits(p))
  {
    UnfoldWeightedSum(p);
    UnfoldFromBits(p);
  }

  lemma PanelValueBound(p: Panel)
    ensures PanelValue(p) < 256
  {
    UnfoldWeightedSum(p);
  }

  /** The decoder: the panel a braille character stands for. */
  function Decode(c: char): (p: Panel)
    requires IsBraille(c)
  {
    var bits := ToBits(c as int - Base, 8);
    [bits[0], bits[3], bits[1], bits[4], bits[2], bits[5], bits[6], bits[7]]
  }

  /** Decoding the glyph of a panel gives the panel back. */
  lemma DecodeEncode(p: Panel)
    ensures Decode(PanelToDots(p)[0]) == p
  {
    PanelValueBits(p);
    ToBitsFromBits(DotBits(p));
  }

  /** Decoding the glyph of a panel recovers each of its dots. */
  lemma PanelEntry(p: Panel, i: int)
    requires 0 <= i < 8
    ensures Decode(PanelToDots(p)[0])[i] == p[i]
  {
    DecodeEncode(p);
  }

  /** Every braille character is the glyph of the panel it decodes to, so the
      encoder reaches the whole block. */
  lemma EncodeDecode(c: char)
    requires IsBraille(c)
    ensures PanelToDots(Decode(c)) == [c]
  {
    var v: nat := c as int - Base;
    assert Pow2(8) == 256;
    FromBitsToBits(v, 8);
    var p := Decode(c);
    assert DotBits(p) == ToBits(v, 8);
    PanelValueBits(p);
  }

  /** Distinct panels give distinct glyphs. */
  lemma PanelToDotsInjective(p: Panel, q: Panel)
    ensures PanelToDots(p) == PanelToDots(q) <==> p == q
  {
    if PanelToDots(p) == PanelToDots(q) {
      DecodeEncode(p);
      DecodeEncode(q);
    }
  }

  /** Only the all-zero panel is encoded as the blank pattern. */
  lemma BlankIffEmpty(p: Panel)
    ensures PanelToDots(p) == Blank <==> (forall i :: 0 <= i < 8 ==> p[i] == 0)
  {
    UnfoldWeightedSum(p);
  }
}
