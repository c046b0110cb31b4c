/**
  The search for a default width of an HTML label: the width is built bit by bit, from
  the highest one down, against a layout engine that reports the extents of the text at a
  given width. Widths are 12-bit words because the source builds them with & and |.
 */
module WidthSearch {

  /** The extents of the laid out text. */
  datatype Dims = Dims(w: int, h: int)

  function Ratio(d: Dims): real
    requires d.h != 0
  {
    d.w as real / d.h as real
  }

  /** ar > 4.0; a zero height makes ar infinite or, for a zero width, not a number. */
  predicate TooWide(d: Dims) {
    if d.h == 0 then d.w > 0 else Ratio(d) > 4.0
  }

  /** ar >= 3.5 && ar < 4.0 */
  predicate Fits(d: Dims) {
    d.h != 0 && Ratio(d) >= 3.5 && Ratio(d) < 4.0
  }

  /** The two tests without division, for a text with a height. */
  lemma RatioMeaning(d: Dims)
    ensures d.h > 0 ==> (TooWide(d) <==> d.w > 4 * d.h) && (Fits(d) <==> 7 * d.h <= 2 * d.w && d.w < 4 * d.h)
    ensures d.h < 0 ==> (TooWide(d) <==> d.w < 4 * d.h) && (Fits(d) <==> 2 * d.w <= 7 * d.h && d.w > 4 * d.h)
    ensures d.h == 0 ==> (TooWide(d) <==> d.w > 0) && !Fits(d)
  {
    if d.h != 0 {
      CompareRatio(d, 4.0);
      CompareRatio(d, 3.5);
      assert 4.0 * d.h as real == (4 * d.h) as real && 2.0 * (3.5 * d.h as real) == (7 * d.h) as real;
      assert 2.0 * d.w as real == (2 * d.w) as real;
    }
  }

  lemma CompareRatio(d: Dims, c: real)
    requires d.h != 0
    ensures d.h > 0 ==> (Ratio(d) > c <==> d.w as real > c * d.h as real) && (Ratio(d) < c <==> d.w as real < c * d.h as real)
    ensures d.h < 0 ==> (Ratio(d) > c <==> d.w as real < c * d.h as real) && (Ratio(d) < c <==> d.w as real > c * d.h as real)
  {
    var q, h := Ratio(d), d.h as real;
    assert d.w as real == q * h;
    Scaled(q, c, h);
    Scaled(c, q, h);
  }

  lemma Scaled(a: real, b: real, h: real)
    ensures a < b && h > 0.0 ==> a * h < b * h
    ensures a < b && h < 0.0 ==> a * h > b * h
  {
  }

  /** Text that is too wide for its height at some width is so at every larger width. */
  ghost predicate Monotone(layout: bv12 -> Dims) {
    forall v: bv12, u: bv12 :: v <= u < 2048 && TooWide(layout(v)) ==> TooWide(layout(u))
  }

  /** w sits at the edge: one less is not too wide, one more is. */
  ghost predicate AtEdge(layout: bv12 -> Dims, w: bv12) {
    && 1 <= w <= 2047
    && (w == 1 || !TooWide(layout(w - 1)))
    && (w == 2047 || TooWide(layout(w + 1)))
  }

  predicate IsMask(m: bv12) {
    m == 1024 || m == 512 || m == 256 || m == 128 || m == 64 || m == 32 || m == 16 || m == 8 || m == 4 || m == 2 || m == 1
  }

  /** The bits above the mask are decided, the mask bit is set on trial, the bits below are clear. */
  predicate OnTrial(w: bv12, m: bv12) {
    IsMask(m) && w < 2048 && w & m == m && w & (m - 1) == 0
  }

  lemma BitStep(w: bv12, m: bv12)
    requires OnTrial(w, m) && m != 1
    ensures OnTrial((w & !m) | (m >> 1), m >> 1) && OnTrial(w | (m >> 1), m >> 1)
    ensures ((w & !m) | (m >> 1)) - (m >> 1) == w - m && ((w & !m) | (m >> 1)) + (m >> 1) == w
    ensures (w | (m >> 1)) - (m >> 1) == w && (w | (m >> 1)) + (m >> 1) == w + m
  {
  }

  /** The bounds around the width on trial: the decided part is narrow enough, and twice the mask more is too much. */
  ghost predicate Bracketed(layout: bv12 -> Dims, w: bv12, m: bv12) {
    && OnTrial(w, m)
    && (w - m == 0 || !TooWide(layout(w - m)))
    && (w + m == 2048 || TooWide(layout(w + m)))
  }

  /** The mask in the i-th round. */
  function MaskOf(i: nat): (m: bv12)
    requires i <= 10
  {
    if i == 0 then 1024 else if i == 1 then 512 else if i == 2 then 256 else if i == 3 then 128
    else if i == 4 then 64 else if i == 5 then 32 else if i == 6 then 16 else if i == 7 then 8
    else if i == 8 then 4 else if i == 9 then 2 else 1
  }

  lemma MaskHalves(i: nat)
    requires i < 10
    ensures MaskOf(i) != 1 && MaskOf(i) >> 1 == MaskOf(i + 1)
  {
  }

  lemma BracketFacts(layout: bv12 -> Dims, w: bv12, m: bv12)
    ensures Bracketed(layout, 1024, 1024)
    ensures Bracketed(layout, w, m) ==> 1 <= w <= 2047
    ensures Bracketed(layout, w, 1) ==> AtEdge(layout, w)
  {
  }

  /** One round: a trial bit that makes the text too wide is cleared again, and the next bit is set. */
  method Round(layout: bv12 -> Dims, ghost i: nat, w: bv12, mask: bv12) returns (w': bv12, mask': bv12)
    requires Bracketed(layout, w, mask) && i < 10 && mask == MaskOf(i)
    ensures mask' == MaskOf(i + 1) && Bracketed(layout, w', mask')
  {
    hide TooWide;
    MaskHalves(i);
    BitStep(w, mask);
    w' := w;
    if TooWide(layout(w)) {
      w' := w' & !mask;
    }
    mask' := mask >> 1;
    w' := w' | mask';
  }

  /** Ten rounds of the source: the result fits the target ratio, or sits at an edge of "too wide", for any layout. */
  method SearchWidth(layout: bv12 -> Dims) returns (w: bv12)
    ensures 1 <= w <= 2047
    ensures Fits(layout(w)) || AtEdge(layout, w)
  {
    hide Fits, TooWide, MaskOf, Bracketed, AtEdge;
    w := 1024;
    var mask: bv12 := 1024;
    MaskEnds();
    BracketFacts(layout, w, mask);
    var i := 0;
    while i < 10
      invariant 0 <= i <= 10 && Bracketed(layout, w, mask)
      invariant mask == MaskOf(i)
    {
      var d := layout(w);
      if Fits(d) {
        BracketFacts(layout, w, mask);
        return;
      }
      w, mask := Round(layout, i, w, mask);
      i := i + 1;
    }
    BracketFacts(layout, w, mask);
  }

  lemma MaskEnds()
    ensures MaskOf(0) == 1024 && MaskOf(10) == 1
  {
  }

  /** With a monotone layout there is one edge: everything below it is narrow enough, everything above it is too wide. */
  lemma EdgeIsThreshold(layout: bv12 -> Dims, w: bv12, v: bv12)
    requires Monotone(layout) && AtEdge(layout, w) && 1 <= v <= 2047
    ensures v < w ==> !TooWide(layout(v))
    ensures w < v ==> TooWide(layout(v))
  {
    assert v < w ==> v <= w - 1 < 2048;
    assert w < v ==> w + 1 <= v < 2048;
  }

  /** The layout by outer width, which includes the border on both sides. */
  function Outer(layout: int -> Dims, border: int): bv12 -> Dims {
    (w: bv12) => layout(w as int - border * 2)
  }

  /** The label caches the extents that its text has at the chosen width. */
  class HtmlLabel {
    const layout: int -> Dims  // the layout engine, by text width; -1 turns wrapping off
    var noWordWrap: bool
    var useFullWidth: bool
    var width: int
    var border: int
    var maxDefaultWidth: int
    var defaultDims: Dims
    var haveDefaultDims: bool

    constructor (layout: int -> Dims, border: int, width: int)
      ensures this.layout == layout && this.border == border && this.width == width
      ensures !noWordWrap && !useFullWidth && maxDefaultWidth == -1 && !haveDefaultDims
    {
      this.layout, this.border, this.width := layout, border, width;
      noWordWrap, useFullWidth, maxDefaultWidth := false, false, -1;
      defaultDims, haveDefaultDims := Dims(0, 0), false;
    }

    method CalcDefaultDims() returns (w: int, ghost v: bv12)
      modifies this`defaultDims, this`haveDefaultDims
      ensures haveDefaultDims && defaultDims == layout(w - border * 2)
      ensures noWordWrap ==> w == -1
      ensures !noWordWrap && useFullWidth ==> w == width
      ensures !noWordWrap && !useFullWidth && maxDefaultWidth != -1 ==> w == maxDefaultWidth
      ensures !noWordWrap && !useFullWidth && maxDefaultWidth == -1 ==>
        w == v as int && 1 <= v <= 2047 && (Fits(defaultDims) || AtEdge(Outer(layout, border), v))
    {
      v := 0;
      if noWordWrap {
        w := -1;
      } else if useFullWidth {
        w := width;
      } else if maxDefaultWidth != -1 {
        w := maxDefaultWidth;
      } else {
        var found := SearchWidth(Outer(layout, border));
        w, v := found as int, found;
      }
      defaultDims := layout(w - border * 2);
      haveDefaultDims := true;
    }
  }
}
