/**
  The gradient fill of the FOX theme: drawRectangle paints a rectangle as a stack of
  solid bands, with 16.16 fixed-point numbers for the colour channels and for the band
  edges. The model keeps the C arithmetic: division truncates toward zero and >> 16
  rounds down. Heights are below 32768, where no C int overflows.
 */
module Gradient {
  import opened Basics

  const ONE: int := 65536
  const HALF: int := 32767  // the rounding bias of the source, one short of a half
  const MAX_STEPS: int := 128

  type Channel = c: int | 0 <= c < 256

  datatype Color = Color(red: Channel, green: Channel, blue: Channel)

  /** One fillRectangle call: rows y up to y + height, in one colour. */
  datatype Band = Band(y: int, height: int, red: int, green: int, blue: int)

  function Abs(a: int): int {
    if a < 0 then -a else a
  }

  function Min(a: int, b: int): int {
    if a < b then a else b
  }

  /** C division by a positive number. */
  function DivC(a: int, n: int): int
    requires n > 0
  {
    if a >= 0 then a / n else -((-a) / n)
  }

  /** Arithmetic shift right by 16. */
  function Floor(a: int): (q: int)
    ensures q * ONE <= a < q * ONE + ONE
  {
    a / ONE
  }

  /** The largest channel difference. */
  function Span(lower: Color, upper: Color): int {
    Max(Abs(upper.red - lower.red), Max(Abs(upper.green - lower.green), Abs(upper.blue - lower.blue)))
  }

  function Steps(lower: Color, upper: Color, h: int): (n: int)
    requires 0 < h
    ensures 1 <= n <= h && n <= MAX_STEPS
  {
    Min(Min(Span(lower, upper) + 1, h), MAX_STEPS)
  }

  function ChannelStep(from: int, to: int, n: int): int
    requires n > 0
  {
    DivC((to - from) * ONE, n)
  }

  function Shade(from: int, to: int, n: int, k: int): int
    requires n > 0
  {
    Floor(from * ONE + HALF + k * ChannelStep(from, to, n))
  }

  /** The edge above the k-th band. */
  function Edge(h: int, n: int, k: int): int
    requires n > 0
  {
    Floor(HALF + k * DivC(h * ONE, n))
  }

  function BandAt(lower: Color, upper: Color, h: int, k: int): Band
    requires 0 < h
  {
    var n := Steps(lower, upper, h);
    Band(Edge(h, n, k), Edge(h, n, k + 1) - Edge(h, n, k),
         Shade(lower.red, upper.red, n, k), Shade(lower.green, upper.green, n, k), Shade(lower.blue, upper.blue, n, k))
  }

  /** The bands of the whole rectangle, from the top. */
  function Bands(lower: Color, upper: Color, h: int): seq<Band>
    requires 0 < h
  {
    seq(Steps(lower, upper, h), k => BandAt(lower, upper, h, k))
  }

  // ---------- products ----------

  lemma MulNeg(n: int, d: int)
    ensures n * -d == -(n * d)
  {
  }

  lemma Quotient(a: nat, n: int)
    requires n > 0
    ensures a / n >= 0 && n * (a / n) <= a < n * (a / n) + n
  {
    Euclid(a, n);
  }

  lemma DivCBounds(a: int, n: int)
    requires n > 0
    ensures a >= 0 ==> DivC(a, n) >= 0 && n * DivC(a, n) <= a < n * DivC(a, n) + n
    ensures a <= 0 ==> DivC(a, n) <= 0 && n * DivC(a, n) - n < a <= n * DivC(a, n)
  {
    if a >= 0 {
      Quotient(a, n);
    } else {
      Quotient(-a, n);
      MulNeg(n, (-a) / n);
    }
  }

  /** A quotient by a divisor no larger than the number of units is at least one unit. */
  lemma UnitFits(a: int, n: int, d: int, unit: int)
    requires n > 0 && n * unit <= a < n * d + n
    ensures unit <= d
  {
    assert (d + 1) * n == n * d + n && unit * n == n * unit;
    if d < unit {
      MulLe(d + 1, unit, n);
    }
  }

  // ---------- edges ----------

  lemma EdgeBounds(h: int, n: int, k: int)
    requires 1 <= n <= h && n <= MAX_STEPS && 0 <= k <= n
    ensures k == 0 ==> Edge(h, n, k) == 0
    ensures k == n ==> Edge(h, n, k) == h
    ensures k < n ==> Edge(h, n, k) < h && Edge(h, n, k) < Edge(h, n, k + 1)
  {
    hide DivC;
    var dy := DivC(h * ONE, n);
    DivCBounds(h * ONE, n);
    UnitFits(h * ONE, n, dy, ONE);
    MulNext(k, dy);
    if k < n {
      MulLe(k + 1, n, dy);
    }
    EdgeFacts(h, n, dy, k, k * dy, n * dy);
  }

  /** The same with the products named, so that only linear arithmetic is left. */
  lemma EdgeFacts(h: int, n: int, dy: int, k: int, kdy: int, ndy: int)
    requires 1 <= n <= MAX_STEPS && ONE <= dy && ndy <= h * ONE < ndy + n
    requires k == 0 ==> kdy == 0
    requires k == n ==> kdy == ndy
    requires k < n ==> kdy + dy <= ndy
    ensures k == 0 ==> Floor(HALF + kdy) == 0
    ensures k == n ==> Floor(HALF + kdy) == h
    ensures k < n ==> Floor(HALF + kdy) < h && Floor(HALF + kdy) < Floor(HALF + kdy + dy)
  {
  }

  lemma {:induction false} EdgesGrow(h: int, n: int, i: int, j: int)
    requires 1 <= n <= h && n <= MAX_STEPS && 0 <= i < j <= n
    ensures Edge(h, n, i) < Edge(h, n, j)
    decreases j - i
  {
    EdgeBounds(h, n, j - 1);
    if i < j - 1 {
      EdgesGrow(h, n, i, j - 1);
    }
  }

  lemma {:induction false} RowHasBand(h: int, n: int, row: int, k: int) returns (b: int)
    requires 1 <= n <= h && n <= MAX_STEPS && 0 < k <= n && 0 <= row < Edge(h, n, k)
    ensures 0 <= b < k && Edge(h, n, b) <= row < Edge(h, n, b + 1)
    decreases k
  {
    EdgeBounds(h, n, 0);
    if Edge(h, n, k - 1) <= row {
      b := k - 1;
    } else {
      b := RowHasBand(h, n, row, k - 1);
    }
  }

  // ---------- how many bands ----------

  /** What the channels differ by, in both directions. */
  ghost function Differences(lower: Color, upper: Color): set<int> {
    {upper.red - lower.red, lower.red - upper.red, upper.green - lower.green, lower.green - upper.green,
     upper.blue - lower.blue, lower.blue - upper.blue}
  }

  /** One band more than the largest difference m, unless the height or 128 is less. */
  lemma StepCount(lower: Color, upper: Color, h: int, m: int)
    requires 0 < h && m in Differences(lower, upper) && forall d :: d in Differences(lower, upper) ==> d <= m
    ensures |Bands(lower, upper, h)| == if m + 1 <= h && m + 1 <= 128 then m + 1 else if h <= 128 then h else 128
  {
    assert upper.red - lower.red in Differences(lower, upper) && lower.red - upper.red in Differences(lower, upper);
    assert upper.green - lower.green in Differences(lower, upper) && lower.green - upper.green in Differences(lower, upper);
    assert upper.blue - lower.blue in Differences(lower, upper) && lower.blue - upper.blue in Differences(lower, upper);
  }

  ghost predicate Covers(b: Band, row: int) {
    b.y <= row < b.y + b.height
  }

  /** Tiling: no band is empty, each begins where the one before ends, and they fill [0, h). */
  lemma BandsTile(lower: Color, upper: Color, h: int)
    requires 0 < h < 32768
    ensures var b := Bands(lower, upper, h);
      && |b| > 0 && b[0].y == 0 && b[|b| - 1].y + b[|b| - 1].height == h
      && (forall k :: 0 <= k < |b| ==> b[k].height > 0)
      && (forall k {:trigger b[k]} :: 0 <= k < |b| - 1 ==> b[k].y + b[k].height == b[k + 1].y)
  {
    var n := Steps(lower, upper, h);
    EdgeBounds(h, n, 0);
    EdgeBounds(h, n, n);
    forall k | 0 <= k < n
      ensures Edge(h, n, k) < Edge(h, n, k + 1)
    {
      EdgeBounds(h, n, k);
    }
  }

  /** Every row of the rectangle is painted by exactly one band, and no other row by any. */
  lemma RowsPaintedOnce(lower: Color, upper: Color, h: int, row: int)
    requires 0 < h < 32768
    ensures var b := Bands(lower, upper, h);
      && (0 <= row < h <==> exists k :: 0 <= k < |b| && Covers(b[k], row))
      && (forall i, j :: 0 <= i < j < |b| ==> !(Covers(b[i], row) && Covers(b[j], row)))
  {
    var n := Steps(lower, upper, h);
    var b := Bands(lower, upper, h);
    EdgeBounds(h, n, 0);
    EdgeBounds(h, n, n);
    if 0 <= row < h {
      var k := RowHasBand(h, n, row, n);
      assert Covers(b[k], row);
    }
    forall k | 0 <= k < |b| && Covers(b[k], row)
      ensures 0 <= row < h
    {
      if k > 0 { EdgesGrow(h, n, 0, k); }
      if k + 1 < n { EdgesGrow(h, n, k + 1, n); }
    }
    forall i, j | 0 <= i < j < |b|
      ensures !(Covers(b[i], row) && Covers(b[j], row))
    {
      if i + 1 < j { EdgesGrow(h, n, i + 1, j); }
    }
  }

  // ---------- colours ----------

  lemma ScaleBy(k: int, n: int, d: int)
    requires 0 <= k <= n
    ensures d >= 0 ==> 0 <= k * d <= n * d
    ensures d <= 0 ==> n * d <= k * d <= 0
  {
    if d >= 0 {
      MulLe(k, n, d);
      MulLe(0, k, d);
    } else {
      MulLe(k, n, -d);
      MulLe(0, k, -d);
      MulNeg(k, d);
      MulNeg(n, d);
    }
  }

  /** A channel starts at its first value, moves one way only, and never leaves the range between its ends. */
  lemma ShadeRange(from: Channel, to: Channel, n: int, k: int)
    requires 1 <= n <= MAX_STEPS && 0 <= k < n
    ensures k == 0 ==> Shade(from, to, n, k) == from
    ensures from <= to ==> from <= Shade(from, to, n, k) <= to && Shade(from, to, n, k) <= Shade(from, to, n, k + 1)
    ensures to <= from ==> to <= Shade(from, to, n, k) <= from && Shade(from, to, n, k + 1) <= Shade(from, to, n, k)
  {
    hide DivC;
    var d := ChannelStep(from, to, n);
    DivCBounds((to - from) * ONE, n);
    MulNext(k, d);
    ScaleBy(k, n, d);
    ShadeFacts(from, to, n, d, k, k * d, n * d);
  }

  lemma ShadeFacts(from: int, to: int, n: int, d: int, k: int, kd: int, nd: int)
    requires k == 0 ==> kd == 0
    requires from <= to ==> 0 <= d && 0 <= kd <= nd <= (to - from) * ONE
    requires to <= from ==> d <= 0 && (to - from) * ONE <= nd <= kd <= 0
    ensures k == 0 ==> Floor(from * ONE + HALF + kd) == from
    ensures from <= to ==> from <= Floor(from * ONE + HALF + kd) <= to && Floor(from * ONE + HALF + kd) <= Floor(from * ONE + HALF + (kd + d))
    ensures to <= from ==> to <= Floor(from * ONE + HALF + kd) <= from && Floor(from * ONE + HALF + (kd + d)) <= Floor(from * ONE + HALF + kd)
  {
  }

  /** With a step for every unit of difference, neighbouring bands differ by at most one. */
  lemma ShadeSteps(from: Channel, to: Channel, n: int, k: int)
    requires 1 <= n <= MAX_STEPS && 0 <= k && Abs(to - from) < n
    ensures Abs(Shade(from, to, n, k + 1) - Shade(from, to, n, k)) <= 1
  {
    hide DivC;
    var a := (to - from) * ONE;
    var d := ChannelStep(from, to, n);
    DivCBounds(a, n);
    MulNext(k, d);
    MulNeg(n, d);
    UnitFits(n * ONE - 1, n, ONE - 1, ONE - 1);
    if d >= ONE {
      MulLe(ONE, d, n);
    } else if -d >= ONE {
      MulLe(ONE, -d, n);
    }
  }

  /** The last band misses the end value by at most one more than the step that was not taken. */
  lemma ShadeEnd(from: Channel, to: Channel, n: int)
    requires 1 <= n <= MAX_STEPS
    ensures n * Abs(Shade(from, to, n, n - 1) - to) <= Abs(to - from) + n
    ensures Abs(to - from) < n ==> Abs(Shade(from, to, n, n - 1) - to) <= 1
  {
    hide DivC;
    var d := ChannelStep(from, to, n);
    var gap := Shade(from, to, n, n - 1) - to;
    DivCBounds((to - from) * ONE, n);
    MulNext(n - 1, d);
    GapFacts(to - from, n, d, n * d, gap);
    if gap <= 0 {
      GapScaled(to - from, n, d, n * d, -gap);
    } else {
      MulNeg(n, d);
      GapScaled(from - to, n, -d, -(n * d), gap);
    }
  }

  lemma GapFacts(diff: int, n: int, d: int, nd: int, gap: int)
    requires 1 <= n <= MAX_STEPS
    requires gap * ONE <= HALF + (nd - d) - diff * ONE < gap * ONE + ONE
    requires diff >= 0 ==> d >= 0 && nd <= diff * ONE < nd + n
    requires diff <= 0 ==> d <= 0 && nd - n < diff * ONE <= nd
    ensures gap <= 0 ==> -gap * ONE <= ONE + d
    ensures gap > 0 ==> diff < 0 && gap * ONE <= ONE - d
    ensures diff < 0 ==> gap >= 0
  {
  }

  /** From one step of the distance to n of them. */
  lemma GapScaled(diff: int, n: int, d: int, nd: int, gap: int)
    requires 1 <= n && nd == n * d && gap >= 0 && gap * ONE <= ONE + d
    requires nd <= Abs(diff) * ONE
    ensures n * gap <= Abs(diff) + n
    ensures Abs(diff) < n ==> gap <= 1
  {
    MulLe(gap * ONE, ONE + d, n);
    assert (gap * ONE) * n == (n * gap) * ONE;
    assert (ONE + d) * n == n * ONE + nd;
    if gap >= 2 {
      MulLe(2, gap, n);
      assert gap * n == n * gap;
    }
  }

  ghost predicate Between(a: int, v: int, b: int) {
    a <= v <= b || b <= v <= a
  }

  /** The first band has the lower colour exactly, and every band lies between the two colours. */
  lemma BandColours(lower: Color, upper: Color, h: int)
    requires 0 < h < 32768
    ensures var b := Bands(lower, upper, h);
      && b[0].red == lower.red && b[0].green == lower.green && b[0].blue == lower.blue
      && forall k :: 0 <= k < |b| ==>
           && Between(lower.red, b[k].red, upper.red)
           && Between(lower.green, b[k].green, upper.green)
           && Between(lower.blue, b[k].blue, upper.blue)
  {
    var n := Steps(lower, upper, h);
    forall k | 0 <= k < n
      ensures Between(lower.red, Shade(lower.red, upper.red, n, k), upper.red)
      ensures Between(lower.green, Shade(lower.green, upper.green, n, k), upper.green)
      ensures Between(lower.blue, Shade(lower.blue, upper.blue, n, k), upper.blue)
      ensures k == 0 ==> BandAt(lower, upper, h, k).red == lower.red
      ensures k == 0 ==> BandAt(lower, upper, h, k).green == lower.green
      ensures k == 0 ==> BandAt(lower, upper, h, k).blue == lower.blue
    {
      ShadeRange(lower.red, upper.red, n, k);
      ShadeRange(lower.green, upper.green, n, k);
      ShadeRange(lower.blue, upper.blue, n, k);
    }
  }

  /** One channel over neighbouring bands: it moves toward its end value and never back. */
  ghost predicate MovesToward(from: int, to: int, a: int, b: int) {
    (from <= to ==> a <= b) && (to <= from ==> b <= a)
  }

  lemma BandsMoveOneWay(lower: Color, upper: Color, h: int, k: int)
    requires 0 < h < 32768 && 0 <= k < |Bands(lower, upper, h)| - 1
    ensures var b := Bands(lower, upper, h);
      && MovesToward(lower.red, upper.red, b[k].red, b[k + 1].red)
      && MovesToward(lower.green, upper.green, b[k].green, b[k + 1].green)
      && MovesToward(lower.blue, upper.blue, b[k].blue, b[k + 1].blue)
  {
    hide Steps, Shade;
    var n := Steps(lower, upper, h);
    ShadeRange(lower.red, upper.red, n, k);
    ShadeRange(lower.green, upper.green, n, k);
    ShadeRange(lower.blue, upper.blue, n, k);
  }

  ghost predicate Close(a: Band, red: int, green: int, blue: int) {
    -1 <= a.red - red <= 1 && -1 <= a.green - green <= 1 && -1 <= a.blue - blue <= 1
  }

  lemma StepsExceed(lower: Color, upper: Color, h: int)
    requires 0 < h && forall d :: d in Differences(lower, upper) ==> d + 1 <= h && d + 1 <= 128
    ensures var n := Steps(lower, upper, h);
      Abs(upper.red - lower.red) < n && Abs(upper.green - lower.green) < n && Abs(upper.blue - lower.blue) < n
  {
    assert upper.red - lower.red in Differences(lower, upper) && lower.red - upper.red in Differences(lower, upper);
    assert upper.green - lower.green in Differences(lower, upper) && lower.green - upper.green in Differences(lower, upper);
    assert upper.blue - lower.blue in Differences(lower, upper) && lower.blue - upper.blue in Differences(lower, upper);
  }

  /** When neither the height nor the limit cuts the number of steps, the gradient has no visible jump and reaches its end. */
  lemma UnclippedIsSmooth(lower: Color, upper: Color, h: int)
    requires 0 < h < 32768 && forall d :: d in Differences(lower, upper) ==> d + 1 <= h && d + 1 <= 128
    ensures var b := Bands(lower, upper, h);
      && (forall k {:trigger b[k]} :: 0 <= k < |b| - 1 ==> Close(b[k], b[k + 1].red, b[k + 1].green, b[k + 1].blue))
      && Close(b[|b| - 1], upper.red, upper.green, upper.blue)
  {
    hide Shade, Differences, Steps, Edge;
    var n := Steps(lower, upper, h);
    StepsExceed(lower, upper, h);
    var b := Bands(lower, upper, h);
    forall k {:trigger b[k]} | 0 <= k < n - 1
      ensures Close(b[k], b[k + 1].red, b[k + 1].green, b[k + 1].blue)
    {
      ShadeSteps(lower.red, upper.red, n, k);
      ShadeSteps(lower.green, upper.green, n, k);
      ShadeSteps(lower.blue, upper.blue, n, k);
    }
    ShadeEndsClose(lower.red, upper.red, n);
    ShadeEndsClose(lower.green, upper.green, n);
    ShadeEndsClose(lower.blue, upper.blue, n);
  }

  lemma ShadeEndsClose(from: Channel, to: Channel, n: int)
    requires 1 <= n <= MAX_STEPS && Abs(to - from) < n
    ensures Abs(Shade(from, to, n, n - 1) - to) <= 1
  {
    ShadeEnd(from, to, n);
  }

  // ---------- interpolation ----------

  /** v is k n-ths of diff, plus 32767/65536 and rounded down, up to the k/65536 that the truncated steps lose. */
  ghost predicate Interpolates(v: int, diff: int, n: int, k: int) {
    && n * (v * 65536) <= k * (diff * 65536) + n * 32767 + k * n
    && k * (diff * 65536) + n * 32767 - k * n < n * (v * 65536) + n * 65536
  }

  lemma ScaledSum(n: int, k: int, d: int, a: int)
    requires n > 0 && k >= 0 && n * d - n <= a <= n * d + n
    ensures k * a - k * n <= n * (k * d) <= k * a + k * n
  {
    MulLe(n * d - n, a, k);
    MulLe(a, n * d + n, k);
    assert k * (n * d) == n * (k * d);
    assert (n * d - n) * k == k * (n * d) - k * n && (n * d + n) * k == k * (n * d) + k * n && a * k == k * a;
  }

  lemma ScaledFloor(n: int, v: int, x: int)
    requires n > 0 && v * ONE <= HALF + x < v * ONE + ONE
    ensures n * (v * ONE) <= n * HALF + n * x < n * (v * ONE) + n * ONE
  {
    MulLe(v * ONE, HALF + x, n);
    MulLe(HALF + x + 1, v * ONE + ONE, n);
  }

  lemma SumInterpolates(diff: int, n: int, k: int, base: int)
    requires n > 0 && k >= 0
    ensures Interpolates(Floor(base * ONE + HALF + k * DivC(diff * ONE, n)) - base, diff, n, k)
  {
    var d := DivC(diff * ONE, n);
    DivCBounds(diff * ONE, n);
    hide DivC;
    ScaledSum(n, k, d, diff * ONE);
    ScaledFloor(n, Floor(base * ONE + HALF + k * d) - base, k * d);
  }

  /** Edges and colours of the k-th of n bands are k n-ths of the way, rounded. */
  lemma BandsInterpolate(lower: Color, upper: Color, h: int, k: int)
    requires 0 < h < 32768 && 0 <= k < |Bands(lower, upper, h)|
    ensures var b := Bands(lower, upper, h);
      && Interpolates(b[k].y, h, |b|, k)
      && Interpolates(b[k].red - lower.red, upper.red - lower.red, |b|, k)
      && Interpolates(b[k].green - lower.green, upper.green - lower.green, |b|, k)
      && Interpolates(b[k].blue - lower.blue, upper.blue - lower.blue, |b|, k)
  {
    hide Steps, DivC, Floor, Interpolates;
    var n := Steps(lower, upper, h);
    SumInterpolates(h, n, k, 0);
    SumInterpolates(upper.red - lower.red, n, k, lower.red);
    SumInterpolates(upper.green - lower.green, n, k, lower.green);
    SumInterpolates(upper.blue - lower.blue, n, k, lower.blue);
  }

  // ---------- the loop ----------

  /** A product, by a name that can be hidden. */
  function Times(k: int, d: int): int {
    k * d
  }

  lemma TimesSteps(k: int, d: int)
    ensures Times(0, d) == 0 && Times(k + 1, d) == Times(k, d) + d
  {
    MulNext(k, d);
  }

  lemma BandsLength(lower: Color, upper: Color, h: int)
    requires 0 < h
    ensures |Bands(lower, upper, h)| == Steps(lower, upper, h)
  {
  }

  /** The running sums of the loop in its k-th round are those of the k-th band. */
  lemma BandFromSums(lower: Color, upper: Color, h: int, k: int, yy: int, yy': int, rr: int, gg: int, bb: int)
    requires 0 < h && 0 <= k < Steps(lower, upper, h)
    requires var n := Steps(lower, upper, h);
      && yy == HALF + Times(k, DivC(h * ONE, n)) && yy' == HALF + Times(k + 1, DivC(h * ONE, n))
      && rr == lower.red * ONE + HALF + Times(k, DivC((upper.red - lower.red) * ONE, n))
      && gg == lower.green * ONE + HALF + Times(k, DivC((upper.green - lower.green) * ONE, n))
      && bb == lower.blue * ONE + HALF + Times(k, DivC((upper.blue - lower.blue) * ONE, n))
    ensures Floor(yy') == Edge(h, Steps(lower, upper, h), k + 1)
    ensures |Bands(lower, upper, h)| == Steps(lower, upper, h)
    ensures Bands(lower, upper, h)[k] == Band(Floor(yy), Floor(yy') - Floor(yy), Floor(rr), Floor(gg), Floor(bb))
  {
    hide Steps, DivC, Floor;
  }

  /** The device context, as the log of its fillRectangle calls relative to the rectangle. */
  class Canvas {
    var log: seq<Band>

    constructor ()
      ensures log == []
    {
      log := [];
    }

    /** The number of bands: one for each unit of the largest difference and one more, within h and the limit. */
    static method CountSteps(dr: int, dg: int, db: int, h: int) returns (n: int)
      requires 0 < h
      ensures n == Min(Min(Max(Abs(dr), Max(Abs(dg), Abs(db))) + 1, h), MAX_STEPS)
    {
      n := Abs(dr);
      var t := Abs(dg);
      if t > n { n := t; }
      t := Abs(db);
      if t > n { n := t; }
      n := n + 1;
      if n > h { n := h; }
      if n > MAX_STEPS { n := MAX_STEPS; }
    }

    method DrawRectangle(lower: Color, upper: Color, w: int, h: int)
      requires h < 32768
      modifies this
      ensures log == old(log) + if 0 < w && 0 < h then Bands(lower, upper, h) else []
    {
      if w <= 0 || h <= 0 {
        return;
      }
      var r1, r2 := lower.red, upper.red;
      var dr := r2 - r1;
      var g1, g2 := lower.green, upper.green;
      var dg := g2 - g1;
      var b1, b2 := lower.blue, upper.blue;
      var db := b2 - b1;
      var n := CountSteps(dr, dg, db, h);
      assert n == Steps(lower, upper, h);
      hide Steps, Span, Abs, Min, Max, DivC, Floor, Bands, BandAt, Edge, Times;
      BandsLength(lower, upper, h);
      var rr, gg, bb := r1 * ONE + HALF, g1 * ONE + HALF, b1 * ONE + HALF;
      var yy := HALF;
      dr, dg, db := DivC(dr * ONE, n), DivC(dg * ONE, n), DivC(db * ONE, n);
      var dy := DivC(h * ONE, n);
      ghost var all := Bands(lower, upper, h);
      ghost var k := 0;
      var more := true;
      TimesSteps(0, dy);
      TimesSteps(0, dr);
      TimesSteps(0, dg);
      TimesSteps(0, db);
      while more
        invariant 0 <= k <= n && more == (k < n)
        invariant yy == HALF + Times(k, dy) && rr == r1 * ONE + HALF + Times(k, dr)
        invariant gg == g1 * ONE + HALF + Times(k, dg) && bb == b1 * ONE + HALF + Times(k, db)
        invariant log == old(log) + all[..k]
        decreases n - k
      {
        var yl := Floor(yy);
        yy := yy + dy;
        var yh := Floor(yy);
        EdgeBounds(h, n, k + 1);
        TimesSteps(k, dy);
        TimesSteps(k, dr);
        TimesSteps(k, dg);
        TimesSteps(k, db);
        BandFromSums(lower, upper, h, k, yy - dy, yy, rr, gg, bb);
        assert all[..k + 1] == all[..k] + [all[k]];
        log := log + [Band(yl, yh - yl, Floor(rr), Floor(gg), Floor(bb))];
        rr, gg, bb := rr + dr, gg + dg, bb + db;
        k := k + 1;
        more := yh < h;
      }
    }
  }
}
