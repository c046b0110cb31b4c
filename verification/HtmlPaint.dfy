/**
  Painting the object tree of an HTML label. _paint draws everything; _paintAt skips a
  whole subtree as soon as its root is outside the viewport. The two agree, up to the
  viewport test, for every viewport exactly when each drawn object lies inside the boxes
  of all its ancestors.
 */
module HtmlPaint {
  import opened Basics
  import opened CText

  /** Images are drawn only if a picture has been attached to them. */
  datatype Kind = Word | Image(hasPicture: bool) | Container

  datatype Node = Node(kind: Kind, x: int, y: int, w: int, h: int, children: seq<Node>)

  /** One word or picture on the device context, with its upper left corner. */
  datatype Draw = Draw(node: Node, x: int, y: int)

  datatype View = View(xOffset: int, yOffset: int, w: int, h: int)

  predicate IsDrawn(o: Node) {
    o.kind.Word? || (o.kind.Image? && o.kind.hasPicture)
  }

  function Own(o: Node, x: int, y: int): seq<Draw> {
    if IsDrawn(o) then [Draw(o, x, y)] else []
  }

  /** _paint */
  function Paint(o: Node, xOffset: int, yOffset: int): seq<Draw>
    decreases o, 1
  {
    var x, y := xOffset + o.x, yOffset + o.y;
    Own(o, x, y) + PaintAll(o.children, x, y)
  }

  function PaintAll(cs: seq<Node>, x: int, y: int): seq<Draw>
    decreases cs, 0
  {
    if cs == [] then [] else Paint(cs[0], x, y) + PaintAll(cs[1..], x, y)
  }

  /** The test of _paintAt for a box at a position on the screen. */
  predicate Visible(v: View, x: int, y: int, w: int, h: int) {
    x < v.w && x + w >= 0 && y < v.h && y + h >= 0
  }

  /** _paintAt */
  function PaintAt(o: Node, v: View, xText: int, yText: int): seq<Draw>
    decreases o, 1
  {
    var x, y := xText + o.x, yText + o.y;
    var printX, printY := x - v.xOffset, y - v.yOffset;
    if Visible(v, printX, printY, o.w, o.h)
    then Own(o, printX, printY) + PaintAllAt(o.children, v, x, y)
    else []
  }

  function PaintAllAt(cs: seq<Node>, v: View, x: int, y: int): seq<Draw>
    decreases cs, 0
  {
    if cs == [] then [] else PaintAt(cs[0], v, x, y) + PaintAllAt(cs[1..], v, x, y)
  }

  predicate InView(v: View, d: Draw) {
    Visible(v, d.x, d.y, d.node.w, d.node.h)
  }

  /** The drawings that the viewport shows, in their order. */
  function Shown(v: View, log: seq<Draw>): (r: seq<Draw>)
    ensures |r| <= |log|
  {
    if log == [] then []
    else (if InView(v, log[0]) then [log[0]] else []) + Shown(v, log[1..])
  }

  function Translated(log: seq<Draw>, dx: int, dy: int): (r: seq<Draw>)
    ensures |r| == |log|
    ensures forall i :: 0 <= i < |log| ==> r[i] == Draw(log[i].node, log[i].x + dx, log[i].y + dy)
  {
    seq(|log|, i requires 0 <= i < |log| => Draw(log[i].node, log[i].x + dx, log[i].y + dy))
  }

  // ---------- what is painted, by paths ----------

  predicate IsPath(o: Node, p: Path)
    decreases p
  {
    p == [] || (p[0] < |o.children| && IsPath(o.children[p[0]], p[1..]))
  }

  function At(o: Node, p: Path): Node
    requires IsPath(o, p)
    decreases p
  {
    if p == [] then o else At(o.children[p[0]], p[1..])
  }

  /** The corner of the object at the end of the path: the sum of all offsets on the way. */
  function CornerX(o: Node, p: Path): int
    requires IsPath(o, p)
    decreases p
  {
    o.x + if p == [] then 0 else CornerX(o.children[p[0]], p[1..])
  }

  function CornerY(o: Node, p: Path): int
    requires IsPath(o, p)
    decreases p
  {
    o.y + if p == [] then 0 else CornerY(o.children[p[0]], p[1..])
  }

  /** Every object on the path is in the viewport when the text begins at (x, y). */
  ghost predicate AllSeen(o: Node, v: View, x: int, y: int, p: Path)
    requires IsPath(o, p)
    decreases p
  {
    var left, top := x + o.x - v.xOffset, y + o.y - v.yOffset;
    && left < v.w && left + o.w >= 0 && top < v.h && top + o.h >= 0
    && (p == [] || AllSeen(o.children[p[0]], v, x + o.x, y + o.y, p[1..]))
  }

  /** A word, or an image with a picture, that is drawn; in a viewport if there is one. */
  ghost predicate IsPainted(o: Node, v: Option<View>, x: int, y: int, p: Path) {
    && IsPath(o, p) && (At(o, p).kind == Word || At(o, p).kind == Image(true))
    && (v.Some? ==> AllSeen(o, v.value, x, y, p))
  }

  /** The log has one drawing for each of these paths and no others, in document order, each at its corner. */
  ghost predicate IsPainting(o: Node, v: Option<View>, x: int, y: int, paths: seq<Path>, log: seq<Draw>) {
    && (forall p :: p in paths <==> IsPainted(o, v, x, y, p))
    && (forall i, j :: 0 <= i < j < |paths| ==> Before(paths[i], paths[j]))
    && |log| == |paths|
    && forall i :: 0 <= i < |paths| ==> IsPath(o, paths[i]) && log[i] == DrawAt(o, v, x, y, paths[i])
  }

  function DrawAt(o: Node, v: Option<View>, x: int, y: int, p: Path): Draw
    requires IsPath(o, p)
  {
    var left, top := x + CornerX(o, p), y + CornerY(o, p);
    if v.None? then Draw(At(o, p), left, top)
    else Draw(At(o, p), left - v.value.xOffset, top - v.value.yOffset)
  }

  function PathsOf(o: Node, v: Option<View>, x: int, y: int): seq<Path>
    decreases o, 1, 0
  {
    if v.Some? && !Visible(v.value, x + o.x - v.value.xOffset, y + o.y - v.value.yOffset, o.w, o.h) then []
    else (if IsDrawn(o) then [[]] else []) + PathsFrom(o, v, x + o.x, y + o.y, 0)
  }

  function PathsFrom(o: Node, v: Option<View>, x: int, y: int, k: nat): seq<Path>
    requires k <= |o.children|
    decreases o, 0, |o.children| - k
  {
    if k == |o.children| then []
    else Prefixed(k, PathsOf(o.children[k], v, x, y)) + PathsFrom(o, v, x, y, k + 1)
  }

  /** The same for a path into one of the children. */
  ghost predicate IsPaintedBelow(o: Node, v: Option<View>, x: int, y: int, p: Path) {
    p != [] && p[0] < |o.children| && IsPainted(o.children[p[0]], v, x, y, p[1..])
  }

  lemma {:induction false} PathsArePainted(o: Node, v: Option<View>, x: int, y: int, i: nat)
    requires i < |PathsOf(o, v, x, y)|
    ensures IsPainted(o, v, x, y, PathsOf(o, v, x, y)[i])
    decreases o, 1, 0
  {
    var own := if IsDrawn(o) then 1 else 0;
    if i >= own {
      PathsFromPainted(o, v, x + o.x, y + o.y, 0, i - own);
    }
  }

  lemma {:induction false} PathsFromPainted(o: Node, v: Option<View>, x: int, y: int, k: nat, i: nat)
    requires k <= |o.children| && i < |PathsFrom(o, v, x, y, k)|
    ensures var p := PathsFrom(o, v, x, y, k)[i]; IsPaintedBelow(o, v, x, y, p) && k <= p[0]
    decreases o, 0, |o.children| - k
  {
    var c := PathsOf(o.children[k], v, x, y);
    if i < |c| {
      PathsArePainted(o.children[k], v, x, y, i);
      assert ([k] + c[i])[1..] == c[i];
    } else {
      PathsFromPainted(o, v, x, y, k + 1, i - |c|);
    }
  }

  lemma {:induction false} PaintedIsPath(o: Node, v: Option<View>, x: int, y: int, p: Path)
    requires IsPainted(o, v, x, y, p)
    ensures p in PathsOf(o, v, x, y)
    decreases o, 1, 0
  {
    var all := PathsOf(o, v, x, y);
    if p == [] {
      assert all[0] == p;
    } else {
      PaintedIsFrom(o, v, x + o.x, y + o.y, 0, p);
      var below := PathsFrom(o, v, x + o.x, y + o.y, 0);
      var i :| 0 <= i < |below| && below[i] == p;
      assert all[i + |all| - |below|] == p;
    }
  }

  lemma {:induction false} PaintedIsFrom(o: Node, v: Option<View>, x: int, y: int, k: nat, p: Path)
    requires k <= |o.children| && IsPaintedBelow(o, v, x, y, p) && k <= p[0]
    ensures p in PathsFrom(o, v, x, y, k)
    decreases o, 0, |o.children| - k
  {
    var all := PathsFrom(o, v, x, y, k);
    var block := Prefixed(k, PathsOf(o.children[k], v, x, y));
    if p[0] == k {
      PaintedIsPath(o.children[k], v, x, y, p[1..]);
      var i :| 0 <= i < |block| && PathsOf(o.children[k], v, x, y)[i] == p[1..];
      assert block[i] == p && all[i] == p;
    } else {
      PaintedIsFrom(o, v, x, y, k + 1, p);
      var rest := PathsFrom(o, v, x, y, k + 1);
      var i :| 0 <= i < |rest| && rest[i] == p;
      assert all[|block| + i] == p;
    }
  }

  lemma {:induction false} PathsAreSorted(o: Node, v: Option<View>, x: int, y: int, i: nat, j: nat)
    requires i < j < |PathsOf(o, v, x, y)|
    ensures Before(PathsOf(o, v, x, y)[i], PathsOf(o, v, x, y)[j])
    decreases o, 1, 0
  {
    var own := if IsDrawn(o) then 1 else 0;
    PathsFromPainted(o, v, x + o.x, y + o.y, 0, j - own);
    if i >= own {
      PathsFromSorted(o, v, x + o.x, y + o.y, 0, i - own, j - own);
    }
  }

  lemma {:induction false} PathsFromSorted(o: Node, v: Option<View>, x: int, y: int, k: nat, i: nat, j: nat)
    requires k <= |o.children| && i < j < |PathsFrom(o, v, x, y, k)|
    ensures Before(PathsFrom(o, v, x, y, k)[i], PathsFrom(o, v, x, y, k)[j])
    decreases o, 0, |o.children| - k
  {
    var c := PathsOf(o.children[k], v, x, y);
    if j < |c| {
      PathsAreSorted(o.children[k], v, x, y, i, j);
      assert ([k] + c[i])[1..] == c[i] && ([k] + c[j])[1..] == c[j];
    } else if i < |c| {
      PathsFromPainted(o, v, x, y, k + 1, j - |c|);
    } else {
      PathsFromSorted(o, v, x, y, k + 1, i - |c|, j - |c|);
    }
  }

  /** The log of either way of painting. */
  function Painting(o: Node, v: Option<View>, x: int, y: int): seq<Draw> {
    if v.None? then Paint(o, x, y) else PaintAt(o, v.value, x, y)
  }

  function PaintingFrom(o: Node, v: Option<View>, x: int, y: int, k: nat): seq<Draw>
    requires k <= |o.children|
  {
    if v.None? then PaintAll(o.children[k..], x, y) else PaintAllAt(o.children[k..], v.value, x, y)
  }

  lemma PaintingStep(o: Node, v: Option<View>, x: int, y: int, k: nat)
    requires k < |o.children|
    ensures PaintingFrom(o, v, x, y, k) == Painting(o.children[k], v, x, y) + PaintingFrom(o, v, x, y, k + 1)
  {
    assert o.children[k..][1..] == o.children[k + 1..];
  }

  lemma {:induction false} DrawnAtCorners(o: Node, v: Option<View>, x: int, y: int, i: nat)
    ensures |Painting(o, v, x, y)| == |PathsOf(o, v, x, y)|
    ensures i < |PathsOf(o, v, x, y)| ==> var p := PathsOf(o, v, x, y)[i];
      IsPath(o, p) && Painting(o, v, x, y)[i] == DrawAt(o, v, x, y, p)
    decreases o, 1, 0
  {
    var own := if IsDrawn(o) then 1 else 0;
    assert o.children[0..] == o.children;
    DrawnFromCorners(o, v, x + o.x, y + o.y, 0, if i < own then 0 else i - own);
  }

  lemma {:induction false} DrawnFromCorners(o: Node, v: Option<View>, x: int, y: int, k: nat, i: nat)
    requires k <= |o.children|
    ensures |PaintingFrom(o, v, x, y, k)| == |PathsFrom(o, v, x, y, k)|
    ensures i < |PathsFrom(o, v, x, y, k)| ==> var p := PathsFrom(o, v, x, y, k)[i];
      && p != [] && p[0] < |o.children| && IsPath(o.children[p[0]], p[1..])
      && PaintingFrom(o, v, x, y, k)[i] == DrawAt(o.children[p[0]], v, x, y, p[1..])
    decreases o, 0, |o.children| - k
  {
    if k < |o.children| {
      var c := PathsOf(o.children[k], v, x, y);
      PaintingStep(o, v, x, y, k);
      DrawnAtCorners(o.children[k], v, x, y, i);
      if i < |c| {
        assert ([k] + c[i])[1..] == c[i];
      }
      DrawnFromCorners(o, v, x, y, k + 1, if i < |c| then 0 else i - |c|);
    }
  }

  /** Full painting (without a viewport) and culled painting of every tree, drawing by drawing. */
  lemma PaintsEachPath(o: Node, v: Option<View>, x: int, y: int) returns (paths: seq<Path>)
    ensures IsPainting(o, v, x, y, paths, if v.None? then Paint(o, x, y) else PaintAt(o, v.value, x, y))
  {
    hide PathsOf, IsPainted, Paint, PaintAt, Before;
    paths := PathsOf(o, v, x, y);
    forall p
      ensures p in paths <==> IsPainted(o, v, x, y, p)
    {
      if IsPainted(o, v, x, y, p) {
        PaintedIsPath(o, v, x, y, p);
      }
      if p in paths {
        var i :| 0 <= i < |paths| && paths[i] == p;
        PathsArePainted(o, v, x, y, i);
      }
    }
    forall i, j | 0 <= i < j < |paths|
      ensures Before(paths[i], paths[j])
    {
      PathsAreSorted(o, v, x, y, i, j);
    }
    DrawnAtCorners(o, v, x, y, 0);
    forall i | 0 <= i < |paths|
      ensures IsPath(o, paths[i]) && Painting(o, v, x, y)[i] == DrawAt(o, v, x, y, paths[i])
    {
      DrawnAtCorners(o, v, x, y, i);
    }
  }

  /** The viewport test, for boxes and viewports with an area: a point of the box, its far edges included, lies in the viewport. */
  lemma VisibleIffMeets(v: View, x: int, y: int, w: int, h: int)
    requires w >= 0 && h >= 0 && v.w > 0 && v.h > 0
    ensures Visible(v, x, y, w, h) <==>
      exists px, py :: Contains(x, y, w, h, px, py) && 0 <= px < v.w && 0 <= py < v.h
  {
    var px, py := Max(0, x), Max(0, y);
    if Visible(v, x, y, w, h) {
      assert Contains(x, y, w, h, px, py);
    }
  }

  ghost predicate Contains(x: int, y: int, w: int, h: int, px: int, py: int) {
    x <= px <= x + w && y <= py <= y + h
  }

  // ---------- facts about logs ----------

  lemma {:induction false} ShownConcat(v: View, a: seq<Draw>, b: seq<Draw>)
    ensures Shown(v, a + b) == Shown(v, a) + Shown(v, b)
  {
    if a == [] {
      assert a + b == b;
    } else {
      assert (a + b)[1..] == a[1..] + b;
      ShownConcat(v, a[1..], b);
    }
  }

  lemma {:induction false} ShownNothing(v: View, log: seq<Draw>)
    requires forall i :: 0 <= i < |log| ==> !InView(v, log[i])
    ensures Shown(v, log) == []
  {
    if log != [] {
      ShownNothing(v, log[1..]);
    }
  }

  lemma {:induction false} ShownSomething(v: View, log: seq<Draw>, i: nat)
    requires i < |log| && InView(v, log[i])
    ensures |Shown(v, log)| > 0
  {
    if i > 0 {
      ShownSomething(v, log[1..], i - 1);
    }
  }

  lemma {:induction false} PaintMoves(o: Node, x: int, y: int, dx: int, dy: int)
    ensures Paint(o, x + dx, y + dy) == Translated(Paint(o, x, y), dx, dy)
    decreases o, 1
  {
    PaintAllMoves(o.children, x + o.x, y + o.y, dx, dy);
    assert x + dx + o.x == x + o.x + dx && y + dy + o.y == y + o.y + dy;
  }

  lemma {:induction false} PaintAllMoves(cs: seq<Node>, x: int, y: int, dx: int, dy: int)
    ensures PaintAll(cs, x + dx, y + dy) == Translated(PaintAll(cs, x, y), dx, dy)
    decreases cs, 0
  {
    if cs != [] {
      PaintMoves(cs[0], x, y, dx, dy);
      PaintAllMoves(cs[1..], x, y, dx, dy);
    }
  }

  // ---------- nesting ----------

  ghost predicate Inside(d: Draw, o: Node) {
    0 <= d.x && d.x + d.node.w <= o.w && 0 <= d.y && d.y + d.node.h <= o.h
  }

  ghost predicate AllInside(log: seq<Draw>, o: Node) {
    forall i :: 0 <= i < |log| ==> Inside(log[i], o)
  }

  /** Everything drawn below o, seen from the corner of o, lies in the box of o. */
  ghost predicate Holds(o: Node) {
    AllInside(Paint(o, -o.x, -o.y), o)
  }

  /** The same for every object of the tree. */
  ghost predicate DrawnInside(o: Node) {
    Holds(o) && forall c :: c in o.children ==> DrawnInside(c)
  }

  /** The usual cause: every child's box lies in its parent's box. */
  ghost predicate Nested(o: Node) {
    forall c :: c in o.children ==>
      0 <= c.x && c.x + c.w <= o.w && 0 <= c.y && c.y + c.h <= o.h && Nested(c)
  }

  lemma InsideConcat(a: seq<Draw>, b: seq<Draw>, o: Node)
    requires AllInside(a, o) && AllInside(b, o)
    ensures AllInside(a + b, o)
  {
  }

  lemma InsideParent(c: Node, o: Node)
    requires Holds(c) && 0 <= c.x && c.x + c.w <= o.w && 0 <= c.y && c.y + c.h <= o.h
    ensures AllInside(Paint(c, 0, 0), o)
  {
    hide Paint;
    PaintMoves(c, -c.x, -c.y, c.x, c.y);
    var log := Paint(c, -c.x, -c.y);
    forall i | 0 <= i < |Paint(c, 0, 0)|
      ensures Inside(Paint(c, 0, 0)[i], o)
    {
      assert Inside(log[i], c);
    }
  }

  lemma {:induction false} NestedHolds(o: Node)
    requires Nested(o)
    ensures DrawnInside(o)
    decreases o, 1
  {
    NestedChildren(o, o.children);
    assert AllInside(Own(o, 0, 0), o);
    InsideConcat(Own(o, 0, 0), PaintAll(o.children, 0, 0), o);
  }

  lemma {:induction false} NestedChildren(o: Node, cs: seq<Node>)
    requires Nested(o) && forall c :: c in cs ==> c in o.children
    ensures forall c :: c in cs ==> DrawnInside(c)
    ensures AllInside(PaintAll(cs, 0, 0), o)
    decreases o, 0, cs
  {
    if cs != [] {
      var c := cs[0];
      assert c in o.children;
      NestedHolds(c);
      InsideParent(c, o);
      NestedChildren(o, cs[1..]);
      assert forall e :: e in cs ==> e == c || e in cs[1..];
      InsideConcat(Paint(c, 0, 0), PaintAll(cs[1..], 0, 0), o);
    }
  }

  // ---------- nested objects are painted alike ----------

  /** An object outside the viewport that holds its drawings has nothing to show. */
  lemma HiddenShowsNothing(o: Node, v: View, x: int, y: int)
    requires Holds(o) && !Visible(v, x + o.x, y + o.y, o.w, o.h)
    ensures Shown(v, Paint(o, x, y)) == []
  {
    PaintMoves(o, -o.x, -o.y, x + o.x, y + o.y);
    ShownNothing(v, Paint(o, x, y));
  }

  /** If drawings stay inside their ancestors, culling loses nothing and adds nothing. */
  lemma {:induction false} CullingIsFiltering(o: Node, v: View, xText: int, yText: int)
    requires DrawnInside(o)
    ensures PaintAt(o, v, xText, yText) == Shown(v, Paint(o, xText - v.xOffset, yText - v.yOffset))
    decreases o, 1
  {
    var x, y := xText - v.xOffset, yText - v.yOffset;
    if Visible(v, x + o.x, y + o.y, o.w, o.h) {
      CullingAll(o.children, v, xText + o.x, yText + o.y);
      VisibleAgrees(o, v, xText, yText);
    } else {
      HiddenShowsNothing(o, v, x, y);
    }
  }

  /** A visible object shows itself and what its children show. */
  lemma VisibleShows(o: Node, v: View, x: int, y: int)
    requires Visible(v, x + o.x, y + o.y, o.w, o.h)
    ensures Shown(v, Paint(o, x, y)) == Own(o, x + o.x, y + o.y) + Shown(v, PaintAll(o.children, x + o.x, y + o.y))
  {
    var own := Own(o, x + o.x, y + o.y);
    assert IsDrawn(o) ==> own[1..] == [];
    assert Shown(v, own) == own;
    ShownConcat(v, own, PaintAll(o.children, x + o.x, y + o.y));
  }

  lemma VisibleAgrees(o: Node, v: View, xText: int, yText: int)
    requires Visible(v, xText - v.xOffset + o.x, yText - v.yOffset + o.y, o.w, o.h)
    requires PaintAllAt(o.children, v, xText + o.x, yText + o.y)
          == Shown(v, PaintAll(o.children, xText + o.x - v.xOffset, yText + o.y - v.yOffset))
    ensures PaintAt(o, v, xText, yText) == Shown(v, Paint(o, xText - v.xOffset, yText - v.yOffset))
  {
    hide Paint, Shown, PaintAll, PaintAllAt;
    var x, y := xText - v.xOffset, yText - v.yOffset;
    VisibleShows(o, v, x, y);
    assert xText + o.x - v.xOffset == x + o.x && yText + o.y - v.yOffset == y + o.y;
  }

  lemma {:induction false} CullingAll(cs: seq<Node>, v: View, x: int, y: int)
    requires forall c :: c in cs ==> DrawnInside(c)
    ensures PaintAllAt(cs, v, x, y) == Shown(v, PaintAll(cs, x - v.xOffset, y - v.yOffset))
    decreases cs, 0
  {
    if cs != [] {
      CullingIsFiltering(cs[0], v, x, y);
      CullingAll(cs[1..], v, x, y);
      ShownConcat(v, Paint(cs[0], x - v.xOffset, y - v.yOffset), PaintAll(cs[1..], x - v.xOffset, y - v.yOffset));
    }
  }

  /** Painting through a viewport is the full painting, moved and filtered. */
  lemma NestedAgreement(o: Node, v: View, xText: int, yText: int, xFull: int, yFull: int)
    requires Nested(o)
    ensures PaintAt(o, v, xText, yText) ==
      Shown(v, Translated(Paint(o, xFull, yFull), xText - v.xOffset - xFull, yText - v.yOffset - yFull))
  {
    NestedHolds(o);
    CullingIsFiltering(o, v, xText, yText);
    PaintMoves(o, xFull, yFull, xText - v.xOffset - xFull, yText - v.yOffset - yFull);
  }

  // ---------- and only nested objects are ----------

  /** Culling never draws more than the filter shows. */
  lemma {:induction false} CullingIsShorter(o: Node, v: View, xText: int, yText: int)
    ensures |PaintAt(o, v, xText, yText)| <= |Shown(v, Paint(o, xText - v.xOffset, yText - v.yOffset))|
    decreases o, 1
  {
    var x, y := xText - v.xOffset, yText - v.yOffset;
    hide Paint, Shown;
    if Visible(v, x + o.x, y + o.y, o.w, o.h) {
      CullingAllShorter(o.children, v, xText + o.x, yText + o.y);
      VisibleShows(o, v, x, y);
      assert xText + o.x - v.xOffset == x + o.x && yText + o.y - v.yOffset == y + o.y;
    }
  }

  lemma {:induction false} CullingAllShorter(cs: seq<Node>, v: View, x: int, y: int)
    ensures |PaintAllAt(cs, v, x, y)| <= |Shown(v, PaintAll(cs, x - v.xOffset, y - v.yOffset))|
    decreases cs, 0
  {
    if cs != [] {
      CullingIsShorter(cs[0], v, x, y);
      CullingAllShorter(cs[1..], v, x, y);
      ShownConcat(v, Paint(cs[0], x - v.xOffset, y - v.yOffset), PaintAll(cs[1..], x - v.xOffset, y - v.yOffset));
    }
  }

  ghost predicate AgreesAt(o: Node, v: View, xText: int, yText: int) {
    PaintAt(o, v, xText, yText) == Shown(v, Paint(o, xText - v.xOffset, yText - v.yOffset))
  }

  ghost predicate SameLengthAt(o: Node, v: View, xText: int, yText: int) {
    |PaintAt(o, v, xText, yText)| == |Shown(v, Paint(o, xText - v.xOffset, yText - v.yOffset))|
  }

  /** Through every viewport, and wherever the text begins, both ways of painting show as many drawings. */
  ghost predicate AlwaysSameLength(o: Node) {
    forall v: View, xText: int, yText: int :: v.w > 0 && v.h > 0 ==> SameLengthAt(o, v, xText, yText)
  }

  /** A viewport that shows d but not the box of o, which is at (0, 0). */
  lemma SplittingView(o: Node, d: Draw) returns (v: View)
    requires !Inside(d, o)
    ensures v.w > 0 && v.h > 0
    ensures InView(v, Draw(d.node, d.x - v.xOffset, d.y - v.yOffset))
    ensures !Visible(v, -v.xOffset, -v.yOffset, o.w, o.h)
  {
    // offsets that show d, in a viewport wide and high enough
    var x, y := d.x + d.node.w, d.y + d.node.h;
    var w, h := Max(1, d.x - x + 1), Max(1, d.y - y + 1);
    if d.x < 0 {
      x := if d.x + d.node.w < -1 then d.x + d.node.w else -1;
      w := -x;
    } else if d.x + d.node.w > o.w {
      x := o.w + 1;
      w := Max(1, d.x - x + 1);
    } else if d.y < 0 {
      y := if d.y + d.node.h < -1 then d.y + d.node.h else -1;
      h := -y;
    } else {
      y := o.h + 1;
      h := Max(1, d.y - y + 1);
    }
    v := View(x, y, w, h);
  }

  lemma SameLengthHolds(o: Node)
    requires AlwaysSameLength(o)
    ensures Holds(o)
  {
    var log := Paint(o, -o.x, -o.y);
    forall i | 0 <= i < |log|
      ensures Inside(log[i], o)
    {
      if !Inside(log[i], o) {
        var v := SplittingView(o, log[i]);
        assert SameLengthAt(o, v, -o.x, -o.y);
        PaintMoves(o, -o.x, -o.y, -v.xOffset, -v.yOffset);
        ShownSomething(v, Paint(o, -o.x - v.xOffset, -o.y - v.yOffset), i);
      }
    }
  }

  /** Sums of lengths that agree although no summand is longer agree summand by summand. */
  lemma {:induction false} SameLengthEach(cs: seq<Node>, v: View, x: int, y: int, i: nat)
    requires i < |cs| && |PaintAllAt(cs, v, x, y)| == |Shown(v, PaintAll(cs, x - v.xOffset, y - v.yOffset))|
    ensures SameLengthAt(cs[i], v, x, y)
    decreases i
  {
    CullingIsShorter(cs[0], v, x, y);
    CullingAllShorter(cs[1..], v, x, y);
    ShownConcat(v, Paint(cs[0], x - v.xOffset, y - v.yOffset), PaintAll(cs[1..], x - v.xOffset, y - v.yOffset));
    if i > 0 {
      SameLengthEach(cs[1..], v, x, y, i - 1);
    }
  }

  /** What a child shows is part of what its parent shows. */
  lemma {:induction false} ChildShowsLess(cs: seq<Node>, v: View, x: int, y: int, i: nat)
    requires i < |cs|
    ensures |Shown(v, Paint(cs[i], x, y))| <= |Shown(v, PaintAll(cs, x, y))|
    decreases i
  {
    ShownConcat(v, Paint(cs[0], x, y), PaintAll(cs[1..], x, y));
    if i > 0 {
      ChildShowsLess(cs[1..], v, x, y, i - 1);
    }
  }

  lemma SameLengthChildAt(o: Node, i: nat, v: View, xText: int, yText: int)
    requires AlwaysSameLength(o) && i < |o.children| && v.w > 0 && v.h > 0
    ensures SameLengthAt(o.children[i], v, xText, yText)
  {
    hide Paint, Shown, PaintAll, PaintAllAt;
    var x, y := xText - v.xOffset, yText - v.yOffset;
    assert SameLengthAt(o, v, xText - o.x, yText - o.y);
    assert xText - o.x - v.xOffset == x - o.x && yText - o.y - v.yOffset == y - o.y;
    if Visible(v, x, y, o.w, o.h) {
      VisibleShows(o, v, x - o.x, y - o.y);
      SameLengthEach(o.children, v, xText, yText, i);
    } else {
      SameLengthHolds(o);
      HiddenShowsNothing(o, v, x - o.x, y - o.y);
      ChildOfHidden(o, v, x, y, i);
      CullingIsShorter(o.children[i], v, xText, yText);
    }
  }

  lemma ChildOfHidden(o: Node, v: View, x: int, y: int, i: nat)
    requires i < |o.children| && Shown(v, Paint(o, x - o.x, y - o.y)) == []
    ensures Shown(v, Paint(o.children[i], x, y)) == []
  {
    ShownConcat(v, Own(o, x, y), PaintAll(o.children, x, y));
    ChildShowsLess(o.children, v, x, y, i);
  }

  lemma {:induction false} SameLengthNests(o: Node)
    requires AlwaysSameLength(o)
    ensures DrawnInside(o)
    decreases o
  {
    SameLengthHolds(o);
    forall i | 0 <= i < |o.children|
      ensures DrawnInside(o.children[i])
    {
      forall v: View, xText: int, yText: int | v.w > 0 && v.h > 0
        ensures SameLengthAt(o.children[i], v, xText, yText)
      {
        SameLengthChildAt(o, i, v, xText, yText);
      }
      SameLengthNests(o.children[i]);
    }
  }

  ghost predicate AlwaysAgrees(o: Node) {
    forall v: View, xText: int, yText: int :: v.w > 0 && v.h > 0 ==> AgreesAt(o, v, xText, yText)
  }

  /** Culled painting is filtered full painting through every viewport iff all drawings lie inside all their ancestors. */
  lemma AgreementIff(o: Node)
    ensures AlwaysAgrees(o) <==> DrawnInside(o)
  {
    if DrawnInside(o) {
      forall v: View, xText: int, yText: int | v.w > 0 && v.h > 0
        ensures AgreesAt(o, v, xText, yText)
      {
        CullingIsFiltering(o, v, xText, yText);
      }
    }
    if AlwaysAgrees(o) {
      forall v: View, xText: int, yText: int | v.w > 0 && v.h > 0
        ensures SameLengthAt(o, v, xText, yText)
      {
        assert AgreesAt(o, v, xText, yText);
      }
      SameLengthNests(o);
    }
  }

  /** Agreement is not automatic: a word that sticks out of its parent is lost as soon as the parent is scrolled away. */
  lemma OverhangIsLost()
    ensures exists o: Node, v: View :: PaintAt(o, v, 0, 0) == [] && |Shown(v, Paint(o, -v.xOffset, -v.yOffset))| == 1
  {
    var word := Node(Word, 5, 0, 10, 10, []);
    var o := Node(Container, 0, 0, 0, 0, [word]);
    var v := View(1, 0, 100, 100);
    var log := Paint(o, -1, 0);
    assert PaintAll([word], -1, 0) == Paint(word, -1, 0) + PaintAll([word][1..], -1, 0);
    assert log == [Draw(word, 4, 0)];
    assert log[1..] == [];
    assert PaintAt(o, v, 0, 0) == [] && |Shown(v, Paint(o, -v.xOffset, -v.yOffset))| == 1;
  }

  // ---------- the traversals themselves ----------

  /** The device context, as the log of what was drawn on it. */
  class DeviceContext {
    var log: seq<Draw>

    constructor ()
      ensures log == []
    {
      log := [];
    }

    method DrawNode(o: Node, x: int, y: int)
      modifies this
      ensures log == old(log) + Own(o, x, y)
    {
      if o.kind.Word? {
        log := log + [Draw(o, x, y)];
      } else if o.kind.Image? && o.kind.hasPicture {
        log := log + [Draw(o, x, y)];
      }
    }

    method PaintTree(o: Node, xOffset: int, yOffset: int)
      modifies this
      ensures log == old(log) + Paint(o, xOffset, yOffset)
      decreases o
    {
      var x, y := xOffset + o.x, yOffset + o.y;
      DrawNode(o, x, y);
      ghost var start := log;
      var i := 0;
      assert o.children[0..] == o.children;
      while i < |o.children|
        invariant i <= |o.children|
        invariant log + PaintAll(o.children[i..], x, y) == start + PaintAll(o.children, x, y)
      {
        hide Paint;
        ghost var before := log;
        PaintTree(o.children[i], x, y);
        assert o.children[i..][1..] == o.children[i + 1..];
        Regroup(before, Paint(o.children[i], x, y), PaintAll(o.children[i + 1..], x, y));
        i := i + 1;
      }
      Regroup(old(log), Own(o, x, y), PaintAll(o.children, x, y));
    }

    method PaintTreeAt(o: Node, v: View, xText: int, yText: int)
      modifies this
      ensures log == old(log) + PaintAt(o, v, xText, yText)
      decreases o
    {
      var x, y := xText + o.x, yText + o.y;
      var printX, printY := x - v.xOffset, y - v.yOffset;
      if printX < v.w && printX + o.w >= 0 && printY < v.h && printY + o.h >= 0 {
        DrawNode(o, printX, printY);
        ghost var start := log;
        var i := 0;
        assert o.children[0..] == o.children;
        while i < |o.children|
          invariant i <= |o.children|
          invariant log + PaintAllAt(o.children[i..], v, x, y) == start + PaintAllAt(o.children, v, x, y)
        {
          hide PaintAt;
          ghost var before := log;
          PaintTreeAt(o.children[i], v, x, y);
          assert o.children[i..][1..] == o.children[i + 1..];
          Regroup(before, PaintAt(o.children[i], v, x, y), PaintAllAt(o.children[i + 1..], v, x, y));
          i := i + 1;
        }
        Regroup(old(log), Own(o, printX, printY), PaintAllAt(o.children, v, x, y));
      }
    }
  }
}
