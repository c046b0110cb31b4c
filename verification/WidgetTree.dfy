/**
  The widget tree and the walks over it. A widget is named by its path from the root.
  The step that the tree library offers for a linear walk, GetBelow, is proved to be the
  successor in the preorder.
 */
module WidgetTree {
  import opened Basics
  import opened CText

  /** The widget types that the set-up code tells apart; Unhandled stands for all types it refuses. */
  datatype Kind = Dialog | GridLayout | RadioButton | Plain | Unhandled

  datatype Widget = Widget(kind: Kind, groupId: int, rows: int, columns: int, children: seq<Widget>)

  predicate IsPath(t: Widget, p: Path)
    decreases p
  {
    p == [] || (p[0] < |t.children| && IsPath(t.children[p[0]], p[1..]))
  }

  function At(t: Widget, p: Path): Widget
    requires IsPath(t, p)
    decreases p
  {
    if p == [] then t else At(t.children[p[0]], p[1..])
  }

  function Parent(p: Path): Path
    requires p != []
  {
    p[..|p| - 1]
  }

  // ---------- preorder ----------

  /** All paths of the tree, every widget before its children and the children from left to right. */
  function Preorder(t: Widget): (r: seq<Path>)
    ensures |r| > 0 && r[0] == []
    decreases t, 1, 0
  {
    [[]] + Forest(t, 0)
  }

  /** The part of the preorder that belongs to the children from the k-th on. */
  function Forest(t: Widget, k: nat): seq<Path>
    requires k <= |t.children|
    decreases t, 0, |t.children| - k
  {
    if k == |t.children| then []
    else Prefixed(k, Preorder(t.children[k])) + Forest(t, k + 1)
  }

  lemma {:induction false} PreorderValid(t: Widget, i: nat)
    requires i < |Preorder(t)|
    ensures IsPath(t, Preorder(t)[i])
    decreases t, 1, 0
  {
    if i > 0 {
      ForestValid(t, 0, i - 1);
    }
  }

  lemma {:induction false} ForestValid(t: Widget, k: nat, i: nat)
    requires k <= |t.children| && i < |Forest(t, k)|
    ensures IsPath(t, Forest(t, k)[i]) && Forest(t, k)[i] != [] && k <= Forest(t, k)[i][0]
    decreases t, 0, |t.children| - k
  {
    var n := |Preorder(t.children[k])|;
    if i < n {
      PreorderValid(t.children[k], i);
    } else {
      ForestValid(t, k + 1, i - n);
    }
  }

  /** Every path of the tree is in the preorder. */
  lemma {:induction false} PreorderComplete(t: Widget, p: Path)
    requires IsPath(t, p)
    ensures p in Preorder(t)
    decreases t, 1, 0
  {
    if p != [] {
      PreorderComplete(t.children[p[0]], p[1..]);
      ForestComplete(t, 0, p);
      var i :| 0 <= i < |Forest(t, 0)| && Forest(t, 0)[i] == p;
      assert Preorder(t)[i + 1] == p;
    }
  }

  lemma {:induction false} ForestComplete(t: Widget, k: nat, p: Path)
    requires k <= |t.children| && p != [] && k <= p[0] < |t.children| && p[1..] in Preorder(t.children[p[0]])
    ensures p in Forest(t, k)
    decreases |t.children| - k
  {
    var block := Prefixed(k, Preorder(t.children[k]));
    if p[0] == k {
      var i :| 0 <= i < |block| && Preorder(t.children[k])[i] == p[1..];
      assert block[i] == p;
      assert Forest(t, k)[i] == p;
    } else {
      ForestComplete(t, k + 1, p);
      var i :| 0 <= i < |Forest(t, k + 1)| && Forest(t, k + 1)[i] == p;
      assert Forest(t, k)[|block| + i] == p;
    }
  }

  lemma {:induction false} ParentBefore(p: Path, k: nat)
    ensures Before(p, p + [k])
  {
    if p != [] {
      assert (p + [k])[1..] == p[1..] + [k];
      ParentBefore(p[1..], k);
    }
  }

  /** The preorder is sorted by document order, hence without repetition. */
  lemma {:induction false} PreorderSorted(t: Widget, i: nat, j: nat)
    requires i < j < |Preorder(t)|
    ensures Before(Preorder(t)[i], Preorder(t)[j])
    decreases t, 1, 0
  {
    ForestValid(t, 0, j - 1);
    if i > 0 {
      ForestSorted(t, 0, i - 1, j - 1);
    }
  }

  lemma {:induction false} ForestSorted(t: Widget, k: nat, i: nat, j: nat)
    requires k <= |t.children| && i < j < |Forest(t, k)|
    ensures Before(Forest(t, k)[i], Forest(t, k)[j])
    decreases t, 0, |t.children| - k
  {
    var c := Preorder(t.children[k]);
    var n := |c|;
    if j < n {
      PreorderSorted(t.children[k], i, j);
      assert ([k] + c[i])[1..] == c[i] && ([k] + c[j])[1..] == c[j];
    } else if i < n {
      ForestValid(t, k + 1, j - n);
    } else {
      ForestSorted(t, k + 1, i - n, j - n);
    }
  }

  // ---------- GetBelow ----------

  /** The right neighbour. */
  function Next(t: Widget, p: Path): (r: Option<Path>)
    requires IsPath(t, p)
  {
    if p == [] then None
    else
      ParentIsPath(t, p);
      var last := p[|p| - 1];
      if last + 1 < |At(t, Parent(p)).children| then Some(Parent(p) + [last + 1]) else None
  }

  /** The loop of GetBelow: the right neighbour of the nearest ancestor that has one. */
  function Climb(t: Widget, p: Path): Option<Path>
    requires IsPath(t, p)
    decreases |p|
  {
    if p == [] then None
    else
      ParentIsPath(t, p);
      var q := Parent(p);
      if Next(t, q).Some? then Next(t, q) else Climb(t, q)
  }

  function Below(t: Widget, p: Path): Option<Path>
    requires IsPath(t, p)
  {
    if |At(t, p).children| > 0 then Some(p + [0])
    else if Next(t, p).Some? then Next(t, p)
    else Climb(t, p)
  }

  lemma {:induction false} ParentIsPath(t: Widget, p: Path)
    requires IsPath(t, p) && p != []
    ensures IsPath(t, Parent(p)) && p[|p| - 1] < |At(t, Parent(p)).children|
    ensures At(t, p) == At(t, Parent(p)).children[p[|p| - 1]]
    decreases p
  {
    if |p| > 1 {
      assert Parent(p)[1..] == Parent(p[1..]);
      ParentIsPath(t.children[p[0]], p[1..]);
    }
  }

  lemma {:induction false} ChildIsPath(t: Widget, p: Path, k: nat)
    requires IsPath(t, p) && k < |At(t, p).children|
    ensures IsPath(t, p + [k]) && At(t, p + [k]) == At(t, p).children[k]
    decreases p
  {
    if p != [] {
      assert (p + [k])[1..] == p[1..] + [k];
      ChildIsPath(t.children[p[0]], p[1..], k);
    }
  }

  function Lift(k: nat, r: Option<Path>): Option<Path> {
    if r.Some? then Some([k] + r.value) else None
  }

  /** A step that stays in the k-th child, or else the step to its right neighbour. */
  function Otherwise(t: Widget, k: nat, inside: Option<Path>): Option<Path> {
    if inside.Some? then Lift(k, inside)
    else if k + 1 < |t.children| then Some([k + 1]) else None
  }

  lemma NextOfChild(t: Widget, k: nat)
    requires k < |t.children|
    ensures Next(t, [k]) == if k + 1 < |t.children| then Some([k + 1]) else None
  {
    assert Parent([k]) == [] && [] + [k + 1] == [k + 1];
  }

  lemma NextInside(t: Widget, k: nat, p: Path)
    requires k < |t.children| && IsPath(t.children[k], p) && p != [] && IsPath(t, [k] + p)
    ensures Next(t, [k] + p) == Lift(k, Next(t.children[k], p))
  {
    hide At, IsPath;
    var q := [k] + p;
    var u := Parent(p);
    ParentIsPath(t.children[k], p);
    assert Parent(q) == [k] + u;
    assert q[|q| - 1] == p[|p| - 1];
    AtLifts(t, k, u);
    Regroup([k], u, [p[|p| - 1] + 1]);
  }

  lemma AtLifts(t: Widget, k: nat, p: Path)
    requires k < |t.children| && IsPath(t.children[k], p)
    ensures IsPath(t, [k] + p) && At(t, [k] + p) == At(t.children[k], p)
  {
    assert ([k] + p)[1..] == p;
  }

  lemma NextLifts(t: Widget, k: nat, p: Path)
    requires k < |t.children| && IsPath(t.children[k], p)
    ensures IsPath(t, [k] + p)
    ensures p != [] ==> Next(t, [k] + p) == Lift(k, Next(t.children[k], p))
    ensures p == [] ==> Next(t, [k] + p) == if k + 1 < |t.children| then Some([k + 1]) else None
  {
    AtLifts(t, k, p);
    if p != [] {
      NextInside(t, k, p);
    } else {
      assert [k] + p == [k];
      NextOfChild(t, k);
    }
  }

  /** Climbing out of a child ends at the child's right neighbour, unless it ends inside. */
  lemma {:induction false} ClimbLifts(t: Widget, k: nat, p: Path)
    requires k < |t.children| && IsPath(t.children[k], p)
    ensures IsPath(t, [k] + p)
    ensures p == [] ==> Climb(t, [k] + p).None?
    ensures p != [] ==> Climb(t, [k] + p) == Otherwise(t, k, Climb(t.children[k], p))
    decreases |p|
  {
    var q := [k] + p;
    assert q[1..] == p && q[0] == k;
    if p == [] {
      assert Parent(q) == [];
    } else {
      ParentIsPath(t.children[k], p);
      assert Parent(q) == [k] + Parent(p);
      NextLifts(t, k, Parent(p));
      ClimbLifts(t, k, Parent(p));
    }
  }

  lemma BelowLifts(t: Widget, k: nat, p: Path)
    requires k < |t.children| && IsPath(t.children[k], p)
    ensures IsPath(t, [k] + p)
    ensures Below(t, [k] + p) == Otherwise(t, k, Below(t.children[k], p))
  {
    var q := [k] + p;
    assert q[1..] == p && q[0] == k;
    assert [k] + (p + [0]) == q + [0];
    NextLifts(t, k, p);
    ClimbLifts(t, k, p);
  }

  /** GetBelow walks the tree in preorder. */
  lemma {:induction false} BelowIsSuccessor(t: Widget, i: nat)
    requires i < |Preorder(t)|
    ensures IsPath(t, Preorder(t)[i])
    ensures Below(t, Preorder(t)[i]) == if i + 1 < |Preorder(t)| then Some(Preorder(t)[i + 1]) else None
    decreases t, 1, 0
  {
    if i > 0 {
      ForestBelow(t, 0, i - 1);
    } else if |t.children| > 0 {
      FirstOfForest(t, 0);
      assert [] + [0] == [0];
    }
  }

  lemma FirstOfForest(t: Widget, k: nat)
    requires k < |t.children|
    ensures |Forest(t, k)| > 0 && Forest(t, k)[0] == [k]
  {
    assert [k] + [] == [k];
  }

  lemma {:induction false} ForestBelow(t: Widget, k: nat, i: nat)
    requires k <= |t.children| && i < |Forest(t, k)|
    ensures IsPath(t, Forest(t, k)[i])
    ensures Below(t, Forest(t, k)[i]) == if i + 1 < |Forest(t, k)| then Some(Forest(t, k)[i + 1]) else None
    decreases t, 0, |t.children| - k
  {
    var c := t.children[k];
    var n := |Preorder(c)|;
    if i < n {
      BelowIsSuccessor(c, i);
      BelowLifts(t, k, Preorder(c)[i]);
      if i + 1 == n && k + 1 < |t.children| {
        FirstOfForest(t, k + 1);
      }
    } else {
      ForestBelow(t, k + 1, i - n);
    }
  }
}
