/**
  Setting up the widgets of a GTK dialog: one toolkit widget per tree node, in the order
  of SetupTree. What the set-up leaves behind is proved for every tree: which radio
  buttons share a group, and which cell of a grid every child gets.
 */
module DialogSetup {
  import opened Basics
  import opened CText
  import opened WidgetTree
  import opened GridLayout

  /** Failed: a set-up function returned an error. Crashed: a null pointer was used. */
  datatype Status = Running | Failed | Crashed

  /** The toolkit side of the widgets that are set up. */
  datatype State = State(
    status: Status,
    done: seq<Path>,               // widgets with a toolkit widget, oldest first
    groups: map<Path, nat>,        // the group of each radio button
    created: nat,                  // groups are numbered by their creation
    cursors: map<Path, Cursor>,    // the private data of the grids
    cells: map<Path, Cell>)        // the cells of the grids' children

  const EMPTY: State := State(Running, [], map[], 0, map[], map[])

  predicate IsRadio(t: Widget, p: Path, id: int) {
    IsPath(t, p) && At(t, p).kind.RadioButton? && At(t, p).groupId == id
  }

  /** The position in the preorder of the first radio button of a group, at or behind i. */
  function FirstRadio(t: Widget, id: int, i: nat): (j: nat)
    requires i <= |Preorder(t)|
    ensures i <= j <= |Preorder(t)|
    ensures j < |Preorder(t)| ==> IsRadio(t, Preorder(t)[j], id)
    ensures forall k :: i <= k < j ==> !IsRadio(t, Preorder(t)[k], id)
    decreases |Preorder(t)| - i
  {
    if i == |Preorder(t)| || IsRadio(t, Preorder(t)[i], id) then i else FirstRadio(t, id, i + 1)
  }

  function Leader(t: Widget, id: int): Option<Path> {
    var j := FirstRadio(t, id, 0);
    if j < |Preorder(t)| then Some(Preorder(t)[j]) else None
  }

  /** A new radio button opens a group of its own, then joins the group of the first button with its id. */
  function JoinGroup(t: Widget, st: State, p: Path): State
    requires IsPath(t, p)
  {
    var leader := Leader(t, At(t, p).groupId);
    if p == [] then st.(status := Crashed)  // the search starts at the parent, which is null
    else if leader.None? || leader.value == p then st.(groups := st.groups[p := st.created], created := st.created + 1)
    else if leader.value !in st.groups then st.(status := Crashed)
    else st.(groups := st.groups[p := st.groups[leader.value]], created := st.created + 1)
  }

  /** AddChildGuiWidget of the parent; only grids keep data about it. */
  function AddChild(st: State, p: Path): State
    requires p != []
  {
    var q := Parent(p);
    if q in st.cursors then
      var (cell, c) := Place(st.cursors[q]);
      st.(cells := st.cells[p := cell], cursors := st.cursors[q := c])
    else st
  }

  function OwnData(t: Widget, st: State, p: Path): State
    requires IsPath(t, p)
  {
    var w := At(t, p);
    match w.kind
    case GridLayout => st.(cursors := st.cursors[p := NewCursor(w.rows, w.columns)])
    case RadioButton => JoinGroup(t, st, p)
    case Unhandled => st.(status := Failed)
    case _ => st
  }

  /** One widget. A dialog widget is a window of its own and is not added to its parent. */
  function SetupOne(t: Widget, st: State, p: Path): State
    requires IsPath(t, p)
  {
    var own := OwnData(t, st, p);
    if !st.status.Running? then st
    else if !own.status.Running? then own
    else
      var there := own.(done := own.done + [p]);
      if p == [] || At(t, p).kind.Dialog? then there else AddChild(there, p)
  }

  ghost predicate ArePaths(t: Widget, paths: seq<Path>) {
    forall i :: 0 <= i < |paths| ==> IsPath(t, paths[i])
  }

  function Run(t: Widget, st: State, paths: seq<Path>): State
    requires ArePaths(t, paths)
    decreases |paths|
  {
    if paths == [] then st else Run(t, SetupOne(t, st, paths[0]), paths[1..])
  }

  lemma {:induction false} RunConcat(t: Widget, st: State, a: seq<Path>, b: seq<Path>)
    requires ArePaths(t, a) && ArePaths(t, b)
    ensures ArePaths(t, a + b) && Run(t, st, a + b) == Run(t, Run(t, st, a), b)
    decreases |a|
  {
    if a == [] {
      assert a + b == b;
    } else {
      assert (a + b)[1..] == a[1..] + b;
      RunConcat(t, SetupOne(t, st, a[0]), a[1..], b);
    }
  }

  lemma {:induction false} RunStopped(t: Widget, st: State, paths: seq<Path>)
    requires ArePaths(t, paths) && !st.status.Running?
    ensures Run(t, st, paths) == st
    decreases |paths|
  {
    if paths != [] {
      RunStopped(t, st, paths[1..]);
    }
  }

  // ---------- the recursion of the source ----------

  function Under(p: Path, paths: seq<Path>): (r: seq<Path>)
    ensures |r| == |paths| && forall i :: 0 <= i < |r| ==> r[i] == p + paths[i]
  {
    seq(|paths|, i requires 0 <= i < |paths| => p + paths[i])
  }

  lemma {:induction false} UnderIsPath(t: Widget, p: Path, q: Path)
    requires IsPath(t, p) && IsPath(At(t, p), q)
    ensures IsPath(t, p + q)
    decreases p
  {
    if p == [] {
      assert p + q == q;
    } else {
      assert (p + q)[1..] == p[1..] + q;
      UnderIsPath(t.children[p[0]], p[1..], q);
    }
  }

  lemma UnderPreorder(t: Widget, p: Path)
    requires IsPath(t, p)
    ensures ArePaths(t, Under(p, Preorder(At(t, p)))) && ArePaths(t, Under(p, Forest(At(t, p), 0)))
    ensures Under(p, Preorder(At(t, p))) == [p] + Under(p, Forest(At(t, p), 0))
  {
    var w := At(t, p);
    forall i | 0 <= i < |Preorder(w)|
      ensures IsPath(t, p + Preorder(w)[i])
    {
      PreorderValid(w, i);
      UnderIsPath(t, p, Preorder(w)[i]);
    }
    assert p + [] == p;
    var f := Forest(w, 0);
    forall i | 0 <= i < |f|
      ensures IsPath(t, p + f[i])
    {
      assert f[i] == Preorder(w)[i + 1];
    }
  }

  lemma UnderForest(t: Widget, p: Path, k: nat)
    requires IsPath(t, p) && k < |At(t, p).children|
    ensures IsPath(t, p + [k]) && At(t, p + [k]) == At(t, p).children[k]
    ensures Under(p, Forest(At(t, p), k))
         == Under(p + [k], Preorder(At(t, p).children[k])) + Under(p, Forest(At(t, p), k + 1))
  {
    hide Preorder, At, IsPath;
    ChildIsPath(t, p, k);
    var w := At(t, p);
    UnderPrefixed(p, k, Preorder(w.children[k]));
    UnderConcat(p, Prefixed(k, Preorder(w.children[k])), Forest(w, k + 1));
  }

  lemma UnderConcat(p: Path, a: seq<Path>, b: seq<Path>)
    ensures Under(p, a + b) == Under(p, a) + Under(p, b)
  {
  }

  lemma UnderPrefixed(p: Path, k: nat, c: seq<Path>)
    ensures Under(p, Prefixed(k, c)) == Under(p + [k], c)
  {
    forall i | 0 <= i < |c|
      ensures p + ([k] + c[i]) == p + [k] + c[i]
    {
    }
  }

  lemma {:induction false} UnderForestPaths(t: Widget, p: Path, k: nat)
    requires IsPath(t, p) && k <= |At(t, p).children|
    ensures ArePaths(t, Under(p, Forest(At(t, p), k)))
    decreases |At(t, p).children| - k
  {
    if k < |At(t, p).children| {
      UnderForest(t, p, k);
      UnderPreorder(t, p + [k]);
      UnderForestPaths(t, p, k + 1);
    }
  }

  lemma RunForestStep(t: Widget, st: State, p: Path, k: nat)
    requires IsPath(t, p) && k < |At(t, p).children|
    ensures IsPath(t, p + [k]) && At(t, p + [k]) == At(t, p).children[k]
    ensures ArePaths(t, Under(p + [k], Preorder(At(t, p + [k]))))
    ensures ArePaths(t, Under(p, Forest(At(t, p), k))) && ArePaths(t, Under(p, Forest(At(t, p), k + 1)))
    ensures Run(t, st, Under(p, Forest(At(t, p), k)))
         == Run(t, Run(t, st, Under(p + [k], Preorder(At(t, p + [k])))), Under(p, Forest(At(t, p), k + 1)))
  {
    UnderForest(t, p, k);
    UnderPreorder(t, p + [k]);
    UnderForestPaths(t, p, k + 1);
    RunConcat(t, st, Under(p + [k], Preorder(At(t, p + [k]))), Under(p, Forest(At(t, p), k + 1)));
  }

  class Toolkit {
    const tree: Widget
    var state: State

    constructor (tree: Widget)
      ensures this.tree == tree && state == EMPTY
    {
      this.tree, state := tree, EMPTY;
    }

    /** The two loops of the radio button: up to the root, then along GetBelow to the first button of the group. */
    method FindLeader(p: Path, id: int) returns (leader: Option<Path>)
      requires IsPath(tree, p) && p != []
      ensures leader == Leader(tree, id)
    {
      var at := Parent(p);
      ParentIsPath(tree, p);
      while at != []
        invariant IsPath(tree, at)
        decreases |at|
      {
        ParentIsPath(tree, at);
        at := Parent(at);
      }
      leader := Some(at);
      ghost var i := 0;
      while leader.Some? && !(At(tree, leader.value).kind.RadioButton? && At(tree, leader.value).groupId == id)
        invariant leader.Some? ==> i < |Preorder(tree)| && leader.value == Preorder(tree)[i] && IsPath(tree, leader.value)
        invariant leader.None? ==> i == |Preorder(tree)|
        invariant i <= |Preorder(tree)| && FirstRadio(tree, id, i) == FirstRadio(tree, id, 0)
        decreases |Preorder(tree)| - i
      {
        BelowIsSuccessor(tree, i);
        leader := Below(tree, leader.value);
        i := i + 1;
        if i < |Preorder(tree)| {
          PreorderValid(tree, i);
        }
      }
    }

    method SetupRadio(p: Path)
      requires IsPath(tree, p) && At(tree, p).kind.RadioButton?
      modifies this
      ensures state == JoinGroup(tree, old(state), p)
    {
      if p == [] {
        state := state.(status := Crashed);
        return;
      }
      var leader := FindLeader(p, At(tree, p).groupId);
      var group := state.created;
      if leader.Some? && leader.value != p {
        if leader.value !in state.groups {
          state := state.(status := Crashed);
          return;
        }
        group := state.groups[leader.value];
      }
      state := state.(groups := state.groups[p := group], created := state.created + 1);
    }

    method SetupWidget(p: Path)
      requires IsPath(tree, p) && state.status.Running?
      modifies this
      ensures state == SetupOne(tree, old(state), p)
    {
      var w := At(tree, p);
      match w.kind {
        case GridLayout => state := state.(cursors := state.cursors[p := NewCursor(w.rows, w.columns)]);
        case RadioButton => SetupRadio(p);
        case Unhandled => state := state.(status := Failed);
        case _ =>
      }
      if state.status.Running? {
        state := state.(done := state.done + [p]);
        if p != [] && !w.kind.Dialog? {
          state := AddChild(state, p);
        }
      }
    }

    /** SetupTree: the widget, then its children one by one, stopping at the first error. */
    method SetupTree(p: Path)
      requires IsPath(tree, p) && state.status.Running?
      modifies this
      ensures ArePaths(tree, Under(p, Preorder(At(tree, p))))
      ensures state == Run(tree, old(state), Under(p, Preorder(At(tree, p))))
      decreases At(tree, p)
    {
      hide SetupOne;
      var w := At(tree, p);
      UnderPreorder(tree, p);
      SetupWidget(p);
      ghost var all := Run(tree, old(state), Under(p, Preorder(w)));
      FirstStep(tree, old(state), p);
      var k := 0;
      while k < |w.children| && state.status.Running?
        invariant k <= |w.children| && ArePaths(tree, Under(p, Forest(w, k)))
        invariant Run(tree, state, Under(p, Forest(w, k))) == all
      {
        hide Run;
        RunForestStep(tree, state, p, k);
        SetupTree(p + [k]);
        k := k + 1;
      }
      if k < |w.children| {
        RunStopped(tree, state, Under(p, Forest(w, k)));
      }
    }

    /** Gtk3Gui_Dialog_Setup, as far as the widgets go: the set-up of the whole tree. */
    method SetupDialog() returns (ok: bool)
      requires state == EMPTY
      modifies this
      ensures state == After(tree, |Preorder(tree)|)
      ensures ok == state.status.Running?
    {
      RootRun(tree);
      SetupTree([]);
      ok := state.status.Running?;
    }
  }

  lemma FirstStep(t: Widget, st: State, p: Path)
    requires IsPath(t, p)
    ensures ArePaths(t, Under(p, Preorder(At(t, p)))) && ArePaths(t, Under(p, Forest(At(t, p), 0)))
    ensures Run(t, st, Under(p, Preorder(At(t, p)))) == Run(t, SetupOne(t, st, p), Under(p, Forest(At(t, p), 0)))
  {
    UnderPreorder(t, p);
    var f := Under(p, Forest(At(t, p), 0));
    assert ([p] + f)[1..] == f;
  }

  // ---------- what the run leaves behind ----------

  /** The state after the first i widgets of the preorder. */
  ghost function After(t: Widget, i: nat): State
    requires i <= |Preorder(t)|
  {
    if i == 0 then EMPTY
    else
      PreorderValid(t, i - 1);
      SetupOne(t, After(t, i - 1), Preorder(t)[i - 1])
  }

  lemma {:induction false} RunIsAfter(t: Widget, i: nat)
    requires i <= |Preorder(t)|
    ensures ArePaths(t, Preorder(t)[i..]) && Run(t, After(t, i), Preorder(t)[i..]) == After(t, |Preorder(t)|)
    decreases |Preorder(t)| - i
  {
    var paths := Preorder(t)[i..];
    forall j | 0 <= j < |paths|
      ensures IsPath(t, paths[j])
    {
      PreorderValid(t, i + j);
    }
    if i < |Preorder(t)| {
      assert paths[1..] == Preorder(t)[i + 1..];
      RunIsAfter(t, i + 1);
    }
  }

  /** SetupTree from the root runs over the whole preorder. */
  lemma RootRun(t: Widget)
    ensures ArePaths(t, Under([], Preorder(t)))
    ensures Run(t, EMPTY, Under([], Preorder(t))) == After(t, |Preorder(t)|)
  {
    var p := Preorder(t);
    assert forall i :: 0 <= i < |p| ==> [] + p[i] == p[i];
    assert Under([], p) == p == p[0..];
    RunIsAfter(t, 0);
  }

  lemma {:induction false} RunningBefore(t: Widget, i: nat, j: nat)
    requires i <= j <= |Preorder(t)| && After(t, j).status.Running?
    ensures After(t, i).status.Running?
    decreases j - i
  {
    if i < j {
      PreorderValid(t, j - 1);
      RunningBefore(t, i, j - 1);
    }
  }

  // ---------- radio groups ----------

  ghost predicate Visited(t: Widget, i: nat, p: Path)
    requires i <= |Preorder(t)|
  {
    exists j :: 0 <= j < i && Preorder(t)[j] == p
  }

  ghost predicate IsButton(t: Widget, p: Path) {
    IsPath(t, p) && At(t, p).kind.RadioButton?
  }

  /** Among the widgets visited so far, sharing a group is having the same id. */
  ghost predicate GroupsMatch(t: Widget, i: nat, st: State)
    requires i <= |Preorder(t)|
  {
    && (forall p :: p in st.groups ==> IsButton(t, p) && Visited(t, i, p) && st.groups[p] < st.created)
    && (forall j :: 0 <= j < i && IsButton(t, Preorder(t)[j]) ==> Preorder(t)[j] in st.groups)
    && (forall p, q :: p in st.groups && q in st.groups ==>
          (st.groups[p] == st.groups[q] <==> At(t, p).groupId == At(t, q).groupId))
  }

  /** The first button with the id of the i-th widget is that widget, or one that is set up already. */
  lemma LeaderIsReady(t: Widget, i: nat, st: State)
    requires i < |Preorder(t)| && GroupsMatch(t, i, st) && IsButton(t, Preorder(t)[i])
    ensures var p := Preorder(t)[i];
      var leader := Leader(t, At(t, p).groupId);
      leader.Some? && (leader.value == p || (leader.value in st.groups && At(t, leader.value).groupId == At(t, p).groupId))
    ensures Leader(t, At(t, Preorder(t)[i]).groupId).value == Preorder(t)[i] ==>
      forall q :: q in st.groups ==> At(t, q).groupId != At(t, Preorder(t)[i]).groupId
  {
    hide At, IsPath, Preorder;
    var p := Preorder(t)[i];
    var id := At(t, p).groupId;
    var j := FirstRadio(t, id, 0);
    assert j <= i by { assert IsRadio(t, p, id); }
    if j < i {
      PreorderSorted(t, j, i);
      BeforeIsStrict(Preorder(t)[j], p);
    } else {
      forall q | q in st.groups
        ensures At(t, q).groupId != id
      {
        var k :| 0 <= k < i && Preorder(t)[k] == q;
        assert !IsRadio(t, Preorder(t)[k], id);
      }
    }
  }

  lemma JoinKeepsGroups(t: Widget, i: nat, st: State)
    requires i < |Preorder(t)| && GroupsMatch(t, i, st) && IsButton(t, Preorder(t)[i]) && Preorder(t)[i] != []
    ensures var st' := JoinGroup(t, st, Preorder(t)[i]);
      st'.status == st.status && GroupsMatch(t, i + 1, st')
  {
    hide At, IsPath, Preorder, Leader;
    LeaderIsReady(t, i, st);
    NotVisited(t, i);
    assert Visited(t, i + 1, Preorder(t)[i]);
    forall p | Visited(t, i, p) ensures Visited(t, i + 1, p) {}
  }

  lemma NotVisited(t: Widget, i: nat)
    requires i < |Preorder(t)|
    ensures !Visited(t, i, Preorder(t)[i])
  {
    forall j | 0 <= j < i
      ensures Preorder(t)[j] != Preorder(t)[i]
    {
      PreorderSorted(t, j, i);
      BeforeIsStrict(Preorder(t)[j], Preorder(t)[i]);
    }
  }

  lemma OthersKeepGroups(t: Widget, i: nat, st: State, st': State)
    requires i < |Preorder(t)| && GroupsMatch(t, i, st) && !IsButton(t, Preorder(t)[i])
    requires st'.groups == st.groups && st'.created == st.created
    ensures GroupsMatch(t, i + 1, st')
  {
    hide At, IsPath, Preorder;
    forall p | Visited(t, i, p) ensures Visited(t, i + 1, p) {}
  }

  /** SetupOne touches the groups only through the widget's own data. */
  lemma SetupGroups(t: Widget, st: State, p: Path)
    requires IsPath(t, p) && st.status.Running?
    ensures var own, r := OwnData(t, st, p), SetupOne(t, st, p);
      r.groups == own.groups && r.created == own.created && r.status == own.status
  {
  }

  /** The groups match in every state of a set-up that has not failed, and it never uses a null pointer below a root that is no button. */
  lemma {:induction false} GroupsInvariant(t: Widget, i: nat)
    requires i <= |Preorder(t)| && !t.kind.RadioButton?
    ensures !After(t, i).status.Crashed?
    ensures After(t, i).status.Running? ==> GroupsMatch(t, i, After(t, i))
    decreases i
  {
    hide SetupOne, Preorder, IsPath, At;
    if i > 0 {
      hide GroupsMatch;
      GroupsInvariant(t, i - 1);
      PreorderValid(t, i - 1);
      var st, p := After(t, i - 1), Preorder(t)[i - 1];
      if st.status.Running? {
        GroupsStep(t, i - 1, st);
      } else {
        StaysStopped(t, i - 1, i);
      }
    }
  }

  lemma GroupsStep(t: Widget, i: nat, st: State)
    requires i < |Preorder(t)| && !t.kind.RadioButton? && IsPath(t, Preorder(t)[i])
    requires st.status.Running? && GroupsMatch(t, i, st)
    ensures var r := SetupOne(t, st, Preorder(t)[i]);
      !r.status.Crashed? && (r.status.Running? ==> GroupsMatch(t, i + 1, r))
  {
    hide GroupsMatch, Preorder, JoinGroup, SetupOne, IsPath;
    var p := Preorder(t)[i];
    SetupGroups(t, st, p);
    if At(t, p).kind.RadioButton? {
      assert p != [];
      JoinKeepsGroups(t, i, st);
      SameGroups(t, i + 1, OwnData(t, st, p), SetupOne(t, st, p));
    } else if !At(t, p).kind.Unhandled? {
      OthersKeepGroups(t, i, st, SetupOne(t, st, p));
    }
  }

  lemma SameGroups(t: Widget, i: nat, st: State, st': State)
    requires i <= |Preorder(t)| && GroupsMatch(t, i, st) && st'.groups == st.groups && st'.created == st.created
    ensures GroupsMatch(t, i, st')
  {
  }

  /** After a successful set-up two radio buttons share a toolkit group iff they have the same group id. */
  lemma RadioGroups(t: Widget, p: Path, q: Path)
    requires !t.kind.RadioButton? && After(t, |Preorder(t)|).status.Running?
    requires IsButton(t, p) && IsButton(t, q)
    ensures var st := After(t, |Preorder(t)|);
      && p in st.groups && q in st.groups
      && (st.groups[p] == st.groups[q] <==> At(t, p).groupId == At(t, q).groupId)
  {
    hide After, At, IsPath, Preorder;
    GroupsInvariant(t, |Preorder(t)|);
    PreorderComplete(t, p);
    PreorderComplete(t, q);
  }

  /** A radio button as the root is the one case in which the set-up uses a null pointer. */
  lemma RootButtonCrashes(t: Widget)
    requires t.kind.RadioButton?
    ensures After(t, |Preorder(t)|).status.Crashed?
  {
    PreorderValid(t, 0);
    assert After(t, 1).status.Crashed?;
    StaysStopped(t, 1, |Preorder(t)|);
  }

  lemma {:induction false} StaysStopped(t: Widget, i: nat, j: nat)
    requires i <= j <= |Preorder(t)| && !After(t, i).status.Running?
    ensures After(t, j) == After(t, i)
    decreases j
  {
    if i < j {
      StaysStopped(t, i, j - 1);
      PreorderValid(t, j - 1);
    }
  }

  ghost predicate AllHandled(t: Widget) {
    forall p :: IsPath(t, p) ==> !At(t, p).kind.Unhandled?
  }

  lemma {:induction false} KeepsRunning(t: Widget, i: nat)
    requires i <= |Preorder(t)| && !t.kind.RadioButton?
    requires AllHandled(t)
    ensures After(t, i).status.Running?
    decreases i
  {
    if i > 0 {
      hide SetupOne, GroupsMatch, Preorder, IsPath, At, Leader;
      KeepsRunning(t, i - 1);
      GroupsInvariant(t, i);
      PreorderValid(t, i - 1);
      SetupGroups(t, After(t, i - 1), Preorder(t)[i - 1]);
    }
  }

  lemma UnhandledStops(t: Widget, i: nat)
    requires i < |Preorder(t)| && IsPath(t, Preorder(t)[i]) && At(t, Preorder(t)[i]).kind.Unhandled?
    ensures !After(t, |Preorder(t)|).status.Running?
  {
    hide Preorder, IsPath, At, Leader;
    assert !After(t, i + 1).status.Running?;
    StaysStopped(t, i + 1, |Preorder(t)|);
  }

  /** The set-up succeeds iff the root is no radio button and no widget has a type that is not handled. */
  lemma SetupSucceedsIff(t: Widget)
    ensures After(t, |Preorder(t)|).status.Running? <==> !t.kind.RadioButton? && AllHandled(t)
  {
    hide IsPath, At, Preorder, After;
    if t.kind.RadioButton? {
      RootButtonCrashes(t);
    } else if AllHandled(t) {
      KeepsRunning(t, |Preorder(t)|);
    } else {
      var p :| IsPath(t, p) && At(t, p).kind.Unhandled?;
      PreorderComplete(t, p);
      var j :| 0 <= j < |Preorder(t)| && Preorder(t)[j] == p;
      UnhandledStops(t, j);
    }
  }

  lemma OneDone(t: Widget, st: State, p: Path)
    requires IsPath(t, p) && st.status.Running? && SetupOne(t, st, p).status.Running?
    ensures SetupOne(t, st, p).done == st.done + [p]
  {
    hide At, IsPath, Leader, Place;
  }

  lemma {:induction false} DoneSoFar(t: Widget, i: nat)
    requires i <= |Preorder(t)| && After(t, i).status.Running?
    ensures After(t, i).done == Preorder(t)[..i]
    decreases i
  {
    hide Preorder, IsPath, SetupOne, At;
    if i > 0 {
      PreorderValid(t, i - 1);
      RunningBefore(t, i - 1, i);
      DoneSoFar(t, i - 1);
      OneDone(t, After(t, i - 1), Preorder(t)[i - 1]);
      assert Preorder(t)[..i] == Preorder(t)[..i - 1] + [Preorder(t)[i - 1]];
    }
  }

  /** A successful set-up has made a toolkit widget for every widget, in document order. */
  lemma AllSetUp(t: Widget)
    requires After(t, |Preorder(t)|).status.Running?
    ensures After(t, |Preorder(t)|).done == Preorder(t)
  {
    DoneSoFar(t, |Preorder(t)|);
  }

  // ---------- grids ----------

  /** How many of the first k children take a cell: all but dialogs. */
  function Rank(w: Widget, k: nat): (r: nat)
    requires k <= |w.children|
    ensures r <= k
  {
    if k == 0 then 0 else Rank(w, k - 1) + if w.children[k - 1].kind.Dialog? then 0 else 1
  }

  lemma {:induction false} RankCounts(w: Widget, k: nat)
    requires k <= |w.children|
    ensures Rank(w, k) == k <==> forall j :: 0 <= j < k ==> !w.children[j].kind.Dialog?
    decreases k
  {
    if k > 0 {
      RankCounts(w, k - 1);
    }
  }

  ghost predicate IsGrid(t: Widget, g: Path) {
    IsPath(t, g) && At(t, g).kind.GridLayout?
  }

  /** The first m children of the grid have been visited, and no others; the cursor and the cells are as many children make them. */
  ghost predicate GridFilled(t: Widget, g: Path, i: nat, m: nat, st: State)
    requires i <= |Preorder(t)| && IsGrid(t, g)
  {
    var w := At(t, g);
    && m <= |w.children|
    && (forall k: nat :: k < |w.children| ==> (Visited(t, i, g + [k]) <==> k < m))
    && (if Visited(t, i, g) then g in st.cursors && st.cursors[g] == CursorAfter(w.rows, w.columns, Rank(w, m)) else m == 0)
    && (forall k :: 0 <= k < m && !w.children[k].kind.Dialog? ==>
          g + [k] in st.cells && st.cells[g + [k]] == CellOf(w.rows, w.columns, Rank(w, k)))
  }

  lemma VisitedNext(t: Widget, i: nat, p: Path)
    requires i < |Preorder(t)|
    ensures Visited(t, i + 1, p) <==> Visited(t, i, p) || p == Preorder(t)[i]
  {
    if p == Preorder(t)[i] {
      assert Visited(t, i + 1, p);
    }
  }

  /** Whatever comes before the i-th widget in document order has been visited, the rest has not. */
  lemma VisitedIffBefore(t: Widget, i: nat, p: Path)
    requires i < |Preorder(t)| && IsPath(t, p)
    ensures Visited(t, i, p) <==> Before(p, Preorder(t)[i])
  {
    PreorderComplete(t, p);
    var j :| 0 <= j < |Preorder(t)| && Preorder(t)[j] == p;
    if j < i {
      PreorderSorted(t, j, i);
    } else if i < j {
      PreorderSorted(t, i, j);
      BeforeIsStrict(Preorder(t)[i], p);
      if Visited(t, i, p) {
        var k :| 0 <= k < i && Preorder(t)[k] == p;
        PreorderSorted(t, k, i);
      }
    } else {
      NotVisited(t, i);
      if Before(p, p) { BeforeIsStrict(p, p); }
    }
  }

  lemma {:induction false} SiblingsBefore(g: Path, j: nat, k: nat)
    ensures Before(g + [j], g + [k]) <==> j < k
    decreases g
  {
    if g != [] {
      assert (g + [j])[1..] == g[1..] + [j] && (g + [k])[1..] == g[1..] + [k];
      SiblingsBefore(g[1..], j, k);
    }
  }

  /** The i-th widget is the k-th child of the grid: then exactly the children left of it have been visited. */
  lemma VisitedSiblings(t: Widget, g: Path, i: nat, m: nat, k: nat, st: State)
    requires i < |Preorder(t)| && IsGrid(t, g) && GridFilled(t, g, i, m, st)
    requires k < |At(t, g).children| && Preorder(t)[i] == g + [k]
    ensures k == m && Visited(t, i, g)
  {
    hide Preorder, CursorAfter;
    ParentBefore(g, k);
    VisitedIffBefore(t, i, g);
    NotVisited(t, i);
    if m < k {
      ChildIsPath(t, g, m);
      VisitedIffBefore(t, i, g + [m]);
      SiblingsBefore(g, m, k);
    }
  }

  /** Visiting the grid itself: none of its children can have been visited. */
  lemma GridVisited(t: Widget, g: Path, i: nat, m: nat, st: State)
    requires i < |Preorder(t)| && IsGrid(t, g) && GridFilled(t, g, i, m, st) && Preorder(t)[i] == g
    ensures m == 0
  {
    NotVisited(t, i);
  }

  /** Setting up one widget changes a grid's cursor only if it is the grid or one of its children. */
  lemma SetupElsewhere(t: Widget, st: State, p: Path, g: Path)
    requires IsPath(t, p) && st.status.Running? && p != g && (p != [] ==> Parent(p) != g)
    ensures var r := SetupOne(t, st, p);
      && (g in r.cursors <==> g in st.cursors) && (g in st.cursors ==> r.cursors[g] == st.cursors[g])
      && forall q :: q != p && q in st.cells ==> q in r.cells && r.cells[q] == st.cells[q]
  {
    OwnDataElsewhere(t, st, p);
    hide OwnData;
  }

  lemma OwnDataElsewhere(t: Widget, st: State, p: Path)
    requires IsPath(t, p)
    ensures var own := OwnData(t, st, p);
      && own.cells == st.cells
      && forall g :: g != p ==> (g in own.cursors <==> g in st.cursors) && (g in st.cursors ==> own.cursors[g] == st.cursors[g])
  {
  }

  lemma SetupGrid(t: Widget, st: State, g: Path)
    requires IsGrid(t, g) && st.status.Running?
    ensures var r := SetupOne(t, st, g);
      g in r.cursors && r.cursors[g] == NewCursor(At(t, g).rows, At(t, g).columns)
  {
  }

  lemma SetupChild(t: Widget, st: State, g: Path, k: nat)
    requires IsPath(t, g + [k]) && st.status.Running? && g in st.cursors
    ensures var p, r := g + [k], SetupOne(t, st, g + [k]);
      && g in r.cursors
      && (forall q :: q != p && q in st.cells ==> q in r.cells && r.cells[q] == st.cells[q])
      && (r.status.Running? ==> if At(t, p).kind.Dialog? then r.cursors[g] == st.cursors[g]
            else p in r.cells && (r.cells[p], r.cursors[g]) == Place(st.cursors[g]))
  {
    assert Parent(g + [k]) == g;
  }

  lemma GridStepChild(t: Widget, g: Path, i: nat, m: nat, st: State, k: nat)
    requires i < |Preorder(t)| && IsGrid(t, g) && GridFilled(t, g, i, m, st) && st.status.Running?
    requires k < |At(t, g).children| && Preorder(t)[i] == g + [k] && IsPath(t, g + [k])
    requires SetupOne(t, st, g + [k]).status.Running?
    ensures GridFilled(t, g, i + 1, m + 1, SetupOne(t, st, g + [k]))
  {
    hide Preorder, IsPath, At, SetupOne, Visited, Place;
    VisitedSiblings(t, g, i, m, k, st);
    ChildKind(t, g, k);
    SetupChild(t, st, g, k);
    VisitedNext(t, i, g);
    forall j: nat | j < |At(t, g).children|
      ensures Visited(t, i + 1, g + [j]) <==> j < m + 1
    {
      VisitedNext(t, i, g + [j]);
      LastDiffers(g, j, k);
    }
    forall j | 0 <= j < m
      ensures g + [j] != g + [k]
    {
      LastDiffers(g, j, k);
    }
  }

  lemma ChildKind(t: Widget, g: Path, k: nat)
    requires IsPath(t, g) && k < |At(t, g).children| && IsPath(t, g + [k])
    ensures At(t, g + [k]) == At(t, g).children[k]
  {
    ChildIsPath(t, g, k);
  }

  lemma LastDiffers(g: Path, j: nat, k: nat)
    ensures g + [j] == g + [k] <==> j == k
  {
    assert (g + [j])[|g|] == j && (g + [k])[|g|] == k;
  }

  lemma GridStepOther(t: Widget, g: Path, i: nat, m: nat, st: State, p: Path)
    requires i < |Preorder(t)| && IsGrid(t, g) && GridFilled(t, g, i, m, st) && st.status.Running?
    requires p == Preorder(t)[i] && IsPath(t, p) && p != g && (p != [] ==> Parent(p) != g)
    ensures GridFilled(t, g, i + 1, m, SetupOne(t, st, p))
  {
    hide Preorder, IsPath, At, SetupOne, Visited, CursorAfter;
    SetupElsewhere(t, st, p, g);
    VisitedNext(t, i, g);
    forall j: nat
      ensures g + [j] != p && (Visited(t, i + 1, g + [j]) <==> Visited(t, i, g + [j]))
    {
      assert Parent(g + [j]) == g;
      VisitedNext(t, i, g + [j]);
    }
  }

  lemma GridStepGrid(t: Widget, g: Path, i: nat, m: nat, st: State)
    requires i < |Preorder(t)| && IsGrid(t, g) && GridFilled(t, g, i, m, st) && st.status.Running?
    requires g == Preorder(t)[i]
    ensures GridFilled(t, g, i + 1, m, SetupOne(t, st, g))
  {
    hide Preorder, IsPath, At, SetupOne, Visited;
    GridVisited(t, g, i, m, st);
    SetupGrid(t, st, g);
    VisitedNext(t, i, g);
    forall j: nat
      ensures Visited(t, i + 1, g + [j]) <==> Visited(t, i, g + [j])
    {
      assert |g + [j]| != |g|;
      VisitedNext(t, i, g + [j]);
    }
  }

  lemma {:induction false} GridInvariant(t: Widget, g: Path, i: nat) returns (m: nat)
    requires i <= |Preorder(t)| && IsGrid(t, g) && After(t, i).status.Running?
    ensures GridFilled(t, g, i, m, After(t, i))
    decreases i
  {
    hide GridFilled, SetupOne, IsPath, At, Preorder;
    if i == 0 {
      m := 0;
      NothingFilled(t, g);
    } else {
      RunningBefore(t, i - 1, i);
      m := GridInvariant(t, g, i - 1);
      PreorderValid(t, i - 1);
      m := GridStepAny(t, g, i - 1, m, After(t, i - 1));
    }
  }

  lemma NothingFilled(t: Widget, g: Path)
    requires IsGrid(t, g)
    ensures GridFilled(t, g, 0, 0, EMPTY)
  {
  }

  lemma GridStepAny(t: Widget, g: Path, i: nat, m: nat, st: State) returns (m': nat)
    requires i < |Preorder(t)| && IsPath(t, Preorder(t)[i]) && IsGrid(t, g) && GridFilled(t, g, i, m, st)
    requires st.status.Running? && SetupOne(t, st, Preorder(t)[i]).status.Running?
    ensures GridFilled(t, g, i + 1, m', SetupOne(t, st, Preorder(t)[i]))
  {
    hide GridFilled, SetupOne, At, IsPath, Preorder;
    var p := Preorder(t)[i];
    m' := m;
    if p == g {
      GridStepGrid(t, g, i, m, st);
    } else if p != [] && Parent(p) == g {
      var k := p[|p| - 1];
      assert p == g + [k];
      ParentIsPath(t, p);
      GridStepChild(t, g, i, m, st, k);
      m' := m + 1;
    } else {
      GridStepOther(t, g, i, m, st, p);
    }
  }

  /** After a successful set-up every child of a grid but a dialog has the cell of its rank. */
  lemma GridCells(t: Widget, g: Path, k: nat)
    requires After(t, |Preorder(t)|).status.Running? && IsGrid(t, g)
    requires k < |At(t, g).children| && !At(t, g).children[k].kind.Dialog?
    ensures var st, w := After(t, |Preorder(t)|), At(t, g);
      g + [k] in st.cells && st.cells[g + [k]] == CellOf(w.rows, w.columns, Rank(w, k))
  {
    hide After, At, IsPath, Preorder, CursorAfter;
    var m := GridInvariant(t, g, |Preorder(t)|);
    ChildIsPath(t, g, k);
    PreorderComplete(t, g + [k]);
    assert Visited(t, |Preorder(t)|, g + [k]);
  }

  /** For all extents: GTK and Qt give a child of a grid the same cell iff its rank and its index are alike. */
  lemma GridsAlike(t: Widget, g: Path, k: nat)
    requires After(t, |Preorder(t)|).status.Running? && IsGrid(t, g)
    requires k < |At(t, g).children| && !At(t, g).children[k].kind.Dialog?
    ensures var st, w := After(t, |Preorder(t)|), At(t, g);
      && g + [k] in st.cells
      && (st.cells[g + [k]] == QtCell(w.rows, w.columns, k) <==> Alike(w.rows, w.columns, Rank(w, k), k))
  {
    hide After, IsPath, Preorder, CursorAfter, QtCell, GtkCell, CellOf, Alike;
    var w := At(t, g);
    GridCells(t, g, k);
    CursorIsClosedForm(w.rows, w.columns, Rank(w, k));
    CellsAlike(w.rows, w.columns, Rank(w, k), k);
  }

  /**
    With one extent positive: the same cell iff no dialog stands before the child among its
    siblings and the columns are not negative, short of the first children of a single row.
   */
  lemma GridAgreement(t: Widget, g: Path, k: nat)
    requires After(t, |Preorder(t)|).status.Running? && IsGrid(t, g) && OnePositive(At(t, g).rows, At(t, g).columns)
    requires k < |At(t, g).children| && !At(t, g).children[k].kind.Dialog?
    ensures var st, w := After(t, |Preorder(t)|), At(t, g);
      && g + [k] in st.cells
      && (st.cells[g + [k]] == QtCell(w.rows, w.columns, k) <==>
            && (forall j :: 0 <= j < k ==> !w.children[j].kind.Dialog?)
            && (w.columns >= 0 || k == 0 || (w.rows == 1 && k < -w.columns)))
  {
    hide After, IsPath, Preorder, QtCell, Alike;
    var w := At(t, g);
    GridsAlike(t, g, k);
    RankCounts(w, k);
    NoFewer(w.rows, w.columns, Rank(w, k), k);
  }

  /** A dialog in a grid: the set-up succeeds, and the next child's cell is not the one of Qt. */
  lemma DialogShiftsCells() returns (t: Widget, g: Path, k: nat)
    ensures After(t, |Preorder(t)|).status.Running? && IsGrid(t, g) && OnePositive(At(t, g).rows, At(t, g).columns)
    ensures k < |At(t, g).children| && !At(t, g).children[k].kind.Dialog?
    ensures g + [k] in After(t, |Preorder(t)|).cells
    ensures After(t, |Preorder(t)|).cells[g + [k]] != QtCell(At(t, g).rows, At(t, g).columns, k)
  {
    hide After, Preorder;
    var grid := Widget(GridLayout, 0, 0, 2, [Widget(Dialog, 0, 0, 0, []), Widget(Plain, 0, 0, 0, [])]);
    t, g, k := Widget(Dialog, 0, 0, 0, [grid]), [0], 1;
    forall p | IsPath(t, p)
      ensures !At(t, p).kind.Unhandled?
    {
      if p != [] && p[1..] != [] {
        var q := p[1..];
        assert IsPath(grid, q) && At(t, p) == At(grid, q);
        assert IsPath(grid.children[q[0]], q[1..]) && At(grid, q) == At(grid.children[q[0]], q[1..]);
        assert q[1..] == [];
      }
    }
    SetupSucceedsIff(t);
    assert IsPath(t, g) && At(t, g) == grid;
    GridAgreement(t, g, k);
    assert grid.children[0].kind.Dialog?;
  }
}
