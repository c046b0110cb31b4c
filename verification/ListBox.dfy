/**
  List boxes hold rows of columns; titles and rows go in and out as tab-separated text.
  The GTK list box is modelled with its store, Qt's by the splitting loop it uses.
 */
module ListBox {
  import opened Basics
  import opened CText
  import opened HtmlSplit

  const TAB: char := '\t'
  const MAX_TYPES: nat := 256

  // ---------- tab-separated text ----------

  /** The fields between the tabs; there is always at least one. */
  function Fields(s: string): (f: seq<string>)
    ensures |f| > 0
  {
    var j := StrChr(s, TAB, 0);
    if j == |s| then [s] else [s[..j]] + Fields(s[j + 1..])
  }

  function Join(f: seq<string>): string {
    if f == [] then [] else if |f| == 1 then f[0] else f[0] + [TAB] + Join(f[1..])
  }

  ghost predicate NoTabs(f: seq<string>) {
    forall i :: 0 <= i < |f| ==> TAB !in f[i]
  }

  lemma {:induction false} FieldsHaveNoTabs(s: string)
    ensures NoTabs(Fields(s))
    decreases |s|
  {
    var j := StrChr(s, TAB, 0);
    if j < |s| {
      FieldsHaveNoTabs(s[j + 1..]);
    }
  }

  lemma {:induction false} JoinFields(s: string)
    ensures Join(Fields(s)) == s
    decreases |s|
  {
    var j := StrChr(s, TAB, 0);
    if j < |s| {
      JoinFields(s[j + 1..]);
      assert Fields(s)[1..] == Fields(s[j + 1..]);
      assert s == s[..j] + [TAB] + s[j + 1..];
    }
  }

  lemma TabAt(a: string, b: string)
    requires TAB !in a
    ensures StrChr(a + [TAB] + b, TAB, 0) == |a| && StrChr(a, TAB, 0) == |a|
  {
    StrChrIs(a + [TAB] + b, TAB, 0, |a|);
    StrChrIs(a, TAB, 0, |a|);
  }

  lemma {:induction false} FieldsJoin(f: seq<string>)
    requires f != [] && NoTabs(f)
    ensures Fields(Join(f)) == f
    decreases |f|
  {
    if |f| == 1 {
      TabAt(f[0], []);
    } else {
      var rest := Join(f[1..]);
      TabAt(f[0], rest);
      FieldsJoin(f[1..]);
      var s := f[0] + [TAB] + rest;
      assert s[..|f[0]|] == f[0] && s[|f[0]| + 1..] == rest;
    }
  }

  // ---------- the GTK loop ----------

  /** while (*p && i < cols): cut at the next tab, use the piece, go on behind the tab. */
  function GtkSplit(s: string, cols: nat): seq<string>
    decreases cols
  {
    if s == [] || cols == 0 then []
    else
      var j := StrChr(s, TAB, 0);
      if j == |s| then [s] else [s[..j]] + GtkSplit(s[j + 1..], cols - 1)
  }

  /** The fields without an empty one at the end. */
  function Trimmed(f: seq<string>): seq<string>
    requires f != []
  {
    if f[|f| - 1] == [] then f[..|f| - 1] else f
  }

  function Prefix(f: seq<string>, n: nat): seq<string> {
    if n < |f| then f[..n] else f
  }

  /** The loop yields the fields, short of an empty last one, up to the column limit. */
  lemma {:induction false} GtkSplitIs(s: string, cols: nat)
    ensures GtkSplit(s, cols) == Prefix(Trimmed(Fields(s)), cols)
    decreases cols
  {
    var j := StrChr(s, TAB, 0);
    if s != [] && cols > 0 && j < |s| {
      GtkSplitIs(s[j + 1..], cols - 1);
      TrimmedCons(s[..j], Fields(s[j + 1..]), cols);
    }
  }

  lemma TrimmedCons(x: string, rest: seq<string>, cols: nat)
    requires rest != [] && cols > 0
    ensures Prefix(Trimmed([x] + rest), cols) == [x] + Prefix(Trimmed(rest), cols - 1)
  {
    assert Trimmed([x] + rest) == [x] + Trimmed(rest);
  }

  // ---------- Qt's loop ----------

  /** QString::section('\t', n, n): the n-th field, or nothing behind the last one. */
  function NthField(s: string, n: nat): string {
    var f := Fields(s);
    if n < |f| then f[n] else []
  }

  function QtSplitFrom(s: string, n: nat): seq<string>
    decreases |Fields(s)| - n
  {
    if NthField(s, n) == [] then [] else [NthField(s, n)] + QtSplitFrom(s, n + 1)
  }

  method QtSplit(text: string) returns (sl: seq<string>)
    ensures sl == QtSplitFrom(text, 0)
  {
    sl := [];
    var n := 0;
    var t := NthField(text, n);
    while t != []
      invariant t == NthField(text, n) && sl + QtSplitFrom(text, n) == QtSplitFrom(text, 0)
      decreases |Fields(text)| - n
    {
      sl, n := sl + [t], n + 1;
      t := NthField(text, n);
    }
  }

  ghost predicate NoneEmpty(f: seq<string>) {
    forall i :: 0 <= i < |f| ==> f[i] != []
  }

  /** Qt stops at the first empty field. */
  lemma {:induction false} QtSplitIs(s: string, n: nat)
    requires n <= |Fields(s)|
    ensures var f, q := Fields(s), QtSplitFrom(s, n);
      && n + |q| <= |f| && q == f[n..n + |q|] && NoneEmpty(q)
      && (n + |q| < |f| ==> f[n + |q|] == [])
    decreases |Fields(s)| - n
  {
    if NthField(s, n) != [] {
      QtSplitIs(s, n + 1);
      var f, q := Fields(s), QtSplitFrom(s, n + 1);
      assert f[n..n + 1 + |q|] == [f[n]] + f[n + 1..n + 1 + |q|];
    }
  }

  /** Within the column limit the two backends see the same columns iff no field before the last one is empty. */
  lemma SplitsAgreeIff(s: string, cols: nat)
    requires |Fields(s)| <= cols
    ensures QtSplitFrom(s, 0) == GtkSplit(s, cols) <==> NoneEmpty(Fields(s)[..|Fields(s)| - 1])
  {
    GtkSplitIs(s, cols);
    QtSplitIs(s, 0);
    hide GtkSplit, QtSplitFrom, Fields;
    PrefixIsTrimmedIff(Fields(s), QtSplitFrom(s, 0));
  }

  /** The longest prefix without empty fields is all but an empty last field iff nothing else is empty. */
  lemma PrefixIsTrimmedIff(f: seq<string>, q: seq<string>)
    requires |f| > 0 && |q| <= |f| && q == f[0..|q|] && NoneEmpty(q) && (|q| < |f| ==> f[|q|] == [])
    ensures q == Trimmed(f) <==> NoneEmpty(f[..|f| - 1])
  {
    var n := |f| - 1;
    assert forall i :: 0 <= i < |q| ==> q[i] == f[i];
    assert forall i :: 0 <= i < n ==> f[..n][i] == f[i];
    if NoneEmpty(f[..n]) {
      assert f[0..n] == f[..n] && f[0..n + 1] == f;
    }
    if q == Trimmed(f) {
      assert forall i :: 0 <= i < n ==> f[i] == q[i];
    }
  }

  /** The same for what is typed in: Qt drops its own mark-up only if there is an HTML section. */
  lemma BackendsAgreeIff(s: string, cols: nat)
    requires |Fields(s)| <= cols && FindSection(s).NoSection?
    ensures QtSplitFrom(QtText(s), 0) == GtkSplit(s, cols) <==> NoneEmpty(Fields(s)[..|Fields(s)| - 1])
  {
    SplitsAgreeIff(s, cols);
  }

  // ---------- normal form ----------

  /** Cut to n fields, or filled up with empty ones. */
  function Normal(f: seq<string>, n: nat): (r: seq<string>)
    ensures |r| == n
    ensures forall i :: 0 <= i < n ==> r[i] == if i < |f| then f[i] else []
  {
    seq(n, i requires 0 <= i < n => if i < |f| then f[i] else [])
  }

  datatype Row = Row(cells: seq<Option<string>>)

  function Shown(c: Option<string>): string {
    if c.None? then [] else c.value
  }

  /** What the loop over the view's columns reads out of a row. */
  function ReadRow(row: Row, n: nat): (f: seq<string>)
    requires n <= |row.cells|
    ensures |f| == n && forall i :: 0 <= i < n ==> f[i] == Shown(row.cells[i])
  {
    seq(n, i requires 0 <= i < n => Shown(row.cells[i]))
  }

  function MakeRow(f: seq<string>, n: nat): (row: Row)
    ensures |row.cells| == n
    ensures forall i :: 0 <= i < n ==> row.cells[i] == if i < |f| then Some(f[i]) else None
  {
    Row(seq(n, i requires 0 <= i < n => if i < |f| then Some(f[i]) else None))
  }

  /** The row made of a value reads back as the value's fields in normal form. */
  lemma RowIsNormal(value: string, n: nat)
    ensures ReadRow(MakeRow(GtkSplit(value, n), n), n) == Normal(Fields(value), n)
  {
    GtkSplitIs(value, n);
    var f := Fields(value);
    assert forall i :: 0 <= i < n ==> ReadRow(MakeRow(GtkSplit(value, n), n), n)[i] == Normal(f, n)[i];
  }

  /** Writing a value back as it was read changes nothing more. */
  lemma NormalIsFixed(value: string, n: nat)
    requires n > 0
    ensures var back := Join(Normal(Fields(value), n)); Join(Normal(Fields(back), n)) == back
  {
    FieldsHaveNoTabs(value);
    FieldsJoin(Normal(Fields(value), n));
    assert Normal(Normal(Fields(value), n), n) == Normal(Fields(value), n);
  }

  // ---------- the GTK list box ----------

  class GtkListBox {
    var titles: seq<string>   // the columns of the view
    var columns: nat          // the widget's column count, which is also the width of the store
    var store: Option<seq<Row>>

    constructor ()
      ensures Valid() && titles == [] && store == None
    {
      titles, columns, store := [], 0, None;
    }

    ghost predicate Valid()
      reads this
    {
      && |titles| <= columns
      && (store.Some? ==> forall i :: 0 <= i < |store.value| ==> |store.value[i].cells| == columns)
    }

    /** The splitting loop, on a copy of the value. */
    method SplitLoop(value: string, cols: nat) returns (pieces: seq<string>)
      ensures pieces == GtkSplit(value, cols)
    {
      hide GtkSplit, StrChr;
      pieces := [];
      var p, i := 0, 0;
      assert value[0..] == value;
      while p < |value| && i < cols
        invariant p <= |value| && i <= cols
        invariant pieces + GtkSplit(value[p..], cols - i) == GtkSplit(value, cols)
        decreases cols - i
      {
        var s := value[p..];
        var t := StrChr(s, TAB, 0);
        GtkSplitStep(s, cols - i);
        if t == |s| {
          pieces := pieces + [s];
          return;
        }
        assert value[p + t + 1..] == s[t + 1..];
        Regroup(pieces, [s[..t]], GtkSplit(s[t + 1..], cols - i - 1));
        pieces := pieces + [s[..t]];
        p, i := p + t + 1, i + 1;
      }
      GtkSplitStep(value[p..], cols - i);
    }

    method CountColumns(value: string) returns (cols: nat)
      ensures cols == if value == [] then 0 else |Fields(value)|
    {
      cols := 0;
      if value != [] {
        cols := 1;
        var i := 0;
        assert value[0..] == value;
        while i < |value|
          invariant i <= |value|
          invariant cols + |Fields(value[i..])| == 1 + |Fields(value)|
        {
          CountStep(value, i);
          if value[i] == TAB {
            cols := cols + 1;
          }
          i := i + 1;
        }
      }
    }

    /** Title: a new, empty store as wide as the title has columns. */
    method SetTitle(value: Option<string>) returns (rv: int)
      requires Valid()
      modifies this
      ensures Valid()
      ensures rv == if value.None? || value.value == [] then ERROR_INVALID else 0
      ensures rv != 0 ==> titles == old(titles) && columns == old(columns) && store == old(store)
      ensures rv == 0 ==>
        && columns == (if |Fields(value.value)| < MAX_TYPES then |Fields(value.value)| else MAX_TYPES)
        && titles == GtkSplit(value.value, columns) && store == Some([])
    {
      var cols := 0;
      if value.Some? {
        cols := CountColumns(value.value);
      }
      if cols == 0 {
        return ERROR_INVALID;
      }
      if cols > MAX_TYPES {
        cols := MAX_TYPES;
      }
      GtkSplitIs(value.value, cols);
      titles := SplitLoop(value.value, cols);
      columns, store := cols, Some([]);
      rv := 0;
    }

    /** AddValue: a new row at the end, if there is a store. */
    method AddValue(value: string)
      requires Valid()
      modifies this`store
      ensures Valid()
      ensures store == if old(store).None? then None
        else Some(old(store).value + [MakeRow(GtkSplit(value, columns), columns)])
    {
      if store.Some? {
        var pieces := SplitLoop(value, columns);
        store := Some(store.value + [MakeRow(pieces, columns)]);
      }
    }

    method JoinLoop(f: seq<string>) returns (text: string)
      ensures text == Join(f)
    {
      text := [];
      var cnt := 0;
      while cnt < |f|
        invariant cnt <= |f|
        invariant cnt == 0 ==> text == []
        invariant cnt > 0 ==> Join(f) == text + if cnt < |f| then [TAB] + Join(f[cnt..]) else []
      {
        if cnt > 0 {
          text := text + [TAB];
        }
        assert f[cnt..][1..] == f[cnt + 1..];
        if cnt == 0 { assert f[cnt..] == f; }
        text := text + f[cnt];
        cnt := cnt + 1;
      }
    }

    method GetTitle(default: Option<string>) returns (r: Option<string>)
      ensures r == if titles == [] then default else Some(Join(titles))
    {
      if titles == [] {
        return default;
      }
      var text := JoinLoop(titles);
      r := Some(text);
    }

    method GetValue(index: int, default: Option<string>) returns (r: Option<string>)
      requires Valid()
      ensures r == if store.Some? && 0 <= index < |store.value| && titles != []
        then Some(Join(ReadRow(store.value[index], |titles|))) else default
    {
      if store.None? || !(0 <= index < |store.value|) || titles == [] {
        return default;
      }
      var text := JoinLoop(ReadRow(store.value[index], |titles|));
      r := Some(text);
    }
  }

  lemma GtkSplitStep(s: string, cols: nat)
    ensures s == [] || cols == 0 ==> GtkSplit(s, cols) == []
    ensures s != [] && cols > 0 ==>
      var j := StrChr(s, TAB, 0);
      GtkSplit(s, cols) == if j == |s| then [s] else [s[..j]] + GtkSplit(s[j + 1..], cols - 1)
  {
  }

  lemma CountStep(value: string, i: nat)
    requires i < |value|
    ensures |Fields(value[i..])| == |Fields(value[i + 1..])| + if value[i] == TAB then 1 else 0
  {
    var s := value[i..];
    assert s[1..] == value[i + 1..];
    if s[0] == TAB {
      assert StrChr(s, TAB, 0) == 0;
    } else {
      var j := StrChr(s, TAB, 0);
      var k := j - 1;
      assert forall n :: 0 <= n < |s| - 1 ==> s[1..][n] == s[n + 1];
      StrChrIs(s[1..], TAB, 0, k);
      assert j < |s| ==> s[j + 1..] == s[1..][k + 1..];
    }
  }

  /** A box with a store whose columns are exactly the fields of the title. */
  ghost predicate Titled(box: GtkListBox, title: string)
    reads box
  {
    box.Valid() && box.store.Some? && box.titles == Fields(title) && box.columns == |box.titles|
  }

  /** A title reads back unchanged, and is what the box has for its columns, iff it fits the column limit and does not end in a tab. */
  method TitleRoundTrip(box: GtkListBox, title: string) returns (rv: int, back: Option<string>)
    requires box.Valid() && title != []
    modifies box
    ensures rv == 0 && box.Valid() && box.store == Some([])
    ensures back == Some(title) <==> |Fields(title)| <= 256 && title[|title| - 1] != '\t'
    ensures Titled(box, title) <==> back == Some(title)
  {
    rv := box.SetTitle(Some(title));
    back := box.GetTitle(None);
    TitleReadBack(title, box.columns);
    TitleFits(title, box.columns);
  }

  lemma TitleFits(title: string, cols: nat)
    requires title != [] && cols == if |Fields(title)| < MAX_TYPES then |Fields(title)| else MAX_TYPES
    ensures GtkSplit(title, cols) == Fields(title) <==> |Fields(title)| <= MAX_TYPES && title[|title| - 1] != TAB
  {
    GtkSplitIs(title, cols);
    TrimmedIff(title);
  }

  /** Whatever rows a titled box holds: a row added to it reads back in normal form, and the rows before it stay. */
  method RowRoundTrip(box: GtkListBox, title: string, value: string) returns (back: Option<string>)
    requires Titled(box, title)
    modifies box`store
    ensures Titled(box, title) && |box.store.value| == |old(box.store).value| + 1
    ensures box.store.value[..|old(box.store).value|] == old(box.store).value
    ensures back == Some(Join(Normal(Fields(value), |Fields(title)|)))
  {
    var last := |box.store.value|;
    box.AddValue(value);
    back := box.GetValue(last, None);
    RowIsNormal(value, |Fields(title)|);
  }

  /** The last field is empty iff the text is empty or ends in a tab. */
  lemma {:induction false} TrimmedIff(s: string)
    ensures var f := Fields(s); f[|f| - 1] == [] <==> s == [] || s[|s| - 1] == TAB
    decreases |s|
  {
    var j := StrChr(s, TAB, 0);
    if j < |s| {
      TrimmedIff(s[j + 1..]);
      var f := Fields(s);
      assert f[|f| - 1] == Fields(s[j + 1..])[|f| - 2];
    }
  }

  lemma TitleReadBack(title: string, cols: nat)
    requires title != [] && cols == if |Fields(title)| < MAX_TYPES then |Fields(title)| else MAX_TYPES
    ensures var t := GtkSplit(title, cols);
      t != [] && (Join(t) == title <==> |Fields(title)| <= MAX_TYPES && title[|title| - 1] != TAB)
  {
    var f := Fields(title);
    GtkSplitIs(title, cols);
    TrimmedIff(title);
    JoinFields(title);
    FieldsHaveNoTabs(title);
    var t := GtkSplit(title, cols);
    assert |f| == 1 ==> f == [title];
    if Join(t) == title {
      FieldsJoin(t);
    }
  }
}
