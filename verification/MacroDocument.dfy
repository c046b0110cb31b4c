/**
  Whole documents: texts in which nothing is invoked, and invocations, in any number and
  order. The reader's list is exactly what a person would write down.
 */
module MacroDocument {
  import opened CText
  import opened MacroSpec
  import opened MacroGrammar
  import opened MacroScanner
  import opened MacroFile

  /** Lines in which no macro is invoked, or the lines that an invocation of the k-th macro is broken over. */
  datatype Item = Text(lines: seq<string>) | Call(lines: seq<string>, k: nat, v: Invocation)

  /** Continued lines; in the joined text every macro is absent, mentioned or defined. */
  ghost predicate IsText(macros: seq<string>, size: nat, lines: seq<string>) {
    && IsContinued(lines)
    && var s := JoinFrom([], lines);
    && |s| + 3 < size
    && forall i :: 0 <= i < |macros| ==> !Occurs(s, macros[i]) || Idle(macros[i], s)
  }

  ghost predicate IsItem(macros: seq<string>, size: nat, item: Item) {
    match item
    case Text(lines) => IsText(macros, size, lines)
    case Call(lines, k, v) => IsCall(macros, size, lines, k, v)
  }

  function DocumentText(items: seq<Item>): string {
    if items == [] then [] else FileOf(items[0].lines) + DocumentText(items[1..])
  }

  /** The entries that a reader of the document would write down, newest first and each type once. */
  function Recorded(macros: seq<string>, items: seq<Item>, list: seq<Entry>): seq<Entry>
    decreases |items|
  {
    if items == [] then list
    else match items[0]
      case Text(_) => Recorded(macros, items[1..], list)
      case Call(_, k, v) =>
        Recorded(macros, items[1..], if k < |macros| then Record(list, macros[k], v.typeName, v.prefix) else list)
  }

  lemma ReadText(macros: seq<string>, size: nat, lines: seq<string>, list: seq<Entry>, rest: string)
    requires AreNames(macros) && IsText(macros, size, lines)
    ensures ReadMacros(macros, size, FileOf(lines) + rest, [], list) == ReadMacros(macros, size, rest, [], list)
  {
    hide ReadMacros, Idle, Occurs, Scan;
    var s := JoinFrom([], lines);
    forall i | 0 <= i < |macros|
      ensures Scan(macros[i], s).Reject?
    {
      IdleOrAbsent(macros[i], s);
    }
    ScanAllRejected(macros, 0, s, list);
    ReadContinued(macros, size, lines, [], list, rest);
  }

  lemma ReadItem(macros: seq<string>, size: nat, item: Item, list: seq<Entry>, rest: string)
    requires AreNames(macros) && IsItem(macros, size, item)
    ensures ReadMacros(macros, size, FileOf(item.lines) + rest, [], list)
         == ReadMacros(macros, size, rest, [], Recorded(macros, [item], list))
  {
    hide ReadMacros, JoinFrom, Prints, Occurs, FileOf;
    assert [item][1..] == [];
    match item
    case Text(lines) => ReadText(macros, size, lines, list, rest);
    case Call(lines, k, v) => CallRead(macros, size, k, lines, v, list, rest);
  }

  lemma RecordedStep(macros: seq<string>, items: seq<Item>, list: seq<Entry>)
    requires items != []
    ensures Recorded(macros, items, list) == Recorded(macros, items[1..], Recorded(macros, [items[0]], list))
  {
    hide Record;
    var one := [items[0]];
    assert one[1..] == [];
  }

  /** A document of any number of texts and invocations is read to exactly the entries it holds. */
  lemma {:induction false} DocumentRead(macros: seq<string>, size: nat, items: seq<Item>, list: seq<Entry>)
    requires AreNames(macros) && size >= 3 && forall i :: 0 <= i < |items| ==> IsItem(macros, size, items[i])
    ensures ReadMacros(macros, size, DocumentText(items), [], list) == Some(Recorded(macros, items, list))
    decreases |items|
  {
    if items != [] {
      hide ReadMacros, IsItem, FileOf, Record;
      var item := items[0];
      ReadItem(macros, size, item, list, DocumentText(items[1..]));
      DocumentRead(macros, size, items[1..], Recorded(macros, [item], list));
      RecordedStep(macros, items, list);
    }
  }

  // ---------- what the list holds ----------

  ghost predicate SamePair(a: Entry, b: Entry) {
    a.macroName == b.macroName && a.typeName == b.typeName
  }

  ghost predicate CallsMacros(macros: seq<string>, items: seq<Item>) {
    forall j :: 0 <= j < |items| && items[j].Call? ==> items[j].k < |macros|
  }

  function EntryOf(macros: seq<string>, item: Item): Entry
    requires item.Call? && item.k < |macros|
  {
    Entry(macros[item.k], item.v.typeName, item.v.prefix)
  }

  /** The j-th item is the first invocation of its macro with its type, and the list does not know them either. */
  ghost predicate IsNew(macros: seq<string>, items: seq<Item>, j: nat, list: seq<Entry>)
    requires j < |items| && CallsMacros(macros, items)
  {
    && items[j].Call?
    && (forall i :: 0 <= i < |list| ==> !SamePair(list[i], EntryOf(macros, items[j])))
    && (forall i :: 0 <= i < j && items[i].Call? ==> !SamePair(EntryOf(macros, items[i]), EntryOf(macros, items[j])))
  }

  /** The numbers of the new items, in their order. */
  ghost predicate AreNews(macros: seq<string>, items: seq<Item>, list: seq<Entry>, news: seq<nat>)
    requires CallsMacros(macros, items)
  {
    && (forall i :: 0 <= i < |news| ==> news[i] < |items| && IsNew(macros, items, news[i], list))
    && (forall j: nat :: j < |items| && IsNew(macros, items, j, list) ==> j in news)
    && (forall i, j :: 0 <= i < j < |news| ==> news[i] < news[j])
  }

  /** r is the list with the entries of the numbered items in front of it, the last one first. */
  ghost predicate InFront(macros: seq<string>, items: seq<Item>, news: seq<nat>, list: seq<Entry>, r: seq<Entry>) {
    && |r| == |news| + |list| && r[|news|..] == list
    && (forall i :: 0 <= i < |news| ==>
          && news[i] < |items| && items[news[i]].Call? && items[news[i]].k < |macros|
          && r[|news| - 1 - i] == EntryOf(macros, items[news[i]]))
  }

  ghost predicate Knows(list: seq<Entry>, e: Entry) {
    exists i :: 0 <= i < |list| && SamePair(list[i], e)
  }

  /** No invocation of the document is missing in the list. */
  ghost predicate KnowsAll(macros: seq<string>, items: seq<Item>, r: seq<Entry>)
    requires CallsMacros(macros, items)
  {
    forall j :: 0 <= j < |items| && items[j].Call? ==> Knows(r, EntryOf(macros, items[j]))
  }

  lemma {:induction false} RecordedLast(macros: seq<string>, items: seq<Item>, last: Item, list: seq<Entry>)
    ensures Recorded(macros, items + [last], list) == Recorded(macros, [last], Recorded(macros, items, list))
    decreases |items|
  {
    hide Record;
    if items == [] {
      assert items + [last] == [last];
    } else {
      assert (items + [last])[1..] == items[1..] + [last];
      var list' := Recorded(macros, [items[0]], list);
      RecordedStep(macros, items, list);
      RecordedStep(macros, items + [last], list);
      RecordedLast(macros, items[1..], last, list');
    }
  }

  lemma RecordedOne(macros: seq<string>, item: Item, list: seq<Entry>)
    ensures item.Text? ==> Recorded(macros, [item], list) == list
    ensures item.Call? && item.k < |macros| ==> var e := EntryOf(macros, item);
      Recorded(macros, [item], list) == if Knows(list, e) then list else [e] + list
  {
    assert [item][1..] == [];
    if item.Call? && item.k < |macros| {
      var e := EntryOf(macros, item);
      RecordIs(list, e);
      assert Knows(list, e) <==>
        exists i :: 0 <= i < |list| && list[i].macroName == e.macroName && list[i].typeName == e.typeName;
    }
  }

  /** Items that follow do not matter for what is new. */
  lemma NewInFront(macros: seq<string>, items: seq<Item>, last: Item, j: nat, list: seq<Entry>)
    requires CallsMacros(macros, items + [last]) && CallsMacros(macros, items) && j < |items|
    ensures IsNew(macros, items + [last], j, list) <==> IsNew(macros, items, j, list)
  {
    assert forall i :: 0 <= i <= j ==> (items + [last])[i] == items[i];
  }

  lemma CallsInFront(macros: seq<string>, items: seq<Item>, last: Item)
    requires CallsMacros(macros, items + [last])
    ensures CallsMacros(macros, items) && (last.Call? ==> last.k < |macros|)
  {
    assert forall i :: 0 <= i < |items| ==> (items + [last])[i] == items[i];
    assert (items + [last])[|items|] == last;
  }

  /** The last item is new iff it is an invocation that the list of the others does not know. */
  lemma NewIffUnknown(macros: seq<string>, items: seq<Item>, last: Item, list: seq<Entry>, news: seq<nat>, r: seq<Entry>)
    requires CallsMacros(macros, items + [last]) && CallsMacros(macros, items) && last.Call? && last.k < |macros|
    requires InFront(macros, items, news, list, r) && KnowsAll(macros, items, r)
    ensures IsNew(macros, items + [last], |items|, list) <==> !Knows(r, EntryOf(macros, last))
  {
    var e := EntryOf(macros, last);
    var all := items + [last];
    assert all[|items|] == last && forall i :: 0 <= i < |items| ==> all[i] == items[i];
    if Knows(r, e) {
      var i :| 0 <= i < |r| && SamePair(r[i], e);
      if i < |news| {
        var j := news[|news| - 1 - i];
        assert r[i] == EntryOf(macros, items[j]);
        assert all[j] == items[j];
      } else {
        assert r[i] == list[i - |news|];
      }
    } else {
      forall i | 0 <= i < |list|
        ensures !SamePair(list[i], e)
      {
        assert list[i] == r[|news| + i];
      }
      forall i | 0 <= i < |items| && all[i].Call?
        ensures !SamePair(EntryOf(macros, all[i]), e)
      {
        assert Knows(r, EntryOf(macros, items[i]));
        var j :| 0 <= j < |r| && SamePair(r[j], EntryOf(macros, items[i]));
        assert !SamePair(r[j], e);
      }
    }
  }

  lemma NewsGrow(macros: seq<string>, items: seq<Item>, last: Item, list: seq<Entry>, news: seq<nat>)
    requires CallsMacros(macros, items + [last]) && CallsMacros(macros, items) && AreNews(macros, items, list, news)
    ensures AreNews(macros, items + [last], list,
      if IsNew(macros, items + [last], |items|, list) then news + [|items|] else news)
  {
    hide IsNew, CallsMacros;
    var all := items + [last];
    var news' := if IsNew(macros, all, |items|, list) then news + [|items|] else news;
    forall j: nat | j < |items|
      ensures IsNew(macros, all, j, list) <==> IsNew(macros, items, j, list)
    {
      NewInFront(macros, items, last, j, list);
    }
    assert |all| == |items| + 1;
    assert forall i :: 0 <= i < |news| ==> news'[i] == news[i];
    forall j: nat | j < |all| && IsNew(macros, all, j, list)
      ensures j in news'
    {
      if j < |items| {
        var i :| 0 <= i < |news| && news[i] == j;
        assert news'[i] == j;
      }
    }
  }

  lemma ListGrows(macros: seq<string>, items: seq<Item>, last: Item, list: seq<Entry>, news: seq<nat>, r: seq<Entry>)
    requires last.Call? && last.k < |macros| && InFront(macros, items, news, list, r)
    ensures InFront(macros, items + [last], news + [|items|], list, [EntryOf(macros, last)] + r)
  {
    var all, news', r' := items + [last], news + [|items|], [EntryOf(macros, last)] + r;
    assert r'[|news'|..] == r[|news|..];
    forall i | 0 <= i < |news'|
      ensures news'[i] < |all| && all[news'[i]].Call? && all[news'[i]].k < |macros|
      ensures r'[|news'| - 1 - i] == EntryOf(macros, all[news'[i]])
    {
      if i < |news| {
        assert news'[i] == news[i] && all[news[i]] == items[news[i]];
        assert r'[|news'| - 1 - i] == r[|news| - 1 - i];
      }
    }
  }

  lemma ListStays(macros: seq<string>, items: seq<Item>, last: Item, list: seq<Entry>, news: seq<nat>, r: seq<Entry>)
    requires InFront(macros, items, news, list, r)
    ensures InFront(macros, items + [last], news, list, r)
  {
    assert forall i :: 0 <= i < |items| ==> (items + [last])[i] == items[i];
  }

  lemma KnowledgeGrows(macros: seq<string>, items: seq<Item>, last: Item, r: seq<Entry>, r': seq<Entry>)
    requires CallsMacros(macros, items + [last]) && CallsMacros(macros, items) && KnowsAll(macros, items, r)
    requires r' == r || (|r'| == |r| + 1 && r'[1..] == r)
    requires last.Call? && last.k < |macros| ==> Knows(r', EntryOf(macros, last))
    ensures KnowsAll(macros, items + [last], r')
  {
    var all := items + [last];
    forall j | 0 <= j < |all| && all[j].Call?
      ensures Knows(r', EntryOf(macros, all[j]))
    {
      if j < |items| {
        assert Knows(r, EntryOf(macros, items[j]));
        var i :| 0 <= i < |r| && SamePair(r[i], EntryOf(macros, items[j]));
        assert r'[i + |r'| - |r|] == r[i];
      }
    }
  }

  /** The list written down for a document: its new invocations, in reverse order, in front of the old list. */
  lemma {:induction false} RecordedAddsNew(macros: seq<string>, items: seq<Item>, list: seq<Entry>) returns (news: seq<nat>)
    requires CallsMacros(macros, items)
    ensures var r := Recorded(macros, items, list);
      AreNews(macros, items, list, news) && InFront(macros, items, news, list, r) && KnowsAll(macros, items, r)
    decreases |items|
  {
    news := [];
    if items != [] {
      var front, last := items[..|items| - 1], items[|items| - 1];
      assert items == front + [last];
      CallsInFront(macros, front, last);
      news := RecordedAddsNew(macros, front, list);
      RecordedLast(macros, front, last, list);
      news := OneMore(macros, front, last, list, news, Recorded(macros, front, list));
    }
  }

  lemma OneMore(macros: seq<string>, items: seq<Item>, last: Item, list: seq<Entry>, news: seq<nat>, r: seq<Entry>)
    returns (news': seq<nat>)
    requires CallsMacros(macros, items + [last]) && CallsMacros(macros, items)
    requires AreNews(macros, items, list, news) && InFront(macros, items, news, list, r) && KnowsAll(macros, items, r)
    ensures var r', all := Recorded(macros, [last], r), items + [last];
      AreNews(macros, all, list, news') && InFront(macros, all, news', list, r') && KnowsAll(macros, all, r')
  {
    hide AreNews, InFront, KnowsAll, Recorded;
    CallsInFront(macros, items, last);
    RecordedOne(macros, last, r);
    NewsGrow(macros, items, last, list, news);
    var r' := Recorded(macros, [last], r);
    if last.Call? {
      var e := EntryOf(macros, last);
      NewIffUnknown(macros, items, last, list, news, r);
      if Knows(r, e) {
        news' := news;
        ListStays(macros, items, last, list, news, r);
      } else {
        news' := news + [|items|];
        ListGrows(macros, items, last, list, news, r);
        assert SamePair(r'[0], e);
      }
    } else {
      news' := news;
      assert (items + [last])[|items|] == last;
      ListStays(macros, items, last, list, news, r);
    }
    KnowledgeGrows(macros, items, last, r, r');
  }

  /** What is read out of a document: exactly its new invocations, in reverse order, in front of the old list. */
  lemma DocumentHolds(macros: seq<string>, size: nat, items: seq<Item>, list: seq<Entry>)
    returns (news: seq<nat>, r: seq<Entry>)
    requires AreNames(macros) && size >= 3 && forall i :: 0 <= i < |items| ==> IsItem(macros, size, items[i])
    ensures ReadMacros(macros, size, DocumentText(items), [], list) == Some(r)
    ensures CallsMacros(macros, items) && AreNews(macros, items, list, news) && InFront(macros, items, news, list, r)
  {
    forall j | 0 <= j < |items| && items[j].Call?
      ensures items[j].k < |macros|
    {
      assert IsItem(macros, size, items[j]);
    }
    hide IsItem, ReadMacros, Recorded;
    DocumentRead(macros, size, items, list);
    r := Recorded(macros, items, list);
    news := RecordedAddsNew(macros, items, list);
  }
}
