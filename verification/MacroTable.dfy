/**
  The list macros that mklistdoc looks for. Their names never overlap in a text, so an
  invocation of one is no occurrence of another, and whole documents are read as promised.
 */
module MacroTable {
  import opened CText
  import opened CBuffer
  import opened MacroGrammar
  import opened MacroScanner
  import opened MacroFile
  import opened MacroDocument

  const MACROS: seq<string> := [
    "GWEN_LIST2_FUNCTION_DEFS", "GWEN_LIST2_FUNCTION_LIB_DEFS",
    "GWEN_CONSTLIST2_FUNCTION_DEFS", "GWEN_CONSTLIST2_FUNCTION_LIB_DEFS",
    "GWEN_LIST_FUNCTION_DEFS", "GWEN_LIST_FUNCTION_LIB_DEFS",
    "GWEN_CONSTLIST_FUNCTION_DEFS", "GWEN_CONSTLIST_FUNCTION_LIB_DEFS"]

  lemma TableNames()
    ensures AreNames(MACROS)
  {
    forall i | 0 <= i < |MACROS|
      ensures MACROS[i] != [] && !IsSpace(MACROS[i][0])
    {
      assert MACROS[i][0] == 'G';
    }
  }

  lemma OnlyTheFirstIsG(i: nat, j: nat)
    requires i < |MACROS| && j < |MACROS[i]|
    ensures MACROS[i][j] == 'G' <==> j == 0
  {
  }

  /** No name begins with another one: they differ at the L or C, at the 2, or at the LIB. */
  lemma NamesDiffer(i: nat, k: nat) returns (d: nat)
    requires i < |MACROS| && k < |MACROS| && i != k
    ensures d < |MACROS[i]| && d < |MACROS[k]| && MACROS[i][d] != MACROS[k][d]
  {
    var m, n := MACROS[i], MACROS[k];
    if m[5] != n[5] {
      d := 5;
    } else {
      var two := if m[5] == 'L' then 9 else 14;
      if m[two] != n[two] {
        d := two;
      } else {
        d := if m[two] == '2' then two + 11 else two + 10;
      }
    }
  }

  /** Two occurrences of names from the table are the same or lie apart. */
  lemma NamesLieApart(s: string, i: nat, p: nat, k: nat, q: nat)
    requires i < |MACROS| && k < |MACROS| && p <= q
    requires MatchesAt(s, p, MACROS[i]) && MatchesAt(s, q, MACROS[k])
    ensures (i == k && p == q) || p + |MACROS[i]| <= q
  {
    hide MACROS;
    var m, n := MACROS[i], MACROS[k];
    assert n != [] by { TableNames(); }
    OnlyTheFirstIsG(k, 0);
    assert s[q] == n[0];
    if q < p + |m| {
      assert m[q - p] == s[q];
      OnlyTheFirstIsG(i, q - p);
      if i != k {
        var d := NamesDiffer(i, k);
      }
    }
  }

  /** What occurs at p in a + c and ends within a, or begins within c, occurs there. */
  lemma MatchInParts(a: string, c: string, p: nat, m: string)
    ensures MatchesAt(a + c, p, m) && p + |m| <= |a| ==> Occurs(a, m)
    ensures MatchesAt(a + c, p, m) && |a| <= p ==> Occurs(c, m)
  {
    if MatchesAt(a + c, p, m) && p + |m| <= |a| {
      MatchesAtPrefix(a, c, p, m);
    }
    if MatchesAt(a + c, p, m) && |a| <= p {
      assert c[p - |a|..p - |a| + |m|] == (a + c)[p..p + |m|];
      assert MatchesAt(c, p - |a|, m);
    }
  }

  lemma OccursInPart(a: string, c: string, m: string)
    requires Occurs(a, m) || Occurs(c, m)
    ensures Occurs(a + c, m)
  {
    if p: nat :| MatchesAt(a, p, m) {
      MatchesAtPrefix(a, c, p, m);
    } else {
      var p: nat :| MatchesAt(c, p, m);
      assert (a + c)[|a| + p..|a| + p + |m|] == c[p..p + |m|];
      assert MatchesAt(a + c, |a| + p, m);
    }
  }

  /** Around an invocation of one macro, another one occurs only before or behind its name. */
  lemma OthersAround(i: nat, k: nat, a: string, b: string)
    requires i < |MACROS| && k < |MACROS| && i != k
    ensures Occurs(a + MACROS[k] + b, MACROS[i]) <==> Occurs(a, MACROS[i]) || Occurs(b, MACROS[i])
  {
    hide MACROS;
    var m, n := MACROS[i], MACROS[k];
    var s := a + n + b;
    assert s == a + (n + b);
    if Occurs(a, m) || Occurs(b, m) {
      if Occurs(b, m) { OccursInPart(n, b, m); }
      OccursInPart(a, n + b, m);
    } else if Occurs(s, m) {
      var p: nat :| MatchesAt(s, p, m);
      assert MatchesAt(s, |a|, n);
      if p <= |a| {
        NamesLieApart(s, i, p, k, |a|);
        MatchInParts(a, n + b, p, m);
      } else {
        NamesLieApart(s, k, |a|, i, p);
        MatchInParts(a + n, b, p, m);
      }
    }
  }

  lemma FirstInTable(k: nat, a: string, b: string)
    requires k < |MACROS| && !Occurs(a, MACROS[k])
    ensures FirstAt(MACROS[k], a + MACROS[k] + b, |a|)
  {
    hide MACROS;
    var n := MACROS[k];
    var s := a + n + b;
    assert MatchesAt(s, |a|, n);
    assert s == a + (n + b);
    forall p: nat | p < |a|
      ensures !MatchesAt(s, p, n)
    {
      if MatchesAt(s, p, n) {
        NamesLieApart(s, k, p, k, |a|);
        MatchesAtPrefix(a, n + b, p, n);
      }
    }
  }

  /** An invocation in any layout is one that the document theorem covers, if no name stands before it and no other one behind. */
  lemma TableCall(lines: seq<string>, k: nat, v: Invocation)
    requires AreLines(lines) && lines != [] && !EndsOpen(lines[|lines| - 1]) && k < |MACROS|
    requires JoinFrom([], lines) == Print(MACROS[k], v) && |JoinFrom([], lines)| + 3 < MAX_LINESIZE
    requires Continues([], lines, |v.before| + |MACROS[k]|) && LastStart([], lines) + |v.after| < |JoinFrom([], lines)|
    requires WellFormed(v) && !IsDefinition(v.before)
    requires forall i :: 0 <= i < |MACROS| ==> !Occurs(v.before, MACROS[i])
    requires forall i :: 0 <= i < |MACROS| && i != k ==> !Occurs(v.gap1 + (['('] + PrintArguments(v)), MACROS[i])
    ensures IsItem(MACROS, MAX_LINESIZE, Call(lines, k, v))
  {
    hide Occurs, Idle, MACROS, JoinFrom, LastStart, Continues, WellFormed, IsDefinition, PrintArguments, FirstAt;
    var behind := v.gap1 + (['('] + PrintArguments(v));
    assert Print(MACROS[k], v) == v.before + MACROS[k] + behind;
    FirstInTable(k, v.before, behind);
    forall i | 0 <= i < |MACROS| && i != k
      ensures !Occurs(v.before + MACROS[k] + behind, MACROS[i])
    {
      OthersAround(i, k, v.before, behind);
    }
  }

  lemma NamesAreShort(k: nat, j: nat)
    requires k < |MACROS|
    ensures |MACROS[k]| <= 33
    ensures j < |MACROS[k]| ==> MACROS[k][j] != '\n'
  {
  }

  /** The plainest layout of an invocation. */
  function Plain(typeName: string, prefix: string): Invocation {
    Invocation([], [], [], typeName, [], [], prefix, [], ')', [])
  }

  lemma PlainPrint(name: string, typeName: string, prefix: string)
    requires IsWord(typeName, false) && IsWord(prefix, true)
    ensures WellFormed(Plain(typeName, prefix)) && !IsDefinition([])
    ensures var v := Plain(typeName, prefix); v.gap1 + (['('] + PrintArguments(v)) == "(" + typeName + "," + prefix + ")"
    ensures Print(name, Plain(typeName, prefix)) == name + "(" + typeName + "," + prefix + ")"
  {
    var v := Plain(typeName, prefix);
    assert PrintPrefix(v) == prefix + ")";
    assert PrintArguments(v) == typeName + "," + (prefix + ")");
  }

  lemma OneLine(k: nat, typeName: string, prefix: string)
    requires k < |MACROS| && IsWord(typeName, false) && IsWord(prefix, true) && |typeName| + |prefix| < 8000
    ensures var line := MACROS[k] + "(" + typeName + "," + prefix + ")";
      && AreLines([line]) && !EndsOpen(line) && |line| + 3 < 8192
      && JoinFrom([], [line]) == line && LastStart([], [line]) == 0
      && FileOf([line]) + [] == line + "\n"
  {
    hide MACROS;
    var line := MACROS[k] + "(" + typeName + "," + prefix + ")";
    NamesAreShort(k, 0);
    forall j | 0 <= j < |line|
      ensures line[j] != '\n'
    {
      if j < |MACROS[k]| { NamesAreShort(k, j); }
    }
    assert [line][1..] == [];
  }

  /** The smallest file: one line with one invocation is read to one entry. */
  lemma OneLineFile(k: nat, typeName: string, prefix: string)
    requires k < |MACROS| && IsWord(typeName, false) && IsWord(prefix, true) && |typeName| + |prefix| < 8000
    requires forall i :: 0 <= i < |MACROS| && i != k ==> !Occurs("(" + typeName + "," + prefix + ")", MACROS[i])
    ensures ReadMacros(MACROS, 8192, MACROS[k] + "(" + typeName + "," + prefix + ")" + "\n", [], [])
         == Some([Entry(MACROS[k], typeName, prefix)])
  {
    hide MACROS, ReadMacros, JoinFrom, LastStart, FileOf, WellFormed, IsDefinition, EndsOpen, PrintArguments, Print, IsWord, AreLines, IsCall;
    var v := Plain(typeName, prefix);
    var line := MACROS[k] + "(" + typeName + "," + prefix + ")";
    TableNames();
    PlainPrint(MACROS[k], typeName, prefix);
    OneLine(k, typeName, prefix);
    TableCall([line], k, v);
    BrokenInvocation(MACROS, 8192, k, [line], v, [], []);
    var e := Entry(MACROS[k], typeName, prefix);
    assert [e] + [] == [e];
    ReadNothing(MACROS, 8192, [], [e]);
  }

  /** mklistdoc on a document of texts and invocations: the list is exactly what the document holds. */
  method ScanDocument(items: seq<Item>) returns (ok: bool, list: seq<Entry>, ghost news: seq<nat>)
    requires NUL !in DocumentText(items)
    requires forall i :: 0 <= i < |items| ==> IsItem(MACROS, 8192, items[i])
    ensures ok && list == Recorded(MACROS, items, [])
    ensures CallsMacros(MACROS, items) && AreNews(MACROS, items, [], news) && InFront(MACROS, items, news, [], list)
    ensures GoodList(MACROS, list)
  {
    hide MACROS, ReadMacros, IsItem, Recorded, GoodList, CallsMacros, AreNews, InFront;
    var file := new InputFile(DocumentText(items));
    var scanner := new Scanner(MACROS);
    TableNames();
    DocumentRead(MACROS, 8192, items, []);
    ghost var r;
    news, r := DocumentHolds(MACROS, 8192, items, []);
    NothingRecorded(MACROS);
    ReadMacrosKeeps(MACROS, 8192, DocumentText(items), [], []);
    ok := scanner.ScanForMacros(file);
    list := scanner.list;
  }

  lemma NothingRecorded(macros: seq<string>)
    ensures GoodList(macros, [])
  {
  }
}
