/**
  Whole files: an invocation that is broken over lines is recorded as if it stood on
  one line, and no file whatsoever makes the reader record a type twice.
 */
module MacroFile {
  import opened Basics
  import opened CText
  import opened CBuffer
  import opened MacroSpec
  import opened MacroGrammar
  import opened MacroScanner

  // ---------- one invocation over several lines ----------

  /** What a line adds to the joined text: a trailing backslash is dropped. */
  function Body(line: string): string {
    if line != [] && line[|line| - 1] == '\\' then line[..|line| - 1] else line
  }

  /** A line put behind a text, with a blank between them. */
  function Behind(text: string, line: string): string {
    if text == [] then line else text + " " + line
  }

  /** The lines joined by single blanks, behind what the buffer holds. */
  function JoinFrom(buf: string, lines: seq<string>): string
    decreases |lines|
  {
    if lines == [] then buf else JoinFrom(Behind(buf, Body(lines[0])), lines[1..])
  }

  /** Where the last line begins in the joined text. */
  function LastStart(buf: string, lines: seq<string>): nat
    decreases |lines|
  {
    if |lines| <= 1 then |buf| else LastStart(Behind(buf, Body(lines[0])), lines[1..])
  }

  function FileOf(lines: seq<string>): string {
    if lines == [] then [] else lines[0] + ['\n'] + FileOf(lines[1..])
  }

  ghost predicate AreLines(lines: seq<string>) {
    forall i :: 0 <= i < |lines| ==> '\n' !in lines[i]
  }

  /** What mklistdoc looks for: names that are not empty and do not start with white space. */
  ghost predicate AreNames(macros: seq<string>) {
    forall i :: 0 <= i < |macros| ==> macros[i] != [] && !IsSpace(macros[i][0])
  }

  // ---------- names that are not invoked ----------

  /** The first occurrence of the name, at b, is followed by something other than a bracket. */
  ghost predicate Mentions(name: string, s: string, b: nat, next: nat) {
    && FirstAt(name, s, b) && b + |name| <= next < |s| && SpaceBetween(s, b + |name|, next)
    && !IsSpace(s[next]) && s[next] != '('
  }

  /** The first occurrence of the name is in its definition. */
  ghost predicate Defines(name: string, s: string, v: Invocation) {
    WellFormed(v) && Print(name, v) == s && FirstAt(name, s, |v.before|) && IsDefinition(v.before)
  }

  ghost predicate Idle(name: string, s: string) {
    (exists b: nat, next: nat :: Mentions(name, s, b, next)) || (exists v :: Defines(name, s, v))
  }

  lemma AbsentIsRejected(name: string, s: string)
    requires !Occurs(s, name)
    ensures Scan(name, s) == Reject
  {
    StrStrFirst(s, name, 0);
  }

  lemma IdleIsRejected(name: string, s: string)
    requires Idle(name, s) && name != [] && !IsSpace(name[0])
    ensures Scan(name, s) == Reject && Occurs(s, name)
  {
    hide Mentions, Defines, Scan, Occurs;
    if b: nat, next: nat :| Mentions(name, s, b, next) {
      MentionedIsRejected(name, s, b, next);
    } else {
      var v :| Defines(name, s, v);
      DefinedIsRejected(name, s, v);
    }
  }

  lemma MentionedIsRejected(name: string, s: string, b: nat, next: nat)
    requires Mentions(name, s, b, next)
    ensures Scan(name, s) == Reject && Occurs(s, name)
  {
    StrStrIs(s, name, b);
    SkipSpaceIs(s, b + |name|, next);
  }

  lemma DefinedIsRejected(name: string, s: string, v: Invocation)
    requires Defines(name, s, v) && name != [] && !IsSpace(name[0])
    ensures Scan(name, s) == Reject && Occurs(s, name)
  {
    hide Print, Parse, DefinesAt, IsDefinition;
    var b := |v.before|;
    BeforeName(name, v);
    PrintThenParse(name, s, v);
    DefinitionIff(name, s, b);
    StrStrIs(s, name, b);
  }

  /** All macros but the k-th are rejected in s. */
  ghost predicate Silent(macros: seq<string>, k: nat, s: string) {
    forall i :: 0 <= i < |macros| && i != k ==> Scan(macros[i], s).Reject?
  }

  /** The same from the b-th character on, however far s has been read. */
  ghost predicate SilentFrom(macros: seq<string>, k: nat, s: string, b: nat) {
    forall n :: b <= n <= |s| ==> Silent(macros, k, s[..n])
  }

  /** The other macros do not occur in s, or are mentioned or defined in front of b. */
  ghost predicate OthersIdle(macros: seq<string>, k: nat, s: string, b: nat) {
    && k < |macros| && b <= |s|
    && forall i :: 0 <= i < |macros| && i != k ==> !Occurs(s, macros[i]) || Idle(macros[i], s[..b])
  }

  lemma AbsentInPrefix(name: string, s: string, n: nat)
    requires !Occurs(s, name) && n <= |s|
    ensures !Occurs(s[..n], name)
  {
    forall j: nat | MatchesAt(s[..n], j, name)
      ensures MatchesAt(s, j, name)
    {
      assert s[j..j + |name|] == s[..n][j..j + |name|];
    }
  }

  lemma IdleStays(name: string, s: string, b: nat, n: nat)
    requires b <= n <= |s| && Idle(name, s[..b]) && name != [] && !IsSpace(name[0])
    ensures Scan(name, s[..n]) == Reject
  {
    hide Idle, Scan, Occurs;
    IdleIsRejected(name, s[..b]);
    VerdictStable(name, s[..b], s[b..n]);
    assert s[..n] == s[..b] + s[b..n];
  }

  lemma IdleIsSilent(macros: seq<string>, k: nat, s: string, b: nat)
    requires OthersIdle(macros, k, s, b) && AreNames(macros)
    ensures SilentFrom(macros, k, s, b)
  {
    hide Idle, Scan, Occurs;
    forall n, i | b <= n <= |s| && 0 <= i < |macros| && i != k
      ensures Scan(macros[i], s[..n]) == Reject
    {
      if Idle(macros[i], s[..b]) {
        IdleStays(macros[i], s, b, n);
      } else {
        AbsentInPrefix(macros[i], s, n);
        AbsentIsRejected(macros[i], s[..n]);
      }
    }
  }

  // ---------- the loop over all macros ----------

  lemma {:induction false} ScanAllRejected(macros: seq<string>, i: nat, s: string, list: seq<Entry>)
    requires i <= |macros| && forall j :: i <= j < |macros| ==> Scan(macros[j], s).Reject?
    ensures ScanAll(macros, i, s, list) == LineResult(0, s, list)
    decreases |macros| - i
  {
    if i < |macros| {
      ScanAllRejected(macros, i + 1, s, list);
    }
  }

  /** With the other macros rejected, the loop over all macros comes down to the k-th. */
  lemma {:induction false} ScanAllReaches(macros: seq<string>, i: nat, k: nat, s: string, list: seq<Entry>)
    requires i <= k < |macros| && Silent(macros, k, s)
    ensures ScanAll(macros, i, s, list) == ScanAll(macros, k, s, list)
    decreases k - i
  {
    if i < k {
      ScanAllReaches(macros, i + 1, k, s, list);
    }
  }

  lemma ScanAllFound(macros: seq<string>, k: nat, s: string, list: seq<Entry>)
    requires k < |macros| && Scan(macros[k], s).Found? && SilentFrom(macros, k, s, StrStr(s, macros[k], 0).value)
    ensures var r := ScanAll(macros, 0, s, list); r.rv == 0 && r.list == ListAfter(macros[k], s, list)
  {
    assert s[..|s|] == s;
    assert Silent(macros, k, s[..|s|]);
    ScanAllReaches(macros, 0, k, s, list);
    var v := Scan(macros[k], s);
    assert Silent(macros, k, s[..v.nameEnd]);
    ScanAllRejected(macros, k + 1, TextAfter(macros[k], s, list), ListAfter(macros[k], s, list));
  }

  // ---------- line by line ----------

  /** One line that fits is read as a whole. */
  lemma ReadStep(macros: seq<string>, size: nat, line: string, rest: string, buf: string, list: seq<Entry>)
    requires '\n' !in line && |buf| + |line| + 2 < size
    ensures var r := TakeLine(macros, Joined(buf, line) + ['\n'], list);
      ReadMacros(macros, size, line + ['\n'] + rest, buf, list) == ReadMacros(macros, size, rest, r.text, r.list)
  {
    var t := line + ['\n'] + rest;
    var chunk := line + ['\n'];
    ChunkIsLine(line, rest, Room(size, buf) - 1);
    assert t[|chunk|..] == rest;
    assert Joined(buf, chunk) == Joined(buf, line) + ['\n'];
  }

  ghost predicate EndsOpen(line: string) {
    line != [] && line[|line| - 1] == '\\'
  }

  lemma TakesContinued(macros: seq<string>, buf: string, line: string, list: seq<Entry>)
    requires EndsOpen(line)
    ensures TakeLine(macros, Joined(buf, line) + ['\n'], list) == LineResult(1, Joined(buf, Body(line)), list)
  {
    var s := Joined(buf, line);
    assert Strip(s + ['\n'], '\n') == s;
    assert Strip(s, '\\') == Joined(buf, Body(line));
  }

  lemma TakesScanned(macros: seq<string>, s: string, list: seq<Entry>)
    requires !EndsOpen(s)
    ensures var r := ScanAll(macros, 0, s, list);
      TakeLine(macros, s + ['\n'], list) == if r.rv == 1 then r else LineResult(r.rv, [], r.list)
  {
    assert Strip(s + ['\n'], '\n') == s;
  }

  lemma {:induction false} JoinExtends(buf: string, lines: seq<string>)
    ensures buf <= JoinFrom(buf, lines) && |buf| <= LastStart(buf, lines) <= |JoinFrom(buf, lines)|
    decreases |lines|
  {
    if lines != [] {
      JoinExtends(Joined(buf, Body(lines[0])), lines[1..]);
    }
  }

  /** The part of an invocation that ends before its last line is kept and asks for more. */
  lemma TakesUnfinished(macros: seq<string>, k: nat, j: string, s: string, list: seq<Entry>)
    requires k < |macros| && Scan(macros[k], s).Found? && SilentFrom(macros, k, s, StrStr(s, macros[k], 0).value)
    requires j <= s && !EndsOpen(j)
    requires StrStr(s, macros[k], 0).value + |macros[k]| <= |j| <= Scan(macros[k], s).close
    ensures TakeLine(macros, j + ['\n'], list) == LineResult(1, j, list)
  {
    hide Scan, Silent;
    assert s[..|j|] == j;
    IncompleteBefore(macros[k], s, |j|);
    ScanAllReaches(macros, 0, k, j, list);
    TakesScanned(macros, j, list);
  }

  /** The joined text s holds an invocation of the k-th macro whose name ends at n, closed at or behind last. */
  ghost predicate Holds(macros: seq<string>, k: nat, s: string, n: nat, last: nat) {
    && k < |macros| && macros[k] != [] && !EndsOpen(s)
    && Scan(macros[k], s).Found? && last <= Scan(macros[k], s).close
    && SilentFrom(macros, k, s, StrStr(s, macros[k], 0).value)
    && StrStr(s, macros[k], 0).value + |macros[k]| == n
  }

  /** Every line but the last ends in a backslash, or its end lies at or behind n. */
  ghost predicate Continues(buf: string, lines: seq<string>, n: nat)
    decreases |lines|
  {
    |lines| <= 1 || (
      && (EndsOpen(lines[0]) || n <= |Behind(buf, Body(lines[0]))|)
      && Continues(Behind(buf, Body(lines[0])), lines[1..], n))
  }

  /** Reading a line of the invocation that is not its last one. */
  lemma InnerLine(macros: seq<string>, size: nat, k: nat, line: string, tail: string, buf: string, list: seq<Entry>,
                  s: string, n: nat, last: nat)
    requires '\n' !in line && |s| + 3 < size
    requires Joined(buf, Body(line)) <= s && |Joined(buf, Body(line))| <= last
    requires EndsOpen(line) || n <= |Joined(buf, Body(line))|
    requires Holds(macros, k, s, n, last)
    ensures ReadMacros(macros, size, line + ['\n'] + tail, buf, list)
         == ReadMacros(macros, size, tail, Joined(buf, Body(line)), list)
  {
    hide Scan, StrStr, ReadMacros, SilentFrom, TakeLine;
    ReadStep(macros, size, line, tail, buf, list);
    if EndsOpen(line) {
      TakesContinued(macros, buf, line, list);
    } else {
      TakesUnfinished(macros, k, Joined(buf, line), s, list);
    }
  }

  /** Reading its last line. */
  lemma OuterLine(macros: seq<string>, size: nat, k: nat, line: string, tail: string, buf: string, list: seq<Entry>,
                  n: nat, last: nat)
    requires '\n' !in line && |Joined(buf, line)| + 3 < size
    requires Holds(macros, k, Joined(buf, line), n, last)
    ensures ReadMacros(macros, size, line + ['\n'] + tail, buf, list)
         == ReadMacros(macros, size, tail, [], ListAfter(macros[k], Joined(buf, line), list))
  {
    hide Scan, StrStr, ReadMacros, SilentFrom, TakeLine;
    ReadStep(macros, size, line, tail, buf, list);
    ScanAllFound(macros, k, Joined(buf, line), list);
    TakesScanned(macros, Joined(buf, line), list);
  }

  lemma FileStep(lines: seq<string>, rest: string)
    requires lines != []
    ensures FileOf(lines) + rest == lines[0] + ['\n'] + (FileOf(lines[1..]) + rest)
    ensures |lines| == 1 ==> FileOf(lines[1..]) + rest == rest
  {
    assert |lines| == 1 ==> lines[1..] == [];
    Regroup(lines[0] + ['\n'], FileOf(lines[1..]), rest);
  }

  lemma {:induction false} JoinEnds(buf: string, lines: seq<string>)
    requires lines != [] && !EndsOpen(lines[|lines| - 1])
    ensures !EndsOpen(JoinFrom(buf, lines))
    decreases |lines|
  {
    if |lines| > 1 {
      JoinEnds(Joined(buf, Body(lines[0])), lines[1..]);
    }
  }

  /** An invocation broken over lines, read behind the buffer's text. */
  lemma {:induction false} ReadInvocation(macros: seq<string>, size: nat, k: nat, lines: seq<string>, n: nat,
                                          buf: string, list: seq<Entry>, rest: string)
    requires AreLines(lines) && lines != [] && !EndsOpen(lines[|lines| - 1])
    requires |JoinFrom(buf, lines)| + 3 < size
    requires Holds(macros, k, JoinFrom(buf, lines), n, LastStart(buf, lines)) && Continues(buf, lines, n)
    ensures ReadMacros(macros, size, FileOf(lines) + rest, buf, list)
         == ReadMacros(macros, size, rest, [], ListAfter(macros[k], JoinFrom(buf, lines), list))
    decreases |lines|
  {
    hide Scan, StrStr, ReadMacros, SilentFrom, Body, FileOf, EndsOpen;
    var s := JoinFrom(buf, lines);
    var j := Joined(buf, Body(lines[0]));
    var tail := FileOf(lines[1..]) + rest;
    FileStep(lines, rest);
    if |lines| == 1 {
      ClosedBody(lines[0]);
      OuterLine(macros, size, k, lines[0], tail, buf, list, n, |buf|);
    } else {
      JoinExtends(j, lines[1..]);
      InnerLine(macros, size, k, lines[0], tail, buf, list, s, n, LastStart(buf, lines));
      ReadInvocation(macros, size, k, lines[1..], n, j, list, rest);
    }
  }

  lemma ClosedBody(line: string)
    requires !EndsOpen(line)
    ensures Body(line) == line
  {
  }

  /** Lines joined by backslashes are scanned as one text. */
  lemma {:induction false} ReadContinued(macros: seq<string>, size: nat, lines: seq<string>,
                                         buf: string, list: seq<Entry>, rest: string)
    requires IsContinued(lines) && |JoinFrom(buf, lines)| + 3 < size
    requires ScanAll(macros, 0, JoinFrom(buf, lines), list).rv != 1
    ensures ReadMacros(macros, size, FileOf(lines) + rest, buf, list)
         == ReadMacros(macros, size, rest, [], ScanAll(macros, 0, JoinFrom(buf, lines), list).list)
    decreases |lines|
  {
    hide ReadMacros, TakeLine, ScanAll, FileOf;
    var line, tail := lines[0], FileOf(lines[1..]) + rest;
    var j := Joined(buf, Body(line));
    FileStep(lines, rest);
    if |lines| == 1 {
      ReadStep(macros, size, line, tail, buf, list);
      JoinEnds(buf, lines);
      TakesScanned(macros, j, list);
    } else {
      JoinExtends(j, lines[1..]);
      ReadStep(macros, size, line, tail, buf, list);
      TakesContinued(macros, buf, line, list);
      ReadContinued(macros, size, lines[1..], j, list, rest);
    }
  }

  /** Exactly the last line does not end in a backslash. */
  ghost predicate IsContinued(lines: seq<string>) {
    && AreLines(lines) && lines != []
    && forall i :: 0 <= i < |lines| ==> (EndsOpen(lines[i]) <==> i < |lines| - 1)
  }

  /**
    The lines, joined, print the invocation v of the k-th macro. Up to the name they are continued
    by backslashes; behind it the lines break anywhere, and the invocation ends on the last one.
   */
  ghost predicate IsCall(macros: seq<string>, size: nat, lines: seq<string>, k: nat, v: Invocation) {
    && AreLines(lines) && lines != [] && !EndsOpen(lines[|lines| - 1])
    && var s := JoinFrom([], lines);
    && OthersIdle(macros, k, s, |v.before|) && |s| + 3 < size
    && Prints(macros[k], s, v)
    && Continues([], lines, |v.before| + |macros[k]|)
    && LastStart([], lines) + |v.after| < |s|
  }

  lemma RecordIs(list: seq<Entry>, e: Entry)
    ensures Record(list, e.macroName, e.typeName, e.typePrefix) ==
      if exists i :: 0 <= i < |list| && list[i].macroName == e.macroName && list[i].typeName == e.typeName
      then list else [e] + list
  {
  }

  lemma CallHolds(macros: seq<string>, k: nat, s: string, v: Invocation, last: nat, list: seq<Entry>)
    requires AreNames(macros) && OthersIdle(macros, k, s, |v.before|) && Prints(macros[k], s, v)
    requires !EndsOpen(s) && last + |v.after| < |s|
    ensures Holds(macros, k, s, |v.before| + |macros[k]|, last)
    ensures ListAfter(macros[k], s, list) == Record(list, macros[k], v.typeName, v.prefix)
  {
    IdleIsSilent(macros, k, s, |v.before|);
    StrStrIs(s, macros[k], |v.before|);
    hide Print, Scan, IsDefinition, WellFormed, SilentFrom, OthersIdle, EndsOpen, FirstAt, Record;
    PrintThenScan(macros[k], s, v);
  }

  lemma CallRead(macros: seq<string>, size: nat, k: nat, lines: seq<string>, v: Invocation, list: seq<Entry>, rest: string)
    requires AreNames(macros) && IsCall(macros, size, lines, k, v)
    ensures ReadMacros(macros, size, FileOf(lines) + rest, [], list)
         == ReadMacros(macros, size, rest, [], Record(list, macros[k], v.typeName, v.prefix))
  {
    hide Prints, Holds, Scan, ReadMacros, EndsOpen, Continues, ListAfter, Record, JoinFrom, LastStart;
    var s := JoinFrom([], lines);
    JoinEnds([], lines);
    CallHolds(macros, k, s, v, LastStart([], lines), list);
    ReadInvocation(macros, size, k, lines, |v.before| + |macros[k]|, [], list, rest);
  }

  /** Layout independence: however an invocation is spaced and broken over lines, the reader records its names. */
  lemma BrokenInvocation(macros: seq<string>, size: nat, k: nat, lines: seq<string>, v: Invocation,
                         list: seq<Entry>, rest: string)
    requires AreNames(macros) && IsCall(macros, size, lines, k, v)
    ensures ReadMacros(macros, size, FileOf(lines) + rest, [], list)
         == ReadMacros(macros, size, rest, [],
              if exists i :: 0 <= i < |list| && list[i].macroName == macros[k] && list[i].typeName == v.typeName
              then list else [Entry(macros[k], v.typeName, v.prefix)] + list)
  {
    hide ReadMacros, Record, JoinFrom, LastStart, Prints, Continues, EndsOpen, FileOf, AreNames;
    RecordIs(list, Entry(macros[k], v.typeName, v.prefix));
    CallRead(macros, size, k, lines, v, list, rest);
  }

  // ---------- the last line, and several invocations in one text ----------

  /** A last line without a newline counts like one with it. */
  lemma UnterminatedLine(macros: seq<string>, size: nat, line: string, buf: string, list: seq<Entry>)
    requires line != [] && '\n' !in line && |buf| + |line| + 4 < size
    ensures ReadMacros(macros, size, line, buf, list) == ReadMacros(macros, size, line + ['\n'], buf, list)
    ensures ReadMacros(macros, size, line, buf, list) == Some(TakeLine(macros, Joined(buf, line), list).list)
  {
    hide TakeLine, ReadMacros;
    var s := Joined(buf, line);
    assert line + ['\n'] + [] == line + ['\n'];
    ReadStep(macros, size, line, [], buf, list);
    TakesEither(macros, s, list);
    TakesNoMore(macros, s, list);
    ReadLast(macros, size, line, buf, list);
    ReadNothing(macros, size, TakeLine(macros, s, list).text, TakeLine(macros, s, list).list);
  }

  lemma TakesEither(macros: seq<string>, s: string, list: seq<Entry>)
    requires s != [] && s[|s| - 1] != '\n'
    ensures TakeLine(macros, s + ['\n'], list) == TakeLine(macros, s, list)
  {
    hide ScanAll;
    assert Strip(s + ['\n'], '\n') == s;
  }

  lemma {:induction false} ScanAllCuts(macros: seq<string>, i: nat, s: string, list: seq<Entry>)
    requires i <= |macros|
    ensures |ScanAll(macros, i, s, list).text| <= |s|
    decreases |macros| - i
  {
    if i < |macros| && !Scan(macros[i], s).NeedMore? {
      ScanAllCuts(macros, i + 1, TextAfter(macros[i], s, list), ListAfter(macros[i], s, list));
    }
  }

  lemma TakesNoMore(macros: seq<string>, s: string, list: seq<Entry>)
    ensures |TakeLine(macros, s, list).text| <= |s|
  {
    ScanAllCuts(macros, 0, Strip(s, '\n'), list);
  }

  lemma ReadLast(macros: seq<string>, size: nat, line: string, buf: string, list: seq<Entry>)
    requires line != [] && '\n' !in line && |buf| + |line| + 4 < size
    ensures ReadMacros(macros, size, line, buf, list) == Some(TakeLine(macros, Joined(buf, line), list).list)
  {
    hide TakeLine;
    ChunkEnds(line, Room(size, buf) - 1);
    var c := Chunk(line, Room(size, buf) - 1);
    assert c != [] && c[|c| - 1] == line[|c| - 1];
  }

  lemma ReadNothing(macros: seq<string>, size: nat, buf: string, list: seq<Entry>)
    requires |buf| + 3 <= size
    ensures ReadMacros(macros, size, [], buf, list) == Some(list)
  {
  }

  /** A line that fills the buffer and still asks for more data makes the reader fail. */
  lemma OutgrownLine(macros: seq<string>, size: nat, k: nat, t: string, list: seq<Entry>)
    requires 4 <= size <= |t| + 2 && '\n' !in t[..size - 2] && t[size - 3] != '\\'
    requires k < |macros| && Silent(macros, k, t[..size - 2]) && Scan(macros[k], t[..size - 2]).NeedMore?
    ensures ReadMacros(macros, size, t, [], list) == None
  {
    hide Scan;
    var c := t[..size - 2];
    FirstChunk(t, size - 2);
    ScanAllReaches(macros, 0, k, c, list);
    assert Strip(c, '\n') == c;
    assert TakeLine(macros, c, list) == LineResult(1, c, list);
    FullBuffer(macros, size, t[size - 2..], c, list);
  }

  lemma FirstChunk(t: string, n: nat)
    requires 0 < n <= |t| && '\n' !in t[..n]
    ensures Chunk(t, n) == t[..n] && !HitsEnd(t, n)
  {
    ChunkEnds(t, n);
    var c := Chunk(t, n);
    assert forall i :: 0 <= i < |c| ==> c[i] == t[..n][i];
  }

  lemma FullBuffer(macros: seq<string>, size: nat, rest: string, buf: string, list: seq<Entry>)
    requires size <= |buf| + 2
    ensures ReadMacros(macros, size, rest, buf, list) == None
  {
  }

  /** The entries of the invocations of the first n macros, the last one first. */
  function Entries(macros: seq<string>, vs: seq<Option<Invocation>>, n: nat): seq<Entry>
    requires n <= |macros| && n <= |vs|
  {
    if n == 0 then []
    else if vs[n - 1].None? then Entries(macros, vs, n - 1)
    else [Entry(macros[n - 1], vs[n - 1].value.typeName, vs[n - 1].value.prefix)] + Entries(macros, vs, n - 1)
  }

  ghost predicate AllDiffer(macros: seq<string>) {
    forall i, j :: 0 <= i < j < |macros| ==> macros[i] != macros[j]
  }

  /** The text s prints the i-th invocation for every macro that has one, and the list knows none of them; the others are idle. */
  ghost predicate HoldsEach(macros: seq<string>, s: string, vs: seq<Option<Invocation>>, list: seq<Entry>) {
    |vs| == |macros| && forall i :: 0 <= i < |macros| ==> HoldsAt(macros, s, vs, list, i)
  }

  lemma {:induction false} EntriesAreBefore(macros: seq<string>, vs: seq<Option<Invocation>>, n: nat, i: nat)
    requires n <= |macros| && n <= |vs| && i < |Entries(macros, vs, n)|
    ensures exists j :: 0 <= j < n && Entries(macros, vs, n)[i].macroName == macros[j]
    decreases n
  {
    var head := |Entries(macros, vs, n)| - |Entries(macros, vs, n - 1)|;
    if i < head {
      assert Entries(macros, vs, n)[i].macroName == macros[n - 1];
    } else {
      EntriesAreBefore(macros, vs, n - 1, i - head);
    }
  }

  lemma UnknownSoFar(macros: seq<string>, vs: seq<Option<Invocation>>, n: nat, list: seq<Entry>, typeName: string)
    requires AllDiffer(macros) && n < |macros| && n <= |vs| && !Known(list, macros[n], typeName)
    ensures !Known(Entries(macros, vs, n) + list, macros[n], typeName)
  {
    var found := Entries(macros, vs, n);
    forall i | 0 <= i < |found + list|
      ensures !((found + list)[i].macroName == macros[n] && (found + list)[i].typeName == typeName)
    {
      if i < |found| {
        EntriesAreBefore(macros, vs, n, i);
      }
    }
  }

  lemma ScanAllStep(macros: seq<string>, n: nat, s: string, v: Invocation, list: seq<Entry>)
    requires n < |macros| && macros[n] != [] && !IsSpace(macros[n][0])
    requires Prints(macros[n], s, v) && !Known(list, macros[n], v.typeName)
    ensures ScanAll(macros, n, s, list) == ScanAll(macros, n + 1, s, [Entry(macros[n], v.typeName, v.prefix)] + list)
  {
    hide Prints, Scan, Known;
    PrintThenScan(macros[n], s, v);
  }

  ghost predicate HoldsAt(macros: seq<string>, s: string, vs: seq<Option<Invocation>>, list: seq<Entry>, i: nat)
    requires i < |macros| == |vs|
  {
    if vs[i].Some? then Prints(macros[i], s, vs[i].value) && !Known(list, macros[i], vs[i].value.typeName)
    else !Occurs(s, macros[i]) || Idle(macros[i], s)
  }

  lemma EachStep(macros: seq<string>, s: string, vs: seq<Option<Invocation>>, list: seq<Entry>, n: nat)
    requires n < |macros| == |vs| && macros[n] != [] && !IsSpace(macros[n][0])
    requires AllDiffer(macros) && HoldsAt(macros, s, vs, list, n)
    ensures ScanAll(macros, n, s, Entries(macros, vs, n) + list) == ScanAll(macros, n + 1, s, Entries(macros, vs, n + 1) + list)
  {
    hide Scan, Idle, Occurs, Prints, Known, AllDiffer, ScanAll;
    if vs[n].Some? {
      var v := vs[n].value;
      UnknownSoFar(macros, vs, n, list, v.typeName);
      ScanAllStep(macros, n, s, v, Entries(macros, vs, n) + list);
      Regroup([Entry(macros[n], v.typeName, v.prefix)], Entries(macros, vs, n), list);
    } else {
      IdleOrAbsent(macros[n], s);
      ScanAllSkips(macros, n, s, Entries(macros, vs, n) + list);
    }
  }

  lemma {:induction false} ScanAllEach(macros: seq<string>, s: string, vs: seq<Option<Invocation>>, list: seq<Entry>, n: nat)
    requires AreNames(macros) && AllDiffer(macros) && n <= |macros| && HoldsEach(macros, s, vs, list)
    ensures ScanAll(macros, n, s, Entries(macros, vs, n) + list) == LineResult(0, s, Entries(macros, vs, |macros|) + list)
    decreases |macros| - n
  {
    hide AllDiffer, Entries, HoldsAt, Scan, TextAfter, ListAfter;
    if n < |macros| {
      hide ScanAll;
      ScanAllEach(macros, s, vs, list, n + 1);
      EachStep(macros, s, vs, list, n);
    }
  }

  lemma ScanAllSkips(macros: seq<string>, n: nat, s: string, list: seq<Entry>)
    requires n < |macros| && Scan(macros[n], s).Reject?
    ensures ScanAll(macros, n, s, list) == ScanAll(macros, n + 1, s, list)
  {
  }

  lemma IdleOrAbsent(name: string, s: string)
    requires (!Occurs(s, name) || Idle(name, s)) && name != [] && !IsSpace(name[0])
    ensures Scan(name, s) == Reject
  {
    hide Idle, Occurs, Scan;
    if Idle(name, s) {
      IdleIsRejected(name, s);
    } else {
      AbsentIsRejected(name, s);
    }
  }

  /** Several macros invoked in one text, none of them with a known type: each of them is recorded, in the order of the table. */
  lemma SeveralInvocations(macros: seq<string>, size: nat, lines: seq<string>, vs: seq<Option<Invocation>>,
                           list: seq<Entry>, rest: string)
    requires AreNames(macros) && AllDiffer(macros) && IsContinued(lines) && |JoinFrom([], lines)| + 3 < size
    requires |vs| == |macros| && HoldsEach(macros, JoinFrom([], lines), vs, list)
    ensures ReadMacros(macros, size, FileOf(lines) + rest, [], list)
         == ReadMacros(macros, size, rest, [], Entries(macros, vs, |macros|) + list)
  {
    hide ReadMacros, HoldsEach, JoinFrom, FileOf, IsContinued;
    var s := JoinFrom([], lines);
    ScanAllEach(macros, s, vs, list, 0);
    assert Entries(macros, vs, 0) + list == list;
    ReadContinued(macros, size, lines, [], list, rest);
  }

  // ---------- what every file keeps ----------

  ghost predicate Distinct(list: seq<Entry>) {
    forall i, j :: 0 <= i < j < |list| ==>
      !(list[i].macroName == list[j].macroName && list[i].typeName == list[j].typeName)
  }

  ghost predicate Clean(macros: seq<string>, e: Entry) {
    e.macroName in macros && IsWord(e.typeName, false) && IsWord(e.typePrefix, true)
  }

  ghost predicate GoodList(macros: seq<string>, list: seq<Entry>) {
    Distinct(list) && forall i :: 0 <= i < |list| ==> Clean(macros, list[i])
  }

  lemma StoreKeeps(macros: seq<string>, macro: string, s: string, list: seq<Entry>)
    requires GoodList(macros, list) && macro in macros
    ensures GoodList(macros, ListAfter(macro, s, list))
  {
    var v := Scan(macro, s);
    if v.Found? {
      var open, comma := FoundPositions(s, StrStr(s, macro, 0).value + |macro|);
      assert Clean(macros, Entry(macro, TypeName(s, v), TypePrefix(s, v)));
    }
  }

  lemma {:induction false} ScanAllKeeps(macros: seq<string>, i: nat, s: string, list: seq<Entry>)
    requires GoodList(macros, list) && i <= |macros|
    ensures GoodList(macros, ScanAll(macros, i, s, list).list)
    decreases |macros| - i
  {
    if i < |macros| && !Scan(macros[i], s).NeedMore? {
      StoreKeeps(macros, macros[i], s, list);
      ScanAllKeeps(macros, i + 1, TextAfter(macros[i], s, list), ListAfter(macros[i], s, list));
    }
  }

  /** For every file: no type is recorded twice for one macro, and all names are words. */
  lemma {:induction false} ReadMacrosKeeps(macros: seq<string>, size: nat, rest: string, buf: string, list: seq<Entry>)
    requires GoodList(macros, list)
    ensures var r := ReadMacros(macros, size, rest, buf, list); r.Some? ==> GoodList(macros, r.value)
    decreases |rest|
  {
    if Room(size, buf) >= 2 && rest != [] {
      var chunk := Chunk(rest, Room(size, buf) - 1);
      var line := Joined(buf, chunk);
      ScanAllKeeps(macros, 0, Strip(line, '\n'), list);
      var r := TakeLine(macros, line, list);
      ReadMacrosKeeps(macros, size, rest[|chunk|..], r.text, r.list);
    }
  }
}
