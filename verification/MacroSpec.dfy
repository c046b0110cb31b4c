/**
  What scanLine decides about one macro in one buffer, as a function of the
  buffer's text, and the three facts the multi-line reader rests on: verdicts
  other than "need more data" are final, every "need more data" can be resolved,
  and the accepted texts are exactly the printed invocations.
 */
module MacroSpec {
  import opened CText

  /** The positions that the scanner keeps as char pointers. */
  datatype Verdict =
    | Reject
    | NeedMore
    | Found(nameStart: nat, nameEnd: nat, prefixStart: nat, prefixEnd: nat, close: nat)

  datatype WordResult = BadWord | Unfinished | Word(end: nat, stop: nat)

  /** The type name ends at a comma, the prefix at a comma or at a closing bracket. */
  predicate Stops(closing: bool, c: char) {
    c == ',' || (closing && c == ')')
  }

  /** One word with optional white space behind it, up to a stop character. */
  function ScanWord(s: string, i: nat, end: Option<nat>, closing: bool): (r: WordResult)
    requires i <= |s|
    requires end.Some? ==> end.value <= i
    ensures r.Word? ==> i <= r.stop < |s| && Stops(closing, s[r.stop])
    ensures r.Word? ==> r.end <= r.stop && (if end.Some? then r.end == end.value else i <= r.end)
    decreases |s| - i
  {
    if i == |s| then Unfinished
    else if Stops(closing, s[i]) then Word(if end.Some? then end.value else i, i)
    else if IsSpace(s[i]) then ScanWord(s, i + 1, if end.Some? then end else Some(i), closing)
    else if end.Some? then BadWord
    else ScanWord(s, i + 1, None, closing)
  }

  /** Everything behind the comma. */
  function ParsePrefix(s: string, nameStart: nat, nameEnd: nat, comma: nat): (v: Verdict)
    requires nameStart <= nameEnd <= comma < |s|
    ensures v.Found? ==> v.nameStart == nameStart && v.nameEnd == nameEnd
    ensures v.Found? ==> comma < v.prefixStart <= v.prefixEnd <= v.close < |s|
  {
    var prefixStart := SkipSpace(s, comma + 1);
    match ScanWord(s, prefixStart, None, true)
    case BadWord => Reject
    case Unfinished => NeedMore
    case Word(prefixEnd, close) => Found(nameStart, nameEnd, prefixStart, prefixEnd, close)
  }

  /** Everything behind the opening bracket. */
  function ParseArguments(s: string, open: nat): (v: Verdict)
    requires open < |s|
    ensures v.Found? ==> open < v.nameStart <= v.nameEnd < v.prefixStart <= v.prefixEnd <= v.close < |s|
  {
    var nameStart := SkipSpace(s, open + 1);
    match ScanWord(s, nameStart, None, false)
    case BadWord => Reject
    case Unfinished => NeedMore
    case Word(nameEnd, comma) => ParsePrefix(s, nameStart, nameEnd, comma)
  }

  /** Everything behind the macro name, which ends at i. */
  function Parse(s: string, i: nat): (v: Verdict)
    requires i <= |s|
    ensures v.Found? ==> i < v.nameStart <= v.nameEnd < v.prefixStart <= v.prefixEnd <= v.close < |s|
  {
    var open := SkipSpace(s, i);
    if open == |s| then NeedMore
    else if s[open] != '(' then Reject
    else ParseArguments(s, open)
  }

  const DEFINE: string := "define "

  predicate DefineWordAt(s: string, i: nat) {
    i + 7 <= |s| && SameIgnoringCase(s[i..i + 7], DEFINE)
  }

  /** The check for a preprocessor definition of the macro that begins at b. */
  predicate DefinesAt(s: string, b: nat) {
    var hash := SkipSpace(s, 0);
    && hash < |s| && s[hash] == '#'
    && var word := SkipSpace(s, hash + 1);
    && DefineWordAt(s, word)
    && SkipSpace(s, word + 7) == b
  }

  /** The verdict on an occurrence of the name between b and i. */
  function Judge(s: string, b: nat, i: nat): (v: Verdict)
    requires i <= |s|
    ensures v.Found? ==> v == Parse(s, i)
  {
    var v := Parse(s, i);
    if v.Found? && DefinesAt(s, b) then Reject else v
  }

  function Scan(name: string, s: string): (v: Verdict)
    ensures v.Found? ==> v.nameStart <= v.nameEnd < v.prefixStart <= v.prefixEnd <= v.close < |s|
  {
    match StrStr(s, name, 0)
    case None => Reject
    case Some(b) => Judge(s, b, b + |name|)
  }

  function TypeName(s: string, v: Verdict): string
    requires v.Found? && v.nameStart <= v.nameEnd <= |s|
  {
    s[v.nameStart..v.nameEnd]
  }

  function TypePrefix(s: string, v: Verdict): string
    requires v.Found? && v.prefixStart <= v.prefixEnd <= |s|
  {
    s[v.prefixStart..v.prefixEnd]
  }

  // ---------- final verdicts ----------

  lemma SkipSpaceStable(s: string, rest: string, i: nat)
    requires i <= |s| && SkipSpace(s, i) < |s|
    ensures SkipSpace(s + rest, i) == SkipSpace(s, i)
  {
    SkipSpaceShape(s, i);
    SkipSpaceIs(s + rest, i, SkipSpace(s, i));
  }

  lemma {:induction false} ScanWordStable(s: string, rest: string, i: nat, end: Option<nat>, closing: bool)
    requires i <= |s| && (end.Some? ==> end.value <= i)
    requires !ScanWord(s, i, end, closing).Unfinished?
    ensures ScanWord(s + rest, i, end, closing) == ScanWord(s, i, end, closing)
    decreases |s| - i
  {
    if i < |s| && !Stops(closing, s[i]) {
      if IsSpace(s[i]) {
        ScanWordStable(s, rest, i + 1, if end.Some? then end else Some(i), closing);
      } else if end.None? {
        ScanWordStable(s, rest, i + 1, None, closing);
      }
    }
  }

  lemma ParsePrefixStable(s: string, rest: string, nameStart: nat, nameEnd: nat, comma: nat)
    requires nameStart <= nameEnd <= comma < |s|
    requires !ParsePrefix(s, nameStart, nameEnd, comma).NeedMore?
    ensures ParsePrefix(s + rest, nameStart, nameEnd, comma) == ParsePrefix(s, nameStart, nameEnd, comma)
  {
    SkipSpaceStable(s, rest, comma + 1);
    ScanWordStable(s, rest, SkipSpace(s, comma + 1), None, true);
  }

  lemma ParseArgumentsStable(s: string, rest: string, open: nat)
    requires open < |s| && !ParseArguments(s, open).NeedMore?
    ensures ParseArguments(s + rest, open) == ParseArguments(s, open)
  {
    var n := SkipSpace(s, open + 1);
    SkipSpaceStable(s, rest, open + 1);
    ScanWordStable(s, rest, n, None, false);
    match ScanWord(s, n, None, false)
    case Word(end, comma) => ParsePrefixStable(s, rest, n, end, comma);
    case _ =>
  }

  lemma ParseStable(s: string, rest: string, i: nat)
    requires i <= |s| && !Parse(s, i).NeedMore?
    ensures Parse(s + rest, i) == Parse(s, i)
  {
    var open := SkipSpace(s, i);
    SkipSpaceStable(s, rest, i);
    if s[open] == '(' {
      ParseArgumentsStable(s, rest, open);
    }
  }

  lemma StopsAtBracket(s: string, rest: string, i: nat, open: nat)
    requires i <= open < |s| && s[open] == '('
    ensures SkipSpace(s, i) <= open && SkipSpace(s + rest, i) == SkipSpace(s, i)
  {
    SkipSpaceShape(s, i);
    SkipSpaceStable(s, rest, i);
  }

  lemma DefineWordBefore(s: string, rest: string, word: nat, open: nat)
    requires word <= open < |s| && s[open] == '('
    ensures DefineWordAt(s + rest, word) == DefineWordAt(s, word)
    ensures DefineWordAt(s, word) ==> word + 7 <= open
  {
    var t := s + rest;
    assert word + 7 <= |s| ==> t[word..word + 7] == s[word..word + 7];
    var k := open - word;
    assert k < 7 ==> ToUpper(DEFINE[k]) != ToUpper('(');
    assert k < 7 && word + 7 <= |s| ==> s[word..word + 7][k] == '(';
    assert k < 7 && word + 7 <= |t| ==> t[word..word + 7][k] == '(';
  }

  /** The definition check looks at nothing behind the opening bracket. */
  lemma DefinesAtStable(s: string, rest: string, b: nat, open: nat)
    requires open < |s| && s[open] == '('
    ensures DefinesAt(s + rest, b) == DefinesAt(s, b)
  {
    StopsAtBracket(s, rest, 0, open);
    var hash := SkipSpace(s, 0);
    if s[hash] == '#' {
      StopsAtBracket(s, rest, hash + 1, open);
      var word := SkipSpace(s, hash + 1);
      DefineWordBefore(s, rest, word, open);
      if DefineWordAt(s, word) {
        StopsAtBracket(s, rest, word + 7, open);
      }
    }
  }

  lemma JudgeStable(s: string, rest: string, b: nat, i: nat)
    requires i <= |s| && !Judge(s, b, i).NeedMore?
    ensures Judge(s + rest, b, i) == Judge(s, b, i)
  {
    ParseStable(s, rest, i);
    if Parse(s, i).Found? {
      DefinesAtStable(s, rest, b, SkipSpace(s, i));
    }
  }

  /** Verdict stability: text read later changes no verdict but "need more data". */
  lemma VerdictStable(name: string, s: string, rest: string)
    requires Occurs(s, name) && !Scan(name, s).NeedMore?
    ensures Scan(name, s + rest) == Scan(name, s)
    ensures var v := Scan(name, s); v.Found? ==>
      && TypeName(s + rest, v) == TypeName(s, v)
      && TypePrefix(s + rest, v) == TypePrefix(s, v)
  {
    StrStrFirst(s, name, 0);
    var b := StrStr(s, name, 0).value;
    StrStrStable(s, rest, name);
    JudgeStable(s, rest, b, b + |name|);
  }

  /** So a text that will be accepted is reported as incomplete at every earlier point. */
  lemma IncompleteBefore(name: string, s: string, k: nat)
    requires Scan(name, s).Found? && StrStr(s, name, 0).value + |name| <= k <= Scan(name, s).close
    ensures Scan(name, s[..k]).NeedMore?
  {
    var b := StrStr(s, name, 0).value;
    assert s == s[..k] + s[k..];
    StrStrFirst(s, name, 0);
    MatchesAtPrefix(s[..k], s[k..], b, name);
    assert Occurs(s[..k], name);
    if !Scan(name, s[..k]).NeedMore? {
      VerdictStable(name, s[..k], s[k..]);
    }
  }

  // ---------- every request for more data can be met ----------

  const RESOLVER: string := "(,)"

  lemma {:induction false} ScanWordResolves(s: string, i: nat, end: Option<nat>, closing: bool)
    requires i <= |s| && (end.Some? ==> end.value <= i)
    requires ScanWord(s, i, end, closing).Unfinished?
    ensures var r := ScanWord(s + RESOLVER, i, end, closing);
      r.BadWord? || (r.Word? && r.stop == |s| + 1)
    decreases |s| - i
  {
    var t := s + RESOLVER;
    if i == |s| {
      assert t[i] == '(' && t[i + 1] == ',';
    } else if IsSpace(s[i]) {
      ScanWordResolves(s, i + 1, if end.Some? then end else Some(i), closing);
    } else {
      ScanWordResolves(s, i + 1, None, closing);
    }
  }

  lemma SkipSpaceKept(s: string, i: nat)
    requires i <= |s|
    ensures SkipSpace(s + RESOLVER, i) == SkipSpace(s, i)
  {
    assert (s + RESOLVER)[|s|] == '(';
    SkipSpaceShape(s, i);
    SkipSpaceIs(s + RESOLVER, i, SkipSpace(s, i));
  }

  lemma ClosedByResolver(s: string, nameStart: nat, nameEnd: nat)
    requires nameStart <= nameEnd <= |s| + 1
    ensures ParsePrefix(s + RESOLVER, nameStart, nameEnd, |s| + 1).Found?
  {
    var t := s + RESOLVER;
    assert t[|s| + 2] == ')';
    SkipSpaceIs(t, |s| + 2, |s| + 2);
    assert ScanWord(t, |s| + 2, None, true) == Word(|s| + 2, |s| + 2);
  }

  lemma ArgumentsResolve(s: string, open: nat)
    requires open < |s| && ParseArguments(s, open).NeedMore?
    ensures !ParseArguments(s + RESOLVER, open).NeedMore?
  {
    SkipSpaceKept(s, open + 1);
    var n := SkipSpace(s, open + 1);
    match ScanWord(s, n, None, false)
    case Unfinished =>
      ScanWordResolves(s, n, None, false);
      match ScanWord(s + RESOLVER, n, None, false) {
        case Word(end, comma) => ClosedByResolver(s, n, end);
        case _ =>
      }
    case Word(end, comma) =>
      ScanWordStable(s, RESOLVER, n, None, false);
      SkipSpaceKept(s, comma + 1);
      ScanWordResolves(s, SkipSpace(s, comma + 1), None, true);
  }

  lemma ParseResolves(s: string, i: nat)
    requires i <= |s| && Parse(s, i).NeedMore?
    ensures !Parse(s + RESOLVER, i).NeedMore?
  {
    var open := SkipSpace(s, i);
    SkipSpaceKept(s, i);
    if open == |s| {
      var t := s + RESOLVER;
      assert t[|s|] == '(' && t[|s| + 1] == ',';
      SkipSpaceIs(t, |s| + 1, |s| + 1);
      assert ScanWord(t, |s| + 1, None, false) == Word(|s| + 1, |s| + 1);
      ClosedByResolver(s, |s| + 1, |s| + 1);
    } else {
      ArgumentsResolve(s, open);
    }
  }

  lemma Settled(name: string, s: string, b: nat)
    requires StrStr(s, name, 0) == Some(b) && !Parse(s, b + |name|).NeedMore?
    ensures !Scan(name, s).NeedMore?
  {
  }

  /** No text leaves the scanner asking for data for ever: three characters settle any of them. */
  lemma NeedMoreResolves(name: string, s: string)
    requires Scan(name, s).NeedMore?
    ensures !Scan(name, s + RESOLVER).NeedMore?
  {
    var b := StrStr(s, name, 0).value;
    StrStrStable(s, RESOLVER, name);
    ParseResolves(s, b + |name|);
    Settled(name, s + RESOLVER, b);
  }
}
