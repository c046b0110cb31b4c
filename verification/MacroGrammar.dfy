/**
  The texts that scanLine accepts, written as a grammar that knows nothing of the
  scanner, and the proof that the scanner accepts exactly those texts and reads
  the printed names back.
 */
module MacroGrammar {
  import opened CText
  import opened MacroSpec

  /** An invocation "NAME ( T , P )" in its surroundings; the gaps hold any white space. */
  datatype Invocation = Invocation(
    before: string, gap1: string, gap2: string, typeName: string, gap3: string,
    gap4: string, prefix: string, gap5: string, stop: char, after: string)

  function PrintPrefix(v: Invocation): string {
    v.gap4 + (v.prefix + v.gap5 + [v.stop] + v.after)
  }

  function PrintArguments(v: Invocation): string {
    v.gap2 + (v.typeName + v.gap3 + [','] + PrintPrefix(v))
  }

  function Print(name: string, v: Invocation): string {
    v.before + name + (v.gap1 + (['('] + PrintArguments(v)))
  }

  /** No white space and no comma; if closing, no closing bracket either. */
  ghost predicate IsWord(w: string, closing: bool) {
    forall i :: 0 <= i < |w| ==> !IsSpace(w[i]) && w[i] != ',' && (closing ==> w[i] != ')')
  }

  ghost predicate WellFormed(v: Invocation) {
    && AllSpace(v.gap1) && AllSpace(v.gap2) && AllSpace(v.gap3) && AllSpace(v.gap4) && AllSpace(v.gap5)
    && IsWord(v.typeName, false)
    && IsWord(v.prefix, true)
    && (v.stop == ',' || v.stop == ')')
  }

  /** The text in front of the macro name when the line defines the macro. */
  ghost predicate Definition(before: string, g1: string, g2: string, word: string, g3: string) {
    && before == g1 + ['#'] + g2 + word + g3
    && AllSpace(g1) && AllSpace(g2) && AllSpace(g3)
    && SameIgnoringCase(word, "define ")
  }

  ghost predicate IsDefinition(before: string) {
    exists g1, g2, word, g3 :: Definition(before, g1, g2, word, g3)
  }

  ghost predicate FirstAt(name: string, s: string, b: nat) {
    MatchesAt(s, b, name) && forall j: nat :: j < b ==> !MatchesAt(s, j, name)
  }

  ghost predicate Prints(name: string, s: string, v: Invocation) {
    && WellFormed(v)
    && Print(name, v) == s
    && FirstAt(name, s, |v.before|)
    && !IsDefinition(v.before)
  }

  // ---------- printing, then scanning ----------

  lemma GapIsSkipped(s: string, i: nat, gap: string, rest: string)
    requires i <= |s| && s[i..] == gap + rest && AllSpace(gap)
    ensures SkipSpace(s, i) == SkipSpace(s, i + |gap|)
    ensures rest != [] && !IsSpace(rest[0]) ==> SkipSpace(s, i) == i + |gap|
  {
    assert forall k :: 0 <= k < |gap| ==> s[i..][k] == s[i + k];
    assert SpaceBetween(s, i, i + |gap|) by {
      forall k | i <= k < i + |gap| && k < |s| ensures IsSpace(s[k]) {
        assert s[k] == s[i..][k - i] == gap[k - i];
      }
    }
    SkipSpaceShape(s, i + |gap|);
    SkipSpaceIs(s, i, SkipSpace(s, i + |gap|));
    if rest != [] {
      assert s[i + |gap|] == s[i..][|gap|] == rest[0];
    }
  }

  lemma SuffixStep(s: string, i: nat, a: string, rest: string)
    requires i <= |s| && s[i..] == a + rest
    ensures i + |a| <= |s| && s[i + |a|..] == rest && s[i..i + |a|] == a
  {
    assert s[i + |a|..] == s[i..][|a|..];
    assert s[i..i + |a|] == s[i..][..|a|];
  }

  lemma {:induction false} ScanSpaceTail(s: string, i: nat, end: nat, gap: string, stop: char, rest: string, closing: bool)
    requires end <= i <= |s| && s[i..] == gap + [stop] + rest
    requires AllSpace(gap) && Stops(closing, stop)
    ensures ScanWord(s, i, Some(end), closing) == Word(end, i + |gap|)
    decreases |gap|
  {
    assert s[i] == s[i..][0];
    if gap != [] {
      assert s[i + 1..] == s[i..][1..] == gap[1..] + [stop] + rest;
      ScanSpaceTail(s, i + 1, end, gap[1..], stop, rest, closing);
    }
  }

  lemma {:induction false} ScanWordReads(s: string, i: nat, w: string, gap: string, stop: char, rest: string, closing: bool)
    requires i <= |s| && s[i..] == w + gap + [stop] + rest
    requires IsWord(w, closing) && AllSpace(gap) && Stops(closing, stop)
    ensures ScanWord(s, i, None, closing) == Word(i + |w|, i + |w| + |gap|)
    decreases |w|
  {
    assert s[i] == s[i..][0];
    if w != [] {
      assert s[i + 1..] == s[i..][1..] == w[1..] + gap + [stop] + rest;
      ScanWordReads(s, i + 1, w[1..], gap, stop, rest, closing);
    } else if gap != [] {
      assert s[i + 1..] == s[i..][1..] == gap[1..] + [stop] + rest;
      ScanSpaceTail(s, i + 1, i, gap[1..], stop, rest, closing);
    }
  }

  lemma WordPositions(s: string, k: nat, w: string, gap: string, stop: char, rest: string)
    requires k <= |s| && s[k..] == w + gap + [stop] + rest
    ensures var stopAt := k + |w| + |gap|;
      stopAt < |s| && s[k..k + |w|] == w && s[stopAt] == stop && s[stopAt + 1..] == rest
  {
    var stopAt := k + |w| + |gap|;
    assert s[k..] == (w + gap) + ([stop] + rest);
    SuffixStep(s, k, w + gap, [stop] + rest);
    SuffixStep(s, stopAt, [stop], rest);
    assert s[stopAt] == s[stopAt..][0];
    assert s[k..k + |w|] == s[k..][..|w|];
  }

  /** A word behind a gap; an empty word lets the gap run on to the stop character. */
  lemma GapAndWord(s: string, i: nat, gap: string, w: string, gap': string, stop: char, rest: string, closing: bool)
    returns (start: nat, stopAt: nat)
    requires i <= |s| && s[i..] == gap + (w + gap' + [stop] + rest)
    requires AllSpace(gap) && IsWord(w, closing) && AllSpace(gap') && Stops(closing, stop)
    ensures start == SkipSpace(s, i) && stopAt == i + |gap| + |w| + |gap'| < |s|
    ensures start + |w| <= |s| && ScanWord(s, start, None, closing) == Word(start + |w|, stopAt)
    ensures s[start..start + |w|] == w && s[stopAt] == stop && s[stopAt + 1..] == rest
  {
    hide SkipSpace, ScanWord;
    var k := i + |gap|;
    assert k <= |s| && s[k..] == w + gap' + [stop] + rest by {
      SuffixStep(s, i, gap, w + gap' + [stop] + rest);
    }
    WordPositions(s, k, w, gap', stop, rest);
    stopAt := k + |w| + |gap'|;
    assert SkipSpace(s, i) == SkipSpace(s, k) by {
      GapIsSkipped(s, i, gap, w + gap' + [stop] + rest);
    }
    if w == [] {
      start := EmptyWord(s, k, gap', stop, rest, closing);
    } else {
      start := k;
      assert !IsSpace(s[k]) by { assert s[k] == s[k..][0] == w[0]; }
      SkipSpaceIs(s, k, k);
      ScanWordReads(s, k, w, gap', stop, rest, closing);
    }
  }

  lemma EmptyWord(s: string, k: nat, gap: string, stop: char, rest: string, closing: bool) returns (start: nat)
    requires k <= |s| && s[k..] == [] + gap + [stop] + rest && AllSpace(gap) && Stops(closing, stop)
    ensures start == k + |gap| == SkipSpace(s, k) < |s|
    ensures ScanWord(s, start, None, closing) == Word(start, start)
  {
    assert s[k..] == gap + ([stop] + rest);
    SuffixStep(s, k, gap, [stop] + rest);
    GapIsSkipped(s, k, gap, [stop] + rest);
    start := k + |gap|;
    assert s[start] == s[start..][0];
  }

  lemma PrefixReads(s: string, n: nat, ne: nat, comma: nat, v: Invocation)
    requires WellFormed(v) && n <= ne <= comma < |s| && s[comma + 1..] == PrintPrefix(v)
    ensures var r := ParsePrefix(s, n, ne, comma);
      && r.Found? && s[r.prefixStart..r.prefixEnd] == v.prefix && s[r.close + 1..] == v.after
  {
    var start, close := GapAndWord(s, comma + 1, v.gap4, v.prefix, v.gap5, v.stop, v.after, true);
  }

  lemma ArgumentsRead(s: string, open: nat, v: Invocation)
    requires WellFormed(v) && open < |s| && s[open + 1..] == PrintArguments(v)
    ensures var r := ParseArguments(s, open);
      && r.Found? && s[r.nameStart..r.nameEnd] == v.typeName
      && s[r.prefixStart..r.prefixEnd] == v.prefix && s[r.close + 1..] == v.after
  {
    hide PrintPrefix, ParsePrefix, SkipSpace, ScanWord;
    var start, comma := GapAndWord(s, open + 1, v.gap2, v.typeName, v.gap3, ',', PrintPrefix(v), false);
    PrefixReads(s, start, start + |v.typeName|, comma, v);
  }

  lemma PrintedArguments(name: string, s: string, v: Invocation) returns (open: nat)
    requires Print(name, v) == s && WellFormed(v)
    ensures open == |v.before| + |name| + |v.gap1| < |s| && s[open] == '('
    ensures SkipSpace(s, |v.before| + |name|) == open
    ensures s[open + 1..] == PrintArguments(v)
  {
    var i := |v.before| + |name|;
    assert s[i..] == v.gap1 + (['('] + PrintArguments(v));
    SuffixStep(s, i, v.gap1, ['('] + PrintArguments(v));
    open := i + |v.gap1|;
    assert s[open] == s[open..][0];
    SuffixStep(s, open, ['('], PrintArguments(v));
    GapIsSkipped(s, i, v.gap1, ['('] + PrintArguments(v));
  }

  /** Parse after print: every layout of an invocation yields its two names and ends where it ends. */
  lemma PrintThenScan(name: string, s: string, v: Invocation)
    requires Prints(name, s, v) && name != [] && !IsSpace(name[0])
    ensures var r := Scan(name, s);
      && r.Found? && TypeName(s, r) == v.typeName && TypePrefix(s, r) == v.prefix
      && s[r.close + 1..] == v.after
  {
    hide Print, Parse, DefinesAt, IsDefinition;
    PrintThenParse(name, s, v);
    BeforeName(name, v);
    FirstIsScanned(name, s, |v.before|);
  }

  lemma BeforeName(name: string, v: Invocation)
    ensures |v.before| <= |Print(name, v)| && Print(name, v)[..|v.before|] == v.before
  {
  }

  lemma PrintThenParse(name: string, s: string, v: Invocation)
    requires Print(name, v) == s && WellFormed(v)
    ensures var r := Parse(s, |v.before| + |name|);
      && r.Found? && TypeName(s, r) == v.typeName && TypePrefix(s, r) == v.prefix
      && s[r.close + 1..] == v.after
  {
    var open := PrintedArguments(name, s, v);
    ArgumentsRead(s, open, v);
  }

  lemma FirstIsScanned(name: string, s: string, b: nat)
    requires FirstAt(name, s, b) && !IsDefinition(s[..b]) && name != [] && !IsSpace(name[0])
    ensures Scan(name, s) == Parse(s, b + |name|)
  {
    DefinitionIff(name, s, b);
    StrStrIs(s, name, b);
  }

  // ---------- definitions ----------

  lemma DefinitionFound(s: string, b: nat)
    requires DefinesAt(s, b) && b <= |s|
    ensures IsDefinition(s[..b])
  {
    var hash := SkipSpace(s, 0);
    var word := SkipSpace(s, hash + 1);
    SkipSpaceShape(s, 0);
    SkipSpaceShape(s, hash + 1);
    SkipSpaceShape(s, word + 7);
    DefinitionPieces(s, b, hash, word);
  }

  lemma DefinitionPieces(s: string, b: nat, hash: nat, word: nat)
    requires hash < word && word + 7 <= b <= |s| && s[hash] == '#' && DefineWordAt(s, word)
    requires SpaceBetween(s, 0, hash) && SpaceBetween(s, hash + 1, word) && SpaceBetween(s, word + 7, b)
    ensures IsDefinition(s[..b])
  {
    var g1, g2, w, g3 := s[..hash], s[hash + 1..word], s[word..word + 7], s[word + 7..b];
    assert s[..b] == g1 + ['#'] + g2 + w + g3;
    assert Definition(s[..b], g1, g2, w, g3);
  }

  lemma DefinitionRead(s: string, b: nat, g1: string, g2: string, word: string, g3: string)
    requires b < |s| && !IsSpace(s[b]) && Definition(s[..b], g1, g2, word, g3)
    ensures DefinesAt(s, b)
  {
    HashRead(s, b, g1, g2, word, g3);
    DefineWordRead(s, b, |g1| + 1, g2, word, g3);
  }

  lemma HashRead(s: string, b: nat, g1: string, g2: string, word: string, g3: string)
    requires b < |s| && Definition(s[..b], g1, g2, word, g3)
    ensures var h := |g1|; h < b && SkipSpace(s, 0) == h && s[h] == '#'
    ensures s[|g1| + 1..] == g2 + (word + (g3 + s[b..]))
  {
    var r1 := g2 + (word + (g3 + s[b..]));
    DefinitionText(s, b, g1, g2, word, g3);
    GapIsSkipped(s, 0, g1, ['#'] + r1);
    assert s[|g1|] == s[0..][|g1|];
    SuffixStep(s, 0, g1, ['#'] + r1);
    SuffixStep(s, |g1|, ['#'], r1);
  }

  lemma DefinitionText(s: string, b: nat, g1: string, g2: string, word: string, g3: string)
    requires b < |s| && s[..b] == g1 + ['#'] + g2 + word + g3
    ensures s[0..] == g1 + (['#'] + (g2 + (word + (g3 + s[b..]))))
  {
    assert s[0..] == s[..b] + s[b..];
  }

  lemma DefineWordRead(s: string, b: nat, i: nat, g2: string, word: string, g3: string)
    requires i <= b < |s| && !IsSpace(s[b]) && s[i..] == g2 + (word + (g3 + s[b..]))
    requires AllSpace(g2) && AllSpace(g3) && SameIgnoringCase(word, DEFINE)
    ensures var k := SkipSpace(s, i); DefineWordAt(s, k) && SkipSpace(s, k + 7) == b
  {
    var k := i + |g2|;
    var r3 := g3 + s[b..];
    assert !IsSpace(word[0]) by { assert ToUpper(word[0]) == ToUpper(DEFINE[0]); }
    assert SkipSpace(s, i) == k by { GapIsSkipped(s, i, g2, word + r3); }
    assert k + 7 <= |s| && s[k..k + 7] == word && s[k + 7..] == r3 by {
      SuffixStep(s, i, g2, word + r3);
      SuffixStep(s, k, word, r3);
    }
    assert SkipSpace(s, k + 7) == b by { GapIsSkipped(s, k + 7, g3, s[b..]); }
  }

  /** The scanner's definition check is the grammar's. */
  lemma DefinitionIff(name: string, s: string, b: nat)
    requires MatchesAt(s, b, name) && name != [] && !IsSpace(name[0])
    ensures DefinesAt(s, b) <==> IsDefinition(s[..b])
  {
    assert s[b] == s[b..b + |name|][0];
    if DefinesAt(s, b) {
      DefinitionFound(s, b);
    }
    if IsDefinition(s[..b]) {
      var g1, g2, word, g3 :| Definition(s[..b], g1, g2, word, g3);
      DefinitionRead(s, b, g1, g2, word, g3);
    }
  }

  // ---------- scanning, then printing ----------

  lemma {:induction false} SpaceTailShape(s: string, i: nat, end: nat, closing: bool)
    requires end <= i <= |s| && ScanWord(s, i, Some(end), closing).Word?
    ensures SpaceBetween(s, i, ScanWord(s, i, Some(end), closing).stop)
    decreases |s| - i
  {
    if !Stops(closing, s[i]) {
      SpaceTailShape(s, i + 1, end, closing);
    }
  }

  lemma {:induction false} ScanWordShape(s: string, i: nat, closing: bool)
    requires i <= |s| && ScanWord(s, i, None, closing).Word?
    ensures var r := ScanWord(s, i, None, closing);
      IsWord(s[i..r.end], closing) && AllSpace(s[r.end..r.stop])
    decreases |s| - i
  {
    var r := ScanWord(s, i, None, closing);
    if Stops(closing, s[i]) {
    } else if IsSpace(s[i]) {
      SpaceTailShape(s, i + 1, i, closing);
    } else {
      ScanWordShape(s, i + 1, closing);
      assert s[i..r.end] == [s[i]] + s[i + 1..r.end];
    }
  }

  /** The text cut at the scanner's positions. */
  function Pieces(s: string, b: nat, i: nat, open: nat, n: nat, ne: nat, comma: nat, q: nat, pe: nat, close: nat): Invocation
    requires b <= i <= open < n <= ne <= comma < q <= pe <= close < |s|
  {
    Invocation(s[..b], s[i..open], s[open + 1..n], s[n..ne], s[ne..comma],
               s[comma + 1..q], s[q..pe], s[pe..close], s[close], s[close + 1..])
  }

  lemma PiecesJoin(s: string, i: nat, j: nat, k: nat, l: nat)
    requires i <= j <= k <= l < |s|
    ensures s[i..] == s[i..j] + (s[j..k] + s[k..l] + [s[l]] + s[l + 1..])
  {
  }

  lemma HeadJoins(s: string, b: nat, i: nat, open: nat)
    requires b <= i <= open < |s|
    ensures s == s[..b] + s[b..i] + (s[i..open] + ([s[open]] + s[open + 1..]))
  {
    assert s[i..] == s[i..open] + ([s[open]] + s[open + 1..]);
  }

  lemma PiecesPrint(s: string, b: nat, i: nat, open: nat, n: nat, ne: nat, comma: nat, q: nat, pe: nat, close: nat)
    requires b <= i <= open < n <= ne <= comma < q <= pe <= close < |s|
    requires s[open] == '(' && s[comma] == ','
    ensures Print(s[b..i], Pieces(s, b, i, open, n, ne, comma, q, pe, close)) == s
  {
    var v := Pieces(s, b, i, open, n, ne, comma, q, pe, close);
    assert PrintPrefix(v) == s[comma + 1..] by { PiecesJoin(s, comma + 1, q, pe, close); }
    assert PrintArguments(v) == s[open + 1..] by { PiecesJoin(s, open + 1, n, ne, comma); }
    HeadJoins(s, b, i, open);
  }

  lemma PiecesWellFormed(s: string, b: nat, i: nat, open: nat, n: nat, ne: nat, comma: nat, q: nat, pe: nat, close: nat)
    requires b <= i <= open < n <= ne <= comma < q <= pe <= close < |s|
    requires SpaceBetween(s, i, open) && SpaceBetween(s, open + 1, n) && SpaceBetween(s, comma + 1, q)
    requires IsWord(s[n..ne], false) && AllSpace(s[ne..comma])
    requires IsWord(s[q..pe], true) && AllSpace(s[pe..close]) && Stops(true, s[close])
    ensures WellFormed(Pieces(s, b, i, open, n, ne, comma, q, pe, close))
  {
  }

  /** The positions of the brackets and of the comma behind a found verdict. */
  lemma FoundPositions(s: string, i: nat) returns (open: nat, comma: nat)
    requires i <= |s| && Parse(s, i).Found?
    ensures var r := Parse(s, i);
      && i <= open < r.nameStart <= r.nameEnd <= comma < r.prefixStart
      && s[open] == '(' && s[comma] == ',' && Stops(true, s[r.close])
      && SpaceBetween(s, i, open) && SpaceBetween(s, open + 1, r.nameStart) && SpaceBetween(s, comma + 1, r.prefixStart)
      && IsWord(s[r.nameStart..r.nameEnd], false) && AllSpace(s[r.nameEnd..comma])
      && IsWord(s[r.prefixStart..r.prefixEnd], true) && AllSpace(s[r.prefixEnd..r.close])
  {
    hide IsWord, AllSpace, SpaceBetween, SkipSpace, ScanWord;
    var r := Parse(s, i);
    open := SkipSpace(s, i);
    comma := ScanWord(s, r.nameStart, None, false).stop;
    SkipSpaceShape(s, i);
    SkipSpaceShape(s, open + 1);
    SkipSpaceShape(s, comma + 1);
    ScanWordShape(s, r.nameStart, false);
    ScanWordShape(s, r.prefixStart, true);
  }

  lemma ParseThenPrint(name: string, s: string, b: nat) returns (v: Invocation)
    requires MatchesAt(s, b, name) && Parse(s, b + |name|).Found?
    ensures WellFormed(v) && Print(name, v) == s && v.before == s[..b]
    ensures var r := Parse(s, b + |name|); v.typeName == TypeName(s, r) && v.prefix == TypePrefix(s, r)
  {
    var i := b + |name|;
    var r := Parse(s, i);
    var open, comma := FoundPositions(s, i);
    v := Pieces(s, b, i, open, r.nameStart, r.nameEnd, comma, r.prefixStart, r.prefixEnd, r.close);
    assert WellFormed(v) by {
      PiecesWellFormed(s, b, i, open, r.nameStart, r.nameEnd, comma, r.prefixStart, r.prefixEnd, r.close);
    }
    assert Print(name, v) == s by {
      PiecesPrint(s, b, i, open, r.nameStart, r.nameEnd, comma, r.prefixStart, r.prefixEnd, r.close);
    }
  }

  /** Print after parse: a found verdict comes from a printed invocation. */
  lemma ScanThenPrint(name: string, s: string) returns (v: Invocation)
    requires Scan(name, s).Found? && name != [] && !IsSpace(name[0])
    ensures Prints(name, s, v)
    ensures v.typeName == TypeName(s, Scan(name, s)) && v.prefix == TypePrefix(s, Scan(name, s))
  {
    var b := StrStr(s, name, 0).value;
    StrStrFirst(s, name, 0);
    v := ParseThenPrint(name, s, b);
    assert !IsDefinition(v.before) by { DefinitionIff(name, s, b); }
  }

  ghost predicate Reads(name: string, s: string, typeName: string, prefix: string) {
    var r := Scan(name, s);
    r.Found? && TypeName(s, r) == typeName && TypePrefix(s, r) == prefix
  }

  ghost predicate IsPrintOf(name: string, s: string, typeName: string, prefix: string, v: Invocation) {
    v.typeName == typeName && v.prefix == prefix && Prints(name, s, v)
  }

  /** The scanner records (T, P) for exactly the texts that print an invocation of T and P. */
  lemma AcceptsExactly(name: string, s: string, typeName: string, prefix: string)
    requires name != [] && !IsSpace(name[0])
    ensures Reads(name, s, typeName, prefix)
       <==> exists v :: IsPrintOf(name, s, typeName, prefix, v)
  {
    if Reads(name, s, typeName, prefix) {
      var v := ScanThenPrint(name, s);
      assert IsPrintOf(name, s, typeName, prefix, v);
    }
    forall v | IsPrintOf(name, s, typeName, prefix, v)
      ensures Reads(name, s, typeName, prefix)
    {
      PrintThenScan(name, s, v);
    }
  }
}
