/**
  Widget texts may carry an HTML section, "plain<html>rich</html>plain". The backends
  each scan for it in the same way; GTK keeps the plain part, FOX and Qt the rich one.
 */
module HtmlSplit {
  import opened CText

  const OPEN: string := "<HTML>"
  const CLOSE: string := "</HTML>"

  predicate TagAt(s: string, i: nat, tag: string) {
    i + |tag| <= |s| && SameIgnoringCase(s[i..i + |tag|], tag)
  }

  /** r is the first position at or behind i where the tag stands, if there is one. */
  ghost predicate FirstTag(s: string, tag: string, i: nat, r: Option<nat>) {
    && (r.Some? ==> i <= r.value && TagAt(s, r.value, tag))
    && (forall j: nat :: i <= j && (r.Some? ==> j < r.value) ==> !TagAt(s, j, tag))
  }

  function FindTag(s: string, tag: string, i: nat): Option<nat>
    decreases |s| - i
  {
    if i + |tag| > |s| then None else if TagAt(s, i, tag) then Some(i) else FindTag(s, tag, i + 1)
  }

  lemma {:induction false} FindTagIsFirst(s: string, tag: string, i: nat)
    ensures FirstTag(s, tag, i, FindTag(s, tag, i))
    decreases |s| - i
  {
    if i + |tag| <= |s| && !TagAt(s, i, tag) {
      FindTagIsFirst(s, tag, i + 1);
    }
  }

  lemma FirstTagIsUnique(s: string, tag: string, i: nat, r: Option<nat>)
    requires FirstTag(s, tag, i, r)
    ensures FindTag(s, tag, i) == r
  {
    FindTagIsFirst(s, tag, i);
  }

  datatype Section = NoSection | Section(open: nat, close: nat)

  /** The first opening tag and the first closing tag behind it. */
  function FindSection(s: string): (r: Section)
    ensures r.Section? ==> r.open + 6 <= r.close && r.close + 7 <= |s|
  {
    var o := FindTag(s, OPEN, 0);
    if o.None? then NoSection
    else
      FindTagIsFirst(s, OPEN, 0);
      var c := FindTag(s, CLOSE, o.value + 6);
      if c.None? then NoSection
      else
        FindTagIsFirst(s, CLOSE, o.value + 6);
        Section(o.value, c.value)
  }

  function Plain(s: string): string {
    var r := FindSection(s);
    if r.NoSection? then s else s[..r.open] + s[r.close + 7..]
  }

  function Rich(s: string): string {
    var r := FindSection(s);
    if r.NoSection? then s else s[r.open + 6..r.close]
  }

  // ---------- splitting and joining ----------

  ghost predicate Spells(t: string, tag: string) {
    SameIgnoringCase(t, tag)
  }

  /** The pieces put back together are the text: nothing is lost but the tags. */
  lemma PiecesReassemble(s: string)
    ensures var r := FindSection(s); r.Section? ==>
      && var before, open, close, after := s[..r.open], s[r.open..r.open + 6], s[r.close..r.close + 7], s[r.close + 7..];
      && Plain(s) == before + after
      && Spells(open, OPEN) && Spells(close, CLOSE)
      && s == before + open + Rich(s) + close + after
    ensures FindSection(s).NoSection? ==> Plain(s) == s && Rich(s) == s
  {
    var r := FindSection(s);
    if r.Section? {
      SectionTags(s);
      hide FindSection, Spells;
      FivePieces(s, r.open, r.close);
    }
  }

  lemma SectionTags(s: string)
    requires FindSection(s).Section?
    ensures var r := FindSection(s); Spells(s[r.open..r.open + 6], OPEN) && Spells(s[r.close..r.close + 7], CLOSE)
  {
    FindTagIsFirst(s, OPEN, 0);
    FindTagIsFirst(s, CLOSE, FindSection(s).open + 6);
  }

  lemma FivePieces(s: string, o: nat, c: nat)
    requires o + 6 <= c && c + 7 <= |s|
    ensures s == s[..o] + s[o..o + 6] + s[o + 6..c] + s[c..c + 7] + s[c + 7..]
  {
  }

  lemma TagStarts(s: string, i: nat, tag: string, k: nat)
    requires TagAt(s, i, tag) && k < |tag| && (tag == OPEN || tag == CLOSE)
    ensures s[i + k] == '<' <==> k == 0
  {
    assert s[i..i + |tag|][k] == s[i + k];
    assert ToUpper(s[i + k]) == ToUpper(tag[k]);
    assert ToUpper(tag[k]) == '<' <==> k == 0;
  }

  /** A tag that is found in a + t + rest before t, although a has none and t begins with '<', cannot be. */
  lemma NoStraddling(a: string, rest: string, tag: string, i: nat, from: nat)
    requires rest != [] && rest[0] == '<' && (tag == OPEN || tag == CLOSE)
    requires forall j: nat :: from <= j ==> !TagAt(a, j, tag)
    requires from <= i < |a|
    ensures !TagAt(a + rest, i, tag)
  {
    var s := a + rest;
    if i + |tag| <= |a| {
      assert s[i..i + |tag|] == a[i..i + |tag|];
      assert !TagAt(a, i, tag);
    } else if TagAt(s, i, tag) {
      TagStarts(s, i, tag, |a| - i);
    }
  }

  lemma FoundBehind(a: string, t: string, rest: string, tag: string, from: nat)
    requires (tag == OPEN || tag == CLOSE) && Spells(t, tag) && from <= |a|
    requires forall j: nat :: from <= j ==> !TagAt(a, j, tag)
    ensures FindTag(a + t + rest, tag, from) == Some(|a|)
  {
    var s := a + t + rest;
    assert s[|a|..|a| + |t|] == t;
    assert TagAt(s, |a|, tag);
    TagStarts(s, |a|, tag, 0);
    assert s == a + (t + rest) && (t + rest)[0] == '<';
    forall i: nat | from <= i < |a|
      ensures !TagAt(s, i, tag)
    {
      NoStraddling(a, t + rest, tag, i, from);
    }
    FirstTagIsUnique(s, tag, from, Some(|a|));
  }

  lemma TagsShift(a: string, h: string, tag: string, from: nat)
    requires from == |a| && forall j: nat :: !TagAt(h, j, tag)
    ensures forall j: nat :: from <= j ==> !TagAt(a + h, j, tag)
  {
    forall j: nat | from <= j
      ensures !TagAt(a + h, j, tag)
    {
      if j + |tag| <= |a + h| {
        assert (a + h)[j..j + |tag|] == h[j - from..j - from + |tag|];
        assert !TagAt(h, j - from, tag);
      }
    }
  }

  lemma OpenFound(a: string, open: string, h: string, close: string, b: string)
    requires Spells(open, OPEN) && forall j: nat :: !TagAt(a, j, OPEN)
    ensures FindTag(a + open + h + close + b, OPEN, 0) == Some(|a|)
  {
    FoundBehind(a, open, h + close + b, OPEN, 0);
    assert a + open + h + close + b == a + open + (h + close + b);
  }

  lemma CloseFound(a: string, open: string, h: string, close: string, b: string)
    requires Spells(open, OPEN) && Spells(close, CLOSE) && forall j: nat :: !TagAt(h, j, CLOSE)
    ensures FindTag(a + open + h + close + b, CLOSE, |a| + 6) == Some(|a| + 6 + |h|)
  {
    TagsShift(a + open, h, CLOSE, |a| + 6);
    FoundBehind(a + open + h, close, b, CLOSE, |a| + 6);
  }

  /** Split after join: plain text around a rich part comes apart again, whatever the case of the tags. */
  lemma JoinThenSplit(a: string, open: string, h: string, close: string, b: string)
    requires Spells(open, OPEN) && Spells(close, CLOSE)
    requires forall j: nat :: !TagAt(a, j, OPEN)
    requires forall j: nat :: !TagAt(h, j, CLOSE)
    ensures var s := a + open + h + close + b; Plain(s) == a + b && Rich(s) == h
  {
    hide FindTag, TagAt;
    OpenFound(a, open, h, close, b);
    CloseFound(a, open, h, close, b);
    PartsOf(a, open, h, close, b);
  }

  lemma PartsOf(a: string, open: string, h: string, close: string, b: string)
    ensures var s := a + open + h + close + b;
      && s[..|a|] == a && s[|a| + |open|..|a| + |open| + |h|] == h
      && s[|a| + |open| + |h| + |close|..] == b
  {
  }

  // ---------- the scanning loops ----------

  /** The nested comparisons behind a '<'; reading stops at the first difference, at the latest at the NUL. */
  method MatchTag(s: string, p: nat, tag: string) returns (yes: bool)
    requires p < |s| && tag != [] && ToUpper(s[p]) == ToUpper(tag[0])
    ensures yes == TagAt(s, p, tag)
  {
    var k := 1;
    while k < |tag| && p + k < |s| && ToUpper(s[p + k]) == ToUpper(tag[k])
      invariant 1 <= k <= |tag| && p + k <= |s|
      invariant forall i :: 0 <= i < k ==> ToUpper(s[p + i]) == ToUpper(tag[i])
    {
      k := k + 1;
    }
    yes := k == |tag|;
    if !yes && p + |tag| <= |s| {
      assert s[p..p + |tag|][k] == s[p + k];
    }
  }

  lemma HopSkipsNothing(s: string, tag: string, i: nat, q: nat)
    requires i <= q <= |s| && (tag == OPEN || tag == CLOSE) && forall k :: i <= k < q ==> s[k] != '<'
    ensures forall j: nat :: i <= j < q ==> !TagAt(s, j, tag)
  {
    forall j: nat | i <= j < q
      ensures !TagAt(s, j, tag)
    {
      if TagAt(s, j, tag) {
        TagStarts(s, j, tag, 0);
      }
    }
  }

  lemma NoTagAtEnd(s: string, tag: string)
    requires tag != []
    ensures forall j: nat :: |s| <= j ==> !TagAt(s, j, tag)
  {
  }

  /** Hopping from '<' to '<' finds the first tag. */
  method ScanTag(s: string, from: nat, tag: string) returns (r: Option<nat>)
    requires from <= |s| && (tag == OPEN || tag == CLOSE)
    ensures r == FindTag(s, tag, from)
  {
    hide TagAt;
    var p := StrChr(s, '<', from);
    HopSkipsNothing(s, tag, from, p);
    while p < |s|
      invariant from <= p <= |s| && (p < |s| ==> s[p] == '<')
      invariant forall j: nat :: from <= j < p ==> !TagAt(s, j, tag)
      decreases |s| - p
    {
      var yes := MatchTag(s, p, tag);
      if yes {
        FirstTagIsUnique(s, tag, from, Some(p));
        return Some(p);
      }
      var q := StrChr(s, '<', p + 1);
      HopSkipsNothing(s, tag, p + 1, q);
      p := q;
    }
    NoTagAtEnd(s, tag);
    FirstTagIsUnique(s, tag, from, None);
    r := None;
  }

  /** GWEN_BUFFER, as far as these functions use it. */
  class Buffer {
    var bytes: string

    constructor ()
      ensures bytes == []
    {
      bytes := [];
    }

    method Append(s: string)
      modifies this
      ensures bytes == old(bytes) + s
    {
      bytes := bytes + s;
    }
  }

  /** The two searches that all three backends begin with. */
  method ScanSection(s: string) returns (r: Section)
    ensures r == FindSection(s)
  {
    hide FindTag;
    FindTagIsFirst(s, OPEN, 0);
    var p := ScanTag(s, 0, OPEN);
    r := NoSection;
    if p.Some? {
      FindTagIsFirst(s, CLOSE, p.value + 6);
      var p2 := ScanTag(s, p.value + 6, CLOSE);
      if p2.Some? {
        r := Section(p.value, p2.value);
      }
    }
  }

  /** Gtk3Gui_GetRawText; None stands for the null pointer. */
  method GetRawText(text: Option<string>, tbuf: Buffer)
    modifies tbuf
    ensures tbuf.bytes == old(tbuf.bytes) + if text.None? then [] else Plain(text.value)
  {
    hide FindSection;
    if text.None? {
      return;
    }
    var s := text.value;
    var r := ScanSection(s);
    if r.Section? {
      if r.open > 0 {
        tbuf.Append(s[..r.open]);
      }
      if r.close + 7 < |s| {
        tbuf.Append(s[r.close + 7..]);
      }
    } else {
      tbuf.Append(s);
    }
  }

  /** FOX16_Gui::getHtmlText */
  method GetHtmlText(text: Option<string>) returns (html: string)
    ensures html == if text.None? then [] else Rich(text.value)
  {
    hide FindSection;
    if text.None? {
      return [];
    }
    var s := text.value;
    var r := ScanSection(s);
    html := if r.Section? then s[r.open + 6..r.close] else s;
  }

  /** What Qt is given: the rich part in Qt's own tags, or the text as it is. */
  function QtText(s: string): string {
    if FindSection(s).NoSection? then s else "<qt>" + Rich(s) + "</qt>"
  }

  /** A text with a section, its tags written in small letters, in all three backends. */
  lemma HtmlInAllBackends(a: string, h: string, b: string)
    requires forall j: nat :: !TagAt(a, j, OPEN)
    requires forall j: nat :: !TagAt(h, j, CLOSE)
    ensures var s := a + "<html>" + h + "</html>" + b;
      Plain(s) == a + b && Rich(s) == h && QtText(s) == "<qt>" + h + "</qt>"
  {
    assert SameIgnoringCase("<html>", OPEN) && SameIgnoringCase("</html>", CLOSE);
    hide TagAt, FindTag;
    JoinThenSplit(a, "<html>", h, "</html>", b);
    OpenFound(a, "<html>", h, "</html>", b);
    CloseFound(a, "<html>", h, "</html>", b);
  }

  /** The tags are these two, in any case. */
  lemma TagsAre(t: string)
    ensures Spells(t, OPEN) <==> SameIgnoringCase(t, "<html>")
    ensures Spells(t, CLOSE) <==> SameIgnoringCase(t, "</html>")
  {
    assert SameIgnoringCase("<html>", OPEN) && SameIgnoringCase("</html>", CLOSE);
  }

  /** QT4_Gui::extractHtml */
  method ExtractHtml(text: Option<string>) returns (html: string)
    ensures html == if text.None? then [] else QtText(text.value)
  {
    hide FindSection;
    if text.None? {
      return [];
    }
    var s := text.value;
    var r := ScanSection(s);
    html := if r.Section? then "<qt>" + s[r.open + 6..r.close] + "</qt>" else s;
  }
}
