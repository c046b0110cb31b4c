/**
  Character classes and string searches of the C library, over strings without
  their terminating NUL. Only the "C" locale is modelled.
 */
module CText {

  datatype Option<+T> = None | Some(value: T)

  const NUL: char := '\0'

  /** isspace: blank, \t, \n, \v, \f and \r. */
  predicate IsSpace(c: char) {
    c == ' ' || '\t' <= c <= '\r'
  }

  ghost predicate AllSpace(s: string) {
    SpaceBetween(s, 0, |s|)
  }

  ghost predicate SpaceBetween(s: string, i: nat, j: nat) {
    forall k :: i <= k < j && k < |s| ==> IsSpace(s[k])
  }

  function ToUpper(c: char): char {
    if 'a' <= c <= 'z' then (c as int - 32) as char else c
  }

  predicate SameIgnoringCase(s: string, t: string) {
    && |s| == |t|
    && forall i :: 0 <= i < |s| ==> ToUpper(s[i]) == ToUpper(t[i])
  }

  /** The characters that count as white space. */
  lemma SpaceIs(c: char)
    ensures IsSpace(c) <==> c in " \t\n\r" || c == 0x0B as char || c == 0x0C as char
  {
  }

  /** c and d are the same letter of the alphabet, one small and one capital. */
  ghost predicate OtherCase(c: char, d: char) {
    ('a' <= c <= 'z' && 'A' <= d <= 'Z' && c as int - 'a' as int == d as int - 'A' as int) ||
    ('a' <= d <= 'z' && 'A' <= c <= 'Z' && d as int - 'a' as int == c as int - 'A' as int)
  }

  /** Strings are the same ignoring case iff they differ at most by letters in their other case. */
  lemma SameCaseIff(s: string, t: string)
    ensures SameIgnoringCase(s, t) <==>
      |s| == |t| && forall i :: 0 <= i < |s| ==> s[i] == t[i] || OtherCase(s[i], t[i])
  {
    forall c: char, d: char
      ensures ToUpper(c) == ToUpper(d) <==> c == d || OtherCase(c, d)
    {
      UpperIff(c, d);
    }
  }

  lemma UpperIff(c: char, d: char)
    ensures ToUpper(c) == ToUpper(d) <==> c == d || OtherCase(c, d)
  {
    if 'a' <= c <= 'z' {
      assert ToUpper(c) as int == c as int - 32;
    }
    if 'a' <= d <= 'z' {
      assert ToUpper(d) as int == d as int - 32;
    }
  }

  predicate MatchesAt(s: string, i: nat, t: string) {
    i + |t| <= |s| && s[i..i + |t|] == t
  }

  ghost predicate Occurs(s: string, t: string) {
    exists i: nat :: MatchesAt(s, i, t)
  }

  /** strstr from position i. */
  function StrStr(s: string, t: string, i: nat): (r: Option<nat>)
    requires i <= |s|
    ensures r.Some? ==> i <= r.value && r.value + |t| <= |s|
    decreases |s| - i
  {
    if MatchesAt(s, i, t) then Some(i)
    else if i == |s| then None
    else StrStr(s, t, i + 1)
  }

  ghost predicate FirstFrom(s: string, t: string, i: nat, r: Option<nat>) {
    && (r.None? ==> forall j: nat :: i <= j ==> !MatchesAt(s, j, t))
    && (r.Some? ==> i <= r.value && MatchesAt(s, r.value, t))
    && (r.Some? ==> forall j: nat :: i <= j < r.value ==> !MatchesAt(s, j, t))
  }

  /** strstr returns the first occurrence, or none if there is none. */
  lemma {:induction false} StrStrFirst(s: string, t: string, i: nat)
    requires i <= |s|
    ensures FirstFrom(s, t, i, StrStr(s, t, i))
    decreases |s| - i
  {
    if !MatchesAt(s, i, t) && i < |s| {
      StrStrFirst(s, t, i + 1);
    }
  }

  lemma StrStrIs(s: string, t: string, b: nat)
    requires MatchesAt(s, b, t) && forall j: nat :: j < b ==> !MatchesAt(s, j, t)
    ensures StrStr(s, t, 0) == Some(b)
  {
    StrStrFirst(s, t, 0);
  }

  /** strchr: the next c at or behind i, or the end of the string. */
  function StrChr(s: string, c: char, i: nat): (j: nat)
    requires i <= |s|
    ensures i <= j <= |s| && (j < |s| ==> s[j] == c)
    ensures forall k :: i <= k < j ==> s[k] != c
    decreases |s| - i
  {
    if i == |s| || s[i] == c then i else StrChr(s, c, i + 1)
  }

  lemma {:induction false} StrChrIs(s: string, c: char, i: nat, j: nat)
    requires i <= j <= |s| && (j < |s| ==> s[j] == c) && forall k :: i <= k < j ==> s[k] != c
    ensures StrChr(s, c, i) == j
    decreases j - i
  {
    if i < j {
      StrChrIs(s, c, i + 1, j);
    }
  }

  /** The first position at or after i that holds no white space, or the end. */
  function SkipSpace(s: string, i: nat): (j: nat)
    requires i <= |s|
    ensures i <= j <= |s|
    decreases |s| - i
  {
    if i < |s| && IsSpace(s[i]) then SkipSpace(s, i + 1) else i
  }

  lemma {:induction false} SkipSpaceShape(s: string, i: nat)
    requires i <= |s|
    ensures SpaceBetween(s, i, SkipSpace(s, i))
    ensures SkipSpace(s, i) < |s| ==> !IsSpace(s[SkipSpace(s, i)])
    decreases |s| - i
  {
    if i < |s| && IsSpace(s[i]) {
      SkipSpaceShape(s, i + 1);
    }
  }

  /** SkipSpace finds the end of any run of white space that is followed by something else. */
  lemma {:induction false} SkipSpaceIs(s: string, i: nat, j: nat)
    requires i <= j <= |s| && SpaceBetween(s, i, j)
    requires j < |s| ==> !IsSpace(s[j])
    ensures SkipSpace(s, i) == j
    decreases j - i
  {
    if i < j {
      SkipSpaceIs(s, i + 1, j);
    }
  }

  lemma MatchesAtPrefix(s: string, rest: string, i: nat, t: string)
    requires i + |t| <= |s|
    ensures MatchesAt(s + rest, i, t) <==> MatchesAt(s, i, t)
  {
    assert (s + rest)[i..i + |t|] == s[i..i + |t|];
  }

  /** An occurrence found in a prefix is also the one found in the whole string. */
  lemma StrStrStable(s: string, rest: string, t: string)
    requires StrStr(s, t, 0).Some?
    ensures StrStr(s + rest, t, 0) == StrStr(s, t, 0)
  {
    var b := StrStr(s, t, 0).value;
    StrStrFirst(s, t, 0);
    forall j: nat | j <= b
      ensures MatchesAt(s + rest, j, t) <==> j == b
    {
      MatchesAtPrefix(s, rest, j, t);
    }
    StrStrIs(s + rest, t, b);
  }
}
