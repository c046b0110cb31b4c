/**
  The @VAR@ expander of transformF. The loop over the line, with its temporary NULs and
  its jumps back, is proved to be plain search-and-replace: the leftmost variable is
  replaced, and the search goes on behind it.
 */
module TemplateExpander {
  import opened CText

  /** The values of the variables; a name holds no '@'. */
  ghost predicate IsEnv(env: map<string, string>) {
    forall k :: k in env ==> '@' !in k
  }

  function TemplateEnv(typeName: string, typePrefix: string, fileName: string): (env: map<string, string>)
    ensures IsEnv(env)
  {
    map["TYPENAME" := typeName, "FN_PREFIX" := typePrefix, "FILENAME" := fileName]
  }

  // ---------- search and replace ----------

  function Quoted(k: string): string {
    ['@'] + k + ['@']
  }

  ghost predicate VarAt(env: map<string, string>, s: string, i: nat, k: string) {
    k in env && MatchesAt(s, i, Quoted(k))
  }

  ghost predicate IsVarAt(env: map<string, string>, s: string, i: nat) {
    exists k :: VarAt(env, s, i, k)
  }

  /** The leftmost variable at or behind i. */
  ghost function FirstVar(env: map<string, string>, s: string, i: nat): (r: Option<nat>)
    requires i <= |s|
    ensures r.Some? ==> i <= r.value < |s| && IsVarAt(env, s, r.value)
    ensures forall j: nat :: i <= j && (r.Some? ==> j < r.value) ==> !IsVarAt(env, s, j)
    decreases |s| - i
  {
    if i == |s| then None
    else if IsVarAt(env, s, i) then Some(i)
    else FirstVar(env, s, i + 1)
  }

  datatype Piece = Text(text: string) | Var(name: string)

  /** The line cut into plain text and variables, from the left and without overlap. */
  ghost function Pieces(env: map<string, string>, s: string): seq<Piece>
    decreases |s|
  {
    var first := FirstVar(env, s, 0);
    if first.None? then [Text(s)]
    else
      var k :| VarAt(env, s, first.value, k);
      [Text(s[..first.value]), Var(k)] + Pieces(env, s[first.value + |k| + 2..])
  }

  /** The text that the pieces were cut from. */
  ghost function Source(pieces: seq<Piece>): string {
    if pieces == [] then []
    else (match pieces[0] case Text(t) => t case Var(k) => Quoted(k)) + Source(pieces[1..])
  }

  /** The text with every variable replaced by its value. */
  ghost function Replaced(env: map<string, string>, pieces: seq<Piece>): string {
    if pieces == [] then []
    else
      var head := match pieces[0] case Text(t) => t case Var(k) => if k in env then env[k] else Quoted(k);
      head + Replaced(env, pieces[1..])
  }

  ghost predicate HasEmptyVar(env: map<string, string>, pieces: seq<Piece>) {
    exists i :: 0 <= i < |pieces| && pieces[i].Var? && pieces[i].name in env && env[pieces[i].name] == []
  }

  lemma SourceCons(t: string, k: string, rest: seq<Piece>)
    ensures Source([Text(t), Var(k)] + rest) == t + (Quoted(k) + Source(rest))
  {
    var pieces := [Text(t), Var(k)] + rest;
    assert pieces[1..] == [Var(k)] + rest && pieces[1..][1..] == rest;
  }

  lemma ThreeParts(s: string, i: nat, e: nat)
    requires i <= e <= |s|
    ensures s == s[..i] + (s[i..e] + s[e..])
  {
  }

  /** Nothing of the line is lost or invented by cutting it into pieces. */
  lemma {:induction false} PiecesAreTheLine(env: map<string, string>, s: string)
    requires IsEnv(env)
    ensures Source(Pieces(env, s)) == s
    decreases |s|
  {
    if FirstVar(env, s, 0).Some? {
      hide Pieces, Source, VarAt, IsVarAt, FirstVar, Quoted;
      var i, k := PiecesStep(env, s);
      var e := i + |k| + 2;
      PiecesAreTheLine(env, s[e..]);
      SourceCons(s[..i], k, Pieces(env, s[e..]));
      ThreeParts(s, i, e);
    } else {
      assert Pieces(env, s)[1..] == [];
    }
  }

  // ---------- the scan of the source ----------

  datatype Output = Output(text: string, ok: bool) {
    function Prepend(t: string): Output {
      Output(t + text, ok)
    }
  }

  /** The name between the '@' at p and the next one, if it is the name of a variable. */
  function NameAt(env: map<string, string>, s: string, p: nat): (r: Option<string>)
    requires p < |s| && s[p] == '@'
    ensures r.Some? ==> r.value in env && p + |r.value| + 2 <= |s|
  {
    var j := StrChr(s, '@', p + 1);
    if j < |s| && s[p + 1..j] in env then Some(s[p + 1..j]) else None
  }

  /** What is written from position p on. An empty value makes fprintf return 0, which counts as an error. */
  function Expand(env: map<string, string>, s: string, p: nat): Output
    requires p <= |s|
    decreases |s| - p
  {
    if p == |s| then Output([], true)
    else if s[p] != '@' then Expand(env, s, p + 1).Prepend([s[p]])
    else
      var name := NameAt(env, s, p);
      if name.None? then Expand(env, s, p + 1).Prepend(['@'])
      else if env[name.value] == [] then Output([], false)
      else Expand(env, s, p + |name.value| + 2).Prepend(env[name.value])
  }

  /** The scanner's test at an '@' is the test for a quoted variable. */
  lemma NameAtIff(env: map<string, string>, s: string, p: nat, k: string)
    requires IsEnv(env) && p < |s|
    ensures VarAt(env, s, p, k) <==> s[p] == '@' && NameAt(env, s, p) == Some(k)
  {
    if VarAt(env, s, p, k) {
      var j := p + 1 + |k|;
      var q := s[p..p + |k| + 2];
      assert q[0] == '@' && q[|k| + 1] == '@' && q[1..|k| + 1] == k;
      assert s[p] == q[0] && s[j] == q[|k| + 1] && s[p + 1..j] == q[1..|k| + 1];
      assert forall n :: p + 1 <= n < j ==> s[n] == k[n - p - 1];
      StrChrIs(s, '@', p + 1, j);
    }
    if s[p] == '@' && NameAt(env, s, p) == Some(k) {
      assert s[p..p + |k| + 2] == [s[p]] + s[p + 1..p + 1 + |k|] + [s[p + 1 + |k|]];
    }
  }

  lemma NoVarNoName(env: map<string, string>, s: string, p: nat)
    requires IsEnv(env) && p < |s| && !IsVarAt(env, s, p) && s[p] == '@'
    ensures NameAt(env, s, p).None?
  {
    if NameAt(env, s, p).Some? {
      NameAtIff(env, s, p, NameAt(env, s, p).value);
    }
  }

  /** Text without a variable is copied; this is where an unknown "@...@" gives up only its first '@'. */
  lemma {:induction false} CopiesPlain(env: map<string, string>, s: string, p: nat, i: nat)
    requires IsEnv(env) && p <= i <= |s|
    requires forall j: nat :: p <= j < i ==> !IsVarAt(env, s, j)
    ensures Expand(env, s, p) == Expand(env, s, i).Prepend(s[p..i])
    decreases i - p
  {
    if p < i {
      CopiesPlain(env, s, p + 1, i);
      assert s[p..i] == [s[p]] + s[p + 1..i];
      assert [s[p]] + (s[p + 1..i] + Expand(env, s, i).text) == s[p..i] + Expand(env, s, i).text;
      if s[p] == '@' {
        NoVarNoName(env, s, p);
      }
    } else {
      assert s[p..i] == [];
      assert [] + Expand(env, s, i).text == Expand(env, s, i).text;
    }
  }

  lemma {:induction false} StrChrShift(s: string, p: nat, i: nat)
    requires p <= i <= |s|
    ensures StrChr(s[p..], '@', i - p) == StrChr(s, '@', i) - p
    decreases |s| - i
  {
    if i < |s| && s[i] != '@' {
      StrChrShift(s, p, i + 1);
    }
  }

  lemma NameAtShift(env: map<string, string>, s: string, p: nat, i: nat)
    requires p <= i < |s| && s[i] == '@'
    ensures NameAt(env, s[p..], i - p) == NameAt(env, s, i)
  {
    StrChrShift(s, p, i + 1);
    var j := StrChr(s, '@', i + 1);
    assert s[p..][i - p + 1..j - p] == s[i + 1..j];
  }

  /** Expanding from p on depends on the text behind p only. */
  lemma {:induction false} ExpandShift(env: map<string, string>, s: string, p: nat, i: nat)
    requires p <= i <= |s|
    ensures Expand(env, s[p..], i - p) == Expand(env, s, i)
    decreases |s| - i
  {
    hide NameAt;
    if i < |s| {
      if s[i] != '@' {
        ExpandShift(env, s, p, i + 1);
      } else {
        NameAtShift(env, s, p, i);
        var name := NameAt(env, s, i);
        ExpandShift(env, s, p, if name.Some? then i + |name.value| + 2 else i + 1);
      }
    }
  }

  /** The pieces seen from the scanner: text, a variable, and the pieces of what is left. */
  lemma PiecesStep(env: map<string, string>, s: string) returns (i: nat, k: string)
    requires IsEnv(env) && FirstVar(env, s, 0).Some?
    ensures FirstVar(env, s, 0) == Some(i) && VarAt(env, s, i, k) && i + |k| + 2 <= |s|
    ensures Pieces(env, s) == [Text(s[..i]), Var(k)] + Pieces(env, s[i + |k| + 2..])
    ensures s[i] == '@' && NameAt(env, s, i) == Some(k) && s[i..i + |k| + 2] == Quoted(k)
  {
    i := FirstVar(env, s, 0).value;
    k := Pieces(env, s)[1].name;
    assert VarAt(env, s, i, k);
    NameAtIff(env, s, i, k);
  }

  lemma ReplacedCons(env: map<string, string>, t: string, k: string, rest: seq<Piece>)
    requires k in env
    ensures Replaced(env, [Text(t), Var(k)] + rest) == t + (env[k] + Replaced(env, rest))
    ensures HasEmptyVar(env, [Text(t), Var(k)] + rest) <==> env[k] == [] || HasEmptyVar(env, rest)
  {
    var pieces := [Text(t), Var(k)] + rest;
    assert pieces[1..] == [Var(k)] + rest && pieces[1..][1..] == rest;
    if HasEmptyVar(env, rest) {
      var n :| 0 <= n < |rest| && rest[n].Var? && rest[n].name in env && env[rest[n].name] == [];
      assert pieces[n + 2] == rest[n];
    }
    if env[k] == [] {
      assert pieces[1] == Var(k);
    }
    assert forall n :: 2 <= n < |pieces| ==> pieces[n] == rest[n - 2];
  }

  /** The scan of the source is search-and-replace, and fails exactly on a variable with an empty value. */
  lemma {:induction false} ExpandReplaces(env: map<string, string>, s: string)
    requires IsEnv(env)
    ensures Expand(env, s, 0).ok <==> !HasEmptyVar(env, Pieces(env, s))
    ensures Expand(env, s, 0).ok ==> Expand(env, s, 0).text == Replaced(env, Pieces(env, s))
    decreases |s|
  {
    if FirstVar(env, s, 0).None? {
      CopiesPlain(env, s, 0, |s|);
      assert s[0..] == s && Pieces(env, s)[1..] == [];
    } else {
      hide HasEmptyVar, Replaced, IsVarAt, VarAt, Pieces;
      var i, k := PiecesStep(env, s);
      var rest := s[i + |k| + 2..];
      ExpandReplaces(env, rest);
      ReplacedCons(env, s[..i], k, Pieces(env, rest));
      ExpandAtVar(env, s, i, k);
    }
  }

  lemma ExpandAtVar(env: map<string, string>, s: string, i: nat, k: string)
    requires IsEnv(env) && FirstVar(env, s, 0) == Some(i)
    requires s[i] == '@' && NameAt(env, s, i) == Some(k)
    ensures Expand(env, s, 0) ==
      if env[k] == [] then Output(s[..i], false)
      else Expand(env, s[i + |k| + 2..], 0).Prepend(s[..i] + env[k])
  {
    CopiesPlain(env, s, 0, i);
    assert s[0..i] == s[..i];
    var e := i + |k| + 2;
    ExpandShift(env, s, e, e);
    assert s[..i] + (env[k] + Expand(env, s, e).text) == s[..i] + env[k] + Expand(env, s, e).text;
  }

  // ---------- the three variables ----------

  /** What a template line becomes. */
  function LineOutput(s: string, typeName: string, typePrefix: string, fileName: string): Output {
    Expand(TemplateEnv(typeName, typePrefix, fileName), s, 0)
  }

  lemma NoVarHere(env: map<string, string>, s: string, j: nat)
    requires IsEnv(env) && j < |s| && s[j] != '@'
    ensures !IsVarAt(env, s, j)
  {
    if k :| VarAt(env, s, j, k) {
      NameAtIff(env, s, j, k);
    }
  }

  /** Text without an '@' is copied, and the rest is expanded by itself. */
  lemma CopiesUpTo(env: map<string, string>, a: string, rest: string)
    requires IsEnv(env) && '@' !in a
    ensures Expand(env, a + rest, 0) == Expand(env, a + rest, |a|).Prepend(a)
    ensures Expand(env, a + rest, |a|) == Expand(env, rest, 0)
  {
    hide IsVarAt, Expand;
    var s := a + rest;
    forall j: nat | j < |a|
      ensures !IsVarAt(env, s, j)
    {
      assert s[j] == a[j];
      NoVarHere(env, s, j);
    }
    CopiesPlain(env, s, 0, |a|);
    assert s[0..|a|] == a && s[|a|..] == rest;
    ExpandShift(env, s, |a|, |a|);
  }

  lemma QuotedName(env: map<string, string>, k: string, b: string)
    requires '@' !in k
    ensures var s := Quoted(k) + b; s[0] == '@' && NameAt(env, s, 0) == if k in env then Some(k) else None
    ensures var s := Quoted(k) + b; s[|k| + 2..] == b && s[1..] == k + ['@'] + b
  {
    var s := Quoted(k) + b;
    assert s == ['@'] + (k + ['@'] + b);
    forall j | 1 <= j < |k| + 1
      ensures s[j] != '@'
    {
      assert s[j] == k[j - 1];
    }
    assert s[|k| + 1] == '@';
    StrChrIs(s, '@', 1, |k| + 1);
    assert s[1..|k| + 1] == k;
  }

  lemma ExpandQuoted(env: map<string, string>, k: string, b: string)
    requires '@' !in k
    ensures k in env ==> Expand(env, Quoted(k) + b, 0) == Replacement([], env[k], Expand(env, b, 0))
    ensures k !in env ==> Expand(env, Quoted(k) + b, 0) == Expand(env, k + ['@'] + b, 0).Prepend(['@'])
  {
    hide NameAt;
    var s := Quoted(k) + b;
    QuotedName(env, k, b);
    ExpandShift(env, s, |k| + 2, |k| + 2);
    ExpandShift(env, s, 1, 1);
    assert k in env ==> [] + env[k] == env[k];
  }

  lemma Lookups(typeName: string, typePrefix: string, fileName: string)
    ensures var env := TemplateEnv(typeName, typePrefix, fileName);
      && "TYPENAME" in env && env["TYPENAME"] == typeName
      && "FN_PREFIX" in env && env["FN_PREFIX"] == typePrefix
      && "FILENAME" in env && env["FILENAME"] == fileName
      && forall k :: k in env ==> k == "TYPENAME" || k == "FN_PREFIX" || k == "FILENAME"
  {
    assert "TYPENAME"[0] != "FN_PREFIX"[0] && "TYPENAME"[0] != "FILENAME"[0] && "FN_PREFIX"[1] != "FILENAME"[1];
  }

  /** The text in front of the first variable, a value, and the rest expanded; or an error after the text. */
  function Replacement(a: string, value: string, rest: Output): Output {
    if value == [] then Output(a, false) else rest.Prepend(a + value)
  }

  lemma LineAt(a: string, k: string, b: string, typeName: string, typePrefix: string, fileName: string)
    requires '@' !in a && '@' !in k
    ensures var env := TemplateEnv(typeName, typePrefix, fileName);
      var line := LineOutput(a + Quoted(k) + b, typeName, typePrefix, fileName);
      && (k in env ==> line == Replacement(a, env[k], LineOutput(b, typeName, typePrefix, fileName)))
      && (k !in env ==> line == LineOutput(k + ['@'] + b, typeName, typePrefix, fileName).Prepend(a + ['@']))
  {
    hide TemplateEnv, Expand;
    var env := TemplateEnv(typeName, typePrefix, fileName);
    assert a + Quoted(k) + b == a + (Quoted(k) + b);
    CopiesUpTo(env, a, Quoted(k) + b);
    ExpandQuoted(env, k, b);
    if k in env {
      var t := LineOutput(b, typeName, typePrefix, fileName).text;
      assert a + (env[k] + t) == a + env[k] + t && a + [] == a;
    } else {
      var t := LineOutput(k + ['@'] + b, typeName, typePrefix, fileName).text;
      assert a + (['@'] + t) == a + ['@'] + t;
    }
  }

  /**
    The line by its first '@': each of the three variables is replaced by its own value and fails
    if that is empty; any other name gives up its '@' and is looked at again; a single '@' is copied.
   */
  lemma LineMeaning(a: string, k: string, b: string, typeName: string, typePrefix: string, fileName: string)
    requires '@' !in a
    ensures LineOutput(a, typeName, typePrefix, fileName) == Output(a, true)
    ensures '@' !in b ==> LineOutput(a + "@" + b, typeName, typePrefix, fileName) == Output(a + "@" + b, true)
    ensures var rest := LineOutput(b, typeName, typePrefix, fileName);
      && LineOutput(a + "@TYPENAME@" + b, typeName, typePrefix, fileName)
           == (if typeName == [] then Output(a, false) else Output(a + typeName + rest.text, rest.ok))
      && LineOutput(a + "@FN_PREFIX@" + b, typeName, typePrefix, fileName)
           == (if typePrefix == [] then Output(a, false) else Output(a + typePrefix + rest.text, rest.ok))
      && LineOutput(a + "@FILENAME@" + b, typeName, typePrefix, fileName)
           == (if fileName == [] then Output(a, false) else Output(a + fileName + rest.text, rest.ok))
    ensures '@' !in k && k != "TYPENAME" && k != "FN_PREFIX" && k != "FILENAME" ==>
      var rest := LineOutput(k + "@" + b, typeName, typePrefix, fileName);
      LineOutput(a + "@" + k + "@" + b, typeName, typePrefix, fileName) == Output(a + "@" + rest.text, rest.ok)
  {
    hide LineOutput;
    Lookups(typeName, typePrefix, fileName);
    LineWithoutVariables(a, b, typeName, typePrefix, fileName);
    hide TemplateEnv;
    LineAt(a, "TYPENAME", b, typeName, typePrefix, fileName);
    LineAt(a, "FN_PREFIX", b, typeName, typePrefix, fileName);
    LineAt(a, "FILENAME", b, typeName, typePrefix, fileName);
    assert Quoted("TYPENAME") == "@TYPENAME@" && Quoted("FN_PREFIX") == "@FN_PREFIX@" && Quoted("FILENAME") == "@FILENAME@";
    if '@' !in k && k != "TYPENAME" && k != "FN_PREFIX" && k != "FILENAME" {
      LineAt(a, k, b, typeName, typePrefix, fileName);
      assert a + Quoted(k) + b == a + "@" + k + "@" + b;
    }
  }

  lemma LineWithoutVariables(a: string, b: string, typeName: string, typePrefix: string, fileName: string)
    requires '@' !in a
    ensures LineOutput(a, typeName, typePrefix, fileName) == Output(a, true)
    ensures '@' !in b ==> LineOutput(a + "@" + b, typeName, typePrefix, fileName) == Output(a + "@" + b, true)
  {
    var env := TemplateEnv(typeName, typePrefix, fileName);
    hide TemplateEnv;
    assert a + [] == a;
    CopiesUpTo(env, a, []);
    if '@' !in b {
      var s := ['@'] + b;
      CopiesUpTo(env, a, s);
      CopiesUpTo(env, b, []);
      assert b + [] == b && a + "@" + b == a + s && s[1..] == b;
      StrChrIs(s, '@', 1, |s|);
      ExpandShift(env, s, 1, 1);
    }
  }

  // ---------- the loop itself ----------

  ghost predicate Holds(buffer: array<char>, s: string)
    reads buffer
  {
    && |s| < buffer.Length && buffer[|s|] == NUL
    && forall k :: 0 <= k < |s| ==> buffer[k] == s[k] && s[k] != NUL
  }

  class LineExpander {
    const buffer: array<char>
    const typeName: string
    const typePrefix: string
    const fileName: string
    var written: string  // what has been sent to the output file

    constructor (buffer: array<char>, typeName: string, typePrefix: string, fileName: string)
      ensures this.buffer == buffer && this.typeName == typeName && this.typePrefix == typePrefix
      ensures this.fileName == fileName && written == []
    {
      this.buffer, this.typeName, this.typePrefix, this.fileName := buffer, typeName, typePrefix, fileName;
      written := [];
    }

    function Env(): map<string, string> {
      TemplateEnv(typeName, typePrefix, fileName)
    }

    /** The strcmp chain over the string that begins at p. */
    method Lookup(p: nat, ghost e: nat) returns (value: Option<string>)
      requires p <= e < buffer.Length && buffer[e] == NUL
      requires forall k :: p <= k < e ==> buffer[k] != NUL
      ensures value == if buffer[p..e] == "TYPENAME" then Some(typeName)
        else if buffer[p..e] == "FN_PREFIX" then Some(typePrefix)
        else if buffer[p..e] == "FILENAME" then Some(fileName) else None
    {
      var q, name := p, [];
      while buffer[q] != NUL
        invariant p <= q <= e && name == buffer[p..q]
        decreases e - q
      {
        name, q := name + [buffer[q]], q + 1;
      }
      if name == "TYPENAME" {
        value := Some(typeName);
      } else if name == "FN_PREFIX" {
        value := Some(typePrefix);
      } else if name == "FILENAME" {
        value := Some(fileName);
      } else {
        value := None;
      }
    }

    /** while (*p && *p != '@') p++ */
    method FindAt(p: nat, ghost s: string) returns (q: nat)
      requires Holds(buffer, s) && p <= |s|
      ensures q == StrChr(s, '@', p)
    {
      q := p;
      while buffer[q] != NUL && buffer[q] != '@'
        invariant p <= q <= |s| && StrChr(s, '@', q) == StrChr(s, '@', p)
        decreases |s| - q
      {
        q := q + 1;
      }
    }

    /** The name between two '@', read by ending it with a NUL that is taken back at once. */
    method ValueBetween(p: nat, q: nat, ghost s: string) returns (value: Option<string>)
      requires Holds(buffer, s) && p < q < |s| && s[p] == '@' && s[q] == '@' && q == StrChr(s, '@', p + 1)
      modifies buffer
      ensures buffer[..] == old(buffer[..])
      ensures value == if s[p + 1..q] == "TYPENAME" then Some(typeName)
        else if s[p + 1..q] == "FN_PREFIX" then Some(typePrefix)
        else if s[p + 1..q] == "FILENAME" then Some(fileName) else None
    {
      var c := buffer[q];
      buffer[q] := NUL;
      value := Lookup(p + 1, q);
      assert buffer[p + 1..q] == s[p + 1..q];
      buffer[q] := c;
    }

    /** The variable at the '@' in p: its replacement and where to go on, or None to fall back to p. */
    method TryVariable(p: nat, ghost s: string) returns (value: Option<string>, next: nat)
      requires Holds(buffer, s) && p < |s| && s[p] == '@'
      modifies buffer
      ensures buffer[..] == old(buffer[..])
      ensures var name := NameAt(Env(), s, p);
        if name.None? then value == None && next == p
        else value == Some(Env()[name.value]) && next == p + |name.value| + 2
    {
      var q := FindAt(p + 1, s);
      value, next := None, p;
      if buffer[q] == '@' {
        value := ValueBetween(p, q, s);
        Lookups(typeName, typePrefix, fileName);
        if value.Some? {
          next := q + 1;
        }
      }
    }

    /** fputc(*p++) */
    method PutChar(p: nat, ghost s: string)
      requires Holds(buffer, s) && p < |s| && (s[p] == '@' ==> NameAt(Env(), s, p).None?)
      modifies this
      ensures written == old(written) + [s[p]]
      ensures Expand(Env(), s, p) == Expand(Env(), s, p + 1).Prepend([s[p]])
    {
      written := written + [buffer[p]];
    }

    /** The inner loop, which copies up to the next '@'. */
    method CopyPlain(p: nat, ghost s: string) returns (q: nat)
      requires Holds(buffer, s) && p <= |s|
      modifies this
      ensures p <= q <= |s| && (buffer[q] == NUL || buffer[q] == '@')
      ensures Expand(Env(), s, q).ok == Expand(Env(), s, p).ok
      ensures written + Expand(Env(), s, q).text == old(written) + Expand(Env(), s, p).text
    {
      hide TemplateEnv, NameAt;
      q := p;
      while buffer[q] != NUL && buffer[q] != '@'
        invariant p <= q <= |s|
        invariant Expand(Env(), s, q).ok == Expand(Env(), s, p).ok
        invariant written + Expand(Env(), s, q).text == old(written) + Expand(Env(), s, p).text
        decreases |s| - q
      {
        PutChar(q, s);
        q := q + 1;
      }
    }

    /** One '@': a known variable is written as its value, anything else gives up the '@' and stays behind it. */
    method TakeAt(p: nat, ghost s: string) returns (q: nat, failed: bool)
      requires Holds(buffer, s) && p < |s| && s[p] == '@'
      modifies this, buffer
      ensures buffer[..] == old(buffer[..]) && p <= q <= |s|
      ensures failed ==> Expand(Env(), s, p) == Output([], false) && written == old(written)
      ensures !failed ==> p < q && Expand(Env(), s, q).ok == Expand(Env(), s, p).ok
      ensures !failed ==> written + Expand(Env(), s, q).text == old(written) + Expand(Env(), s, p).text
    {
      hide TemplateEnv;
      var value, next := TryVariable(p, s);
      assert forall k :: 0 <= k < buffer.Length ==> buffer[k] == buffer[..][k] == old(buffer[..])[k];
      q, failed := next, false;
      if value.None? {
        PutChar(q, s);
        q := q + 1;
      } else if value.value == [] {
        failed := true;
      } else {
        written := written + value.value;
      }
    }

    /** One line of the template; 2 stands for the error return, and the buffer is left as it was. */
    method TransformLine(ghost s: string) returns (rv: int)
      requires Holds(buffer, s)
      modifies this, buffer
      ensures buffer[..] == old(buffer[..])
      ensures rv == if Expand(Env(), s, 0).ok then 0 else 2
      ensures written == old(written) + Expand(Env(), s, 0).text
    {
      hide TemplateEnv, NameAt;
      var p := 0;
      ghost var all := Expand(Env(), s, 0);
      while buffer[p] != NUL
        invariant p <= |s| && buffer[..] == old(buffer[..]) && Holds(buffer, s)
        invariant Expand(Env(), s, p).ok == all.ok
        invariant written + Expand(Env(), s, p).text == old(written) + all.text
        decreases |s| - p
      {
        var q := CopyPlain(p, s);
        if buffer[q] == '@' {
          var failed: bool;
          q, failed := TakeAt(q, s);
          assert forall k :: 0 <= k < buffer.Length ==> buffer[k] == buffer[..][k] == old(buffer[..])[k];
          if failed {
            return 2;
          }
        }
        p := q;
      }
      rv := 0;
    }
  }

  /** What a template line becomes: every variable replaced once, from the left, and nothing else changed. */
  method ExpandLine(buffer: array<char>, ghost s: string, typeName: string, typePrefix: string, fileName: string)
    returns (rv: int, text: string)
    requires Holds(buffer, s)
    modifies buffer
    ensures buffer[..] == old(buffer[..])
    ensures var out := LineOutput(s, typeName, typePrefix, fileName);
      rv == (if out.ok then 0 else 2) && text == out.text
    ensures var env := TemplateEnv(typeName, typePrefix, fileName);
      && (rv == 0 <==> !HasEmptyVar(env, Pieces(env, s)))
      && (rv == 0 ==> text == Replaced(env, Pieces(env, s)))
  {
    var expander := new LineExpander(buffer, typeName, typePrefix, fileName);
    ExpandReplaces(expander.Env(), s);
    rv := expander.TransformLine(s);
    text := expander.written;
  }
}
