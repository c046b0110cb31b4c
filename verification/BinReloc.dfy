/**
  The path functions of binreloc and the lookups of the installation prefix built on them.
  None stands for a null pointer; the separator is the one of Unix.
 */
module BinReloc {
  import opened CText

  const SEP: char := '/'

  // ---------- br_dirname ----------

  /** strrchr(path, '/') */
  function LastSep(path: string): (r: Option<nat>)
    ensures r.Some? ==> r.value < |path| && path[r.value] == SEP
    ensures forall k :: (if r.Some? then r.value else -1) < k < |path| ==> path[k] != SEP
  {
    if path == [] then None
    else if path[|path| - 1] == SEP then Some(|path| - 1)
    else LastSep(path[..|path| - 1])
  }

  /** while (end > path && *end == '/') end-- */
  function SkipBack(path: string, end: nat): (r: nat)
    requires end < |path|
    ensures r <= end && (r == 0 || path[r] != SEP)
    ensures forall k :: r < k <= end ==> path[k] == SEP
  {
    if end > 0 && path[end] == SEP then SkipBack(path, end - 1) else end
  }

  function Dirname(path: string): (d: string)
    ensures d != []
  {
    var end := LastSep(path);
    if end.None? then "." else path[..SkipBack(path, end.value) + 1]
  }

  ghost predicate AllSep(s: string) {
    forall i :: 0 <= i < |s| ==> s[i] == SEP
  }

  /** path is dir, then separators, then a last component without any. */
  ghost predicate Splits(path: string, dir: string, seps: string, base: string) {
    && path == dir + seps + base
    && seps != [] && AllSep(seps) && SEP !in base
    && (dir != [] ==> dir[|dir| - 1] != SEP)
  }

  /** Dirname by the parts of the path: the directory without its trailing separators, or the root. */
  lemma DirnameOfParts(path: string, dir: string, seps: string, base: string)
    requires Splits(path, dir, seps, base)
    ensures Dirname(path) == if dir == [] then [SEP] else dir
  {
    var end := |dir| + |seps| - 1;
    PartsBySep(path, dir, seps, base);
    LastSepIs(path, end);
    SkipBackIs(path, |dir|, end);
    if dir == [] {
      assert path[..1] == [path[0]];
    } else {
      assert path[..|dir|] == dir;
    }
  }

  lemma PartsBySep(path: string, dir: string, seps: string, base: string)
    requires Splits(path, dir, seps, base)
    ensures forall k :: |dir| <= k < |dir| + |seps| ==> path[k] == SEP
    ensures forall k :: |dir| + |seps| <= k < |path| ==> path[k] != SEP
    ensures dir != [] ==> path[|dir| - 1] != SEP
  {
    assert forall k :: |dir| <= k < |dir| + |seps| ==> path[k] == seps[k - |dir|];
    assert forall k :: |dir| + |seps| <= k < |path| ==> path[k] == base[k - |dir| - |seps|];
    assert dir != [] ==> path[|dir| - 1] == dir[|dir| - 1];
  }

  lemma LastSepIs(path: string, end: nat)
    requires end < |path| && path[end] == SEP && forall k :: end < k < |path| ==> path[k] != SEP
    ensures LastSep(path) == Some(end)
  {
  }

  lemma {:induction false} SkipBackIs(path: string, n: nat, end: nat)
    requires n <= end < |path| && forall k :: n <= k <= end ==> path[k] == SEP
    requires n > 0 ==> path[n - 1] != SEP
    ensures SkipBack(path, end) == if n == 0 then 0 else n - 1
    decreases end
  {
    if end > n {
      SkipBackIs(path, n, end - 1);
    }
  }

  /** Every path with a separator comes apart in this way. */
  lemma PathSplits(path: string) returns (dir: string, seps: string, base: string)
    requires SEP in path
    ensures Splits(path, dir, seps, base)
  {
    var end := LastSep(path).value;
    var r := SkipBack(path, end);
    var n := if r == 0 && path[0] == SEP then 0 else r + 1;
    CutSplits(path, n, end);
    dir, seps, base := path[..n], path[n..end + 1], path[end + 1..];
  }

  lemma CutSplits(path: string, n: nat, end: nat)
    requires n <= end < |path| && (n > 0 ==> path[n - 1] != SEP)
    requires forall k :: n <= k <= end ==> path[k] == SEP
    requires forall k :: end < k < |path| ==> path[k] != SEP
    ensures Splits(path, path[..n], path[n..end + 1], path[end + 1..])
  {
  }

  /** dirname on every path, by its parts. */
  lemma DirnameMeaning(path: string)
    ensures SEP !in path ==> Dirname(path) == "."
    ensures SEP in path ==> exists dir, seps, base ::
      Splits(path, dir, seps, base) && Dirname(path) == if dir == [] then [SEP] else dir
  {
    if SEP in path {
      var dir, seps, base := PathSplits(path);
      DirnameOfParts(path, dir, seps, base);
    }
  }

  function Iterate(path: string, k: nat): string {
    if k == 0 then path else Dirname(Iterate(path, k - 1))
  }

  lemma {:induction false} IterateFromFront(path: string, k: nat)
    requires k > 0
    ensures Iterate(path, k) == Iterate(Dirname(path), k - 1)
  {
    if k > 1 {
      IterateFromFront(path, k - 1);
    }
  }

  predicate IsTop(path: string) {
    path == [SEP] || path == "."
  }

  lemma DirnameShrinks(path: string)
    ensures IsTop(path) ==> Dirname(path) == path
    ensures !IsTop(path) ==> IsTop(Dirname(path)) || |Dirname(path)| < |path|
  {
    var end := LastSep(path);
    if end.Some? && |Dirname(path)| == |path| {
      assert SkipBack(path, end.value) == |path| - 1 == 0;
      assert path == [SEP];
    }
    if path == [SEP] {
      assert path[..1] == path;
    }
  }

  /** Taking directory names again and again ends at the root or at "." and stays there. */
  lemma {:induction false} DirnamesEnd(path: string) returns (k: nat)
    ensures k <= |path| + 1 && IsTop(Iterate(path, k)) && Iterate(path, k + 1) == Iterate(path, k)
    decreases |path|
  {
    DirnameShrinks(path);
    if IsTop(path) {
      k := 0;
      assert Iterate(path, 1) == Dirname(Iterate(path, 0));
    } else if IsTop(Dirname(path)) {
      k := 1;
      DirnameShrinks(Dirname(path));
      assert Iterate(path, 1) == Dirname(Iterate(path, 0));
    } else {
      k := DirnamesEnd(Dirname(path));
      k := k + 1;
      IterateFromFront(path, k);
      IterateFromFront(path, k + 1);
    }
  }

  // ---------- br_build_path ----------

  function BuildPath(dir: string, file: string): string {
    if dir != [] && dir[|dir| - 1] != SEP then dir + [SEP] + file else dir + file
  }

  /** The directory, the file behind it, and one '/' between them iff the directory is not empty and does not end in one. */
  lemma BuildPathMeaning(dir: string, file: string)
    ensures dir == "" ==> BuildPath(dir, file) == file
    ensures forall d :: dir == d + "/" ==> BuildPath(dir, file) == d + "/" + file
    ensures forall d, c :: dir == d + [c] && c != '/' ==> BuildPath(dir, file) == d + [c] + "/" + file
  {
    forall d, c | dir == d + [c] && c != '/'
      ensures BuildPath(dir, file) == d + [c] + "/" + file
    {
      assert dir[|dir| - 1] == c;
    }
  }

  /** Dirname undoes BuildPath on a directory that is not empty, except for separators at its end. */
  lemma DirnameOfBuild(dir: string, file: string)
    requires SEP !in file && dir != []
    ensures dir[|dir| - 1] != SEP ==> Dirname(BuildPath(dir, file)) == dir
    ensures dir == [SEP] ==> Dirname(BuildPath(dir, file)) == dir
    ensures |dir| > 1 && dir[|dir| - 1] == SEP ==> |Dirname(BuildPath(dir, file))| < |dir|
  {
    var path := BuildPath(dir, file);
    if dir[|dir| - 1] != SEP {
      DirnameOfParts(path, dir, [SEP], file);
    } else if dir == [SEP] {
      assert path == [] + [SEP] + file;
      DirnameOfParts(path, [], [SEP], file);
    } else {
      var d, seps := TrimEnd(dir);
      assert path == d + seps + file;
      DirnameOfParts(path, d, seps, file);
    }
  }

  lemma {:induction false} TrimEnd(dir: string) returns (d: string, seps: string)
    requires dir != [] && dir[|dir| - 1] == SEP
    ensures dir == d + seps && seps != [] && AllSep(seps) && (d != [] ==> d[|d| - 1] != SEP)
    decreases |dir|
  {
    var front := dir[..|dir| - 1];
    if front != [] && front[|front| - 1] == SEP {
      d, seps := TrimEnd(front);
      assert dir == d + (seps + [SEP]);
      seps := seps + [SEP];
    } else {
      d, seps := front, [SEP];
      assert dir == d + seps;
    }
  }

  // ---------- the lookups ----------

  function FindExeDir(exe: Option<string>, default: Option<string>): Option<string> {
    if exe.None? then default else Some(Dirname(exe.value))
  }

  function FindPrefix(exe: Option<string>, default: Option<string>): Option<string> {
    if exe.None? then default else Some(Dirname(Dirname(exe.value)))
  }

  function FindBinDir(exe: Option<string>, default: Option<string>): Option<string> {
    var prefix := FindPrefix(exe, None);
    if prefix.None? then default else Some(BuildPath(prefix.value, "bin"))
  }

  function ExePath(prefix: string, dir: string, file: string): string {
    BuildPath(BuildPath(prefix, dir), file)
  }

  lemma ExeDirOf(prefix: string, dir: string, file: string)
    requires dir != [] && SEP !in dir && SEP !in file
    ensures Dirname(ExePath(prefix, dir, file)) == BuildPath(prefix, dir)
  {
    var d := BuildPath(prefix, dir);
    assert d[|d| - 1] == dir[|dir| - 1];
    DirnameOfBuild(d, file);
  }

  lemma EmptyPrefix(dir: string)
    requires SEP !in dir
    ensures Dirname(BuildPath([], dir)) == "."
  {
    assert BuildPath([], dir) == dir;
    DirnameMeaning(dir);
  }

  /** Without an executable the default is returned; with one, two directories up, and bin below that. */
  lemma LookupsMean(exe: Option<string>, default: Option<string>)
    ensures exe.None? ==>
      FindExeDir(exe, default) == default && FindPrefix(exe, default) == default && FindBinDir(exe, default) == default
    ensures exe.Some? ==>
      && FindExeDir(exe, default) == Some(Iterate(exe.value, 1)) && FindPrefix(exe, default) == Some(Iterate(exe.value, 2))
      && FindBinDir(exe, default) == Some(BuildPath(Iterate(exe.value, 2), "bin"))
  {
    if exe.Some? {
      assert Iterate(exe.value, 1) == Dirname(Iterate(exe.value, 0));
      assert Iterate(exe.value, 2) == Dirname(Iterate(exe.value, 1));
    }
  }

  /** The prefix of an executable installed below p is p iff p is the root or a non-empty path that does not end in a separator. */
  lemma PrefixFound(prefix: string, dir: string, file: string, default: Option<string>)
    requires dir != [] && SEP !in dir && SEP !in file
    ensures FindPrefix(Some(ExePath(prefix, dir, file)), default) == Some(prefix) <==>
      prefix == [SEP] || (prefix != [] && prefix[|prefix| - 1] != SEP)
  {
    ExeDirOf(prefix, dir, file);
    if prefix == [] {
      EmptyPrefix(dir);
    } else {
      DirnameOfBuild(prefix, dir);
    }
  }

  ghost predicate EndsInTwoSeps(prefix: string) {
    |prefix| >= 2 && prefix[|prefix| - 1] == SEP && prefix[|prefix| - 2] == SEP
  }

  /** The program directory is found again from the prefix iff the prefix is not empty and does not end in two separators. */
  lemma BinDirIsExeDir(prefix: string, file: string, default: Option<string>)
    requires SEP !in file
    ensures var exe := Some(ExePath(prefix, "bin", file));
      FindBinDir(exe, default) == FindExeDir(exe, default) <==> prefix != [] && !EndsInTwoSeps(prefix)
  {
    ExeDirOf(prefix, "bin", file);
    if prefix == [] {
      EmptyPrefix("bin");
    } else if prefix[|prefix| - 1] != SEP || prefix == [SEP] {
      DirnameOfBuild(prefix, "bin");
    } else {
      BinDirTrimmed(prefix);
    }
  }

  lemma BinDirTrimmed(prefix: string)
    requires |prefix| > 1 && prefix[|prefix| - 1] == SEP
    ensures BuildPath(Dirname(BuildPath(prefix, "bin")), "bin") == BuildPath(prefix, "bin") <==> !EndsInTwoSeps(prefix)
  {
    var d, seps := TrimEnd(prefix);
    var path := BuildPath(prefix, "bin");
    assert path == d + seps + "bin";
    DirnameOfParts(path, d, seps, "bin");
    assert prefix[|prefix| - 1] == seps[|seps| - 1];
    if |seps| > 1 {
      assert prefix[|prefix| - 2] == seps[|seps| - 2];
    } else {
      assert prefix[|prefix| - 2] == d[|d| - 1];
      assert seps == [SEP];
    }
  }

  // ---------- the C functions ----------

  /** br_strcat: a new array with both strings and the NUL; a null pointer counts as an empty string. */
  method StrCat(str1: Option<string>, str2: Option<string>) returns (result: array<char>)
    ensures fresh(result)
    ensures var a, b := (if str1.None? then [] else str1.value), (if str2.None? then [] else str2.value);
      result[..] == a + b + [NUL]
  {
    var a := if str1.None? then [] else str1.value;
    var b := if str2.None? then [] else str2.value;
    result := new char[|a| + |b| + 1](_ => NUL);
    var i := 0;
    while i < |a|
      invariant i <= |a| && result[..i] == a[..i] && forall k :: i <= k < result.Length ==> result[k] == NUL
    {
      result[i] := a[i];
      i := i + 1;
    }
    i := 0;
    while i < |b|
      invariant i <= |b| && result[..|a| + i] == a + b[..i]
      invariant forall k :: |a| + i <= k < result.Length ==> result[k] == NUL
    {
      result[|a| + i] := b[i];
      i := i + 1;
    }
  }

  /** br_strndup: at most size characters. */
  method StrNDup(str: Option<string>, size: nat) returns (result: Option<string>)
    ensures result == if str.None? then None else Some(if size < |str.value| then str.value[..size] else str.value)
  {
    if str.None? {
      return None;
    }
    var s := str.value;
    var n := if size > |s| then |s| else size;
    result := Some(s[..n]);
    assert n == |s| ==> s[..n] == s;
  }

  /** br_dirname, with its backward loop; the branch for an empty result is never taken. */
  method DirnameOf(path: Option<string>) returns (result: Option<string>)
    ensures result == if path.None? then None else Some(Dirname(path.value))
  {
    if path.None? {
      return None;
    }
    var s := path.value;
    var last := LastSep(s);
    if last.None? {
      return Some(".");
    }
    var end: nat := last.value;
    while end > 0 && s[end] == SEP
      invariant end < |s| && SkipBack(s, end) == SkipBack(s, last.value)
    {
      end := end - 1;
    }
    result := StrNDup(Some(s), end + 1);
    if end + 1 == |s| {
      assert s[..end + 1] == s;
    }
    if result.value == [] {
      assert false;
    }
  }

  method BuildPathOf(dir: string, file: string) returns (path: string)
    ensures path == BuildPath(dir, file)
  {
    var dir2 := dir;
    if |dir| > 0 && dir[|dir| - 1] != SEP {
      var a := StrCat(Some(dir), Some([SEP]));
      dir2 := a[..a.Length - 1];
    }
    var b := StrCat(Some(dir2), Some(file));
    path := b[..b.Length - 1];
  }

  method FindBinDirOf(exe: Option<string>, default: Option<string>) returns (r: Option<string>)
    ensures r == FindBinDir(exe, default)
  {
    if exe.None? {
      return default;
    }
    var dir1 := DirnameOf(exe);
    var prefix := DirnameOf(dir1);
    var dir := BuildPathOf(prefix.value, "bin");
    r := Some(dir);
  }
}
