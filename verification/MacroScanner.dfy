/**
  The scanner of mklistdoc as it runs: scanLine on a char buffer that it changes in
  place, the loop over all list macros, and the line-joining reader of a file. Each
  method is tied to a function of the text it starts from.
 */
module MacroScanner {
  import opened CText
  import opened CBuffer
  import opened MacroSpec

  datatype Entry = Entry(macroName: string, typeName: string, typePrefix: string)

  predicate Known(list: seq<Entry>, macro: string, typeName: string) {
    exists i :: 0 <= i < |list| && list[i].macroName == macro && list[i].typeName == typeName
  }

  /** New entries go to the head of the list; a known type is not recorded again. */
  function Record(list: seq<Entry>, macro: string, typeName: string, prefix: string): seq<Entry> {
    if Known(list, macro, typeName) then list else [Entry(macro, typeName, prefix)] + list
  }

  /** The list after scanning s for one macro. */
  function ListAfter(macro: string, s: string, list: seq<Entry>): seq<Entry> {
    var v := Scan(macro, s);
    if v.Found? then Record(list, macro, TypeName(s, v), TypePrefix(s, v)) else list
  }

  /** The text left in the buffer: a type that was known already leaves it cut at the type name. */
  function TextAfter(macro: string, s: string, list: seq<Entry>): (t: string) {
    var v := Scan(macro, s);
    if v.Found? && Known(list, macro, TypeName(s, v)) then s[..v.nameEnd] else s
  }

  datatype LineResult = LineResult(rv: int, text: string, list: seq<Entry>)

  /** scanLineForAllMacros from the i-th macro on. */
  function ScanAll(macros: seq<string>, i: nat, s: string, list: seq<Entry>): (r: LineResult)
    requires i <= |macros|
    decreases |macros| - i
  {
    if i == |macros| then LineResult(0, s, list)
    else if Scan(macros[i], s).NeedMore? then LineResult(1, s, list)
    else ScanAll(macros, i + 1, TextAfter(macros[i], s, list), ListAfter(macros[i], s, list))
  }

  function Strip(s: string, c: char): (t: string) {
    if s != [] && s[|s| - 1] == c then s[..|s| - 1] else s
  }

  /** The buffer and the list after one line has been read into the buffer. */
  function TakeLine(macros: seq<string>, line: string, list: seq<Entry>): LineResult {
    var s := Strip(line, '\n');
    if s != [] && s[|s| - 1] == '\\' then LineResult(1, Strip(s, '\\'), list)
    else
      var r := ScanAll(macros, 0, s, list);
      if r.rv == 1 then r else LineResult(r.rv, [], r.list)
  }

  /** How many characters, with the NUL, the next read may store in a buffer of the given size. */
  function Room(size: nat, buf: string): int {
    size - 1 - |buf|
  }

  function Joined(buf: string, chunk: string): string {
    if buf == [] then chunk else buf + [' '] + chunk
  }

  /** scanForMacros from a point where `rest` is unread and `buf` is carried over. */
  function ReadMacros(macros: seq<string>, size: nat, rest: string, buf: string, list: seq<Entry>): Option<seq<Entry>>
    decreases |rest|
  {
    if Room(size, buf) < 2 then None
    else if rest == [] then Some(list)
    else
      var chunk := Chunk(rest, Room(size, buf) - 1);
      var r := TakeLine(macros, Joined(buf, chunk), list);
      if HitsEnd(rest, Room(size, buf) - 1) then Some(r.list)
      else ReadMacros(macros, size, rest[|chunk|..], r.text, r.list)
  }

  class Scanner {
    const macros: seq<string>
    const buffer: array<char>
    var list: seq<Entry>
    ghost var text: string  // the string in the buffer

    constructor (macros: seq<string>)
      ensures Valid() && fresh(buffer) && buffer.Length == MAX_LINESIZE
      ensures this.macros == macros && list == [] && text == []
    {
      this.macros := macros;
      buffer := new char[MAX_LINESIZE](_ => NUL);
      list, text := [], [];
    }

    ghost predicate Valid()
      reads this, buffer
    {
      && |text| < buffer.Length && buffer[|text|] == NUL
      && forall k :: 0 <= k < |text| ==> buffer[k] == text[k] && text[k] != NUL
    }

    /** strlen(buffer) */
    method Length() returns (n: nat)
      requires Valid()
      ensures n == |text|
    {
      n := 0;
      while buffer[n] != NUL
        invariant n <= |text|
        decreases |text| - n
      {
        n := n + 1;
      }
    }

    /** strstr(buffer, macro) */
    method FindName(macro: string) returns (r: Option<nat>)
      requires Valid()
      ensures r == StrStr(text, macro, 0)
    {
      var n := Length();
      assert buffer[..n] == text;
      r := StrStr(buffer[..n], macro, 0);
    }

    /** while (*p && isspace(*p)) p++ */
    method SkipBlanks(p: nat) returns (q: nat)
      requires Valid() && p <= |text|
      ensures q == SkipSpace(text, p)
    {
      q := p;
      while buffer[q] != NUL && IsSpace(buffer[q])
        invariant p <= q <= |text| && SkipSpace(text, q) == SkipSpace(text, p)
        decreases |text| - q
      {
        q := q + 1;
      }
    }

    /** The loop that looks for the comma, or for the bracket or comma behind the prefix. */
    method ReadWord(start: nat, closing: bool) returns (r: WordResult)
      requires Valid() && start <= |text|
      ensures r == ScanWord(text, start, None, closing)
    {
      var p := start;
      var end: Option<nat> := None;
      while buffer[p] != NUL
        invariant start <= p <= |text| && (end.Some? ==> end.value <= p)
        invariant ScanWord(text, p, end, closing) == ScanWord(text, start, None, closing)
        decreases |text| - p
      {
        if Stops(closing, buffer[p]) {
          return Word(if end.Some? then end.value else p, p);
        } else if IsSpace(buffer[p]) {
          if end.None? {
            end := Some(p);
          }
        } else if end.Some? {
          return BadWord;
        }
        p := p + 1;
      }
      r := Unfinished;
    }

    /** Bracket, type name, comma and prefix behind the macro name, which ends at i. */
    method ReadArguments(i: nat) returns (v: Verdict)
      requires Valid() && i <= |text|
      ensures v == Parse(text, i)
    {
      var p := SkipBlanks(i);
      if buffer[p] == NUL {
        return NeedMore;
      }
      if buffer[p] != '(' {
        return Reject;
      }
      var nameStart := SkipBlanks(p + 1);
      var name := ReadWord(nameStart, false);
      if !name.Word? {
        return if name.BadWord? then Reject else NeedMore;
      }
      var prefixStart := SkipBlanks(name.stop + 1);
      var prefix := ReadWord(prefixStart, true);
      if !prefix.Word? {
        return if prefix.BadWord? then Reject else NeedMore;
      }
      v := Found(nameStart, name.end, prefixStart, prefix.end, prefix.stop);
    }

    /** strncasecmp(p, "define ", 7) == 0 */
    method HasDefineWord(p: nat) returns (yes: bool)
      requires Valid() && p <= |text|
      ensures yes == DefineWordAt(text, p)
    {
      var k := 0;
      while k < 7 && ToUpper(buffer[p + k]) == ToUpper(DEFINE[k])
        invariant 0 <= k <= 7 && p + k <= |text|
        invariant forall i :: 0 <= i < k ==> ToUpper(text[p + i]) == ToUpper(DEFINE[i])
      {
        assert ToUpper(DEFINE[k]) != NUL;
        k := k + 1;
      }
      assert k < 7 && p + 7 <= |text| ==> text[p..p + 7][k] == text[p + k];
      yes := k == 7;
    }

    /** Whether the macro that begins at b is being defined here. */
    method IsDefined(b: nat) returns (yes: bool)
      requires Valid()
      ensures yes == DefinesAt(text, b)
    {
      var p := SkipBlanks(0);
      if buffer[p] != '#' {
        return false;
      }
      p := SkipBlanks(p + 1);
      yes := HasDefineWord(p);
      if yes {
        p := SkipBlanks(p + 7);
        yes := p == b;
      }
    }

    /** The search for an entry of this macro and type, by comparing strings. */
    method IsKnown(macro: string, typeName: string) returns (known: bool)
      ensures known == Known(list, macro, typeName)
    {
      var i := 0;
      while i < |list|
        invariant i <= |list|
        invariant forall k :: 0 <= k < i ==> !(list[k].macroName == macro && list[k].typeName == typeName)
      {
        if list[i].macroName == macro && list[i].typeName == typeName {
          return true;
        }
        i := i + 1;
      }
      known := false;
    }

    /** strdup of the string that begins at p: it runs to the next NUL. */
    method StringAt(p: nat, ghost e: nat) returns (t: string)
      requires p <= e < buffer.Length && buffer[e] == NUL
      requires forall k :: p <= k < e ==> buffer[k] != NUL
      ensures t == buffer[p..e]
    {
      t := [];
      var q := p;
      while buffer[q] != NUL
        invariant p <= q <= e && t == buffer[p..q]
        decreases e - q
      {
        t := t + [buffer[q]];
        q := q + 1;
      }
    }

    /** Cut both names off in place, look the type up, and undo the cuts if it is new. */
    method Store(macro: string, v: Verdict)
      requires Valid() && v.Found?
      requires v.nameStart <= v.nameEnd < v.prefixStart <= v.prefixEnd < |text|
      modifies this, buffer
      ensures Valid()
      ensures Known(old(list), macro, TypeName(old(text), v)) ==>
        list == old(list) && text == old(text)[..v.nameEnd] && buffer[..] == old(buffer[..])[v.prefixEnd := NUL][v.nameEnd := NUL]
      ensures !Known(old(list), macro, TypeName(old(text), v)) ==>
        && list == [Entry(macro, TypeName(old(text), v), TypePrefix(old(text), v))] + old(list)
        && text == old(text) && buffer[..] == old(buffer[..])
    {
      var c1 := buffer[v.prefixEnd];
      var c2 := buffer[v.nameEnd];
      buffer[v.prefixEnd] := NUL;
      buffer[v.nameEnd] := NUL;
      var typeName := StringAt(v.nameStart, v.nameEnd);
      assert typeName == TypeName(text, v);
      var known := IsKnown(macro, typeName);
      if known {
        text := text[..v.nameEnd];
      } else {
        var prefix := StringAt(v.prefixStart, v.prefixEnd);
        assert prefix == TypePrefix(text, v);
        buffer[v.prefixEnd] := c1;
        buffer[v.nameEnd] := c2;
        list := [Entry(macro, typeName, prefix)] + list;
      }
    }

    /** scanLine: 0 if an invocation was found, 1 if more data is needed, -1 otherwise. */
    method ScanLine(macro: string) returns (rv: int)
      requires Valid()
      modifies this, buffer
      ensures Valid()
      ensures var v := Scan(macro, old(text)); rv == if v.Found? then 0 else if v.NeedMore? then 1 else -1
      ensures list == ListAfter(macro, old(text), old(list))
      ensures text == TextAfter(macro, old(text), old(list))
      ensures text == old(text) ==> buffer[..] == old(buffer[..])
    {
      var found := FindName(macro);
      if found.None? {
        return -1;
      }
      var v := ReadArguments(found.value + |macro|);
      if !v.Found? {
        return if v.Reject? then -1 else 1;
      }
      var isDefined := IsDefined(found.value);
      if isDefined {
        return -1;
      }
      Store(macro, v);
      rv := 0;
    }

    method ScanLineForAllMacros() returns (rv: int)
      requires Valid()
      modifies this, buffer
      ensures Valid()
      ensures LineResult(rv, text, list) == ScanAll(macros, 0, old(text), old(list))
    {
      var i := 0;
      while i < |macros|
        invariant Valid() && i <= |macros|
        invariant ScanAll(macros, i, text, list) == ScanAll(macros, 0, old(text), old(list))
      {
        var r := ScanLine(macros[i]);
        if r == 1 {
          return 1;
        }
        i := i + 1;
      }
      rv := 0;
    }

    /** buffer[n] = 0 */
    method CutAt(n: nat)
      requires Valid() && n <= |text|
      modifies this`text, buffer
      ensures Valid() && text == old(text)[..n]
    {
      buffer[n] := NUL;
      text := text[..n];
    }

    /** strcat(buffer, " ") */
    method AppendBlank()
      requires Valid() && |text| + 1 < buffer.Length
      modifies this`text, buffer
      ensures Valid() && text == old(text) + [' ']
    {
      var sl := Length();
      buffer[sl] := ' ';
      buffer[sl + 1] := NUL;
      text := text + [' '];
    }

    /** fgets to the end of what the buffer holds; false at the end of the file. */
    method GetsBehind(file: InputFile, size: nat) returns (ok: bool)
      requires Valid() && file.Valid() && 2 <= size && |text| + size <= buffer.Length
      modifies this`text, buffer, file
      ensures Valid() && file.Valid()
      ensures ok == (old(file.Rest()) != [])
      ensures file.Rest() == old(file.Rest())[|Chunk(old(file.Rest()), size - 1)|..]
      ensures file.eof == (old(file.eof) || HitsEnd(old(file.Rest()), size - 1))
      ensures text == old(text) + Chunk(old(file.Rest()), size - 1)
    {
      ghost var c := Chunk(file.Rest(), size - 1);
      assert forall k :: 0 <= k < |c| ==> c[k] == file.data[file.pos + k];
      var sl := Length();
      ok := file.Gets(buffer, sl, size);
      text := text + c;
    }

    /** Read the next line behind what the buffer holds; false at the end of the file. */
    method ReadLine(file: InputFile) returns (ok: bool)
      requires Valid() && file.Valid() && Room(buffer.Length, text) >= 2
      modifies this`text, buffer, file
      ensures Valid() && file.Valid()
      ensures ok == (old(file.Rest()) != [])
      ensures file.Rest() == old(file.Rest())[|Chunk(old(file.Rest()), Room(buffer.Length, old(text)) - 1)|..]
      ensures file.eof == (old(file.eof) || HitsEnd(old(file.Rest()), Room(buffer.Length, old(text)) - 1))
      ensures ok ==> text == Joined(old(text), Chunk(old(file.Rest()), Room(buffer.Length, old(text)) - 1))
    {
      var sl := Length();
      if sl > 0 {
        AppendBlank();
      }
      ok := GetsBehind(file, buffer.Length - 1 - sl);
    }

    method DropNewline() returns (sl: nat)
      requires Valid() && text != []
      modifies this`text, buffer
      ensures Valid() && text == Strip(old(text), '\n') && sl == |text|
    {
      sl := Length();
      if buffer[sl - 1] == '\n' {
        sl := sl - 1;
        CutAt(sl);
      }
    }

    /** Drop the newline; a trailing backslash asks for the next line, anything else is scanned. */
    method ProcessLine()
      requires Valid() && text != []
      modifies this, buffer
      ensures Valid()
      ensures text == TakeLine(macros, old(text), old(list)).text
      ensures list == TakeLine(macros, old(text), old(list)).list
    {
      var sl := DropNewline();
      if sl > 0 && buffer[sl - 1] == '\\' {
        CutAt(sl - 1);
      } else {
        var rv := ScanLineForAllMacros();
        if rv != 1 {
          CutAt(0);
        }
      }
    }

    /** One turn of the reading loop: 0 to go on, 1 at the end of the file, 2 if the line is full. */
    method Turn(file: InputFile) returns (state: int)
      requires Valid() && file.Valid() && !file.eof
      modifies this, buffer, file
      ensures Valid() && file.Valid()
      ensures state == if Room(buffer.Length, old(text)) < 2 then 2 else if old(file.Rest()) == [] then 1 else 0
      ensures state == 0 ==>
        var chunk := Chunk(old(file.Rest()), Room(buffer.Length, old(text)) - 1);
        && LineResult(0, text, list) == TakeLine(macros, Joined(old(text), chunk), old(list)).(rv := 0)
        && file.Rest() == old(file.Rest())[|chunk|..] && chunk != []
        && file.eof == HitsEnd(old(file.Rest()), Room(buffer.Length, old(text)) - 1)
      ensures state == 1 ==> list == old(list)
    {
      var sl := Length();
      if buffer.Length - 1 - sl < 2 {
        return 2;
      }
      var more := ReadLine(file);
      if !more {
        return 1;
      }
      ProcessLine();
      state := 0;
    }

    /** scanForMacros: false if a joined line outgrows the buffer. */
    method ScanForMacros(file: InputFile) returns (ok: bool)
      requires Valid() && buffer.Length >= 3
      requires file.Valid() && file.pos == 0 && !file.eof
      modifies this, buffer, file
      ensures ok == ReadMacros(macros, buffer.Length, file.data, [], []).Some?
      ensures ok ==> Some(list) == ReadMacros(macros, buffer.Length, file.data, [], [])
    {
      list := [];
      CutAt(0);
      ghost var result := ReadMacros(macros, buffer.Length, file.data, [], []);
      assert file.Rest() == file.data;
      while !file.eof
        invariant Valid() && file.Valid()
        invariant result == if file.eof then Some(list) else ReadMacros(macros, buffer.Length, file.Rest(), text, list)
        decreases |file.Rest()|, !file.eof
      {
        var state := Turn(file);
        if state != 0 {
          return state == 1;
        }
      }
      ok := true;
    }
  }
}
