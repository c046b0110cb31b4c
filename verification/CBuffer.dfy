/** NUL-terminated strings in char arrays, and line-wise reading with fgets. */
module CBuffer {
  import opened CText

  const MAX_LINESIZE: nat := 8192

  /** The characters that fgets takes from the rest of a file: one line with its newline, or max characters. */
  function Chunk(rest: string, max: nat): (c: string)
    ensures c <= rest && |c| <= max
    ensures rest != [] && max > 0 ==> c != []
  {
    if max == 0 || rest == [] then []
    else if rest[0] == '\n' then ['\n']
    else [rest[0]] + Chunk(rest[1..], max - 1)
  }

  /** What is taken ends at the first newline, at the limit or at the end of the file, and nowhere else. */
  lemma {:induction false} ChunkEnds(rest: string, max: nat)
    ensures var c := Chunk(rest, max);
      && (forall i :: 0 <= i < |c| - 1 ==> c[i] != '\n')
      && (|c| == max || c == rest || (c != [] && c[|c| - 1] == '\n'))
    decreases |rest|
  {
    if max > 0 && rest != [] && rest[0] != '\n' {
      ChunkEnds(rest[1..], max - 1);
    }
  }

  /** feof after that read: the input ran out before a newline and before the buffer was full. */
  predicate HitsEnd(rest: string, max: nat) {
    var c := Chunk(rest, max);
    |c| < max && (c == [] || c[|c| - 1] != '\n')
  }

  lemma {:induction false} ChunkIsLine(line: string, rest: string, max: nat)
    requires '\n' !in line && |line| < max
    ensures Chunk(line + ['\n'] + rest, max) == line + ['\n']
  {
    var t := line + ['\n'] + rest;
    if line != [] {
      assert t[1..] == line[1..] + ['\n'] + rest;
      ChunkIsLine(line[1..], rest, max - 1);
    }
  }

  /** A text file opened for reading; reading errors are not modelled. */
  class InputFile {
    const data: string
    var pos: nat
    var eof: bool

    constructor (data: string)
      ensures this.data == data && pos == 0 && !eof
    {
      this.data, pos, eof := data, 0, false;
    }

    ghost predicate Valid()
      reads this
    {
      pos <= |data| && NUL !in data
    }

    ghost function Rest(): string
      requires Valid()
      reads this
    {
      data[pos..]
    }

    /** fgets(buffer + at, size, file); false stands for the null pointer. */
    method Gets(buffer: array<char>, at: nat, size: nat) returns (ok: bool)
      requires Valid() && 2 <= size && at + size <= buffer.Length
      modifies this, buffer
      ensures Valid()
      ensures ok == (old(Rest()) != [])
      ensures Rest() == old(Rest())[|Chunk(old(Rest()), size - 1)|..]
      ensures eof == (old(eof) || HitsEnd(old(Rest()), size - 1))
      ensures ok ==> buffer[..at] == old(buffer[..at])
      ensures ok ==> var c := Chunk(old(Rest()), size - 1);
        at + |c| < buffer.Length && buffer[at..at + |c|] == c && buffer[at + |c|] == NUL
      ensures !ok ==> buffer[..] == old(buffer[..])
    {
      hide Chunk, HitsEnd;
      var rest := data[pos..];
      var c := Chunk(rest, size - 1);
      ok := rest != [];
      if HitsEnd(rest, size - 1) {
        eof := true;
      }
      if ok {
        for n := 0 to |c|
          modifies buffer
          invariant buffer[..at] == old(buffer[..at]) && buffer[at..at + n] == c[..n]
        {
          buffer[at + n] := c[n];
        }
        buffer[at + |c|] := NUL;
        pos := pos + |c|;
      }
    }
  }
}
