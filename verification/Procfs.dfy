/** Reads of the generated text files of procfs (memory maps, mounts, modules). The text is never stored: each
    read formats the lines again, skips up to the offset and copies from there. */
module Procfs {

  type Text = seq<char>

  function Concat(lines: seq<Text>): Text {
    if lines == [] then "" else lines[0] + Concat(lines[1..])
  }

  /** The text of the lines in order: line by line, and part by part. */
  lemma {:induction false} ConcatParts(a: seq<Text>, b: seq<Text>, line: Text)
    ensures Concat([line]) == line && Concat(a + b) == Concat(a) + Concat(b)
  {
    assert [line][1..] == [];
    if a == [] {
      assert a + b == b;
    } else {
      assert (a + b)[1..] == a[1..] + b;
      ConcatParts(a[1..], b, line);
    }
  }

  /** `procfs_read_string` at offset 0. */
  function ReadString(str: Text, count: nat): (r: Text)
    ensures |r| <= count
  {
    if |str| < count then str else str[..count]
  }

  lemma ReadOn(a: Text, b: Text, count: nat)
    ensures ReadString(a + b, count) == ReadString(a, count) + ReadString(b, count - |ReadString(a, count)|)
  {
  }

  /** What a read of `count` bytes at `offset` of a stored text returns. */
  function Clip(text: Text, offset: nat, count: nat): Text {
    if offset >= |text| then "" else ReadString(text[offset..], count)
  }

  lemma DropBefore(a: Text, b: Text, c: Text)
    ensures (a + b + c)[|a|..] == b + c
  {
  }

  lemma Passed(before: Text, line: Text, d: nat, c: Text)
    requires d <= |line|
    ensures before + "" + (line + c) == (before + line[..d]) + line[d..] + c
  {
  }

  /** The first loop: how far the lines reach up to the offset. `rest` is what is left of the last line
      looked at, and `next` the line after it. */
  method Skip(lines: seq<Text>, offset: nat) returns (past: bool, rest: Text, next: nat)
    ensures past <==> offset > |Concat(lines)|
    ensures !past ==> next <= |lines| && Concat(lines)[offset..] == rest + Concat(lines[next..])
  {
    var cntr := offset;
    next, rest, past := 0, "", false;
    ghost var before: Text := "";
    assert lines[0..] == lines;
    while cntr > 0
      invariant 0 <= cntr <= offset && 0 <= next <= |lines| && |before| == offset - cntr && !past
      invariant cntr > 0 ==> rest == ""
      invariant Concat(lines) == before + rest + Concat(lines[next..])
      decreases |lines| - next
    {
      if next == |lines| {
        assert lines[next..] == [];
        past := true;
        return;
      }
      assert lines[next..][1..] == lines[next + 1..];
      var line := lines[next];
      next := next + 1;
      var decrement := if |line| < cntr then |line| else cntr;
      Passed(before, line, decrement, Concat(lines[next..]));
      hide Concat;
      cntr := cntr - decrement;
      rest := line[decrement..];
      before := before + line[..decrement];
    }
    DropBefore(before, rest, Concat(lines[next..]));
  }

  /** What is to be returned, once the lines before the offset have been passed. */
  lemma CopyStart(lines: seq<Text>, offset: nat, count: nat, rest: Text, next: nat)
    requires offset <= |Concat(lines)| && next <= |lines| && Concat(lines)[offset..] == rest + Concat(lines[next..])
    ensures Clip(Concat(lines), offset, count) ==
            ReadString(rest, count) + ReadString(Concat(lines[next..]), count - |ReadString(rest, count)|)
  {
    hide Concat;
    ReadOn(rest, Concat(lines[next..]), count);
  }

  /** One more line. */
  lemma CopyLine(lines: seq<Text>, next: nat, count: nat)
    requires next < |lines|
    ensures ReadString(Concat(lines[next..]), count) ==
            ReadString(lines[next], count) + ReadString(Concat(lines[next + 1..]), count - |ReadString(lines[next], count)|)
  {
    hide ReadString;
    assert lines[next..][1..] == lines[next + 1..];
    ReadOn(lines[next], Concat(lines[next + 1..]), count);
  }

  lemma CopyEnd(lines: seq<Text>, next: nat, count: nat)
    requires next <= |lines| && (count == 0 || next == |lines|)
    ensures ReadString(Concat(lines[next..]), count) == ""
  {
  }

  lemma Assoc(a: Text, b: Text, c: Text)
    ensures a + (b + c) == (a + b) + c
  {
  }

  /** The three readers: skip, then copy until the buffer is full or the lines end. */
  method Read(lines: seq<Text>, offset: nat, count: nat) returns (out: Text)
    ensures out == Clip(Concat(lines), offset, count)
  {
    var past, rest, next := Skip(lines, offset);
    if past {
      return "";
    }
    hide Clip, ReadString, Concat;
    out := ReadString(rest, count);
    CopyStart(lines, offset, count, rest, next);
    while |out| < count && next < |lines|
      invariant 0 <= next <= |lines| && |out| <= count
      invariant Clip(Concat(lines), offset, count) == out + ReadString(Concat(lines[next..]), count - |out|)
    {
      var piece := ReadString(lines[next], count - |out|);
      CopyLine(lines, next, count - |out|);
      Assoc(out, piece, ReadString(Concat(lines[next + 1..]), count - |out| - |piece|));
      out := out + piece;
      next := next + 1;
    }
    CopyEnd(lines, next, count - |out|);
  }

  // ----- reading in pieces

  /** What a reader gets from a series of reads, each at the position the ones before have reached. */
  function ReadAll(text: Text, pos: nat, counts: seq<nat>): Text
    decreases |counts|
  {
    if counts == [] then "" else
    var piece := Clip(text, pos, counts[0]);
    piece + ReadAll(text, pos + |piece|, counts[1..])
  }

  function Sum(counts: seq<nat>): nat {
    if counts == [] then 0 else counts[0] + Sum(counts[1..])
  }

  lemma ClipNone(text: Text, pos: nat)
    ensures Clip(text, pos, 0) == ""
  {
  }

  lemma ClipTwice(text: Text, pos: nat, a: nat, b: nat)
    requires pos <= |text|
    ensures var first := Clip(text, pos, a); pos + |first| <= |text| && first + Clip(text, pos + |first|, b) == Clip(text, pos, a + b)
  {
  }

  /** However it is cut, the text comes out in order and whole. */
  lemma {:induction false} ReadAllIsClip(text: Text, pos: nat, counts: seq<nat>)
    requires pos <= |text|
    ensures ReadAll(text, pos, counts) == Clip(text, pos, Sum(counts))
    decreases |counts|
  {
    hide Clip, ReadString;
    if counts == [] {
      ClipNone(text, pos);
    } else {
      var first, rest := Clip(text, pos, counts[0]), counts[1..];
      ClipTwice(text, pos, counts[0], Sum(rest));
      ReadAllIsClip(text, pos + |first|, rest);
    }
  }

  /** A reader that stops at the first empty answer to a positive request has the whole text. */
  lemma StopsAtEnd(text: Text, counts: seq<nat>, count: nat)
    requires count > 0 && Clip(text, |ReadAll(text, 0, counts)|, count) == ""
    ensures ReadAll(text, 0, counts) == text
  {
    ReadAllIsClip(text, 0, counts);
  }

  // ----- reads of a single string

  const SIZE_T: nat := 0x1_0000_0000_0000_0000

  /** How many bytes `procfs_read_string` copies, in unsigned arithmetic. */
  function Copied(len: nat, count: nat, offset: nat): nat
    requires len < SIZE_T && offset < SIZE_T
  {
    var left := (len + SIZE_T - offset) % SIZE_T;
    if left < count then left else count
  }

  /** It copies the clipped slice exactly when the offset is not beyond the string, or nothing is asked for. */
  lemma CopiedIsClip(str: Text, count: nat, offset: nat)
    requires |str| < SIZE_T && offset < SIZE_T
    ensures Copied(|str|, count, offset) == |Clip(str, offset, count)| <==> offset <= |str| || count == 0
  {
  }

  /** One byte past the end of an empty string: one byte is copied, where there is none. */
  lemma CopiesPastEnd()
    ensures Copied(0, 1, 1) == 1 && Clip("", 1, 1) == ""
  {
  }
}
