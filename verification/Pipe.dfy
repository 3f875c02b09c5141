/** The pipe: a ring of one page between any number of readers and writers. A call holds the lock for a
    stretch, and a writer that finds the ring full, or a reader that finds it empty, sleeps between stretches,
    so a run is any interleaving of stretches. */
module Pipe {
  import opened Bytes

  const PIPE_SIZE: nat := 4096

  /** How a stretch ends: the call returns, or it sleeps and will go on later unless a signal comes. */
  datatype Outcome = Returns(count: nat) | Sleeps | BrokenPipe

  lemma ModDiffers(a: nat, b: nat)
    requires a < b < a + PIPE_SIZE
    ensures a % PIPE_SIZE != b % PIPE_SIZE
  {
  }

  class Pipe {
    const buffer: array<byte>
    var readPos: nat
    var writePos: nat
    const checkEnds: bool
    var readers: nat
    var writers: nat
    /** All bytes ever written, and all bytes ever read. */
    ghost var put: seq<byte>
    ghost var got: seq<byte>

    constructor (checkEnds: bool)
      ensures Valid() && fresh(buffer) && put == got == []
    {
      buffer := new byte[PIPE_SIZE];
      readPos, writePos, this.checkEnds, readers, writers := 0, 0, checkEnds, 0, 0;
      put, got := [], [];
    }

    ghost predicate Valid()
      reads this, buffer
    {
      && buffer.Length == PIPE_SIZE
      && readPos <= writePos <= readPos + PIPE_SIZE
      && |got| == readPos && |put| == writePos
      && got == put[..readPos]
      && forall i {:trigger Kept(i)} :: readPos <= i < writePos ==> Kept(i)
    }

    ghost predicate Kept(i: nat)
      requires buffer.Length == PIPE_SIZE && i < |put|
      reads this, buffer
    {
      buffer[i % PIPE_SIZE] == put[i]
    }

    /** The bytes in the ring, oldest first. With those read before they make up the bytes written. */
    ghost function Contents(): (s: seq<byte>)
      requires Valid()
      reads this, buffer
      ensures put == got + s && |s| == writePos - readPos
    {
      var s := seq(writePos - readPos, i requires 0 <= i < writePos - readPos reads this, buffer => buffer[(readPos + i) % PIPE_SIZE]);
      assert forall i {:trigger s[i]} :: 0 <= i < |s| ==> Kept(readPos + i);
      assert forall i {:trigger s[i]} :: 0 <= i < |s| ==> s[i] == put[readPos + i];
      s
    }

    /** One byte out of the ring. */
    method Get() returns (b: byte)
      requires Valid() && readPos < writePos
      modifies this`readPos, this`got
      ensures Valid() && readPos == old(readPos) + 1 && b == put[old(readPos)]
    {
      assert Kept(readPos);
      b := buffer[readPos % PIPE_SIZE];
      got := got + [b];
      readPos := readPos + 1;
      forall i | readPos <= i < writePos ensures Kept(i) { assert old(Kept(i)); }
    }

    /** One byte into the ring. */
    method Put(b: byte)
      requires Valid() && writePos < readPos + PIPE_SIZE
      modifies this`writePos, this`put, buffer
      ensures Valid() && writePos == old(writePos) + 1 && put == old(put) + [b]
    {
      buffer[writePos % PIPE_SIZE] := b;
      put := put + [b];
      writePos := writePos + 1;
      forall i | readPos <= i < writePos ensures Kept(i) {
        if i < writePos - 1 {
          assert old(Kept(i));
          ModDiffers(i, writePos - 1);
        }
      }
    }

    /** `pipe_read` from the test for emptiness on. */
    method Read(count: nat, nonblock: bool) returns (o: Outcome, out: seq<byte>)
      requires Valid()
      modifies this`readPos, this`got
      ensures Valid() && got == old(got) + out
      ensures o.Sleeps? <==> old(Contents()) == [] && !nonblock && !(checkEnds && writers == 0)
      ensures o == (if o.Sleeps? then Sleeps else Returns(|out|)) && (o.Sleeps? ==> out == [])
      ensures old(Contents()) == out + Contents()
      ensures |out| == if count < |old(Contents())| then count else |old(Contents())|
    {
      out := [];
      if readPos == writePos {
        if (checkEnds && writers == 0) || nonblock {
          return Returns(0), [];
        }
        return Sleeps, [];
      }
      while |out| < count && readPos != writePos
        invariant Valid() && |out| <= count
        invariant readPos == old(readPos) + |out| && out == put[old(readPos)..readPos]
      {
        var b := Get();
        out := out + [b];
      }
      o := Returns(|out|);
    }

    /** `pipe_write`, from byte `from` on, until all is written or the ring is full. Whether there are readers is
        asked only at the start of the call. */
    method Write(data: seq<byte>, from: nat, resumed: bool) returns (o: Outcome, next: nat)
      requires Valid() && from <= |data|
      modifies this`writePos, this`put, buffer
      ensures Valid() && from <= next <= |data| && put == old(put) + data[from..next]
      ensures o.BrokenPipe? <==> !resumed && checkEnds && readers == 0
      ensures o.BrokenPipe? ==> next == from
      ensures !o.BrokenPipe? ==> o == if next < |data| then Sleeps else Returns(|data|)
      ensures o.Sleeps? ==> |Contents()| == PIPE_SIZE
    {
      next := from;
      if !resumed && checkEnds && readers == 0 {
        return BrokenPipe, from;
      }
      while next < |data| && writePos != readPos + PIPE_SIZE
        invariant Valid() && from <= next <= |data| && put == old(put) + data[from..next]
        decreases |data| - next
      {
        Put(data[next]);
        assert data[from..next + 1] == data[from..next] + [data[next]];
        next := next + 1;
        hide Kept;
      }
      o := if next < |data| then Sleeps else Returns(|data|);
    }

    /** `pipe_poll`, for the reading or the writing end: readable, writable, hang-up, error. */
    method Poll(writeEnd: bool) returns (pollIn: bool, pollOut: bool, hup: bool, err: bool)
      requires Valid()
      ensures pollIn <==> !writeEnd && Contents() != []
      ensures pollOut <==> writeEnd && |Contents()| < PIPE_SIZE
      ensures hup <==> !writeEnd && writers == 0
      ensures err <==> writeEnd && readers == 0
    {
      pollIn := !writeEnd && readPos < writePos;
      pollOut := writeEnd && writePos < readPos + PIPE_SIZE;
      hup := !writeEnd && writers == 0;
      err := writeEnd && readers == 0;
    }
  }
}
