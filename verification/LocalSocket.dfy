/** The receiving side of a connected local stream socket: messages queue up as buckets, and a receive takes
    bytes across bucket boundaries. Sends and receives run under the queue's lock, so a run is any sequence
    of the two. */
module LocalSocket {
  import opened Bytes

  /** A message and how much of it has been received. */
  datatype Bucket = Bucket(data: seq<byte>, offset: nat) {
    predicate Ok() {
      offset <= |data|
    }

    function Rest(): seq<byte> {
      if Ok() then data[offset..] else []
    }
  }

  predicate AllOk(q: seq<Bucket>) {
    forall i {:trigger q[i]} :: 0 <= i < |q| ==> q[i].Ok()
  }

  /** The bytes of a queue that have not been received yet. */
  function Flat(q: seq<Bucket>): seq<byte> {
    if q == [] then [] else q[0].Rest() + Flat(q[1..])
  }

  lemma Assoc(a: seq<byte>, b: seq<byte>, c: seq<byte>)
    ensures (a + b) + c == a + (b + c)
  {
  }

  lemma {:induction false} FlatAppend(q: seq<Bucket>, b: Bucket)
    ensures Flat(q + [b]) == Flat(q) + b.Rest()
  {
    hide Bucket.Rest;
    if q == [] {
      assert q + [b] == [b];
      assert Flat([b]) == b.Rest() + Flat([]);
    } else {
      FlatAppend(q[1..], b);
      assert (q + [b])[1..] == q[1..] + [b] && (q + [b])[0] == q[0];
      Assoc(q[0].Rest(), Flat(q[1..]), b.Rest());
    }
  }

  /** The queue after `n` bytes of its first bucket have been received. A bucket with nothing left goes. */
  function Advanced(q: seq<Bucket>, n: nat): seq<Bucket>
    requires q != []
  {
    var b := q[0].(offset := q[0].offset + n);
    if b.offset == |b.data| then q[1..] else [b] + q[1..]
  }

  lemma SplitAt(data: seq<byte>, a: nat, b: nat)
    requires a <= b <= |data|
    ensures data[a..] == data[a..b] + data[b..]
  {
  }

  lemma TakeFirst(q: seq<Bucket>, n: nat)
    requires q != [] && q[0].offset + n <= |q[0].data|
    ensures Flat(q) == q[0].data[q[0].offset..q[0].offset + n] + Flat(Advanced(q, n))
  {
    var b, rest := q[0].(offset := q[0].offset + n), q[1..];
    var piece := q[0].data[q[0].offset..b.offset];
    SplitAt(b.data, q[0].offset, b.offset);
    Assoc(piece, b.Rest(), Flat(rest));
    assert q[0].Rest() == piece + b.Rest();
    hide Bucket.Rest;
    if b.offset == |b.data| {
      assert b.data[b.offset..] == [];
      assert piece + b.data[b.offset..] == piece;
    } else {
      assert ([b] + rest)[1..] == rest && ([b] + rest)[0] == b;
    }
  }

  lemma PieceTaken(q: seq<Bucket>, n: nat, sent: seq<byte>, received: seq<byte>, piece: seq<byte>)
    requires AllOk(q) && q != [] && q[0].offset + n <= |q[0].data| && sent == received + Flat(q)
    requires piece == q[0].data[q[0].offset..q[0].offset + n]
    ensures AllOk(Advanced(q, n)) && (n > 0 || q[0].offset < |q[0].data| || |Advanced(q, n)| < |q|)
    ensures Flat(q) == piece + Flat(Advanced(q, n))
    ensures |Flat(Advanced(q, n))| == |Flat(q)| - n && sent == received + piece + Flat(Advanced(q, n))
  {
    hide Flat;
    TakeFirst(q, n);
    Assoc(received, piece, Flat(Advanced(q, n)));
  }

  const ENOTCONN := 107

  datatype Outcome = Received(bytes: seq<byte>) | WouldBlock | Sleeps | NotConnected | EndOfStream | Interrupted

  class Stream {
    var connected: bool
    var peerDisconnected: bool
    var rxQueue: seq<Bucket>
    var rxAvailable: nat
    ghost var sent: seq<byte>
    ghost var received: seq<byte>

    constructor ()
      ensures Valid() && connected && sent == received == []
    {
      connected, peerDisconnected, rxQueue, rxAvailable := true, false, [], 0;
      sent, received := [], [];
    }

    ghost predicate Valid()
      reads this
    {
      && AllOk(rxQueue)
      && rxAvailable == |Flat(rxQueue)|
      && sent == received + Flat(rxQueue)
    }

    /** `sock_local_sendto`, as far as the peer is concerned. A message may be empty. */
    method Send(msg: seq<byte>) returns (rc: int)
      requires Valid()
      modifies this`rxQueue, this`rxAvailable, this`sent
      ensures Valid() && rc == if connected then 0 else -ENOTCONN
      ensures sent == old(sent) + if connected then msg else []
      ensures rxQueue == old(rxQueue) + if connected then [Bucket(msg, 0)] else []
    {
      if !connected {
        return -ENOTCONN;
      }
      hide Flat;
      FlatAppend(rxQueue, Bucket(msg, 0));
      Assoc(received, Flat(rxQueue), msg);
      assert Bucket(msg, 0).Rest() == msg;
      rxQueue := rxQueue + [Bucket(msg, 0)];
      rxAvailable := rxAvailable + |msg|;
      sent := sent + msg;
      rc := 0;
    }

    /** One round of the receive loop: what the first bucket has, up to `remain` bytes. */
    method TakePiece(remain: nat) returns (piece: seq<byte>)
      requires Valid() && 0 < remain <= rxAvailable
      modifies this`rxQueue, this`rxAvailable, this`received
      ensures Valid() && received == old(received) + piece && piece + Flat(rxQueue) == old(Flat(rxQueue))
      ensures |piece| <= remain && (|piece| > 0 || |rxQueue| < |old(rxQueue)|)
    {
      var bucket := rxQueue[0];
      var inBucket := |bucket.data| - bucket.offset;
      var n := if inBucket < remain then inBucket else remain;
      piece := bucket.data[bucket.offset..bucket.offset + n];
      PieceTaken(rxQueue, n, sent, received, piece);
      hide Flat, AllOk, Advanced;
      received := received + piece;
      rxAvailable := rxAvailable - n;
      rxQueue := Advanced(rxQueue, n);
    }

    /** The loop of `sock_local_recvfrom_stream`, under the lock. Another receiver may have emptied the queue
        since it was looked at; then nothing is received. */
    method Take(len: nat) returns (out: seq<byte>)
      requires Valid()
      modifies this`rxQueue, this`rxAvailable, this`received
      ensures Valid() && received == old(received) + out
      ensures |out| == if len < old(rxAvailable) then len else old(rxAvailable)
      ensures out + Flat(rxQueue) == old(Flat(rxQueue))
    {
      var readable := if len < rxAvailable then len else rxAvailable;
      out := [];
      hide Flat;
      while |out| < readable
        invariant Valid() && |out| <= readable && |out| + rxAvailable == old(rxAvailable)
        invariant received == old(received) + out && out + Flat(rxQueue) == old(Flat(rxQueue))
        decreases readable - |out|, |rxQueue|
      {
        var piece := TakePiece(readable - |out|);
        out := out + piece;
      }
    }

    /** `sock_local_recvfrom_stream`, up to where it may sleep. */
    method Receive(len: nat, dontWait: bool) returns (o: Outcome)
      requires Valid()
      modifies this`rxQueue, this`rxAvailable, this`received
      ensures Valid()
      ensures o.NotConnected? <==> !connected
      ensures connected ==> (o.WouldBlock? <==> old(rxQueue) == [] && dontWait)
      ensures connected ==> (o.Sleeps? <==> old(rxQueue) == [] && !dontWait)
      ensures !o.Received? ==> received == old(received) && rxQueue == old(rxQueue) && !o.EndOfStream? && !o.Interrupted?
      ensures o.Received? ==> received == old(received) + o.bytes && o.bytes + Flat(rxQueue) == old(Flat(rxQueue))
      ensures o.Received? ==> |o.bytes| == if len < |old(Flat(rxQueue))| then len else |old(Flat(rxQueue))|
    {
      if !connected {
        return NotConnected;
      }
      if rxQueue == [] {
        return if dontWait then WouldBlock else Sleeps;
      }
      var bytes := Take(len);
      o := Received(bytes);
    }

    /** The rest of `sock_local_recvfrom_stream` after it has slept. */
    method Woken(len: nat) returns (o: Outcome)
      requires Valid()
      modifies this`rxQueue, this`rxAvailable, this`received
      ensures Valid()
      ensures o.Received? <==> old(rxQueue) != []
      ensures !o.Received? ==> received == old(received) && o == if !connected && peerDisconnected then EndOfStream else Interrupted
      ensures o.Received? ==> received == old(received) + o.bytes && o.bytes + Flat(rxQueue) == old(Flat(rxQueue))
      ensures o.Received? ==> |o.bytes| == if len < |old(Flat(rxQueue))| then len else |old(Flat(rxQueue))|
    {
      if rxQueue == [] {
        return if !connected && peerDisconnected then EndOfStream else Interrupted;
      }
      var bytes := Take(len);
      o := Received(bytes);
    }

    /** `sock_local_poll` of a socket that does not listen: readable, writable, hang-up. It says that there is something
        to receive exactly when there is, unless only empty messages are queued. */
    method Poll() returns (pollIn: bool, pollOut: bool, hup: bool)
      requires Valid()
      ensures Flat(rxQueue) != [] ==> pollIn
      ensures (pollIn <==> Flat(rxQueue) != []) <==> (rxAvailable == 0 ==> rxQueue == [])
      ensures (pollOut <==> connected) && (hup <==> peerDisconnected)
    {
      pollIn := |rxQueue| > 0;
      pollOut := connected;
      hup := peerDisconnected;
    }
  }

  /** After one empty message the socket polls as readable with nothing to receive. */
  method EmptyMessage() returns (s: Stream, readable: bool)
    ensures s.Valid() && readable && s.sent == [] && Flat(s.rxQueue) == []
  {
    s := new Stream();
    var rc := s.Send([]);
    var pollOut, hup;
    readable, pollOut, hup := s.Poll();
    assert Flat(s.rxQueue) == s.sent;
  }
}
