/** The Internet checksum, in the three ways the network code computes it, against the ones-complement sum of
    section 2 of RFC 1071. */
module Checksums {
  import opened Bytes

  type half = x: nat | x < 0x1_0000

  const UINT32: nat := 0x1_0000_0000

  /** The ones-complement value of a sum of 16-bit words: what folding the carries back in leads to. */
  function Folded(s: nat): half {
    if s == 0 then 0 else (s - 1) % 0xFFFF + 1
  }

  /** Ones-complement negation, `~x & 0xFFFF`. */
  function Not(x: half): half {
    0xFFFF - x
  }

  /** `htons` and `ntohs` on a little-endian machine. */
  function Swap(x: half): half {
    x % 0x100 * 0x100 + x / 0x100
  }

  function LittleWord(b0: byte, b1: byte): half {
    b0 as nat + 0x100 * (b1 as nat)
  }

  function BigWord(b0: byte, b1: byte): half {
    LittleWord(b1, b0)
  }

  /** The sum of the words of a packet as the machine loads them, a last odd byte as a word of its own. */
  function LittleSum(b: seq<byte>): nat {
    if b == [] then 0
    else if |b| == 1 then b[0]
    else LittleWord(b[0], b[1]) + LittleSum(b[2..])
  }

  /** The same words in network order, a last odd byte filled up with a zero. */
  function BigSum(b: seq<byte>): nat {
    if b == [] then 0
    else if |b| == 1 then BigWord(b[0], 0)
    else BigWord(b[0], b[1]) + BigSum(b[2..])
  }

  /** The bytes at places 0, 2, 4 and so on, added up. */
  function EverySecond(b: seq<byte>): nat {
    if b == [] then 0 else if |b| == 1 then b[0] else b[0] as nat + EverySecond(b[2..])
  }

  /** Byte by byte: in machine order the bytes at odd places count 256 times, in network order those at even places. */
  lemma {:induction false} SumsByBytes(b: seq<byte>)
    requires b != []
    ensures LittleSum(b) == EverySecond(b) + 256 * EverySecond(b[1..])
    ensures BigSum(b) == 256 * EverySecond(b) + EverySecond(b[1..])
  {
    if |b| > 2 {
      SumsByBytes(b[2..]);
      assert b[1..][2..] == b[2..][1..];
    } else if |b| == 2 {
      assert b[2..] == [] && b[1..] == [b[1]];
    }
  }

  /** Words in pairs of bytes: sums of parts add up if the first part is even. */
  lemma {:induction false} LittleSumConcat(a: seq<byte>, b: seq<byte>)
    requires |a| % 2 == 0
    ensures LittleSum(a + b) == LittleSum(a) + LittleSum(b)
  {
    if a == [] {
      assert a + b == b;
    } else {
      assert (a + b)[2..] == a[2..] + b;
      LittleSumConcat(a[2..], b);
    }
  }

  /** The value is the sum modulo 65535, with 65535 in place of 0 unless nothing but zeros was added. */
  lemma FoldedIs(s: nat)
    ensures Folded(s) % 65535 == s % 65535 && (Folded(s) == 0 <==> s == 0)
  {
    if s > 0 {
      var q, r := (s - 1) / 65535, (s - 1) % 65535;
      assert s == r + 1 + 65535 * q;
      AddMultipleMod(r + 1, q);
    }
  }

  lemma {:induction false} AddMultipleMod(a: nat, k: nat)
    ensures (a + 65535 * k) % 65535 == a % 65535
  {
    if k > 0 {
      AddMultipleMod(a, k - 1);
      Around(a + 65535 * (k - 1));
    }
  }

  // ----- folding

  lemma Around(x: nat)
    ensures (x + 0xFFFF) % 0xFFFF == x % 0xFFFF
  {
  }

  lemma {:induction false} AddMultiple(a: nat, k: nat)
    requires a > 0
    ensures Folded(a + 0xFFFF * k) == Folded(a)
  {
    if k > 0 {
      AddMultiple(a, k - 1);
      var m := a + 0xFFFF * (k - 1);
      Around(m - 1);
      assert a + 0xFFFF * k == m + 0xFFFF;
    }
  }

  /** Adding the carries back in does not change the value. */
  lemma FoldOnce(s: nat)
    ensures Folded(s / 0x1_0000 + s % 0x1_0000) == Folded(s)
  {
    var hi, lo := s / 0x1_0000, s % 0x1_0000;
    if hi + lo > 0 {
      AddMultiple(hi + lo, hi);
      assert s == hi + lo + 0xFFFF * hi;
    }
  }

  /** Two sums that agree modulo 65535, and of which both or neither is zero, have the same value. */
  lemma SameFolded(a: nat, b: nat, k: nat)
    requires a > 0 && b > 0 && (a == b + 0xFFFF * k || b == a + 0xFFFF * k)
    ensures Folded(a) == Folded(b)
  {
    if a == b + 0xFFFF * k { AddMultiple(b, k); } else { AddMultiple(a, k); }
  }

  // ----- byte order

  /** Swapping the bytes of every word multiplies the sum by 256, up to multiples of 65535. */
  lemma {:induction false} SwappedSum(b: seq<byte>) returns (k: nat)
    ensures 0x100 * LittleSum(b) == BigSum(b) + 0xFFFF * k
  {
    k := 0;
    if |b| > 1 {
      k := SwappedSum(b[2..]);
      k := k + b[1];
    }
  }

  lemma SwapIs(x: half)
    ensures 0x100 * (x as nat) == Swap(x) as nat + 0xFFFF * (x / 0x100) && (x > 0 ==> Swap(x) > 0)
  {
  }

  lemma FoldedSplit(s: nat) returns (q: nat)
    requires s > 0
    ensures Folded(s) > 0 && s == Folded(s) as nat + 0xFFFF * q
  {
    q := (s - 1) / 0xFFFF;
  }

  /** Multiplying by 256 swaps the bytes of the value. */
  lemma SwapFolded(s: nat)
    ensures Swap(Folded(s)) == Folded(0x100 * s)
  {
    if s > 0 {
      hide Folded, Swap;
      var q := FoldedSplit(s);
      var x := Folded(s);
      var k := x / 0x100;
      SwapIs(x);
      AddMultiple(Swap(x), k + 0x100 * q);
      FoldedHalf(Swap(x));
      assert 0x100 * s == Swap(x) as nat + 0xFFFF * (k + 0x100 * q);
    }
  }

  lemma FoldedHalf(x: half)
    ensures Folded(x) == x
  {
  }

  /** The value of a packet is the same in either byte order, up to that order. */
  lemma ByteOrder(b: seq<byte>)
    ensures Swap(Folded(LittleSum(b))) == Folded(BigSum(b))
  {
    SwapFolded(LittleSum(b));
    var k := SwappedSum(b);
    ZeroTogether(b);
    if LittleSum(b) > 0 { SameFolded(0x100 * LittleSum(b), BigSum(b), k); }
  }

  lemma {:induction false} ZeroTogether(b: seq<byte>)
    ensures LittleSum(b) == 0 <==> BigSum(b) == 0
  {
    if |b| > 1 { ZeroTogether(b[2..]); }
  }

  lemma SwapOf(h: byte, l: byte)
    ensures Swap(0x100 * (h as nat) + l) == 0x100 * (l as nat) + h
  {
  }

  lemma SwapNot(x: half)
    ensures Swap(Not(x)) == Not(Swap(x))
  {
    hide Swap;
    var h, l := x / 0x100, x % 0x100;
    SwapOf(h, l);
    SwapOf(0xFF - h, 0xFF - l);
    assert Not(x) == 0x100 * (0xFF - h) + (0xFF - l);
  }

  // ----- the three computations

  /** A packet with its IPv4 header checksum field set to zero. */
  function Cleared(b: seq<byte>): (r: seq<byte>)
    requires |b| >= 12
    ensures |r| == |b|
  {
    b[10 := 0][11 := 0]
  }

  /** `ipv4_calculate_checksum`: folds after every word. The checksum field is cleared and put back. */
  method Ipv4Checksum(data: array<byte>, len: nat) returns (c: half)
    requires data.Length >= 12 && len <= data.Length
    modifies data
    ensures data[..] == old(data[..])
    ensures c == Not(Folded(BigSum(Cleared(data[..])[..len / 2 * 2])))
  {
    var saved0, saved1 := data[10], data[11];
    data[10], data[11] := 0, 0;
    ghost var b := data[..][..len / 2 * 2];
    assert b == Cleared(old(data[..]))[..len / 2 * 2];
    var sum: half := 0;
    var i: nat := 0;
    ghost var done: nat := 0;
    assert b[0..] == b;
    while i < len / 2
      invariant i <= len / 2 && data[..][..len / 2 * 2] == b && data.Length == |old(data[..])|
      invariant forall j :: 0 <= j < data.Length && j != 10 && j != 11 ==> data[j] == old(data[j])
      invariant sum == Folded(done) && BigSum(b) == done + BigSum(b[2 * i..])
    {
      var w := BigWord(data[2 * i], data[2 * i + 1]);
      assert data[2 * i] == b[2 * i] && data[2 * i + 1] == b[2 * i + 1];
      assert b[2 * i..][2..] == b[2 * (i + 1)..];
      FoldAdd(done, w);
      done := done + w;
      hide Folded, BigWord;
      var s: nat := sum as nat + w;
      sum := if s > 0xFFFF then s / 0x1_0000 + s % 0x1_0000 else s;
      i := i + 1;
    }
    assert BigSum(b[2 * i..]) == 0;
    data[10], data[11] := saved0, saved1;
    c := Not(sum);
  }

  /** Folding after an addition to a folded sum. */
  lemma FoldAdd(done: nat, w: nat)
    requires w < 0x1_0000
    ensures var s := Folded(done) + w; Folded(done + w) == if s > 0xFFFF then s / 0x1_0000 + s % 0x1_0000 else s
  {
    var s := Folded(done) + w;
    FoldOnce(s);
    if done > 0 { AddMultiple(s, (done - 1) / 0xFFFF); }
  }

  lemma {:induction false} LittleSumBound(b: seq<byte>)
    ensures LittleSum(b) <= 0xFFFF * ((|b| + 1) / 2)
  {
    if |b| > 1 { LittleSumBound(b[2..]); }
  }

  /** The loops that add the words of a buffer to a 32-bit sum. */
  method AddWords(b: seq<byte>, start: nat) returns (sum: nat)
    requires start < UINT32
    ensures start + LittleSum(b) < UINT32 ==> sum == start + LittleSum(b)
    ensures sum < UINT32
  {
    sum := start;
    var i: nat := 0;
    assert b[0..] == b;
    while |b| - i > 1
      invariant i <= |b| && sum < UINT32
      invariant start + LittleSum(b) < UINT32 ==> sum + LittleSum(b[i..]) == start + LittleSum(b)
    {
      assert b[i..][2..] == b[i + 2..];
      sum := (sum + LittleWord(b[i], b[i + 1])) % UINT32;
      i := i + 2;
    }
    if |b| - i == 1 {
      sum := (sum + b[i]) % UINT32;
    }
  }

  /** One carry at most is left after the first fold. */
  lemma LastCarry(l: half, h: nat)
    requires h <= 1 && l as nat + h < 0x1_0000
    ensures (0x1_0000 * h + l + h) % 0x1_0000 == Folded(l as nat + h)
  {
    assert (0x1_0000 * h + l + h) % 0x1_0000 == l as nat + h;
  }

  lemma TwoFolds(s: nat)
    requires s < UINT32
    ensures var t := s / 0x1_0000 + s % 0x1_0000; (t + t / 0x1_0000) % 0x1_0000 == Folded(s)
  {
    hide Folded;
    var t := s / 0x1_0000 + s % 0x1_0000;
    FoldOnce(s);
    FoldOnce(t);
    LastCarry(t % 0x1_0000, t / 0x1_0000);
  }

  /** `icmp_checksum`: adds up in 32 bits and folds exactly twice. */
  method IcmpChecksum(b: seq<byte>) returns (c: half)
    ensures |b| <= 0x1_0000 ==> c == Not(Folded(LittleSum(b)))
  {
    var sum := AddWords(b, 0);
    LittleSumBound(b);
    TwoFolds(sum);
    hide Folded, LittleSum;
    sum := sum / 0x1_0000 + sum % 0x1_0000;
    sum := sum + sum / 0x1_0000;
    c := Not(sum % 0x1_0000);
  }

  /** The words of a UDP header as they lie in memory. */
  datatype UdpHeader = UdpHeader(srcPort: half, dstPort: half, len: half, checksum: half)

  const IPPROTO_UDP: half := 17
  const UDP_HEADER_SIZE: nat := 8

  function PseudoHeaderSum(src: word, dst: word, size: nat): nat {
    src / 0x1_0000 + src % 0x1_0000 + dst / 0x1_0000 + dst % 0x1_0000 + Swap(IPPROTO_UDP) + Swap((UDP_HEADER_SIZE + size) % 0x1_0000)
  }

  function UdpSum(src: word, dst: word, h: UdpHeader, payload: seq<byte>): nat {
    PseudoHeaderSum(src, dst, |payload|) + h.srcPort + h.dstPort + h.len + h.checksum + LittleSum(payload)
  }

  /** The pseudo header as section "Fields" of RFC 768 lays it out: source address, destination address, a zero byte, the
      protocol, the length with the higher byte first. */
  function PseudoHeader(src: seq<byte>, dst: seq<byte>, len: half): seq<byte> {
    src + dst + [0, 17] + [len / 256, len % 256]
  }

  lemma Halves(lo: half, hi: half)
    ensures (lo as nat + 0x1_0000 * (hi as nat)) / 0x1_0000 == hi && (lo as nat + 0x1_0000 * (hi as nat)) % 0x1_0000 == lo
  {
  }

  lemma WordHalves(a: seq<byte>)
    requires |a| == 4
    ensures WordAt(a, 0) == LittleWord(a[0], a[1]) as nat + 0x1_0000 * (LittleWord(a[2], a[3]) as nat)
  {
  }

  lemma AddressSum(a: seq<byte>)
    requires |a| == 4
    ensures WordAt(a, 0) / 0x1_0000 + WordAt(a, 0) % 0x1_0000 == LittleSum(a)
  {
    hide LittleSum, LittleWord, WordAt;
    WordHalves(a);
    Halves(LittleWord(a[0], a[1]), LittleWord(a[2], a[3]));
    assert a == [a[0], a[1]] + [a[2], a[3]];
    LittleSumConcat([a[0], a[1]], [a[2], a[3]]);
    PairSum(a[0], a[1]);
    PairSum(a[2], a[3]);
  }

  lemma PairSum(b0: byte, b1: byte)
    ensures LittleSum([b0, b1]) == LittleWord(b0, b1)
  {
    assert [b0, b1][2..] == [];
  }

  lemma PseudoHeaderBytes(src: seq<byte>, dst: seq<byte>, size: nat)
    requires |src| == |dst| == 4
    ensures |PseudoHeader(src, dst, (8 + size) % 0x1_0000)| == 12
    ensures PseudoHeaderSum(WordAt(src, 0), WordAt(dst, 0), size) ==
              LittleSum(PseudoHeader(src, dst, (8 + size) % 0x1_0000))
  {
    hide LittleSum;
    var len: half := (8 + size) % 0x1_0000;
    AddressSum(src);
    AddressSum(dst);
    PairSum(0, 17);
    PairSum(len / 256, len % 256);
    LittleSumConcat(src, dst);
    LittleSumConcat(src + dst, [0, 17]);
    LittleSumConcat(src + dst + [0, 17], [len / 256, len % 256]);
  }

  /** The header as its eight bytes are loaded. */
  function HeaderAt(b: seq<byte>): UdpHeader
    requires |b| == 8
  {
    UdpHeader(LittleWord(b[0], b[1]), LittleWord(b[2], b[3]), LittleWord(b[4], b[5]), LittleWord(b[6], b[7]))
  }

  lemma {:induction false} LittleSumStep(b: seq<byte>)
    requires |b| >= 2
    ensures LittleSum(b) == LittleWord(b[0], b[1]) as nat + LittleSum(b[2..])
  {
  }

  lemma HeaderSum(b: seq<byte>)
    requires |b| == 8
    ensures var h := HeaderAt(b); h.srcPort as nat + h.dstPort as nat + h.len as nat + h.checksum as nat == LittleSum(b)
  {
    hide LittleSum, LittleWord;
    LittleSumStep(b);
    LittleSumStep(b[2..]);
    assert b[2..][2..] == b[4..];
    LittleSumStep(b[4..]);
    assert b[4..][2..] == [b[6], b[7]];
    PairSum(b[6], b[7]);
  }

  /** What is summed is the datagram behind its pseudo header, byte for byte. */
  lemma UdpByBytes(src: seq<byte>, dst: seq<byte>, header: seq<byte>, payload: seq<byte>)
    requires |src| == |dst| == 4 && |header| == 8
    ensures UdpSum(WordAt(src, 0), WordAt(dst, 0), HeaderAt(header), payload) ==
              LittleSum(PseudoHeader(src, dst, (8 + |payload|) % 0x1_0000) + header + payload)
  {
    hide LittleSum, PseudoHeaderSum, PseudoHeader, LittleWord, HeaderAt, WordAt;
    var pseudo := PseudoHeader(src, dst, (8 + |payload|) % 0x1_0000);
    PseudoHeaderBytes(src, dst, |payload|);
    HeaderSum(header);
    ThreeParts(pseudo, header, payload);
  }

  lemma ThreeParts(a: seq<byte>, b: seq<byte>, c: seq<byte>)
    requires |a| % 2 == 0 && |b| % 2 == 0
    ensures LittleSum(a + b + c) == LittleSum(a) + LittleSum(b) + LittleSum(c)
  {
    hide LittleSum;
    LittleSumConcat(a, b);
    LittleSumConcat(a + b, c);
  }

  /** The last loop of `udp4_calc_checksum`: folds until there is no carry. */
  method FoldAll(start: nat) returns (sum: half)
    ensures sum == Folded(start)
  {
    var s: nat := start;
    while s / 0x1_0000 != 0
      invariant Folded(s) == Folded(start)
      decreases s
    {
      FoldOnce(s);
      s := s % 0x1_0000 + s / 0x1_0000;
    }
    sum := s;
  }

  /** `udp4_calc_checksum`. */
  method UdpChecksum(src: word, dst: word, h: UdpHeader, payload: seq<byte>) returns (c: half)
    ensures |payload| <= 0xFFFF ==> c == Not(Folded(UdpSum(src, dst, h, payload)))
  {
    LittleSumBound(payload);
    var sum := PseudoHeaderSum(src, dst, |payload|) + h.srcPort + h.dstPort + h.len + h.checksum;
    assert sum <= 10 * 0xFFFF;
    hide Folded, LittleSum, PseudoHeaderSum;
    sum := AddWords(payload, sum);
    var folded := FoldAll(sum);
    c := Not(folded);
  }

  /** Adding the complement of a sum gives the value that the receiver's test looks for. */
  lemma ComplementCloses(s: nat)
    ensures Folded(s + Not(Folded(s))) == 0xFFFF
  {
    if s > 0 { AddMultiple(0xFFFF, (s - 1) / 0xFFFF); }
  }

  /** The checksum part of `udp_ip4_handle`. */
  method UdpAccepts(src: word, dst: word, h: UdpHeader, payload: seq<byte>) returns (ok: bool)
    ensures |payload| <= 0xFFFF ==> (ok <==> h.checksum == 0 || Folded(UdpSum(src, dst, h, payload)) == 0xFFFF)
  {
    if h.checksum == 0 {
      return true;
    }
    var calculated := UdpChecksum(src, dst, h, payload);
    hide Folded, UdpSum;
    ok := Swap(calculated) == 0;
  }

  /** What the sender fills in passes the receiver's test. */
  lemma SentPasses(src: word, dst: word, h: UdpHeader, payload: seq<byte>)
    requires h.checksum == 0
    ensures Folded(UdpSum(src, dst, h.(checksum := Not(Folded(UdpSum(src, dst, h, payload)))), payload)) == 0xFFFF
  {
    hide Folded, LittleSum, PseudoHeaderSum;
    ComplementCloses(UdpSum(src, dst, h, payload));
  }

  /** And a checksum that is not zero passes only if it is that one, or the other zero of ones-complement. */
  lemma OnlySentPasses(src: word, dst: word, h: UdpHeader, payload: seq<byte>, c: half)
    requires h.checksum == 0 && c > 0
    ensures var f := Folded(UdpSum(src, dst, h, payload));
            Folded(UdpSum(src, dst, h.(checksum := c), payload)) == 0xFFFF <==> c == Not(f) || (f == 0xFFFF && c == 0xFFFF)
  {
    var s := UdpSum(src, dst, h, payload);
    assert s > 0 by { SwapIs(IPPROTO_UDP); }
    hide LittleSum, PseudoHeaderSum;
    FoldAdd(s, c);
  }

  // ----- the three agree

  /** Folding per word in network order and folding at the end in machine order give the same checksum, up to
      byte order. */
  lemma SameChecksum(b: seq<byte>)
    ensures Not(Folded(BigSum(b))) == Swap(Not(Folded(LittleSum(b))))
  {
    ByteOrder(b);
    SwapNot(Folded(LittleSum(b)));
  }

  /** In network order the UDP checksum is the complement of the ones-complement sum of pseudo header, header and payload,
      as RFC 768 asks for. */
  lemma UdpIsRfc768(src: seq<byte>, dst: seq<byte>, header: seq<byte>, payload: seq<byte>)
    requires |src| == |dst| == 4 && |header| == 8
    ensures var all := PseudoHeader(src, dst, (8 + |payload|) % 0x1_0000) + header + payload;
            Swap(Not(Folded(UdpSum(WordAt(src, 0), WordAt(dst, 0), HeaderAt(header), payload)))) == Not(Folded(BigSum(all)))
  {
    UdpByBytes(src, dst, header, payload);
    SameChecksum(PseudoHeader(src, dst, (8 + |payload|) % 0x1_0000) + header + payload);
  }

  /** The example of section 3 of RFC 1071: the words 0001, f203, f4f5 and f6f7 have the sum ddf2. */
  lemma Rfc1071Example()
    ensures Folded(BigSum([0x00, 0x01, 0xf2, 0x03, 0xf4, 0xf5, 0xf6, 0xf7])) == 0xddf2
  {
    var b: seq<byte> := [0x00, 0x01, 0xf2, 0x03, 0xf4, 0xf5, 0xf6, 0xf7];
    assert b[2..] == [0xf2, 0x03, 0xf4, 0xf5, 0xf6, 0xf7] && b[2..][2..] == [0xf4, 0xf5, 0xf6, 0xf7];
    assert b[2..][2..][2..] == [0xf6, 0xf7] && b[2..][2..][2..][2..] == [];
    assert BigSum(b) == 0x2ddf0;
  }

  /** Storing a word over a zero word adds it to the sum. */
  lemma {:induction false} StoredSum(b: seq<byte>, i: nat, lo: byte, hi: byte)
    requires 2 * i + 1 < |b| && b[2 * i] == 0 && b[2 * i + 1] == 0
    ensures LittleSum(b[2 * i := lo][2 * i + 1 := hi]) == LittleSum(b) + LittleWord(lo, hi)
  {
    var r := b[2 * i := lo][2 * i + 1 := hi];
    if i == 0 {
      assert r[2..] == b[2..];
    } else {
      StoredSum(b[2..], i - 1, lo, hi);
      assert r[2..] == b[2..][2 * (i - 1) := lo][2 * (i - 1) + 1 := hi];
    }
  }

  lemma {:induction false} BigStoredSum(b: seq<byte>, i: nat, hi: byte, lo: byte)
    requires 2 * i + 1 < |b| && b[2 * i] == 0 && b[2 * i + 1] == 0
    ensures BigSum(b[2 * i := hi][2 * i + 1 := lo]) == BigSum(b) + BigWord(hi, lo)
  {
    var r := b[2 * i := hi][2 * i + 1 := lo];
    if i == 0 {
      assert r[2..] == b[2..];
    } else {
      BigStoredSum(b[2..], i - 1, hi, lo);
      assert r[2..] == b[2..][2 * (i - 1) := hi][2 * (i - 1) + 1 := lo];
    }
  }

  /** An IPv4 header with the checksum in bytes 10 and 11, the higher byte first, sums up to the value that section 3.1 of
      RFC 791 asks for, whatever was in these bytes before. */
  lemma Ipv4Passes(b: seq<byte>, hi: byte, lo: byte)
    requires |b| >= 12 && 256 * hi + lo == Not(Folded(BigSum(Cleared(b))))
    ensures Folded(BigSum(b[10 := hi][11 := lo])) == 0xFFFF
  {
    var z := Cleared(b);
    assert z[2 * 5 := hi][2 * 5 + 1 := lo] == b[10 := hi][11 := lo];
    BigStoredSum(z, 5, hi, lo);
    ComplementCloses(BigSum(z));
    hide Folded, BigSum;
  }

  /** An ICMP message whose checksum word was filled in sums up to the value that makes its checksum zero. */
  lemma FilledInPasses(b: seq<byte>, i: nat, lo: byte, hi: byte)
    requires 2 * i + 1 < |b| && b[2 * i] == 0 && b[2 * i + 1] == 0
    requires LittleWord(lo, hi) == Not(Folded(LittleSum(b)))
    ensures Not(Folded(LittleSum(b[2 * i := lo][2 * i + 1 := hi]))) == 0
  {
    StoredSum(b, i, lo, hi);
    ComplementCloses(LittleSum(b));
  }
}
