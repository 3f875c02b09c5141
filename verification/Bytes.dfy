/** Bytes, little-endian words and bitmap bits: the three ways the kernel looks at a disk block. */
module Bytes {

  type byte = x: nat | x < 0x100
  type word = x: nat | x < 0x1_0000_0000

  function Zeros(n: nat): (s: seq<byte>)
    ensures |s| == n
  {
    seq(n, _ => 0)
  }

  /** The `i`-th 32-bit word of a block. */
  function WordAt(b: seq<byte>, i: nat): word
    requires 4 * i + 3 < |b|
  {
    b[4 * i] as nat + 0x100 * b[4 * i + 1] as nat + 0x1_0000 * b[4 * i + 2] as nat + 0x100_0000 * b[4 * i + 3] as nat
  }

  lemma Shifts(x: nat)
    ensures x / 0x100 / 0x100 == x / 0x1_0000 && x / 0x1_0000 / 0x100 == x / 0x100_0000
  {
  }

  /** The four bytes of a word. */
  lemma LittleEndian(x: word)
    ensures x % 0x100 + 0x100 * (x / 0x100 % 0x100) + 0x1_0000 * (x / 0x1_0000 % 0x100) + 0x100_0000 * (x / 0x100_0000) == x
    ensures x / 0x100_0000 < 0x100
  {
    Shifts(x);
    var y, z := x / 0x100, x / 0x1_0000;
    assert x == x % 0x100 + 0x100 * y;
    assert y == y % 0x100 + 0x100 * z;
    assert z == z % 0x100 + 0x100 * (x / 0x100_0000);
  }

  /** `((uint32_t*)b)[i] = w`: exactly one word changes. */
  function StoreWord(b: seq<byte>, i: nat, w: word): (r: seq<byte>)
    requires 4 * i + 3 < |b|
    ensures |r| == |b|
    ensures WordAt(r, i) == w
    ensures forall j: nat :: 4 * j + 3 < |b| && j != i ==> WordAt(r, j) == WordAt(b, j)
  {
    LittleEndian(w);
    b[4 * i := w % 0x100]
    [4 * i + 1 := w / 0x100 % 0x100]
    [4 * i + 2 := w / 0x1_0000 % 0x100]
    [4 * i + 3 := w / 0x100_0000]
  }

  lemma LowByte(x: byte, y: nat)
    ensures (x + 256 * y) % 256 == x && (x + 256 * y) / 256 == y
  {
  }

  /** The bytes of a word, lowest first, as they lie in the block. */
  lemma WordBytes(b: seq<byte>, i: nat)
    requires 4 * i + 3 < |b|
    ensures var w := WordAt(b, i);
            && b[4 * i] == w % 256 && b[4 * i + 1] == w / 256 % 256
            && b[4 * i + 2] == w / 65536 % 256 && b[4 * i + 3] == w / 16777216
  {
    var z := b[4 * i + 2] as nat + 256 * b[4 * i + 3] as nat;
    var y := b[4 * i + 1] as nat + 256 * z;
    LowByte(b[4 * i], y);
    LowByte(b[4 * i + 1], z);
    LowByte(b[4 * i + 2], b[4 * i + 3]);
    Shifts(WordAt(b, i));
  }

  /** `(x >> k) & 1`, one shift at a time. */
  predicate NatBit(x: nat, k: nat) {
    if k == 0 then x % 2 == 1 else NatBit(x / 2, k - 1)
  }

  /** `x | (1 << k)` when `on`, `x & ~(1 << k)` when not. */
  function NatPut(x: nat, k: nat, on: bool): nat {
    if k == 0 then x / 2 * 2 + (if on then 1 else 0) else 2 * NatPut(x / 2, k - 1, on) + x % 2
  }

  function ShiftRight(x: nat, n: nat): nat {
    if n == 0 then x else ShiftRight(x / 2, n - 1)
  }

  lemma {:induction false} NatPutHalf(x: nat, k: nat, on: bool)
    ensures NatPut(x, k, on) % 2 == (if k > 0 then x % 2 else if on then 1 else 0)
    ensures NatPut(x, k, on) / 2 == if k == 0 then x / 2 else NatPut(x / 2, k - 1, on)
  {
  }

  /** Writing bit `k` leaves every other bit alone. */
  lemma {:induction false} NatPutBit(x: nat, k: nat, on: bool, j: nat)
    ensures NatBit(NatPut(x, k, on), j) == if j == k then on else NatBit(x, j)
  {
    NatPutHalf(x, k, on);
    if j > 0 && k > 0 { NatPutBit(x / 2, k - 1, on, j - 1); }
  }

  lemma {:induction false} NatPutWidth(x: nat, k: nat, on: bool, n: nat)
    requires k < n
    ensures ShiftRight(NatPut(x, k, on), n) == ShiftRight(x, n)
  {
    NatPutHalf(x, k, on);
    if k > 0 { NatPutWidth(x / 2, k - 1, on, n - 1); }
  }

  lemma {:induction false} ByteWidth(x: nat)
    ensures ShiftRight(x, 8) == 0 <==> x < 0x100
  {
    var a := x / 2 / 2;
    var b := a / 2 / 2;
    var c := b / 2 / 2;
    assert ShiftRight(x, 8) == ShiftRight(x / 2, 7) == ShiftRight(a, 6);
    assert ShiftRight(a, 6) == ShiftRight(a / 2, 5) == ShiftRight(b, 4);
    assert ShiftRight(b, 4) == ShiftRight(b / 2, 3) == ShiftRight(c, 2);
    assert ShiftRight(c, 2) == ShiftRight(c / 2, 1) == ShiftRight(c / 2 / 2, 0);
  }

  /** A byte with bit `k` written. */
  function ByteWith(x: byte, k: nat, on: bool): (r: byte)
    requires k < 8
    ensures forall j: nat :: NatBit(r, j) == if j == k then on else NatBit(x, j)
  {
    ByteWidth(x); ByteWidth(NatPut(x, k, on)); NatPutWidth(x, k, on, 8);
    assert forall j: nat :: NatBit(NatPut(x, k, on), j) == (if j == k then on else NatBit(x, j)) by {
      forall j: nat ensures NatBit(NatPut(x, k, on), j) == if j == k then on else NatBit(x, j) {
        NatPutBit(x, k, on, j);
      }
    }
    NatPut(x, k, on)
  }

  predicate TestBit(b: seq<byte>, i: nat)
    requires i < 8 * |b|
  {
    NatBit(b[i / 8], i % 8)
  }

  /** The value of every bit of a byte. */
  const BIT_VALUE: seq<nat> := [1, 2, 4, 8, 16, 32, 64, 128]

  lemma {:induction false} NatBitIs(x: nat, k: nat)
    requires k < 8
    ensures NatBit(x, k) <==> x / BIT_VALUE[k] % 2 == 1
  {
    if k > 0 {
      NatBitIs(x / 2, k - 1);
      assert x / 2 / BIT_VALUE[k - 1] == x / BIT_VALUE[k];
    }
  }

  /** Bit `8 * q + k` is the bit of value two to the `k` of byte `q`. */
  lemma BitByValue(b: seq<byte>, q: nat, k: nat)
    requires q < |b| && k < 8
    ensures TestBit(b, 8 * q + k) <==> b[q] / BIT_VALUE[k] % 2 == 1
  {
    NatBitIs(b[q], k);
    assert (8 * q + k) / 8 == q && (8 * q + k) % 8 == k;
  }

  function SetBit(b: seq<byte>, i: nat): (r: seq<byte>)
    requires i < 8 * |b|
    ensures |r| == |b|
    ensures forall j: nat :: j < 8 * |b| ==> (TestBit(r, j) <==> j == i || TestBit(b, j))
  {
    b[i / 8 := ByteWith(b[i / 8], i % 8, true)]
  }

  function ClearBit(b: seq<byte>, i: nat): (r: seq<byte>)
    requires i < 8 * |b|
    ensures |r| == |b|
    ensures forall j: nat :: j < 8 * |b| ==> (TestBit(r, j) <==> j != i && TestBit(b, j))
  {
    b[i / 8 := ByteWith(b[i / 8], i % 8, false)]
  }

  /** How many of the first `n` bits are clear. */
  function ClearCount(b: seq<byte>, n: nat): (c: nat)
    requires n <= 8 * |b|
    ensures c <= n
  {
    if n == 0 then 0 else ClearCount(b, n - 1) + (if TestBit(b, n - 1) then 0 else 1)
  }

  lemma {:induction false} ClearCountSame(b: seq<byte>, c: seq<byte>, n: nat)
    requires n <= 8 * |b| && |b| == |c|
    requires forall j: nat :: j < n ==> (TestBit(b, j) <==> TestBit(c, j))
    ensures ClearCount(b, n) == ClearCount(c, n)
  {
    if n > 0 { ClearCountSame(b, c, n - 1); }
  }

  /** Setting a clear bit takes one from the count. */
  lemma {:induction false} ClearCountSet(b: seq<byte>, i: nat, n: nat)
    requires i < n <= 8 * |b| && !TestBit(b, i)
    ensures ClearCount(SetBit(b, i), n) == ClearCount(b, n) - 1
  {
    if i == n - 1 {
      ClearCountSame(b, SetBit(b, i), n - 1);
    } else {
      ClearCountSet(b, i, n - 1);
    }
  }

  /** Clearing a set bit gives one back. */
  lemma {:induction false} ClearCountClear(b: seq<byte>, i: nat, n: nat)
    requires i < n <= 8 * |b| && TestBit(b, i)
    ensures ClearCount(ClearBit(b, i), n) == ClearCount(b, n) + 1
  {
    if i == n - 1 {
      ClearCountSame(b, ClearBit(b, i), n - 1);
    } else {
      ClearCountClear(b, i, n - 1);
    }
  }

  /** A positive count means there is a clear bit to find. */
  lemma {:induction false} ClearCountPositive(b: seq<byte>, n: nat) returns (i: nat)
    requires n <= 8 * |b| && ClearCount(b, n) > 0
    ensures i < n && !TestBit(b, i)
  {
    if TestBit(b, n - 1) {
      i := ClearCountPositive(b, n - 1);
    } else {
      i := n - 1;
    }
  }

  lemma {:induction false} ClearCountZero(b: seq<byte>, n: nat, i: nat)
    requires i < n <= 8 * |b| && ClearCount(b, n) == 0
    ensures TestBit(b, i)
  {
    if i < n - 1 { ClearCountZero(b, n - 1, i); }
  }
}
