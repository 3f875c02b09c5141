/** The kernel heap: a first-fit allocator over a doubly linked chain of headers in memory. */
module KernelHeap {

  import opened Arith

  const NULL := 0
  const PAGE := 4096
  /** `sizeof(kheap_item_t)` */
  const HEADER := 32
  const INIT_SIZE := 8192000

  /** A header as it lies in memory; addresses stand for pointers. */
  datatype Item = Item(next: nat, prev: nat, size: nat, free: bool)

  /** One link of the chain, seen from outside: where it is, how many bytes follow its header. */
  datatype Block = Block(at: nat, size: nat, free: bool)

  /** `align`: rounds up, and never below the alignment itself. */
  function Align(v: nat, alignment: nat): (r: nat)
    requires alignment > 0
    ensures r >= v && r >= alignment
  {
    if v < alignment then alignment
    else if v % alignment != 0 then v + (alignment - v % alignment)
    else v
  }

  /** A multiple, written out. */
  lemma MultipleIs(m: nat, a: nat)
    requires a > 0
    ensures m == Times(a, m / a) + m % a
  {
    SplitTimes(m, a);
    QuotRemIs(m, a);
  }

  lemma Multiples(m: nat, r: nat, a: nat)
    requires a > 0 && m % a == 0 && r % a == 0 && m < r
    ensures m + a <= r
  {
    var p, q := m / a, r / a;
    MultipleIs(m, a);
    MultipleIs(r, a);
    if q <= p { TimesMono(a, q, p); } else { TimesMono(a, p + 1, q); TimesNext(a, p); }
  }

  lemma RoundedUp(v: nat, a: nat)
    requires a > 0
    ensures (v + (a - v % a)) % a == 0
  {
    MultipleIs(v, a);
    TimesNext(a, v / a);
    QuotRemAt(a, v / a + 1, 0);
    QuotRemIs(v + (a - v % a), a);
  }

  /** The result is the least positive multiple of the alignment that is not below the value. */
  lemma AlignLeast(v: nat, alignment: nat, m: nat)
    requires alignment > 0
    ensures Align(v, alignment) % alignment == 0 && Align(v, alignment) > 0
    ensures m > 0 && m >= v && m % alignment == 0 ==> m >= Align(v, alignment)
  {
    RoundedUp(v, alignment);
    QuotRemAt(alignment, 1, 0);
    QuotRemIs(alignment, alignment);
    if m < Align(v, alignment) && m >= v && m % alignment == 0 { Multiples(m, Align(v, alignment), alignment); }
  }

  function EndOf(b: Block): nat {
    b.at + HEADER + b.size
  }

  // ----- the chain as a list

  ghost predicate Adjoins(bs: seq<Block>, i: nat)
    requires i + 1 < |bs|
  {
    bs[i + 1].at == EndOf(bs[i])
  }

  /** Each block starts where the one before it ends. */
  ghost predicate Tiles(bs: seq<Block>) {
    && |bs| > 0
    && bs[0].at > 0
    && forall i: nat {:trigger Adjoins(bs, i)} :: i + 1 < |bs| ==> Adjoins(bs, i)
  }

  ghost predicate NotBothFree(bs: seq<Block>, i: nat)
    requires i + 1 < |bs|
  {
    !(bs[i].free && bs[i + 1].free)
  }

  ghost predicate NoFreeNeighbours(bs: seq<Block>) {
    forall i: nat {:trigger NotBothFree(bs, i)} :: i + 1 < |bs| ==> NotBothFree(bs, i)
  }

  lemma {:induction false} TilesOrder(bs: seq<Block>, i: nat, j: nat)
    requires Tiles(bs) && i < j < |bs|
    ensures EndOf(bs[i]) <= bs[j].at
    decreases j
  {
    assert Adjoins(bs, j - 1);
    if i < j - 1 { TilesOrder(bs, i, j - 1); }
  }

  lemma TilesDistinct(bs: seq<Block>)
    requires Tiles(bs)
    ensures forall i, j :: 0 <= i < |bs| && 0 <= j < |bs| && bs[i].at == bs[j].at ==> i == j
    ensures forall i :: 0 <= i < |bs| ==> bs[i].at > 0
  {
    forall i, j | 0 <= i < |bs| && 0 <= j < |bs| && bs[i].at == bs[j].at ensures i == j {
      if i < j { TilesOrder(bs, i, j); } else if j < i { TilesOrder(bs, j, i); }
    }
    forall i | 0 <= i < |bs| ensures bs[i].at > 0 {
      if i > 0 { TilesOrder(bs, 0, i); }
    }
  }

  function LinkTo(bs: seq<Block>, i: int): nat {
    if 0 <= i < |bs| then bs[i].at else NULL
  }

  /** The header that block `i` must have in memory. */
  function HeaderOf(bs: seq<Block>, i: nat): Item
    requires i < |bs|
  {
    Item(LinkTo(bs, i + 1), LinkTo(bs, i - 1), bs[i].size, bs[i].free)
  }

  ghost predicate HeldAt(mem: map<nat, Item>, bs: seq<Block>, i: nat)
    requires i < |bs|
  {
    bs[i].at in mem && mem[bs[i].at] == HeaderOf(bs, i)
  }

  /** Memory holds the chain. Headers that were merged away may still lie about. */
  ghost predicate InMemory(mem: map<nat, Item>, bs: seq<Block>) {
    forall i: nat {:trigger HeldAt(mem, bs, i)} :: i < |bs| ==> HeldAt(mem, bs, i)
  }

  /** No header changes its mark, also those that no longer head a block. */
  ghost predicate FlagsKept(mem: map<nat, Item>, mem': map<nat, Item>) {
    forall a :: a in mem ==> a in mem' && mem'[a].free == mem[a].free
  }

  // ----- the three changes to the list

  /** Block `i` cut after `size` bytes: the front part is handed out, the rest is a free block. */
  function Split(bs: seq<Block>, i: nat, size: nat): seq<Block>
    requires i < |bs| && size + HEADER <= bs[i].size
  {
    bs[..i] + [Block(bs[i].at, size, false), Block(bs[i].at + HEADER + size, bs[i].size - size - HEADER, true)] + bs[i + 1..]
  }

  /** Block `i` swallows its successor, header included. */
  function Merge(bs: seq<Block>, i: nat): seq<Block>
    requires i + 1 < |bs|
  {
    bs[..i] + [Block(bs[i].at, bs[i].size + bs[i + 1].size + HEADER, bs[i].free)] + bs[i + 2..]
  }

  lemma SplitTiles(bs: seq<Block>, i: nat, size: nat)
    requires Tiles(bs) && i < |bs| && size + HEADER <= bs[i].size
    ensures Tiles(Split(bs, i, size)) && EndOf(Split(bs, i, size)[|bs|]) == EndOf(bs[|bs| - 1])
    ensures NoFreeNeighbours(bs) && bs[i].free ==> NoFreeNeighbours(Split(bs, i, size))
    ensures NoFreeNeighbours(bs) && i == |bs| - 1 ==> NoFreeNeighbours(Split(bs, i, size))
  {
    var r := Split(bs, i, size);
    assert forall k :: 0 <= k < i ==> r[k] == bs[k];
    assert forall k :: i + 2 <= k < |r| ==> r[k] == bs[k - 1];
    forall k: nat | k + 1 < |r| ensures Adjoins(r, k) {
      if k > i { assert Adjoins(bs, k - 1); }
      if k < i { assert Adjoins(bs, k); }
    }
    if NoFreeNeighbours(bs) && (bs[i].free || i == |bs| - 1) {
      forall k: nat | k + 1 < |r| ensures NotBothFree(r, k) {
        if k > i { assert NotBothFree(bs, k - 1); }
        if k < i { assert NotBothFree(bs, k); }
      }
    }
  }

  lemma MergeTiles(bs: seq<Block>, i: nat)
    requires Tiles(bs) && i + 1 < |bs|
    ensures Tiles(Merge(bs, i)) && EndOf(Merge(bs, i)[|bs| - 2]) == EndOf(bs[|bs| - 1])
  {
    var r := Merge(bs, i);
    assert forall k :: 0 <= k < i ==> r[k] == bs[k];
    assert forall k :: i + 1 <= k < |r| ==> r[k] == bs[k + 1];
    assert Adjoins(bs, i);
    forall k: nat | k + 1 < |r| ensures Adjoins(r, k) {
      if k >= i { assert Adjoins(bs, k + 1); }
      if k < i { assert Adjoins(bs, k); }
    }
  }

  // ----- who owns what

  ghost predicate Handed(bs: seq<Block>, live: map<nat, nat>, i: nat)
    requires i < |bs|
  {
    !bs[i].free ==> bs[i].at + HEADER in live && live[bs[i].at + HEADER] <= bs[i].size
  }

  ghost predicate PayloadOf(bs: seq<Block>, p: nat, i: nat) {
    i < |bs| && !bs[i].free && bs[i].at + HEADER == p
  }

  ghost predicate HasBlock(bs: seq<Block>, p: nat) {
    exists i: nat :: PayloadOf(bs, p, i)
  }

  /** The blocks in use are exactly the payloads handed out, each at least as long as was asked for. */
  ghost predicate Owned(bs: seq<Block>, live: map<nat, nat>) {
    && (forall i: nat {:trigger Handed(bs, live, i)} :: i < |bs| ==> Handed(bs, live, i))
    && (forall p {:trigger HasBlock(bs, p)} :: p in live ==> HasBlock(bs, p))
  }

  /** Payloads handed out do not overlap. */
  lemma LiveDisjoint(bs: seq<Block>, live: map<nat, nat>, p: nat, q: nat)
    requires Tiles(bs) && Owned(bs, live) && p in live && q in live && p < q
    ensures p + live[p] <= q
  {
    assert HasBlock(bs, p) && HasBlock(bs, q);
    var i: nat :| PayloadOf(bs, p, i);
    var j: nat :| PayloadOf(bs, q, j);
    assert Handed(bs, live, i);
    if j < i { TilesOrder(bs, j, i); } else if i < j { TilesOrder(bs, i, j); }
  }

  /** When nothing is handed out, all has been merged back into one block. */
  lemma AllFreeIsOne(bs: seq<Block>, live: map<nat, nat>)
    requires Tiles(bs) && NoFreeNeighbours(bs) && Owned(bs, live) && live == map[]
    ensures |bs| == 1 && bs[0].free
  {
    forall i: nat | i < |bs| ensures bs[i].free { assert Handed(bs, live, i); }
    if |bs| > 1 { OneIsInUse(bs, 0); }
  }

  lemma OneIsInUse(bs: seq<Block>, i: nat)
    requires NoFreeNeighbours(bs) && i + 1 < |bs|
    ensures !bs[i].free || !bs[i + 1].free
  {
    assert NotBothFree(bs, i);
  }

  // ----- rewriting headers

  /** The writes of `kmalloc` when it cuts a block. */
  function SplitHeaders(mem: map<nat, Item>, cur: nat, size: nat): map<nat, Item>
    requires cur in mem && size + HEADER <= mem[cur].size
    requires mem[cur].next != NULL ==> mem[cur].next in mem
  {
    var rest := cur + HEADER + size;
    var next := mem[cur].next;
    var m1 := mem[rest := Item(next, cur, mem[cur].size - (size + HEADER), true)];
    var m2 := if next != NULL then m1[next := mem[next].(prev := rest)] else m1;
    m2[cur := Item(rest, mem[cur].prev, size, false)]
  }

  lemma SplitAt(bs: seq<Block>, i: nat, size: nat)
    requires i < |bs| && size + HEADER <= bs[i].size
    ensures var r := Split(bs, i, size);
            && |r| == |bs| + 1
            && (forall k :: 0 <= k < i ==> r[k] == bs[k])
            && r[i] == Block(bs[i].at, size, false)
            && r[i + 1] == Block(bs[i].at + HEADER + size, bs[i].size - size - HEADER, true)
            && (forall k {:trigger r[k]} :: i + 2 <= k < |r| ==> r[k] == bs[k - 1])
  {
  }

  lemma SplitHeldAt(mem: map<nat, Item>, bs: seq<Block>, i: nat, size: nat, k: nat)
    requires Tiles(bs) && InMemory(mem, bs) && i < |bs| && size + HEADER <= bs[i].size && k <= |bs|
    requires bs[i].at in mem && mem[bs[i].at].size == bs[i].size
    requires mem[bs[i].at].next != NULL ==> mem[bs[i].at].next in mem
    requires Tiles(Split(bs, i, size))
    ensures k < |Split(bs, i, size)| && HeldAt(SplitHeaders(mem, bs[i].at, size), Split(bs, i, size), k)
  {
    SplitAt(bs, i, size);
    TilesDistinct(bs);
    TilesDistinct(Split(bs, i, size));
    hide Split, Tiles;
    assert HeldAt(mem, bs, i);
    if i + 1 < |bs| { assert HeldAt(mem, bs, i + 1); }
    if k < i { assert HeldAt(mem, bs, k); }
    if k > i + 1 { assert HeldAt(mem, bs, k - 1); }
  }

  lemma SplitInMemory(mem: map<nat, Item>, bs: seq<Block>, i: nat, size: nat)
    requires Tiles(bs) && InMemory(mem, bs) && i < |bs| && size + HEADER <= bs[i].size
    ensures bs[i].at in mem && mem[bs[i].at].size == bs[i].size
    ensures mem[bs[i].at].next == LinkTo(bs, i + 1)
    ensures mem[bs[i].at].next != NULL ==> mem[bs[i].at].next in mem
    ensures InMemory(SplitHeaders(mem, bs[i].at, size), Split(bs, i, size))
  {
    SplitTiles(bs, i, size);
    SplitAt(bs, i, size);
    assert HeldAt(mem, bs, i);
    if i + 1 < |bs| { assert HeldAt(mem, bs, i + 1); }
    hide Split, Tiles, HeldAt, SplitHeaders;
    forall k: nat | k <= |bs| ensures HeldAt(SplitHeaders(mem, bs[i].at, size), Split(bs, i, size), k) {
      SplitHeldAt(mem, bs, i, size, k);
    }
  }

  /** The writes of `combine_forward` when it joins a block with its successor. */
  function MergeHeaders(mem: map<nat, Item>, cur: nat): map<nat, Item>
    requires cur in mem && mem[cur].next in mem
    requires mem[mem[cur].next].next != NULL ==> mem[mem[cur].next].next in mem
  {
    var next := mem[cur].next;
    var beyond := mem[next].next;
    var m1 := if beyond != NULL then mem[beyond := mem[beyond].(prev := cur)] else mem;
    m1[cur := Item(beyond, mem[cur].prev, mem[cur].size + mem[next].size + HEADER, mem[cur].free)]
  }

  lemma MergeAt(bs: seq<Block>, i: nat)
    requires i + 1 < |bs|
    ensures var r := Merge(bs, i);
            && |r| == |bs| - 1
            && (forall k :: 0 <= k < i ==> r[k] == bs[k])
            && r[i] == Block(bs[i].at, bs[i].size + bs[i + 1].size + HEADER, bs[i].free)
            && (forall k {:trigger r[k]} :: i + 1 <= k < |r| ==> r[k] == bs[k + 1])
  {
  }

  lemma LinkAfterMerge(bs: seq<Block>, i: nat, j: int)
    requires i + 1 < |bs|
    ensures LinkTo(Merge(bs, i), j) == if j <= i then LinkTo(bs, j) else LinkTo(bs, j + 1)
  {
    MergeAt(bs, i);
    hide Merge;
  }

  lemma BlocksApart(bs: seq<Block>, i: nat, j: nat)
    requires Tiles(bs) && i < |bs| && j < |bs|
    ensures bs[i].at > 0 && (bs[i].at == bs[j].at <==> i == j)
  {
    hide Tiles;
    TilesDistinct(bs);
  }

  /** One header after the writes of a merge. */
  lemma MergeHeldAt(mem: map<nat, Item>, bs: seq<Block>, i: nat, k: nat)
    requires Tiles(bs) && InMemory(mem, bs) && i + 1 < |bs| && k < |bs| - 1
    requires HeldAt(mem, bs, i) && HeldAt(mem, bs, i + 1) && (i + 2 < |bs| ==> HeldAt(mem, bs, i + 2))
    ensures |Merge(bs, i)| == |bs| - 1 && HeldAt(MergeHeaders(mem, bs[i].at), Merge(bs, i), k)
  {
    hide Merge, Tiles, InMemory;
    MergeAt(bs, i);
    var from := if k <= i then k else k + 1;
    HeldBy(mem, bs, from);
    LinkAfterMerge(bs, i, k - 1);
    LinkAfterMerge(bs, i, k + 1);
    BlocksApart(bs, i, from);
    BlocksApart(bs, i + 1, from);
    if i + 2 < |bs| { BlocksApart(bs, i + 2, from); BlocksApart(bs, i + 2, i); }
  }

  lemma HeldBy(mem: map<nat, Item>, bs: seq<Block>, k: nat)
    requires InMemory(mem, bs) && k < |bs|
    ensures HeldAt(mem, bs, k)
  {
  }

  lemma MergeInMemory(mem: map<nat, Item>, bs: seq<Block>, i: nat)
    requires Tiles(bs) && InMemory(mem, bs) && i + 1 < |bs|
    ensures bs[i].at in mem && mem[bs[i].at].next == bs[i + 1].at && bs[i + 1].at in mem
    ensures mem[bs[i + 1].at] == HeaderOf(bs, i + 1)
    ensures LinkTo(bs, i + 2) != NULL ==> LinkTo(bs, i + 2) in mem
    ensures InMemory(MergeHeaders(mem, bs[i].at), Merge(bs, i))
  {
    hide Merge, Tiles;
    assert HeldAt(mem, bs, i) && HeldAt(mem, bs, i + 1);
    if i + 2 < |bs| { assert HeldAt(mem, bs, i + 2); }
    var m := MergeHeaders(mem, bs[i].at);
    MergeAt(bs, i);
    if i + 2 < |bs| { BlocksApart(bs, i + 2, i); }
    BlocksApart(bs, i + 1, i);
    forall k: nat | k < |Merge(bs, i)| ensures HeldAt(m, Merge(bs, i), k) {
      MergeHeldAt(mem, bs, i, k);
    }
  }

  /** Writing the size and the free bit of one header. */
  lemma SetInMemory(mem: map<nat, Item>, bs: seq<Block>, i: nat, size: nat, free: bool)
    requires Tiles(bs) && InMemory(mem, bs) && i < |bs|
    ensures bs[i].at in mem
    ensures InMemory(mem[bs[i].at := mem[bs[i].at].(size := size, free := free)], bs[i := Block(bs[i].at, size, free)])
  {
    TilesDistinct(bs);
    assert HeldAt(mem, bs, i);
    var r := bs[i := Block(bs[i].at, size, free)];
    var m := mem[bs[i].at := mem[bs[i].at].(size := size, free := free)];
    forall k: nat | k < |r| ensures HeldAt(m, r, k) { assert HeldAt(mem, bs, k); }
  }

  /** `i` is the first block that is free and long enough. */
  ghost predicate FirstFit(bs: seq<Block>, size: nat, i: nat) {
    i < |bs| && bs[i].free && bs[i].size >= size && NoneFits(bs[..i], size)
  }

  ghost predicate NoneFits(bs: seq<Block>, size: nat) {
    forall i :: 0 <= i < |bs| ==> !(bs[i].free && bs[i].size >= size)
  }

  /** The free block at an address is long enough, and there is none at a lower address. */
  ghost predicate LowestFit(bs: seq<Block>, size: nat, at: nat) {
    && (exists b :: b in bs && b.at == at && b.free && b.size >= size)
    && (forall b :: b in bs && b.free && b.size >= size ==> at <= b.at)
  }

  lemma FirstIsLowest(bs: seq<Block>, size: nat, i: nat)
    requires Tiles(bs) && FirstFit(bs, size, i)
    ensures LowestFit(bs, size, bs[i].at)
  {
    assert bs[i] in bs;
    assert forall k :: 0 <= k < i ==> bs[..i][k] == bs[k];
    forall b | b in bs && b.free && b.size >= size ensures bs[i].at <= b.at {
      var k :| 0 <= k < |bs| && bs[k] == b;
      if k > i { TilesOrder(bs, i, k); }
    }
  }

  /** Block `i` handed out with `size` bytes: cut when enough would be left over. */
  function Allocate(bs: seq<Block>, i: nat, size: nat): seq<Block>
    requires i < |bs| && size + HEADER <= bs[i].size
  {
    if bs[i].size > size + HEADER + 8 then Split(bs, i, size) else bs[i := Block(bs[i].at, bs[i].size, false)]
  }

  lemma AllocateKeeps(bs: seq<Block>, i: nat, size: nat)
    requires Tiles(bs) && NoFreeNeighbours(bs) && i < |bs| && size + HEADER <= bs[i].size
    requires bs[i].free || i == |bs| - 1
    ensures var r := Allocate(bs, i, size);
            && Tiles(r) && NoFreeNeighbours(r) && r[0].at == bs[0].at && EndOf(r[|r| - 1]) == EndOf(bs[|bs| - 1])
            && i < |r| && r[i].at == bs[i].at
  {
    var r := Allocate(bs, i, size);
    if bs[i].size > size + HEADER + 8 {
      SplitTiles(bs, i, size);
      SplitAt(bs, i, size);
    } else {
      forall k: nat | k + 1 < |r| ensures Adjoins(r, k) && NotBothFree(r, k) {
        assert Adjoins(bs, k) && NotBothFree(bs, k);
      }
    }
  }

  lemma AllocateOwned(bs: seq<Block>, live: map<nat, nat>, i: nat, size: nat, asked: nat)
    requires Tiles(bs) && Owned(bs, live) && i < |bs| && size + HEADER <= bs[i].size && asked <= size
    ensures Owned(Allocate(bs, i, size), live[bs[i].at + HEADER := asked])
    ensures bs[i].at + HEADER in live <==> !bs[i].free
  {
    TilesDistinct(bs);
    var r, live' := Allocate(bs, i, size), live[bs[i].at + HEADER := asked];
    var cut := bs[i].size > size + HEADER + 8;
    if cut { SplitAt(bs, i, size); }
    forall k: nat | k < |r| ensures Handed(r, live', k) {
      if k < i { assert Handed(bs, live, k); }
      if k > i { assert Handed(bs, live, if cut && k > i + 1 then k - 1 else k - if cut then 1 else 0); }
    }
    forall p | p in live' ensures HasBlock(r, p) {
      if p == bs[i].at + HEADER {
        assert PayloadOf(r, p, i);
      } else {
        assert HasBlock(bs, p);
        var k: nat :| PayloadOf(bs, p, k);
        assert PayloadOf(r, p, if cut && k > i then k + 1 else k);
      }
    }
    assert Handed(bs, live, i);
    if bs[i].at + HEADER in live {
      assert HasBlock(bs, bs[i].at + HEADER);
    }
  }

  /** How the last block comes to be in use: it is handed out with at most 8 bytes to spare. */
  lemma TailInUse(bs: seq<Block>, i: nat, size: nat)
    requires i < |bs| && size + HEADER <= bs[i].size
    ensures var r := Allocate(bs, i, size);
            !r[|r| - 1].free <==> if i == |bs| - 1 then bs[i].size <= size + HEADER + 8 else !bs[|bs| - 1].free
  {
    if bs[i].size > size + HEADER + 8 {
      SplitAt(bs, i, size);
      hide Split;
      var r := Split(bs, i, size);
      assert r[|r| - 1] == if i == |bs| - 1 then r[i + 1] else bs[|bs| - 1];
    }
  }

  /** Whichever block is handed out, it has what was asked for and at most 40 bytes more; the rest is a free block behind
      it if there is a rest. */
  lemma AllocateTight(bs: seq<Block>, i: nat, size: nat)
    requires i < |bs| && size + HEADER <= bs[i].size
    ensures var r := Allocate(bs, i, size);
            && i < |r| && r[i].at == bs[i].at && !r[i].free && size <= r[i].size <= size + 40
            && (r[i].size == size ==> i + 1 < |r| && r[i + 1] == Block(bs[i].at + 32 + size, bs[i].size - size - 32, true))
  {
    if bs[i].size > size + HEADER + 8 { SplitAt(bs, i, size); }
  }

  /** The blocks in use are the same, except perhaps for the one at an address. */
  ghost predicate UsedKept(bs: seq<Block>, r: seq<Block>, at: nat) {
    forall b: Block {:trigger b in r} {:trigger b in bs} :: b.at != at && !b.free ==> (b in r <==> b in bs)
  }

  lemma AllocateUsed(bs: seq<Block>, i: nat, size: nat)
    requires i < |bs| && size + HEADER <= bs[i].size
    ensures UsedKept(bs, Allocate(bs, i, size), bs[i].at)
  {
    var r := Allocate(bs, i, size);
    var cut := bs[i].size > size + HEADER + 8;
    if cut { SplitAt(bs, i, size); }
    hide Split;
    forall b: Block | b.at != bs[i].at && !b.free ensures b in r <==> b in bs {
      if b in bs {
        var k :| 0 <= k < |bs| && bs[k] == b;
        assert r[if cut && k > i then k + 1 else k] == b;
      }
      if b in r {
        var k :| 0 <= k < |r| && r[k] == b;
        assert bs[if cut && k > i then k - 1 else k] == b;
      }
    }
  }

  lemma LongerUsed(bs: seq<Block>, n: nat)
    requires |bs| > 0
    ensures UsedKept(bs, Longer(bs, n), bs[|bs| - 1].at)
  {
    var r := Longer(bs, n);
    forall b: Block | b.at != bs[|bs| - 1].at && !b.free ensures b in r <==> b in bs {
      if b in bs { var k :| 0 <= k < |bs| && bs[k] == b; assert r[k] == b; }
      if b in r { var k :| 0 <= k < |r| && r[k] == b; assert bs[k] == b; }
    }
  }

  /** The last block made longer. */
  function Longer(bs: seq<Block>, n: nat): seq<Block>
    requires |bs| > 0
  {
    bs[|bs| - 1 := bs[|bs| - 1].(size := bs[|bs| - 1].size + n)]
  }

  lemma LongerKeeps(bs: seq<Block>, live: map<nat, nat>, n: nat)
    requires Tiles(bs) && NoFreeNeighbours(bs) && Owned(bs, live)
    ensures Tiles(Longer(bs, n)) && NoFreeNeighbours(Longer(bs, n)) && Owned(Longer(bs, n), live)
  {
    var r := Longer(bs, n);
    forall k: nat | k + 1 < |r| ensures Adjoins(r, k) && NotBothFree(r, k) {
      assert Adjoins(bs, k) && NotBothFree(bs, k);
    }
    forall k: nat | k < |r| ensures Handed(r, live, k) { assert Handed(bs, live, k); }
    forall p | p in live ensures HasBlock(r, p) {
      assert HasBlock(bs, p);
      var k: nat :| PayloadOf(bs, p, k);
      assert PayloadOf(r, p, k);
    }
  }

  // ----- giving a block back

  /** Block `i` together with its successor, when both are free. */
  function Joined(bs: seq<Block>, i: nat): seq<Block>
    requires i < |bs|
  {
    if bs[i].free && i + 1 < |bs| && bs[i + 1].free then Merge(bs, i) else bs
  }

  function Freed(bs: seq<Block>, i: nat): seq<Block>
    requires i < |bs|
  {
    var forward := Joined(bs[i := bs[i].(free := true)], i);
    if i == 0 then forward else Joined(forward, i - 1)
  }

  /** Joining keeps the first `i` blocks and where block `i` starts. */
  lemma JoinedAt(bs: seq<Block>, i: nat)
    requires i < |bs|
    ensures i < |Joined(bs, i)| <= |bs| && Joined(bs, i)[i].at == bs[i].at && Joined(bs, i)[i].free == bs[i].free
    ensures forall k {:trigger Joined(bs, i)[k]} :: 0 <= k < i ==> Joined(bs, i)[k] == bs[k]
  {
    if bs[i].free && i + 1 < |bs| && bs[i + 1].free { MergeAt(bs, i); }
  }

  lemma JoinedUsed(bs: seq<Block>, i: nat, at: nat)
    requires i < |bs|
    ensures UsedKept(bs, Joined(bs, i), at)
  {
    if bs[i].free && i + 1 < |bs| && bs[i + 1].free {
      MergeAt(bs, i);
      hide Merge;
      var r := Merge(bs, i);
      forall b: Block | b.at != at && !b.free ensures b in r <==> b in bs {
        if b in bs {
          var k :| 0 <= k < |bs| && bs[k] == b;
          assert r[if k > i then k - 1 else k] == b;
        }
        if b in r {
          var k :| 0 <= k < |r| && r[k] == b;
          assert bs[if k > i then k + 1 else k] == b;
        }
      }
    }
  }

  lemma FreedUsed(bs: seq<Block>, i: nat)
    requires i < |bs|
    ensures UsedKept(bs, Freed(bs, i), bs[i].at)
  {
    hide Joined;
    var at := bs[i].at;
    var marked := bs[i := bs[i].(free := true)];
    forall b: Block | b.at != at && !b.free ensures b in marked <==> b in bs {
      if b in bs { var k :| 0 <= k < |bs| && bs[k] == b; assert marked[k] == b; }
      if b in marked { var k :| 0 <= k < |marked| && marked[k] == b; assert bs[k] == b; }
    }
    JoinedAt(marked, i);
    JoinedUsed(marked, i, at);
    if i > 0 { JoinedUsed(Joined(marked, i), i - 1, at); }
  }

  lemma SetTiles(bs: seq<Block>, i: nat)
    requires Tiles(bs) && i < |bs|
    ensures Tiles(bs[i := bs[i].(free := true)])
  {
    var r := bs[i := bs[i].(free := true)];
    forall k: nat | k + 1 < |r| ensures Adjoins(r, k) { assert Adjoins(bs, k); }
  }

  /** Only the pair (`i`, `i + 1`) and the pair before it may both be free. */
  ghost predicate NoFreeNeighboursBut(bs: seq<Block>, i: int, j: int) {
    forall k: nat {:trigger NotBothFree(bs, k)} :: k + 1 < |bs| && k != i && k != j ==> NotBothFree(bs, k)
  }

  lemma JoinedNeighbours(bs: seq<Block>, i: nat, j: int)
    requires i < |bs| && bs[i].free && NoFreeNeighboursBut(bs, i, j) && j < i
    requires i + 1 < |bs| && bs[i + 1].free ==> i + 2 < |bs| ==> !bs[i + 2].free
    ensures NoFreeNeighboursBut(Joined(bs, i), j, j)
  {
    var r := Joined(bs, i);
    if i + 1 < |bs| && bs[i + 1].free {
      MergeAt(bs, i);
      forall k: nat | k + 1 < |r| && k != j ensures NotBothFree(r, k) {
        if k < i { assert NotBothFree(bs, k); }
        if k > i { assert NotBothFree(bs, k + 1); }
      }
    } else {
      forall k: nat | k + 1 < |r| && k != j ensures NotBothFree(r, k) {
        if k != i { assert NotBothFree(bs, k); }
      }
    }
  }

  lemma FreedNeighbours(bs: seq<Block>, i: nat)
    requires NoFreeNeighbours(bs) && i < |bs| && !bs[i].free
    ensures NoFreeNeighbours(Freed(bs, i))
  {
    var b1 := bs[i := bs[i].(free := true)];
    forall k: nat | k + 1 < |b1| && k != i && k != i - 1 ensures NotBothFree(b1, k) { assert NotBothFree(bs, k); }
    if i + 2 < |bs| { assert NotBothFree(bs, i + 1); }
    JoinedNeighbours(b1, i, i - 1);
    var b2 := Joined(b1, i);
    JoinedAt(b1, i);
    if i > 0 {
      if b2[i - 1].free {
        if i + 1 < |b2| {
          assert NotBothFree(b2, i);
        }
        JoinedNeighbours(b2, i - 1, -1);
      } else {
        forall k: nat | k + 1 < |b2| ensures NotBothFree(b2, k) {
          if k != i - 1 { assert NotBothFree(b2, k); }
        }
      }
    }
  }

  lemma JoinedOwned(bs: seq<Block>, live: map<nat, nat>, i: nat)
    requires i < |bs| && Owned(bs, live)
    ensures Owned(Joined(bs, i), live)
  {
    var r := Joined(bs, i);
    if bs[i].free && i + 1 < |bs| && bs[i + 1].free {
      MergeAt(bs, i);
      forall k: nat | k < |r| ensures Handed(r, live, k) {
        if k < i { assert Handed(bs, live, k); }
        if k > i { assert Handed(bs, live, k + 1); }
      }
      forall p | p in live ensures HasBlock(r, p) {
        assert HasBlock(bs, p);
        var k: nat :| PayloadOf(bs, p, k);
        assert PayloadOf(r, p, if k < i then k else k - 1);
      }
    }
  }

  lemma ReleasedOwned(bs: seq<Block>, live: map<nat, nat>, i: nat)
    requires Tiles(bs) && Owned(bs, live) && i < |bs|
    ensures Owned(bs[i := bs[i].(free := true)], live - {bs[i].at + HEADER})
  {
    TilesDistinct(bs);
    hide Tiles;
    var b1, live' := bs[i := bs[i].(free := true)], live - {bs[i].at + HEADER};
    forall k: nat | k < |b1| ensures Handed(b1, live', k) { assert Handed(bs, live, k); }
    forall p | p in live' ensures HasBlock(b1, p) {
      assert HasBlock(bs, p);
      var k: nat :| PayloadOf(bs, p, k);
      assert PayloadOf(b1, p, k);
    }
  }

  lemma FreedKeeps(bs: seq<Block>, live: map<nat, nat>, i: nat)
    requires Tiles(bs) && NoFreeNeighbours(bs) && Owned(bs, live) && i < |bs|
    ensures !bs[i].free ==> NoFreeNeighbours(Freed(bs, i)) && Owned(Freed(bs, i), live - {bs[i].at + HEADER})
  {
    hide Tiles, NoFreeNeighbours, Owned, Joined;
    if !bs[i].free {
      FreedNeighbours(bs, i);
      var b1, live' := bs[i := bs[i].(free := true)], live - {bs[i].at + HEADER};
      ReleasedOwned(bs, live, i);
      JoinedOwned(b1, live', i);
      if i > 0 { JoinedAt(b1, i); JoinedOwned(Joined(b1, i), live', i - 1); }
    }
  }

  lemma BelowHeap(bs: seq<Block>, live: map<nat, nat>, p: nat)
    requires Tiles(bs) && Owned(bs, live) && p < bs[0].at
    ensures p !in live
  {
    forall k: nat ensures !PayloadOf(bs, p, k) {
      if 0 < k < |bs| { TilesOrder(bs, 0, k); }
    }
    assert !HasBlock(bs, p);
  }

  class Heap {
    var start: nat
    var end: nat
    var head: nat
    var tail: nat
    var mem: map<nat, Item>
    ghost var blocks: seq<Block>
    ghost var live: map<nat, nat>
    /** Bytes mapped by growths that failed partway: they lie behind the chain and belong to no block. */
    ghost var gap: nat

    ghost predicate Shape()
      reads this
    {
      && Tiles(blocks) && InMemory(mem, blocks)
      && head == start == blocks[0].at && tail == blocks[|blocks| - 1].at
      && EndOf(blocks[|blocks| - 1]) + gap == end
    }

    ghost predicate Valid()
      reads this
    {
      Shape() && NoFreeNeighbours(blocks) && Owned(blocks, live)
    }

    /** `kheap_expand`: maps pages one after the other; `pages` is how many the system can still give.
        When they run out the pages mapped so far are kept but the caller is told that nothing came. */
    method Expand(size: nat, pages: nat) returns (got: nat)
      modifies this`end
      ensures var n := Align(size, PAGE) / PAGE;
              if n <= pages then got == n * PAGE >= size && end == old(end) + got
              else got == 0 && end == old(end) + pages * PAGE
      ensures got > 0 <==> Align(size, PAGE) / PAGE <= pages
    {
      var rounded := Align(size, PAGE);
      var n := rounded / PAGE;
      for i := 0 to n
        invariant i <= pages && end == old(end) + i * PAGE
      {
        if i == pages { return 0; }
        end := end + PAGE;
      }
      got := n * PAGE;
      assert rounded % PAGE == 0;
    }

    /** `kheap_init` */
    method Init(startAddr: nat, pages: nat) returns (rc: int)
      requires startAddr > 0
      modifies this
      ensures rc == if pages >= INIT_SIZE / PAGE then 1 else 0
      ensures rc == 1 ==> Valid() && blocks == [Block(startAddr, INIT_SIZE - HEADER, true)] && live == map[] && gap == 0
    {
      start := startAddr;
      end := start;
      var got := Expand(INIT_SIZE, pages);
      if got == 0 { return 0; }
      head := start;
      mem := map[head := Item(NULL, NULL, INIT_SIZE - HEADER, true)];
      tail := head;
      blocks, live, gap := [Block(startAddr, INIT_SIZE - HEADER, true)], map[], 0;
      rc := 1;
    }

    /** The search of `get_suitable_item`; 0 when no block fits. */
    method Search(size: nat) returns (at: nat, ghost i: nat)
      requires Shape()
      ensures at == 0 ==> NoneFits(blocks, size)
      ensures at != 0 ==> FirstFit(blocks, size, i) && at == blocks[i].at
    {
      TilesDistinct(blocks);
      at := head;
      i := 0;
      while at != NULL
        invariant 0 <= i <= |blocks| && at == LinkTo(blocks, i)
        invariant NoneFits(blocks[..i], size)
        decreases |blocks| - i
      {
        assert HeldAt(mem, blocks, i);
        if mem[at].free && mem[at].size >= size { return; }
        assert blocks[..i + 1] == blocks[..i] + [blocks[i]];
        at := mem[at].next;
        i := i + 1;
      }
      assert blocks[..i] == blocks;
    }

    /** `get_suitable_item`: the first fit; otherwise the heap grows and the last block is returned without
        a look at whether it is in use. */
    method GetSuitable(size: nat, pages: nat) returns (at: nat, ghost i: nat)
      requires Valid() && size > 0
      modifies this`end, this`mem, this`blocks, this`gap
      ensures Valid()
      ensures at == 0 <==> NoneFits(old(blocks), size) && Align(size, PAGE) / PAGE > pages
      ensures at == 0 ==> blocks == old(blocks) && gap == old(gap) + pages * PAGE
      ensures at != 0 ==> i < |blocks| && at == blocks[i].at && blocks[i].size >= size && gap == old(gap)
      ensures at != 0 && !NoneFits(old(blocks), size) ==> blocks == old(blocks) && FirstFit(blocks, size, i)
      ensures at != 0 && NoneFits(old(blocks), size) ==>
                i == |blocks| - 1 && blocks == Longer(old(blocks), Align(size, PAGE) / PAGE * PAGE)
    {
      at, i := Search(size);
      if at != NULL {
        TilesDistinct(blocks);
        return;
      }
      var got := Expand(size, pages);
      if got == 0 {
        gap := gap + pages * PAGE;
        return;
      }
      i := |blocks| - 1;
      LongerKeeps(blocks, live, got);
      SetInMemory(mem, blocks, i, blocks[i].size + got, blocks[i].free);
      assert HeldAt(mem, blocks, i);
      mem := mem[tail := mem[tail].(size := mem[tail].size + got)];
      blocks := Longer(blocks, got);
      TilesDistinct(blocks);
      at := tail;
    }

    /** Cuts or marks the chosen block. */
    method HandOut(at: nat, size: nat, ghost i: nat, ghost asked: nat)
      requires Valid() && i < |blocks| && at == blocks[i].at && size + HEADER <= blocks[i].size && asked <= size
      requires blocks[i].free || i == |blocks| - 1
      modifies this`mem, this`tail, this`blocks, this`live
      ensures Valid()
      ensures blocks == Allocate(old(blocks), i, size) && live == old(live)[at + HEADER := asked]
    {
      AllocateKeeps(blocks, i, size);
      AllocateOwned(blocks, live, i, size, asked);
      assert HeldAt(mem, blocks, i);
      TilesDistinct(blocks);
      if mem[at].size > size + HEADER + 8 {
        SplitInMemory(mem, blocks, i, size);
        SplitAt(blocks, i, size);
        if at == tail { tail := at + HEADER + size; }
        mem := SplitHeaders(mem, at, size);
      } else {
        SetInMemory(mem, blocks, i, blocks[i].size, false);
        mem := mem[at := mem[at].(free := false)];
      }
      blocks := Allocate(blocks, i, size);
      live := live[at + HEADER := asked];
    }

    /** `kmalloc`. The pointer is new to its owner except when no block fits and the last block is in use:
        then the growth is added to that block and its payload is handed out a second time. */
    method Kmalloc(size: nat, pages: nat) returns (p: nat, ghost i: nat)
      requires Valid()
      modifies this
      ensures Valid() && start == old(start)
      ensures p != NULL ==>
                var need := Align(size, 8) + HEADER;
                var from := if NoneFits(old(blocks), need) then Longer(old(blocks), Align(need, PAGE) / PAGE * PAGE) else old(blocks);
                && i < |from| && need <= from[i].size && p == from[i].at + HEADER
                && blocks == Allocate(from, i, Align(size, 8))
                && (if NoneFits(old(blocks), need) then i == |from| - 1 else FirstFit(from, need, i))
      ensures var need := Align(size, 8) + HEADER;
              && (p == NULL <==> NoneFits(old(blocks), need) && Align(need, PAGE) / PAGE > pages)
              && (p == NULL ==> blocks == old(blocks) && live == old(live))
              && (p != NULL ==> live == old(live)[p := size])
              && (p != NULL ==> (p in old(live) <==> NoneFits(old(blocks), need) && !old(blocks)[|old(blocks)| - 1].free))
      ensures p != NULL ==> i < |blocks| && !blocks[i].free && p == blocks[i].at + HEADER
      ensures p != NULL ==> Align(size, 8) <= blocks[i].size <= Align(size, 8) + 40
      ensures p != NULL ==> UsedKept(old(blocks), blocks, p - HEADER)
      ensures p != NULL && !NoneFits(old(blocks), Align(size, 8) + HEADER) ==> LowestFit(old(blocks), Align(size, 8) + 32, p - 32)
    {
      var rounded := Align(size, 8);
      var at;
      at, i := GetSuitable(rounded + HEADER, pages);
      if at == NULL { return NULL, 0; }
      AllocateOwned(blocks, live, i, rounded, size);
      AllocateTight(blocks, i, rounded);
      if !NoneFits(old(blocks), rounded + HEADER) { FirstIsLowest(blocks, rounded + HEADER, i); }
      AllocateUsed(blocks, i, rounded);
      if NoneFits(old(blocks), rounded + HEADER) { LongerUsed(old(blocks), Align(rounded + HEADER, PAGE) / PAGE * PAGE); }
      HandOut(at, rounded, i, size);
      p := at + HEADER;
    }

    /** `combine_forward`: joins a free block with its free successor. */
    method CombineForward(at: nat, ghost i: int)
      requires Shape() && -1 <= i < |blocks| && at == LinkTo(blocks, i)
      modifies this`mem, this`tail, this`blocks
      ensures Shape()
      ensures blocks == if i < 0 then old(blocks) else Joined(old(blocks), i)
      ensures FlagsKept(old(mem), mem)
    {
      hide Tiles, Merge;
      TilesDistinct(blocks);
      if at == NULL { return; }
      assert HeldAt(mem, blocks, i);
      if !mem[at].free { return; }
      var next := mem[at].next;
      if next != NULL {
        assert HeldAt(mem, blocks, i + 1);
        if mem[next].free {
          MergeInMemory(mem, blocks, i);
          MergeTiles(blocks, i);
          MergeAt(blocks, i);
          if next == tail { tail := at; }
          mem := MergeHeaders(mem, at);
          blocks := Merge(blocks, i);
        }
      }
    }

    /** The part of `kfree` for a block in use: it becomes free and is joined with its free neighbours. */
    method FreeUsed(at: nat, ghost i: nat)
      requires Valid() && i < |blocks| && at == blocks[i].at && !blocks[i].free
      modifies this`mem, this`tail, this`blocks, this`live
      ensures Valid() && live == old(live) - {at + HEADER} && blocks == Freed(old(blocks), i)
      ensures at in mem && mem[at].free
    {
      TilesDistinct(blocks);
      hide Tiles, NoFreeNeighbours, Owned, Joined;
      assert HeldAt(mem, blocks, i);
      FreedKeeps(blocks, live, i);
      SetInMemory(mem, blocks, i, blocks[i].size, true);
      SetTiles(blocks, i);
      mem := mem[at := mem[at].(free := true)];
      blocks := blocks[i := blocks[i].(free := true)];
      live := live - {at + HEADER};
      CombineForward(at, i);
      JoinedAt(old(blocks)[i := old(blocks)[i].(free := true)], i);
      assert HeldAt(mem, blocks, i);
      CombineForward(mem[at].prev, i - 1);
    }

    /** `kfree`: a block in use becomes free and is joined with its free neighbours; freeing a block that is
        already free changes nothing. Addresses below the heap are ignored. */
    method Kfree(p: nat, heapBase: nat, ghost i: nat)
      requires Valid() && HEADER <= heapBase <= start
      requires p >= heapBase ==> p - HEADER in mem && (mem[p - HEADER].free || (i < |blocks| && p == blocks[i].at + HEADER))
      modifies this`mem, this`tail, this`blocks, this`live
      ensures Valid()
      ensures live == old(live) - {p}
      ensures p < heapBase || old(mem[p - HEADER].free) ==> mem == old(mem) && tail == old(tail) && blocks == old(blocks)
      ensures p >= heapBase && !old(mem[p - HEADER].free) ==> blocks == Freed(old(blocks), i)
      ensures p >= heapBase ==> p - HEADER in mem && mem[p - HEADER].free
      ensures p >= heapBase ==> UsedKept(old(blocks), blocks, p - HEADER)
    {
      if p < heapBase {
        BelowHeap(blocks, live, p);
        return;
      }
      var at := p - HEADER;
      hide Tiles, NoFreeNeighbours, Owned, Freed;
      if !mem[at].free {
        assert HeldAt(mem, blocks, i);
        FreedUsed(blocks, i);
        FreeUsed(at, i);
      } else {
        StaleNotLive(p);
      }
    }

    /** What a header says is free was not handed out, whether or not it still heads a block. */
    lemma StaleNotLive(p: nat)
      requires Valid() && p >= HEADER && p - HEADER in mem && mem[p - HEADER].free
      ensures p !in live
    {
      forall k: nat ensures !PayloadOf(blocks, p, k) {
        if k < |blocks| { assert HeldAt(mem, blocks, k); }
      }
      assert !HasBlock(blocks, p);
    }

    /** Freeing an address twice in a row, wherever its block has been merged to, is freeing it once. */
    method FreeTwice(p: nat, heapBase: nat, ghost i: nat)
      requires Valid() && HEADER <= heapBase <= start && p >= heapBase
      requires i < |blocks| && p == blocks[i].at + HEADER && !blocks[i].free
      modifies this`mem, this`tail, this`blocks, this`live
      ensures Valid() && live == old(live) - {p} && blocks == Freed(old(blocks), i)
    {
      assert HeldAt(mem, blocks, i);
      Kfree(p, heapBase, i);
      Kfree(p, heapBase, i);
    }
  }

  /** Freeing everything leaves one free block of the whole size. */
  lemma AllFreeWhole(h: Heap)
    requires h.Valid() && h.live == map[]
    ensures h.end == h.start + HEADER + h.blocks[0].size + h.gap
    ensures h.blocks == [Block(h.start, h.blocks[0].size, true)]
  {
    AllFreeIsOne(h.blocks, h.live);
  }

  /** Payloads of a valid heap lie inside it, apart from each other. */
  lemma LivePayloads(h: Heap, p: nat, q: nat)
    requires h.Valid() && p in h.live && q in h.live && p < q
    ensures h.start + HEADER <= p && p + h.live[p] <= q && q + h.live[q] + h.gap <= h.end
  {
    LiveDisjoint(h.blocks, h.live, p, q);
    assert HasBlock(h.blocks, p) && HasBlock(h.blocks, q);
    var i: nat :| PayloadOf(h.blocks, p, i);
    var j: nat :| PayloadOf(h.blocks, q, j);
    assert Handed(h.blocks, h.live, j);
    if i > 0 { TilesOrder(h.blocks, 0, i); }
    if j < |h.blocks| - 1 { TilesOrder(h.blocks, j, |h.blocks| - 1); }
  }

  /** A new heap, one request that uses all of it, and one more: both get the same address. */
  method TailHandedOutTwice(startAddr: nat) returns (h: Heap, p: nat, q: nat)
    requires startAddr > 0
    ensures h.Valid() && p == q == startAddr + HEADER && h.live == map[p := 8]
  {
    h := new Heap;
    var rc := h.Init(startAddr, INIT_SIZE / PAGE);
    ghost var i, j;
    p, i := h.Kmalloc(INIT_SIZE - 2 * HEADER, 0);
    assert h.blocks == [Block(startAddr, INIT_SIZE - HEADER, false)];
    q, j := h.Kmalloc(8, 1);
  }
}
