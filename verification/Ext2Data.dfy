/** Byte ranges of an ext2 file: what a write of any length at any offset leaves behind, and what a
    read returns. */
module Ext2Data {

  import opened Arith
  import opened Bytes
  import opened BlockTree
  import opened Ext2Files
  import opened Ext2Io

  // ----- which blocks a range needs

  ghost function ChainRange(level: nat, ino: nat, lo: nat, hi: nat): set<Slot>
    requires level > 0
  {
    if hi <= lo then {} else ChainRange(level, ino, lo, hi - 1) + Chain(level, ino, hi - 1)
  }

  /** The slots that do not exist yet for blocks `lo` to `hi`: tables shared by several blocks count once. */
  ghost function NeedRange(level: nat, tree: Tree, ino: nat, lo: nat, hi: nat): set<Slot>
    requires level > 0
  {
    ChainRange(level, ino, lo, hi) - tree.Keys
  }

  lemma CountSplit<T>(a: set<T>, b: set<T>, k: set<T>)
    ensures |(a + b) - k| == |a - k| + |b - (k + a)|
  {
    assert (a + b) - k == (a - k) + (b - (k + a));
  }

  lemma ChainRangeStep(level: nat, ino: nat, lo: nat, i: nat)
    requires level > 0 && lo <= i
    ensures ChainRange(level, ino, lo, i + 1) == ChainRange(level, ino, lo, i) + Chain(level, ino, i)
  {
  }

  lemma NeedRangeStep(level: nat, t0: Tree, t1: Tree, ino: nat, lo: nat, i: nat)
    requires level > 0 && lo <= i && t1.Keys == t0.Keys + ChainRange(level, ino, lo, i)
    ensures |NeedRange(level, t0, ino, lo, i + 1)| == |NeedRange(level, t0, ino, lo, i)| + |Need(level, t1, ino, i)|
    ensures t1.Keys + Chain(level, ino, i) == t0.Keys + ChainRange(level, ino, lo, i + 1)
  {
    ChainRangeStep(level, ino, lo, i);
    hide PathOf, Chain, ChainRange;
    CountSplit(ChainRange(level, ino, lo, i), Chain(level, ino, i), t0.Keys);
  }

  lemma {:induction false} ChainRangeGrows(level: nat, ino: nat, lo: nat, i: nat, hi: nat)
    requires level > 0 && lo <= i <= hi
    ensures ChainRange(level, ino, lo, i) <= ChainRange(level, ino, lo, hi)
    decreases hi
  {
    hide PathOf, Chain;
    if i < hi { ChainRangeGrows(level, ino, lo, i, hi - 1); }
  }

  lemma NeedRangeGrows(level: nat, tree: Tree, ino: nat, lo: nat, i: nat, hi: nat)
    requires level > 0 && lo <= i <= hi
    ensures |NeedRange(level, tree, ino, lo, i)| <= |NeedRange(level, tree, ino, lo, hi)|
  {
    hide PathOf, Chain, ChainRange;
    ChainRangeGrows(level, ino, lo, i, hi);
    Fewer(NeedRange(level, tree, ino, lo, i), NeedRange(level, tree, ino, lo, hi));
  }

  lemma Fewer<T>(a: set<T>, b: set<T>)
    requires a <= b
    ensures |a| <= |b|
  {
    assert b == a + (b - a);
  }

  // ----- what a write leaves in one block

  /** The block at file position `base` after `buf` has been laid over the file at `off`. */
  function PatchBlock(block: seq<byte>, base: nat, off: nat, buf: seq<byte>): (r: seq<byte>)
    ensures |r| == |block|
  {
    seq(|block|, j requires 0 <= j < |block| =>
      if off <= base + j < off + |buf| then buf[base + j - off] else block[j])
  }

  ghost predicate PatchedAt(level: nat, x: State, y: State, ino: nat, k: nat, off: nat, buf: seq<byte>)
    requires level > 0
  {
    FileBlock(level, y.tree, y.disk, ino, k) ==
      PatchBlock(FileBlock(level, x.tree, x.disk, ino, k), Times(4 * level, k), off, buf)
  }

  // ----- which blocks of a write are stored

  /** When its turn comes, block `s` of a write from block `lo` on finds something free, but not enough. */
  ghost predicate Short(level: nat, x: State, ino: nat, lo: nat, s: nat)
    requires level > 0
  {
    |NeedRange(level, x.tree, ino, lo, s)| < x.free < |NeedRange(level, x.tree, ino, lo, s + 1)|
  }

  /** A write of blocks `lo` to `hi` loses data without reporting it: the first block that comes up short still
      finds a free block, which is then lost, and no later block of the range is a hole. */
  ghost predicate Silent(level: nat, x: State, ino: nat, lo: nat, hi: nat)
    requires level > 0
  {
    exists s: nat {:trigger Short(level, x, ino, lo, s)} :: SilentAt(level, x, ino, lo, hi, s) && Short(level, x, ino, lo, s)
  }

  ghost predicate SilentAt(level: nat, x: State, ino: nat, lo: nat, hi: nat, s: nat)
    requires level > 0
  {
    lo <= s < hi && forall j: nat {:trigger SlotOf(level, ino, j)} :: s < j < hi ==> SlotOf(level, ino, j) in x.tree
  }

  /** Whether block `k` of a write from block `lo` on is stored: everything up to it fits, or it is there already and the
      write has not been given up before. */
  ghost predicate Lands(level: nat, x: State, ino: nat, lo: nat, k: nat)
    requires level > 0
  {
    || |NeedRange(level, x.tree, ino, lo, k + 1)| <= x.free
    || (SlotOf(level, ino, k) in x.tree && Silent(level, x, ino, lo, k + 1))
  }

  /** Block `k` has its new contents exactly if it lands, and its old ones otherwise. */
  ghost predicate LandedAt(level: nat, x: State, y: State, ino: nat, lo: nat, k: nat, off: nat, buf: seq<byte>)
    requires level > 0
  {
    if Lands(level, x, ino, lo, k) then PatchedAt(level, x, y, ino, k, off, buf) else SameBlock(level, x, y, ino, k)
  }

  /** Blocks `lo` to `i` have been written. */
  ghost predicate Progress(level: nat, x: State, y: State, ino: nat, lo: nat, i: nat, off: nat, buf: seq<byte>, stored: bool)
    requires level > 0
  {
    && (forall n: nat, k: nat {:trigger SameBlock(level, x, y, n, k)} ::
          n != ino || k < lo || i <= k ==> SameBlock(level, x, y, n, k))
    && (forall k: nat {:trigger LandedAt(level, x, y, ino, lo, k, off, buf)} ::
          lo <= k < i ==> LandedAt(level, x, y, ino, lo, k, off, buf))
    && (stored <==> |NeedRange(level, x.tree, ino, lo, i)| <= x.free)
    && (stored ==>
          && y.tree.Keys == x.tree.Keys + ChainRange(level, ino, lo, i)
          && y.free + |NeedRange(level, x.tree, ino, lo, i)| == x.free && y.reserved == x.reserved)
    && (!stored ==> y.free == 0)
    && (forall k: nat {:trigger SlotKept(level, x.tree, y.tree, ino, k)} :: i <= k ==> SlotKept(level, x.tree, y.tree, ino, k))
  }

  lemma ProgressNone(level: nat, x: State, ino: nat, lo: nat, off: nat, buf: seq<byte>)
    requires level > 0
    ensures Progress(level, x, x, ino, lo, lo, off, buf, true)
  {
    assert NeedRange(level, x.tree, ino, lo, lo) == {};
  }

  lemma ProgressStep(level: nat, x: State, m: State, y: State, ino: nat, lo: nat, i: nat, off: nat, buf: seq<byte>,
                     block: seq<byte>, before: bool, now: bool)
    requires level > 0 && lo <= i && Progress(level, x, m, ino, lo, i, off, buf, before)
    requires Written(level, m, y, ino, i, block, now)
    requires block == PatchBlock(FileBlock(level, m.tree, m.disk, ino, i), Times(4 * level, i), off, buf)
    requires now <==> Lands(level, x, ino, lo, i)
    ensures Progress(level, x, y, ino, lo, i + 1, off, buf, before && now)
  {
    hide PathOf, FileBlock, Chain, NeedRange, PatchBlock, Times, Need, Lands;
    if before {
      NeedRangeStep(level, x.tree, m.tree, ino, lo, i);
    } else {
      NeedRangeGrows(level, x.tree, ino, lo, i, i + 1);
    }
    forall k: nat | i + 1 <= k ensures SlotKept(level, x.tree, y.tree, ino, k) {
      assert SlotKept(level, x.tree, m.tree, ino, k) && SlotKept(level, m.tree, y.tree, ino, k);
    }
    forall n: nat, k: nat | n != ino || k < lo || i + 1 <= k ensures SameBlock(level, x, y, n, k) {
      assert SameBlock(level, x, m, n, k) && SameBlock(level, m, y, n, k);
    }
    forall k: nat | lo <= k < i + 1 ensures LandedAt(level, x, y, ino, lo, k, off, buf) {
      if k < i {
        assert LandedAt(level, x, m, ino, lo, k, off, buf);
        assert SameBlock(level, m, y, ino, k);
      } else {
        assert SameBlock(level, x, m, ino, i);
      }
    }
  }

  // ----- what a write reports

  /** Once a block has come up short the rest of the range only decides whether that is reported. */
  lemma SilentPrefix(level: nat, x: State, ino: nat, lo: nat, i: nat, hi: nat)
    requires level > 0 && lo <= i <= hi && |NeedRange(level, x.tree, ino, lo, i)| > x.free
    requires Silent(level, x, ino, lo, hi)
    ensures Silent(level, x, ino, lo, i)
  {
    hide PathOf, NeedRange;
    var s: nat :| SilentAt(level, x, ino, lo, hi, s) && Short(level, x, ino, lo, s);
    if i <= s { NeedRangeGrows(level, x.tree, ino, lo, i, s); }
    assert SilentAt(level, x, ino, lo, i, s);
  }

  /** Block `i` is the first one to come up short. */
  lemma FirstShort(level: nat, x: State, ino: nat, lo: nat, i: nat)
    requires level > 0 && lo <= i
    requires |NeedRange(level, x.tree, ino, lo, i)| <= x.free < |NeedRange(level, x.tree, ino, lo, i + 1)|
    ensures Silent(level, x, ino, lo, i + 1) <==> |NeedRange(level, x.tree, ino, lo, i)| < x.free
  {
    hide PathOf, NeedRange;
    if |NeedRange(level, x.tree, ino, lo, i)| < x.free {
      assert SilentAt(level, x, ino, lo, i + 1, i) && Short(level, x, ino, lo, i);
    }
    forall s: nat | SilentAt(level, x, ino, lo, i + 1, s) && s < i ensures !Short(level, x, ino, lo, s) {
      NeedRangeGrows(level, x.tree, ino, lo, s + 1, i);
    }
  }

  /** A block before `i` has come up short. */
  lemma LaterBlock(level: nat, x: State, ino: nat, lo: nat, i: nat)
    requires level > 0 && lo <= i && |NeedRange(level, x.tree, ino, lo, i)| > x.free && Silent(level, x, ino, lo, i)
    ensures Silent(level, x, ino, lo, i + 1) <==> SlotOf(level, ino, i) in x.tree
  {
    hide PathOf, NeedRange;
    var s: nat :| SilentAt(level, x, ino, lo, i, s) && Short(level, x, ino, lo, s);
    if SlotOf(level, ino, i) in x.tree {
      assert SilentAt(level, x, ino, lo, i + 1, s);
    } else {
      forall t: nat | SilentAt(level, x, ino, lo, i + 1, t) ensures !Short(level, x, ino, lo, t) {
        assert t == i;
      }
    }
  }

  /** What one more block reports, and whether it is stored. */
  lemma ReportStep(level: nat, x: State, m: State, y: State, roots: Roots, ino: nat, lo: nat, i: nat, off: nat, buf: seq<byte>,
                   block: seq<byte>, before: bool, now: bool, ok: bool)
    requires level > 0 && lo <= i && Progress(level, x, m, ino, lo, i, off, buf, before)
    requires before || Silent(level, x, ino, lo, i)
    requires Written(level, m, y, ino, i, block, now) && Shaped(level, m.disk, roots, m.tree)
    requires !ok <==> m.free == 0 && BlockOf(level, m.tree, ino, i) == 0
    requires (now ==> ok) && (SlotOf(level, ino, i) in m.tree ==> now)
    ensures ok <==> (before && now) || Silent(level, x, ino, lo, i + 1)
    ensures now <==> Lands(level, x, ino, lo, i)
  {
    hide PathOf, FileBlock, NeedRange, Silent, PatchedAt, SameFilesBut, LandedAt;
    AtZero(level, m.disk, roots, m.tree, SlotOf(level, ino, i));
    if before {
      NeedRangeStep(level, x.tree, m.tree, ino, lo, i);
      if !now { FirstShort(level, x, ino, lo, i); }
    } else {
      LaterBlock(level, x, ino, lo, i);
      assert SlotKept(level, x.tree, m.tree, ino, i);
      NeedRangeGrows(level, x.tree, ino, lo, i, i + 1);
      NeedMissing(level, m.tree, ino, i);
    }
  }

  // ----- the four ways the code fills a block

  /** The whole write lies in one block. */
  lemma PatchSingle(block: seq<byte>, base: nat, so: nat, buf: seq<byte>)
    requires so + |buf| <= |block|
    ensures block[..so] + buf + block[so + |buf|..] == PatchBlock(block, base, base + so, buf)
  {
  }

  /** The first of several blocks, from `so` to its end. */
  lemma PatchHead(block: seq<byte>, base: nat, so: nat, buf: seq<byte>)
    requires so <= |block| <= so + |buf|
    ensures block[..so] + buf[..|block| - so] == PatchBlock(block, base, base + so, buf)
  {
  }

  /** A block in the middle is replaced. */
  lemma PatchMiddle(block: seq<byte>, off: nat, done: nat, buf: seq<byte>)
    requires done + |block| <= |buf|
    ensures buf[done..done + |block|] == PatchBlock(block, off + done, off, buf)
  {
  }

  /** The last block, up to the end of the write. */
  lemma PatchTail(block: seq<byte>, off: nat, done: nat, buf: seq<byte>)
    requires done <= |buf| <= done + |block|
    ensures buf[done..] + block[|buf| - done..] == PatchBlock(block, off + done, off, buf)
  {
  }

  /** Writes one block of the range. */
  method WritePart(v: Volume, inode: Inode, ino: nat, i: nat, block: seq<byte>,
                   ghost x: State, ghost lo: nat, ghost off: nat, ghost buf: seq<byte>, ghost before: bool)
    returns (rc: int, ghost stored: bool)
    requires v.Valid() && v.Loaded(inode, ino) && |block| == 4 * v.a.level && i < DoubleEnd(v.a.level)
    requires lo <= i && Progress(v.a.level, x, v.Now(), ino, lo, i, off, buf, before)
    requires before || Silent(v.a.level, x, ino, lo, i)
    requires block == PatchBlock(FileBlock(v.a.level, v.tree, v.a.disk, ino, i), Times(4 * v.a.level, i), off, buf)
    modifies v, v.a, inode`blocks, inode`numBlocks
    ensures v.Valid() && v.Loaded(inode, ino)
    ensures Progress(v.a.level, x, v.Now(), ino, lo, i + 1, off, buf, stored)
    ensures rc == if stored || Silent(v.a.level, x, ino, lo, i + 1) then 0 else -ENOSPC
    ensures TableKept(old(v.table), v.table, ino)
  {
    hide Progress, PatchBlock, FileBlock, Times, PathOf, Need, Chain, Silent, Written, Linked, Covered, Unaliased, Accounted, Counted;
    ghost var m, roots := v.Now(), RootsOf(v.table);
    rc, stored := WriteBlock(v, inode, ino, i, block);
    ReportStep(v.a.level, x, m, v.Now(), roots, ino, lo, i, off, buf, block, before, stored, rc == 0);
    ProgressStep(v.a.level, x, m, v.Now(), ino, lo, i, off, buf, block, before, stored);
    stored := before && stored;
  }

  /** Every block of the file is as after laying `buf` over it at `off`; every other file is untouched. */
  ghost predicate Spliced(level: nat, x: State, y: State, ino: nat, off: nat, buf: seq<byte>)
    requires level > 0
  {
    && (forall n: nat, k: nat {:trigger SameBlock(level, x, y, n, k)} :: n != ino ==> SameBlock(level, x, y, n, k))
    && (forall k: nat {:trigger PatchedAt(level, x, y, ino, k, off, buf)} :: PatchedAt(level, x, y, ino, k, off, buf))
  }

  /** As above, except that exactly the blocks of the range that do not land have kept their old contents. */
  ghost predicate PartlySpliced(level: nat, x: State, y: State, ino: nat, off: nat, buf: seq<byte>)
    requires level > 0
  {
    && (forall n: nat, k: nat {:trigger SameBlock(level, x, y, n, k)} :: n != ino ==> SameBlock(level, x, y, n, k))
    && (forall k: nat {:trigger BlockAfter(level, x, y, ino, k, off, buf)} :: BlockAfter(level, x, y, ino, k, off, buf))
  }

  ghost predicate BlockAfter(level: nat, x: State, y: State, ino: nat, k: nat, off: nat, buf: seq<byte>)
    requires level > 0
  {
    var lo := FirstBlock(4 * level, off);
    if lo <= k < EndBlock(4 * level, off, |buf|) then LandedAt(level, x, y, ino, lo, k, off, buf)
    else SameBlock(level, x, y, ino, k)
  }

  /** The blocks that a write of `n` bytes at `off` touches: `FirstBlock` to `EndBlock`. */
  function FirstBlock(bs: nat, off: nat): nat
    requires bs > 0
  {
    Quot(off, bs)
  }

  function EndBlock(bs: nat, off: nat, n: nat): nat
    requires bs > 0
  {
    var last := Quot(off + n, bs);
    if last == Quot(off, bs) || Rem(off + n, bs) > 0 then last + 1 else last
  }

  lemma PatchOutside(level: nat, x: State, y: State, ino: nat, k: nat, off: nat, buf: seq<byte>)
    requires level > 0 && SameBlock(level, x, y, ino, k)
    requires k < FirstBlock(4 * level, off) || EndBlock(4 * level, off, |buf|) <= k
    requires |FileBlock(level, x.tree, x.disk, ino, k)| == 4 * level
    ensures PatchedAt(level, x, y, ino, k, off, buf)
  {
    hide FileBlock, PathOf;
    var bs, block := 4 * level, FileBlock(level, x.tree, x.disk, ino, k);
    SplitTimes(off, bs);
    SplitTimes(off + |buf|, bs);
    if k < Quot(off, bs) {
      TimesMono(bs, k + 1, Quot(off, bs));
    } else {
      TimesMono(bs, if Rem(off + |buf|, bs) > 0 then Quot(off + |buf|, bs) + 1 else Quot(off + |buf|, bs), k);
    }
    assert PatchBlock(block, Times(bs, k), off, buf) == block;
  }

  lemma BlockLength(level: nat, disk: Disk, roots: Roots, tree: Tree, ino: nat, k: nat)
    requires level > 0 && Shaped(level, disk, roots, tree)
    ensures |FileBlock(level, tree, disk, ino, k)| == 4 * level
  {
    hide PathOf;
    AtZero(level, disk, roots, tree, SlotOf(level, ino, k));
  }

  /** The outcome of a write of `buf` at `off`: the file is spliced exactly when there are enough free
      blocks for everything missing in the range; otherwise some of the range may be missing. */
  ghost predicate WriteOutcome(level: nat, x: State, y: State, ino: nat, off: nat, buf: seq<byte>, stored: bool)
    requires level > 0
  {
    var need := NeedRange(level, x.tree, ino, FirstBlock(4 * level, off), EndBlock(4 * level, off, |buf|));
    && (stored <==> |need| <= x.free)
    && (stored ==> Spliced(level, x, y, ino, off, buf) && y.free + |need| == x.free && y.reserved == x.reserved)
    && (!stored ==> PartlySpliced(level, x, y, ino, off, buf))
  }

  /** The write loses data and reports the full count all the same. */
  ghost predicate LosesSilently(level: nat, x: State, ino: nat, off: nat, n: nat)
    requires level > 0
  {
    Silent(level, x, ino, FirstBlock(4 * level, off), EndBlock(4 * level, off, n))
  }

  lemma ProgressOutcome(level: nat, x: State, y: State, roots: Roots, ino: nat, i: nat, off: nat, buf: seq<byte>, stored: bool)
    requires level > 0 && Shaped(level, x.disk, roots, x.tree)
    requires FirstBlock(4 * level, off) <= i <= EndBlock(4 * level, off, |buf|)
    requires Progress(level, x, y, ino, FirstBlock(4 * level, off), i, off, buf, stored)
    requires i == EndBlock(4 * level, off, |buf|) || !(stored || Silent(level, x, ino, FirstBlock(4 * level, off), i))
    ensures WriteOutcome(level, x, y, ino, off, buf, stored)
    ensures LosesSilently(level, x, ino, off, |buf|) && !stored ==> Silent(level, x, ino, FirstBlock(4 * level, off), i)
  {
    hide PathOf, FileBlock, NeedRange, PatchBlock, Times, Quot, Rem, ChainRange, Silent, PatchedAt;
    var lo, hi := FirstBlock(4 * level, off), EndBlock(4 * level, off, |buf|);
    NeedRangeGrows(level, x.tree, ino, lo, i, hi);
    if !stored && Silent(level, x, ino, lo, hi) { SilentPrefix(level, x, ino, lo, i, hi); }
    forall k: nat ensures BlockAfter(level, x, y, ino, k, off, buf) && (stored ==> PatchedAt(level, x, y, ino, k, off, buf)) {
      if k < lo || hi <= k {
        assert SameBlock(level, x, y, ino, k);
        BlockLength(level, x.disk, roots, x.tree, ino, k);
        PatchOutside(level, x, y, ino, k, off, buf);
      } else if k < i {
        assert LandedAt(level, x, y, ino, lo, k, off, buf);
        NeedRangeGrows(level, x.tree, ino, lo, k + 1, i);
      } else {
        assert SameBlock(level, x, y, ino, k);
        GivenUp(level, x, ino, lo, i, k);
      }
    }
  }

  /** After the write has been given up no block lands. */
  lemma GivenUp(level: nat, x: State, ino: nat, lo: nat, i: nat, k: nat)
    requires level > 0 && lo <= i <= k && |NeedRange(level, x.tree, ino, lo, i)| > x.free && !Silent(level, x, ino, lo, i)
    ensures !Lands(level, x, ino, lo, k)
  {
    hide PathOf, NeedRange, Silent;
    NeedRangeGrows(level, x.tree, ino, lo, i, k + 1);
    if Silent(level, x, ino, lo, k + 1) { SilentPrefix(level, x, ino, lo, i, k + 1); }
  }

  /** The size field follows the end of the write. */
  method GrowSize(v: Volume, inode: Inode, ino: nat, end: nat)
    requires v.Valid() && v.Loaded(inode, ino)
    modifies v`table, inode`size
    ensures v.Valid() && v.Loaded(inode, ino)
    ensures inode.size == if end > old(inode.size) then end else old(inode.size)
    ensures TableKept(old(v.table), v.table, ino) && RootsOf(v.table) == RootsOf(old(v.table))
  {
    hide WellFormed, Accounted, UnitsOf;
    if end > inode.size {
      inode.size := end;
      v.WriteMetadata(inode, ino);
      assert RootsOf(v.table) == RootsOf(old(v.table));
    }
  }

  /** The write starts and ends in the same block. */
  method WriteSingle(v: Volume, inode: Inode, ino: nat, off: nat, buf: seq<byte>) returns (rc: int, ghost stored: bool)
    requires v.Valid() && v.Loaded(inode, ino)
    requires FirstBlock(4 * v.a.level, off) < DoubleEnd(v.a.level)
    requires FirstBlock(4 * v.a.level, off) == FirstBlock(4 * v.a.level, off + |buf|)
    modifies v, v.a, inode`blocks, inode`numBlocks
    ensures v.Valid() && v.Loaded(inode, ino)
    ensures WriteOutcome(v.a.level, old(v.Now()), v.Now(), ino, off, buf, stored)
    ensures rc == if stored || LosesSilently(v.a.level, old(v.Now()), ino, off, |buf|) then 0 else -ENOSPC
    ensures TableKept(old(v.table), v.table, ino)
  {
    hide PathOf, FileBlock, Times, Quot, Rem, Progress, WriteOutcome, Linked, Covered, Unaliased, Accounted, PatchBlock, Silent;
    var bs := 4 * v.a.level;
    var start, so := Divide(off, bs);
    SplitTimes(off, bs);
    SplitTimes(off + |buf|, bs);
    var temp := ReadBlock(v, inode, ino, start);
    PatchSingle(temp, Times(bs, start), so, buf);
    temp := temp[..so] + buf + temp[so + |buf|..];
    ProgressNone(v.a.level, v.Now(), ino, start, off, buf);
    rc, stored := WritePart(v, inode, ino, start, temp, v.Now(), start, off, buf, true);
    ProgressOutcome(v.a.level, old(v.Now()), v.Now(), RootsOf(old(v.table)), ino, start + 1, off, buf, stored);
  }

  /** The new contents of a block that the write fills to its end: the first one keeps its head, the others are
      replaced. `done` bytes of the buffer are used up before, `next` after. */
  method FullBlock(v: Volume, inode: Inode, ino: nat, i: nat, start: nat, so: nat, done: nat, off: nat, buf: seq<byte>)
    returns (temp: seq<byte>, next: nat)
    requires v.Valid() && v.Loaded(inode, ino) && start <= i
    requires off == Times(4 * v.a.level, start) + so && so < 4 * v.a.level
    requires off + done == if i == start then off else Times(4 * v.a.level, i)
    requires Times(4 * v.a.level, i + 1) <= off + |buf|
    ensures |temp| == 4 * v.a.level
    ensures temp == PatchBlock(FileBlock(v.a.level, v.tree, v.a.disk, ino, i), Times(4 * v.a.level, i), off, buf)
    ensures next <= |buf| && off + next == Times(4 * v.a.level, i + 1)
  {
    hide PathOf, FileBlock, Times, Linked, Covered, Unaliased, Accounted, Counted, PatchBlock;
    var bs := 4 * v.a.level;
    TimesNext(bs, i);
    if i == start {
      temp := ReadBlock(v, inode, ino, start);
      PatchHead(temp, Times(bs, start), so, buf);
      temp := temp[..so] + buf[..bs - so];
      next := bs - so;
    } else {
      BlockLength(v.a.level, v.a.disk, RootsOf(v.table), v.tree, ino, i);
      PatchMiddle(FileBlock(v.a.level, v.tree, v.a.disk, ino, i), off, done, buf);
      temp := buf[done..done + bs];
      next := done + bs;
    }
  }

  /** The end of the buffer goes to the start of the last block. */
  method WriteTail(v: Volume, inode: Inode, ino: nat, last: nat, es: nat, done: nat, off: nat, buf: seq<byte>,
                   ghost x: State, ghost lo: nat, ghost before: bool)
    returns (rc: int, ghost stored: bool)
    requires v.Valid() && v.Loaded(inode, ino) && last < DoubleEnd(v.a.level)
    requires done <= |buf| && off + done == Times(4 * v.a.level, last) && |buf| - done == es <= 4 * v.a.level
    requires lo <= last && Progress(v.a.level, x, v.Now(), ino, lo, last, off, buf, before)
    requires before || Silent(v.a.level, x, ino, lo, last)
    modifies v, v.a, inode`blocks, inode`numBlocks
    ensures v.Valid() && v.Loaded(inode, ino)
    ensures Progress(v.a.level, x, v.Now(), ino, lo, last + 1, off, buf, stored)
    ensures rc == if stored || Silent(v.a.level, x, ino, lo, last + 1) then 0 else -ENOSPC
    ensures TableKept(old(v.table), v.table, ino)
  {
    hide PathOf, FileBlock, Times, Progress, Linked, Covered, Unaliased, Accounted, Counted, PatchBlock, Silent;
    var temp := ReadBlock(v, inode, ino, last);
    PatchTail(temp, off, done, buf);
    temp := buf[done..] + temp[es..];
    rc, stored := WritePart(v, inode, ino, last, temp, x, lo, off, buf, before);
  }

  lemma ValidParts(v: Volume)
    requires v.Valid()
    ensures v.a.level > 0 && Shaped(v.a.level, v.a.disk, RootsOf(v.table), v.tree)
  {
  }

  /** The write spans several blocks: the first one is completed, the middle ones are replaced, and what
      is left goes to the start of the last one. */
  method WriteSeveral(v: Volume, inode: Inode, ino: nat, off: nat, buf: seq<byte>) returns (rc: int, ghost stored: bool)
    requires v.Valid() && v.Loaded(inode, ino)
    requires EndBlock(4 * v.a.level, off, |buf|) <= DoubleEnd(v.a.level)
    requires FirstBlock(4 * v.a.level, off) < FirstBlock(4 * v.a.level, off + |buf|)
    modifies v, v.a, inode`blocks, inode`numBlocks
    ensures v.Valid() && v.Loaded(inode, ino)
    ensures WriteOutcome(v.a.level, old(v.Now()), v.Now(), ino, off, buf, stored)
    ensures rc == if stored || LosesSilently(v.a.level, old(v.Now()), ino, off, |buf|) then 0 else -ENOSPC
    ensures TableKept(old(v.table), v.table, ino)
  {
    hide PathOf, FileBlock, Times, Quot, Rem, Progress, WriteOutcome, Shaped, Volume.Valid, PatchBlock, Silent;
    ValidParts(v);
    var bs := 4 * v.a.level;
    var start, so := Divide(off, bs);
    var last, es := Divide(off + |buf|, bs);
    SplitTimes(off, bs);
    SplitTimes(off + |buf|, bs);
    ghost var x := v.Now();
    ProgressNone(v.a.level, x, ino, start, off, buf);
    var i, done := start, 0;
    stored := true;
    while i < last
      invariant start <= i <= last && 0 <= done <= |buf|
      invariant off + done == if i == start then off else Times(bs, i)
      invariant v.Valid() && v.Loaded(inode, ino) && TableKept(old(v.table), v.table, ino)
      invariant Progress(v.a.level, x, v.Now(), ino, start, i, off, buf, stored)
      invariant stored || Silent(v.a.level, x, ino, start, i)
    {
      TimesMono(bs, i + 1, last);
      var temp;
      temp, done := FullBlock(v, inode, ino, i, start, so, done, off, buf);
      rc, stored := WritePart(v, inode, ino, i, temp, x, start, off, buf, stored);
      i := i + 1;
      if rc != 0 {
        ProgressOutcome(v.a.level, x, v.Now(), RootsOf(old(v.table)), ino, i, off, buf, stored);
        return;
      }
    }
    rc := 0;
    if es > 0 {
      rc, stored := WriteTail(v, inode, ino, last, es, done, off, buf, x, start, stored);
      i := i + 1;
    }
    ProgressOutcome(v.a.level, x, v.Now(), RootsOf(old(v.table)), ino, i, off, buf, stored);
  }

  /** `write_inode_filedata`, for files below 4 GiB and below the triple-indirect range. */
  method WriteFile(v: Volume, inode: Inode, ino: nat, off: nat, buf: seq<byte>) returns (result: int, ghost stored: bool)
    requires v.Valid() && v.Loaded(inode, ino)
    requires off + |buf| < 0x1_0000_0000 && EndBlock(4 * v.a.level, off, |buf|) <= DoubleEnd(v.a.level)
    modifies v, v.a, inode
    ensures v.Valid() && v.Loaded(inode, ino)
    ensures inode.size == if off + |buf| > old(inode.size) then off + |buf| else old(inode.size)
    ensures WriteOutcome(v.a.level, old(v.Now()), v.Now(), ino, off, buf, stored)
    ensures result == if stored || LosesSilently(v.a.level, old(v.Now()), ino, off, |buf|) then |buf| else -ENOSPC
    ensures TableKept(old(v.table), v.table, ino)
  {
    hide PathOf, FileBlock, Times, Quot, Rem, Progress, WriteOutcome, WellFormed, Accounted, Counted, PatchBlock, Silent;
    GrowSize(v, inode, ino, off + |buf|);
    var bs := 4 * v.a.level;
    var start, so := Divide(off, bs);
    var last, es := Divide(off + |buf|, bs);
    QuotMono(off, off + |buf|, bs);
    ghost var t1 := v.table;
    var rc;
    if start == last {
      rc, stored := WriteSingle(v, inode, ino, off, buf);
    } else {
      rc, stored := WriteSeveral(v, inode, ino, off, buf);
    }
    TableKeptTrans(old(v.table), t1, v.table, ino);
    result := if rc != 0 then rc else |buf|;
  }

  lemma QuotMono(a: nat, b: nat, d: nat)
    requires d > 0 && a <= b
    ensures Quot(a, d) <= Quot(b, d)
  {
    if a < b { QuotRemOrder(a, b, d); }
  }

  // ----- the file as a sequence of bytes

  ghost function FileByte(level: nat, x: State, ino: nat, pos: nat): byte
    requires level > 0
  {
    var block := FileBlock(level, x.tree, x.disk, ino, Quot(pos, 4 * level));
    var r := Rem(pos, 4 * level);
    if r < |block| then block[r] else 0
  }

  /** Byte `r` of block `k` of the file lies at position `k * 4 * level + r`; a hole reads as zero. */
  lemma ByteByNumbers(level: nat, x: State, roots: Roots, ino: nat, k: nat, r: nat)
    requires level > 0 && r < 4 * level && Shaped(level, x.disk, roots, x.tree)
    ensures var b := BlockOf(level, x.tree, ino, k);
            && (b != 0 ==> b in x.disk && |x.disk[b]| == 4 * level)
            && FileByte(level, x, ino, k * (4 * level) + r) == if b == 0 then 0 else x.disk[b][r]
  {
    hide PathOf;
    QuotRemOf(k, r, 4 * level);
    AtZero(level, x.disk, roots, x.tree, SlotOf(level, ino, k));
  }

  /** The first `size` bytes of the file. */
  ghost function Content(level: nat, x: State, ino: nat, size: nat): (c: seq<byte>)
    requires level > 0
    ensures |c| == size
  {
    seq(size, pos requires 0 <= pos < size => FileByte(level, x, ino, pos))
  }

  /** What lies past the end of the file reads as zero. */
  ghost predicate ZeroTail(level: nat, x: State, ino: nat, size: nat)
    requires level > 0
  {
    forall pos: nat {:trigger FileByte(level, x, ino, pos)} :: size <= pos ==> FileByte(level, x, ino, pos) == 0
  }

  /** `buf` laid over `c` at `off`; a gap between the end of `c` and `off` is filled with zeros. */
  function Splice(c: seq<byte>, off: nat, buf: seq<byte>): (r: seq<byte>)
    ensures |r| == if off + |buf| > |c| then off + |buf| else |c|
  {
    (if off <= |c| then c[..off] else c + Zeros(off - |c|))
    + buf
    + (if off + |buf| <= |c| then c[off + |buf|..] else [])
  }

  lemma SplicedByte(level: nat, x: State, y: State, roots: Roots, ino: nat, off: nat, buf: seq<byte>, pos: nat)
    requires level > 0 && Shaped(level, x.disk, roots, x.tree)
    requires PatchedAt(level, x, y, ino, Quot(pos, 4 * level), off, buf)
    ensures FileByte(level, y, ino, pos) ==
              if off <= pos < off + |buf| then buf[pos - off] else FileByte(level, x, ino, pos)
  {
    hide PathOf, FileBlock, Quot, Rem, Times;
    BlockLength(level, x.disk, roots, x.tree, ino, Quot(pos, 4 * level));
    SplitTimes(pos, 4 * level);
  }

  /** A write splices its bytes into the file and keeps the tail zero, whatever the block boundaries. */
  lemma WriteSplices(level: nat, x: State, y: State, roots: Roots, ino: nat, size: nat, off: nat, buf: seq<byte>)
    requires level > 0 && Shaped(level, x.disk, roots, x.tree)
    requires Spliced(level, x, y, ino, off, buf) && ZeroTail(level, x, ino, size)
    ensures var size' := if off + |buf| > size then off + |buf| else size;
            && Content(level, y, ino, size') == Splice(Content(level, x, ino, size), off, buf)
            && ZeroTail(level, y, ino, size')
  {
    hide PathOf, FileBlock, Quot, Rem, Times, FileByte, PatchBlock;
    var size' := if off + |buf| > size then off + |buf| else size;
    forall pos: nat ensures FileByte(level, y, ino, pos) ==
              if off <= pos < off + |buf| then buf[pos - off] else FileByte(level, x, ino, pos) {
      assert PatchedAt(level, x, y, ino, Quot(pos, 4 * level), off, buf);
      SplicedByte(level, x, y, roots, ino, off, buf, pos);
    }
    var c, r := Content(level, x, ino, size), Splice(Content(level, x, ino, size), off, buf);
    forall pos | 0 <= pos < size' ensures r[pos] == FileByte(level, y, ino, pos) {
      assert pos >= size ==> FileByte(level, x, ino, pos) == 0;
      SpliceAt(c, off, buf, pos);
    }
  }

  lemma SpliceAt(c: seq<byte>, off: nat, buf: seq<byte>, pos: nat)
    requires pos < |Splice(c, off, buf)|
    ensures Splice(c, off, buf)[pos] == if off <= pos < off + |buf| then buf[pos - off] else if pos < |c| then c[pos] else 0
  {
  }

  /** When part of the data is lost: exactly the bytes of the range whose block lands are new, all others are old. */
  lemma LostWriteStaysInRange(level: nat, x: State, y: State, roots: Roots, ino: nat, off: nat, buf: seq<byte>, pos: nat)
    requires level > 0 && Shaped(level, x.disk, roots, x.tree)
    requires PartlySpliced(level, x, y, ino, off, buf)
    ensures FileByte(level, y, ino, pos) ==
              if off <= pos < off + |buf| && Lands(level, x, ino, FirstBlock(4 * level, off), Quot(pos, 4 * level))
              then buf[pos - off] else FileByte(level, x, ino, pos)
  {
    hide PathOf, FileBlock, Quot, Rem, Times, PatchBlock, Lands, PatchedAt;
    var k := Quot(pos, 4 * level);
    assert BlockAfter(level, x, y, ino, k, off, buf);
    if off <= pos < off + |buf| { InRange(4 * level, off, |buf|, pos); }
    if PatchedAt(level, x, y, ino, k, off, buf) { SplicedByte(level, x, y, roots, ino, off, buf, pos); }
  }

  /** The block of a position in the range is one that the write touches. */
  lemma InRange(bs: nat, off: nat, n: nat, pos: nat)
    requires bs > 0 && off <= pos < off + n
    ensures FirstBlock(bs, off) <= Quot(pos, bs) < EndBlock(bs, off, n)
  {
    hide Quot, Rem;
    QuotMono(off, pos, bs);
    QuotRemOrder(pos, off + n, bs);
  }

  // ----- reading

  /** How many bytes the code copies out of block `i` when it reads `off` to `end`. */
  function ReadCount(bs: nat, off: nat, end: nat, i: nat): int
    requires bs > 0
  {
    var left := if i == Quot(off, bs) then Rem(off, bs) else 0;
    var right := if i == Quot(end, bs) then Rem(end, bs) - 1 else bs - 1;
    right - left + 1
  }

  /** What `read_inode_filedata` returns. */
  function ReadResult(size: nat, off: nat, count: nat): int {
    (if size >= off + count then off + count else size) - off
  }

  /** The counts handed to the copy are never negative exactly when the offset is not past the end of the
      file, or lies in a later block than the end, where nothing is copied at all. */
  lemma ReadCountsSane(bs: nat, off: nat, size: nat)
    requires bs > 0
    ensures (forall i: nat {:trigger ReadCount(bs, off, size, i)} ::
               Quot(off, bs) <= i <= Quot(size, bs) ==> ReadCount(bs, off, size, i) >= 0)
            <==> off <= size || Quot(off, bs) > Quot(size, bs)
  {
    var s, e := Quot(off, bs), Quot(size, bs);
    if off > size {
      QuotRemOrder(size, off, bs);
      if s == e { assert ReadCount(bs, off, size, s) == Rem(size, bs) - Rem(off, bs); }
    } else if off < size {
      QuotRemOrder(off, size, bs);
    }
  }

  /** A read at 200 of a file of 100 bytes: the copy is handed a count of -100. */
  lemma NegativeCount()
    ensures ReadCount(1024, 200, 100, 0) == -100
  {
  }

  /** A read at 5000 of the same file: nothing is copied, and the result is -4900. */
  lemma NegativeResult(count: nat)
    ensures Quot(5000, 1024) > Quot(100, 1024) && ReadResult(100, 5000, count) == -4900
  {
    QuotRemIs(5000, 1024);
  }

  /** The bytes that a read is to return: none from the end of the file on. */
  function Clipped(c: seq<byte>, off: nat, count: nat): seq<byte> {
    if off >= |c| then [] else if off + count < |c| then c[off..off + count] else c[off..]
  }

  /** One round of the read loop. What a copy of a negative length would do is not part of the model. */
  method CopyPart(v: Volume, inode: Inode, ino: nat, i: nat, left: nat, n: int, out: seq<byte>, ghost off: nat)
    returns (more: seq<byte>)
    requires v.Valid() && v.Loaded(inode, ino) && ReadSoFar(v.a.level, v.Now(), ino, off, out)
    requires n >= 0 ==> off + |out| == Times(4 * v.a.level, i) + left && left + n <= 4 * v.a.level
    ensures |more| == |out| + (if n >= 0 then n else 0) && (n < 0 ==> more == out)
    ensures ReadSoFar(v.a.level, v.Now(), ino, off, more)
  {
    hide PathOf, FileBlock, Times, WellFormed, Accounted, Counted, ReadSoFar;
    var temp := ReadBlock(v, inode, ino, i);
    more := out;
    if n >= 0 {
      AppendBlock(v.a.level, v.Now(), ino, off, out, i, temp, left, left + n);
      more := out + temp[left..left + n];
    }
  }

  lemma ReadBytes(level: nat, x: State, ino: nat, off: nat, out: seq<byte>)
    requires level > 0 && ReadSoFar(level, x, ino, off, out)
    ensures forall i :: 0 <= i < |out| ==> out[i] == FileByte(level, x, ino, off + i)
  {
    hide FileByte;
  }

  /** `read_inode_filedata`. The bytes copied are those of the clipped range for every offset, but the result is
      their number only up to the end of the file; past it the result is negative. `counts` are the lengths
      handed to the copy, one for each block visited. */
  method ReadFile(v: Volume, inode: Inode, ino: nat, off: nat, count: nat)
    returns (result: int, out: seq<byte>, counts: seq<int>)
    requires v.Valid() && v.Loaded(inode, ino)
    ensures out == Clipped(Content(v.a.level, v.Now(), ino, inode.size), off, count)
    ensures |out| == if inode.size <= off then 0 else if inode.size - off < count then inode.size - off else count
    ensures forall i :: 0 <= i < |out| ==> out[i] == FileByte(v.a.level, v.Now(), ino, off + i)
    ensures result == ReadResult(inode.size, off, count)
    ensures result == |out| <==> off <= inode.size
    ensures (forall j :: 0 <= j < |counts| ==> counts[j] >= 0) <==>
            off <= inode.size || Quot(off, 4 * v.a.level) > Quot(inode.size, 4 * v.a.level)
  {
    hide PathOf, FileBlock, Times, Quot, Rem, WellFormed, Accounted, Counted, FileByte, ReadSoFar, Content, ReadCount,
      Clipped, CountsUpTo;
    var bs := 4 * v.a.level;
    ReadNothing(v.a.level, v.Now(), ino, off);
    var end := if inode.size >= off + count then off + count else inode.size;
    var start, so := Divide(off, bs);
    var last, es := Divide(end, bs);
    if off <= end { QuotMono(off, end, bs); } else { QuotRemOrder(end, off, bs); }
    SplitTimes(off, bs);
    SplitTimes(end, bs);
    out, counts := [], [];
    CountsNone(bs, off, end);
    var i := start;
    while i <= last
      invariant start <= i && (i <= last + 1 || i == start)
      invariant CountsUpTo(bs, off, end, i, counts)
      invariant off <= end ==> off + |out| == if i == start then off else if i <= last then Times(bs, i) else end
      invariant off > end ==> out == []
      invariant ReadSoFar(v.a.level, v.Now(), ino, off, out)
      decreases if i <= last then last + 1 - i else 0
    {
      var left := if i == start then so else 0;
      var right := (if i == last then es else bs) - 1;
      TimesNext(bs, i);
      if i < last { TimesMono(bs, i + 1, last); }
      var n := right - left + 1;
      out := CopyPart(v, inode, ino, i, left, n, out, off);
      ReadCountIs(bs, off, end, i);
      CountsNext(bs, off, end, i, counts, n);
      counts := counts + [n];
      i := i + 1;
    }
    ReadClipped(v.a.level, v.Now(), ino, off, count, inode.size, out);
    CountsSane(bs, off, end, i, counts);
    ReadBytes(v.a.level, v.Now(), ino, off, out);
    result := end - off;
  }

  /** The bytes gathered are the clipped range. */
  lemma ReadClipped(level: nat, x: State, ino: nat, off: nat, count: nat, size: nat, out: seq<byte>)
    requires level > 0 && ReadSoFar(level, x, ino, off, out)
    requires |out| == if off <= size then ReadResult(size, off, count) else 0
    ensures out == Clipped(Content(level, x, ino, size), off, count)
  {
    if off <= size {
      ReadAll(level, x, ino, off, out, size);
      hide Content;
    }
  }

  /** The counts for the blocks before `i`. */
  ghost predicate CountsUpTo(bs: nat, off: nat, end: nat, i: nat, counts: seq<int>)
    requires bs > 0
  {
    && |counts| == i - Quot(off, bs)
    && forall j {:trigger counts[j]} :: 0 <= j < |counts| ==> counts[j] == ReadCount(bs, off, end, Quot(off, bs) + j)
  }

  lemma CountsNone(bs: nat, off: nat, end: nat)
    requires bs > 0
    ensures CountsUpTo(bs, off, end, Quot(off, bs), [])
  {
  }

  lemma CountsNext(bs: nat, off: nat, end: nat, i: nat, counts: seq<int>, n: int)
    requires bs > 0 && CountsUpTo(bs, off, end, i, counts) && n == ReadCount(bs, off, end, i)
    ensures CountsUpTo(bs, off, end, i + 1, counts + [n])
  {
    hide Quot, ReadCount;
  }

  lemma ReadCountIs(bs: nat, off: nat, end: nat, i: nat)
    requires bs > 0
    ensures ReadCount(bs, off, end, i) ==
            (if i == Quot(end, bs) then Rem(end, bs) else bs) - (if i == Quot(off, bs) then Rem(off, bs) else 0)
  {
  }

  lemma CountsSane(bs: nat, off: nat, end: nat, i: nat, counts: seq<int>)
    requires bs > 0 && i == (if Quot(off, bs) <= Quot(end, bs) then Quot(end, bs) + 1 else Quot(off, bs))
    requires CountsUpTo(bs, off, end, i, counts)
    ensures (forall j :: 0 <= j < |counts| ==> counts[j] >= 0) <==> off <= end || Quot(off, bs) > Quot(end, bs)
  {
    hide Quot, Rem, ReadCount;
    ReadCountsSane(bs, off, end);
    forall k: nat | Quot(off, bs) <= k <= Quot(end, bs) ensures counts[k - Quot(off, bs)] == ReadCount(bs, off, end, k) { }
  }

  ghost predicate ReadSoFar(level: nat, x: State, ino: nat, off: nat, out: seq<byte>)
    requires level > 0
  {
    forall j :: 0 <= j < |out| ==> out[j] == FileByte(level, x, ino, off + j)
  }

  lemma ReadNothing(level: nat, x: State, ino: nat, off: nat)
    requires level > 0
    ensures ReadSoFar(level, x, ino, off, [])
  {
  }

  lemma ReadAll(level: nat, x: State, ino: nat, off: nat, out: seq<byte>, size: nat)
    requires level > 0 && ReadSoFar(level, x, ino, off, out) && off + |out| <= size
    ensures out == Content(level, x, ino, size)[off..off + |out|]
  {
  }

  lemma AppendBlock(level: nat, x: State, ino: nat, off: nat, out: seq<byte>, k: nat, block: seq<byte>, left: nat, right: nat)
    requires level > 0 && ReadSoFar(level, x, ino, off, out)
    requires block == FileBlock(level, x.tree, x.disk, ino, k) && |block| == 4 * level
    requires left <= right <= |block| && off + |out| == Times(4 * level, k) + left
    ensures ReadSoFar(level, x, ino, off, out + block[left..right])
  {
    hide PathOf, FileBlock, Quot, Rem, Times, FileByte;
    BlockBytes(level, x, ino, k, block);
    var out' := out + block[left..right];
    forall j | 0 <= j < |out'| ensures out'[j] == FileByte(level, x, ino, off + j) {
      if j >= |out| {
        var r: nat := left + (j - |out|);
        assert out'[j] == block[r] && Times(4 * level, k) + r == off + j;
      }
    }
  }

  lemma BlockBytes(level: nat, x: State, ino: nat, k: nat, block: seq<byte>)
    requires level > 0 && block == FileBlock(level, x.tree, x.disk, ino, k) && |block| == 4 * level
    ensures forall r: nat {:trigger block[r]} :: r < 4 * level ==> FileByte(level, x, ino, Times(4 * level, k) + r) == block[r]
  {
    hide PathOf, FileBlock, Quot, Rem, Times;
    forall r: nat | r < 4 * level ensures FileByte(level, x, ino, Times(4 * level, k) + r) == block[r] {
      QuotRemAt(4 * level, k, r);
    }
  }
}
