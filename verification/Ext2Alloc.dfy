/** Block allocation of an ext2 volume: one bitmap block a group, a free counter in every group
    descriptor and one in the superblock. */
module Ext2Alloc {

  import opened Arith
  import opened Bytes
  import opened BlockTree

  function Sum(s: seq<nat>): nat {
    if s == [] then 0 else s[0] + Sum(s[1..])
  }

  lemma {:induction false} SumUpdate(s: seq<nat>, i: nat, v: nat)
    requires i < |s|
    ensures Sum(s[i := v]) == Sum(s) - s[i] + v
  {
    if i > 0 {
      assert s[i := v][1..] == s[1..][i - 1 := v];
      SumUpdate(s[1..], i - 1, v);
    } else {
      assert s[i := v][1..] == s[1..];
    }
  }

  lemma {:induction false} SumZero(s: seq<nat>)
    ensures Sum(s) == 0 <==> forall i :: 0 <= i < |s| ==> s[i] == 0
  {
    if s != [] {
      SumZero(s[1..]);
      assert forall i :: 0 <= i < |s[1..]| ==> s[1..][i] == s[i + 1];
      assert forall i :: 1 <= i < |s| ==> s[i] == s[1..][i - 1];
    }
  }

  class Allocator {
    /** 32-bit words a block: `block_size / 4`. */
    const level: nat
    const perGroup: nat
    const groups: nat
    /** `bgds[g].block_bitmap` */
    const bitmapAt: seq<nat>
    var disk: Disk
    /** `bgds[g].free_blocks` */
    var groupFree: seq<nat>
    /** `superblock->free_blocks` */
    var totalFree: nat

    constructor (level: nat, perGroup: nat, bitmapAt: seq<nat>, disk: Disk, groupFree: seq<nat>, totalFree: nat)
      ensures this.level == level && this.perGroup == perGroup && this.groups == |bitmapAt| && this.bitmapAt == bitmapAt
      ensures this.disk == disk && this.groupFree == groupFree && this.totalFree == totalFree
    {
      this.level, this.perGroup, this.groups, this.bitmapAt := level, perGroup, |bitmapAt|, bitmapAt;
      this.disk, this.groupFree, this.totalFree := disk, groupFree, totalFree;
    }

    ghost predicate Geometry() {
      && level > 0 && perGroup > 0 && perGroup <= 32 * level && perGroup < 0x1_0000
      && |bitmapAt| == groups
      && (forall g, h :: 0 <= g < groups && 0 <= h < groups && bitmapAt[g] == bitmapAt[h] ==> g == h)
      && forall b :: Quot(b, perGroup) < groups ==> b < 0x1_0000_0000
    }

    ghost predicate Bitmaps(disk: Disk) {
      && Geometry()
      && forall g {:trigger bitmapAt[g]} :: 0 <= g < groups ==>
           bitmapAt[g] in disk && |disk[bitmapAt[g]]| == 4 * level
    }

    /** The bitmaps mark `b` as taken; a number outside every group can never be handed out. */
    ghost predicate InUse(disk: Disk, b: nat)
      requires Bitmaps(disk)
    {
      Quot(b, perGroup) < groups ==> TestBit(disk[bitmapAt[Quot(b, perGroup)]], Rem(b, perGroup))
    }

    /** Block `g * perGroup + i` is bit `i` of the bitmap of group `g`. */
    lemma InUseByNumbers(disk: Disk, g: nat, i: nat)
      requires Bitmaps(disk) && g < groups && i < perGroup
      ensures InUse(disk, g * perGroup + i) <==> TestBit(disk[bitmapAt[g]], i)
    {
      QuotRemOf(g, i, perGroup);
    }

    /** Every group's counter is the number of clear bits of its bitmap, the superblock's their sum. */
    ghost predicate CountersAgree(disk: Disk, groupFree: seq<nat>, totalFree: nat)
      requires Bitmaps(disk)
    {
      && |groupFree| == groups
      && (forall g :: 0 <= g < groups ==> groupFree[g] == ClearCount(disk[bitmapAt[g]], perGroup))
      && totalFree == Sum(groupFree)
    }

    /** Block 0 and the bitmaps are never free, and free blocks exist. */
    ghost predicate Safe(disk: Disk)
      requires Bitmaps(disk)
    {
      && InUse(disk, 0)
      && (forall g {:trigger bitmapAt[g]} :: 0 <= g < groups ==> InUse(disk, bitmapAt[g]))
      && (forall b :: !InUse(disk, b) ==> b in disk && |disk[b]| == 4 * level)
    }

    ghost predicate Valid()
      reads this
    {
      Bitmaps(disk) && CountersAgree(disk, groupFree, totalFree) && Safe(disk)
    }

    /** The blocks of the volume that are in use. */
    ghost function Taken(disk: Disk): iset<nat>
      requires Bitmaps(disk)
    {
      iset b: nat | Quot(b, perGroup) < groups && InUse(disk, b)
    }

    /** What the bitmaps mean on a volume whose first data block is `first`, a field of the superblock that the code
        never reads: bit `i` of group `g` stands for block `first + g * perGroup + i`. */
    ghost predicate UsedOnDisk(disk: Disk, first: nat, b: nat)
      requires Bitmaps(disk)
    {
      b < first || InUse(disk, b - first)
    }

    /** Only `except` and the bitmap blocks differ between the two disks. */
    ghost predicate SameData(d: Disk, d': Disk, except: set<nat>) {
      && d.Keys == d'.Keys
      && forall c :: c in d && c !in except && c !in bitmapAt ==> d'[c] == d[c]
    }

    /** Rewrites one bit of one group and the two counters. */
    ghost predicate BitMoved(d: Disk, d': Disk, g: nat, i: nat)
      requires Bitmaps(d) && g < groups && i < perGroup
    {
      d' == d[bitmapAt[g] := if TestBit(d[bitmapAt[g]], i) then ClearBit(d[bitmapAt[g]], i) else SetBit(d[bitmapAt[g]], i)]
    }

    lemma FlipInUseAt(d: Disk, d': Disk, b: nat, c: nat)
      requires Bitmaps(d) && Quot(b, perGroup) < groups && BitMoved(d, d', Quot(b, perGroup), Rem(b, perGroup))
      requires Bitmaps(d') && Quot(c, perGroup) < groups
      ensures InUse(d', c) <==> (if c == b then !InUse(d, b) else InUse(d, c))
    {
      var g, i, h, j := Quot(b, perGroup), Rem(b, perGroup), Quot(c, perGroup), Rem(c, perGroup);
      if h != g {
        assert bitmapAt[h] != bitmapAt[g];
      } else if i == j {
        QuotRemSame(b, c, perGroup);
      }
    }

    /** Flipping the bit of `b` flips whether `b` is in use, and nothing else. */
    lemma FlipInUse(d: Disk, d': Disk, b: nat)
      requires Bitmaps(d) && Quot(b, perGroup) < groups && BitMoved(d, d', Quot(b, perGroup), Rem(b, perGroup))
      ensures Bitmaps(d') && SameData(d, d', {})
      ensures forall c :: InUse(d', c) <==> (if c == b then !InUse(d, b) else InUse(d, c))
    {
      assert Bitmaps(d');
      forall c ensures InUse(d', c) <==> (if c == b then !InUse(d, b) else InUse(d, c)) {
        if Quot(c, perGroup) < groups { FlipInUseAt(d, d', b, c); }
      }
    }

    /** The counters of the other groups do not see a change in one bitmap. */
    lemma OtherCounters(d: Disk, d': Disk, free: seq<nat>, total: nat, g: nat, bits: seq<byte>, count: nat)
      requires Bitmaps(d) && g < groups && d' == d[bitmapAt[g] := bits] && |bits| == 4 * level
      requires CountersAgree(d, free, total) && count == ClearCount(bits, perGroup)
      ensures Bitmaps(d') && CountersAgree(d', free[g := count], Sum(free[g := count]))
    {
      hide TestBit, SetBit, ClearBit, ClearCount, Sum;
      forall h | 0 <= h < groups ensures free[g := count][h] == ClearCount(d'[bitmapAt[h]], perGroup) {
        assert h != g ==> bitmapAt[h] != bitmapAt[g];
      }
    }

    /** The counters follow a change of one bit. */
    lemma FlipCounters(d: Disk, d': Disk, free: seq<nat>, total: nat, g: nat, i: nat)
      requires Bitmaps(d) && g < groups && i < perGroup && BitMoved(d, d', g, i)
      requires CountersAgree(d, free, total)
      ensures Bitmaps(d')
      ensures TestBit(d[bitmapAt[g]], i) ==> CountersAgree(d', free[g := free[g] + 1], total + 1)
      ensures !TestBit(d[bitmapAt[g]], i) ==>
                free[g] > 0 && total > 0 && CountersAgree(d', free[g := free[g] - 1], total - 1)
    {
      hide TestBit, SetBit, ClearBit, ClearCount, Sum;
      var bits := d[bitmapAt[g]];
      if TestBit(bits, i) {
        ClearCountClear(bits, i, perGroup);
        SumUpdate(free, g, free[g] + 1);
        OtherCounters(d, d', free, total, g, ClearBit(bits, i), free[g] + 1);
      } else {
        ClearCountSet(bits, i, perGroup);
        SumUpdate(free, g, free[g] - 1);
        OtherCounters(d, d', free, total, g, SetBit(bits, i), free[g] - 1);
      }
    }

    /** The first clear bit of a bitmap block. The code has no bound on this scan: it relies on the
        group's free counter to promise that there is one. */
    method FirstClear(bits: seq<byte>) returns (i: nat)
      requires perGroup <= 8 * |bits| && ClearCount(bits, perGroup) > 0
      ensures i < perGroup && !TestBit(bits, i)
      ensures forall j :: 0 <= j < i ==> TestBit(bits, j)
    {
      ghost var k := ClearCountPositive(bits, perGroup);
      i := 0;
      while TestBit(bits, i)
        invariant i <= k < perGroup && !TestBit(bits, k)
        invariant forall j :: 0 <= j < i ==> TestBit(bits, j)
        decreases k - i
      {
        i := i + 1;
      }
    }

    method Locate(b: nat) returns (g: nat, i: nat)
      requires perGroup > 0
      ensures g == Quot(b, perGroup) && i == Rem(b, perGroup)
    {
      QuotRemIs(b, perGroup);
      g, i := b / perGroup, b % perGroup;
    }

    /** Marks one free block as taken. */
    method Take(b: nat)
      requires Valid() && Quot(b, perGroup) < groups && !InUse(disk, b)
      modifies this`disk, this`groupFree, this`totalFree
      ensures Bitmaps(disk) && CountersAgree(disk, groupFree, totalFree)
      ensures totalFree + 1 == old(totalFree)
      ensures forall c :: InUse(disk, c) <==> InUse(old(disk), c) || c == b
      ensures SameData(old(disk), disk, {})
    {
      var g, i := Locate(b);
      var bits := disk[bitmapAt[g]];
      FlipCounters(disk, disk[bitmapAt[g] := SetBit(bits, i)], groupFree, totalFree, g, i);
      disk := disk[bitmapAt[g] := SetBit(bits, i)];
      groupFree := groupFree[g := groupFree[g] - 1];
      totalFree := totalFree - 1;
      FlipInUse(old(disk), disk, b);
    }

    /** The scan of `ext2_alloc_block`: groups in order, bits in order. */
    method FindFree() returns (b: nat)
      requires Valid()
      ensures b == 0 <==> totalFree == 0
      ensures b != 0 ==> Quot(b, perGroup) < groups && !InUse(disk, b)
      ensures forall c :: 0 <= c < b ==> InUse(disk, c)
    {
      b := 0;
      SumZero(groupFree);
      for g := 0 to groups
        invariant b == 0
        invariant forall h :: 0 <= h < g ==> groupFree[h] == 0
      {
        if groupFree[g] > 0 {
          // The code skips the group when this index is past the end of it; an exact counter rules that out.
          var i := FirstClear(disk[bitmapAt[g]]);
          QuotRemOf(g, i, perGroup);
          b := g * perGroup + i;
          assert !InUse(disk, b);
          forall c | 0 <= c < b ensures InUse(disk, c) {
            QuotRemOrder(c, b, perGroup);
            if Quot(c, perGroup) < g {
              ClearCountZero(disk[bitmapAt[Quot(c, perGroup)]], perGroup, Rem(c, perGroup));
            }
          }
          return;
        }
      }
    }

    lemma TakenAdd(d: Disk, d': Disk, b: nat)
      requires Bitmaps(d) && Bitmaps(d') && Quot(b, perGroup) < groups && !InUse(d, b)
      requires forall c :: InUse(d', c) <==> InUse(d, c) || c == b
      ensures b !in Taken(d) && Taken(d') == Taken(d) + iset{b}
    {
      hide InUse;
    }

    /** The lowest clear bit names a free block exactly on volumes that start with block 0. On all others the block is
        in use, because the bits before that one are set; and the block marked is another one. */
    lemma OnDisk(d: Disk, d': Disk, first: nat, b: nat)
      requires Bitmaps(d) && Bitmaps(d') && Quot(b, perGroup) < groups && !InUse(d, b)
      requires forall c :: 0 <= c < b ==> InUse(d, c)
      requires Taken(d') == Taken(d) + iset{b}
      ensures UsedOnDisk(d, first, b) <==> first > 0
      ensures forall c: nat {:trigger UsedOnDisk(d', first, c)} ::
                UsedOnDisk(d', first, c) <==> UsedOnDisk(d, first, c) || c == b + first
    {
      hide InUse;
      forall c: nat ensures UsedOnDisk(d', first, c) <==> UsedOnDisk(d, first, c) || c == b + first {
        if c >= first { InUseTaken(d, c - first); InUseTaken(d', c - first); }
      }
    }

    lemma InUseTaken(d: Disk, b: nat)
      requires Bitmaps(d)
      ensures InUse(d, b) <==> (Quot(b, perGroup) < groups ==> b in Taken(d))
    {
    }

    /** `ext2_alloc_block`: the lowest free block, zeroed; 0 exactly when nothing is free. */
    method AllocBlock() returns (b: nat)
      requires Valid()
      modifies this`disk, this`groupFree, this`totalFree
      ensures Valid()
      ensures b == 0 <==> old(totalFree) == 0
      ensures b == 0 ==> disk == old(disk) && groupFree == old(groupFree) && totalFree == old(totalFree)
      ensures b != 0 ==> totalFree + 1 == old(totalFree)
      ensures b < 0x1_0000_0000
      ensures b != 0 ==> Quot(b, perGroup) < groups && b !in bitmapAt
      ensures b != 0 ==> !InUse(old(disk), b) && forall c :: 0 <= c < b ==> InUse(old(disk), c)
      ensures b != 0 ==> b !in Taken(old(disk)) && Taken(disk) == Taken(old(disk)) + iset{b}
      ensures b != 0 ==> b in disk && disk[b] == Zeros(4 * level)
      ensures SameData(old(disk), disk, {b})
    {
      b := FindFree();
      if b == 0 { return; }
      assert !InUse(disk, b);
      Take(b);
      TakenAdd(old(disk), disk, b);
      WriteBlock(b, Zeros(4 * level));
    }

    /** The same call, as the format counts blocks: what is handed out was free exactly if the first data block is 0, and
        the block marked as taken is `first` further on. */
    method AllocBlockOnDisk(first: nat) returns (b: nat)
      requires Valid()
      modifies this`disk, this`groupFree, this`totalFree
      ensures Valid() && (b == 0 <==> old(totalFree) == 0)
      ensures b != 0 ==> (UsedOnDisk(old(disk), first, b) <==> first > 0)
      ensures b != 0 ==>
                forall c: nat :: UsedOnDisk(disk, first, c) <==> UsedOnDisk(old(disk), first, c) || c == b + first
    {
      hide UsedOnDisk, InUse, CountersAgree;
      b := AllocBlock();
      if b != 0 { OnDisk(old(disk), disk, first, b); }
    }

    /** `ext2_partition_write_block_virt` for one block that is not a bitmap. */
    method WriteBlock(b: nat, block: seq<byte>)
      requires Valid() && b in disk && b !in bitmapAt && |block| == 4 * level
      modifies this`disk
      ensures Valid() && Taken(disk) == Taken(old(disk))
      ensures disk == old(disk)[b := block]
    {
      disk := disk[b := block];
      assert forall c :: InUse(disk, c) <==> InUse(old(disk), c);
    }

    /** Clearing a clear bit changes no bit. */
    lemma StillClear(d: Disk, d': Disk, g: nat, i: nat)
      requires Bitmaps(d) && g < groups && i < perGroup && !TestBit(d[bitmapAt[g]], i)
      requires d' == d[bitmapAt[g] := ClearBit(d[bitmapAt[g]], i)]
      ensures Bitmaps(d') && forall c :: InUse(d', c) <==> InUse(d, c)
    {
      assert Bitmaps(d');
      assert d'[bitmapAt[g]] == ClearBit(d[bitmapAt[g]], i);
      forall c ensures InUse(d', c) <==> InUse(d, c) {
        if Quot(c, perGroup) < groups { assert Rem(c, perGroup) < perGroup; }
      }
    }

    /** Counting a block as freed that was free already puts the counters wrong. */
    lemma FreedTwice(d: Disk, d': Disk, free: seq<nat>, total: nat, g: nat, i: nat)
      requires Bitmaps(d) && g < groups && i < perGroup && !TestBit(d[bitmapAt[g]], i)
      requires d' == d[bitmapAt[g] := ClearBit(d[bitmapAt[g]], i)] && CountersAgree(d, free, total)
      ensures Bitmaps(d') && !CountersAgree(d', free[g := free[g] + 1], total + 1)
    {
      var bits := d[bitmapAt[g]];
      ClearCountSame(bits, ClearBit(bits, i), perGroup);
      assert Bitmaps(d');
      assert d'[bitmapAt[g]] == ClearBit(bits, i);
    }

    lemma GroupCounters()
      requires Valid()
      ensures |groupFree| == groups
    {
    }

    /** What clearing the bit of `b` does to the set of blocks in use. */
    lemma TakenRemove(d: Disk, d': Disk, b: nat)
      requires Bitmaps(d) && Quot(b, perGroup) < groups
      requires d' == d[bitmapAt[Quot(b, perGroup)] := ClearBit(d[bitmapAt[Quot(b, perGroup)]], Rem(b, perGroup))]
      ensures Bitmaps(d') && SameData(d, d', {})
      ensures forall c :: InUse(d', c) <==> InUse(d, c) && c != b
      ensures Taken(d') == Taken(d) - iset{b}
    {
      hide TestBit, SetBit, ClearBit, CountersAgree;
      var g, i := Quot(b, perGroup), Rem(b, perGroup);
      if InUse(d, b) {
        FlipInUse(d, d', b);
      } else {
        StillClear(d, d', g, i);
      }
    }

    /** The counters after the free: exact exactly if the block was taken. */
    lemma FreeCounters(d: Disk, d': Disk, free: seq<nat>, total: nat, g: nat, i: nat)
      requires Bitmaps(d) && g < groups && i < perGroup && CountersAgree(d, free, total)
      requires d' == d[bitmapAt[g] := ClearBit(d[bitmapAt[g]], i)]
      ensures Bitmaps(d') && (CountersAgree(d', free[g := free[g] + 1], total + 1) <==> TestBit(d[bitmapAt[g]], i))
    {
      hide TestBit, SetBit, ClearBit, InUse;
      if TestBit(d[bitmapAt[g]], i) {
        FlipCounters(d, d', free, total, g, i);
      } else {
        FreedTwice(d, d', free, total, g, i);
      }
    }

    /** A block that may be handed out again. */
    ghost predicate Freeable(disk: Disk, b: nat) {
      b != 0 && b !in bitmapAt && b in disk && |disk[b]| == 4 * level
    }

    lemma SafeAfterFree(d: Disk, d': Disk, b: nat)
      requires Bitmaps(d) && Bitmaps(d') && Safe(d) && SameData(d, d', {}) && Quot(b, perGroup) < groups
      requires forall c :: InUse(d', c) <==> InUse(d, c) && c != b
      ensures Safe(d') <==> Freeable(d, b)
    {
      hide InUse;
      assert !InUse(d', b);
      if !Freeable(d, b) {
        if b in bitmapAt {
          var g :| 0 <= g < groups && bitmapAt[g] == b;
          assert !InUse(d', bitmapAt[g]);
        }
      } else {
        forall g | 0 <= g < groups ensures InUse(d', bitmapAt[g]) { assert bitmapAt[g] in bitmapAt; }
        forall c | !InUse(d', c) ensures c in d' && |d'[c]| == 4 * level {
          if c != b { assert c in d && |d[c]| == 4 * level; }
        }
      }
    }

    /** `ext2_free_block`. The code does not look which block it is given: the counters stay exact and nothing but data
        blocks can be handed out later exactly if the block was taken and is a data block. */
    method FreeBlock(b: nat)
      requires Valid() && Quot(b, perGroup) < groups
      modifies this`disk, this`groupFree, this`totalFree
      ensures Bitmaps(disk) && (Valid() <==> old(InUse(disk, b) && Freeable(disk, b)))
      ensures totalFree == old(totalFree) + 1
      ensures Taken(disk) == Taken(old(disk)) - iset{b}
      ensures SameData(old(disk), disk, {})
    {
      hide TestBit, SetBit, ClearBit, CountersAgree, Safe, Freeable;
      var g, i := Locate(b);
      var bits := disk[bitmapAt[g]];
      GroupCounters();
      FreeCounters(disk, disk[bitmapAt[g] := ClearBit(bits, i)], groupFree, totalFree, g, i);
      TakenRemove(disk, disk[bitmapAt[g] := ClearBit(bits, i)], b);
      SafeAfterFree(disk, disk[bitmapAt[g] := ClearBit(bits, i)], b);
      disk := disk[bitmapAt[g] := ClearBit(bits, i)];
      groupFree := groupFree[g := groupFree[g] + 1];
      totalFree := totalFree + 1;
    }
  }
}
