/** Inodes of an ext2 volume: finding, attaching and releasing the blocks of a file. */
module Ext2Files {

  import opened Arith
  import opened Bytes
  import opened BlockTree
  import opened Ext2Alloc

  const ENOSPC := 28

  /** The parts of an on-disk inode that these operations read or write. */
  datatype InodeRecord = InodeRecord(blocks: seq<word>, size: nat, numBlocks: nat)

  /** An inode read into memory. */
  class Inode {
    var blocks: seq<word>
    var size: nat
    /** Counted in units of 512 bytes. */
    var numBlocks: nat

    constructor (r: InodeRecord)
      ensures Record() == r
    {
      blocks, size, numBlocks := r.blocks, r.size, r.numBlocks;
    }

    function Record(): InodeRecord
      reads this
    {
      InodeRecord(blocks, size, numBlocks)
    }
  }

  function RootsOf(table: map<nat, InodeRecord>): Roots {
    map i | i in table :: table[i].blocks
  }

  ghost function SlotsOf(tree: Tree, ino: nat): set<Slot> {
    set s | s in tree && s.ino == ino
  }

  /** 512-byte units in one block. */
  function Units(level: nat): nat {
    4 * level / 512
  }

  /** Blocks outside the tree may change freely. */
  lemma UntouchedWellFormed(level: nat, disk: Disk, disk': Disk, roots: Roots, tree: Tree)
    requires WellFormed(level, disk, roots, tree, {})
    requires disk.Keys == disk'.Keys
    requires forall s :: s in tree && tree[s] in disk ==> disk'[tree[s]] == disk[tree[s]]
    ensures WellFormed(level, disk', roots, tree, {})
    ensures DataKept(tree, disk, tree, disk', {})
  {
    forall t | t in tree ensures ShapedAt(level, disk', roots, tree, t) && LinkedAt(level, disk', roots, tree, t) {
      assert ShapedAt(level, disk, roots, tree, t) && LinkedAt(level, disk, roots, tree, t);
    }
    forall t, j: nat | t in tree && |t.path| > 0 && IsIndex(t.path) && j < level
      ensures CoveredAt(level, disk', tree, {}, t, j)
    {
      assert CoveredAt(level, disk, tree, {}, t, j);
    }
  }

  /** One table may have been added, at `s`, if it was missing and a block was free. */
  ghost predicate Grew(t0: Tree, t1: Tree, s: Slot, free0: nat, free1: nat) {
    if s in t0 || free0 == 0 then t1 == t0 && free1 == free0
    else s in t1 && t1 == t0[s := t1[s]] && free1 + 1 == free0
  }

  /** Reserved blocks, such as one allocated but not yet attached, keep their contents. */
  ghost predicate ReservedKept(d0: Disk, d1: Disk, bitmaps: seq<nat>, reserved: set<nat>) {
    && d0.Keys == d1.Keys
    && forall b :: b in reserved && b in d0 && b !in bitmaps ==> d1[b] == d0[b]
  }

  /** Every block taken, two at most, has been added to the inode's count of 512-byte units. */
  ghost predicate Charged(level: nat, n0: nat, n1: nat, free0: nat, free1: nat) {
    || (free1 == free0 && n1 == n0)
    || (free1 + 1 == free0 && n1 == n0 + Units(level))
    || (free1 + 2 == free0 && n1 == n0 + Units(level) + Units(level))
  }

  ghost predicate TableKept(t0: map<nat, InodeRecord>, t1: map<nat, InodeRecord>, ino: nat) {
    && t0.Keys == t1.Keys
    && forall i :: i in t0 && i != ino ==> t1[i] == t0[i]
  }

  /** Writing to a table changes no file data. */
  lemma StoredTableKeepsData(level: nat, t0: Tree, d0: Disk, t1: Tree, d1: Disk, s: Slot, kid: Slot)
    requires Unaliased(t0) && s in t0 && |s.path| > 0 && IsIndex(s.path)
    requires |kid.path| > 0 && IsIndex(kid.path) && kid !in t0 && kid in t1 && t1 == t0[kid := t1[kid]]
    requires d0.Keys == d1.Keys
    requires forall u :: u in t0 && t0[u] in d0 && t0[u] != t0[s] ==> d1[t0[u]] == d0[t0[u]]
    ensures DataKept(t0, d0, t1, d1, {})
  {
    forall u: Slot | u in t0 && |u.path| > 0 && !IsIndex(u.path) ensures t0[u] != t0[s] {
      assert Apart(t0, u, s);
    }
  }

  lemma StoredLeafKeepsData(t0: Tree, d0: Disk, t1: Tree, d1: Disk, s: Slot, leaf: Slot)
    requires Unaliased(t0) && s in t0 && |s.path| > 0 && IsIndex(s.path)
    requires leaf in t1 && t1 == t0[leaf := t1[leaf]]
    requires d0.Keys == d1.Keys
    requires forall u :: u in t0 && t0[u] in d0 && t0[u] != t0[s] ==> d1[t0[u]] == d0[t0[u]]
    ensures DataKept(t0, d0, t1, d1, {leaf})
  {
    forall u: Slot | u in t0 && |u.path| > 0 && !IsIndex(u.path) ensures t0[u] != t0[s] {
      assert Apart(t0, u, s);
    }
  }

  lemma DataKeptTrans(t0: Tree, d0: Disk, t1: Tree, d1: Disk, t2: Tree, d2: Disk)
    requires DataKept(t0, d0, t1, d1, {}) && DataKept(t1, d1, t2, d2, {})
    ensures DataKept(t0, d0, t2, d2, {})
  {
  }

  // ----- what attaching a block costs

  /** The tables on the way to `s` that do not exist yet. */
  ghost function MissingTables(tree: Tree, s: Slot): set<Slot> {
    set k | 1 <= k < |s.path| && Slot(s.ino, s.path[..k]) !in tree :: Slot(s.ino, s.path[..k])
  }

  /** Creating one of the missing tables leaves the others to create. */
  lemma MissingAfterGrew(t0: Tree, t1: Tree, s: Slot, free0: nat, free1: nat, slot: Slot)
    requires Grew(t0, t1, s, free0, free1)
    requires 0 < |s.path| < |slot.path| && s == Slot(slot.ino, slot.path[..|s.path|])
    ensures free1 <= free0 && |MissingTables(t0, slot)| == |MissingTables(t1, slot)| + (free0 - free1)
    ensures s !in t1 ==> free0 == 0 && |MissingTables(t0, slot)| > 0
  {
    if s in t0 || free0 == 0 {
      if s !in t0 { assert s in MissingTables(t0, slot); }
    } else {
      forall r ensures r in MissingTables(t0, slot) <==> r == s || r in MissingTables(t1, slot) {
        if r == s { assert slot.path[..|s.path|] == s.path; }
      }
      assert MissingTables(t0, slot) == MissingTables(t1, slot) + {s};
    }
  }

  lemma SlotsOfAdd(t: Tree, s: Slot, b: nat, i: nat)
    ensures |SlotsOf(t[s := b], i)| == |SlotsOf(t, i)| + (if i == s.ino && s !in t then 1 else 0)
  {
    if i == s.ino {
      assert SlotsOf(t[s := b], i) == SlotsOf(t, i) + {s};
    } else {
      assert SlotsOf(t[s := b], i) == SlotsOf(t, i);
    }
  }

  lemma GrewCount(t0: Tree, t1: Tree, s: Slot, free0: nat, free1: nat, i: nat)
    requires Grew(t0, t1, s, free0, free1)
    ensures free1 <= free0 && |SlotsOf(t1, i)| == |SlotsOf(t0, i)| + (if i == s.ino then free0 - free1 else 0)
  {
    if !(s in t0 || free0 == 0) { SlotsOfAdd(t0, s, t1[s], i); }
  }

  ghost predicate OldOrOnTheWay(t0: Tree, t1: Tree, slot: Slot, s: Slot) {
    s in t1 ==> s in t0 || Under(s, slot)
  }

  /** Slots were added only on the way to `slot`. */
  ghost predicate GrewTowards(t0: Tree, t1: Tree, slot: Slot) {
    forall s {:trigger OldOrOnTheWay(t0, t1, slot, s)} :: OldOrOnTheWay(t0, t1, slot, s)
  }

  lemma GrewTowardsTrans(t0: Tree, t1: Tree, t2: Tree, slot: Slot)
    requires GrewTowards(t0, t1, slot) && GrewTowards(t1, t2, slot)
    ensures GrewTowards(t0, t2, slot)
  {
    forall s ensures OldOrOnTheWay(t0, t2, slot, s) {
      assert OldOrOnTheWay(t0, t1, slot, s) && OldOrOnTheWay(t1, t2, slot, s);
    }
  }

  lemma GrewOnTheWay(t0: Tree, t1: Tree, s: Slot, free0: nat, free1: nat, slot: Slot)
    requires Grew(t0, t1, s, free0, free1) && Under(s, slot)
    ensures GrewTowards(t0, t1, slot)
  {
    forall t ensures OldOrOnTheWay(t0, t1, slot, t) {
    }
  }

  /** The abstract state that attaching a block works on. */
  datatype State = State(tree: Tree, disk: Disk, reserved: set<nat>, free: nat)

  /** Storing block `b` as the data block at `slot`: it works exactly when there are enough free blocks
      for the tables that are missing on the way, and then it takes exactly those. Otherwise the disk
      fills up and `b` stays behind, taken but not part of any file. */
  ghost predicate Attached(x: State, y: State, slot: Slot, b: nat, ok: bool) {
    && y.free <= x.free
    && (ok <==> |MissingTables(x.tree, slot)| <= x.free)
    && (forall s :: s in x.tree && s != slot ==> s in y.tree && y.tree[s] == x.tree[s])
    && GrewTowards(x.tree, y.tree, slot)
    && (ok ==>
          && x.free - y.free == |MissingTables(x.tree, slot)|
          && slot in y.tree && y.tree[slot] == b
          && DataKept(x.tree, x.disk, y.tree, y.disk, {slot})
          && (slot !in x.tree ==> y.reserved == x.reserved - {b}))
    && (!ok ==>
          && y.free == 0 && slot !in y.tree && y.reserved == x.reserved
          && DataKept(x.tree, x.disk, y.tree, y.disk, {}))
    && (forall i {:trigger SlotsOf(y.tree, i)} :: |SlotsOf(y.tree, i)| == |SlotsOf(x.tree, i)|
          + (if i == slot.ino then x.free - y.free + (if ok && slot !in x.tree then 1 else 0) else 0))
  }

  /** The last step: all tables are there. */
  lemma AttachedLeaf(x: State, y: State, slot: Slot, b: nat)
    requires |slot.path| > 0 && !IsIndex(slot.path)
    requires MissingTables(x.tree, slot) == {}
    requires y.tree == x.tree[slot := b] && y.free == x.free
    requires slot !in x.tree ==> y.reserved == x.reserved - {b}
    requires DataKept(x.tree, x.disk, y.tree, y.disk, {slot})
    ensures Attached(x, y, slot, b, true)
  {
    forall i ensures |SlotsOf(y.tree, i)| == |SlotsOf(x.tree, i)| + (if i == slot.ino && slot !in x.tree then 1 else 0) {
      SlotsOfAdd(x.tree, slot, b, i);
    }
    forall s ensures OldOrOnTheWay(x.tree, y.tree, slot, s) {
    }
  }

  /** An earlier step: one table on the way was made sure of. */
  lemma AttachedAfterGrew(x: State, m: State, y: State, s: Slot, slot: Slot, b: nat, ok: bool)
    requires Grew(x.tree, m.tree, s, x.free, m.free) && m.reserved == x.reserved
    requires DataKept(x.tree, x.disk, m.tree, m.disk, {})
    requires 0 < |s.path| < |slot.path| && s == Slot(slot.ino, slot.path[..|s.path|]) && IsIndex(s.path)
    requires |slot.path| > 0 && !IsIndex(slot.path)
    requires if s in m.tree then Attached(m, y, slot, b, ok) else y == m && !ok && slot !in m.tree
    ensures Attached(x, y, slot, b, ok)
  {
    MissingAfterGrew(x.tree, m.tree, s, x.free, m.free, slot);
    GrewOnTheWay(x.tree, m.tree, s, x.free, m.free, slot);
    if s in m.tree { GrewTowardsTrans(x.tree, m.tree, y.tree, slot); }
    forall i ensures |SlotsOf(m.tree, i)| == |SlotsOf(x.tree, i)| + (if i == s.ino then x.free - m.free else 0) {
      GrewCount(x.tree, m.tree, s, x.free, m.free, i);
    }
  }

  // ----- file contents

  /** Block `k` of a file; a hole reads as zeros. */
  ghost function FileBlock(level: nat, tree: Tree, disk: Disk, ino: nat, k: nat): seq<byte>
    requires level > 0
  {
    var b := BlockOf(level, tree, ino, k);
    if b != 0 && b in disk then disk[b] else Zeros(4 * level)
  }

  ghost predicate SameBlock(level: nat, x: State, y: State, i: nat, k: nat)
    requires level > 0
  {
    FileBlock(level, y.tree, y.disk, i, k) == FileBlock(level, x.tree, x.disk, i, k)
  }

  /** All files read the same, except perhaps block `n` of file `ino`. */
  ghost predicate SameFilesBut(level: nat, x: State, y: State, ino: nat, n: nat)
    requires level > 0
  {
    forall i: nat, k: nat {:trigger SameBlock(level, x, y, i, k)} :: (i, k) != (ino, n) ==> SameBlock(level, x, y, i, k)
  }

  ghost predicate SameFiles(level: nat, x: State, y: State)
    requires level > 0
  {
    forall i: nat, k: nat {:trigger SameBlock(level, x, y, i, k)} :: SameBlock(level, x, y, i, k)
  }

  lemma BlockKept(level: nat, x: State, y: State, except: set<Slot>, i: nat, k: nat)
    requires level > 0 && DataKept(x.tree, x.disk, y.tree, y.disk, except)
    requires SlotOf(level, i, k) !in except
    requires forall s :: s in x.tree || s in y.tree ==> |s.path| > 0 && ValidPath(level, s.path)
    ensures BlockOf(level, y.tree, i, k) == BlockOf(level, x.tree, i, k)
    ensures SameBlock(level, x, y, i, k)
  {
    PathOfValid(level, k);
    var s := SlotOf(level, i, k);
    if s in x.tree || s in y.tree { assert !IsIndex(s.path); }
  }

  /** After attaching a zero block: index `n` of the file answers the new block, every other index of
      every file its old answer, and nothing reads differently. */
  lemma AttachedLookup(level: nat, x: State, y: State, ino: nat, n: nat, b: nat, ok: bool)
    requires level > 0 && Attached(x, y, SlotOf(level, ino, n), b, ok)
    requires forall s :: s in x.tree || s in y.tree ==> |s.path| > 0 && ValidPath(level, s.path)
    ensures forall i: nat, k: nat :: BlockOf(level, y.tree, i, k) ==
              if ok && (i, k) == (ino, n) then b else BlockOf(level, x.tree, i, k)
    ensures SameFilesBut(level, x, y, ino, n)
    ensures !ok ==> SameFiles(level, x, y)
    ensures ok && SlotOf(level, ino, n) !in x.tree && b in y.disk && y.disk[b] == Zeros(4 * level) ==> SameFiles(level, x, y)
  {
    var slot := SlotOf(level, ino, n);
    forall i: nat, k: nat | !ok || (i, k) != (ino, n)
      ensures BlockOf(level, y.tree, i, k) == BlockOf(level, x.tree, i, k) && SameBlock(level, x, y, i, k)
    {
      if SlotOf(level, i, k) == slot { PathOfInjective(level, k, n); }
      BlockKept(level, x, y, if ok then {slot} else {}, i, k);
    }
  }

  /** The outcome of giving block `n` of file `ino` the fresh block `b`. */
  ghost predicate Allocated(level: nat, x: State, y: State, ino: nat, n: nat, b: nat)
    requires level > 0
  {
    var slot := SlotOf(level, ino, n);
    && y.free < x.free && SameFiles(level, x, y)
    && (slot in y.tree <==> |MissingTables(x.tree, slot)| < x.free)
    && (slot in y.tree ==>
          y.tree[slot] == b && y.free + 1 + |MissingTables(x.tree, slot)| == x.free && y.reserved == x.reserved)
    && (slot !in y.tree ==> y.free == 0 && y.reserved == x.reserved + {b})
    && (forall s :: s in x.tree ==> s in y.tree && y.tree[s] == x.tree[s])
    && GrewTowards(x.tree, y.tree, slot)
    && (forall i {:trigger SlotsOf(y.tree, i)} ::
          |SlotsOf(y.tree, i)| + (if i == ino && slot !in y.tree then 1 else 0)
            == |SlotsOf(x.tree, i)| + (if i == ino then x.free - y.free else 0))
  }

  lemma AllocatedFromAttached(level: nat, x: State, m: State, y: State, ino: nat, n: nat, b: nat, ok: bool)
    requires level > 0 && SlotOf(level, ino, n) !in x.tree
    requires m.tree == x.tree && m.free + 1 == x.free && m.reserved == x.reserved + {b} && b !in x.reserved
    requires DataKept(x.tree, x.disk, m.tree, m.disk, {})
    requires Attached(m, y, SlotOf(level, ino, n), b, ok)
    requires forall s :: s in x.tree || s in y.tree ==> |s.path| > 0 && ValidPath(level, s.path)
    requires b in y.disk && y.disk[b] == Zeros(4 * level)
    ensures Allocated(level, x, y, ino, n, b)
    ensures SlotOf(level, ino, n) in y.tree <==> ok
  {
    hide GrewTowards;
    AttachedLookup(level, m, y, ino, n, b, ok);
    forall i: nat, k: nat ensures SameBlock(level, x, y, i, k) {
      BlockKept(level, x, m, {}, i, k);
      assert SameBlock(level, m, y, i, k);
    }
  }

  /** Every block taken has been added to the count of 512-byte units. */
  ghost predicate Paid(level: nat, n0: nat, n1: nat, free0: nat, free1: nat) {
    free1 <= free0 && n1 == n0 + Times(Units(level), free0 - free1)
  }

  lemma ChargedUnits(level: nat, n0: nat, n1: nat, before: nat, free0: nat, free1: nat)
    requires Charged(level, n0, n1, free0, free1) && before == free0 + 1
    ensures Paid(level, n0, n1 + Units(level), before, free1)
  {
    var u := Units(level);
    assert Times(u, 1) == u + Times(u, 0);
    assert Times(u, 2) == u + Times(u, 1);
    assert Times(u, 3) == u + Times(u, 2);
  }

  lemma SinglePath(tree: Tree, ino: nat, j: nat)
    ensures Child(Slot(ino, [12]), j) == Slot(ino, [12, j])
    ensures Slot(ino, [12]) == Slot(ino, [12, j][..1])
    ensures Slot(ino, [12]) in tree ==> MissingTables(tree, Slot(ino, [12, j])) == {}
  {
  }

  lemma DoublePath(tree: Tree, ino: nat, c: nat, d: nat)
    ensures Child(Slot(ino, [13]), c) == Slot(ino, [13, c]) && Child(Slot(ino, [13, c]), d) == Slot(ino, [13, c, d])
    ensures Slot(ino, [13]) == Slot(ino, [13, c, d][..1]) && Slot(ino, [13, c]) == Slot(ino, [13, c, d][..2])
    ensures Slot(ino, [13]) in tree && Slot(ino, [13, c]) in tree ==> MissingTables(tree, Slot(ino, [13, c, d])) == {}
  {
    var p := [13, c, d];
    assert p[..1] == [13] && p[..2] == [13, c];
  }

  ghost function LostBy(lost: map<nat, nat>, ino: nat): nat {
    if ino in lost then lost[ino] else 0
  }

  /** The 512-byte units of the blocks stored at some slot of the inode, and of those it has lost. */
  ghost function UnitsOf(level: nat, tree: Tree, lost: map<nat, nat>, ino: nat): nat {
    Times(Units(level), |SlotsOf(tree, ino)| + LostBy(lost, ino))
  }

  ghost predicate Counted(level: nat, table: map<nat, InodeRecord>, tree: Tree, lost: map<nat, nat>) {
    forall i {:trigger UnitsOf(level, tree, lost, i)} :: i in table ==> table[i].numBlocks == UnitsOf(level, tree, lost, i)
  }

  /** In bytes: the count of an inode, in units of 512, is what its blocks take up, those lost included. */
  lemma CountedBytes(level: nat, table: map<nat, InodeRecord>, tree: Tree, lost: map<nat, nat>, i: nat)
    requires Counted(level, table, tree, lost) && i in table && level % 128 == 0
    ensures 512 * table[i].numBlocks == 4 * level * (|SlotsOf(tree, i)| + LostBy(lost, i))
  {
    var n := |SlotsOf(tree, i)| + LostBy(lost, i);
    assert table[i].numBlocks == UnitsOf(level, tree, lost, i);
    TimesIs(Units(level), n);
    assert 512 * Units(level) == 4 * level;
    assert 512 * (Units(level) * n) == (512 * Units(level)) * n;
  }

  lemma AllocatedSlots(level: nat, x: State, y: State, ino: nat, n: nat, b: nat, i: nat)
    requires level > 0 && Allocated(level, x, y, ino, n, b)
    ensures |SlotsOf(y.tree, i)| + (if i == ino && SlotOf(level, ino, n) !in y.tree then 1 else 0)
            == |SlotsOf(x.tree, i)| + (if i == ino then x.free - y.free else 0)
  {
  }

  lemma CountedAllocated(level: nat, x: State, y: State, ino: nat, n: nat, b: nat,
                         t0: map<nat, InodeRecord>, t1: map<nat, InodeRecord>, lost: map<nat, nat>, lost': map<nat, nat>)
    requires level > 0 && Allocated(level, x, y, ino, n, b)
    requires Counted(level, t0, x.tree, lost) && TableKept(t0, t1, ino)
    requires ino in t0 && Paid(level, t0[ino].numBlocks, t1[ino].numBlocks, x.free, y.free)
    requires lost' == if SlotOf(level, ino, n) in y.tree then lost else lost[ino := LostBy(lost, ino) + 1]
    ensures Counted(level, t1, y.tree, lost')
  {
    assert y.free < x.free;
    hide Times, Units, SlotsOf, Allocated;
    forall i | i in t1 ensures t1[i].numBlocks == UnitsOf(level, y.tree, lost', i) {
      AllocatedSlots(level, x, y, ino, n, b, i);
      assert t0[i].numBlocks == UnitsOf(level, x.tree, lost, i);
      assert |SlotsOf(y.tree, i)| + LostBy(lost', i) ==
             |SlotsOf(x.tree, i)| + LostBy(lost, i) + if i == ino then x.free - y.free else 0;
      TimesAdd(Units(level), |SlotsOf(x.tree, i)| + LostBy(lost, i), if i == ino then x.free - y.free else 0);
    }
  }

  lemma TableKeptTrans(t0: map<nat, InodeRecord>, t1: map<nat, InodeRecord>, t2: map<nat, InodeRecord>, ino: nat)
    requires TableKept(t0, t1, ino) && TableKept(t1, t2, ino)
    ensures TableKept(t0, t2, ino)
  {
  }

  class Volume {
    const a: Allocator
    /** The inode table on disk. */
    var table: map<nat, InodeRecord>
    /** Which block is stored at which slot, for all inodes together. */
    ghost var tree: Tree
    /** Blocks marked as taken that no inode refers to: metadata, and anything leaked. */
    ghost var reserved: set<nat>
    /** How many blocks each inode has been charged for without getting them. */
    ghost var lost: map<nat, nat>

    constructor (a: Allocator, table: map<nat, InodeRecord>, ghost tree: Tree, ghost reserved: set<nat>)
      ensures this.a == a && this.table == table && this.tree == tree && this.reserved == reserved && this.lost == map[]
    {
      this.a, this.table, this.tree, this.reserved, this.lost := a, table, tree, reserved, map[];
    }

    /** The invariant, for the given root pointers. */
    ghost predicate Sound(roots: Roots, gone: set<Slot>)
      reads this`tree, this`reserved, a
    {
      && a.Valid()
      && WellFormed(a.level, a.disk, roots, tree, gone)
      && Accounted(a.Taken(a.disk), tree, reserved)
      && 0 in reserved && (forall g {:trigger a.bitmapAt[g]} :: 0 <= g < a.groups ==> a.bitmapAt[g] in reserved)
    }

    /** The root pointers, with the copy of inode `ino` held in memory in place of the stored one. */
    ghost function View(inode: Inode, ino: nat): Roots
      reads this, inode
    {
      RootsOf(table)[ino := inode.blocks]
    }

    ghost predicate Open(inode: Inode, ino: nat)
      reads this, a, inode
    {
      ino in table && Sound(View(inode, ino), {})
    }

    /** Between operations: the stored inodes describe the tree, and each one's block count is exact. */
    ghost predicate Valid()
      reads this, a
    {
      a.level > 0 && Sound(RootsOf(table), {}) && Counted(a.level, table, tree, lost)
    }

    /** The inode in memory is the stored one. */
    ghost predicate Loaded(inode: Inode, ino: nat)
      reads this, inode
    {
      ino in table && table[ino] == inode.Record()
    }

    lemma LoadedView(inode: Inode, ino: nat)
      requires Loaded(inode, ino)
      ensures View(inode, ino) == RootsOf(table)
    {
    }

    /** `ext2_write_inode_metadata` */
    method WriteMetadata(inode: Inode, ino: nat)
      modifies this`table
      ensures table == old(table)[ino := inode.Record()]
      ensures View(inode, ino) == old(View(inode, ino))
    {
      table := table[ino := inode.Record()];
      assert View(inode, ino) == old(View(inode, ino));
    }

    /** Reads word `j` of the table stored at `s`; an absent table reads as zero. */
    method Follow(at: nat, j: nat, ghost s: Slot, ghost roots: Roots) returns (b: nat)
      requires Sound(roots, {}) && at == At(tree, s)
      requires |s.path| > 0 && IsIndex(s.path) && j < a.level
      ensures b == At(tree, Child(s, j))
    {
      if at == 0 {
        AtZero(a.level, a.disk, roots, tree, s);
        NoTableNoChild(a.level, a.disk, roots, tree, s, j);
        return 0;
      }
      ReadTable(a.level, a.disk, roots, tree, s, j);
      var tmp := a.disk[at];
      b := WordAt(tmp, j);
    }

    /** `ext2_inode_block_absolute`: the block of the file's index `n`, zero when there is none. */
    method Lookup(inode: Inode, ino: nat, n: nat) returns (b: nat)
      requires Open(inode, ino)
      ensures b == BlockOf(a.level, tree, ino, n)
    {
      ghost var roots := View(inode, ino);
      var level := a.level;
      var p := SplitIndex(level, n);
      PathOfValid(level, n);
      if p == [] {
        AtZero(level, a.disk, roots, tree, SlotOf(level, ino, n));
        return 0;
      }
      ReadRoot(level, a.disk, roots, tree, ino, p[0]);
      b := inode.blocks[p[0]];
      ghost var s := Slot(ino, [p[0]]);
      for k := 1 to |p|
        invariant s == Slot(ino, p[..k]) && b == At(tree, s)
      {
        assert p[..k + 1] == p[..k] + [p[k]];
        b := Follow(b, p[k], s, roots);
        s := Child(s, p[k]);
      }
      assert p[..|p|] == p;
    }

    // ----- attaching blocks

    /** A block from the allocator, not yet part of any file. */
    method NewBlock(ghost roots: Roots) returns (b: nat)
      requires Sound(roots, {})
      modifies this`reserved, a
      ensures Sound(roots, {})
      ensures b == 0 <==> old(a.totalFree) == 0
      ensures b == 0 ==> a.totalFree == 0 && a.disk == old(a.disk) && reserved == old(reserved)
      ensures b != 0 ==> a.totalFree + 1 == old(a.totalFree)
      ensures b != 0 ==> b !in old(reserved) && reserved == old(reserved) + {b} && !Holds(tree, b) && b !in a.bitmapAt
      ensures b < 0x1_0000_0000
      ensures b != 0 ==> b in a.disk && a.disk[b] == Zeros(4 * a.level)
      ensures a.SameData(old(a.disk), a.disk, {b})
      ensures DataKept(tree, old(a.disk), tree, a.disk, {})
    {
      b := a.AllocBlock();
      if b == 0 { return; }
      AccountedTake(a.Taken(old(a.disk)), tree, reserved, b);
      reserved := reserved + {b};
      forall s | s in tree && tree[s] in old(a.disk) ensures a.disk[tree[s]] == old(a.disk)[tree[s]] {
        assert AccountedSlot(a.Taken(old(a.disk)), tree, old(reserved), s);
      }
      UntouchedWellFormed(a.level, old(a.disk), a.disk, roots, tree);
    }

    /** Stores `b` in the inode itself. */
    method AttachRoot(inode: Inode, ino: nat, k: nat, b: nat)
      requires Open(inode, ino) && k < ROOTS && b < 0x1_0000_0000
      requires CanAttach(a.level, a.disk, View(inode, ino), tree, Slot(ino, [k]), b) && b in reserved && b !in a.bitmapAt
      modifies this`tree, this`reserved, inode`blocks
      ensures Open(inode, ino)
      ensures inode.blocks == old(inode.blocks)[k := b]
      ensures tree == old(tree)[Slot(ino, [k]) := b]
      ensures Slot(ino, [k]) !in old(tree) ==> reserved == old(reserved) - {b}
    {
      ghost var s := Slot(ino, [k]);
      AttachWellFormed(a.level, a.disk, View(inode, ino), tree, s, b);
      ReadRoot(a.level, a.disk, View(inode, ino), tree, ino, k);
      AccountedAttach(a.Taken(a.disk), tree, reserved, s, b);
      inode.blocks := inode.blocks[k := b];
      reserved := if s in tree then reserved - {b} + {tree[s]} else reserved - {b};
      tree := tree[s := b];
      assert StoreRoot(old(View(inode, ino)), s, b) == View(inode, ino);
    }

    /** Stores `b` as word `j` of the table at `s`. */
    method AttachWord(at: nat, j: nat, b: nat, ghost s: Slot, ghost roots: Roots)
      requires Sound(roots, {}) && b < 0x1_0000_0000
      requires s in tree && |s.path| > 0 && IsIndex(s.path) && j < a.level && at == tree[s]
      requires CanAttach(a.level, a.disk, roots, tree, Child(s, j), b) && b in reserved && b !in a.bitmapAt
      modifies this`tree, this`reserved, a`disk
      ensures Sound(roots, {})
      ensures tree == old(tree)[Child(s, j) := b]
      ensures Child(s, j) !in old(tree) ==> reserved == old(reserved) - {b}
      ensures at in old(a.disk) && a.disk.Keys == old(a.disk).Keys
      ensures forall c :: c in a.disk && c != at ==> a.disk[c] == old(a.disk)[c]
    {
      ghost var t := Child(s, j);
      assert Parent(t) == s && Last(t) == j;
      AttachWellFormed(a.level, a.disk, roots, tree, t, b);
      AccountedAttach(a.Taken(a.disk), tree, reserved, t, b);
      assert AccountedSlot(a.Taken(a.disk), tree, reserved, s);
      var buffer := a.disk[at];
      buffer := StoreWord(buffer, j, b);
      a.WriteBlock(at, buffer);
      reserved := if t in tree then reserved - {b} + {tree[t]} else reserved - {b};
      tree := tree[t := b];
    }

    /** A fresh table, stored in the inode itself. */
    method NewRoot(inode: Inode, ino: nat, k: nat) returns (b: nat)
      requires Open(inode, ino) && DIRECT <= k < ROOTS && Slot(ino, [k]) !in tree
      modifies this`tree, this`reserved, a, inode`blocks
      ensures Open(inode, ino)
      ensures b == 0 <==> old(a.totalFree) == 0
      ensures b == 0 ==> tree == old(tree) && a.totalFree == 0
      ensures b != 0 ==> tree == old(tree)[Slot(ino, [k]) := b] && a.totalFree + 1 == old(a.totalFree)
      ensures reserved == old(reserved) && ReservedKept(old(a.disk), a.disk, a.bitmapAt, reserved)
      ensures DataKept(old(tree), old(a.disk), tree, a.disk, {})
    {
      b := NewBlock(View(inode, ino));
      if b == 0 { return; }
      AttachRoot(inode, ino, k, b);
    }

    /** Makes sure that the inode points to a table at `blocks[k]`. */
    method EnsureRoot(inode: Inode, ino: nat, k: nat) returns (ok: bool)
      requires Open(inode, ino) && DIRECT <= k < ROOTS
      modifies this`tree, this`reserved, this`table, a, inode`blocks, inode`numBlocks
      ensures Open(inode, ino)
      ensures ok <==> Slot(ino, [k]) in tree
      ensures Grew(old(tree), tree, Slot(ino, [k]), old(a.totalFree), a.totalFree)
      ensures Charged(a.level, old(inode.numBlocks), inode.numBlocks, old(a.totalFree), a.totalFree)
      ensures reserved == old(reserved) && ReservedKept(old(a.disk), a.disk, a.bitmapAt, reserved)
      ensures DataKept(old(tree), old(a.disk), tree, a.disk, {})
      ensures TableKept(old(table), table, ino)
    {
      ReadRoot(a.level, a.disk, View(inode, ino), tree, ino, k);
      AtZero(a.level, a.disk, View(inode, ino), tree, Slot(ino, [k]));
      ok := true;
      if inode.blocks[k] == 0 {
        var b := NewRoot(inode, ino, k);
        if b == 0 { return false; }
        inode.numBlocks := inode.numBlocks + Units(a.level);
        WriteMetadata(inode, ino);
      }
    }

    /** A fresh table, stored as word `c` of the table at `s`. */
    method NewTable(at: nat, c: nat, ghost s: Slot, ghost roots: Roots) returns (t: nat)
      requires Sound(roots, {}) && s in tree && at == tree[s]
      requires |s.path| > 0 && IsIndex(s.path) && c < a.level && IsIndex(Child(s, c).path) && Child(s, c) !in tree
      modifies this`tree, this`reserved, a
      ensures Sound(roots, {})
      ensures t == 0 <==> old(a.totalFree) == 0
      ensures t == 0 ==> tree == old(tree) && a.totalFree == 0
      ensures t != 0 ==> tree == old(tree)[Child(s, c) := t] && a.totalFree + 1 == old(a.totalFree)
      ensures reserved == old(reserved) && ReservedKept(old(a.disk), a.disk, a.bitmapAt, reserved)
      ensures DataKept(old(tree), old(a.disk), tree, a.disk, {})
    {
      ghost var kid := Child(s, c);
      AtZero(a.level, a.disk, roots, tree, s);
      assert AccountedSlot(a.Taken(a.disk), tree, reserved, s);
      t := NewBlock(roots);
      if t == 0 { return; }
      ghost var d1 := a.disk;
      assert ValidPath(a.level, kid.path) && Parent(kid) == s;
      assert ShapedAt(a.level, a.disk, roots, tree, s);
      AttachWord(at, c, t, s, roots);
      StoredTableKeepsData(a.level, old(tree), d1, tree, a.disk, s, kid);
      DataKeptTrans(old(tree), old(a.disk), old(tree), d1, tree, a.disk);
    }

    /** Makes sure that word `c` of the table at `s` points to a table; zero when the disk is full. */
    method EnsureEntry(inode: Inode, ino: nat, at: nat, c: nat, ghost s: Slot) returns (t: nat)
      requires Open(inode, ino) && s in tree && s.ino == ino && at == tree[s]
      requires |s.path| > 0 && IsIndex(s.path) && c < a.level && IsIndex(Child(s, c).path)
      modifies this`tree, this`reserved, a, inode`numBlocks
      ensures Open(inode, ino)
      ensures t == At(tree, Child(s, c)) && (t != 0 <==> Child(s, c) in tree)
      ensures Grew(old(tree), tree, Child(s, c), old(a.totalFree), a.totalFree)
      ensures Charged(a.level, old(inode.numBlocks), inode.numBlocks, old(a.totalFree), a.totalFree)
      ensures reserved == old(reserved) && ReservedKept(old(a.disk), a.disk, a.bitmapAt, reserved)
      ensures DataKept(old(tree), old(a.disk), tree, a.disk, {})
    {
      ghost var roots := View(inode, ino);
      ReadTable(a.level, a.disk, roots, tree, s, c);
      AtZero(a.level, a.disk, roots, tree, Child(s, c));
      t := WordAt(a.disk[at], c);
      if t == 0 {
        t := NewTable(at, c, s, roots);
        if t != 0 { inode.numBlocks := inode.numBlocks + Units(a.level); }
      }
    }

    ghost function Now(): State
      reads this, a
    {
      State(tree, a.disk, reserved, a.totalFree)
    }

    /** `b` has been allocated and belongs to no file yet. */
    ghost predicate Loose(b: nat)
      reads this, a
    {
      && b != 0 && b < 0x1_0000_0000
      && b in reserved && b !in a.bitmapAt
      && b in a.disk && |a.disk[b]| == 4 * a.level
    }

    lemma LooseCanAttach(roots: Roots, slot: Slot, b: nat)
      requires Sound(roots, {}) && Loose(b)
      requires ValidPath(a.level, slot.path) && !IsIndex(slot.path) && slot.ino in roots
      requires |slot.path| > 1 ==> Parent(slot) in tree
      ensures CanAttach(a.level, a.disk, roots, tree, slot, b)
    {
      if |slot.path| > 1 { assert ShapedAt(a.level, a.disk, roots, tree, Parent(slot)); }
      forall s | s in tree ensures tree[s] != b {
        assert AccountedSlot(a.Taken(a.disk), tree, reserved, s);
      }
    }

    /** The pointer is one of the inode's own. */
    method AddDirect(inode: Inode, ino: nat, b: nat, n: nat)
      requires Open(inode, ino) && Loose(b) && n < DIRECT
      modifies this`tree, this`reserved, inode`blocks
      ensures Open(inode, ino)
      ensures Attached(old(Now()), Now(), Slot(ino, [n]), b, true)
      ensures a.disk == old(a.disk)
    {
      ghost var slot := Slot(ino, [n]);
      LooseCanAttach(View(inode, ino), slot, b);
      AttachRoot(inode, ino, n, b);
      AttachedLeaf(old(Now()), Now(), slot, b);
    }

    /** The pointer is a word of an existing table. */
    method AddLeaf(at: nat, j: nat, b: nat, ghost s: Slot, ghost roots: Roots)
      requires Sound(roots, {}) && Loose(b)
      requires s in tree && at == tree[s] && |s.path| > 0 && IsIndex(s.path) && j < a.level
      requires !IsIndex(Child(s, j).path) && MissingTables(tree, Child(s, j)) == {}
      modifies this`tree, this`reserved, a`disk
      ensures Sound(roots, {})
      ensures Attached(old(Now()), Now(), Child(s, j), b, true)
      ensures b in a.disk && a.disk.Keys == old(a.disk).Keys && a.disk[b] == old(a.disk)[b]
    {
      ghost var slot := Child(s, j);
      assert ShapedAt(a.level, a.disk, roots, tree, s);
      assert Parent(slot) == s;
      LooseCanAttach(roots, slot, b);
      AttachWord(at, j, b, s, roots);
      StoredLeafKeepsData(old(tree), old(a.disk), tree, a.disk, s, slot);
      AttachedLeaf(old(Now()), Now(), slot, b);
    }

    /** The pointer is a word of the single-indirect table. */
    method AddSingle(inode: Inode, ino: nat, b: nat, j: nat) returns (ok: bool)
      requires Open(inode, ino) && Loose(b) && j < a.level
      modifies this`tree, this`reserved, this`table, a, inode`blocks, inode`numBlocks
      ensures Open(inode, ino)
      ensures Attached(old(Now()), Now(), Slot(ino, [12, j]), b, ok)
      ensures Charged(a.level, old(inode.numBlocks), inode.numBlocks, old(a.totalFree), a.totalFree)
      ensures b in a.disk && a.disk.Keys == old(a.disk).Keys && a.disk[b] == old(a.disk)[b]
      ensures TableKept(old(table), table, ino)
    {
      ghost var s, slot := Slot(ino, [12]), Slot(ino, [12, j]);
      ok := EnsureRoot(inode, ino, 12);
      SinglePath(tree, ino, j);
      ghost var m := Now();
      ghost var roots := View(inode, ino);
      if ok {
        ReadRoot(a.level, a.disk, roots, tree, ino, 12);
        AddLeaf(inode.blocks[12], j, b, s, roots);
      } else {
        NoTableNoChild(a.level, a.disk, roots, tree, s, j);
      }
      AttachedAfterGrew(old(Now()), m, Now(), s, slot, b, ok);
    }

    /** The pointer is a word of a second-level table, for which two tables may be missing. */
    method AddDouble(inode: Inode, ino: nat, b: nat, c: nat, d: nat) returns (ok: bool)
      requires Open(inode, ino) && Loose(b) && c < a.level && d < a.level
      modifies this`tree, this`reserved, this`table, a, inode`blocks, inode`numBlocks
      ensures Open(inode, ino)
      ensures Attached(old(Now()), Now(), Slot(ino, [13, c, d]), b, ok)
      ensures Charged(a.level, old(inode.numBlocks), inode.numBlocks, old(a.totalFree), a.totalFree)
      ensures b in a.disk && a.disk.Keys == old(a.disk).Keys && a.disk[b] == old(a.disk)[b]
      ensures TableKept(old(table), table, ino)
    {
      ghost var s, slot := Slot(ino, [13]), Slot(ino, [13, c, d]);
      ok := EnsureRoot(inode, ino, 13);
      DoublePath(tree, ino, c, d);
      ghost var m := Now();
      ghost var roots := View(inode, ino);
      if ok {
        ReadRoot(a.level, a.disk, roots, tree, ino, 13);
        ok := AddSecond(inode, ino, inode.blocks[13], b, c, d);
      } else {
        NoTableNoChild(a.level, a.disk, roots, tree, s, c);
        NoTableNoChild(a.level, a.disk, roots, tree, Child(s, c), d);
      }
      AttachedAfterGrew(old(Now()), m, Now(), s, slot, b, ok);
    }

    method AddSecond(inode: Inode, ino: nat, at: nat, b: nat, c: nat, d: nat) returns (ok: bool)
      requires Open(inode, ino) && Loose(b) && c < a.level && d < a.level
      requires Slot(ino, [13]) in tree && at == tree[Slot(ino, [13])]
      modifies this`tree, this`reserved, a, inode`numBlocks
      ensures Open(inode, ino)
      ensures Attached(old(Now()), Now(), Slot(ino, [13, c, d]), b, ok)
      ensures Charged(a.level, old(inode.numBlocks), inode.numBlocks, old(a.totalFree), a.totalFree)
      ensures old(a.totalFree) <= a.totalFree + 1
      ensures b in a.disk && a.disk.Keys == old(a.disk).Keys && a.disk[b] == old(a.disk)[b]
    {
      ghost var s, k, slot := Slot(ino, [13]), Slot(ino, [13, c]), Slot(ino, [13, c, d]);
      DoublePath(tree, ino, c, d);
      var t := EnsureEntry(inode, ino, at, c, s);
      DoublePath(tree, ino, c, d);
      ghost var m := Now();
      ghost var roots := View(inode, ino);
      ok := t != 0;
      if ok {
        AddLeaf(t, d, b, k, roots);
      } else {
        NoTableNoChild(a.level, a.disk, roots, tree, k, d);
      }
      AttachedAfterGrew(old(Now()), m, Now(), k, slot, b, ok);
    }

    lemma ShapeOf(roots: Roots)
      requires Sound(roots, {})
      ensures forall s :: s in tree ==> |s.path| > 0 && ValidPath(a.level, s.path)
    {
      forall s | s in tree ensures |s.path| > 0 && ValidPath(a.level, s.path) {
        assert ShapedAt(a.level, a.disk, roots, tree, s);
      }
    }

    /** `ext2_inode_add_block`, below the triple-indirect range: 1 when the block is in place, -2 when a
        table could not be allocated. */
    method AddBlock(inode: Inode, ino: nat, b: nat, n: nat) returns (rc: int)
      requires Open(inode, ino) && Loose(b) && n < DoubleEnd(a.level)
      modifies this`tree, this`reserved, this`table, a, inode`blocks, inode`numBlocks
      ensures Open(inode, ino)
      ensures rc == 1 || rc == -2
      ensures Attached(old(Now()), Now(), SlotOf(a.level, ino, n), b, rc == 1)
      ensures Charged(a.level, old(inode.numBlocks), inode.numBlocks, old(a.totalFree), a.totalFree)
      ensures b in a.disk && a.disk.Keys == old(a.disk).Keys && a.disk[b] == old(a.disk)[b]
      ensures TableKept(old(table), table, ino)
    {
      var p := SplitIndex(a.level, n);
      PathOfValid(a.level, n);
      if |p| == 1 {
        AddDirect(inode, ino, b, n);
        return 1;
      }
      var ok;
      if |p| == 2 {
        ok := AddSingle(inode, ino, b, p[1]);
      } else {
        ok := AddDouble(inode, ino, b, p[1], p[2]);
      }
      rc := if ok then 1 else -2;
    }

    /** A fresh block, added to the inode; `mid` is the number of free blocks left for tables. */
    method TakeAndAdd(inode: Inode, ino: nat, n: nat) returns (b: nat, ghost mid: nat)
      requires Open(inode, ino) && n < DoubleEnd(a.level) && SlotOf(a.level, ino, n) !in tree
      modifies this`tree, this`reserved, this`table, a, inode`blocks, inode`numBlocks
      ensures Open(inode, ino)
      ensures b == 0 <==> old(a.totalFree) == 0
      ensures b == 0 ==> Now() == old(Now()) && inode.Record() == old(inode.Record()) && table == old(table)
      ensures b != 0 ==> b in a.disk && b !in old(reserved) && b !in a.bitmapAt && !Holds(old(tree), b)
      ensures b != 0 ==> Allocated(a.level, old(Now()), Now(), ino, n, b)
      ensures b != 0 ==> mid + 1 == old(a.totalFree)
      ensures b != 0 ==> Charged(a.level, old(inode.numBlocks), inode.numBlocks, mid, a.totalFree)
      ensures TableKept(old(table), table, ino)
    {
      hide PathOf, Times, Units, Charged, Attached, Allocated, DataKept, MissingTables, WellFormed, Accounted, Holds;
      b := NewBlock(View(inode, ino));
      mid := a.totalFree;
      if b == 0 { return; }
      ghost var m := Now();
      ShapeOf(View(inode, ino));
      var added := AddBlock(inode, ino, b, n);
      ShapeOf(View(inode, ino));
      AllocatedFromAttached(a.level, old(Now()), m, Now(), ino, n, b, added == 1);
    }

    /** Charges the data block and stores the inode. */
    method Settle(inode: Inode, ino: nat)
      requires Open(inode, ino)
      modifies this`table, inode`numBlocks
      ensures Loaded(inode, ino) && Sound(RootsOf(table), {})
      ensures inode.numBlocks == old(inode.numBlocks) + Units(a.level)
      ensures TableKept(old(table), table, ino)
    {
      hide WellFormed, Accounted, Units;
      inode.numBlocks := inode.numBlocks + Units(a.level);
      WriteMetadata(inode, ino);
      LoadedView(inode, ino);
    }

    /** `ext2_alloc_inode_block`. The result of adding the block is not looked at: when a table is
        missing and the disk fills up, the call reports success with a block that is no part of the file. */
    method AllocInodeBlock(inode: Inode, ino: nat, n: nat) returns (rc: int, b: nat)
      requires Valid() && Loaded(inode, ino) && n < DoubleEnd(a.level)
      requires SlotOf(a.level, ino, n) !in tree
      modifies this, a, inode`blocks, inode`numBlocks
      ensures Valid() && Loaded(inode, ino)
      ensures rc == (if old(a.totalFree) == 0 then -ENOSPC else 0)
      ensures rc != 0 ==> Now() == old(Now()) && lost == old(lost)
      ensures rc == 0 ==> b in a.disk && b !in old(reserved) && b !in a.bitmapAt && !Holds(old(tree), b)
      ensures rc == 0 ==> Allocated(a.level, old(Now()), Now(), ino, n, b)
      ensures rc == 0 ==>
                lost == if SlotOf(a.level, ino, n) in tree then old(lost) else old(lost)[ino := LostBy(old(lost), ino) + 1]
      ensures TableKept(old(table), table, ino)
    {
      hide Sound, Counted, TableKept, Charged, Paid, PathOf, Times, Units, Attached, Allocated, DataKept, MissingTables,
        WellFormed, Accounted, Holds;
      LoadedView(inode, ino);
      ghost var mid, n0 := 0, inode.numBlocks;
      b, mid := TakeAndAdd(inode, ino, n);
      if b == 0 { return -ENOSPC, 0; }
      ghost var n1, t1 := inode.numBlocks, table;
      Settle(inode, ino);
      ChargedUnits(a.level, n0, n1, old(a.totalFree), mid, a.totalFree);
      TableKeptTrans(old(table), t1, table, ino);
      ghost var lost' := if SlotOf(a.level, ino, n) in tree then lost else lost[ino := LostBy(lost, ino) + 1];
      CountedAllocated(a.level, old(Now()), Now(), ino, n, b, old(table), table, lost, lost');
      lost := lost';
      rc := 0;
    }
  }

  /** The branch structure of the code: direct, single, double, triple, or out of reach. */
  method SplitIndex(level: nat, n: nat) returns (p: seq<nat>)
    requires level > 0
    ensures p == if n < TripleEnd(level) then PathOf(level, n) else []
  {
    TimesIs(level, level);
    TimesIs(Times(level, level), level);
    var sq := level * level;
    if n < DIRECT { return [n]; }
    var x := n - DIRECT;
    if x < level { return [12, x]; }
    var y := x - level;
    if y < sq {
      QuotRemIs(y, level);
      return [13, y / level, y % level];
    }
    var z := y - sq;
    if z < sq * level {
      QuotRemIs(z, sq);
      QuotRemIs(z % sq, level);
      return [14, z / sq, z % sq / level, z % sq % level];
    }
    p := [];
  }

  /** One free block, and the first table of the file still missing: the block is taken and lost. */
  lemma NoRoomForTable(level: nat, x: State, y: State, ino: nat, b: nat)
    requires level > 0 && Allocated(level, x, y, ino, DIRECT, b) && x.free == 1 && Slot(ino, [DIRECT]) !in x.tree
    ensures SlotOf(level, ino, DIRECT) !in y.tree && b in y.reserved
  {
    var slot := SlotOf(level, ino, DIRECT);
    assert slot == Slot(ino, [DIRECT, 0]);
    assert slot.path[..1] == [DIRECT];
    assert Slot(ino, [DIRECT]) in MissingTables(x.tree, slot);
  }
}
