/** No block is unaccounted for in any state that the operations can reach, and they can start from a volume without
    files. */
module Ext2Accounts {

  import opened Arith
  import opened Bytes
  import opened BlockTree
  import opened Ext2Alloc
  import opened Ext2Files

  // ----- counting the blocks of a volume

  ghost function TakenBelow(a: Allocator, disk: Disk, m: nat): set<nat>
    requires a.Bitmaps(disk)
  {
    set b | 0 <= b < m && a.InUse(disk, b)
  }

  ghost function FreeBelow(a: Allocator, disk: Disk, m: nat): nat
    requires a.Bitmaps(disk)
  {
    if m == 0 then 0 else FreeBelow(a, disk, m - 1) + (if a.InUse(disk, m - 1) then 0 else 1)
  }

  lemma TakenStep(a: Allocator, disk: Disk, m: nat)
    requires a.Bitmaps(disk) && m > 0
    ensures |TakenBelow(a, disk, m)| == |TakenBelow(a, disk, m - 1)| + (if a.InUse(disk, m - 1) then 1 else 0)
  {
    hide Quot, Rem, TestBit;
    var rest := TakenBelow(a, disk, m - 1);
    assert TakenBelow(a, disk, m) == if a.InUse(disk, m - 1) then rest + {m - 1} else rest;
  }

  lemma {:induction false} TakenAndFree(a: Allocator, disk: Disk, m: nat)
    requires a.Bitmaps(disk)
    ensures |TakenBelow(a, disk, m)| + FreeBelow(a, disk, m) == m
  {
    if m == 0 {
      assert TakenBelow(a, disk, 0) == {};
    } else {
      TakenAndFree(a, disk, m - 1);
      TakenStep(a, disk, m);
    }
  }

  /** The blocks of one group are the bits of its bitmap. */
  lemma {:induction false} FreeInGroup(a: Allocator, disk: Disk, g: nat, i: nat)
    requires a.Bitmaps(disk) && g < a.groups && i <= a.perGroup
    ensures FreeBelow(a, disk, Times(a.perGroup, g) + i) ==
              FreeBelow(a, disk, Times(a.perGroup, g)) + ClearCount(disk[a.bitmapAt[g]], i)
  {
    hide Times, Quot, Rem, TestBit;
    if i > 0 {
      FreeInGroup(a, disk, g, i - 1);
      QuotRemAt(a.perGroup, g, i - 1);
      assert FreeBelow(a, disk, Times(a.perGroup, g) + i) ==
             FreeBelow(a, disk, Times(a.perGroup, g) + i - 1) + (if a.InUse(disk, Times(a.perGroup, g) + i - 1) then 0 else 1);
    }
  }

  lemma {:induction false} FreeInGroups(a: Allocator, disk: Disk, free: seq<nat>, g: nat)
    requires a.Bitmaps(disk) && g <= a.groups && |free| == a.groups
    requires forall h :: 0 <= h < a.groups ==> free[h] == ClearCount(disk[a.bitmapAt[h]], a.perGroup)
    ensures FreeBelow(a, disk, Times(a.perGroup, g)) == Sum(free[..g])
  {
    hide FreeBelow, ClearCount, Sum, Times;
    if g == 0 {
      NoneBelow(a, disk);
    } else {
      FreeInGroups(a, disk, free, g - 1);
      FreeInGroup(a, disk, g - 1, a.perGroup);
      TimesNext(a.perGroup, g - 1);
      assert free[..g] == free[..g - 1] + [free[g - 1]];
      SumAppend(free[..g - 1], free[g - 1]);
    }
  }

  lemma NoneBelow(a: Allocator, disk: Disk)
    requires a.Bitmaps(disk)
    ensures FreeBelow(a, disk, Times(a.perGroup, 0)) == 0 && Sum([]) == 0
  {
  }

  lemma {:induction false} SumAppend(s: seq<nat>, x: nat)
    ensures Sum(s + [x]) == Sum(s) + x
  {
    if s != [] {
      assert (s + [x])[1..] == s[1..] + [x];
      SumAppend(s[1..], x);
    }
  }

  /** All blocks of the volume. */
  ghost function Total(a: Allocator): nat {
    Times(a.perGroup, a.groups)
  }

  lemma FreeCountExact(a: Allocator)
    requires a.Valid()
    ensures a.totalFree + |TakenBelow(a, a.disk, Total(a))| == Total(a)
  {
    TakenAndFree(a, a.disk, Total(a));
    FreeInGroups(a, a.disk, a.groupFree, a.groups);
    assert a.groupFree[..a.groups] == a.groupFree;
  }

  ghost function StoredBlocks(tree: Tree): set<nat> {
    set s | s in tree :: tree[s]
  }

  lemma {:induction false} StoredCount(tree: Tree)
    requires Unaliased(tree)
    ensures |StoredBlocks(tree)| == |tree|
    decreases |tree|
  {
    if tree != map[] {
      var s :| s in tree;
      var rest := tree - {s};
      assert tree.Keys == rest.Keys + {s};
      forall t, u | t in rest && u in rest ensures Apart(rest, t, u) { assert Apart(tree, t, u); }
      StoredCount(rest);
      forall t | t in rest ensures rest[t] != tree[s] { assert Apart(tree, t, s); }
      assert StoredBlocks(tree) == StoredBlocks(rest) + {tree[s]};
    }
  }

  /** Conservation: in every valid state each block of the volume is free, stored at exactly one slot of
      exactly one inode, or reserved, and the superblock's counter is what is left over. */
  lemma Conservation(v: Volume)
    requires v.Valid()
    ensures v.a.totalFree + |v.tree| + |v.reserved| == Total(v.a)
  {
    FreeCountExact(v.a);
    StoredCount(v.tree);
    var taken, stored := v.a.Taken(v.a.disk), StoredBlocks(v.tree);
    forall b ensures b in TakenBelow(v.a, v.a.disk, Total(v.a)) <==> b in stored || b in v.reserved {
      if b >= 0 {
        QuotSmall(b, v.a.perGroup, v.a.groups);
        assert AccountedBlock(taken, v.tree, v.reserved, b);
      }
      forall s | s in v.tree && v.tree[s] == b ensures b in taken { assert AccountedSlot(taken, v.tree, v.reserved, s); }
    }
    forall b | b in stored ensures b !in v.reserved {
      var s :| s in v.tree && v.tree[s] == b;
      assert AccountedSlot(taken, v.tree, v.reserved, s);
    }
    assert TakenBelow(v.a, v.a.disk, Total(v.a)) == stored + v.reserved;
  }

  lemma EmptyWellFormed(level: nat, disk: Disk, roots: Roots)
    requires forall i :: i in roots ==> roots[i] == seq(ROOTS, _ => 0)
    ensures WellFormed(level, disk, roots, map[], {})
  {
    forall i: nat, k: nat | i in roots && k < |roots[i]| ensures CoveredRoot(roots, map[], {}, i, k) { }
  }

  lemma EmptyCounted(level: nat, table: map<nat, InodeRecord>)
    requires forall i :: i in table ==> table[i].numBlocks == 0
    ensures Counted(level, table, map[], map[])
  {
    forall i | i in table ensures table[i].numBlocks == UnitsOf(level, map[], map[], i) {
      assert SlotsOf(map[], i) == {};
    }
  }

  lemma EmptyAccounted(taken: iset<nat>, reserved: set<nat>)
    requires forall b :: b in reserved <==> b in taken
    ensures Accounted(taken, map[], reserved)
  {
    forall b ensures AccountedBlock(taken, map[], reserved, b) { }
  }

  /** A volume without file data is valid: the invariant has a starting point. */
  lemma FormattedValid(v: Volume)
    requires v.a.Valid() && v.tree == map[] && v.lost == map[]
    requires forall i :: i in v.table ==> v.table[i].numBlocks == 0 && v.table[i].blocks == seq(ROOTS, _ => 0)
    requires forall b :: b in v.reserved <==> b in v.a.Taken(v.a.disk)
    requires 0 in v.reserved && forall g {:trigger v.a.bitmapAt[g]} :: 0 <= g < v.a.groups ==> v.a.bitmapAt[g] in v.reserved
    ensures v.Valid()
  {
    hide WellFormed, Counted, Accounted;
    EmptyAccounted(v.a.Taken(v.a.disk), v.reserved);
    EmptyCounted(v.a.level, v.table);
    EmptyWellFormed(v.a.level, v.a.disk, RootsOf(v.table));
  }
}
