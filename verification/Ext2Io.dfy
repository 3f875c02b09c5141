/** Reading and writing byte ranges of an ext2 file. */
module Ext2Io {

  import opened Arith
  import opened Bytes
  import opened BlockTree
  import opened Ext2Files

  // ----- one block

  /** The slots that must exist for block `k` of the file to be stored. */
  ghost function Chain(level: nat, ino: nat, k: nat): set<Slot>
    requires level > 0
  {
    set j | 1 <= j <= |PathOf(level, k)| :: Slot(ino, PathOf(level, k)[..j])
  }

  /** The slots among them that do not exist yet: each one costs a block. */
  ghost function Need(level: nat, tree: Tree, ino: nat, k: nat): set<Slot>
    requires level > 0
  {
    Chain(level, ino, k) - tree.Keys
  }

  lemma NeedMissing(level: nat, tree: Tree, ino: nat, k: nat)
    requires level > 0
    ensures |Need(level, tree, ino, k)| ==
              |MissingTables(tree, SlotOf(level, ino, k))| + (if SlotOf(level, ino, k) in tree then 0 else 1)
  {
    var slot := SlotOf(level, ino, k);
    var p := slot.path;
    assert p[..|p|] == p;
    var m := MissingTables(tree, slot);
    assert slot !in m;
    if slot in tree {
      forall s ensures s in Need(level, tree, ino, k) <==> s in m { }
      assert Need(level, tree, ino, k) == m;
    } else {
      forall s ensures s in Need(level, tree, ino, k) <==> s in m || s == slot { }
      assert Need(level, tree, ino, k) == m + {slot};
    }
  }

  /** Storing block `k` created exactly the slots on its path. */
  lemma KeysAfter(level: nat, disk: Disk, roots: Roots, t0: Tree, t1: Tree, ino: nat, k: nat)
    requires level > 0 && WellFormed(level, disk, roots, t1, {})
    requires t0.Keys <= t1.Keys && GrewTowards(t0, t1, SlotOf(level, ino, k)) && SlotOf(level, ino, k) in t1
    ensures t1.Keys == t0.Keys + Chain(level, ino, k)
  {
    hide PathOf;
    var slot := SlotOf(level, ino, k);
    var p := PathOf(level, k);
    forall s | s in t1 ensures s in t0.Keys + Chain(level, ino, k) {
      assert OldOrOnTheWay(t0, t1, slot, s);
      assert ShapedAt(level, disk, roots, t1, s);
      if s !in t0 { assert s == Slot(ino, p[..|s.path|]); }
    }
    forall s | s in Chain(level, ino, k) ensures s in t1 {
      AncestorInTree(level, disk, roots, t1, s, slot);
    }
  }

  ghost predicate SlotKept(level: nat, t0: Tree, t1: Tree, ino: nat, j: nat)
    requires level > 0
  {
    SlotOf(level, ino, j) in t1 <==> SlotOf(level, ino, j) in t0
  }

  /** No other block of the file has come to be stored or been dropped. */
  ghost predicate SlotsKept(level: nat, t0: Tree, t1: Tree, ino: nat, k: nat)
    requires level > 0
  {
    forall j: nat {:trigger SlotKept(level, t0, t1, ino, j)} :: j != k ==> SlotKept(level, t0, t1, ino, j)
  }

  /** The slot of one block is not on the way to another one. */
  lemma OnlyOwnChain(level: nat, ino: nat, n: nat, k: nat)
    requires level > 0 && n != k
    ensures SlotOf(level, ino, k) !in Chain(level, ino, n)
  {
    PathOfValid(level, n);
    PathOfValid(level, k);
    var p, q := PathOf(level, n), PathOf(level, k);
    hide PathOf;
    if SlotOf(level, ino, k) in Chain(level, ino, n) {
      var j :| 1 <= j <= |p| && q == p[..j];
      if j == |p| {
        assert p[..j] == p;
        PathOfInjective(level, n, k);
      }
    }
  }

  /** Growing towards one block stores no other one. */
  lemma GrewSlotsKept(level: nat, t0: Tree, t1: Tree, ino: nat, k: nat)
    requires level > 0 && t0.Keys <= t1.Keys && GrewTowards(t0, t1, SlotOf(level, ino, k))
    ensures SlotsKept(level, t0, t1, ino, k)
  {
    forall j: nat | j != k ensures SlotKept(level, t0, t1, ino, j) {
      PathOfValid(level, j);
      PathOfValid(level, k);
      OnlyOwnChain(level, ino, k, j);
      hide PathOf;
      var s := SlotOf(level, ino, j);
      assert OldOrOnTheWay(t0, t1, SlotOf(level, ino, k), s);
      if Under(s, SlotOf(level, ino, k)) {
        assert s == Slot(ino, PathOf(level, k)[..|s.path|]);
      }
    }
  }

  /** The outcome of writing one block. It reaches the file exactly when there are enough free blocks
      for what is missing on its path. */
  ghost predicate Written(level: nat, x: State, y: State, ino: nat, k: nat, buf: seq<byte>, stored: bool)
    requires level > 0
  {
    && (stored <==> |Need(level, x.tree, ino, k)| <= x.free)
    && SameFilesBut(level, x, y, ino, k) && SlotsKept(level, x.tree, y.tree, ino, k)
    && (stored ==>
          && FileBlock(level, y.tree, y.disk, ino, k) == buf
          && y.tree.Keys == x.tree.Keys + Chain(level, ino, k)
          && y.free + |Need(level, x.tree, ino, k)| == x.free && y.reserved == x.reserved)
    && (!stored ==> SameBlock(level, x, y, ino, k) && y.free == 0)
  }

  /** Overwriting a data block. */
  lemma DataWriteWellFormed(level: nat, disk: Disk, roots: Roots, tree: Tree, s: Slot, buf: seq<byte>)
    requires WellFormed(level, disk, roots, tree, {})
    requires s in tree && |s.path| > 0 && !IsIndex(s.path) && |buf| == 4 * level
    ensures WellFormed(level, disk[tree[s] := buf], roots, tree, {})
    ensures DataKept(tree, disk, tree, disk[tree[s] := buf], {s})
  {
    var d := disk[tree[s] := buf];
    forall t | t in tree ensures ShapedAt(level, d, roots, tree, t) && LinkedAt(level, d, roots, tree, t) {
      assert ShapedAt(level, disk, roots, tree, t) && LinkedAt(level, disk, roots, tree, t);
      if |t.path| > 1 { assert Apart(tree, s, Parent(t)); ParentIsIndex(level, t); }
    }
    forall t, j: nat | t in tree && |t.path| > 0 && IsIndex(t.path) && j < level
      ensures CoveredAt(level, d, tree, {}, t, j)
    {
      assert CoveredAt(level, disk, tree, {}, t, j);
      assert Apart(tree, s, t);
    }
    forall t | t in tree && t != s ensures tree[t] != tree[s] { assert Apart(tree, s, t); }
  }

  /** Writes block `b`, which holds block `k` of the file, or else belongs to no file. */
  method PutData(v: Volume, b: nat, buf: seq<byte>, ghost ino: nat, ghost k: nat, ghost roots: Roots)
    requires v.Sound(roots, {}) && |buf| == 4 * v.a.level
    requires if SlotOf(v.a.level, ino, k) in v.tree then b == v.tree[SlotOf(v.a.level, ino, k)]
             else b in v.reserved && b !in v.a.bitmapAt && b in v.a.disk
    modifies v.a`disk
    ensures v.Sound(roots, {})
    ensures SameFilesBut(v.a.level, old(v.Now()), v.Now(), ino, k)
    ensures SlotOf(v.a.level, ino, k) in v.tree ==> FileBlock(v.a.level, v.tree, v.a.disk, ino, k) == buf
    ensures SlotOf(v.a.level, ino, k) !in v.tree ==> SameFiles(v.a.level, old(v.Now()), v.Now())
  {
    hide PathOf, Linked, Covered, Unaliased, Accounted;
    ghost var slot, level := SlotOf(v.a.level, ino, k), v.a.level;
    ghost var except := if slot in v.tree then {slot} else {};
    v.ShapeOf(roots);
    AtZero(level, v.a.disk, roots, v.tree, slot);
    PathOfValid(level, k);
    if slot in v.tree {
      DataWriteWellFormed(level, v.a.disk, roots, v.tree, slot, buf);
      NotABitmap(v, roots, slot);
    } else {
      LooseWriteWellFormed(v, roots, b, buf);
    }
    v.a.WriteBlock(b, buf);
    forall i: nat, n: nat | slot !in v.tree || (i, n) != (ino, k) ensures SameBlock(level, old(v.Now()), v.Now(), i, n) {
      if SlotOf(level, i, n) == slot { PathOfInjective(level, n, k); }
      BlockKept(level, old(v.Now()), v.Now(), except, i, n);
    }
  }

  lemma LooseWriteWellFormed(v: Volume, roots: Roots, b: nat, buf: seq<byte>)
    requires v.Sound(roots, {}) && b in v.reserved && b in v.a.disk
    ensures WellFormed(v.a.level, v.a.disk[b := buf], roots, v.tree, {})
    ensures DataKept(v.tree, v.a.disk, v.tree, v.a.disk[b := buf], {})
  {
    hide Linked, Covered, Unaliased;
    forall s | s in v.tree ensures v.tree[s] != b {
      assert AccountedSlot(v.a.Taken(v.a.disk), v.tree, v.reserved, s);
    }
    UntouchedWellFormed(v.a.level, v.a.disk, v.a.disk[b := buf], roots, v.tree);
  }

  lemma NotABitmap(v: Volume, roots: Roots, s: Slot)
    requires v.Sound(roots, {}) && s in v.tree
    ensures v.tree[s] !in v.a.bitmapAt
  {
    assert AccountedSlot(v.a.Taken(v.a.disk), v.tree, v.reserved, s);
  }

  /** `ext2_read_inode_block_virt`: a block that was never allocated reads as zeros. */
  method ReadBlock(v: Volume, inode: Inode, ino: nat, k: nat) returns (buf: seq<byte>)
    requires v.Valid() && v.Loaded(inode, ino)
    ensures buf == FileBlock(v.a.level, v.tree, v.a.disk, ino, k)
    ensures |buf| == 4 * v.a.level
  {
    hide PathOf, Linked, Covered, Unaliased, Accounted, Counted;
    v.LoadedView(inode, ino);
    var b := v.Lookup(inode, ino, k);
    AtZero(v.a.level, v.a.disk, RootsOf(v.table), v.tree, SlotOf(v.a.level, ino, k));
    if b == 0 {
      buf := Zeros(4 * v.a.level);
    } else {
      buf := v.a.disk[b];
    }
  }

  lemma WrittenExisting(level: nat, x: State, y: State, roots: Roots, ino: nat, k: nat, buf: seq<byte>)
    requires level > 0 && SlotOf(level, ino, k) in x.tree && WellFormed(level, x.disk, roots, x.tree, {})
    requires y.tree == x.tree && y.free == x.free && y.reserved == x.reserved
    requires SameFilesBut(level, x, y, ino, k) && FileBlock(level, y.tree, y.disk, ino, k) == buf
    ensures Written(level, x, y, ino, k, buf, true)
  {
    hide PathOf;
    forall s | s in Chain(level, ino, k) ensures s in x.tree {
      AncestorInTree(level, x.disk, roots, x.tree, s, SlotOf(level, ino, k));
    }
    assert Need(level, x.tree, ino, k) == {};
    assert x.tree.Keys + Chain(level, ino, k) == x.tree.Keys;
  }

  lemma WrittenFresh(level: nat, x: State, m: State, y: State, roots: Roots, ino: nat, k: nat, b: nat, buf: seq<byte>)
    requires level > 0 && SlotOf(level, ino, k) !in x.tree && SlotOf(level, ino, k) in m.tree
    requires Allocated(level, x, m, ino, k, b) && WellFormed(level, m.disk, roots, m.tree, {})
    requires y.tree == m.tree && y.free == m.free && y.reserved == m.reserved
    requires SameFilesBut(level, m, y, ino, k) && FileBlock(level, y.tree, y.disk, ino, k) == buf
    ensures Written(level, x, y, ino, k, buf, true)
  {
    hide PathOf, MissingTables, SlotsOf, FileBlock;
    NeedMissing(level, x.tree, ino, k);
    KeysAfter(level, m.disk, roots, x.tree, m.tree, ino, k);
    GrewSlotsKept(level, x.tree, m.tree, ino, k);
    forall i: nat, n: nat | (i, n) != (ino, k) ensures SameBlock(level, x, y, i, n) {
      assert SameBlock(level, x, m, i, n) && SameBlock(level, m, y, i, n);
    }
  }

  lemma WrittenLost(level: nat, x: State, m: State, y: State, ino: nat, k: nat, b: nat, buf: seq<byte>)
    requires level > 0 && SlotOf(level, ino, k) !in x.tree && SlotOf(level, ino, k) !in m.tree
    requires Allocated(level, x, m, ino, k, b) && y.tree == m.tree && y.free == m.free && SameFiles(level, m, y)
    ensures Written(level, x, y, ino, k, buf, false)
  {
    hide PathOf, MissingTables, SlotsOf, FileBlock;
    NeedMissing(level, x.tree, ino, k);
    GrewSlotsKept(level, x.tree, m.tree, ino, k);
    forall i: nat, n: nat ensures SameBlock(level, x, y, i, n) {
      assert SameBlock(level, x, m, i, n) && SameBlock(level, m, y, i, n);
    }
  }

  lemma WrittenNothing(level: nat, x: State, ino: nat, k: nat, buf: seq<byte>)
    requires level > 0 && SlotOf(level, ino, k) !in x.tree && x.free == 0
    ensures Written(level, x, x, ino, k, buf, false)
  {
    hide PathOf;
    NeedMissing(level, x.tree, ino, k);
  }

  /** `ext2_write_inode_block_virt`. It fails when the block is a hole and nothing is free. When there is
      room for the block but not for its tables it reports success and the data is lost. */
  method WriteBlock(v: Volume, inode: Inode, ino: nat, k: nat, buf: seq<byte>) returns (rc: int, ghost stored: bool)
    requires v.Valid() && v.Loaded(inode, ino) && |buf| == 4 * v.a.level
    requires k < DoubleEnd(v.a.level)
    modifies v, v.a, inode`blocks, inode`numBlocks
    ensures v.Valid() && v.Loaded(inode, ino)
    ensures Written(v.a.level, old(v.Now()), v.Now(), ino, k, buf, stored)
    ensures rc == if old(v.a.totalFree) == 0 && BlockOf(v.a.level, old(v.tree), ino, k) == 0 then -ENOSPC else 0
    ensures stored ==> rc == 0 && v.lost == old(v.lost)
    ensures SlotOf(v.a.level, ino, k) in old(v.tree) ==> stored
    ensures TableKept(old(v.table), v.table, ino)
  {
    hide PathOf, Shaped, Linked, Covered, Unaliased, Accounted, Counted, Written, Allocated, SameFilesBut, SameFiles, FileBlock;
    v.LoadedView(inode, ino);
    ghost var slot := SlotOf(v.a.level, ino, k);
    var b := v.Lookup(inode, ino, k);
    AtZero(v.a.level, v.a.disk, RootsOf(v.table), v.tree, slot);
    ghost var m := v.Now();
    if b == 0 {
      rc, b := v.AllocInodeBlock(inode, ino, k);
      m := v.Now();
      if rc != 0 {
        WrittenNothing(v.a.level, m, ino, k, buf);
        return rc, false;
      }
      AllocatedBlock(v.a.level, old(v.Now()), m, ino, k, b);
    }
    rc, stored := 0, slot in v.tree;
    PutData(v, b, buf, ino, k, RootsOf(v.table));
    if slot in old(v.tree) {
      WrittenExisting(v.a.level, m, v.Now(), RootsOf(v.table), ino, k, buf);
    } else if stored {
      WrittenFresh(v.a.level, old(v.Now()), m, v.Now(), RootsOf(v.table), ino, k, b, buf);
    } else {
      WrittenLost(v.a.level, old(v.Now()), m, v.Now(), ino, k, b, buf);
    }
  }

  lemma AllocatedBlock(level: nat, x: State, y: State, ino: nat, n: nat, b: nat)
    requires level > 0 && Allocated(level, x, y, ino, n, b)
    ensures SlotOf(level, ino, n) in y.tree ==> y.tree[SlotOf(level, ino, n)] == b
    ensures SlotOf(level, ino, n) !in y.tree ==> b in y.reserved
  {
    hide PathOf;
  }
}
