/** Releasing the blocks of a file: the recursive walk over its tables, and truncation. */
module Ext2Free {

  import opened Arith
  import opened Bytes
  import opened BlockTree
  import opened Ext2Alloc
  import opened Ext2Files

  /** What releasing slots may change: the blocks still stored keep their contents, every released
      block is counted once, and nothing becomes reserved. */
  ghost predicate Released(x: State, y: State) {
    && y.reserved == x.reserved
    && y.free + |y.tree| == x.free + |x.tree|
    && x.disk.Keys == y.disk.Keys
    && (forall s {:trigger s in y.tree} {:trigger y.tree[s]} :: s in y.tree ==>
          && s in x.tree && y.tree[s] == x.tree[s]
          && (x.tree[s] in x.disk ==> y.disk[x.tree[s]] == x.disk[x.tree[s]]))
  }

  lemma ReleasedNothing(x: State)
    ensures Released(x, x)
  {
  }

  lemma ReleasedTrans(x: State, m: State, y: State)
    requires Released(x, m) && Released(m, y)
    ensures Released(x, y)
  {
  }

  /** Freeing the block of one slot leaves the blocks of the other slots as they are. */
  lemma OthersHeld(a: Allocator, disk: Disk, disk': Disk, roots: Roots, tree: Tree, taken: iset<nat>, reserved: set<nat>,
                   gone: set<Slot>, s: Slot)
    requires WellFormed(a.level, disk, roots, tree, gone) && Accounted(taken, tree, reserved) && s in tree
    requires |a.bitmapAt| == a.groups && forall g {:trigger a.bitmapAt[g]} :: 0 <= g < a.groups ==> a.bitmapAt[g] in reserved
    requires a.SameData(disk, disk', {tree[s]})
    ensures forall t :: t in tree && t != s ==> tree[t] in disk' && (tree[t] in disk ==> disk'[tree[t]] == disk[tree[t]])
  {
    hide Linked, Covered;
    forall t | t in tree && t != s
      ensures tree[t] in disk' && (tree[t] in disk ==> disk'[tree[t]] == disk[tree[t]])
    {
      assert ShapedAt(a.level, disk, roots, tree, t);
      assert AccountedSlot(taken, tree, reserved, t);
      assert Apart(tree, s, t);
    }
  }

  lemma ReleasedOne(x: State, y: State, s: Slot)
    requires s in x.tree && y.tree == x.tree - {s} && y.reserved == x.reserved && y.free == x.free + 1
    requires x.disk.Keys == y.disk.Keys
    requires forall t :: t in x.tree && t != s ==>
               x.tree[t] in y.disk && (x.tree[t] in x.disk ==> y.disk[x.tree[t]] == x.disk[x.tree[t]])
    ensures Released(x, y)
  {
    assert y.tree.Keys == x.tree.Keys - {s};
  }

  /** A stored block can be freed. */
  lemma Releasable(v: Volume, roots: Roots, gone: set<Slot>, s: Slot)
    requires v.Sound(roots, gone) && s in v.tree
    ensures v.a.Bitmaps(v.a.disk) && v.tree[s] in v.a.Taken(v.a.disk) && v.a.Freeable(v.a.disk, v.tree[s])
    ensures Accounted(v.a.Taken(v.a.disk) - iset{v.tree[s]}, v.tree - {s}, v.reserved)
    ensures |v.a.bitmapAt| == v.a.groups
  {
    assert ShapedAt(v.a.level, v.a.disk, roots, v.tree, s);
    assert AccountedSlot(v.a.Taken(v.a.disk), v.tree, v.reserved, s);
    AccountedFree(v.a.Taken(v.a.disk), v.tree, v.reserved, s);
  }

  /** Frees the block at a slot that has no children left; a table is overwritten with zeros first. */
  method Release(v: Volume, b: nat, isTable: bool, ghost s: Slot, ghost roots: Roots, ghost gone: set<Slot>, ghost gone': set<Slot>)
    requires v.Sound(roots, gone) && s in v.tree && |s.path| > 0 && b == v.tree[s]
    requires forall j: nat :: Child(s, j) !in v.tree
    requires s in gone' && forall c :: c in gone && c !in gone' ==> exists j: nat :: c == Child(s, j)
    modifies v`tree, v.a
    ensures v.Sound(roots, gone')
    ensures v.tree == old(v.tree) - {s}
    ensures Released(old(v.Now()), v.Now())
  {
    hide WellFormed, Accounted, Released, Allocator.Valid, Allocator.Bitmaps, TestBit, Quot, Rem;
    ghost var x := v.Now();
    Releasable(v, roots, gone, s);
    if isTable { v.a.WriteBlock(b, Zeros(4 * v.a.level)); }
    v.a.FreeBlock(b);
    OthersHeld(v.a, x.disk, v.a.disk, roots, x.tree, v.a.Taken(x.disk), x.reserved, gone, s);
    DetachWellFormed(v.a.level, x.disk, v.a.disk, roots, x.tree, gone, gone', s);
    ReleasedOne(x, State(x.tree - {s}, v.a.disk, x.reserved, v.a.totalFree), s);
    v.tree := v.tree - {s};
  }

  lemma PointerOrGone(level: nat, disk: Disk, roots: Roots, tree: Tree, gone: set<Slot>, s: Slot, j: nat)
    requires WellFormed(level, disk, roots, tree, gone)
    requires s in tree && |s.path| > 0 && IsIndex(s.path) && j < level && Child(s, j) !in gone
    ensures tree[s] in disk && |disk[tree[s]]| == 4 * level && tree[s] != 0
    ensures WordAt(disk[tree[s]], j) == At(tree, Child(s, j))
  {
    assert ShapedAt(level, disk, roots, tree, s);
    assert CoveredAt(level, disk, tree, gone, s, j);
    if Child(s, j) in tree {
      assert LinkedAt(level, disk, roots, tree, Child(s, j));
      assert Parent(Child(s, j)) == s && Last(Child(s, j)) == j;
    }
  }

  lemma WiderGone(level: nat, disk: Disk, roots: Roots, tree: Tree, gone: set<Slot>, gone': set<Slot>)
    requires WellFormed(level, disk, roots, tree, gone) && gone <= gone'
    ensures WellFormed(level, disk, roots, tree, gone')
  {
    forall t, j: nat | t in tree && |t.path| > 0 && IsIndex(t.path) && j < level
      ensures CoveredAt(level, disk, tree, gone', t, j)
    {
      assert CoveredAt(level, disk, tree, gone, t, j);
    }
    forall i, k: nat | i in roots && k < |roots[i]| ensures CoveredRoot(roots, tree, gone', i, k) {
      assert CoveredRoot(roots, tree, gone, i, k);
    }
  }

  /** A data slot has nothing below it. */
  lemma LeafPrune(level: nat, disk: Disk, roots: Roots, tree: Tree, s: Slot)
    requires Shaped(level, disk, roots, tree) && |s.path| > 0 && !IsIndex(s.path)
    ensures forall j: nat :: Child(s, j) !in tree
    ensures Prune(tree, s) == tree - {s}
  {
    forall t | t in tree ensures Under(s, t) <==> t == s {
      assert ShapedAt(level, disk, roots, tree, t);
      if Under(s, t) { assert t.path[..|s.path|] == s.path; }
    }
    forall j: nat ensures Child(s, j) !in tree {
      assert Under(s, Child(s, j)) && Child(s, j) != s;
    }
  }

  lemma KidsGone(s: Slot, i: nat, gone: set<Slot>)
    requires forall c :: c in gone ==> !Under(s, c)
    ensures gone + Kids(s, i) + {Child(s, i)} == gone + Kids(s, i + 1)
    ensures forall c :: c in gone + Kids(s, i) ==> !Under(Child(s, i), c)
  {
    forall c | c in gone + Kids(s, i) ensures !Under(Child(s, i), c) {
      UnderChild(s, i, c);
    }
  }

  /** One round of the loop of `ext2_free_block_tree`: everything under word `i` of a table is freed. `tree` is the
      tree before the first round. */
  method FreeChild(v: Volume, list: seq<byte>, i: nat, depth: nat, ghost s: Slot, ghost roots: Roots, ghost gone: set<Slot>,
                   ghost tree: Tree)
    requires v.Sound(roots, gone + Kids(s, i)) && i < v.a.level
    requires |s.path| > 0 && IsIndex(s.path) && depth == Depth(s.path[0]) - |s.path|
    requires forall c :: c in gone ==> !Under(s, c)
    requires v.tree == PruneKids(tree, s, i) && s in v.tree && v.tree[s] in v.a.disk && v.a.disk[v.tree[s]] == list
    modifies v`tree, v.a
    ensures v.Sound(roots, gone + Kids(s, i + 1))
    ensures v.tree == PruneKids(tree, s, i + 1) && s in v.tree && v.tree[s] == old(v.tree)[s]
    ensures v.tree[s] in v.a.disk && v.a.disk[v.tree[s]] == list
    ensures Released(old(v.Now()), v.Now())
    decreases depth, 0
  {
    ghost var kid := Child(s, i);
    KidsGone(s, i, gone);
    PruneKidsStep(tree, s, i);
    PointerOrGone(v.a.level, v.a.disk, roots, v.tree, gone + Kids(s, i), s, i);
    ReleasedNothing(v.Now());
    hide Shaped, Linked, Covered, Unaliased, Accounted;
    var sub := WordAt(list, i);
    AtZero(v.a.level, v.a.disk, roots, v.tree, kid);
    if sub == 0 {
      PruneAbsent(v.a.level, v.a.disk, roots, v.tree, kid);
      WiderGone(v.a.level, v.a.disk, roots, v.tree, gone + Kids(s, i), gone + Kids(s, i + 1));
    } else if depth > 0 {
      FreeBlockTree(v, sub, depth - 1, kid, roots, gone + Kids(s, i));
    } else {
      LeafPrune(v.a.level, v.a.disk, roots, v.tree, kid);
      Release(v, sub, false, kid, roots, gone + Kids(s, i), gone + Kids(s, i + 1));
    }
  }

  lemma SoundParts(v: Volume, roots: Roots, gone: set<Slot>, s: Slot)
    requires v.Sound(roots, gone)
    ensures WellFormed(v.a.level, v.a.disk, roots, v.tree, gone)
    ensures s in v.tree <==> At(v.tree, s) != 0
    ensures s in v.tree ==> v.tree[s] in v.a.disk
  {
    AtZero(v.a.level, v.a.disk, roots, v.tree, s);
  }

  lemma SoundWider(v: Volume, roots: Roots, gone: set<Slot>, gone': set<Slot>)
    requires v.Sound(roots, gone) && gone <= gone'
    ensures v.Sound(roots, gone')
  {
    hide Shaped, Linked, Covered, Unaliased, Accounted, Allocator.Valid;
    WiderGone(v.a.level, v.a.disk, roots, v.tree, gone, gone');
  }

  /** `ext2_free_block_tree`: releases the table at `s` and everything below it, nothing else. */
  method FreeBlockTree(v: Volume, root: nat, depth: nat, ghost s: Slot, ghost roots: Roots, ghost gone: set<Slot>)
    requires v.Sound(roots, gone) && root == At(v.tree, s)
    requires |s.path| > 0 && IsIndex(s.path) && depth == Depth(s.path[0]) - |s.path|
    requires forall c :: c in gone ==> !Under(s, c)
    modifies v`tree, v.a
    ensures v.Sound(roots, gone + {s})
    ensures v.tree == Prune(old(v.tree), s)
    ensures Released(old(v.Now()), v.Now())
    decreases depth, 1
  {
    hide Volume.Sound, WellFormed, Released;
    ReleasedNothing(v.Now());
    SoundParts(v, roots, gone, s);
    if root == 0 {
      PruneAbsent(v.a.level, v.a.disk, roots, v.tree, s);
      SoundWider(v, roots, gone, gone + {s});
      return;
    }
    var list := v.a.disk[root];
    PruneKidsNone(v.tree, s);
    assert gone + Kids(s, 0) == gone;
    for i := 0 to v.a.level
      invariant v.Sound(roots, gone + Kids(s, i))
      invariant v.tree == PruneKids(old(v.tree), s, i) && s in v.tree && v.tree[s] == root
      invariant root in v.a.disk && v.a.disk[root] == list
      invariant Released(old(v.Now()), v.Now())
    {
      ghost var m := v.Now();
      FreeChild(v, list, i, depth, s, roots, gone, old(v.tree));
      ReleasedTrans(old(v.Now()), m, v.Now());
    }
    ghost var m := v.Now();
    assert forall c :: c in gone + Kids(s, v.a.level) && c !in gone + {s} ==> exists j: nat :: c == Child(s, j);
    PruneKidsAll(v.a.level, old(v.a.disk), roots, old(v.tree), s);
    Release(v, root, true, s, roots, gone + Kids(s, v.a.level), gone + {s});
    ReleasedTrans(old(v.Now()), m, v.Now());
  }

  /** Once nothing is stored there any more, the inode's pointer may be zeroed. */
  lemma ClearRoot(level: nat, disk: Disk, roots: Roots, tree: Tree, ino: nat, k: nat)
    requires k < ROOTS && ino in roots && Slot(ino, [k]) !in tree
    requires WellFormed(level, disk, roots, tree, {Slot(ino, [k])})
    ensures |roots[ino]| == ROOTS
    ensures var row: seq<word> := roots[ino][k := 0]; WellFormed(level, disk, roots[ino := row], tree, {})
  {
    var row: seq<word> := roots[ino][k := 0];
    var roots', s := roots[ino := row], Slot(ino, [k]);
    forall t | t in tree ensures ShapedAt(level, disk, roots', tree, t) && LinkedAt(level, disk, roots', tree, t) {
      assert LinkedAt(level, disk, roots, tree, t);
      if |t.path| == 1 && t.ino == ino { assert t.path == [t.path[0]]; }
    }
    forall t, j: nat | t in tree && |t.path| > 0 && IsIndex(t.path) && j < level
      ensures CoveredAt(level, disk, tree, {}, t, j)
    {
      assert CoveredAt(level, disk, tree, {s}, t, j);
      assert |Child(t, j).path| > 1;
    }
    forall i: nat, h: nat | i in roots' && h < |roots'[i]| ensures CoveredRoot(roots', tree, {}, i, h) {
      assert CoveredRoot(roots, tree, {s}, i, h);
      if Slot(i, [h]) == s { assert [h][0] == [k][0]; }
    }
  }

  lemma LastUpdateCounts(m: Roots, i: nat, x: seq<word>, y: seq<word>)
    ensures m[i := x][i := y] == m[i := y]
  {
  }

  /** Releases what hangs on `blocks[k]`: one data block, or a tree of tables. */
  method FreeRoot(v: Volume, inode: Inode, ino: nat, k: nat)
    requires v.Open(inode, ino) && k < ROOTS
    modifies v`tree, v.a, inode`blocks
    ensures v.Open(inode, ino)
    ensures |old(inode.blocks)| == ROOTS && inode.blocks == old(inode.blocks)[k := 0]
    ensures v.tree == Prune(old(v.tree), Slot(ino, [k]))
    ensures Released(old(v.Now()), v.Now())
  {
    hide Linked, Covered, Unaliased, Accounted, Released;
    ReleasedNothing(v.Now());
    ghost var s, roots := Slot(ino, [k]), v.View(inode, ino);
    ReadRoot(v.a.level, v.a.disk, roots, v.tree, ino, k);
    AtZero(v.a.level, v.a.disk, roots, v.tree, s);
    var b := inode.blocks[k];
    if k < DIRECT {
      LeafPrune(v.a.level, v.a.disk, roots, v.tree, s);
      if b > 0 {
        Release(v, b, false, s, roots, {}, {s});
      } else {
        WiderGone(v.a.level, v.a.disk, roots, v.tree, {}, {s});
      }
    } else {
      FreeBlockTree(v, b, k - DIRECT, s, roots, {});
      assert {} + {s} == {s};
    }
    ClearRoot(v.a.level, v.a.disk, roots, v.tree, ino, k);
    LastUpdateCounts(RootsOf(v.table), ino, inode.blocks, inode.blocks[k := 0]);
    inode.blocks := inode.blocks[k := 0];
  }

  /** The block part of `ext2_truncate` and of `ext2_purge_inode`: the twelve direct pointers, then the
      single, double and triple indirect trees. */
  method ReleaseBlocks(v: Volume, inode: Inode, ino: nat)
    requires v.Open(inode, ino)
    modifies v`tree, v.a, inode`blocks
    ensures v.Open(inode, ino)
    ensures v.tree == Others(old(v.tree), ino)
    ensures Released(old(v.Now()), v.Now())
  {
    hide Shaped, Linked, Covered, Unaliased, Accounted, Released;
    ReleasedNothing(v.Now());
    ghost var top := Slot(ino, []);
    PruneKidsNone(v.tree, top);
    for k := 0 to ROOTS
      invariant v.Open(inode, ino)
      invariant v.tree == PruneKids(old(v.tree), top, k)
      invariant Released(old(v.Now()), v.Now())
    {
      ghost var m := v.Now();
      PruneKidsStep(old(v.tree), top, k);
      assert Child(top, k) == Slot(ino, [k]);
      FreeRoot(v, inode, ino, k);
      ReleasedTrans(old(v.Now()), m, v.Now());
    }
    AllRootsPassed(v.a.level, old(v.a.disk), old(v.View(inode, ino)), old(v.tree), ino);
  }

  lemma AllRootsPassed(level: nat, disk: Disk, roots: Roots, tree: Tree, ino: nat)
    requires Shaped(level, disk, roots, tree)
    ensures PruneKids(tree, Slot(ino, []), ROOTS) == Others(tree, ino)
  {
    forall s | s in tree ensures Passed(Slot(ino, []), ROOTS, s) <==> s.ino == ino {
      assert ShapedAt(level, disk, roots, tree, s);
    }
  }

  // ----- truncation

  /** The slots of the other inodes. */
  ghost function Others(tree: Tree, ino: nat): Tree {
    map s | s in tree && s.ino != ino :: tree[s]
  }

  lemma OthersCount(tree: Tree, ino: nat)
    ensures |tree| == |Others(tree, ino)| + |SlotsOf(tree, ino)|
    ensures SlotsOf(Others(tree, ino), ino) == {}
    ensures forall i :: i != ino ==> SlotsOf(Others(tree, ino), i) == SlotsOf(tree, i)
  {
    assert tree.Keys == Others(tree, ino).Keys + SlotsOf(tree, ino);
    forall i | i != ino ensures SlotsOf(Others(tree, ino), i) == SlotsOf(tree, i) {
    }
  }

  /** Exactly the blocks of the inode became free. */
  lemma TakenAfter(taken: iset<nat>, taken': iset<nat>, tree: Tree, reserved: set<nat>, ino: nat, b: nat)
    requires Accounted(taken, tree, reserved) && Accounted(taken', Others(tree, ino), reserved) && Unaliased(tree)
    ensures b in taken' <==> b in taken && !exists s :: s in tree && s.ino == ino && tree[s] == b
  {
    assert AccountedBlock(taken, tree, reserved, b) && AccountedBlock(taken', Others(tree, ino), reserved, b);
    if b in taken' && b !in reserved {
      var t :| t in Others(tree, ino) && Others(tree, ino)[t] == b;
      assert AccountedSlot(taken, tree, reserved, t);
      forall s | s in tree && tree[s] == b ensures s.ino != ino { assert Apart(tree, s, t); }
    }
    forall s | s in tree && s.ino == ino && tree[s] == b ensures b !in reserved {
      assert AccountedSlot(taken, tree, reserved, s);
    }
    if b in taken && b !in reserved && !exists s :: s in tree && s.ino == ino && tree[s] == b {
      var t :| t in tree && tree[t] == b;
      assert AccountedSlot(taken', Others(tree, ino), reserved, t);
    }
  }

  lemma TruncatedFiles(level: nat, x: State, y: State, ino: nat, i: nat, k: nat)
    requires level > 0 && Released(x, y) && y.tree == Others(x.tree, ino)
    ensures if i == ino then FileBlock(level, y.tree, y.disk, i, k) == Zeros(4 * level) else SameBlock(level, x, y, i, k)
  {
    hide PathOf;
  }

  lemma CountedTruncated(level: nat, t0: map<nat, InodeRecord>, t1: map<nat, InodeRecord>,
                         tree: Tree, lost: map<nat, nat>, ino: nat)
    requires Counted(level, t0, tree, lost) && TableKept(t0, t1, ino) && ino in t0 && t1[ino].numBlocks == 0
    ensures Counted(level, t1, Others(tree, ino), lost[ino := 0])
  {
    OthersCount(tree, ino);
    forall i | i in t1 ensures t1[i].numBlocks == UnitsOf(level, Others(tree, ino), lost[ino := 0], i) {
      assert t0[i].numBlocks == UnitsOf(level, tree, lost, i);
    }
  }

  /** `ext2_truncate`. The requested length is ignored: the file always becomes empty. Every block of the
      file is freed, once, and no other. */
  method Truncate(v: Volume, inode: Inode, ino: nat, len: nat)
    requires v.Valid() && v.Loaded(inode, ino)
    modifies v, v.a, inode
    ensures v.Valid() && v.Loaded(inode, ino)
    ensures inode.size == 0 && inode.numBlocks == 0
    ensures v.tree == Others(old(v.tree), ino) && v.reserved == old(v.reserved) && v.lost == old(v.lost)[ino := 0]
    ensures v.a.totalFree == old(v.a.totalFree) + |SlotsOf(old(v.tree), ino)|
    ensures forall b :: b in v.a.Taken(v.a.disk) <==>
              b in v.a.Taken(old(v.a.disk)) && !exists s :: s in old(v.tree) && s.ino == ino && old(v.tree)[s] == b
    ensures forall k: nat :: FileBlock(v.a.level, v.tree, v.a.disk, ino, k) == Zeros(4 * v.a.level)
    ensures forall i: nat, k: nat {:trigger SameBlock(v.a.level, old(v.Now()), v.Now(), i, k)} ::
              i != ino ==> SameBlock(v.a.level, old(v.Now()), v.Now(), i, k)
    ensures TableKept(old(v.table), v.table, ino)
  {
    hide Shaped, Linked, Covered, Accounted, Unaliased, Released, Counted, FileBlock;
    v.LoadedView(inode, ino);
    ReleaseBlocks(v, inode, ino);
    OthersCount(old(v.tree), ino);
    ReleasedCount(old(v.Now()), v.Now());
    inode.size := 0;
    inode.numBlocks := 0;
    v.WriteMetadata(inode, ino);
    v.LoadedView(inode, ino);
    CountedTruncated(v.a.level, old(v.table), v.table, old(v.tree), v.lost, ino);
    v.lost := v.lost[ino := 0];
    forall b ensures b in v.a.Taken(v.a.disk) <==>
              b in v.a.Taken(old(v.a.disk)) && !exists s :: s in old(v.tree) && s.ino == ino && old(v.tree)[s] == b {
      TakenAfter(v.a.Taken(old(v.a.disk)), v.a.Taken(v.a.disk), old(v.tree), v.reserved, ino, b);
    }
    forall i: nat, k: nat
      ensures if i == ino then FileBlock(v.a.level, v.tree, v.a.disk, i, k) == Zeros(4 * v.a.level)
              else SameBlock(v.a.level, old(v.Now()), v.Now(), i, k)
    {
      TruncatedFiles(v.a.level, old(v.Now()), v.Now(), ino, i, k);
    }
  }

  lemma ReleasedCount(x: State, y: State)
    requires Released(x, y)
    ensures y.free + |y.tree| == x.free + |x.tree| && y.reserved == x.reserved
  {
  }
}
