/** The pointer tree of an ext2 inode: which block number is stored at which place.

    A place is a `Slot`: an inode number and a path. `[k]` is the inode's own `blocks[k]`,
    `[12, i]` is word `i` of the single-indirect table, `[13, c]` is word `c` of the
    double-indirect root and `[13, c, d]` word `d` of the table it points to, and so on.
    The abstract value of the whole structure is a map from slots to block numbers. */
module BlockTree {

  import opened Arith
  import opened Bytes

  const DIRECT := 12
  const ROOTS := 15

  datatype Slot = Slot(ino: nat, path: seq<nat>)

  type Disk = map<nat, seq<byte>>
  type Roots = map<nat, seq<word>>
  type Tree = map<Slot, nat>

  /** How many levels of tables hang under `blocks[k]`. */
  function Depth(k: nat): nat {
    if k < DIRECT then 0 else k - 11
  }

  predicate ValidPath(level: nat, p: seq<nat>) {
    && 1 <= |p|
    && p[0] < ROOTS
    && |p| <= 1 + Depth(p[0])
    && forall i :: 1 <= i < |p| ==> p[i] < level
  }

  /** The block stored here is itself a table of block numbers. */
  predicate IsIndex(p: seq<nat>)
    requires |p| > 0
  {
    |p| <= Depth(p[0])
  }

  function Parent(s: Slot): Slot
    requires |s.path| > 0
  {
    Slot(s.ino, s.path[..|s.path| - 1])
  }

  function Last(s: Slot): nat
    requires |s.path| > 0
  {
    s.path[|s.path| - 1]
  }

  function Child(s: Slot, j: nat): Slot {
    Slot(s.ino, s.path + [j])
  }

  // ----- the representation invariant

  ghost predicate ShapedAt(level: nat, disk: Disk, roots: Roots, tree: Tree, s: Slot)
    requires s in tree
  {
    && ValidPath(level, s.path) && s.ino in roots && |roots[s.ino]| == ROOTS
    && tree[s] != 0 && tree[s] in disk && |disk[tree[s]]| == 4 * level
  }

  /** Every slot of the tree is a possible place and stores a block that exists. */
  ghost predicate Shaped(level: nat, disk: Disk, roots: Roots, tree: Tree) {
    && (forall i :: i in roots ==> |roots[i]| == ROOTS)
    && (forall s {:trigger ShapedAt(level, disk, roots, tree, s)} :: s in tree ==> ShapedAt(level, disk, roots, tree, s))
  }

  ghost predicate LinkedAt(level: nat, disk: Disk, roots: Roots, tree: Tree, s: Slot)
    requires s in tree
  {
    && ShapedAt(level, disk, roots, tree, s)
    && if |s.path| == 1 then roots[s.ino][s.path[0]] == tree[s]
       else && Parent(s) in tree && ShapedAt(level, disk, roots, tree, Parent(s))
            && WordAt(disk[tree[Parent(s)]], Last(s)) == tree[s]
  }

  /** What the tree says is what the inode or the parent table stores. */
  ghost predicate Linked(level: nat, disk: Disk, roots: Roots, tree: Tree) {
    forall s {:trigger LinkedAt(level, disk, roots, tree, s)} :: s in tree ==> LinkedAt(level, disk, roots, tree, s)
  }

  ghost predicate CoveredRoot(roots: Roots, tree: Tree, gone: set<Slot>, i: nat, k: nat)
    requires i in roots && k < |roots[i]|
  {
    roots[i][k] != 0 ==> Slot(i, [k]) in tree || Slot(i, [k]) in gone
  }

  ghost predicate CoveredAt(level: nat, disk: Disk, tree: Tree, gone: set<Slot>, s: Slot, j: nat)
    requires s in tree && |s.path| > 0
  {
    && tree[s] in disk && 4 * j + 3 < |disk[tree[s]]|
    && (WordAt(disk[tree[s]], j) != 0 ==> Child(s, j) in tree || Child(s, j) in gone)
  }

  /** Every non-zero pointer is in the tree, except those listed as already released. */
  ghost predicate Covered(level: nat, disk: Disk, roots: Roots, tree: Tree, gone: set<Slot>) {
    && (forall i, k: nat {:trigger CoveredRoot(roots, tree, gone, i, k)} ::
          i in roots && k < |roots[i]| ==> CoveredRoot(roots, tree, gone, i, k))
    && (forall s, j: nat {:trigger CoveredAt(level, disk, tree, gone, s, j)} ::
          s in tree && |s.path| > 0 && IsIndex(s.path) && j < level ==> CoveredAt(level, disk, tree, gone, s, j))
  }

  ghost predicate Apart(tree: Tree, s: Slot, t: Slot)
    requires s in tree && t in tree
  {
    tree[s] == tree[t] ==> s == t
  }

  /** No block is stored at two places. */
  ghost predicate Unaliased(tree: Tree) {
    forall s, t {:trigger Apart(tree, s, t)} :: s in tree && t in tree ==> Apart(tree, s, t)
  }

  ghost predicate WellFormed(level: nat, disk: Disk, roots: Roots, tree: Tree, gone: set<Slot>) {
    && Shaped(level, disk, roots, tree)
    && Linked(level, disk, roots, tree)
    && Covered(level, disk, roots, tree, gone)
    && Unaliased(tree)
  }

  ghost predicate Holds(tree: Tree, b: nat) {
    exists s :: s in tree && tree[s] == b
  }

  /** The file data is the same in both states, except at the listed slots. */
  ghost predicate DataKept(t0: Tree, d0: Disk, t1: Tree, d1: Disk, except: set<Slot>) {
    forall s: Slot {:trigger s in t0} {:trigger s in t1} :: |s.path| > 0 && !IsIndex(s.path) && s !in except ==>
      && (s in t0 <==> s in t1)
      && (s in t0 ==> t1[s] == t0[s] && (t0[s] in d0 <==> t0[s] in d1) && (t0[s] in d0 ==> d1[t0[s]] == d0[t0[s]]))
  }

  // ----- which blocks are taken

  ghost predicate AccountedSlot(taken: iset<nat>, tree: Tree, reserved: set<nat>, s: Slot)
    requires s in tree
  {
    tree[s] in taken && tree[s] !in reserved
  }

  ghost predicate AccountedBlock(taken: iset<nat>, tree: Tree, reserved: set<nat>, b: nat) {
    && (b in reserved ==> b in taken)
    && (b in taken && b !in reserved ==> Holds(tree, b))
  }

  /** A taken block is stored at a slot or is reserved, never both. */
  ghost predicate Accounted(taken: iset<nat>, tree: Tree, reserved: set<nat>) {
    && (forall b {:trigger AccountedBlock(taken, tree, reserved, b)} :: AccountedBlock(taken, tree, reserved, b))
    && (forall s {:trigger AccountedSlot(taken, tree, reserved, s)} :: s in tree ==> AccountedSlot(taken, tree, reserved, s))
  }

  lemma AccountedTake(taken: iset<nat>, tree: Tree, reserved: set<nat>, b: nat)
    requires Accounted(taken, tree, reserved) && b !in taken
    ensures Accounted(taken + iset{b}, tree, reserved + {b}) && !Holds(tree, b) && b !in reserved
  {
    forall c ensures AccountedBlock(taken + iset{b}, tree, reserved + {b}, c) {
      assert AccountedBlock(taken, tree, reserved, c);
    }
    assert AccountedBlock(taken, tree, reserved, b);
    forall s | s in tree ensures AccountedSlot(taken + iset{b}, tree, reserved + {b}, s) && tree[s] != b {
      assert AccountedSlot(taken, tree, reserved, s);
    }
  }

  /** Storing a reserved block at a slot; a block that was stored there before becomes a leak. */
  lemma AccountedAttach(taken: iset<nat>, tree: Tree, reserved: set<nat>, s: Slot, b: nat)
    requires Accounted(taken, tree, reserved) && Unaliased(tree) && b in reserved
    ensures Accounted(taken, tree[s := b], if s in tree then reserved - {b} + {tree[s]} else reserved - {b})
  {
    var t' := tree[s := b];
    var r' := if s in tree then reserved - {b} + {tree[s]} else reserved - {b};
    forall c ensures AccountedBlock(taken, t', r', c) {
      assert AccountedBlock(taken, tree, reserved, c);
      if s in tree { assert AccountedSlot(taken, tree, reserved, s); }
      if c == b {
        assert t'[s] == b;
      } else if c in taken && c !in r' {
        var t :| t in tree && tree[t] == c;
        assert t in t' && t'[t] == c;
      }
    }
    forall t | t in t' ensures AccountedSlot(taken, t', r', t) {
      assert AccountedBlock(taken, tree, reserved, b);
      if t != s {
        assert AccountedSlot(taken, tree, reserved, t);
        if s in tree {
          assert AccountedSlot(taken, tree, reserved, s);
          assert Apart(tree, s, t);
        }
      } else if s in tree {
        assert AccountedSlot(taken, tree, reserved, s);
      }
    }
  }

  lemma AccountedFree(taken: iset<nat>, tree: Tree, reserved: set<nat>, s: Slot)
    requires Accounted(taken, tree, reserved) && Unaliased(tree) && s in tree
    ensures Accounted(taken - iset{tree[s]}, tree - {s}, reserved)
  {
    var t' := tree - {s};
    assert AccountedSlot(taken, tree, reserved, s);
    forall c ensures AccountedBlock(taken - iset{tree[s]}, t', reserved, c) {
      assert AccountedBlock(taken, tree, reserved, c);
      if c in taken && c !in reserved && c != tree[s] {
        var t :| t in tree && tree[t] == c;
        assert t in t' && t'[t] == c;
      }
    }
    forall t | t in t' ensures AccountedSlot(taken - iset{tree[s]}, t', reserved, t) {
      assert AccountedSlot(taken, tree, reserved, t);
      assert Apart(tree, s, t);
    }
  }

  // ----- reading pointers

  function At(tree: Tree, s: Slot): nat {
    if s in tree then tree[s] else 0
  }

  /** The inode's own pointer `k`, read through the map. */
  lemma ReadRoot(level: nat, disk: Disk, roots: Roots, tree: Tree, i: nat, k: nat)
    requires WellFormed(level, disk, roots, tree, {})
    requires i in roots && k < ROOTS
    ensures |roots[i]| == ROOTS && roots[i][k] == At(tree, Slot(i, [k]))
  {
    assert CoveredRoot(roots, tree, {}, i, k);
    var s := Slot(i, [k]);
    if s in tree { assert LinkedAt(level, disk, roots, tree, s); }
  }

  /** Word `j` of a table, read through the map. */
  lemma ReadTable(level: nat, disk: Disk, roots: Roots, tree: Tree, s: Slot, j: nat)
    requires WellFormed(level, disk, roots, tree, {})
    requires s in tree && |s.path| > 0 && IsIndex(s.path) && j < level
    ensures tree[s] in disk && |disk[tree[s]]| == 4 * level && tree[s] != 0
    ensures WordAt(disk[tree[s]], j) == At(tree, Child(s, j))
  {
    assert ShapedAt(level, disk, roots, tree, s);
    assert CoveredAt(level, disk, tree, {}, s, j);
    if Child(s, j) in tree {
      assert LinkedAt(level, disk, roots, tree, Child(s, j));
      assert Parent(Child(s, j)) == s && Last(Child(s, j)) == j;
    }
  }

  lemma AtZero(level: nat, disk: Disk, roots: Roots, tree: Tree, s: Slot)
    requires Shaped(level, disk, roots, tree)
    ensures s in tree <==> At(tree, s) != 0
    ensures s in tree ==> ValidPath(level, s.path) && tree[s] in disk && |disk[tree[s]]| == 4 * level
  {
    if s in tree { assert ShapedAt(level, disk, roots, tree, s); }
  }

  lemma NoTableNoChild(level: nat, disk: Disk, roots: Roots, tree: Tree, s: Slot, j: nat)
    requires WellFormed(level, disk, roots, tree, {})
    requires s !in tree && |s.path| > 0
    ensures Child(s, j) !in tree
  {
    if Child(s, j) in tree {
      AncestorInTree(level, disk, roots, tree, s, Child(s, j));
    }
  }

  // ----- storing one pointer

  function StorePointer(level: nat, disk: Disk, tree: Tree, s: Slot, b: word): Disk
    requires |s.path| > 1 ==> Parent(s) in tree && tree[Parent(s)] in disk
    requires |s.path| > 1 ==> 4 * Last(s) + 3 < |disk[tree[Parent(s)]]|
  {
    if |s.path| <= 1 then disk
    else disk[tree[Parent(s)] := StoreWord(disk[tree[Parent(s)]], Last(s), b)]
  }

  function StoreRoot(roots: Roots, s: Slot, b: word): Roots
    requires s.ino in roots && |roots[s.ino]| == ROOTS
    requires |s.path| == 1 ==> s.path[0] < ROOTS
  {
    if |s.path| == 1 then
      var row: seq<word> := roots[s.ino][s.path[0] := b];
      roots[s.ino := row]
    else roots
  }

  /** A fresh block may be stored at any slot whose parent table exists; as a new table only if it
      is all zeros and the slot was empty. */
  ghost predicate CanAttach(level: nat, disk: Disk, roots: Roots, tree: Tree, s: Slot, b: word) {
    && WellFormed(level, disk, roots, tree, {})
    && ValidPath(level, s.path) && s.ino in roots
    && (|s.path| > 1 ==> Parent(s) in tree && ShapedAt(level, disk, roots, tree, Parent(s)))
    && (IsIndex(s.path) ==> s !in tree)
    && b != 0 && b in disk && |disk[b]| == 4 * level
    && !Holds(tree, b)
    && (IsIndex(s.path) ==> disk[b] == Zeros(4 * level))
  }

  lemma ParentIsIndex(level: nat, s: Slot)
    requires ValidPath(level, s.path) && |s.path| > 1
    ensures IsIndex(Parent(s).path)
    ensures Last(s) < level && Child(Parent(s), Last(s)) == s
    ensures ValidPath(level, Parent(s).path)
  {
  }

  lemma AttachShaped(level: nat, disk: Disk, roots: Roots, tree: Tree, s: Slot, b: word, t: Slot)
    requires CanAttach(level, disk, roots, tree, s, b)
    requires t in tree[s := b]
    ensures ShapedAt(level, StorePointer(level, disk, tree, s, b), StoreRoot(roots, s, b), tree[s := b], t)
  {
    if |s.path| > 1 {
      ParentIsIndex(level, s);
    }
    if t != s { assert ShapedAt(level, disk, roots, tree, t); }
  }

  lemma AttachLinkedSelf(level: nat, disk: Disk, roots: Roots, tree: Tree, s: Slot, b: word)
    requires CanAttach(level, disk, roots, tree, s, b)
    ensures LinkedAt(level, StorePointer(level, disk, tree, s, b), StoreRoot(roots, s, b), tree[s := b], s)
  {
    hide Linked, Covered, Unaliased, Holds;
    AttachShaped(level, disk, roots, tree, s, b, s);
    if |s.path| > 1 { ParentIsIndex(level, s); }
  }

  lemma AttachLinked(level: nat, disk: Disk, roots: Roots, tree: Tree, s: Slot, b: word, t: Slot)
    requires CanAttach(level, disk, roots, tree, s, b)
    requires t in tree[s := b]
    ensures LinkedAt(level, StorePointer(level, disk, tree, s, b), StoreRoot(roots, s, b), tree[s := b], t)
  {
    if t == s {
      AttachLinkedSelf(level, disk, roots, tree, s, b);
      return;
    }
    AttachShaped(level, disk, roots, tree, s, b, t);
    assert LinkedAt(level, disk, roots, tree, t);
    hide Covered, Holds;
    if |t.path| > 1 {
      ParentIsIndex(level, t);
      AttachShaped(level, disk, roots, tree, s, b, Parent(t));
      if |s.path| > 1 { assert Apart(tree, Parent(s), Parent(t)); ParentIsIndex(level, s); }
    }
  }

  lemma AttachCovered(level: nat, disk: Disk, roots: Roots, tree: Tree, s: Slot, b: word, t: Slot, j: nat)
    requires CanAttach(level, disk, roots, tree, s, b)
    requires t in tree[s := b] && |t.path| > 0 && IsIndex(t.path) && j < level
    ensures CoveredAt(level, StorePointer(level, disk, tree, s, b), tree[s := b], {}, t, j)
  {
    AttachShaped(level, disk, roots, tree, s, b, t);
    if |s.path| > 1 { ParentIsIndex(level, s); }
    if t != s {
      assert CoveredAt(level, disk, tree, {}, t, j);
      if |s.path| > 1 { assert Apart(tree, Parent(s), t); }
    }
  }

  /** Storing a fresh block at one slot changes the map at that slot only, and the result is again a
      tree without aliases. */
  lemma AttachWellFormed(level: nat, disk: Disk, roots: Roots, tree: Tree, s: Slot, b: word)
    requires CanAttach(level, disk, roots, tree, s, b)
    ensures WellFormed(level, StorePointer(level, disk, tree, s, b), StoreRoot(roots, s, b), tree[s := b], {})
  {
    var d, r, t' := StorePointer(level, disk, tree, s, b), StoreRoot(roots, s, b), tree[s := b];
    forall t | t in t' ensures ShapedAt(level, d, r, t', t) && LinkedAt(level, d, r, t', t) {
      AttachLinked(level, disk, roots, tree, s, b, t);
    }
    forall t, j: nat | t in t' && |t.path| > 0 && IsIndex(t.path) && j < level
      ensures CoveredAt(level, d, t', {}, t, j)
    {
      AttachCovered(level, disk, roots, tree, s, b, t, j);
    }
    forall i, k: nat | i in r && k < |r[i]| ensures CoveredRoot(r, t', {}, i, k) {
      assert CoveredRoot(roots, tree, {}, i, k);
      if |s.path| == 1 { assert s == Slot(s.ino, [s.path[0]]); }
    }
    forall t, u | t in t' && u in t' ensures Apart(t', t, u) {
      if t != s && u != s { assert Apart(tree, t, u); }
    }
  }

  // ----- releasing a subtree

  /** `t` is `s` or lies below it. */
  predicate Under(s: Slot, t: Slot) {
    t.ino == s.ino && s.path <= t.path
  }

  /** `t` lies below one of the first `i` children of `s`. */
  predicate Passed(s: Slot, i: nat, t: Slot) {
    Under(s, t) && |t.path| > |s.path| && t.path[|s.path|] < i
  }

  ghost function Prune(tree: Tree, s: Slot): Tree {
    map t | t in tree && !Under(s, t) :: tree[t]
  }

  ghost function PruneKids(tree: Tree, s: Slot, i: nat): Tree {
    map t | t in tree && !Passed(s, i, t) :: tree[t]
  }

  ghost function Kids(s: Slot, i: nat): set<Slot> {
    set j: nat | j < i :: Child(s, j)
  }

  lemma UnderChild(s: Slot, i: nat, t: Slot)
    ensures Under(Child(s, i), t) <==> Under(s, t) && |t.path| > |s.path| && t.path[|s.path|] == i
  {
    if Under(Child(s, i), t) {
      assert t.path[..|s.path| + 1] == s.path + [i];
    }
    if Under(s, t) && |t.path| > |s.path| && t.path[|s.path|] == i {
      assert t.path[..|s.path| + 1] == s.path + [i];
    }
  }

  /** Releasing children one after the other. */
  lemma PruneKidsStep(tree: Tree, s: Slot, i: nat)
    ensures Prune(PruneKids(tree, s, i), Child(s, i)) == PruneKids(tree, s, i + 1)
  {
    forall t ensures Passed(s, i + 1, t) <==> Passed(s, i, t) || Under(Child(s, i), t) {
      UnderChild(s, i, t);
    }
  }

  lemma PruneKidsNone(tree: Tree, s: Slot)
    ensures PruneKids(tree, s, 0) == tree
  {
  }

  /** Every ancestor of a slot of the tree is in the tree. */
  lemma {:induction false} AncestorInTree(level: nat, disk: Disk, roots: Roots, tree: Tree, s: Slot, t: Slot)
    requires Linked(level, disk, roots, tree)
    requires t in tree && Under(s, t) && |s.path| > 0
    ensures s in tree
    decreases |t.path|
  {
    assert LinkedAt(level, disk, roots, tree, t);
    if |t.path| > |s.path| {
      AncestorInTree(level, disk, roots, tree, s, Parent(t));
    } else {
      assert s.path == t.path;
    }
  }

  lemma PruneAbsent(level: nat, disk: Disk, roots: Roots, tree: Tree, s: Slot)
    requires Linked(level, disk, roots, tree)
    requires s !in tree && |s.path| > 0
    ensures Prune(tree, s) == tree
  {
    forall t | t in tree ensures !Under(s, t) {
      if Under(s, t) { AncestorInTree(level, disk, roots, tree, s, t); }
    }
  }

  /** Once all children are gone only the slot itself is left. */
  lemma PruneKidsAll(level: nat, disk: Disk, roots: Roots, tree: Tree, s: Slot)
    requires Shaped(level, disk, roots, tree)
    requires |s.path| > 0
    ensures forall j: nat :: Child(s, j) !in PruneKids(tree, s, level)
    ensures PruneKids(tree, s, level) - {s} == Prune(tree, s)
  {
    forall t | t in tree ensures !Under(s, t) || t == s <==> !Passed(s, level, t) {
      assert ShapedAt(level, disk, roots, tree, t);
      if Under(s, t) && |t.path| == |s.path| { assert t.path == s.path; }
    }
    forall j: nat ensures Child(s, j) !in PruneKids(tree, s, level) {
      var c := Child(s, j);
      assert Under(s, c);
      if c in tree { assert ShapedAt(level, disk, roots, tree, c); }
    }
  }

  /** Taking out a slot without children keeps the tree well formed; the pointer to it becomes one of
      the released ones. Only the block itself may have been rewritten. */
  lemma DetachWellFormed(level: nat, disk: Disk, disk': Disk, roots: Roots, tree: Tree,
                         gone: set<Slot>, gone': set<Slot>, s: Slot)
    requires WellFormed(level, disk, roots, tree, gone)
    requires s in tree && |s.path| > 0 && forall j: nat :: Child(s, j) !in tree
    requires forall t :: t in tree && t != s ==> tree[t] in disk' && (tree[t] in disk ==> disk'[tree[t]] == disk[tree[t]])
    requires s in gone' && forall c :: c in gone && c !in gone' ==> exists j: nat :: c == Child(s, j)
    ensures WellFormed(level, disk', roots, tree - {s}, gone')
  {
    var t' := tree - {s};
    forall t, u | t in t' && u in t' ensures Apart(t', t, u) {
      assert Apart(tree, t, u);
    }
    forall t | t in t' ensures ShapedAt(level, disk', roots, t', t) && LinkedAt(level, disk', roots, t', t) {
      assert ShapedAt(level, disk, roots, tree, t) && LinkedAt(level, disk, roots, tree, t);
      if |t.path| > 1 {
        ParentIsIndex(level, t);
        var c := Child(Parent(t), Last(t));
        assert c == t;
      }
    }
    forall t, j: nat | t in t' && |t.path| > 0 && IsIndex(t.path) && j < level
      ensures CoveredAt(level, disk', t', gone', t, j)
    {
      assert ShapedAt(level, disk, roots, tree, t);
      assert CoveredAt(level, disk, tree, gone, t, j);
      if Child(t, j) in gone && Child(t, j) !in gone' {
        var k: nat :| Child(t, j) == Child(s, k);
        ChildInjective(t, j, s, k);
      }
    }
    forall i, k: nat | i in roots && k < |roots[i]| ensures CoveredRoot(roots, t', gone', i, k) {
      assert CoveredRoot(roots, tree, gone, i, k);
      assert forall j: nat :: Slot(i, [k]).path != Child(s, j).path by {
        assert forall j: nat :: |Child(s, j).path| > 1;
      }
    }
  }

  lemma ChildInjective(s: Slot, j: nat, t: Slot, k: nat)
    requires Child(s, j) == Child(t, k)
    ensures s == t && j == k
  {
    assert Parent(Child(s, j)) == s && Parent(Child(t, k)) == t;
    assert Last(Child(s, j)) == j && Last(Child(t, k)) == k;
  }

  // ----- file block numbers

  /** The place of the `n`-th block of a file. */
  function PathOf(level: nat, n: nat): seq<nat>
    requires level > 0
  {
    if n < DIRECT then [n]
    else if n < SingleEnd(level) then [12, n - DIRECT]
    else if n < DoubleEnd(level) then
      var c := n - SingleEnd(level);
      [13, Quot(c, level), Rem(c, level)]
    else
      var d := n - DoubleEnd(level);
      var sq := Times(level, level);
      [14, Quot(d, sq), Quot(Rem(d, sq), level), Rem(Rem(d, sq), level)]
  }

  function SlotOf(level: nat, ino: nat, n: nat): Slot
    requires level > 0
  {
    Slot(ino, PathOf(level, n))
  }

  /** First block number past the single-indirect range. */
  function SingleEnd(level: nat): nat {
    DIRECT + level
  }

  /** First block number past the double-indirect range. */
  function DoubleEnd(level: nat): nat {
    SingleEnd(level) + Times(level, level)
  }

  /** First block number that no pointer of the inode can reach. */
  function TripleEnd(level: nat): nat {
    DoubleEnd(level) + Times(Times(level, level), level)
  }

  /** The block holding block `n` of the file, zero for a hole. */
  function BlockOf(level: nat, tree: Tree, ino: nat, n: nat): nat
    requires level > 0
  {
    At(tree, SlotOf(level, ino, n))
  }

  lemma {:induction false} RemTimes(d: nat, level: nat)
    requires level > 0
    ensures Quot(Rem(d, Times(level, level)), level) < level
  {
    QuotSmall(Rem(d, Times(level, level)), level, level);
  }

  lemma PathOfValid(level: nat, n: nat)
    requires level > 0
    ensures ValidPath(level, PathOf(level, n)) <==> n < TripleEnd(level)
    ensures !IsIndex(PathOf(level, n))
  {
    if n >= SingleEnd(level) {
      if n < DoubleEnd(level) {
        QuotSmall(n - SingleEnd(level), level, level);
      } else {
        var d, sq, p := n - DoubleEnd(level), Times(level, level), PathOf(level, n);
        QuotSmall(d, sq, level);
        RemTimes(d, level);
        assert p[1] == Quot(d, sq);
      }
    }
  }

  lemma PathOfInjective(level: nat, m: nat, n: nat)
    requires level > 0 && PathOf(level, m) == PathOf(level, n)
    ensures m == n
  {
    var p, q := PathOf(level, m), PathOf(level, n);
    assert p[0] == q[0];
    if p[0] == 13 {
      assert p[1] == q[1] && p[2] == q[2];
      QuotRemSame(m - SingleEnd(level), n - SingleEnd(level), level);
    } else if p[0] == 14 {
      assert p[1] == q[1] && p[2] == q[2] && p[3] == q[3];
      var sq, a, b := Times(level, level), m - DoubleEnd(level), n - DoubleEnd(level);
      QuotRemSame(Rem(a, sq), Rem(b, sq), level);
      QuotRemSame(a, b, sq);
    } else if p[0] == 12 {
      assert p[1] == q[1];
    }
  }

  // ----- the layout by numbers

  /** The twelve pointers of the inode, and then one table of `level` words. */
  lemma SingleLayout(level: nat, i: nat)
    requires level > 0
    ensures i < 12 ==> PathOf(level, i) == [i]
    ensures i < level ==> PathOf(level, 12 + i) == [12, i]
  {
  }

  /** Word `d` of the table that word `c` of the double-indirect table points to. */
  lemma DoubleLayout(level: nat, c: nat, d: nat)
    requires c < level && d < level
    ensures PathOf(level, 12 + level + (c * level + d)) == [13, c, d]
  {
    QuotRemOf(c, d, level);
    QuotSmall(c * level + d, level, level);
  }

  /** Three tables down. */
  lemma TripleLayout(level: nat, e: nat, f: nat, g: nat)
    requires e < level && f < level && g < level
    ensures PathOf(level, 12 + level + level * level + (e * (level * level) + (f * level + g))) == [14, e, f, g]
  {
    var sq, low := level * level, f * level + g;
    TimesIs(level, level);
    QuotRemOf(f, g, level);
    QuotSmall(low, level, level);
    assert low < sq;
    QuotRemOf(e, low, sq);
    assert e * sq >= 0;
  }

  // ----- the tree as the disk has it

  /** The block that the words on the disk lead to, from a pointer through the tables down a path; 0 at the first
      pointer that is 0. */
  ghost function Followed(level: nat, disk: Disk, from: nat, path: seq<nat>): nat
    decreases |path|
  {
    if from == 0 || path == [] then from
    else if from in disk && 4 * path[0] + 3 < |disk[from]| then Followed(level, disk, WordAt(disk[from], path[0]), path[1..])
    else 0
  }

  /** What the tree stores at a slot is what the pointers on the disk lead to. */
  lemma {:induction false} FollowedFrom(level: nat, disk: Disk, roots: Roots, tree: Tree, ino: nat, path: seq<nat>, rest: seq<nat>)
    requires WellFormed(level, disk, roots, tree, {}) && path != [] && ValidPath(level, path + rest)
    ensures Followed(level, disk, At(tree, Slot(ino, path)), rest) == At(tree, Slot(ino, path + rest))
    decreases |rest|
  {
    var s := Slot(ino, path);
    AtZero(level, disk, roots, tree, s);
    if rest == [] {
      assert path + rest == path;
    } else {
      var next := path + [rest[0]];
      assert path + rest == next + rest[1..];
      assert Child(s, rest[0]) == Slot(ino, next);
      assert (path + rest)[0] == path[0] && (path + rest)[|path|] == rest[0];
      FollowedFrom(level, disk, roots, tree, ino, next, rest[1..]);
      if s in tree {
        ReadTable(level, disk, roots, tree, s, rest[0]);
      } else {
        NoTableNoChild(level, disk, roots, tree, s, rest[0]);
      }
    }
  }

  lemma FollowedRoot(level: nat, disk: Disk, roots: Roots, tree: Tree, ino: nat, k: nat, rest: seq<nat>)
    requires WellFormed(level, disk, roots, tree, {}) && ino in roots && ValidPath(level, [k] + rest)
    ensures |roots[ino]| == 15 && At(tree, Slot(ino, [k] + rest)) == Followed(level, disk, roots[ino][k], rest)
  {
    ReadRoot(level, disk, roots, tree, ino, k);
    FollowedFrom(level, disk, roots, tree, ino, [k], rest);
  }

  /** The blocks of a file by the words on the disk: pointer 0 to 11 of the inode, and word `c` of the table at pointer 12. */
  lemma SingleByNumbers(level: nat, disk: Disk, roots: Roots, tree: Tree, ino: nat, c: nat)
    requires level > 0 && WellFormed(level, disk, roots, tree, {}) && ino in roots
    ensures |roots[ino]| == 15
    ensures c < 12 ==> BlockOf(level, tree, ino, c) == roots[ino][c]
    ensures c < level ==> BlockOf(level, tree, ino, 12 + c) == Followed(level, disk, roots[ino][12], [c])
  {
    hide WellFormed, PathOf;
    SingleLayout(level, c);
    ReadRoot(level, disk, roots, tree, ino, 12);
    if c < 12 { ReadRoot(level, disk, roots, tree, ino, c); }
    if c < level {
      FollowedRoot(level, disk, roots, tree, ino, 12, [c]);
      assert [12] + [c] == [12, c];
    }
  }

  /** Word `d` of the table that word `c` of the table at pointer 13 points to. */
  lemma DoubleByNumbers(level: nat, disk: Disk, roots: Roots, tree: Tree, ino: nat, c: nat, d: nat)
    requires WellFormed(level, disk, roots, tree, {}) && ino in roots && c < level && d < level
    ensures |roots[ino]| == 15
    ensures BlockOf(level, tree, ino, 12 + level + (c * level + d)) == Followed(level, disk, roots[ino][13], [c, d])
  {
    hide WellFormed, PathOf, Followed;
    DoubleLayout(level, c, d);
    var rest, n := [c, d], 12 + level + (c * level + d);
    assert [13] + rest == [13, c, d];
    FollowedRoot(level, disk, roots, tree, ino, 13, rest);
  }

  /** And three tables down from pointer 14. */
  lemma TripleByNumbers(level: nat, disk: Disk, roots: Roots, tree: Tree, ino: nat, e: nat, f: nat, g: nat)
    requires WellFormed(level, disk, roots, tree, {}) && ino in roots && e < level && f < level && g < level
    ensures |roots[ino]| == 15
    ensures BlockOf(level, tree, ino, 12 + level + level * level + (e * (level * level) + (f * level + g))) ==
              Followed(level, disk, roots[ino][14], [e, f, g])
  {
    hide WellFormed, PathOf, Followed;
    TripleLayout(level, e, f, g);
    var rest := [e, f, g];
    assert [14] + rest == [14, e, f, g];
    FollowedRoot(level, disk, roots, tree, ino, 14, rest);
  }
}
