/** Directories of an ext2 volume as maps from names to inode numbers: finding, removing and adding a
    record, on the blocks of the directory's inode. */
module Ext2Dir {

  import opened Arith
  import opened Bytes
  import opened BlockTree
  import opened Ext2Files
  import opened Ext2Io
  import opened Ext2Data
  import opened DirRecords

  const ENOENT := 2

  datatype Lookup = Absent | Present(target: Target)

  // ----- the records of a directory

  ghost predicate TiledBlock(level: nat, x: State, ino: nat, k: nat)
    requires level > 0
  {
    Tiled(FileBlock(level, x.tree, x.disk, ino, k))
  }

  ghost function BlockEntries(level: nat, x: State, ino: nat, k: nat): seq<Entry>
    requires level > 0
  {
    if TiledBlock(level, x, ino, k) then Parse(FileBlock(level, x.tree, x.disk, ino, k)) else []
  }

  /** The records of blocks `lo` to `hi`, in order. */
  ghost function DirEntries(level: nat, x: State, ino: nat, lo: nat, hi: nat): seq<Entry>
    requires level > 0
  {
    if hi <= lo then [] else DirEntries(level, x, ino, lo, hi - 1) + BlockEntries(level, x, ino, hi - 1)
  }

  ghost function DirMap(level: nat, x: State, ino: nat, n: nat): map<seq<byte>, Target>
    requires level > 0
  {
    Names(DirEntries(level, x, ino, 0, n))
  }

  /** The last record is not just as long as it has to be: a new one can be put behind it. */
  ghost predicate Slack(es: seq<Entry>) {
    |es| > 0 && es[|es| - 1].size != Padded(|es[|es| - 1].name|)
  }

  /** A directory of `n` blocks: records tile every block, and there is nothing past the end. */
  ghost predicate DirChain(level: nat, x: State, ino: nat, n: nat)
    requires level > 0
  {
    && n > 0
    && (forall k: nat {:trigger TiledBlock(level, x, ino, k)} :: k < n ==> TiledBlock(level, x, ino, k))
    && (forall k: nat {:trigger SlotOf(level, ino, k)} :: n <= k ==> SlotOf(level, ino, k) !in x.tree)
  }

  /** What `ext2_create_dentry` looks for. The directories that the code makes itself have it; other systems also write
      last records without slack. */
  ghost predicate Roomy(level: nat, x: State, ino: nat, n: nat)
    requires level > 0 && n > 0
  {
    Slack(BlockEntries(level, x, ino, n - 1))
  }

  /** A proper directory: also, no name is in use twice. */
  ghost predicate DirOk(level: nat, x: State, ino: nat, n: nat)
    requires level > 0
  {
    DirChain(level, x, ino, n) && UniqueNames(DirEntries(level, x, ino, 0, n))
  }

  // ----- a new directory

  const DOT: seq<byte> := [46]
  const DOT_DOT: seq<byte> := [46, 46]
  const EXT2_DT_DIR: byte := 2

  /** The first block that `ext2_mkdir` writes: a record for the directory itself and one for its parent. */
  function DotBlock(ino: word, parent: word, size: nat): (b: seq<byte>)
    requires 24 <= size < 0x1_0000
    ensures |b| == size
  {
    Record(ino, 12, DOT, EXT2_DT_DIR, Zeros(3)) + Record(parent, size - 12, DOT_DOT, EXT2_DT_DIR, Zeros(size - 22))
  }

  lemma DotBlockParse(ino: word, parent: word, size: nat)
    requires 24 <= size < 0x1_0000
    ensures Tiled(DotBlock(ino, parent, size))
    ensures Parse(DotBlock(ino, parent, size)) ==
              [Entry(ino, 12, DOT, EXT2_DT_DIR), Entry(parent, size - 12, DOT_DOT, EXT2_DT_DIR)]
  {
    hide Record, FirstEntry, OneRecord, Tiled, Parse;
    var a := Record(ino, 12, DOT, EXT2_DT_DIR, Zeros(3));
    var b := Record(parent, size - 12, DOT_DOT, EXT2_DT_DIR, Zeros(size - 22));
    RecordParse(ino, 12, DOT, EXT2_DT_DIR, Zeros(3));
    RecordParse(parent, size - 12, DOT_DOT, EXT2_DT_DIR, Zeros(size - 22));
    assert DOT[..1] == DOT && DOT_DOT[..2] == DOT_DOT;
    ParseOne(a);
    ParseOne(b);
    ParseConcat(a, b);
  }

  lemma DotNames(self: word, parent: word, size: nat)
    requires self != 0 && parent != 0 && size > 12
    ensures var es := [Entry(self, 12, DOT, EXT2_DT_DIR), Entry(parent, size, DOT_DOT, EXT2_DT_DIR)];
            && Names(es) == map[DOT := Target(self, EXT2_DT_DIR), DOT_DOT := Target(parent, EXT2_DT_DIR)]
            && UniqueNames(es) && Slack(es)
  {
    var es := [Entry(self, 12, DOT, EXT2_DT_DIR), Entry(parent, size, DOT_DOT, EXT2_DT_DIR)];
    assert |DOT| != |DOT_DOT|;
    assert es[1..] == [es[1]] && es[1..][1..] == [];
    assert Names(es[1..]) == map[DOT_DOT := Target(parent, EXT2_DT_DIR)];
  }

  /** A directory starts out as a proper one with two names in it. */
  lemma NewDirectory(level: nat, x: State, ino: nat, self: word, parent: word)
    requires 6 < level && 4 * level < 0x1_0000 && self != 0 && parent != 0
    requires FileBlock(level, x.tree, x.disk, ino, 0) == DotBlock(self, parent, 4 * level)
    requires forall k: nat :: 1 <= k ==> SlotOf(level, ino, k) !in x.tree
    ensures DirOk(level, x, ino, 1) && Roomy(level, x, ino, 1)
    ensures DirMap(level, x, ino, 1) == map[DOT := Target(self, EXT2_DT_DIR), DOT_DOT := Target(parent, EXT2_DT_DIR)]
  {
    hide FileBlock, DotBlock, Parse, Tiled, PathOf, Names, UniqueNames, Slack;
    DotBlockParse(self, parent, 4 * level);
    var es := [Entry(self, 12, DOT, EXT2_DT_DIR), Entry(parent, 4 * level - 12, DOT_DOT, EXT2_DT_DIR)];
    assert BlockEntries(level, x, ino, 0) == es;
    assert DirEntries(level, x, ino, 0, 1) == [] + es == es;
    DotNames(self, parent, 4 * level - 12);
  }

  lemma {:induction false} DirSplit(level: nat, x: State, ino: nat, lo: nat, k: nat, hi: nat)
    requires level > 0 && lo <= k < hi
    ensures DirEntries(level, x, ino, lo, hi) ==
              DirEntries(level, x, ino, lo, k) + BlockEntries(level, x, ino, k) + DirEntries(level, x, ino, k + 1, hi)
    decreases hi
  {
    hide BlockEntries;
    if k < hi - 1 { DirSplit(level, x, ino, lo, k, hi - 1); }
  }

  lemma {:induction false} DirSame(level: nat, x: State, y: State, ino: nat, lo: nat, hi: nat)
    requires level > 0 && forall k: nat :: lo <= k < hi ==> SameBlock(level, x, y, ino, k)
    ensures DirEntries(level, x, ino, lo, hi) == DirEntries(level, y, ino, lo, hi)
    decreases hi
  {
    hide FileBlock, Tiled, Parse;
    if lo < hi {
      DirSame(level, x, y, ino, lo, hi - 1);
      assert SameBlock(level, x, y, ino, hi - 1);
    }
  }

  // ----- scanning

  /** The scan stands at offset `p` of block `k` and has not met `name`. */
  ghost predicate Scanned(level: nat, x: State, ino: nat, k: nat, b: seq<byte>, p: nat, name: seq<byte>)
    requires level > 0
  {
    && b == FileBlock(level, x.tree, x.disk, ino, k) && p <= |b|
    && Tiled(b[..p]) && Tiled(b[p..])
    && name !in Names(DirEntries(level, x, ino, 0, k) + Parse(b[..p]))
  }

  lemma ScanStart(level: nat, x: State, ino: nat, k: nat, b: seq<byte>, name: seq<byte>)
    requires level > 0 && TiledBlock(level, x, ino, k) && b == FileBlock(level, x.tree, x.disk, ino, k)
    requires name !in Names(DirEntries(level, x, ino, 0, k))
    ensures Scanned(level, x, ino, k, b, 0, name)
  {
    hide FileBlock, DirEntries, Names;
    assert b[..0] == [] && b[0..] == b;
    assert DirEntries(level, x, ino, 0, k) + [] == DirEntries(level, x, ino, 0, k);
  }

  lemma ScanBlockDone(level: nat, x: State, ino: nat, k: nat, b: seq<byte>, name: seq<byte>)
    requires level > 0 && Scanned(level, x, ino, k, b, |b|, name)
    ensures name !in Names(DirEntries(level, x, ino, 0, k + 1))
  {
    hide FileBlock, Names, Parse, Tiled;
    assert b[..|b|] == b;
    assert DirEntries(level, x, ino, 0, k + 1) == DirEntries(level, x, ino, 0, k) + BlockEntries(level, x, ino, k);
  }

  lemma ScanStep(level: nat, x: State, ino: nat, k: nat, b: seq<byte>, p: nat, name: seq<byte>)
    requires level > 0 && Scanned(level, x, ino, k, b, p, name) && p < |b|
    ensures StartsRecord(b[p..]) && p < p + SizeAt(b[p..]) <= |b|
    ensures !Live(FirstEntry(b[p..]), name) ==> Scanned(level, x, ino, k, b, p + SizeAt(b[p..]), name)
  {
    hide FileBlock, Names, Parse, Tiled, DirEntries, FirstEntry, SizeAt, StartsRecord;
    StepRecord(b, p);
    var es, e := DirEntries(level, x, ino, 0, k) + Parse(b[..p]), FirstEntry(b[p..]);
    assert DirEntries(level, x, ino, 0, k) + (Parse(b[..p]) + [e]) == es + [e];
    NamesLast(es, e, name);
  }

  lemma NamesLast(es: seq<Entry>, e: Entry, name: seq<byte>)
    ensures name in Names(es + [e]) <==> name in Names(es) || Live(e, name)
    ensures name !in Names(es) && Live(e, name) ==> Names(es + [e])[name] == TargetOf(e)
  {
    NamesConcat(es, [e]);
    assert [e][1..] == [];
  }

  lemma Regroup<T>(a: seq<T>, b: seq<T>, e: T, c: seq<T>, d: seq<T>)
    ensures a + (b + [e] + c) + d == (a + b) + [e] + (c + d)
  {
  }

  /** The first record with the name gives the answer of the map. */
  lemma ScanHit(level: nat, x: State, ino: nat, k: nat, b: seq<byte>, p: nat, name: seq<byte>, n: nat)
    requires level > 0 && Scanned(level, x, ino, k, b, p, name) && p < |b| && k < n
    requires StartsRecord(b[p..]) && Live(FirstEntry(b[p..]), name)
    ensures name in DirMap(level, x, ino, n) && DirMap(level, x, ino, n)[name] == TargetOf(FirstEntry(b[p..]))
  {
    var e := FirstEntry(b[p..]);
    hide FileBlock, Names, Parse, Tiled, DirEntries, FirstEntry, SizeAt, StartsRecord;
    DirSplit(level, x, ino, 0, k, n);
    ZeroInoParse(b, p);
    var after := Parse(b[p + SizeAt(b[p..])..]);
    var es, rest := DirEntries(level, x, ino, 0, k) + Parse(b[..p]), after + DirEntries(level, x, ino, k + 1, n);
    Regroup(DirEntries(level, x, ino, 0, k), Parse(b[..p]), e, after, DirEntries(level, x, ino, k + 1, n));
    NamesLast(es, e, name);
    NamesConcat(es + [e], rest);
  }

  /** The comparison in the code: as many bytes as the record's name has, and equal lengths. */
  predicate SameName(r: seq<byte>, name: seq<byte>)
    requires StartsRecord(r)
  {
    && InoAt(r) != 0
    && (forall i :: 0 <= i < r[6] && i < |name| ==> r[HEADER + i] == name[i])
    && |name| == r[6]
  }

  lemma SameNameIsLive(r: seq<byte>, name: seq<byte>)
    requires StartsRecord(r)
    ensures SameName(r, name) <==> Live(FirstEntry(r), name)
  {
    var e := FirstEntry(r);
    if Live(e, name) {
      forall i | 0 <= i < r[6] && i < |name| ensures r[HEADER + i] == name[i] { assert e.name[i] == name[i]; }
    }
    if SameName(r, name) { assert e.name == name; }
  }

  /** An open directory of `n` blocks. Blocks have 1 KiB to 32 KiB: the size field of a record has 16 bits. */
  ghost predicate OpenChain(v: Volume, inode: Inode, ino: nat, n: nat)
    reads v, v.a, inode
  {
    && v.Valid() && v.Loaded(inode, ino) && 0x100 <= v.a.level < 0x4000
    && inode.size == Times(4 * v.a.level, n)
    && DirChain(v.a.level, v.Now(), ino, n)
  }

  /** An open directory in which no name is in use twice. */
  ghost predicate OpenDir(v: Volume, inode: Inode, ino: nat, n: nat)
    reads v, v.a, inode
  {
    OpenChain(v, inode, ino, n) && DirOk(v.a.level, v.Now(), ino, n)
  }

  /** The scan that finding and removing share: record by record, block by block. */
  method Search(v: Volume, inode: Inode, ino: nat, name: seq<byte>, ghost n: nat)
    returns (found: bool, k: nat, p: nat, buffer: seq<byte>)
    requires OpenChain(v, inode, ino, n)
    ensures found ==> k < n && Scanned(v.a.level, v.Now(), ino, k, buffer, p, name) && p < |buffer| == 4 * v.a.level
    ensures found ==> StartsRecord(buffer[p..]) && Live(FirstEntry(buffer[p..]), name)
    ensures !found ==> name !in DirMap(v.a.level, v.Now(), ino, n)
  {
    hide FileBlock, Names, Parse, Tiled, DirEntries, FirstEntry, SizeAt, PathOf, Scanned, SameName, Times,
      WellFormed, Accounted, Counted;
    var bs := 4 * v.a.level;
    var offset := 0;
    k, p, found := 0, 0, false;
    buffer := ReadBlock(v, inode, ino, 0);
    EmptyDir(v.a.level, v.Now(), ino, name);
    ScanStart(v.a.level, v.Now(), ino, 0, buffer, name);
    TimesZero(bs);
    while offset < inode.size
      invariant k < n && p <= bs == |buffer| && offset == Times(bs, k) + p
      invariant Scanned(v.a.level, v.Now(), ino, k, buffer, p, name)
      decreases inode.size - offset
    {
      if p >= bs {
        TimesNext(bs, k);
        TimesLess(bs, k + 1, n);
        ScanBlockDone(v.a.level, v.Now(), ino, k, buffer, name);
        k, p := k + 1, 0;
        buffer := ReadBlock(v, inode, ino, k);
        ScanStart(v.a.level, v.Now(), ino, k, buffer, name);
      }
      var r := buffer[p..];
      ScanStep(v.a.level, v.Now(), ino, k, buffer, p, name);
      SameNameIsLive(r, name);
      if SameName(r, name) {
        return true, k, p, buffer;
      }
      p, offset := p + SizeAt(r), offset + SizeAt(r);
    }
    TimesNext(bs, k);
    TimesMono(bs, k + 1, n);
    TimesStrict(bs, k + 1, n);
    ScanBlockDone(v.a.level, v.Now(), ino, k, buffer, name);
  }

  lemma EmptyDir(level: nat, x: State, ino: nat, name: seq<byte>)
    requires level > 0
    ensures name !in Names(DirEntries(level, x, ino, 0, 0))
  {
  }

  lemma TimesZero(d: nat)
    ensures Times(d, 0) == 0
  {
  }

  lemma TimesStrict(d: nat, a: nat, b: nat)
    requires d > 0 && Times(d, b) <= Times(d, a) && a <= b
    ensures a == b
  {
    if a < b {
      TimesMono(d, a + 1, b);
      TimesNext(d, a);
    }
  }

  /** `ext2_find_dentry`: the answer of the map, for every name; of two records of one name the first counts. */
  method FindDentry(v: Volume, inode: Inode, ino: nat, name: seq<byte>, ghost n: nat) returns (r: Lookup)
    requires OpenChain(v, inode, ino, n)
    ensures r.Present? <==> name in DirMap(v.a.level, v.Now(), ino, n)
    ensures r.Present? ==> r.target == DirMap(v.a.level, v.Now(), ino, n)[name]
  {
    var found, k, p, buffer := Search(v, inode, ino, name, n);
    if !found { return Absent; }
    ScanHit(v.a.level, v.Now(), ino, k, buffer, p, name, n);
    r := Present(TargetOf(FirstEntry(buffer[p..])));
  }

  // ----- removing

  lemma ZerosNotTiled(m: nat)
    requires m > 0
    ensures !Tiled(Zeros(m))
  {
    if m >= HEADER { assert SizeAt(Zeros(m)) == 0; }
  }

  /** A block that holds records is not a hole, so writing it back needs no new block. */
  lemma TiledNeedsNothing(level: nat, x: State, roots: Roots, ino: nat, k: nat)
    requires level > 0 && WellFormed(level, x.disk, roots, x.tree, {}) && TiledBlock(level, x, ino, k)
    ensures SlotOf(level, ino, k) in x.tree && Need(level, x.tree, ino, k) == {}
    ensures x.tree.Keys + Chain(level, ino, k) == x.tree.Keys
  {
    hide PathOf, Tiled;
    AtZero(level, x.disk, roots, x.tree, SlotOf(level, ino, k));
    ZerosNotTiled(4 * level);
    forall s | s in Chain(level, ino, k) ensures s in x.tree {
      AncestorInTree(level, x.disk, roots, x.tree, s, SlotOf(level, ino, k));
    }
  }

  /** What one rewritten block does to the list of records. */
  lemma DirUpdate(level: nat, x: State, y: State, ino: nat, k: nat, n: nat)
    requires level > 0 && k < n && SameFilesBut(level, x, y, ino, k)
    ensures DirEntries(level, y, ino, 0, n) ==
              DirEntries(level, x, ino, 0, k) + BlockEntries(level, y, ino, k) + DirEntries(level, x, ino, k + 1, n)
  {
    hide BlockEntries, DirEntries, SameBlock;
    DirSplit(level, y, ino, 0, k, n);
    forall j: nat | j < n && j != k ensures SameBlock(level, x, y, ino, j) { }
    DirSame(level, x, y, ino, 0, k);
    DirSame(level, x, y, ino, k + 1, n);
  }

  lemma OtherBlock(level: nat, x: State, y: State, ino: nat, k: nat)
    requires level > 0 && SameBlock(level, x, y, ino, k)
    ensures TiledBlock(level, y, ino, k) == TiledBlock(level, x, ino, k)
    ensures BlockEntries(level, y, ino, k) == BlockEntries(level, x, ino, k)
  {
    hide FileBlock, Tiled, Parse;
  }

  /** A block before and after the inode number of one record was zeroed. */
  lemma RemovedBlock(level: nat, x: State, y: State, ino: nat, k: nat, b: seq<byte>, p: nat)
    returns (before: seq<Entry>, after: seq<Entry>)
    requires level > 0 && b == FileBlock(level, x.tree, x.disk, ino, k) && p < |b| && Tiled(b[..p]) && Tiled(b[p..])
    requires p + HEADER <= |b| && FileBlock(level, y.tree, y.disk, ino, k) == ZeroIno(b, p)
    ensures StartsRecord(b[p..]) && before == Parse(b[..p])
    ensures BlockEntries(level, x, ino, k) == before + [FirstEntry(b[p..])] + after
    ensures BlockEntries(level, y, ino, k) == before + [FirstEntry(b[p..]).(ino := 0)] + after
    ensures TiledBlock(level, y, ino, k)
  {
    hide FileBlock, Parse, Tiled, FirstEntry, SizeAt, ZeroIno, StartsRecord;
    ZeroInoParse(b, p);
    before, after := Parse(b[..p]), Parse(b[p + SizeAt(b[p..])..]);
  }

  lemma RemovedNames(a: seq<Entry>, b: seq<Entry>, e: Entry, c: seq<Entry>, d: seq<Entry>)
    requires e.ino != 0 && e.name !in Names(a + b)
    ensures Names(a + (b + [e.(ino := 0)] + c) + d) == Dropped(a + (b + [e] + c) + d, e.name)
    ensures UniqueNames(a + (b + [e] + c) + d) ==>
              && UniqueNames(a + (b + [e.(ino := 0)] + c) + d)
              && Dropped(a + (b + [e] + c) + d, e.name) == Names(a + (b + [e] + c) + d) - {e.name}
    ensures Slack(b + [e] + c) <==> Slack(b + [e.(ino := 0)] + c)
  {
    hide Names, UniqueNames, Dropped;
    Regroup(a, b, e, c, d);
    Regroup(a, b, e.(ino := 0), c, d);
    NamesDrop(a + b, e, c + d);
    if UniqueNames(a + (b + [e] + c) + d) { NamesRemove(a + b, e, c + d); }
  }

  ghost predicate IsFirstLive(es: seq<Entry>, name: seq<byte>, i: nat) {
    i < |es| && Live(es[i], name) && forall j :: 0 <= j < i ==> !Live(es[j], name)
  }

  /** The first live record of the name has lost its inode number, and nothing else has changed. */
  ghost predicate FirstFreed(es: seq<Entry>, es': seq<Entry>, name: seq<byte>) {
    exists i: nat {:trigger IsFirstLive(es, name, i)} :: IsFirstLive(es, name, i) && es' == es[i := es[i].(ino := 0)]
  }

  lemma FreedAt(a: seq<Entry>, b: seq<Entry>, e: Entry, c: seq<Entry>, d: seq<Entry>, name: seq<byte>)
    requires Live(e, name) && name !in Names(a + b)
    ensures FirstFreed(a + (b + [e] + c) + d, a + (b + [e.(ino := 0)] + c) + d, name)
  {
    hide Names;
    var es, i := a + (b + [e] + c) + d, |a| + |b|;
    NamesLive(a + b, name);
    assert es == (a + b) + [e] + (c + d) && es[i] == e;
    assert forall j :: 0 <= j < i ==> es[j] == (a + b)[j];
    assert IsFirstLive(es, name, i);
    assert a + (b + [e.(ino := 0)] + c) + d == es[i := es[i].(ino := 0)];
  }

  /** Zeroing the inode number of the first live record with the name. */
  lemma RemovedDir(level: nat, x: State, y: State, ino: nat, n: nat, k: nat, b: seq<byte>, p: nat, name: seq<byte>)
    requires level > 0 && k < n && DirChain(level, x, ino, n)
    requires Scanned(level, x, ino, k, b, p, name) && p < |b|
    requires StartsRecord(b[p..]) && Live(FirstEntry(b[p..]), name)
    requires SameFilesBut(level, x, y, ino, k) && y.tree.Keys == x.tree.Keys
    requires p + HEADER <= |b| && FileBlock(level, y.tree, y.disk, ino, k) == ZeroIno(b, p)
    ensures DirChain(level, y, ino, n) && (Roomy(level, y, ino, n) <==> Roomy(level, x, ino, n))
    ensures DirMap(level, y, ino, n) == Dropped(DirEntries(level, x, ino, 0, n), name)
    ensures FirstFreed(DirEntries(level, x, ino, 0, n), DirEntries(level, y, ino, 0, n), name)
    ensures DirOk(level, x, ino, n) ==> DirOk(level, y, ino, n) && DirMap(level, y, ino, n) == DirMap(level, x, ino, n) - {name}
  {
    hide FileBlock, Parse, Tiled, Names, DirEntries, FirstEntry, SizeAt, PathOf, StartsRecord, UniqueNames, ZeroIno,
      BlockEntries, TiledBlock, Slack, Dropped, FirstFreed;
    var e := FirstEntry(b[p..]);
    var before, after := RemovedBlock(level, x, y, ino, k, b, p);
    DirUpdate(level, x, y, ino, k, n);
    DirSplit(level, x, ino, 0, k, n);
    RemovedNames(DirEntries(level, x, ino, 0, k), before, e, after, DirEntries(level, x, ino, k + 1, n));
    FreedAt(DirEntries(level, x, ino, 0, k), before, e, after, DirEntries(level, x, ino, k + 1, n), name);
    forall j: nat | j < n ensures TiledBlock(level, y, ino, j) {
      if j != k {
        assert SameBlock(level, x, y, ino, j);
        OtherBlock(level, x, y, ino, j);
        assert TiledBlock(level, x, ino, j);
      }
    }
    if k != n - 1 {
      assert SameBlock(level, x, y, ino, n - 1);
      OtherBlock(level, x, y, ino, n - 1);
    }
    SlotsStay(level, x, y, ino, n);
  }

  lemma SlotsStay(level: nat, x: State, y: State, ino: nat, n: nat)
    requires level > 0 && y.tree.Keys == x.tree.Keys && DirChain(level, x, ino, n)
    ensures forall k: nat {:trigger SlotOf(level, ino, k)} :: n <= k ==> SlotOf(level, ino, k) !in y.tree
  {
    hide PathOf;
  }

  /** `ext2_remove_dentry`: drops the first record of the name, or reports that there is none. If names are unique exactly
      the name is gone; if not, the next record of the name answers from now on. */
  method RemoveDentry(v: Volume, inode: Inode, ino: nat, name: seq<byte>, ghost n: nat) returns (rc: int, kind: byte)
    requires OpenChain(v, inode, ino, n) && n <= DoubleEnd(v.a.level)
    modifies v, v.a, inode`blocks, inode`numBlocks
    ensures OpenChain(v, inode, ino, n) && (old(OpenDir(v, inode, ino, n)) ==> OpenDir(v, inode, ino, n))
    ensures Roomy(v.a.level, v.Now(), ino, n) <==> old(Roomy(v.a.level, v.Now(), ino, n))
    ensures rc == if name in old(DirMap(v.a.level, v.Now(), ino, n)) then 0 else -ENOENT
    ensures rc == 0 ==> kind == old(DirMap(v.a.level, v.Now(), ino, n))[name].kind
    ensures rc == 0 ==> DirMap(v.a.level, v.Now(), ino, n) == Dropped(old(DirEntries(v.a.level, v.Now(), ino, 0, n)), name)
    ensures rc == 0 ==> FirstFreed(old(DirEntries(v.a.level, v.Now(), ino, 0, n)), DirEntries(v.a.level, v.Now(), ino, 0, n), name)
    ensures rc != 0 ==> v.Now() == old(v.Now())
    ensures old(OpenDir(v, inode, ino, n)) ==>
              DirMap(v.a.level, v.Now(), ino, n) == old(DirMap(v.a.level, v.Now(), ino, n)) - {name}
    ensures forall i: nat, k: nat {:trigger SameBlock(v.a.level, old(v.Now()), v.Now(), i, k)} ::
              i != ino ==> SameBlock(v.a.level, old(v.Now()), v.Now(), i, k)
    ensures v.a.totalFree == old(v.a.totalFree)
  {
    hide FileBlock, Parse, Tiled, Names, DirEntries, FirstEntry, SizeAt, PathOf, UniqueNames, Dropped, FirstFreed,
      DirOk, TiledBlock, Times, Chain, Need, Shaped, Linked, Covered, Unaliased, Accounted, Counted;
    ghost var x := v.Now();
    var found, k, p, buffer := Search(v, inode, ino, name, n);
    if !found { return -ENOENT, 0; }
    ScanHit(v.a.level, x, ino, k, buffer, p, name, n);
    DirBlock(v.a.level, x, ino, n, k);
    TiledNeedsNothing(v.a.level, x, RootsOf(v.table), ino, k);
    FirstFits(buffer, p);
    kind := buffer[p + 7];
    ghost var stored;
    rc, stored := WriteBlock(v, inode, ino, k, ZeroIno(buffer, p));
    RemovedDir(v.a.level, x, v.Now(), ino, n, k, buffer, p, name);
  }

  lemma DirBlock(level: nat, x: State, ino: nat, n: nat, k: nat)
    requires level > 0 && DirChain(level, x, ino, n) && k < n
    ensures TiledBlock(level, x, ino, k)
  {
  }

  lemma FirstFits(b: seq<byte>, p: nat)
    requires p < |b| && StartsRecord(b[p..])
    ensures p + HEADER <= |b| && b[p + 7] == FirstEntry(b[p..]).kind
  {
  }

  // ----- adding

  /** The scan of `ext2_create_dentry` stands at offset `p` of block `k`. */
  ghost predicate Standing(level: nat, x: State, ino: nat, k: nat, b: seq<byte>, p: nat)
    requires level > 0
  {
    b == FileBlock(level, x.tree, x.disk, ino, k) && p <= |b| && Tiled(b[..p]) && Tiled(b[p..])
  }

  lemma StandingStart(level: nat, x: State, ino: nat, k: nat, b: seq<byte>)
    requires level > 0 && TiledBlock(level, x, ino, k) && b == FileBlock(level, x.tree, x.disk, ino, k)
    ensures Standing(level, x, ino, k, b, 0)
  {
    assert b[..0] == [] && b[0..] == b;
  }

  lemma StandingStep(level: nat, x: State, ino: nat, k: nat, b: seq<byte>, p: nat)
    requires level > 0 && Standing(level, x, ino, k, b, p) && p < |b|
    ensures StartsRecord(b[p..]) && p < p + SizeAt(b[p..]) <= |b|
    ensures Standing(level, x, ino, k, b, p + SizeAt(b[p..]))
  {
    hide Tiled, FileBlock, Parse, FirstEntry, SizeAt, StartsRecord;
    StepRecord(b, p);
  }

  lemma EmptyChain()
    ensures Tiled([])
  {
  }

  /** The record that ends its block is the last of the block's list. */
  lemma LastRecord(level: nat, x: State, ino: nat, k: nat, b: seq<byte>, p: nat)
    requires level > 0 && Standing(level, x, ino, k, b, p) && p < |b| && StartsRecord(b[p..]) && p + SizeAt(b[p..]) == |b|
    ensures OneRecord(b[p..]) && TiledBlock(level, x, ino, k)
    ensures BlockEntries(level, x, ino, k) == Parse(b[..p]) + [FirstEntry(b[p..])]
    ensures |FirstEntry(b[p..]).name| == b[p..][6] && FirstEntry(b[p..]).size == |b| - p
  {
    hide FileBlock, Tiled, Parse;
    EmptyChain();
    ParseAround(b[..p], b[p..], []);
    assert b[..p] + b[p..] == b;
  }

  /** Finds the record from which the new one is cut: the one that ends the directory, if it has slack. Otherwise the scan
      runs to the end of the last block. */
  method FindLast(v: Volume, inode: Inode, ino: nat, ghost n: nat) returns (found: bool, k: nat, p: nat, buffer: seq<byte>)
    requires OpenChain(v, inode, ino, n)
    ensures k == n - 1 && Standing(v.a.level, v.Now(), ino, k, buffer, p) && |buffer| == 4 * v.a.level
    ensures found <==> Roomy(v.a.level, v.Now(), ino, n)
    ensures if found then p < |buffer| && OneRecord(buffer[p..]) else p == |buffer|
  {
    hide FileBlock, Names, Parse, Tiled, DirEntries, FirstEntry, SizeAt, PathOf, Standing, Times, BlockEntries,
      WellFormed, Accounted, Counted;
    var bs := 4 * v.a.level;
    var offset := 0;
    found, k, p := false, 0, 0;
    buffer := ReadBlock(v, inode, ino, 0);
    StandingStart(v.a.level, v.Now(), ino, 0, buffer);
    TimesZero(bs);
    TimesMono(bs, 1, n);
    TimesNext(bs, 0);
    while offset < inode.size && !found
      invariant k < n && p <= bs == |buffer| && offset == Times(bs, k) + p
      invariant Standing(v.a.level, v.Now(), ino, k, buffer, p)
      invariant !found && offset >= inode.size ==> k == n - 1 && p == bs && !Roomy(v.a.level, v.Now(), ino, n)
      invariant found ==> k == n - 1 && p < bs && OneRecord(buffer[p..]) && Roomy(v.a.level, v.Now(), ino, n)
      decreases !found, inode.size - offset
    {
      if p >= bs {
        TimesNext(bs, k);
        TimesLess(bs, k + 1, n);
        k, p := k + 1, 0;
        buffer := ReadBlock(v, inode, ino, k);
        StandingStart(v.a.level, v.Now(), ino, k, buffer);
      }
      var r := buffer[p..];
      StandingStep(v.a.level, v.Now(), ino, k, buffer, p);
      var need := Padded(r[6]);
      ghost var atEnd := offset + SizeAt(r) >= inode.size;
      TimesNext(bs, k);
      TimesMono(bs, k + 1, n);
      if atEnd {
        TimesStrict(bs, k + 1, n);
        LastRecord(v.a.level, v.Now(), ino, k, buffer, p);
      }
      if SizeAt(r) != need && offset + SizeAt(r) == inode.size {
        found := true;
      } else {
        p, offset := p + SizeAt(r), offset + SizeAt(r);
      }
    }
  }

  /** There is room for the name behind the last record. The code also moves on when it would fit exactly. */
  predicate Fits(e: Entry, name: seq<byte>) {
    Padded(|e.name|) + Padded(|name|) < e.size
  }

  /** In numbers: a record takes 8 bytes and its name, rounded up to a multiple of 4, and one byte at least must be left. */
  lemma FitsByNumbers(e: Entry, name: seq<byte>)
    ensures Fits(e, name) <==> (8 + |e.name| + 3) / 4 * 4 + (8 + |name| + 3) / 4 * 4 + 1 <= e.size
  {
    PaddedIs(|e.name|);
    PaddedIs(|name|);
    hide Padded;
  }

  lemma PaddedIs(n: nat)
    ensures Padded(n) == (8 + n + 3) / 4 * 4
  {
  }

  ghost function LastOf(es: seq<Entry>): Entry
    requires |es| > 0
  {
    es[|es| - 1]
  }

  /** The new record will have to go into a block of its own. */
  ghost predicate NeedsBlock(level: nat, x: State, ino: nat, n: nat, name: seq<byte>)
    requires level > 0 && n > 0
  {
    Roomy(level, x, ino, n) && !Fits(LastOf(BlockEntries(level, x, ino, n - 1)), name)
  }

  lemma AppendNames(a: seq<Entry>, b: seq<Entry>, e: Entry, size: nat, added: Entry)
    requires added.ino != 0
    ensures Names(a + (b + [e.(size := size), added]) + []) == Joined(Names(a + (b + [e]) + []), added.name, TargetOf(added))
    ensures UniqueNames(a + (b + [e.(size := size), added]) + []) <==>
              UniqueNames(a + (b + [e]) + []) && added.name !in Names(a + (b + [e]) + [])
  {
    hide Names, UniqueNames;
    assert a + (b + [e]) + [] == (a + b) + [e];
    assert a + (b + [e.(size := size), added]) + [] == (a + b) + [e.(size := size), added];
    NamesAppend(a + b, e, size, added);
  }

  /** The last record is cut to what it needs, and a new one has what that leaves. */
  ghost predicate RecordAdded(es: seq<Entry>, es': seq<Entry>, name: seq<byte>, child: word, kind: byte) {
    |es| > 0 &&
    var last := es[|es| - 1];
    var need := Padded(|last.name|);
    && need <= last.size
    && es' == es[..|es| - 1] + [last.(size := need), Entry(child, last.size - need, Stored(name), kind)]
  }

  lemma AddedAt(a: seq<Entry>, b: seq<Entry>, e: Entry, name: seq<byte>, child: word, kind: byte)
    requires Padded(|e.name|) <= e.size
    ensures var added := Entry(child, e.size - Padded(|e.name|), Stored(name), kind);
            RecordAdded(a + (b + [e]) + [], a + (b + [e.(size := Padded(|e.name|)), added]) + [], name, child, kind)
  {
    hide Padded, Stored;
    var es := a + (b + [e]) + [];
    assert es[..|es| - 1] == a + b && es[|es| - 1] == e;
  }

  /** The last block was rewritten: its last record shrunk, a new one behind it. */
  lemma AppendedDir(level: nat, x: State, y: State, ino: nat, n: nat, before: seq<Entry>, e: Entry, size: nat, added: Entry)
    requires level > 0 && DirChain(level, x, ino, n)
    requires SameFilesBut(level, x, y, ino, n - 1) && y.tree.Keys == x.tree.Keys
    requires BlockEntries(level, x, ino, n - 1) == before + [e] && TiledBlock(level, y, ino, n - 1)
    requires BlockEntries(level, y, ino, n - 1) == before + [e.(size := size), added]
    requires added.ino != 0 && added.size > Padded(|added.name|)
    ensures DirChain(level, y, ino, n) && Roomy(level, y, ino, n)
    ensures DirMap(level, y, ino, n) == Joined(DirMap(level, x, ino, n), added.name, TargetOf(added))
    ensures DirOk(level, y, ino, n) <==> DirOk(level, x, ino, n) && added.name !in DirMap(level, x, ino, n)
    ensures DirEntries(level, x, ino, 0, n) == DirEntries(level, x, ino, 0, n - 1) + (before + [e]) + []
    ensures DirEntries(level, y, ino, 0, n) == DirEntries(level, x, ino, 0, n - 1) + (before + [e.(size := size), added]) + []
  {
    hide FileBlock, Names, UniqueNames, BlockEntries, TiledBlock, PathOf;
    DirUpdate(level, x, y, ino, n - 1, n);
    DirSplit(level, x, ino, 0, n - 1, n);
    assert DirEntries(level, x, ino, n, n) == [];
    AppendNames(DirEntries(level, x, ino, 0, n - 1), before, e, size, added);
    forall j: nat | j < n ensures TiledBlock(level, y, ino, j) {
      if j != n - 1 {
        assert SameBlock(level, x, y, ino, j);
        OtherBlock(level, x, y, ino, j);
        assert TiledBlock(level, x, ino, j);
      }
    }
    SlotsStay(level, x, y, ino, n);
  }

  /** One more block with one record. */
  lemma ExtendedDir(level: nat, x: State, y: State, ino: nat, n: nat, added: Entry)
    requires level > 0 && DirChain(level, x, ino, n)
    requires SameFilesBut(level, x, y, ino, n) && y.tree.Keys == x.tree.Keys + Chain(level, ino, n)
    requires BlockEntries(level, y, ino, n) == [added] && TiledBlock(level, y, ino, n)
    requires added.ino != 0 && added.size > Padded(|added.name|)
    ensures DirChain(level, y, ino, n + 1) && Roomy(level, y, ino, n + 1)
    ensures DirMap(level, y, ino, n + 1) == Joined(DirMap(level, x, ino, n), added.name, TargetOf(added))
    ensures DirOk(level, y, ino, n + 1) <==> DirOk(level, x, ino, n) && added.name !in DirMap(level, x, ino, n)
    ensures DirEntries(level, y, ino, 0, n + 1) == DirEntries(level, x, ino, 0, n) + [added]
  {
    hide FileBlock, Names, UniqueNames, BlockEntries, TiledBlock, PathOf, Chain;
    forall j: nat | j < n ensures SameBlock(level, x, y, ino, j) && TiledBlock(level, y, ino, j) {
      assert SameBlock(level, x, y, ino, j);
      OtherBlock(level, x, y, ino, j);
      assert TiledBlock(level, x, ino, j);
    }
    DirSame(level, x, y, ino, 0, n);
    NamesExtend(DirEntries(level, x, ino, 0, n), added);
    forall k: nat | n + 1 <= k ensures SlotOf(level, ino, k) !in y.tree {
      assert SlotOf(level, ino, k) !in x.tree;
      OnlyOwnChain(level, ino, n, k);
    }
  }

  /** The block with its last record shrunk and a new one in the space behind it. */
  function Appended(b: seq<byte>, p: nat, name: seq<byte>, child: word, kind: byte): seq<byte>
    requires p < |b| < 0x1_0000 && OneRecord(b[p..]) && p + Padded(b[p..][6]) + Padded(|name|) < |b|
  {
    var at := p + Padded(b[p..][6]);
    b[..p] + Shrunk(b[p..]) + Record(child, |b| - at, name, kind, b[at + HEADER + |name|..])
  }

  lemma AppendedIs(level: nat, x: State, y: State, ino: nat, k: nat, b: seq<byte>, p: nat, name: seq<byte>, child: word, kind: byte)
    requires level > 0 && Standing(level, x, ino, k, b, p) && p < |b| < 0x1_0000 && OneRecord(b[p..])
    requires p + Padded(b[p..][6]) + Padded(|name|) < |b|
    requires FileBlock(level, y.tree, y.disk, ino, k) == Appended(b, p, name, child, kind)
    ensures var at := p + Padded(b[p..][6]);
            && TiledBlock(level, y, ino, k)
            && BlockEntries(level, y, ino, k) == Parse(b[..p]) +
                 [FirstEntry(b[p..]).(size := Padded(b[p..][6])), Entry(child, |b| - at, Stored(name), kind)]
  {
    hide FileBlock, Parse, Tiled, FirstEntry, Record, Shrunk, InoAt;
    var at := p + Padded(b[p..][6]);
    var rest := b[at + HEADER + |name|..];
    RecordParse(child, |b| - at, name, kind, rest);
    ShrinkParse(b, p, Record(child, |b| - at, name, kind, rest));
  }

  lemma AppendedLength(b: seq<byte>, p: nat, name: seq<byte>, child: word, kind: byte)
    requires p < |b| < 0x1_0000 && OneRecord(b[p..]) && p + Padded(b[p..][6]) + Padded(|name|) < |b|
    ensures |Appended(b, p, name, child, kind)| == |b|
  {
    hide Record, Shrunk;
    ShrunkIs(b[p..]);
  }

  /** The new record goes into the last block. */
  method AppendHere(v: Volume, inode: Inode, ino: nat, name: seq<byte>, child: word, kind: byte,
                    k: nat, p: nat, buffer: seq<byte>, ghost n: nat) returns (rc: int)
    requires OpenChain(v, inode, ino, n) && n <= DoubleEnd(v.a.level) && child != 0
    requires k == n - 1 && Standing(v.a.level, v.Now(), ino, k, buffer, p) && p < |buffer| == 4 * v.a.level
    requires OneRecord(buffer[p..]) && p + Padded(buffer[p..][6]) + Padded(|name|) < |buffer|
    modifies v, v.a, inode`blocks, inode`numBlocks
    ensures rc == 0 && OpenChain(v, inode, ino, n) && Roomy(v.a.level, v.Now(), ino, n)
    ensures DirMap(v.a.level, v.Now(), ino, n) ==
              Joined(old(DirMap(v.a.level, v.Now(), ino, n)), Stored(name), Target(child, kind))
    ensures OpenDir(v, inode, ino, n) <==> old(OpenDir(v, inode, ino, n) && Stored(name) !in DirMap(v.a.level, v.Now(), ino, n))
    ensures RecordAdded(old(DirEntries(v.a.level, v.Now(), ino, 0, n)), DirEntries(v.a.level, v.Now(), ino, 0, n), name, child, kind)
    ensures SameFilesBut(v.a.level, old(v.Now()), v.Now(), ino, n - 1)
    ensures v.a.totalFree == old(v.a.totalFree)
  {
    hide FileBlock, Parse, Tiled, Names, DirEntries, FirstEntry, SizeAt, PathOf, UniqueNames, BlockEntries, Appended,
      DirOk, TiledBlock, Times, Chain, Need, Shaped, Linked, Covered, Unaliased, Accounted, Counted, OneRecord,
      Padded, DirMap, Stored, Standing, SameFilesBut, DirChain, Joined, RecordAdded;
    ghost var x := v.Now();
    AppendedLength(buffer, p, name, child, kind);
    DirBlock(v.a.level, x, ino, n, k);
    TiledNeedsNothing(v.a.level, x, RootsOf(v.table), ino, k);
    ghost var stored;
    rc, stored := WriteBlock(v, inode, ino, k, Appended(buffer, p, name, child, kind));
    AppendedHere(v.a.level, x, v.Now(), ino, n, buffer, p, name, child, kind);
  }

  /** A block of 1 KiB with two records, the last of them just as long as it has to be. */
  lemma FullLastRecord() returns (b: seq<byte>)
    ensures |b| == 1024 && Tiled(b) && |Parse(b)| == 2 && !Slack(Parse(b))
  {
    hide Record, FirstEntry, OneRecord, Tiled, Parse;
    var one, two: seq<byte> := [97], [97, 98, 99, 100];
    var r, s := Record(11, 1012, one, 1, Zeros(1003)), Record(12, 12, two, 1, []);
    RecordParse(11, 1012, one, 1, Zeros(1003));
    RecordParse(12, 12, two, 1, []);
    assert one[..1] == one && two[..4] == two;
    ParseOne(r);
    ParseOne(s);
    ParseConcat(r, s);
    b := r + s;
  }

  /** What the directory is after its last block has been rewritten with the new record. */
  lemma AppendedHere(level: nat, x: State, y: State, ino: nat, n: nat, b: seq<byte>, p: nat, name: seq<byte>, child: word, kind: byte)
    requires level > 0 && DirChain(level, x, ino, n) && n > 0 && child != 0
    requires Standing(level, x, ino, n - 1, b, p) && p < |b| < 0x1_0000 && OneRecord(b[p..])
    requires p + Padded(b[p..][6]) + Padded(|name|) < |b|
    requires SameFilesBut(level, x, y, ino, n - 1) && y.tree.Keys == x.tree.Keys
    requires FileBlock(level, y.tree, y.disk, ino, n - 1) == Appended(b, p, name, child, kind)
    ensures DirChain(level, y, ino, n) && Roomy(level, y, ino, n)
    ensures DirMap(level, y, ino, n) == Joined(DirMap(level, x, ino, n), Stored(name), Target(child, kind))
    ensures DirOk(level, y, ino, n) <==> DirOk(level, x, ino, n) && Stored(name) !in DirMap(level, x, ino, n)
    ensures RecordAdded(DirEntries(level, x, ino, 0, n), DirEntries(level, y, ino, 0, n), name, child, kind)
  {
    hide FileBlock, Parse, Tiled, Names, DirEntries, FirstEntry, SizeAt, PathOf, UniqueNames, BlockEntries, Appended, DirOk, DirMap,
      DirChain, Joined, TiledBlock, OneRecord, Padded, SameFilesBut, RecordAdded, Stored;
    WholeRecord(b[p..]);
    LastRecord(level, x, ino, n - 1, b, p);
    AppendedIs(level, x, y, ino, n - 1, b, p, name, child, kind);
    StoredShorter(name);
    var at := p + Padded(b[p..][6]);
    AppendedDir(level, x, y, ino, n, Parse(b[..p]), FirstEntry(b[p..]), Padded(b[p..][6]), Entry(child, |b| - at, Stored(name), kind));
    AddedAt(DirEntries(level, x, ino, 0, n - 1), Parse(b[..p]), FirstEntry(b[p..]), name, child, kind);
  }

  lemma StoredShorter(name: seq<byte>)
    ensures |Stored(name)| <= |name| && Padded(|Stored(name)|) <= Padded(|name|)
  {
    PaddedMono(|Stored(name)|, |name|);
  }

  lemma WholeRecord(r: seq<byte>)
    requires OneRecord(r)
    ensures |r| >= HEADER && StartsRecord(r) && SizeAt(r) == |r|
  {
  }

  lemma SameTrans(level: nat, x: State, m: State, y: State, ino: nat, n: nat)
    requires level > 0 && SameFiles(level, x, m) && SameFilesBut(level, m, y, ino, n)
    ensures SameFilesBut(level, x, y, ino, n)
  {
    hide FileBlock;
    forall i: nat, k: nat | (i, k) != (ino, n) ensures SameBlock(level, x, y, i, k) {
      assert SameBlock(level, x, m, i, k) && SameBlock(level, m, y, i, k);
    }
  }

  /** A block could be attached: the write that follows finds it there. */
  lemma ExtendStored(level: nat, x: State, m: State, y: State, roots: Roots, ino: nat, n: nat, b: nat, buf: seq<byte>, stored: bool)
    requires level > 0 && SlotOf(level, ino, n) !in x.tree && SlotOf(level, ino, n) in m.tree
    requires Allocated(level, x, m, ino, n, b) && WellFormed(level, m.disk, roots, m.tree, {})
    requires Written(level, m, y, ino, n, buf, stored)
    ensures stored && y.free + |Need(level, x.tree, ino, n)| == x.free
    ensures y.tree.Keys == x.tree.Keys + Chain(level, ino, n) && SameFilesBut(level, x, y, ino, n)
    ensures FileBlock(level, y.tree, y.disk, ino, n) == buf
  {
    hide PathOf, MissingTables, SlotsOf, FileBlock, SameFiles, SameFilesBut, Chain;
    NeedMissing(level, x.tree, ino, n);
    KeysAfter(level, m.disk, roots, x.tree, m.tree, ino, n);
    assert Need(level, m.tree, ino, n) == {};
    SameTrans(level, x, m, y, ino, n);
  }

  /** No block could be attached: the write that follows fails and the new block of the directory is a hole. */
  lemma ExtendLost(level: nat, x: State, m: State, y: State, ino: nat, n: nat, b: nat, buf: seq<byte>, stored: bool)
    requires level > 0 && SlotOf(level, ino, n) !in x.tree && SlotOf(level, ino, n) !in m.tree
    requires (m == x && x.free == 0) || Allocated(level, x, m, ino, n, b)
    requires Written(level, m, y, ino, n, buf, stored)
    ensures !stored && |Need(level, x.tree, ino, n)| > x.free && m.free == 0 && y.free == 0
    ensures SameFilesBut(level, x, y, ino, n)
    ensures FileBlock(level, y.tree, y.disk, ino, n) == Zeros(4 * level)
  {
    hide PathOf, MissingTables, SlotsOf, Chain;
    NeedMissing(level, x.tree, ino, n);
    NeedMissing(level, m.tree, ino, n);
    assert SameBlock(level, m, y, ino, n);
    if m != x { assert SameBlock(level, x, m, ino, n); SameTrans(level, x, m, y, ino, n); }
  }

  lemma FreshBlock(level: nat, y: State, ino: nat, n: nat, name: seq<byte>, child: word, kind: byte)
    requires 0x100 <= level < 0x4000
    requires FileBlock(level, y.tree, y.disk, ino, n) == BlockFor(child, 4 * level, name, kind)
    ensures TiledBlock(level, y, ino, n) && Padded(|Stored(name)|) < 4 * level
    ensures BlockEntries(level, y, ino, n) == [Entry(child, 4 * level, Stored(name), kind)]
  {
    hide FileBlock, BlockFor, Tiled, Parse, FirstEntry;
    BlockForParse(child, 4 * level, name, kind);
    ParseOne(BlockFor(child, 4 * level, name, kind));
  }

  /** What the attempt to add block `n` to a file leaves: the block, or a hole. */
  ghost predicate Extended(level: nat, x: State, y: State, ino: nat, n: nat, buf: seq<byte>, ok: bool)
    requires level > 0
  {
    && (ok <==> |Need(level, x.tree, ino, n)| <= x.free)
    && SameFilesBut(level, x, y, ino, n)
    && FileBlock(level, y.tree, y.disk, ino, n) == (if ok then buf else Zeros(4 * level))
    && (ok ==> y.tree.Keys == x.tree.Keys + Chain(level, ino, n) && y.free + |Need(level, x.tree, ino, n)| == x.free)
    && (!ok ==> y.free == 0)
  }

  lemma ExtendedFrom(level: nat, x: State, m: State, y: State, roots: Roots, ino: nat, n: nat, b: nat, buf: seq<byte>, stored: bool)
    requires level > 0 && SlotOf(level, ino, n) !in x.tree && WellFormed(level, m.disk, roots, m.tree, {})
    requires (m == x && x.free == 0) || Allocated(level, x, m, ino, n, b)
    requires Written(level, m, y, ino, n, buf, stored)
    ensures Extended(level, x, y, ino, n, buf, stored) && (stored <==> SlotOf(level, ino, n) in m.tree)
    ensures !stored ==> m.free == 0 && BlockOf(level, m.tree, ino, n) == 0
  {
    hide PathOf, MissingTables, SlotsOf, FileBlock, SameFiles, SameFilesBut, Chain, Written, Allocated, WellFormed;
    if SlotOf(level, ino, n) in m.tree {
      ExtendStored(level, x, m, y, roots, ino, n, b, buf, stored);
    } else {
      ExtendLost(level, x, m, y, ino, n, b, buf, stored);
    }
  }

  /** Allocates block `n` of the directory without looking at the result, grows the size, writes the block. */
  method AddDirBlock(v: Volume, inode: Inode, ino: nat, n: nat, buffer: seq<byte>) returns (rc: int)
    requires v.Valid() && v.Loaded(inode, ino) && inode.size == Times(4 * v.a.level, n) && n < DoubleEnd(v.a.level)
    requires SlotOf(v.a.level, ino, n) !in v.tree && |buffer| == 4 * v.a.level
    modifies v, v.a, inode
    ensures v.Valid() && v.Loaded(inode, ino) && inode.size == Times(4 * v.a.level, n + 1)
    ensures rc == 0 || rc == -ENOSPC
    ensures Extended(v.a.level, old(v.Now()), v.Now(), ino, n, buffer, rc == 0)
  {
    hide PathOf, Times, Chain, Need, Allocated, FileBlock, SameFilesBut, SameFiles, WellFormed, Accounted, Counted, Written, Extended;
    ghost var x := v.Now();
    var bs := 4 * v.a.level;
    var ignored, b := v.AllocInodeBlock(inode, ino, n);
    ghost var m, roots := v.Now(), RootsOf(v.table);
    TimesNext(bs, n);
    GrowSize(v, inode, ino, inode.size + bs);
    ghost var stored;
    rc, stored := WriteBlock(v, inode, ino, n, buffer);
    ExtendedFrom(v.a.level, x, m, v.Now(), roots, ino, n, b, buffer, stored);
  }

  /** The new record gets a block of its own. The size has already grown when the write reports that the
      disk is full: the directory then ends in a block of zeros, which is no record chain. `past` is the number
      of bytes of a long name that are copied past the end of the block buffer. */
  method AppendBeyond(v: Volume, inode: Inode, ino: nat, name: seq<byte>, child: word, kind: byte, n: nat)
    returns (rc: int, past: nat)
    requires OpenChain(v, inode, ino, n) && n < DoubleEnd(v.a.level) && child != 0
    modifies v, v.a, inode
    ensures v.Valid() && v.Loaded(inode, ino) && inode.size == Times(4 * v.a.level, n + 1)
    ensures SameFilesBut(v.a.level, old(v.Now()), v.Now(), ino, n)
    ensures rc == if |Need(v.a.level, old(v.tree), ino, n)| <= old(v.a.totalFree) then 0 else -ENOSPC
    ensures v.a.totalFree == if rc == 0 then old(v.a.totalFree) - |Need(v.a.level, old(v.tree), ino, n)| else 0
    ensures past == if HEADER + |name| > 4 * v.a.level then HEADER + |name| - 4 * v.a.level else 0
    ensures rc == 0 ==> OpenChain(v, inode, ino, n + 1) && Roomy(v.a.level, v.Now(), ino, n + 1)
    ensures rc == 0 ==>
              DirMap(v.a.level, v.Now(), ino, n + 1) == Joined(old(DirMap(v.a.level, v.Now(), ino, n)), Stored(name), Target(child, kind))
    ensures rc == 0 ==>
              (OpenDir(v, inode, ino, n + 1) <==>
               old(OpenDir(v, inode, ino, n) && Stored(name) !in DirMap(v.a.level, v.Now(), ino, n)))
    ensures rc == 0 ==>
              DirEntries(v.a.level, v.Now(), ino, 0, n + 1) ==
                old(DirEntries(v.a.level, v.Now(), ino, 0, n)) + [Entry(child, 4 * v.a.level, Stored(name), kind)]
    ensures rc != 0 ==> FileBlock(v.a.level, v.tree, v.a.disk, ino, n) == Zeros(4 * v.a.level)
  {
    hide FileBlock, Parse, Tiled, Names, DirEntries, PathOf, BlockEntries, DirOk, DirChain, DirMap, Joined, Times, Chain, Need,
      SameFilesBut, WellFormed, Accounted, Counted, BlockFor, TiledBlock;
    ghost var x := v.Now();
    var bs := 4 * v.a.level;
    NothingBeyond(v.a.level, x, ino, n);
    past := if HEADER + |name| > bs then HEADER + |name| - bs else 0;
    rc := AddDirBlock(v, inode, ino, n, BlockFor(child, bs, name, kind));
    if rc == 0 {
      FreshBlock(v.a.level, v.Now(), ino, n, name, child, kind);
      ExtendedDir(v.a.level, x, v.Now(), ino, n, Entry(child, bs, Stored(name), kind));
    }
  }

  lemma NothingBeyond(level: nat, x: State, ino: nat, n: nat)
    requires level > 0 && DirChain(level, x, ino, n)
    ensures SlotOf(level, ino, n) !in x.tree
  {
  }

  lemma HoleIsNoChain(level: nat, y: State, ino: nat, n: nat)
    requires level > 0 && FileBlock(level, y.tree, y.disk, ino, n) == Zeros(4 * level)
    ensures !TiledBlock(level, y, ino, n)
  {
    ZerosNotTiled(4 * level);
  }

  /** Every name of a directory has at most 255 bytes. */
  lemma {:induction false} DirNamesShort(level: nat, x: State, ino: nat, n: nat, name: seq<byte>)
    requires level > 0 && name in DirMap(level, x, ino, n)
    ensures |name| < 0x100
    decreases n
  {
    hide FileBlock, Tiled, Parse, PathOf;
    if n > 0 {
      var before, last := DirEntries(level, x, ino, 0, n - 1), BlockEntries(level, x, ino, n - 1);
      NamesConcat(before, last);
      if name in Names(before) {
        DirNamesShort(level, x, ino, n - 1, name);
      } else {
        NamesLive(last, name);
        if TiledBlock(level, x, ino, n - 1) { NamesShort(FileBlock(level, x.tree, x.disk, ino, n - 1)); }
      }
    }
  }

  /** What the map says of a name after a record with its stored form has been added. */
  lemma FoundAgain(level: nat, x: State, y: State, ino: nat, n: nat, n': nat, name: seq<byte>, t: Target)
    requires level > 0
    requires DirMap(level, y, ino, n') == Joined(DirMap(level, x, ino, n), Stored(name), t)
    ensures name in DirMap(level, y, ino, n') <==> |name| < 0x100
    ensures name in DirMap(level, y, ino, n') && name !in DirMap(level, x, ino, n) ==> DirMap(level, y, ino, n')[name] == t
  {
    hide DirMap;
    if |name| < 0x100 {
      assert Stored(name) == name;
    } else if name in DirMap(level, y, ino, n') {
      DirNamesShort(level, y, ino, n', name);
    }
  }

  ghost predicate BlockIs(level: nat, x: State, ino: nat, k: nat)
    requires level > 0
  {
    TiledBlock(level, x, ino, k) && |FileBlock(level, x.tree, x.disk, ino, k)| == 4 * level
  }

  ghost predicate Blocks(level: nat, x: State, ino: nat, n: nat)
    requires level > 0
  {
    forall k: nat {:trigger BlockIs(level, x, ino, k)} :: k < n ==> BlockIs(level, x, ino, k)
  }

  /** The blocks before one that has changed are a chain of records as before. */
  lemma BlocksStay(level: nat, x: State, y: State, roots: Roots, ino: nat, n: nat)
    requires level > 0 && DirChain(level, x, ino, n) && SameFilesBut(level, x, y, ino, n) && Shaped(level, y.disk, roots, y.tree)
    ensures Blocks(level, y, ino, n) && DirMap(level, y, ino, n) == DirMap(level, x, ino, n)
  {
    hide FileBlock, PathOf, Tiled, DirEntries, Names;
    forall k: nat | k < n ensures SameBlock(level, x, y, ino, k) && BlockIs(level, y, ino, k) {
      assert SameBlock(level, x, y, ino, k) && TiledBlock(level, x, ino, k);
      OtherBlock(level, x, y, ino, k);
      BlockLength(level, y.disk, roots, y.tree, ino, k);
    }
    DirSame(level, x, y, ino, 0, n);
  }

  /** Without slack the new record is laid behind the block buffer, all of it, and the block is written back as it was. */
  method AppendNowhere(v: Volume, inode: Inode, ino: nat, name: seq<byte>, k: nat, buffer: seq<byte>, ghost n: nat)
    returns (rc: int, past: nat)
    requires OpenChain(v, inode, ino, n) && n <= DoubleEnd(v.a.level)
    requires k == n - 1 && buffer == FileBlock(v.a.level, v.tree, v.a.disk, ino, k) && |buffer| == 4 * v.a.level
    modifies v, v.a, inode`blocks, inode`numBlocks
    ensures rc == 0 && past == HEADER + |name| && OpenChain(v, inode, ino, n)
    ensures DirEntries(v.a.level, v.Now(), ino, 0, n) == old(DirEntries(v.a.level, v.Now(), ino, 0, n))
    ensures Roomy(v.a.level, v.Now(), ino, n) <==> old(Roomy(v.a.level, v.Now(), ino, n))
    ensures SameFilesBut(v.a.level, old(v.Now()), v.Now(), ino, n - 1) && v.a.totalFree == old(v.a.totalFree)
  {
    hide FileBlock, Parse, Tiled, DirEntries, PathOf, BlockEntries, TiledBlock, Times, Chain, Need, Shaped, Linked, Covered, Unaliased,
      Accounted, Counted, DirChain, SameFilesBut, Roomy;
    ghost var x := v.Now();
    past := HEADER + |name|;
    DirBlock(v.a.level, x, ino, n, k);
    TiledNeedsNothing(v.a.level, x, RootsOf(v.table), ino, k);
    ghost var stored;
    rc, stored := WriteBlock(v, inode, ino, k, buffer);
    WrittenBack(v.a.level, x, v.Now(), ino, n);
  }

  lemma WrittenBack(level: nat, x: State, y: State, ino: nat, n: nat)
    requires level > 0 && DirChain(level, x, ino, n) && SameFilesBut(level, x, y, ino, n - 1) && y.tree.Keys == x.tree.Keys
    requires SameBlock(level, x, y, ino, n - 1)
    ensures DirChain(level, y, ino, n) && DirEntries(level, y, ino, 0, n) == DirEntries(level, x, ino, 0, n)
    ensures Roomy(level, y, ino, n) <==> Roomy(level, x, ino, n)
  {
    hide FileBlock, PathOf, Tiled, DirEntries, Slack;
    forall k: nat | k < n ensures SameBlock(level, x, y, ino, k) && TiledBlock(level, y, ino, k) {
      assert SameBlock(level, x, y, ino, k);
      assert TiledBlock(level, x, ino, k);
      OtherBlock(level, x, y, ino, k);
    }
    OtherBlock(level, x, y, ino, n - 1);
    DirSame(level, x, y, ino, 0, n);
    SlotsStay(level, x, y, ino, n);
  }

  /** `ext2_create_dentry`. If the last record has no slack nothing is entered, although success is reported. Otherwise
      the record carries the name cut to its length modulo 256, and an older record of that name hides it. So the name
      is found afterwards exactly if it was there, or has fewer than 256 bytes and there was slack. The record needs
      a new block exactly if it does not fit behind the last one; if the disk then has no room the call fails with a
      directory that ends in zeros. */
  method CreateDentry(v: Volume, inode: Inode, ino: nat, name: seq<byte>, child: word, kind: byte, ghost n: nat)
    returns (rc: int, past: nat, ghost n': nat)
    requires OpenChain(v, inode, ino, n) && n < DoubleEnd(v.a.level) && child != 0
    modifies v, v.a, inode
    ensures v.Valid() && v.Loaded(inode, ino)
    ensures n' == if old(NeedsBlock(v.a.level, v.Now(), ino, n, name)) then n + 1 else n
    ensures rc == if n' == n || |Need(v.a.level, old(v.tree), ino, n)| <= old(v.a.totalFree) then 0 else -ENOSPC
    ensures v.a.totalFree ==
              if n' == n then old(v.a.totalFree)
              else if rc == 0 then old(v.a.totalFree) - |Need(v.a.level, old(v.tree), ino, n)| else 0
    ensures past > 0 <==> !old(Roomy(v.a.level, v.Now(), ino, n)) || HEADER + |name| > 4 * v.a.level
    ensures inode.size == Times(4 * v.a.level, n')
    ensures rc == 0 ==> OpenChain(v, inode, ino, n')
    ensures rc == 0 ==> (Roomy(v.a.level, v.Now(), ino, n') <==> old(Roomy(v.a.level, v.Now(), ino, n)))
    ensures rc == 0 && !old(Roomy(v.a.level, v.Now(), ino, n)) ==>
              DirMap(v.a.level, v.Now(), ino, n') == old(DirMap(v.a.level, v.Now(), ino, n))
    ensures rc == 0 && old(Roomy(v.a.level, v.Now(), ino, n)) ==>
              DirMap(v.a.level, v.Now(), ino, n') == Joined(old(DirMap(v.a.level, v.Now(), ino, n)), Stored(name), Target(child, kind))
    ensures rc == 0 ==>
              (name in DirMap(v.a.level, v.Now(), ino, n') <==>
               old(name in DirMap(v.a.level, v.Now(), ino, n) || (Roomy(v.a.level, v.Now(), ino, n) && |name| < 0x100)))
    ensures rc == 0 && name in DirMap(v.a.level, v.Now(), ino, n') && name !in old(DirMap(v.a.level, v.Now(), ino, n)) ==>
              DirMap(v.a.level, v.Now(), ino, n')[name] == Target(child, kind)
    ensures rc == 0 ==>
              (OpenDir(v, inode, ino, n') <==>
               old(OpenDir(v, inode, ino, n) && (Roomy(v.a.level, v.Now(), ino, n) ==> Stored(name) !in DirMap(v.a.level, v.Now(), ino, n))))
    ensures rc == 0 && !old(Roomy(v.a.level, v.Now(), ino, n)) ==>
              DirEntries(v.a.level, v.Now(), ino, 0, n') == old(DirEntries(v.a.level, v.Now(), ino, 0, n))
    ensures old(Roomy(v.a.level, v.Now(), ino, n)) && n' == n ==>
              RecordAdded(old(DirEntries(v.a.level, v.Now(), ino, 0, n)), DirEntries(v.a.level, v.Now(), ino, 0, n), name, child, kind)
    ensures rc == 0 && n' == n + 1 ==>
              DirEntries(v.a.level, v.Now(), ino, 0, n') ==
                old(DirEntries(v.a.level, v.Now(), ino, 0, n)) + [Entry(child, 4 * v.a.level, Stored(name), kind)]
    ensures rc != 0 ==> n' == n + 1 && FileBlock(v.a.level, v.tree, v.a.disk, ino, n) == Zeros(4 * v.a.level)
    ensures rc != 0 ==> Blocks(v.a.level, v.Now(), ino, n)
    ensures rc != 0 ==> DirMap(v.a.level, v.Now(), ino, n) == old(DirMap(v.a.level, v.Now(), ino, n))
    ensures rc != 0 ==> !DirChain(v.a.level, v.Now(), ino, n')
    ensures SameFilesBut(v.a.level, old(v.Now()), v.Now(), ino, n' - 1)
  {
    hide FileBlock, Parse, Tiled, Names, DirEntries, PathOf, BlockEntries, Times, Chain, Need, TiledBlock, DirMap, Joined,
      SameFilesBut, Shaped, Linked, Covered, Unaliased, Accounted, Counted, FirstEntry, Stored, Blocks, UniqueNames, RecordAdded;
    ghost var x := v.Now();
    var found, k, p, buffer := FindLast(v, inode, ino, n);
    past, n' := 0, n;
    if !found {
      rc, past := AppendNowhere(v, inode, ino, name, k, buffer, n);
      SameEntries(v.a.level, x, v.Now(), ino, n);
      return;
    }
    WholeRecord(buffer[p..]);
    LastRecord(v.a.level, v.Now(), ino, k, buffer, p);
    if p + Padded(buffer[p..][6]) + Padded(|name|) >= 4 * v.a.level {
      n' := n + 1;
      rc, past := AppendBeyond(v, inode, ino, name, child, kind, k + 1);
      if rc != 0 {
        HoleIsNoChain(v.a.level, v.Now(), ino, n);
        BlocksStay(v.a.level, x, v.Now(), RootsOf(v.table), ino, n);
      }
    } else {
      rc := AppendHere(v, inode, ino, name, child, kind, k, p, buffer, n);
    }
    if rc == 0 {
      FoundAgain(v.a.level, x, v.Now(), ino, n, n', name, Target(child, kind));
      if name in DirMap(v.a.level, x, ino, n) { DirNamesShort(v.a.level, x, ino, n, name); }
    }
  }

  lemma SameEntries(level: nat, x: State, y: State, ino: nat, n: nat)
    requires level > 0 && DirEntries(level, y, ino, 0, n) == DirEntries(level, x, ino, 0, n)
    ensures DirMap(level, y, ino, n) == DirMap(level, x, ino, n)
  {
    hide Names;
  }

  // ----- making a directory

  /** The part of `ext2_mkdir` that fills the new directory: a block for it, and the two dot records in it. The
      inode has just been created, without blocks. */
  method FillDirectory(v: Volume, inode: Inode, ino: nat, self: word, parent: word) returns (rc: int)
    requires v.Valid() && v.Loaded(inode, ino) && 0x100 <= v.a.level < 0x4000 && self != 0 && parent != 0
    requires inode.size == 4 * v.a.level
    requires forall k: nat {:trigger SlotOf(v.a.level, ino, k)} :: SlotOf(v.a.level, ino, k) !in v.tree
    modifies v, v.a, inode`blocks, inode`numBlocks
    ensures v.Valid() && v.Loaded(inode, ino)
    ensures rc == if old(v.a.totalFree) == 0 then -ENOSPC else 0
    ensures rc == 0 ==> OpenDir(v, inode, ino, 1) && Roomy(v.a.level, v.Now(), ino, 1)
    ensures rc == 0 ==>
              DirMap(v.a.level, v.Now(), ino, 1) == map[DOT := Target(self, EXT2_DT_DIR), DOT_DOT := Target(parent, EXT2_DT_DIR)]
    ensures rc == 0 ==> SameFilesBut(v.a.level, old(v.Now()), v.Now(), ino, 0) && v.a.totalFree + 1 == old(v.a.totalFree)
    ensures rc != 0 ==> v.Now() == old(v.Now())
  {
    hide FileBlock, PathOf, Times, Chain, Need, Allocated, SameFiles, SameFilesBut, Written, Extended, DotBlock, DirMap, DirOk, DirChain,
      WellFormed, Accounted, Counted;
    ghost var x := v.Now();
    var b;
    FirstNeedsOne(v.a.level, v.tree, ino);
    rc, b := v.AllocInodeBlock(inode, ino, 0);
    if rc != 0 { return; }
    ghost var m, roots := v.Now(), RootsOf(v.table);
    ghost var stored;
    rc, stored := WriteBlock(v, inode, ino, 0, DotBlock(self, parent, 4 * v.a.level));
    ExtendedFrom(v.a.level, x, m, v.Now(), roots, ino, 0, b, DotBlock(self, parent, 4 * v.a.level), stored);
    FilledIs(v.a.level, x, v.Now(), ino, self, parent, stored);
    OneBlock(4 * v.a.level);
  }

  lemma OneBlock(bs: nat)
    ensures Times(bs, 1) == bs
  {
    TimesNext(bs, 0);
  }

  /** The first block of a file needs no table. */
  lemma FirstNeedsOne(level: nat, tree: Tree, ino: nat)
    requires level > 0 && SlotOf(level, ino, 0) !in tree
    ensures |Need(level, tree, ino, 0)| == 1 && SlotOf(level, ino, 0) == Slot(ino, [0])
  {
    NeedMissing(level, tree, ino, 0);
    assert MissingTables(tree, Slot(ino, [0])) == {};
  }

  lemma FilledIs(level: nat, x: State, y: State, ino: nat, self: word, parent: word, stored: bool)
    requires 0x100 <= level < 0x4000 && self != 0 && parent != 0 && x.free > 0
    requires forall k: nat {:trigger SlotOf(level, ino, k)} :: SlotOf(level, ino, k) !in x.tree
    requires Extended(level, x, y, ino, 0, DotBlock(self, parent, 4 * level), stored)
    requires |Need(level, x.tree, ino, 0)| == 1
    ensures stored && SameFilesBut(level, x, y, ino, 0) && DirChain(level, y, ino, 1) && DirOk(level, y, ino, 1)
    ensures Roomy(level, y, ino, 1)
    ensures y.free + 1 == x.free
    ensures DirMap(level, y, ino, 1) == map[DOT := Target(self, EXT2_DT_DIR), DOT_DOT := Target(parent, EXT2_DT_DIR)]
  {
    hide FileBlock, PathOf, Chain, DotBlock, DirChain, DirMap, Need, SameFilesBut;
    forall k: nat | 1 <= k ensures SlotOf(level, ino, k) !in y.tree {
      OnlyOwnChain(level, ino, 0, k);
    }
    NewDirectory(level, y, ino, self, parent);
  }

  // ----- a directory that ends in zeros

  /** Where the scan of finding and removing stands before a round: at offset `p` of block `k`, or finished. */
  datatype Spot = At(k: nat, p: nat) | Hit | Done

  predicate Matches(r: seq<byte>, name: seq<byte>) {
    && |r| >= HEADER && InoAt(r) != 0 && |name| == r[6]
    && HEADER + |name| <= |r| && r[HEADER..HEADER + |name|] == name
  }

  /** One round of the loop, for a directory of `size` bytes. */
  ghost function Round(level: nat, x: State, ino: nat, size: nat, name: seq<byte>, spot: Spot): Spot
    requires level > 0
  {
    if !spot.At? then spot
    else if Times(4 * level, spot.k) + spot.p >= size then Done
    else
      var k := if spot.p >= 4 * level then spot.k + 1 else spot.k;
      var p := if spot.p >= 4 * level then 0 else spot.p;
      var b := FileBlock(level, x.tree, x.disk, ino, k);
      if p + HEADER > |b| then Done
      else if Matches(b[p..], name) then Hit
      else At(k, p + SizeAt(b[p..]))
  }

  ghost function Rounds(level: nat, x: State, ino: nat, size: nat, name: seq<byte>, spot: Spot, m: nat): Spot
    requires level > 0
    decreases m
  {
    if m == 0 then spot else Rounds(level, x, ino, size, name, Round(level, x, ino, size, name, spot), m - 1)
  }

  lemma MatchesLive(r: seq<byte>, name: seq<byte>)
    requires StartsRecord(r)
    ensures Matches(r, name) <==> Live(FirstEntry(r), name)
  {
  }

  /** A record of zeros matches no name and has no length. */
  lemma ZeroRound(level: nat, x: State, ino: nat, n: nat, name: seq<byte>)
    requires level > 1 && FileBlock(level, x.tree, x.disk, ino, n) == Zeros(4 * level)
    ensures Round(level, x, ino, Times(4 * level, n + 1), name, At(n, 0)) == At(n, 0)
  {
    hide FileBlock, Times, PathOf;
    TimesNext(4 * level, n);
    var z := Zeros(4 * level);
    assert z[0..] == z && InoAt(z) == 0 && SizeAt(z) == 0;
  }

  lemma {:induction false} ZeroRounds(level: nat, x: State, ino: nat, n: nat, name: seq<byte>, m: nat)
    requires level > 1 && FileBlock(level, x.tree, x.disk, ino, n) == Zeros(4 * level)
    ensures Rounds(level, x, ino, Times(4 * level, n + 1), name, At(n, 0), m) == At(n, 0)
  {
    hide FileBlock, Times, PathOf, Round;
    if m > 0 {
      ZeroRound(level, x, ino, n, name);
      ZeroRounds(level, x, ino, n, name, m - 1);
    }
  }

  /** At the end of a block the round goes on to the next one. */
  lemma NextBlock(level: nat, x: State, ino: nat, size: nat, name: seq<byte>, k: nat)
    requires level > 0
    ensures Round(level, x, ino, size, name, At(k, 4 * level)) == Round(level, x, ino, size, name, At(k + 1, 0))
  {
    hide FileBlock, PathOf, Times;
    TimesNext(4 * level, k);
  }

  lemma RoundAt(level: nat, x: State, ino: nat, size: nat, name: seq<byte>, k: nat, b: seq<byte>, p: nat)
    requires level > 0 && b == FileBlock(level, x.tree, x.disk, ino, k) && p < 4 * level && p + HEADER <= |b|
    requires Times(4 * level, k) + p < size && !Matches(b[p..], name)
    ensures Round(level, x, ino, size, name, At(k, p)) == At(k, p + SizeAt(b[p..]))
  {
    hide FileBlock, Times, PathOf, Matches, SizeAt;
  }

  lemma ScannedBlock(level: nat, x: State, ino: nat, k: nat, b: seq<byte>, p: nat, name: seq<byte>)
    requires level > 0 && Scanned(level, x, ino, k, b, p, name)
    ensures b == FileBlock(level, x.tree, x.disk, ino, k)
  {
  }

  lemma HasHeader(b: seq<byte>, p: nat)
    requires p < |b| && StartsRecord(b[p..])
    ensures p + HEADER <= |b|
  {
  }

  /** A record of another name is passed. */
  lemma PassRecord(level: nat, x: State, ino: nat, n: nat, name: seq<byte>, k: nat, b: seq<byte>, p: nat)
    requires level > 0 && k < n && Scanned(level, x, ino, k, b, p, name) && p < |b| == 4 * level
    requires name !in DirMap(level, x, ino, n)
    ensures StartsRecord(b[p..]) && p < p + SizeAt(b[p..]) <= |b|
    ensures Scanned(level, x, ino, k, b, p + SizeAt(b[p..]), name)
    ensures Round(level, x, ino, Times(4 * level, n + 1), name, At(k, p)) == At(k, p + SizeAt(b[p..]))
  {
    hide FileBlock, Times, PathOf, Scanned, Matches, SizeAt, StartsRecord, FirstEntry, Live, DirMap, Round;
    ScanStep(level, x, ino, k, b, p, name);
    if Live(FirstEntry(b[p..]), name) { ScanHit(level, x, ino, k, b, p, name, n); }
    MatchesLive(b[p..], name);
    HasHeader(b, p);
    ScannedBlock(level, x, ino, k, b, p, name);
    TimesNext(4 * level, k);
    TimesMono(4 * level, k + 1, n + 1);
    RoundAt(level, x, ino, Times(4 * level, n + 1), name, k, b, p);
  }

  /** From every place before the zeros the scan for an absent name reaches them. */
  lemma {:induction false} ReachesZeros(level: nat, x: State, ino: nat, n: nat, name: seq<byte>, k: nat, b: seq<byte>, p: nat)
    returns (m: nat)
    requires level > 1 && k < n && Scanned(level, x, ino, k, b, p, name) && |b| == 4 * level
    requires name !in DirMap(level, x, ino, n) && Blocks(level, x, ino, n)
    requires FileBlock(level, x.tree, x.disk, ino, n) == Zeros(4 * level)
    ensures m > 0 && Rounds(level, x, ino, Times(4 * level, n + 1), name, At(k, p), m) == At(n, 0)
    decreases n - k, |b| - p
  {
    hide FileBlock, Times, PathOf, Round, DirMap, Tiled;
    if p < |b| {
      PassRecord(level, x, ino, n, name, k, b, p);
      var m' := ReachesZeros(level, x, ino, n, name, k, b, p + SizeAt(b[p..]));
      m := m' + 1;
    } else {
      NextBlock(level, x, ino, Times(4 * level, n + 1), name, k);
      if k + 1 == n {
        ZeroRound(level, x, ino, n, name);
        m := 1;
        assert Rounds(level, x, ino, Times(4 * level, n + 1), name, At(n, 0), 0) == At(n, 0);
      } else {
        ScanBlockDone(level, x, ino, k, b, name);
        assert BlockIs(level, x, ino, k + 1);
        ScanStart(level, x, ino, k + 1, FileBlock(level, x.tree, x.disk, ino, k + 1), name);
        m := ReachesZeros(level, x, ino, n, name, k + 1, FileBlock(level, x.tree, x.disk, ino, k + 1), 0);
      }
    }
  }

  /** After a create that failed the scan for an absent name never ends: from some round on it stands at the zeros
      for good, before the end of the directory. */
  lemma ScanNeverEnds(level: nat, x: State, ino: nat, n: nat, name: seq<byte>) returns (m: nat)
    requires level > 1 && n > 0 && name !in DirMap(level, x, ino, n) && Blocks(level, x, ino, n)
    requires FileBlock(level, x.tree, x.disk, ino, n) == Zeros(4 * level)
    ensures forall r: nat {:trigger Rounds(level, x, ino, Times(4 * level, n + 1), name, At(0, 0), r)} ::
              m <= r ==> Rounds(level, x, ino, Times(4 * level, n + 1), name, At(0, 0), r) == At(n, 0)
    ensures Times(4 * level, n) < Times(4 * level, n + 1)
  {
    hide FileBlock, Times, PathOf, Round, DirMap, Tiled;
    EmptyDir(level, x, ino, name);
    assert BlockIs(level, x, ino, 0);
    var b := FileBlock(level, x.tree, x.disk, ino, 0);
    ScanStart(level, x, ino, 0, b, name);
    m := ReachesZeros(level, x, ino, n, name, 0, b, 0);
    var size, start := Times(4 * level, n + 1), At(0, 0);
    forall r: nat | m <= r ensures Rounds(level, x, ino, size, name, start, r) == At(n, 0) {
      RoundsAdd(level, x, ino, size, name, start, m, r - m);
      ZeroRounds(level, x, ino, n, name, r - m);
    }
    TimesNext(4 * level, n);
  }

  lemma {:induction false} RoundsAdd(level: nat, x: State, ino: nat, size: nat, name: seq<byte>, spot: Spot, m: nat, r: nat)
    requires level > 0
    ensures Rounds(level, x, ino, size, name, spot, m + r) ==
            Rounds(level, x, ino, size, name, Rounds(level, x, ino, size, name, spot, m), r)
    decreases m
  {
    hide Round;
    if m > 0 { RoundsAdd(level, x, ino, size, name, Round(level, x, ino, size, name, spot), m - 1, r); }
  }
}
