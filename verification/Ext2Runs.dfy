/** Runs from a freshly formatted volume. They show that valid volumes exist, with any number of free blocks, and what a
    disk that is nearly full does to an allocation, a write and a new directory entry. */
module Ext2Runs {

  import opened Arith
  import opened Bytes
  import opened BlockTree
  import opened Ext2Alloc
  import opened Ext2Files
  import opened Ext2Io
  import opened Ext2Data
  import opened DirRecords
  import opened Ext2Dir
  import opened Ext2Accounts

  // ----- formatting

  lemma {:induction false} ZeroBit(k: nat)
    ensures !NatBit(0, k)
  {
    if k > 0 { ZeroBit(k - 1); }
  }

  lemma ZerosClear(size: nat)
    ensures forall j: nat :: j < 8 * size ==> !TestBit(Zeros(size), j)
  {
    forall j: nat | j < 8 * size ensures !TestBit(Zeros(size), j) { ZeroBit(j % 8); }
  }

  /** A bitmap block whose first `n` bits are set. */
  function FirstBits(n: nat, size: nat): (r: seq<byte>)
    requires n <= 8 * size
    ensures |r| == size
    ensures forall j: nat :: j < 8 * size ==> (TestBit(r, j) <==> j < n)
  {
    if n == 0 then ZerosClear(size); Zeros(size) else SetBit(FirstBits(n - 1, size), n - 1)
  }

  lemma {:induction false} FirstBitsCount(b: seq<byte>, n: nat, m: nat)
    requires m <= 8 * |b| && forall j: nat :: j < 8 * |b| ==> (TestBit(b, j) <==> j < n)
    ensures ClearCount(b, m) == if m <= n then 0 else m - n
  {
    if m > 0 { FirstBitsCount(b, n, m - 1); }
  }

  /** The numbers below `n`. */
  function Below(n: nat): (r: set<nat>)
    ensures forall b: nat :: b in r <==> b < n
  {
    if n == 0 then {} else Below(n - 1) + {n - 1}
  }

  function EmptyDisk(level: nat, perGroup: nat, used: nat): Disk
    requires used <= perGroup <= 32 * level
  {
    map b: nat | b in Below(perGroup) :: if b == 1 then FirstBits(used, 4 * level) else Zeros(4 * level)
  }

  lemma EmptyBitmaps(a: Allocator, used: nat)
    requires 0 < a.level && 2 <= used <= a.perGroup <= 32 * a.level && a.perGroup < 0x1_0000
    requires a.groups == 1 && a.bitmapAt == [1] && a.disk == EmptyDisk(a.level, a.perGroup, used)
    ensures a.Bitmaps(a.disk)
    ensures forall b: nat :: a.InUse(a.disk, b) <==> b < used || a.perGroup <= b
  {
    hide FirstBits, TestBit;
    var bits := FirstBits(used, 4 * a.level);
    assert a.disk[1] == bits;
    forall b: nat ensures Quot(b, a.perGroup) < a.groups <==> b < a.perGroup {
      QuotSmall(b, a.perGroup, 1);
      TimesNext(a.perGroup, 0);
    }
    forall b: nat ensures a.InUse(a.disk, b) <==> b < used || a.perGroup <= b {
      if b < a.perGroup { assert Rem(b, a.perGroup) == b; }
    }
  }

  lemma EmptyCounters(a: Allocator, used: nat)
    requires 0 < a.level && 2 <= used <= a.perGroup <= 32 * a.level && a.perGroup < 0x1_0000
    requires a.groups == 1 && a.bitmapAt == [1] && a.disk == EmptyDisk(a.level, a.perGroup, used)
    requires a.groupFree == [a.perGroup - used] && a.totalFree == a.perGroup - used
    ensures a.Valid()
  {
    hide FirstBits, TestBit;
    EmptyBitmaps(a, used);
    FirstBitsCount(FirstBits(used, 4 * a.level), used, a.perGroup);
    assert a.groupFree[1..] == [];
    assert Sum(a.groupFree) == a.perGroup - used;
    hide Allocator.InUse;
  }

  /** A volume of one group with one empty file: any block size, any group size, any number of free blocks. */
  method Format(level: nat, perGroup: nat, used: nat, size: nat) returns (v: Volume, inode: Inode)
    requires 0 < level && 2 <= used <= perGroup <= 32 * level && perGroup < 0x1_0000
    ensures fresh(v) && fresh(v.a) && fresh(inode) && v.Valid() && v.Loaded(inode, 2) && inode.size == size
    ensures v.a.level == level && v.a.totalFree == perGroup - used && v.tree == map[]
    ensures v.reserved == Below(used)
  {
    var a := new Allocator(level, perGroup, [1], EmptyDisk(level, perGroup, used), [perGroup - used], perGroup - used);
    EmptyBitmaps(a, used);
    EmptyCounters(a, used);
    var record := InodeRecord(seq(ROOTS, _ => 0), size, 0);
    v := new Volume(a, map[2 := record], map[], Below(used));
    inode := new Inode(record);
    TakenIs(a, used);
    FormattedValid(v);
  }

  lemma TakenIs(a: Allocator, used: nat)
    requires a.Bitmaps(a.disk) && used <= a.perGroup && a.groups == 1
    requires forall b: nat :: a.InUse(a.disk, b) <==> b < used || a.perGroup <= b
    ensures forall b: nat :: b < used <==> b in a.Taken(a.disk)
  {
    hide Allocator.InUse;
    forall b: nat ensures b < used <==> b in a.Taken(a.disk) {
      QuotSmall(b, a.perGroup, 1);
      TimesNext(a.perGroup, 0);
    }
  }

  // ----- one free block

  /** The first index behind the direct ones, with one free block: the allocation reports success, and the block is no
      part of the file. */
  method LostBlock(level: nat, perGroup: nat) returns (rc: int, v: Volume, b: nat)
    requires 0 < level && 3 <= perGroup <= 32 * level && perGroup < 0x1_0000
    ensures rc == 0 && v.Valid() && v.a.level == level
    ensures v.a.totalFree == 0 && SlotOf(level, 2, DIRECT) !in v.tree && b in v.reserved
  {
    hide Allocated;
    var inode;
    v, inode := Format(level, perGroup, perGroup - 1, 0);
    ghost var x := v.Now();
    rc, b := v.AllocInodeBlock(inode, 2, DIRECT);
    NoRoomForTable(level, x, v.Now(), 2, b);
    TakenAll(level, x, v.Now(), 2, b);
  }

  lemma TakenAll(level: nat, x: State, y: State, ino: nat, b: nat)
    requires level > 0 && Allocated(level, x, y, ino, DIRECT, b) && SlotOf(level, ino, DIRECT) !in y.tree
    ensures y.free == 0
  {
  }

  /** On a volume of 1 KiB blocks, whose first data block is 1, the block handed out is one in use. */
  method UsedBlock() returns (a: Allocator, ghost before: Disk, b: nat)
    ensures a.Bitmaps(before) && b != 0 && a.UsedOnDisk(before, 1, b)
  {
    var v, inode := Format(0x100, 0x2000, 0x100, 0);
    a := v.a;
    before := a.disk;
    b := a.AllocBlockOnDisk(1);
  }

  /** What the first block behind the direct ones needs in an empty file: itself and a table. */
  lemma TwoNeeded(level: nat, ino: nat)
    requires level > 0
    ensures NeedRange(level, map[], ino, DIRECT, DIRECT) == {}
    ensures |NeedRange(level, map[], ino, DIRECT, DIRECT + 1)| == 2
  {
    var p := PathOf(level, DIRECT);
    assert p == [12, 0] && p[..1] == [12] && p[..2] == p;
    assert Chain(level, ino, DIRECT) == {Slot(ino, [12]), Slot(ino, [12, 0])};
    assert ChainRange(level, ino, DIRECT, DIRECT) == {};
    assert NeedRange(level, map[], ino, DIRECT, DIRECT + 1) == {Slot(ino, [12]), Slot(ino, [12, 0])};
  }

  lemma OneByteRange(level: nat)
    requires level > 0
    ensures var off := Times(4 * level, DIRECT);
            FirstBlock(4 * level, off) == DIRECT && EndBlock(4 * level, off, 1) == DIRECT + 1 && Quot(off, 4 * level) == DIRECT
  {
    QuotRemAt(4 * level, DIRECT, 0);
    QuotRemAt(4 * level, DIRECT, 1);
  }

  /** So a write of one byte there is lost without a word when one block is free. */
  lemma OneByteLost(level: nat, x: State, ino: nat)
    requires level > 0 && x.tree == map[] && x.free == 1
    ensures LosesSilently(level, x, ino, Times(4 * level, DIRECT), 1)
    ensures !Lands(level, x, ino, DIRECT, DIRECT)
  {
    hide NeedRange, PathOf;
    TwoNeeded(level, ino);
    OneByteRange(level);
    assert SilentAt(level, x, ino, DIRECT, DIRECT + 1, DIRECT) && Short(level, x, ino, DIRECT, DIRECT);
  }

  /** One byte is written behind the direct blocks with one free block, and read again: the write reports one byte,
      the read answers a zero. */
  method SilentLoss(level: nat, perGroup: nat, x: byte) returns (written: int, read: int, out: seq<byte>)
    requires 0 < level <= 0x4000 && 3 <= perGroup <= 32 * level && perGroup < 0x1_0000
    ensures written == 1 && read == 1 && out == [0]
  {
    hide Silent, Lands, NeedRange, Content, FileByte, FileBlock, PartlySpliced, EndBlock, FirstBlock, Quot, PathOf;
    var v, inode := Format(level, perGroup, perGroup - 1, 0);
    var off := Times(4 * level, DIRECT);
    TimesIs(4 * level, DIRECT);
    OneByteRange(level);
    OneByteLost(level, v.Now(), 2);
    ghost var before, roots := v.Now(), RootsOf(v.table);
    ghost var stored;
    written, stored := WriteFile(v, inode, 2, off, [x]);
    TwoNeeded(level, 2);
    LostWriteStaysInRange(level, before, v.Now(), roots, 2, off, [x], off);
    HoleByte(level, before, 2, off);
    var counts;
    read, out, counts := ReadFile(v, inode, 2, off, 1);
    LastByte(level, v.Now(), 2, off);
  }

  lemma HoleByte(level: nat, x: State, ino: nat, pos: nat)
    requires level > 0 && x.tree == map[]
    ensures FileByte(level, x, ino, pos) == 0
  {
  }

  lemma LastByte(level: nat, x: State, ino: nat, off: nat)
    requires level > 0
    ensures Clipped(Content(level, x, ino, off + 1), off, 1) == [FileByte(level, x, ino, off)]
  {
  }

  // ----- a directory on a full disk

  lemma {:induction false} SizesWithin(s: seq<byte>)
    requires Tiled(s)
    ensures forall i :: 0 <= i < |Parse(s)| ==> Parse(s)[i].size <= |s|
    decreases |s|
  {
    if s != [] { SizesWithin(s[SizeAt(s)..]); }
  }

  /** A new directory takes the last free block; a name for which its block has no room then cannot be entered, and after
      that the scan for a name that is not there never ends. */
  method FailedCreate(level: nat, perGroup: nat, name: seq<byte>, absent: seq<byte>)
    returns (made: int, rc: int, ghost x: State, ghost m: nat)
    requires 0x100 <= level < 0x4000 && 3 <= perGroup <= 32 * level && perGroup < 0x1_0000
    requires |name| + 2 * HEADER >= 4 * level && absent != DOT && absent != DOT_DOT
    ensures made == 0 && rc == -ENOSPC
    ensures forall r: nat {:trigger Rounds(level, x, 2, Times(4 * level, 2), absent, At(0, 0), r)} ::
              m <= r ==> Rounds(level, x, 2, Times(4 * level, 2), absent, At(0, 0), r) == At(1, 0)
  {
    hide DirMap, DirChain, DirOk, Rounds, Blocks, FileBlock, PathOf, Need, BlockEntries, TiledBlock, Times, Linked, Covered,
      Unaliased, Accounted, Counted, SameFilesBut, Joined, Stored, DoubleEnd, Roomy, NeedsBlock;
    RoomForTwo(level);
    var v, inode := Format(level, perGroup, perGroup - 1, 4 * level);
    made := FillDirectory(v, inode, 2, 2, 2);
    NoRoom(level, v.Now(), RootsOf(v.table), 2, name);
    var past;
    ghost var n';
    rc, past, n' := CreateDentry(v, inode, 2, name, 11, 1, 1);
    x := v.Now();
    m := ScanNeverEnds(level, x, 2, 1, absent);
  }

  lemma RoomForTwo(level: nat)
    ensures 1 < DoubleEnd(level)
  {
  }

  /** The name does not fit behind the last record of the first block, and a second block is needed. */
  lemma NoRoom(level: nat, x: State, roots: Roots, ino: nat, name: seq<byte>)
    requires level > 0 && DirChain(level, x, ino, 1) && Roomy(level, x, ino, 1) && Shaped(level, x.disk, roots, x.tree)
    requires |name| + 2 * HEADER >= 4 * level
    ensures NeedsBlock(level, x, ino, 1, name)
    ensures |Need(level, x.tree, ino, 1)| > 0
  {
    hide FileBlock, PathOf, Need, Parse, Tiled;
    assert TiledBlock(level, x, ino, 0);
    BlockLength(level, x.disk, roots, x.tree, ino, 0);
    SizesWithin(FileBlock(level, x.tree, x.disk, ino, 0));
    NothingBeyond(level, x, ino, 1);
    NeedMissing(level, x.tree, ino, 1);
  }
}
