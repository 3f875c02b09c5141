/** The triple-indirect branch of adding a block. It covers only as many indices as one table has words, and it
    writes a changed first-level table back over the double-indirect one, so it works only where nothing has to
    be written back. */
module Ext2Triple {

  type Disk = map<nat, seq<nat>>

  const DOUBLE := 13
  const TRIPLE := 14
  const ROOTS := 15

  /** The pointer that a table holds, zero where there is no table. */
  function Word(disk: Disk, table: nat, i: nat): nat {
    if table != 0 && table in disk && i < |disk[table]| then disk[table][i] else 0
  }

  /** What `ext2_inode_block_absolute` answers for word `c` of the first table of the triple-indirect range. */
  function Answer(disk: Disk, blocks: seq<nat>, c: nat): nat
    requires |blocks| == ROOTS
  {
    Word(disk, Word(disk, Word(disk, blocks[TRIPLE], 0), 0), c)
  }

  /** The tables on the way are tables of the disk, all different, and so are the blocks that the allocator will
      hand out, zeroed, until it has none left. */
  ghost predicate Orderly(level: nat, disk: Disk, blocks: seq<nat>, supply: seq<nat>)
    requires |blocks| == ROOTS
  {
    var top := blocks[TRIPLE];
    var mid := Word(disk, top, 0);
    var leaf := Word(disk, mid, 0);
    var double := blocks[DOUBLE];
    && |supply| == 3 && 0 in disk
    && (forall b :: b in disk ==> |disk[b]| == level)
    && (forall b :: b in {top, mid, leaf, double} ==> b in disk)
    && (top != 0 ==> top != mid && top != leaf && top != double)
    && (mid != 0 ==> mid != leaf && mid != double)
    && (leaf != 0 ==> leaf != double)
    && (forall i :: 0 <= i < 3 && supply[i] != 0 ==>
          supply[i] in disk && supply[i] !in {top, mid, leaf, double} && disk[supply[i]] == seq(level, _ => 0))
    && (forall i, j :: 0 <= i < j < 3 && supply[i] == supply[j] ==> supply[i] == 0)
  }

  /** The end of `ext2_inode_add_block`, for index 12+L+L²+c. Within the first table the block is found again exactly
      if that table had its first pointer already; if not, the double-indirect table has taken over the pointers
      of the triple-indirect one. Beyond the first table nothing is done at all, although the caller has
      taken the block. The `k`-th block that is asked for is `supply[k]`, 0 when there is none; `charged` is the
      number of tables by which `num_blocks` has risen. */
  method AddTriple(level: nat, disk0: Disk, blocks0: seq<nat>, c: nat, b: nat, supply: seq<nat>)
    returns (rc: int, disk: Disk, blocks: seq<nat>, charged: nat)
    requires |blocks0| == ROOTS && level > 0 && b != 0 && Orderly(level, disk0, blocks0, supply)
    ensures |blocks| == ROOTS && blocks[DOUBLE] == blocks0[DOUBLE]
    ensures rc == -1 <==> c >= level
    ensures c >= level ==> disk == disk0 && blocks == blocks0 && charged == 0
    ensures rc == 1 ==> charged == Missing(disk0, blocks0)
    ensures rc == -2 ==> charged < Missing(disk0, blocks0)
    ensures c < level ==> (rc == 1 <==> Sufficient(disk0, blocks0, supply)) && (rc == -2 <==> !Sufficient(disk0, blocks0, supply))
    ensures rc == 1 ==> (Answer(disk, blocks, c) == b <==> Word(disk0, blocks0[TRIPLE], 0) != 0)
    ensures rc == 1 && Word(disk0, blocks0[TRIPLE], 0) == 0 ==> Answer(disk, blocks, c) == 0
    ensures rc == 1 && Word(disk0, blocks0[TRIPLE], 0) == 0 && blocks0[DOUBLE] != 0 ==>
              forall j :: 0 <= j < level ==>
                Word(disk, blocks0[DOUBLE], j) == if j == 0 then supply[1] else Word(disk0, blocks0[TRIPLE], j)
  {
    disk, blocks, charged := disk0, blocks0, 0;
    if c >= level {
      return -1, disk, blocks, charged;
    }
    if blocks[TRIPLE] == 0 {
      if supply[0] == 0 {
        return -2, disk, blocks, charged;
      }
      blocks := blocks[TRIPLE := supply[0]];
      charged := charged + 1;
    }
    var buffer := disk[blocks[TRIPLE]];
    if buffer[0] == 0 {
      if supply[1] == 0 {
        return -2, disk, blocks, charged;
      }
      buffer := buffer[0 := supply[1]];
      charged := charged + 1;
      disk := disk[blocks[DOUBLE] := buffer];
    }
    var saved := buffer[0];
    buffer := disk[saved];
    if buffer[0] == 0 {
      if supply[2] == 0 {
        return -2, disk, blocks, charged;
      }
      buffer := buffer[0 := supply[2]];
      charged := charged + 1;
      disk := disk[saved := buffer];
    }
    saved := buffer[0];
    buffer := disk[saved];
    buffer := buffer[c := b];
    disk := disk[saved := buffer];
    rc := 1;
  }

  /** The number of tables missing on the way. */
  function Missing(disk: Disk, blocks: seq<nat>): nat
    requires |blocks| == ROOTS
  {
    var mid := Word(disk, blocks[TRIPLE], 0);
    (if blocks[TRIPLE] == 0 then 1 else 0) + (if mid == 0 then 1 else 0) + (if Word(disk, mid, 0) == 0 then 1 else 0)
  }

  /** There is a block for every table that is missing. */
  predicate Sufficient(disk: Disk, blocks: seq<nat>, supply: seq<nat>)
    requires |blocks| == ROOTS && |supply| == 3
  {
    var mid := Word(disk, blocks[TRIPLE], 0);
    && (blocks[TRIPLE] == 0 ==> supply[0] != 0)
    && (mid == 0 ==> supply[1] != 0)
    && (Word(disk, mid, 0) == 0 ==> supply[2] != 0)
  }

  /** Tables of two words, a double-indirect table with pointers 7 and 3, no triple-indirect one: adding block 4 loses
      both pointers and does not find the block. */
  method DoubleTableLost() returns (rc: int, disk: Disk, blocks: seq<nat>)
    ensures |blocks| == ROOTS && rc == 1 && Answer(disk, blocks, 0) == 0
    ensures blocks[DOUBLE] == 5 && Word(disk, 5, 0) == 8 && Word(disk, 5, 1) == 0
  {
    var z := seq(2, _ => 0);
    var before: Disk := map[0 := z, 5 := [7, 3], 6 := z, 8 := z, 9 := z];
    var roots: seq<nat> := seq(ROOTS, i => if i == DOUBLE then 5 else 0);
    var charged;
    rc, disk, blocks, charged := AddTriple(2, before, roots, 0, 4, [6, 8, 9]);
  }
}
