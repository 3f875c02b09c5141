# A verified model of the Kairax kernel core

The Kairax kernel is written in C. This project models its file system, memory, scheduling, path, stream,
time and checksum code in Dafny and proves what that code promises, for all inputs and all runs. Where the
code does not keep a promise, the model does what the code does, and the exact condition under which the
promise holds is proved instead.

- **ext2 storage** (`BlockTree`, `Ext2Alloc`, `Ext2Files`, `Ext2Free`, `Ext2Io`, `Ext2Data`, `DirRecords`,
  `Ext2Dir`, `Ext2Accounts`, `Ext2Triple`, `Ext2Runs`). The disk is a map from block numbers to bytes. One invariant ties
  bitmaps, counters, pointer trees and the inode table together; every operation keeps it. On top of it a file is a byte
  sequence and a directory is a map from names to inode numbers. L is the number of pointers in a block.
- **Kernel heap** (`KernelHeap`). A chain of headers in memory refines a list of blocks that tile the heap.
- **Semaphore** (`Semaphores`). Atomic steps of any number of threads, and the linked list in memory that
  carries them out.
- **Scheduler** (`Scheduler`, `RoundRobin`). Thread objects with one pair of links, the queues of one CPU, and
  the picker.
- **Paths** (`VfsPaths`, `VfsCache`). Resolution and printing over what the file systems contain, and the
  dentry cache that refines it.
- **Byte streams** (`Pipe`, `LocalSocket`, `Procfs`). Each agrees with one flat byte sequence.
- **Time and checksums** (`Calendar`, `Timers`, `Checksums`).

`Arith` and `Bytes` hold the arithmetic and the byte layouts the others share.

What the code does not keep, each with its exact condition in the model:

- `ext2_alloc_inode_block` ignores that a table could not be allocated, so a full disk loses the block
  (`Ext2Files.Volume.AllocInodeBlock`).
- `write_inode_filedata` then reports bytes as written that are lost (`Ext2Data.WriteFile`).
- `read_inode_filedata` answers a negative number for every offset past the size, and asks for copies of negative
  length when the offset lies in the block of the end (`Ext2Data.ReadFile`, `Ext2Data.ReadCountsSane`).
- `ext2_create_dentry` stores a name of 256 bytes or more cut to its length modulo 256, which may be a name that is
  already there (`Ext2Dir.CreateDentry`, `DirRecords.LongNameCollides`).
- `ext2_create_dentry` on a full disk grows the directory over a block that is not there, and scans for absent names
  then never end (`Ext2Dir.CreateDentry`, `Ext2Dir.ScanNeverEnds`).
- `ext2_create_dentry` reports success without entering anything if the last record has no room to spare
  (`Ext2Dir.CreateDentry`).
- `ext2_free_block` counts a block that is free already once more (`Ext2Alloc.Allocator.FreeBlock`).
- `ext2_alloc_block` counts blocks from 0 where the format counts them from the first data block, so on volumes with
  blocks of 1 KiB it hands out blocks in use (`Ext2Alloc.Allocator.AllocBlockOnDisk`).
- A name that is created while an unlinked dentry still holds it is not found (`VfsCache.Cache.EnteredFound`).
- `ext2_inode_add_block` writes a changed triple-indirect table over the double-indirect one
  (`Ext2Triple.AddTriple`).
- `kmalloc` hands out the last block although it is in use when the heap has to grow (`KernelHeap.Heap.Kmalloc`).
- `scheduler_add_thread` links a thread twice if it is the only one waiting in a blocker
  (`Scheduler.Cpu.AddThread`).
- `semaphore_acquire` returns without a permit after a signal (`Semaphores.SignalWake`).
- `timespec_sub` loses a nanosecond per borrow, so timers can be a tick early (`Timers.SubExact`,
  `Timers.OnTime`).
- `tm_to_epoch` counts 2100 as a leap year (`Calendar.RoundTrip`).
- `procfs_read_string` computes a wrong length past the end of the string (`Procfs.CopiedIsClip`).
- A local socket with only empty messages queued polls as readable (`LocalSocket.Stream.Poll`).

## Model

| member | source | states |
|---|---|---|
| `Bytes.StoreWord` | kernel/fs/ext2/ext2.c:198-205 | writing one 32-bit word of a table block changes that word and no other |
| `Bytes.WordBytes` | kernel/fs/ext2/ext2.c:198-205 | the four bytes of a word of a table block, lowest first |
| `Bytes.BitByValue` | kernel/fs/ext2/ext2.c:668-701 | bit 8q+k of a bitmap is the bit of value 1, 2, 4 up to 128 of byte q |
| `Bytes.ClearCountSet` | kernel/fs/ext2/ext2.c:691-701 | setting a clear bit lowers the number of clear bits of a bitmap by one |
| `Bytes.ClearCountClear` | kernel/fs/ext2/ext2.c:745-773 | clearing a set bit raises that number by one |
| `BlockTree.PathOfValid` | kernel/fs/ext2/ext2.c:91-161 | a block index has a path of pointers exactly when it is below 12+L+L²+L³, and the path is one that ends in data |
| `BlockTree.PathOfInjective` | kernel/fs/ext2/ext2.c:91-161 | different block indices of a file have different paths |
| `BlockTree.SingleLayout` | kernel/fs/ext2/ext2.c:96-111 | index i below 12 is pointer i of the inode, index 12+i is word i of the table at pointer 12 |
| `BlockTree.DoubleLayout` | kernel/fs/ext2/ext2.c:117-118 | index 12+L+(cL+d) is word d below word c of the table at pointer 13 |
| `BlockTree.TripleLayout` | kernel/fs/ext2/ext2.c:136-138 | index 12+L+L²+(eL²+fL+g) is word g below word f below word e of the table at pointer 14 |
| `BlockTree.SingleByNumbers` | kernel/fs/ext2/ext2.c:96-111 | the block of such an index is what the pointers on the disk lead to, 0 at the first pointer that is 0 |
| `BlockTree.DoubleByNumbers` | kernel/fs/ext2/ext2.c:113-131 | the same through the two tables of the double-indirect range |
| `BlockTree.TripleByNumbers` | kernel/fs/ext2/ext2.c:133-156 | the same through the three tables of the triple-indirect range |
| `BlockTree.AttachWellFormed` | kernel/fs/ext2/ext2.c:163-263 | storing a fresh block at a free slot, zeroed if it is a table, keeps every pointer tree of the volume well formed and without shared blocks |
| `BlockTree.DetachWellFormed` | kernel/fs/ext2/ext2.c:713-743 | dropping a slot that has no children left keeps it so |
| `BlockTree.AccountedTake` | kernel/fs/ext2/ext2.c:650-711 | a block taken from the bitmap is held by no file |
| `Ext2Alloc.Allocator.FirstClear` | kernel/fs/ext2/ext2.c:668-678 | the first clear bit of a bitmap that has one |
| `Ext2Alloc.Allocator.FindFree` | kernel/fs/ext2/ext2.c:650-689 | the lowest free block of the volume, 0 exactly when the free count is zero |
| `Ext2Alloc.Allocator.InUseByNumbers` | kernel/fs/ext2/ext2.c:681 | block gP+i is bit i of the bitmap of group g, for P blocks a group |
| `Ext2Alloc.Allocator.AllocBlock` | kernel/fs/ext2/ext2.c:650-711 | hands out the lowest free block, zeroed, marks exactly it, lowers the group and superblock counters by one; both counters stay exact |
| `Ext2Alloc.Allocator.OnDisk` | kernel/fs/ext2/ext2.c:681 | the lowest clear bit, numbered as the code does, is a free block of the volume exactly if its first data block is 0; else it is in use, and another block is marked |
| `Ext2Alloc.Allocator.AllocBlockOnDisk` | kernel/fs/ext2/ext2.c:650-711 | the same for every call that allocates: what is handed out was free exactly if the first data block is 0 |
| `Ext2Alloc.Allocator.FreeBlock` | kernel/fs/ext2/ext2.c:745-773 | clears exactly one bit; both counters stay exact and only data blocks can be handed out later if and only if the block was taken and is a data block, for the code does not look |
| `Ext2Alloc.Allocator.FlipCounters` | kernel/fs/ext2/ext2.c:650-773 | group counters equal the clear bits of their bitmaps and the total equals their sum after any single change |
| `Ext2Files.Volume.WriteMetadata` | kernel/fs/ext2/ext2.c:1103-1137 | the inode table holds the record of the inode in memory, other records are untouched |
| `Ext2Files.Volume.Lookup` | kernel/fs/ext2/ext2.c:91-161 | answers the block stored at the slot of any index, 0 if there is none, in every well-formed volume |
| `Ext2Files.Volume.AddSingle` | kernel/fs/ext2/ext2.c:177-208 | the single-indirect range: succeeds exactly when the missing tables fit into the free blocks, and then takes exactly those |
| `Ext2Files.Volume.AddDouble` | kernel/fs/ext2/ext2.c:210-263 | the same for the double-indirect range, where up to two tables are missing |
| `Ext2Files.Volume.AddBlock` | kernel/fs/ext2/ext2.c:163-263 | for every index below 12+L+L²: 1 exactly when the missing tables fit, trees stay well formed, num_blocks pays for every block taken |
| `Ext2Files.AttachedLookup` | kernel/fs/ext2/ext2.c:91-263 | after that, the index answers the new block and every other index of every file its old answer; all other file contents are as before |
| `Ext2Files.AttachedAfterGrew` | kernel/fs/ext2/ext2.c:163-263 | building the tables one by one and attaching at the end amounts to one attachment |
| `Ext2Files.Volume.AllocInodeBlock` | kernel/fs/ext2/ext2.c:775-797 | -ENOSPC exactly when nothing is free; otherwise success is reported, but the block is part of the file exactly when fewer tables are missing than blocks were free, and is lost otherwise |
| `Ext2Files.CountedAllocated` | kernel/fs/ext2/ext2.c:163-263 | num_blocks stays the number of blocks of the inode, tables included, plus those lost that way |
| `Ext2Files.CountedBytes` | kernel/fs/ext2/ext2.c:787-788 | 512 times num_blocks is what the blocks of the inode take up in bytes, tables and lost blocks included, for blocks of a multiple of 512 bytes |
| `Ext2Files.SplitIndex` | kernel/fs/ext2/ext2.c:91-161 | the branches of the lookup compute the path of the index |
| `Ext2Files.Volume.AddDirect` | kernel/fs/ext2/ext2.c:170-175 | the direct range always succeeds and takes no block |
| `Ext2Files.Volume.EnsureRoot` | kernel/fs/ext2/ext2.c:180-196 | afterwards the inode points to a table exactly if one was there or a block was free |
| `Ext2Files.Volume.EnsureEntry` | kernel/fs/ext2/ext2.c:236-252 | the same for a table below a table; file contents stay as they are |
| `Ext2Files.Volume.TakeAndAdd` | kernel/fs/ext2/ext2.c:778-785 | a fresh block, part of no file before, is added to the file or lost |
| `Ext2Files.Volume.Settle` | kernel/fs/ext2/ext2.c:787-791 | num_blocks is charged for the data block and the inode is stored |
| `Ext2Free.Release` | kernel/fs/ext2/ext2.c:713-773 | frees the block of one slot and leaves every other block of every file alone |
| `Ext2Free.FreeBlockTree` | kernel/fs/ext2/ext2.c:713-743 | frees exactly the blocks under a pointer, each once, at any depth |
| `Ext2Free.FreeChild` | kernel/fs/ext2/ext2.c:725-738 | one round of its loop frees everything under one word of the table |
| `Ext2Free.ReleaseBlocks` | kernel/fs/ext2/ext2.c:1318-1334 | frees exactly the blocks of the inode |
| `Ext2Free.Truncate` | kernel/fs/ext2/ext2.c:1308-1349 | afterwards a block is taken exactly if it was and did not belong to the inode; the free count rises by the number of its blocks; the file reads as zeros, others are unchanged; the length argument plays no part |
| `Ext2Free.FreeRoot` | kernel/fs/ext2/ext2.c:1319-1334 | one pointer of the inode is cleared and everything under it freed |
| `Ext2Triple.AddTriple` | kernel/fs/ext2/ext2.c:265-340 | for every index from 12+L+L² on: -1 and nothing done past the first L of them; else 1 exactly when there are blocks for the missing tables, which num_blocks then pays for, and the block is found again exactly if the first pointer of the first table was there before; if not, the lookup answers 0 and the double-indirect table holds the words of the triple-indirect one |
| `Ext2Triple.DoubleTableLost` | kernel/fs/ext2/ext2.c:265-340 | the concrete case: tables of two words, and both double-indirect pointers are gone |
| `Ext2Io.ReadBlock` | kernel/fs/ext2/ext2.c:349-362 | the block of a file, zeros for a hole |
| `Ext2Io.WriteBlock` | kernel/fs/ext2/ext2.c:364-378 | stored exactly when the blocks still needed, tables included, are free; all other blocks of all files are unchanged |
| `Ext2Io.GrewSlotsKept` | kernel/fs/ext2/ext2.c:163-263 | the tables that a write builds store no other block of the file |
| `Ext2Data.WriteSeveral` | kernel/fs/ext2/ext2.c:957-1069 | head, whole blocks and tail of a write that spans blocks splice the buffer into the blocks |
| `Ext2Data.WriteFile` | kernel/fs/ext2/ext2.c:957-1069 | for every offset and length below the limits: all bytes are stored exactly when the free blocks cover what the range needs; the size is the maximum of the old size and the end of the write; the count is reported exactly when the bytes are stored or only blocks with missing tables were lost, -ENOSPC otherwise |
| `Ext2Data.FullBlock` | kernel/fs/ext2/ext2.c:1019-1047 | what goes into the first and the inner blocks of a write is the old block with the bytes of the buffer patched in |
| `Ext2Data.WriteTail` | kernel/fs/ext2/ext2.c:1049-1062 | the same for the last block, with what is reported for the whole range |
| `Ext2Data.ReportStep` | kernel/fs/ext2/ext2.c:364-378 | a block is stored exactly if everything up to it fits, or it was there and the write has not been given up; it reports failure exactly if no block is free for its data |
| `Ext2Data.WriteSplices` | kernel/fs/ext2/ext2.c:957-1069 | a stored write turns the content as a byte sequence into the spliced one, holes and growth reading as zero |
| `Ext2Data.SplicedByte` | kernel/fs/ext2/ext2.c:957-1069 | byte by byte: the buffer inside the range, the old byte outside, in every file |
| `Ext2Data.LostWriteStaysInRange` | kernel/fs/ext2/ext2.c:957-1069 | after a write that runs out of space exactly the bytes of the blocks that were stored are new, and which blocks these are is decided by the free blocks, the holes and the order of writing; all other bytes are old |
| `Ext2Data.ReadFile` | kernel/fs/ext2/ext2.c:903-936 | for every offset and count: byte i is the byte of the file at offset+i, as many as asked for and as there are; the result is their number exactly if the offset is not past the size, else negative; no copy has a negative length exactly under the condition of ReadCountsSane |
| `Ext2Data.ByteByNumbers` | kernel/fs/ext2/ext2.c:903-936 | byte r of block k of the file lies at position kB+r, for blocks of B bytes; a hole reads as zero |
| `Ext2Data.CopyPart` | kernel/fs/ext2/ext2.c:920-929 | one round of the read loop appends the bytes of the content that follow |
| `Ext2Data.NegativeResult` | kernel/fs/ext2/ext2.c:903-936 | the concrete case: reading at 5000 in a file of 100 bytes answers -4900, whatever is asked for |
| `Ext2Data.ReadCountsSane` | kernel/fs/ext2/ext2.c:903-936 | the byte counts the read loop copies are never negative exactly when the offset is not past the size, or lies past the block of the size |
| `Ext2Data.GrowSize` | kernel/fs/ext2/ext2.c:962-980 | the size becomes the maximum and is stored; contents and blocks do not change |
| `Ext2Data.WriteSingle` | kernel/fs/ext2/ext2.c:993-1014 | a write inside one block changes exactly the bytes of the range |
| `Ext2Data.NegativeCount` | kernel/fs/ext2/ext2.c:903-936 | the concrete case: reading at 200 in a file of 100 bytes |
| `DirRecords.RecordParse` | kernel/fs/ext2/ext2.c:799-901 | a record written with given fields is read back with these fields, its name cut to the length modulo 256 |
| `DirRecords.RecordByNumbers` | kernel/fs/ext2/ext2.h:84-90 | the fields of a record by their places in its bytes |
| `DirRecords.RecordPlaces` | kernel/fs/ext2/ext2.c:2074-2103 | record i begins behind the sizes of those before it, and the last one ends with the block |
| `DirRecords.FirstAnswers` | kernel/fs/ext2/ext2.c:2041-2109 | the first live record of a name is the one that answers, with its inode number and type |
| `DirRecords.ShrinkParse` | kernel/fs/ext2/ext2.c:799-901 | cutting the last record and appending one gives the old records, the last one shorter, and the new one |
| `DirRecords.ZeroInoParse` | kernel/fs/ext2/ext2.c:1960-2023 | zeroing an inode number changes that record and keeps the chain |
| `DirRecords.NamesRemove` | kernel/fs/ext2/ext2.c:1960-2023 | marking the one record of a name as free removes that name from the map |
| `DirRecords.NamesDrop` | kernel/fs/ext2/ext2.c:1960-2023 | marking the first record of a name as free lets the next record of that name answer, or removes the name if there is none |
| `DirRecords.NamesAppend` | kernel/fs/ext2/ext2.c:799-901 | a record added behind all others adds its name exactly if it was absent; unique names stay unique exactly then |
| `DirRecords.NamesExtend` | kernel/fs/ext2/ext2.c:867-894 | the same for a record in a block of its own |
| `DirRecords.BlockForParse` | kernel/fs/ext2/ext2.c:867-894 | a new block holds one record with the stored name, whatever the length of the name, also when the name is longer than the block |
| `DirRecords.NamesShort` | kernel/fs/ext2/ext2.c:2041-2109 | no name read from records has more than 255 bytes |
| `DirRecords.LongNameCollides` | kernel/fs/ext2/ext2.c:887-891 | a name followed by 256 more bytes is not the name, but its record is stored under the name: two records of one name |
| `DirRecords.FooCollides` | kernel/fs/ext2/ext2.c:887-891 | the concrete case: "foo", and "foo" followed by 256 letters |
| `Ext2Dir.FindDentry` | kernel/fs/ext2/ext2.c:2041-2109 | answers the map from names to inodes, for every name and every chain of records, the first record of a name where there are several |
| `Ext2Dir.RemoveDentry` | kernel/fs/ext2/ext2.c:1960-2023 | the first live record of the name loses its inode number and nothing else changes, -ENOENT exactly if there is none; the name is gone if names are unique, else the next record of it answers |
| `Ext2Dir.FindLast` | kernel/fs/ext2/ext2.c:824-863 | stops at the last record of the directory exactly if that is not just as long as it has to be, else behind it |
| `Ext2Dir.CreateDentry` | kernel/fs/ext2/ext2.c:799-901 | for names of every length, present or not, and every chain of records: if the last record has no room nothing is entered and 0 is answered; else the name cut to its length modulo 256 is added, which an older record of it hides; the name is found afterwards exactly if it was there, or there was room and it has fewer than 256 bytes; unique names stay unique exactly if the cut name was absent or nothing is entered; one more block is used exactly if the record does not fit; bytes run past the block buffer exactly without room or if the record is longer than a block; -ENOSPC exactly if the block cannot be had, and then the directory ends in a block of zeros; the records afterwards are stated exactly |
| `Ext2Dir.FitsByNumbers` | kernel/fs/ext2/ext2.c:815-817 | two records, each 8 bytes and its name rounded up to a multiple of 4, and one byte more |
| `Ext2Dir.FoundAgain` | kernel/fs/ext2/ext2.c:799-901 | after a record has been added its name is found exactly if it has fewer than 256 bytes |
| `Ext2Dir.ScanNeverEnds` | kernel/fs/ext2/ext2.c:2074-2103 | after a create that failed the scan for an absent name stands at the zeros from some round on, before the end of the directory, for good |
| `Ext2Dir.NewDirectory` | kernel/fs/ext2/ext2.c:1626-1648 | the block that mkdir writes is a proper directory with the two dot names |
| `Ext2Dir.FillDirectory` | kernel/fs/ext2/ext2.c:1618-1648 | mkdir allocates the first block and writes it: the new directory maps "." and ".." and nothing else, other files are unchanged; -ENOSPC exactly if nothing is free |
| `Ext2Dir.Search` | kernel/fs/ext2/ext2.c:2041-2109 | the record scan stops at the first live record of the name, or passes all records |
| `Ext2Dir.AppendHere` | kernel/fs/ext2/ext2.c:879-894 | cuts the last record and puts the new one behind it; no block is allocated; the names stay unique exactly if they were and the stored name was absent |
| `Ext2Dir.AddDirBlock` | kernel/fs/ext2/ext2.c:867-878 | the directory gets one more block, or none if the disk is full |
| `Ext2Dir.AppendBeyond` | kernel/fs/ext2/ext2.c:867-894 | the new record fills the block that was added; -ENOSPC exactly if the block and its tables do not fit into the free blocks |
| `Ext2Dir.AppendNowhere` | kernel/fs/ext2/ext2.c:887-896 | without room in the last record the new one lies behind the block buffer and the block is written back unchanged: 0 is answered and nothing entered |
| `Ext2Dir.FullLastRecord` | kernel/fs/ext2/ext2.c:846-860 | the concrete case: a block of two records, the last one without room |
| `Ext2Accounts.Conservation` | kernel/fs/ext2/ext2.c:650-797 | free blocks, blocks of files and reserved blocks add up to the volume in every reachable state |
| `Ext2Accounts.FreeCountExact` | kernel/fs/ext2/ext2.c:650-773 | the superblock count is the number of blocks not taken |
| `Ext2Accounts.FormattedValid` | kernel/fs/ext2/ext2.c:392-479 | a volume without file data satisfies the invariant if its allocator does |
| `Ext2Runs.Format` | kernel/fs/ext2/ext2.c:392-479 | for every block size, group size and number of taken blocks there is a valid volume of one group with an empty file |
| `Ext2Runs.UsedBlock` | kernel/fs/ext2/ext2.c:650-711 | a run: 1 KiB blocks and first data block 1; the block handed out is in use |
| `Ext2Runs.LostBlock` | kernel/fs/ext2/ext2.c:775-797 | a run: one free block, the first index behind the direct ones; the allocation answers 0, the block is no part of the file |
| `Ext2Runs.SilentLoss` | kernel/fs/ext2/ext2.c:957-1069 | a run: one free block, one byte written there; the write answers 1, the read that follows answers a zero byte |
| `Ext2Runs.FailedCreate` | kernel/fs/ext2/ext2.c:799-901 | a run: mkdir takes the last free block, the next name that needs a block gets -ENOSPC, and the scan for an absent name never ends |
| `KernelHeap.AlignLeast` | kernel/kairax/stdlib.c:6-16 | the least positive multiple of the alignment that is not below the value, for every alignment |
| `KernelHeap.Heap.Expand` | kernel/mem/kheap.c:17-49 | grows by whole pages; when the pages run out on the way the end has moved and 0 is returned |
| `KernelHeap.Heap.Init` | kernel/mem/kheap.c:51-72 | one free block of the whole size |
| `KernelHeap.Heap.GetSuitable` | kernel/mem/kheap.c:74-98 | the first block that fits, else the last block made longer, 0 exactly if nothing fits and the heap cannot grow |
| `KernelHeap.Heap.Kmalloc` | kernel/mem/kheap.c:100-149 | the blocks afterwards, exactly; the free block at the lowest address that is long enough; whichever block it is, at most 40 bytes more than asked for; all other blocks in use stay as they are; the address is already handed out exactly when nothing fits and the last block is in use |
| `KernelHeap.AllocateTight` | kernel/mem/kheap.c:113-144 | the block handed out has at most 40 bytes more than asked for; the rest is a free block behind it |
| `KernelHeap.Heap.CombineForward` | kernel/mem/kheap.c:151-178 | joins a free block with a free successor, header included, and repairs both links and the tail |
| `KernelHeap.Heap.Kfree` | kernel/mem/kheap.c:180-204 | the block becomes free and is joined with both neighbours, all other blocks in use stay as they are; an address whose header says free, also one merged away, changes nothing |
| `KernelHeap.Heap.FreeTwice` | kernel/mem/kheap.c:180-204 | freeing an address twice in a row, wherever its block was merged to, is freeing it once |
| `KernelHeap.Heap.FreeUsed` | kernel/mem/kheap.c:192-200 | marking the block and the two joins of the code amount to freeing the block and joining it with its free neighbours |
| `KernelHeap.FreedKeeps` | kernel/mem/kheap.c:151-204 | freeing keeps "no two free neighbours" and the ownership of all other blocks |
| `KernelHeap.AllocateKeeps` | kernel/mem/kheap.c:100-149 | splitting keeps the tiling and "no two free neighbours" |
| `KernelHeap.SplitInMemory` | kernel/mem/kheap.c:113-138 | the header writes of a split leave a chain whose links and sizes are those of the split list |
| `KernelHeap.MergeInMemory` | kernel/mem/kheap.c:151-178 | the same for the writes of a merge |
| `KernelHeap.TailInUse` | kernel/mem/kheap.c:100-149 | when the last block becomes one in use: it is handed out with at most 8 bytes to spare |
| `KernelHeap.LivePayloads` | kernel/mem/kheap.c:100-204 | live payloads lie in the heap, are as long as asked for and do not overlap |
| `KernelHeap.AllFreeWhole` | kernel/mem/kheap.c:151-204 | freeing everything leaves one free block of the whole size |
| `KernelHeap.Heap.Search` | kernel/mem/kheap.c:74-84 | the first free block that is long enough, 0 exactly if there is none |
| `KernelHeap.Heap.HandOut` | kernel/mem/kheap.c:113-144 | the block is marked as used and split when more than 8 bytes would be left beside a header |
| `KernelHeap.TailHandedOutTwice` | kernel/mem/kheap.c:86-95 | the concrete run: a new heap, one block that takes all of it, and 8 bytes more: both calls answer the same address |
| `Semaphores.StepInv` | kernel/sync/semaphore.c:38-105 | every atomic step of any thread keeps: counter = holders + waiters, and holders + wake-ups owed = min(counter, max) |
| `Semaphores.SemaphoreCorrect` | kernel/sync/semaphore.c:38-105 | after any interleaving: at most max holders, nobody waits while a permit is free and no wake-up is owed, every wake-up owed has a waiter; told from the steps alone: the list holds those who entered it, in order, less as many as were taken off, and the holders are those who came while a permit was free and those whose turn it was to be woken, until they release |
| `Semaphores.RunTold` | kernel/sync/semaphore.c:38-105 | counter, list, who is to be woken by whom and who holds are exactly what the sequence of steps tells |
| `Semaphores.SignalWake` | kernel/sync/semaphore.c:73-75 | waking a sleeper by a signal makes one holder too many exactly when no wake-up is owed |
| `Semaphores.Semaphore.AcquireCounter` | kernel/sync/semaphore.c:42 | the counter update is the model step, and decides who sleeps |
| `Semaphores.Semaphore.AcquireEnqueue` | kernel/sync/semaphore.c:49-72 | the list update through first, last and sem_next is the model step, also with a stale last pointer |
| `Semaphores.Semaphore.ReleaseCounter` | kernel/sync/semaphore.c:86 | the counter update is the model step, and decides who must wake somebody |
| `Semaphores.Semaphore.ReleaseDequeue` | kernel/sync/semaphore.c:88-100 | takes the oldest waiter, nothing exactly if the list is empty |
| `Semaphores.Semaphore.ReleaseWake` | kernel/sync/semaphore.c:103 | the thread taken off the list becomes a holder; the one that wakes it is none |
| `Semaphores.Semaphore.HandOver` | kernel/sync/semaphore.c:83-105 | a release while others wait gives the permit to the one who waits longest |
| `Semaphores.Semaphore.constructor` | kernel/sync/semaphore.c:32-36 | a new semaphore is in the initial state of the model |
| `Semaphores.SignalBreaks` | kernel/sync/semaphore.c:73-75 | the concrete run: two threads, one permit, two holders after a signal |
| `Scheduler.Queue.Add` | kernel/proc/thread_scheduler.c:14-36 | appends a thread without links; refuses exactly those with one; a thread alone in the queue, added again, ends up linked to itself |
| `Scheduler.Queue.Remove` | kernel/proc/thread_scheduler.c:38-65 | takes a thread out from any position and repairs head, tail and both neighbours |
| `Scheduler.Cpu.WqAdd` | kernel/proc/thread_scheduler.c:149-159 | joins the run queue; the lists stay separate exactly unless the thread is alone in another queue |
| `Scheduler.Cpu.WqRemove` | kernel/proc/thread_scheduler.c:161-176 | leaves the run queue; size stays its length |
| `Scheduler.Cpu.AddThread` | kernel/proc/thread_scheduler.c:178-186 | keeps the invariant exactly if the thread is not the only one waiting in a blocker |
| `Scheduler.Cpu.RemoveThread` | kernel/proc/thread_scheduler.c:188-196 | removes the thread from the run queue if it is in it |
| `Scheduler.Cpu.SleepOn` | kernel/proc/thread_scheduler.c:67-107 | the running thread moves from the run queue to the end of the blocker queue |
| `Scheduler.Cpu.Sleep` | kernel/proc/thread_scheduler.c:224-240 | the running thread leaves the run queue for no other |
| `Scheduler.Cpu.Wake` | kernel/proc/thread_scheduler.c:77-147 | moves exactly the first min(max, length) waiters, in order, to the end of the run queue; nothing else moves |
| `Scheduler.Cpu.Wakeup` | kernel/proc/thread_scheduler.c:250-279 | a sleeping thread leaves its blocker queue, if any, and joins the run queue once |
| `Scheduler.Cpu.OneQueue` | kernel/proc/thread_scheduler.c:14-279 | in every state: at most one queue per thread, in_queue exactly for the run queue, blocker names the queue, size is the length |
| `Scheduler.Cpu.NextRealtime` | kernel/proc/thread_scheduler.c:286-321 | the first runnable realtime thread from position 1 of the queue on, around it, the head last; none exactly if there is none |
| `Scheduler.Cpu.NextRunnable` | kernel/proc/thread_scheduler.c:323-371 | realtime first, else the first runnable thread after the running one, around the queue; idle exactly if none is runnable |
| `Scheduler.Cpu.Switch` | kernel/arch/x86_64/proc/thread_scheduler.c:152-178 | the running thread is runnable again and the next ready thread after it runs, itself last |
| `Scheduler.Cpu.Round` | kernel/proc/thread_scheduler.c:323-371 | as many switches as there are ready threads let each of them run exactly once |
| `Scheduler.Cpu.constructor` | kernel/proc/thread_scheduler.c:6-9 | with all queues empty and all threads unlinked the invariant holds |
| `Scheduler.Cpu.ScanAfter` | kernel/proc/thread_scheduler.c:346-371 | the scan stops at the first runnable thread after the given one, or comes around |
| `Scheduler.SoleWaiterTwice` | kernel/proc/thread_scheduler.c:149-186 | the concrete run: one thread sleeps on a blocker and is then added |
| `Scheduler.Cpu.ScanStartExists` | kernel/proc/thread_scheduler.c:338-349 | the running thread has a place to scan from in every state |
| `RoundRobin.EachOnce` | kernel/proc/thread_scheduler.c:323-371 | over a fixed queue, as many picks as there are runnable threads pick each of them exactly once |
| `RoundRobin.TurnTaken` | kernel/proc/thread_scheduler.c:323-371 | after a pick the picked thread is last in turn and the order of the others is unchanged |
| `RoundRobin.FirstTurnIs` | kernel/proc/thread_scheduler.c:346-371 | the turn is with the first seat that counts, counted on from the start around the circle |
| `VfsPaths.SlashAt` | kernel/fs/vfs/dentry.c:279-282 | the position of the first separator, or the length |
| `VfsPaths.Deeper` | kernel/fs/vfs/dentry.c:197-248 | one name resolved at any greater nesting depth gives the same node or error, or ELOOP |
| `VfsPaths.CircleIsLoop` | kernel/fs/vfs/dentry.c:197-248 | following a link of a circle of links, of any length and through any directories and other links, is refused with ELOOP at every nesting depth, unless the link itself is asked for |
| `VfsPaths.CircularPathFails` | kernel/fs/vfs/vfs.c:269-291 | a path that comes to a place of such a circle anywhere on its way is refused with ELOOP, or with ENAMETOOLONG exactly if it is too long |
| `VfsPaths.DotCircle` | kernel/fs/vfs/dentry.c:197-248 | a link l with the text ./l is a circle |
| `VfsPaths.OwnPathCircle` | kernel/fs/vfs/dentry.c:197-248 | a link whose text is its own absolute path is a circle, at any depth in the tree |
| `VfsPaths.SizeIsLength` | kernel/fs/vfs/dentry.c:355-372 | the required size is the length of the printed path |
| `VfsPaths.PrintedClean` | kernel/fs/vfs/dentry.c:355-372 | the printed path begins with a separator, has none side by side and none at the end |
| `VfsPaths.WalkPrinted` | kernel/fs/vfs/dentry.c:274-345 | walking the printed path of a directory leads to it |
| `VfsPaths.RoundTrip` | kernel/fs/vfs/vfs.c:269-314 | resolving a printed path gives the node back from any starting point; ENAMETOOLONG exactly if it is longer than PATH_MAX allows |
| `VfsPaths.WalkParts` | kernel/fs/vfs/dentry.c:274-345 | resolving a/b is resolving a with links followed and then b from the directory it leads to, for any a |
| `VfsPaths.LinkToPath` | kernel/fs/vfs/dentry.c:228-246 | a link that holds the path of a node leads to that node, at every depth below the limit; of the text the first 511 characters count |
| `VfsPaths.LinkToRelative` | kernel/fs/vfs/dentry.c:238 | a link that holds a relative path leads where that path leads behind the path of its own directory |
| `VfsPaths.ChainLeads` | kernel/fs/vfs/dentry.c:206-246 | a chain of links leads to its end exactly if the links and the depth together are at most 9, else ELOOP |
| `VfsPaths.NotFollowed` | kernel/fs/vfs/dentry.c:215-226 | a link at the end of a path that is not to be followed: the link itself if it is asked for, else ELOOP |
| `VfsPaths.UpAgain` | kernel/fs/vfs/dentry.c:165-173 | two dots lead to the directory above, from the root to the root |
| `VfsPaths.HereAgain` | kernel/fs/vfs/dentry.c:160-163 | one dot leads to the directory itself |
| `VfsPaths.ErrorsAtEnd` | kernel/fs/vfs/dentry.c:274-345 | a name that is not there, a name that is too long and a path behind a file, each with its error |
| `VfsCache.Dentry.ChildWithName` | kernel/fs/vfs/dentry.c:150-195 | the child of a name, the parent for "..", itself for "." |
| `VfsCache.Cache.GetDentry` | kernel/fs/vfs/superblock.c:74-124 | answers as the file system does, whatever is cached, unless an unlinked dentry still holds the name |
| `VfsCache.Cache.Next` | kernel/fs/vfs/dentry.c:197-248 | one name, links followed, is resolved as in the file systems |
| `VfsCache.Cache.TraversePath` | kernel/fs/vfs/dentry.c:250-353 | the loop over the names of a path resolves it as in the file systems, or fails with the same error |
| `VfsCache.Cache.From` | kernel/fs/vfs/vfs.c:269-291 | the same for absolute, relative and empty paths, with or without a directory to start from; terminates for every path and every graph of links, nesting at most 9 deep |
| `VfsCache.Cache.Invalidate` | kernel/proc/syscalls/syscalls_files.c:601-605 | after unlink has marked a dentry its name leads nowhere, whatever the file system holds |
| `VfsCache.Cache.Unlink` | kernel/proc/syscalls/syscalls_files.c:601-605 | marking the dentry and then removing the name keeps cache and file systems in agreement exactly if no other dentry hangs there |
| `VfsCache.Cache.Drop` | kernel/proc/syscalls/syscalls_files.c:601-605 | a name that a file system removes keeps them in agreement exactly if every dentry there has been marked before |
| `VfsCache.Cache.Enter` | kernel/fs/vfs/file.c:136-138 | a name that a file system enters keeps them in agreement exactly if no dentry says something else about it |
| `VfsCache.Cache.EnteredFound` | kernel/fs/vfs/superblock.c:74-124 | a name that is there is found exactly if no unlinked dentry still holds it |
| `VfsCache.Cache.Close` | kernel/fs/vfs/dentry.c:33-51 | the last close of an unlinked dentry lets its name be looked up again; the cache stays sound exactly if nothing hangs below it |
| `VfsCache.Cache.CachedResident` | kernel/fs/vfs/superblock.c:74-124 | a cached dentry with ordinary names above it is where the file system has it |
| `VfsCache.Cache.PathLeadsBack` | kernel/fs/vfs/vfs.c:293-314 | printing the path of a cached dentry and resolving it leads to that very dentry |
| `Pipe.Pipe.Contents` | kernel/ipc/pipe.c:93-183 | bytes read so far and bytes in the ring are the bytes written, in order |
| `Pipe.Pipe.Get` | kernel/ipc/pipe.c:125-131 | takes the oldest byte |
| `Pipe.Pipe.Put` | kernel/ipc/pipe.c:172-173 | adds a byte and overwrites none that is unread |
| `Pipe.Pipe.Read` | kernel/ipc/pipe.c:93-142 | returns the oldest bytes, up to the count; sleeps exactly when the ring is empty, a writer may come and waiting is allowed |
| `Pipe.Pipe.Write` | kernel/ipc/pipe.c:144-183 | writes in order until done or the ring is full, and goes on from there; EPIPE exactly if nobody reads when the call starts |
| `Pipe.Pipe.Poll` | kernel/ipc/pipe.c:185-207 | at the reading end: readable exactly if there are bytes, hang-up exactly without writers; at the writing end: writable exactly if there is room, error exactly without readers |
| `LocalSocket.Stream.Send` | kernel/ipc/local_socket.c:527-561 | 0, and the message is appended to what is to be received; -ENOTCONN exactly if not connected |
| `LocalSocket.Stream.Take` | kernel/ipc/local_socket.c:632-661 | receives exactly the first bytes across bucket boundaries, ends also with empty messages queued, and keeps: sent = received + unread, rx_available = number unread |
| `LocalSocket.Stream.Receive` | kernel/ipc/local_socket.c:588-664 | the outcomes: not connected, would block, sleeps, or the bytes |
| `LocalSocket.Stream.Poll` | kernel/ipc/local_socket.c:563-586 | readable exactly if bytes are unread, unless only empty messages are queued; writable exactly if connected, hang-up exactly if the peer is gone |
| `LocalSocket.TakeFirst` | kernel/ipc/local_socket.c:640-658 | taking bytes of the first bucket, and the bucket when it is used up, removes exactly these bytes from the unread ones |
| `LocalSocket.Stream.TakePiece` | kernel/ipc/local_socket.c:636-659 | one round takes bytes or a bucket, so the loop ends |
| `LocalSocket.Stream.Woken` | kernel/ipc/local_socket.c:606-663 | after sleeping: the bytes, end of stream exactly if the peer is gone and nothing is queued, else EINTR |
| `LocalSocket.EmptyMessage` | kernel/ipc/local_socket.c:563-586 | the concrete run: one empty message on a new socket |
| `Procfs.Skip` | kernel/fs/procfs/procfs_fops.c:145-162 | passes over exactly the bytes before the offset, whatever the line lengths |
| `Procfs.Read` | kernel/fs/procfs/procfs_fops.c:276-322 | the clipped slice of the concatenated lines, for every offset and count |
| `Procfs.ConcatParts` | kernel/fs/procfs/procfs_fops.c:276-322 | the text is that of the lines in order |
| `Procfs.ReadAllIsClip` | kernel/fs/procfs/procfs_fops.c:116-187 | any series of reads, each where the one before ended, gives one clipped slice |
| `Procfs.StopsAtEnd` | kernel/fs/procfs/procfs_fops.c:338-385 | a reader that stops at the first empty answer has the whole text |
| `Procfs.CopiedIsClip` | kernel/fs/procfs/procfs_fops.c:13-18 | a single string is clipped correctly exactly if the offset is not past its end, or nothing is asked for |
| `Procfs.CopiesPastEnd` | kernel/fs/procfs/procfs_fops.c:13-18 | the concrete case: one byte past the end of an empty string |
| `Calendar.FindYear` | kernel/kairax/time.c:135-143 | the year of a day number and the day in it |
| `Calendar.FindMonth` | kernel/kairax/time.c:145-158 | month and day of a day of the year, leap years included |
| `Calendar.TableIsCalendar` | kernel/kairax/time.c:5-21 | every month has its length and the start of every month is the sum of the lengths before it |
| `Calendar.DaysBeforeIs` | kernel/kairax/time.c:25-28 | the first day of every year in closed form: leap years are every fourth, not every hundredth, but every four-hundredth |
| `Calendar.EpochToTm` | kernel/kairax/time.c:125-161 | the true Gregorian date, with month lengths stated apart from the table, time of day, weekday and day of the year for every time from 1970 on; a negative time counts as itself plus 2 to the 64 |
| `Calendar.TmToEpoch` | kernel/kairax/time.c:79-123 | on proper fields: the true time plus one day for every year divisible by four that was no leap year |
| `Calendar.RoundTrip` | kernel/kairax/time.c:79-161 | there and back is the identity exactly before 4133980800, the start of 2101; there it is one day late |
| `Calendar.ExactUntil2101` | kernel/kairax/time.c:79-123 | no such year has passed exactly before that time |
| `Calendar.DateUnique` | kernel/kairax/time.c:125-161 | a time has one proper date |
| `Calendar.CarryDays` | kernel/kairax/time.c:92-106 | ends for every day number and month, whatever lies behind the month table, and leaves a date alone exactly if it is within the table |
| `Calendar.Normalise` | kernel/kairax/time.c:85-106 | leaves proper fields alone |
| `Timers.Add` | kernel/kairax/time.c:30-41 | the exact sum, normalised |
| `Timers.Sub` | kernel/kairax/time.c:43-72 | stops at zero; one nanosecond less than the difference when a second is borrowed |
| `Timers.SubExact` | kernel/kairax/time.c:43-72 | exact if and only if nothing is borrowed or it stops at zero |
| `Timers.AlarmsAt` | kernel/proc/timer.c:43-75 | the time left is zero for the first time at tick ceil((V - s) / 4 ms), for a timer of V ns and s whole seconds |
| `Timers.OnTime` | kernel/proc/timer.c:43-75 | that tick is never late, and it is the tick of the full length exactly if the lost nanoseconds do not reach back over a tick |
| `Timers.EventTimer.CountDown` | kernel/proc/timer.c:43-73 | goes off exactly once, at that tick; the time left stays normalised |
| `Timers.Clock.Handle` | kernel/proc/timer.c:33-77 | after k ticks the counter is exactly k times 4 ms; every timer is counted down once per tick unless the list is locked |
| `Timers.Clock.CountAll` | kernel/proc/timer.c:43-75 | every timer is counted down once; those that go off are exactly those that reach zero now |
| `Timers.EarlyTimer` | kernel/proc/timer.c:43-75 | the concrete case: a second and a nanosecond goes off one tick early |
| `Timers.Clock.Register` | kernel/proc/timer.c:116-121 | a timer joins the list once |
| `Checksums.Ipv4Checksum` | kernel/net/ipv4/ipv4.c:28-48 | folding after every word computes the ones-complement sum; the packet is as before |
| `Checksums.Ipv4Passes` | kernel/net/ipv4/ipv4.c:133 | a header with the checksum in bytes 10 and 11 sums up to the all-ones value |
| `Checksums.IcmpChecksum` | kernel/net/ipv4/icmp.c:71-88 | two folds at the end compute it for packets up to 65536 bytes |
| `Checksums.UdpChecksum` | kernel/net/ipv4/udp.c:442-481 | folding until there is no carry computes it, pseudo header included |
| `Checksums.UdpByBytes` | kernel/net/ipv4/udp.c:449-475 | what is summed are the bytes of pseudo header, header and payload as RFC 768 lays them out |
| `Checksums.PseudoHeaderBytes` | kernel/net/ipv4/udp.c:451-458 | the pseudo header: source, destination, zero, 17, length with the higher byte first |
| `Checksums.UdpIsRfc768` | kernel/net/ipv4/udp.c:442-481 | in network order the checksum is the complement of the ones-complement sum of these bytes |
| `Checksums.SameChecksum` | kernel/net/ipv4/icmp.c:71-88 | network order and machine order give the same checksum up to byte order |
| `Checksums.SumsByBytes` | kernel/net/ipv4/icmp.c:77-81 | both sums byte by byte: which bytes count 256 times |
| `Checksums.FoldedIs` | kernel/net/ipv4/ipv4.c:38-43 | the folded value is the sum modulo 65535, 0 only for a sum of 0 |
| `Checksums.Rfc1071Example` | kernel/net/ipv4/ipv4.c:38-43 | the example of section 3 of RFC 1071 |
| `Checksums.UdpAccepts` | kernel/net/ipv4/udp.c:55-61 | the receiver accepts exactly if the field is 0 or the sum is the all-ones value |
| `Checksums.SentPasses` | kernel/net/ipv4/udp.c:305-313 | what the sender fills in is accepted |
| `Checksums.OnlySentPasses` | kernel/net/ipv4/udp.c:55-61 | a field that is not 0 is accepted only if it is the one the sender computes, or the other zero |
| `Checksums.FilledInPasses` | kernel/net/ipv4/icmp.c:21-48 | a message whose checksum word was filled in has checksum zero |
| `Checksums.AddWords` | kernel/net/ipv4/icmp.c:77-81 | the exact sum of the words as long as it fits 32 bits |
| `Checksums.FoldAll` | kernel/net/ipv4/udp.c:477-479 | ends with the ones-complement value |

## Left out

- ext2 block indices from 12+L+L² on: apart from the branch in `Ext2Triple` and from freeing, where all three levels are covered, because the code writes the first table to the wrong place and covers only L further indices.
- ext2 files of 4 GiB and more: the high half of the size is or-ed in without a shift.
- ext2 I/O errors: reads and writes of the disk succeed in the model, and a cached block is not told from one on disk.
- ext2 inode allocation, hard-link counts, rename, symlinks and time stamps: they add no new structure to the block and name maps.
- Ext2Files.Volume.AddBlock: only for indices below 12+L+L², for the reason given above; the branch beyond is `Ext2Triple.AddTriple`.
- Ext2Files.Volume.AllocInodeBlock: the same bound; the slot is empty, as its callers have found it.
- Ext2Files.Volume.TakeAndAdd: the same bound.
- Ext2Io.WriteBlock: the same bound.
- Ext2Files.Volume.WriteMetadata: the inode table is a map from inode numbers to records, without the arithmetic that finds the block and the offset of a record.
- Ext2Accounts.FormattedValid: reading a superblock from a disk is not modelled; `Ext2Runs.Format` makes the state that mounting an empty volume gives.
- Ext2Dir.FillDirectory: the entry that mkdir makes in the parent directory in between is `Ext2Dir.CreateDentry`.
- Ext2Data.WriteFile: only for ranges below 4 GiB and below block 12+L+L², for the reasons given above.
- Ext2Data.ReadFile: what a copy of negative length does to memory is not modelled; exactly when one is asked for is.
- Ext2Data.CopyPart: the same.
- Ext2Dir.CreateDentry: what lies behind the block buffer is not modelled, only how many bytes of a long name go there; a directory that ends in zeros after a failed create is not opened again, because the scans do not end.
- ext2 directories with blocks below 1 KiB or of 64 KiB and more: the format has no smaller ones, and the 16-bit size field cannot hold the larger ones.
- Ext2Alloc.Allocator.FreeBlock: numbers outside every group are not modelled, because the code would read a descriptor that is not there.
- Ext2Alloc.Allocator.AllocBlock: counts blocks as the code does; that and all other ext2 results speak of volumes whose first data block is 0, that is, of blocks of 2 KiB and more, except for `Ext2Alloc.Allocator.AllocBlockOnDisk`.
- Ext2Files.Volume.Lookup: from blocks of 8 KiB on the code computes the size of the triple-indirect range in 32 bits and gets 0, so that it answers 0 for every index there; the model does not cut it.
- KernelHeap.Heap.Kfree: an address that never headed a block, and one whose header has since been overwritten by the contents of another block, are not modelled, because the code would read a header that is not there.
- KernelHeap.Heap.Expand: page tables and physical pages are a number of pages that can still be had.
- Semaphores.StepInv: a thread that releases a semaphore it does not hold is not modelled; sleeping and waking themselves are in `Scheduler`.
- Semaphores.SignalWake: the list entry that the woken thread leaves behind is not followed further.
- Semaphores.Semaphore.ReleaseWake: the move of the thread to the run queue is `Scheduler.Cpu.Wakeup`, not part of this step.
- Scheduler.Cpu.Wakeup: the timer that a sleeping thread may hold is not modelled.
- Scheduler: context switches, load balancing between CPUs, timers and wake reasons of threads; `scheduler_prepare_sleep` for threads that must stay in the run queue.
- Scheduler.Cpu.NextRunnable: a running thread that is linked in a blocker queue with others behind it is not modelled; going to sleep puts it last.
- VfsCache: counting references, mounting, renaming and the inode list of a superblock; an inode number stands for superblock and number together, and a link whose text cannot be read is not modelled.
- Pipe: the signal for a broken pipe, and the order in which sleepers go on.
- LocalSocket: datagram sockets, connecting and closing.
- LocalSocket.Stream.Poll: listening sockets are not modelled, because they hold no bytes.
- Procfs.Read: lines longer than the line buffer are not modelled, because the formatting code is not part of this model.
- Calendar.TmToEpoch: says nothing about the value for fields out of range, because only the carries of days are normalised.
- Calendar.Normalise: the same.
- Calendar.EpochToTm: the year of a negative time does not fit the 32-bit field, which the model does not cut.
- Calendar and Timers: integers are unbounded; the fields of the source are 32 and 64 bits wide.
- Timers.Sub: spans with negative or more than 999999999 nanoseconds are not modelled, because no caller makes them.
- Checksums.UdpChecksum: payloads above 65535 bytes are not covered, because the 32-bit sum may then wrap; the same holds for ICMP above 65536 bytes.
- TCP, ARP, routing, device drivers, the terminal, tmpfs, memory regions of processes and physical page bitmaps.
