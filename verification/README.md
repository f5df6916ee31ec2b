# A Dafny model of a small RISC-V kernel

riscv-mini-os is a C kernel with a file system (KTFS), Sv39 paging, threads and processes, and Python tools that
build and take apart file system images. This project models the parts of it that carry the most state and proves
what they keep over whole runs. The model has the form of the source: objects whose fields change are classes, loops
are loops with invariants, and every method is proved against functions and predicates on values, about which the
lemmas speak.

`dafny verify dfyconfig.toml` checks everything.

## Main results

* **KTFS refines a map from names to bytes** (`KtfsRun.Run`). Whatever a client creates, reads, writes and deletes,
  and however the calls end, the directory, the inodes, the index blocks and the block cache together behave like a
  map; no block is ever reachable through two pointers, every reachable block is marked used, and data block 0 stays
  the root directory's. `KtfsRun.ReadBack` is the consequence a client sees.
* **From tool to tool** (`Session.BuildRunExtract`). An image built by mkfs_ktfs, mounted and worked on by the
  kernel, flushed and read by unmkfs_ktfs yields exactly the files that the same requests make of a map. Without a
  kernel in between, extraction inverts building, and building fails exactly when the files do not fit
  (`Unmkfs.RoundTrip`).
* **A write, wherever it goes** (`KtfsIo.WriteAt`). At every position other files stay what they were and the data
  reads back; the image stays sound exactly when no block between the old end and the position was missing.
* **The block cache is invisible** (`CacheRuns.Replay`). Every run over the cache, with any number of references held
  at a time, is a run over a flat store; up to 128 distinct blocks are each read from the device once.
* **Address spaces do not share user pages** (`VmFree.Isolated`, `VmFree.StoreShows`, `VmClone.CloneActive`,
  `VmFree.CloneMeaning`, `VmFree.Discard`). Mapping, unmapping and page faults change the translation of the pages
  they are asked for and of no other page in any space; a clone means the same, shares kernel entries only and can be
  made exactly when as many pages are free as the space owns; discarding it gives back exactly its pages.
  Translation follows section 4.4 of the RISC-V Privileged Architecture, version 20211203.
* **Threads** (`ThreadsRun.RunInv`, `ThreadsLocks.OwnedWhileInside`, `ThreadsFamily.JoinReturns`,
  `ThreadsFamily.ParentIsNearest`, `ThreadsQueues.LongestReadyRuns`, `ThreadsOrder.OrderOfArrival`). The scheduler is
  a state machine with interrupts between the steps the code does not protect. Over every interleaving a thread is on
  one list at most, a waiting joiner has a live child, and no owner-less lock has waiters. A thread owns a lock exactly
  while it has come back from more acquires than it has made releases. A join ends only with a child reclaimed or none
  to wait for, and an orphan goes to the nearest of its spawners still there. Every list is in the order of arrival
  and the longest ready runs next. In every continuation of a release it is known when the longest waiter gets the
  lock. The loops of the code are proved to do the steps of that machine, the broadcast also on the linked lists.
* **Reference counts** (`IoCalls.Run`, `IoCalls.ClosedMeaning`). Over every run of open, close, pipe, dup, fork and
  exit each count equals the slots and kernel variables that refer to the object, the close operation runs exactly
  when the last reference goes, and every call has the result and the effect on the tables that is stated.
* **Pipes and terminals** (`Pipe.Run`, `Term.IoTerm.Read`, `Term.IoTerm.Write`). A pipe is a bounded
  queue over every run, through any wrap of the 16-bit indices, and nobody waits for what is there. The in-place scans
  of the terminal are proved equal to two character machines, which do not care how the stream is cut, and these
  write every line end of a text as CR LF or as LF and keep the rest (`Term.MachinesMean`).
* **The format on disk** (module OnDisk). Every structure lies in the image byte for byte where kernel/ktfs.h puts it.

## Where the code falls short of a rule

For each of these it is stated exactly when the rule holds, as a condition a caller could check.

* A file that is still empty has an all-zero inode, so the next create gives its inode away again
  (`KtfsDirOps.EmptyFileReused`); create keeps the directory sound exactly when no entry names the inode it found
  (`KtfsDirOps.AppendKeepsDir`, `Created` in the contract of `KtfsDirOps.Create`).
* A write that skips a block leaves a pointer to data block 0, which is the root directory's. `KtfsIo.WriteAt` keeps
  the image sound exactly when every block between the old end and the position is there; one byte at position 512 or
  1536 of an empty file breaks it (`KtfsLimits.GapWrite`). Raising the size breaks it under the same condition
  (`KtfsLimits.SetEndGrow`).
* A directory that ends on a block boundary of the direct area grows by 528 bytes instead of 16, and is then not
  well-formed; at every other length it grows by one entry (`KtfsDirOps.DirGrowth`, `KtfsDirOps.AppendDent`).
* Delete does not return double-indirect blocks (`KtfsDelete.FreedIsExact`).
* DESIGN.md:168-169 promises locks in order of arrival. After a release the lock goes to the longest waiter exactly
  when no thread that was not waiting asks before one of the waiters has run (`ThreadsOrder.OrderOfArrival`); both
  cases occur (`ThreadsOrder.BothHappen`).
* DESIGN.md:166 says that the running thread is never on the run queue. It is there exactly when its wait was ended
  before it has switched (`ThreadsOrder.RunningListed`), and that occurs (`ThreadsOrder.RunningListedHappens`).
* A clone that runs out of memory loses the pages it had taken. This happens exactly when fewer pages are free than
  the space owns, and then the pages lost are all that were free (`VmClone.CloneActive`).
* A fork that cannot make its thread loses the root page of the clone and nothing else (`VmFree.CloneAndReset`).

NTHR is 32 here, as kernel/conf.h defines it; kernel/thread.c has 16 only as a fallback.

## Modules

| files | what |
|---|---|
| Base, Format | bytes, little-endian words, bitmaps, inodes in blocks |
| Cache | block device, block cache, runs over the cache |
| KtfsTree, KtfsSteps | pointer trees, ownership, how an edit extends an image |
| KtfsKernel, KtfsFiles, KtfsIo | allocation, resolution, files as bytes, read and write |
| KtfsDir, KtfsDirOps, KtfsDelete | directory as a map, lookup, create, delete |
| KtfsRun, KtfsLimits, Session, OnDisk | whole runs, limits, tool to tool, the format byte by byte |
| Layout, MkfsTree, MkfsState, MkfsRoot, Mkfs, MkfsBuild, Unmkfs | the two tools |
| Pages, Sv39, Sv39Edit, Sv39Ops, Sv39Copy, Sv39Size | page allocator, translation, edits, copies and sizes of trees |
| Vm, VmUnmap, VmClone, VmFree, VmFault | the memory operations |
| Threads, ThreadsInv, ThreadsKin, ThreadsRun | threads, conditions and locks as a state machine, its invariant |
| ThreadsLocks, ThreadsFamily, ThreadsQueues, ThreadsOrder, ThreadsKernel | lock depth, parents and joins, order of the lists, who gets a lock, the loops |
| IoRefs, IoCalls, Pipe, Term | reference counts, pipes, terminal |

## Model

| member | source | states |
|---|---|---|
| BlockCache.Cache.FindEntry | kernel/cache.c:59-66 | the index of the first valid entry for the block, or 128 when there is none |
| BlockCache.Cache.PickVictim | kernel/cache.c:72-82 | the first free slot, else the first unreferenced clean entry, else the first unreferenced dirty one; none exactly when all 128 entries are valid and referenced |
| BlockCache.WritebackInv | kernel/cache.c:85-93 | writing an entry home keeps the cache invariant with the same logical store |
| BlockCache.CleanLookup | kernel/cache.c:85-93 | no lookup sees a difference when an entry is written home |
| BlockCache.Cache.Writeback | kernel/cache.c:85-93 | the logical store never changes; on failure no entry changes, on success only the dirty flag does |
| BlockCache.UpdateInv | kernel/cache.c:131-145 | changing data, flags or count of one entry changes the logical store at that block only |
| BlockCache.LoadInv | kernel/cache.c:119-128 | loading an uncached block into a written-back, unreferenced entry keeps the logical store |
| BlockCache.Cache.GetBlock | kernel/cache.c:95-129 | -EINVAL exactly off a block boundary, -ENOMEM exactly when the block is not cached and every entry is referenced, -EIO only from the device; otherwise hit or miss pins the block; the logical store is unchanged, no referenced entry is evicted or re-homed, and a hit always succeeds |
| BlockCache.Cache.Miss | kernel/cache.c:109-128 | the miss path: victim, write-back, read, re-home, with each failure leaving the logical store alone |
| BlockCache.Cache.Peek | kernel/cache.c:103-106 | what a holder of a reference sees is the block of the logical store, the latest written contents |
| BlockCache.Cache.Poke | kernel/cache.c:103-106 | a write through a reference changes the logical store at that block only |
| BlockCache.Cache.ReleaseBlock | kernel/cache.c:131-145 | one reference fewer and dirty when the caller says so, nothing when the block is not cached; no other entry and not the logical store changes |
| BlockCache.Cache.Flush | kernel/cache.c:147-156 | after a successful flush with nothing written and unreleased, the device equals the logical store; of the entries only dirty flags change |
| BlockCache.AllPinnedHeld | kernel/cache.c:109-111 | when no victim is left, at least 128 references are held |
| BlockCache.CachedCount | kernel/cache.c:59-66 | with no free slot the cache holds 128 distinct blocks |
| CacheRuns.RoomForMiss | kernel/cache.c:72-75 | while fewer than 128 distinct blocks are in play a miss finds a free slot, so nothing is evicted |
| CacheRuns.Step | kernel/cache.c:59-156 | one of get, look, change, put and flush, with any number of references held: what it does to a flat store and to the references, and when it succeeds; after a flush the device has every block that is not still being changed |
| CacheRuns.Replay | kernel/cache.c:59-156 | every run of get, look, change, put and flush over the cache, any number of references held at a time, does and answers what the same run over a flat store does, and a flush puts it on the device; a run over at most 128 distinct blocks of a healthy device gets every block it asks for, evicts nothing and reads each block from the device exactly once |
| Format.BitOfSet | kernel/ktfs.c:315 | setting or clearing bit n of a bitmap block changes bit n and no other |
| Format.InodeOfPut | kernel/ktfs.c:353-368 | storing an inode in its slot of an inode block reads back, and no other slot changes |
| Format.FewestBlocks | kernel/ktfs.c:377 | a file spans the fewest blocks that hold it |
| OnDisk.SuperLayout | kernel/ktfs.h:57-62 | the superblock is four little-endian numbers at bytes 0, 4, 8 and 12, the last of two bytes |
| OnDisk.BitmapLayout | kernel/ktfs.c:305-315 | block n is used exactly when bit n % 8 of byte 512 + n / 8 of the image is set, the lowest bit first |
| OnDisk.InodeLayout | kernel/ktfs.h:65-71 | inode i is eight little-endian numbers at byte 32 * i of the inode blocks: size, flags, three direct pointers, indirect, two double-indirect |
| OnDisk.PathsInOrder | kernel/ktfs.c:749-799 | the logical blocks of a file in order: three of the inode, 128 of the indirect block, 128 times 128 of each double-indirect one |
| OnDisk.DirectLayout | kernel/ktfs.c:749-799 | in a sound image a byte of one of the first three blocks lies in the data block that pointer of the inode names |
| OnDisk.IndirectLayout | kernel/ktfs.c:749-799 | the same through the little-endian pointers of the indirect block |
| OnDisk.DoubleLayout | kernel/ktfs.c:749-799 | the same through two levels of index blocks |
| OnDisk.DentLayout | kernel/ktfs.h:74-77 | a directory entry is sixteen bytes: the inode in two, lowest first, then the name up to its terminator |
| KtfsTree.TreeInvMeaning | kernel/ktfs.c:294-350 | the ownership invariant means: no block reachable through two pointers, every reachable block marked used, data block 0 the root's alone |
| KtfsTree.PtrFrame | kernel/ktfs.c:749-799 | a store that agrees on the index blocks has the same pointers |
| KtfsTree.AllocFrame | kernel/ktfs.c:294-334 | taking a free block disturbs no tree, and that block had no owner |
| KtfsTree.PtrOfSetInode | kernel/ktfs.c:387-407 | filling a missing pointer of an inode with a zeroed block adds exactly that pointer |
| KtfsTree.PtrOfSetWord | kernel/ktfs.c:409-510 | filling a zero word of an index block with a zeroed block adds exactly one pointer to the whole image |
| KtfsSteps.ExtendsTrans | kernel/ktfs.c:370-511 | extensions of the image compose: old pointers, owners and data survive any number of steps |
| KtfsSteps.SetInodeExtends | kernel/ktfs.c:387-407 | the inode edit of an allocation extends the image at one place |
| KtfsSteps.SetWordExtends | kernel/ktfs.c:409-510 | the index-block edit of an allocation extends the image at one place |
| KtfsKernel.Ktfs.Mount | kernel/ktfs.c:86-120 | a fresh cache over the device with the layout of block 0; the logical store is the device; a healthy device with a block 0 always mounts |
| KtfsKernel.Ktfs.FindFreeBit | kernel/ktfs.c:305-315 | the first clear bit of a bitmap block at or after a start |
| KtfsKernel.Ktfs.UseScan | kernel/ktfs.c:311-331 | a scanned bitmap block either gives its first free block or is released unchanged with no free block below its end |
| KtfsKernel.Ktfs.AllocDataBlock | kernel/ktfs.c:294-334 | the first free data block, marked used and zeroed; -ENOMEM exactly when every block is used; a failed zeroing loses at most that one block |
| KtfsKernel.Ktfs.FreeDataBlock | kernel/ktfs.c:336-351 | exactly one bit is cleared; -EINVAL only for a block the bitmap does not cover |
| KtfsKernel.Ktfs.ReadInode | kernel/ktfs.c:726-741 | the inode stored in that row of the inode blocks, for any inode number whose block can be read; -EIO otherwise |
| KtfsKernel.Ktfs.WriteInode | kernel/ktfs.c:353-368 | one row of the inode blocks is replaced, for any inode number whose block can be read, or nothing |
| KtfsKernel.TableOfWrite | kernel/ktfs.c:353-368 | writing inode i changes row i of the table and no other |
| KtfsKernel.Ktfs.ResolveBlock | kernel/ktfs.c:749-799 | follows direct, indirect and double-indirect pointers; -EINVAL exactly past the capacity |
| KtfsKernel.ResolveIsPtr | kernel/ktfs.c:749-799 | on every allocated logical block the resolver finds the pointer of the tree |
| KtfsKernel.Ktfs.AllocFor | kernel/ktfs.c:294-334 | an allocation inside a sound tree leaves it sound whatever happens, and the new block is nobody's |
| KtfsKernel.Ktfs.FillSlot | kernel/ktfs.c:425-440 | a fresh block put into a zero word of an index block adds exactly that pointer |
| KtfsKernel.Ktfs.AllocSlot | kernel/ktfs.c:423-432 | a fresh block for a zero word of a pinned index block: the pointer is added, or nothing of the tree changes, and the block is released |
| KtfsKernel.Ktfs.SlotOrAlloc | kernel/ktfs.c:409-510 | the pointer in a word of an index block, or a fresh block put there; without alloc nothing changes |
| KtfsKernel.Ktfs.InodeSlotOrAlloc | kernel/ktfs.c:399-455 | the indirect or a double-indirect pointer of the inode, or a fresh index block put there in the caller's copy of the inode |
| KtfsKernel.Ktfs.DirectOrAlloc | kernel/ktfs.c:377-396 | a direct block counts as allocated by the file's size alone; a new one is zeroed, goes into the caller's inode and raises its size; when a block was skipped it belongs to no tree yet and the image stays sound without it |
| KtfsKernel.Ktfs.IndirectOrAlloc | kernel/ktfs.c:397-510 | the block behind the indirect or a double-indirect pointer, with each missing level allocated; the tree is sound after every failure and -EINVAL with alloc means past the capacity |
| KtfsKernel.Ktfs.ResolveOrAlloc | kernel/ktfs.c:370-511 | for every logical block, the block there, allocating what is missing: the tree stays sound even when an allocation fails midway or direct blocks are skipped, old pointers and data survive, and with alloc 0 it finds the tree's pointer or fails without a change |
| KtfsFiles.PokeKeepsSafe | kernel/ktfs.c:530-542 | one chunk of a write changes the bytes of that chunk of that file and of no other |
| KtfsFiles.AllocKeepsSafe | kernel/ktfs.c:524-529 | allocating for a write keeps every byte of every file |
| KtfsFiles.WriteAborted | kernel/ktfs.c:524-542 | a write that stops leaves the image sound, with the old inode and every other file unchanged |
| KtfsFiles.WriteFinished | kernel/ktfs.c:543-553 | writing the inode back completes the file: written bytes, old bytes elsewhere, the final size |
| KtfsFiles.NewSizeIsFinal | kernel/ktfs.c:543-549 | the final size is max(old, pos+len), or the block boundary above it in the direct area |
| KtfsFiles.WriteBroken | kernel/ktfs.c:377-395 | a write that skips a block which is not there leaves an image that no assignment of owners makes sound |
| KtfsFiles.GapReads | kernel/ktfs.c:522-553 | the bytes of such a write can be read back all the same |
| KtfsIo.ReadChunk | kernel/ktfs.c:184-201 | one block's worth of what the inode's pointers lead to, for any inode and offset; -EINVAL exactly past the capacity |
| KtfsIo.ReadLoop | kernel/ktfs.c:181-203 | the loop puts exactly the bytes found behind the inode's pointers into the buffer and nothing behind them |
| KtfsIo.FoundIsContents | kernel/ktfs.c:749-799 | in a sound image what the pointers lead to is the contents of the file |
| KtfsIo.ReadAt | kernel/ktfs.c:166-204 | for every handle: min(len, size - pos) bytes as the inode's pointers lead to them, nothing written behind len; with a handle no longer than the inode they are contents[pos .. pos+n), and on a healthy device never an error |
| KtfsIo.WriteChunk | kernel/ktfs.c:522-542 | one round of the write loop at any position, with its exact error cases |
| KtfsIo.BrokenWrite | kernel/ktfs.c:377-395 | a completed write over a gap: other files unchanged, the data readable, and no owner map makes the image sound |
| KtfsIo.WriteCompleted | kernel/ktfs.c:522-553 | a completed write leaves the file as the data over the old bytes when there is no gap, and the case above when there is |
| KtfsIo.FinishWrite | kernel/ktfs.c:543-553 | inode and handle size after the loop, then flush; what the completed write has done |
| KtfsIo.WriteAt | kernel/ktfs.c:513-553 | at every position: other files are unchanged and the data reads back; the image is sound afterwards exactly when the blocks between the old end and the position were there (`NoGap`), and then the file is the data over the old bytes and zeros with the size stated; on a healthy device everything is on the device; the error cases exactly, each leaving a sound image |
| KtfsDir.ParseOfBytes | kernel/ktfs.c:616-626 | a packed entry parses to the inode and name it was made from |
| KtfsDir.LookupRemove | kernel/ktfs.c:662-720 | after swap-with-last the removed name is gone and every other lookup is unchanged |
| KtfsDir.LookupAppend | kernel/ktfs.c:614-628 | an appended entry is found by its name and disturbs no other lookup |
| KtfsDir.MapAppend | kernel/ktfs.c:586-632 | with a new name, appending an entry adds one binding to the map from names to inodes |
| KtfsDir.MapRemove | kernel/ktfs.c:662-720 | swap-with-last removes one binding from the map |
| KtfsDirOps.NameMatches | kernel/ktfs.c:832-842 | the comparison of at most fourteen bytes is equality with the name cut there; on a terminated entry it is equality of C strings |
| KtfsDirOps.FindDentry | kernel/ktfs.c:810-848 | the inode of the first entry with that name, -ENOENT exactly when there is none |
| KtfsDirOps.SlotIsZero | kernel/ktfs.c:570-575 | an inode slot of zero bytes is the zero inode |
| KtfsDirOps.FindFreeInode | kernel/ktfs.c:556-584 | the first zero inode other than the root, -ENOMEM exactly when there is none |
| KtfsDirOps.DirGrowth | kernel/ktfs.c:612-628 | the directory grows by sixteen bytes exactly when it does not end on a block boundary of the direct area, by 528 otherwise |
| KtfsDirOps.DentAppended | kernel/ktfs.c:606-631 | off such a boundary the image is sound and the directory's bytes are the old ones and the entry |
| KtfsDirOps.BoundaryBroken | kernel/ktfs.c:612-628 | on such a boundary the rest of the new block counts as entries and the directory is not well-formed |
| KtfsDirOps.DirFits | kernel/ktfs.c:586-632 | a well-formed directory never comes near the capacity of a file, so create does not fail for that |
| KtfsDirOps.AppendDent | kernel/ktfs.c:606-631 | for a directory of any length: one entry longer and sound exactly when it did not end on a block boundary of the direct area, otherwise a block and an entry longer and not well-formed; no other file has changed, and before the root inode is written nothing has |
| KtfsDirOps.AppendKeepsDir | kernel/ktfs.c:586-632 | the directory stays well-formed exactly when no entry names the inode already |
| KtfsDirOps.Create | kernel/ktfs.c:586-632 | one new entry naming the first inode that looks free, for a directory of any length: the image is sound and exactly that entry was added when the directory did not end on a block boundary of the direct area, and when it did the directory is not well-formed; each error case exactly; nothing else changes |
| KtfsDirOps.EmptyFileReused | kernel/ktfs.c:568-575 | the next create gives the inode of a file that is still empty away again, so two creates in a row break the directory |
| KtfsDelete.FreeBlock | kernel/ktfs.c:644-657 | freeing one block of the file clears its bit only |
| KtfsDelete.FreeFile | kernel/ktfs.c:644-657 | only blocks of the file are freed, and on a healthy device every direct and indirect one is |
| KtfsDelete.MoveLast | kernel/ktfs.c:689-715 | the last entry is copied over the removed one and nothing else changes |
| KtfsDelete.RemoveDent | kernel/ktfs.c:662-719 | the directory without that entry, contiguous |
| KtfsDelete.FreedIsExact | kernel/ktfs.c:644-657 | exactly the direct blocks, the indirect block and its leaves are returned; double-indirect blocks stay marked used |
| KtfsDelete.Delete | kernel/ktfs.c:634-720 | the name is unbound, the file's inode is zero, other files and lookups are unchanged, and on a healthy device the freed blocks are exactly the ones stated |
| KtfsRun.Open | kernel/ktfs.c:122-159 | a handle in the first of the 16 slots that is free, on the inode the name leads to, with its size; -ENOENT exactly when the name is not listed, -ENOMEM only when it is and every slot is in use |
| KtfsRun.OpenSlots.FindFree | kernel/ktfs.c:133-139 | the first slot that is not in use |
| KtfsRun.MountedIsClean | kernel/ktfs.c:294-350 | a mounted image has no aliased block and every reachable block is used |
| KtfsRun.WriteShows | kernel/ktfs.c:513-553 | seen as a map from names to bytes, a write changes the entry of its own name only |
| KtfsRun.CreateShows | kernel/ktfs.c:586-632 | seen as a map, create adds an empty file |
| KtfsRun.DeleteShows | kernel/ktfs.c:634-720 | seen as a map, delete removes one name |
| KtfsRun.Step | kernel/ktfs.c:122-720 | one request has on the image the effect it has on the map, with each error result explained by the map or by an image with no inode or block left |
| KtfsRun.Run | kernel/ktfs.c:122-720 | over every run of create, read, write and delete, failures included, no block is reachable through two pointers, every reachable block is marked used and block 0 stays the root's; and the run is a run of the map, a request failing for want of space only when the image had none left |
| KtfsRun.ReadBack | kernel/ktfs.c:166-553 | in every run a read returns the bytes of the last write to that place, whatever happened to other files in between |
| Session.BuiltShows | tools/mkfs_ktfs.py:219-262 | the map the kernel shows of a built image is the files it was built from |
| Session.ExtractShows | tools/unmkfs_ktfs.py:89-121 | what the extraction tool finds in a sound image is the kernel's map, each file once |
| Session.BuildRunExtract | tools/unmkfs_ktfs.py:102-121 | build, mount, any run of requests, flush, extract: what comes out is what the requests make of a map that starts with the input files; it fails exactly when the files do not fit |
| KtfsLimits.GapWrite | kernel/ktfs.c:513-553 | one byte at position 512 or 1536 of an empty file: the write succeeds, the byte reads back, and no assignment of owners makes the image sound |
| KtfsLimits.EmptyGap | kernel/ktfs.c:377-393 | these two positions leave a gap |
| KtfsLimits.SetEndGrow | kernel/ktfs.c:264-266 | raising the size alone, to any size, keeps the image sound exactly when every block the file then has is there |
| KtfsLimits.SetEndUp | kernel/ktfs.c:215-269 | the growing case of IOCTL_SETEND: the size and nothing else changes, with that exact condition; -EINVAL exactly from 2^32 on |
| Layout.PathAtPos | tools/mkfs_ktfs.py:154-198 | a file's blocks lie in one stretch and no two of its pointers lead to the same block |
| Layout.LeafHas | tools/mkfs_ktfs.py:160-170 | below the capacity every logical block has its pointer |
| MkfsTree.LaidPtr | tools/mkfs_ktfs.py:160-206 | the pointers of a placed file, all of them and no others |
| MkfsTree.LaidContents | tools/mkfs_ktfs.py:154-206 | a placed file is whole and reads as its bytes |
| MkfsTree.AddLaid | tools/mkfs_ktfs.py:143-209 | placing a file in fresh blocks keeps the block tree sound |
| MkfsBuild.FewestMetaBlocks | tools/mkfs_ktfs.py:68-79 | the layout covers every block with the fewest bitmap blocks and every inode with the fewest inode blocks |
| MkfsState.BumpMark | tools/mkfs_ktfs.py:105-111 | taking the next block marks it and leaves everything laid before it alone |
| MkfsState.CollectDind | tools/mkfs_ktfs.py:164-170 | each pointer goes to the end of its own inner list |
| Mkfs.CollectOne | tools/mkfs_ktfs.py:160-170 | each pointer goes to its own list; fails exactly past the capacity |
| Mkfs.PackWords | tools/mkfs_ktfs.py:175-177 | an index block holds the pointers and zeros behind them |
| Mkfs.Builder.MarkUsed | tools/mkfs_ktfs.py:95-103 | one bit is set and the range check never fires for a block of the image |
| Mkfs.Builder.AllocBlock | tools/mkfs_ktfs.py:105-111 | the next block, or failure exactly when the image is full |
| Mkfs.Builder.WriteBlock | tools/mkfs_ktfs.py:116-121 | the block starts with the data; more than 512 bytes fail |
| Mkfs.Builder.ReserveRoot | tools/mkfs_ktfs.py:125-139 | succeeds exactly when names are at most 13 long, three blocks suffice and there is room |
| Mkfs.Builder.WriteData | tools/mkfs_ktfs.py:154-170 | data blocks in a row with the pointers sorted into direct, indirect and double-indirect lists; fails exactly past the capacity or the end of the image |
| Mkfs.Builder.WriteIndex | tools/mkfs_ktfs.py:173-179 | an index block with those pointers |
| Mkfs.Builder.WriteDind | tools/mkfs_ktfs.py:186-198 | a double-indirect block followed by its inner blocks in order |
| Mkfs.Builder.WriteDinds | tools/mkfs_ktfs.py:181-198 | both double-indirect slots as the layout says |
| Mkfs.FileLaid | tools/mkfs_ktfs.py:172-206 | the pieces written make up the placed file |
| Mkfs.Builder.AddFile | tools/mkfs_ktfs.py:143-209 | the file is placed at the next block; fails exactly when it is too large or does not fit |
| Mkfs.Builder.WriteRoot | tools/mkfs_ktfs.py:219-245 | the directory blocks hold the entries, packed; fails exactly on a name that is not ASCII or an inode over 16 bits |
| Mkfs.Builder.WriteTable | tools/mkfs_ktfs.py:247-262 | every inode in its row and a superblock that names the layout |
| Mkfs.SuperBlock | tools/mkfs_ktfs.py:254-262 | a packed superblock reads back as the layout |
| MkfsRoot.DentsOfBytes | tools/mkfs_ktfs.py:227-232 | a packed directory reads back as the entries, in order |
| MkfsRoot.PackDents | tools/mkfs_ktfs.py:227-232 | this loop builds exactly that directory |
| MkfsBuild.NewImage | tools/mkfs_ktfs.py:61-91 | an empty image with its metadata blocks marked used, or failure exactly when the layout does not fit |
| MkfsBuild.AddFiles | tools/mkfs_ktfs.py:287-288 | all files placed, or failure exactly when one is too large or they do not fit |
| MkfsBuild.Finalize | tools/mkfs_ktfs.py:219-262 | the finished image holds the files |
| MkfsBuild.BuildFinish | tools/mkfs_ktfs.py:219-262 | directory, table and superblock make the placed files a sound file system |
| MkfsBuild.Build | tools/mkfs_ktfs.py:268-296 | the tool succeeds exactly when everything fits, and the image then is sound and holds every file under its name |
| Unmkfs.OpenImage | tools/unmkfs_ktfs.py:28-41 | succeeds exactly when the superblock's block count matches the image |
| Unmkfs.ReadInode | tools/unmkfs_ktfs.py:43-53 | the inode stored in that row of the inode blocks; fails exactly when the row is not in the image |
| Unmkfs.ResolveBlock | tools/unmkfs_ktfs.py:63-78 | finds the block the kernel's resolver finds, for every logical block; fails exactly past the capacity or off the image |
| Unmkfs.SoundWhole | tools/unmkfs_ktfs.py:80-87 | in a sound image every file can be read without running off the image |
| Unmkfs.ReadFile | tools/unmkfs_ktfs.py:80-87 | the bytes its pointers lead to, failing exactly when one leads off the image or past the capacity; for a file held whole they are the kernel's contents |
| Unmkfs.WholeBytes | tools/unmkfs_ktfs.py:80-87 | a file held whole is read by the tool as the kernel reads it |
| Unmkfs.ListRoot | tools/unmkfs_ktfs.py:89-99 | the entries with a name, in order, for any image; fails exactly when the directory cannot be read |
| Unmkfs.Extract | tools/unmkfs_ktfs.py:102-121 | every listed file, name and bytes, for any image; fails exactly when the superblock does not match, or the directory or a listed file cannot be read; a sound image extracts to the kernel's files |
| Unmkfs.BuiltExtracts | tools/unmkfs_ktfs.py:89-121 | a built image extracts to the files it was built from |
| Unmkfs.RoundTrip | tools/mkfs_ktfs.py:268-296 | building and extracting gives back the same files, names and bytes, in order, and fails exactly when they do not fit |
| Unmkfs.BuiltDir | tools/mkfs_ktfs.py:219-262 | the directory of a built image is well-formed for the kernel and finds every file |
| Unmkfs.MountBuilt | kernel/ktfs.c:86-120 | the kernel mounted on a built image starts with every invariant and with every file's bytes under its name |
| Pages.TakeFrees | kernel/memory.c:497-508 | splitting or unlinking a chunk takes exactly the allocated pages off the list |
| Pages.FindBest | kernel/memory.c:484-495 | the smallest chunk that is large enough, the first of that size |
| Pages.PagePool.AllocPages | kernel/memory.c:477-510 | the head of the best-fitting chunk; none exactly when every chunk is too small; free and live pages still partition the pool |
| Pages.PagePool.AllocPage | kernel/memory.c:469-471 | fails exactly when no page is free |
| Pages.PagePool.FreePages | kernel/memory.c:512-518 | the pages are free again, each once |
| Pages.PagePool.Count | kernel/memory.c:520-525 | exactly the number of free pages, and with the live ones the whole pool |
| Pages.PagePool.constructor | kernel/memory.c:262-269 | one chunk holds the whole pool |
| Sv39.KernelTranslate | kernel/memory.c:296-308 | translation inside the kernel's subtables depends on them alone |
| Sv39.TranslateSame | kernel/memory.c:381-410 | an address space whose pages agree in two memories translates alike |
| Sv39Edit.SpacesOfSet | kernel/memory.c:412-420 | changing one bottom entry or linking one empty table keeps every space sound and unshared |
| Sv39Edit.TranslateOfSet | kernel/memory.c:412-420 | addresses that do not go through the changed entry translate as before, in every space |
| Sv39Ops.LinkTable | kernel/memory.c:387-405 | linking an empty table changes no translation |
| Sv39Ops.SetLeaf | kernel/memory.c:412-420 | setting a bottom entry changes the translation of one page of one space |
| Sv39Ops.LeafGrants | kernel/memory.c:576-581 | an entry made from a caller's flags grants reading, writing, execution and user access exactly as they say; writing alone faults |
| Vm.IdxInjective | kernel/memory.c:104-107 | two well-formed addresses with the same indices lie in the same page |
| Vm.IdxDigits | kernel/memory.c:104-107 | the three indices are the nine-bit digits of the page number, the highest first |
| Vm.WellformedRange | kernel/memory.c:570-574 | well-formed are the lowest and the highest 256 gigabytes |
| Vm.SuperpageAddress | kernel/memory.c:395-406 | a leaf above the bottom level maps its gigabyte or its two megabytes in a row, and faults when it is not aligned |
| Vm.Memory.Descend | kernel/memory.c:387-396 | one level of the walk, with exactly when it finds no table |
| Vm.Memory.Walk | kernel/memory.c:381-410 | the bottom slot of an address; whatever it allocates no translation and no page changes; without alloc nothing does |
| Vm.Memory.MapPage | kernel/memory.c:412-420 | on success exactly one page of the active space gets a new translation, to that page with exactly the permissions asked for; on failure none changes, and it fails only on a bad address, a superpage or exhausted memory |
| Vm.OnePage | kernel/memory.c:412-420 | every well-formed address outside that page translates as before |
| VmUnmap.UnmapPage | kernel/memory.c:460-464 | the page at one address is unmapped and freed, or nothing happens |
| VmUnmap.UnmapRange | kernel/memory.c:456-467 | every page that the range touches, its size rounded up, faults afterwards (a superpage stays), every other address of every space keeps its translation, and exactly the pages mapped there are freed |
| VmFault.PageFault | kernel/memory.c:527-540 | a fault in user memory gets a zero page, readable, writable, executable and the user's, at the page of the faulting address, unless at most one free page is left or a superpage is in the way; a fault that is not handled changes no translation and leaks no page |
| Sv39Copy.CopyTree | kernel/memory.c:296-324 | a copy of a sound tree is sound |
| Sv39Copy.CopyTranslate | kernel/memory.c:296-324 | kernel addresses translate alike in original and copy, every other address leads to a page with the same bytes and flags |
| Sv39Copy.Graft | kernel/memory.c:309-321 | hanging a copied subtree under an empty entry names every page once |
| Sv39Size.ExactSize | kernel/memory.c:296-324 | the number of pages below a table is what a traversal counts |
| Sv39Size.SpaceSize | kernel/memory.c:296-331 | the pages a space owns are as many as a traversal of its tables counts |
| VmClone.ClonePt | kernel/memory.c:296-324 | a deep copy in fresh pages with global entries shared; it succeeds exactly when as many pages are free as the subtree has; nothing else changes even when memory runs out half way |
| VmClone.CloneActive | kernel/memory.c:326-331 | succeeds exactly when as many pages are free as the active space owns; then a new sound space of that size that takes exactly its pages from the allocator; otherwise exactly the free pages are lost; no existing space changes |
| VmFree.CloneMeaning | kernel/memory.c:296-331 | every address of the clone means what it meant in the original |
| VmFree.Isolated | kernel/memory.c:296-331 | no user page is visible in two spaces or at two addresses |
| VmFree.StoreShows | kernel/memory.c:296-331 | a store through a user address changes no translation in any space and shows at the addresses of that page of that space and at no other user address of any space |
| VmFree.FreeUser | kernel/memory.c:335-351 | every page below the table is freed exactly once, global entries stay and are reported, nothing else changes |
| VmFree.Reset | kernel/memory.c:353-357 | the active space keeps its kernel entries only and every other address faults; its pages are free, other spaces are untouched |
| VmFree.Discard | kernel/memory.c:359-366 | every page of the space, tables and root included, is freed exactly once and no other space changes |
| VmFree.CloneAndDiscard | kernel/memory.c:326-366 | a clone discarded again restores the free pages, and every page in use is as it was; it is made exactly when there is room for it |
| VmFree.CloneAndReset | kernel/process.c:175-184 | what fork does with the clone when it cannot make a thread: every page of it is free again except its root, which stays allocated |
| ThreadsInv.BroadcastInv | kernel/thread.c:381-394 | waking all waiters of any condition at any moment keeps the invariant |
| ThreadsInv.MarkWaitInv | kernel/thread.c:366-372 | marking a wait keeps the invariant, unlisted window included |
| ThreadsInv.ListWaitInv | kernel/thread.c:374-376 | listing the waiter keeps the invariant |
| ThreadsInv.SomeoneReady | kernel/thread.c:498-504 | after the requeue the ready list is not empty and holds ready threads only |
| ThreadsInv.SuspendInv | kernel/thread.c:488-517 | switching keeps the invariant, also when the thread was made ready while still running |
| ThreadsKin.SpawnMarkInv | kernel/thread.c:243-248 | creating a thread in a free slot keeps the invariant |
| ThreadsKin.SpawnInsertInv | kernel/thread.c:250-252 | listing the new thread keeps the invariant |
| ThreadsKin.ExitInv | kernel/thread.c:281-289 | exiting keeps the invariant: the one thread that may have waited for it is woken in the same step |
| ThreadsKin.ReclaimInv | kernel/thread.c:430-448 | reclaiming keeps the invariant: orphans get an older parent and nothing refers to the reclaimed thread |
| ThreadsKin.JoinInv | kernel/thread.c:300-339 | every round of join keeps the invariant |
| ThreadsFamily.JoinMeaning | kernel/thread.c:300-339 | one round of join: the exited matching child in the lowest slot leaves the table and nothing else does, its children go to its parent and the call returns; with no matching child the call returns and nothing changes; with live ones only the caller waits for one of its children to exit |
| ThreadsFamily.JoinReturns | kernel/thread.c:300-339 | over every run a thread comes out of join only by a step that reclaimed a matching child or found that it has none |
| ThreadsFamily.SpawnMeaning | kernel/thread.c:243-252 | spawning takes the lowest free slot for a ready child of the caller, and does nothing exactly when all slots are taken |
| ThreadsFamily.ParentIsNearest | kernel/thread.c:430-448 | over every run a thread's parent is its spawner or, when that was reclaimed, the nearest of its spawner's spawners still in the table |
| ThreadsRun.AcquireInv | kernel/thread.c:626-646 | acquiring keeps the invariant |
| ThreadsLocks.AcquireReturns | kernel/thread.c:626-646 | acquire returns at once exactly when the lock is free or the caller is inside already; otherwise the caller waits for the release, and no other thread changes |
| ThreadsLocks.RunDepth | kernel/thread.c:626-673 | over every run a lock's count is the number of acquires its owner came back from less the releases it made, and nobody else is inside |
| ThreadsLocks.OwnedWhileInside | kernel/thread.c:626-673 | from the start, a thread owns a lock exactly while it has come back from more acquires than it has made releases, whatever the others do |
| ThreadsLocks.LastReleaseFrees | kernel/thread.c:648-673 | a lock taken n times stays with its owner through n - 1 releases and is free after the n-th |
| ThreadsLocks.LastTakenFirst | kernel/thread.c:642-644 | over every run a thread's list has the lock it took last in front |
| ThreadsRun.ReleaseInv | kernel/thread.c:648-673 | releasing keeps the invariant |
| ThreadsRun.StartInv | kernel/thread.c:184-231 | the initial state satisfies the invariant |
| ThreadsRun.StepInv | kernel/thread.c:233-673 | every step of every thread and every interrupt keeps the invariant |
| ThreadsRun.RunInv | kernel/thread.c:233-673 | for every interleaving of thread steps and interrupt broadcasts |
| ThreadsRun.ListsMeaning | kernel/thread.c:360-394 | a thread is on one list at most and once, READY means on the ready list, a listed waiter is WAITING on that condition and a WAITING thread that has switched is listed, EXITED means on none |
| ThreadsQueues.WokenExactly | kernel/thread.c:281-289 | a listed waiter goes on waiting until a broadcast of its condition, the exit of a child it waits for, or the owner's last release of the lock it waits for; then it is ready |
| ThreadsQueues.WaitersInOrder | kernel/thread.c:374-376 | over every run the threads on a condition's list stand in the order in which they came |
| ThreadsQueues.StepReady | kernel/thread.c:488-512 | a step takes at most the head off the ready list, to run it, and puts threads only behind the others |
| ThreadsQueues.LongestReadyRuns | kernel/thread.c:488-512 | over every run the thread that runs next has been ready at least as long as every other |
| ThreadsRun.NextExists | kernel/thread.c:488-512 | the idle thread is running or ready, so the assertion that a next thread exists never fails |
| ThreadsRun.LocksMeaning | kernel/thread.c:619-673 | a held lock has count at least one and is on its owner's list only and once: mutual exclusion |
| ThreadsRun.NobodyStranded | kernel/thread.c:637-673 | a lock without an owner has nobody waiting for it and is on no list |
| ThreadsRun.Overtakes | kernel/thread.c:637-671 | a thread that releases a lock and asks again gets it before everybody who was waiting |
| ThreadsOrder.StepQueue | kernel/thread.c:626-673 | every step keeps: a thread that waits for a lock's release is inside the acquire call for that lock |
| ThreadsOrder.StartQueue | kernel/thread.c:184-231 | the initial state has it |
| ThreadsOrder.RunQueue | kernel/thread.c:626-673 | so it holds in every run |
| ThreadsOrder.StepLine | kernel/thread.c:488-517 | once a release has woken the waiters, the longest waiter runs before the others as long as nobody asks for the lock, whatever else happens |
| ThreadsOrder.LineServed | kernel/thread.c:626-646 | in every continuation the free lock goes to the longest waiter exactly when no thread that was not waiting asks first |
| ThreadsOrder.OrderOfArrival | kernel/thread.c:626-673 | from every reachable release with waiters and in every continuation, the lock goes to the thread that has waited longest exactly when no other thread asks for it before one of the waiters has run |
| ThreadsOrder.BothHappen | kernel/thread.c:626-673 | both cases occur in runs from the initial state: main takes the lock back before a waiting thread, or the waiting thread gets it |
| ThreadsOrder.RunningListed | kernel/thread.c:360-394 | the running thread is on the run queue exactly when its wait was ended before it has switched |
| ThreadsOrder.RunningListedHappens | kernel/thread.c:360-394 | that occurs in a run from the initial state: an interrupt between listing the waiter and the switch |
| ThreadsRun.RootedAtMain | kernel/thread.c:430-486 | following parents from any thread of the table ends at main |
| ThreadsRun.JoinerHasChild | kernel/thread.c:300-339 | a thread blocked in join has a matching child that has not exited, so no exit is missed |
| ThreadsRun.ReclaimedForGood | kernel/thread.c:430-448 | a reclaimed thread never comes back, so none is reclaimed twice |
| ThreadsKernel.ThreadList.Insert | kernel/thread.c:528-543 | tlinsert appends to the list; its assertions hold |
| ThreadsKernel.ThreadList.Remove | kernel/thread.c:545-562 | tlremove takes the head and leaves a valid list |
| ThreadsKernel.MoveOne | kernel/thread.c:385-392 | one turn of the broadcast loop on the linked lists, which share the link field |
| ThreadsKernel.DrainTo | kernel/thread.c:381-394 | the linked waiting list and ready list end up as the broadcast step makes them, in order |
| ThreadsKernel.Manager.BroadcastCond | kernel/thread.c:381-394 | the draining loop does the broadcast step |
| ThreadsKernel.Manager.FindSlot | kernel/thread.c:458-466 | the slot search finds the first free slot |
| ThreadsKernel.Manager.CreateThread | kernel/thread.c:243-248 | does the spawn step; the lowest free slot, or -EMTHR exactly when all are taken |
| ThreadsKernel.Manager.ScanChildren | kernel/thread.c:304-319 | the scan finds the first exited match, and whether anything matches |
| ThreadsKernel.Manager.ReclaimThread | kernel/thread.c:430-448 | the loop over the table does the reclaim step |
| ThreadsKernel.Manager.JoinRound | kernel/thread.c:303-338 | does the join step; the slot of the child reclaimed, -EINVAL exactly when there is no matching child, or a wait exactly when all matching children live |
| ThreadsKernel.UnlinkLock | kernel/thread.c:664-669 | the unlinking loop removes the lock from the list |
| ThreadsKernel.Manager.ReleaseLock | kernel/thread.c:648-673 | does the release step and keeps the invariant |
| ThreadsKernel.DrainStep | kernel/thread.c:275-279 | releasing the head of the list lowers the sum of held counts |
| ThreadsKernel.Manager.DrainLocks | kernel/thread.c:275-279 | the drain loop of exit ends, does nothing but release, and then nothing is held |
| IoRefs.SlotChange | kernel/syscall.c:122-132 | changing one slot changes the number of references to the old and the new object by one each |
| IoRefs.Kernel.constructor | kernel/process.c:69-78 | the state after procmgr_init satisfies the invariant: one process with no descriptors, and no reference to anything |
| IoRefs.Kernel.AddRef | kernel/io.c:105-109 | one more reference and one more count |
| IoRefs.Kernel.Close | kernel/io.c:111-120 | the count is not zero here, and the close operation runs exactly when it becomes zero |
| IoCalls.InstallIo | kernel/syscall.c:122-132 | the reference goes into the slot, what was there is closed |
| IoCalls.FindFreeFd | kernel/syscall.c:239-243 | the first free descriptor, -EMFILE exactly when there is none |
| IoCalls.PlaceIo | kernel/syscall.c:167-176 | the new reference ends up in a slot or is closed again |
| IoCalls.OpenCall | kernel/syscall.c:162-194 | whatever goes wrong the reference the open gave is not lost; the descriptor is the one asked for or the lowest free one; each error code exactly when its cause is there |
| IoCalls.CloseCall | kernel/syscall.c:196-203 | the slot is empty and its reference given up, -EINVAL otherwise |
| IoCalls.PipeSlots | kernel/syscall.c:250-268 | the slots named, or the lowest empty ones; fails exactly when they cannot be had, with the code for the cause |
| IoCalls.PlacePipe | kernel/syscall.c:270-279 | two fresh objects, each with the one reference its slot holds |
| IoCalls.PipeCall | kernel/syscall.c:245-283 | two new objects in two slots that were empty and differ, each as named or the lowest, or nothing; the result is determined by the table, the slots asked for and memory, the first cause winning |
| IoCalls.DupCall | kernel/syscall.c:285-303 | the new slot, named or the lowest, refers to the old one's object, what it held is closed; each error code exactly when its cause is there, and then nothing changes |
| IoCalls.CloneTab | kernel/process.c:147-151 | the child's table with every count one higher |
| IoCalls.CloseTab | kernel/process.c:157-158 | the rollback gives every count back |
| IoCalls.ForkCall | kernel/process.c:132-195 | the child gets the lowest free process slot and its parent's table; -EMPROC, -ENOMEM and -EMTHR exactly when their causes are there, and then every count and table is as before; never 0 |
| IoCalls.ExitCall | kernel/process.c:197-218 | every reference of the process is given up and its table is gone |
| IoCalls.Run | kernel/syscall.c:122-303 | over every run of calls each count is the number of slots plus kernel-held references, and every call has on the descriptor tables the effect and the result stated |
| IoCalls.ClosedMeaning | kernel/io.c:111-120 | an object has been closed as often as it came into use exactly when nothing refers to it |
| Pipe.WrapCount | kernel/io.c:492-494 | the 16-bit difference of the indices is the number of buffered bytes |
| Pipe.PipeState.Pop | kernel/io.c:508-509 | the oldest buffered byte |
| Pipe.PipeState.Push | kernel/io.c:533-534 | a byte behind the newest; no buffered byte is overwritten |
| Pipe.PipeState.Read | kernel/io.c:496-514 | as many bytes as there are, in order; a zero result on a positive request means the writer is gone and everything was delivered; it waits exactly when nothing is there and the writer is open; taking bytes wakes every waiting writer |
| Pipe.PipeState.Write | kernel/io.c:516-540 | bytes are accepted in order until all are in, the ring is full or the reader is gone, with each result exactly; putting bytes wakes every waiting reader |
| Pipe.PipeState.Close | kernel/io.c:542-557 | the last close frees the shared state, once; closing an end wakes those who wait for it |
| Pipe.Run | kernel/io.c:473-557 | over every run the ring with its wrapping indices is a queue of at most 4096 bytes: every result and every byte read are the queue's; what was read is a prefix of what was accepted, which is write by write a beginning of each write's bytes; nobody waits for what is there; the state is freed exactly when both ends are closed |
| Term.InSplit | user/io.h:108-115 | cutting the input stream does not matter to the machine |
| Term.OutSplit | user/io.h:117-125 | cutting the output stream does not matter to the machine |
| Term.OutIdempotent | user/io.h:102-125 | normalising a normalised stream changes nothing |
| Term.InOfOut | user/io.h:95-125 | a reader cannot tell whether a stream was normalised on its way out |
| Term.MachinesMean | user/io.h:95-125 | on every stream the output machine writes each line end (CR LF, lone CR or lone LF) as CR LF and the input machine as LF, and keeps all other bytes in order |
| Term.LineEndsNormal | user/io.h:95-125 | on the way out every LF follows a CR and every CR precedes an LF; what is read has no CR |
| Term.IoTerm.Compact | user/io.c:264-290 | the in-place scan leaves what the input machine makes of the chunk |
| Term.IoTerm.Read | user/io.c:236-298 | the caller gets what the machine makes of the bytes taken, at least one unless the device fails or runs dry; the loop goes round twice at most |
| Term.ReadSome | user/io.c:236-298 | any sequence of reads together gives what the machine makes of the stream; as long as a healthy device has input no read comes back empty |
| Term.IoTerm.LoneCr | user/io.c:333-351 | pending bytes, then the missing line feed |
| Term.IoTerm.LoneLf | user/io.c:366-388 | pending bytes, then the missing carriage return |
| Term.IoTerm.Write | user/io.c:300-406 | the device gets exactly what the output machine makes of the buffer, or when it fails a beginning of it, and the result is -EIO or smaller; the result counts the buffer's bytes except a line feed that completes an earlier carriage return |
| Term.WritesDontCut | user/io.c:300-406 | however a stream is cut into complete writes, the device gets its normal form |

## Left out

- Device drivers, interrupt controller, clocks, trap entry, context switch in assembly: devices are a block device and a raw character device; `satp` is a field and a switch is a change of the running thread.
- Console, formatted output, string helpers, shell, demo programs, the line editing and ioctls of the terminal: each is a short function with no state shared with the parts modelled here.
- Kernel heap, timer sleep list, ELF loading, `exec` and the initial user stack: allocation of kernel objects is a parameter that says whether it succeeds.
- BlockCache.Device: a transfer moves a whole block or fails and changes nothing; a partial transfer is not modelled.
- BlockCache.Cache.ReleaseBlock: the last reference to a written block is released as dirty, as every caller in the kernel does; releasing it as clean would lose the write.
- KTFS calls run one at a time, and null arguments do not occur.
- `IOCTL_SETEND` with a smaller size is not modelled; `KtfsLimits.SetEndUp` is the growing case, for any file but the root directory, which cannot be opened.
- KtfsIo.WriteAt: positions up to 2^41, behind which the 32-bit number of the logical block wraps around. For the root directory, which cannot be opened, the failing half of the condition is not claimed.
- KtfsDirOps.Create: with a failing device the lookup error is ignored as in the source, so an existing name can be added again; the contract then promises no sound directory. Inode numbers are below 65536, as a directory entry holds 16 bits.
- KtfsDelete.Delete: a device error can leave it half done; then only the cache invariant is promised.
- KtfsRun.Step: the device is healthy; creates are withheld while the directory ends on a block boundary of the direct area or lists an empty file, and writes that skip a block are refused, since the image is not sound after these, as stated above.
- KtfsRun.Run: the same limits as `KtfsRun.Step`.
- Session.BuildRunExtract: a healthy device, distinct names and at most 65536 inodes, since a directory entry has 16 bits for the inode.
- Unmkfs.Extract: printing and the host file system are not modelled.
- MkfsBuild.Build: the image is a sequence of blocks, exceptions are an empty result, and the limit of 32 bits for the block count is checked at the start instead of when the superblock is packed; parsing of the size argument is not modelled.
- Vm.Memory.MapPage: takes flags with at least one of R, W and X and without G, a page that is mapped nowhere, and an address that does not lead into the kernel's own subtables; a page mapped there before stays allocated, as in the source.
- Vm.Memory.Walk: addresses that do not lead into the kernel's own subtables, which all spaces share and kernel/memory.c:190-233 fills at boot.
- VmUnmap.UnmapPage: the same addresses.
- VmUnmap.UnmapRange: the same addresses.
- VmFault.PageFault: the same addresses; user memory has a root entry of its own.
- VmFree.Discard: a space other than the main one, the only kind that kernel/process.c:206-211 discards; discarding the main one would free the root that stays active.
- Range mapping and flag changes over ranges are loops over what is modelled here; TLB fences have no counterpart.
- Pages.PagePool: the free chunks are a sequence; that their headers lie in the free pages is modelled by giving freed pages arbitrary contents.
- IoCalls.ForkCall: results of the memory clone and of the thread creation are parameters; what happens to the clone's pages is `VmFree.CloneAndReset`.
- Threads: entry arguments, stacks, process memory switches, halting and liveness are not modelled; the thread lists of `ThreadsKernel.Manager` are sequences; `ThreadsKernel.ThreadList` and `ThreadsKernel.DrainTo` prove the linked form of insertion, removal and broadcast.
- Pipe.PipeState.Read: a wait is the outcome `Blocked` and one more waiter; that a woken thread gets to run is not claimed.
- Pipe.PipeState.Write: the same, and a blocked write is resumed with the count it had reached.
- Term.Raw: a read returns at least one byte or an error, a write is complete or fails; the repetition of short writes in user `iowrite` is not modelled.
- Term.IoTerm.Read: takes a positive length; with length zero the loop of the source would not end.
