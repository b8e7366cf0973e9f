# ArqvengerOS, modelled and proved

ArqvengerOS is a small x86 kernel. This project models the parts of it whose
correctness is hardest to see from the code, each in the form the code has, and
proves what they promise for every input, every run or every interleaving.

| part | modules | source |
|---|---|---|
| boundary-tag heap | HeapMemory, HeapRings, HeapTiling, HeapBins, HeapCore, Heap | src/system/malloc/malloc.c |
| write-back disk cache | CachePages, LruList, Cache | src/system/cache/cache.c |
| named pipes and process queues | FifoProtocol, Fifo, ProcessQueue | src/system/fifo.c, src/system/processQueue.c |
| namespace and rename | Namespace, FileSystem | src/system/fs/fs.c, src/system/call/io.c |
| ext2 block index | BlockTree, BlockIndex | src/drivers/ext2/inode.c |
| ext2 directories | DirectoryRecords, DirectoryFile, DirectoryRemains, Directory, DirectoryRuns | src/drivers/ext2/directory.c |
| ext2 block bitmaps | Bitmap, BlockAllocator | src/drivers/ext2/allocator.c, src/bitmap.h |
| priority scheduler | Scheduler, Blocking | src/system/scheduler/priorityScheduler.c, src/system/scheduler.c, src/system/process/table.c |
| physical pages | PageAllocator | src/system/mm/allocator.c |
| page tables and stacks | Paging, Stack | src/system/mm/pagination.c, src/system/mm/stack.c |
| 64-bit division | Div64 | src/library/div64.h |

Sets, Arith and Options hold facts about finite sets, facts about products and
quotients, and the type of a value that may be missing.
`dafny verify dfyconfig.toml` checks everything.

How the parts are put together:

- **Heap.** Memory is a map from addresses to words; a store destroys the words
  it overlaps. Ghost fields name what memory encodes: the chunks, the rings of
  the bins and the arenas. The method contracts say what happens to the chunks
  (split, release, grow); the lemmas of HeapTiling prove the laws of those three.
- **Cache.** Chunks are linked objects in a table of eight slots. A ghost value
  says which logical disk the cache shows; `AgreesWithLogical` proves that it is
  the cached page where there is one and the raw disk elsewhere. Another names
  the sectors written since the clock last moved, so that `Sync` can say what a
  sync that is not forced puts on the disk. `Serve` compares a whole run with a
  disk that has no cache.
- **Pipes.** The kernel switches processes only in `wait`, so the protocol's
  steps are the stretches of code between waits, and a run is any sequence of
  enabled steps of any processes. The class Pipe implements each step.
- **Namespace.** The methods work link by link on the inode table; each ends in
  the tree that a value-level operation describes, and runs are sequences of
  those operations.
- **Block index.** A role names a place in an inode's tree of pointers. The
  invariant is a one-to-one correspondence between the places that hold a
  pointer and the blocks in use, read through one cached block per level.
  `BlockAt` is the layout without places, and `PlaceIsBlock` ties the two.
- **Directory.** The file is known by the records written into it; a write
  destroys the records it overlaps, and removed records stay until then. A file
  stands for a map of names if its records tile it and are the map's entries.
- **Scheduler.** Runs of choose_next follow an arithmetic of gains and
  accumulations, in which the bounds are proved. Blocking models how processes
  enter and leave the queue.

Where code and expectation differ, the code is modelled:

- `find_bin` is documented to find the first bin of at least the size; it finds
  the last one that starts at or below it, which is what the callers need.
- `ext2_dir_add` is documented to succeed on a name that is there; it returns -1.
- `ext2_dir_add` takes a record that ends exactly with its block for one that
  crosses it, and moves it after having shrunk the record before it. A removed
  name can come back: `SlotOutcome` gives the exact condition, `MisplacedExample`,
  `MisplacedRun` and `RevivedExample` an input.
- `ext2_dir_add` looks for the name it is given and stores at most 256 characters
  of it, so a prefix can be stored twice: `Add`, `PrefixExample`.
- `fs_rmdir` takes an emptied record for an entry, so it refuses an empty directory
  that once filled a second block: `EmptiedCounts`, `EmptiedExample`, `EmptiedRun`.
- `deallocate_block` does not look whether the block is in use, and the freeing of
  nested index blocks calls it twice for each of them. The free counts then grow
  past the clear bits: `DriftIsConstant` gives the exact condition, `FreedTwice`
  an input.
- `uint64_div32` and `uint64_mod32` lose a carry: `Div32Exact`, `Mod32Exact`.
- `fifo_read` returns nothing once the last writer is gone, even if bytes are
  left: `ReadDelivers`, `LeftBehind`.
- `process_table_exit` can unblock a parent twice, which leaves it in the queue
  when it blocks again: `CleanExactly` gives the exact condition, `BlockedAndQueued`
  a run. The loop of `choose_next` could then end on a blocked process
  (`BlockedIsRun`), but not while the idle process heads the queue:
  `NeverRunsBlocked`.
- `rename` of a file onto the directory it is in unlinks it and then fails:
  `RenameKeepsFile` gives the exact condition, `RenameLosesFile` an input.
- `rename` uses the inode of its source before it has checked that there is one.

## Model

| member | source | states |
|---|---|---|
| `Heap.Heap.InitMalloc` | src/system/malloc/malloc.c:351-373 | The bins start empty; the rest of the buffer becomes one arena of a single free chunk between two in-use edges, or nothing if it is too small. |
| `Heap.Heap.AddBuffer` | src/system/malloc/malloc.c:300-335 | A buffer apart from all others becomes an exactly tiled arena with one free chunk; one that is too small changes nothing; the whole heap invariant and every live payload are kept. |
| `Heap.Heap.TryMalloc` | src/system/malloc/malloc.c:416-467 | NULL exactly when no free chunk of the heap is large enough, and then nothing changes; otherwise the remainder of the last split exactly when nothing fits exactly and the request is small and fits it, and the smallest sufficient chunk of the whole heap if not; no other payload changes. |
| `Heap.Heap.OutOfMemory` | src/system/malloc/malloc.c:383-403 | With an external allocator that grants enough, the heap grows by one arena and the single retry succeeds; otherwise NULL and nothing changes. |
| `Heap.Heap.Malloc` | src/system/malloc/malloc.c:416-467 | Fails exactly when nothing fits and the external allocator is absent or grants too little; says which chunk is taken from which tiling, and when it is the remainder of the last split; the payload is large enough and wastes less than a free chunk; no live payload changes. |
| `Heap.Heap.FreePayload` | src/system/malloc/malloc.c:496-562 | The chunk and its free neighbours on both sides become one free chunk; every other live payload keeps its words; the invariant is kept; free(NULL) does nothing. |
| `Heap.Heap.MallocThenFree` | src/system/malloc/malloc.c:416-562 | Freeing what malloc just gave, with no growth, restores addresses, sizes, statuses and free_memory exactly. |
| `Heap.Heap.StorePayload` | src/system/malloc/malloc.c:416-467 | A store of the user inside its own payload cannot break the heap. |
| `Heap.Heap.AddFreeChunk` | src/system/malloc/malloc.c:229-250 | The chunk gets equal header and footer and a place in the bin of its size, behind every chunk that is not larger and before the first that is; bins stay sorted rings of exactly the free chunks of their size range. |
| `Heap.Heap.SplitChunk` | src/system/malloc/malloc.c:262-289 | The chunk is split where the remainder can stand alone and taken whole otherwise; last_chunk names the remainder or last_chunk_size is 0; free_memory drops by what was taken. |
| `Heap.Heap.Coalesce` | src/system/malloc/malloc.c:496-562 | Joining through the footer of the chunk before and the header of the chunk after equals the release of the tiling, and a swallowed last_chunk is forgotten. |
| `Heap.Heap.Unlink` | src/system/malloc/malloc.c:463-464 | Taking a chunk out of its ring through its own links leaves all other rings and tags intact. |
| `Heap.FindBin` | src/system/malloc/malloc.c:152-170 | The binary search ends in the bin whose range holds the size, for every size below 2 GB. |
| `Heap.FindUpperChunk` | src/system/malloc/malloc.c:208-220 | The first chunk of a bin strictly larger than the size, or the bin head. |
| `Heap.FindChunk` | src/system/malloc/malloc.c:181-193 | The first chunk of a bin not smaller than the size, or the bin head. |
| `Heap.Search` | src/system/malloc/malloc.c:431-450 | The bin walk finds the smallest sufficient chunk of the whole heap, or proves that none is sufficient. |
| `Heap.FirstIsBest` | src/system/malloc/malloc.c:431-450 | In sorted bins, the first chunk that fits in the first bin that has one is the best fit of the whole heap. |
| `Heap.NothingFits` | src/system/malloc/malloc.c:431-450 | If no chunk from the bin of the request on fits, none in the heap does. |
| `Heap.InitBins` | src/system/malloc/malloc.c:351-373 | Every bin head is linked to itself. |
| `HeapTiling.ExactlyTiled` | src/system/malloc/malloc.c:665-721 | Under the invariant every byte of every arena lies in exactly one chunk. |
| `HeapTiling.TakeTiling` | src/system/malloc/malloc.c:262-289 | A split keeps the tiling and never leaves two free chunks side by side. |
| `HeapTiling.TakeBounded` | src/system/malloc/malloc.c:262-289 | A split keeps every arena closed by its two edges. |
| `HeapTiling.TakeTotal` | src/system/malloc/malloc.c:262-289 | A split lowers the sum of free sizes by exactly the chunk taken. |
| `HeapTiling.ReleaseTiling` | src/system/malloc/malloc.c:496-562 | Two-sided coalescing keeps the tiling and leaves no two free chunks side by side. |
| `HeapTiling.ReleaseBounded` | src/system/malloc/malloc.c:496-562 | Coalescing never crosses an arena's edges. |
| `HeapTiling.ReleaseTotal` | src/system/malloc/malloc.c:496-562 | Coalescing raises the sum of free sizes by exactly the chunk freed. |
| `HeapTiling.ReleaseTake` | src/system/malloc/malloc.c:262-562 | Release undoes split on every tiling: the map of chunks comes back exactly. |
| `HeapTiling.GrowTiling` | src/system/malloc/malloc.c:300-335 | A new arena keeps the tiling of the others. |
| `HeapTiling.GrowTotal` | src/system/malloc/malloc.c:300-335 | A new arena raises the sum of free sizes by its one chunk. |
| `HeapCore.UnlinkCore` | src/system/malloc/malloc.c:463-464 | Memory after two link stores still encodes all tags and all rings, without the chunk. |
| `HeapCore.SpliceCore` | src/system/malloc/malloc.c:229-250 | Memory after the six stores of add_free_chunk encodes the new chunk in its ring, and every foreign word is kept. |
| `HeapCore.LiveCore` | src/system/malloc/malloc.c:278-283 | Memory after the stores that make a chunk live still encodes the heap. |
| `HeapMemory.StoreInPayload` | src/system/malloc/malloc.c:416-467 | A word stored in a live payload touches no tag and no link. |
| `HeapRings.RingInsert` | src/system/malloc/malloc.c:241-245 | Inserting before a node keeps a circular doubly linked list well formed. |
| `HeapRings.RingRemove` | src/system/malloc/malloc.c:463-464 | Removing a node through its two neighbours keeps it well formed. |
| `HeapBins.LinkBins` | src/system/malloc/malloc.c:229-250 | Every bin stays sorted and lists exactly the free chunks of its range after an insertion. |
| `HeapBins.UnlinkBins` | src/system/malloc/malloc.c:463-464 | The same after a removal. |
| `HeapBins.BinOrder` | src/system/malloc/malloc.c:152-193 | Larger sizes never belong to earlier bins. |
| `LruList.List.Add` | src/system/cache/cache.c:65-83 | The chunk becomes the first of a well-formed doubly linked list. |
| `LruList.List.Remove` | src/system/cache/cache.c:85-105 | The chunk at any position leaves; the others keep their order and stay well linked. |
| `Cache.Cache.constructor` | src/system/cache/cache.c:256-268 | An empty cache shows the disk itself. |
| `Cache.Cache.MarkAccess` | src/system/cache/cache.c:107-114 | The chunk moves to the front with the current time, all others as they were behind it; order by recency, table and logical disk are kept. |
| `Cache.Cache.CacheRead` | src/system/cache/cache.c:116-155 | Always succeeds and returns exactly the requested sectors of the logical disk, which does not change, whatever had to be loaded or evicted, for every request within the disk's whole pages. |
| `Cache.Cache.CacheWrite` | src/system/cache/cache.c:158-206 | Always succeeds and changes exactly the requested sectors of the logical disk; of the sectors written since the clock last moved it adds only those. |
| `Cache.Cache.WritePiece` | src/system/cache/cache.c:172-203 | One round puts the data into the front page, which is dirty since now unless it was dirty before; the time of the first write stays while it is dirty. |
| `Cache.Cache.FindChunk` | src/system/cache/cache.c:208-254 | Never fails: the page is in the cache, once, and the logical disk is the same, even when room had to be made or memory for the chunk cost another page; a page already cached changes nothing. |
| `Cache.Cache.Load` | src/system/cache/cache.c:239-253 | The page read from the disk is put in an empty slot and at the front, clean; the logical disk is the same. |
| `Cache.Cache.Sync` | src/system/cache/cache.c:270-289 | Each page stays dirty exactly when the sync is not forced and it was first written in this very second; forced or not, every sector not written since the clock last moved is then on the disk; once the clock has moved, or when forced, the raw disk is the logical disk. |
| `Cache.Cache.Evict` | src/system/cache/cache.c:316-333 | For one page: releases the last page of the list that is clean and, unless forced, was not used in this second, and none exactly when there is none; disk and logical disk are the same. |
| `Cache.Cache.CacheEvict` | src/system/cache/cache.c:291-314 | For one page: a non-empty cache gives up exactly one page and always a clean one: the least recently used of the clean pages, not used in this second, or, when every clean one was, the least recently used of all after everything was written back; the logical disk is the same. |
| `Cache.Cache.Release` | src/system/cache/cache.c:335-350 | Only that page leaves list and table, its data on the disk first if it was dirty; the logical disk is the same. |
| `Cache.Cache.WriteSyncReadBack` | src/system/cache/cache.c:116-314 | What is written is read back across an eviction and a forced sync, and is then on the disk. |
| `Cache.Cache.WriteWriteSync` | src/system/cache/cache.c:158-289 | What a write wrote is on the disk after a later sync that is not forced, once the clock has moved since, even if the page was written to again in between. |
| `Cache.Serve` | src/system/cache/cache.c:116-333 | Over every run of reads, writes, syncs and evictions the cache answers exactly what a disk without a cache answers, and after a final forced sync the raw disk is that disk. |
| `Cache.VictimIsLastClean` | src/system/cache/cache.c:316-333 | Because the list is ordered by recency, the victim is the least recently used clean page. |
| `CachePages.AgreesWithLogical` | src/system/cache/cache.c:116-155 | The logical disk is determined by cache and disk: the cached page where there is one, the raw disk elsewhere. |
| `CachePages.LoadedInv` | src/system/cache/cache.c:239-253 | Loading a page keeps cache and logical disk in agreement, each page cached once, and the order by recency. |
| `CachePages.TouchedInv` | src/system/cache/cache.c:107-114 | So does moving a page to the front. |
| `CachePages.SoiledInv` | src/system/cache/cache.c:175-201 | A write into a cached page changes the logical disk there and nowhere else, and the rest of the invariant holds. |
| `CachePages.SoiledTimely` | src/system/cache/cache.c:175-179 | A write keeps this: a sector written in an earlier second and not on the disk is under a page that has been dirty since an earlier second. |
| `CachePages.LaterTimely` | src/system/cache/cache.c:270-289 | So does the clock, whose move makes every dirty page one that is due. |
| `CachePages.EarlierWritten` | src/system/cache/cache.c:270-289 | With no page left that is due, every sector not written in this second is on the disk. |
| `CachePages.CleanedInv` | src/system/cache/cache.c:280-284 | Writing a page back changes the raw disk and not the logical one. |
| `CachePages.ReleasedInv` | src/system/cache/cache.c:335-350 | Releasing a page, written back if dirty, changes the logical disk nowhere. |
| `CachePages.CleanIsSynced` | src/system/cache/cache.c:270-289 | With no dirty page the raw disk is the logical disk. |
| `CachePages.Pieces` | src/system/cache/cache.c:116-206 | The three branches of the block loops cut any request into consecutive pieces that stay in their pages and add up to it; the page past the end touches no sector. |
| `FifoProtocol.NoLostWakeup` | src/system/fifo.c:47-211 | In every interleaving, a process blocked in read faces an empty pipe with a writer, one blocked in write too little room with a reader, one blocked in open the absence of the other end. |
| `FifoProtocol.NoDeadlock` | src/system/fifo.c:47-152 | So one process at the reading end and one at the writing end are never both blocked, in opens, reads or writes, but for a write of more than 1024 bytes against a read. |
| `FifoProtocol.BytesConserved` | src/system/fifo.c:92-152 | In every interleaving the bytes read followed by the buffer are the bytes accepted, in order, and the buffer never exceeds its size. |
| `FifoProtocol.WritesAreWhole` | src/system/fifo.c:92-117 | In every interleaving the bytes the pipe has taken are the whole data of writes, one after the other, and each write call has returned once, with its own data and in order, however often it blocked and resumed. |
| `FifoProtocol.ReadDelivers` | src/system/fifo.c:119-152 | A read delivers bytes exactly when some are there and a writer still is: what the last writer left behind cannot be read. |
| `FifoProtocol.ReadDoes` | src/system/fifo.c:119-152 | An empty pipe with a writer blocks the reader; otherwise it returns, with a writer there with the first bytes, the lesser of those there and those asked for, the rest staying in the pipe and exactly the queued writers unblocked, and with nothing if there is no writer. |
| `FifoProtocol.WriteDoes` | src/system/fifo.c:92-117 | Without a reader nothing is written; with one the writer blocks exactly when its data does not fit whole, and otherwise all of it goes behind the bytes there and exactly the queued readers are unblocked. |
| `FifoProtocol.OpenDoes` | src/system/fifo.c:47-90 | The opener blocks exactly when it opens one end alone and nobody has the other open; the counts are the open descriptors of each end; otherwise exactly the queued processes are unblocked. |
| `FifoProtocol.OpenEndDoes` | src/system/fifo.c:88-90 | An open that waited goes on, and exactly the queued processes are unblocked. |
| `FifoProtocol.CloseDoes` | src/system/fifo.c:154-192 | The pipe is empty and new with the last descriptor gone; otherwise its bytes stay and exactly the queued processes are unblocked. |
| `FifoProtocol.LeftBehind` | src/system/fifo.c:119-192 | A run of a reader and a writer that ends with a byte in the pipe which no read delivers. |
| `FifoProtocol.StepKeeps` | src/system/fifo.c:47-192 | Each stretch between two waits, of any process, keeps the invariant; descriptors handed to new processes, exits and outside unblockings included. |
| `FifoProtocol.AfterInv` | src/system/fifo.c:47-192 | So every state an interleaving reaches satisfies it. |
| `Fifo.Pipe.Open` | src/system/fifo.c:47-90 | Counts the descriptor in, makes the pipe if it is the first, and then waits, exactly for one end alone with nobody at the other, or wakes everybody. |
| `Fifo.Pipe.OpenResume` | src/system/fifo.c:88-90 | The rest of an open that waited. |
| `Fifo.Pipe.Write` | src/system/fifo.c:92-117 | One pass of the loop: waits exactly when the data does not fit and a reader is there; otherwise appends all of it, returns its length and wakes the readers, or returns 0 without a reader. |
| `Fifo.Pipe.Read` | src/system/fifo.c:119-152 | One pass of the loop: waits exactly when the pipe is empty with a writer; otherwise returns, with a writer there, the first bytes up to the length asked for, shifts the rest to the front and wakes the writers. |
| `Fifo.Pipe.Close` | src/system/fifo.c:154-192 | Counts the descriptor out; the last one takes the pipe with it, any other wakes everybody. |
| `Fifo.Pipe.Execute` | src/system/fifo.c:47-192 | Each step of the protocol is what the class does. |
| `Fifo.Play` | src/system/fifo.c:47-192 | So a run of the class ends in the state that the theorems about interleavings speak of. |
| `Fifo.WakeQueue` | src/system/fifo.c:194-201 | Exactly the queued processes are unblocked. |
| `Fifo.ShiftLeft` | src/system/fifo.c:142-147 | The unread bytes end up at the front, in order. |
| `FifoProtocol.WaitThenWake` | src/system/fifo.c:194-211 | Waking the queue undoes the wait: the process goes on where it waited, and all others are as if it had not waited. |
| `ProcessQueue.Queue.Push` | src/system/processQueue.c:31-45 | The process is last, with an accumulated priority of 1; its node is the recycled one or new; queue and free list stay well linked and apart. |
| `ProcessQueue.Queue.Pop` | src/system/processQueue.c:47-64 | The process that has waited longest, or none exactly when the queue is empty; its node heads the free list. |
| `ProcessQueue.Queue.Remove` | src/system/processQueue.c:66-97 | The first entry of the process goes, wherever it is, and the others keep their order; an absent process changes nothing. |
| `ProcessQueue.Pool.AllocNode` | src/system/processQueue.c:15-29 | A node that is in no free list any more, recycled if there is one. |
| `ProcessQueue.Pool.FreeNode` | src/system/processQueue.c:10-13 | The free list stays a chain, with the node at its head. |
| `ProcessQueue.Transfer` | src/system/processQueue.c:31-64 | A process popped from one queue and pushed onto another: recycling the node breaks neither queue and the free list is as before. |
| `ProcessQueue.RemovedAt` | src/system/processQueue.c:66-97 | Removal at the first match is removal of the first entry. |
| `FileSystem.RunCountsLinks` | src/system/fs/fs.c:128-344 | After every run of mknod, mkdir, unlink, rmdir and rename the link count of a live inode is the number of entries naming it, and no entry names a deleted inode. |
| `FileSystem.RunIsTree` | src/system/fs/fs.c:227-312 | After every run the directories are a tree rooted at inode 2: climbing ends at the root, and each directory has one name, in the directory its dot-dot entry names. |
| `FileSystem.ApplyWellFormed` | src/system/fs/fs.c:128-344 | Every call keeps the namespace well formed. |
| `FileSystem.MoveRefused` | src/system/call/io.c:635-715 | The climb over dot-dot entries terminates and refuses exactly when the source is the destination directory, the root or any other ancestor of it. |
| `FileSystem.FileSystem.Rename` | src/system/call/io.c:442-726 | Moves exactly when all its checks pass and the file would not land where it is; then, of all entries, the old name is gone, the landing place names the inode (inside the target under its old name if that is a directory, the target itself otherwise, a file there being replaced), a moved directory has its new parent, and every other entry stands; landing where it is unlinks the file instead; a source that does not exist is a NULL access; otherwise nothing changes. |
| `FileSystem.RenamedNames` | src/system/call/io.c:538-718 | Which inode every entry of every directory names after a rename, with the landing place written out. |
| `FileSystem.RenameMoves` | src/system/call/io.c:490-714 | The exact condition under which rename moves, with the landing place written out. |
| `FileSystem.RenameKeepsFile` | src/system/call/io.c:584-718 | The file is still there after rename unless all checks pass, it lands where it is, and it has no other name. |
| `FileSystem.RenameLosesFile` | src/system/call/io.c:584-620 | The run that makes d and d/x and renames d/x to d loses the file. |
| `FileSystem.FileSystem.Execute` | src/system/fs/fs.c:128-344 | Each call of the class does to its inodes what the operation does to the tree. |
| `FileSystem.Play` | src/system/fs/fs.c:128-344 | So a run of calls on a new file system ends in the tree that the run theorems speak of. |
| `FileSystem.FileSystem.FsRename` | src/system/fs/fs.c:227-263 | Of all entries, the new name names the inode, the old one is gone, a moved directory's dot-dot entry names its new parent, and every other stands. |
| `FileSystem.FileSystem.FsMkdir` | src/system/fs/fs.c:293-312 | Refuses exactly a taken name; otherwise there is a new directory with its name and its two dot entries, all three links counted, and every other entry stands. |
| `FileSystem.FileSystem.FsMknod` | src/system/fs/fs.c:274-291 | Refuses exactly a taken name; otherwise there is a new file with one link and that name, and every other entry stands. |
| `FileSystem.FileSystem.FsUnlink` | src/system/fs/fs.c:167-187 | Succeeds exactly on files; that entry goes, the inode with its last link, and every other entry stands. |
| `FileSystem.FileSystem.FsRmdir` | src/system/fs/fs.c:128-165 | Succeeds exactly on directories that hold only their dot entries; the directory, its entries and its name go, all three links undone, and every other entry stands. |
| `FileSystem.RemovedLinkRefs` | src/system/fs/fs.c:314-330 | remove_link: exactly that entry goes, the inode goes exactly with its last link, and with it only the entries it held itself. |
| `FileSystem.RemovedLinkCounts` | src/system/fs/fs.c:314-330 | While the inode lives on, the difference between link count and number of entries is kept for every inode. |
| `FileSystem.AddedLinkCounts` | src/system/fs/fs.c:332-344 | add_link of a free name: the inode is named by one entry more, exactly that one, and the difference between link count and number of entries is kept for every inode. |
| `FileSystem.HoldsOnly` | src/system/fs/fs.c:145-155 | The scan of rmdir says whether every entry's number is one of the two. |
| `Namespace.EmptinessTest` | src/system/fs/fs.c:145-155 | rmdir's test by inode numbers accepts exactly the directories that hold just their two dot entries. |
| `Namespace.MoveWellFormed` | src/system/fs/fs.c:227-263 | Moving anything but a directory below itself keeps link counts, dot-dot entries and the tree. |
| `Namespace.MoveShape` | src/system/fs/fs.c:227-263 | What every entry names and every link count is after a move. |
| `Namespace.MkdirWellFormed` | src/system/fs/fs.c:293-312 | mkdir keeps them. |
| `Namespace.MkdirShape` | src/system/fs/fs.c:293-312 | What every entry names after mkdir. |
| `Namespace.RmdirWellFormed` | src/system/fs/fs.c:128-165 | rmdir of an empty directory keeps them. |
| `Namespace.RmdirShape` | src/system/fs/fs.c:128-165 | What every entry names after rmdir. |
| `Namespace.UnlinkWellFormed` | src/system/fs/fs.c:167-187 | unlink keeps them. |
| `Namespace.UnlinkShape` | src/system/fs/fs.c:167-187 | What every entry names after unlink, and which inode goes. |
| `Namespace.MknodWellFormed` | src/system/fs/fs.c:274-291 | mknod keeps them. |
| `Namespace.MknodShape` | src/system/fs/fs.c:274-291 | What every entry names after mknod. |
| `BlockIndex.Files.AllocateDataBlock` | src/drivers/ext2/inode.c:359-490 | Succeeds exactly when there are more free blocks than index blocks missing on the way; then block i of the file is the new block, which was free, every other block of every file is where it was, and just those index blocks came into use; on failure no block of a file moves, at most the block given back is free, and no block is lost. |
| `BlockIndex.Files.BlockIndexToBlock` | src/drivers/ext2/inode.c:506-570 | The lookup through the three one-block caches finds block i of the ext2 layout: the direct blocks, then the leaves of the three trees from left to right, for every index. |
| `BlockIndex.Files.constructor` | src/drivers/ext2/inode.c:592-627 | Files without blocks on a disk whose free blocks are zero satisfy the invariant. |
| `BlockIndex.Files.ReadIndex` | src/drivers/ext2/inode.c:261-269 | The cache of a level then mirrors the block. |
| `BlockIndex.Files.PutPointer` | src/drivers/ext2/inode.c:390-392 | A pointer written through the cache of its level puts the block at its place and counts it; the cache still mirrors the disk. |
| `BlockIndex.Files.EnsureTop` | src/drivers/ext2/inode.c:400-409 | The root of an indirect tree exists afterwards unless it was missing with no block free; no other place changes, and no block is lost. |
| `BlockIndex.Files.EnsureMiddle` | src/drivers/ext2/inode.c:413-424 | The same for an index block below the root, which is cleared. |
| `BlockIndex.ClearWords` | src/drivers/ext2/inode.c:492-504 | The words of an index block end up all zero. |
| `BlockIndex.NoSharing` | src/drivers/ext2/inode.c:359-490 | No block serves two places, of one file or of two, as data or as index. |
| `BlockIndex.IndicesShareNoBlock` | src/drivers/ext2/inode.c:506-570 | No two indices of a file share a block. |
| `BlockIndex.GrownCounted` | src/drivers/ext2/inode.c:359-490 | countDiskSectors counts every data and index block of the inode after each allocation. |
| `BlockTree.AttachResolve` | src/drivers/ext2/inode.c:506-570 | Putting a block at one place of the tree changes the lookup of that place alone, although index blocks change. |
| `BlockTree.AttachConsistent` | src/drivers/ext2/inode.c:359-490 | It keeps the one-to-one correspondence of places and blocks in use. |
| `BlockTree.PlaceInjective` | src/drivers/ext2/inode.c:506-570 | Different indices are different places in the direct, single, double and triple ranges. |
| `BlockTree.PlaceInRange` | src/drivers/ext2/inode.c:506-570 | The quotients and remainders of the ranges stay within their index blocks. |
| `BlockTree.PlaceIndex` | src/drivers/ext2/inode.c:506-570 | The index is recovered from the place in each range, outer slots counting whole index blocks: the ext2 layout. |
| `BlockTree.PlaceIsBlock` | src/drivers/ext2/inode.c:506-570 | Following the pointers to the place of a block finds the leaf that a recursion on the depth of the trees finds. |
| `BlockIndex.OneMoreBlocks` | src/drivers/ext2/inode.c:359-490 | One more place in use is one more block of one file. |
| `Scheduler.EveryProcessRuns` | src/system/scheduler/priorityScheduler.c:10-42 | In a queue of n processes, none blocked, each one runs within 4n - 3 calls, whatever the priorities 0 to 3 and the positive accumulated values: better than 5n - 4. |
| `Scheduler.WaitingBound` | src/system/scheduler/priorityScheduler.c:25-42 | In the ageing arithmetic, a node of gain g passed over m times in a row has g m <= 4 (n - 1). |
| `Scheduler.WaitsAtMost` | src/system/scheduler/priorityScheduler.c:10-42 | A process of priority p that runs in none of m calls of choose_next in a row has (p + 1) m <= 4 (n - 1). |
| `Scheduler.NotOvertaken` | src/system/scheduler/priorityScheduler.c:10-42 | While a process waits, none of equal or lower priority runs twice. |
| `Scheduler.NoOvertaking` | src/system/scheduler/priorityScheduler.c:10-42 | In the ageing arithmetic, no node of equal or smaller gain is picked twice while another waits. |
| `Scheduler.PriorityScheduler.ChooseNext` | src/system/scheduler/priorityScheduler.c:10-23 | Every node is aged by its priority plus one unless blocked, the first maximum of the eligible ones is chosen and starts over at 1, and its process is the one that runs where only the current one did. |
| `Scheduler.CallDoes` | src/system/scheduler/priorityScheduler.c:10-42 | Which node a call chooses, and what every node has accumulated then. |
| `Scheduler.CallRuns` | src/system/scheduler/priorityScheduler.c:12-22 | Where only the current process may be running, exactly the chosen one is after a call; every other that ran is ready, and no other status changes. |
| `Scheduler.UpdateAcumPriorities` | src/system/scheduler/priorityScheduler.c:25-42 | Ages all nodes and finds the top one. |
| `Scheduler.TopIsFirstMaximum` | src/system/scheduler/priorityScheduler.c:25-42 | Nothing eligible has accumulated more than the node the loop keeps, and nothing eligible before it as much; only the first node can be kept although blocked. |
| `Scheduler.BlockedIsRun` | src/system/scheduler/priorityScheduler.c:25-42 | The loop ends on a blocked node exactly when that node heads the queue and no eligible one has accumulated more. |
| `Blocking.BlockedIsDoubled` | src/system/process/table.c:185-193 | After every run of creations, blocks, unblocks, exits and choices, a blocked process is queued only if it was unblocked before while it was queued. |
| `Blocking.NeverDoubled` | src/system/process/table.c:185-193 | In a run without that, nothing in the queue is blocked. |
| `Blocking.CleanExactly` | src/system/process/table.c:185-193 | Over any run, no blocked process is ever queued if and only if no process is ever blocked while it is queued twice. |
| `Blocking.DroppedIsRemoved` | src/system/processQueue.c:66-97 | Leaving the scheduler's queue is the removal of the process queue. |
| `Blocking.RunBounded` | src/system/scheduler.c:31-69 | A process is queued at most once more than it was unblocked while queued, and not once more while it is blocked or once it is done. |
| `Blocking.RunnableIsQueued` | src/system/scheduler.c:31-71 | After every run, every process that is neither blocked nor done is in the queue: none that could run is lost. |
| `Blocking.DoneStaysOut` | src/system/scheduler.c:50-67 | After every run, a process that is done is in the queue only if it was unblocked before while it was queued. |
| `Blocking.NeverRunsBlocked` | src/system/kernel.c:18-54 | With the idle process created first, never blocked and never removed, choose_next runs no blocked process, whatever else was queued twice. |
| `Blocking.BlockedAndQueued` | src/system/process/table.c:65-108 | The run in which an exit unblocks the parent twice, once for ioWait and once for inWait, leaves the parent blocked and queued. |
| `Blocking.TwiceTrace` | src/system/process/table.c:65-108 | Those operations are what the flags make process_table_exit and the waits do. |
| `Scheduler.CallsAreSteps` | src/system/scheduler/priorityScheduler.c:10-42 | A run of calls follows the ageing arithmetic, call by call. |
| `Scheduler.Fairness` | src/system/scheduler/priorityScheduler.c:10-42 | Every node is picked within 4n - 3 rounds of that arithmetic. |
| `Directory.Directory.Find` | src/drivers/ext2/directory.c:50-66 | Finds an entry exactly when the directory has the name, with its inode. |
| `Directory.Directory.Add` | src/drivers/ext2/directory.c:68-155 | -1 and no change exactly when the name is there. Otherwise the file stands for the map with the stored name added if and only if that name is new and the record is not moved although it fits; a stored name that is there already leaves a tiled file that stands for no map. |
| `Directory.Directory.Remove` | src/drivers/ext2/directory.c:157-198 | The records tile the blocks and stand for the map without the name; an absent name changes nothing. |
| `Directory.AddFindRemove` | src/drivers/ext2/directory.c:50-198 | A name added is found, and gone once removed, with all other entries as they were. |
| `Directory.Directory.Read` | src/drivers/ext2/directory.c:26-48 | At a record's offset the record, at the end nothing, and the length leads to the next record. |
| `Directory.Directory.FindSlot` | src/drivers/ext2/directory.c:97-121 | The first record with enough spare room, or the end of the file. |
| `DirectoryRemains.SlotOutcome` | src/drivers/ext2/directory.c:104-155 | The same if-and-only-if for every addition into spare room, about the file that is left. |
| `DirectoryRemains.MisplacedReads` | src/drivers/ext2/directory.c:129-145 | However the file left by a moved record is read, the reader comes upon the offset behind the shrunk record, which is no record's and not the new one's: it reads what a removed record left. |
| `DirectoryRemains.MisplacedBreaks` | src/drivers/ext2/directory.c:129-145 | So that file does not stand for the map with the new name. |
| `DirectoryRemains.OneTiling` | src/drivers/ext2/directory.c:26-66 | A file of a given size can be read in one way only. |
| `DirectoryRemains.SplitRemains` | src/drivers/ext2/directory.c:104-117 | What removed records left lies in room that records do not need, and their names, if in use again, are in use no later; an addition keeps that. |
| `DirectoryRemains.MergedRemains` | src/drivers/ext2/directory.c:175-186 | So does a removal that joins a record to the one before it. |
| `DirectoryRemains.MisplacedExample` | src/drivers/ext2/directory.c:129-145 | A well-formed directory of one full block in which adding a name of four letters leaves a file that does not stand for the map with it. |
| `DirectoryRemains.AddedAndRemoved` | src/drivers/ext2/directory.c:68-198 | What adding and removing a name of one letter leaves in that block. |
| `DirectoryRemains.RevivedExample` | src/drivers/ext2/directory.c:129-145 | After that the same addition brings the removed name back with its inode. |
| `DirectoryRemains.PrefixExample` | src/drivers/ext2/directory.c:78-84 | Adding a name of 257 characters whose first 256 are an entry leaves a file that stands for no map. |
| `DirectoryRuns.FillBlock` | src/drivers/ext2/directory.c:68-155 | The full block is reached by five additions to an empty directory. |
| `DirectoryRuns.MisplacedRun` | src/drivers/ext2/directory.c:68-155 | The run of six additions whose last one leaves a file that does not stand for the map with its name. |
| `Directory.Directory.HoldsOnly` | src/system/fs/fs.c:145-155 | The scan of rmdir over the records passes exactly when all entries have one of the two numbers and no emptied record is left. |
| `DirectoryRecords.EmptiedCounts` | src/system/fs/fs.c:145-155 | An emptied record has number 0, so the test by numbers takes it for an entry. |
| `DirectoryFile.EmptiedExample` | src/system/fs/fs.c:145-155 | A directory with only its two dot entries and an emptied second block, which rmdir therefore refuses. |
| `DirectoryRuns.EmptiedRun` | src/system/fs/fs.c:145-155 | The run of additions and removals after which an empty directory holds only its dot entries and the scan of rmdir refuses it. |
| `DirectoryRecords.PadIsLeast` | src/drivers/ext2/directory.c:16-24 | pad gives the least multiple of the alignment that is not smaller. |
| `DirectoryRecords.SplitTiled` | src/drivers/ext2/directory.c:104-117 | A record put in another's spare room keeps the tiling, and no record crosses a block. |
| `DirectoryRecords.MergedTiled` | src/drivers/ext2/directory.c:175-183 | A removed record that does not start a block can join the one before it without crossing the block. |
| `DirectoryRecords.ExtendedTiled` | src/drivers/ext2/directory.c:123-127 | A record in a block of its own extends the tiling. |
| `DirectoryRecords.SplitStands` | src/drivers/ext2/directory.c:68-155 | Addition is a map update on names. |
| `DirectoryRecords.MergedStands` | src/drivers/ext2/directory.c:157-198 | Removal is a map removal on names. |
| `DirectoryRecords.BlankedStands` | src/drivers/ext2/directory.c:170-175 | So is emptying the first record of a block. |
| `PageAllocator.Allocator.FindPages` | src/system/mm/allocator.c:180-231 | NULL exactly when no run of that many free pages exists; otherwise the lowest run, across word boundaries, is marked and nothing else, and it overlaps nothing held. |
| `PageAllocator.FindRun` | src/system/mm/allocator.c:186-220 | The scan that advances its own outer index finds the lowest run or proves there is none. |
| `PageAllocator.ScanRun` | src/system/mm/allocator.c:190-211 | Following a run from word to word skips no run that starts in between. |
| `PageAllocator.Allocator.FreePages` | src/system/mm/allocator.c:233-239 | Exactly the pages of the block become free; whatever else is held stays taken and apart. |
| `PageAllocator.Allocator.FindThenFree` | src/system/mm/allocator.c:180-239 | Allocating and freeing leaves the map as it was. |
| `PageAllocator.Allocator.FreeReserved` | src/system/mm/allocator.c:295-305 | A whole reservation list is given back: exactly its pages become free. |
| `PageAllocator.Allocator.Provide` | src/system/mm/allocator.c:93-97 | Exactly the mappable pages of the stretch become free. |
| `PageAllocator.Allocator.MarkPages` | src/system/mm/allocator.c:226-228 | Exactly the pages of the block are marked. |
| `PageAllocator.TakeHeld` | src/system/mm/allocator.c:180-231 | Pages that were free overlap no block that is held. |
| `PageAllocator.FreeHeld` | src/system/mm/allocator.c:233-239 | Freeing a held block frees no page of another. |
| `PageAllocator.FreeUndoesTake` | src/system/mm/allocator.c:180-239 | Marking free undoes marking taken on a free run. |
| `PageAllocator.StepFree` | src/system/mm/allocator.c:195-202 | A streak shorter than the request proves that no run ends at this page. |
| `Bitmap.BitmapSet` | src/bitmap.h:8-10 | Sets that bit of the map and no other. |
| `Bitmap.BitmapClear` | src/bitmap.h:12-14 | Clears that bit and no other. |
| `Bitmap.BitmapTest` | src/bitmap.h:16-18 | Reads that bit. |
| `Bitmap.FirstClear` | src/bitmap.h:20-37 | The lowest clear bit of the whole words of the entries, or -1 exactly when all are set. |
| `Bitmap.BitUpdate` | src/bitmap.h:8-14 | One bit of one word is one bit of the map. |
| `BlockAllocator.Allocator.AllocateBlock` | src/drivers/ext2/allocator.c:69-84 | 0 exactly when every bitmap is full, and then nothing changes; otherwise a block that was not in use, the first of the hinted group or of the first group with room, is marked and counted; no count drifts from the clear bits. |
| `BlockAllocator.Allocator.AllocateInGroup` | src/drivers/ext2/allocator.c:86-104 | The first clear block of the group, 0 exactly when the group is full. |
| `BlockAllocator.Allocator.ReserveBlock` | src/drivers/ext2/allocator.c:106-117 | Bitmap on disk and in the buffer, group count and superblock count change together, counts modulo their width. |
| `BlockAllocator.Allocator.DeallocateBlock` | src/drivers/ext2/allocator.c:137-159 | Finds group and bit of the number, clears the bit and counts it; the counts keep their distance from the clear bits exactly if the block was in use. |
| `BlockAllocator.Allocator.AllocateThenDeallocate` | src/drivers/ext2/allocator.c:69-159 | Restores every bitmap and every count. |
| `BlockAllocator.Allocator.ReadBlockBitmap` | src/drivers/ext2/allocator.c:127-135 | The shared buffer then equals the group's bitmap block on disk. |
| `BlockAllocator.Allocator.WriteBlockBitmap` | src/drivers/ext2/allocator.c:119-125 | The bitmap of the group, and of no other, becomes what the buffer holds, and buffer and disk agree; a group the buffer does not hold is refused and nothing changes. |
| `BlockAllocator.ReleaseUndoesReserve` | src/drivers/ext2/allocator.c:106-159 | Deallocation undoes reservation in bitmaps and wrapping counts. |
| `BlockAllocator.DriftIsStrays` | src/drivers/ext2/allocator.c:106-159 | Over any run in which every deallocation in range happens, the superblock and group counts drift from the numbers of clear bits by the deallocations of blocks that were clear, and by nothing else. |
| `BlockAllocator.DriftIsConstant` | src/drivers/ext2/allocator.c:106-159 | So the superblock's count keeps its distance from the clear bits if and only if those deallocations are a multiple of 2^32, and a group's if and only if those in it are a multiple of 2^16. |
| `BlockAllocator.ReleaseDrift` | src/drivers/ext2/allocator.c:137-159 | One deallocation keeps the distance if and only if the block was in use, and otherwise counts one too many. |
| `BlockAllocator.FreedTwice` | src/drivers/ext2/inode.c:653-697 | A block allocated and deallocated twice, as the freeing of nested index blocks does, leaves both counts one above the clear bits. |
| `BlockAllocator.Allocator.Serve` | src/drivers/ext2/allocator.c:69-159 | Any run of requests to the class is such a run, with its drift. |
| `BlockAllocator.WriteOneBitmap` | src/drivers/ext2/allocator.c:119-125 | Writing one group's bitmap block changes no other group's. |
| `Paging.AddressSpace.Map` | src/system/mm/pagination.c:78-116 | Succeeds exactly when there are as many free frames as directory entries without a table under the requested pages, and uses just those; the tables then stand for the old partial map plus the absent pages of the request; otherwise no frame is left, some requested page still has no table, and a prefix of the request is mapped. |
| `Paging.AddressSpace.MapOne` | src/system/mm/pagination.c:82-115 | One round adds the page exactly if it was absent, and fails exactly when its table is absent and no frame is left. |
| `Paging.LackingAre` | src/system/mm/pagination.c:86-100 | The entries a request needs tables for are those without one that one of its pages falls under. |
| `Paging.AddressSpace.Translate` | src/system/mm/pagination.c:125-143 | Frame address plus offset for a mapped page, NULL for any other. |
| `Paging.TranslateAddress` | src/system/mm/pagination.c:125-143 | Without a directory an address is its own translation. |
| `Paging.AddressSpace.constructor` | src/system/mm/pagination.c:118-123 | A cleared directory translates nothing. |
| `Paging.MapKeeps` | src/system/mm/pagination.c:78-116 | Mapping changes no translation there was. |
| `Paging.MapDomain` | src/system/mm/pagination.c:78-116 | Exactly the requested pages join those that translate. |
| `Paging.MapAdds` | src/system/mm/pagination.c:78-116 | A page that was absent gets the frame of its round, addresses wrapping at 4 GB. |
| `Paging.NewTable` | src/system/mm/pagination.c:90-100 | A new empty table changes no translation. |
| `Paging.SetEntry` | src/system/mm/pagination.c:114-114 | One entry written is one page of the partial map. |
| `Stack.Process.PageFault` | src/system/mm/stack.c:12-56 | Says for which faults the process is killed and why; any other grows the stack, unless frames for the tables it lacks run out, which four free ones rule out; a growth adds four pages, never beyond 256, keeps the stack contiguous and every translation, and makes a fault at an unmapped address of a mapped stack translate. |
| `Stack.GrowthIsContiguous` | src/system/mm/stack.c:48-51 | The grown stack has no gap up to its top and no translation changes. |
| `Stack.GrowthIsNew` | src/system/mm/stack.c:48-49 | A page below the stack that was unmapped gets its own part of the reserved memory. |
| `Div64.UInt64Div64` | src/library/div64.h:84-100 | Terminates with the mathematical quotient for every 64-bit dividend and non-zero divisor, although the shift wraps. |
| `Div64.UInt64Mod64` | src/library/div64.h:112-128 | Terminates with the mathematical remainder. |
| `Div64.Align` | src/library/div64.h:86-90 | The shifting loop ends with the divisor scaled by a power of two, more than half the dividend, and never past 64 bits. |
| `Div64.LongDivision` | src/library/div64.h:84-128 | Quotient and remainder come back together from the scaled divisor. |
| `Div64.Div32Exact` | src/library/div64.h:30-45 | uint64_div32 is the quotient modulo 2^32 for all dividends if and only if the divisor is at most 65536. |
| `Div64.Mod32Exact` | src/library/div64.h:57-72 | uint64_mod32 is the remainder for all dividends if and only if the divisor is at most 65536 or divides 2^48. |
| `Div64.SmallDivisor` | src/library/div64.h:30-72 | Both are right for every dividend and divisor up to 65536. |
| `Div64.LostCarry` | src/library/div64.h:30-72 | For every divisor above 65536 both give 0 on the dividend 2^48, whose true quotient is not 0. |
| `Div64.PowerDivisor` | src/library/div64.h:57-72 | The divisors of 2^48 are the powers of two. |

## Left out

- realloc and calloc: the grow-in-place test of realloc is inverted and nothing calls it; calloc is malloc and a loop of zeros.
- Heap.Heap.Malloc: requests and arenas are below 2 GB, as the comments of malloc.c ask; addresses do not wrap.
- Heap.Heap.InitMalloc: the status bit of the bin heads, which init_malloc never sets, is taken to be clear.
- Cache.Cache.CacheEvict: for one page only; with a larger minimum the loop reads a freed chunk and one call releases at most one page.
- Cache.Cache.CacheRead: the requested sectors lie in whole pages of the disk; a page that is cut off by the end of the disk cannot be read by the driver. A buffer left over from a refused read has unknown contents.
- Cache.Cache.FindChunk: getting memory for a chunk always succeeds, at the price of up to two evictions.
- FifoProtocol.StepKeeps: a new process gets its parent's descriptors one by one, each opened by the parent and then handed over.
- Fifo.Pipe.Open: the wait queues are sequences here; ProcessQueue proves that the linked queues behave like sequences. Creating the pipe always gets its memory.
- FileSystem.FileSystem.Rename: starts from resolved parent directories, with the write permissions of the caller as a set of inodes; final components are neither dot nor dot-dot; no I/O errors. What the processor does at the NULL access of a missing source is not modelled.
- FileSystem.FileSystem.FsMkdir: link counts are unbounded, where the disk has 16 bits; the inode number comes from outside and is unused.
- FileSystem.FileSystem.FsRmdir: sees a directory as a map, so it does not show the refusal of a directory with an emptied record; Directory.Directory.HoldsOnly, on records, does.
- BlockIndex.Files.AllocateDataBlock: free blocks are zero and nothing is deleted, since the code does not clear a new root index block and deletion frees nested index blocks twice; the block allocator is a set of free blocks here, and BlockAllocator models it bit by bit.
- BlockIndex.Files.ClearIndex: is called on blocks that are zero already, for the same reason; ClearWords shows that its loop clears any contents.
- Directory.Directory.Add: a record of which some bytes were written over counts as unreadable, whatever its other bytes say; directories are those this code makes, so that what a removed record leaves has a name.
- Directory.Directory.Find: names are not empty, and records without a file have no name, as this code leaves them.
- BlockAllocator.Allocator.AllocateBlock: groups and hint are valid, the group size is a multiple of 32, and block 0, where blocks are numbered from 0, is in use; a result of 0 could otherwise mean success.
- Bitmap.BitmapSet: a word is a sequence of 32 bits rather than an integer.
- PageAllocator.Allocator.FindPages: without the retry of allocPages after an eviction; the reservation list of a process is a sequence.
- Paging.AddressSpace.Map: frames for new tables come from a given list, and running out of them, a kernel panic, ends the call; the processor's translation caches are not modelled.
- Stack.Process.PageFault: the faulting address and the reserved memory are parameters.
- Blocking.BlockedIsDoubled: which process runs is not tied to which one blocks, so its runs include all those of the kernel; an exiting process names its parent, and the children it hands over are not modelled.
- Scheduler.EveryProcessRuns: for a fixed queue with fixed priorities and nobody blocked.
- The inode allocator: deallocation computes the wrong group for multiples of the group size, so it is no inverse.
- File contents over several blocks: middle reads use the wrong pointer and whole-block writes are not counted.
- The sleep list, the process tree, join_paths and the calendar: they do not do what they are meant to.
- Terminals, keyboard, shell, games, user files, boot, interrupts and devices: hardware and user interface.
- Round-robin scheduling, itoa and atoi: they hold nothing that is hard to see from the code.
