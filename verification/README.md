# xv6 with demand paging: a verified model

This Dafny project models the hard parts of an xv6 kernel extended with demand paging and
swapping, and proves what they promise.

- **Redo log over the buffer cache.** `Disk`, `LogSpec`, `Log`, `LogProtocol`, `Reservation`,
  `LogRefinement`, `BufferCache`, `CacheRefinement`. A disk is a sequence of blocks with atomic single-block writes; a
  crash keeps the disk and loses everything else. `Log` is the log as code, proved to make exactly the
  block writes that `LogSpec` reasons about; `LogProtocol` is the state machine of any number of
  processes, the commit, crashes and recoveries; `LogRefinement` proves that whatever the processes
  call, the code goes through a run of that machine, block write by block write. `CacheRefinement`
  proves that to any number of interleaved clients the cache is as good as one locked cell per block.
- **Inode content.** `Blocks` (bytes, words and bits in a block), `Ownership` (which slot of which
  inode owns which block), `FileContent` (what the bytes of a file are), `Capacity` (how many blocks
  the files take), `FileSystem` (the allocator,
  `bmap`, `itrunc`, `readi`, `writei`, `filewrite`). Blocks are what the buffer cache shows; the set
  `logged` is the set of block numbers the running operation has passed to `log_write`.
- **Paging.** `Replacement` (the four policies on the queue array), `Victims` (the policies as an abstract
  machine of queue, accessed bits and ages), `Paging` (one tracked process:
  `pagesDS`, both queues, the swap file, its frames), `PageTable` (the two-level table and who owns
  each frame), `Kalloc` (the linked free list). `Paging` sees the page table by page number, which is
  the flat view that `PageTable` proves its tables to be.
- **User-level heap.** `FreeList` (the circular list), `Tiling` (the partition into blocks), `Heap`.
- **Sleep locks and pipes.** `SleepLock` (interleaved steps of any number of processes), `Pipe`.
- **Shell parser and grep.** `ShellSpec` (tokens and grammar), `Shell` (the parser and `nulterminate`
  as code), `ShellLaws`, `ShellRoundTrip`; `ShellTokens`, `ShellLanguage` and `ShellAccepts` say, without the
  parser, which lines are sentences of the shell's language and what they mean, and prove that the parser
  agrees; `Grep`.

The main results are `LogSpec.CrashAtomicity`, `LogProtocol.RecoveredIsWhole`,
`Reservation.PanicFreeIff`, `LogRefinement.Serve`, `CacheRefinement.Run`, `Paging.Process.Execute`,
`Paging.Live`, `PageTable.AddressSpace.Life`, `Ownership.Partition`, `Capacity.Accounts`,
`FileSystem.FileSystem.Run`, `FileSystem.FileSystem.Filewrite`, `Heap.Heap.Run`, `SleepLock.NoLostWakeup`,
`SleepLock.CanAcquire`, `Pipe.Pipe.Interleave`, `ShellAccepts.AcceptsExactly`, `ShellAccepts.BriefRoundTrip`,
`ShellRoundTrip.ParseRenderParse` and `Grep.Match`. `Basics` and `Seqs` hold what several modules share.

Four promises of the source are not kept by its code, and the exact condition is proved instead.

- `param.h` allows an operation MAXOPBLOCKS (10) new blocks. On the 30-block log that `mkfs` makes,
  `log_write` can then panic: `Reservation.TenCanPanic` is the run, and `Reservation.PanicFreeIff`
  says that no run panics if and only if operations keep below MAXOPBLOCKS. A `filewrite` transaction
  logs at most 7 (`FileSystem.FileSystem.ChunkFits`).
- `malloc` hands sbrk a byte count that sbrk takes for a signed int. The block that `malloc` returns
  holds the request, within memory the process really has, if and only if `nbytes` is at most
  2^31 - 16 (`Heap.ServedIff`, and `Heap.Heap.Malloc` for every call, which also says exactly when it
  returns none). At 2^31 bytes sbrk is asked for a negative number; it grants nothing and reports
  success, and `malloc` hands out memory that is not there (`Heap.TwoGigabytes`, on a new heap of any
  process). At 2^32 - 1 the rounding wraps and the block is one unit (`Heap.RoundedToNothing`).
- A growth that fails should leave the process as it was. In a tracked process it keeps the contents
  and returns every frame, but the process's page records stay right if and only if the free list was
  empty at the call (`Paging.Process.Growproc`). Otherwise `pagesDS` and the queue keep
  pages that are gone (`Paging.Process.StaleIsInvalid`); 14 pages and one free frame, growing by two,
  is such a case (`Paging.FourteenAndTwo`), and `Paging.FailedGrowth` reaches one.
- A cache of NBUF (30) buffers is as large as the log, and `bget` panics when every buffer is
  referenced or dirty. It cannot while the referenced buffers and the pinned blocks are together fewer
  than NBUF (`BufferCache.Cache.Bget`); with 28 blocks logged, the third concurrent reader of other
  blocks panics (`BufferCache.Exhaust`).

Code under one lock is one method; where a C function is one long sequence of updates, the Dafny
method is split into steps that carry their own contracts (`CommitLog` and `InstallAndClear` of
`commit`, `MergeUp` and `MergeDown` of `free`, `PageOut` of `swapToFile`, `Fetch` and `PageIn` of the
page-fault handler, `WriteLoop` of `writei`). Where a C function works under its lock only part of
the time, the parts are methods too (`Guards` and `Append` of `log_write`, `Unlock` and `Drop` of
`brelse`). Integers are unbounded unless the width matters, and
then the wrap-around is written out. Panics are results.

## Model

| member | source | states |
|---|---|---|
| LogSpec.CrashAtomicity | log.c:69-122 | a commit stopped after any k of its block writes, then any number of interrupted recoveries and a complete one: outside the log the disk is all old if the header write was not reached and all new if it was, and the log is empty |
| LogSpec.RecoverAfterCrashes | log.c:115-122 | any number of interrupted recoveries followed by a complete one ends where one complete recovery would have |
| LogSpec.RecoverInstalls | log.c:69-82 | recovery puts the logged data in the home blocks, leaves every other home block alone and clears the header |
| LogSpec.RecoverResumes | log.c:115-122 | a recovery cut short at any write can be redone from the start with the same result |
| LogSpec.CommitBefore | log.c:177-202 | until the header is written the log is empty and the home blocks are old |
| LogSpec.CommitLogged | log.c:192-202 | from the header write to the erasure the log holds the whole transaction |
| LogSpec.CommitFinished | log.c:192-202 | a finished commit has every block home and an empty log |
| LogSpec.RecoverLogged | log.c:115-122 | a crash between the two header writes recovers to the whole transaction |
| LogSpec.RecoverExists | log.c:115-122 | from every crash point of a commit there is a recovery |
| Log.Log.WriteLog | log.c:177-190 | makes exactly the next writes of the commit: each logged block's cached contents to its log block |
| Log.Log.InstallTrans | log.c:69-82 | makes exactly the installing writes, in order, unpins exactly the logged blocks and leaves the header |
| Log.Log.ReadHead | log.c:84-96 | the in-memory list is the one the header lists |
| Log.Log.WriteHead | log.c:100-113 | the header block lists the in-memory list and is otherwise as before |
| Log.Log.Commit | log.c:192-202 | the traced writes are those of a commit of what readers see of the logged blocks, nothing is written if nothing is logged, and the list is empty afterwards |
| Log.Log.RecoverFromLog | log.c:115-122 | the traced writes are a complete recovery |
| Log.Log.constructor | log.c:53-66 | from any disk a crash can leave, booting ends with a recovered disk, an empty list and no operation |
| Log.Log.LogWrite | log.c:213-233 | which of the two panics occurs, and otherwise the block is listed once, where it was first, and pinned with its new contents |
| Log.Log.Append | log.c:222-232 | under the lock, with room in the list whenever the guards were tested: the block is listed once, where it was first, and pinned |
| Log.Absorb | log.c:222-230 | the list with b in it has no duplicates if it had none, has b, and keeps the others and their order |
| Log.Log.TryBeginOp | log.c:125-141 | an operation is admitted iff no commit runs and its reservation fits |
| Log.Log.EndOp | log.c:145-174 | the last operation out commits everything logged, any other only counts down, and the panic is exactly when a commit runs |
| Log.Log.LeaveOp | log.c:148-162 | the last operation out, and only it, shuts out new operations before the commit |
| LogProtocol.InvHolds | log.c:125-202 | in every run the counters agree with the processes, the contents of the durable and of the logged operations are what disk and cache hold, and a cut divides operations into wholly durable and not durable |
| LogProtocol.RecoveredIsWhole | log.c:125-202 | whenever a run is cut, every recovery of the disk gives the effect of the writes of exactly the operations before some cut, all of which had ended |
| LogProtocol.CanCrash | log.c:115-122 | at every point of every run the machine can crash and there is a complete recovery |
| LogProtocol.EndNeverPanics | log.c:151-154 | in no run does end_op find a commit in progress, and during a commit no operation is outstanding |
| LogProtocol.ReadersSeeLastWrite | log.c:213-233 | in every run, outside a recovery, a reader sees the last contents logged, even in the middle of a commit |
| Reservation.ReservationSound | log.c:125-141 | in every run the list and the unused budgets of the operations outstanding fit the log |
| Reservation.NineIsSafe | log.c:213-233 | with fewer than MAXOPBLOCKS new blocks per operation the guards of log_write never fire on a 30-block log |
| Reservation.TenCanPanic | log.c:218-219 | with MAXOPBLOCKS allowed there is a run in which log_write panics |
| Reservation.PanicFreeIff | param.h:10-13 | no run panics in log_write iff operations keep below MAXOPBLOCKS new blocks |
| LogRefinement.BeginOp | log.c:125-141 | begin_op on the code is the begin step of the protocol, admitted exactly when the protocol may |
| LogRefinement.LogWriteOp | log.c:213-233 | log_write on the code is the log-write step of the protocol, and panics exactly when the protocol says so |
| LogRefinement.EndOp | log.c:145-174 | end_op on the code is the end step and, for the last operation, every write of a commit and its end |
| LogRefinement.Serve | log.c:125-233 | from any disk a crash can leave, any calls by any number of processes in any order are a run of the protocol, each call answered by its own steps; the code ends in the state the run ends in; the writes to disk are those of the boot and of the run, and the disk after each of them is that of a state of the run; end_op never panics, and log_write only if operations may add MAXOPBLOCKS blocks |
| LogRefinement.CrashInCall | log.c:192-202 | cut after any single block write of such calls, also inside a commit, the disk recovers to the effect of exactly the operations before a cut |
| BufferCache.BuildRing | bio.c:38-56 | the ring is a listing of all buffers in both directions, last buffer first |
| BufferCache.RelinkLinks | bio.c:127-137 | the six assignments of brelse move the buffer to the front and keep the ring a listing of the same buffers in both directions |
| BufferCache.Cache.constructor | bio.c:38-56 | all buffers are free and belong to no device, and readers see the disk |
| BufferCache.Cache.Bget | bio.c:61-93 | the cached buffer, else the least recently released buffer that is neither referenced nor dirty, and the panic iff there is none, which there is while referenced buffers and pinned blocks are fewer than the buffers; no block of a device other than 0 is ever in two buffers |
| BufferCache.AllTaken | bio.c:77-92 | if every buffer is referenced or dirty, the referenced ones and the pinned blocks are at least as many as the buffers |
| BufferCache.Exhaust | bio.c:61-93 | for any number of buffers and of logged blocks, the run in which the next reader finds no buffer |
| BufferCache.Cache.Victim | bio.c:77-91 | no buffer that could be recycled was released earlier |
| BufferCache.Cache.Fill | bio.c:96-106 | the buffer holds the last contents logged or written, or the device refuses |
| BufferCache.Cache.Bwrite | bio.c:109-116 | the block is on disk and no longer pinned, or the panic for an unlocked buffer |
| BufferCache.Cache.MarkDirty | log.c:231 | the block is pinned with the buffer's contents, which are now the last logged |
| BufferCache.Cache.Brelse | bio.c:120-141 | the last release moves the buffer to the front of the ring, any other moves nothing, and the panic is for an unlocked buffer |
| BufferCache.Cache.Drop | bio.c:127-140 | the second stretch of brelse, after others may have locked the buffer again: a reference goes, and the buffer moves to the front iff it was the last |
| BufferCache.Cache.ViewIsLatest | bio.c:96-106 | disk and pinned blocks together show the last contents logged or written of every block |
| CacheRefinement.FreeIff | bio.c:61-75 | a client's buffer is unlocked iff no client has its block locked: a block is never in two buffers |
| CacheRefinement.Run | bio.c:61-141 | in every interleaving of bget, the lock, read, change, log_write or bwrite and the two stretches of brelse by any number of clients, every call is answered as by one locked cell per block, so that a read sees the contents last logged or written; the disk holds exactly what bwrite put there, and the blocks logged since are pinned; it ends early only at a bget with references and pins for all buffers, or at a read of a block no disk has |
| CacheRefinement.OneHolder | bio.c:8-14 | in every such run no two clients have one block locked |
| Blocks.EntrySet | fs.c:388-396 | writing one word of an indirect block leaves the others as they are |
| Blocks.BitSet | fs.c:67-70 | setting or clearing one bit of a byte leaves the others as they are |
| FileSystem.BitWritten | fs.c:81-96 | changing one bit of the bitmap changes that block's bit and no other |
| Ownership.Partition | fs.c:56-96 | a bit is set iff the block is metadata or some slot of some inode refers to it, and then exactly one slot does |
| Ownership.Filled | fs.c:373-401 | a free block put into an empty slot keeps the partition |
| Ownership.Emptied | fs.c:408-436 | a block given up by its slot was marked in use, and clearing its bit keeps the partition |
| FileSystem.FileSystem.constructor | fs.c:172-190 | an image with the partition and hole-free files is a valid state |
| FileSystem.FileSystem.Balloc | fs.c:56-78 | the first clear bit, a data block, set and zeroed; out of blocks iff every bit is set |
| FileSystem.FileSystem.Bfree | fs.c:81-96 | the bit is cleared, and the panic is exactly for a free block |
| FileSystem.FileSystem.Bmap | fs.c:373-401 | the block in the slot, found without any change if there is one, otherwise a zeroed new one, with only the slots it needs filled and no data block changed; every block it changes, the bitmap block of every bit it sets and the indirect block are logged; it finds no block only if the slots it lacks outnumber the clear bits; out of range iff bn is at least MAXFILE |
| FileSystem.FileSystem.Itrunc | fs.c:408-436 | every slot of the inode is empty, all its blocks are free, no other inode changes, no block is freed twice, and the bitmap block of every bit cleared and the block of the inode are logged |
| FileSystem.FileSystem.Readi | fs.c:453-477 | the slice of the file's bytes, or -1 for a range past the end or wrapping; nothing is allocated, logged or changed |
| FileSystem.FileSystem.WriteBlock | fs.c:499-505 | one block's worth of bytes overwrites or extends the file, every other file is unchanged and every block changed is logged; it finds no block only if the files would then take more than there are |
| FileContent.WriteStep | fs.c:499-505 | after mapping and patching a block, every file's bytes are what they were but for the range written, and no file has holes |
| Capacity.Accounts | fs.c:56-96 | the blocks that hole-free files need by their sizes, indirect blocks included, and the clear bits together are exactly the data blocks of the disk |
| Capacity.TooFew | fs.c:373-401 | if mapping the next block of a file lacks more slots than there are clear bits, the files with that block in would take more blocks than the disk has |
| FileSystem.OverfullNeeds | fs.c:482-512 | the files with src written would be too many blocks iff the slots the write adds to its file outnumber the clear bits, and never if it stays inside the file |
| FileSystem.FileSystem.Writei | fs.c:482-512 | src overwrites or extends the file and no other file changes, or it is refused for its range; it panics exactly if the files would then take more blocks than there are, never for a range inside the file; on return the logged inode is the in-memory one; exactly which blocks may and which must have been logged |
| FileSystem.FileSystem.ChunkFits | file.c:120-128 | a transaction of at most 1536 bytes, at any offset, logs at most 7 blocks when the bitmap is one block |
| FileSystem.FileSystem.Transaction | file.c:132-140 | one chunk is written whole or refused whole; its cost is the number of blocks logged, among them all it changed, and at most 7; it panics exactly if the chunk fits the file and not the disk |
| FileSystem.FileSystem.Filewrite | file.c:117-156 | whatever other processes do to the files between its transactions, the files and the bytes written are those of the chunks going in one by one until one does not fit; it panics exactly when one of the operations or chunks needs more blocks than there are; every transaction logs at most 7 blocks |
| FileSystem.FilewriteAlone | file.c:117-156 | with no other process, all of src is written, or -1 with exactly the chunks before the first that does not fit |
| FileSystem.FileSystem.Run | fs.c:408-512 | any sequence of reads, writes and truncations gives the results and the files that byte sequences would give; it panics exactly at the first write that fits its file but needs more blocks than there are, never at a read or a truncation |
| Replacement.FixQueue | proc.c:625-632 | the element is gone and the others close up, in order |
| Replacement.Insert | proc.c:742-751 | the element is added at the end |
| Replacement.RemoveAQ | proc.c:735-740 | the oldest element leaves |
| Replacement.RemoveNFUA | proc.c:685-698 | the first page of least age leaves |
| Replacement.RemoveLAPA | proc.c:700-733 | the first page with fewest access bits, ties by signed age, leaves |
| Replacement.SecondChanceTakes | proc.c:634-683 | second chance takes one page of the queue and keeps the others |
| Replacement.RemoveSCFIFO | proc.c:634-683 | same victim, same remaining order and same cleared bits as popping the head, clearing and requeueing it while it was accessed, also when all were |
| Victims.ChosenOnce | vm.c:437-456 | in every state each policy has one victim |
| Victims.PickChosen | vm.c:437-456 | in every state with a resident page each policy has a victim |
| Paging.Process.constructor | proc.c:118-142 | a new process has no page, all frames are free and the invariant holds; its pager is the policy's first: an empty queue, no page accessed, every age 0xFFFFFFFF under LAPA and 0 otherwise |
| Paging.ChooseVictim | vm.c:437-456 | the victim, the queue left and the accessed bits left are those of the policy compiled in, and one element leaves the queue |
| Paging.Process.SelectPage | vm.c:437-456 | the policy's victim, a resident page, leaves the queue and its address is returned |
| Paging.Process.GetFreeFileOffset | proc.c:786-826 | the recycled offset if there is one, else the end of the swap file, which grows by a page |
| Paging.Process.SwapToFile | vm.c:458-487 | the policy's victim goes to the swap file, at an offset with the whole page inside the file size that writei accepts, and its frame to the free list; no page's contents change; the victim's accessed bit is left set, by the kernel's own read of the page: an eviction of the abstract pager |
| Paging.Process.PageFault | trap.c:83-133 | a paged-out page becomes resident and no page's contents change; it has no memory exactly when others take the frames, and the page then stays paged out, to be read back by a later fault; outside the process it panics or has no memory |
| Paging.Process.Allocuvm | vm.c:221-281 | zeroed pages up to newsz, succeeding iff the free list covers the growth of the resident set; after a failure the contents and the number of free frames are as before, and the page records too iff no frame was free |
| Paging.Process.Deallocuvm | vm.c:287-327 | on the failure path the new pages are unmapped and their frames freed, while pagesDS and the queue keep them |
| Paging.Process.StaleIsInvalid | vm.c:244 | after such a failure some slot is recorded as allocated and resident whose page is neither mapped nor swapped out |
| Paging.Process.Growproc | proc.c:188-207 | growth extends the memory by zero pages, and fails exactly when there are too few frames; a failure changes neither size nor contents nor the number of free frames, and keeps the invariant iff no frame was free |
| Paging.FourteenAndTwo | proc.c:188-207 | 14 pages growing by two break the records with one free frame, and neither with none nor with two |
| Paging.FailedGrowth | vm.c:241-246 | a process in which a failed growth has left stale records |
| Paging.Process.AgePages | proc.c:753-767 | every allocated page's age is halved with its accessed bit on top, the bit is cleared, and other slots are untouched |
| Paging.Process.SwapFile | proc.c:786-826 | used and free offsets partition the swap file in page steps, at most one is free, and the file has at most 17 pages, fewer bytes than a file may have |
| Paging.Process.Counters | trap.c:91-99 | exactly min(16, pages) pages are resident, the queue has each once, and numberOfPagedOut counts the others |
| Paging.Process.Execute | trap.c:83-133 | every run of loads, stores, growth and ticks among other processes, which take and free frames between its instructions and during its faults, sees and leaves what a flat memory would, whichever policy picks the victims and whichever growths fail; queue, accessed bits and ages go through exactly the states of the policy's abstract pager; where nobody else touches the free list no frame is lost; it stops only at an action outside the process, at a growth that breaks the page records, which a caller can tell from the size and the number of frames, or at an access that waits for a frame |
| Paging.Process.Touch | trap.c:99-104 | an access whose faults find no frame is tried again and ends with the page resident and its accessed bit set, or waits with none free, the others having freed none before its last turn; contents do not change; the pager takes one access step, evicting at most one page, the policy's |
| Paging.Process.Age | proc.c:427-431 | when the process leaves the processor its pages are aged under NFUA and LAPA, and nothing the policy sees changes under the others |
| Paging.TracksOnce | vm.c:437-456 | which pages are resident after each action, and so every victim, is determined by the policy, the actions and the growths that found frames |
| Paging.Live | proc.c:118-142 | from allocproc on, every run goes through the states of the policy's pager, started with its first ages, and the resident pages are those in its queue |
| Kalloc.Kmem.constructor | kalloc.c:30-53 | every frame in the range is on the free list once |
| Kalloc.Kmem.Kfree | kalloc.c:59-77 | the frame goes to the head of the linked list, or the panic for a frame out of range |
| Kalloc.Kmem.Kalloc | kalloc.c:82-95 | the head of the list comes off, 0 iff it is empty |
| PageTable.AddressSpace.constructor | vm.c:118-126 | an empty directory in a frame of its own |
| PageTable.AddressSpace.WalkPgdir | vm.c:35-55 | the page's table, made if asked for and frames are left; no entry changes |
| PageTable.AddressSpace.MapPages | vm.c:60-80 | on success the pages map to consecutive frames and no other entry changes; it fails only for want of a table and panics only at a page already present; exactly the frames mapped change hands, all others held stay held |
| PageTable.Skip | vm.c:296-299 | where a directory entry is empty there is no mapped page to skip over |
| PageTable.AddressSpace.Deallocuvm | vm.c:287-327 | no page in the range stays present, exactly the frames of its present pages are freed, the stale address of a paged-out page is not, and nothing else changes |
| PageTable.AddressSpace.Allocuvm | vm.c:221-281 | every page in the range is present, or all entries are as before and no frame is lost; it succeeds if two frames per page are free |
| PageTable.AddressSpace.SwapOut | vm.c:478-483 | the entry is marked paged out with its stale address and the frame is freed, once; the frames others hold stay theirs |
| PageTable.AddressSpace.SwapIn | trap.c:114-122 | the entry is present in a new frame, the stale address gone; it fails only if no frame is free; the frames others hold stay theirs |
| PageTable.AddressSpace.Freevm | vm.c:331-346 | every frame not held by someone else is on the free list, exactly once |
| PageTable.AddressSpace.Life | vm.c:221-346 | after any run of growing, shrinking, swapping out and swapping in, freevm leaves every frame that nobody else holds on the free list, exactly once |
| PageTable.AddressSpace.Steps | vm.c:221-327 | after any such run the size of the process, and which pages are in memory, in the file or absent, are what the steps granted make of an empty process |
| PageTable.AddressSpace.Live | vm.c:221-327 | one step changes exactly the pages it names, and is refused only for want of frames or as a growth that is none or is too large |
| Heap.ServedIff | umalloc.c:46-69 | the rounded size holds the request and sbrk is asked for all of it iff nbytes is at most 2^31 - 16; above, up to 2^32 - 8, sbrk is asked for nothing or a negative number, and above that the rounding wraps to one unit |
| Heap.TwoGigabytes | umalloc.c:54 | on a new heap malloc of 2^31 bytes returns a block that is not in memory the process has, the rounding being right and sbrk asked for a negative number |
| Heap.RoundedToNothing | umalloc.c:69 | on a new heap malloc of 2^32 - 1 bytes returns a block of one unit |
| Heap.Heap.Search | umalloc.c:24-32 | the search ends at the free block after which b belongs in address order |
| Heap.Heap.Free | umalloc.c:24-44 | b is no longer live and lies in a free block; the invariant holds and no unit is lost |
| Heap.Heap.Sbrk | sysproc.c:52-64 | a positive argument extends the process by exactly that much or fails; a negative one shrinks it by that much, or does nothing when that is more than its size, or fails when it is its size |
| Heap.Heap.MoreCore | umalloc.c:46-61 | exactly when sbrk reports failure it fails, and the list is as it was, though a byte count of minus the size has cost the process all its memory; otherwise a block large enough joins the list, its units the ones sbrk granted iff the byte count is a positive int |
| Heap.Heap.Carve | umalloc.c:73-83 | a block of exactly n units that was not live becomes live |
| Heap.Heap.Find | umalloc.c:74-89 | the search: at most one call of sbrk, and only if no free block fits; fails exactly if none fits and sbrk reports failure |
| Heap.Heap.Malloc | umalloc.c:63-90 | at most one call of sbrk and only if no free block fits; fails exactly if none fits and sbrk reports failure; otherwise a new live block of the rounded size, every other live block as before, and the request inside memory obtained iff nbytes is at most 2^31 - 16 |
| Heap.UnitsPartitioned | umalloc.c:16-22 | free and live blocks partition exactly the units between the heap's start and the break |
| Heap.OneWrap | umalloc.c:29-32 | the list goes up in address order with a gap after every block, and wraps once, to base |
| Heap.Heap.Run | umalloc.c:24-90 | in any sequence of malloc and free the blocks held are those malloc gave and free did not take, malloc gives none that is held and refuses only where sbrk fails; afterwards the invariant holds, the heap's units are exactly those between its start and the break, and the live blocks are exactly those held, each of its rounded size and holding its request; the run ends early only at a request that sbrk misreads |
| SleepLock.InvHolds | proc.c:501-558 | the invariant of locks, lock holders and sleepers holds in every run of any number of processes |
| SleepLock.MutualExclusion | sleeplock.c:22-42 | at most one process is between acquiresleep and releasesleep, and it is the recorded owner |
| SleepLock.NoLostWakeup | proc.c:501-558 | if the lock is free while a process sleeps on it, a releaser is still inside wakeup |
| SleepLock.ReturnsWithLock | sleeplock.c:22-42 | in every run a process leaves acquiresleep only as the owner of the lock, and leaves releasesleep only without it |
| SleepLock.GoesOn | proc.c:501-558 | in every state of every run a process that neither sleeps nor spins on a held spin lock has a step |
| SleepLock.WaitsForOthers | proc.c:563-581 | a process that sleeps or spins has no step, except that kill wakes a sleeper while nobody holds ptable.lock |
| SleepLock.SomeoneMoves | proc.c:501-558 | in every state of every run some process has a step: there is no deadlock |
| SleepLock.CanAcquire | sleeplock.c:22-42 | from every state of every run, each process inside acquiresleep can still get the lock |
| SleepLock.Ptable.Wakeup1 | proc.c:541-549 | exactly the processes sleeping on the channel become runnable |
| Pipe.IndexOf | pipe.c:93 | wrapping counters index the same cell as unbounded ones |
| Pipe.CountersTell | pipe.c:84 | wrapping counters tell empty and full apart |
| Pipe.Pipe.constructor | pipe.c:22-57 | an empty pipe, open at both ends |
| Pipe.Pipe.Write | pipe.c:78-98 | the next bytes of addr are accepted in order; it sleeps or fails only when the pipe is full |
| Pipe.Pipe.Read | pipe.c:100-121 | the oldest bytes are delivered in order, fewer than asked only if there are no more, none only if there is no writer |
| Pipe.Pipe.Close | pipe.c:59-75 | one end is closed, and the pipe is to be freed iff both are |
| Pipe.Pipe.Interleave | pipe.c:78-121 | in every interleaving of writers, readers and closes the pipe is a queue of PIPESIZE bytes that each writer fills and each reader empties as far as it can; the bytes got are a prefix of those accepted, each writer's bytes were accepted in its order, and at most PIPESIZE are in flight |
| Shell.GetToken | sh.c:269-312 | the token's kind and span and the position after it are those of the token grammar |
| Shell.Peek | sh.c:314-324 | whether one of the characters comes next, past white space |
| Shell.ReadRedirs | sh.c:378-401 | equals the grammar's redirections, whose meaning ShellLanguage.SentenceParses states: > and >> are for writing, < for reading, each over the command read so far |
| Shell.ReadExec | sh.c:419-450 | equals the grammar's simple command or block |
| Shell.ReadArg | sh.c:431-445 | one word with its redirections, or the end or error, as the grammar has it; the words end exactly before a bar, a closing parenthesis, an ampersand or a semicolon (ShellAccepts.AcceptsExactly) |
| Shell.ReadBlock | sh.c:403-417 | equals the grammar's parenthesised command |
| Shell.ReadPipe | sh.c:365-376 | equals the grammar's pipeline |
| Shell.ReadLine | sh.c:348-363 | equals the grammar's line, and ends |
| ShellLaws.LineGood | sh.c:331-450 | every word of a parsed line is a maximal run of word characters of the text, and no command has ten |
| Shell.NulTerminate | sh.c:453-497 | a NUL follows every word and no character of any word is overwritten |
| ShellLaws.StringsKept | sh.c:453-497 | after it every argv and file string, read as a C string, is its word |
| Shell.ParseCommand | sh.c:331-346 | the tree or error of the grammar, for every NUL-terminated line, which are those ShellAccepts.AcceptsExactly describes without the parser; on success all its strings are its words, on error the buffer is unchanged |
| ShellRoundTrip.RoundTrip | sh.c:331-450 | every well-formed tree, written out with parentheses, parses to itself |
| ShellRoundTrip.TreeIsWellFormed | sh.c:331-450 | every tree the parser yields is well formed |
| ShellRoundTrip.ParseRenderParse | sh.c:331-450 | whatever NUL-free line was parsed, the canonical text of its tree parses to the same tree |
| ShellTokens.SpacedReads | sh.c:269-312 | tokens written one after another, with white space wherever two would run together and anywhere else, are read back as those tokens |
| ShellAccepts.EveryTextReads | sh.c:269-312 | every NUL-free line is some sequence of tokens |
| ShellLanguage.SentenceParses | sh.c:331-450 | the text of every sentence (lists, pipelines, background marks, blocks, words and redirections in any order) parses, to its meaning: pipelines and lists nest to the right, & marks what stands before it, argv is the words in order, and redirections apply inside out |
| ShellAccepts.AcceptsExactly | sh.c:331-450 | a NUL-free line parses if and only if its tokens are those of a sentence of at most nine words a command, and then to the meaning of that sentence |
| ShellAccepts.SpacedParses | sh.c:331-450 | every sentence, however spaced, parses to its meaning |
| ShellAccepts.BriefRoundTrip | sh.c:331-450 | every tree the parser can yield, written with parentheses only where the grammar needs them, parses to itself |
| Grep.MatchCons | grep.c:85-96 | the first item takes a stretch of text and the rest match from its end |
| Grep.MatchHere | grep.c:84-96 | true iff the pattern's items divide a stretch of text that starts there |
| Grep.MatchStar | grep.c:98-106 | true iff some number of the character, then the rest, match there |
| Grep.Match | grep.c:71-82 | true iff some stretch of the text, from its start if the pattern begins with ^, satisfies the pattern |

## Left out

- Boot, assembly, segments, interrupts other than the page fault, and device input and output: hardware. Only an abstract disk and an accessed bit remain.
- Path lookup, directories, the system call layer, printing and the small user programs: thin or easy.
- `fork`'s copying of the swap file, and `exec` growing past 16 pages: the first copies slots by count and the second swaps from the old address space, so neither keeps the contents.
- `advanceQueue`: its loop never runs, so the AQ policy is first in, first out.
- The translation buffer: an access always sets the page's accessed bit, also just after the kernel cleared it.
- Page permissions across a swap: swap-in always maps writable user pages.
- A page fault on a page that is present (a protection fault): the handler would treat it as paged out.
- Shrinking a tracked process: `deallocatePage` does not adjust the counters.
- `copyuvm` and its failure path.
- What a tracked process does after a failed growth has left its page records stale: the next faults and evictions act on pages that are gone.
- Page tables and `mappages` failing for want of one in `Paging`: there every frame is a user page's; `PageTable` has the tables.
- Device inodes in `readi` and `writei`, file descriptors, `fileread`, and grep's line buffering.
- `mkfs`: the model starts from an image that satisfies the invariants.
- The byte layout of a disk inode within its block: inodes are stored as records.
- The text of a page is one abstract value, so a store replaces a page as a whole, and `writeToSwapFile` and `readFromSwapFile` move a page at once.
- `totalNumberOfPagedOut` and `numberOfPageFaults`: statistics.
- The parser's nodes are values: a word stored in the exec node inside its redirections is a rebuilt tree, not an update in place.
- Spin locks: a stretch of code under one is atomic; only the sleep lock is modelled step by step.
- LogRefinement.Serve: the guards of log_write and the append are one call, though the source tests the guards before it takes the lock; Reservation.NineIsSafe says that below MAXOPBLOCKS they fire in no state, so that it does not matter when they are tested.
- FileSystem.FileSystem.Filewrite: no other process uses the same struct file, whose offset it would move.
- Heap.Heap.MoreCore: writing the header of a block that sbrk did not grant may trap; the model goes on, as the source would where the page is mapped.
- Heap.Heap.Run: the program calls sbrk only through malloc.
- PageTable.AddressSpace.Allocuvm: the bound of two frames per page is sufficient and not exact, because how many tables are needed depends on the directory.
- Reservation.PanicFreeIff: stated for three processes and a disk with enough blocks; that fewer than MAXOPBLOCKS is safe is proved for any number in Reservation.NineIsSafe.
- FileSystem.FileSystem.Run: ends at the first write the disk has no room for, where the source panics and the kernel halts.
