# xv6 storage, memory and processes, verified

A model in Dafny of the core of the xv6 kernel for RISC-V and of three programs that ship
with it, with proofs of what the code is for. Check everything with
`dafny verify dfyconfig.toml`.

| files | what they are about |
|---|---|
| RedoLog, LogProtocol, LogTheorems, LogSpace | the write-ahead log over the buffer cache: crash atomicity, every interleaving of operations, commits, crashes and recoveries, log space |
| BufferCache, LogCode, BufferShortage | the same as code: the LRU ring of buffers, and log.c on top of it, whose block writes are those of the crash theorems; when a commit finds no buffer |
| FsBlocks, FsState, FsCode, Mkfs | the inode layer: free map, block maps, reading and writing as a flat file, filewrite's chunks, and the image that mkfs builds |
| FsOnDisk | the inode layer as the words of the log's disk, and its consistency after any crash |
| Links, LinksCode, Dirents | directories, link counts, and entries as bytes of a file |
| Kalloc, PageTable, VmState, VmCode | the page allocator, Sv39 page tables as maps, frame conservation and rollback, copies to and from user memory |
| Virtio | the disk driver and its device |
| Proc, Pipe, ReadersWriters | fork, exit and wait; pipes; the readers and writers monitor |
| Umalloc, Grep | the heap allocator, the pattern matcher |
| Shell, ShellGrammar, ShellCode | the shell's parser: on token lists, the language it accepts, and on characters in a buffer |
| Pigeonhole | counting distinct things |

The model follows the code. Objects that the code updates in place are classes whose fields
the methods update; a ghost part says what the fields stand for. Protocols of several
processes are state machines whose steps are the stretches of code between two lock
operations, in any order. Some conventions: the device is ROOTDEV; one block write is atomic;
a crash loses memory between any two block writes; a block of the log is 256 words, a block of
a file 1024 bytes; panics are outcomes, or asserts where they are proved out of reach; what
sbrk, user memory or a full disk may do is a parameter.

The main results, which the rest leads up to:

- the log: CrashConsistency, InvariantAfterCrash with ConsistentAfterCrash, GroupCommit,
  ReadLastWrite, LastEndCommits with CommitTakes and EndedIsDurable, LogWriteHasRoom with
  WholeBudgetOverflows; and of its code CommitAtomicUnderCrashes, Log.Commit and Log.EndOp,
  with NoneUnused and CommitWithoutBuffers;
- files: Disk.Readi, Disk.Writei, Disk.Filewrite and Disk.Itrunc over Owned, Image.Iappend and
  Mount, Files.Unlink, Files.Create and Files.LinkEnd over the link-count invariant;
- memory: Memory.Uvmcopy and Uvmalloc with CopiedMemory and NewMemory, Uvmfree, Copyout, Copyin
  and Copyinstr over Tree and Users, Heap.Malloc and Heap.Free;
- processes and devices: NobodyWaitsForAZombie, WaitOver, Lifecycle, TreeUnderInit, ReapedOnce,
  LetsGo, ForkedChild, KilledExactly, Pipe.Write and Pipe.Receive, OncePerRequest;
- programs: Parser.Parsecmd with ParseIff and RoundTrip, Matchhere and Match.

Things the proofs brought out:

- begin_op reserves MAXOPBLOCKS log blocks for an operation, but log_write refuses the last
  block of a log of LOGSIZE blocks, whose first block is the header. Operations that stay
  within MAXOPBLOCKS - 1 blocks never overflow the log; three operations that use the whole
  budget do. A chunk of filewrite uses at most 7.
- commit keeps every logged block pinned and needs one more buffer. It finds one exactly if
  fewer than NBUF blocks are referred to (NoneUnused, Log.Commit). LOGSIZE and NBUF are both 30,
  so with the 29 blocks that the log of mkfs holds, one block of a process outside the
  transaction is enough for a panic; the disk is still as it was (CommitWithoutBuffers).
- mkfs rounds the root directory's size up to the next multiple of the block size. If the size
  already was one, the directory ends with a block that is not there. readi allocates it if an
  operation is open; the inode that now has its address is not written back. fileread opens no
  operation, and if none is open in any process, log_write panics (FullRoot, ReadFullRoot, Readi).
- If writei cannot copy a byte from the user, the bytes before it in the same block are in the
  block's buffer all the same. They are not counted and not passed to log_write, so unless the
  block is in the log already nothing keeps the buffer until they are on the disk (Writei,
  UnloggedChange).
- create and sys_link do not test that the directory they enter a name in still has links. If
  it was removed while it was somebody's working directory, link counts and entries part: that
  is so exactly if it has no links (EnterKeepsIff, MakeKeepsIff, MakeDirKeepsIff).
- A writer that is killed in the middle of pipewrite returns without waking the readers. If it
  has stored a byte and a reader is asleep, that reader sleeps on beside a pipe that is not
  empty (Pipe.Write says exactly when, LostWakeup is such a case).
- If a copy to the user fails in piperead, that byte is gone from the pipe without being counted
  (Pipe.Receive, LostByte).
- kill(0) sets the killed flag of an unused slot, and allocproc does not clear it: the next
  process in that slot is killed from birth, and only such a one is (BornKilled, BornKilledRun).

## Model

| member | source | states |
|---|---|---|
| RedoLog.HeadRoundTrip | xv6-riscv/kernel/log.c:85-114 | the block list that write_head puts in the header is the one read_head finds there |
| RedoLog.RecoverAt | xv6-riscv/kernel/log.c:68-123 | what recovery makes of each block: the log copy for a home block in the header, an emptied header, the old contents anywhere else |
| RedoLog.RecoverSame | xv6-riscv/kernel/log.c:68-123 | recovery depends only on the log and on blocks that are not about to be overwritten |
| RedoLog.CrashInRecovery | xv6-riscv/kernel/log.c:116-123 | recovery that stops after any number of its block writes and is started again ends on the same disk: install_trans is idempotent |
| RedoLog.AnyNumberOfCrashes | xv6-riscv/kernel/log.c:116-123 | the same for recovery that crashes and restarts any number of times, at any writes |
| RedoLog.CommitAtomic | xv6-riscv/kernel/log.c:178-203 | after a crash at any block write of commit, recovery leaves every home block as before the transaction, or every one as after it; which of the two turns on the header write alone |
| RedoLog.CommitAtomicUnderCrashes | xv6-riscv/kernel/log.c:178-203 | crash atomicity of commit when recovery may itself crash any number of times |
| LogProtocol.KeepBeginOp | xv6-riscv/kernel/log.c:125-142 | begin_op keeps the invariant: the blocks in the log and the unused budgets of open operations never exceed LOGSIZE |
| LogProtocol.KeepLogWrite | xv6-riscv/kernel/log.c:214-235 | log_write keeps it: absorbed or pinned, each block is in the header once |
| LogProtocol.KeepEndOp | xv6-riscv/kernel/log.c:146-164 | end_op keeps it, and starts a commit only when no operation is open |
| LogProtocol.KeepCommitLog | xv6-riscv/kernel/log.c:178-191 | each write of write_log keeps it: the log area is the only part of the disk that changes |
| LogProtocol.KeepCommitHead | xv6-riscv/kernel/log.c:193-199 | the header write keeps it: from here on recovery yields the logged blocks |
| LogProtocol.KeepCommitInstall | xv6-riscv/kernel/log.c:68-83 | each write of install_trans keeps it, and unpins a block only once its home block is up to date |
| LogProtocol.KeepCommitClear | xv6-riscv/kernel/log.c:199-202 | the write that empties the header keeps it |
| LogProtocol.KeepRecoverInstall | xv6-riscv/kernel/log.c:68-83 | each write of install_trans in recovery keeps it |
| LogProtocol.KeepRecoverClear | xv6-riscv/kernel/log.c:116-123 | the end of recovery keeps it |
| LogProtocol.KeepGet | xv6-riscv/kernel/bio.c:58-89 | finding or taking a buffer for a block keeps the invariant: one buffer per block, and a valid unlocked unpinned buffer equals the disk |
| LogProtocol.KeepModify | xv6-riscv/kernel/bio.c:91-112 | changing a locked buffer keeps it |
| LogProtocol.KeepRelease | xv6-riscv/kernel/bio.c:114-137 | brelse keeps it for clients that have passed every changed buffer to log_write |
| LogProtocol.KeepRecycle | xv6-riscv/kernel/bio.c:75-87 | LRU recycling keeps it: a buffer that nobody refers to holds nothing the disk does not |
| LogProtocol.KeepInv | xv6-riscv/kernel/log.c:125-235 | every step of every process, of commit, of a crash and of recovery keeps the whole invariant |
| LogTheorems.LogicalUnchanged | xv6-riscv/kernel/log.c:178-203 | no step but a client's change to a locked buffer changes what reading a block would give, commit and recycling included |
| LogTheorems.RecoveredUnchanged | xv6-riscv/kernel/log.c:178-203 | no step but the header write of commit changes what recovery would leave behind |
| LogTheorems.CommitPointStep | xv6-riscv/kernel/log.c:193-199 | the header write changes what recovery leaves behind to exactly what processes see |
| LogTheorems.QuietIsDurable | xv6-riscv/kernel/log.c:193-203 | when no operation is open and nothing is logged, a crash loses nothing |
| LogTheorems.RunInv | xv6-riscv/kernel/log.c:125-235 | the invariant holds in every state of every run |
| LogTheorems.CrashConsistency | xv6-riscv/kernel/log.c:99-123 | over every run, what recovery would leave behind is what processes saw at the last commit point, or at the start |
| LogTheorems.SeenUntilModified | xv6-riscv/kernel/bio.c:58-151 | over every run without a crash, a block reads the same until a client changes it, however often it is evicted, logged, committed and reread |
| LogTheorems.ReadLastWrite | xv6-riscv/kernel/bio.c:58-151 | over every run without a crash, a process that gets hold of a block sees the last value written to it through the cache |
| LogTheorems.LoggedUntilCleared | xv6-riscv/kernel/log.c:214-235 | a logged block stays in the header until the transaction has been installed |
| LogTheorems.LoggedExactly | xv6-riscv/kernel/log.c:214-235 | in every running state the in-memory header lists exactly the blocks passed to log_write since it was last cleared |
| LogTheorems.GroupCommit | xv6-riscv/kernel/log.c:144-203 | the transaction that a header write commits is exactly the blocks logged since the last commit, each once, by operations that have all ended |
| LogTheorems.CommitProgress | xv6-riscv/kernel/log.c:193-203 | the next step of a commit is enabled unless another process holds the lock of the home block that it reads or writes |
| LogTheorems.CommitAdvances | xv6-riscv/kernel/log.c:125-203 | no step of another process sets a commit back, and each of its own brings it one nearer its end |
| LogTheorems.CommitTakes | xv6-riscv/kernel/log.c:177-203 | a commit of n blocks is over after exactly 2n + 3 steps of its own, whatever other processes do meanwhile |
| LogTheorems.LastEndCommits | xv6-riscv/kernel/log.c:144-175 | in any run, end_op starts a commit exactly if no other operation is open, and then of all that is logged |
| LogTheorems.EndedIsDurable | xv6-riscv/kernel/log.c:144-203 | when that commit is over, recovery would leave every home block as processes saw it when the last operation ended |
| LogSpace.LogWriteHasRoom | xv6-riscv/kernel/log.c:219-221 | with log.size equal to LOGSIZE and at most MAXOPBLOCKS - 1 distinct blocks an operation, over every run log_write never panics as too big |
| LogSpace.WholeBudgetOverflows | xv6-riscv/kernel/log.c:126-142 | with the whole budget of MAXOPBLOCKS blocks it does panic: a run of three operations that each stay within their budget |
| BufferCache.UnlinkKeepsList | xv6-riscv/kernel/bio.c:128-129 | taking a buffer out of the doubly linked ring leaves a ring of the others in the same order |
| BufferCache.LinkFirstKeepsList | xv6-riscv/kernel/bio.c:130-133 | putting it behind head makes it the most recently used and keeps the order of the others |
| BufferCache.Bcache.constructor | xv6-riscv/kernel/bio.c:36-53 | binit: a ring of all NBUF buffers, none of them in use |
| BufferCache.Bcache.FindCached | xv6-riscv/kernel/bio.c:65-73 | the first scan finds the buffer of the block, or none if the block is not cached |
| BufferCache.Bcache.FindUnused | xv6-riscv/kernel/bio.c:75-87 | the second scan finds the least recently used buffer that nobody refers to, and none exactly if all NBUF are referred to, where bget panics |
| BufferCache.Bcache.Bget | xv6-riscv/kernel/bio.c:58-89 | the block has exactly one buffer, referred to once more, and no contents are lost by the recycling |
| BufferCache.Bcache.Bread | xv6-riscv/kernel/bio.c:91-103 | the buffer is locked and holds the current contents of the block; none, where bget panics, exactly if nobody refers to the block and NBUF blocks are referred to |
| BufferCache.Bcache.Bwrite | xv6-riscv/kernel/bio.c:105-112 | one block write of the current contents, which goes on the record of writes |
| BufferCache.Bcache.Brelse | xv6-riscv/kernel/bio.c:114-137 | one reference fewer; a buffer nobody refers to moves to the front of the ring |
| BufferCache.Bcache.Bpin | xv6-riscv/kernel/bio.c:139-144 | one reference more, and nothing else |
| BufferCache.Bcache.Bunpin | xv6-riscv/kernel/bio.c:146-151 | one reference fewer, and nothing else |
| BufferCache.NoneUnused | xv6-riscv/kernel/bio.c:75-88 | bget finds no buffer to recycle exactly if NBUF different blocks are referred to |
| LogCode.CommitJoins | xv6-riscv/kernel/log.c:178-203 | the block writes of write_log, write_head, install_trans and write_head again are, one by one, the crash points of the atomicity theorem |
| LogCode.RecoveryJoins | xv6-riscv/kernel/log.c:116-123 | the block writes of recover_from_log are those of the crash-tolerant recovery, and so is the disk they end on |
| LogCode.CommitCodeAtomic | xv6-riscv/kernel/log.c:178-203 | a crash after any write that the code of commit makes, followed by any crashes in recovery, is all or nothing |
| LogCode.EndsCleared | xv6-riscv/kernel/log.c:199-202 | commit and recovery end with a valid and empty log on disk |
| LogCode.PinsMore | xv6-riscv/kernel/log.c:226-231 | the bpin of a newly logged block keeps the account of pins and of other references |
| LogCode.Log.FillHead | xv6-riscv/kernel/log.c:107-111 | the loop over the header buffer writes the encoding of the block list |
| LogCode.Log.WriteHead | xv6-riscv/kernel/log.c:99-114 | one block write, of the header that lists the logged blocks |
| LogCode.Log.WriteLog | xv6-riscv/kernel/log.c:177-191 | the slots of the log get the cached contents of the logged blocks, one block write each, in order, beside any references and locks of other processes to other blocks; its first bread panics, with nothing written, exactly if NBUF blocks are referred to |
| LogCode.Log.InstallTrans | xv6-riscv/kernel/log.c:67-83 | the home blocks get what the slots hold, one block write each, in order; a commit leaves nothing pinned, and other references are as before |
| LogCode.Log.ReadHead | xv6-riscv/kernel/log.c:85-97 | the in-memory list is that of the header on disk |
| LogCode.Log.RecoverFromLog | xv6-riscv/kernel/log.c:116-123 | the disk is the recovered one, with an empty log, reached by exactly the writes of the crash theorem |
| LogCode.Log.Commit | xv6-riscv/kernel/log.c:193-203 | from an empty log to an empty log by exactly the writes of the crash theorem, each of them a safe point to crash; it panics for want of a buffer exactly if something is logged and NBUF blocks are referred to at its start, and then the disk is as it was |
| LogCode.Log.LogWrite | xv6-riscv/kernel/log.c:214-235 | the block is in the list once and pinned once; each of the two panics exactly on its condition; the log on disk stays empty; and what the log has reserved still covers what open operations have left |
| LogCode.Log.TryBeginOp | xv6-riscv/kernel/log.c:128-142 | admitted exactly if no commit is under way and the log has room for one more whole budget; then the log has room for all that the open operations may still write, whatever they have written |
| LogCode.Log.EndOp | xv6-riscv/kernel/log.c:146-175 | commits exactly if this was the last open operation, crash-atomically or with the panic of commit; the log on disk is empty before and after, and the reservation of the others stands |
| BufferShortage.CommitWithoutBuffers | xv6-riscv/kernel/log.c:178-203 | a commit does panic for want of a buffer: three operations within their budgets have filled the log, and a process outside them has read one block |
| Umalloc.Units | xv6-riscv/user/umalloc.c:69 | a block of so many units has room for nbytes after its header, and no whole unit more than needed |
| Umalloc.Ascending | xv6-riscv/user/umalloc.c:24-44 | along the list from its lowest node addresses ascend, so it wraps once |
| Umalloc.InsertCovers | xv6-riscv/user/umalloc.c:33-44 | linking a block in adds exactly its units to the free ones |
| Umalloc.JoinCovers | xv6-riscv/user/umalloc.c:33-41 | merging two touching nodes changes no unit's status |
| Umalloc.FreedOk | xv6-riscv/user/umalloc.c:33-42 | after free with its two merges the list is in order, no two free nodes touch, and exactly the freed units are new |
| Umalloc.FreedByCode | xv6-riscv/user/umalloc.c:24-44 | the assignments of free leave that memory, and no other header changes |
| Umalloc.BigNode | xv6-riscv/user/umalloc.c:53-60 | after morecore merges with its neighbours some node holds the whole new block, so the search that follows ends |
| Umalloc.TakeTailTiles | xv6-riscv/user/umalloc.c:78-84 | cutting the tail off a node keeps free and live blocks a tiling of the arena |
| Umalloc.FreeingTiles | xv6-riscv/user/umalloc.c:24-44 | so does moving a live block to the list |
| Umalloc.GrowingTiles | xv6-riscv/user/umalloc.c:46-61 | so does adding what sbrk returned |
| Umalloc.Heap.FindSlot | xv6-riscv/user/umalloc.c:29-32 | the loop of free ends, at the node whose gap the block lies in, or at the wrap point |
| Umalloc.Heap.Free | xv6-riscv/user/umalloc.c:24-44 | the block is free, every unit of every other live block holds what it held, and the heap invariant holds |
| Umalloc.Heap.Morecore | xv6-riscv/user/umalloc.c:46-61 | at least 4096 units more, linked in, or 0 and no change |
| Umalloc.Heap.Search | xv6-riscv/user/umalloc.c:74-89 | the first block after freep that is large enough, with its predecessor, or none if none is |
| Umalloc.Heap.Malloc | xv6-riscv/user/umalloc.c:63-90 | a new live block disjoint from all others, with room for nbytes, or 0; if some node fits it is the tail of the first one after freep, and sbrk is not called; every unit of every live block holds what it held |
| FsBlocks.WordRoundTrip | xv6-riscv/kernel/fs.c:407-413 | an entry written to the indirect block reads back |
| FsBlocks.WordFrame | xv6-riscv/kernel/fs.c:407-413 | and the other entries are as they were |
| FsBlocks.MarkByte | xv6-riscv/kernel/fs.c:75-80 | one byte of the bitmap changes the status of one block |
| FsState.NoSharing | xv6-riscv/kernel/fs.c:372-421 | two inodes, or two places in one, never have the same block |
| FsState.FreeBlock | xv6-riscv/kernel/fs.c:63-88 | a block whose bit is clear is in no inode and is no metadata |
| FsState.FilledOwned | xv6-riscv/kernel/fs.c:382-421 | a free block put into an empty place keeps the bitmap equal to the metadata and the owned blocks |
| FsState.PutDirectFilled | xv6-riscv/kernel/fs.c:388-406 | bmap's assignments for a direct block or the indirect block fill exactly that place |
| FsState.PutEntryFilled | xv6-riscv/kernel/fs.c:407-417 | and those for an entry of the indirect block fill exactly that entry |
| FsState.FilledGrown | xv6-riscv/kernel/fs.c:382-421 | a fresh zeroed block changes no byte of any file |
| FsState.DropDirectOwned | xv6-riscv/kernel/fs.c:432-437 | itrunc finds a direct block's bit set, and giving it back keeps ownership |
| FsState.DropEntryOwned | xv6-riscv/kernel/fs.c:442-445 | the same for an entry of the indirect block, which stays in place while its block is already free |
| FsState.DropIndirectOwned | xv6-riscv/kernel/fs.c:446-448 | and for the indirect block itself |
| FsState.PutWrote | xv6-riscv/kernel/fs.c:516-528 | bytes put into the block of a file change these bytes of this file, and no block map |
| FsCode.Disk.Balloc | xv6-riscv/kernel/fs.c:65-88 | the first free block, zeroed and marked; 0 and no change exactly if the bitmap is full; log_write panics exactly if it is not and no operation is open |
| FsCode.Disk.Bfree | xv6-riscv/kernel/fs.c:90-105 | one bit cleared; that it was set is a precondition, and its callers prove it |
| FsCode.Disk.Bmap | xv6-riscv/kernel/fs.c:379-421 | the block of the file's bn-th block, 0 only on a full disk; it panics exactly if the block is missing, the disk is not full and no operation is open; no file's bytes change; every change to a block or to the free map is logged |
| FsCode.Disk.Itrunc | xv6-riscv/kernel/fs.c:423-453 | exactly the inode's blocks are free, its map is empty, and every other file is as it was; every change to the free map and the inode's block have been passed to log_write, and nothing else |
| FsCode.Disk.Readi | xv6-riscv/kernel/fs.c:467-496 | exactly the requested slice of the file, short only on a full disk; missing blocks of it are allocated, or log_write panics exactly if one is missing, the disk is not full and no operation is open; -1 when the copy of byte number bad fails, with the bytes before it copied |
| FsCode.Disk.Writei | xv6-riscv/kernel/fs.c:498-539 | -1 exactly if the offset is past the end or the result too large; otherwise the file is overwritten and extended by the returned prefix, and every change to blocks, free map and inode is logged; only if a byte cannot be copied from the user are bytes before it in the same block changed too, not counted and not logged |
| FsCode.WroteFileContents | xv6-riscv/kernel/fs.c:498-539 | in terms of whole files: the written one is the old one overlaid, all others are equal |
| FsCode.PatchedContents | xv6-riscv/kernel/fs.c:498-539 | the same when bytes were put into the last block without being counted: the file shows them up to its size |
| FsCode.OneRound | xv6-riscv/kernel/fs.c:516-521 | rounds of readi and writei come to block boundaries: each takes one more of the blocks that the range lies in |
| FsCode.Disk.WriteChunk | xv6-riscv/kernel/file.c:155-167 | a chunk logs at most 7 distinct blocks when the bitmap is one block |
| FsCode.Disk.Filewrite | xv6-riscv/kernel/file.c:148-175 | the file gets the prefix by which the offset moved, all of it or the call fails; a failing copy adds less than one block of bytes that are not counted; every transaction stays within 7 blocks |
| FsCode.NeverFull | xv6-riscv/kernel/fs.c:65-88 | a disk with more data blocks than all inodes have slots for is never full |
| Mkfs.UnloggedChange | xv6-riscv/kernel/fs.c:506-539 | such a change: a byte of the file is new, none is counted, and its block is not in the log |
| FsOnDisk.WordOf | xv6-riscv/kernel/fs.c:401-411 | an address in an indirect block is the word that the log and the cache see there |
| FsOnDisk.IupdateDecodes | xv6-riscv/kernel/fs.c:221-242 | iupdate changes one inode of the file system that the disk stands for, and of the rest only the block it lies in |
| LogTheorems.InvariantAfterCrash | xv6-riscv/kernel/log.c:99-203 | what operations keep true of the home blocks is true of what recovery makes of the disk after a crash at any time, in the middle of operations, commits and recoveries too |
| FsOnDisk.ConsistentAfterCrash | xv6-riscv/kernel/log.c:99-203 | so block maps and free map agree after any crash and recovery of any run, if they do whenever no operation is open |
| Dirents.EntRoundTrip | xv6-riscv/kernel/fs.h:52-60 | a directory entry that was written is the one that is read, with or without a NUL at its end |
| Dirents.ReadEnt | xv6-riscv/kernel/fs.c:559-562 | readi at the k-th offset of a directory finds its k-th entry |
| Dirents.DirectoryWritten | xv6-riscv/kernel/fs.c:600-603 | the writei of dirlink or sys_unlink is the change of that one entry in that one directory |
| Mkfs.Image.PlaceIndirect | xv6-riscv/mkfs/mkfs.c:273-283 | the image builder's own block map agrees with bmap's: same place, same ownership |
| Mkfs.NeededNext | xv6-riscv/mkfs/mkfs.c:266-290 | one round of iappend takes what its block costs, and leaves the rest needing what is left |
| Mkfs.Image.Iappend | xv6-riscv/mkfs/mkfs.c:252-294 | the file has the bytes at its end, nothing else changes, a file has exactly the blocks its size calls for, and exactly the missing blocks are taken; the program ends exactly if the file would get too long or the image too short |
| Mkfs.RoundedSizeHole | xv6-riscv/mkfs/mkfs.c:163-168 | rounding the root directory up leaves a block missing exactly if its size was a multiple of the block size |
| Mkfs.FullRoot | xv6-riscv/mkfs/mkfs.c:163-168 | such an image can be built: a root directory of one full block ends with a size of two and one block |
| Mkfs.ReadFullRoot | xv6-riscv/kernel/fs.c:379-421 | a kernel that reads that directory to its end in an operation has allocated the missing block and has not logged the inode that now has its address; outside of any operation it panics |
| Mkfs.WriteBitmap | xv6-riscv/mkfs/mkfs.c:234-248 | the bitmap block marks exactly the blocks below freeblock |
| Mkfs.Mount | xv6-riscv/mkfs/mkfs.c:108-173 | the kernel finds its ownership invariant on the image, and readi returns exactly the bytes that were appended |
| PageTable.FlagBits | xv6-riscv/kernel/riscv.h:341-352 | an entry is valid, a leaf or for user code by exactly the bits PTE_V, PTE_R, PTE_W, PTE_X and PTE_U |
| PageTable.Fields | xv6-riscv/kernel/riscv.h:354-363 | the three 9-bit fields determine a page number below MAXVA |
| PageTable.Chain | xv6-riscv/kernel/vm.c:85-103 | the tables that walk passes stand in the places their fields say |
| PageTable.OnePlace | xv6-riscv/kernel/vm.c:85-103 | page tables are trees: no two tables stand in one place |
| PageTable.SetLeaf | xv6-riscv/kernel/vm.c:142-165 | writing one entry changes the map of one root at one page number |
| PageTable.GrowLeaves | xv6-riscv/kernel/vm.c:91-101 | a new table page changes no mapping |
| PageTable.CutTree | xv6-riscv/kernel/vm.c:271-287 | clearing the entry of a freed subtree leaves a tree |
| PageTable.TreeRemoved | xv6-riscv/kernel/vm.c:289-297 | removing a whole tree changes no other |
| PageTable.EmptyMap | xv6-riscv/kernel/vm.c:289-297 | a page table that maps nothing has no leaf for freewalk to panic on |
| VmState.NoSharedFrame | xv6-riscv/kernel/vm.c:223-249 | no two user pages, of one address space or two, share a frame |
| VmState.AddedThenGone | xv6-riscv/kernel/vm.c:236-246 | removing the pages that were added restores every map and frees every frame that was taken |
| VmState.StoredMore | xv6-riscv/kernel/vm.c:351-371 | a store to a frame shows at the addresses of one page of one address space only |
| VmCode.TakeHead | xv6-riscv/kernel/kalloc.c:69-82 | taking the head of the free list keeps free, table and frame pages a partition |
| VmCode.PutHead | xv6-riscv/kernel/kalloc.c:46-63 | so does putting a page there |
| VmCode.Memory.Kalloc | xv6-riscv/kernel/kalloc.c:65-82 | the head of the list, now in use; 0 exactly if the list is empty |
| VmCode.Memory.Kfree | xv6-riscv/kernel/kalloc.c:42-63 | the page is at the head of the list and not in use |
| Kalloc.NextRoundTrip | xv6-riscv/kernel/kalloc.c:57-60 | the link that kfree stores in a page is the one kalloc reads |
| Kalloc.Allocator.Kfree | xv6-riscv/kernel/kalloc.c:46-63 | the page holds junk and the link to what was the first page, and is the first now; no other page is touched |
| Kalloc.Allocator.Kalloc | xv6-riscv/kernel/kalloc.c:68-82 | the first page, filled with junk, and the list goes on with the page it was linked to; 0 exactly if there is none; no other page is touched |
| Kalloc.Allocator.constructor | xv6-riscv/kernel/kalloc.c:26-41 | kinit: all the pages in a list, the last one first |
| VmCode.Memory.Walk | xv6-riscv/kernel/vm.c:85-103 | the table with the page's entry; without alloc nothing changes, with it no mapping does; it fails exactly if fewer pages are free than tables are missing |
| VmCode.Memory.Walkaddr | xv6-riscv/kernel/vm.c:105-126 | the frame of a page exactly if user code may use it |
| VmCode.Memory.Mappages | xv6-riscv/kernel/vm.c:138-165 | exactly the named pages are mapped; if, exactly, fewer pages are free than tables are missing for them, only the first n are |
| VmCode.Memory.Uvmcreate | xv6-riscv/kernel/vm.c:194-205 | a new root whose map is empty, or 0 |
| VmCode.Memory.Uvmunmap | xv6-riscv/kernel/vm.c:167-192 | exactly the named pages are unmapped, and exactly their frames freed if asked |
| VmCode.Memory.Uvmdealloc | xv6-riscv/kernel/vm.c:251-267 | exactly the whole pages above the new size go |
| PageTable.FewTables | xv6-riscv/kernel/vm.c:85-103 | n pages never need more than one table for each 512 of them, one for 512 of those, and one more of either kind |
| VmState.NewMemory | xv6-riscv/kernel/vm.c:223-249 | what uvmalloc has added user code can use and reads as zeroes, and every address it could use before reads as it did |
| VmState.CopiedMemory | xv6-riscv/kernel/vm.c:299-333 | after uvmcopy the child can use the same addresses as its parent, and reads the parent's bytes there |
| VmCode.Memory.Uvmalloc | xv6-riscv/kernel/vm.c:223-249 | cleared pages in frames of their own; on failure every map and frame is as before; it fails exactly if fewer pages are free than there are new pages and missing tables |
| VmCode.Memory.Uvmcopy | xv6-riscv/kernel/vm.c:299-333 | every page below sz copied with its flags, or every map and frame as before, exactly if fewer pages are free than pages to copy and missing tables |
| VmCode.Memory.Freewalk | xv6-riscv/kernel/vm.c:269-287 | t and all tables below it given back, each once, without the panic |
| VmCode.Memory.Uvmfree | xv6-riscv/kernel/vm.c:289-297 | every frame and table page of the address space given back, no other touched |
| VmCode.Memory.Copyout | xv6-riscv/kernel/vm.c:348-371 | the bytes stored at user addresses up to the first page that user code cannot use, and no other byte of any address space changed |
| VmState.CopiedMore | xv6-riscv/kernel/vm.c:373-396 | the bytes of one frame extend what byte-by-byte translation has found |
| VmCode.Memory.Copyin | xv6-riscv/kernel/vm.c:373-396 | the bytes that byte-by-byte translation finds, all of them or -1 |
| VmCode.Memory.Copyinstr | xv6-riscv/kernel/vm.c:398-439 | the bytes up to the first NUL, found by byte-by-byte translation, or -1 exactly if max or an unusable page comes first |
| Virtio.SameIndex | xv6-riscv/kernel/virtio_disk.c:312-324 | two 16-bit ring indices are equal exactly if the counts are |
| Virtio.SubmitKeeps | xv6-riscv/kernel/virtio_disk.c:226-277 | submitting a request keeps the invariant |
| Virtio.TakeKeeps | xv6-riscv/kernel/virtio_disk.c:271-277 | so does the device taking it from the available ring |
| Virtio.CompleteKeeps | xv6-riscv/kernel/virtio_disk.c:309-314 | so does the device reporting it in the used ring |
| Virtio.NoticeKeeps | xv6-riscv/kernel/virtio_disk.c:312-324 | so does the handler noticing it |
| Virtio.FinishKeeps | xv6-riscv/kernel/virtio_disk.c:283-289 | so does freeing its chain |
| Virtio.ChainsDisjoint | xv6-riscv/kernel/virtio_disk.c:184-197 | chains share no descriptor, and none of theirs is free |
| Virtio.OncePerRequest | xv6-riscv/kernel/virtio_disk.c:215-327 | over every run, with the driver and the device in any order, a request is taken once, then completed once, then noticed once: as far as it has got and no more |
| Virtio.NoticedExactlyOnce | xv6-riscv/kernel/virtio_disk.c:215-327 | so by the time its descriptors are freed it has been noticed exactly once, and its buffer waits no more |
| Virtio.Disk.AllocDesc | xv6-riscv/kernel/virtio_disk.c:155-166 | the first free descriptor, -1 exactly if there is none |
| Virtio.Disk.FreeChain | xv6-riscv/kernel/virtio_disk.c:184-197 | exactly the three descriptors of the chain are free again; the loop ends and does not panic |
| Virtio.Disk.Alloc3Desc | xv6-riscv/kernel/virtio_disk.c:199-213 | three free descriptors, or none taken and fewer than three free |
| Virtio.Disk.Start | xv6-riscv/kernel/virtio_disk.c:215-286 | a request of the right buffer, block and direction is queued, laid out as section 5.2.6 of the standard asks; the process waits for descriptors exactly if two requests are in flight |
| Virtio.Disk.DeviceTake | xv6-riscv/kernel/virtio_disk.c:271-281 | the device gets the oldest request it has not taken, also when indices have wrapped |
| Virtio.Disk.DeviceComplete | xv6-riscv/kernel/virtio_disk.c:235-265 | by what the descriptors say, and only as far as their flags and lengths allow it, the device moves the data of the request's own block and buffer |
| Virtio.Disk.Intr | xv6-riscv/kernel/virtio_disk.c:294-327 | b->disk is cleared for exactly the buffers whose chains the device has reported, each request noticed once |
| Virtio.Disk.End | xv6-riscv/kernel/virtio_disk.c:283-291 | the buffer has no request any more and three descriptors more are free |
| Proc.ForkKeeps | xv6-riscv/kernel/proc.c:109-150 | allocproc and allocpid keep the invariant |
| Proc.ForkLinkKeeps | xv6-riscv/kernel/proc.c:317-319 | so does giving the child its parent |
| Proc.ReparentKeeps | xv6-riscv/kernel/proc.c:330-341 | so does giving a child to initproc, which may then be owed a wakeup |
| Proc.ExitParentSlotKeeps | xv6-riscv/kernel/proc.c:373-374 | so does each slot of wakeup(p->parent) |
| Proc.ExitEndKeeps | xv6-riscv/kernel/proc.c:376-381 | so does becoming a zombie and letting go of wait_lock |
| Proc.WaitSlotKeeps | xv6-riscv/kernel/proc.c:402-424 | so does each slot of the scan of wait, freeing a zombie included |
| Proc.WaitEndKeeps | xv6-riscv/kernel/proc.c:426-433 | so does falling asleep in wait |
| Proc.StepKeeps | xv6-riscv/kernel/proc.c:279-604 | every step of every process, every wakeup and every kill, of unused slots too, keeps the invariant, in any interleaving |
| Proc.RunInv | xv6-riscv/kernel/proc.c:279-604 | the invariant holds in every state of every run |
| Proc.NobodyWaitsForAZombie | xv6-riscv/kernel/proc.c:343-435 | in every reachable state with wait_lock free no process asleep in wait has a zombie child |
| Proc.ParentsAreAlive | xv6-riscv/kernel/proc.c:328-386 | in every reachable state a parent is neither unused nor a zombie and has a smaller pid |
| Proc.TreeUnderInit | xv6-riscv/kernel/proc.c:328-341 | so every process that has come to run descends from initproc |
| Proc.WaitOver | xv6-riscv/kernel/proc.c:426-433 | in any run, wait returns -1 after its scan exactly if the process is killed or has no child; otherwise it is asleep; wait_lock is free either way |
| Proc.Lifecycle | xv6-riscv/kernel/proc.c:125-604 | every step of every process, seen from one slot: which steps change its state, parent, pid and killed flag, and to what |
| Proc.ForkedChild | xv6-riscv/kernel/proc.c:279-326 | in any run, a fork that succeeds leaves a runnable child of its caller with the pid taken at its start |
| Proc.WaitReturns | xv6-riscv/kernel/proc.c:391-435 | the ways out of the scan of wait: a zombie child, told to the user or not, or the end |
| Proc.PidsInOrder | xv6-riscv/kernel/proc.c:92-104 | allocpid hands out consecutive pids |
| Proc.LockExcludes | xv6-riscv/kernel/proc.c:317-319 | the parent of a child is set, and exit and wait begin, only with wait_lock free |
| Proc.RunningCan | xv6-riscv/kernel/proc.c:279-435 | with wait_lock free a running process can take the next step of whatever it is in |
| Proc.HolderCan | xv6-riscv/kernel/proc.c:328-435 | the process that holds wait_lock in exit or wait can always take its next step |
| Proc.HolderMoves | xv6-riscv/kernel/proc.c:328-435 | each of its steps brings it nearer to letting go, and no other process's step touches it |
| Proc.LetsGo | xv6-riscv/kernel/proc.c:328-435 | in any run it lets go of wait_lock after a bounded number of its own steps |
| Proc.ReapedOnce | xv6-riscv/kernel/proc.c:408-421 | no pid is reaped twice, or used again after it was reaped |
| Proc.BornKilled | xv6-riscv/kernel/proc.c:582-604 | in any run a new process has the killed flag exactly if kill(0) has found its slot, unused, since that was last freed |
| Proc.KilledExactly | xv6-riscv/kernel/proc.c:582-604 | in any run a slot, in use or not, has the killed flag exactly if kill has found it since it was last freed |
| Proc.BornKilledRun | xv6-riscv/kernel/proc.c:109-150 | a run of three steps in which that happens |
| Pipe.CounterTests | xv6-riscv/kernel/pipe.c:88 | the tests for full and empty are right after the counters have wrapped |
| Pipe.Pipe.Write | xv6-riscv/kernel/pipe.c:76-103 | bytes are stored in order; how far the writer gets and why it stops, by the room, the killed flag and the first bad byte; the invariant is broken exactly if a reader sleeps and the writer is killed after its first byte with the rest still to come |
| Pipe.LostWakeup | xv6-riscv/kernel/pipe.c:84-86 | there is a reader asleep on a pipe that is not empty after such an exit |
| Pipe.Pipe.Receive | xv6-riscv/kernel/pipe.c:105-130 | the bytes removed are the next ones stored; the reader sleeps exactly on an empty pipe that can be written, or gives up there if it has been killed, and otherwise wakes the writers; exactly one byte is lost exactly if one that is asked for and there cannot be copied |
| Pipe.LostByte | xv6-riscv/kernel/pipe.c:121-127 | such a byte: the reader is told of none, and one is gone |
| Pipe.Pipe.Close | xv6-riscv/kernel/pipe.c:58-74 | nobody is left asleep on the end that was closed; the pipe is freed exactly when both are |
| ReadersWriters.Monitor.ReaderEnter | activities/readers_writers/reader_writer_final.c:24-29 | a reader enters exactly if no writer waits; otherwise it sleeps, with a writer waiting |
| ReadersWriters.Monitor.ReaderLeave | activities/readers_writers/reader_writer_final.c:34-39 | the last reader hands over to a waiting writer |
| ReadersWriters.Monitor.WriterEnter | activities/readers_writers/reader_writer_final.c:51-57 | a writer enters exactly if no reader is active, and then there is no other writer |
| ReadersWriters.Monitor.WriterLeave | activities/readers_writers/reader_writer_final.c:64-70 | a writer hands over to a writer if one waits and to all readers otherwise, so no one is stranded |
| Shell.ExecParse | xv6-riscv/user/sh.c:416-447 | a simple command or a block that was written down is read back, whatever may follow it |
| Shell.PipeParse | xv6-riscv/user/sh.c:362-373 | so is a pipeline |
| Shell.BackParse | xv6-riscv/user/sh.c:350-354 | so are trailing ampersands |
| Shell.LineParse | xv6-riscv/user/sh.c:345-360 | so is a line |
| Shell.LexWrite | xv6-riscv/user/sh.c:266-309 | tokens that were written down are read back |
| Shell.RoundTrip | xv6-riscv/user/sh.c:328-447 | printing any command tree and parsing it gives the tree back |
| ShellGrammar.RedirAnywhere | xv6-riscv/user/sh.c:375-447 | a redirection means the same before or after an argument |
| ShellGrammar.ItemsParse | xv6-riscv/user/sh.c:416-447 | arguments and redirections in any order: the redirections, in order, around a command with the arguments, in order |
| ShellGrammar.LineReads | xv6-riscv/user/sh.c:345-447 | every line of the grammar is read as what it means: pipelines, lists, ampersands and blocks nested to any depth |
| ShellGrammar.ParseLineIff | xv6-riscv/user/sh.c:345-447 | a token list is accepted exactly if it is a line of the grammar, and is then what that line means |
| ShellGrammar.LexIff | xv6-riscv/user/sh.c:263-309 | the tokens of an input are exactly those it spells, with gaps of the five blanks, and none needed where two tokens cannot run together |
| ShellGrammar.ParseIff | xv6-riscv/user/sh.c:328-343 | a command line is accepted exactly if it spells a line of the grammar, and is then what that line means |
| ShellGrammar.BlanksAround | xv6-riscv/user/sh.c:263-309 | blanks before and after a command line, such as the newline at its end, change nothing |
| ShellCode.Parser.Peek | xv6-riscv/user/sh.c:311-321 | skips blanks, changes no token, and says what the next one starts with |
| ShellCode.Parser.Gettoken | xv6-riscv/user/sh.c:266-309 | the next token, with its place in the input |
| ShellCode.Parser.Parseredirs | xv6-riscv/user/sh.c:375-398 | what the grammar says of the token list, on the character cursor |
| ShellCode.Parser.Parseargs | xv6-riscv/user/sh.c:430-446 | the same for the arguments of a command |
| ShellCode.Parser.Parseexec | xv6-riscv/user/sh.c:416-447 | the same for a command or block |
| ShellCode.Parser.Parseline | xv6-riscv/user/sh.c:345-360 | the same for a line; all of these terminate |
| ShellCode.Parser.Nulterminate | xv6-riscv/user/sh.c:449-494 | a NUL right after every word of the command, and no other change |
| ShellCode.CStringsKept | xv6-riscv/user/sh.c:449-494 | no NUL falls into a word: every argument and file name reads as its token |
| ShellCode.Parser.Parsecmd | xv6-riscv/user/sh.c:328-343 | what the line that the input spells means, with its words as C strings in the buffer; a panic exactly if it spells no line of the grammar |
| ShellCode.ParseWritten | xv6-riscv/user/sh.c:328-494 | the round trip through the code |
| Grep.HereOne | xv6-riscv/user/grep.c:92-93 | a literal or dot at the front of a pattern takes one character |
| Grep.HereSplit | xv6-riscv/user/grep.c:97-105 | a match of the rest after a part that fits the first item is a match |
| Grep.StarEnds | xv6-riscv/user/grep.c:97-105 | what follows c* begins no later than the first character that is not c |
| Grep.Matchhere | xv6-riscv/user/grep.c:83-95 | true exactly if some prefix of the text is in the language of the pattern |
| Grep.Matchstar | xv6-riscv/user/grep.c:97-105 | the same for c* followed by the pattern |
| Grep.Match | xv6-riscv/user/grep.c:71-81 | true exactly if some substring, anchored as ^ and $ ask, is in the language of the pattern |
| Links.RaiseKeeps | xv6-riscv/kernel/sysfile.c:145-147 | sys_link's first step, and its undoing, keep the link-count invariant |
| Links.EnterKeeps | xv6-riscv/kernel/sysfile.c:149-157 | so does the entry it makes |
| Links.EnterKeepsIff | xv6-riscv/kernel/sysfile.c:149-157 | that is so exactly if the directory is still linked, which sys_link does not test |
| Links.RemoveKeeps | xv6-riscv/kernel/sysfile.c:222-233 | so does unlinking a file |
| Links.EmptyDirOneName | xv6-riscv/kernel/sysfile.c:172-186 | an empty directory is named by one entry only |
| Links.ParentTwice | xv6-riscv/kernel/sysfile.c:225-228 | and its parent by at least two, so that it stays linked |
| Links.RemoveDirKeeps | xv6-riscv/kernel/sysfile.c:222-233 | so does unlinking an empty directory, which is then unlinked |
| Links.MakeKeeps | xv6-riscv/kernel/sysfile.c:265-293 | so does creating a file |
| Links.MakeDirKeeps | xv6-riscv/kernel/sysfile.c:265-293 | so does creating a directory |
| Links.MakeKeepsIff | xv6-riscv/kernel/sysfile.c:265-293 | creating a file keeps it exactly if the directory is still linked, which create does not test |
| Links.MakeDirKeepsIff | xv6-riscv/kernel/sysfile.c:265-293 | the same for a directory, which would give the unlinked one a link again |
| Links.UnlinkedKeeps | xv6-riscv/kernel/sysfile.c:295-301 | so does giving up on a new inode, and freeing one without links |
| LinksCode.Dirlookup | xv6-riscv/kernel/fs.c:551-575 | the first entry of this name under 14-byte comparison, none exactly if there is none |
| LinksCode.Dirlink | xv6-riscv/kernel/fs.c:577-606 | fails exactly if the name is there or the block cannot be written; otherwise fills the first empty slot |
| LinksCode.Isdirempty | xv6-riscv/kernel/sysfile.c:172-186 | whether any slot after the first two is in use |
| LinksCode.Files.LinkBegin | xv6-riscv/kernel/sysfile.c:138-147 | the count is raised unless the inode is a directory |
| LinksCode.Files.LinkEnd | xv6-riscv/kernel/sysfile.c:149-169 | an entry in the first empty slot of the directory, or the count as it was; the invariant holds afterwards exactly if the directory was linked or nothing was entered |
| LinksCode.Files.Unlink | xv6-riscv/kernel/sysfile.c:188-243 | removes the first entry of that name and its links, exactly if the name is neither . nor .. and that entry is no directory with entries; otherwise it fails and changes nothing; in an unlinked directory it always fails |
| LinksCode.Files.Create | xv6-riscv/kernel/sysfile.c:245-302 | for a name that is there, its first entry's inode exactly if a file is wanted and it is a file or device, else 0; for a new name, a new linked inode, or failure with the new inode unlinked; the invariant holds afterwards exactly if the directory was linked or nothing was entered |
| LinksCode.CreateInUnlinked | xv6-riscv/kernel/sysfile.c:245-302 | a file created in a directory that has been removed has a link count of one and no name |

## Left out

- Hardware, assembly, interrupts and traps, the scheduler's choice, fences and device registers.
- Torn block writes, disk errors, and the status panic of the disk interrupt handler.
- FsCode.Disk.Writei: which bytes of a block a failing copy from the user has reached is a parameter, the number of the first byte that cannot be copied.
- FsCode.Disk.Readi: the user's memory itself; the bytes that have been copied are a result.
- Device numbers other than ROOTDEV, and device 0.
- The type, device numbers and link count of an inode on disk; FsOnDisk has its size and addresses.
- ialloc, iget, iput and their table: create takes a free inode as a parameter, and an inode without links is discarded in one step.
- Path lookup (namex, skipelem): sys_link, sys_unlink and create are given the inodes it would find.
- LinksCode.Dirlink: works on the list of entries; that its one write to the directory's file is that change of the list is Dirents.DirectoryWritten.
- FsCode.Disk.Filewrite: no other process writes to the file between two chunks.
- FsCode.Disk.Balloc: bitmap blocks are one array beside the other blocks; that they are cached blocks is covered by the log and cache models.
- Mkfs.Image.Iappend: what the image file holds after the program has ended with an error.
- VmCode.Memory.Mappages: physical and virtual addresses are page numbers where the code only uses the page, and a table is 512 entries of page number and flags.
- VmCode.Memory.Kalloc: the free list is a sequence of pages here; its links in the pages are in Kalloc.Allocator, with the same contract on that sequence.
- VmCode.Memory.Kfree: the contents of a free page, junk and link, are those of Kalloc.Allocator and not part of this state.
- VmCode.Memory.Uvmalloc: sizes up to MAXVA; beyond it walk would panic.
- uvmclear, uvmfirst, the kernel's own page table, trampoline and trapframe pages.
- Virtio.Disk.Intr: as a method the handler is one stretch in which the device adds no entries; with entries added between its rounds it is steps of the runs that OncePerRequest is about.
- Proc.StepKeeps: open files, directories and memory of a process, the scheduler's contexts, and overflow of nextpid.
- LogCode.Log.Commit: what other processes do between two of its writes; the protocol model has that, and here their references and locks stay as they are.
- Umalloc.Heap.Malloc: requests that overflow 32 bits, an sbrk that returns memory below the heap, and sbrk's own failure modes other than -1.
- Grep's line buffer: only the matcher is modelled.
- Running shell commands, cd, and the shell's input loop.
- ext2, the thread exercises other than the readers and writers monitor, and the labs: starter code or tests.
