# A Dafny model of xv6

This project models the hard parts of xv6 for RISC-V and of a few of its user programs, and proves
what they are for. `dafny verify dfyconfig.toml` checks it. Each module follows one part of the
system. Objects whose C functions update them in place are classes; pure reasoning about their state
is done on value datatypes beside them. Concurrency is modelled as steps at the granularity of the
locks, and a kernel panic is a result, or a requirement that every caller is shown to meet. `Basics`
holds what many modules share.

**Storage.** `Disk` and `Crash` treat the redo log as a sequence of block writes that may stop after
any of them, recovery included. `Ring`, `BufferCache`, `LogBlocks` and `Log` are the buffer cache and
the log as code, and issue exactly those writes while `Readers` take buffers, lock them and read them
between any two steps of a commit, as fileread does outside transactions. `FsLayout`, `FsContent` and
`FileSystem` are the block allocator, the block map, truncation, reading and writing, and the chunks
of filewrite with their exact cost in log blocks and in free blocks. `DirTree` and `Directories` are
directories and link counts; `DirBytes` is the same lookup and insertion on the 16-byte records of a
file. `LogRun`, `FileRun` and `DirRun` are runs at concrete inputs.

**Memory.** `Sv39`, `Spaces` and `VirtualMemory` are physical pages, three-level page tables and the
operations on them; `AddressSpace`, `ProcMemory`, `PageBytes`, `ArgStack`, `Exec` and `SysExec` the
memory of processes through growproc, fork and exec on every path, with the bytes of the new image
and of its argument stack; `Processes` is any number of processes making these calls in any order.
`FreeList` and `Umalloc` are the user-level allocator.

**Processes and devices.** `SleepLock` is the sleep and wakeup protocol, `ProcTable` fork, exit, wait,
kill and the scheduler's hand-over, `PsTree` the process tree that pstree prints, `Pipe` the pipe,
`Virtio` the disk driver against a device that completes in any order and may report errors.

**Languages.** `Regex` and `Grep` are the matcher and the line loop of grep. `ShellGrammar`,
`ShellLexer` and `Shell` are the parser of the shell; `ShellSyntax` and `ShellSpacing` say which lines
can be written and what they mean, and `ShellRoundTrip` prints commands.

Properties one might expect that the code does not have, each proved with the exact condition under
which it does hold, and shown to fail at a concrete input:

- A commit can find no buffer. With readers at rest it ends exactly if the transaction is empty, or
  some buffer is neither referenced nor pinned and no home block is locked by a reader
  (`Log.TxLog.Commit`); without readers, exactly if the transaction is empty or smaller than the
  cache (`Log.TxLog.CommitQuiet`). NBUF equals LOGSIZE, so three full operations reach the failure
  (`LogRun.FullCommitFails`), and a reader reaches it with fewer (`LogRun.ReaderStopsCommit`).
- log_write refuses a block that is already in a full log, because it tests for room first
  (`Log.TxLog.LogWrite`, `LogRun.LoggedBlockRefused`).
- A write whose source faults changes the cache and not the log exactly if the fault is inside a
  block the file had and a byte copied into it differs (`FileSystem.FileSys.Writei`,
  `FileRun.TornWrite`).
- Creating or linking a name makes a link count wrong exactly if the directory has been removed
  (`Directories.DirFs.Create`, `Directories.DirFs.Link`, `DirRun.CreateInRemoved`,
  `DirRun.MkdirInRemoved`, `DirRun.LinkInRemoved`).
- A pipe write leaves readers asleep on a non-empty pipe exactly if they sleep and the writer is
  killed after its first byte, within PIPESIZE of it and before a fault (`Pipe.Pipe.Write`,
  `Pipe.KilledWriterStrandsReader`).
- kill(0) marks a free slot if there is one, and the next process there is born killed
  (`ProcTable.Kernel.Kill`, `ProcTable.BornKilled`).
- grep writes all matching lines exactly if none is at or after the first line that does not fit its
  buffer or holds a NUL (`Grep.SelectedIff`, `Grep.LongLineLost`, `Grep.NulLineLost`).
- create panics in ilock exactly for the ".." of a removed directory whose parent has been freed
  (`Directories.DirFs.Create`, `DirRun.DotDotPanics`).
- pstree shows everybody in the list of getprocs exactly if everybody's parent is in it, which a table
  that changes during the scan can prevent (`PsTree.EverybodyShown`, `PsTree.ParentMissed`).
- sbrk takes an int, so morecore gets the memory it asks for only below 2^27 headers
  (`Umalloc.RequestGranted`, `Umalloc.Heap.Malloc`, `Umalloc.HugeMalloc`).
- growproc that reports success has the size asked for exactly unless that is below zero, where it
  changes nothing (`ProcMemory.Proc.Growproc`, `ProcMemory.ShrinkBelowZero`).

## Model

| member | source | states |
|---|---|---|
| `Crash.CommitEndsInRecovery` | xv6-riscv-labs-riscv/kernel/log.c:193-203 | from its header write on, commit issues exactly the writes that recovery would issue, starting from a disk that recovery brings to the whole transaction |
| `Crash.CommitPrefixRedoable` | xv6-riscv-labs-riscv/kernel/log.c:178-203 | after any prefix of commit's writes the disk is one that recovery redoes: to the old home blocks up to the header write, to the whole transaction from it on |
| `Crash.InterruptedRedoable` | xv6-riscv-labs-riscv/kernel/log.c:68-123 | a recovery that crashes after any number of its own writes leaves a disk that a later recovery brings to the same home blocks; one that finishes leaves an empty log |
| `Crash.CrashedRecoveriesRedoable` | xv6-riscv-labs-riscv/kernel/log.c:68-123 | so does any number of crashed recoveries in a row |
| `Crash.CrashAtomicity` | xv6-riscv-labs-riscv/kernel/log.c:68-123 | stop a commit after any prefix of its writes, crash any number of recoveries anywhere, finish one: home blocks are all old if the header was not written, all new otherwise |
| `Crash.CommitCompletes` | xv6-riscv-labs-riscv/kernel/log.c:193-203 | an uninterrupted commit leaves an empty log and the transaction in its home blocks |
| `Crash.RunAtomicity` | xv6-riscv-labs-riscv/kernel/log.c:126-203 | over a whole run of commits, a crash in the i-th leaves exactly the first i transactions, or the first i + 1 once its header is written |
| `Crash.RunCommits` | xv6-riscv-labs-riscv/kernel/log.c:126-203 | the disk after i commits of a run is the first disk overlaid with the first i transactions |
| `Crash.HeaderFirst` | xv6-riscv-labs-riscv/kernel/log.c:178-203 | no home block reaches the disk before a header that lists it, with its whole transaction |
| `Readers.Others.constructor` | xv6-riscv-labs-riscv/kernel/file.c:106-130 | readers that hold nothing yet, with the steps they are going to take |
| `Readers.Others.GetStep` | xv6-riscv-labs-riscv/kernel/bio.c:58-89 | a reader takes a reference, by recycling an unreferenced buffer if it has to; no pin, no locked buffer and nothing of the log's moves; with a buffer to be had it gets one |
| `Readers.Others.DropStep` | xv6-riscv-labs-riscv/kernel/bio.c:124-136 | a reader gives a reference back, and the same is kept |
| `Readers.Others.LockStep` | xv6-riscv-labs-riscv/kernel/bio.c:70-72 | a reader locks a buffer it references and nobody has locked |
| `Readers.Others.UnlockStep` | xv6-riscv-labs-riscv/kernel/bio.c:117-122 | a reader unlocks a buffer it has locked |
| `Readers.Others.ReadStep` | xv6-riscv-labs-riscv/kernel/bio.c:92-103 | a reader that has a buffer locked sees the last contents logged or written for its block |
| `Readers.Others.Step` | xv6-riscv-labs-riscv/kernel/bio.c:58-137 | every step of a reader keeps the disk, the logical disk, the write trace, all pins, and the identity and contents of the buffers the log holds |
| `Readers.Others.Run` | xv6-riscv-labs-riscv/kernel/bio.c:58-137 | so does any number of steps, in any order |
| `Readers.Take` | xv6-riscv-labs-riscv/kernel/bio.c:58-89 | the log's bget among readers: a buffer for the block, none exactly if it is not cached and all are referenced |
| `Readers.Await` | xv6-riscv-labs-riscv/kernel/sleeplock.c:21-30 | acquiresleep by the log: it gets the lock once the readers let go of it, and waits only while a reader has it |
| `Readers.BreadAmong` | xv6-riscv-labs-riscv/kernel/bio.c:92-103 | bread with steps of readers before and between its own: the locked buffer holds the last contents logged or written for the block; no buffer exactly if the block is not cached and all are referenced; it waits only for a reader |
| `Readers.NotLocked` | xv6-riscv-labs-riscv/kernel/sleeplock.c:21-40 | the one buffer of a block is locked by the log or by a reader, never by both |
| `Readers.StoreAmong` | xv6-riscv-labs-riscv/kernel/bio.c:107-112 | contents put into a locked buffer and written: disk and logical disk change at that block only, and one write is issued |
| `Readers.BrelseAmong` | xv6-riscv-labs-riscv/kernel/bio.c:117-137 | brelse with steps of readers between its halves |
| `LogBlocks.ReadBoth` | xv6-riscv-labs-riscv/kernel/log.c:71-74 | the two breads of a turn: both blocks' contents, or no buffer, or asleep on a home block that a reader has locked |
| `LogBlocks.WriteLogBlock` | xv6-riscv-labs-riscv/kernel/log.c:178-191 | one turn of write_log among readers puts the logical contents of a home block into a log slot, or issues no write; without further steps of readers it finds no buffer exactly if all are referenced and the slot is not cached |
| `LogBlocks.InstallBlock` | xv6-riscv-labs-riscv/kernel/log.c:68-83 | one turn of install_trans among readers writes one home block from its slot and, outside recovery, takes one pin off exactly its buffer; or issues no write |
| `LogBlocks.WriteLog` | xv6-riscv-labs-riscv/kernel/log.c:178-191 | write_log issues exactly the slot writes of the transaction, or a prefix of them if it stops; with readers at rest it ends exactly if some buffer is neither referenced nor pinned and no home block is locked |
| `LogBlocks.InstallTrans` | xv6-riscv-labs-riscv/kernel/log.c:68-83 | install_trans issues exactly the home writes and leaves no pin behind, or a prefix of them if it stops; recovery never stops |
| `LogBlocks.FillHead` | xv6-riscv-labs-riscv/kernel/log.c:102-114 | the loop of write_head: entries below n are replaced, the rest of the header block is kept |
| `LogBlocks.WriteHead` | xv6-riscv-labs-riscv/kernel/log.c:102-114 | write_head among readers is one disk write, of the header block, or none for lack of a buffer |
| `LogBlocks.LogTurn` | xv6-riscv-labs-riscv/kernel/log.c:182-190 | a turn of write_log keeps the transaction pinned; with readers at rest it finds no buffer exactly if every one is referenced or pinned |
| `LogBlocks.InstallTurn` | xv6-riscv-labs-riscv/kernel/log.c:71-82 | a turn of install_trans leaves exactly the rest of the transaction pinned |
| `LogBlocks.BusyIsTaken` | xv6-riscv-labs-riscv/kernel/bio.c:77-88 | between the log's steps all buffers are referenced exactly if each is pinned or has a reader |
| `LogBlocks.BusyNoLog` | xv6-riscv-labs-riscv/kernel/bio.c:63-88 | when all buffers are referenced none caches a log block, so every turn needs a free one |
| `LogBlocks.BusyBound` | xv6-riscv-labs-riscv/kernel/param.h:9-11 | the cache runs out only if it has no more buffers than the transaction has blocks and the readers references |
| `LogBlocks.SpareIffRoom` | xv6-riscv-labs-riscv/kernel/log.c:178-191 | with a transaction pinned in the cache some buffer is not pinned exactly if the transaction is smaller than the cache |
| `LogBlocks.CommitParts` | xv6-riscv-labs-riscv/kernel/log.c:193-203 | where the parts of commit stand in its write sequence: log blocks, header, home blocks, cleared header |
| `LogBlocks.CommitComposes` | xv6-riscv-labs-riscv/kernel/log.c:193-203 | all the writes of commit together change no logical home block and leave the transaction on the disk |
| `Log.ReadHead` | xv6-riscv-labs-riscv/kernel/log.c:86-97 | read_head replaces the first n entries of the in-memory header |
| `Log.RecoverFromLog` | xv6-riscv-labs-riscv/kernel/log.c:116-123 | recovery on a freshly booted cache issues exactly the modelled recovery writes and ends in the committed home blocks |
| `Log.Redo` | xv6-riscv-labs-riscv/kernel/log.c:119-122 | install_trans and write_head at boot issue the recovery writes; no buffer is missing |
| `Log.WriteTx` | xv6-riscv-labs-riscv/kernel/log.c:195-197 | write_log and write_head issue a prefix of commit's writes, all up to the header if they end |
| `Log.InstallTx` | xv6-riscv-labs-riscv/kernel/log.c:198-201 | install_trans and the cleared header issue the rest, or a prefix of it |
| `Log.CommitTx` | xv6-riscv-labs-riscv/kernel/log.c:193-203 | commit of a non-empty transaction among readers issues a prefix of the modelled writes in every case and all of them if it ends |
| `Log.OpChanges` | xv6-riscv-labs-riscv/kernel/log.c:126-175 | how one operation starting, ending or adding a block moves the number of operations and their unused shares |
| `Log.RoomForShare` | xv6-riscv-labs-riscv/kernel/log.c:126-175 | an operation that has added fewer than MAXOPBLOCKS blocks finds room in the log, and no commit is running |
| `Log.CommitAlone` | xv6-riscv-labs-riscv/kernel/log.c:146-175 | while a commit runs no process has an operation outstanding |
| `Log.TxLog.constructor` | xv6-riscv-labs-riscv/kernel/log.c:54-65 | initlog recovers whatever a crash left and starts with an empty log |
| `Log.TxLog.BeginOp` | xv6-riscv-labs-riscv/kernel/log.c:126-142 | an operation is admitted exactly if no commit runs and every outstanding operation's full share still fits; the reservation invariant is kept |
| `Log.TxLog.EndOp` | xv6-riscv-labs-riscv/kernel/log.c:146-165 | the "log.committing" panic is unreachable, and exactly the last operation starts the commit |
| `Log.TxLog.FindLogged` | xv6-riscv-labs-riscv/kernel/log.c:225-228 | the absorption search finds the block's entry or shows there is none |
| `Log.TxLog.LogWrite` | xv6-riscv-labs-riscv/kernel/log.c:214-235 | refused exactly if the log is full, even for a block already in it; never for an operation with share left; absorbed or appended and pinned; the block's logical contents become the buffer's; the reservation holds afterwards exactly if the unused shares still fit |
| `Log.TxLog.PinNew` | xv6-riscv-labs-riscv/kernel/log.c:229-232 | a block logged for the first time is pinned and its logical contents become the buffer's |
| `Log.TxLog.Commit` | xv6-riscv-labs-riscv/kernel/log.c:193-203 | while readers take any steps, commit issues a prefix of the modelled writes, all of them if it ends; it runs out of buffers only if the cache is no larger than transaction and readers together, and sleeps only on a home block a reader has locked; with readers at rest it ends exactly if the transaction is empty, or some buffer is free and no home block is locked |
| `Log.TxLog.CommitQuiet` | xv6-riscv-labs-riscv/kernel/log.c:193-203 | without readers commit ends exactly if the transaction is empty or smaller than the buffer cache |
| `Log.TxLog.EndCommit` | xv6-riscv-labs-riscv/kernel/log.c:166-175 | after a commit the log admits operations again |
| `LogRun.FillLog` | xv6-riscv-labs-riscv/kernel/param.h:9-11 | a run from boot in which three operations at once log ten blocks each: the log is full and every buffer pinned |
| `LogRun.FullCommitFails` | xv6-riscv-labs-riscv/kernel/log.c:193-203 | the commit of that transaction finds no buffer |
| `LogRun.LoggedBlockRefused` | xv6-riscv-labs-riscv/kernel/log.c:214-220 | in that log log_write refuses a block that is already there |
| `LogRun.ReaderStopsCommit` | xv6-riscv-labs-riscv/kernel/bio.c:75-88 | with one more buffer than blocks logged, a reader holding it stops the commit |
| `Ring.Unlink` | xv6-riscv-labs-riscv/kernel/bio.c:126-128 | taking a buffer out of the prev/next ring |
| `Ring.InsertFront` | xv6-riscv-labs-riscv/kernel/bio.c:129-132 | putting it in front |
| `BufferCache.MoveToFront` | xv6-riscv-labs-riscv/kernel/bio.c:117-136 | unlinking and relinking a buffer keeps the ring a permutation of all buffers in order of last release to zero |
| `BufferCache.PinnedKept` | xv6-riscv-labs-riscv/kernel/bio.c:139-151 | changes that keep pins, identities and home contents keep every pin |
| `BufferCache.RecycleCoherent` | xv6-riscv-labs-riscv/kernel/bio.c:76-86 | reusing an unreferenced buffer for a block that is not cached keeps the cache coherent with the logical disk |
| `BufferCache.FillCoherent` | xv6-riscv-labs-riscv/kernel/bio.c:93-104 | reading a block into an invalid buffer keeps it coherent |
| `BufferCache.RewriteCoherent` | xv6-riscv-labs-riscv/kernel/bio.c:107-113 | writing a buffer out keeps it coherent |
| `BufferCache.UnpinCoherent` | xv6-riscv-labs-riscv/kernel/bio.c:147-151 | a pin may go once disk and logical contents agree |
| `BufferCache.BCache.constructor` | xv6-riscv-labs-riscv/kernel/bio.c:36-54 | binit leaves an empty, coherent cache whose ring holds every buffer |
| `BufferCache.BCache.Lookup` | xv6-riscv-labs-riscv/kernel/bio.c:66-73 | the forward search finds the block's buffer or shows that none caches it |
| `BufferCache.BCache.Victim` | xv6-riscv-labs-riscv/kernel/bio.c:75-86 | the backward search finds the unreferenced buffer released longest ago, or all are referenced |
| `BufferCache.BCache.Bget` | xv6-riscv-labs-riscv/kernel/bio.c:58-89 | the cached buffer with one more reference, or the least recently used free one recycled; no buffer exactly if the block is not cached and all are referenced; at most one buffer per block |
| `BufferCache.BCache.Acquire` | xv6-riscv-labs-riscv/kernel/bio.c:70-72 | the buffer is locked, and its holder sees no half-made change |
| `BufferCache.BCache.Fill` | xv6-riscv-labs-riscv/kernel/bio.c:93-104 | an invalid buffer is filled from disk; its data is then the logical contents of its block |
| `BufferCache.BCache.Modify` | xv6-riscv-labs-riscv/kernel/bio.c:87-104 | a holder may change a locked buffer, which is then ahead of the logical disk until logged or written |
| `BufferCache.BCache.Bwrite` | xv6-riscv-labs-riscv/kernel/bio.c:107-113 | one disk write of the buffer's block; disk and logical contents become the buffer's |
| `BufferCache.BCache.Bpin` | xv6-riscv-labs-riscv/kernel/bio.c:139-144 | one more reference that only bunpin takes back |
| `BufferCache.BCache.Bunpin` | xv6-riscv-labs-riscv/kernel/bio.c:146-151 | one reference less |
| `BufferCache.BCache.Drop` | xv6-riscv-labs-riscv/kernel/bio.c:124-136 | a reference less; at zero the buffer moves to the front of the ring and is the last released |
| `BufferCache.BCache.Relink` | xv6-riscv-labs-riscv/kernel/bio.c:126-132 | the pointer updates of brelse keep the ring and its order |
| `FsLayout.WordSet` | xv6-riscv-labs-riscv/kernel/fs.c:394-400 | an entry of an indirect block written and read as little-endian words, the others kept |
| `FsLayout.WordBytes` | xv6-riscv-labs-riscv/kernel/fs.c:394-400 | an entry is written in its own four bytes, little end first |
| `FsLayout.Ownership` | xv6-riscv-labs-riscv/kernel/fs.c:64-103 | a bit is set exactly for metadata blocks and blocks that some slot of some inode holds; two slots never hold the same block; held blocks are data blocks |
| `FsLayout.AllocateKeeps` | xv6-riscv-labs-riscv/kernel/fs.c:64-86 | marking and zeroing a free block changes no slot and no page of any file |
| `FsLayout.AttachRoot` | xv6-riscv-labs-riscv/kernel/fs.c:392-394 | a new indirect block adds no data block to its inode, because balloc zeroed it |
| `FsLayout.AttachSlot` | xv6-riscv-labs-riscv/kernel/fs.c:395-400 | filling an entry of an indirect block changes that slot of that inode and no other slot or page |
| `FsLayout.MapDirect` | xv6-riscv-labs-riscv/kernel/fs.c:383-387 | allocating a direct block keeps every block owned once |
| `FsLayout.MapSlot` | xv6-riscv-labs-riscv/kernel/fs.c:390-402 | so does allocating an indirect one |
| `FsLayout.WritePage` | xv6-riscv-labs-riscv/kernel/fs.c:486-506 | new bytes in a data block change one page of one file |
| `FsLayout.EmptiedFrees` | xv6-riscv-labs-riscv/kernel/fs.c:409-437 | emptying an inode frees exactly the blocks in its slots and changes no page of any other |
| `FsLayout.EmptiedAccounted` | xv6-riscv-labs-riscv/kernel/fs.c:409-437 | and keeps every block accounted for |
| `FsContent.EmptiedSized` | xv6-riscv-labs-riscv/kernel/fs.c:409-437 | the emptied file is empty and all others hold what they held |
| `FsContent.PatchStep` | xv6-riscv-labs-riscv/kernel/fs.c:497-506 | one copy of writei extends the patched range of the file, byte by byte, across block boundaries |
| `FsContent.PatchedContent` | xv6-riscv-labs-riscv/kernel/fs.c:486-517 | the patched bytes seen as a file: the old contents spliced with the source as far as the size reaches; other files as they were |
| `FsContent.ContentSlice` | xv6-riscv-labs-riscv/kernel/fs.c:465-477 | the bytes one turn of readi copies are those of the file |
| `FsContent.DiffersIff` | xv6-riscv-labs-riscv/kernel/fs.c:500-503 | a partial copy leaves the page as it was exactly if the bytes copied are those that were there |
| `FileSystem.BmapAfford` | xv6-riscv-labs-riscv/kernel/fs.c:377-405 | what one bmap adds to the log: two blocks if it allocates, nothing if not, and two more once for the indirect block |
| `FileSystem.ChunkCost` | xv6-riscv-labs-riscv/kernel/file.c:148-160 | a chunk of filewrite costs at most nine blocks before its inode, because an unaligned write starts in a block that exists |
| `FileSystem.BmapTraced` | xv6-riscv-labs-riscv/kernel/fs.c:377-405 | a block that was there before is not in the log after bmap |
| `FileSystem.FileSys.constructor` | xv6-riscv-labs-riscv/kernel/fs.c:41-47 | a file system of empty files in which every block is accounted for |
| `FileSystem.FileSys.FindFree` | xv6-riscv-labs-riscv/kernel/fs.c:71-84 | the two loops find the first clear bit, or all are set |
| `FileSystem.FileSys.Balloc` | xv6-riscv-labs-riscv/kernel/fs.c:64-86 | the first free block, marked, zeroed and logged with its bitmap block; its panic exactly if every block is in use |
| `FileSystem.FileSys.Bfree` | xv6-riscv-labs-riscv/kernel/fs.c:89-103 | clears one bit that was set; every call meets that, so "freeing free block" is unreachable |
| `FileSystem.FileSys.Bmap` | xv6-riscv-labs-riscv/kernel/fs.c:377-405 | slot bn has the block it had or a new zeroed one; no other page, size or inode changes; the accounts are kept; exactly which blocks are logged; nothing happens for a block that exists; it panics exactly if fewer blocks are free than the slot needs, and otherwise uses exactly those |
| `FileSystem.FileSys.BmapIndirect` | xv6-riscv-labs-riscv/kernel/fs.c:390-402 | the same through the indirect block, which may be new |
| `FileSystem.FileSys.NewEntry` | xv6-riscv-labs-riscv/kernel/fs.c:395-401 | the entry of the indirect block gets a new block, and the indirect block is logged |
| `FileSystem.FileSys.Itrunc` | xv6-riscv-labs-riscv/kernel/fs.c:409-437 | the inode, in memory and on disk, is empty and the bits cleared are exactly those of its blocks; inode and bitmap changes are all logged |
| `FileSystem.FileSys.FreeDirect` | xv6-riscv-labs-riscv/kernel/fs.c:416-421 | the first loop frees exactly the direct blocks |
| `FileSystem.FileSys.FreeIndirect` | xv6-riscv-labs-riscv/kernel/fs.c:423-433 | the second exactly the indirect ones and the indirect block |
| `FileSystem.FileSys.Readi` | xv6-riscv-labs-riscv/kernel/fs.c:455-478 | exactly the slice of the file from off, cut at its size; nothing past the end or on 32-bit overflow; -1 and a prefix if the destination gives out; never allocates |
| `FileSystem.FileSys.CopyBlock` | xv6-riscv-labs-riscv/kernel/fs.c:497-505 | the copy stops where the source does; a full copy is logged, a torn one is not |
| `FileSystem.FileSys.MapBlock` | xv6-riscv-labs-riscv/kernel/fs.c:497-498 | bmap in the middle of a write keeps what has been written |
| `FileSystem.FileSys.TearIff` | xv6-riscv-labs-riscv/kernel/fs.c:497-505 | the last copy of a write whose source gives out in a block the file had leaves that block changed exactly if a byte copied differs |
| `FileSystem.FileSys.WriteLoop` | xv6-riscv-labs-riscv/kernel/fs.c:497-506 | the loop writes all of the source, or as much as there is up to a fault |
| `FileSystem.FileSys.Writei` | xv6-riscv-labs-riscv/kernel/fs.c:486-517 | -1 and no change exactly for a bad range; otherwise the file is spliced with the source up to the last byte copied, other files unchanged, inode on disk; with an empty log before, every changed block is logged exactly unless the source gives out inside a block that existed, after copying a byte that differs; a chunk's log_writes all fit its share; it panics exactly if fewer blocks are free than the pages reached need |
| `FileSystem.FileSys.WriteThenRead` | xv6-riscv-labs-riscv/kernel/fs.c:455-517 | what was written in full is read back, whichever direct and indirect blocks it lies in |
| `FileSystem.FileSys.WriteChunk` | xv6-riscv-labs-riscv/kernel/file.c:156-172 | one transaction of filewrite: its log fits its share and holds every block that changed exactly unless the source tears one |
| `FileSystem.FileSys.Filewrite` | xv6-riscv-labs-riscv/kernel/file.c:135-175 | returns n exactly if the range and the source allow it and the file is then spliced with all of the source; otherwise -1, and the offset says how far it got; as many transactions as chunks are begun, none outgrows MAXOPBLOCKS, and each but one that failed logs all it changed |
| `FileRun.TornWrite` | xv6-riscv-labs-riscv/kernel/fs.c:497-505 | a run at concrete bytes: a fault after one byte leaves the file changed and the change out of the log |
| `DirTree.AddFileKeeps` | xv6-riscv-labs-riscv/kernel/sysfile.c:241-283 | a new name for a file keeps every link count equal to the entries that name the inode from linked directories |
| `DirTree.AddDirKeeps` | xv6-riscv-labs-riscv/kernel/sysfile.c:267-276 | so does a new directory, whose ".." counts for its parent and whose "." counts for nobody |
| `DirTree.EmptyDirRefs` | xv6-riscv-labs-riscv/kernel/sysfile.c:169-181 | the only entry that names an empty directory is its parent's |
| `DirTree.ParentStays` | xv6-riscv-labs-riscv/kernel/sysfile.c:217-220 | its parent keeps a link after losing the one from ".." |
| `DirTree.RemoveFileKeeps` | xv6-riscv-labs-riscv/kernel/sysfile.c:214-229 | unlinking a file keeps the counts, and its count was not zero |
| `DirTree.RemoveDirKeeps` | xv6-riscv-labs-riscv/kernel/sysfile.c:214-229 | so does unlinking an empty directory, whose count goes from one to zero |
| `DirTree.FreedKeeps` | xv6-riscv-labs-riscv/kernel/fs.c:332-357 | freeing an inode without links keeps them |
| `DirTree.AddFileUnlinked` | xv6-riscv-labs-riscv/kernel/sysfile.c:241-283 | a name added in a directory that is not linked leaves a count that is too high |
| `DirTree.AddDirUnlinked` | xv6-riscv-labs-riscv/kernel/sysfile.c:267-276 | a directory made in one that is not linked leaves the count of the parent that ".." names wrong |
| `DirTree.PutContents` | xv6-riscv-labs-riscv/kernel/fs.c:556-583 | an entry put into an empty slot is an update of the map from names |
| `DirTree.ClearContents` | xv6-riscv-labs-riscv/kernel/sysfile.c:214-216 | an entry cleared is a deletion from it |
| `Directories.DirFs.constructor` | xv6-riscv-labs-riscv/kernel/fs.c:41-47 | a root directory and free inodes |
| `Directories.DirFs.Dirlookup` | xv6-riscv-labs-riscv/kernel/fs.c:529-552 | lookup in the map from names cut to 14 bytes |
| `Directories.DirFs.Dirlink` | xv6-riscv-labs-riscv/kernel/fs.c:556-583 | -1 and no change exactly if the name is there; otherwise the map is updated in the first empty entry or at the end |
| `Directories.DirFs.Isdirempty` | xv6-riscv-labs-riscv/kernel/sysfile.c:169-181 | true exactly if only the two dots are in use |
| `Directories.DirFs.Ialloc` | xv6-riscv-labs-riscv/kernel/fs.c:195-217 | the first free inode, or none is free |
| `Directories.DirFs.Create` | xv6-riscv-labs-riscv/kernel/sysfile.c:241-283 | finds, refuses or makes as the name and kinds say; ilock panics exactly for the ".." of a removed directory whose parent has been freed; every link count is right afterwards exactly if the directory is itself linked; the panics on the dots and the link are unreachable |
| `Directories.DirFs.Link` | xv6-riscv-labs-riscv/kernel/sysfile.c:119-166 | refused exactly for a directory, a missing parent or a taken name, and then nothing has changed; otherwise every link count is right exactly if the directory is itself linked |
| `Directories.DirFs.Unlink` | xv6-riscv-labs-riscv/kernel/sysfile.c:184-238 | succeeds exactly for a name other than the dots that does not name a non-empty directory; the name is gone, nothing else changes but the counts, which are right, and "nlink < 1" is unreachable |
| `Directories.DirFs.Iput` | xv6-riscv-labs-riscv/kernel/fs.c:332-357 | the last reference to an unlinked inode frees it |
| `DirRun.RemovedDir` | xv6-riscv-labs-riscv/kernel/sysfile.c:184-238 | a run that makes a directory and removes it while its inode is held |
| `DirRun.CreateInRemoved` | xv6-riscv-labs-riscv/kernel/sysfile.c:241-283 | a file made in it: some link count is wrong |
| `DirRun.MkdirInRemoved` | xv6-riscv-labs-riscv/kernel/sysfile.c:241-283 | a directory made in it: some link count is wrong |
| `DirRun.LinkInRemoved` | xv6-riscv-labs-riscv/kernel/sysfile.c:119-166 | a link made in it: some link count is wrong |
| `DirRun.DotDotPanics` | xv6-riscv-labs-riscv/kernel/sysfile.c:252-255 | a run to that panic of ilock |
| `DirBytes.TextCut` | xv6-riscv-labs-riscv/kernel/fs.h:54-59 | cutting a name to 14 bytes is what the directory model calls its short form |
| `DirBytes.DecodeEncode` | xv6-riscv-labs-riscv/kernel/fs.h:54-59 | a 16-byte record read back is the entry written, its name cut to 14 bytes and its inode number to 16 bits |
| `DirBytes.EntriesPut` | xv6-riscv-labs-riscv/kernel/fs.c:577-580 | writing a record in the bytes of a directory, or at their end, puts exactly that entry |
| `DirBytes.Namecmp` | xv6-riscv-labs-riscv/kernel/string.c:60-68 | strncmp is zero exactly if the names agree as far as a record holds them |
| `DirBytes.Strncpy` | xv6-riscv-labs-riscv/kernel/string.c:70-81 | the name cut or filled with zeros to 14 bytes |
| `DirBytes.ReadRecord` | xv6-riscv-labs-riscv/kernel/fs.c:538-540 | readi delivers the record, so "dirlookup read" and "dirlink read" are unreachable |
| `DirBytes.Dirlookup` | xv6-riscv-labs-riscv/kernel/fs.c:529-553 | on the bytes of the directory: exactly what its entries map the short name to |
| `DirBytes.EmptyRecord` | xv6-riscv-labs-riscv/kernel/fs.c:569-575 | the offset of the first empty record, or the end |
| `DirBytes.WriteRecord` | xv6-riscv-labs-riscv/kernel/fs.c:577-580 | writei of a record puts one entry and leaves other files; the panic exactly past the largest file or without blocks |
| `DirBytes.Dirlink` | xv6-riscv-labs-riscv/kernel/fs.c:556-583 | on the bytes: -1 and no change exactly if the name is there, otherwise the directory's map is updated at the short name; its panic exactly past the largest file or without blocks |
| `DirBytes.Isdirempty` | xv6-riscv-labs-riscv/kernel/sysfile.c:168-182 | on the bytes: true exactly if no record after the first two is in use; its panic is unreachable |
| `DirBytes.RecordThere` | xv6-riscv-labs-riscv/kernel/fs.c:377-405 | writing a record that is there needs no block |
| `DirBytes.ClearRecord` | xv6-riscv-labs-riscv/kernel/sysfile.c:214-216 | zeros over a record clear exactly that entry; "unlink: writei" is unreachable |
| `DirBytes.Unlink` | xv6-riscv-labs-riscv/kernel/sysfile.c:200-216 | on the bytes: refused exactly for the dots, a missing name or a directory in use; otherwise exactly the one name goes from the directory's map and other files are as before |
| `FreeList.InsertOrdered` | xv6-riscv-labs-riscv/user/umalloc.c:24-42 | putting a block into the address-ordered list and joining neighbours leaves it ordered with no two adjacent blocks, holding exactly the old units and the new |
| `FreeList.InsertStored` | xv6-riscv-labs-riscv/user/umalloc.c:33-42 | the pointer and size updates of free represent that list |
| `FreeList.NextStored` | xv6-riscv-labs-riscv/user/umalloc.c:33-37 | as does the half that joins the block above |
| `FreeList.TakeOrdered` | xv6-riscv-labs-riscv/user/umalloc.c:77-85 | cutting a request off the tail of a block, or taking it whole |
| `FreeList.TakeStored` | xv6-riscv-labs-riscv/user/umalloc.c:77-85 | the updates of malloc represent that list |
| `Umalloc.RequestGranted` | xv6-riscv-labs-riscv/user/umalloc.c:46-60 | sbrk's int argument grants what morecore asks for exactly below 2^27 headers |
| `Umalloc.RefusedIff` | xv6-riscv-labs-riscv/user/umalloc.c:46-60 | sbrk can refuse exactly the requests whose byte count is positive as an int |
| `Umalloc.NoRoomIff` | xv6-riscv-labs-riscv/user/umalloc.c:69-77 | the size test of malloc in headers is the one in bytes |
| `Umalloc.FreeTiled` | xv6-riscv-labs-riscv/user/umalloc.c:24-42 | the claimed memory stays exactly tiled by free and allocated blocks when one is freed |
| `Umalloc.TakeTiled` | xv6-riscv-labs-riscv/user/umalloc.c:77-85 | and when one is allocated |
| `Umalloc.ClaimTiled` | xv6-riscv-labs-riscv/user/umalloc.c:46-60 | and when sbrk adds a region |
| `Umalloc.AllocatedFits` | xv6-riscv-labs-riscv/user/umalloc.c:24-33 | an allocated block fits exactly one gap of the free list |
| `Umalloc.Heap.constructor` | xv6-riscv-labs-riscv/user/umalloc.c:20-22 | an empty heap |
| `Umalloc.Heap.Search` | xv6-riscv-labs-riscv/user/umalloc.c:28-32 | the loop of free ends at the gap the block belongs to |
| `Umalloc.Heap.Link` | xv6-riscv-labs-riscv/user/umalloc.c:33-42 | links and merges: the stored list is the ordered insertion |
| `Umalloc.Heap.Free` | xv6-riscv-labs-riscv/user/umalloc.c:24-42 | exactly the block becomes free, everything else is as it was, and the heap stays tiled and ordered |
| `Umalloc.Heap.Morecore` | xv6-riscv-labs-riscv/user/umalloc.c:46-60 | a new region joins the free list, or nothing changes exactly if the request is refused |
| `Umalloc.Heap.Malloc` | xv6-riscv-labs-riscv/user/umalloc.c:63-90 | fails exactly if no free block has room for nbytes after its header and sbrk refuses, which it can only for requests that are positive as an int; otherwise a new block, the smallest that has room; at most one morecore; the search terminates |
| `Umalloc.Heap.MallocUnits` | xv6-riscv-labs-riscv/user/umalloc.c:70-90 | the search for a number of headers: none exactly if no free block is that long and sbrk refuses |
| `Umalloc.Heap.TakeFrom` | xv6-riscv-labs-riscv/user/umalloc.c:77-85 | the found block is cut or unlinked |
| `Umalloc.HugeMalloc` | xv6-riscv-labs-riscv/user/umalloc.c:46-60 | a run: malloc of two gigabytes from a new heap gives a block that the break does not reach |
| `SleepLock.StepKeepsInv` | xv6-riscv-labs-riscv/kernel/proc.c:476-574 | every step of acquiresleep, releasesleep, sleep, wakeup and the scheduler, in any interleaving, keeps the protocol invariant |
| `SleepLock.RunKeepsInv` | xv6-riscv-labs-riscv/kernel/proc.c:476-574 | so does every run |
| `SleepLock.NoLostWakeup` | xv6-riscv-labs-riscv/kernel/sleeplock.c:21-40 | whenever the spinlock is free and the sleep lock not taken, no process sleeps on it or is on its way to sleep |
| `SleepLock.MutualExclusion` | xv6-riscv-labs-riscv/kernel/sleeplock.c:21-52 | at most one process holds the sleep lock, and the recorded pid is its |
| `SleepLock.KeepsTrying` | xv6-riscv-labs-riscv/kernel/sleeplock.c:21-31 | acquiresleep does not come back without the lock, over any run |
| `SleepLock.NobodyStuck` | xv6-riscv-labs-riscv/kernel/sleeplock.c:21-41 | whenever the lock and its spinlock are free, whoever is in acquiresleep can get the lock by steps of its own and of the scheduler on it |
| `Pipe.Pipe.Put` | xv6-riscv-labs-riscv/kernel/pipe.c:94-97 | a byte stored goes to the end of the queue |
| `Pipe.Pipe.Take` | xv6-riscv-labs-riscv/kernel/pipe.c:118-124 | a byte removed comes from its front |
| `Pipe.CountersTellFull` | xv6-riscv-labs-riscv/kernel/pipe.c:84-110 | the wrapping 32-bit counters tell full and empty apart |
| `Pipe.Pipe.Write` | xv6-riscv-labs-riscv/kernel/pipe.c:76-103 | the bytes stored are a prefix of the source, in order; when it sleeps, returns or fails; no reader is left asleep on a non-empty pipe exactly unless readers sleep, the read end is open, and the writer is killed within the first PIPESIZE bytes after at least one and before a fault or the end |
| `Pipe.Pipe.Copy` | xv6-riscv-labs-riscv/kernel/pipe.c:84-100 | the loop stores bytes up to a kill, a full pipe, a fault or the end |
| `Pipe.NotMidway` | xv6-riscv-labs-riscv/kernel/pipe.c:84-100 | a write that stopped for another reason was not killed midway |
| `Pipe.Pipe.Read` | xv6-riscv-labs-riscv/kernel/pipe.c:105-130 | the bytes removed are the front of the queue; sleeps exactly on an empty pipe with a writer; all sleeping writers are woken otherwise |
| `Pipe.Pipe.Drain` | xv6-riscv-labs-riscv/kernel/pipe.c:117-126 | the copy loop; a byte whose copy faults is lost |
| `Pipe.Pipe.Close` | xv6-riscv-labs-riscv/kernel/pipe.c:58-73 | wakes the other side; freed exactly when both ends are closed |
| `Pipe.KilledWriterStrandsReader` | xv6-riscv-labs-riscv/kernel/pipe.c:84-88 | a concrete run in which a killed writer leaves a reader asleep on a non-empty pipe |
| `Virtio.Driver.constructor` | xv6-riscv-labs-riscv/kernel/virtio_disk.c:77-140 | all descriptors are free and nothing is in flight |
| `Virtio.Driver.AllocDesc` | xv6-riscv-labs-riscv/kernel/virtio_disk.c:144-154 | the first free descriptor, or none is |
| `Virtio.Driver.FreeDesc` | xv6-riscv-labs-riscv/kernel/virtio_disk.c:157-170 | refused exactly for a descriptor out of range or free already |
| `Virtio.Driver.Alloc3` | xv6-riscv-labs-riscv/kernel/virtio_disk.c:189-200 | three descriptors exactly if three are free; otherwise all as before |
| `Virtio.Driver.Submit` | xv6-riscv-labs-riscv/kernel/virtio_disk.c:203-272 | a request gets a three-descriptor chain disjoint from all others and the next ring slot, exactly if three descriptors are free |
| `Virtio.Driver.DeviceFetch` | xv6-riscv-labs-riscv/kernel/virtio_disk.c:262-270 | the device takes requests in the order submitted, and no slot is overwritten before it has |
| `Virtio.Driver.DeviceComplete` | xv6-riscv-labs-riscv/kernel/virtio_disk.c:262-270 | the device does from the descriptors the transfer requested, or reports any other status and leaves anything in the buffer or sector it was to fill |
| `Virtio.Driver.Transfer` | xv6-riscv-labs-riscv/kernel/virtio_disk.c:218-255 | the sector and the buffer the descriptors name are those of the request |
| `Virtio.Driver.SeeOne` | xv6-riscv-labs-riscv/kernel/virtio_disk.c:298-311 | the request completed is finished once; the status panic is taken exactly if the device reported an error |
| `Virtio.Driver.Interrupt` | xv6-riscv-labs-riscv/kernel/virtio_disk.c:282-315 | all completions the device has published are taken, whatever their order; it panics exactly if one of them reports an error |
| `Virtio.Driver.Finish` | xv6-riscv-labs-riscv/kernel/virtio_disk.c:273-278 | a chain is freed once, after its request completed; "free_desc 2" is unreachable |
| `Virtio.RingsHaveRoom` | xv6-riscv-labs-riscv/kernel/virtio_disk.c:262-270 | at most as many requests are under way as the rings have slots |
| `Virtio.IndicesTellApart` | xv6-riscv-labs-riscv/kernel/virtio_disk.c:298-305 | the wrapping 16-bit indices tell an empty ring from one with entries |
| `Regex.MatchHere` | xv6-riscv-labs-riscv/user/grep.c:83-94 | true exactly if the compiled pattern accepts a prefix of the text |
| `Regex.MatchStar` | xv6-riscv-labs-riscv/user/grep.c:97-104 | true exactly if some number of repetitions is followed by a match |
| `Regex.Match` | xv6-riscv-labs-riscv/user/grep.c:71-80 | true exactly if the declarative meaning of ^ . * $ accepts some placement in the text |
| `Regex.CompileShownIff` | xv6-riscv-labs-riscv/user/grep.c:83-94 | compiling the text of a pattern gives the pattern back exactly if the text is unambiguous |
| `Regex.ShowCompiled` | xv6-riscv-labs-riscv/user/grep.c:83-94 | every string is the text of the pattern it compiles to |
| `Regex.LiteralFound` | xv6-riscv-labs-riscv/user/grep.c:71-94 | a pattern of plain characters is found exactly in the texts that contain it |
| `Regex.WholeText` | xv6-riscv-labs-riscv/user/grep.c:71-104 | ^ and $ make a match of the whole text, . fits any character, and c* any number of them |
| `Grep.HandleLines` | xv6-riscv-labs-riscv/user/grep.c:18-28 | the lines complete in the buffer are handled, and what is left selects the rest |
| `Grep.Turn` | xv6-riscv-labs-riscv/user/grep.c:14-33 | one read, whatever its size and bytes, leaves output and buffer equal to the selection of the input |
| `Grep.Grep` | xv6-riscv-labs-riscv/user/grep.c:11-34 | however read splits the input, the output is the matching newline-terminated lines in order up to the first line that does not fit 1023 bytes or holds a NUL; it is all the matching lines exactly if none is lost there |
| `Grep.SelectedIs` | xv6-riscv-labs-riscv/user/grep.c:11-34 | the lines written are the matching ones of those before the first line that stops the loop |
| `Grep.SelectedIff` | xv6-riscv-labs-riscv/user/grep.c:11-34 | the lines written are all the matching lines exactly if no line at or after the first that does not fit the buffer or holds a NUL matches |
| `Grep.AllFit` | xv6-riscv-labs-riscv/user/grep.c:11-34 | so they are whenever every line fits and none holds a NUL |
| `Grep.LongLineLost` | xv6-riscv-labs-riscv/user/grep.c:17 | a line of 1023 bytes is never written, though the empty pattern matches it |
| `Grep.NulLineLost` | xv6-riscv-labs-riscv/user/grep.c:21 | nor is a line after one that holds a NUL |
| `Sv39.PteParts` | xv6-riscv-labs-riscv/kernel/riscv.h:347-352 | the frame and the flags of an entry are those it was made from |
| `Sv39.SlotsDistinct` | xv6-riscv-labs-riscv/kernel/vm.c:80-99 | two pages of one or two spaces reach two different entries |
| `Sv39.Down` | xv6-riscv-labs-riscv/kernel/riscv.h:354-357 | the three indices of a page number spell the path to its entry |
| `Sv39.IndicesSpell` | xv6-riscv-labs-riscv/kernel/riscv.h:354-357 | the three indices are the nine-bit digits of the page number |
| `Sv39.AddChildKeeps` | xv6-riscv-labs-riscv/kernel/vm.c:91-96 | a new zeroed page-table page changes no leaf of any space |
| `Sv39.SetLeafKeeps` | xv6-riscv-labs-riscv/kernel/vm.c:154-159 | writing an entry changes that leaf and no other |
| `Sv39.DropNodeKeeps` | xv6-riscv-labs-riscv/kernel/vm.c:266-283 | giving back an empty page-table page and clearing its entry changes no leaf |
| `Sv39.FilledUndone` | xv6-riscv-labs-riscv/kernel/vm.c:220-246 | filling a range and giving it up restores every leaf and every use but for new page-table pages |
| `Sv39.BackedBelow` | xv6-riscv-labs-riscv/kernel/vm.c:220-246 | a space has no more pages than memory, so memory runs out before the space does |
| `VirtualMemory.Memory.constructor` | xv6-riscv-labs-riscv/kernel/kalloc.c:26-41 | every page after the kernel is free, once |
| `VirtualMemory.Memory.Kalloc` | xv6-riscv-labs-riscv/kernel/kalloc.c:68-81 | the first free page, junk-filled; none exactly if none is free; every page stays free once or used once |
| `VirtualMemory.Memory.Kfree` | xv6-riscv-labs-riscv/kernel/kalloc.c:46-63 | the page is free again; its range panic is unreachable |
| `VirtualMemory.Memory.Descend` | xv6-riscv-labs-riscv/kernel/vm.c:86-97 | one level of the walk |
| `VirtualMemory.Memory.Walk` | xv6-riscv-labs-riscv/kernel/vm.c:80-99 | the entry of the page, in the node that holds it; with alloc no leaf changes, without nothing does; fails exactly as memory or the tree say |
| `VirtualMemory.Memory.Walkaddr` | xv6-riscv-labs-riscv/kernel/vm.c:103-120 | the page behind a valid user page, none otherwise |
| `VirtualMemory.Memory.Mappages` | xv6-riscv-labs-riscv/kernel/vm.c:137-160 | exactly the pages of the range are mapped, to consecutive pages; on failure a first part, and memory is out; at most two page-table pages for each page |
| `VirtualMemory.Memory.Uvmunmap` | xv6-riscv-labs-riscv/kernel/vm.c:165-187 | exactly the pages of the range are unmapped and, if asked, freed |
| `VirtualMemory.Memory.Uvmcreate` | xv6-riscv-labs-riscv/kernel/vm.c:191-199 | an empty space, or none |
| `VirtualMemory.Memory.Uvmalloc` | xv6-riscv-labs-riscv/kernel/vm.c:220-244 | on success zeroed user pages of the space's own; on failure every leaf as before and the pages free again; fails only with fewer than three free pages for each one asked for; the panics are unreachable |
| `VirtualMemory.Memory.Uvmdealloc` | xv6-riscv-labs-riscv/kernel/vm.c:250-262 | exactly the pages between the sizes go |
| `VirtualMemory.Memory.Freewalk` | xv6-riscv-labs-riscv/kernel/vm.c:266-283 | exactly the page-table pages of the subtree become free; "freewalk: leaf" is unreachable on a space without leaves |
| `VirtualMemory.Memory.Uvmfree` | xv6-riscv-labs-riscv/kernel/vm.c:286-292 | nothing of the space is left and nothing else has changed |
| `VirtualMemory.Memory.Uvmcopy` | xv6-riscv-labs-riscv/kernel/vm.c:300-328 | equal contents and flags in pages of the child's own; on failure every leaf as before, and memory was short |
| `VirtualMemory.Memory.Uvmclear` | xv6-riscv-labs-riscv/kernel/vm.c:332-341 | the page stays mapped to the same page, without PTE_U |
| `PageBytes.BytesBack` | xv6-riscv-labs-riscv/kernel/vm.c:346-366 | the bytes of a page stored as 64-bit words and read back are the same bytes |
| `PageBytes.WordIs` | xv6-riscv-labs-riscv/kernel/riscv.h:347-352 | a word of memory is its eight bytes, little end first |
| `Spaces.CostNothing` | xv6-riscv-labs-riscv/kernel/proc.c:173-202 | a space made and unmade leaves the same pages in use, the same trees, the same leaves and the same pages free |
| `Spaces.RoundTrip` | xv6-riscv-labs-riscv/kernel/proc.c:105-168 | so does a page taken before and given back during |
| `Spaces.BeyondTwice` | xv6-riscv-labs-riscv/kernel/vm.c:220-328 | two steps on some spaces and kernel pages change nothing beyond those of both: no leaf, page-table page, use or content |
| `AddressSpace.ImageKept` | xv6-riscv-labs-riscv/kernel/proc.c:173-211 | steps on one space keep the shape of every other |
| `AddressSpace.ProcPagetable` | xv6-riscv-labs-riscv/kernel/proc.c:172-202 | a space with trampoline and trapframe only; or, short of five pages, nothing at all |
| `AddressSpace.ProcFreepagetable` | xv6-riscv-labs-riscv/kernel/proc.c:205-211 | everything the space had is free, nothing else has changed, no panic of uvmunmap or freewalk |
| `ProcMemory.Proc.Growproc` | xv6-riscv-labs-riscv/kernel/proc.c:253-269 | the shape is kept; it fails only growing and short of memory; success means the size asked for exactly unless shrinking below zero, which reports success and changes nothing |
| `ProcMemory.ShrinkBelowZero` | xv6-riscv-labs-riscv/kernel/proc.c:253-269 | a run: an empty process asked to shrink by a byte reports success |
| `ProcMemory.Proc.Allocproc` | xv6-riscv-labs-riscv/kernel/proc.c:119-135 | a trapframe and an empty space, and nothing beyond them differs; or, short of memory, everything as before |
| `ProcMemory.Proc.Freeproc` | xv6-riscv-labs-riscv/kernel/proc.c:151-168 | trapframe and space are free, and nothing beyond them differs |
| `ProcMemory.Proc.Fork` | xv6-riscv-labs-riscv/kernel/proc.c:273-294 | parent and child have the shape, the child a copy of every page, and nothing beyond the child's trapframe and space differs; or, only if memory was short, everything is as before |
| `Exec.Loadseg` | xv6-riscv-labs-riscv/kernel/exec.c:135-154 | "loadseg: address should exist" is unreachable; it succeeds exactly if the file has all the bytes, and then every byte of the segment is in place and every other byte as before |
| `Exec.LoadPage` | xv6-riscv-labs-riscv/kernel/exec.c:141-151 | one page of a segment more is in place |
| `Exec.ShowsFilled` | xv6-riscv-labs-riscv/kernel/exec.c:52-54 | growing the image adds zeros and keeps what is loaded |
| `Exec.LoadSegment` | xv6-riscv-labs-riscv/kernel/exec.c:44-59 | one program header; whatever fails, the image has the shape for the size that cleanup is given; on success every byte of the image is the last segment's that covers it, or zero |
| `Exec.LoadAll` | xv6-riscv-labs-riscv/kernel/exec.c:41-59 | all of them |
| `Exec.EndIsLast` | xv6-riscv-labs-riscv/kernel/exec.c:47-54 | the image ends where the last loaded segment does, its part past the file included |
| `Exec.ImageByteIs` | xv6-riscv-labs-riscv/kernel/exec.c:135-154 | each byte of the image is that of the last segment that covers it, or 0 if none does |
| `ArgStack.PushArgs` | xv6-riscv-labs-riscv/kernel/exec.c:78-98 | fails exactly if the strings with their NULs, each rounded up to 16, and the pointer array, rounded up to 16, take more than the page; otherwise sp is the end of the page less what they take, every string is intact and 16-aligned, and the array at sp holds their addresses and a zero |
| `ArgStack.Apart` | xv6-riscv-labs-riscv/kernel/exec.c:82-95 | strings and array are 16-byte aligned and do not overlap |
| `ArgStack.BottomIs` | xv6-riscv-labs-riscv/kernel/exec.c:82-95 | the pushes end at the page less the sum of the rounded sizes |
| `Exec.MakeStack` | xv6-riscv-labs-riscv/kernel/exec.c:69-98 | a guard page the user cannot touch and a stack page with the arguments above the image, which keeps its bytes; without lack of memory it fails exactly if the arguments take more than a page |
| `Exec.Replace` | xv6-riscv-labs-riscv/kernel/exec.c:12-129 | the process has the new image, every byte of it the file's or zero, with guard page, stack page, arguments and stack pointer in place, its old space is gone, and nothing beyond the two spaces differs; or it keeps the old one and no page, leaf or content differs; it succeeds on every well-formed image whose arguments fit, given memory |
| `SysExec.TakeArgs` | xv6-riscv-labs-riscv/kernel/sysfile.c:425-442 | a page for each argument, each named once; success means every argument was fetched and the array ended in time |
| `SysExec.FreeArgs` | xv6-riscv-labs-riscv/kernel/sysfile.c:446-453 | exactly the pages taken are free again |
| `SysExec.SysExec` | xv6-riscv-labs-riscv/kernel/sysfile.c:415-455 | on failure no page, leaf or content differs; on success the new stack has the arguments, and no page, leaf or content beyond the old and the new space differs |
| `Processes.OwnedStill` | xv6-riscv-labs-riscv/kernel/proc.c:253-294 | a step on other spaces leaves a process its space, trapframe, leaves and the contents of its pages |
| `Processes.SeparateStill` | xv6-riscv-labs-riscv/kernel/proc.c:105-294 | a step that gives, changes or takes the memory of one process keeps all processes apart and every page in use accounted to one of them or to the kernel |
| `Processes.NothingLost` | xv6-riscv-labs-riscv/kernel/proc.c:151-168 | when no process is left, every page is free but those of the kernel |
| `Processes.System.constructor` | xv6-riscv-labs-riscv/kernel/kalloc.c:26-41 | all pages free and no process |
| `Processes.System.First` | xv6-riscv-labs-riscv/kernel/proc.c:226-230 | the first process, unless fewer than six pages are free |
| `Processes.System.Growproc` | xv6-riscv-labs-riscv/kernel/proc.c:253-269 | with any number of processes: all own what they owned but for the caller's size, and every other process's pages are mapped as before with the same contents |
| `Processes.System.Fork` | xv6-riscv-labs-riscv/kernel/proc.c:273-294 | likewise: every process that was there keeps its memory, and the child has a copy of its parent's; or nothing has changed |
| `Processes.System.Exec` | xv6-riscv-labs-riscv/kernel/sysfile.c:415-455 | likewise: the caller has the new image and arguments, all others what they had; or nothing has changed |
| `Processes.System.Free` | xv6-riscv-labs-riscv/kernel/proc.c:402-414 | likewise: the process has nothing any more, all others what they had |
| `Processes.System.Take` | xv6-riscv-labs-riscv/kernel/pipe.c:22-34 | a page for the kernel itself, none exactly if none is free; no process is disturbed |
| `Processes.System.Give` | xv6-riscv-labs-riscv/kernel/pipe.c:68-72 | the page is free again; no process is disturbed |
| `Processes.System.Run` | xv6-riscv-labs-riscv/kernel/proc.c:253-430 | over any run of growproc, fork, exec, wait, pipe and close by any processes, failing or not: all stay apart, no requirement against a panic of the page tables is ever missed, and a process that makes no call has the same memory at the end |
| `Processes.NoPageLost` | xv6-riscv-labs-riscv/kernel/proc.c:105-430 | from boot through any run, once all processes are waited for every page is free but those of open pipes |
| `ProcTable.OneTree` | xv6-riscv-labs-riscv/kernel/proc.c:273-466 | the parents of every process lead to init, but for children that fork has not linked yet |
| `ProcTable.NoExitMissed` | xv6-riscv-labs-riscv/kernel/proc.c:384-429 | with wait_lock free, no process sleeps in wait while it has an exited child |
| `ProcTable.ExitBegun` | xv6-riscv-labs-riscv/kernel/proc.c:362-368 | giving children to init keeps every parent alive and older than its child, every sleeper in wait owed its wakeup, and the scans of wait right |
| `ProcTable.ExitEnded` | xv6-riscv-labs-riscv/kernel/proc.c:370-375 | becoming a zombie once all wakeups are done keeps the same |
| `ProcTable.WaitSlept` | xv6-riscv-labs-riscv/kernel/proc.c:426-427 | so does going to sleep in wait when no child has exited |
| `ProcTable.Freed` | xv6-riscv-labs-riscv/kernel/proc.c:151-168 | freeing a reaped or given-up slot leaves no process with a parent that is gone |
| `ProcTable.Kernel.constructor` | xv6-riscv-labs-riscv/kernel/proc.c:226-248 | init, with pid 1 |
| `ProcTable.Kernel.Allocproc` | xv6-riscv-labs-riscv/kernel/proc.c:105-121 | the first free slot, none exactly if none is free, and a pid never used before |
| `ProcTable.Kernel.ForkLink` | xv6-riscv-labs-riscv/kernel/proc.c:309-311 | the child gets its parent |
| `ProcTable.Kernel.ForkStart` | xv6-riscv-labs-riscv/kernel/proc.c:313-315 | the child can run |
| `ProcTable.Kernel.ForkAbort` | xv6-riscv-labs-riscv/kernel/proc.c:287-291 | fork gives up: the slot is free again |
| `ProcTable.Kernel.Reparent` | xv6-riscv-labs-riscv/kernel/proc.c:324-334 | exactly the children of the process get init for a parent, and nothing else differs |
| `ProcTable.Kernel.ExitBegin` | xv6-riscv-labs-riscv/kernel/proc.c:362-366 | under wait_lock exactly the children go to init, and it is recorded who has to be woken |
| `ProcTable.Kernel.ExitWake` | xv6-riscv-labs-riscv/kernel/proc.c:367-368 | one of them is woken, once its lock is free |
| `ProcTable.Kernel.ExitEnd` | xv6-riscv-labs-riscv/kernel/proc.c:370-375 | the process is a zombie, on its CPU and with its lock; its pid exits once |
| `ProcTable.Kernel.Scan` | xv6-riscv-labs-riscv/kernel/proc.c:395-418 | the scan of wait goes to the first child whose lock is held or that has exited, and says whether it passed children |
| `ProcTable.Kernel.Wait` | xv6-riscv-labs-riscv/kernel/proc.c:384-429 | one run of wait: blocked at the first child whose lock is held, or that child reaped if it has exited; a child reaped is off its CPU and was never reaped before; fails exactly if no child stops the scan and it is killed or childless, and otherwise sleeps; forks in progress are not touched |
| `ProcTable.Kernel.Reap` | xv6-riscv-labs-riscv/kernel/proc.c:402-415 | an exited child whose lock is free is off its CPU; its slot becomes free |
| `ProcTable.Kernel.Sched` | xv6-riscv-labs-riscv/kernel/proc.c:496-502 | sleep and yield, also in the middle of a fork: the new state under the process's lock, still on its stack |
| `ProcTable.Kernel.Switch` | xv6-riscv-labs-riscv/kernel/proc.c:475-493 | swtch off the CPU, the lock still held |
| `ProcTable.Kernel.Release` | xv6-riscv-labs-riscv/kernel/proc.c:459-463 | the scheduler releases the lock of a process that is off its CPU |
| `ProcTable.Kernel.Dispatch` | xv6-riscv-labs-riscv/kernel/proc.c:449-457 | a process is dispatched only if it is on no CPU |
| `ProcTable.Kernel.Wakeup` | xv6-riscv-labs-riscv/kernel/proc.c:558-574 | a sleeper on another channel becomes runnable |
| `ProcTable.Kernel.Kill` | xv6-riscv-labs-riscv/kernel/proc.c:576-598 | -1 exactly if no slot has the pid; otherwise the first such is marked and, if it slept, in wait or elsewhere, can run, and nothing else about it changes; free slots stay unmarked exactly if the pid is not 0 or none is free |
| `ProcTable.BornKilled` | xv6-riscv-labs-riscv/kernel/proc.c:576-598 | a run: after kill(0) the child of the next fork is born killed |
| `ProcTable.WaitMeetsExit` | xv6-riscv-labs-riscv/kernel/proc.c:338-429 | a run: a parent sleeps in wait, its child exits, the parent is blocked at the zombie on its CPU, and reaps it once it has left |
| `PsTree.Procinfo` | xv6-riscv-labs-riscv/kernel/proc.c:661-686 | while other processes take any steps between two slots: an entry for every slot found in use, in order, pids distinct and parents older; or -1 at the first entry there is no room for, with those before it copied |
| `PsTree.PidsApart` | xv6-riscv-labs-riscv/kernel/proc.c:105-121 | a pid seen in one slot is never seen in a later one, whatever happens in between |
| `PsTree.Mktree` | xv6-riscv-labs-riscv/user/pstree.c:9-32 | every process at or below the root has exactly one line and no other process has any; the last line before it that is indented less is its parent's and indented by one less, and children of one parent are in list order; a missing root prints none; it terminates |
| `PsTree.EverybodyShown` | xv6-riscv-labs-riscv/user/pstree.c:34-47 | the tree of init shows everybody in the list exactly if everybody's parent is in the list |
| `PsTree.StillComplete` | xv6-riscv-labs-riscv/kernel/proc.c:661-686 | which it is if the table does not change meanwhile and no fork is incomplete |
| `PsTree.ParentMissed` | xv6-riscv-labs-riscv/kernel/proc.c:661-686 | a run in which it is not: the list has a grandchild of init and not its parent |
| `ShellGrammar.LineBack` | xv6-riscv-labs-riscv/user/sh.c:344-439 | parsing the tokens of a printed command gives the command and leaves the rest |
| `ShellGrammar.ParseAgain` | xv6-riscv-labs-riscv/user/sh.c:327-342 | what the parser accepts it makes the same of when printed |
| `ShellGrammar.LineIn` | xv6-riscv-labs-riscv/user/sh.c:344-439 | every word of a parsed command is a word of the line |
| `ShellSyntax.AcceptedIff` | xv6-riscv-labs-riscv/user/sh.c:327-439 | the parser accepts exactly the token lines that can be written, with redirections before, between and after words and parentheses only where they stand, and makes of each the command it means |
| `ShellSyntax.ScriptParsed` | xv6-riscv-labs-riscv/user/sh.c:344-439 | a line that is written is parsed to what it means |
| `ShellSyntax.ScriptShown` | xv6-riscv-labs-riscv/user/sh.c:344-439 | a line that is parsed was written |
| `ShellSyntax.NothingLost` | xv6-riscv-labs-riscv/user/sh.c:327-439 | the words of an accepted line other than files, in order, are the arguments of the command from left to right, and its redirections are those of the command |
| `ShellLexer.LexBack` | xv6-riscv-labs-riscv/user/sh.c:265-308 | lexing undoes spelling tokens out with blanks |
| `ShellLexer.LexWords` | xv6-riscv-labs-riscv/user/sh.c:265-308 | a word token is a whole word: it cannot be extended |
| `ShellRoundTrip.TextBack` | xv6-riscv-labs-riscv/user/sh.c:327-439 | a command of valid words with at most MAXARGS - 1 arguments, printed as text with parentheses and parsed, is the same command |
| `ShellSpacing.LexWritten` | xv6-riscv-labs-riscv/user/sh.c:265-308 | lexing gives back the tokens of any line in which blanks stand at least where tokens would run together |
| `ShellSpacing.LexIsWritten` | xv6-riscv-labs-riscv/user/sh.c:265-308 | and every line is one of these |
| `ShellSpacing.LineText` | xv6-riscv-labs-riscv/user/sh.c:344-439 | parsing words as places in the line and as texts is the same |
| `ShellSpacing.ReadsIff` | xv6-riscv-labs-riscv/user/sh.c:265-439 | the shell reads a command in exactly the lines of characters that spell it |
| `Shell.Parser.constructor` | xv6-riscv-labs-riscv/user/sh.c:327-334 | a line ready to parse |
| `Shell.Parser.Gettoken` | xv6-riscv-labs-riscv/user/sh.c:265-308 | takes exactly the first token and says where it stands |
| `Shell.Parser.Peek` | xv6-riscv-labs-riscv/user/sh.c:310-319 | moves over blanks only, and tells whether the next token begins with one of the symbols |
| `Shell.Parser.Parseredirs` | xv6-riscv-labs-riscv/user/sh.c:374-396 | the redirections that the grammar gives, in order, or its error |
| `Shell.Parser.Parseargs` | xv6-riscv-labs-riscv/user/sh.c:427-438 | the arguments and redirections that the grammar gives; argv never overflows |
| `Shell.Parser.Parseexec` | xv6-riscv-labs-riscv/user/sh.c:415-439 | the simple command or block that the grammar gives |
| `Shell.Parser.Parseblock` | xv6-riscv-labs-riscv/user/sh.c:399-412 | the block that the grammar gives; its first panic is unreachable |
| `Shell.Parser.Parsepipe` | xv6-riscv-labs-riscv/user/sh.c:361-371 | the pipeline that the grammar gives |
| `Shell.Parser.Parseline` | xv6-riscv-labs-riscv/user/sh.c:344-358 | the line that the grammar gives; it terminates |
| `Shell.Parser.Nulterminate` | xv6-riscv-labs-riscv/user/sh.c:449-493 | nulls exactly at the ends of the words |
| `Shell.Parser.Parsecmd` | xv6-riscv-labs-riscv/user/sh.c:327-342 | the command that the characters of the line spell, or a panic exactly if they spell none, and every word in it a C string of exactly its own characters |

## Left out

- BufferCache.BCache.Bunpin: only after the block is installed, as install_trans calls it.
- Readers.Others.GetStep: a reader that itself finds no buffer panics in the kernel; here it takes no step.
- Readers.Others.Run: readers read file blocks, never blocks of the log, and take finitely many steps between two of the log's.
- Log.RecoverFromLog: at boot nobody else runs, so recovery is modelled without readers.
- Virtio: memory fences and MMIO set-up; the rings are read and written in program order.
- SleepLock: process states other than those of sleep, wakeup and the scheduler.
- Pipe.Pipe.Write: one turn under the pipe's lock up to a sleep or a return; wakeup is one step, since the sleep protocol is modelled in SleepLock.
- Pipe.Pipe.Read: one turn likewise.
- Umalloc.Heap.Sbrk: the break is counted in headers, so a break that is not a multiple of a header is not modelled.
- FileSystem.FileSys.Balloc: file systems of 2^31 blocks or more, where the int counter of balloc would overflow.
- FileSystem.FileSys.Bmap: bitmap and inode blocks are a sequence of bits and of inodes; which block each lies in is modelled, its byte layout is not.
- FileSystem.FileSys.Writei: only one process at a time has the inode, as its sleep lock ensures.
- Directories.DirFs.Create: a directory that has reached the largest file size, where dirlink panics (that panic is in DirBytes.Dirlink), and counts past the 16 bits of nlink.
- Directories.DirFs.Link: the path has been looked up; skipelem and namex, and reference counts of in-memory inodes, are not part of this model.
- VirtualMemory.Memory.Mappages: ranges that wrap around 64 bits; permissions without any of read, write and execute, which no caller passes.
- VirtualMemory.Memory.Kalloc: the links of the free list live in the free pages; the list is a sequence here.
- copyin, copyout and copyinstr as such, which only add page-by-page copying; exec's two copyouts go to one page.
- Exec.Replace: ELF decoding; the program headers and the file bytes behind them are parameters.
- SysExec.SysExec: fetching the path, and the user's argument array, which is a parameter with the arguments that fail to fetch marked.
- ProcMemory.Proc.Growproc: more than two gigabytes of memory after the kernel.
- The rest of pipealloc, and file and inode reference counts: they would only add easy members.
- ProcTable.Kernel.Allocproc: pids do not overflow an int.
- ProcTable.Kernel.Kill: one step, taken when the lock of the process it finds is free.
- PsTree.Procinfo: what one slot tells is read in one step.
- Processes.System.First: uvminit, which maps the one page of the first program.
- DirBytes.Unlink: link counts and kinds, which are those of Directories; the kinds are a parameter.
- Shell.Parser.Parseexec: the exec node is built when it is complete, where the C code fills it while redirections already wrap it.
- Running commands, job control and the rest of the shell; other user programs.
- Assembly, traps, UART, PLIC, spinlock internals and the scheduler's fairness.
