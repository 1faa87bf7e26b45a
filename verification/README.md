# A verified model of xv6

This project models the parts of the xv6 kernel and user programs where most of the state, branching and
interleaving is, and proves what they promise. It covers the write-ahead log over the buffer cache, block
allocation and file contents, page tables, the process table, sleep locks and pipes, the user heap, the shell
parser, the regular-expression matcher of grep and the red-black tree checker.

How the model is written:

- Code that updates state in place is a class or a method with the loops of the source. Where a class has many
  fields, the loops run on values and the class stores the result.
- A section of code under a spinlock is one step. `SleepLock` is finer: there every lock operation is a step of
  its own. Processes take steps in any order.
- A panic is a `None` or `Fail` result, or is excluded by a `requires` that the comment names.
- Whether `sbrk` succeeds and whether a process has been killed are parameters.
- Where an invariant relates a data structure to what it stands for (who owns a block, a page or a heap unit,
  which bytes a pipe has carried), that is a ghost field.

The modules:

| files | source | subject |
|---|---|---|
| `Crash`, `LogProtocol`, `BufferCache`, `Log` | log.c, bio.c, memide.c | crash atomicity, log space, pinning, the cache ring |
| `FsFormat`, `Bitmap`, `Ownership`, `Content`, `Fs`, `OpenFile` | fs.c, file.c | block ownership, file contents, transaction size |
| `InodeFormat`, `Durable` | fs.h, fs.c, file.c, log.c | inode blocks as bytes; what a crash leaves of a file |
| `Pages`, `PageCount`, `Vm`, `AddressSpace` | vm.c, kalloc.c | page tables, page ownership, when memory runs out |
| `Family`, `ProcTable`, `SleepLock`, `Pipe` | proc.c, sleeplock.c, pipe.c | exit and wait, wakeups, pipes |
| `Tiling`, `FreeList`, `Heap` | umalloc.c | the user heap |
| `ShellSyntax`, `ShellGrammar`, `Shell`, `ShellStrings`, `ShellPrint` | sh.c | the shell parser |
| `Grep`, `RbTree` | grep.c, proc.c | the regular-expression matcher, the tree checker |
| `Param`, `Sets`, `Powers` | param.h | constants and small facts the others share |

The main results, one for each subject; most of the others lead up to them:

- `Crash.CommitIsCrashAtomic`: a crash anywhere in commit, and any crashes in recovery, leave all or nothing.
- `Log.Log.CrashNow`: the same of the log over the buffer cache, in every state between the steps of its processes,
  in the middle of commit too, while others go on reading and releasing buffers.
- `Durable.DurableWrite` and `DurableTruncate`: a crash anywhere in the commit of one filewrite transaction, or of a
  truncation, leaves every file as it was before or as it is after, down to the bytes of inode, bitmap and data blocks.
- `LogProtocol.PanicFreeIff`: exactly when no interleaving of operations exhausts the log.
- `Fs.FileSystem.Bmap`, `Writei`, `Readi` and `Itrunc`: exact, disjoint block ownership and file contents as bytes,
  and exactly when the disk is too full.
- `AddressSpace.Copyuvm`: fork copies exactly the user memory, or fails exactly when memory is short, losing nothing.
- `ProcTable.Table.Exit` and `Wait`: no parent sleeps beside a zombie child, in any run.
- `SleepLock.NoLostWakeupIff` and `Pipe.Pipe.WriteSection`: exactly when wakeups are lost.
- `Heap.Allocator.Malloc` and `Free`: live blocks never overlap, no unit is lost, and the heap grows exactly if no free
  block fits.
- `ShellGrammar.ParseCmdIff`: the recursive-descent parser accepts exactly the lines of a grammar, with its tree.
- `ShellStrings.Parse` and `ShellPrint.RoundTrip`: every string in place; the parser reads back what is printed.
- `Grep.Match` and `RbTree.TreeBalancedIff`: the two recursive checks decide exactly their declarative meaning.

Four properties one might expect do not hold of the code as it is. For each there is a concrete case and the exact
condition under which the property holds:

- Log space: `begin_op` reserves MAXOPBLOCKS blocks for an operation, and three operations of that size fill the
  LOGSIZE entries it counts on, but `log_write` panics one entry earlier, at size - 1. No run panics if and only if
  each operation logs at most MAXOPBLOCKS - 1 new blocks (`LogProtocol.TenBlocksPanic`, `LogProtocol.PanicFreeIff`).
- Pipes: a reader can stay asleep beside a full pipe, because a writer that finds itself killed, or the read end
  closed, returns without waking the readers of what it has written (`Pipe.LostWakeup`). It happens if and only if a
  reader sleeps, more than PIPESIZE bytes are left to write, and the writer is killed or the read end closed
  (`Pipe.Pipe.WriteSection`).
- The heap: for the largest requests the unit count wraps around and the block is too small (`Heap.RoomIff`), and
  from half the address space on `morecore` asks `sbrk` for a number that is not a positive int (`Heap.CoreFitsIff`).
- Processes: a new process can start out killed, because `kill` looks at free slots too and `allocproc` does not
  clear the mark (`ProcTable.BornKilled`, with `kill(0)`). It is unmarked if no free slot is marked; a free slot gets
  marked exactly if it is the first with the pid, or if a killed process is given up before its first run
  (`ProcTable.Table.Kill`, `GiveUp`, `Allocproc`).

That `sleep` takes ptable.lock before it lets go of the caller's lock is what makes sleep locks correct: with the
two steps exchanged a wakeup can be lost, and with them as they are none is (`SleepLock.EarlyLosesWakeup`,
`SleepLock.NoLostWakeupIff`).

The comment at `filewrite` counts its transactions by MAXOPBLOCKS; `OpenFile.File.Write` shows that its chunks stay
within the smaller bound above when the bitmap is one block. The shell's `>>` makes the same redirection as `>`,
although the two are different tokens; the model follows the code.

## Model

| member | source | states |
|---|---|---|
| `Crash.CommitIsCrashAtomic` | xv6-public/log.c:69-202 | after a crash between any two writes of commit and any number of crashes during recovery, the files are all old or all new, and all new exactly when the header write was issued |
| `Crash.CommitComplete` | xv6-public/log.c:193-202 | a commit that runs to its end leaves the updated files and an empty log |
| `Crash.CommitTailIsRecovery` | xv6-public/log.c:192-202 | after the header write commit issues exactly the writes recovery would issue |
| `Crash.RecoveryStep` | xv6-public/log.c:115-122 | a recovery cut short keeps the log and changes homes only to what the log holds |
| `Crash.RecoveryOutcome` | xv6-public/log.c:115-122 | whatever the crashes, repeated recovery ends with the files the first image stood for |
| `LogProtocol.InvStep` | xv6-public/log.c:125-174 | every section of every process keeps: committing implies nothing outstanding, idle implies an empty log, whoever sleeps in begin_op would still be refused, reserved space suffices |
| `LogProtocol.SleepersRefused` | xv6-public/log.c:130-137 | so a sleeper is never one that could be admitted, and someone is there to wake it |
| `LogProtocol.RunKeepsInv` | xv6-public/log.c:125-174 | the invariant holds in every reachable state, for any number of processes |
| `LogProtocol.TenBlocksPanic` | xv6-public/log.c:213-221 | a run in which operations log MAXOPBLOCKS blocks each reaches the panic |
| `LogProtocol.PanicFreeIff` | xv6-public/log.c:213-233 | no run panics if and only if an operation logs at most MAXOPBLOCKS - 1 new blocks |
| `BufferCache.Relink` | xv6-public/bio.c:132-137 | the six assignments move one buffer to the head, and the ring stays a permutation of all buffers |
| `BufferCache.SameBlockSameBuffer` | xv6-public/bio.c:61-93 | at most one buffer carries a block |
| `BufferCache.Cache.constructor` | xv6-public/bio.c:38-56 | binit leaves all buffers on the ring, unused |
| `BufferCache.Cache.Lookup` | xv6-public/bio.c:68-76 | finds the buffer of a block, or none carries it |
| `BufferCache.Cache.Victim` | xv6-public/bio.c:78-91 | finds the eligible buffer nearest the least recently released end, or none is eligible |
| `BufferCache.Cache.Bget` | xv6-public/bio.c:61-93 | returns the block's buffer, recycling only an unused clean one; no other buffer changes |
| `BufferCache.Cache.Iderw` | xv6-public/memide.c:38-60 | writes a dirty buffer to its block or fills an invalid one from it |
| `BufferCache.Cache.Bread` | xv6-public/bio.c:96-106 | the buffer is held and, if clean, equals the disk block |
| `BufferCache.Cache.Bwrite` | xv6-public/bio.c:109-116 | the block's contents reach the disk and the buffer is clean |
| `BufferCache.Cache.Pin` | xv6-public/log.c:231 | the buffer is dirty, so it cannot be recycled |
| `BufferCache.Cache.MoveToHead` | xv6-public/bio.c:130-138 | the buffer moves to the most recently used end |
| `BufferCache.Cache.Brelse` | xv6-public/bio.c:120-141 | the reference is dropped and the last release moves the buffer to the head |
| `Log.PinIsUnique` | xv6-public/log.c:213-233 | a pinned block has exactly one buffer, which holds its pending contents |
| `Log.PinsLeaveRoom` | xv6-public/bio.c:78-92 | with no buffer in use the log cannot pin every buffer, so bget finds one |
| `Log.Recorded` | xv6-public/log.c:223-231 | what log_write leaves in the header is distinct, outside the log and pinned |
| `Log.Log.constructor` | xv6-public/log.c:53-66 | initlog issues the recovery writes and leaves the files the disk stood for |
| `Log.Log.CrashNow` | xv6-public/log.c:115-122 | a crash in any state of the log, whatever crashes follow in recovery: the files as last committed, or with the whole transaction commit is writing, exactly once its header is on the disk |
| `Log.Log.RecoverFromLog` | xv6-public/log.c:115-122 | the same for recover_from_log, with an empty log and nothing pinned |
| `Log.Log.ReadHead` | xv6-public/log.c:84-96 | the in-memory header is the one on disk, and the cache is as before |
| `Log.Log.StartCommit` | xv6-public/log.c:192-195 | a commit starts with the pinned contents as its transaction and no write issued |
| `Log.Log.LogNext` | xv6-public/log.c:180-189 | a step of commit: the next log block is written; everything stays true for a crash and for other processes |
| `Log.Log.CommitHead` | xv6-public/log.c:98-113 | a step of commit: the header is written, which makes the transaction permanent |
| `Log.Log.HomeNext` | xv6-public/log.c:73-81 | a step of commit: the next block is written home and unpinned, the others stay pinned with their contents |
| `Log.Log.Erase` | xv6-public/log.c:199-200 | the last step of commit: the header is emptied; the files hold the transaction and the writes were exactly commit's |
| `Log.Log.WriteLog` | xv6-public/log.c:176-190 | issues the log writes of the pinned contents |
| `Log.Log.WriteHead` | xv6-public/log.c:98-113 | writes exactly the in-memory header and keeps every pin |
| `Log.Log.InstallTrans` | xv6-public/log.c:68-82 | at boot: issues the install writes of the log on disk |
| `Log.Log.InstallAll` | xv6-public/log.c:68-82 | in commit: writes every block home |
| `Log.Log.Commit` | xv6-public/log.c:192-202 | issues exactly commit's write sequence, whoever holds other buffers; the disk then holds the transaction and nothing is pinned |
| `Log.Log.BeginOp` | xv6-public/log.c:124-141 | admits exactly if there is no commit and the reservation fits, else puts to sleep |
| `Log.Log.FindLogged` | xv6-public/log.c:224-227 | the entry of a logged block, or the first free one |
| `Log.Log.LogWrite` | xv6-public/log.c:213-233 | within the operation's share neither panic happens; the block is logged once and pinned, and the disk does not change |
| `Log.Log.Modify` | xv6-public/log.c:204-212 | changing a held buffer before log_write loses no pin |
| `Log.Log.EndOp` | xv6-public/log.c:145-163 | one operation fewer; the last starts the commit and leaves the waiters, any other wakes them all |
| `Log.Log.FinishCommit` | xv6-public/log.c:169-172 | ends the commit and wakes all waiters |
| `Log.Log.Read` | xv6-public/bio.c:96-106 | by any process, also between the steps of commit: gives the transaction's version of a logged block, else the disk's, and no block that is not home yet loses its buffer or contents; it finds no buffer only if the block is not pinned and every buffer is in use or pinned |
| `Log.Log.Release` | xv6-public/bio.c:118-141 | by any process, also between the steps of commit: the buffer is free of its holder with one reference fewer, every other is as it was, and every pin and its contents stay |
| `FsFormat.SetBit` | xv6-public/fs.c:66-68 | sets bit k and no other |
| `FsFormat.ClearBit` | xv6-public/fs.c:92 | clears bit k and no other |
| `FsFormat.SetWord` | xv6-public/fs.c:388-393 | writing entry j of an indirect block is read back and changes no other entry |
| `Bitmap.Mark` | xv6-public/fs.c:65-69 | exactly block b becomes used |
| `Bitmap.Unmark` | xv6-public/fs.c:87-92 | exactly block b becomes free |
| `Ownership.UnlinkAll` | xv6-public/fs.c:407-435 | a file that points nowhere owns nothing, and no other file's blocks change |
| `Ownership.AddedDirect` | xv6-public/fs.c:378-382 | allocating a direct block keeps the whole block invariant and is one step of bmap |
| `Ownership.AddedIndirect` | xv6-public/fs.c:386-387 | the same for an empty indirect block |
| `Ownership.AddedListed` | xv6-public/fs.c:388-394 | the same for a block entered in the indirect block |
| `Content.StepExtends` | xv6-public/fs.c:498-504 | one turn of writei's loop extends the bytes written by exactly its piece |
| `Content.AllWritten` | xv6-public/fs.c:498-510 | once all bytes are in place the file is the old one overwritten at off |
| `Content.ReadExtends` | xv6-public/fs.c:469-474 | one turn of readi's loop extends the bytes read by exactly the next ones |
| `Content.OverwriteTwice` | xv6-public/file.c:135-152 | two consecutive writes are one |
| `Fs.OtherFile` | xv6-public/fs.c:481-511 | no other file's contents change |
| `Fs.FootprintSize` | xv6-public/file.c:127-133 | one writei logs at most its blocks, the bitmap blocks, one indirect and one inode block |
| `Fs.FileSystem.Claim` | xv6-public/fs.c:66-71 | the block becomes used, zeroed and logged |
| `Fs.FileSystem.FindFree` | xv6-public/fs.c:63-66 | the first free block of a bitmap block |
| `Fs.FileSystem.Balloc` | xv6-public/fs.c:55-78 | the lowest free block, zeroed and marked, one free block fewer; None exactly when every block is used |
| `Fs.FileSystem.Bfree` | xv6-public/fs.c:80-95 | exactly that block becomes free |
| `Fs.FileSystem.Bmap` | xv6-public/fs.c:372-400 | a mapped block is returned and nothing changes; otherwise a zeroed block nobody owned is mapped there; used blocks stay exactly metadata plus the disjoint blocks of all inodes; None exactly if fewer blocks are free than the one or two it needs |
| `Fs.FileSystem.Iupdate` | xv6-public/fs.c:216-235 | the on-disk inode equals the one in memory and its block is logged |
| `Fs.FileSystem.Itrunc` | xv6-public/fs.c:407-435 | frees exactly the blocks the inode owned, each once; the file is empty on disk and in memory and every other file unchanged; the inode's block and every bitmap block that changed are logged |
| `Fs.FileSystem.WriteChunk` | xv6-public/fs.c:498-503 | one turn of the loop writes its piece, keeps the file without holes and all other blocks as they were |
| `Fs.FileSystem.WriteLoop` | xv6-public/fs.c:498-504 | the loop writes all of src, unless every block is used |
| `Fs.FileSystem.Writei` | xv6-public/fs.c:481-511 | -1 exactly for an offset past the end, a wrap-around or a file too large, changing nothing; a panic exactly if the file must grow by more blocks, the indirect block included, than are free; else the file is overwritten or extended by exactly src, has no holes, other files are unchanged, the inode on disk still equals the one in memory, and every block that changed is logged |
| `Fs.FileSystem.Readi` | xv6-public/fs.c:452-476 | returns exactly the clipped slice of the file, allocates nothing and changes nothing |
| `Fs.FileSystem.ReadBack` | xv6-public/fs.c:452-511 | readi where writei has just written gives the bytes written |
| `OpenFile.SpanOfChunk` | xv6-public/file.c:127-138 | a chunk touches at most four blocks of the file, wherever it starts |
| `OpenFile.MaxWriteFormula` | xv6-public/file.c:133 | the chunk size is the source's formula |
| `OpenFile.File.Transaction` | xv6-public/file.c:140-145 | one transaction writes its chunk or refuses it, and logs at most six blocks besides bitmap blocks |
| `OpenFile.File.Write` | xv6-public/file.c:117-154 | n if the whole write fits, else -1 with the chunks before the first too large one stored, or none if the offset is past the end; a panic exactly if the file grown that far needs more blocks than are free; the offset advances by what was stored and no other file changes; with one bitmap block no transaction logs more than seven blocks |
| `OpenFile.File.Read` | xv6-public/file.c:96-111 | the next bytes of the file, short only at its end; the offset advances by as much |
| `InodeFormat.InodeBytes` | xv6-public/fs.h:29-36 | where type, size and addrs are in the 64 bytes of an inode |
| `InodeFormat.InodeStored` | xv6-public/fs.c:220-233 | the inode iupdate puts in its slot is read back from the bytes, and every other slot of the block is unchanged |
| `Durable.ShownFile` | xv6-public/fs.c:452-476 | an image whose blocks show the file system holds each file's bytes, found through its inode and map alone |
| `Durable.ShownAfter` | xv6-public/fs.c:481-511 | the logged blocks of a write, put in place, turn an image of the file system before into one of the file system after |
| `Durable.FileSurvives` | xv6-public/log.c:69-202 | after a crash anywhere in the commit and any crashes in recovery the disk holds the old file or the new one, the new one exactly when the header was written |
| `Durable.DurableWrite` | xv6-public/file.c:140-145 | for one filewrite transaction and any order of the log: every file on the disk before and after survives any crash as its old or new bytes, the written one as its old contents or those overwritten at the offset |
| `Durable.DurableTruncate` | xv6-public/fs.c:407-435 | for itrunc in a transaction of its own: after any crash the file is as it was or empty, and every other file as it was |
| `Pages.NewTable` | xv6-public/vm.c:45-52 | adding an empty page table changes no translation and keeps every page's use |
| `Pages.MapUser` | xv6-public/vm.c:69-73 | mapping a page changes exactly one translation |
| `Pages.Unmap` | xv6-public/vm.c:269-275 | clearing an entry changes exactly one translation and frees exactly that page |
| `Pages.DropDir` | xv6-public/vm.c:283-298 | without user mappings a directory and its tables can be given up |
| `PageCount.MissingIs` | xv6-public/vm.c:41-52 | the page tables a range of pages lacks, counted page by page, are the directory entries it touches that have none |
| `Vm.Kalloc` | xv6-public/kalloc.c:82-95 | the first page of the free list, or none is free |
| `Vm.Kfree` | xv6-public/kalloc.c:59-77 | the page is at the head of the free list, filled with junk, and no translation changes |
| `Vm.Walkpgdir` | xv6-public/vm.c:35-55 | the page table of an entry, added if asked for; none exactly when it is absent and may not or cannot be added; translations are unchanged |
| `Vm.MapHeld` | xv6-public/vm.c:57-80 | maps one page; or changes nothing, when its page table is absent and no page is free |
| `Vm.AddPage` | xv6-public/vm.c:234-246 | a filled new page is mapped at exactly one address, or the free list is too short for the page and its page table |
| `Vm.ClearPage` | xv6-public/vm.c:265-277 | one turn of deallocuvm unmaps and frees exactly one page, or finds the whole directory entry absent |
| `Vm.Deallocuvm` | xv6-public/vm.c:251-279 | unmaps exactly the pages between the sizes and frees exactly those |
| `Vm.Allocuvm` | xv6-public/vm.c:219-249 | fails exactly when the free list is shorter than the new pages plus the page tables they lack, and then every translation is as before and no page in use is lost or changed (empty page tables may stay); else takes exactly those and maps zeroed pages exactly between the sizes |
| `AddressSpace.Mappages` | xv6-public/vm.c:57-80 | a kernel range is mapped page by page; it stops early only when the free list is too short for the page tables the range lacks |
| `AddressSpace.RowTables` | xv6-public/vm.c:105-136 | the page tables of the kernel rows are as many as the distinct directory entries they touch: each row adds those it lacks |
| `AddressSpace.KernelMapOk` | xv6-public/vm.c:105-115 | the four rows of kmap are kernel ranges that do not overlap, wherever the linker puts the data |
| `AddressSpace.KernelMapIs` | xv6-public/vm.c:105-115 | what they map, for every page: physical memory at KERNBASE, read only exactly from KERNLINK to data, the devices at their own addresses, and nothing else |
| `AddressSpace.Setupkvm` | xv6-public/vm.c:117-136 | fails exactly when the free list is too short for the directory and its page tables, with everything as before; else a new directory maps exactly the kernel rows |
| `AddressSpace.FreeTables` | xv6-public/vm.c:291-296 | exactly the directory's page tables are freed |
| `AddressSpace.Freevm` | xv6-public/vm.c:281-298 | exactly the pages of the directory become free; contents and translations of all others stay |
| `AddressSpace.Copyuvm` | xv6-public/vm.c:313-345 | fails exactly when the free list is too short for the directory, its page tables and the copies, with everything as before; else takes exactly those, the child maps copies with equal contents and permissions at the same addresses and nothing more, and no other space changes |
| `AddressSpace.Memory.Fork` | xv6-public/vm.c:313-345 | the same on the machine's memory, whose pages keep one use each and are never lost |
| `AddressSpace.Memory.Grow` | xv6-public/vm.c:219-249 | allocuvm on the machine's memory, with the refused sizes |
| `AddressSpace.Memory.Shrink` | xv6-public/vm.c:251-279 | deallocuvm on the machine's memory |
| `AddressSpace.Memory.Release` | xv6-public/vm.c:281-298 | freevm on the machine's memory |
| `Family.ExitKeepsTree` | xv6-public/proc.c:346-361 | exit leaves no child with a dead parent and no parent asleep in wait beside a zombie child |
| `Family.ReapKeepsTree` | xv6-public/proc.c:383-395 | reaping a zombie keeps that |
| `Family.WaitSleepKeepsTree` | xv6-public/proc.c:399-406 | sleeping in wait, with a child and no zombie child, keeps that |
| `Family.BirthKeepsTree` | xv6-public/proc.c:276-318 | every step of creating a process keeps that |
| `ProcTable.Table.constructor` | xv6-public/proc.c:216-250 | after userinit slot 0 is init with pid 1, every other slot is free, the next pid is 2 and the CPUs are idle |
| `ProcTable.Table.Wakeup1` | xv6-public/proc.c:553-561 | exactly the sleepers on the channel become runnable, and nothing else changes |
| `ProcTable.Table.Wakeup` | xv6-public/proc.c:563-570 | the same, keeping the invariant |
| `ProcTable.Table.Adopt` | xv6-public/proc.c:351-358 | children pass to init, and init is woken exactly if one is a zombie |
| `ProcTable.Table.Exit` | xv6-public/proc.c:323-364 | the process is a zombie, its children are init's, exactly those who wait for a child that is now a zombie are awake; the invariant holds, so no parent sleeps on |
| `ProcTable.Table.Wait` | xv6-public/proc.c:368-408 | reaps the first zombie child exactly if there is one, freeing its slot, pid and parent; fails exactly with no child or when killed, else sleeps |
| `ProcTable.Table.Sleep` | xv6-public/proc.c:534-538 | the process sleeps and leaves its CPU |
| `ProcTable.Table.Resume` | xv6-public/proc.c:540-541 | when it runs again its channel is cleared |
| `ProcTable.Table.Yield` | xv6-public/proc.c:480-488 | the process is runnable and leaves its CPU |
| `ProcTable.Table.Schedule` | xv6-public/proc.c:429-442 | runs the first runnable process from a slot on |
| `ProcTable.Table.Kill` | xv6-public/proc.c:575-593 | marks the first slot with the pid and makes it runnable if it sleeps, changing nothing else; a pid other than 0 is that of one slot only; a free slot becomes marked exactly if it comes first |
| `ProcTable.BornKilled` | xv6-public/proc.c:169-186 | after kill(0) the next process starts out killed |
| `ProcTable.Table.Allocproc` | xv6-public/proc.c:169-188 | takes the first unused slot with the next pid, which no other slot has, or none is unused; the process is not killed if no free slot was marked |
| `ProcTable.Table.GiveUp` | xv6-public/proc.c:190-194 | the slot is unused again, and marked exactly if it was killed meanwhile |
| `ProcTable.Table.SetParent` | xv6-public/proc.c:296 | the new process gets a live parent |
| `ProcTable.Table.Start` | xv6-public/proc.c:311-315 | the new process is runnable |
| `SleepLock.LocksStep` | xv6-public/sleeplock.c:22-42 | every step keeps: the two spinlocks are held by exactly the processes between acquire and release |
| `SleepLock.OneHolderStep` | xv6-public/sleeplock.c:22-42 | every step keeps: the sleep lock is locked exactly if a process holds it, and at most one does |
| `SleepLock.CallsEnd` | xv6-public/sleeplock.c:22-42 | acquiresleep returns only to the holder and releasesleep only to a process that has given the lock up |
| `SleepLock.NoDeadlock` | xv6-public/sleeplock.c:22-42 | some process can go on, unless each is outside, holds the sleep lock or is asleep |
| `SleepLock.SleepersStep` | xv6-public/proc.c:513-570 | every step keeps: whoever has gone to sleep finds the lock locked or a releaser about to wake it |
| `SleepLock.RunKeepsInv` | xv6-public/proc.c:513-570 | in every reachable state, for any number of processes |
| `SleepLock.InvNoLostWakeup` | xv6-public/sleeplock.c:22-42 | with the spinlock free, a process asleep on the lock implies that it is locked; two processes never hold it |
| `SleepLock.EarlyLosesWakeup` | xv6-public/proc.c:530-533 | a run that loses a wakeup if the lock were released before ptable.lock is taken |
| `SleepLock.NoLostWakeupIff` | xv6-public/proc.c:524-533 | no run loses a wakeup if and only if ptable.lock is taken first |
| `Pipe.Counters` | xv6-public/pipe.c:85-93 | the 32-bit counters tell full and empty exactly, across wrap-around |
| `Pipe.Pipe.constructor` | xv6-public/pipe.c:33-37 | an empty open pipe |
| `Pipe.Pipe.Put` | xv6-public/pipe.c:93 | one byte joins the bytes in flight and overwrites none of them |
| `Pipe.Pipe.WriteSection` | xv6-public/pipe.c:78-98 | appends exactly the bytes for which there is room; returns, sleeps or refuses by the room, the read end and whether the writer is killed; a reader misses its wakeup if and only if one sleeps, more than PIPESIZE bytes are left and the writer is killed or the read end closed |
| `Pipe.Pipe.ReadSection` | xv6-public/pipe.c:100-121 | returns exactly the next n bytes, or all there are if they are fewer; sleeps or fails exactly on an empty pipe with an open writer |
| `Pipe.Pipe.Close` | xv6-public/pipe.c:59-75 | closing one end wakes the sleepers at the other; the pipe is freed exactly when the other end was closed already |
| `Pipe.LostWakeup` | xv6-public/pipe.c:86-89 | a killed writer leaves a full pipe with a reader asleep |
| `Tiling.Join` | xv6-public/umalloc.c:33-41 | coalescing keeps the tiling exact |
| `Tiling.Cut` | xv6-public/umalloc.c:78-82 | splitting keeps the tiling exact |
| `Tiling.Conserved` | xv6-public/umalloc.c:24-90 | block sizes add up to the units supplied |
| `FreeList.StopsAtPlace` | xv6-public/umalloc.c:30-32 | free's search stops at a node exactly if the block belongs after it |
| `Heap.FindPlace` | xv6-public/umalloc.c:30-32 | free's search loop ends, at the node after which the block belongs |
| `Heap.JoinNext` | xv6-public/umalloc.c:33-37 | the block is linked or joined with the next node, and no live word is written |
| `Heap.JoinPrev` | xv6-public/umalloc.c:38-42 | the node before is linked or joined, giving one sorted cycle without touching neighbours |
| `Heap.PutBack` | xv6-public/umalloc.c:24-44 | free as a whole: the block is free, in one node with its neighbours; every other node keeps its size, every other live block and its words are untouched, and freep is the node before it |
| `Heap.MoreCore` | xv6-public/umalloc.c:46-61 | the supplied units grow by the larger of 4096 and what is asked for, and some node is large enough |
| `Heap.Search` | xv6-public/umalloc.c:74-86 | one walk around the list finds the first large enough node after freep, if there is one |
| `Heap.Take` | xv6-public/umalloc.c:75-84 | a new live block of exactly the units asked for, the end of the node, disjoint from all others |
| `Heap.Allocate` | xv6-public/umalloc.c:63-90 | if a free block fits, the first fit after freep is taken and the break stays; otherwise, if sbrk is willing, the heap grows once and the block is its end; otherwise nothing changes |
| `Heap.RoomIff` | xv6-public/umalloc.c:69 | the block has room for nbytes, and no unit too many, exactly for sizes up to 0xFFFFFFF8, where the addition does not wrap around |
| `Heap.CoreFitsIff` | xv6-public/umalloc.c:52-54 | the argument of sbrk is a positive int exactly for sizes up to 0x7FFFFFF0 and those whose unit count has wrapped around |
| `Heap.Accounts` | xv6-public/umalloc.c:24-90 | free and live blocks are pairwise disjoint and add up to the units supplied |
| `Heap.Allocator.constructor` | xv6-public/umalloc.c:21-22 | an allocator that has not been used |
| `Heap.Allocator.Free` | xv6-public/umalloc.c:24-44 | free of a live block keeps the allocator's invariant and all other live blocks |
| `Heap.Allocator.Malloc` | xv6-public/umalloc.c:63-90 | malloc keeps the invariant; the new block overlaps no live block, is found as `Heap.Allocate` says, and has room for nbytes exactly for sizes up to 0xFFFFFFF8 |
| `Heap.Allocator.Poke` | xv6-public/umalloc.c:24-90 | the owner of a block may write any word of it but the header |
| `Heap.Allocator.OtherSbrk` | xv6-public/umalloc.c:54 | another user of sbrk may move the break; the allocator stays sound exactly if all its units stay below it |
| `ShellGrammar.LexIff` | xv6-public/sh.c:265-308 | the tokens are the one spelling of the line: symbols, `>>` and maximal words between white space |
| `ShellGrammar.RedirsIff` | xv6-public/sh.c:374-397 | `<` opens for reading on 0, `>` and `>>` for writing on 1; all redirections are taken in order, with a panic exactly if a file is missing |
| `ShellGrammar.ParseLineIff` | xv6-public/sh.c:344-446 | up to a closing parenthesis or the end, parseline returns a tree exactly if the grammar derives it from what was consumed; redirections may stand anywhere in a command |
| `ShellGrammar.ParseCmdIff` | xv6-public/sh.c:327-446 | parsecmd returns a tree exactly if the grammar derives it from the line, and panics exactly if it derives none |
| `Shell.Gettoken` | xv6-public/sh.c:265-308 | consumes exactly the next token |
| `Shell.Peek` | xv6-public/sh.c:310-320 | skips white space and says whether the next character is one of toks; for symbols, whether the next token starts with one |
| `Shell.Parseredirs` | xv6-public/sh.c:374-397 | consumes all redirections, each with its file, mode and descriptor, or fails exactly if a file is missing |
| `Shell.Parseargs` | xv6-public/sh.c:429-445 | collects words and redirections up to a terminator, at most nine words |
| `Shell.Parseblock` | xv6-public/sh.c:399-413 | a parenthesised line with its redirections |
| `Shell.Parseexec` | xv6-public/sh.c:415-446 | a simple command or a block |
| `Shell.Parsepipe` | xv6-public/sh.c:361-372 | a pipeline, right-nested |
| `Shell.Parsebacks` | xv6-public/sh.c:350-353 | one background command for each ampersand |
| `Shell.Parseline` | xv6-public/sh.c:344-359 | a line of the grammar, right-nested at semicolons |
| `Shell.Parsecmd` | xv6-public/sh.c:327-342 | ends on every string; returns the tree the grammar derives from the line, and fails exactly if there is none |
| `ShellStrings.LexMaximal` | xv6-public/sh.c:295-299 | every word token is a maximal run of word characters |
| `ShellStrings.LineFrom` | xv6-public/sh.c:344-446 | every pointer in the tree is a word token of the line |
| `ShellStrings.Nulterminate` | xv6-public/sh.c:448-493 | writes NUL at exactly the ends of the tree's words |
| `ShellStrings.Parse` | xv6-public/sh.c:327-342 | afterwards every argument and file name reads, as a C string, as exactly its token |
| `ShellPrint.PrintRead` | xv6-public/sh.c:265-308 | a printed token sequence is read back token by token |
| `ShellPrint.RoundTrip` | xv6-public/sh.c:265-446 | parsing the canonical printing of any tree gives that tree, if its words are words, its redirections are < or > and no command has MAXARGS words or more |
| `Grep.Match` | xv6-public/grep.c:72-82 | true exactly when some substring (a prefix after ^) is in the pattern's language; it ends |
| `Grep.MatchHere` | xv6-public/grep.c:84-96 | true exactly when a prefix of the text is in the language, $ being an anchor only at the end |
| `Grep.MatchStar` | xv6-public/grep.c:98-106 | true exactly when zero or more of the character and then the rest match |
| `RbTree.CheckStructural` | xv6-public/proc.c:79-113 | the recursion with its shared -1 sentinel accepts exactly when no red node has a red child and all paths have the expected black count |
| `RbTree.TreeBalancedIff` | xv6-public/proc.c:64-113 | treebalanced accepts exactly when the root is absent or black, no red node has a red child and all paths have equal black count |
| `RbTree.LogHeight` | xv6-public/proc.c:64-113 | an accepted tree of n nodes has height at most 2 log2(n + 1) |

## Left out

- Log.Log.Commit: for a moment when no other process holds a buffer of the log or of a logged block, for which bread would wait; the same of each step of commit for the blocks it touches. Other buffers may be held.
- Log.Log.Modify: by an open operation, as the comment at log_write demands of its callers.
- Log.Log.LogWrite: for operations within the limit of `LogProtocol.PanicFreeIff`; the panics beyond it are in `LogProtocol`.
- Log.Log.constructor: for a disk whose log header is one that commit or recovery has written, whole.
- BufferCache.Cache.Brelse: for clients that write or log a buffer they changed before they release it, as all of xv6 does.
- BufferCache.Cache.Bread: for a block whose buffer is not locked; waiting for a sleep lock is in `SleepLock`.
- Heap.Allocator.Malloc: not for sizes from 0x7FFFFFF1 to 0xFFFFFFF8; what sbrk does with an argument that is no positive int is not modelled.
- Fs.FileSystem.Writei: for regular files and directories; device inodes call a driver.
- Fs.FileSystem.Readi: for regular files and directories, as above.
- Fs.FileSystem.Iupdate: major, minor and nlink are not modelled; `InodeFormat` keeps their bytes as they are.
- OpenFile.File.Write: begin_op appears as the start of a transaction that has logged nothing.
- Durable.DurableWrite: for a commit of this transaction alone, on a file system with one bitmap block, as mkfs makes it.
- Vm.Allocuvm: for sizes between which nothing is mapped, as mappages would panic otherwise.
- AddressSpace.Copyuvm: for a size below which every page is mapped, as copyuvm would panic otherwise.
- AddressSpace.Setupkvm: for any kernel rows that do not overlap, as those of the source do not (`AddressSpace.KernelMapOk`).
- Vm.Kfree: the checks of alignment and range are not modelled; pages are page numbers.
- ProcTable.Table.Sleep: channels other than process table entries are numbers distinct from those.
- ProcTable.Table.Allocproc: pids are unbounded; nextpid does not wrap around.
- SleepLock.OneHolderStep: the owner's pid in the sleep lock and holdingsleep, which reads it, are not modelled.
- ProcTable.Table.Exit: closing files and the current directory.
- The methods of Heap, Vm and AddressSpace below the classes Allocator and Memory work on values that are passed along; aliasing of those values is not modelled.
- The file system is modelled on the blocks an open transaction sees; that these are the log's pinned blocks and otherwise the disk's is `Log.Log.Read`. `Durable` joins it to the write sequence of commit, not to the state of the buffer cache.
- The in-memory inode table (iget, iput, ilock), directories, path names, ialloc and link counts.
- sysfile.c, exec.c and the system-call and trap entry code.
- kinit1, kinit2 and freerange; clearpteu, uva2ka, copyout, loaduvm and inituvm.
- growproc, which only chooses between allocuvm and deallocuvm.
- The scheduler's switch of stacks and page tables, interrupt flags, and the memory model of the spinlocks.
- The disk driver ide.c, consoles, timers and all other hardware.
- runcmd and the rest of the shell after parsing; grep's loop over input lines.
- setnice, gettreeinfo and getprocinfo.
