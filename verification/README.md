# A model of the kernel's hard parts

This project models the scheduler and locks, the basefs storage stack, the small-object allocator, the
registry hives and a few self-contained algorithms of a hobby kernel written in C, and proves what they
promise. Code that updates state in place is a class or a method with loops; each such method is tied to a
specification, and the lemmas are about the specification. Run `dafny verify dfyconfig.toml` to check it.

## How it is laid out

- **Scheduler.** `Threads` holds the arithmetic of dynamic priorities, `Scheduler` one handler call as a
  function on an abstract state, `SchedulerRuns` what follows for every run, `HandlerLaws` what a call does
  field by field and whom it dispatches, `EndlessCreation` why the bound counts creations, and `ThreadBlocks`
  and `RunQueue` the linked blocks and loops, proved to compute exactly that function.
- **Waiting.** `EventProtocol` is the event protocol as a transition system and `Events` its list code.
  `Mutex` is the FIFO mutex; `VfsLock` is the recursive lock over it, with every read and write of its two
  unlocked variables a separate step.
- **Storage.** `SectorCache` (one dirty sector over a disk), `Device` (the bitmap window over that),
  `AllocationMap`, `Allocator`, `Format` and `AllocationRuns` (allocations in the bitmap), `Volume`,
  `Directory`, `DirectoryAdd`, `DirectoryOps` and `DirectoryLaws` (directories as one sequence).
- **Deleting.** `Ownership` says what a directory owns on any volume and how many steps deleting it takes,
  `OwnedWalk` what the walk keeps, `DeleteRecursive` is the operation, `Subtree` and `TreeOwned` treat trees
  as a special case, `DeleteLaws` says what becomes of the rest; `RecordChains` is shared by them.
- **Kernel nodes.** `Knode` is a knode directory's records and what each change does to them, `KnodeOps` the
  operations and the set a directory is.
- **Memory.** `SlabPages` is one slab page with its intrusive, poisoned free list, `KernelHeap` the whole
  allocator state, `Malloc` its operations.
- **Registry.** `Registry` is the saved form and its reader, `RegistryRoundTrip` saving and loading,
  `RegistrySpelling` exactly which bytes load, and `RegistryFile` the field-by-field code.
- **Paths.** `Tokens`, `PathWalk` and `PathLaws`. **Algorithms.** `Division`, `DirtyRects`, `MessageWrap`.
- `Basics` and `Bits` are shared.

## What the code does that one might not expect

Each of these is a lemma, or a clause of one, with the exact condition where there is one.

- A reference can be added to a basefs directory twice: the duplicate check stops at the first record with
  room. A duplicate-free directory stays so exactly when it did not list the reference anywhere
  (`AddKeepsDistinct`, `AddCanDuplicate`). Knode directories, with a complete check, remain sets
  (`AddIsUnion`).
- An allocation of zero bytes on a volume takes blocks but is skipped by enumeration and by the used-bytes
  count; the count is exact if and only if there is none (`VisibleIsUsed`).
- The block count of an allocation wraps in 32 bits; it is right if and only if the sum does not
  (`BlocksNeededIsExact`), and only then does storing the allocation keep the volume sound
  (`StoringKeepsIff`). Likewise the page count of a large `malloc` (`LargePagesSuffice`).
- A registry value that claims bytes it does not have makes the computed file size too large, by exactly those
  bytes (`KeySizeIs`). Added up in 32 bits, the size can be exact all the same: it is when the missing bytes
  come to a multiple of 2^32 (`SizeIsExactIff`, `SizeCanLookExact`). A size that wrapped to too little does no
  harm, since writing past the end makes the file longer (`Hive.Export`).
- Saving and loading a hive mirrors every list; only a second round restores it (`KeyRoundTrip`,
  `TwiceIsIdentity`).
- Walking down to a kernel node and back by ".." can end inside a volume mounted at the upper node, or fail
  there; it comes back exactly when that node carries no mount with an open device or an unreadable partition
  (`DownAndUpKernel`).
- `mutex_lock` by the owner queues it behind itself (`OwnerQueuesBehindItself`).
- The comment at kernel/fs/basefs/directory.c:472-475 says entries that do not belong are never freed; lines
  531-533 free any file found in a directory, whoever else refers to it (`SharedFileIsLost`). Another directory
  lists only what is there afterwards if and only if it listed nothing of what was freed
  (`OtherDirectoryAfter`).
- The deleting walk can run out of steps, and then returns false with part of the work done. It finishes if and
  only if no directory it owns counts an empty slot as an entry, and the directories and their entries together
  are no more than its steps (`DeleteDirectory`, `WalkCanRunOut`). On a tree it always finishes (`DeleteTree`).
- `fs_device_format` opens the disk as it finds it and divides by the sector size stored there; a disk with the
  magic byte and a sector size of zero stops it, and no other disk does (`FsDeviceFormat`, `TrappingDisk`).
- The geometry of a device is right if and only if no 32-bit sum wraps in computing it (`GeometryIsExact`).
- The AHCI branch of the sector cache writes a dirty window over the sector about to be loaded; a swap is
  harmless if and only if the window is clean or both sectors hold what is in it (`FlushAndFetchAhci`).
- With new threads created without end, a boosted thread can wait without end (`BoostedThreadCanWait`): the
  bound on its wait counts creations.

## Model

| member | source | states |
|---|---|---|
| Threads.DegradeCountsAllotments | kernel/boot/x86/scheduler.c:90-100 | After k whole allotments and a remainder a thread is k levels lower and owes the remainder, or is at the floor and owes nothing. |
| Threads.ChargeBounds | kernel/boot/x86/scheduler.c:83-101 | Charging keeps IDLE <= dynamic <= base and usage below the allotment, and lowers the level by exactly the whole allotments used, or to the floor; a REALTIME thread never pays. |
| Threads.ChargeOutgoingBounds | kernel/boot/x86/scheduler.c:467-475 | Exactly what accounting costs the outgoing thread: every 2 * priority ms it owes cost a level, down to IDLE, the rest is owed, a REALTIME thread owes nothing; one that gave the processor up then wins back a level and half the rest; nothing else of it changes. |
| Threads.SettleBounds | kernel/boot/x86/scheduler.c:104-131 | Waking and aging keep the bounds; a boost sticks, and a thread READY for SCHED_STARVATION_MS is boosted. |
| ThreadBlocks.ThreadBlock.ChargeCpu | kernel/boot/x86/scheduler.c:83-101 | The subtracting loop computes the recursive definition of degradation. |
| ThreadBlocks.ThreadBlock.RecoverLevel | kernel/boot/x86/scheduler.c:104-108 | The fields afterwards are those of the abstract recovery. |
| ThreadBlocks.ThreadBlock.LeaveCpu | kernel/boot/x86/scheduler.c:467-475 | The outgoing thread is charged, and recovers a level if it gave up the processor. |
| ThreadBlocks.ThreadBlock.AgeBy | kernel/boot/x86/scheduler.c:111-131 | Aging of one block is aging of its view. |
| Scheduler.MaxLevelIsReached | kernel/boot/x86/scheduler.c:513-524 | The level of pass 2 bounds every runnable thread and, unless it is -1, one has it. |
| Scheduler.SearchFindsEligible | kernel/boot/x86/scheduler.c:539-548 | The round-robin search ends, on the first eligible thread after its start. |
| Scheduler.AfterPass1IsSettled | kernel/boot/x86/scheduler.c:477-503 | After pass 1 the queue is distinct, live and within bounds. |
| Scheduler.ChooseDispatches | kernel/boot/x86/scheduler.c:513-560 | Choosing leaves exactly one RUNNING thread, the current one, of maximal effective priority. |
| Scheduler.HandlerKeepsInv | kernel/boot/x86/scheduler.c:450-571 | Every handler call keeps the invariant; with a queue it leaves one running thread, of maximal effective priority, and no dead thread queued. |
| HandlerLaws.OutgoingIsCharged | kernel/boot/x86/scheduler.c:463-503 | After every handler call the outgoing thread has the level and the debt that the time since the last call, modulo 2^32, leaves it, with what it won back for giving the processor up and for 20 ms off it; stated with the fields alone. |
| HandlerLaws.OthersAreNotCharged | kernel/boot/x86/scheduler.c:463-503 | What the others owe, and their levels, change only by the recovery every 20 ms, however long the call was in coming. |
| HandlerLaws.HandlerTurns | kernel/boot/x86/scheduler.c:486-560 | State, quantum and boost of every queued thread afterwards: due sleepers wake, only the one dispatched runs and it was willing, the outgoing one uses a tick or gets a fresh quantum of its base length and loses its boost, 100 ms of waiting earn one. |
| HandlerLaws.HandlerClocks | kernel/boot/x86/scheduler.c:111-131 | The recovery clock starts again with each recovery and whenever the thread runs, the waiting clock whenever it is not ready. |
| HandlerLaws.HandlerPicks | kernel/boot/x86/scheduler.c:505-560 | The idle thread runs exactly if nobody queued can; the one dispatched has a level nobody exceeds; the outgoing thread goes on while it has ticks and nobody exceeds it. |
| HandlerLaws.HandlerGoesRound | kernel/boot/x86/scheduler.c:539-548 | Otherwise the processor goes round the queue: from the link after the outgoing thread on, whoever gets it is met before anyone else of its level. |
| SchedulerRuns.ActionKeepsInv | kernel/boot/x86/scheduler.c:143-571 | Handler calls, creation, blocking, sleeping, waking, yielding and dying keep the invariant. |
| HandlerLaws.SleepsThatLong | kernel/boot/x86/scheduler.c:234-247 | In every run, a thread that sleeps ms milliseconds and is not woken or killed sleeps through every handler call before its time, and the first one from then on makes it ready or runs it. |
| HandlerLaws.BlocksUntilWoken | kernel/boot/x86/mutex.c:34-51 | In every run, a blocked thread stays blocked until it is woken or killed. |
| HandlerLaws.WokenWaits | kernel/boot/x86/scheduler.c:285-295 | A thread that is woken wants the processor from then on. |
| HandlerLaws.DeadAreGone | kernel/boot/x86/scheduler.c:486-503 | A thread that exits or is killed is out of the queue after the next handler call. |
| HandlerLaws.YieldGivesWay | kernel/boot/x86/scheduler.c:227-232 | After a yield the thread goes on only if everyone else who wants the processor is below it. |
| SchedulerRuns.RunsAreSafe | kernel/boot/x86/scheduler.c:349-571 | From boot, every run keeps the invariant and every handler call in it dispatches the best thread. |
| SchedulerRuns.TickWhileWaiting | kernel/boot/x86/scheduler.c:111-131 | A waiting thread either gets the processor or keeps waiting with its wait clock standing still; after SCHED_STARVATION_MS it is boosted. |
| SchedulerRuns.SearchApproaches | kernel/boot/x86/scheduler.c:539-548 | A switch brings the processor strictly closer, along the ring, to a boosted waiting thread. |
| SchedulerRuns.TickLowersRank | kernel/boot/x86/scheduler.c:450-571 | Every handler call that leaves a boosted thread waiting lowers its rank (queue length, ring distance, quantum left). |
| SchedulerRuns.ActionKeepsRank | kernel/boot/x86/scheduler.c:227-247 | Nothing else that happens raises the rank beyond the creations accounted for. |
| SchedulerRuns.BoostedWaitIsBounded | kernel/boot/x86/scheduler.c:450-571 | While a boosted thread keeps waiting there are no more handler calls than its rank. |
| SchedulerRuns.StarvationFreedom | kernel/boot/x86/scheduler.c:111-131 | A thread that waits throughout a run sees at most 6m^2+6m+5 handler calls after the one that boosts it, m counting queued and created threads. |
| SchedulerRuns.EveryReadyThreadRuns | kernel/boot/x86/scheduler.c:450-571 | In any long enough run a ready thread that nobody kills gets the processor. |
| EndlessCreation.BoostedThreadCanWait | kernel/boot/x86/scheduler.c:395-571 | For every n there is a run from boot in which a boosted thread waits through n handler calls, one REALTIME thread being created before each. |
| RunQueue.RunQueue.constructor | kernel/boot/x86/scheduler.c:349-393 | The state after initialisation is the abstract initial state: the boot thread, RUNNING at NORMAL, is the whole queue. |
| RunQueue.RunQueue.UnlinkThread | kernel/boot/x86/scheduler.c:193-211 | The circular list afterwards is the old one without that block; the head moves on if it was the head. |
| RunQueue.RunQueue.ReapThreads | kernel/boot/x86/scheduler.c:215-225 | Exactly the reaper list is freed, each block once. |
| RunQueue.RunQueue.WakeUnlinkAge | kernel/boot/x86/scheduler.c:477-503 | Pass 1 over the links: the live blocks remain in order, settled; the dead are on the reaper list. |
| RunQueue.RunQueue.AccountTime | kernel/boot/x86/scheduler.c:463-475 | The elapsed time, modulo 2^32, is charged to the outgoing thread and to nobody else. |
| RunQueue.RunQueue.FindLevel | kernel/boot/x86/scheduler.c:513-524 | The loop computes the maximal effective priority of runnable blocks. |
| RunQueue.RunQueue.FindNext | kernel/boot/x86/scheduler.c:539-548 | Following `next` reaches the block the abstract search names. |
| RunQueue.RunQueue.ChooseThread | kernel/boot/x86/scheduler.c:513-560 | Passes 2 and the switch compute the abstract choice. |
| RunQueue.RunQueue.ThreadHandler | kernel/boot/x86/scheduler.c:450-571 | The whole handler is one abstract step; it frees exactly the blocks the previous call unlinked, and unlinks exactly the dead. |
| RunQueue.RunQueue.ThreadCreate | kernel/boot/x86/scheduler.c:395-427 | The new block is the last of the ring: READY, at its base priority, with a full quantum, owing nothing, its clocks starting now. |
| EventProtocol.ActionKeepsInv | kernel/boot/x86/scheduler.c:253-347 | In every interleaving a thread is on E's list, once, exactly when its wait_event is E, and a pending signal means no waiters. |
| EventProtocol.RunsFromStartAreSafe | kernel/boot/x86/scheduler.c:253-347 | So it is in every state reached from events just initialised. |
| EventProtocol.MarkedIffSignalled | kernel/boot/x86/scheduler.c:285-295 | While a thread waits on an event its mark is set exactly by a signal of that event. |
| EventProtocol.EventWaitReturnsTrueIffSignalled | kernel/boot/x86/scheduler.c:301-347 | event_wait returns true exactly when a signal was pending or reached it, even after its timeout fired. |
| EventProtocol.WaitWithoutTimeoutNeedsSignal | kernel/boot/x86/scheduler.c:314-346 | In every run, a wait without a timeout is ready to go on only once its event has been signalled, and then returns true. |
| EventProtocol.WaitWithTimeoutTimesOut | kernel/boot/x86/scheduler.c:329-346 | In every run, a wait with a timeout that nobody signals sleeps until its time has come, can then go on, and returns false. |
| EventProtocol.SignalStaysUntilTaken | kernel/boot/x86/scheduler.c:279-281 | A signal nobody waited for is not lost before a wait takes it. |
| EventProtocol.SignalReachesSomeone | kernel/boot/x86/scheduler.c:275-299 | A signal wakes every waiter, or is remembered for the next one. |
| Events.EventSignal | kernel/boot/x86/scheduler.c:275-299 | The list walk notifies every waiter once and empties the list, or sets the flag. |
| Events.EventRemoveWaiter | kernel/boot/x86/scheduler.c:262-273 | The pointer walk removes the thread wherever it is on the list and leaves the rest in order. |
| Events.EventWaitBegin | kernel/boot/x86/scheduler.c:314-335 | Up to its yield a wait takes a pending signal, or queues the thread in front, BLOCKED without a timeout and SLEEPING until now + timeout with one. |
| Events.EventWaitFinish | kernel/boot/x86/scheduler.c:337-346 | After resuming, a thread still listed takes itself off, and the answer is its mark. |
| Mutex.AcquireKeepsValid | kernel/boot/x86/mutex.c:19-48 | Taking or queueing keeps the waiters distinct and the owner out of the queue, for a thread that neither owns nor waits. |
| Mutex.ReleaseKeepsValid | kernel/boot/x86/mutex.c:74-101 | Direct handoff keeps the same invariant. |
| Mutex.OwnerQueuesBehindItself | kernel/boot/x86/mutex.c:34-48 | Locking keeps the invariant if and only if the caller neither owns the mutex nor waits for it; an owner queued behind itself is let through by no one else. |
| Mutex.KernelMutex.Lock | kernel/boot/x86/mutex.c:19-53 | The node list implements the abstract acquire: a free mutex is owned, otherwise the caller is the last waiter and BLOCKED. |
| Mutex.KernelMutex.TryLock | kernel/boot/x86/mutex.c:58-72 | Success exactly if unowned, and otherwise no change. |
| Mutex.KernelMutex.Unlock | kernel/boot/x86/mutex.c:74-104 | Ownership goes to the first waiter, who alone becomes READY and leaves the list, or to nobody; a non-owner changes nothing. |
| VfsLock.ActionKeepsInv | kernel/vfs/vfs_lock.c:34-54 | Every single read, write, lock and unlock step of every interleaving keeps the invariant. |
| VfsLock.MutualExclusion | kernel/vfs/vfs_lock.c:34-54 | In every reachable state at most one thread holds the lock, it owns the mutex, and the depth is its nesting. |
| VfsLock.UnlockedTestIsSound | kernel/vfs/vfs_lock.c:35-38 | A thread that reads itself as the owner holds the lock, and one that holds it reads itself. |
| VfsLock.NeverQueuesBehindItself | kernel/vfs/vfs_lock.c:40-40 | A holder never reaches mutex_lock. |
| VfsLock.UnlockByOthersChangesNothing | kernel/vfs/vfs_lock.c:46-47 | No step of an unlock by a thread that does not hold the lock changes anything shared. |
| VfsLock.LockTakesEffect | kernel/vfs/vfs_lock.c:34-43 | In every interleaving a lock call takes at most six steps of its caller, and when it has returned the caller owns the mutex and is one level deeper than before. |
| VfsLock.UnlockTakesEffect | kernel/vfs/vfs_lock.c:45-54 | Likewise an unlock call leaves its caller one level less deep, if it held any, and after the last level without the mutex. |
| VfsLock.FirstComeFirstServed | kernel/boot/x86/mutex.c:85-96 | After h handoffs the waiter at place k is at place k - h, behind the same threads in the same order. |
| VfsLock.KthWaiterNeedsKHandoffs | kernel/boot/x86/mutex.c:85-96 | The k-th waiter becomes the owner by exactly the k-th handoff. |
| SectorCache.SectorCache.FlushAndFetch | kernel/fs/basefs/io_x86.c:16-43 | Swapping the loaded sector leaves the flat array as it was and loses no written byte (ATA). |
| SectorCache.SectorCache.FlushAndFetchAhci | kernel/fs/basefs/io_x86.c:47-65 | On the AHCI branch the flat array survives a swap if and only if the window is clean or both sectors hold what is in it; otherwise the sector asked for is overwritten. |
| SectorCache.SectorCache.ReadByte | kernel/fs/basefs/io_x86.c:70-81 | Reads the flat array; 0 past the end. |
| SectorCache.SectorCache.WriteByte | kernel/fs/basefs/io_x86.c:83-97 | Changes one byte of the flat array; nothing past the end. |
| SectorCache.SectorCache.MemRead | kernel/fs/basefs/io_x86.c:99-104 | A range read, whichever sectors are swapped, is that range of the flat array. |
| SectorCache.SectorCache.MemWrite | kernel/fs/basefs/io_x86.c:106-111 | A range write is a write to the flat array. |
| SectorCache.SectorCache.Sync | kernel/fs/basefs/io_x86.c:113-122 | Afterwards the disk itself is the flat array and nothing is dirty. |
| SectorCache.ReadAfterWrite | kernel/fs/basefs/io_x86.c:99-111 | A written range reads back as written and everything else as before. |
| SectorCache.WritesCommute | kernel/fs/basefs/io_x86.c:106-111 | Writes to separate ranges commute. |
| Device.MarkFacts | kernel/fs/basefs/bitmap.c:14-34 | Setting or clearing one bit changes that bit and no other byte or bit. |
| Bits.BitIsDigit | kernel/fs/basefs/bitmap.c:11-11 | Bit k of a byte, which the mask 1 << k tests, is its binary digit of weight 2^k. |
| Device.Device.BitmapFlush | kernel/fs/basefs/bitmap.c:36-46 | The image is unchanged and the flat array under the window becomes equal to it. |
| Device.Device.BitmapSync | kernel/fs/basefs/bitmap.c:48-65 | Loading another frame leaves the image unchanged. |
| Device.Device.BitmapGet | kernel/fs/basefs/bitmap.c:7-12 | Reads the bit of the image. |
| Device.Device.BitmapSet | kernel/fs/basefs/bitmap.c:14-23 | Sets exactly that bit of the image. |
| Device.Device.BitmapClear | kernel/fs/basefs/bitmap.c:25-34 | Clears exactly that bit of the image. |
| Device.Device.Read | kernel/fs/basefs/io_x86.c:99-104 | Outside the bitmap, a read through both caches reads the image. |
| Device.Device.Write | kernel/fs/basefs/io_x86.c:106-111 | Outside the bitmap, a write through both caches writes the image. |
| Device.Device.DeviceSync | kernel/fs/basefs/device.c:187-197 | Window first, then sector: afterwards the disk is the image and nothing is pending. |
| AllocationMap.AllocKeeps | kernel/fs/basefs/device.c:82-98 | Taking a free run keeps the bits exact, the runs disjoint and the headers stored, and adds exactly that run. |
| AllocationMap.RunIsLeast | kernel/fs/basefs/device.c:79-79 | The run of an allocation has the least number of blocks that hold header and payload. |
| AllocationMap.FreeKeeps | kernel/fs/basefs/device.c:103-119 | Freeing keeps the same invariant and removes exactly that run. |
| AllocationMap.PayloadWriteKeeps | kernel/fs/basefs/io_x86.c:106-111 | Writing inside a payload disturbs no bookkeeping. |
| AllocationMap.PayloadsSeparate | kernel/fs/basefs/device.c:76-101 | Payloads of live allocations overlap neither each other nor the bitmap. |
| AllocationMap.LiveSizeFits | kernel/fs/basefs/device.c:108-110 | For a live allocation the block count never wraps. |
| AllocationRuns.RunKeeps | kernel/fs/basefs/device.c:76-119 | After every run of allocations of sizes whose sum does not wrap, writes and frees, the set bits are exactly the reserved blocks and the live runs. |
| AllocationRuns.NothingLeaks | kernel/fs/basefs/device.c:76-119 | A run that frees all it allocated leaves only the reserved blocks marked. |
| AllocationRuns.PayloadSurvives | kernel/fs/basefs/device.c:76-119 | Over any run, a payload changes only by writes to it. |
| AllocationRuns.AllocationsFit | kernel/fs/basefs/directory.c:23-27 | There are never more live allocations than blocks, so the walk limit suffices. |
| Allocator.BlocksNeededIsExact | kernel/fs/basefs/device.c:79-79 | The 32-bit block count is exact if and only if the sum does not wrap. |
| Allocator.StoringKeepsIff | kernel/fs/basefs/device.c:76-101 | Storing an allocation keeps the bits and headers exact if and only if the sum for its block count does not wrap. |
| Allocator.FindFreeRun | kernel/fs/basefs/device.c:80-99 | The scan finds the lowest free run that is long enough, or there is none. |
| Allocator.FsAlloc | kernel/fs/basefs/device.c:76-101 | Takes the lowest fitting run; fails, without a change, only if there is none; outside the bitmap writes the size in front of the payload and nothing else. |
| Allocator.FsFree | kernel/fs/basefs/device.c:103-119 | Exactly that allocation goes; its size word becomes 0 and no other byte outside the bitmap changes. |
| Basics.LittleEndian | kernel/fs/basefs/structs.h:35-37 | A stored 32-bit number is its four bytes as digits to the base 256, least significant first. |
| Allocator.FreeUndoesAlloc | kernel/fs/basefs/device.c:76-119 | Allocating and freeing again restores the bitmap bit for bit. |
| Allocator.FsFindNext | kernel/fs/basefs/device.c:121-143 | Enumerates the live allocations with a payload, each once, in address order. |
| Allocator.VisibleIsUsed | kernel/fs/basefs/device.c:49-71 | Counting by headers equals the set bits if and only if no live allocation is empty. |
| Allocator.FsGetUsedBytes | kernel/fs/basefs/device.c:37-74 | The sector size times the counted blocks; its guards against corruption do not fire. |
| Format.FsDeviceOpen | kernel/fs/basefs/device.c:12-35 | On any disk: refuses exactly without the magic byte, divides by zero exactly with it and a stored sector size of zero, and otherwise computes the geometry in 32-bit words; the disk stays as it was. |
| Format.GeometryIsExact | kernel/fs/basefs/device.c:25-30 | That geometry is right if and only if none of its sums wraps. |
| Format.FsDeviceFormat | kernel/fs/basefs/device.c:145-175 | Stops, having changed nothing, exactly if opening the old contents divides by zero; otherwise the formatted disk reopens with its geometry, has the two headers byte for byte (id, names, sizes, no root directory, magic), holds the reserved blocks and nothing else, and is all on disk. |
| Format.TrappingDisk | kernel/fs/basefs/device.c:154-155 | A disk on which it stops. |
| Directory.HeaderRemove | kernel/fs/basefs/directory.c:274-296 | Shifting the header's slots removes the first occurrence from the sequence. |
| Directory.ExtentShrink | kernel/fs/basefs/directory.c:303-327 | So does shifting an extent's slots, when others remain in it. |
| Directory.ExtentDrop | kernel/fs/basefs/directory.c:93-121 | Unlinking an emptied extent from first, middle or last place keeps the chain and removes its one reference. |
| DirectoryAdd.HeaderAppend | kernel/fs/basefs/directory.c:190-196 | With room in the header the reference is inserted after the header's own. |
| DirectoryAdd.ExtentAppend | kernel/fs/basefs/directory.c:212-218 | Otherwise after those of the first extent with room. |
| DirectoryAdd.ExtentNew | kernel/fs/basefs/directory.c:225-259 | Otherwise at the end, in a new extent linked behind the last. |
| DirectoryOps.Store.GetReferenceCount | kernel/fs/basefs/directory.c:370-390 | The length of the sequence; 0 for what is not a directory; the walk guard does not fire. |
| DirectoryOps.Store.GetReference | kernel/fs/basefs/directory.c:338-368 | The sequence's element, or FS_NULL beyond its end. |
| DirectoryOps.Store.ExtentUnlinkAndFree | kernel/fs/basefs/directory.c:93-121 | The neighbours are linked to each other and the extent is gone; nothing else changes. |
| DirectoryOps.Store.RemoveReference | kernel/fs/basefs/directory.c:262-336 | The result code exactly, and the sequence without the first occurrence, in order, touching only the directory's records. |
| DirectoryOps.Store.AddReference | kernel/fs/basefs/directory.c:169-260 | The result code exactly, and where the reference is inserted, or that nothing changes. |
| DirectoryOps.Store.DirectoryDelete | kernel/fs/basefs/directory.c:146-167 | Exactly the header and its extents are freed. |
| DirectoryOps.Store.FileDelete | kernel/fs/basefs/file.c:77-98 | Exactly the file's header and extents are freed; anything else is refused. |
| DirectoryLaws.AddKeepsDistinct | kernel/fs/basefs/directory.c:183-218 | A duplicate-free directory stays so if and only if the reference was not listed beyond the record with room. |
| DirectoryLaws.AddCanDuplicate | kernel/fs/basefs/directory.c:190-196 | A directory in which it was. |
| DirectoryLaws.CheckedIsAll | kernel/fs/basefs/directory.c:183-218 | When only the last record has room, the duplicate check reads everything. |
| DirectoryLaws.AddedBehindRoom | kernel/fs/basefs/directory.c:190-259 | A new reference ends up right behind those of the first record with room, or at the very end, and all others keep their order. |
| DirectoryLaws.AddThenRemove | kernel/fs/basefs/directory.c:169-336 | Adding an absent reference and removing it gives back the sequence. |
| DirectoryLaws.OtherDirectoryUnchanged | kernel/fs/basefs/directory.c:169-336 | A directory that shares no record is unaffected. |
| DeleteRecursive.DeleteBelow | kernel/fs/basefs/directory.c:497-536 | On any volume: true if and only if no owned directory counts an empty slot and one step for each owned directory and each entry is within the budget; then exactly the owned directories and the files they list are gone; never is anything else touched. |
| DeleteRecursive.DeleteDirectory | kernel/fs/basefs/directory.c:479-537 | The same for the whole operation: refuses the root and non-directories, and removes the first entry for the directory from the parent, in order. |
| DeleteRecursive.DeleteTree | kernel/fs/basefs/directory.c:479-537 | On a tree it always finishes, exactly the tree is gone, and nothing else has changed but the entry in the parent. |
| Ownership.OrderExists | kernel/fs/basefs/directory.c:519-525 | What a directory owns can be listed so that each comes behind its owner, whatever the volume. |
| Ownership.WorkCovers | kernel/fs/basefs/directory.c:494-497 | The work left is never less than the number of directories descended through. |
| Ownership.WalkCanRunOut | kernel/fs/basefs/directory.c:494-497 | A volume on which the steps do not suffice. |
| OwnedWalk.StepHalf | kernel/fs/basefs/directory.c:508-533 | Unlinking an entry, with what it takes along, keeps the walk's invariant: of what goes, part is gone and the rest is as it was but for entries dealt with. |
| OwnedWalk.StepWork | kernel/fs/basefs/directory.c:508-533 | Each such step lowers the work left by exactly one, or by two if a directory goes with it. |
| OwnedWalk.Descend | kernel/fs/basefs/directory.c:517-525 | An owned subdirectory is never one the walk already stands below. |
| OwnedWalk.Climbing | kernel/fs/basefs/directory.c:508-513 | The parent field of an emptied directory leads to the one it was entered from, which still lists it. |
| OwnedWalk.Entry | kernel/fs/basefs/directory.c:515-533 | What the walk finds at an entry is what the entry was to begin with: an owned subdirectory, a file, or neither. |
| OwnedWalk.EndsEmpty | kernel/fs/basefs/directory.c:502-506 | When the start has no entries left, freeing it leaves the volume without exactly what goes. |
| TreeOwned.TreeIsOwned | kernel/fs/basefs/directory.c:467-475 | A tree is what its root owns, its allocations are what goes, and the steps suffice. |
| Subtree.TreesExist | kernel/fs/basefs/directory.c:467-475 | There are such trees. |
| DeleteLaws.LivesIffOutside | kernel/fs/basefs/directory.c:479-537 | A directory or file survives a deletion if and only if it is not among what goes. |
| DeleteLaws.OtherDirectoryAfter | kernel/fs/basefs/directory.c:529-533 | Another directory keeps its references, and they all still lead somewhere if and only if none led to what went. |
| DeleteLaws.ParentAfter | kernel/fs/basefs/directory.c:488-489 | So do those left in the parent. |
| DeleteLaws.OtherTreeAfter | kernel/fs/basefs/directory.c:479-537 | A tree that shares no record with what goes or the parent is as it was. |
| DeleteLaws.SharedFileIsLost | kernel/fs/basefs/directory.c:529-533 | A file two directories list goes with the first of them. |
| Knode.UnlinkedView | kernel/knode.c:248-275 | Relinking the neighbours and the header, with this chain's own end markers, takes exactly that extent out, wherever it was. |
| Knode.UnlinkedTail | kernel/knode.c:252-272 | The tail pointer is the last extent again, or 0; no other record changes. |
| Knode.KHeaderRemove | kernel/knode.c:216-230 | Removing from the header takes the first occurrence out of the sequence and keeps the chain. |
| Knode.KExtentShrink | kernel/knode.c:238-278 | So does removing from an extent that keeps others. |
| Knode.KExtentDrop | kernel/knode.c:238-278 | The last reference of an extent takes the extent with it; the rest stays in order. |
| Knode.KHeaderAppend | kernel/knode.c:155-160 | With room in the header the reference goes after the header's own. |
| Knode.KExtentAppend | kernel/knode.c:165-174 | Otherwise after those of the first extent with room. |
| Knode.KExtentNew | kernel/knode.c:180-206 | Otherwise into a new extent, which becomes the tail. |
| KnodeOps.FindSlot | kernel/knode.c:37-40 | The first slot in use that holds the reference, if any does. |
| KnodeOps.ShiftOut | kernel/knode.c:219-225 | Later references move down by one and the freed slot is cleared. |
| KnodeOps.Knodes.Contains | kernel/knode.c:24-58 | True exactly for a non-null reference that the directory lists, wherever. |
| KnodeOps.Knodes.AddReference | kernel/knode.c:142-207 | Succeeds exactly for a new, non-null reference for which there is room or a new extent; says where it goes; otherwise changes nothing. |
| KnodeOps.Knodes.AddExtent | kernel/knode.c:180-206 | The new extent is linked behind the last one and the header's tail leads to it. |
| KnodeOps.Knodes.UnlinkAndFree | kernel/knode.c:248-275 | The writes, in the code's order, leave the records without that extent. |
| KnodeOps.Knodes.RemoveReference | kernel/knode.c:209-288 | Succeeds exactly if the reference is listed; then it is gone, in order, with an emptied extent. |
| KnodeOps.Knodes.GetReference | kernel/knode.c:290-314 | The sequence's element, or KMALLOC_NULL beyond its end and for what is not a directory. |
| KnodeOps.Knodes.GetReferenceCount | kernel/knode.c:316-338 | The length of the sequence, or KMALLOC_NULL. |
| KnodeOps.AddIsUnion | kernel/knode.c:149-150 | The complete duplicate check keeps a directory a set: adding is union with that reference. |
| KnodeOps.RemoveIsDifference | kernel/knode.c:209-288 | Removing is difference with that reference, and keeps a set. |
| KnodeOps.AddThenRemoveK | kernel/knode.c:142-288 | Adding and removing gives back the enumeration. |
| KnodeOps.OtherKnodeUnchanged | kernel/knode.c:142-288 | A directory that shares no record is unaffected. |
| SlabPages.SlotFacts | kernel/arch/x86/malloc.c:58-71 | A slot lies in its page, leads back to it and is never page aligned. |
| SlabPages.FreshOk | kernel/arch/x86/slab.c:35-56 | A page threaded and poisoned slot by slot is a well-formed page of free slots. |
| SlabPages.PopOk | kernel/arch/x86/slab.c:77-94 | The first free slot is poisoned behind its link, and the rest stays well formed. |
| SlabPages.PushOk | kernel/arch/x86/slab.c:117-124 | Giving a live slot back keeps the page well formed, and the count cannot underflow. |
| KernelHeap.LiveApart | kernel/arch/x86/malloc.c:25-53 | Live allocations, small or large, occupy separate memory. |
| KernelHeap.PoppedOk | kernel/arch/x86/slab.c:77-94 | Exactly that slot becomes live; what others hold is untouched. |
| KernelHeap.PushedOk | kernel/arch/x86/slab.c:117-124 | Exactly that slot stops being live. |
| KernelHeap.DroppedOk | kernel/arch/x86/slab.c:126-138 | Returning an empty page takes nothing from anyone. |
| KernelHeap.GrownOk | kernel/arch/x86/slab.c:68-75 | Adding a page makes nothing live. |
| KernelHeap.LargeAddedOk | kernel/arch/x86/malloc.c:37-52 | Whole pages behind one that keeps their number become one live allocation. |
| KernelHeap.LargeGoneOk | kernel/arch/x86/malloc.c:60-67 | And are given back as one. |
| Malloc.LargePagesSuffice | kernel/arch/x86/malloc.c:40-41 | The page count is large enough if and only if the size is at most 4 GiB less two pages. |
| Malloc.WrittenOk | kernel/arch/x86/slab.c:79-90 | Programs writing into what they hold cannot make the corruption check fire. |
| Malloc.Heap.SlabGrow | kernel/arch/x86/slab.c:14-59 | The loop threads and poisons every slot of the new page. |
| Malloc.Heap.FindRoom | kernel/arch/x86/slab.c:62-66 | The first listed page with a free slot, if any has one. |
| Malloc.FullIsAllLive | kernel/arch/x86/slab.c:64-66 | A cache has no page with a free slot exactly when every slot of its pages is live. |
| Malloc.Heap.SlabAlloc | kernel/arch/x86/slab.c:61-97 | Hands out exactly one slot: the first free one of the first listed page that has any, with no page added; only if none has, the first one of a new page; fails exactly if there is neither. The corruption check does not fire. |
| Malloc.Heap.SlabFree | kernel/arch/x86/slab.c:99-139 | Reports a double free exactly when the slot is free; otherwise takes back exactly it, as the first of its page to be handed out again, and returns the page if that was its last. |
| Malloc.Heap.Alloc | kernel/arch/x86/malloc.c:25-53 | At least the asked size, from the best cache, with 16 bytes or less than twice the size, or in whole zeroed pages with less than a page to spare, separate from all others; a small size fails exactly if its cache has no free slot and there is no page, and adds a page only if it has none; every kept page has a live object. |
| Malloc.Heap.Free | kernel/arch/x86/malloc.c:55-75 | Alignment sends each address to its own allocator, and exactly it is given back. |
| Malloc.Heap.Write | kernel/arch/x86/slab.c:79-90 | Writing inside a live allocation changes nothing else. |
| Malloc.StillFitsHolds | kernel/arch/x86/malloc.c:98-134 | A block with the page count, or in the cache, that the new size calls for is large enough for it. |
| Malloc.Heap.Realloc | kernel/arch/x86/malloc.c:77-151 | Keeps the block exactly if it is still the one to use; otherwise answers as malloc does, from a free slot of the cache if there is one; moving keeps the common prefix and everyone else's contents; failure changes nothing. |
| Registry.StoredNameOk | kernel/registry/registry.c:31-34 | A stored name is terminated, stays the same when stored again, and reads as the cut original. |
| Registry.NameReadBack | kernel/registry/registry.c:217-220 | Reading a stored name back gives the same sixteen bytes. |
| Registry.KeySizeIs | kernel/registry/registry.c:352-385 | What is written falls short of the sum of the sizes by exactly the bytes claimed and not there. |
| Registry.SizeIsExactIff | kernel/registry/registry.c:352-385 | The size, computed in 32-bit words, is exact if and only if the missing bytes are a multiple of 2^32; none are missing if and only if every value has its bytes. |
| Registry.SizeCanLookExact | kernel/registry/registry.c:352-385 | A key that misses bytes and whose computed size is exact all the same. |
| RegistryRoundTrip.KeyRoundTrip | kernel/registry/registry.c:153-270 | Loading what was saved consumes exactly that, whatever follows, and gives the mirror image; it fails exactly beyond the depth and size limits. |
| RegistryRoundTrip.TwiceIsIdentity | kernel/registry/registry.c:153-270 | Two rounds give back the tree. |
| RegistrySpelling.ValueAccepted | kernel/registry/registry.c:225-252 | Reading one value accepts exactly the bytes that spell one, field by field, of at most 64 KiB. |
| RegistrySpelling.KeyAccepted | kernel/registry/registry.c:206-270 | Reading a key with everything below it accepts exactly the bytes that spell a tree, field by field, at most 32 levels below the root, and gives its mirror image. |
| RegistrySpelling.FailsIffNotSpelled | kernel/registry/registry.c:206-270 | It fails on exactly the bytes that begin with no spelling of any tree. |
| RegistrySpelling.SavedIsSpelled | kernel/registry/registry.c:153-201 | What saving writes spells the tree. |
| RegistryRoundTrip.GetKeyIsFirst | kernel/registry/registry.c:124-137 | Looking up a subkey finds the first of that name, and fails exactly if there is none. |
| RegistryRoundTrip.GetValueIsFirst | kernel/registry/registry.c:139-151 | So does looking up a value. |
| RegistryRoundTrip.LookupFinds | kernel/registry/registry.c:124-151 | A lookup along a path finds a value exactly if the path leads to a key that has one of that name, and then the first. |
| RegistryRoundTrip.LookupUnchanged | kernel/registry/registry.c:124-151 | With unique sibling names every value is found on the mirror image as on the original. |
| RegistryFile.CalculateKeySize | kernel/registry/registry.c:352-385 | The recursive loops compute the sum modulo 2^32. |
| RegistryFile.ExportKeyTo | kernel/registry/registry.c:153-201 | Field by field, exactly the saved form is written at the position. |
| RegistryFile.ImportValue | kernel/registry/registry.c:225-252 | Reads one value as specified, or fails. |
| RegistryFile.ImportKey | kernel/registry/registry.c:206-270 | Reads a key and everything below it as specified, or fails. |
| RegistryFile.Hive.Export | kernel/registry/registry.c:309-350 | The file starts with "REG!", whether there is a root, and the saved hive, and is as long as that or as the computed size modulo 2^32, whichever is more. |
| RegistryFile.Hive.Import | kernel/registry/registry.c:272-307 | Without the four magic bytes the answer is false and the hive untouched; with them alone it is false and the hive empty; with a flag of 0 it is true and the hive empty; with any other flag it is true exactly if what follows begins with the spelling of a tree, whose mirror image is then the root, and otherwise false and the hive empty. |
| RegistryFile.SaveAndLoad | kernel/registry/registry.c:272-350 | Loading a saved hive succeeds exactly within the limits, with the mirror image. |
| RegistryFile.SaveAndLoadTwice | kernel/registry/registry.c:272-350 | Two rounds restore the hive. |
| RegistryFile.FileIsExactIff | kernel/registry/registry.c:312-323 | The saved hive fills its file exactly if and only if the missing bytes modulo 2^32 are none or make the size wrap; without wrapping, if and only if every value has its bytes. |
| RegistryFile.CreateKey | kernel/registry/registry.c:44-63 | A new key is the first subkey, and is found first under its name if that was not cut. |
| RegistryFile.FindKey | kernel/registry/registry.c:124-137 | The first subkey of that name, or none if there is none. |
| Tokens.SplitParts | kernel/util/tok.c:21-56 | No token is empty or holds a slash. |
| Tokens.SplitName | kernel/util/tok.c:21-56 | A name without a slash is its own and only token, and an empty path has none. |
| Tokens.SplitJoined | kernel/util/tok.c:21-56 | The tokens of two paths joined by a slash are those of both. |
| Tokens.Tokenizer.Next | kernel/util/tok.c:21-56 | Cutting the buffer in place yields the non-empty parts between slashes, in order. |
| PathWalk.WalkersAgree | kernel/vfs/vfs_parse.c:14-294 | On every non-empty path the resolver's walk gives the parser's node, and fails exactly when the parser finds none; creating never hides what exists. |
| PathWalk.BothWalkers | kernel/vfs/vfs_parse.c:14-294 | The same of the two methods, each with its own code for a token. |
| PathWalk.ResolveToken | kernel/vfs/vfs_parse.c:37-103 | The resolver's code for one token takes the step that the PathLaws members describe. |
| PathWalk.ParseKernelToken | kernel/vfs/vfs_parse.c:205-232 | The parser's own code outside a volume, its mount test one condition, takes the same step. |
| PathWalk.ParseVolumeToken | kernel/vfs/vfs_parse.c:233-285 | So does its code inside a volume, with its own search; a missing name is created exactly if it is the last, short enough and asked for. |
| PathWalk.ParseToken | kernel/vfs/vfs_parse.c:202-285 | So does the whole. |
| PathWalk.ResolvePath | kernel/vfs/vfs_parse.c:14-109 | The token loop computes the walk. |
| PathWalk.ParsePath | kernel/vfs/vfs_parse.c:180-294 | So does the other one, creating only a missing last name, in a volume, of at most 15 characters. |
| PathWalk.KFindByName | kernel/knode.c:364-390 | Finds the first reference whose node has that name, if no reference before it is null; otherwise, and for what is no directory and for the empty name, the answer is KMALLOC_NULL. |
| PathWalk.FindEntry | kernel/vfs/vfs_parse.c:82-96 | Finds the first entry whose node has that name, passing over empty slots; 0 if there is none. |
| PathWalk.KFindIsFirst | kernel/knode.c:364-390 | The lookup the walkers share, said by index and name alone. |
| PathWalk.FirstEntryIsFirst | kernel/vfs/vfs_parse.c:247-261 | And the search inside a volume, which each walker has of its own. |
| PathLaws.StepInKernel | kernel/vfs/vfs_parse.c:37-46 | From a kernel node a name leads to the first reference of that name, or nowhere. |
| PathLaws.StepInVolume | kernel/vfs/vfs_parse.c:81-102 | Inside a volume it leads to the first entry of that name, or nowhere. |
| PathLaws.StepUp | kernel/vfs/vfs_parse.c:38-80 | ".." leads to the node above, out of a volume from its root directory to the node above the mount, and elsewhere along the parent field. |
| PathLaws.ArriveIs | kernel/vfs/vfs_parse.c:48-66 | Arriving at a kernel node ends there unless a mounted volume takes the walk in or cannot be read. |
| PathLaws.KParentIs | kernel/knode.c:348-362 | The node above is the parent if both are directories, and otherwise the node itself. |
| PathLaws.WalkIsSteps | kernel/vfs/vfs_parse.c:30-106 | A walk is its steps, one token after another. |
| PathLaws.DotGoesNowhere | kernel/vfs/vfs_parse.c:32-35 | "." changes nothing, wherever in a path it stands. |
| PathLaws.CreatesExactly | kernel/vfs/vfs_parse.c:263-285 | A file is created exactly if everything but the last name leads into a volume, the last name is missing there and has at most 15 characters, and creating succeeds; and it is created there under that name. |
| PathLaws.ResolvedIs | kernel/vfs/vfs_parse.c:14-109 | A path of at most 255 characters is walked whole from the root, and the answer is where the walk ends. |
| PathWalk.EnterMount | kernel/vfs/vfs_parse.c:48-66 | Ends at the node itself unless it carries a mount with two non-null references and a known device that is open or whose partition is unreadable; then it fails if that is unreadable and otherwise stands in the root directory of the volume. |
| PathWalk.WalkJoined | kernel/vfs/vfs_parse.c:30-106 | A longer path is the shorter one and then the rest from there. |
| PathWalk.DownAndUp | kernel/vfs/vfs_parse.c:67-103 | Into a subdirectory of a volume and back by ".." is where one was. |
| PathWalk.CrossMountAndBack | kernel/vfs/vfs_parse.c:67-80 | Into a mounted volume and back by ".." is the kernel node above the mount. |
| PathWalk.DownAndUpKernel | kernel/vfs/vfs_parse.c:37-66 | Between kernel nodes the same, if and only if the upper one carries no mount with two non-null references, a known device, and an open device or an unreadable partition. |
| DirtyRects.IntersectionIsShared | kernel/dwm/dwm_aux.c:9-29 | Rectangles intersect exactly when they share a pixel, and the intersection is the shared pixels. |
| DirtyRects.ClipIsExact | kernel/dwm/dwm_aux.c:47-57 | Clipping keeps exactly the requested pixels that are on the screen. |
| DirtyRects.MergeStep | kernel/dwm/dwm_aux.c:66-89 | One merge loses no pixel and adds no area. |
| DirtyRects.MergeableExactly | kernel/dwm/dwm_aux.c:66-80 | Rectangles merge exactly when they share a point of their insides or edges and the smallest rectangle around both is no larger than the two. |
| DirtyRects.BoxIsLeast | kernel/dwm/dwm_aux.c:102-120 | The box a full list becomes is the smallest rectangle around all of it. |
| DirtyRects.WindowContext.InvalidateRegion | kernel/dwm/dwm_aux.c:44-121 | No dirty pixel is lost, all stays on screen within 32 entries and 32-bit areas, the area grows by no more than the new rectangle, which then merges with none; a full list becomes its one bounding box. |
| MessageWrap.LineIsFit | kernel/dwm/windows/message_box.c:51-86 | A line fits, has no break in it, and what it leaves out is blank. |
| MessageWrap.FindLine | kernel/dwm/windows/message_box.c:52-86 | A line ends at a break, at the end, at the last space that fits, or in mid-word if there is none. |
| MessageWrap.LongestLine | kernel/dwm/windows/message_box.c:117-128 | One pass computes the longest line. |
| MessageWrap.LongestIsLongest | kernel/dwm/windows/message_box.c:117-128 | It is the length of a stretch without breaks, and none is longer. |
| MessageWrap.BreaksAreCounted | kernel/dwm/windows/message_box.c:88-94 | The line breaks counted for the number of lines are those in the text. |
| MessageWrap.CutAtIs | kernel/dwm/windows/message_box.c:97-105 | As much of the last line is kept as leaves room for the dots, and none of it if there is no room. |
| MessageWrap.CutMarked | kernel/dwm/windows/message_box.c:97-109 | Cutting the last line for "..." keeps the line count, and the longest line is as computed. |
| MessageWrap.Wrap | kernel/dwm/windows/message_box.c:42-114 | The output is the lines as FindLine finds them one after another, cut for "..." if they ran out; line count, exact longest line, room for the buffer; uncut text keeps every character but spaces and breaks in order; cut text is a prefix and "...". |
| Division.UDivMod | kernel/util/div6432.c:13-39 | num = q * den + r with r < den for every den > 0; no shifted bit is lost. |
| Division.RootStep | kernel/util/math.c:32-43 | One digit of the root: the remainder and the root found so far describe the number, whichever branch is taken. |
| Division.ISqrt | kernel/util/math.c:26-46 | r * r <= num < (r + 1) * (r + 1). |

## Left out

- The AHCI branch is modelled for the swap alone; everything stacked on the cache is for the ATA branch, with one cache object per device instead of globals, and disk operations that fail only past the end.
- Assembly and hardware: interrupt frames, FPU state, stacks and page tables. A context switch is a change of the current thread.
- The millisecond clock is 64 bits wide and is modelled as not wrapping; the difference of two times is taken modulo 2^32 as in the code.
- Killing a thread that is queued on a mutex, which the kernel does not clean up.
- Directories and files are typed records by address, one per live allocation, not bytes. AllocationMap.PayloadWriteKeeps and AllocationRuns.PayloadSurvives say why writing one record disturbs no other.
- DirectoryOps.Store.AddReference: the allocator's answer is a parameter, so which blocks a new extent takes is not part of it.
- DirectoryOps.Store.GetReferenceCount: the total is not bounded by 32 bits; references take four bytes each of a 32-bit address space.
- DeleteRecursive.DeleteDirectory: the chains of what goes are intact and apart, references lead to directories, files or nothing, and the parent is not among what goes.
- DirectoryOps.Store.RemoveReference: like the other directory operations it is for addresses a caller can hold, a directory, a file or nothing; read at an extent the code would take its bytes for a header.
- fs_directory_find and directory names; file contents and resizing.
- Allocator.FsAlloc: requires that the 32-bit sum for the block count does not wrap; StoringKeepsIff says that otherwise the volume is damaged.
- AllocationRuns.RunKeeps: the same for every allocation of a run.
- Malloc.Heap.Alloc: requires sizes up to 4 GiB less two pages; LargePagesSuffice says exactly why.
- Malloc.Heap.Realloc: likewise.
- Malloc.Heap.SlabFree: for addresses in pages the caches still have; freeing a slot twice whose page went back in between is not detected by the code and not modelled.
- Malloc.Heap.SlabGrow: page allocation is a parameter naming unused pages, or none; each cache's page list is a sequence rather than links through the pages.
- Format.FsDeviceFormat: requires a device that can be laid out, whose metadata leaves room and for which no 32-bit sum wraps; GeometryIsExact says exactly when that is.
- Format.Attach: the layers above are for a stored geometry that lies inside the disk.
- RegistryFile.Hive.Export: requires a saved form below 4 GiB; the tree is in 32-bit memory.
- RegistryFile.ImportKey: keys are values, so a partly read tree that a failure releases is not represented; memory for keys is taken to be available.
- RegistryFile.CreateKey: takes the parent by value and returns the new one.
- vfs_depth is not bounded by 32 bits.
- PathWalk.ParsePath: the tree being walked does not change during the walk, and creating a file is a parameter.
- Knode.KExtentNew: create_extent writes to the address it got before its caller tests for failure (kernel/knode.c:131-134, 180-182); that write is not modelled, nor is destroying a knode that still has extents, which are not freed.
- KnodeOps.Knodes.AddReference: which address kmalloc gives a new extent is a parameter; the allocation flags that tell directories from extents are the kind of the record.
- KnodeOps.Knodes.GetReferenceCount: the total is not bounded by 32 bits.
- The kernel heap (kernel/arch/x86/heap.c): a block bitmap with headers, first fit and enumeration, like the basefs allocator; it would add only easy members.
- Number formatting, emulated opcodes, process table, drawing, drivers, certificates and the other utilities.
