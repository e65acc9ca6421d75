# A verified model of a small x86 kernel

This project models the stateful cores of the SROS kernel in Dafny and proves what each of them keeps
over every run.

* **Scheduler and IPC** (`KernelSpec`, `KernelInvariant`, `KernelRuns`, `KernelAnswers`, `Kernel`). A state
  machine whose steps are the interrupt-free sections of `kernel/scheduler.c` and `kernel/ipc.c`, an invariant
  over it, theorems over all runs, what each call answers and changes, and a heap refinement in which every
  queue is threaded through one `next` field.
  A step is a timer tick, or what a system call does up to its return or its `int $32`; a task that was
  blocked in a loop goes on with a step of its own. The look-up before `cli`, `task_fork`, "zombie and wake
  the parent" and "scan and block" count as one step each.
* **Boundary-tag heap** (`HeapSpec`, `HeapRuns`, `Heap`). The block list of `kernel/kmalloc.c`, and the same
  allocator on an array of 32-bit words.
* **File system** (`SfsCodec` to `Sfs`, with `SfsLayout` and `SfsAnswers`). `fs/sfs.c` down to the bytes of its
  1024 blocks: packed inodes, entries, bitmaps; consistency over every run from formatting; and a flat model,
  in which files and the directory are byte sequences, that predicts every reply and every state of every run.
* **Page-directory cloning** (`PagingSpec` to `Paging`). The copy-or-share decision behind fork, mapping and
  the first directory, first over physical frames, then at the virtual addresses that the code uses for them
  (`PagingVia`), with the condition under which the two agree, what a framebuffer mapping does to it
  (`PagingDevices`, and `PagingBoot` for the kernel's own launch), and what happens where it fails
  (`PagingStray`, `PagingHarm`).
* **Processes** (`PagingSpaces`, `Processes`, `ProcessLoad`). Scheduler and paging together: over every run of
  forks, exits, waits, allocations, program loads and stores, in any interleaving, tasks behave as if each had
  a memory of its own.
* **ELF loading** (`ElfPages`, `ElfSpec`, `ElfFile`, `ElfSane`, `Elf`). `elf_load_and_exec` from the bytes of
  the file to the bytes in memory, reading from the file-system class into the page tables of the paging
  class. A loadable segment is realised as the "Program Header" section of chapter 5 of the System V generic
  ABI asks: file bytes, then zeros up to the memory size.
* **Windows and cursor** (`Screen`, `Cursor`, `WindowSpec`, `Window`). What the compositor paints against
  what hit testing finds, and the saved background beneath the cursor.

Each core has functions that say what an operation does to a value, lemmas about these functions, and
classes with the source's own mutable form whose methods are proved to compute them.

## Where the code falls short

The model follows the code. Where a property fails, lemmas say when, exactly:

* Three sections break the scheduler's invariant, each shown to break it whenever its guard fails and each
  met by a run from boot: a tick when the blocked task is the only one (`kernel/scheduler.c:117-121`), an
  exit while the parent is on an IPC queue (`kernel/scheduler.c:321-323`), and the reuse of a message-queue
  slot on which woken receivers have queued again (`kernel/ipc.c:304-323`). `Safe` is the negation of the three.
* `kmalloc` of more than 0xFFFFFFF0 bytes wraps and returns too small a block. Its pointers are 4 modulo 8,
  although `include/kmalloc.h:9` promises 8-byte alignment.
* A new file is not found under its name if the name has more than 27 characters, or if the directory grew
  and the last entry's old name was longer (`fs/sfs.c:305-309`).
* A write through a descriptor on `.` can destroy the root directory. It keeps the file system consistent if
  and only if the entries it touches, and those in blocks it adds, are sound afterwards; added blocks are not
  cleared, so their old bytes count (`SfsDirWrite.DirectoryWriteKeepsConsistentIff`).
* A fork copies every user page from its physical address taken as a virtual one. Once the framebuffer is
  mapped for user code (`drivers/framebuffer.c:193-197`), the copy faults unless each of its pages behind a
  user table is shown at the virtual address of its physical one (`PagingDevices.CloneAfterDeviceIff`).
  Without a network card all of them are, so a fork needs a framebuffer at 0xF0000000 itself, and then gives
  the child a copy of the screen, for which the kernel's frames are too few at 1024 by 768 pixels
  (`PagingBoot.ForkAfterScreenIff`, `NoForkWithoutCard`).
* With the network card of `scripts/run.sh:52` the table at 0xF0000000 is the kernel's, because rtl8139_init
  has mapped its buffers at 0xF0040000 and 0xF0050000 (`drivers/rtl8139.c:73,105`). A fork then shares the
  screen and succeeds, if the screen has at most 4 MB. But framebuffer_map takes the pages of these buffers for the
  screen, although the driver goes on using them (`PagingBoot.ScreenOverCard`, `KernelForksWithCard`).
* fb_fill_rect leaves the framebuffer if `x + w` or `y + h` wraps around (`drivers/framebuffer.c:223-224`).
* A window whose content is less than 24 pixels wide can paint outside its rectangle.
* The kernel uses physical addresses as virtual ones. A page that `load_segment` allocates below 4 MB, which
  it does not check, takes the place of an identity-mapped one; `PagingVia.AllocPageKeepsSaneIff` says when a
  frame in use loses its address that way. What the kernel then stores in that frame goes to the user's page,
  and what it reads from there comes from it. A later fork is right, whatever the frames hold, if and only if
  the frame is not the directory, holds no page that is copied, and is not among those that the fork draws
  (`PagingHarm.StrayCloneIsRightIff`). Otherwise the child can get a copy of the wrong page, or stale words, and
  the parent's page can be overwritten, as in a run of the kernel's own (`PagingStray.KernelStrayFork`).
* task_wait gives back a child's directory and kernel stack only (`kernel/scheduler.c:361-369`). The frames of the
  pages and tables that the fork copied are lost, exactly these (`PagingSpaces.ForkAndCollectLose`).
* A page allocated behind a table that address spaces share is mapped in all of them
  (`PagingSpaces.SharedTableLeaks`).
* A program segment whose file part begins on a page that holds other user bytes replaces that page
  (`kernel/elf_loader.c:43-44`). Bytes outside the segment survive, whatever the free frames hold, if and only
  if no user page under the file part reaches beyond the segment (`ElfSpec.KeepsOutsideIff`).

## Model

| member | source | states |
|---|---|---|
| KernelSpec.First | kernel/scheduler.c:149-156 | a table scan returns the first matching slot and passes over none |
| KernelSpec.Cut | kernel/ipc.c:238-239 | a message of at most 64 bytes is kept whole, a longer one is cut to its first 64 |
| KernelInvariant.BootInv | kernel/scheduler.c:45-74 | the tables start in the invariant: one task, everything else free |
| KernelInvariant.StepKeepsInvIffSafe | kernel/scheduler.c:80-409 | each interrupt-free section keeps the whole invariant exactly if it is not one of three guarded cases, for all states and all sections |
| KernelInvariant.TickKeepsInv | kernel/scheduler.c:80-146 | a guarded tick keeps every list disjoint, every task in one place, pids unique and no wake-up lost |
| KernelInvariant.ForkKeepsInv | kernel/scheduler.c:253-304 | fork keeps the invariant, also when the table is full |
| KernelInvariant.ExitKeepsInv | kernel/scheduler.c:307-331 | exit keeps it if the parent is not blocked on an IPC queue |
| KernelInvariant.WaitKeepsInv | kernel/scheduler.c:340-409 | a round of task_wait keeps it, whether it collects, sleeps or gives up |
| KernelInvariant.SemCreateKeepsInv | kernel/ipc.c:30-52 | creating a semaphore keeps it |
| KernelInvariant.SemWaitKeepsInv | kernel/ipc.c:54-106 | waiting keeps it: the value stays non-negative and waiters exist only at value 0 |
| KernelInvariant.SemPostKeepsInv | kernel/ipc.c:108-144 | posting keeps it, handing over directly or counting |
| KernelInvariant.SemDestroyKeepsInv | kernel/ipc.c:146-178 | destroying a semaphore with any number of waiters keeps it |
| KernelInvariant.MqCreateKeepsInv | kernel/ipc.c:204-223 | creating a queue in a slot where nobody waits keeps it |
| KernelInvariant.TrySendKeepsInv | kernel/ipc.c:243-285 | a round of the send loop keeps it, by newcomers and by woken senders alike, so no wake-up is lost |
| KernelInvariant.TryRecvKeepsInv | kernel/ipc.c:303-345 | a round of the receive loop keeps it, by newcomers and by woken receivers alike |
| KernelInvariant.MqDestroyKeepsInv | kernel/ipc.c:348-393 | destroying a queue with any receivers and senders keeps it |
| KernelInvariant.ResumeKeepsInv | kernel/ipc.c:260-263 | a task that was woken and goes on with its loop keeps it |
| KernelInvariant.UnsafeTickBreaks | kernel/scheduler.c:117-121 | if a task blocked on an IPC queue while nobody else is ready, the next tick always breaks the invariant |
| KernelInvariant.UnsafeExitBreaks | kernel/scheduler.c:321-323 | if the parent of an exiting task is blocked on an IPC queue, the exit always breaks the invariant |
| KernelInvariant.UnsafeMqCreateBreaks | kernel/ipc.c:216-219 | if tasks still wait on the reused slot, the creation always breaks the invariant |
| KernelRuns.RunKeepsInv | kernel/scheduler.c:80-409 | every guarded run stays in the invariant |
| KernelRuns.ExactlyOnePlace | kernel/scheduler.c:22-42 | in every reachable state each live task is in exactly one place (running, ready, one wait queue, asleep in task_wait, zombie), and no queue holds a task twice |
| KernelRuns.NobodyWaitsInVain | kernel/ipc.c:243-282 | no lost wake-up: once all woken tasks have re-tested, receivers wait only for an empty queue and senders only for a full one |
| KernelRuns.OnlyTicksDequeue | kernel/scheduler.c:22-42 | apart from ticks no section takes a task off the ready queue or overtakes one on it |
| KernelRuns.RoundRobin | kernel/scheduler.c:94-145 | a task with k tasks ahead moves up one place per tick and is current after exactly k+1 ticks, whatever happens in between |
| KernelRuns.ReadyQueueBound | kernel/scheduler.c:22-42 | at most 63 tasks are ready, so nobody waits longer than 63 ticks |
| KernelRuns.OnlyForkAddsPids | kernel/scheduler.c:281-283 | new pids come from next_pid and from nowhere else |
| KernelRuns.WaitCollectsExitedChild | kernel/scheduler.c:349-379 | the pid that task_wait returns belonged to an exited child of the caller and is gone afterwards |
| KernelRuns.CollectedOnce | kernel/scheduler.c:340-409 | no pid is returned twice in a run |
| KernelRuns.WaitHandshake | kernel/scheduler.c:307-408 | in every reachable state a parent asleep in task_wait has a live matching child and no matching zombie, pids are unique and task_count is the number of occupied slots |
| KernelRuns.SemaphoreConservation | kernel/ipc.c:54-143 | over any run, value plus posts equals value plus grants, and grants come in the order of the requests |
| KernelRuns.SemaphoreFromCreation | kernel/ipc.c:30-52 | the same balance from creation on, starting at the clamped initial value |
| KernelRuns.QueueIsFifo | kernel/ipc.c:225-346 | over any run, the messages accepted are the messages delivered followed by those still in the ring, in order |
| KernelRuns.UnsafeTickOccurs | kernel/scheduler.c:117-121 | a run of two calls after boot that meets the first guarded case |
| KernelRuns.UnsafeExitOccurs | kernel/scheduler.c:321-323 | a run after boot in which a child exits while its parent waits for a semaphore |
| KernelRuns.DestroyedUnderReceiver | kernel/ipc.c:304-323 | a woken receiver of a destroyed queue tests the dead slot again and queues up on it |
| KernelRuns.UnsafeMqCreateOccurs | kernel/ipc.c:204-223 | a run after boot that reuses that slot while the receiver waits there |
| KernelAnswers.ForkAnswers | kernel/scheduler.c:253-304 | if a slot is free, fork returns a pid that nobody has or had; the first free slot now holds that pid, with the caller as its parent, ready and last on the ready queue; nothing else changes. Otherwise it returns -1 and nothing changes |
| KernelAnswers.ForkedOnce | kernel/scheduler.c:281 | over any run no pid is returned by fork twice, nor one that a task had at the start |
| KernelAnswers.WaitAnswers | kernel/scheduler.c:348-404 | a round of task_wait returns a pid if and only if a child that was asked for is a zombie, sleeps if and only if there are such children and none is, and returns -1 if and only if there is none |
| KernelAnswers.WaitChanges | kernel/scheduler.c:348-404 | the pid returned is that of the first such zombie, whose slot is then free; a sleeper is blocked until it is woken; nothing else changes |
| KernelAnswers.FamiliesStay | kernel/scheduler.c:281-282 | pid and parent of a task never change while it lives |
| KernelAnswers.CollectedWasForked | kernel/scheduler.c:340-409 | what task_wait returns to a task was returned to it by an earlier fork of its own, or was its child at the start |
| KernelAnswers.ExitAnswers | kernel/scheduler.c:307-331 | the exit code is kept for the parent, which becomes ready and last on the ready queue if it was blocked |
| KernelAnswers.TickAnswers | kernel/scheduler.c:80-146 | a running task goes to the end of the ready queue and the head of it runs; a blocked or exited task does not queue up; with an empty queue a task that has not exited runs on |
| KernelAnswers.SemCreateAnswers | kernel/ipc.c:30-52 | the number returned is new, the slot holds the clamped value and nobody waits; -1 if the table is full |
| KernelAnswers.NoSuchSem | kernel/ipc.c:54-178 | a number that is no semaphore's gets -1 from all three calls, and nothing changes |
| KernelAnswers.SemWaitAnswers | kernel/ipc.c:54-106 | the value goes down and 0 is returned, or at value 0 the caller is blocked, last of the waiters |
| KernelAnswers.SemPostAnswers | kernel/ipc.c:108-144 | 0 is returned, and the first waiter is ready with its wait granted, or the value goes up |
| KernelAnswers.SemDestroyAnswers | kernel/ipc.c:146-178 | all waiters are ready, in order, and the slot is free |
| KernelAnswers.MqCreateAnswers | kernel/ipc.c:204-223 | the number returned is new and the queue empty; -1 if the table is full |
| KernelAnswers.NoSuchMq | kernel/ipc.c:225-393 | a number that is no queue's gets -1 from all three calls, and nothing changes |
| KernelAnswers.SendAnswers | kernel/ipc.c:225-286 | a send on a live queue, or its next round, never fails: with fewer than 64 messages buffered it appends the message, at most 64 bytes of it, wakes the first receiver and returns 0; otherwise the caller is blocked with its message, last of the senders |
| KernelAnswers.RecvAnswers | kernel/ipc.c:288-346 | a receive on a live queue, or its next round, never fails: it takes the oldest message and wakes the first sender, or without a message the caller is blocked, last of the receivers |
| KernelAnswers.MqDestroyAnswers | kernel/ipc.c:348-393 | all receivers and then all senders are ready, in order, with their calls still to do, and the slot is free |
| KernelAnswers.NoRequestIsLost | kernel/ipc.c:225-346 | over any run, until the queue is destroyed: the messages that were asked to be sent are those accepted and those of senders still blocked or woken, and the receives that were begun are those that got a message and those still under way |
| Kernel.MsgQueue.Put | kernel/ipc.c:266-270 | the ring buffer with its two indices holds the old contents followed by the message |
| Kernel.MsgQueue.Take | kernel/ipc.c:326-330 | the ring buffer gives up its oldest message and holds the rest |
| Kernel.Kernel.Append | kernel/scheduler.c:22-31 | linking a task through the shared next field appends it to one list and changes no other |
| Kernel.Kernel.PopFirst | kernel/scheduler.c:33-42 | unlinking returns the head of one list and changes no other |
| Kernel.Kernel.EnqueueReady | kernel/scheduler.c:22-31 | the task is at the end of the ready queue, all else unchanged |
| Kernel.Kernel.DequeueReady | kernel/scheduler.c:33-42 | the head of the ready queue, or null and no change |
| Kernel.Kernel.PickNextTask | kernel/scheduler.c:114-145 | tables and links go from the old abstract state to the one after picking the next task |
| Kernel.Kernel.SchedulerTick | kernel/scheduler.c:80-146 | the mutable tables refine the tick of the state machine |
| Kernel.Kernel.TaskFindSlot | kernel/scheduler.c:149-156 | the first free slot or -1 |
| Kernel.Kernel.TaskFromPid | kernel/scheduler.c:243-250 | the first task with that pid or null |
| Kernel.Kernel.TaskFork | kernel/scheduler.c:253-304 | refines fork on the process table: pid, parent, ready queue, counters; Processes.ActIsFlat adds the address space and the kernel stack |
| Kernel.Kernel.TaskExit | kernel/scheduler.c:307-331 | refines exit under its guard, the parent's wake-up included |
| Kernel.Kernel.TaskWait | kernel/scheduler.c:349-402 | refines one round of task_wait |
| Kernel.Kernel.SemCreate | kernel/ipc.c:30-52 | refines sem_create |
| Kernel.Kernel.SemWait | kernel/ipc.c:54-106 | refines sem_wait up to its return or its block |
| Kernel.Kernel.SemPost | kernel/ipc.c:108-144 | refines sem_post |
| Kernel.Kernel.SemDestroy | kernel/ipc.c:146-178 | refines sem_destroy with its waking loop |
| Kernel.Kernel.MsgQueueCreate | kernel/ipc.c:204-223 | refines msg_queue_create |
| Kernel.Kernel.SendRound | kernel/ipc.c:243-285 | refines one round of the send loop on ring buffer and links |
| Kernel.Kernel.RecvRound | kernel/ipc.c:303-345 | refines one round of the receive loop |
| Kernel.Kernel.MsgQueueSend | kernel/ipc.c:225-286 | refines msg_queue_send up to its return or its block |
| Kernel.Kernel.MsgQueueRecv | kernel/ipc.c:288-346 | refines msg_queue_recv up to its return or its block |
| Kernel.Kernel.MsgQueueDestroy | kernel/ipc.c:348-393 | refines msg_queue_destroy with both waking loops |
| Kernel.Kernel.Continue | kernel/ipc.c:260-263 | refines the re-test of a task that was blocked |
| Kernel.Kernel.Perform | kernel/scheduler.c:80-409 | any guarded section leaves tables and links in the state the run theorems speak of, with the invariant |
| Kernel.BootKernel | kernel/scheduler.c:45-74 | the initialised tables represent the boot state |
| HeapSpec.FirstFit | kernel/kmalloc.c:79-119 | the first free block that is large enough, none before it |
| HeapSpec.AllocKeepsWellFormed | kernel/kmalloc.c:88-114 | kmalloc keeps the tiling: sound blocks, the exact heap size, no two free neighbours |
| HeapSpec.AllocLive | kernel/kmalloc.c:88-114 | kmalloc makes one new live block, of the size needed or up to 15 bytes more, out of free bytes and leaves every other live block's place and size |
| HeapSpec.ReleaseLive | kernel/kmalloc.c:122-149 | kfree removes exactly the block it is given; all other live blocks keep place and size through every merge |
| HeapSpec.ReleaseKeepsWellFormed | kernel/kmalloc.c:122-149 | kfree keeps the tiling and leaves no two free neighbours |
| HeapSpec.LiveBlocksDisjoint | kernel/kmalloc.c:88-114 | no two live blocks overlap |
| HeapSpec.LiveIsCanonical | kernel/kmalloc.c:132-148 | two well-formed heaps with the same live blocks are the same heap |
| HeapRuns.RunKeepsWellFormed | kernel/kmalloc.c:66-149 | every run of kmalloc and of kfree on live pointers keeps the tiling |
| HeapRuns.CallLeavesOthers | kernel/kmalloc.c:66-149 | a call changes no block but the one it names |
| HeapRuns.FreeUndoesAlloc | kernel/kmalloc.c:91-149 | kfree(kmalloc(n)) restores the exact block list, whether the block was split or not |
| HeapRuns.FreeAllInAnyOrder | kernel/kmalloc.c:122-149 | freeing all live pointers in any order leaves one free block of the heap's size |
| HeapRuns.RunInOneBlock | kernel/kmalloc.c:132-148 | every run of free bytes lies in one free block |
| HeapRuns.CompleteFirstFit | kernel/kmalloc.c:78-119 | kmalloc fails only if no run of free bytes of the needed length exists anywhere; otherwise it takes the lowest one |
| HeapRuns.NeedIsLeast | kernel/kmalloc.c:70-76 | up to 0xFFFFFFF0 bytes the block size is the least multiple of 8 that is at least 16 and at least the request and eight more; above it is 16 |
| HeapRuns.KmallocTakesLowest | kernel/kmalloc.c:66-119 | kmalloc(size) fails if and only if there is no run of free bytes of that least size; otherwise it takes the lowest such run, and at most 15 bytes more |
| HeapRuns.FirstPointers | kernel/kmalloc.c:52-119 | on the fresh heap two requests of 8 bytes return 0x200004 and 0x200014, and one of 0 bytes changes nothing |
| HeapRuns.LargestRequest | kernel/kmalloc.c:66-119 | on the fresh heap 0x3FFF8 bytes can be had and 0x3FFF9 cannot |
| HeapRuns.PayloadIffNoWrap | kernel/kmalloc.c:70-76 | the returned payload is at least the requested size if and only if the size is at most 0xFFFFFFF0 |
| HeapRuns.WrapOccurs | kernel/kmalloc.c:71-74 | a request of 0xFFFFFFFF bytes gets the smallest block |
| HeapRuns.PointersAreMisaligned | kernel/kmalloc.c:113-114 | every pointer returned is 4 modulo 8, against the promise of include/kmalloc.h:9 |
| Heap.Heap.constructor | kernel/kmalloc.c:52-64 | kmalloc_init lays out header, footer and epilogue of one free block |
| Heap.Heap.Kmalloc | kernel/kmalloc.c:66-120 | on raw words: the pointer and block list of the specification, headers and footers rewritten to match, and no payload word of a live block changed |
| Heap.Heap.HandOut | kernel/kmalloc.c:91-111 | both branches, split and whole block |
| Heap.Heap.FreeAndMergeNext | kernel/kmalloc.c:125-138 | freeing and the merge with the block behind, writing only inside the two |
| Heap.Heap.Kfree | kernel/kmalloc.c:122-149 | on raw words: the merged block list, and no payload word of any other live block changed |
| Heap.ReleasedPayloads | kernel/kmalloc.c:122-149 | writes confined to the freed block and its free neighbours change no live payload |
| SfsCodec.InodeRoundTrip | fs/sfs.c:164-189 | a packed 61-byte inode decodes to what was encoded |
| SfsCodec.DentryRoundTrip | fs/sfs.c:227-229 | a 32-byte directory entry decodes to what was encoded |
| SfsCodec.CopiedName | fs/sfs.c:287-289 | which string the name field holds after the copying loop: at most 27 characters, then what was there before |
| SfsCodec.BitmapFacts | fs/sfs.c:27-35 | setting or clearing a bit changes that bit only, and clearing undoes setting |
| SfsCodec.FirstZero | fs/sfs.c:19-25 | the first clear bit, all before it set |
| SfsLayout.InodeOnDisk | fs/sfs.h:26-32 | inode i is packed into blocks 3 and 4, 67 to a block: number, size, type byte, block count and twelve block numbers, little-endian, at these bytes |
| SfsLayout.EntryOnDisk | fs/sfs.h:34-37 | a directory entry is four bytes of inode number and 28 of name |
| SfsLayout.BitmapsOnDisk | fs/sfs.c:8-35 | inodes are counted in block 1, blocks in block 2, eight to a byte, lowest bit first |
| SfsLayout.SuperBlockOnDisk | fs/sfs.c:59-72 | the seven words of a formatted disk's super block, and zeros behind them |
| SfsLayout.RootOnDisk | fs/sfs.c:88-110 | the formatted root directory: inode 1, a directory of 64 bytes in block 5 |
| SfsLayout.DotsOnDisk | fs/sfs.c:97-107 | its block holds the entries . and .. for inode 1, byte by byte, and no other entry |
| SfsSpec.InodesAreSeparate | fs/sfs.c:164-189 | writing one packed inode changes no other, in the same block or not |
| SfsDir.EntriesAreSeparate | fs/sfs.c:282-292 | writing one directory entry changes no other |
| SfsWrite.GrownOwnership | fs/sfs.c:193-202 | a newly allocated block belongs to the file that asked for it and to nobody else; the block bitmap stays exact |
| SfsWrite.PutKeepsOwnership | fs/sfs.c:365-370 | writing a chunk changes one block, which belongs to the inode that is written, and neither bitmap |
| SfsWrite.WriteLoopKeepsOwnership | fs/sfs.c:352-372 | the whole write loop keeps bitmaps and ownership sound, whichever inode is written |
| SfsWrite.WriteLoopKeepsOpen | fs/sfs.c:352-372 | written to a file, the loop keeps the directory sound as well |
| SfsWrite.WriteLoopBytes | fs/sfs.c:352-372 | byte for byte: a prefix of the data at the offset, and everywhere else what the block held before the call, also in new blocks, which are not cleared |
| SfsWrite.WriteLoopStops | fs/sfs.c:357-361 | the loop stops early only at the end of the twelfth block or on a full disk |
| SfsWrite.WriteLoopElsewhere | fs/sfs.c:352-372 | blocks of other files and of the directory, the inode table and the inode bitmap are untouched |
| SfsWrite.WriteLoopPlan | fs/sfs.c:352-372 | which blocks are allocated and how many bytes are written follow from the inode, the offset and the block bitmap before the call |
| SfsFlat.WriteKeepsConsistent | fs/sfs.c:414-423 | a write followed by storing the inode keeps the disk consistent and all other inodes |
| SfsFlat.WriteOutcome | fs/sfs.c:414-423 | a write to any inode, the root directory included, keeps ownership and both bitmaps sound, gives the inode the planned blocks and size, and leaves all other inodes |
| SfsFlat.WriteOutcomeByte | fs/sfs.c:352-372 | every byte of the planned blocks after the call |
| SfsFlat.WriteIsOverwrite | fs/sfs.c:347-377 | the bytes of a file or of the directory afterwards are the old ones with a prefix of the data written over them at the offset |
| SfsFlat.ShortWrite | fs/sfs.c:357-361 | a short write has filled twelve blocks or the disk |
| SfsFlat.WriteKeepsOtherFiles | fs/sfs.c:347-377 | no other file changes, nor does the directory unless it is written |
| SfsFlat.ReadIsSlice | fs/sfs.c:324-345 | a read returns exactly the bytes of the file at the offset, cut at its end, never stale block bytes |
| SfsCreate.CreateSucceedsIff | fs/sfs.c:237-322 | sfs_create succeeds exactly if the name is not found and there is a free inode and room in the directory |
| SfsCreate.CreateKeepsConsistent | fs/sfs.c:237-322 | a creation keeps the file system consistent, successful or not |
| SfsCreate.FailedCreateRestores | fs/sfs.c:298-304 | a failed creation leaves both bitmaps, the directory, all data and all allocated inodes as they were |
| SfsCreate.CreateAddsEmptyFile | fs/sfs.c:244-271 | a successful creation adds one empty file under an unused inode and changes no other file |
| SfsCreate.EntriesAfterCreate | fs/sfs.c:273-315 | the directory after a creation, entry by entry |
| SfsCreate.BlocksAfterCreate | fs/sfs.c:298-304 | a creation takes a block exactly if the directory has to grow |
| SfsCreate.LookupAfterCreate | fs/sfs.c:273-318 | afterwards every name is found as before, except the one name that was stored |
| SfsCreate.StoredIsName | fs/sfs.c:287-309 | the stored name is the given one exactly if it has at most 27 characters and, where the directory grew, no rest of the last entry's name shows behind it |
| SfsCreate.CreatedIsFound | fs/sfs.c:215-322 | a new file is found under its name exactly under that condition, and not at all otherwise |
| SfsNames.FilledIsDense | fs/sfs.c:237-322 | 126 creations after formatting fill the first directory block, names and inodes in order |
| SfsNames.GrowthGarblesName | fs/sfs.c:305-309 | on that disk a successful creation of a one-character name is not found by sfs_lookup |
| SfsFormat.FormatIsConsistent | fs/sfs.c:54-117 | formatting any disk gives a consistent file system with the root directory as its only inode |
| SfsNames.DotNames | fs/sfs.c:97-102 | the root directory's first entries are . and .. |
| SfsDirWrite.DirectoryWriteKeepsConsistentIff | fs/sfs.c:414-423 | a write through a descriptor on . keeps the file system consistent if and only if every entry that the data touches or that lies in an added block is sound afterwards, decided from the disk and the data before the call |
| SfsDirWrite.RewritingIsHarmless | fs/sfs.c:414-423 | writing no bytes, or the bytes that are there, meets that condition |
| SfsDirWrite.DirectoryWriteBreaks | fs/sfs.c:381-423 | on a formatted disk one byte written through . does not |
| SfsTidy.AllocTakesOne | fs/sfs.c:193-202 | sfs_alloc_block succeeds exactly if a block is free, and takes one |
| SfsTidy.CountsAfterWrite | fs/sfs.c:352-376 | how many blocks a write takes and how many bytes it writes, from size, offset, length and the number of free blocks; an inode always has as many blocks as its size needs |
| SfsTidy.CreateKeepsTidy | fs/sfs.c:237-322 | the live entries stay in front, as many as the directory's size says |
| SfsTidy.DirectoryWriteKeepsTidyIff | fs/sfs.c:414-423 | when a write through . keeps this too, decided before the call |
| SfsTidy.DirectoryAfterCreate | fs/sfs.c:273-318 | a creation appends one encoded entry to the directory's bytes |
| SfsTidy.OldNameIs | fs/sfs.c:284-309 | the bytes under a new name: zeros, or the last entry's name if the directory has to grow |
| SfsTidy.FormatIsTidy | fs/sfs.c:95-110 | a formatted disk starts so |
| SfsCalls.PathName | fs/sfs.c:37-50 | the name behind the leading slashes |
| SfsCalls.FreeFd | fs/sfs.c:391-394 | the lowest unused descriptor |
| SfsCalls.LookupFindsUsed | fs/sfs.c:215-235 | sfs_lookup returns allocated inodes only |
| SfsCalls.StepKeepsGoodIff | fs/sfs.c:381-429 | a call keeps the disk consistent and tidy and every descriptor within its bytes if and only if it is no disorderly write through . |
| SfsRuns.LookupIs | fs/sfs.c:215-235 | sfs_lookup finds in the blocks what the bytes of the directory say |
| SfsRuns.CanCreateIs | fs/sfs.c:237-322 | whether a creation succeeds follows from files, directory bytes and the number of free blocks |
| SfsRuns.StepIsFlat | fs/sfs.c:381-429 | every call returns and leaves exactly what a function on flat byte sequences computes: files, the directory's bytes, the number of free blocks, descriptors; success, counts and inode numbers included |
| SfsRuns.RunIsFlat | fs/sfs.c:381-429 | the replies and the final state of every legal run are those of the flat model, with every state consistent |
| SfsRuns.FreshIsEmpty | fs/sfs.c:54-140 | a formatted and mounted disk has no files, a directory of . and .., 1018 free blocks and no open descriptors |
| SfsRuns.WriteThenRead | fs/sfs.c:404-423 | bytes written through one descriptor are read back through another at the same offset |
| SfsAnswers.ReadAnswers | fs/sfs.c:404-412 | a read returns the bytes from the offset on, as many as were asked for or as there are, and moves the offset behind them; -1 if the descriptor is not open |
| SfsAnswers.ReadsContinue | fs/sfs.c:404-412 | two reads return together what one read of both counts returns, and leave the same state |
| SfsAnswers.CloseAnswers | fs/sfs.c:425-429 | a closed descriptor can neither be read nor written; nothing else changes |
| SfsAnswers.WriteAnswers | fs/sfs.c:414-423 | byte by byte: a prefix of the data lies over the old bytes at the offset, its length is returned and the offset is behind it; it is not all of the data only where twelve blocks or the last free block end; no other file changes |
| SfsAnswers.OpenAnswers | fs/sfs.c:381-402 | open returns the lowest closed descriptor, at offset 0 of the file in the first entry with the name behind the slashes, if there are such; otherwise -1 and nothing changes |
| SfsAnswers.CreatAnswers | fs/sfs.c:237-322 | create returns 0 if the name is new, an inode number is free and the directory can take an entry; the new file is empty, has the lowest free number, and its entry is appended byte by byte as stated; otherwise -1 and nothing changes |
| Sfs.FindFirstZero | fs/sfs.c:19-25 | the loop finds the first clear bit or -1 |
| Sfs.Sfs.AllocInode | fs/sfs.c:144-153 | computes the specified allocation on the disk |
| Sfs.Sfs.FreeInode | fs/sfs.c:155-162 | clears the bit of inodes in range, else nothing |
| Sfs.Sfs.AllocBlock | fs/sfs.c:193-202 | computes the specified allocation on the disk |
| Sfs.Sfs.ReadInode | fs/sfs.c:164-175 | reads the packed inode, or fails out of range |
| Sfs.Sfs.WriteInode | fs/sfs.c:177-189 | writes the packed inode, or fails out of range |
| Sfs.Sfs.Lookup | fs/sfs.c:215-235 | the nested loops find the first live entry with the name, or -1 |
| Sfs.Sfs.PlaceEntry | fs/sfs.c:278-296 | the nested loops fill the first unused entry, or report the last one read |
| Sfs.Sfs.Create | fs/sfs.c:237-322 | computes the specified creation, growth branch and failures included |
| Sfs.Sfs.ReadFile | fs/sfs.c:324-345 | the loop fills the buffer with the specified bytes and leaves its rest |
| Sfs.Sfs.WriteFile | fs/sfs.c:347-377 | the loop computes the specified disk, inode and count |
| Sfs.Sfs.SysCreate | kernel/syscall.c:90-96 | one step of the file-system state machine, 0 or -1 |
| Sfs.Sfs.SysOpen | fs/sfs.c:381-402 | one step of the file-system state machine, -1 before mounting |
| Sfs.Sfs.SysRead | fs/sfs.c:404-412 | one step, with the bytes in the caller's buffer and nothing behind them changed |
| Sfs.Sfs.SysWrite | fs/sfs.c:414-423 | one step of the file-system state machine; the invariant holds afterwards exactly if the call was legal |
| Sfs.Sfs.SysClose | fs/sfs.c:425-429 | one step of the file-system state machine |
| Sfs.Sfs.Format | fs/sfs.c:54-117 | computes the formatted disk, which is consistent and tidy |
| Sfs.Sfs.Mount | fs/sfs.c:119-140 | succeeds exactly on the magic number and closes every descriptor |
| Sfs.FormatMounts | fs/sfs.c:119-132 | a formatted disk has the magic number that mounting asks for |
| PagingClone.CopyTableAt | kernel/paging.c:186-205 | every entry of a copied table: absent, shared, or a new frame with the old flags and contents |
| PagingClone.CopyTableDistinct | kernel/paging.c:195-200 | no two entries of a copied table get the same new frame |
| PagingFork.ParentUntouched | kernel/paging.c:132-270 | the parent's directory, tables and user pages, and every frame that was not free, are unchanged by the clone of frames, which CloneIsVia ties to the addresses of the code |
| PagingFork.ChildMapsSame | kernel/paging.c:132-270 | for every page below the self-map, parent and child agree on presence, flags and contents; user pages outside the kernel image get a frame that was free, all others share the parent's |
| PagingFork.CopiesDiffer | kernel/paging.c:132-270 | copied pages, the tables that lead to them and the new directory have pairwise different frames |
| PagingFork.ChildIsSeparate | kernel/paging.c:132-270 | the child's directory is as well separated as its parent's; ForkStaysSane adds the identity map |
| PagingFork.SelfMapIsKernels | kernel/paging.c:264-265 | the child's self-map, like the first directory's, leads to the directory itself and is the kernel's only |
| PagingFork.ChildWritesAreInvisible | kernel/paging.c:195-200 | whatever the child writes to a copied page changes no table and no user page of the parent and no other copied page |
| PagingFork.ParentWritesAreInvisible | kernel/paging.c:195-200 | whatever the parent writes to such a page changes no table and no copied page of the child |
| PagingNeeds.CloneSucceedsIff | kernel/paging.c:132-270 | cloning succeeds exactly if there are frames for directory, copied tables and copied pages and the physical address of every copied page is mapped as a virtual one; it takes just as many frames |
| PagingDevices.MapRangeIs | drivers/framebuffer.c:193-197 | the loop succeeds exactly if there are frames for the missing tables; it leads the pages to the device's frames for user code, keeps the flags of the tables that are there, moves no other page, and leaves an address space that can be cloned |
| PagingDevices.MapPageCosts | kernel/paging.c:94-122 | a mapping for user code makes a fork dearer by a frame for its table, if that is new, and by one for the page, if that was not copied before and its table is not the kernel's |
| PagingDevices.MapRangeCosts | drivers/framebuffer.c:193-197 | so for the whole loop: a frame for each missing table and for each page that was not copied before and does not lie behind a kernel table |
| PagingDevices.CloneAfterDeviceIff | kernel/paging.c:132-270 | a fork after framebuffer_map on any sane address space succeeds exactly if there are frames for directory, all copied pages and their tables, and every page that is copied then is memory or is shown at the virtual address of the same number; both are decided before the mapping |
| PagingDevices.KernelTablesKeepForks | kernel/paging.c:258-261 | behind kernel tables, which a fork shares, the mapping always succeeds and a fork is as possible afterwards as before |
| PagingDevices.DeviceInChild | kernel/paging.c:236-261 | what the child finds on a page of the device: behind a user table memory of its own with what the physical address shows, behind a kernel table the device itself |
| PagingBoot.BootMaps | kernel/kernel.c:111-132 | after paging_init and the pushes that follow it, the first 4 MB are the kernel's, nothing else is mapped, and the address space can be cloned |
| PagingBoot.CardInitIs | drivers/rtl8139.c:64-122 | the network card's seven buffers and their table, which is the kernel's, take eight frames; the buffers are mapped where the driver looks for them, nothing else moves, and the address space can be cloned |
| PagingBoot.ForkAfterScreenIff | kernel/kernel.c:111-146 | on the kernel's own address space, with or without a network card, a fork after framebuffer_map succeeds exactly if all screen pages lie behind the card's table or the framebuffer's physical addresses are the virtual ones of those that do not, and there are frames for a directory, for the pages that do not, and for their tables twice |
| PagingBoot.NoForkWithoutCard | kernel/kernel.c:115-146 | without a network card, with the 260 frames that the kernel pushes and a screen of 1024 by 768 pixels, no fork succeeds wherever the framebuffer is |
| PagingBoot.ScreenOverCard | drivers/rtl8139.c:64-122 | with a network card and a screen of at most 4 MB a fork succeeds wherever the framebuffer is, for one frame, and the child draws on the same screen; but the pages of the card's buffers among the screen's pages now lead to the screen |
| PagingBoot.KernelForksWithCard | kernel/kernel.c:111-146 | so with the kernel's 260 frames, a network card as in scripts/run.sh:52, and a screen of 1024 by 768 pixels |
| Paging.Paging.CardPage | drivers/rtl8139.c:68-74 | one buffer page: a frame, mapped for the kernel, or the panic |
| Paging.Paging.CleanAt | drivers/rtl8139.c:76 | memset writes to the frame that the processor finds, or faults |
| Paging.Paging.InitCard | drivers/rtl8139.c:64-122 | both loops compute the specified mappings and cleared buffers, or stop where a frame is missing |
| Paging.Paging.MapFramebuffer | drivers/framebuffer.c:193-197 | the loop computes these mappings at virtual addresses, or stops where one fails |
| PagingStray.AllocStrays | kernel/paging.c:125-129 | after paging_alloc_page for a page below 4 MB that gets another page's frame, the frame is behind a user page, and the address of the page's own frame leads to it as well |
| PagingStray.StoreStrays | kernel/paging.c:138-139 | what the kernel then stores in that free frame lands in the user's page, all other stores where they should |
| PagingStray.StrayClone | kernel/paging.c:132-270 | no clone ever writes the frame, not even one that hands it out; if it becomes the child's directory, the user's page is overwritten with that directory |
| PagingStray.StrayCloneIsRightIfUnused | kernel/paging.c:132-270 | a clone that leaves the frame free is the specified clone, and parent and child can be cloned again; a clone that hands it out leaves in it what it held while it was free |
| PagingHarm.CloneMisled | kernel/paging.c:236-248 | if page j below 4 MB leads to frame f, and frame j holds a user page that is to be copied, the clone is the clone of a memory in which frame j has the words of frame f: the child gets a copy of the wrong page |
| PagingHarm.EmptyClone | kernel/paging.c:150-164 | if the page is that of the directory's own frame and holds zeros, the child gets no table |
| PagingHarm.CloneForgets | kernel/paging.c:132-270 | a right clone does not depend on what the frames that it hands out held before |
| PagingHarm.StrayCloneIsRightIff | kernel/paging.c:125-270 | after paging_alloc_page for a page j below 4 MB that gets another frame, the clone at the code's addresses is right, whatever the frames hold, if and only if frame j is not the directory, holds no page that is copied, and is not among the topmost free frames that the clone will draw, counted before the call |
| PagingVia.SeenCloneIsVia | kernel/paging.c:132-270 | the clone at virtual addresses is the clone of frames already if the directory, the free frames and the frames of the copied pages are where their addresses say |
| PagingStray.StrayForkOccurs | kernel/kernel.c:111-132 | from any address space of the kernel with four free frames: one such page and a fork, which succeeds and replaces the last word of the parent's page by the child's self-map |
| PagingStray.KernelStrayFork | kernel/kernel.c:115-146 | with the kernel's own frames, a network card and a screen of 1024 by 768 pixels this happens to the page at 0x3F6000 |
| PagingStray.StrayForkWithoutCard | kernel/kernel.c:115-132 | without card and screen it is the page at 0x3FE000 |
| PagingSpaces.ForkIsFlat | kernel/scheduler.c:262-289 | with any number of address spaces, a fork gives the child a memory equal to the parent's, changes no other, and keeps all of them cloneable, pairwise apart and off every kernel stack |
| PagingSpaces.ForkCosts | kernel/scheduler.c:262-278 | a fork succeeds if and only if there are frames for what it copies and two more, and takes just these; the child's kernel stack ends with the parent's 19 words of registers, with 0 in eax |
| PagingSpaces.CollectFrees | kernel/scheduler.c:358-369 | collecting a task gives back its kernel stack and its directory, and nothing else; no other kernel stack changes |
| PagingSpaces.ForkAndCollectLose | kernel/scheduler.c:365-369 | after a fork and the collection of the child just the frames of the copied tables and pages are missing |
| PagingSpaces.CollectIsFlat | kernel/scheduler.c:360-369 | giving back an exited task's kernel stack and directory keeps that and changes no other memory |
| PagingSpaces.GrowIsFlat | kernel/paging.c:125-129 | a new page, above 4 MB and not behind a shared table, is the task's own, holds what its frame held, and changes no other memory |
| PagingSpaces.StoreIsFlat | kernel/paging.c:236-248 | a store of user code changes one page of the task's own memory, if it is one of its own, and nothing in anybody else's |
| PagingSpaces.SharedTableLeaks | kernel/paging.c:258-261 | a new page behind a table that two address spaces share is mapped for both |
| PagingSpaces.FreeFits | kernel/paging.c:23-25 | in every reachable state the free frames fit into page_frames, which pfa_free does not check |
| Processes.ActIsFlat | kernel/scheduler.c:80-409 | one step of scheduler, fork, task_wait, allocation or user code is a step of tasks with separate memories: fork copies the parent's, task_wait drops the collected child's, everything else keeps all but the running task's |
| Processes.RunIsFlat | kernel/scheduler.c:80-409 | every run from such a state, in any interleaving, is a run of tasks with separate memories |
| Processes.Isolated | kernel/scheduler.c:80-409 | whatever the others do, a task's own pages keep their contents until it stores, gets a page, or is collected |
| Processes.ChildRemembers | kernel/scheduler.c:253-304 | however long a child has to wait before it runs, it finds the memory that its parent had at the fork |
| Processes.ChildReturnsZero | kernel/scheduler.c:270-278 | a child that has not run yet will return from fork with its parent's registers and 0 in eax, whatever the other tasks have done since |
| Processes.KernelSpaceIsGood | kernel/scheduler.c:45-74 | an address space with nothing but the kernel's tables, and one task, meet the invariant; the task's memory is empty |
| Processes.BootIsGood | kernel/scheduler.c:45-74 | booting establishes the invariant |
| Processes.LaunchIsGood | kernel/kernel.c:111-146 | and so does booting with a network card and a screen of at most 4 MB, as the kernel is started |
| ProcessLoad.FileLoopIsRun | kernel/elf_loader.c:38-67 | the first loop of load_segment is a run of new pages and stores of the task that loads |
| ProcessLoad.BssLoopIsRun | kernel/elf_loader.c:74-97 | and so is the second |
| ProcessLoad.ProgramIsRun | kernel/elf_loader.c:146-166 | and the loop over the program headers |
| ProcessLoad.StackIsRun | kernel/elf_loader.c:105-112 | and setup_user_stack |
| ProcessLoad.ProgramIsInMemory | kernel/elf_loader.c:146-169 | after the load the task's own memory holds the image of every segment and the stack's pages; no other task's memory has changed, nor has the process table |
| ProcessLoad.FirstTaskMayLoad | kernel/elf_loader.c:29-100 | from the start on the first task may load a program above 4 MB that is outside the kernel image and behind none of the kernel's tables |
| ProcessLoad.ChildHasProgram | kernel/scheduler.c:253-304 | a child forked after the load has the whole program, whatever the other tasks do before it runs |
| PagingMap.MapPageMaps | kernel/paging.c:94-122 | the page leads to the frame with the flags asked for, every other page is where it was |
| PagingMap.MapPageKeepsSeparate | kernel/paging.c:94-122 | a user mapping keeps tables and free frames out of user reach and user pages unshared if its frame is not in use |
| PagingMap.AllocPageMaps | kernel/paging.c:125-129 | the page gets a frame that was free, all other pages stay |
| PagingMap.InitMaps | kernel/paging.c:27-62 | the first 4 MB are mapped to themselves for the kernel only, nothing else is mapped |
| PagingVia.CloneIsVia | kernel/paging.c:132-270 | with every access at a virtual address, physical ones through entry 0 and old tables through the self-map, the clone is the clone of frames, if entry 0 maps everything in use to itself |
| PagingVia.ForkStaysSane | kernel/paging.c:132-270 | after such a clone parent and child both satisfy that condition: a fork can follow a fork |
| PagingVia.InitIsSane | kernel/paging.c:27-62 | paging_init establishes it |
| PagingVia.MapPageIsVia | kernel/paging.c:94-122 | paging_map_page through the self-map is the mapping of frames |
| PagingVia.MapPageKeepsIdentityIff | kernel/paging.c:94-122 | a mapping keeps the identity map exactly if no frame in use loses its own page and a user page leads to a frame mapped to itself |
| PagingVia.AllocPageKeepsSaneIff | kernel/paging.c:125-129 | paging_alloc_page keeps the condition exactly if the page is not below 4 MB, or gets its own frame, or its frame is not in use |
| Paging.Paging.PfaPush | kernel/paging.c:14-16 | pushes one frame; pfa_free (lines 23-25) is the same code |
| Paging.Paging.PfaAlloc | kernel/paging.c:18-21 | pops the frame pushed last, or reports the panic |
| Paging.Paging.MapPage | kernel/paging.c:94-122 | computes the specified mapping at virtual addresses, a new table included |
| Paging.Paging.AllocPage | kernel/paging.c:125-129 | computes the specified allocation and mapping at virtual addresses |
| Paging.Paging.Init | kernel/paging.c:27-62 | computes the specified first directory |
| Paging.Paging.FindUserPage | kernel/paging.c:166-175 | the search loop finds a user page outside the kernel image exactly if there is one |
| Paging.Paging.CopyOne | kernel/paging.c:186-205 | computes one entry of a copied table; the page is read where its physical address leads as a virtual one |
| Paging.Paging.CopyTable | kernel/paging.c:186-205 | the copying loop computes the specified table and frames |
| Paging.Paging.CopyEntry | kernel/paging.c:181-210 | computes a directory entry whose table is copied |
| Paging.Paging.CloneEntry | kernel/paging.c:150-261 | computes the specified directory entry: absent, shared or copied |
| Paging.Paging.CloneDirectory | kernel/paging.c:132-270 | the whole loop computes the specified clone at virtual addresses, and the clone of frames in a sane address space |
| ElfPages.AllocStep | kernel/paging.c:94-129 | paging_alloc_page succeeds exactly if there are frames for the page and for a missing table; the page is the user's and holds what its frame held |
| ElfPages.AllocOther | kernel/paging.c:94-129 | no other page moves and no other user page changes |
| ElfPages.CostSplits | kernel/paging.c:102-115 | what a set of pages costs, a frame each and one for each missing table, adds up over any order of allocation |
| ElfSpec.FileLoopFrames | kernel/elf_loader.c:38-67 | success exactly if there are frames for the pages of the range and for the tables they lack; just these are taken |
| ElfSpec.FileLoopPages | kernel/elf_loader.c:43-44 | the pages of the range are mapped for user code, no other page moves |
| ElfSpec.FileLoopBytes | kernel/elf_loader.c:38-67 | the range holds the file's bytes, zero where the file has ended; user bytes on other pages stay |
| ElfSpec.FileLoopStale | kernel/elf_loader.c:43-61 | around the range, on its pages, stands what the free frames held |
| ElfSpec.BssLoopFrames | kernel/elf_loader.c:74-88 | success exactly if there are frames for the pages that are not there yet and for the tables they lack |
| ElfSpec.BssLoopBytes | kernel/elf_loader.c:74-97 | the range becomes zero, every user byte that was there before stays |
| ElfSpec.SegmentIsLoaded | kernel/elf_loader.c:29-100 | a loadable header is realised: file bytes, then zeros up to memsz, on user pages; success exactly if there are frames for the new pages and their missing tables, and just these are taken; no other page moves; user bytes outside the image stay unless a page of the file part holds them |
| ElfSpec.KeepsOutsideIff | kernel/elf_loader.c:43-44 | a load keeps all user bytes outside its image, whatever the free frames hold, if and only if no user page under its file part reaches beyond the image |
| ElfSpec.SharedPageIsLost | kernel/elf_loader.c:43-44 | if a page of a second segment's file part holds a byte of the first, that byte is lost for some contents of the free frames |
| ElfSpec.ProgramIsLoaded | kernel/elf_loader.c:146-166 | all segments of a program are in memory at the end as their headers say, at the price of one frame for each new page and each missing table |
| ElfFile.HeaderMeans | include/elf.h:65-74 | on the bytes of the file: header k, 32 bytes each from the word at 28 on, is loaded if and only if its first word is 1; the words at 8, 4, 16 and 20 are address, offset, file size and memory size |
| ElfFile.EhdrIs | include/elf.h:77-90 | which bytes make a file an executable that is accepted, and where entry point, header offset and header count stand |
| ElfFile.OthersAreRefused | kernel/elf_loader.c:129-141 | any other file is refused before anything is allocated |
| ElfFile.ExecutableIsLoaded | kernel/elf_loader.c:114-169 | from the bytes of an executable to the bytes in memory: the load succeeds if and only if there are frames for the new pages, their tables and the stack, and takes just these; at each address that a header covers stands the file's byte, or zero; the 16 KB of the stack are mapped; user bytes elsewhere stay |
| ElfSpec.StackIsMapped | kernel/elf_loader.c:105-112 | the four pages below the stack top are mapped for user code, for four frames and one for their table if it is missing; nothing else changes |
| ElfSane.ProgramKeepsSane | kernel/elf_loader.c:146-166 | a program loaded above 4 MB leaves an address space that can be cloned |
| ElfSane.StackKeepsSane | kernel/elf_loader.c:105-112 | and so does its stack |
| Elf.Loader.ReadFileAt | kernel/elf_loader.c:17-22 | the slice of the file or directory in the buffer, or -1 |
| Elf.Loader.StoreBytes | kernel/elf_loader.c:59-61 | the byte loop writes to the page that the processor finds, or faults |
| Elf.Loader.LoadChunk | kernel/elf_loader.c:38-61 | one round of the first loop |
| Elf.Loader.FileLoop | kernel/elf_loader.c:34-67 | the loop on file system and page tables computes the specified address space |
| Elf.Loader.ProbePage | kernel/elf_loader.c:76-83 | the test whether a page is mapped, through the directory's address and the self-map |
| Elf.Loader.BssLoop | kernel/elf_loader.c:69-97 | the loop computes the specified address space |
| Elf.Loader.LoadSegment | kernel/elf_loader.c:29-100 | computes the specified segment load |
| Elf.Loader.LoadAll | kernel/elf_loader.c:146-166 | the loop over the program headers, read from the file, computes the specified load |
| Elf.Loader.LoadAndExec | kernel/elf_loader.c:129-194 | reads and checks the header, loads all segments and maps the stack as specified, and goes on at the header's entry point with the stack at 0xE0000000 |
| Elf.Loader.SetupStack | kernel/elf_loader.c:105-112 | maps the stack pages |
| Screen.Framebuffer.Put | drivers/framebuffer.c:207-215 | one pixel changes if it is on screen, no other does |
| Screen.Framebuffer.PutRect | drivers/window.c:106-147 | drawing loops that test every store change exactly the on-screen part of the rectangle |
| Screen.Framebuffer.FillRow | drivers/framebuffer.c:229-234 | the inner loop, which tests nothing, fills its part of the row, or leaves the framebuffer exactly if the row does not fit |
| Screen.Framebuffer.FillRect | drivers/framebuffer.c:217-235 | with the clipping on unsigned words: exactly the on-screen part of the rectangle changes, or the stores leave the framebuffer, which is the case exactly if x + w or y + h wraps around and there is something to draw |
| Screen.Framebuffer.Clear | drivers/framebuffer.c:237-240 | every pixel on screen gets the colour |
| Cursor.Cursor.SaveBackground | drivers/cursor.c:53-66 | what the screen shows under the cursor is saved |
| Cursor.Cursor.DrawCursor | drivers/cursor.c:85-109 | the sprite is laid over the picture, transparent where it is 0 |
| Cursor.Cursor.Init | drivers/cursor.c:113-132 | the cursor stands clamped in the middle over the original image |
| Cursor.Cursor.Move | drivers/cursor.c:149-172 | no trail: the screen is again the original image with the sprite over it at the new place, overlapping moves included |
| Cursor.Cursor.PollMouse | drivers/cursor.c:174-181 | the same after any sequence of mouse events, at the place they add up to |
| Cursor.Cursor.Remove | drivers/cursor.c:193-207 | the original image is back, pixel for pixel |
| Cursor.Cursor.Restore | drivers/cursor.c:210-218 | the cursor is over whatever was drawn since |
| Cursor.TrackStaysOnScreen | drivers/cursor.c:44-50 | on a screen that can hold it the cursor never leaves the screen |
| Cursor.TrackFollowsMouse | drivers/cursor.c:174-181 | while it meets no edge the cursor goes as far as the events say, to the right by dx and up by dy |
| Cursor.ClampIsNearest | drivers/cursor.c:43-50 | the cursor stands at the nearest place at which it is on the screen |
| Cursor.CursorIsArrow | drivers/cursor.c:18-40 | pixel by pixel: the arrow, black around white, tip at the hot spot, and around it what is beneath |
| WindowSpec.WindowFillsItsRect | drivers/window.c:85-224 | a window of content width 24, or narrower with a title that fits, paints every pixel of its rectangle and no other |
| WindowSpec.FrameShows | drivers/window.c:85-207 | pixel by pixel and colour by colour: close button with its cross, title text, title bar and border of a window with or without the focus |
| WindowSpec.WindowShows | drivers/window.c:206-224 | inside the frame each pixel is the window's own, row by row from (2, 22) on, over the lower border; outside it is the frame's |
| WindowSpec.GlyphRow | drivers/window.c:161-172 | the eight pixels of a row of a glyph are the digits of its byte, the highest on the left |
| WindowSpec.NarrowWindowSpills | drivers/window.c:149-190 | every other window paints a pixel outside its rectangle |
| WindowSpec.TopAt | drivers/window.c:426-437 | the last visible window on the list that contains the point |
| WindowSpec.TopIsHighest | drivers/window.c:426-437 | on an ascending list that is the highest such window |
| WindowSpec.PictureMatchesHitTest | drivers/window.c:408-416 | each painted pixel is the one that the window found there by hit testing paints; uncovered pixels are unchanged |
| WindowSpec.PictureShowsHighest | drivers/window.c:408-437 | from end to end: each pixel is painted by the highest visible window at its place, which is the one hit testing finds |
| WindowSpec.Place | drivers/window.c:26-40 | insert_sorted's place: before the first greater height |
| WindowSpec.MaxZ | drivers/window.c:63-72 | the greatest height on the list |
| Window.DrawFrame | drivers/window.c:85-204 | border, title bar, text, button and cross, pixel by pixel |
| Window.DrawContent | drivers/window.c:207-224 | the content pixels over the frame, overlapping the lower border |
| Window.WindowManager.NextZ | drivers/window.c:63-72 | one more than the greatest height |
| Window.WindowManager.InsertSorted | drivers/window.c:26-40 | the linked list with the window inserted at its place |
| Window.WindowManager.RemoveFromList | drivers/window.c:43-60 | the linked list without the window, or unchanged if it is not there |
| Window.WindowManager.CreateWindow | drivers/window.c:253-305 | the new window is last, has the focus and its size, or nothing changed; heights stay ascending |
| Window.WindowManager.FocusWindow | drivers/window.c:340-367 | the window is last, highest and the only one marked; if it had the focus nothing changes |
| Window.WindowManager.DestroyWindow | drivers/window.c:308-327 | the window leaves the list, the order of the others stays |
| Window.WindowManager.MoveWindow | drivers/window.c:330-337 | the new position; the list invariant stays |
| Window.WindowManager.GetWindowAt | drivers/window.c:426-437 | the highest visible window that contains the point, or none if there is none |
| Window.WindowManager.PaintWindows | drivers/window.c:408-416 | all visible windows painted in list order, pixel by pixel |
| Window.WindowManager.Composite | drivers/window.c:370-423 | beneath the cursor the picture is the old one with all windows painted; if all windows are wide enough each pixel is what the highest visible window there, the one wm_get_window_at returns, paints; the cursor is back over it |

## Left out

- Kernel.Kernel.TaskExit: has the exit guard as a precondition, because without it the exiting task's parent would be linked into two lists at once.
- Kernel.Kernel.Perform: has `Safe` as a precondition; what the three other sections do is said on the state machine, by UnsafeTickBreaks, UnsafeExitBreaks and UnsafeMqCreateBreaks.
- Kernel.Kernel.TaskFork: the class holds the process table alone; the page directory, the kernel stack and the registers on it join it in Processes, on values. Running out of frames is a panic.
- Kernel.Kernel.MsgQueueSend: takes the bytes as a value at the time of the call, although the code copies them from the sender's buffer only after it was woken; a null buffer is not modelled.
- Kernel.Kernel.SemCreate: names of semaphores are not modelled.
- KernelInvariant.StepKeepsInvIffSafe: pids, counters and semaphore values are unbounded integers; the 32-bit wrap-around after two thousand million calls is not modelled.
- HeapSpec.AllocLive: the block may be larger than needed, by less than 16 bytes, as in the code.
- Heap.Heap.Kfree: asks for a live pointer or null, as the code does without saying so.
- SfsCalls.StepKeepsGoodIff: counts are not negative; the run theorems cover every call but a disorderly write through ".", after which the directory is no longer what the other calls rely on.
- SfsRuns.RunIsFlat: runs without a disorderly write through ".", and so SfsRuns.StepIsFlat; DirectoryWriteKeepsConsistentIff says what such a write does.
- SfsDirWrite.DirectoryWriteKeepsConsistentIff: the directory's size must not exceed its blocks and the offset not its size, as in every state that legal calls reach.
- SfsRuns.FreshIsEmpty: the super block's fields are the constants of sfs_format; a disk with the right magic number and other fields is not modelled.
- SfsFlat.WriteIsOverwrite: offsets never pass the end of the file, which every run keeps, so the 32-bit sum of offset and size does not wrap.
- Sfs.Sfs.Create: only regular files under the root; sfs_create of a directory is reached by no system call.
- PagingFork.ChildMapsSame: None is a panic, for want of frames or at a page fault; what a device shows is a constant function of its frame, and no table lies in a device.
- PagingVia.CloneVia: a page that the kernel would write to a device is None as well; a sane address space never meets this.
- PagingDevices.CloneAfterDeviceIff: the pages are above 8 MB and below the self-map, as at 0xF0000000; the device is not below 4 MB, and its frame numbers do not wrap around.
- PagingBoot.ForkAfterScreenIff: the screen and the framebuffer lie below 0xFFC00000, and no task has pages of its own yet; CloneAfterDeviceIff is for every state. jump_to_ring3, with its user stack below 4 MB (kernel/kernel.c:25-56), is left out: nothing calls it, since the shell runs in the kernel (kernel/kernel.c:218).
- PagingBoot.CardInitIs: there are eight free frames; the card's registers, and what the card itself writes to its buffers, are left out.
- PagingBoot.ScreenOverCard: the screen has at most 4 MB; a larger one is in ForkAfterScreenIff.
- PagingHarm.StrayCloneIsRightIff: one page below 4 MB in a sane address space, and copied pages in memory; whether it is right means for all contents of frames that are neither the directory nor one of its tables. For single contents CloneMisled, StrayClone and CloneForgets say what happens.
- PagingStray.StrayClone: says which frame is not written; what the user's page holds afterwards is said for the directory alone.
- PagingSpaces.GrowIsFlat: pages below 4 MB (see PagingStray, PagingHarm) and behind shared tables (see SharedTableLeaks) are excluded; device pages may be mapped behind shared tables only. Pages of the kernel image that are mapped for user code stay shared by design.
- Processes.RunIsFlat: no section is one of the three unsafe ones; the frames of a collected task's tables and pages are not given back, as in the code. What the kernel leaves on a new kernel stack is a parameter. A received message, or bytes read from a file, that the kernel copies to the caller's buffer are no part of the section but a Store of the caller behind it.
- ProcessLoad.ProgramIsInMemory: pages below 4 MB, in the kernel image or behind shared tables are excluded, as in GrowIsFlat, and so are segments as in ElfSpec.ProgramIsLoaded; a load that fails half-way is not described.
- PagingFork.ParentUntouched: speaks of frames; at the code's virtual addresses it needs IdentityMapped, the condition of CloneIsVia, which a user mapping below 4 MB can break.
- PagingSpec.Separate: assumes that no free frame, table or directory is mapped for user code and that no two user pages share a frame of memory; the kernel's own identity map may reach them all.
- PagingVia.IdentityMapped: the pages of the kernel's own code, data and stacks have to stay mapped as well; they are not part of the modelled state.
- Paging.Paging.MapPage: flags of an existing table are kept, as in the code; TLB and control registers are not modelled.
- Paging.Paging.PfaPush: the stack must have room, which the code does not check; PagingSpaces.FreeFits shows that it has in every run.
- Paging.Paging.PfaAlloc: a frame of the pool is below 4 MB, as in kernel/kernel.c:115-131; larger memory is not modelled.
- ElfSpec.SegmentIsLoaded: asks for a segment that neither wraps around nor reaches the self-map nor covers the directory's own address, and for user pages where the zero part meets pages that are there, because the code checks none of this.
- ElfFile.ExecutableIsLoaded: a later segment's file part shares no page with an earlier segment, see SharedPageIsLost, and all program headers are in the file; a load that fails half-way is described by LoadAll alone. The other registers that elf_load_and_exec sets are not modelled.
- ElfSpec.ProgramIsLoaded: the same conditions.
- ElfSpec.Store: bytes for a page that leads to a frame outside memory go to a device and are not kept.
- Cursor.Cursor.Move: coordinates are unbounded integers and a framebuffer is always present; cursor_hide, cursor_show and cursor_redraw are left out, since they restore or save at the wrong place.
- Window.WindowManager.CreateWindow: heights and coordinates are unbounded integers, the content buffer has exactly the pixels of the content, and kmalloc's verdict is a parameter.
- Window.WindowManager.Composite: at least one window; the branch without windows, whose inline assembly moves the framebuffer's address, is left out, and so are the dirty and needs_composite flags, which only schedule repainting.
- Device drivers, port I/O, the register frames of a context switch, boot code, consoles, the network, sound, keyboard and mouse buffers: hardware effects or user interface.
- task_create, which shares the kernel's page tables, and the page tables that task_wait does not give back.
- Disk errors: a block read or write always succeeds.
- Drawing into a window's buffer (wm_fill_rect, wm_putpixel, wm_putchar) and the click handler: easy members.
