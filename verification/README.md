# Nachos and its paging simulator, verified

This project models the hard core of a Nachos teaching operating system (kernel, file
system, simulated machine) and of a small page-replacement simulator, and proves
properties of every input, every run or every reachable state.

| files | what they model |
|---|---|
| `Paging` | the farthest-next-use simulator, and Belady's theorem against all policies |
| `Multiply` | the 32-step multiplication of the simulated processor |
| `Semaphores`, `SynchLists`, `Channels`, `SynchDisks`, `Counting` | synchronisation, for any number of threads |
| `Schedulers`, `Kernels`, `KernelProofs`, `KernelEffects`, `KernelObjects` | ready lists, locks and priority donation |
| `DiskLayout`, `DiskBytes`, `OpenFiles`, `Bitmaps`, `Directories` | bytes on disk, byte ranges through sectors, bitmap, headers, directory |
| `Volumes`, `FileSystems`, `FileSystemClass`, `FileRuns`, `StaleHandles`, `FileChecks` | consistency of the volume, operations, whole runs, handles of removed files, the checker |
| `Lists`, `PendingQueues`, `Interrupts`, `DiskTimes` | the heap list, simulated time, disk latency |
| `Mmus`, `AddressSpaces`, `UserPrograms`, `MachineRuns`, `Args` | address translation, isolation of programs, whole runs of the machine, arguments |
| `Common` | notions used throughout |

Concurrency is modelled as transition systems.  The kernel switches threads only in Sleep
and Yield, and Yield is forced only when interrupts are enabled again, which P and V do; so
a step runs from one P or V to the next, and steps of different threads interleave freely.
The windows this opens are kept: a lock's owner is recorded after its P, a condition's
waiter count is lowered after its V, and a sleeping thread can be woken while it is still
the current one.

Sequential code is modelled as classes and methods with the source's own loops and updates,
each tied by its contract to a function of the old state.  Machine words are unbounded
integers except where wrap-around matters; there it is written out.

## Where the code differs from its intent

Each point has a concrete failing case and the exact condition under which the intent holds.

- Priority donation is not undone.  Release calls `setPriority` with the saved value and
  then `setPriorityTemp(-1)`, which finds a saved value, keeps it, and makes −1 the current
  priority (lock.cc:76-77, thread.cc:307-314).  The intent holds along a run if and only if
  no thread with a saved priority releases a lock: `KernelProofs.DonationUndoneIff`,
  `KernelProofs.DonationGoesWrong`.
- The end-of-file test adds position and length in 32 bits (open_file.cc:120 and 157).  It
  clips if and only if the sum does not wrap: `OpenFiles.ClipIff`,
  `OpenFiles.ClipCounterexample`.
- Check does not look at the size of the directory file (file_system.cc:436-446).  What passes
  is a consistent volume if and only if that size is 200 bytes:
  `FileChecks.PassedIsConsistentIff`, `FileChecks.UnsizedPasses`.
- Check wants fewer than 30 sectors where Create allows 30 (file_system.cc:333), and a name of
  nine or more characters gets no terminator of its own (directory.cc:128), so that it passes if
  and only if the last byte of its slot is zero already: `FileSystemClass.FullFileIsRejected`,
  `FileChecks.CreatedTerminatedIff`, `FileChecks.UnterminatedExample`.
  `FileRuns.FormatRunCheck` says which runs end in a volume that passes.
- A file can be removed while it is open, and its handle then writes into sectors that may be
  somebody else's (open_file.cc:25-30, file_system.cc:246-274).  All writes through it keep every
  name's header and bytes if and only if none of its sectors that hold bytes is a header in use
  or holds bytes of a file in use: `StaleHandles.StaleWriteIff`.  So it is just after Remove
  (`StaleHandles.RemovedIsDormant`), and it ends when Create gives out such a sector
  (`StaleHandles.CreateKeepsDormantIff`).  The failing run is Create, Open, Remove, Create under
  another name, Write: `StaleHandles.WriteAfterRemove`.
- Zeroing a new frame overwrites the first page of memory with the frame's number
  (address_space.cc:60): `UserPrograms.CreationIsolatedIff`, `UserPrograms.CreationDisturbs`,
  `UserPrograms.StartsZeroIff`.  What this leaves of isolation over whole runs is
  `MachineRuns.RunIsolated`.
- Copying an argument to a new program's stack leaves out its terminator, and of an empty
  argument's buffer it copies on to the next NUL, over the arguments before it
  (transfer.cc:68-79).  An argument arrives if and only if it has no newline and fewer than 128
  bytes, memory happened to hold a zero where its terminator belongs (the empty one brings its
  own), and nothing that later, empty arguments leave over reaches that byte or differs from the
  argument's own bytes: `Args.PassArgs`.  Where no empty argument's buffer has a byte left over,
  only the first three matter (`Args.TidyReturnsIff`).  The failing cases are a stack without
  zeros (`Args.UnterminatedArgument`), and "A" before an empty argument whose buffer is 0, 'B', 0
  (`Args.LeftoverDamages`, `Args.PassLeftover`).
- While idling, the draining loop can stop with the timer still due (interrupt.cc:334-338),
  exactly when everything pending is due, the timer is last and no handler before it schedules
  anything: `Interrupts.Interrupt.Drain`, `Interrupts.TimerIsLeft`.

## Model

| member | source | states |
|---|---|---|
| `Paging.Simulate` | Teoria/Miscelánea-20230320/god.py:46-68 | The reported number of swaps is exactly the minimum over all paging runs of the trace: no run of at most `memorySize` frames, whatever it evicts or prefetches, evicts fewer pages, and some run attains the count; no result exactly when the size is below 2. |
| `Paging.Optimality` | Teoria/Miscelánea-20230320/god.py:46-79 | Belady's theorem: a farthest-next-use run loads and evicts no more pages than any other run of the same trace and size. |
| `Paging.PotentialStep` | Teoria/Miscelánea-20230320/god.py:56-64 | One access keeps the exchange invariant for every horizon: the rival's lead in soon-needed pages is paid for by its extra loads. |
| `Paging.PotentialHolds` | Teoria/Miscelánea-20230320/god.py:46-64 | The exchange invariant holds after every prefix of the trace, against every rival. |
| `Paging.Conservation` | Teoria/Miscelánea-20230320/god.py:46-64 | On every run, pages loaded are pages evicted plus pages resident. |
| `Paging.LastUsed` | Teoria/Miscelánea-20230320/god.py:70-79 | The page returned is resident and no resident page is next used later, ties and pages never used again included. |
| `Paging.FindFrame` | Teoria/Miscelánea-20230320/god.py:61-62 | The frame found holds the page, and is the last that does. |
| `Paging.Access` | Teoria/Miscelánea-20230320/god.py:48-64 | One iteration: a hit changes nothing, a free frame is filled, otherwise exactly one farthest page is replaced; the swap count grows by the pages evicted. |
| `Multiply.Mult` | nachos-unr22a/code/machine/mips_sim.cc:90-155 | For all 32-bit operands, hi:lo is the exact 64-bit signed product (the most negative operand included) or the exact unsigned product. |
| `Multiply.MultiplyLoop` | nachos-unr22a/code/machine/mips_sim.cc:116-140 | The shift-and-add loop with arithmetic right shift and early exit yields the full unsigned product. |
| `Multiply.LoopStep` | nachos-unr22a/code/machine/mips_sim.cc:122-140 | One step keeps the loop's relation between the multiplier bits seen, the shifted multiplicand and the accumulator. |
| `Multiply.AddDouble` | nachos-unr22a/code/machine/mips_sim.cc:124-128 | The two-word addition with its carry test is exact. |
| `Multiply.NegateDouble` | nachos-unr22a/code/machine/mips_sim.cc:142-151 | Complementing both words and adding one negates the double word, carry included. |
| `Semaphores.RunKeepsInv` | nachos-unr22a/code/threads/semaphore.cc:60-93 | On every run of any number of threads: value = initial + completed V − completed P, the queue holds exactly the sleepers, once each, and while anyone sleeps the value is at most the number of woken threads that have not retested. |
| `Semaphores.NoLostWakeup` | nachos-unr22a/code/threads/semaphore.cc:67-71 | If a thread sleeps while the value is positive, some woken thread can retest, and its retest takes a unit. |
| `Semaphores.StepIsAtomic` | nachos-unr22a/code/threads/semaphore.cc:60-93 | Every step is, for the outside, an atomic P from a positive value, an atomic V, or no change. |
| `Semaphores.PassEffect` | nachos-unr22a/code/threads/semaphore.cc:67-71 | One pass of P: with a unit there the thread takes it and leaves; without one it is asleep behind all other sleepers; no other thread is touched. |
| `Semaphores.SignalEffect` | nachos-unr22a/code/threads/semaphore.cc:80-93 | V is always possible: one unit more, and the first of the sleepers, if any, is due to test again; no other thread is touched. |
| `Semaphores.WaitThenSignal` | nachos-unr22a/code/threads/semaphore.cc:60-93 | While nobody sleeps, P followed by V leaves the value, the queue and all threads as they were, whether P finds a unit or has to wait for that V. |
| `Semaphores.FirstAsleepFirstWoken` | nachos-unr22a/code/threads/semaphore.cc:60-93 | On every run, if one thread was asleep before another fell asleep and has slept ever since, no V wakes the other. |
| `SynchLists.RunKeepsInv` | nachos-unr22a/code/threads/synch_list.hh:85-115 | On every run of any number of producers and consumers: lock value plus holders is one, the owner is the thread that posted, waiters are the unsignalled ones plus posted units, appended items are the arguments of the producers' own calls and are the popped items followed by the list, and unsignalled waiters imply that every item is covered by a released consumer. |
| `SynchLists.Fifo` | nachos-unr22a/code/threads/synch_list.hh:85-115 | On every run what the producers passed to Append, in the order in which they get through, is the items popped followed by the list: nothing is lost, repeated, reordered or made up. |
| `SynchLists.AppendsOwnItem` | nachos-unr22a/code/threads/synch_list.hh:85-93 | When a producer gets through, the argument of its own last call of Append, and nothing else, goes to the end of the list. |
| `SynchLists.OthersAppendNothing` | nachos-unr22a/code/threads/synch_list.hh:85-115 | No other step appends anything, and only a Pop of a list that is not empty takes anything: its first item. |
| `SynchLists.AppendAlone` | nachos-unr22a/code/threads/synch_list.hh:85-93 | Append with nobody in between runs to its end: the item is in the list, a counted waiter, if any, is exchanged for a posted unit, and all else is as it was. |
| `SynchLists.PopAlone` | nachos-unr22a/code/threads/synch_list.hh:101-115 | Pop with nobody in between takes the first item, or, if there is none, counts itself a waiter and has let go of the lock. |
| `SynchLists.WaiterAlone` | nachos-unr22a/code/threads/condition.cc:43-64 | A consumer in Wait goes on when there is a unit, takes it and can have the lock as soon as that is free. |
| `SynchLists.MutualExclusion` | nachos-unr22a/code/threads/synch_list.hh:89-113 | Two threads between Acquire and Release are the same thread, in every reachable state. |
| `SynchLists.ItemsAreCovered` | nachos-unr22a/code/threads/condition.cc:43-64 | At every state with the lock free, if `countWaiters` is positive the list is no longer than the number of signalled threads that have not left Wait. |
| `SynchLists.NoLostWakeup` | nachos-unr22a/code/threads/condition.cc:43-64 | In every reachable state with a consumer waiting beside a non-empty list somebody can move: while the lock is free, the waiter can pass the semaphore or a released consumer can take the lock, even when a late waiter took another's signal; while it is held, its holder can. |
| `SynchLists.HolderLetsGo` | nachos-unr22a/code/threads/synch_list.hh:85-115 | The holder of the lock can always take its next step, and after at most two of them the lock is free. |
| `Channels.RunKeepsInv` | nachos-unr22a/code/threads/channel.cc:22-38 | On every run one sender at most is active, and its message is unwritten, on offer, held by one receiver or acknowledged, consistently with both semaphores. |
| `Channels.InOrder` | nachos-unr22a/code/threads/channel.cc:22-38 | Received values are a prefix of what the senders passed to Send, in the order of writing, short of at most one. |
| `Channels.Rendezvous` | nachos-unr22a/code/threads/channel.cc:22-38 | One Send against one Receive from any reachable state in which nobody sends: all six steps can be taken, the receiver reads the sender's message, and the lock, both semaphores and all threads are as they were. |
| `Channels.ReceiveTakesNext` | nachos-unr22a/code/threads/channel.cc:34-38 | A receiver always reads the next undelivered message, never a stale or repeated one. |
| `Channels.SendReturnsAfterRead` | nachos-unr22a/code/threads/channel.cc:22-28 | When Send releases its lock, the message of its own call is among the received ones, at its own position. |
| `Channels.SenderIsServed` | nachos-unr22a/code/threads/channel.cc:25-26 | A sender that waits has its message on offer, in a receiver's hands, or acknowledged. |
| `SynchDisks.OneAtATime` | nachos-unr22a/code/machine/disk.cc:117-170 | On every run of concurrent requests and interrupts, the device's and the lock's assertions hold, at most one completion is outstanding, and the device is active exactly while one is. |
| `SynchDisks.BehavesAtomically` | nachos-unr22a/code/filesys/synch_disk.cc:54-87 | Every ReadSector and WriteSector acts as one access to an array of sectors, placed between its call and its return, and returns what the array gives there: what was last written to that sector, or was there in the beginning; that access is the one Request the thread made since its own call, and the array's history has one entry for each Request so far. |
| `SynchDisks.LogIsRequests` | nachos-unr22a/code/filesys/synch_disk.cc:54-87 | On every run the history of accesses is exactly as long as the number of requests made. |
| `SynchDisks.ReadsLastWrite` | nachos-unr22a/code/filesys/synch_disk.cc:54-87 | What a ReadSector returns is what the last WriteSector to that sector before its own place in the history wrote, or what the disk held in the beginning. |
| `SynchDisks.LogIsAccesses` | nachos-unr22a/code/filesys/synch_disk.cc:54-87 | The history lists the operations that the threads called, in the order of their requests. |
| `SynchDisks.OperationAlone` | nachos-unr22a/code/filesys/synch_disk.cc:54-87 | While nobody has the lock an operation runs from call to return, interrupt included; its buffer holds the data, a write is on the disk, and all else is as it was. |
| `SynchDisks.RunKeepsInv` | nachos-unr22a/code/filesys/synch_disk.cc:54-87 | The invariant behind both: one holder, outstanding interrupts plus posted units equal issued requests, and every sector holds what the last write to it among the requests served wrote, or what was there in the beginning. |
| `Schedulers.Scheduler.FindNextToRun` | nachos-unr22a/code/threads/scheduler.cc:74-82 | On the linked ready lists: returns and unlinks the head of the highest non-empty one; nothing and no change when all are empty. |
| `Common.WithoutContents` | nachos-unr22a/code/lib/list.hh:202-224 | Removal from a list without repetitions removes exactly that element. |
| `KernelObjects.Replay` | nachos-unr22a/code/threads/lock.cc:36-82 | Every run of the transition system, from the initial state, is what the kernel objects do: linked ready lists, locks with their semaphores and sleepers' queues end in the state the run ends in, with all their links in order. |
| `KernelObjects.KernelObject.Perform` | nachos-unr22a/code/threads/lock.cc:36-82 | Each routine on the objects leaves exactly the successor state of the transition system and, unless it faulted, the kernel invariant. |
| `KernelObjects.KernelObject.Acquire` | nachos-unr22a/code/threads/lock.cc:36-49 | Donation followed by one pass of P is the transition system's Acquire step. |
| `KernelObjects.KernelObject.Release` | nachos-unr22a/code/threads/lock.cc:56-82 | Restoring the priority, forgetting the owner and V are the transition system's Release step. |
| `KernelObjects.KernelObject.Yield` | nachos-unr22a/code/threads/thread.cc:223-239 | The next thread runs and the yielding one joins its list; without a ready thread nothing changes. |
| `KernelProofs.StepKeepsInv` | nachos-unr22a/code/threads/lock.cc:36-82 | Every step (Acquire with donation, retest, recording, Release, Yield, sleep, wake, dispatch, Fork) from a good state leads to a good state or to a fault. |
| `KernelProofs.RunKeepsInv` | nachos-unr22a/code/threads/lock.cc:36-82 | The kernel invariant (lists, one running thread, locks, priorities) holds in every reachable state that has not faulted. |
| `KernelProofs.InvWellformed` | nachos-unr22a/code/threads/lock.cc:36-82 | Under the invariant no list, queue or lock refers to a thread that does not exist. |
| `KernelProofs.SchedulingIsExact` | nachos-unr22a/code/threads/scheduler.cc:42-82 | On every run each READY thread is in exactly one list, once, at its current priority, no other thread is in any, and at most the current thread runs. |
| `KernelProofs.HighestRuns` | nachos-unr22a/code/threads/scheduler.cc:74-82 | On every run, whenever Sleep or Yield hands the processor over, it goes to the first thread of a list that no READY thread outranks; Yield does hand it over if any thread is READY. |
| `KernelProofs.MutualExclusion` | nachos-unr22a/code/threads/lock.cc:49-80 | On every run the semaphore value plus the threads between Acquire's P and Release's V is one, and `lockerThread` is nobody or that one thread, although it is recorded late. |
| `KernelProofs.DonationEffect` | nachos-unr22a/code/threads/lock.cc:38-48 | Acquiring a lock that somebody owns raises the owner to the higher of the two priorities and changes no other thread; if the owner is READY it then stands in the list of its new priority and in no other. |
| `KernelProofs.SavedOnce` | nachos-unr22a/code/threads/thread.cc:307-314 | However many donations a thread receives, the priority saved is the one it had before the first, and its priority is that of the last. |
| `KernelProofs.ReleaseEffect` | nachos-unr22a/code/threads/lock.cc:56-82 | Release restores the base priority exactly when no donation was received; otherwise it leaves priority −1. |
| `KernelProofs.DonationUndoneIff` | nachos-unr22a/code/threads/lock.cc:58-78 | Over any run and nesting, donation is undone exactly if and only if no thread with a saved priority ever releases a lock. |
| `KernelProofs.StepKeepsUndone` | nachos-unr22a/code/threads/lock.cc:36-82 | As long as no such release happens, every thread is at its base priority with nothing saved, or owns a lock, has its base saved and runs strictly above it; and no ready list is indexed out of range. |
| `KernelProofs.NoFault` | nachos-unr22a/code/threads/scheduler.cc:58-67 | Without such a release and without a fork at a bad priority, no access leaves the array of ready lists. |
| `KernelProofs.DonationGoesWrong` | nachos-unr22a/code/threads/thread.cc:307-314 | A concrete run of eight steps after which a thread has priority −1 and the ready lists are indexed at −1. |
| `KernelEffects.RetestEffect` | nachos-unr22a/code/threads/semaphore.cc:67-71 | The retest of a lock's P: if the value is positive it falls by one and the thread is through P; if it is 0 the thread is asleep at the end of the queue; other threads, other locks and the ready lists stay as they are. |
| `KernelEffects.WaiterTakesLock` | nachos-unr22a/code/threads/lock.cc:49-51 | A woken thread that finds the unit becomes the owner of the lock. |
| `KernelEffects.AcquireEffect` | nachos-unr22a/code/threads/lock.cc:36-49 | Acquire raises the owner exactly if its priority is lower, saves its own priority unless one is saved, moves it to the end of its new list exactly if it is READY, and then passes P as `RetestEffect` says; it leaves the array of ready lists exactly if an owner at priority −1 is to be raised. |
| `KernelEffects.RecordEffect` | nachos-unr22a/code/threads/lock.cc:51-51 | Recording makes the thread the owner and changes nothing else. |
| `KernelEffects.ReleaseFields` | nachos-unr22a/code/threads/lock.cc:56-82 | Release gives the unit back, leaves no owner, and makes the first of the lock's sleepers READY at the end of its list, to test again; nothing else but the releasing thread's priorities changes. |
| `KernelEffects.YieldEffect` | nachos-unr22a/code/threads/thread.cc:223-239 | Yield changes nothing if nobody is READY; otherwise the head of the highest list runs and the yielding thread is READY behind everybody of its priority. |
| `KernelEffects.DispatchEffect` | nachos-unr22a/code/threads/thread.cc:255-270 | Sleep's loop makes the head of its list run and changes nothing else. |
| `KernelEffects.BlockEffect` | nachos-unr22a/code/threads/thread.cc:255-270 | Going to sleep elsewhere changes that thread alone. |
| `KernelEffects.WakeEffect` | nachos-unr22a/code/threads/scheduler.cc:58-67 | Waking puts the thread at the end of the list of its priority and changes nothing else. |
| `KernelEffects.ForkEffect` | nachos-unr22a/code/threads/thread.cc:99-115 | Fork adds one thread, READY at the priority asked for at the end of that list; it leaves the array exactly for a priority out of range. |
| `KernelEffects.NeverStuck` | nachos-unr22a/code/threads/lock.cc:36-82 | Short of a fault nothing but P and the code's own assertions stops a thread: each next step is possible once it runs, and somebody can run while a thread is READY. |
| `KernelEffects.FirstReadyFirstRun` | nachos-unr22a/code/threads/scheduler.cc:58-82 | On every run, of two threads READY at the same priority the processor is not given to the later one while the earlier one stays so, whatever is acquired, released or donated in between. |
| `KernelProofs.SetPriorityNearest` | nachos-unr22a/code/threads/thread.cc:286-300 | setPriority stores the number nearest to the one asked for among 0 to PRIORITY_SIZE, PRIORITY_SIZE itself included. |
| `DiskLayout.HeaderRoundTrip` | nachos-unr22a/code/filesys/raw_file_header.hh:17-23 | Decoding an encoded file header gives it back: 32 little-endian words fill a sector exactly. |
| `DiskLayout.BitsRoundTrip` | nachos-unr22a/code/lib/bitmap.cc:119-136 | Decoding the packed free map gives every bit back. |
| `DiskLayout.TableRoundTrip` | nachos-unr22a/code/filesys/directory.cc:57-73 | Decoding an encoded directory table gives every entry back. |
| `DiskLayout.CopyNameKey` | nachos-unr22a/code/filesys/directory.cc:128-129 | After the name was copied into its field the field is found under that name, whatever the field held before. |
| `DiskLayout.CopyNameBytes` | nachos-unr22a/code/filesys/directory.cc:128-129 | The nine bytes copied: the name up to its NUL, and zeros after it. |
| `DiskLayout.DivRoundUpLeast` | nachos-unr22a/code/filesys/file_header.cc:49-49 | The number of sectors is the least that holds the bytes. |
| `DiskBytes.DecodedHeader` | nachos-unr22a/code/filesys/raw_file_header.hh:17-23 | Byte by byte: the size is in bytes 0 to 3 of the sector, the number of sectors in 4 to 7, sector k in the four bytes from 8 + 4k, lowest byte first. |
| `DiskBytes.EncodedHeader` | nachos-unr22a/code/filesys/file_header.cc:86-90 | The same of the sector that is written. |
| `DiskBytes.DecodedTable` | nachos-unr22a/code/filesys/directory_entry.hh:19-27 | Byte by byte: entry i is in use exactly if byte 20i is not 0, its sector is in the four bytes from 20i + 4, lowest first, and its name in the ten bytes from 20i + 8. |
| `DiskBytes.EncodedTable` | nachos-unr22a/code/filesys/directory.cc:68-73 | The same of the table that is written. |
| `DiskBytes.DecodedBits` | nachos-unr22a/code/lib/bitmap.cc:41-65 | Bit s of the free map is bit s % 8 of byte s / 8. |
| `DiskBytes.BitOfWord` | nachos-unr22a/code/lib/bitmap.cc:41-65 | In the code's terms: it is bit s % 32 of the 32-bit word s / 32. |
| `OpenFiles.OpenFile.ReadAt` | nachos-unr22a/code/filesys/open_file.cc:107-141 | For every position, length and file size: the bytes of the clipped range, through any mix of sectors, as long as the disk has the sectors touched; a request whose end passes 2^32 is the overrun case, exactly. |
| `OpenFiles.ContentsByte` | nachos-unr22a/code/filesys/file_header.cc:97-102 | Byte k of a file is byte k % 128 of the sector that its header lists at k / 128. |
| `OpenFiles.OpenFile.WriteAt` | nachos-unr22a/code/filesys/open_file.cc:143-191 | The contents become the old bytes with the clipped range replaced, through aligned and unaligned first and last sectors; no sector outside the file changes. |
| `OpenFiles.OpenFile.Read` | nachos-unr22a/code/filesys/open_file.cc:61-69 | Successive reads deliver consecutive pieces and advance the position by what was read. |
| `OpenFiles.OpenFile.Write` | nachos-unr22a/code/filesys/open_file.cc:72-80 | Successive writes replace consecutive pieces and advance the position by what was written. |
| `OpenFiles.OpenFile.FillBuffer` | nachos-unr22a/code/filesys/open_file.cc:167-182 | The buffer written back holds the new file on every sector touched: partial first and last sectors are read first, then overlaid. |
| `OpenFiles.WrittenContents` | nachos-unr22a/code/filesys/open_file.cc:184-188 | Writing such a buffer back sector by sector makes the file's contents the new file. |
| `OpenFiles.ClipIff` | nachos-unr22a/code/filesys/open_file.cc:120-122 | The end-of-file test clips to the file if and only if position + length does not wrap at 2^32. |
| `OpenFiles.ClipCounterexample` | nachos-unr22a/code/filesys/open_file.cc:157-159 | A wrapping request is not clipped. |
| `Bitmaps.Bitmap.Find` | nachos-unr22a/code/lib/bitmap.cc:72-81 | Takes the first clear bit and sets it; nothing when all are set. |
| `Bitmaps.Bitmap.CountClear` | nachos-unr22a/code/lib/bitmap.cc:86-96 | Counts the clear bits. |
| `Bitmaps.ClearCountMark` | nachos-unr22a/code/lib/bitmap.cc:41-45 | Setting a clear bit lowers the count by exactly one. |
| `Bitmaps.ClearCountPositive` | nachos-unr22a/code/lib/bitmap.cc:72-96 | Find succeeds exactly when the count is positive. |
| `Directories.FileHeader.Allocate` | nachos-unr22a/code/filesys/file_header.cc:40-58 | All or nothing: succeeds exactly when the size fits a header and enough sectors are clear, and then lists the first clear sectors, in order, and marks exactly those. |
| `Directories.FileHeader.Deallocate` | nachos-unr22a/code/filesys/file_header.cc:64-72 | Clears exactly the listed sectors; its assertion holds throughout. |
| `Directories.AllocatedCount` | nachos-unr22a/code/filesys/file_header.cc:40-58 | Allocating n sectors lowers the number of clear ones by n. |
| `Directories.Directory.FindIndex` | nachos-unr22a/code/filesys/directory.cc:80-91 | The first entry in use under the name, if any. |
| `Directories.Directory.Find` | nachos-unr22a/code/filesys/directory.cc:99-108 | The header sector of that entry. |
| `Directories.Directory.Add` | nachos-unr22a/code/filesys/directory.cc:117-134 | Fails exactly when the name is present or no slot is free; otherwise fills the first free slot and no other. |
| `Directories.Directory.Remove` | nachos-unr22a/code/filesys/directory.cc:141-151 | Fails exactly when the name is absent; otherwise frees its slot and no other. |
| `Directories.Directory.FetchFrom` | nachos-unr22a/code/filesys/directory.cc:57-62 | As many bytes of the file as there are, up to the size of the table, replace the beginning of the table in memory, whatever the size of the file; the entries in memory are those the file's bytes spell out. |
| `Directories.Directory.WriteBack` | nachos-unr22a/code/filesys/directory.cc:68-73 | As much of the encoded table as fits replaces the beginning of the file, whose bytes then spell out the entries; no sector outside the file changes. |
| `Directories.LoadedEntries` | nachos-unr22a/code/filesys/directory.cc:57-62 | What is in memory after fetching, entry by entry: those the file's bytes spell out, and behind the end of the file the old ones. |
| `Directories.StoredEntries` | nachos-unr22a/code/filesys/directory.cc:68-73 | What the file's bytes spell out after a table was written over its beginning: its entries. |
| `Directories.FetchMap` | nachos-unr22a/code/lib/bitmap.cc:119-124 | A cleared bitmap with the bytes of the file, as far as they go, unpacked over it, bit by bit. |
| `Directories.WriteMap` | nachos-unr22a/code/lib/bitmap.cc:131-136 | As much of the packed bitmap as fits replaces the beginning of the file, bit by bit; no sector outside the file changes. |
| `Volumes.ReplaceSlot` | nachos-unr22a/code/filesys/file_system.cc:166-274 | Replacing one directory slot by claims disjoint from all others, with a matching free map, keeps the whole volume consistent. |
| `Volumes.OthersUnchanged` | nachos-unr22a/code/filesys/file_system.cc:166-274 | Such a replacement leaves every other name with the same bytes. |
| `Volumes.LookupBytes` | nachos-unr22a/code/filesys/file_system.cc:216-232 | A name denotes the file whose header the directory's bytes lead to: the first slot with a non-zero flag and that name gives the sector, and the words of that sector the header. |
| `Volumes.LookupLeads` | nachos-unr22a/code/filesys/file_system.cc:216-232 | Whenever a name denotes a file, they lead to a header. |
| `Volumes.AbsentBytes` | nachos-unr22a/code/filesys/directory.cc:80-91 | A name denotes nothing exactly when no slot with a non-zero flag spells it. |
| `Volumes.FreeBitBytes` | nachos-unr22a/code/lib/bitmap.cc:41-65 | A sector is marked exactly when bit s % 32 of word s / 32 of the free map's file is set. |
| `FileSystems.FormatConsistent` | nachos-unr22a/code/filesys/file_system.cc:69-133 | A formatted volume is consistent, although the free map and the directory are files it accounts for itself. |
| `FileSystems.CreateConsistent` | nachos-unr22a/code/filesys/file_system.cc:166-207 | Create leaves a consistent volume with one more file of the given size and every other name unchanged. |
| `FileSystems.RemoveConsistent` | nachos-unr22a/code/filesys/file_system.cc:246-274 | Remove leaves a consistent volume without that name and every other name unchanged. |
| `FileSystems.CreateRemoveRestores` | nachos-unr22a/code/filesys/file_system.cc:166-274 | Create followed by Remove of the same name restores the free map bit for bit, every name and every header. |
| `FileSystemClass.FileSystem.CreateThenRemove` | nachos-unr22a/code/filesys/file_system.cc:166-274 | The same for the two routines called one after the other. |
| `FileSystems.WriteConsistent` | nachos-unr22a/code/filesys/open_file.cc:143-191 | Writing into one file's sectors keeps the volume consistent and every other name unchanged. |
| `StaleHandles.StaleWriteIff` | nachos-unr22a/code/filesys/open_file.cc:143-189 | Through any handle on a user file of a consistent volume, live or stale: every write keeps every name's header and bytes if and only if no sector of the handle that holds bytes is a header in use or holds content bytes of a file in use. |
| `StaleHandles.StaleWriteDamages` | nachos-unr22a/code/filesys/open_file.cc:143-189 | If a sector is, a write of one different byte at its start changes a header or the bytes of some name. |
| `StaleHandles.DormantWrite` | nachos-unr22a/code/filesys/open_file.cc:143-189 | If none is, whatever is put into the handle's sectors leaves the volume consistent with the same names, headers, bytes and free map. |
| `StaleHandles.WriteDormant` | nachos-unr22a/code/filesys/open_file.cc:71-80 | The same, of the Write routine on a mounted volume. |
| `StaleHandles.RemovedIsDormant` | nachos-unr22a/code/filesys/file_system.cc:246-274 | Just after Remove, no sector of the removed file's handle shows anywhere. |
| `StaleHandles.CreateKeepsDormantIff` | nachos-unr22a/code/filesys/file_system.cc:166-207 | Create keeps such a handle harmless if and only if it gives none of its sectors out, be it as the new header or for bytes of the new file. |
| `StaleHandles.AllocatedUnique` | nachos-unr22a/code/filesys/file_header.cc:40-58 | What first-free allocation hands out is determined by the free map and the number of sectors. |
| `StaleHandles.Orphan` | nachos-unr22a/code/filesys/file_system.cc:166-274 | Create, Open and Remove in sequence: succeeds exactly when Create can, restores the free map and all names, and leaves a handle that is harmless for now. |
| `StaleHandles.WriteAfterRemove` | nachos-unr22a/code/filesys/file_system.cc:166-274 | Create, Open, Remove, Create under another name, Write through the old handle: on every consistent volume with room, the second file is given the first one's data sectors, and the bytes written turn up at its beginning, with every other name as it was. |
| `FileSystems.CreateAccounts` | nachos-unr22a/code/filesys/file_system.cc:166-207 | Create takes exactly 1 + ceil(size/128) sectors. |
| `FileSystems.RemoveAccounts` | nachos-unr22a/code/filesys/file_system.cc:246-274 | Remove gives back exactly 1 + ceil(size/128) sectors. |
| `FileSystemClass.FileSystem.Format` | nachos-unr22a/code/filesys/file_system.cc:69-133 | Formatting any disk gives a consistent volume with no files and all sectors free but five; the directory keeps whatever else was in memory. |
| `FileSystemClass.FileSystem.Create` | nachos-unr22a/code/filesys/file_system.cc:166-207 | Succeeds exactly when the name is absent, a slot is free and 1 + ceil(size/128) sectors are clear; keeps consistency; on failure the disk is untouched. |
| `FileSystemClass.FileSystem.Open` | nachos-unr22a/code/filesys/file_system.cc:216-232 | Finds a file exactly when the name is present; the header kept in memory and the bytes are those of that name; it is the header that the directory's own bytes lead to, and absent is exactly a name that no slot in use spells there. |
| `FileSystemClass.FileSystem.Remove` | nachos-unr22a/code/filesys/file_system.cc:246-274 | Succeeds exactly when the name is present; frees its slot and sectors, keeps consistency and every other name; on failure the disk is untouched. |
| `FileSystemClass.FileSystem.Reclaim` | nachos-unr22a/code/filesys/file_system.cc:258-265 | The free map with exactly the file's header and data sectors cleared; Deallocate's assertions hold. |
| `FileSystemClass.FileSystem.CheckVolume` | nachos-unr22a/code/filesys/file_system.cc:408-460 | On a consistent volume whose system files have one and two sectors, Check never crashes and passes exactly when every entry is accepted. |
| `FileSystemClass.FullFileIsRejected` | nachos-unr22a/code/filesys/file_system.cc:332-334 | A file Create accepts with all 30 sectors in use is rejected by Check. |
| `FileSystemClass.LongNameIsRejected` | nachos-unr22a/code/filesys/file_system.cc:371-374 | So is a file with a name of nine characters in a slot whose last name byte was not zero. |
| `FileRuns.FormatAndRun` | nachos-unr22a/code/filesys/file_system.cc:69-274 | From any disk, format and any run of creations, removals, openings and of seeks, reads and writes through handles held open across the other operations refine a map from names to bytes, a free-sector counter and a table of names and positions: same successes, same bytes read and stored, same counter at every point. |
| `FileRuns.Run` | nachos-unr22a/code/filesys/file_system.cc:166-274 | The same for a run on any consistent volume whose files use the sectors their sizes call for. |
| `FileRuns.Perform` | nachos-unr22a/code/filesys/file_system.cc:166-274 | One operation is one step of that model, and every header held in memory is still the one on the disk, as long as its file has not been removed. |
| `FileRuns.WriteRefines` | nachos-unr22a/code/filesys/open_file.cc:72-80 | A write through a handle replaces the bytes of the file behind it from its position on, moves that handle only, and leaves all other files and all headers in memory valid. |
| `FileRuns.RemoveRefines` | nachos-unr22a/code/filesys/file_system.cc:246-274 | Removing a file gives back its sectors, closes the handles on it and keeps every other handle's header valid. |
| `FileRuns.FormatRunCheck` | nachos-unr22a/code/filesys/file_system.cc:408-460 | After format and any run Check never crashes; it passes exactly when every file has at most 29 sectors and a name that is short or stands before a zero byte left over from formatting; in particular if every Create had at most 8 characters and 29 sectors. |
| `FileRuns.SlotFreeIff` | nachos-unr22a/code/filesys/directory.cc:117-134 | A slot is free exactly when the map has fewer than ten names. |
| `FileRuns.OutcomesDetermined` | nachos-unr22a/code/filesys/file_system.cc:166-274 | Which operations of a run succeed, and how many bytes each transfers, depends only on names and sizes, never on bytes on the disk. |
| `FileChecks.Check` | nachos-unr22a/code/filesys/file_system.cc:408-460 | On any disk at all, with system files of any size: crashes exactly when a header lists more sectors than it has room for or a sector that is needed does not exist; passes exactly when the free map and the directory as read are sound (disjoint sectors, free map equal to their union, distinct names, sizes covered) and within the checker's stricter limits. |
| `FileChecks.MountAndCheck` | nachos-unr22a/code/filesys/file_system.cc:126-132 | The same for mounting and checking; what passes is a consistent volume if and only if its directory file has 200 bytes. |
| `FileChecks.PassedIsConsistentIff` | nachos-unr22a/code/filesys/file_system.cc:427-439 | Given that a volume passes, it is consistent if and only if its directory file has 200 bytes, whatever was in memory; at that size passing is being consistent and accepted. |
| `FileChecks.UnsizedPasses` | nachos-unr22a/code/filesys/file_system.cc:436-446 | A volume with a directory file of no bytes that passes and is not consistent. |
| `FileChecks.UnsizedImage` | nachos-unr22a/code/filesys/file_system.cc:436-446 | Such a volume is had from any disk by writing two headers and a bitmap. |
| `FileChecks.TerminatedIff` | nachos-unr22a/code/filesys/file_system.cc:371-374 | A stored name passes the length test exactly when it is short or the last byte of its field is zero. |
| `FileChecks.CreatedTerminatedIff` | nachos-unr22a/code/filesys/directory.cc:128-129 | The same in terms of the name given to Create and of what its slot held before. |
| `FileChecks.UnterminatedExample` | nachos-unr22a/code/filesys/directory.cc:128-129 | A name of nine characters that fails the test. |
| `FileChecks.CheckSector` | nachos-unr22a/code/filesys/file_system.cc:287-319 | Reports a sector out of range or already marked, and marks it otherwise. |
| `FileChecks.CheckFileHeader` | nachos-unr22a/code/filesys/file_system.cc:321-340 | Reports exactly a size not covered, 30 or more sectors, or a sector out of range, repeated or already marked. |
| `FileChecks.CheckBitmaps` | nachos-unr22a/code/filesys/file_system.cc:342-353 | Reports exactly a difference between the maps. |
| `FileChecks.CheckDirectory` | nachos-unr22a/code/filesys/file_system.cc:355-406 | Reports exactly a name too long or repeated or a bad header or sector among the entries in use, and marks all their sectors. |
| `FileChecks.SilentIff` | nachos-unr22a/code/filesys/file_system.cc:287-460 | The staged shadow-bitmap tests are all silent if and only if what was read is sound and acceptable. |
| `FileChecks.GroupsApartIff` | nachos-unr22a/code/filesys/file_system.cc:287-460 | All claims listed one after the other are free of repetitions if and only if the groups are proper and pairwise disjoint. |
| `Lists.List.Append` | nachos-unr22a/code/lib/list.hh:137-151 | The heap list's contents grow by the item at the end. |
| `Lists.List.SortedInsert` | nachos-unr22a/code/lib/list.hh:271-295 | The item lands before the first larger key, through all four link cases. |
| `Lists.List.SortedPop` | nachos-unr22a/code/lib/list.hh:306-329 | Returns and unlinks the first element; nothing on an empty list. |
| `Lists.List.Has` | nachos-unr22a/code/lib/list.hh:241-251 | Tells whether the item is in the list. |
| `Lists.List.Remove` | nachos-unr22a/code/lib/list.hh:202-224 | Unlinks the first element with that item, repairing `first` and `last`; the rest keeps its order. |
| `Lists.InsertedSorted` | nachos-unr22a/code/lib/list.hh:271-295 | Insertion keeps a sorted list sorted. |
| `Lists.InsertedAdds` | nachos-unr22a/code/lib/list.hh:271-295 | Insertion adds exactly one element. |
| `Lists.InsertedPlace` | nachos-unr22a/code/lib/list.hh:271-295 | The item goes behind everything with a key that is not larger, and the others keep their order. |
| `Interrupts.Interrupt.OneTick` | nachos-unr22a/code/machine/interrupt.cc:146-172 | Up to the point where the current thread may have to yield: time has moved by one tick of the mode, exactly the handlers due by then were called, in order, everything left is strictly in the future, exactly what was pending and what the handlers asked for is called or pending, and the thread yields exactly if a handler, or somebody before, asked for it. |
| `Interrupts.Interrupt.Drain` | nachos-unr22a/code/machine/interrupt.cc:164-165 | The draining loop terminates, because handlers schedule only in the future, and calls exactly what is due, in order; a due interrupt is left if and only if the machine idles, everything pending is due, the last of it is the timer and no handler called before schedules anything, and then it is that timer. |
| `PendingQueues.DrainsEnd` | nachos-unr22a/code/machine/interrupt.cc:164-165 | The end of any sequence of checks at one time: that same if-and-only-if, from the queue at the beginning. |
| `PendingQueues.LeavesTimerStep` | nachos-unr22a/code/machine/interrupt.cc:308-355 | Calling a handler does not change whether the timer will be left behind. |
| `PendingQueues.CallEffect` | nachos-unr22a/code/machine/interrupt.cc:308-355 | Calling the first handler keeps the queue in order, leaves the other due interrupts at its head, adds exactly what the handler asked for, loses nothing and shrinks what is due. |
| `PendingQueues.ScheduledExactly` | nachos-unr22a/code/machine/interrupt.cc:271-298 | After requests made at one time, pending is what was pending and, for each request, its handler and kind as much later as it asked: nothing else. |
| `PendingQueues.ReachedIsFirst` | nachos-unr22a/code/machine/interrupt.cc:308-330 | The time idling jumps to is the first from now on at which something pending is due. |
| `Interrupts.TimerIsLeft` | nachos-unr22a/code/machine/interrupt.cc:334-338 | A device and the timer pending for tick 5: idling calls the device's handler and leaves the timer due at tick 5. |
| `Interrupts.Interrupt.CheckIfDue` | nachos-unr22a/code/machine/interrupt.cc:308-355 | Fires exactly the first pending interrupt, and that only if due and not the lone timer of an idle machine; moves the clock only when asked and exactly to it; what is pending afterwards is stated in both cases. |
| `Interrupts.Interrupt.Idle` | nachos-unr22a/code/machine/interrupt.cc:196-219 | Jumps to the next interrupt; halts exactly when there is none or only the timer is left; otherwise drains as `Drain` does. |
| `Interrupts.Interrupt.SetLevel` | nachos-unr22a/code/machine/interrupt.cc:113-128 | Enabling disabled interrupts is one tick, up to the same point; any other change fires nothing and changes nothing else. |
| `PendingQueues.ScheduledExtends` | nachos-unr22a/code/machine/interrupt.cc:271-298 | Whatever handlers schedule, what was due stays at the head of the queue, unchanged. |
| `PendingQueues.FireKeepsUpcoming` | nachos-unr22a/code/machine/interrupt.cc:308-355 | Calling the first handler keeps the list of handlers called or due and shrinks what is due: the measure of the loop. |
| `DiskTimes.DiskHead.ComputeLatency` | nachos-unr22a/code/machine/disk.cc:231-254 | The track buffer serves a read exactly when, on the same track, the whole sector has passed since the head arrived; otherwise the request ends exactly when the sector has just passed, at the earliest such time after the seek. |
| `DiskTimes.DiskHead.Request` | nachos-unr22a/code/machine/disk.cc:117-161 | Every request, buffered or not, completes strictly later and only after the whole sector has gone by since the head reached its track; the buffer's start is a sector boundary no later than the next request. |
| `DiskTimes.DiskHead.HandleInterrupt` | nachos-unr22a/code/machine/disk.cc:165-170 | The completion ends the request; the buffer still started no later than now. |
| `DiskTimes.DiskHead.TimeToSeek` | nachos-unr22a/code/machine/disk.cc:185-202 | Seek time by track distance, and the wait that reaches the next sector boundary. |
| `DiskTimes.DiskHead.UpdateLast` | nachos-unr22a/code/machine/disk.cc:259-270 | The buffer's start is the first boundary after the head's arrival. |
| `DiskTimes.FirstPassAfter` | nachos-unr22a/code/machine/disk.cc:204-213 | From a boundary, the first pass of a sector ends after ModuloDiff other sectors and itself. |
| `DiskTimes.SeekPerTrack` | nachos-unr22a/code/machine/disk.cc:185-202 | Each track further away costs one seek unit more, in either direction, and none on the same track. |
| `DiskTimes.ModuloDiffReaches` | nachos-unr22a/code/machine/disk.cc:204-213 | ModuloDiff sectors after one sector comes the other, modulo the track. |
| `DiskTimes.BufferIff` | nachos-unr22a/code/machine/disk.cc:241-243 | The code's comparison holds if and only if a whole pass of the sector lies between arrival and now, rounded up. |
| `Mmus.Mmu.Translate` | nachos-unr22a/code/machine/mmu.cc:227-280 | Succeeds exactly when the access is aligned, mapped, permitted and its frame exists, and raises each exception exactly in its own case; the final bounds assertion holds whatever the table contains; only the usage bits of that page change. |
| `Mmus.Mmu.RetrievePageEntry` | nachos-unr22a/code/machine/mmu.cc:172-213 | Distinguishes a page beyond the table from an invalid one. |
| `Mmus.Mmu.ReadMem` | nachos-unr22a/code/machine/mmu.cc:91-127 | The little-endian value at the translated address: signed byte, unsigned halfword, signed word. |
| `Mmus.Mmu.WriteMem` | nachos-unr22a/code/machine/mmu.cc:138-170 | Memory holds the value's bytes, lowest first, at the translated address and is otherwise as it was, or not at all on an exception. |
| `Mmus.ReadBack` | nachos-unr22a/code/machine/mmu.cc:91-170 | A value written reads back, cut to its size. |
| `Mmus.WordThenPart` | nachos-unr22a/code/machine/mmu.cc:91-170 | A word was stored and a byte or halfword of it is loaded: the value shifted right by as many bytes, cut to the size of the load. |
| `Mmus.HalfThenByte` | nachos-unr22a/code/machine/mmu.cc:91-170 | The same of a halfword and its bytes. |
| `Mmus.BytesThenWord` | nachos-unr22a/code/machine/mmu.cc:91-170 | Four bytes were stored and the word or the lower halfword is loaded: the bytes are its digits to the base 256, the lowest at the lowest address. |
| `Mmus.HalvesThenWord` | nachos-unr22a/code/machine/mmu.cc:91-170 | The same of two halfwords. |
| `UserPrograms.StoreThenLoad` | nachos-unr22a/code/machine/mmu.cc:91-170 | A store followed by a load of the same size at the same address returns the value, cut to its size. |
| `AddressSpaces.SeparateAppend` | nachos-unr22a/code/userprog/address_space.cc:43-53 | Allocating first-free frames for a new space keeps all frames of all spaces distinct and the bitmap equal to their union. |
| `AddressSpaces.SeparateDrop` | nachos-unr22a/code/userprog/address_space.cc:98-103 | Freeing a space's frames keeps the same for the remaining spaces. |
| `AddressSpaces.WriteOwn` | nachos-unr22a/code/machine/mmu.cc:138-170 | A write inside a page changes exactly that range of the space's own memory. |
| `AddressSpaces.WriteOther` | nachos-unr22a/code/machine/mmu.cc:138-170 | The same write leaves every other space's memory as it was. |
| `AddressSpaces.LoadedOwn` | nachos-unr22a/code/userprog/address_space.cc:66-92 | Loading a segment byte by byte through the page table puts it, byte by byte, into the memory the space sees. |
| `AddressSpaces.PlacedIsSplice` | nachos-unr22a/code/userprog/address_space.cc:66-92 | Byte by byte is all at once: the segment replaces one contiguous range. |
| `AddressSpaces.LoadedOther` | nachos-unr22a/code/userprog/address_space.cc:66-92 | Loading leaves every other space's memory as it was. |
| `AddressSpaces.FillDisturbsIff` | nachos-unr22a/code/userprog/address_space.cc:60-60 | The fill disturbs a space if and only if it holds frame 0 and some byte there differs from the fill value. |
| `UserPrograms.AddressSpace.constructor` | nachos-unr22a/code/userprog/address_space.cc:19-93 | Takes the first free frames in order; the loader stays inside its page table exactly when the segments lie in the space, and memory is then as the fills and the two loads make it. |
| `UserPrograms.NumPagesLeast` | nachos-unr22a/code/userprog/address_space.cc:27-29 | As many pages as hold the program and its stack, and no more, with the wrap-around of the 32-bit sum. |
| `UserPrograms.SegmentsFitIff` | nachos-unr22a/code/userprog/address_space.cc:66-92 | The loader stays inside the page table exactly when every byte of both segments lies in a page it has. |
| `UserPrograms.SegmentBytes` | nachos-unr22a/code/userprog/address_space.cc:66-92 | Every byte of the loaded space: the data segment, the code segment where the data segment does not lie, and elsewhere what was there. |
| `UserPrograms.AddressSpace.Release` | nachos-unr22a/code/userprog/address_space.cc:98-103 | Clears exactly the space's frames. |
| `UserPrograms.Machine.Create` | nachos-unr22a/code/userprog/address_space.cc:19-93 | For every executable: refused exactly when too few frames are free, wild exactly when a segment lies outside the space, otherwise created; frames stay separate, and what every program then sees is stated. |
| `UserPrograms.Machine.Destroy` | nachos-unr22a/code/userprog/address_space.cc:98-103 | The other programs see what they saw; frames stay separate. |
| `UserPrograms.Machine.Read` | nachos-unr22a/code/machine/mmu.cc:91-127 | A load succeeds exactly when aligned and inside the space, and returns the program's own bytes, lowest first: a signed byte, an unsigned halfword or a signed word. |
| `UserPrograms.Machine.Write` | nachos-unr22a/code/machine/mmu.cc:138-170 | A store succeeds exactly when aligned and inside the space, and leaves the value's bytes, lowest first, in that range of that program's memory and changes nothing else. |
| `UserPrograms.CreationIsolatedIff` | nachos-unr22a/code/userprog/address_space.cc:57-60 | Creating a program leaves all others undisturbed if and only if frame 0 is free or already holds only the number of the last frame allocated. |
| `MachineRuns.RunIsolated` | nachos-unr22a/code/userprog/address_space.cc:19-103 | Over any sequence of creations, destructions, loads and stores, a program that is not destroyed keeps its frames, and its memory is what was there at first and its own stores since: all of it while nobody is created, otherwise all of it outside frame 0. |
| `MachineRuns.LoadIsOwn` | nachos-unr22a/code/machine/mmu.cc:91-127 | On such a run every load that succeeds returns the value of the bytes that the program itself stored there last, or that were there at first, unless it lies in frame 0 and somebody was created. |
| `MachineRuns.Run` | nachos-unr22a/code/userprog/address_space.cc:19-103 | Every sequence of operations on a new machine, its page tables, bitmap and physical memory, is a run of the list of private memories, and so every program is isolated as above. |
| `MachineRuns.Perform` | nachos-unr22a/code/userprog/address_space.cc:19-103 | Each operation on the machine is exactly one step on the list of private memories. |
| `UserPrograms.CreationDisturbs` | nachos-unr22a/code/userprog/address_space.cc:43-60 | Any two programs created one after the other on an empty machine, the first without segments: whatever memory held, the second one's creation changes what the first sees. |
| `AddressSpaces.NextFrames` | nachos-unr22a/code/userprog/address_space.cc:47-49 | When the lowest frames are taken, the next ones are handed out in order. |
| `UserPrograms.StartsZeroIff` | nachos-unr22a/code/userprog/address_space.cc:57-60 | A new program's memory starts out zero, as intended, if and only if its frames were zero already and frame 0 is not among several. |
| `Args.PassArgs` | nachos-unr22a/code/userprog/args.cc:18-104 | For any list of arguments, whatever their buffers hold behind the NUL: writing them fails exactly when there are 32 or more, or the array or what is copied of a string does not lie in memory; otherwise reading the array back gives the same strings if and only if the array is not at 0 and each string has no newline, has fewer than 128 bytes, is empty or finds a zero byte already in memory where its terminator belongs, and is not changed by what later, empty arguments leave over. |
| `Args.RoundTripIff` | nachos-unr22a/code/userprog/args.cc:18-104 | That if-and-only-if, for strings laid out on a stack and any result of reading them. |
| `Args.BaseAligned` | nachos-unr22a/code/userprog/args.cc:94-95 | The array of pointers starts at the highest aligned address with room for it and its null. |
| `Args.WriteStringToUser` | nachos-unr22a/code/userprog/transfer.cc:68-79 | Copies the first byte and what follows up to the next NUL, which it never writes; fails exactly at address 0 or where memory ends. |
| `Args.WriteArgs` | nachos-unr22a/code/userprog/args.cc:69-104 | The copies one below the other, each with room for its string and a terminator and the later one on top where they overlap, then an aligned array of the addresses and a null; no other byte changes. |
| `Args.SaveArgs` | nachos-unr22a/code/userprog/args.cc:18-66 | From any address in any memory: a crash at address 0; too many exactly when 32 pointers are not null; otherwise every string behind them, or a crash exactly when one cannot be read. |
| `Args.CountFromIff` | nachos-unr22a/code/userprog/args.cc:18-40 | The count is the number of readable pointers before the first null; 32 are too many; a pointer outside memory or unaligned stops it. |
| `Args.ReadStringFromUser` | nachos-unr22a/code/userprog/transfer.cc:31-46 | The bytes up to the first NUL or newline, that byte included, or as many as were asked for. |
| `Args.StringFromShape` | nachos-unr22a/code/userprog/transfer.cc:31-46 | Exactly the bytes from the address up to the first NUL or newline, or the maximum; none exactly where memory ends first. |
| `Args.CopiedFitsIff` | nachos-unr22a/code/userprog/transfer.cc:68-79 | What is copied stays in the room left for it exactly when the string is not empty or its buffer holds a second NUL. |
| `Args.UnterminatedArgument` | nachos-unr22a/code/userprog/transfer.cc:68-79 | On a stack that holds no zero byte an argument comes back if and only if it is empty and nothing ran over it. |
| `Args.TidyReturnsIff` | nachos-unr22a/code/userprog/transfer.cc:68-79 | When no later argument leaves bytes over, an argument comes back if and only if it has no newline, is short enough and is empty or finds its zero. |
| `Args.LeftoverDamages` | nachos-unr22a/code/userprog/transfer.cc:68-79 | Whatever memory held, an argument does not come back when the next one is empty and the byte behind its NUL differs from the argument's first. |
| `Args.PassLeftover` | nachos-unr22a/code/userprog/args.cc:69-104 | The run: a one-byte argument and an empty one with another byte behind its NUL, written and read back on any stack with room, do not return as they were. |
| `Args.StackedByte` | nachos-unr22a/code/userprog/args.cc:69-104 | Every byte of every string's room, in the end: the string's own byte, or what was in memory for the terminator, unless a later copy ran over it. |

## Left out

- Host input and output, console, network, debugger, user programs, and the simulator's
  command line, printing and hit ratio.
- SWITCH, stacks, and preemption from outside (`-p`), which could switch inside the donation
  block; the donation results are about runs without it.
- condition.cc, synch_list.hh, channel.cc and synch_disk.cc are transition systems on values,
  with their locks and semaphores as the atomic operations that `Semaphores.StepIsAtomic`
  and `KernelProofs.MutualExclusion` justify; they are not objects that call each other.
- Condition::Broadcast, and SynchList::Apply.
- Threads that change their own priority with `setPriority`, which may set PRIORITY_SIZE
  itself; Join and Finish.
- List's `size` counter, which SortedInsert does not keep, and Table, which depends on it.
- Interrupts.Interrupt.CheckIfDue: claims time order only; an interrupt put back goes behind
  its equals.
- Interrupts.Interrupt.OneTick: ends at the Yield of interrupt.cc:166-172. What other threads do while
  the current one has yielded, and the mode restored afterwards, are not part of it.
- Interrupts.Interrupt.SetLevel: ends at the same point as OneTick.
- RestartTicks, and tick counts of 2^31 and beyond.
- Handlers are arbitrary functions that schedule interrupts and may ask for a switch; what
  they do to other devices is not part of the interrupt model.
- DiskTimes.DiskHead.HandleInterrupt: does not model the call of the device driver's handler,
  which `SynchDisks` has as a step of its own.
- Mmus.Mmu.RetrievePageEntry: does not model the TLB branch, taken when there is one.
- The rest of the processor's instructions and the system-call handler.
- UserPrograms.Machine.Create: says nothing more of a machine on which the loader went wild.
- MachineRuns.Run: executables with a segment outside the space are not part of a run, because
  the loader then writes through whatever lies behind the page table.
- Args.WriteArgs: buffers without a NUL behind their first byte, which the code reads past, are not
  covered.  User memory is the flat array that `UserPrograms.Machine.Read` and `Write` give.
- Args.PassArgs: the same.
- Bitmap words in memory: the bitmap is an array of bits there; only its packing on disk is
  modelled.
- Padding bytes of directory entries, which are written as zero.
- Concurrent use of the file system, which the code itself rules out.
- FileRuns.Run: transfers whose end passes 2^32, where the code leaves its buffers, initial sizes
  of MAX_FILE_SIZE and more, which Create asserts against, and transfers through a handle whose
  file was removed are not part of a run; `OpenFiles.ClipIff` and `StaleHandles.StaleWriteIff` say
  exactly when they go wrong. Closing a file only drops the object.
- FileRuns.FormatAndRun: the same.
