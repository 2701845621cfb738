# A verified model of the kernel's core

This project models the logic of a small teaching kernel written in C (file system, thread scheduling, memory
allocation and the library code below them) and proves what that logic promises.  Objects the C code updates in place are
classes here, its loops are loops, and every method is proved against a function or property of plain values, about which the
larger results are then stated.

The main results:

- **Files** (`Inode`, on `Sectors` and `FreeMap`).  For every run of reads, writes and creations, a file with its two levels of
  index tables behaves as a flat byte sequence, other files are untouched, and no sector ever serves two purposes.  Extension
  fails exactly when too few sectors are free, and then changes nothing.  The free map's own file always holds the free map.
- **Files over the cache** (`Storage`, on `WriteLog`).  The writes a run of file operations issues, those of the free map and of
  inodes included, replayed on the real cache among any reads and flushes, lead to the same disk: if each write hits or covers;
  and, when files and writes are of whole sectors, in any case but for the bytes after the end of the free map in its last
  sector.  When those bytes are wrong is stated exactly.
- **Directories** (`Directory`, on `Inode`).  A directory is a partial map from names to sectors, through the bytes of its file.
- **Sector cache** (`Cache`).  For every run in which each write hits or covers the sector, the cache behaves as an array of
  sectors, and a flush puts that array on the disk.  No other write is right for every content of the disk.
- **List sort** (`List`, `NaturalMerge`).  The natural merge sort of the doubly linked list, by in-place splices, gives the one
  stable sorted permutation; each pass halves the number of runs, so that 2^k runs take at most k passes.
- **Priority donation** (`Donation`, `Locks`).  Which step leaves every thread's priority equal to the largest of its own and
  of those waiting for its locks: if and only if a condition that can be checked beforehand.
- **Feedback scheduling** (`Mlfqs`, `FixedPoint`) and **round robin** (`RoundRobin`).  Bounds, accuracy and absence of overflow
  for the load average, CPU times and priorities over every run from boot; the order in which threads of one priority take
  turns, with none lost.
- **Memory** (`Malloc`, `Palloc`, `Bitmap`).  Live blocks and page groups never overlap, over every run; a page goes back
  exactly when its last block does.
- **Library** (`Arithmetic`, `CDivision`, `Hash`, `Sorting`, `Stdio`, `Format`, `Ustar`).  64-bit division from a 64/32-bit divide
  instruction, the hash table as a set, heap sort, printf conversions parsed and numbers formatted and parsed, archive headers.

Where the code does not do what it is meant to, the code is modelled as it is, with an input that shows it and the exact condition
under which it does.  `dafny verify dfyconfig.toml` checks everything.

## How the code is rendered

- A thread, lock, page or hash element is a number where only its identity matters; list elements in `List` are objects.
- Integers are unbounded, and the C code's wrapping or overflow is written out where it can happen (`Arithmetic`, `Malloc.PageCount`,
  `Mlfqs.NoOverflow`, `Stdio.Atoi`, `Ustar.Unsigned`).
- Memory that may run out, an inode that may not open, leftover bytes of a buffer and which thread runs are parameters.
- Operations run one at a time.  Those of `Locks` run with interrupts off in the code; `Donation.ReleaseUndisturbed` shows that
  `sema_up` does not hand over the processor inside `lock_release`, provided no ready thread outranks the running one.
- `Inode` works on the disk as if every sector access went straight to it, and logs its writes in the order in which the
  code issues them.  `Cache` and `Storage` say when the cache makes that true: writes of parts of sectors need their sector to be in the cache already.

Where comments and code disagree, the model follows the code:

- The cache's queue is called least-recently-used, but `lru_update` returns at once while the table lock is held, as it is whenever a
  victim is chosen, so the queue is first-in, first-out.
- `malloc.c` says blocks up to 2 kB come from arenas; its loop stops before 2 kB, so blocks above 1 kB get pages of their own.
- `bitmap_scan_and_flip` is said to return 0 for a count of zero; it returns the starting index.
- Section 7.19.6.1 of C99 lets a precision ask for any number of digits; `format_integer` gives at most 63, and counts the commas
  it inserts as digits.  The same section lets `-` override `0`; a negative `*` width sets `-` after `0` was considered, and the
  number is then padded on both sides.
- `realloc` is to copy what fits the new block; for a size above 2^32 - 12 the new block is a single
  page, and more than that may be copied.
- A priority is to be rounded down; the penalty of negative CPU time comes out one too large, so that such a thread can have a lower
  priority than one with none.

## Model

| member | source | states |
|---|---|---|
| `Sectors.DecodeEncode` | src/filesys/inode.c:173-203 | A table of 128 sector numbers written to a sector as bytes reads back unchanged. |
| `Sectors.RowAppend` | src/filesys/inode.c:178-203 | Appending a sector to a file's list changes only the table row it falls into, and a row that begins is empty. |
| `FreeMap.ImageRoundTrip` | src/lib/kernel/bitmap.c:330-360 | A bitmap written to a file as bytes is read back, whatever was in the unused bits of its last word. |
| `FreeMap.TakeTake` | src/filesys/free-map.c:39-49 | Taking the first free sectors twice is taking them at once. |
| `FreeMap.TakeOne` | src/filesys/free-map.c:39-49 | Taking one marks the first free sector and no other. |
| `FreeMap.CountTake` | src/filesys/free-map.c:39-49 | Taking n leaves n fewer free. |
| `Inode.NewSectorsExact` | src/filesys/inode.c:93-106 | The index arithmetic of an extension asks for exactly the missing data sectors plus the missing tables, for every length including zero. |
| `Inode.LastIndex` | src/filesys/inode.c:80-84 | The two indices of the last byte, combined, are the number of sectors in use less one, also when the length is zero and the offset negative. |
| `Inode.FillDone` | src/filesys/inode.c:178-203 | When the loop over the new sectors ends, the tables written back hold the old list of sectors followed by the new ones. |
| `Inode.ExtendIndexStep` | src/filesys/inode.c:178-199 | One turn of the loop advances the pair of indices as the number of sectors entered advances, tables included. |
| `Inode.ExtendIndexDone` | src/filesys/inode.c:178-203 | The loop stops at the final pair of indices having used up exactly the sectors allocated. |
| `Inode.VolumeGrown` | src/filesys/inode.c:87-209 | A grown file reads as before followed by zeros, its index entries keep their places, and every other file is as it was. |
| `Inode.SectorWritten` | src/filesys/inode.c:530-584 | Overwriting part of the sector of one byte range changes that range of that file and no byte of any file besides. |
| `Inode.SectorRead` | src/filesys/inode.c:487-525 | The part of a sector found through the tables is the slice of the file's contents. |
| `Inode.CreatedOk` | src/filesys/inode.c:294-357 | A new root, table and data sector make a file without breaking the volume's invariant. |
| `Inode.CreateUndone` | src/filesys/inode.c:294-357 | Giving up a creation leaves every file, every slot and the free map as they were; only the three sectors' contents differ. |
| `Inode.HeaderMeans` | src/filesys/inode.c:18-28 | The fields of an inode are read back from the sector it was written to. |
| `Inode.SectorsDisjoint` | src/filesys/inode.c:87-209 | All data sectors, tables and roots of all files are pairwise different, differ from every file's header, and none of them is sector 0. |
| `Inode.AbstractUpdate` | src/filesys/inode.c:530-584 | A change of one file's contents is that one update of the map from files to byte sequences; saving the free map changes no other file. |
| `Inode.AbstractNew` | src/filesys/filesys.c:130-134 | A new file is one more in that map. |
| `Inode.Volume.constructor` | src/filesys/free-map.c:12-18 | On a fresh volume only the sectors of the free map and the root directory are taken, so sector 0 is never handed out. |
| `Inode.Volume.ByteToSector` | src/filesys/inode.c:221-256 | The two table lookups find the sector at that place of the file's list, or report that there is none. |
| `Inode.Volume.ReadAt` | src/filesys/inode.c:487-525 | A read gives exactly the bytes of the contents from the offset on, as many as asked for or as there are up to the end, for every request whose offsets have a place in the tables: the first one, and the end of the file if it is reached early. |
| `Inode.Volume.TakeFree` | src/filesys/inode.c:122-140 | Exactly the first so many sectors that were free become marked. |
| `Inode.Volume.FillTables` | src/filesys/inode.c:173-203 | The extension loop enters all the new sectors behind the old ones, through new tables where needed. |
| `Inode.Volume.ExtendFile` | src/filesys/inode.c:87-209 | Fails if and only if too few sectors are free, and then changes nothing; otherwise marks exactly the first sectors needed and saves the map, which never fails, keeps every old entry and appends zeros. It writes whole sectors only, but for the end of the free map. |
| `Inode.Volume.TakeMarked` | src/filesys/inode.c:122-153 | The sectors are marked and the map saved: its file holds it, and all other files are as they were. |
| `Inode.Volume.SaveMap` | src/filesys/free-map.c:39-49 | Whatever marks changed, the map's file holds the map afterwards and all other files are as they were; nothing happens before that file is open. |
| `Inode.Volume.WriteMap` | src/lib/kernel/bitmap.c:353-360 | Writing the map always succeeds, does not grow its file, and writes whole sectors but for the last part if it does not fill one. |
| `Inode.Volume.ReadMap` | src/lib/kernel/bitmap.c:338-351 | In every valid state the map read back from its file is the map. |
| `Inode.Volume.WriteAt` | src/filesys/inode.c:530-584 | While writes are denied nothing is written and nothing changes. Otherwise each byte is the new one where it was written, the old one elsewhere and zero in a gap; all is written if there are sectors enough to grow, up to the old end if not; exactly the first sectors needed are taken, and the free map is saved. If file, data and offset are whole sectors, it writes whole sectors only, but for the end of the free map. |
| `Inode.IdealWrites` | src/filesys/inode.c:530-584 | What the flat write function means, byte by byte: what is written, the new length, and the sectors taken. |
| `Inode.ReadsBack` | src/filesys/inode.c:487-584 | In the flat view, what was written in full is read back, and no other file changes. |
| `Inode.DeniedWrite` | src/filesys/inode.c:538-539 | In the flat view, a denied write changes nothing and gives 0. |
| `Inode.NewReads` | src/filesys/filesys.c:130-157 | In the flat view, a new file is at a sector no file had, exists if and only if there are sectors enough, and reads as zeros. |
| `Inode.Volume.AllocateSingle` | src/filesys/free-map.c:39-49 | Succeeds if and only if a sector is free, gives the first one, which is neither 0 nor 1 nor in use, and saves the map. |
| `Inode.Volume.ReleaseSingle` | src/filesys/free-map.c:52-56 | Makes exactly one sector free again and saves the map. |
| `Inode.Volume.AllocateThree` | src/filesys/inode.c:315-327 | Takes the first three free sectors or none; giving back the two tables' leaves just the third one lost. |
| `Inode.Volume.Create` | src/filesys/inode.c:294-357 | Succeeds if and only if enough sectors are free; then the file reads as zeros and its sector holds its inode; a failure loses exactly the third free sector if three were free. The map is saved; all writes, the inode's included, are whole but for the end of the map. |
| `Inode.Volume.WriteHeader` | src/filesys/inode.c:343-351 | Writing an inode to its sector changes no file's contents. |
| `Inode.Volume.NewFile` | src/filesys/filesys.c:130-157 | Succeeds if and only if four sectors and those for the contents are free; then the file is at the first free sector, of the kind and length asked for, reads as zeros, and the first sectors needed are marked. A failure changes no file and loses exactly one sector if four were free, none otherwise. |
| `Inode.NewFree` | src/filesys/filesys.c:130-157 | What the flat creation leaves free: the first sectors needed are taken, or exactly one is lost if four were free. |
| `Inode.InodeFree` | src/filesys/inode.c:294-357 | The same for the inode alone, with three. |
| `Inode.Volume.CreateMap` | src/filesys/free-map.c:80-91 | The map's file is made while the map is only in memory, and holds the map from then on. |
| `Inode.Volume.Run` | src/filesys/inode.c:487-584 | Every run of reads, writes and creations gives the results, final contents and free map of the same run on flat byte sequences; its log of writes makes the final disk of the first one, and the free map's file holds the map. |
| `WriteLog.LoggedThen` | src/filesys/inode.c:487-584 | Writes logged one after the other make of the first array what each step made of the one before. |
| `Storage.WritesDecide` | src/filesys/cache.c:100-421 | Reads and flushes between the writes of a trace do not matter to the array it leads to. |
| `Storage.WholeIsSafe` | src/filesys/cache.c:199-281 | A trace whose writes are of whole sectors is safe on every cache, whatever it holds. |
| `Storage.ReplayRight` | src/filesys/cache.c:100-421 | Any trace with the writes of a file operation reads the right bytes from the cache and leads to the operation's disk, if the writes are whole sectors or else each hits or covers. |
| `Storage.ReplayRightBut` | src/filesys/cache.c:100-421 | Any trace with the writes of an operation of whole sectors is right on any cache, hit or miss, but for the rest of the sector with the end of the free map. |
| `Storage.Run` | src/filesys/inode.c:487-584 | Every run of reads, writes and creations over the sector cache: the flat files are right, and after every trace with the run's writes so is the cache, if each write hits or covers. If files and writes are of whole sectors it is right in any case, but for the bytes after the end of the free map in that one sector, and entirely if the map fills its last sector. |
| `Storage.Create` | src/filesys/inode.c:294-357 | The same for every creation of a file, whatever its length. |
| `Storage.MapWriteExact` | src/filesys/cache.c:199-281 | Writing the end of the free map is right on a cache if and only if the rest of the slot it goes to is zero; a hit suffices. |
| `Storage.MapWriteAfterReads` | src/filesys/cache.c:283-395 | After 64 other sectors were read into an empty cache it is right if and only if the first of them has only zeros from there on. |
| `List.List.constructor` | src/lib/kernel/list.c:58-65 | An initialized list is linked and empty. |
| `List.List.Insert` | src/lib/kernel/list.c:168-178 | The element is in the chain right before the given one, and the chain is linked both ways. |
| `List.List.Remove` | src/lib/kernel/list.c:256-263 | The chain is without the element, and what followed it is returned. |
| `List.List.Splice` | src/lib/kernel/list.c:184-207 | A stretch moves to another place of the list, earlier or later, links intact. |
| `List.List.Reverse` | src/lib/kernel/list.c:342-354 | Exchanging the links of every element reverses the list. |
| `List.List.FindEndOfRun` | src/lib/kernel/list.c:378-392 | Finds the end of the maximal nondecreasing run. |
| `List.List.InplaceMerge` | src/lib/kernel/list.c:400-419 | Two adjacent sorted stretches become their stable merge, and the rest of the list stays. |
| `List.List.MergeRuns` | src/lib/kernel/list.c:434-456 | One pass of the outer loop merges the runs in pairs and counts the runs put out. |
| `List.List.Sort` | src/lib/kernel/list.c:425-460 | Terminates with a well-formed list that is a sorted and stable permutation, for every strict weak order, after as many passes as the function on values takes. |
| `List.List.Max` | src/lib/kernel/list.c:513-525 | The earliest of the elements that no other is after, or the tail of an empty list. |
| `NaturalMerge.MergeElements` | src/lib/kernel/list.c:400-419 | Merging loses and invents no element. |
| `NaturalMerge.MergeAscending` | src/lib/kernel/list.c:400-419 | Merging two sorted stretches gives a sorted one. |
| `NaturalMerge.MergeStable` | src/lib/kernel/list.c:400-419 | Elements that tie keep their order, first stretch first. |
| `NaturalMerge.PassStable` | src/lib/kernel/list.c:434-456 | A whole pass is a stable permutation. |
| `NaturalMerge.PassHalves` | src/lib/kernel/list.c:434-456 | A pass puts out half the runs, rounded up, and leaves at most that many. |
| `NaturalMerge.PassProgress` | src/lib/kernel/list.c:434-456 | While more than one run is put out, the number of runs strictly drops: the sort terminates. |
| `NaturalMerge.PassLast` | src/lib/kernel/list.c:434-456 | When one run is put out the list is sorted. |
| `NaturalMerge.PassesLog` | src/lib/kernel/list.c:434-456 | A list of at most 2^k runs is sorted by at most k passes, for every k of at least 1. |
| `NaturalMerge.StableSortUnique` | src/lib/kernel/list.c:425-460 | Sorted, stable and a permutation determine the result. |
| `Donation.ComputedIs` | src/threads/thread.c:196-211 | The recalculated priority is the least that is no less than the base and every waiter's: it is one of them. |
| `Donation.ChainLinks` | src/threads/thread.c:187-218 | The recursion follows the holders one by one, and says where it was cut short. |
| `Donation.RecalculatedLifts` | src/threads/thread.c:187-218 | Once a waiter has joined, the recursion raises exactly the threads visited to the waiter's priority, at most eight, on any graph. |
| `Donation.FedIs` | src/threads/thread.c:187-218 | The threads that need raising are those visited and the one where the recursion stopped. |
| `Donation.ContendedAcquire` | src/threads/synch.c:215-223 | After a contended request all priorities are right if and only if the chain ends within eight threads, closes on itself, or needs no raising further on. |
| `Donation.JoinExact` | src/threads/synch.c:64-83 | A thread that joins a lock's waiters without a recalculation leaves all priorities right if and only if it does not outrank the holder. |
| `Donation.RunningRecalculates` | src/threads/thread.c:187-218 | If only a running thread's own inputs change, recalculating it makes all priorities right. |
| `Donation.SetPriorityKeeps` | src/threads/thread.c:615-636 | Changing the base priority keeps all priorities right. |
| `Donation.ReleaseKeeps` | src/threads/synch.c:258-278 | Releasing a lock keeps all priorities right, whichever waiter is woken. |
| `Donation.ReleaseUndisturbed` | src/threads/synch.c:113-135 | If no ready thread outranks the releasing one, neither does the woken thread, so the release is not interrupted halfway. |
| `Donation.ReleaseChangesOne` | src/threads/synch.c:258-278 | A release changes no priority but the releasing thread's, which does not rise. |
| `Donation.AcquireExact` | src/threads/synch.c:225-227 | Taking a free lock keeps all priorities right if and only if nobody still waiting for it outranks the taker. |
| `Donation.HandOff` | src/threads/synch.c:258-278 | A release that wakes the highest waiter, followed by that thread taking the lock, keeps all priorities right. |
| `Donation.NoInversion` | src/threads/thread.c:187-218 | Where priorities are right, no thread further down a chain is below one further up, at any distance. |
| `Donation.DonatedBy` | src/threads/thread.c:187-218 | Without deadlock, every priority is the base priority of some thread that waits, directly or not, for its holder. |
| `Locks.StepExact` | src/threads/synch.c:198-278 | Each step leaves all priorities right if and only if the condition given for it held before. |
| `Locks.RunDonates` | src/threads/synch.c:198-278 | After every run of such steps there is no inversion along any chain, and no priority without a donor. |
| `Locks.LongChainFails` | src/threads/thread.c:191-194 | A concrete chain of nine holders leaves the ninth below a waiting thread. |
| `Locks.OvertakingFails` | src/threads/synch.c:198-230 | A third thread that takes a released lock before the woken one is left below a waiter. |
| `Locks.Kernel.constructor` | src/threads/synch.c:183-188 | Idle threads and free locks start with all priorities right. |
| `Locks.Kernel.MaxWaiting` | src/threads/thread.c:201-209 | The inner loop finds the largest priority of a lock's waiters. |
| `Locks.Kernel.Donated` | src/threads/thread.c:196-210 | The nested loops find the priority a thread should have. |
| `Locks.Kernel.RecalculatePriority` | src/threads/thread.c:187-218 | The recursion changes priorities as the function on values does, to depth eight. |
| `Locks.Kernel.LockAcquire` | src/threads/synch.c:198-230 | If the lock is held the thread joins the end of its waiters and is blocked on it; if not it holds the lock, at the end of its own list, and no priority changes; all priorities are right afterwards if and only if the condition of the step held before. |
| `Locks.Kernel.Resume` | src/threads/synch.c:64-83 | A woken thread that finds the lock free takes it; all priorities are right afterwards if and only if no thread still waiting for it outranks the taker and no other woken thread is on its way to it. One that finds it taken again goes back to sleep; they are right if and only if it does not outrank the new holder. |
| `Locks.Kernel.MaxWaiter` | src/threads/synch.c:122-126 | The first waiter of the highest priority is chosen. |
| `Locks.Kernel.TakeOff` | src/threads/synch.c:265-274 | The lock has no holder and is off the thread's list, and the first waiter of the highest priority is off the lock's; no other entry moves. |
| `Locks.Kernel.LockRelease` | src/threads/synch.c:258-278 | The lock has no holder and is off the thread's list; the first waiter of the highest priority is off the lock's list; only the releasing thread's priority changes, to between its base and what it was; all priorities are right. |
| `Locks.Kernel.ThreadSetPriority` | src/threads/thread.c:615-636 | The thread's base is the one asked for and its priority the largest of that and of those waiting for its locks; nothing else changes, and all priorities are right. |
| `CDivision.TruncatedIs` | src/lib/arithmetic.c:136-147 | Quotient and remainder toward zero satisfy the equation and the sign rule of section 6.5.5 of C99. |
| `CDivision.TruncatedUnique` | src/lib/arithmetic.c:136-147 | No other pair of numbers does. |
| `Arithmetic.Nlz` | src/lib/arithmetic.c:44-76 | The five steps find the shift that brings the top bit to bit 31. |
| `Arithmetic.SmallDivisor` | src/lib/arithmetic.c:81-112 | With a divisor below 2^32 neither divide traps and the two quotients combine to the quotient. |
| `Arithmetic.EstimateClose` | src/lib/arithmetic.c:113-125 | The estimate from the normalized divisor is the quotient or one more. |
| `Arithmetic.LargeDivisor` | src/lib/arithmetic.c:113-125 | With a divisor of at least 2^32 the divide does not trap and the estimate is off by at most one. |
| `Arithmetic.Corrected` | src/lib/arithmetic.c:119-124 | One comparison of a remainder that does not wrap tells which. |
| `Arithmetic.UDiv64` | src/lib/arithmetic.c:80-126 | For all 64-bit numbers and nonzero divisors, the floor of the quotient. |
| `Arithmetic.UMod64` | src/lib/arithmetic.c:130-132 | The remainder, reduced to 32 bits by the return type. |
| `Arithmetic.UMod64Exact` | src/lib/arithmetic.c:130-132 | That is the remainder for every dividend if and only if the divisor is at most 2^32. |
| `Arithmetic.SDiv64` | src/lib/arithmetic.c:136-141 | Division toward zero, except that -2^63 / -1 wraps to itself. |
| `Arithmetic.SMod64` | src/lib/arithmetic.c:145-147 | The signed remainder, reduced to 32 bits. |
| `Arithmetic.SMod64Exact` | src/lib/arithmetic.c:145-147 | That is the remainder for every dividend if and only if the divisor's magnitude is at most 2^31. |
| `FixedPoint.CeiledExact` | src/lib/kernel/fixedp.h:28-34 | Rounding up is a ceiling if and only if the number is not negative or whole. |
| `FixedPoint.FlooredTowardZero` | src/lib/kernel/fixedp.h:23-25 | The conversion called a floor rounds toward zero: it is a floor for nonnegative numbers and a ceiling for the others. |
| `FixedPoint.NearestClose` | src/lib/kernel/fixedp.h:37-44 | Rounding to nearest is off by at most a half, for either sign. |
| `Mlfqs.LoadAccuracy` | src/threads/thread.c:319-324 | Over every sequence of counts the computed load average is never above the exact one and below it by at most 60 (N + 1) units of 2^-14. |
| `Mlfqs.FixedLoadRange` | src/threads/thread.c:319-324 | It stays between 0 and the largest count. |
| `Mlfqs.RatioBound` | src/threads/thread.c:746-756 | The decay factor is small enough to make the bounds on CPU time inductive. |
| `Mlfqs.RatioAccuracy` | src/threads/thread.c:746-756 | The decay factor is 2 load / (2 load + 1) in units of 2^-14, rounded down. |
| `Mlfqs.RecentAccuracy` | src/threads/thread.c:746-756 | The new CPU time differs from the exact 2 load / (2 load + 1) recent + nice by at most one unit and a 2^14th of the old time. |
| `Mlfqs.RecentStays` | src/threads/thread.c:746-756 | The update once a second brings CPU time back within its bounds. |
| `Mlfqs.NoOverflow` | src/threads/thread.c:311-337 | With at most 545 threads no value or intermediate value overflows its C type. |
| `Mlfqs.StepFits` | src/threads/thread.c:311-337 | In a state within the bounds no event overflows anything: charging, load average, CPU times and priorities of all threads. |
| `Mlfqs.BoundsFit` | src/threads/thread.c:311-337 | The bounds are values of an int if and only if there are at most 545 threads. |
| `Mlfqs.ReportExact` | src/threads/thread.c:719-723 | A number reported times a hundred overflows no int if and only if its magnitude is at most 21474754 units (about 1310), and is then off by at most a half. |
| `Mlfqs.LoadReported` | src/threads/thread.c:719-723 | Every load average within the bounds can be reported if and only if there are at most 1310 threads. |
| `Mlfqs.RecentReported` | src/threads/thread.c:758-762 | Every CPU time within the bounds can be reported if and only if there are at most four threads. |
| `Mlfqs.PriorityMonotone` | src/threads/thread.c:699-717 | For all CPU times and niceness: more of either never means a higher priority, except exactly when the penalty drops at equal niceness within the range of priorities. |
| `Mlfqs.PenaltyDrops` | src/threads/thread.c:699-717 | The penalty drops with more CPU time, and then by one, if and only if the larger time's quarter is whole and not positive and the smaller's lies less than one below it. |
| `Mlfqs.DropsNegative` | src/threads/thread.c:699-717 | It never drops from CPU time that is not negative. |
| `Mlfqs.MonotoneFails` | src/threads/thread.c:699-717 | A CPU time of -4 units gives priority 62, and none gives 63. |
| `Mlfqs.PenaltyExact` | src/threads/thread.c:699-717 | For every CPU time, the penalty is a quarter rounded up if and only if a nonnegative time exceeds a multiple of four by nothing or at least four units, or a negative one falls short of one by less than four units. |
| `Mlfqs.PriorityAccuracy` | src/threads/thread.c:699-717 | The priority before clamping is the exact 63 - recent / 4 - 2 nice, rounded down but for three quarters of a unit of 2^-14; for negative CPU time it may be one less. |
| `Mlfqs.StepKeeps` | src/threads/thread.c:311-337 | Ticks, nice changes, creation, exit and the start of the idle thread keep all values within their bounds. |
| `Mlfqs.RunKeeps` | src/threads/thread.c:311-337 | So does every run, and the load average is that of the counts sampled on the way. |
| `Mlfqs.FromBoot` | src/threads/thread.c:231-257 | From boot on, all priorities are in range, CPU times within their bounds, the load average accurate, and at most one thread idle. |
| `Mlfqs.BootFits` | src/threads/thread.c:231-257 | Over every run from boot with at most 545 threads ready or running, no value and no intermediate value overflows its C type. |
| `Mlfqs.IdleUncharged` | src/threads/thread.c:311-337 | Ticks that fall on an idle thread without CPU time leave it with none, however many there are and whatever is ready. |
| `Mlfqs.BootIdle` | src/threads/thread.c:260-272 | There is such a run from boot: the idle thread is created, marks itself, and is not charged. |
| `Mlfqs.TickMeans` | src/threads/thread.c:311-337 | What a tick does to each thread and the load average: which are charged, which values are renewed and when, and that nothing else changes. |
| `Mlfqs.ExitLeaves` | src/threads/thread.c:510-528 | A thread that exits is gone and no other is affected. |
| `Mlfqs.Scheduler.OnTick` | src/threads/thread.c:311-337 | A tick does what the event on values does (`Mlfqs.TickMeans`). |
| `Mlfqs.Scheduler.UpdateRecentCpu` | src/threads/thread.c:746-756 | Every thread's CPU time becomes the exact 2 load / (2 load + 1) recent + nice, up to one unit of 2^-14 and a 2^14th of the old time, and nothing else changes. |
| `Mlfqs.Scheduler.UpdatePriorities` | src/threads/thread.c:699-717 | Every thread's priority becomes the one its CPU time and niceness give, but for the idle thread's, and nothing else changes. |
| `Mlfqs.Scheduler.SetNiceness` | src/threads/thread.c:662-686 | Only the running thread changes: its priority is the one its CPU time and new niceness give, and is no higher than before if it became nicer; all bounds are kept. |
| `Mlfqs.Scheduler.CreateThread` | src/threads/thread.c:411-417 | Only a thread is added: it has its parent's niceness and CPU time, and its parent's priority if that was up to date; all bounds are kept. |
| `Mlfqs.Scheduler.StartIdle` | src/threads/thread.c:772-775 | The running thread is the one idle thread from then on, and nothing else changes; all bounds are kept. |
| `RoundRobin.YieldRotates` | src/threads/thread.c:585-598 | A yield runs the first of the threads of highest priority and puts it behind the others. |
| `RoundRobin.TakeTurns` | src/threads/thread.c:585-598 | The n-th yield runs the n-th of those threads in turn, for ever, and no other thread. |
| `RoundRobin.EachOnce` | src/threads/thread.c:585-598 | Among any k consecutive yields, where k threads have the highest priority, each runs exactly once. |
| `RoundRobin.YieldKeeps` | src/threads/thread.c:585-598 | A yield loses and adds no thread, and keeps the order of the threads of every priority but the highest. |
| `RoundRobin.AfterKeeps` | src/threads/thread.c:585-598 | Any number of yields loses and adds no thread, if the idle thread is not among the ready ones. |
| `RoundRobin.Scheduler.NextThreadToRun` | src/threads/thread.c:882-892 | The earliest ready thread of highest priority leaves the queue, the others keep their order, or the idle thread runs. |
| `RoundRobin.Scheduler.Yield` | src/threads/thread.c:585-598 | The earliest thread of highest priority runs, the yielding one included; if the idle thread is not queued no thread is lost or added, and those of each other priority keep their order. |
| `Bitmap.BitSet` | src/lib/kernel/bitmap.c:157-179 | Setting or clearing one bit of a word with its mask changes that bit and no other. |
| `Bitmap.UnpackedUpdate` | src/lib/kernel/bitmap.c:145-179 | Changing a word changes the one boolean of the sequence it stands for. |
| `Bitmap.Bits.constructor` | src/lib/kernel/bitmap.c:100-110 | Whatever the storage holds, all bits are clear. |
| `Bitmap.Bits.Set` | src/lib/kernel/bitmap.c:145-179 | The sequence changes at one place. |
| `Bitmap.Bits.Test` | src/lib/kernel/bitmap.c:198-203 | The boolean at that place. |
| `Bitmap.Bits.SetMultiple` | src/lib/kernel/bitmap.c:218-228 | The sequence changes in one stretch. |
| `Bitmap.Bits.Contains` | src/lib/kernel/bitmap.c:251-263 | Whether some boolean of the stretch has the value. |
| `Bitmap.Bits.Scan` | src/lib/kernel/bitmap.c:296-310 | The least place with so many booleans of the value in a row, or none if there is none. |
| `Bitmap.Bits.ScanAndFlip` | src/lib/kernel/bitmap.c:320-326 | That stretch is flipped, and no other bit. |
| `Palloc.BitmapFits` | src/threads/palloc.c:140-156 | A pool has room for its own bitmap if and only if it has a page; after the bitmap is taken off, what is left fits it. |
| `Palloc.FitIsRoom` | src/threads/palloc.c:67-94 | A stretch of clear bits is a stretch of pages in no live group. |
| `Palloc.UserTaken` | src/threads/palloc.c:67-94 | Taking the first fit of the user pool is taking the first room, and keeps groups apart and bitmaps right. |
| `Palloc.KernelTaken` | src/threads/palloc.c:67-94 | The same for the kernel pool. |
| `Palloc.PoolOf` | src/threads/palloc.c:159-165 | The first of pages in use tells the one pool that all of them are in. |
| `Palloc.SoundCut` | src/threads/palloc.c:108-131 | Clearing the bits of pages in use keeps bitmaps and live groups in agreement, when the pages are cut out of the groups. |
| `Palloc.CutCovers` | src/threads/palloc.c:108-131 | Exactly the pages given back are no longer in a live group. |
| `Palloc.CutApart` | src/threads/palloc.c:108-131 | The parts that are left of live groups do not overlap. |
| `Palloc.CutGroup` | src/threads/palloc.c:108-131 | Giving back all of a group takes out that group and leaves the others as they are. |
| `Palloc.Allocator.constructor` | src/threads/palloc.c:44-59 | Two pools that do not overlap, nothing live. |
| `Palloc.Allocator.GetMultiple` | src/threads/palloc.c:67-94 | The first room in the pool becomes a live group, or there is none. |
| `Palloc.Allocator.FreeMultiple` | src/threads/palloc.c:108-131 | Pages in use go back to the pool they came from, be they a group, part of one or several; the other pool is untouched, and a null pointer or no pages change nothing. |
| `Malloc.BlockInPage` | src/threads/malloc.c:262-269 | The blocks of an arena lie in its page, after the header, for every descriptor. |
| `Malloc.BlocksApart` | src/threads/malloc.c:262-269 | They do not overlap. |
| `Malloc.PoppedCore` | src/threads/malloc.c:141-146 | Taking the first free block keeps free lists, live blocks and free counts consistent. |
| `Malloc.OpenedCore` | src/threads/malloc.c:120-139 | So does turning a page into an arena. |
| `Malloc.OpenedBigCore` | src/threads/malloc.c:102-116 | So does giving a large request pages of its own. |
| `Malloc.PushedCore` | src/threads/malloc.c:220-224 | So does putting a block back, whose arena then had a block in use. |
| `Malloc.ClosedCore` | src/threads/malloc.c:224-233 | When the free count is full all blocks of the arena are on the free list, and taking them off loses no other. |
| `Malloc.ClosedBigCore` | src/threads/malloc.c:237-241 | Giving back a large block's pages keeps all consistent. |
| `Malloc.LiveInside` | src/threads/malloc.c:86-147 | A live block is within its pages, and is as large as asked for if and only if the request was at most 2^32 - 12. |
| `Malloc.LiveApart` | src/threads/malloc.c:86-147 | Live blocks do not overlap, small or large. |
| `Malloc.Aligned` | src/threads/malloc.c:246-259 | A live block passes the checks made when its arena is looked up. |
| `Malloc.PageCountExact` | src/threads/malloc.c:105 | When the size computation in 32 bits gives enough pages, none, or one page too small. |
| `Malloc.WrappedRequest` | src/threads/malloc.c:105 | The largest request gets a single page. |
| `Malloc.FreesLast` | src/threads/malloc.c:204-243 | The page or pages go back if and only if no other live block is in them. |
| `Malloc.AllocatesKeeps` | src/threads/malloc.c:86-147 | An allocation makes live a block that was not, or changes nothing. |
| `Malloc.AllocatesExact` | src/threads/malloc.c:86-147 | A request gives null if and only if it is for nothing or no block, page or pages for it are free, and then nothing changes; otherwise one block becomes live. |
| `Malloc.StepKeeps` | src/threads/malloc.c:86-147 | Requests, frees of live blocks, and other users of the page allocator keep the invariant. |
| `Malloc.RunSafe` | src/threads/malloc.c:86-243 | In every state of every such run any two live blocks are disjoint. |
| `Malloc.RunInside` | src/threads/malloc.c:86-243 | In every state of every such run each live block is inside its pages, and as large as requested if and only if the request was at most 2^32 - 12. |
| `Malloc.KernelHeap.constructor` | src/threads/malloc.c:71-82 | Seven descriptors, 16 to 1024 bytes, each with as many blocks as fit a page. |
| `Malloc.KernelHeap.FindDesc` | src/threads/malloc.c:95-100 | The least descriptor that is large enough. |
| `Malloc.KernelHeap.Open` | src/threads/malloc.c:131-138 | The loop puts all blocks of the page on the free list. |
| `Malloc.KernelHeap.Close` | src/threads/malloc.c:228-231 | The loop takes off the arena's blocks, each of which is on the list when its turn comes, and no other. |
| `Malloc.KernelHeap.Malloc` | src/threads/malloc.c:86-147 | First free block, first free page, or pages of its own; null if and only if nothing is asked for or no place of the kind it needs is free; no other block's liveness changes. |
| `Malloc.KernelHeap.Free` | src/threads/malloc.c:204-243 | The block is no longer live; its pages go back when it was the last. |
| `Malloc.KernelHeap.BlockBytes` | src/threads/malloc.c:169-175 | The number of bytes of a live block. |
| `Malloc.KernelHeap.Realloc` | src/threads/malloc.c:185-200 | Null if and only if nothing is asked for or there is no place for the new size, and then nothing changes but that a request for nothing frees; otherwise the new block is allocated first and the old one freed after it. The bytes copied are within the old block and the request, and within the new block if and only if the request was at most 2^32 - 12 or the old block is at most 4084 bytes. |
| `Malloc.ReallocOverruns` | src/threads/malloc.c:185-200 | A block of 8000 bytes reallocated to 2^32 - 1 has 8180 bytes copied into a block of 4084. |
| `Cache.LoadedSlots` | src/filesys/cache.c:283-395 | A sector that takes over a slot is in no other, and unchanged slots still agree with the disk. |
| `Cache.LoadedAt` | src/filesys/cache.c:283-395 | No sector's contents change, that of the victim included. |
| `Cache.LoadedQueue` | src/filesys/cache.c:480-520 | The queue still has exactly the sectors in the cache, in the order of loading. |
| `Cache.VictimOldest` | src/filesys/cache.c:493-520 | The victim has been in the cache longest. |
| `Cache.CleanedSame` | src/filesys/cache.c:398-421 | Writing out a slot changes no sector's contents. |
| `Cache.FetchedSame` | src/filesys/cache.c:100-194 | Bringing in a sector changes no contents, and its slot holds them. |
| `Cache.WriteExact` | src/filesys/cache.c:199-281 | For a given disk, a write acts as on the array of sectors if and only if the bytes it leaves alone are right in the slot. |
| `Cache.HitOrCoverClean` | src/filesys/cache.c:199-281 | They are right on a hit and on a full write. |
| `Cache.HitOrCoverExact` | src/filesys/cache.c:199-281 | A write acts as on the array whatever the disk holds in that sector if and only if the sector is in the cache or all of it is written. |
| `Cache.StepExact` | src/filesys/cache.c:100-421 | The same for reads, writes and flushes together, with the results of reads. |
| `Cache.RunRefines` | src/filesys/cache.c:100-421 | Over every clean run reads agree with the array, and after a flush the disk is the array. |
| `Cache.SafeRunRefines` | src/filesys/cache.c:100-421 | The same over every run in which each write hits or covers. |
| `Cache.RunSameBut` | src/filesys/cache.c:100-421 | Over every run of whole writes and of writes of the first k bytes of one sector, hit or miss, the cache is the array but for the other bytes of that sector. |
| `Cache.FullLeft` | src/filesys/cache.c:283-395 | After 64 different sectors were read into an empty cache, the next miss gets the slot of the first of them, with its bytes. |
| `Cache.PartialWriteFails` | src/filesys/cache.c:306-308 | One byte written to a sector not in the cache loses the rest of it. |
| `Cache.InitialOk` | src/filesys/cache.c:48-78 | The empty cache stands for the disk. |
| `Cache.SectorCache.constructor` | src/filesys/cache.c:48-78 | All slots empty. |
| `Cache.SectorCache.SectorToCache` | src/filesys/cache.c:87-97 | The slot that holds the sector, or none. |
| `Cache.SectorCache.LruEvict` | src/filesys/cache.c:493-520 | The front of the queue goes, and its slot is the one given. |
| `Cache.SectorCache.GetFree` | src/filesys/cache.c:283-395 | The first empty slot or the victim's, written out first, takes the sector. |
| `Cache.SectorCache.Read` | src/filesys/cache.c:100-194 | State and bytes are those of the function on values. |
| `Cache.SectorCache.Write` | src/filesys/cache.c:199-281 | State is that of the function on values. |
| `Cache.SectorCache.FlushCache` | src/filesys/cache.c:398-421 | The disk becomes the array that the cache stood for. |
| `Hash.AndMask` | src/lib/kernel/hash.c:306-310 | Masking with a power of two less one is the remainder. |
| `Hash.ClearLowest` | src/lib/kernel/hash.c:330-340 | Clearing the lowest bit gives zero exactly for powers of two, and otherwise keeps the highest bit. |
| `Hash.PushedPlaced` | src/lib/kernel/hash.c:417-421 | An element put into its bucket keeps every element in its own. |
| `Hash.TakenPlaced` | src/lib/kernel/hash.c:425-429 | So does taking one out. |
| `Hash.WalkIsContents` | src/lib/kernel/hash.c:200-235 | The buckets one after the other have every element once. |
| `Hash.HashTable.constructor` | src/lib/kernel/hash.c:25-42 | Four empty buckets. |
| `Hash.HashTable.FindBucket` | src/lib/kernel/hash.c:306-310 | The bucket of the hash's remainder. |
| `Hash.HashTable.FindElem` | src/lib/kernel/hash.c:315-326 | The element with that key, if and only if the set has one. |
| `Hash.HashTable.Find` | src/lib/kernel/hash.c:132-135 | The same for the whole table. |
| `Hash.HashTable.IdealCount` | src/lib/kernel/hash.c:364-372 | The loop ends with the largest power of two at most half the number of elements, and at least four. |
| `Hash.HashTable.Rehash` | src/lib/kernel/hash.c:352-413 | The set is the same, in that many buckets, or all is unchanged if there is no memory. |
| `Hash.HashTable.Insert` | src/lib/kernel/hash.c:99-110 | The set gains the element unless it has its key, with or without memory for rehashing. |
| `Hash.HashTable.Replace` | src/lib/kernel/hash.c:115-127 | The element takes the place of the one with its key. |
| `Hash.HashTable.Delete` | src/lib/kernel/hash.c:145-154 | The set loses the element with that key. |
| `Hash.HashTable.Next` | src/lib/kernel/hash.c:219-235 | The iterator goes to the next element, over empty buckets, or ends. |
| `Hash.HashTable.Walk` | src/lib/kernel/hash.c:200-235 | Iterating visits every element exactly once. |
| `Sorting.FloatDown` | src/lib/stdlib.c:87-109 | Exchanging an element with its larger child moves the one flaw of the heap down. |
| `Sorting.TopLargest` | src/lib/stdlib.c:130-134 | The first element of a heap is the largest. |
| `Sorting.TopToTail` | src/lib/stdlib.c:130-134 | It belongs right before the elements already in place, and only the root is then flawed. |
| `Sorting.LargestOf` | src/lib/stdlib.c:93-100 | The largest of an element and its children. |
| `Sorting.Heapify` | src/lib/stdlib.c:87-109 | A heap below an element becomes a heap with it; nothing beyond the count changes. |
| `Sorting.Sort` | src/lib/stdlib.c:117-135 | A sorted permutation, for every total preorder. |
| `Sorting.BinarySearch` | src/lib/stdlib.c:165-185 | On a sorted array finds a match exactly when one exists. |
| `Stdio.BodyFits` | src/lib/stdio.c:495-518 | The digits, commas and zeros of any 64-bit number, base, precision and flags fit the 64-byte buffer. |
| `Stdio.BodyMeans` | src/lib/stdio.c:495-518 | Whatever the flags, the digits in the buffer are the number's. |
| `Stdio.PrecisionExact` | src/lib/stdio.c:509-518 | At least as many digits are written as the precision asks for if and only if it is at most the number's own digits with the octal 0, or it is less than 64 and no comma is written. |
| `Stdio.BodyCounted` | src/lib/stdio.c:495-518 | The exact number of digits in the buffer, for every number, base, precision and flags. |
| `Stdio.GroupedPrecisionFails` | src/lib/stdio.c:509-511 | 1234 with commas and precision 5 has four digits. |
| `Stdio.OutputWidth` | src/lib/stdio.c:520-540 | The output is as wide as the larger of the field and what the number needs if and only if not both the minus and the zero flag are set or the field is no wider; otherwise it is padded on both sides. |
| `Stdio.OutputLayout` | src/lib/stdio.c:466-540 | The output is spaces, the sign, the prefix, then digits that read, highest first, as the number, then spaces; which flags give which, and how much filling, is exact. |
| `Stdio.CommasPlaced` | src/lib/stdio.c:495-507 | Counted from the right, a comma stands after each whole group of digits and nowhere else. |
| `Stdio.BothFlagsFail` | src/lib/stdio.c:520-540 | 7 in a field of 5 with both flags is nine characters. |
| `Stdio.FillBuffer` | src/lib/stdio.c:495-518 | The loops fill the buffer with just these characters and never past its end. |
| `Stdio.FormatInteger` | src/lib/stdio.c:466-540 | The characters written are those of `Stdio.OutputLayout`. |
| `Stdio.AtoiExact` | src/lib/stdlib.c:9-41 | No step overflows if and only if the number written is an int, and then it is the result. |
| `Stdio.ParseInt` | src/lib/stdlib.c:9-41 | The loops compute this. |
| `Stdio.RoundTrip` | src/lib/stdlib.c:9-41 | What the conversion %d writes for any int, atoi reads back without overflow. |
| `Stdio.Vsnprintf` | src/lib/stdio.c:29-52 | The characters that fit before a null character are stored in order, that character after them, what follows it is untouched, and the full length is returned. |
| `Stdio.BufferRoundTrip` | src/lib/stdio.c:29-52 | An int printed into a buffer of twelve characters or more is read back from the buffer. |
| `Format.ParsedShape` | src/lib/stdio.c:336-457 | After parsing the width is not negative, space gives way to plus and zero to a precision; both minus and zero are set if and only if a zero flag stands without minus before a negative star width, with no precision. |
| `Format.FieldWidth` | src/lib/stdio.c:336-540 | A number is written as wide as it should be for every parsed conversion, except exactly those with both flags and a field too wide. |
| `Format.NegativeStarParsed` | src/lib/stdio.c:372-393 | "0*d" with the argument -5 gives width 5 and both flags. |
| `Format.StarArguments` | src/lib/stdio.c:372-414 | Two stars take the next two arguments: a negative width means left adjustment, a negative precision none. |
| `Format.ConversionRoundTrip` | src/lib/stdio.c:336-457 | A conversion written out as flags, width, precision and size is parsed back, whatever conversion character follows. |
| `Format.ReadFlags` | src/lib/stdio.c:338-370 | The loop collects the flags up to the first other character. |
| `Format.ReadConversion` | src/lib/stdio.c:336-457 | The whole parse computes the function on values, star arguments included. |
| `Ustar.StripIs` | src/lib/ustar.c:60-66 | A stripped name is a nonempty suffix or ".", and starts with no slash, "./" or "../". |
| `Ustar.StripPrefix` | src/lib/ustar.c:60-66 | Each leading slash, "./" or "../" is dropped, and nothing more with it. |
| `Ustar.StripTwice` | src/lib/ustar.c:60-66 | Stripping is idempotent. |
| `Ustar.FieldRoundTrip` | src/lib/ustar.c:119-146 | A number that fits its octal field is read back from it. |
| `Ustar.ParseOctalIs` | src/lib/ustar.c:119-146 | A field has a value if and only if at least one octal digit, for a value below 2^32, and then a space or a null byte start it, and it is that value. |
| `Ustar.SumZeros` | src/lib/ustar.c:34-49 | The checksum of a block of zeros is that of the spaces its checksum field counts as; with `Ustar.SumChanged` this fixes it for every block. |
| `Ustar.SumChanged` | src/lib/ustar.c:34-49 | Changing a byte outside the checksum field changes the sum by as much. |
| `Ustar.ParseDecides` | src/lib/ustar.c:164-209 | A header is accepted if and only if magic, version, checksum, name, type and size are right, and then as what; each error says what is wrong with the header. |
| `Ustar.LaidOthers` | src/lib/ustar.c:75-108 | The fields the parser ignores: permissions, user, group, time, and zeros elsewhere. |
| `Ustar.OctalFormat` | src/lib/ustar.c:92-105 | The printf conversion with zero padding writes just the field's octal digits. |
| `Ustar.RoundTrip` | src/lib/ustar.c:75-209 | Parsing a made header gives the stripped name, type and size, 0 for directories; for a regular file of negative size it reports that the file is too large. |
| `Ustar.OneByteDetected` | src/lib/ustar.c:164-209 | Any one byte changed outside the checksum field of any accepted header makes it rejected. |
| `Ustar.CalculateChksum` | src/lib/ustar.c:34-49 | The sum with the checksum field taken as spaces. |
| `Ustar.StripAntisocialPrefixes` | src/lib/ustar.c:60-66 | The loop strips the name. |
| `Ustar.ParseOctalField` | src/lib/ustar.c:119-146 | The loop parses the field, overflow and malformed fields included. |
| `Ustar.MakeHeader` | src/lib/ustar.c:75-108 | Fails exactly for stripped names over 99 characters; otherwise every byte of the header is as laid out. |
| `Ustar.ParseHeader` | src/lib/ustar.c:164-209 | The checks in their order, each with its own error. |
| `Directory.EncodedMeans` | src/filesys/directory.c:176-180 | An entry's 20 bytes stand for the sector, name and use they were made from. |
| `Directory.NameFieldMeans` | src/filesys/directory.c:176-180 | A name copied over old bytes is the name read back. |
| `Directory.EntriesWritten` | src/filesys/directory.c:146-218 | Writing an entry changes that entry alone, or adds it at the end. |
| `Directory.EntryWritten` | src/filesys/directory.c:146-218 | Such a write happens as a whole or not at all, and exactly when there is room. |
| `Directory.Added` | src/filesys/directory.c:146-184 | A name added in a free entry is added to the map, and names stay unique. |
| `Directory.Removed` | src/filesys/directory.c:188-218 | An entry freed takes its name out of the map. |
| `Directory.ListIsMap` | src/filesys/directory.c:222-240 | A walk over the entries gives every name but "." and ".." once. |
| `Directory.FreshEmpty` | src/filesys/directory.c:12-14 | A directory as created has no names. |
| `Directory.Dir.EntriesReachable` | src/filesys/directory.c:62-81 | Every entry, and the end of the last one, can be asked for in a directory of any length. |
| `Directory.Dir.Lookup` | src/filesys/directory.c:62-81 | Finds a name if and only if the map has it, with its sector. |
| `Directory.Dir.FindSlot` | src/filesys/directory.c:163-174 | The first free entry, or the end. |
| `Directory.Dir.Add` | src/filesys/directory.c:146-184 | Succeeds exactly for a new name of 1 to 14 characters with room for it; the map gains it, and the file grows only if no entry was free. |
| `Directory.Dir.Remove` | src/filesys/directory.c:188-218 | The map loses the name, or nothing changes; the file keeps its length. |
| `Directory.Dir.ReadDir` | src/filesys/directory.c:222-240 | The next name to list. |
| `Directory.Dir.ListAll` | src/filesys/directory.c:222-240 | Reading to the end lists every name but "." and ".." exactly once. |

## Left out

- Hardware: the boot loader, drivers, interrupts, segment and page tables, context switches.
- The cache under concurrency: slot locks, readers and writers waiting, read-ahead and write-behind threads.
- `inode_open`, `inode_close` and the release of a deleted file's sectors, whose loop stops at the first entry in use.
- Reading inodes from their sectors and writing them back when a file is closed; the model keeps their fields in a map by sector.
- Inode.Volume.ReadAt: does not model a lookup beyond 128 tables of 128 sectors (8 MB), because the code neither checks nor supports it.
- Inode.Volume.WriteAt: does not model it either, for the same reason.
- Directory.Dir.Add: does not model an entry that would end beyond that size on a volume with room for it, for the same reason.
- Inode.Volume.ExtendFile: does not model the array of new sector numbers on the 4 kB kernel stack (inode.c:125), which about a thousand
  sectors in one extension overrun, because stacks are not modelled.
- Inode.Volume.Create: does not model failure of memory allocation, because it only adds an error return, nor a failure while the free
  map's file is not open, because the code then writes through a null pointer.
- Inode.Volume.NewFile: does not model the directory entry that is added before the creation counts as done (`Directory.Dir.Add`).
- Inode.Volume.Run: reads and writes of the free map's own file are not among its operations, because only the map's own code does them.
- List.List.Splice: does not model a stretch moved from one list into another, because the sort never does that.
- `list_insert_ordered`, `list_unique` and the other list routines not used by the sort or the scheduler.
- Raw semaphores and `lock_try_acquire`, which puts the lock into the thread's list even if it fails.
- Locks.Kernel.LockAcquire: does not model the branch for feedback scheduling, nor do `LockRelease` and `ThreadSetPriority`; there locks
  are plain semaphores without donation, and a thread cannot set its priority.
- Directory.Dir.Remove: does not model the release of the removed file's sectors, which happens when its inode is last closed.
- Condition variables, sleeping threads and `thread_exit` outside the scheduler's arithmetic.
- Mlfqs.Scheduler.OnTick: does not model the idle and kernel tick statistics or the forced yield, because they do not feed back into the values.
- The contents of memory: blocks, pages and the bytes `realloc` copies are ranges of addresses.
- `calloc`, whose overflow test is not complete.
- Sorting.Sort: elements are single values; the byte-wise exchange of elements of a given size is not modelled.
- The rest of `printf`: fetching arguments by size, and the string, character and pointer conversions.
- Path resolution, reference counts and current directories.
- Virtual memory, processes, system calls, the shell, partitions and clocks.
