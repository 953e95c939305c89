# Pintos, modelled and proved in Dafny

This project models the parts of the Pintos teaching kernel that carry unbounded state, in-place
mutation or real arithmetic, with one client of its lists, and proves what they promise. Each module
is one component:

| module | component |
|---|---|
| RwLock, RwRoles, RwProgress | the readers-writers lock with its guard lock, condition variables and semaphores, over every interleaving; the roles that callers ask for; every call ends |
| Kernel, Waiters | the FIFO scheduler and the semaphores that block its threads, over every run; what threads get from a semaphore, and in which order |
| MergeSort, LinkedList | the natural merge sort, as mathematics and on linked elements |
| FileSys, InodeIO | ownership of sectors over every run of file system calls; file data as an array of bytes |
| Bitmap, Palloc, Malloc | bitmaps on words, the page allocator under interleaving, the block allocator |
| PageDir, PteBits, Words | two-level page tables; their entries as numbers and as the words of pte.h |
| AddressSpace, Loader | page tables, frames and page pools as an address space; the ELF loader |
| Division, Hash, HeapSort | 64-bit division, the chained hash table, heapsort and binary search |
| Format, Printf, Atoi | integer conversions, the loop over a format string, and reading integers back |
| Ustar, Archive, Extraction | tar headers, the archive on the scratch device, and its extraction into the file system |
| InterruptQueue, Serial | the interrupt queue and the serial port |
| WordCount | threads counting words into one list |
| Common | shared definitions |

Concurrent code is a transition system whose runs are arbitrary sequences of steps; on the
uniprocessor kernel a region with interrupts off is one step. Code that updates memory in place is a
class or a method on an array, proved against a function on values, and the theorems are about that
function. `dafny verify dfyconfig.toml` checks everything.

Four results differ from what one might expect of the code:

- A create that the directory refuses after a non-empty extent was laid out leaves that extent marked
  (`FileSys.CreateExact`, `FileSys.RunExact`, `FileSys.LeakExample`).
- A conversion with the 0 flag and a negative `*` width pads on both sides, because the - flag that the
  width implies comes after the point where - cancels 0 (`Format.FieldWidth`, `Format.PadsTwiceExample`).
- `INT64_MIN / -1` and remainders beyond 32 bits are not what the arithmetic says
  (`Division.Sdiv64`, `Division.Umod64`, `Division.Smod64`).
- A scan for zero bits returns the start, not 0 as its comment says (`Bitmap.Scan`).

## Model

| member | source | states |
|---|---|---|
| RwLock.StepInv | group0/src/threads/synch.c:58-358 | Any one statement of any thread that is not asleep, in sema_down, sema_up, lock_acquire, lock_release, cond_wait, cond_signal, cond_broadcast or the rw_lock calls, keeps the whole invariant: guard lock, sleepers, condition lists, signal history, counters, last test, and a waker for every waiter |
| RwLock.RunInv | group0/src/threads/synch.c:222-277 | That invariant holds after every interleaving of any number of threads |
| RwLock.MutualExclusion | group0/src/threads/synch.c:229-255 | In every run a thread inside as a writer is inside alone |
| RwLock.GuardFree | group0/src/threads/synch.c:222-277 | In every run, whenever the guard is free: AW <= 1; AW = 1 implies AR = 0; listed readers have AW + WW > 0; listed writers have AR + AW > 0 or a writer already signalled ahead of them |
| RwLock.WriterPreference | group0/src/threads/synch.c:230-242 | A reader about to be counted in has no active and no waiting writer beside it, in every run |
| RwLock.NobodyStranded | group0/src/threads/synch.c:257-277 | In every run, if a thread is anywhere inside a call, asleep or not, some thread inside a call or inside the lock can run: nobody sleeps with no one left to wake it |
| RwLock.SignalsAndWaits | group0/src/threads/synch.c:314-358 | In every run the returns from cond_wait never outnumber the signals sent to that very thread, signals are neither lost nor doubled, and a waiter off the list is about to be signalled or has been, even between lock_release and sema_down |
| RwLock.AssertionsHold | group0/src/threads/synch.c:172-210 | In every run the lock assertions of synch.c hold: who releases, waits or signals is the recorded holder, who acquires is not, and a raised semaphore belongs to a cond_wait that has not returned |
| RwLock.StepGuard | group0/src/threads/synch.c:172-210 | Every statement keeps the guard a lock: value 1 and nobody past it, or value 0 and exactly one thread past it, named by holder while set |
| RwLock.StepSleep | group0/src/threads/synch.c:58-109 | Every statement keeps sleepers and waiter lists equal and loses no wake-up on the guard |
| RwLock.StepCond | group0/src/threads/synch.c:314-358 | Every statement keeps each waiter in exactly one place: on the list, chosen by a signaller, or signalled |
| RwLock.StepCount | group0/src/threads/synch.c:229-277 | Every statement keeps AR, WR, AW and WW equal to the numbers of threads at the corresponding statements |
| RwLock.StepWaker | group0/src/threads/synch.c:257-277 | Every statement keeps a reason, or a mender, for each non-empty condition list |
| RwRoles.RoleIsAsked | group0/src/threads/synch.c:229-277 | In every run a thread past the start of rw_lock_acquire() is where the role that it last asked for takes it, as told from the calls alone |
| RwRoles.WriterAlone | group0/src/threads/synch.c:229-277 | In every run, of two different threads counted in, from the moment one goes in to the moment it is counted out, neither has asked to write |
| RwRoles.NoWriterBesideAnother | group0/src/threads/synch.c:229-255 | In every run, of two different threads inside neither has asked to write |
| RwRoles.TestDecides | group0/src/threads/synch.c:233-249 | In every run, a thread that asked to read goes in at its test if and only if no thread that asked to write is counted in or waits; one that asked to write, if and only if none is counted in |
| RwRoles.ReleaseDecides | group0/src/threads/synch.c:257-277 | In every run, whom a release signals, in terms of what threads asked for: a writer if one waits, but for a reader not the last one in; all readers if a writer leaves, no writer waits and a reader does; nobody otherwise |
| RwRoles.CondFifo | group0/src/threads/synch.c:314-358 | In every run the threads that joined a condition's list are those that signallers have turned to and then those still on it: first in, first out |
| RwRoles.GuardFifo | group0/src/threads/synch.c:58-109 | In every run the threads that went to sleep on the guard are those woken and then those still on its list: first in, first out |
| RwProgress.StepDrops | group0/src/threads/synch.c:229-277 | Every statement of a thread in a call, or in the lock, uses up work that only signals and wake-ups give back, and less than they cost: no sequence of retests after Mesa wake-ups goes on for good |
| RwProgress.CallsEnd | group0/src/threads/synch.c:222-277 | After any run, once no new calls begin, n threads can take at most n(24n + 63) statements in any order, and when none can run all calls have returned and the lock is as rw_lock_init made it: no deadlock, no livelock |
| RwProgress.SchedulerFinishes | group0/src/threads/synch.c:222-277 | After any run, every scheduler, whatever of the past it decides by, that picks a thread able to run whenever there is one brings all calls to their end, within that bound |
| Kernel.NextInv | group0/src/threads/thread.c:221-315 | Every step (create, block, unblock, yield, exit, sema_down pass, sema_up, idle) keeps the scheduler and semaphore invariant |
| Kernel.RunInv | group0/src/threads/thread.c:221-315 | The invariant holds after every run from boot |
| Kernel.OneRunning | group0/src/threads/thread.c:484-550 | In every run exactly one thread is RUNNING, the one schedule() switched to |
| Kernel.ElemOnOneList | group0/src/threads/thread.h:78-83 | In every run a thread's element is at most once on at most one list; the ready list is exactly the READY threads other than idle; BLOCKED threads other than idle are exactly those on a semaphore's list |
| Kernel.NoLostWakeUp | group0/src/threads/synch.c:58-109 | In every run a semaphore's value is initial + ups - completed downs, and while threads wait its value is at most the number of woken threads that have not resumed |
| Kernel.ScheduleNeverFails | group0/src/threads/thread.c:451-456 | Whenever schedule() is called in any run it finds a live thread, and the idle thread only if no other is READY |
| Kernel.FreedOnce | group0/src/threads/thread.c:504-531 | In every run the pages freed are those of the exited threads but the initial one, each once, in order of exit |
| Kernel.ScheduleFrees | group0/src/threads/thread.c:504-531 | The thread switched to frees the page of a dying caller in the same step |
| Kernel.FifoRun | group0/src/threads/thread.c:233-246 | Over any run a thread at ready position k is at position k - d after d picks |
| Kernel.FifoPick | group0/src/threads/thread.c:451-456 | ... and it is the thread that runs at exactly the (k + 1)-th later pick |
| Waiters.SemaFifo | group0/src/threads/synch.c:58-109 | In every run the threads that went to sleep on a semaphore are those that ups made READY and then those still on its list: first in, first out |
| Waiters.UnitsCounted | group0/src/threads/synch.c:41-109 | In every run a semaphore holds the value it was made with, a unit for each up, less one for each sema_down() or sema_try_down() that came out with one, all counted from the acts of the run |
| Waiters.DownMeans | group0/src/threads/synch.c:58-92 | In every run sema_down() and sema_try_down() find a unit if and only if the value is not 0; otherwise the first puts its caller at the end of the list and the second changes nothing |
| Kernel.Machine.DoSchedule | group0/src/threads/thread.c:538-550 | schedule() with thread_switch_tail() on the globals takes the step Schedule and restores the invariant |
| Kernel.Machine.NextThreadToRun | group0/src/threads/thread.c:451-456 | The FIFO pick: the front of the ready list, which loses it, or the idle thread; its assertion holds |
| Kernel.Machine.ThreadYield | group0/src/threads/thread.c:303-315 | thread_yield() takes the model's Yield step and keeps the invariant |
| Kernel.Machine.ThreadExit | group0/src/threads/thread.c:288-301 | thread_exit() takes the model's Exit step and keeps the invariant |
| Kernel.Machine.ThreadUnblock | group0/src/threads/thread.c:251-261 | thread_unblock() makes the thread READY at the end of the ready list and changes nothing else |
| Kernel.Machine.SemaDownPass | group0/src/threads/synch.c:58-72 | One pass of the loop in sema_down(): takes a unit or joins the list and blocks |
| Kernel.Machine.SemaUp | group0/src/threads/synch.c:99-109 | sema_up(): wakes the first waiter, if any, and adds one |
| LinkedList.List.ListSort | group0/src/lib/kernel/list.c:339-370 | For every list and strict weak order: the same elements, still a well-formed doubly linked list between the same sentinels, sorted, stable, and with passes - 1 at most the binary logarithm of the runs |
| LinkedList.List.SortPass | group0/src/lib/kernel/list.c:348-369 | One pass links the elements as Pass says and counts the runs it wrote |
| LinkedList.InplaceMerge | group0/src/lib/kernel/list.c:318-334 | Merging two adjacent runs by splicing nodes yields the stable merge between the same neighbours |
| LinkedList.FindEndOfRun | group0/src/lib/kernel/list.c:300-311 | The element found ends the longest nondecreasing run |
| LinkedList.ListSplice | group0/src/lib/kernel/list.c:157-175 | The pointer surgery moves a range before an earlier element and leaves one well-formed chain with the same ends |
| MergeSort.SortIsStable | group0/src/lib/kernel/list.c:339-370 | The result is sorted and a stable rearrangement, for every strict weak order |
| MergeSort.PassHalves | group0/src/lib/kernel/list.c:348-369 | A pass over r runs counts ceil(r / 2) output runs and leaves no more than that |
| MergeSort.PassesLogarithmic | group0/src/lib/kernel/list.c:336-339 | From two passes on, 2^(passes - 1) < runs: the number of passes is logarithmic |
| MergeSort.StableSortUnique | group0/src/lib/kernel/list.c:336-339 | There is only one stable sorted rearrangement, so the result is determined |
| FileSys.RunInv | group0/src/filesys/filesys.c:39-88 | After formatting a device of any size and any sequence of create, open, reopen, write, remove and close, the ownership invariant holds |
| FileSys.SectorsDisjoint | group0/src/filesys/inode.c:60-160 | In every run the sectors of different live, removed-but-open, root and free-map inodes never overlap, lie on the device and are marked |
| FileSys.RemovedSurvives | group0/src/filesys/directory.c:155-185 | Over any run of calls that never leaves it without an opener, whatever is reopened and closed, a file removed while open keeps its inode, the openers that the calls leave it and its marked sectors, which hold what they held but for writes by its own openers: not reused, not altered by others |
| FileSys.LastHandleReleases | group0/src/filesys/inode.c:135-155 | Over any run up to the close by its last opener, the sectors of a removed file stay marked until that close, which passes both release assertions, frees exactly them and changes nothing else |
| FileSys.FormatSucceeds | group0/src/filesys/filesys.c:79-88 | Formatting a device, and so every run, is possible if and only if it has at least four sectors |
| FileSys.FormatMeans | group0/src/filesys/filesys.c:79-88 | A formatted device of up to 4096 m sectors has just its first m + 3 in use, sixteen free directory entries, and just the free map's file open |
| FileSys.LastClose | group0/src/filesys/inode.c:135-155 | The last close of a removed file passes both release assertions, frees exactly its sectors and changes nothing else |
| FileSys.CreateExact | group0/src/filesys/filesys.c:39-50 | Creating keeps the free map exact if and only if the directory does not refuse the name after a non-empty extent was laid out |
| FileSys.RunExact | group0/src/filesys/filesys.c:39-50 | After any run the free map marks exactly the owned sectors if and only if no create of the run leaked that way |
| FileSys.LeakExample | group0/src/filesys/filesys.c:42-45 | On every freshly formatted device of six or more sectors a create under the empty name is refused and leaves its data sector marked and owned by nobody |
| FileSys.FindAfterAdd | group0/src/filesys/directory.c:115-150 | dir_add binds the new name and no other name changes its meaning |
| FileSys.FindAfterRemove | group0/src/filesys/directory.c:164-174 | Freeing the slot in which lookup finds a name, as dir_remove does, unbinds that name and no other name changes its meaning |
| FileSys.OpenMeans | group0/src/filesys/filesys.c:56-66 | filesys_open gives the inode that the name is bound to, with one more opener and not marked removed, and changes nothing else; it fails, changing nothing, exactly for a name bound to none |
| FileSys.RemoveMeans | group0/src/filesys/filesys.c:71-77 | filesys_remove succeeds exactly for a name that is bound; then that name and no other is unbound, just that inode loses its name, and it stays open as it was but marked, or exactly its sectors are freed; a failure changes nothing |
| FileSys.CloseMeans | group0/src/filesys/inode.c:135-155 | A close takes one opener from that inode and changes no other, no name and no sector; the free map changes only if it was the last opener of an inode without a name |
| FileSys.CreateFails | group0/src/filesys/filesys.c:39-50 | A failed filesys_create leaves every name, every open inode and every sector of a file as they were |
| FileSys.Volume.FilesysCreate | group0/src/filesys/filesys.c:39-50 | The call on the globals takes the step Create and keeps the invariant |
| FileSys.Volume.FilesysOpen | group0/src/filesys/filesys.c:56-66 | The call on the globals takes the step Open and keeps the invariant |
| FileSys.Volume.FilesysRemove | group0/src/filesys/filesys.c:71-77 | The call on the globals takes the step Remove and keeps the invariant |
| FileSys.Volume.ReopenInode | group0/src/filesys/inode.c:122-127 | One more opener of the same inode, a removed one too; the invariant holds |
| FileSys.Volume.CloseInode | group0/src/filesys/inode.c:135-155 | inode_close takes the step InodeClose; both release assertions hold |
| FileSys.Volume.CreateInode | group0/src/filesys/inode.c:60-89 | inode_create: the extent marked, the inode written, the extent zeroed, or nothing changed |
| FileSys.Volume.AddEntry | group0/src/filesys/directory.c:115-150 | dir_add: the first free slot, or failure with the directory unchanged |
| FileSys.Volume.DirLookup | group0/src/filesys/directory.c:73-90 | lookup finds the first slot in use under the name, or there is none |
| FileSys.Volume.FreeMapAllocate | group0/src/filesys/free-map.c:25-34 | free_map_allocate marks the first run of free sectors; if there is none, or the map cannot be written, it leaves the map as it was |
| InodeIO.Device.ReadAt | group0/src/filesys/inode.c:165-208 | Exactly min(size, length - offset), or no, bytes; they are the slice of the device at start * 512 + offset, whatever the alignment |
| InodeIO.Device.WriteAt | group0/src/filesys/inode.c:215-268 | Exactly that many bytes replaced in the device seen as one array, none else changed; 0 when writes are denied |
| InodeIO.WriteThenFile | group0/src/filesys/inode.c:215-268 | A write replaces the bytes of the file at its offset and keeps every other byte of it |
| InodeIO.WriteThenOther | group0/src/filesys/inode.c:40-46 | A write leaves every sector outside the extent as it was |
| InodeIO.Device.ReadBack | group0/src/filesys/inode.c:165-268 | A write and then a read of the same range, at any alignment: what is read is what was written and stands in the file, which is otherwise as it was |
| InodeIO.ReadIsFile | group0/src/filesys/inode.c:165-205 | What a read returns is the file's own bytes, whatever the sectors around it hold |
| InodeIO.SectorsFew | group0/src/filesys/inode.c:22-24 | bytes_to_sectors is the least number of sectors that hold the bytes |
| Malloc.MallocGives | group0/src/threads/malloc.c:83-142 | malloc keeps the invariant, gives a block nobody holds that is large enough, and fails exactly for size 0 or when neither free list nor page allocator can serve |
| Malloc.BigMeans | group0/src/threads/malloc.c:96-112 | malloc of more than 1024 bytes succeeds if and only if there is a free run of some n pages that hold size + 12 bytes, and takes the least such n |
| Malloc.SmallMeans | group0/src/threads/malloc.c:90-142 | malloc of up to 1024 bytes gives a block of the smallest size of 16, 32, ..., 1024 that is large enough, and fails only if no page is free |
| Malloc.BlocksFit | group0/src/threads/malloc.c:68-79 | An arena has as many blocks of its size as fit into a page behind the header |
| Malloc.FreeReturnsPage | group0/src/threads/malloc.c:196-234 | free: free_cnt never passes the block count; the page goes back exactly if no other block of it is held, and then exactly its blocks leave the list |
| Malloc.FreeBigMeans | group0/src/threads/malloc.c:228-232 | free of a block with pages of its own clears exactly the bits of these pages and changes no other block |
| Malloc.ReallocKeeps | group0/src/threads/malloc.c:178-191 | realloc keeps every other block; on success the new block begins with the old bytes as far as both reach, on failure the old block stays |
| Malloc.ReallocNothing | group0/src/threads/malloc.c:178-181 | realloc to 0 bytes frees the block, if there is one, and returns none; every other block is kept |
| Malloc.ReallocFresh | group0/src/threads/malloc.c:182-191 | realloc of no block is malloc, and keeps every block |
| Malloc.RunDisjoint | group0/src/threads/malloc.c:83-257 | In every run held blocks are at least as large as asked, in marked pages, disjoint from each other, from free blocks and from headers |
| Malloc.RunKept | group0/src/threads/malloc.c:83-257 | In every run a block and all its bytes stay as they are until a call is about it |
| Malloc.AllReturned | group0/src/threads/malloc.c:216-227 | In every run, once all blocks are freed the allocator holds no page |
| Malloc.NextInv | group0/src/threads/malloc.c:83-234 | Every call keeps the heap invariant, among it free_cnt = number of the arena's blocks on the free list |
| Malloc.BlkFacts | group0/src/threads/malloc.c:237-257 | arena_to_block lies in its page behind the header and block_to_arena inverts it |
| Malloc.MallocInit | group0/src/threads/malloc.c:68-79 | The loop sets up the seven sizes 16 to 1024 with their blocks per arena |
| Malloc.Allocator.DoMalloc | group0/src/threads/malloc.c:83-142 | malloc on lists and counters, with its loops, computes the function Malloc and keeps the invariant |
| Malloc.Allocator.DoFree | group0/src/threads/malloc.c:196-234 | free on lists and counters computes the function Free; the assertions of block_to_arena and on free_cnt hold |
| Malloc.Allocator.UnlistBlocks | group0/src/threads/malloc.c:219-224 | The loop that unlists an empty arena removes exactly its blocks, each of which is there |
| Palloc.RunInv | group0/src/threads/palloc.c:65-126 | In every bit-level interleaving of allocation under the lock and freeing without it, bits, claims and positions stay consistent |
| Palloc.NoPageTwice | group0/src/threads/palloc.c:65-126 | In every interleaving no two threads hold the same page and a held page's bit is set |
| Palloc.NoAssertionFails | group0/src/threads/palloc.c:103-126 | In every interleaving the all-set assertion of palloc_free_multiple holds |
| Palloc.QuietIsExact | group0/src/threads/palloc.c:65-126 | When no call is in progress the set bits are exactly the pages held |
| Palloc.GetMeans | group0/src/threads/palloc.c:65-92 | In every interleaving a successful palloc_get_multiple gives as many contiguous pages as the call asked for, none of which the caller held; it fails only if every group of that many pages had a page in use at some time since the call began |
| Bitmap.Scan | group0/src/lib/kernel/bitmap.c:235-247 | The first group of n bits equal to v from the start, or none exists; with n = 0 the start itself, as the code has it |
| Bitmap.BitArray.Mark | group0/src/lib/kernel/bitmap.c:118-127 | The or on a word sets the one bit of the sequence |
| Bitmap.BitArray.Reset | group0/src/lib/kernel/bitmap.c:129-138 | The and on a word clears the one bit of the sequence |
| Bitmap.BitArray.Flip | group0/src/lib/kernel/bitmap.c:142-151 | The exclusive or on a word flips the one bit of the sequence |
| Bitmap.BitArray.SetMultiple | group0/src/lib/kernel/bitmap.c:169-178 | The loop sets exactly the bits of the range |
| Bitmap.BitArray.CountBits | group0/src/lib/kernel/bitmap.c:182-194 | The loop counts the bits of the range equal to v |
| Bitmap.BitArray.Contains | group0/src/lib/kernel/bitmap.c:198-210 | Whether some bit of the range is v |
| Bitmap.BitArray.ScanBits | group0/src/lib/kernel/bitmap.c:235-247 | The loop computes Scan |
| Bitmap.BitArray.ScanAndFlip | group0/src/lib/kernel/bitmap.c:256-261 | The group found, if any, is flipped and nothing else |
| Bitmap.LastMaskBits | group0/src/lib/kernel/bitmap.c:48-51 | Masking the last word keeps the bits in use and clears the rest |
| Bitmap.FlipBack | group0/src/lib/kernel/bitmap.c:256-261 | Flipping the group back restores the map |
| Division.Nlz | group0/src/lib/arithmetic.c:37-63 | Shifting left by the result brings the top bit of any nonzero word to bit 31 |
| Division.EstimateFacts | group0/src/lib/arithmetic.c:102-108 | The normalised estimate is the true quotient or one more, and its divl does not trap |
| Division.Udiv64 | group0/src/lib/arithmetic.c:67-110 | Floor division for all 64-bit n and nonzero d, neither divl trapping |
| Division.Sdiv64 | group0/src/lib/arithmetic.c:119-124 | Truncating division, if and only if not INT64_MIN / -1, which gives INT64_MIN |
| Division.Umod64 | group0/src/lib/arithmetic.c:115-115 | The low 32 bits of the remainder: the remainder if and only if it fits |
| Division.Smod64 | group0/src/lib/arithmetic.c:128-128 | The remainder with the dividend's sign, if and only if it is a 32-bit integer |
| Hash.HashTable.Insert | group0/src/lib/kernel/hash.c:85-95 | For any memory outcome: an equal element stays and is returned, else the new one is added; order, count and bucket placement stay valid |
| Hash.HashTable.Replace | group0/src/lib/kernel/hash.c:99-110 | The new element goes in place of an equal one, which is returned |
| Hash.HashTable.Find | group0/src/lib/kernel/hash.c:114-116 | An equal element of the whole table, or none exists |
| Hash.HashTable.Delete | group0/src/lib/kernel/hash.c:125-133 | An equal element goes and is returned, or nothing changes |
| Hash.HashTable.Rehash | group0/src/lib/kernel/hash.c:288-343 | The same elements, each in bucket hash mod count; the ideal count with memory, the old one without |
| Hash.BestCount | group0/src/lib/kernel/hash.c:299-307 | The loop finds the largest power of two at most max(4, elem_cnt / 2) |
| Hash.TurnOffIs | group0/src/lib/kernel/hash.c:274-277 | x & (x - 1) is zero exactly for powers of two and otherwise keeps the top bit |
| Hash.MaskIsMod | group0/src/lib/kernel/hash.c:255-258 | With a power of two as count, masking the hash is hash mod count |
| Hash.OneOfEach | group0/src/lib/kernel/hash.c:85-133 | A valid table holds at most one element of each class, over all buckets |
| Hash.HashIterator.Next | group0/src/lib/kernel/hash.c:190-203 | hash_next returns the first element still to come and drops it |
| Hash.FlatIsAll | group0/src/lib/kernel/hash.c:173-203 | What the iterator has to come, from the first bucket, is every element exactly as often as the table holds it |
| Loader.Process.Load | group0/src/userprog/process.c:300-361 | load succeeds if and only if every header is fine, as LoadableMeans says it, the file has the bytes, no two segments touch a page in common, none touches the stack page, and there are frames and page tables enough; then every segment byte is the file's byte or zero as the ELF specification wants, with the right write permission, plus a zero stack page and no other page. Successful or not, directory, tables and frames stand for the address space, with every page in one place |
| Loader.LoadableMeans | group0/src/userprog/process.c:300-361 | When load succeeds, said of headers, file and memory in unbounded integers: every header is fine, its file bytes are there, no two segments touch a page in common, none touches the stack page, and there are as many frames and page tables as the pages touched need |
| Loader.HeaderMeans | group0/src/userprog/process.c:300-408 | A header is acceptable if and only if it is readable and is either of a kind that is ignored, or a segment whose offset and address agree mod 4096, with offset <= file length, filesz <= memsz, 0 < memsz, 4096 <= vaddr and vaddr + memsz < 0xc0000000 |
| Loader.Process.LoadSegment | group0/src/userprog/process.c:426-463 | Succeeds exactly if frames, page tables, file and free pages suffice; adds exactly the region's pages |
| Loader.Process.LoadHeader | group0/src/userprog/process.c:300-348 | One program header: progress of both halves of the equivalence |
| Loader.Process.SetupStack | group0/src/userprog/process.c:468-482 | A zero writable page at the top of user space, exactly if there are a frame and a page table and the page is free |
| Loader.PlanExact | group0/src/userprog/process.c:324-341 | For a valid segment no 32-bit sum or difference wraps, the assertions of load_segment hold, page 0 is not touched |
| Loader.Process.InstallPage | group0/src/userprog/process.c:492-499 | install_page fails exactly if the page is mapped or a page table is missing and not to be had; otherwise the address space gains just that page |
| AddressSpace.InstallRefines | group0/src/userprog/process.c:492-499 | Installing an unmapped frame in the page table adds just that page to the address space |
| AddressSpace.InstallSound | group0/src/userprog/pagedir.c:87-105 | ... and keeps frames mapped once, apart from page tables and from both pools, and page tables just where pages need them |
| PageDir.SetPageMaps | group0/src/userprog/pagedir.c:87-105 | pagedir_set_page adds the one mapping and changes no other |
| PageDir.ClearPageUnmaps | group0/src/userprog/pagedir.c:126-137 | pagedir_clear_page removes the one mapping and changes no other |
| PageDir.FreedIs | group0/src/userprog/pagedir.c:24-40 | pagedir_destroy frees exactly the page tables and the mapped frames |
| PageDir.FreedOnce | group0/src/userprog/pagedir.c:24-40 | ... each once, and the directory's own page too, when frames are distinct |
| PageDir.EntryRoundTrip | group0/src/threads/pte.h:67-98 | Entries, as numbers, give back the address and the write permission they were made from |
| PteBits.CreateBits | group0/src/threads/pte.h:67-94 | The ors of pde_create and pte_create_user on any aligned word are the additions of the model |
| PteBits.ReadBits | group0/src/threads/pte.h:48-98 | The masks for presence, permission and address, and clearing presence, on any word are the divisions and remainders of the model |
| PteBits.IndexBits | group0/src/threads/pte.h:20-32 | pd_no and pt_no, by shift and mask, are the indices of the model on every address |
| PteBits.EntryRoundTrip | group0/src/threads/pte.h:67-98 | On words: entries give back the address and the write permission, and are present and for user code |
| Words.ValueToBits | group0/src/threads/pte.h:48-98 | Every 32-bit number is the value of a word, so that what holds of all words holds of all entries of the model |
| PageDir.Directory.LookupPage | group0/src/userprog/pagedir.c:50-76 | lookup_page makes a missing page table if asked and able, and changes no mapping |
| PageDir.Directory.SetPageAt | group0/src/userprog/pagedir.c:87-105 | Fails only for want of a page table; otherwise exactly the one mapping is added |
| PageDir.Directory.GetPage | group0/src/userprog/pagedir.c:110-121 | The frame plus the offset, or nothing for an unmapped page |
| PageDir.Directory.ClearPageAt | group0/src/userprog/pagedir.c:126-137 | The entry's present bit goes, and only that |
| PageDir.Directory.Destroy | group0/src/userprog/pagedir.c:24-40 | The nested loops free what Freed lists, then the directory |
| HeapSort.Heapify | group0/src/lib/stdlib.c:82-104 | From ordered subtrees below i the heap from i on is ordered; a rearrangement of the first cnt elements, the rest untouched |
| HeapSort.Sort | group0/src/lib/stdlib.c:112-129 | A sorted permutation for every array and every total preorder |
| HeapSort.BinarySearch | group0/src/lib/stdlib.c:159-178 | On a sorted array: an element that compares equal, if and only if there is one |
| HeapSort.RootIsLargest | group0/src/lib/stdlib.c:112-129 | The root of a heap is its largest element |
| Format.FormatInteger | group0/src/lib/stdio.c:456-528 | For every value, base, flag, width and precision the 64-byte buffer suffices and the output is the rendering |
| Format.RenderWidth | group0/src/lib/stdio.c:507-527 | The length of a rendering: the field width or the natural length, whichever is larger, except that - and 0 together pad twice |
| Format.FieldWidth | group0/src/lib/stdio.c:343-527 | For every format and arguments: max(width, natural length) characters, if and only if not (0 flag, no - flag, negative * width, no precision, and something to pad) |
| Format.PadsTwiceExample | group0/src/lib/stdio.c:371-407 | %0*d of 7 with width -5 prints nine characters |
| Format.BodyDenotes | group0/src/lib/stdio.c:484-505 | Whatever the flags and the base, the digits printed denote the value |
| Format.GroupingMeans | group0/src/lib/stdio.c:484-496 | With the grouping flag the same digits are printed, and a comma stands behind a digit if and only if the number of digits after it is a positive multiple of the group size |
| Format.ParseConversion | group0/src/lib/stdio.c:343-448 | Flags, width, precision and type as the format and the arguments give them, with the code's order of flag corrections, where the letter stands, and how many arguments are used |
| Format.SpecMeans | group0/src/lib/stdio.c:343-448 | For a conversion written as flags, width or *, precision or *, length modifier and letter: the flags, width and precision it asks for, the bits of its type, where it ends and how many arguments it uses |
| Format.Vsnprintf | group0/src/lib/stdio.c:24-47 | The buffer gets the first buf_size - 1 characters and a null, the rest of it is untouched, the result is the full length |
| Printf.Vprintf | group0/src/lib/stdio.c:140-341 | The loop over a format string prints each piece of text as it is and each integer, character, string or pointer conversion as its flags, width, precision and type say, with the arguments taken in turn; letters it does not know are reported in the output |
| Printf.FormatMeans | group0/src/lib/stdio.c:140-341 | A format written from characters, %% and conversions prints just what these pieces mean, in turn, each conversion with its own arguments |
| Printf.UnsignedReads | group0/src/lib/stdio.c:201-259 | What o, u, x and X print, without blanks and 0x, read in base 8, 10 or 16 is the argument; # puts 0x or 0X in front of all figures, padding zeros too, of a number other than 0 and makes an octal number begin with 0; x has lower-case figures, X upper-case ones; - pads on the right only, and 0 never with blanks on the left |
| Printf.SignedReads | group0/src/lib/stdio.c:164-199 | What d and i print for any type: blanks, the sign that the flags ask for, figures that denote the absolute value, blanks, on the sides that the flags ask for |
| Printf.StringReads | group0/src/lib/stdio.c:267-277 | A string is cut to the precision and fills its field, on the left with the - flag and on the right without; the null pointer prints (null) |
| Printf.PointerReads | group0/src/lib/stdio.c:279-286 | %p prints the address in hexadecimal, with 0x unless it is null |
| Printf.Snprintf | group0/src/lib/stdio.c:24-67 | The buffer gets the first buf_size - 1 characters of what the format prints and a null, the rest of it is untouched, the result is the full length |
| Printf.SignedKeeps | group0/src/lib/stdio.c:164-199 | An argument within its signed type is converted as it is, whatever the width of the type |
| Printf.PrintThenRead | group0/src/lib/stdlib.c:9-38 | What any single conversion of an int to signed decimal in a format string prints, with any flags, width and precision, atoi reads back as that int, if and only if no commas are printed |
| Atoi.ParseInt | group0/src/lib/stdlib.c:9-38 | The number that blanks, sign and digits denote, without overflow if and only if it is an int |
| Atoi.DenotesMeans | group0/src/lib/stdlib.c:9-38 | That number is written behind white space and at most one sign, and ends at the first character that is no digit |
| Atoi.RoundTrip | group0/src/lib/stdlib.c:9-38 | atoi of what a signed decimal conversion prints, with any flags, width and precision, is the int printed, if and only if no commas are printed |
| Ustar.StripPrefixes | group0/src/lib/ustar.c:60-64 | The loop terminates and computes Strip |
| Ustar.StripSafe | group0/src/lib/ustar.c:51-64 | A stripped name begins with none of /, ./ and ../, is neither empty nor .., is a tail of the name behind a slash, and stripping is idempotent |
| Ustar.StripMeans | group0/src/lib/ustar.c:60-64 | Of a name made of pieces /, ./ and ../ and a rest that begins with none of them, exactly the rest is left, or . for no rest and for .. |
| Ustar.StripSplits | group0/src/lib/ustar.c:60-64 | Every name is made in that way |
| Ustar.StripLeaves | group0/src/lib/ustar.c:60-64 | A name that begins with none of /, ./ and ../ and is neither empty nor .. is its own stripped name |
| Ustar.ParseOctalField | group0/src/lib/ustar.c:116-140 | One or more octal digits closed inside the field by a blank or a null, if and only if the number fits 32 bits |
| Ustar.OctalMeans | group0/src/lib/ustar.c:107-140 | Octal digits with a blank or a null behind them have the value they denote if it fits 32 bits, whatever follows |
| Ustar.OctalOnly | group0/src/lib/ustar.c:107-140 | Nothing else has a value |
| Ustar.CalculateChecksum | group0/src/lib/ustar.c:34-49 | The sum of the 512 bytes with the checksum field as blanks |
| Ustar.SumMeans | group0/src/lib/ustar.c:34-49 | The checksum is the sum of the bytes before its field, eight blanks, and the bytes behind it |
| Ustar.MakeHeader | group0/src/lib/ustar.c:73-104 | Fails exactly for stripped names over 99 bytes; otherwise every byte of the header, no field overflowing |
| Ustar.MadeMeans | group0/src/lib/ustar.c:87-102 | The fields of a made header, read back: the stripped name, mode 0644 for a file and 0755 for a directory, user and group 0, size, time, type, magic, version, checksum, root twice, and nulls everywhere else |
| Ustar.ParseHeader | group0/src/lib/ustar.c:157-198 | Every error in the order of the code, the end mark, or the entry |
| Ustar.ReadingMeans | group0/src/lib/ustar.c:157-198 | A block is accepted if and only if magic, version, checksum and the ends of the name and prefix fields are right and it is a directory, or a regular file whose size is an int; it then gives name, type and size; it is the end mark if and only if it is all zeros |
| Ustar.RoundTrip | group0/src/lib/ustar.c:73-198 | Parsing a made header gives the stripped name, the type, and the size of a regular file (0 for a directory); a negative size is refused |
| Ustar.ReadingSafe | group0/src/lib/ustar.c:157-198 | An accepted entry has a safe name and a size that is an int |
| Ustar.OneByteChanged | group0/src/lib/ustar.c:34-49 | A header with one byte changed outside the checksum field is never accepted |
| Archive.Scratch.Append | group0/src/filesys/fsutil.c:149-203 | Panics exactly for a long name or a full device; otherwise the archive gains this file and its end mark, and no other sector changes |
| Archive.Scratch.Extract | group0/src/filesys/fsutil.c:65-137 | The files the device lists, or a panic; the first two sectors erased, so that a later extraction from the start finds nothing |
| Archive.Scratch.CopyIn | group0/src/filesys/fsutil.c:114-121 | The sector loop returns the file's bytes, or panics past the end of the device |
| Archive.Scratch.CopyOut | group0/src/filesys/fsutil.c:182-192 | The sector loop writes the contents, the last sector filled with zeros |
| Archive.ExtractUndoesAppend | group0/src/filesys/fsutil.c:65-203 | Any sequence of appended files is extracted in order, byte for byte, under the stripped names |
| Archive.DamagePanics | group0/src/filesys/fsutil.c:92-95 | A single byte changed in any header of an archive, outside its checksum field, makes the extraction panic |
| Archive.DirectoriesIgnored | group0/src/filesys/fsutil.c:100-101 | A directory entry is passed over, with no contents |
| Extraction.CreateSucceeds | group0/src/filesys/filesys.c:39-50 | filesys_create succeeds if and only if the name has 1 to 14 characters and is not in use, a directory slot is free, and there are a sector for the inode and a run of others for the data |
| Extraction.CreateFresh | group0/src/filesys/filesys.c:39-50 | A successful filesys_create binds the new name, and no other, to a new inode of that length with zeros in sectors that no file had, and changes nothing else |
| Extraction.LeaksMeans | group0/src/filesys/filesys.c:42-45 | A create leaks exactly if the file is not empty, there is room for it, and the name is too short, too long or in use or the directory is full |
| Extraction.StoreHolds | group0/src/filesys/fsutil.c:108-126 | Create, open, write and close of one extracted file: a panic exactly if it cannot be created; otherwise the file system has it byte for byte, every other file as before, and the same inodes open |
| Extraction.AllStored | group0/src/filesys/fsutil.c:85-127 | ... and so for all files of an archive, whose names are then new and different from each other |
| Extraction.ExtractInstalls | group0/src/filesys/fsutil.c:85-198 | Whatever was appended to the scratch device is afterwards in the file system under the stripped names, byte for byte, beside all that was there; the extraction panics exactly when some file cannot be created after those before it |
| InterruptQueue.Intq.Get | group0/src/devices/intq.c:31-46 | One pass of intq_getc: the oldest byte leaves the ring and a thread waiting for room is woken, or the ring is empty and the caller waits |
| InterruptQueue.Intq.Put | group0/src/devices/intq.c:51-63 | One pass of intq_putc: the byte joins the end and a thread waiting for a byte is woken, or the ring of 63 bytes is full and the caller waits |
| InterruptQueue.Intq.Full | group0/src/devices/intq.c:23-26 | Full means 63 bytes |
| Serial.StepKeeps | group0/src/devices/serial.c:94-206 | No step of writer, interrupt handler or flush fails an assertion, except entering queue mode twice, and each keeps the invariant |
| Serial.PutcMeans | group0/src/devices/serial.c:94-121 | In queue mode the byte joins the queue; if that is full, a caller with interrupts on sleeps, and one with interrupts off first sends the oldest byte |
| Serial.InterruptsEnabled | group0/src/devices/serial.c:160-176 | After every call that reassesses them, the transmit interrupt is on if and only if a byte is queued, the receive interrupt if and only if the input buffer has room |
| Serial.Lossless | group0/src/devices/serial.c:94-206 | Over every run wire, then queue, then the byte a sleeping writer holds, are the bytes given to serial_putc in order; a non-empty queue has the transmit interrupt on; a sleeping writer faces a full queue |
| Serial.Drains | group0/src/devices/serial.c:189-206 | Once nothing more is passed in, at most so many interrupts and resumptions move a byte as there are bytes queued, and two for a byte that the writer holds, in any order and between anything else; one is possible while a byte is left; then all is on the wire, in order |
| Serial.TransmitKeeps | group0/src/devices/intq.c:31-46 | Bytes go out in order and the first one wakes a sleeping writer |
| WordCount.WordList.AddWord | hw-list/word_count_p.c:63-88 | The scan finds the word and counts it, or appends it with count 1 |
| WordCount.StepKeeps | hw-list/word_count_p.c:63-88 | Every statement of every thread keeps mutual exclusion, the list equal to that of one thread counting the same words, and the words conserved |
| WordCount.AllCounted | hw-list/word_count_p.c:63-88 | After any complete schedule the words counted are exactly the inputs' |
| WordCount.SequentialCounts | hw-list/word_count_p.c:63-88 | The list has one entry per word with exactly its number of occurrences |
| WordCount.NotStuck | hw-list/word_count_p.c:63-88 | While words are left some thread can step |
| WordCount.SchedulesEnd | hw-list/word_count_p.c:63-88 | Every schedule of n words ends within n(n + 4) steps, and one that cannot go on has counted every word: no deadlock and no endless scan |
| WordCount.ScheduleIndependent | hw-list/word_count_p.c:107-112 | For a strict total order the sorted list after any schedule is the one a single thread makes |

## Left out

- Hardware: port I/O, inline assembly, disk, display, keyboard and timer drivers, boot code and descriptor tables; divl is exact division and the bitmap instructions are the logical operations.
- The priority, fair and MLFQS schedulers, user threads and most system calls, which are stubs in the code.
- list_insert, list_remove, list_reverse, list_insert_ordered, list_unique, list_max and list_min.
- lock_try_acquire, the self test, and thread statistics.
- Kernel.ElemOnOneList: a thread between init_thread() and thread_unblock(), and one asleep in wait() of intq.c, is BLOCKED on no semaphore's list; thread_create() is one step of the model, and threads sleep on semaphores only.
- LinkedList.ListSplice: the range moves to an earlier place of the same list, as the sort moves it; list_splice() would also take it to a later place or to another list, and nothing else in the kernel calls it.
- Malloc.RunDisjoint: calls are made one at a time; the descriptor locks and the interleaving of calls that they allow are not modelled.
- calloc, and malloc requests near the top of the address range: sizes do not wrap in the model.
- The free map's copy on disk, writes of it that fail in the middle of a file system call, short directory reads when a bounce buffer cannot be had, and dir_readdir.
- hash_clear, hash_destroy, hash_apply and the hash functions themselves; the two callbacks are parameters.
- pagedir_create, the dirty and accessed bits, and the activation of a page directory.
- The ELF header checks before the program headers; the model starts at the headers.
- The element size of sort and the byte loop of its swap: elements are swapped whole.
- Format.Vsnprintf: takes the output of the loop over the format string as given; Printf.Snprintf puts the two together.
- Printf.Vprintf: %f is not modelled; an argument is a number that fits its type or wraps to it, a string is a function of its address, and integer arithmetic on widths and precisions and the negation of the least intmax_t do not overflow in the model.
- Atoi.ParseInt: an overflow of int, undefined in C, is the result None.
- Archive.Scratch.Extract: the result lists the files found; module Extraction creates and fills them, with memory to be had.
- Archive.Scratch.Append: the file is given by its contents instead of being read through a file handle.
- Serial.Lossless: one writing thread; bytes received and several threads waiting for one queue are not modelled, since the queue's own assertion on waiting does not survive them.
- WordCount.ScheduleIndependent: reading words from files, and counts beyond the range of int.
