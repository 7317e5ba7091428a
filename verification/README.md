# Dafny models of stateful components of yuzu

Eleven self-contained components of the repository, one Dafny module each (the host memory component and its
operating system are two), and proofs about every run of them. `dafny verify dfyconfig.toml` checks everything.

| file | component | what is proved about it |
|---|---|---|
| `PlaceholderArena.dfy`, `HostMemory.dfy` | the Windows fastmem arena | the tracker and the operating system's placeholders never drift apart: every request made of Windows is one that it accepts, and after any history of maps and unmaps every address translates as the last operation touching it said |
| `Fiber.dfy` | `Fiber::YieldTo`, `Start`, `Rewind`, `Exit`, `ThreadToFiber` | under every interleaving a switch leads to the fiber it names, no fiber runs on two threads and every jump resumes the latest suspension point; exchanging running fibers deadlocks for good, whatever happens afterwards, and under the documented rule nothing does |
| `BoundedQueue.dfy` | `SPSCQueue`, `MPSCQueue`, `MPMCQueue` | first in, first out under every interleaving, with wrapping indices; every call does what its return value says; no wakeup is lost, and threads inside are stuck only when the queue is full or empty |
| `Semaphore.dfy` | `LightweightSemaphore` | conservation of units, for one waiter and one signaller, what each wait returns, and exactly when `signal` keeps it |
| `Getopt.dfy` | `exchange_a`, `_getopt_internal_r_a` for short options | calling until -1 terminates exactly if the scan does not jam; then it reports what the command line means and leaves argv a stable partition, in all three orderings; what option strings and elements mean, in terms of their text |
| `LruCache.dfy` | `LeastRecentlyUsedCache` | the linked list over a recycled id pool refines a plain sequence in every history, which is told by the uses of its items alone; after every timely history the visit covers exactly what is not newer than the bound, taken as a signed time |
| `ParamPackage.dfy` | `ParamPackage` printing and parsing, with `SplitString` and `ReplaceAll` | the round trip is the identity exactly if no value is empty |
| `FixedPoint.dfy` | division and multiplication without a wider type | equal to the wide versions exactly under stated conditions, and how far off at most in every format |
| `StopState.dfy` | `polyfill::stop_state` | callbacks run exactly once unless a caller or callback removed them, oldest first, never after removal; the drain terminates and leaves nothing, with callbacks that call back |
| `BumpAllocator.dfy` | the demangler's `BumpPointerAllocator` | regions of any run of requests are apart, aligned and inside their block; every block is freed once |
| `MicroProfile.dfy` | log entries, frame ranges and the replay loop | exclusive ticks are conserved; in nested ranges every timer gets exactly the ticks that the nesting of the entries gives it, also for scopes carried over from earlier frames; when the stacks are overrun |

`Arithmetic.dfy` holds facts about division and powers of two that the others need, `Options.dfy` the type of
values that may be absent, and `Sequences.dfy` how concatenations regroup.

Sequential components that update objects in place are classes and methods with loops, proved against
specifications that do not share their control flow. The concurrent ones are machines of small steps: a run is
any sequence of enabled steps of any threads, and results quantify over all runs. What the environment decides
(the address of a reservation, the iteration order of an unordered map, which sleeper a notification wakes, when
a wait times out, what a callback does) is a parameter, so results hold for every choice. malloc and the
placeholder calls of Windows are classes of their own: their `requires` clauses are the conditions under which
the call is legal, so that every call site carries the proof that it is.

## Where the code departs from what it says

- `UnmapOnePlaceholder` is documented to return true when no placeholder is left (src/common/host_memory.cpp:221);
  it returns true when it unmapped one, which is what its caller needs.
- `IsNiechePlaceholder` does not recognise a placeholder that reaches the upper end of the arena. It is never
  asked about one, because the constructor keeps ranges away from both ends (`HostMemory.NiecheTestExact`,
  `HostMemory.ClearOfBothEnds`).
- The capacity assertion of the queue admits zero (src/common/bounded_threadsafe_queue.h:22). Zero is excluded here.
- `signal` asserts only that the count is not negative; a signal of zero units to a committed waiter forges a
  unit (`Semaphore.SignalZeroForgesUnit`, and the exact condition `Semaphore.SignalKeepsBooksExactly`).
- Without long options, an option `W;` that is followed by more characters in its element, as in `-Wx` or `-aWx`,
  makes getopt enter that element again and again. The predicate `Jams` says from the command line alone whether the
  scan gets there, and calling until -1 ends exactly if it does not (`Getopt.ParseAll`, `Getopt.StuckOnW`).
- The least recently used cache compares unsigned ticks as signed numbers. That is what callers need, who subtract
  from a clock that starts at zero: such a bound is a time before zero and visits nothing (`LruCache.VisitsSigned`).
  Taken without sign, ticks and bound agree only under a condition on their sign bits
  (`LruCache.VisitsExactlyOlder`, `LruCache.SignBitIsVisited`).
- A parameter package with an empty value loses that entry; an empty key survives (`ParamPackage.RoundTripExactly`).
- The fallback division cuts a large remainder and its divisor to fewer bits. The fraction can then be wrong, and
  a fraction cut to one is or-ed onto the quotient instead of added (`FixedPoint.LargeRemainderDiffers`,
  `FixedPoint.CarryIsLost`). It always agrees if the remainder is below 2^(bits - F), and for even and most odd
  remainders only then (`FixedPoint.RoomIsNeeded`). With one exception it is off by one at most if 2F < bits, and by
  2^(2F - bits + 1) at most otherwise (`FixedPoint.DivideOff`, `FixedPoint.OffByTwo`).
- The fallback multiplication wraps the product of the fraction parts, which matters exactly if it needs the sign
  bit (`FixedPoint.MultiplyAgreesExactly`, `FixedPoint.MultiplyDiffers`).
- The mask `~15u` in the bump allocator has 32 bits, so that requests above 2^32 - 16 bytes shrink
  (`BumpAllocator.RoundedCovers`, `BumpAllocator.HugeRequestGetsNothing`).
- MicroProfile asserts that the stack position is below `MICROPROFILE_STACK_MAX`, but at the last position the
  child ticks are already cleared out of bounds (`MicroProfile.OverrunExactly`, `MicroProfile.DeepestScopeOverruns`).

## Model

| member | source | states |
|---|---|---|
| `PlaceholderArena.Arena.Split` | src/common/host_memory.cpp:300-305 | splitting is legal exactly for a proper part of one placeholder, and leaves two or three placeholders in its place |
| `PlaceholderArena.Arena.Coalesce` | src/common/host_memory.cpp:307-312 | coalescing is legal exactly for the union of two or more adjacent placeholders, and leaves one |
| `PlaceholderArena.Arena.MapView` | src/common/host_memory.cpp:293-298 | a view replaces exactly one whole placeholder and stays inside the backing memory |
| `PlaceholderArena.Arena.UnmapView` | src/common/host_memory.cpp:243-246 | only a whole view can be unmapped, and its range becomes a placeholder again |
| `PlaceholderArena.Arena.Release` | src/common/host_memory.cpp:202-206 | only a reservation that is one single placeholder can be given back |
| `PlaceholderArena.TilingUnique` | src/common/host_memory.cpp:243-246 | in a tiling an address lies in one region, so what an address passed to the system names is determined |
| `HostMemory.LayoutTranslates` | src/common/host_memory.cpp:139-148 | when every gap between tracked intervals is one placeholder, the regions tile the arena and translate each address as the tracker's intervals and offsets do |
| `HostMemory.Impl.HardwareAgrees` | src/common/host_memory.cpp:314-322 | in every valid state the system's regions tile the arena and its translation of any address is the tracker's |
| `HostMemory.Impl.constructor` | src/common/host_memory.cpp:84-133 | a new arena is one placeholder and tracks nothing |
| `HostMemory.Impl.TrackPlaceholder` | src/common/host_memory.cpp:314-317 | tracking inserts the interval at its place without merging neighbours and keeps the offset map's keys equal to the lower bounds |
| `HostMemory.Impl.UntrackPlaceholder` | src/common/host_memory.cpp:319-322 | untracking removes one interval and its offset and keeps the two in step |
| `HostMemory.CutTranslates` | src/common/host_memory.cpp:240-261 | cutting a hole out of a view leaves every address outside the hole translated as before |
| `HostMemory.CutMeetsLess` | src/common/host_memory.cpp:229-232 | cutting at the range's borders leaves fewer intervals that meet the range, which makes Unmap terminate |
| `HostMemory.HealedIsLayout` | src/common/host_memory.cpp:264-280 | after splitting, remapping survivors and coalescing left and right, the middle of the arena again has one placeholder per gap |
| `HostMemory.Impl.DropView` | src/common/host_memory.cpp:243-254 | unmapping the view and splitting the hole out of it are legal and leave bare placeholders |
| `HostMemory.Impl.PunchHole` | src/common/host_memory.cpp:243-261 | together they leave a bare hole between the survivors, which translate as before |
| `HostMemory.Impl.RemapSurvivor` | src/common/host_memory.cpp:255-261 | mapping what is left of the view on one side is legal and makes it a view again |
| `HostMemory.Impl.CoalesceLeft` | src/common/host_memory.cpp:264-271 | the hole joins the gap to its left when the view starts with it, and the request is legal |
| `HostMemory.Impl.CoalesceRight` | src/common/host_memory.cpp:272-280 | the hole joins the gap to its right when the view ends with it, and the request is legal |
| `HostMemory.Impl.CutView` | src/common/host_memory.cpp:240-280 | the system's regions after the cut are the layout of the mappings with the hole cut out |
| `HostMemory.Impl.Retrack` | src/common/host_memory.cpp:281-289 | the tracked intervals and offsets become those of the survivors |
| `HostMemory.Impl.UnmapOnePlaceholder` | src/common/host_memory.cpp:222-291 | returns false exactly if nothing meets the range; otherwise validity is kept, addresses outside the range keep their translation and fewer intervals meet the range |
| `HostMemory.Impl.IsNiechePlaceholder` | src/common/host_memory.cpp:326-333 | true exactly if the range is a whole placeholder of the system |
| `HostMemory.NiecheTestExact` | src/common/host_memory.cpp:326-333 | the neighbour test is true exactly for a range that is a whole placeholder and does not reach the arena's upper end |
| `HostMemory.NiecheTestBlindAtUpperEnd` | src/common/host_memory.cpp:326-333 | a placeholder at the upper end that the neighbour test does not recognise |
| `HostMemory.Impl.Map` | src/common/host_memory.cpp:139-148 | validity is kept, the range translates to the host range and all other addresses as before |
| `HostMemory.Impl.Unmap` | src/common/host_memory.cpp:150-156 | terminates, validity is kept, nothing in the range translates and all other addresses translate as before |
| `HostMemory.Impl.UnmapAll` | src/common/host_memory.cpp:194-199 | every view is unmapped and only placeholders are left |
| `HostMemory.Impl.JoinAll` | src/common/host_memory.cpp:200-200 | one legal coalesce makes the whole arena one placeholder |
| `HostMemory.Impl.Release` | src/common/host_memory.cpp:192-206 | every view is unmapped, one legal coalesce joins the whole arena, and the reservation is given back |
| `HostMemory.AlignUp` | src/common/host_memory.cpp:508-510 | rounds up to a page by less than a page |
| `HostMemory.BaseOffset` | src/common/host_memory.cpp:514-518 | the base is huge-page aligned and at least one, less than two huge pages into the reservation |
| `HostMemory.ClearOfBothEnds` | src/common/host_memory.cpp:508-518 | every range a caller may name lies at least a huge page from both ends of the reservation |
| `HostMemory.HostMemory.constructor` | src/common/host_memory.cpp:503-527 | with or without an arena, nothing translates at first; the base address is huge-page aligned, the base offset within its bounds, the sizes rounded up with three huge pages to spare |
| `HostMemory.HostMemory.Map` | src/common/host_memory.cpp:535-545 | in the caller's addresses: the range translates to the host range, everything else as before |
| `HostMemory.HostMemory.Unmap` | src/common/host_memory.cpp:547-555 | in the caller's addresses: the translation is the old one restricted to outside the range |
| `HostMemory.Replay` | src/common/host_memory.cpp:535-555 | after every legal history each address translates as the last operation touching it said |
| `Fiber.ReachableInv` | src/common/fiber.cpp:39-133 | the ownership invariant of guards, batons and contexts holds after every interleaving of the small steps |
| `Fiber.OneThreadPerFiber` | src/common/fiber.cpp:110-126 | no fiber executes on two threads at once |
| `Fiber.FreeMeansSaved` | src/common/fiber.cpp:92-126 | a fiber whose guard is free has its latest suspension point saved as its context if and only if it has not exited |
| `Fiber.JumpResumesLatest` | src/common/fiber.cpp:110-114 | a thread about to jump, to whatever fiber, jumps to that fiber's latest suspension point, not to null or a stale one, if and only if the fiber has not exited |
| `Fiber.UnlockedByLocker` | src/common/fiber.cpp:39-46 | after a jump the baton is there and names a fiber whose guard this thread itself locked; Exit too unlocks its own guard |
| `Fiber.RunsWhatItAskedFor` | src/common/fiber.cpp:110-133 | under every interleaving a thread runs its thread fiber and then, jump by jump, the fibers that its calls named |
| `Fiber.YieldLeadsThere` | src/common/fiber.cpp:110-114 | after YieldTo the next fiber the thread runs is the one named, whatever happens in between |
| `Fiber.SwitchSteps` | src/common/fiber.cpp:110-126 | each step of a switch concerns the two fibers of that switch and no other: the one named is locked, given the baton and run, the one left is saved where it stopped and unlocked, the baton dropped |
| `Fiber.JumpStops` | src/common/fiber.cpp:114-114 | the fiber left stops at a new point, which is what the thread has in hand to save |
| `Fiber.JumpLandsWhereLeft` | src/common/fiber.cpp:69-76 | a jump starts a fiber that was never left at its entry point and resumes any other where it was left last |
| `Fiber.RewindChangesStack` | src/common/fiber.cpp:48-57 | a rewind starts on the stack the fiber is not executing on and the two stacks then change roles |
| `Fiber.ExitedFiberIsNotResumable` | src/common/fiber.cpp:92-99 | an exited thread fiber has a free guard and a null context |
| `Fiber.BlockedStays` | src/common/fiber.cpp:110-111 | a thread blocked on a guard stays so until the guard's holder takes a step |
| `Fiber.CycleIsForever` | src/common/fiber.h:22-28 | whatever happens after a cycle of threads blocked on each other has formed, it is still there and none of its threads has taken a step |
| `Fiber.ExchangeDeadlocks` | src/common/fiber.h:22-28 | two threads that exchange the fibers they are running are in such a cycle, whatever else the state is |
| `Fiber.ExchangeDeadlocksForGood` | src/common/fiber.h:22-28 | after such an exchange neither thread ever takes a step again |
| `Fiber.RuleReachable` | src/common/fiber.h:22-28 | if every switch goes through the thread's own fiber, that fiber is touched by its thread alone and is free while a worker runs |
| `Fiber.ReturnNeverBlocks` | src/common/fiber.h:22-28 | under the rule the switch back to the thread fiber never blocks |
| `Fiber.NeverToExited` | src/common/fiber.h:22-28 | under the rule no thread ever switches to a fiber that has exited |
| `Fiber.HolderIsNotBlocked` | src/common/fiber.h:22-28 | under the rule a thread that holds a guard somebody waits for is itself not blocked |
| `Fiber.NoDeadlock` | src/common/fiber.h:22-28 | under the rule no reachable state has a cycle of blocked threads |
| `BoundedQueue.ReachableInv` | src/common/bounded_threadsafe_queue.h:73-150 | ring contents, indices, mutex ownership and owed notifications stay consistent in every interleaving of any number of threads |
| `BoundedQueue.PoppedIsPrefix` | src/common/bounded_threadsafe_queue.h:73-150 | the values popped are a prefix of the values pushed, at most the capacity behind |
| `BoundedQueue.WritesEmptySlot` | src/common/bounded_threadsafe_queue.h:92-99 | a producer constructs only into an empty slot that belongs to no unread value |
| `BoundedQueue.ReadsOldest` | src/common/bounded_threadsafe_queue.h:136-143 | a consumer moves from the slot that holds the oldest unread value |
| `BoundedQueue.WriteKeeps` | src/common/bounded_threadsafe_queue.h:92-96 | constructing the next value disturbs no unread one, whatever the wrapped index is |
| `BoundedQueue.PublishKeeps` | src/common/bounded_threadsafe_queue.h:98-99 | advancing the write index makes exactly the constructed value the newest unread one, also when it wraps |
| `BoundedQueue.TakeKeeps` | src/common/bounded_threadsafe_queue.h:136-140 | moving from the oldest slot leaves all younger values in place |
| `BoundedQueue.ReleaseKeeps` | src/common/bounded_threadsafe_queue.h:142-143 | advancing the read index makes exactly the emptied slot free, also when it wraps |
| `BoundedQueue.TestsAreExact` | src/common/bounded_threadsafe_queue.h:77-87 | the wrapping index tests tell full from not full and empty from not empty |
| `BoundedQueue.CallReturns` | src/common/bounded_threadsafe_queue.h:73-150 | every call that returns, under every interleaving, has pushed exactly its value or popped exactly one and handed it over, and returned true; or it only tried and found the queue full or empty, or saw a stop, did nothing, and returned false |
| `BoundedQueue.NoLostWakeup` | src/common/bounded_threadsafe_queue.h:101-103 | a sleeper whose condition holds is still owed a notification by a thread that will give it, and no other thread sleeps there, also with many producers and consumers |
| `BoundedQueue.NotifyWakesSleeper` | src/common/bounded_threadsafe_queue.h:145-147 | the notification, when given, wakes that sleeper and nobody else |
| `BoundedQueue.NeverBothAsleep` | src/common/bounded_threadsafe_queue.h:82-87 | a producer and a consumer are never asleep at the same time |
| `BoundedQueue.ReachableHeld` | src/common/bounded_threadsafe_queue.h:203-247 | in every interleaving a mutex that is taken is held by a thread inside the section it guards |
| `BoundedQueue.StuckOnlyWhenFullOrEmpty` | src/common/bounded_threadsafe_queue.h:73-247 | no deadlock: when no thread inside the queue can go on, it is full and they are all producers, or it is empty and they are all consumers |
| `BoundedQueue.CapacityDivides` | src/common/bounded_threadsafe_queue.h:22-22 | a power of two below 2^64 divides it |
| `BoundedQueue.WrapSlotExact` | src/common/bounded_threadsafe_queue.h:92-93 | wrapped indices find the right slot for every index exactly if the capacity divides 2^64 |
| `Semaphore.ReachableInv` | src/common/atomic_helpers.h:695-761 | count, debt, kernel posts and owed posts balance in every interleaving of the waiter and the signaller |
| `Semaphore.Conservation` | src/common/atomic_helpers.h:695-761 | the count never drops below -1, and with the waiter's debt it is the initial units and those the run signals less what was taken |
| `Semaphore.NothingLeftBehind` | src/common/atomic_helpers.h:717-730 | between waits, however the last one ended, no kernel post is left over and no unit is missing |
| `Semaphore.ParkedIsServed` | src/common/atomic_helpers.h:711-716 | a committed waiter finds a post, made or owed, exactly if there is a unit for it |
| `Semaphore.TryWaitExactly` | src/common/atomic_helpers.h:738-744 | a tryWait returns true exactly if a unit is available when it looks, whatever is signalled meanwhile |
| `Semaphore.WaitTakesAvailable` | src/common/atomic_helpers.h:701-710 | a wait that looks while a unit is available takes one |
| `Semaphore.WaitsDoNotFail` | src/common/atomic_helpers.h:711-714 | a wait without timeout never returns false |
| `Semaphore.SignalKeepsBooksExactly` | src/common/atomic_helpers.h:754-761 | a signal keeps the balance if and only if it adds a unit or no waiter is committed |
| `Semaphore.Commits` | src/common/atomic_helpers.h:700-716 | a wait without units spins through all its rounds and then parks with the count at -1 |
| `Semaphore.SignalZeroForgesUnit` | src/common/atomic_helpers.h:754-761 | a run from the start, without units, in which a wait succeeds after a signal of zero |
| `Getopt.SwapRuns` | externals/getopt/getopt.c:84-101 | two disjoint runs of argv change places and nothing else moves |
| `Getopt.Exchange` | externals/getopt/getopt.c:72-107 | argv[first, last) and argv[last, optind) change places, each in order, nothing else moves, and the loop ends |
| `Getopt.RotateShort` | externals/getopt/getopt.c:80-91 | swapping a short first block with the end of the second puts the first block in its final place |
| `Getopt.RotateLong` | externals/getopt/getopt.c:92-103 | swapping the second block with the start of a long first block puts the second block in its final place |
| `Getopt.Scanner.Initialize` | externals/getopt/getopt.c:108-128 | the ordering is the one the option string's prefix or the environment asks for, and the prefix is taken off |
| `Getopt.Scanner.SkipOperands` | externals/getopt/getopt.c:152-161 | across calls [first_nonopt, last_nonopt) holds exactly the operands skipped so far |
| `Getopt.Scanner.PassDashes` | externals/getopt/getopt.c:162-177 | at "--" the consumed elements come first, then all operands, and optind is at the first of them |
| `Getopt.Scanner.FindElement` | externals/getopt/getopt.c:146-186 | the next element is found, reported as an operand, or the run is over with argv settled |
| `Getopt.Scanner.ScanOption` | externals/getopt/getopt.c:317-476 | one option is reported with the argument its kind gives it, and unless the run jams the cluster or the vector advances |
| `Getopt.Scanner.Next` | externals/getopt/getopt.c:129-476 | one call keeps the scanner's invariant, reports the next event of the run, returns -1 only if the run does not jam, and then makes progress |
| `Getopt.ParseAll` | externals/getopt/getopt.c:129-476 | unless the scan jams, calling until -1 takes finitely many calls, reports the events of the command line in order, and leaves consumed elements, then operands, with optind at the first operand, in every ordering |
| `Getopt.StablePartition` | externals/getopt/getopt.c:152-177 | consumed elements and operands are a stable partition of the command line |
| `Getopt.FlagAlone` | externals/getopt/getopt.c:438-475 | a character without colon after it in the option string is reported without argument |
| `Getopt.UnknownAlone` | externals/getopt/getopt.c:322-330 | a character that is not in the option string, a colon and a semicolon are reported as unknown, with optopt |
| `Getopt.FlagInCluster` | externals/getopt/getopt.c:318-321 | in a cluster a flag is reported and then the rest as if it stood alone |
| `Getopt.UnknownInCluster` | externals/getopt/getopt.c:318-330 | in a cluster an unknown character is reported and then the rest as if it stood alone |
| `Getopt.RequiredAttached` | externals/getopt/getopt.c:453-457 | with one colon, what follows the character in its element is its argument |
| `Getopt.RequiredSeparate` | externals/getopt/getopt.c:470-471 | else the next element is, whatever it looks like, and is consumed |
| `Getopt.RequiredMissing` | externals/getopt/getopt.c:458-469 | and if there is none, that is reported with optopt, by a colon if the option string starts with one |
| `Getopt.OptionalArgument` | externals/getopt/getopt.c:440-450 | with two colons, what follows in the element is the argument, if anything does, and the next element is left alone |
| `Getopt.OperandLaws` | externals/getopt/getopt.c:152-184 | the element "--" ends the options; what operands do in each ordering |
| `Getopt.PrefixLaws` | externals/getopt/getopt.c:113-127 | which ordering the first character of the option string or the environment chooses |
| `Getopt.StuckOnW` | externals/getopt/getopt.c:331-341 | if the scan jams, no call of however many returns -1: the events up to the jam are reported and then those of the jamming element, up to its W, for ever |
| `Getopt.CycleEndsInW` | externals/getopt/getopt.c:434-436 | what is reported for ever is not empty and ends with W |
| `Getopt.JamExamples` | externals/getopt/getopt.c:331-341 | inputs that jam, also behind options and operands |
| `Getopt.NoJamExamples` | externals/getopt/getopt.c:331-341 | inputs with W; that do not jam |
| `LruCache.DetachLinks` | src/common/lru_cache.h:112-131 | unlinking an item leaves one list of all others in order, with its ends |
| `LruCache.AttachLinks` | src/common/lru_cache.h:98-110 | linking an item at the end leaves one list with it last |
| `LruCache.Cache.Attach` | src/common/lru_cache.h:98-110 | the list becomes the old one with the item at its end; objects and ticks do not change |
| `LruCache.Cache.Detach` | src/common/lru_cache.h:112-131 | the list becomes the old one without the item; objects and ticks do not change |
| `LruCache.Cache.Build` | src/common/lru_cache.h:82-96 | the oldest freed id is reused, else a new one is made; either way it was in no list |
| `LruCache.Cache.Insert` | src/common/lru_cache.h:30-37 | refines appending to the abstract sequence |
| `LruCache.Cache.Touch` | src/common/lru_cache.h:39-50 | refines moving to the back with the new tick, or nothing when the tick is not newer |
| `LruCache.Cache.Free` | src/common/lru_cache.h:52-58 | refines removal and makes the id available again |
| `LruCache.Cache.ForEachItemBelow` | src/common/lru_cache.h:60-79 | visits the entries up to the first that is too new, in order, also when the callback frees the visited item; the whole state afterwards, free ids included |
| `LruCache.Replay` | src/common/lru_cache.h:30-79 | every history of insertions, touches, frees and visits on the linked structure does what it does on the plain sequence |
| `LruCache.IdKeepsObject` | src/common/lru_cache.h:30-79 | in every history an id names the same object until it is freed, by a call or by a visit's callback |
| `LruCache.LiveExactly` | src/common/lru_cache.h:30-96 | after every history an id is in the cache exactly if some operation inserted it and none since has freed it |
| `LruCache.TickIsLastUse` | src/common/lru_cache.h:30-50 | its tick is the largest of its insertion tick and its touches since |
| `LruCache.OrderIsByUse` | src/common/lru_cache.h:30-50 | the list is in the order of the operations that used the items last, so that the last of them is at the end |
| `LruCache.FreedIsGone` | src/common/lru_cache.h:52-58 | a freed id is gone |
| `LruCache.IdsAreReused` | src/common/lru_cache.h:82-96 | a new item gets an id not in use, and no new one is made while some id handed out earlier is not in use |
| `LruCache.ReusedInOrder` | src/common/lru_cache.h:90-95 | the id freed first is reused first |
| `LruCache.StaysSorted` | src/common/lru_cache.h:30-79 | after every history with caller ticks that never decrease the list is sorted by tick |
| `LruCache.VisitsSigned` | src/common/lru_cache.h:66-68 | over ticks below 2^63 the visit covers exactly the entries not newer than the bound taken as a signed time; a bound before zero visits nothing |
| `LruCache.VisitsExactlyOlder` | src/common/lru_cache.h:61-68 | in a sorted list the visit covers exactly the entries whose tick is at most the bound, both without sign, if and only if the signs of bound and ticks agree |
| `LruCache.SignBitIsVisited` | src/common/lru_cache.h:66-68 | an item with tick 2^64 - 1 that a visit with bound 0 covers |
| `LruCache.VisitAfter` | src/common/lru_cache.h:30-79 | after every history with ticks that never decrease, earlier visits included, a visit calls back for exactly the items not newer than the bound, oldest first, and drops those that are freed; the bound is a signed time while no tick has a sign bit |
| `LruCache.VisitCoversByUse` | src/common/lru_cache.h:60-79 | a visit covers exactly the items whose last use is not newer than the bound |
| `LruCache.VisitFreesExactly` | src/common/lru_cache.h:60-79 | after a visit an item is gone exactly if it was visited and the callback freed it |
| `ParamPackage.ReplaceAll` | src/common/string_util.cpp:114-126 | the loop computes the left-to-right replacement without overlaps |
| `ParamPackage.SplitString` | src/common/string_util.cpp:93-102 | the pieces between delimiters, without an empty last one |
| `ParamPackage.EscapeEncodes` | src/common/param_package.cpp:63-67 | three escaping passes amount to encoding every character by itself |
| `ParamPackage.UnescapeInverts` | src/common/param_package.cpp:43-47 | three unescaping passes undo three escaping passes on every string |
| `ParamPackage.EscapedIsClean` | src/common/param_package.cpp:63-67 | an escaped string holds no separator |
| `ParamPackage.SplitPrinted` | src/common/param_package.cpp:33-33 | splitting a printed package at the separators gives back its pairs |
| `ParamPackage.Serialize` | src/common/param_package.cpp:55-73 | prints the entries in the map's iteration order |
| `ParamPackage.Parse` | src/common/param_package.cpp:27-51 | reads the pairs, skipping malformed ones, later ones overriding earlier ones |
| `ParamPackage.NeverPlaceholder` | src/common/param_package.cpp:55-73 | a non-empty package never prints as the placeholder |
| `ParamPackage.ParsePrinted` | src/common/param_package.cpp:27-73 | in whatever order it was printed, a package parses to its entries with non-empty values |
| `ParamPackage.RoundTripExactly` | src/common/param_package.cpp:27-73 | the round trip is the identity if and only if no value is empty |
| `ParamPackage.EmptyValueIsLost` | src/common/param_package.cpp:38-41 | an entry with an empty value does not survive |
| `ParamPackage.EscapeText` | src/common/param_package.cpp:15-21 | escaping goes character by character: $ becomes $2, a comma $1, a colon $0, nothing else changes |
| `ParamPackage.PrintedText` | src/common/param_package.cpp:55-73 | the text of a package: pairs with a colon inside and commas in between, or [empty] |
| `ParamPackage.ParsedPairs` | src/common/param_package.cpp:35-50 | any text is parsed pair by pair, and later pairs override earlier ones |
| `ParamPackage.ParsedPair` | src/common/param_package.cpp:36-49 | a pair is a key, a colon and a value that is not empty |
| `ParamPackage.MalformedIsSkipped` | src/common/param_package.cpp:38-41 | a piece with no colon, with nothing after it, or with two is skipped |
| `FixedPoint.EgyptianDivide` | src/common/fixed_point.h:150-169 | doubling and halving compute the quotient and the remainder of unsigned words |
| `FixedPoint.OrIsAdd` | src/common/fixed_point.h:181-181 | or-ing bits below a number's lowest set bit adds them |
| `FixedPoint.Divide` | src/common/fixed_point.h:123-190 | zero denominators are refused; otherwise the loops compute the fallback quotient, signs handled, also for the minimum value |
| `FixedPoint.MagnitudeExactly` | src/common/fixed_point.h:171-181 | the same for magnitudes: a fraction that comes out as one is never right, whether the or adds it or loses it |
| `FixedPoint.DivideAgreesExactly` | src/common/fixed_point.h:103-190 | the fallback division equals the wide one, for all signs, if and only if the fraction bits of the halved remainder and divisor are those of the remainder and divisor themselves |
| `FixedPoint.DivideAgrees` | src/common/fixed_point.h:103-190 | they agree whenever the integer remainder is below 2^(bits - F), even where the result wraps |
| `FixedPoint.RoomIsNeeded` | src/common/fixed_point.h:175-178 | for a remainder that does not end in ones where it is cut, all divisions that leave it agree with the wide version if and only if the guard of the halving loop is false for it |
| `FixedPoint.EvenHidesOne` | src/common/fixed_point.h:175-178 | even remainders do not end in ones where they are cut |
| `FixedPoint.OnesMayAgree` | src/common/fixed_point.h:175-178 | a remainder that does, for which that guard is true, and yet all divisions that leave it agree |
| `FixedPoint.CutAlikeDiffers` | src/common/fixed_point.h:174-181 | whenever the halving makes remainder and divisor equal the two divisions differ |
| `FixedPoint.FractionOff` | src/common/fixed_point.h:174-179 | the fraction bits of the halved remainder and divisor are off by one at most if 2F < bits, else by 2^(2F - bits + 1) at most |
| `FixedPoint.MagnitudeOff` | src/common/fixed_point.h:171-181 | so is the magnitude, unless remainder and divisor are cut to the same number and the integer quotient is odd; then it is too small by 2^F - 1 at most and by 2^F less that bound at least |
| `FixedPoint.DivideOff` | src/common/fixed_point.h:103-190 | so is the quotient, for all signs and formats |
| `FixedPoint.OffByTwo` | src/common/fixed_point.h:174-181 | in FixedPoint<32, 32>, where the bound is two, a quotient that is off by two |
| `FixedPoint.LargeRemainderDiffers` | src/common/fixed_point.h:174-179 | in FixedPoint<50, 14>, a quotient that comes out one too large because the remainder was cut |
| `FixedPoint.CarryIsLost` | src/common/fixed_point.h:179-181 | in FixedPoint<50, 14>, a quotient of 32767 that comes out as 16384 because a fraction of one is or-ed |
| `FixedPoint.PartsUnwrapped` | src/common/fixed_point.h:224-235 | only the product of the fraction parts is affected by wrapping to the base type |
| `FixedPoint.MultiplyAgreesExactly` | src/common/fixed_point.h:193-236 | the four-part product equals the wide one if and only if the product of the fraction parts is below 2^(bits - 1) |
| `FixedPoint.MultiplyDiffers` | src/common/fixed_point.h:229-235 | in FixedPoint<32, 32>, the square of the largest fraction comes out as -2 in raw form |
| `FixedPoint.MultiplyAgrees` | src/common/fixed_point.h:193-236 | with 2F < bits the two multiplications agree on all operands |
| `StopState.Drain` | src/common/polyfill_thread.h:73-88 | the drain ends with no callback left, although callbacks insert and remove |
| `StopState.PerformInOrder` | src/common/polyfill_thread.h:57-126 | whatever callers and callbacks do, the log stays in order: fresh ids, only live callbacks run, oldest first, only after the stop |
| `StopState.NeverAfterRemoval` | src/common/polyfill_thread.h:116-119 | no callback runs after its removal |
| `StopState.OldestFirst` | src/common/polyfill_thread.h:73-88 | registered callbacks run in order of registration, so none runs twice |
| `StopState.RanOrRemoved` | src/common/polyfill_thread.h:73-88 | a registered callback that is no longer live was removed or run, and run as it was registered |
| `StopState.FirstStopServesAll` | src/common/polyfill_thread.h:62-91 | when the first request_stop returns, every callback registered earlier has run or was removed |
| `StopState.RemovedHasCause` | src/common/polyfill_thread.h:57-126 | in every history a callback is removed only where a removal is performed, by the caller or by a callback that has run |
| `StopState.RunsExactlyOnce` | src/common/polyfill_thread.h:62-114 | a callback that its caller does not remove before the first stop runs exactly once, after the stop was requested, unless a callback that ran then removed it, and then not at all |
| `StopState.RemovedNeverRuns` | src/common/polyfill_thread.h:116-119 | a callback that its caller removes before the first stop never runs |
| `StopState.InsertedLateRuns` | src/common/polyfill_thread.h:98-108 | a callback inserted after the stop runs at once, before anything that its insertion causes |
| `StopState.PerformedInFull` | src/common/polyfill_thread.h:98-119 | after the stop a callback is performed in full and in order, nested callbacks included, whatever the state, and it only removes callbacks |
| `StopState.RoundInFull` | src/common/polyfill_thread.h:75-87 | a round of the drain runs the oldest callback and then all that this callback does, before the next one |
| `StopState.EveryRun` | src/common/polyfill_thread.h:57-126 | after every history the log is in order, and a stopped state has no callbacks |
| `StopState.StopState.RequestStop` | src/common/polyfill_thread.h:62-91 | the loop computes the drain; true exactly for the first call |
| `StopState.StopState.InsertCallback` | src/common/polyfill_thread.h:98-114 | registers under a new positive id, or after the stop runs the callback and returns 0 |
| `StopState.StopState.RemoveCallback` | src/common/polyfill_thread.h:116-119 | the callback is no longer registered |
| `BumpAllocator.RoundedCovers` | externals/demangle/ItaniumDemangle.cpp:289-290 | a request is rounded up to a multiple of 16 if and only if it is at most 2^32 - 16; otherwise it shrinks |
| `BumpAllocator.CutIsApart` | externals/demangle/ItaniumDemangle.cpp:296-298 | a region cut above everything placed in its block is apart from every region handed out |
| `BumpAllocator.BumpKeeps` | externals/demangle/ItaniumDemangle.cpp:296-298 | cutting a region off the bump block keeps all regions apart, aligned and inside their blocks |
| `BumpAllocator.GrowKeeps` | externals/demangle/ItaniumDemangle.cpp:269-274 | a new bump block in front keeps the layout |
| `BumpAllocator.MassiveKeeps` | externals/demangle/ItaniumDemangle.cpp:276-283 | an oversize block behind the bump block keeps the layout, and the bump block |
| `BumpAllocator.BumpPointerAllocator.constructor` | externals/demangle/ItaniumDemangle.cpp:286-287 | the list is the inline buffer alone |
| `BumpAllocator.BumpPointerAllocator.Grow` | externals/demangle/ItaniumDemangle.cpp:269-274 | one block is taken from the heap and put in front, empty |
| `BumpAllocator.BumpPointerAllocator.AllocateMassive` | externals/demangle/ItaniumDemangle.cpp:276-283 | one block of just the right size is linked behind the bump block, which does not change |
| `BumpAllocator.BumpPointerAllocator.Allocate` | externals/demangle/ItaniumDemangle.cpp:289-299 | a new aligned region of the rounded size, apart from all others; which of the three cases applies and what it does to the list |
| `BumpAllocator.BumpPointerAllocator.Reset` | externals/demangle/ItaniumDemangle.cpp:301-309 | every malloc'd block is freed, each once, never the inline buffer, and the list is as at first |
| `BumpAllocator.AllocateAll` | externals/demangle/ItaniumDemangle.cpp:289-299 | over any run of requests of at most 2^32 - 16 bytes, what was asked for is aligned and pairwise apart |
| `BumpAllocator.HugeRequestGetsNothing` | externals/demangle/ItaniumDemangle.cpp:289-290 | a request of 2^32 bytes and the next one get the same address |
| `MicroProfile.MakeLogIndex` | externals/microprofile/microprofile.h:845-854 | type, timer and the low 48 bits of the tick can be read back |
| `MicroProfile.PackInvertsUnpack` | externals/microprofile/microprofile.h:835-867 | packing the fields of an entry gives the entry |
| `MicroProfile.EntryExamples` | externals/microprofile/microprofile.h:826-854 | an enter and a leave entry as the words they are |
| `MicroProfile.TickDifferenceIsCentered` | externals/microprofile/microprofile.h:856-862 | the difference of two entries is that of their 48-bit ticks, taken nearest to zero |
| `MicroProfile.TickDifferenceExactly` | externals/microprofile/microprofile.h:856-862 | it is the true difference of the ticks if and only if that is within half the 48-bit range, also across a wrap |
| `MicroProfile.GetRange` | externals/microprofile/microprofile.h:1481-1498 | the two runs together are the ring from get to put, in order, also when it wraps |
| `MicroProfile.FoldConserves` | externals/microprofile/microprofile.h:1687-1750 | from any carried-over stack, exclusive ticks added equal the change of the summed child ticks over the live depths, and every scope entered is counted or still open |
| `MicroProfile.NestedRange` | externals/microprofile/microprofile.h:1687-1750 | in a range that leaves only what it entered, every leave is charged from the enter that the nesting pairs it with; inclusive ticks, exclusive ticks and count of every timer are the sums that the entries define without a stack; nothing below its depth changes |
| `MicroProfile.CarriedRange` | externals/microprofile/microprofile.h:1683-1757 | a frame that closes scopes opened in earlier frames adds for every timer what all entries since then give it less what the earlier ones gave it |
| `MicroProfile.BalancedTotals` | externals/microprofile/microprofile.h:1687-1750 | the exclusive ticks of a balanced range total its outermost spans |
| `MicroProfile.OverrunExactly` | externals/microprofile/microprofile.h:1696-1706 | the replay stays inside its stacks if and only if the nesting depth stays below MICROPROFILE_STACK_MAX |
| `MicroProfile.StrayEntryIgnored` | externals/microprofile/microprofile.h:1718-1748 | a leave entry when no scope is open, and an entry of another type, changes nothing |
| `MicroProfile.DeepestScopeOverruns` | externals/microprofile/microprofile.h:1696-1706 | 32 nested scopes from an empty stack: the position is below MICROPROFILE_STACK_MAX before each, and the last one overruns |
| `MicroProfile.ThreadLog.Visit` | externals/microprofile/microprofile.h:1693-1748 | one entry changes the stacks and counters as the step function says, or overruns |
| `MicroProfile.ThreadLog.ReplayRun` | externals/microprofile/microprofile.h:1687-1750 | the inner loop is the fold of the step over its run |
| `MicroProfile.ThreadLog.Replay` | externals/microprofile/microprofile.h:1683-1757 | a frame is the fold over its ring walk, from the stack carried over |

## Left out

- Linux and generic `HostMemory::Impl`, `Protect`, failing system calls and their error codes, overflow of size_t by absurd sizes, and the lock around `Impl` (its operations are atomic here).
- The mapping of the backing memory itself and its release, the other half of `HostMemory::Impl`'s constructor and of `Release`; they involve no placeholder bookkeeping.
- Fibers: the assembly that switches stacks is one abstract jump; `from` stays alive during a switch; the destructor's check is not modelled. A thread can lock and link a fiber that has exited, but the jump to it is not a step, as its context is not one to jump to (`Fiber.JumpResumesLatest`).
- Queue, semaphore and fibers are modelled on values, as step machines, and not as classes, because their methods interleave; weaker memory orders than sequential consistency are not modelled.
- Prompt wakeup of a stoppable pop on a stop request: the polyfill notifies without the waiter's mutex. A stop is a step that may happen whenever the predicate is evaluated.
- Semaphore: overflow of ssize_t, spinning as time, and more than one waiter or signaller.
- Getopt: long options, `W;` with long options, printed messages, the wide-character copy and the wrapper over global variables.
- LRU cache: pointers to items are pool indices; the callback of the visit may free the item it is given but not touch or insert; the early stop for callbacks returning bool is left out because the condition at src/common/lru_cache.h:62-63 compares the wrong type and is never true.
- LruCache.VisitsExactlyOlder: the difference of two signed ticks is the mathematical one; where it leaves 64 bits the source is undefined, and what is said of it there is about the model only. The same holds of LruCache.VisitsSigned and LruCache.VisitAfter.
- ParamPackage: `Get` and `Set` with conversions to numbers, log messages.
- FixedPoint: the `remainder` out-parameter, which a converting constructor rescales; signed overflow is modelled as wrap-around; conversions and floating point.
- FixedPoint.RoomIsNeeded: leaves out remainders without room that end in ones where they are cut, for which the guard is not the exact condition (FixedPoint.OnesMayAgree); FixedPoint.DivideAgreesExactly covers those.
- Stop state: callbacks are assumed to end, so that one which inserts itself again after the stop is not modelled; identifiers do not wrap at 2^64; a callback that hands work to another thread and waits for it; the token, source and thread classes around it.
- Bump allocator: termination of the program when malloc fails; the types that are constructed in the regions.
- MicroProfile: group ticks, meta counters and GPU timestamps in the replay loop, putting entries into the ring and their overwriting between frames, wrap-around of 64-bit tick sums, and everything that displays or sends results. Timers are as many as an entry can name.
- Hashes, compression, demangling proper, the audio code and the small helpers of `src/common`, which would add only easy members.
