# Four concurrent and in-place components of test_NetModuler

A Dafny 4.11 model of four pieces of the repository, with the properties they
are relied on for. `dafny verify dfyconfig.toml` checks everything.

**Profiler** (`ProfileStats.dfy`, `ProfileTable.dfy`, `SlotClaim.dfy`,
`Profiler.dfy`). Threads claim slots of `Thread[]` without a lock, keep one table
of named measurements each, and may clear every table at any time. `SlotClaim` is
a machine in which any number of threads interleave: the flag test, the
compare-and-swap, the publication of the slot, each table operation, each flag
read of a clear and each wipe are separate steps. `ProfileTable` relates the
scanned array to a map, and `ProfileStats` is the running statistic, with 64-bit
wrap-around written out. `Profiler` is the class that updates the array in place.

**Hook registry** (`ImportTable.dfy`, `HookRuns.dfy`, `HookRegistry.dfy`). Live
hooks form an intrusive list, and every module's import table is patched in
place. An image is a sequence of address cells that descriptors point into, so
thunk arrays may even overlap. `HookRuns` quantifies over every sequence of
constructions, destructions, loads and unloads; `HookRegistry` makes the same
steps on linked objects and arrays.

**Reader/writer lock** (`RwLock.dfy`). The native SRW lock and the flag that tells
`unlock` which mode to release, with every native call and every flag access a
step of its own, for any number of threads that may also hold the lock for reading
several times over.

**Trailing spaces** (`TrailingSpace.dfy`). The word-at-a-time version, with its
address arithmetic modulo 2^64, and the eight-bytes-at-a-time version, against the
byte loop. Both methods return the same function of the buffer, so they agree on
every buffer, length and alignment.

## What is assumed

- Flags and the thread-local pointer behave as sequentially consistent atomics, and
  `InterlockedCompareExchange` acts on the flag alone.
- One table operation of the profiler is atomic, and so is the wiping of one table.
- Profile names fit their buffer and are compared by equality; module names are
  compared by ASCII case folding.
- Whole runs of the hook registry assume, step by step (`HookRuns.Enabled`): a new
  hook has a hook function of its own and hooks a function not hooked already; no
  module imports a hook function; a hooked function is imported at most once under
  the callee's descriptors; a load that maps modules is followed by the fixup.
- Of these, a function imported more than once is the subject of
  `ImportedOnceIsNeeded`, a function hooked twice of `SecondHookIsInert` and
  `SecondHookTakesOver`, and a shared hook function of `SharedHookFunctionIff`. A
  module mapped without a fixup is brought to agreement by the next one
  (`FixupCatchesUp`). A module that imports a hook function is treated for one
  patch and its reversal only (`ImportTable.PatchIsUndoneIff`).

## Where the code differs from its comments

- `Profiler.h` line 20 calls `TotalTime` the sum of the times. It is not, even with
  the four extremes added back: a new maximum drops the old second maximum
  (`Profiler.cpp` line 98), and a first measurement counts at both ends.
  `ProfileStats.AccountIsExactIff` gives the exact condition.
- The comment above `skip_trailing_space` says it returns the last non-space
  character; the code returns the position after it.
- A hook built with `bThisMod` patches the registry's own module, which the
  destructor then passes over (`APIHook.cpp` line 102). `OwnModuleIsRestoredIff` is
  the exact condition over whole runs, `OwnModuleStaysPatched` the input.

## Model

| member | source | states |
|---|---|---|
| SlotClaim.EveryScheduleIsSafe | DBConnector_test/DBConnector_test/lib/Profiler.cpp:11-30 | in every reachable state of any number of threads the claimed slots are a prefix, a slot is claimed exactly when one thread owns it, no thread owns two, and every table stands for a map |
| SlotClaim.FlagsOnlyRise | DBConnector_test/DBConnector_test/lib/Profiler.cpp:15-21 | no step lowers a claim flag, and none leaves a gap in the claimed prefix |
| SlotClaim.ClaimingIsWaitFree | DBConnector_test/DBConnector_test/lib/Profiler.cpp:13-29 | in every schedule the steps a thread spends on claiming are bounded by its own rank, whatever the others do |
| SlotClaim.SkippingAllNeedsAnotherThread | DBConnector_test/DBConnector_test/lib/Profiler.cpp:13-29 | a thread that has skipped every slot proves that more than ThreadMax threads have begun a scan |
| SlotClaim.JoinedThreads | DBConnector_test/DBConnector_test/lib/Profiler.cpp:11-30 | in every reachable state the threads that have begun a scan are exactly those that called in |
| SlotClaim.EnoughSlots | DBConnector_test/DBConnector_test/lib/Profiler.cpp:11-30 | if at most ten threads ever call in, out of any number of threads, no interleaving lets a scan run off the end and every scan ends owning a slot: a caller owns one, or is in its scan with a step enabled and a bounded number of steps left |
| SlotClaim.LostThreadsAreTheExcess | DBConnector_test/DBConnector_test/lib/Profiler.cpp:13-33 | whenever nobody is inside a scan, the number of threads left without a slot is exactly the excess over ten of those that called in |
| SlotClaim.OnlyLostThreadsStop | DBConnector_test/DBConnector_test/lib/Profiler.cpp:8-212 | in every reachable state a thread has a step enabled unless its scan ran off the end, and a thread outside can clear, and use its slot or call in for one |
| SlotClaim.EarlyExitSkipsNothing | DBConnector_test/DBConnector_test/lib/Profiler.cpp:193-199 | when a clear leaves its loop, under any interleaving, every slot not wiped by it is unclaimed and holds nothing to clear |
| SlotClaim.UseIsIsolated | DBConnector_test/DBConnector_test/lib/Profiler.cpp:33-67 | an operation returns what the map says and touches no other thread's slot |
| SlotClaim.EveryTableAlternates | DBConnector_test/DBConnector_test/lib/Profiler.cpp:8-143 | under every interleaving, for every slot and name, begins and ends since the last wipe alternate and the table shows exactly the times between them |
| SlotClaim.EveryTotalIsBounded | DBConnector_test/DBConnector_test/lib/Profiler.cpp:107-132 | in every reachable state an entry whose times since the last wipe are ordinary, and sum to at most half the range, holds the exact total, at most twice that sum |
| SlotClaim.EveryResultIsDecided | DBConnector_test/DBConnector_test/lib/Profiler.cpp:8-143 | in every reachable state whether a begin or an end succeeds is decided by the operations that reached its slot |
| ProfileTable.ScanIsLookup | DBConnector_test/DBConnector_test/lib/Profiler.cpp:34-51 | the scan that stops at the first unused entry is a map lookup |
| ProfileTable.BeginRefines | DBConnector_test/DBConnector_test/lib/Profiler.cpp:34-65 | a begin on the table returns and leaves what a begin on the map does, a full table and a name already begun included |
| ProfileTable.EndRefines | DBConnector_test/DBConnector_test/lib/Profiler.cpp:78-142 | an end on the table returns and leaves what an end on the map does |
| ProfileTable.ClearRefines | DBConnector_test/DBConnector_test/lib/Profiler.cpp:200-210 | a cleared table stands for the empty map although its begin flags and start times are left as they were |
| ProfileTable.RunRefines | DBConnector_test/DBConnector_test/lib/Profiler.cpp:33-212 | over every run of begins, ends and clears the table and the map return the same results |
| ProfileTable.BeginsAndEndsAlternate | DBConnector_test/DBConnector_test/lib/Profiler.cpp:42-48 | over every run, successful begins and ends of a name strictly alternate, and the call count modulo 2^64 is the number of successful ends since the last clear |
| ProfileTable.ResultsByHistory | DBConnector_test/DBConnector_test/lib/Profiler.cpp:34-64 | an end succeeds exactly when its name is begun, a begin of a name in use exactly when it is not, and a begin of a new name exactly when fewer than 50 names are in use since the last clear |
| ProfileTable.UsedNamesAreKeys | DBConnector_test/DBConnector_test/lib/Profiler.cpp:34-65 | the names begun successfully since the last clear are the names of the map the table stands for |
| ProfileStats.ExtremesAreOrderStatistics | DBConnector_test/DBConnector_test/lib/Profiler.cpp:95-126 | after any measurements the maxima are the two largest of {0, 0} plus the times and the minima the two smallest of {MAX, MAX} plus the times, repeats counted |
| ProfileStats.MinimaAreMeasured | DBConnector_test/DBConnector_test/lib/Profiler.cpp:112-126 | over signed 64-bit times the sentinel never stands for a time: one time makes the first minimum the smallest time, two make both minima the two smallest |
| ProfileStats.TwoLargestAreUnique | DBConnector_test/DBConnector_test/lib/Profiler.cpp:95-110 | the order statistics determine the stored maxima |
| ProfileStats.TwoSmallestAreUnique | DBConnector_test/DBConnector_test/lib/Profiler.cpp:112-126 | the order statistics determine the stored minima |
| ProfileStats.CallsAreCounted | DBConnector_test/DBConnector_test/lib/Profiler.cpp:92 | the call count is the number of measurements modulo 2^64 |
| ProfileStats.AccountStep | DBConnector_test/DBConnector_test/lib/Profiler.cpp:96-133 | the ledger of total plus extremes: a time enters once for each place that counts it, and a new first extreme pushes out the old second one |
| ProfileStats.AccountBound | DBConnector_test/DBConnector_test/lib/Profiler.cpp:96-133 | total plus extremes is at most twice the sum of the measured times |
| ProfileStats.TotalIsWrapped | DBConnector_test/DBConnector_test/lib/Profiler.cpp:107-132 | the stored total is the exact total modulo 2^64, for any times |
| ProfileStats.Wrap64IsSigned | DBConnector_test/DBConnector_test/lib/Profiler.cpp:93 | stored values are the signed 64-bit integers congruent to the exact ones |
| ProfileStats.TotalCannotOverflow | DBConnector_test/DBConnector_test/lib/Profiler.cpp:107-132 | if twice the sum of the times fits, the stored total never wrapped |
| ProfileStats.MiddleTimesAreAddedOnce | DBConnector_test/DBConnector_test/lib/Profiler.cpp:129-133 | a time strictly between the second extremes is added exactly once and moves no extreme |
| ProfileStats.AccountIsExactIff | DBConnector_test/DBConnector_test/lib/Profiler.cpp:96-133 | one measurement is accounted for exactly if and only if a guard on the extremes before it holds |
| ProfileStats.AccountIsNotExact | DBConnector_test/DBConnector_test/lib/Profiler.cpp:98 | concrete runs in which the account exceeds, and falls short of, the measured time |
| Profiler.ProfileStructher.constructor | DBConnector_test/DBConnector_test/lib/Profiler.cpp:202-214 | the object starts in the machine's start state, which holds the values a clear writes |
| Profiler.ProfileStructher.ClaimSlot | DBConnector_test/DBConnector_test/lib/Profiler.cpp:13-29 | run alone, the scan takes the first unclaimed slot, or none if there is none |
| Profiler.ProfileStructher.SetProfile | DBConnector_test/DBConnector_test/lib/Profiler.cpp:8-67 | the whole effect of a begin, with the null pointer when no slot is left |
| Profiler.ProfileStructher.BeginEntry | DBConnector_test/DBConnector_test/lib/Profiler.cpp:34-65 | the in-place scan and write is the table function |
| Profiler.ProfileStructher.EndProfile | DBConnector_test/DBConnector_test/lib/Profiler.cpp:72-143 | the whole effect of an end, with the null pointer on a thread without a slot |
| Profiler.ProfileStructher.RecordEntry | DBConnector_test/DBConnector_test/lib/Profiler.cpp:91-133 | the assignments of one measurement, in order, are the statistic's function |
| Profiler.ProfileStructher.ClearProfile | DBConnector_test/DBConnector_test/lib/Profiler.cpp:190-212 | run alone, exactly the slots before the first unclaimed one are wiped |
| Profiler.ProfileStructher.WipeTable | DBConnector_test/DBConnector_test/lib/Profiler.cpp:200-210 | the inner loop of the clear resets one table and nothing else |
| Profiler.ScanAloneClaimsFirstFree | DBConnector_test/DBConnector_test/lib/Profiler.cpp:13-29 | the machine's scan, run without interference, does what ClaimSlot does |
| Profiler.ClearAloneWipesClaimed | DBConnector_test/DBConnector_test/lib/Profiler.cpp:190-212 | the machine's clear, run without interference, wipes what ClearProfile wipes and leaves the thread outside |
| Profiler.ClearLeavesNothing | DBConnector_test/DBConnector_test/lib/Profiler.cpp:190-212 | in every reachable state, what ClearProfile leaves holds no record in any slot |
| ImportTable.ScanVisits | DBConnector_test/DBConnector_test/lib/APIHook.cpp:211-222 | a cell is visited exactly when a descriptor for the callee reaches it over non-null cells |
| ImportTable.SameModuleIff | DBConnector_test/DBConnector_test/lib/APIHook.cpp:213-214 | two module names match exactly when they agree letter by letter, up to ASCII case |
| ImportTable.ReplaceWritesFirst | DBConnector_test/DBConnector_test/lib/APIHook.cpp:211-250 | the patch writes the first visited cell that holds the current address and nothing else |
| ImportTable.ReplaceKeepsStructure | DBConnector_test/DBConnector_test/lib/APIHook.cpp:221-248 | a patch moves no null terminator, keeps every visiting order, and changes at most one cell |
| ImportTable.PatchIsUndoneIff | DBConnector_test/DBConnector_test/lib/APIHook.cpp:184-251 | replacing A by B and B by A restores the image if and only if a guard on the image before holds |
| HookRuns.ApplyHook | DBConnector_test/DBConnector_test/lib/APIHook.cpp:184-251 | patching for one more hook adds exactly its redirection, and patching again changes nothing |
| HookRuns.RemoveHook | DBConnector_test/DBConnector_test/lib/APIHook.cpp:99-102 | unpatching one hook removes exactly its redirection, whichever others are live |
| HookRuns.FixupPatches | DBConnector_test/DBConnector_test/lib/APIHook.cpp:345-380 | the fixup brings new and old modules alike to agreement with every live hook |
| HookRuns.FixupCatchesUp | DBConnector_test/DBConnector_test/lib/APIHook.cpp:345-380 | a fixup brings every covered module that lacks some hooks, or all of them, to agreement with all of them |
| HookRuns.TablesAgreeWithLiveHooks | DBConnector_test/DBConnector_test/lib/APIHook.cpp:33-168 | after any run every cell of every module, save the registry's own while it is left out, holds the hook of the live hook that wants it, else its original address |
| HookRuns.DestroyingAllRestores | DBConnector_test/DBConnector_test/lib/APIHook.cpp:99-126 | destroying all hooks in any order restores every module, save the registry's own while it is left out |
| HookRuns.OlderHookGoesFirst | DBConnector_test/DBConnector_test/lib/APIHook.cpp:33-126 | a concrete run with two hooks under names of different case, a load in between and the older hook destroyed first: both modules keep the newer hook only |
| HookRuns.LookupFindsNewest | DBConnector_test/DBConnector_test/lib/APIHook.cpp:411-432 | the hooked lookup answers with the newest live hook on the address, else the raw address |
| HookRuns.LookupAgreesWithTable | DBConnector_test/DBConnector_test/lib/APIHook.cpp:411-432 | in every reachable state dynamic lookup and a covered cell agree if and only if a hook on the function names the module the cell is imported from |
| HookRuns.OwnModuleIsRestoredIff | DBConnector_test/DBConnector_test/lib/APIHook.cpp:143-168 | after any run the registry's own module holds the table it was loaded with if and only if no hook constructed with bThisMod during the run wanted one of its cells |
| HookRuns.OwnModuleStaysPatched | DBConnector_test/DBConnector_test/lib/APIHook.cpp:99-102 | a concrete run that ends with no live hook and the own module still patched |
| HookRuns.ImportedOnceIsNeeded | DBConnector_test/DBConnector_test/lib/APIHook.cpp:246 | with any number of fixups in between, construction and destruction restore a covered table if and only if no fixup ran or the function is imported once |
| HookRuns.SecondHookIsInert | DBConnector_test/DBConnector_test/lib/APIHook.cpp:91-92 | in every reachable state a second hook on a hooked function changes no covered table |
| HookRuns.SecondHookTakesOver | DBConnector_test/DBConnector_test/lib/APIHook.cpp:357-362 | once the first hook is destroyed the tables are as if neither hooked the function, and the first fixup after that patches for the second |
| HookRuns.SharedHookFunctionIff | DBConnector_test/DBConnector_test/lib/APIHook.cpp:99-102 | when two hooks share a hook function, destroying the newer one leaves what the older alone left if and only if the older one's function is not imported or is scanned after the newer one's |
| HookRuns.SharedHookFunctionCorrupts | DBConnector_test/DBConnector_test/lib/APIHook.cpp:229-246 | a concrete table in which destroying the second of two such hooks leaves its function's address in the first one's cell |
| HookRegistry.Module.ReplaceInThunks | DBConnector_test/DBConnector_test/lib/APIHook.cpp:222-248 | the inner loop stops at the null or writes the first match |
| HookRegistry.Module.ReplaceIATEntryInOneMod | DBConnector_test/DBConnector_test/lib/APIHook.cpp:184-251 | the nested loops in place are the patch function, and every thunk array stays terminated |
| HookRegistry.Registry.ReplaceIATEntryInAllMods | DBConnector_test/DBConnector_test/lib/APIHook.cpp:143-168 | every module is patched, the registry's own only if asked for or not left out, and nothing else changes |
| HookRegistry.Registry.Construct | DBConnector_test/DBConnector_test/lib/APIHook.cpp:33-93 | the new hook heads the list, and the state makes the construction step of the runs |
| HookRegistry.Registry.Unlink | DBConnector_test/DBConnector_test/lib/APIHook.cpp:104-125 | exactly the given node leaves the list, the order of the others stays, and no null is followed |
| HookRegistry.Registry.Destroy | DBConnector_test/DBConnector_test/lib/APIHook.cpp:99-126 | the state makes the destruction step of the runs |
| HookRegistry.Registry.FixupNewlyLoadedModule | DBConnector_test/DBConnector_test/lib/APIHook.cpp:345-380 | every module is patched for every live hook with an original, newest first, unless the load is exempt |
| HookRegistry.Registry.LoadLibrary | DBConnector_test/DBConnector_test/lib/APIHook.cpp:382-408 | the state makes the load step of the runs |
| HookRegistry.Registry.GetProcAddress | DBConnector_test/DBConnector_test/lib/APIHook.cpp:411-432 | the walk returns the hooked address of the live hooks |
| RwLock.EveryScheduleIsSafe | DBConnector_test/DBConnector_test/MySQL/include/thr_rwlock.h:73-131 | in every schedule a writer is alone from native acquire to native release, the flag is up only for a writer and down under any reader, no two accesses to the flag race, and every release is in the mode held |
| RwLock.StepKeepsFlag | DBConnector_test/DBConnector_test/MySQL/include/thr_rwlock.h:94-131 | the flag is TRUE exactly while a writer stands between its two stores |
| RwLock.StepKeepsSrw | DBConnector_test/DBConnector_test/MySQL/include/thr_rwlock.h:73-131 | the native lock counts exactly what the threads hold |
| RwLock.UnlockTakesTheRightBranch | DBConnector_test/DBConnector_test/MySQL/include/thr_rwlock.h:117-131 | a thread in unlock reads TRUE if and only if it holds the lock exclusively |
| RwLock.AdmissionIff | DBConnector_test/DBConnector_test/MySQL/include/thr_rwlock.h:73-131 | in every reachable state a reader is admitted exactly when no thread holds exclusively, a writer exactly when no thread holds at all |
| RwLock.NoCallIsStuck | DBConnector_test/DBConnector_test/MySQL/include/thr_rwlock.h:94-131 | in every reachable state a thread inside a lock function has a step of its own enabled |
| RwLock.UnlocksBalanceAcquires | DBConnector_test/DBConnector_test/MySQL/include/thr_rwlock.h:73-131 | over any schedule of blocking calls, tries and failed tries, once no unlock is under way the lock is free with the flag FALSE exactly when unlock was called once for each successful acquire, and then releases equal acquires in each mode |
| RwLock.EachUnlockReleasesOnce | DBConnector_test/DBConnector_test/MySQL/include/thr_rwlock.h:117-131 | each call of unlock makes one native release, in one mode or the other, or is still under way |
| RwLock.FreeIffBalanced | DBConnector_test/DBConnector_test/MySQL/include/thr_rwlock.h:73-131 | a step to the balance of calls: in every reachable state the lock is in its initial state exactly when the native releases equal the acquires in each mode |
| RwLock.UnlockMayRelyOnTheFlag | DBConnector_test/DBConnector_test/MySQL/include/thr_rwlock.h:117-131 | whenever a thread may call unlock, the flag tells the mode |
| RwLock.UnlockStepsDoUnlock | DBConnector_test/DBConnector_test/MySQL/include/thr_rwlock.h:117-131 | the machine's steps of unlock, run alone, have the function's effect and give back one acquisition |
| RwLock.WrLockStepsDoWrLock | DBConnector_test/DBConnector_test/MySQL/include/thr_rwlock.h:94-103 | likewise for wrlock |
| RwLock.NativeRwLock.constructor | DBConnector_test/DBConnector_test/MySQL/include/thr_rwlock.h:52-62 | the initial lock |
| RwLock.NativeRwLock.RdLock | DBConnector_test/DBConnector_test/MySQL/include/thr_rwlock.h:73-81 | one reader more, the flag untouched |
| RwLock.NativeRwLock.TryRdLock | DBConnector_test/DBConnector_test/MySQL/include/thr_rwlock.h:83-92 | one reader more whatever their number, or under a writer a result that is not 0 and nothing changed |
| RwLock.NativeRwLock.WrLock | DBConnector_test/DBConnector_test/MySQL/include/thr_rwlock.h:94-103 | an exclusive hold with the flag up |
| RwLock.NativeRwLock.TryWrLock | DBConnector_test/DBConnector_test/MySQL/include/thr_rwlock.h:105-115 | an exclusive hold with the flag up, or under any hold a result that is not 0 and nothing changed |
| RwLock.NativeRwLock.Unlock | DBConnector_test/DBConnector_test/MySQL/include/thr_rwlock.h:117-131 | gives back exactly what was acquired and leaves the flag down |
| TrailingSpace.TrimmedLengthIsTheCut | DBConnector_test/DBConnector_test/MySQL/include/m_string.h:307-309 | the byte loop's result is the one cut with only spaces after it and a non-space before it |
| TrailingSpace.ShortestPrefix | DBConnector_test/DBConnector_test/MySQL/include/m_string.h:307-309 | the removed suffix is all spaces for exactly the prefixes at least that long |
| TrailingSpace.SkipIsIdempotent | DBConnector_test/DBConnector_test/MySQL/include/m_string.h:279-330 | skipping again on the returned length changes nothing |
| TrailingSpace.Uint8korrDecodes | DBConnector_test/DBConnector_test/MySQL/include/byte_order_generic.h:56-69 | the 32-bit and 64-bit sums never wrap and give the little-endian value |
| TrailingSpace.LittleEndianInjective | DBConnector_test/DBConnector_test/MySQL/include/byte_order_generic.h:56-69 | distinct chunks decode to distinct numbers |
| TrailingSpace.ChunkTest | DBConnector_test/DBConnector_test/MySQL/include/m_string.h:322-323 | the 64-bit comparison holds exactly when all eight bytes are spaces |
| TrailingSpace.WordTest | DBConnector_test/DBConnector_test/MySQL/include/m_string.h:304 | a word equals SPACE_INT exactly when each of its bytes is a space |
| TrailingSpace.WordZone | DBConnector_test/DBConnector_test/MySQL/include/m_string.h:293-300 | for more than 20 bytes the word zone is aligned, inside the buffer and never empty, without address wrap-around |
| TrailingSpace.SkipBytes | DBConnector_test/DBConnector_test/MySQL/include/m_string.h:301-302 | the byte loop down to a given address |
| TrailingSpace.SkipWords | DBConnector_test/DBConnector_test/MySQL/include/m_string.h:303-305 | the word loop stays aligned, reads only inside the buffer, and stops at the first word that is not all spaces |
| TrailingSpace.SkipTrailingSpaceWords | DBConnector_test/DBConnector_test/MySQL/include/m_string.h:280-310 | the word-at-a-time version returns what the byte loop returns, for every address, length and word size |
| TrailingSpace.SkipTrailingSpaceChunks | DBConnector_test/DBConnector_test/MySQL/include/m_string.h:317-329 | the eight-at-a-time version returns what the byte loop returns, for every buffer |

## Left out

- `Print_Profile`, `PROFILE_KeyProc`, `Profile_Begin`, `Profile_End`: file output, timers and key polling; `Print_Profile` also adds extremes to the total each time it prints, so runs here do not include it.
- Name truncation by `lstrcpynW` and locale rules of the two string comparisons.
- A table operation interleaved with a clear of the same table in the middle of its assignments: each is one step here.
- Profiler.ProfileStructher.RecordEntry: works on a copy of the entry that `EndProfile` writes back at once, so the states between its assignments are not visible in the array.
- The padding bytes next to a slot's flag that the 4-byte compare-and-swap also covers.
- RwLock.NativeRwLock.RdLock: does not model waiting; its precondition is the state in which the native call returns, and in the machine a blocked call is a step that is not enabled. WrLock likewise.
- Fairness and wake-up order of the native lock: only safety is stated, and a try may fail at any time in the machine.
- `ReplaceEATEntryInOneMod` (never called), page protection, failed writes and structured exceptions: every cell of a table is writable.
- HookRegistry.Registry.LoadLibrary: takes the modules the system maps as a parameter, and the LoadLibraryA, W, ExA and ExW variants are one method.
- HookRegistry.Registry.Construct: takes the result of the raw lookup of the function as a parameter.
- The module snapshot is the current list of modules; unloading exists in the runs only.
- The pthread branches of the lock, the `rw_pr_*` declarations, and the other MySQL headers.
