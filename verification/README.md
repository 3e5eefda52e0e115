# Linuxemu in Dafny

Linuxemu runs Linux ARM programs on QNX. It loads and patches their code, traps their system calls, and keeps
its own bookkeeping for memory, threads, futexes, signals and paths. This project models that bookkeeping and
proves what it is relied on for. Host calls (`mmap`, `pread`, `lstat`, `sem_wait`, the clock) appear as arguments
or as nondeterministic steps. Nothing here was executed.

Code that updates tables in place is modelled by classes, arrays and loops, each method proved against a
specification function. Protocols between threads are transition systems, and their results hold for every
interleaving. The main theorems are then about those functions and systems.

| files | what they model |
|---|---|
| Words | 32-bit words, alignment, page sizes |
| Registry, RuntimeMappings, Break | the runtime mapping table and `brk` |
| ArmPatch, Trap, CodeChanges, ElfMapping | instruction patching, trap emulation, code that changes, patching of file mappings |
| LoadTransaction, ElfLoader, ImageLoader, LoadState, LoadSuccess, LoadedProgram | loading an image, when that succeeds, undoing it, running it |
| StartupStack, StackBuilder | the initial guest stack and the reader of a starting program |
| FutexProtocol, FutexSafety, FutexTheorems, FutexProgress, FutexWait, FutexList | futex waits, wakes and requeues |
| ThreadLifecycle, ThreadExit | clone, start and exit of a thread, and its joiners |
| PendingSignals, TakeRace, SignalFrame, SignalDelivery, SignalState, SignalArrival, SyscallExit, PollWait | signals |
| PathSyntax, PathResolution, GuestPaths | guest paths |

## Where the code falls short

Each of these has a counterexample or an exact condition among the lemmas.

- Unmapping leaves the range owned when the table is full and the range lies strictly inside one entry; the
  failure is not reported (`UnmapErasesUnlessFull`, `FullTableKeepsUnmappedPage`).
- Re-patching an address whose old record remembers another word changes the program's meaning
  (`PatchingPreservesMeaningIffNoStaleRecord`, `StaleRecordIsMisread`).
- A thread-pointer read into r15 should set the flags; the handler does not (`ReadIntoPcIsExactIffFlagsAgree`).
- The mapping end of the heap can pass the guest limit when the page size does not divide it
  (`HeapsStayBelowLimitIff`, `HugePageOverruns`).
- A load whose finalization fails after a patched segment lost its write permission faults in the rollback instead
  of failing (`ImageFaultsIff`, `LateFinalizeFailureFaults`).
- An interrupted wait that ends without entering a handler keeps the temporary mask
  (`InterruptedWaitRestoresMaskIffHandled`, `SpuriousWakeKeepsTemporaryMask`), and the parked mask then overrides
  whatever mask the guest sets before its next handler (`NextReturnKeepsMaskIff`, `ParkedMaskOverridesGuest`).
- A signal that arrives behind an interrupted take, where the take no longer looks, is overtaken
  (`TakeSettlesAtItsLastAccess`, `LateStandardIsOvertaken`).
- A blocked realtime signal that arrives in guest code is queued twice (`RecordedOnceIff`, `SentOnceQueuedTwice`).
- sigsuspend sleeps on a signal that is already pending in software (`SuspendSleepsOnIff`, `SuspendInHandlerSleeps`).
- A long path of short names needs more component slots than the source has (`CollectComponents`, `ShortPathsFit`,
  `LongPathOverrunsSlots`).
- Nested frames leave a small alternate stack (`NestedFrameFitsAltStackIff`, `SmallAltStackOverflows`).
- Merged deferred unmaps cover more than the requests when the requests do not meet (`MergeIsUnionIffRangesMeet`,
  `DistantRequestsOvershoot`).
- A guest store of an undefined word over a patched address is taken for the old patch (`WriteKeepsAgreementIff`,
  `StoreOverPatchIsMisread`).
- A guest that loads a patched word from its code gets the trap word (`LoadIsExactIffNotHidden`).

## Model

| member | source | states |
|---|---|---|
| RegistrySpec.WellFormedMeaning | src/guest_memory.c:226-289 | the recursive invariant is exactly: non-empty ranges, sorted, pairwise disjoint, no mergeable neighbours |
| RegistrySpec.ReplaceRefinesOverwrite | src/guest_memory.c:226-289 | split, append, sort and coalesce keep the invariant and change the address-to-flag view exactly on the replaced range |
| RegistrySpec.CarveSize | src/guest_memory.c:233-253 | at most one old range splits, so the split loop grows the list by at most one, and exactly when one splits |
| RegistrySpec.ScratchSuffices | src/guest_memory.c:29-29 | the scratch array is never overrun and a replacement adds at most two entries |
| RegistrySpec.ScratchBoundIsTight | src/guest_memory.c:29-29 | a full table and a strictly interior range use all 2050 scratch slots |
| RegistrySpec.EraseFailsExactlyWhenFullAndSplitting | src/guest_memory.c:284-288 | erasing is refused if and only if the table is full and one range splits |
| RegistrySpec.SingleRangeTestIsExact | src/guest_memory.c:186-193 | on the invariant, the single-range executable test holds if and only if every byte is executable |
| RegistrySpec.SingleRangeTestNeedsCoalescing | src/guest_memory.c:186-193 | a sorted, disjoint but uncoalesced table where the test is wrong |
| RuntimeMappings.Table.RangeOwned | src/guest_memory.c:210-224 | the sweep terminates and is true exactly when every address is owned |
| RuntimeMappings.Table.InExecutableMapping | src/guest_memory.c:186-193 | for non-empty ranges, true exactly when every byte is executable |
| RuntimeMappings.Table.Split | src/guest_memory.c:233-253 | the first loop leaves exactly the pieces outside the range in the scratch array |
| RuntimeMappings.Table.Sort | src/guest_memory.c:260-270 | the in-place insertion sort computes its sequence specification |
| RuntimeMappings.Table.Compact | src/guest_memory.c:271-283 | the in-place compaction reads ahead of its writes and yields the coalesced list |
| RuntimeMappings.Table.ReplaceLocked | src/guest_memory.c:226-289 | the whole in-place rebuild refines the specification; a result that does not fit changes nothing |
| RuntimeMappings.Table.Map | src/guest_memory.c:318-333 | new contents and outcome of a map call, including every refusal |
| RuntimeMappings.Table.Protect | src/guest_memory.c:335-357 | new contents and outcome of a protect call, including every refusal |
| RuntimeMappings.Table.Unmap | src/guest_memory.c:359-365 | new contents of an unmap call, whose failure is not reported |
| RuntimeMappings.RunRefinesReference | src/guest_memory.c:226-365 | over every sequence of map, protect and unmap calls the invariant holds and the view equals the reference: the latest effective call on each address |
| RuntimeMappings.UnmapErasesUnlessFull | src/guest_memory.c:359-365 | after unmap nothing in the range is owned, if and only if the table was not full or no range splits |
| RuntimeMappings.MapOutcome | src/guest_memory.c:318-333 | when a mapping is refused as invalid or for want of space, that nothing changes then, and that otherwise the whole range has the flag |
| RuntimeMappings.ProtectOutcome | src/guest_memory.c:335-357 | when a protection change is refused as invalid, unowned or for want of space, that nothing changes then, and that otherwise the whole range has the flag |
| RuntimeMappings.FullTableKeepsUnmappedPage | src/guest_memory.c:359-365 | after 2048 separate map calls, unmapping a page inside the first mapping changes nothing and the page stays owned |
| RuntimeMappings.NoOverflowWithTwoFreeSlots | src/guest_memory.c:284-288 | two free slots always suffice |
| Break.ProgramBreak.Initialize | src/guest_memory.c:373-383 | an initial break outside the guest window is refused; otherwise the three variables start page-tight |
| Break.ProgramBreak.Set | src/guest_memory.c:385-425 | the in-place call computes the new heap, registry included, for every host answer |
| Break.SetBreakIsAllOrNothing | src/guest_memory.c:385-425 | a call moves the break to exactly the request or changes nothing at all |
| Break.BreakMovesIff | src/guest_memory.c:385-425 | a request is granted if and only if it is the current break, or lies in the window and needs no new page, or needs pages that the host placed at the mapping end and the registry takes |
| Break.BreakMovesWithTwoFreeSlots | src/guest_memory.c:385-425 | with two free slots in the registry the host alone decides |
| Break.BreakGrowsAndShrinks | src/guest_memory.c:373-425 | a new heap grows to any break in the window and shrinks back |
| Break.RunKeepsInvariant | src/guest_memory.c:373-425 | over every run minimum <= current <= mapping end, the end is current rounded up, and stays below the limit when the page divides it |
| Break.HeapsStayBelowLimitIff | src/guest_memory.c:373-425 | every heap that initialization and break calls can reach stays below the guest limit if and only if the page size divides the limit |
| Break.HugePageOverruns | src/guest_memory.c:373-383 | a concrete page size and initial break whose mapping ends above the limit |
| Break.RunRegistersExactlyHeapPages | src/guest_memory.c:373-425 | while the table has room and nobody else uses the area, exactly the heap pages above the initial break are registered |
| Words.AlignUpIsLeastMultiple | src/util.c:11-14 | without wrap-around, align_up is the least multiple not below its argument |
| ArmPatch.PatchTable.PatchRange | src/arm_patch.c:21-50 | the in-place scan computes code words, table and result, also when it stops at a full table |
| ArmPatch.PatchTable.Original | src/arm_patch.c:52-62 | the lookup returns the first record of an address |
| ArmPatch.PatchTable.RollbackTo | src/arm_patch.c:143-149 | the rollback loop puts recorded words back newest first |
| ArmPatch.PatchTable.ForgetRange | src/arm_patch.c:130-141 | the in-place compaction drops exactly the records in the range, keeping order |
| ArmPatch.PatchFromEffect | src/arm_patch.c:21-50 | word by word: a scan rewrites exactly the system calls and thread-pointer reads it reaches before the table is full, all of them on success, and older records still win |
| ArmPatch.ChangedIffReached | src/arm_patch.c:21-50 | which words a scan changes, also one that stops at a full table, is decided by the table and the words before them |
| ArmPatch.ScanSucceedsIff | src/arm_patch.c:21-50 | a scan succeeds if and only if the table has room for every word that needs a patch |
| ArmPatch.RangeIsScannedIff | src/arm_patch.c:21-31 | a range is refused, with nothing changed, if it is misaligned or wraps; otherwise it is scanned |
| ArmPatch.RollbackUndoesPatchRange | src/arm_patch.c:143-149 | rolling back restores code and table exactly, even after a scan that stopped part way |
| ArmPatch.ForgetHidesExactlyTheRange | src/arm_patch.c:130-141 | forgetting a range hides the records inside it and no others |
| Trap.Context.Handle | src/trap.c:94-124 | the handler's edits of the saved registers compute the specified effect |
| Trap.StepSimulates | src/trap.c:94-124 | one host step on patched code equals one Linux step on the meant program, for every machine state, unless the instruction or system call reads a patched word |
| Trap.ReadIntoPcIsExactIffFlagsAgree | src/trap.c:95-102 | an emulated read into r15 is right if and only if the flags already equal the top bits |
| Trap.OwnIllegalIsDelivered | src/trap.c:95-99 | the guest's own undefined instruction gets SIGILL if its address is executable and the delivery succeeds, and ends the process otherwise |
| Trap.DestinationOfRead | src/trap.c:100-102 | the emulated read into register d is decoded to register d, for each of the sixteen |
| Trap.ReadsAreSixteen | src/arm_patch.c:36-37 | no other word is taken for a thread-pointer read |
| Trap.PatchedReadIsEmulated | src/trap.c:100-123 | a trap on a patched read leaves the thread pointer in its register, the next instruction, and everything else as it was |
| Trap.PatchedCallIsDispatched | src/trap.c:103-119 | a trap on a patched system call goes to sigreturn for its two numbers, and otherwise is dispatched, continues behind the instruction and delivers what is pending |
| Trap.LoadIsExactIffNotHidden | src/arm_patch.c:44-47 | an instruction that loads a code word does on the host what it does on Linux if and only if the word is not patched |
| Trap.LiveTableHasNoStaleRecord | src/arm_patch.c:21-50 | a table whose records stand at distinct trap words gives a scan no stale record to meet |
| Trap.PatchingPreservesMeaningIffNoStaleRecord | src/arm_patch.c:21-50 | a scan keeps the meaning of every address if and only if no word it will reach has a record that remembers something else |
| Trap.StaleRecordIsMisread | src/linux_syscall.c:1080-1089 | a word is patched, overwritten by the guest and patched again: the guest means a system call, the emulator performs a thread-pointer read |
| Trap.ScanKeepsTableLive | src/arm_patch.c:21-50 | if every recorded address still holds the trap word, recorded once, a scan keeps it so |
| Trap.RunSimulates | src/trap.c:45-124 | runs of any length on patched code, returns through the trampolines included, equal the Linux runs of the meant program while no turn reads a patched word |
| Trap.PatchedRunIsOriginalRun | src/arm_patch.c:21-62 | patch a range in which no stale record is reached and every run inside it that reads no replaced word is the original run, whatever else the table remembers |
| CodeChanges.WriteKeepsAgreementIff | src/trap.c:94-124 | a guest store into code keeps host and Linux in step if and only if it does not put an undefined word over a record of something else |
| CodeChanges.StoreOverPatchIsMisread | src/trap.c:94-124 | a system call is patched and overwritten with the trap word: Linux finds an illegal word, the emulator performs the call |
| CodeChanges.ChangingCodeSimulates | src/linux_syscall.c:1060-1125 | however code is written, mapped, unmapped and re-patched while it runs, host and Linux stay in step as long as each event meets its condition |
| ElfMapping.WindowIsExact | src/arm_patch.c:100-125 | the scanned window of a section holds an address if and only if it is a whole aligned word of both section and mapping |
| ElfMapping.FindWindow | src/arm_patch.c:112-118 | the advance loop and the trim compute that window |
| ElfMapping.PatchElfMapping | src/arm_patch.c:100-125 | the section loop computes the patched mapping and stops at the first failing scan |
| ElfMapping.MappingIsPatchedExactly | src/arm_patch.c:100-125 | words that no executable section holds entirely are untouched, and after success no system call is left in the others |
| ElfMapping.MappingSucceedsIff | src/arm_patch.c:100-125 | a file mapping is patched to its end if and only if the table has room for every word in its executable sections that needs a patch, counted once |
| LoadTransaction.UndoRestores | src/elf_loader.c:249-261 | however a load mixed mapping and patching and wherever it stopped, the two rollbacks restore segments, patches and memory exactly |
| LoadTransaction.MappingAddsContents | src/guest_memory.c:113-150 | mapping a segment adds exactly its contents to the code behind the patches |
| LoadTransaction.PatchingKeepsContents | src/arm_patch.c:21-50 | patching leaves the code behind the patches alone |
| ElfLoader.SegmentGeometry | src/guest_memory.c:90-119 | a mappable header yields a page-aligned range that contains its bytes and does not wrap |
| ElfLoader.FillIsSegment | src/guest_memory.c:129-143 | reading the file into the fresh mapping and clearing behind and before it leaves, byte for byte, what the ELF file puts into the segment: file bytes over its file size, zeros elsewhere |
| ElfLoader.BytesOfWord | src/guest_memory.c:129-143 | byte k of a word is the byte at its address plus k |
| ElfLoader.BiasesInOrder | src/elf_loader.c:162-169 | programs are tried upwards from 0x20000000 and interpreters downwards from 0x60000000 |
| ElfLoader.AttemptIsUndone | src/elf_loader.c:230-261 | every load attempt, successful or not, is undone exactly by the rollbacks |
| ElfLoader.AttemptContents | src/elf_loader.c:230-261 | a successful attempt has added exactly the bytes of the file at the bias tried, with zeros around and behind them |
| ElfLoader.ScannableIsLegal | src/elf_loader.c:127-131 | a section that passes the checks is mapped, so the scan is defined, and it leaves every segment mapped |
| ImageLoader.TryBiasesIsFirstFit | src/elf_loader.c:230-268 | the bias loop settles on the first bias not refused with EEXIST, and its result is that of trying this bias alone on the untouched machine |
| ImageLoader.LoadObjectReaches | src/elf_loader.c:147-288 | a refused object leaves the machine as it was |
| ImageLoader.LoadedObjectIsSound | src/elf_loader.c:147-288 | a loaded object has a permitted bias, well-placed segments, no system call left in its executable sections, and patches only in executable segments |
| ImageLoader.MapHeaderKeepsPlacement | src/guest_memory.c:39-151 | segments stay page-aligned, inside the guest window, pairwise disjoint, at most 32, never writable and executable |
| ImageLoader.UndoneImageRestores | src/elf_loader.c:290-336 | a failed image load restores segment table, patch table and memory exactly |
| ImageLoader.RunningImageIsSound | src/elf_loader.c:290-336 | a running image is well placed, enters executable segments at permitted biases, has no system call left in program or interpreter, and is still undoable |
| ImageLoader.RunningImageContents | src/elf_loader.c:290-336 | behind its patches a running image is, word for word, what the program and interpreter files say at the biases settled on |
| ImageLoader.ImageFaultsIff | src/elf_loader.c:317-335 | the rollback behind a failed finalization faults if and only if a patch of this load lies in an executable segment already protected |
| ImageLoader.GuardedRollbackIs | src/arm_patch.c:143-149 | a rollback that writes into protected memory faults at some record it visits if and only if one is not writable, and is the plain rollback otherwise |
| ImageLoader.FinalizeStopsAtFirst | src/guest_memory.c:153-173 | finalization stops at the first segment the host does not finalize; those before it are protected, and that one too if only its flush failed |
| ImageLoader.LateFinalizeFailureFaults | src/guest_memory.c:153-171 | on a fresh process a finalization that fails after protecting everything always faults |
| LoadSuccess.HeadersMapIff | src/guest_memory.c:80-151 | the header loop refuses nothing if and only if every loadable header fits file, window, table and host, clear of earlier segments; the segment table then holds exactly theirs |
| LoadSuccess.SegmentsAreAsAsked | src/guest_memory.c:59-67 | every segment covers a loadable header's memory with exactly its permissions; none is both writable and executable |
| LoadSuccess.SectionsPatchIff | src/elf_loader.c:110-146 | the section loop succeeds if and only if there is an executable section, all pass their checks, and the table has room for every word that needs a patch, counted once |
| LoadSuccess.AttemptSucceedsIff | src/elf_loader.c:230-261 | an attempt at a bias succeeds if and only if its headers and sections go and its entry does not wrap |
| LoadSuccess.SectionHoldsFile | src/elf_loader.c:68-85 | a scanned section holds, byte for byte, what the file says at its offset |
| LoadSuccess.AcceptedMeans | src/elf_loader.c:24-48 | a header is valid if and only if its bytes are in the file, its address is congruent to its offset, and it is not both writable and executable |
| LoadSuccess.AttemptNamesError | src/elf_loader.c:248-261 | an attempt that fails leaves an errno |
| LoadSuccess.StaticProgramRunsIff | src/elf_loader.c:290-336 | a statically linked program runs in a fresh process with a willing host if and only if its file meets the conditions on headers, sections, patches and entry; it is entered at the address in its file |
| LoadSuccess.TinyProgramRuns | src/elf_loader.c:290-336 | the conditions can be met: a file of one page with a single system call runs |
| LoadState.ValidateLoadRange | src/guest_memory.c:39-57 | true exactly when the range is in the window and overlaps no segment |
| LoadState.SectionInExecutableLoad | src/elf_loader.c:67-84 | true exactly when some executable load segment's file bytes hold the section |
| LoadState.ValidateHeaders | src/elf_loader.c:24-46 | true exactly when every program header is acceptable |
| LoadState.FinalizeSegments | src/guest_memory.c:153-171 | the loop protects the segments in order and stops at the first failure of the host |
| LoadState.Tables.MapLoadSegment | src/guest_memory.c:80-151 | new tables and errno of mapping one segment, for every host answer |
| LoadState.Tables.MapProgramHeaders | src/elf_loader.c:236-244 | the header loop maps the segments in order and stops at the first refusal |
| LoadState.Tables.PatchExecutableSections | src/elf_loader.c:112-145 | the section loop, its refusals, and the stale errno it may report |
| LoadState.Tables.RollbackSegments | src/guest_memory.c:200-208 | the segment rollback loop unmaps the newest segments |
| LoadState.Tables.RollbackAll | src/elf_loader.c:329-333 | the failure path restores patches, then segments |
| LoadState.Tables.RollbackOrFault | src/elf_loader.c:329-333 | the same path after finalization has begun stops at the first write that faults |
| LoadState.Tables.LoadElfObject | src/elf_loader.c:147-288 | the checks and the attempt loop on the arrays; a refusal leaves the tables and code unchanged |
| LoadState.Tables.TryAll | src/elf_loader.c:230-268 | the attempt loop with its rollbacks computes the first fit |
| LoadedProgram.LoadingKeepsTableLive | src/arm_patch.c:21-50 | loading leaves no stale and no doubled patch record |
| LoadedProgram.LoadedProgramRunsAsMapped | src/elf_loader.c:290-336 | a program loaded into a fresh process and run under the trap handler does, step for step, what the words of its ELF files do on Linux, while it stays in their code and loads none of the replaced words |
| StartupStack.StartupReadsBack | src/runtime.c:104-223 | from the stack pointer alone a program reads back its arguments, the passed environment in order, the auxiliary entries, the random bytes and its path; the pointer is 16-aligned |
| StartupStack.CreateFitsIff | src/runtime.c:91-223 | building succeeds if and only if there is an argument and strings, random bytes, vectors and both gaps fit |
| StartupStack.AuxiliaryAnswers | src/runtime.c:169-188 | looking up each kind in the auxiliary vector gives its own value; the program headers are reported only when known |
| StartupStack.GuestEnvironmentMembers | src/runtime.c:34-38 | the guest's environment holds exactly the entries that are neither emulator settings nor the host's library path |
| StackBuilder.Builder.PushBytes | src/runtime.c:91-102 | bytes go directly below the cursor, or nothing changes |
| StackBuilder.Builder.PushEnvironment | src/runtime.c:148-156 | the loop pushes exactly the entries that are passed on, in order |
| StackBuilder.Builder.PushArguments | src/runtime.c:157-162 | the loop pushes the arguments last to first |
| StackBuilder.Builder.Create | src/runtime.c:104-223 | the in-place construction computes the specified stack |
| FutexSafety.NextKeepsInv | src/linux_futex.c:107-214 | every step of waiters, wakers, requeuers, handlers and timeouts keeps the protocol invariant, in which every mark has its post |
| FutexTheorems.EveryRunIsSafe | src/linux_futex.c:107-214 | in every run no destroyed semaphore is posted, a wait returns 0 exactly when it was marked, each scan marks and moves exactly min(count, eligible), every mark has been posted or is being posted, and marks equal zero returns plus marked waiters still returning |
| FutexTheorems.MarkIsSettledOnce | src/linux_futex.c:145-156 | in one step a marked waiter stays marked and in place, unless the step is its own return, which yields 0 |
| FutexTheorems.MarkLastsUntilReturn | src/linux_futex.c:145-156 | over every run without its return a marked waiter stays marked and is never moved |
| FutexTheorems.MarkBecomesOneZero | src/linux_futex.c:145-156 | after any such run its return yields 0 and settles exactly one mark, whatever timed out or interrupted it |
| FutexProgress.MarkedSleeperCanWake | src/linux_futex.c:143-149 | a sleeper that was marked, or interrupted by a handler, finds its semaphore posted |
| FutexProgress.MarkedWaiterReturnsZero | src/linux_futex.c:143-156 | a marked waiter not kept out of the lock returns 0 within nine steps of its own, settling exactly its mark |
| FutexProgress.LockIsReleased | src/linux_futex.c:158-214 | whoever holds the lock lets go of it by its own steps; every scan comes to an end |
| FutexProgress.EveryMarkCanBeSettled | src/linux_futex.c:107-214 | from every reachable state some continuation settles all marks, each by one wait that returned 0 |
| FutexWait.WaitSleepsIffWordMatches | src/linux_futex.c:107-149 | from every reachable state with the lock free, an idle thread's own steps lead into the semaphore wait, at the head of the list, if and only if the word has the expected value; otherwise the call ends at the comparison |
| FutexWait.CheckDecides | src/linux_futex.c:135-142 | the comparison under the lock queues the thread at the head of the list if the word matches, and otherwise lets go of the lock and ends the call |
| FutexWait.ListHoldsTheWaiting | src/linux_futex.c:99-152 | over every interleaving a thread is on the list if and only if its last comparison matched and it has not been removed since |
| FutexWait.ScanPicksExactly | src/linux_futex.c:158-214 | over every interleaving a finished wake or requeue has marked exactly the first eligible waiters of the list it found, moved exactly the next ones, and left all others alone |
| FutexWait.WaitThenWakeReturnsZero | src/linux_futex.c:107-177 | a wait on a matching word, followed by a wake of that word with a bitset in common, is marked by it and returns 0 |
| FutexWait.SleeperWakesIffMarkedOrInterrupted | src/linux_futex.c:146-149 | with the lock free a sleeper finds its semaphore posted if and only if it was marked or interrupted |
| FutexWait.HandlerEndsWait | src/linux_futex.c:146-156 | a handler that runs while its thread sleeps ends the wait with EINTR, or with 0 if the waiter was marked |
| FutexWait.FailureEndsWait | src/linux_futex.c:146-156 | a timeout or other failure ends the wait with that error, or with 0 if the waiter was marked |
| FutexWait.PostsHitLiveSemaphores | src/guest_thread.c:360-363 | in every reachable state a handler or scan about to post finds a live semaphore |
| FutexTheorems.WakeAllRetiresWord | src/guest_thread.c:145-148 | after the exit wake-all over a cleared word no unmarked waiter expecting it to be set remains |
| FutexTheorems.ExitLosesNoJoiner | src/guest_thread.c:116-176 | that stays so over every run that neither stores to the word nor requeues onto it |
| FutexList.WakeIsExact | src/linux_futex.c:158-177 | a wake marks exactly min(count, matching) waiters, only matching ones, each once |
| FutexList.WakePicksFirst | src/linux_futex.c:158-177 | the records marked and posted are exactly the first matching ones, once each |
| FutexList.RequeueIsExact | src/linux_futex.c:179-214 | a requeue marks min(wake, waiting), moves min(requeue, rest), never a marked one, and reports their sum |
| FutexList.RequeuePicksFirst | src/linux_futex.c:179-214 | the records marked are exactly the first on the address, the records moved exactly the next ones |
| FutexList.WaiterList.Enqueue | src/linux_futex.c:141-142 | the record becomes the head of the linked list |
| FutexList.WaiterList.Remove | src/linux_futex.c:100-105 | exactly that record is unlinked, if it is listed |
| FutexList.WaiterList.Wake | src/linux_futex.c:158-177 | the loop over the linked list computes the wake specification, with its argument checks |
| FutexList.WaiterList.Requeue | src/linux_futex.c:179-214 | the loop over the linked list computes the requeue specification |
| ThreadLifecycle.NextKeepsInv | src/guest_thread.c:116-290 | every step of creators, children and killers keeps the lifecycle invariant |
| ThreadLifecycle.LifecycleIsOrdered | src/guest_thread.c:116-254 | in every run no freed state is touched, and a thread in guest code is registered and released by its creator |
| ThreadLifecycle.ZeroTidMeansRetired | src/guest_thread.c:116-176 | once the TID was stored in the word a thread clears, the word is 0 if and only if the thread has cleared it, and whoever loads 0 finds its stack unmapped and the thread off the registry |
| ThreadLifecycle.BirthRuns | src/guest_thread.c:155-267 | a clone can always go through: the new thread reaches guest code on the registry with its TID stored where clone asked, and no other thread is touched |
| ThreadLifecycle.ExitRuns | src/guest_thread.c:116-153 | a thread in guest code can always exit: unmapped, off the registry, its TID word 0, freed, and no other thread touched |
| ThreadLifecycle.SetWordIsCleared | src/guest_thread.c:262-267 | the word a thread sets by set_tid_address is the one its exit clears |
| ThreadLifecycle.KillFindsLiveThreads | src/guest_thread.c:578-596 | in every reachable state a directed signal walking the registry finds live threads only |
| ThreadExit.ExitReleasesJoiners | src/guest_thread.c:116-153 | with the futex protocol running beside it, a thread that has exited leaves its word 0, is unmapped and unregistered, and no joiner that expects its TID is left unmarked |
| ThreadExit.WakeAllCanFinish | src/guest_thread.c:116-153 | an exiting thread that finds the futex lock free finishes its wake-all by its own steps and marks the waiters on its TID word, up to INT_MAX |
| ThreadLifecycle.ThreadState.DeferActiveStackUnmap | src/guest_thread.c:269-290 | an unmap is deferred exactly when it covers the stack in use, and merges with the earlier request |
| ThreadLifecycle.MergeIsUnionIffRangesMeet | src/guest_thread.c:269-290 | the merged range is the union if and only if the requests overlap or touch |
| ThreadLifecycle.DistantRequestsOvershoot | src/guest_thread.c:269-290 | two concrete deferrals whose merged range covers an address neither asked for |
| ThreadLifecycle.ActiveStackRangesMerge | src/guest_thread.c:269-290 | requests that contain the stack in use always merge to their union |
| PendingSignals.ThreadSignals.SignalPending | src/guest_thread.c:330-368 | the in-place rings and words refine queues of at most 64 infos and a coalescing set |
| PendingSignals.ThreadSignals.TakePending | src/guest_thread.c:370-417 | the in-place take refines the specification when no signal arrives meanwhile |
| TakeRace.TakeSettlesAtItsLastAccess | src/guest_thread.c:370-417 | with the handler running between any two accesses, the take does what a take at its last access would do if and only if no unmasked signal arrived behind it: a standard one once the word was read for the last time, or a realtime one whose ring was passed |
| TakeRace.LateStandardIsOvertaken | src/guest_thread.c:370-417 | a concrete schedule in which a realtime signal overtakes a standard one |
| TakeRace.UndisturbedTakeFinishes | src/guest_thread.c:370-417 | a take that nothing interrupts comes to an end with the result of a take on the state it began with |
| PendingSignals.TakeSelects | src/guest_thread.c:370-417 | a take returns a deliverable signal if there is one: never masked, standard before realtime, lowest number first |
| PendingSignals.TakenIsPrefixOfAccepted | src/guest_thread.c:330-417 | over every history the infos taken for a realtime number are a prefix of those accepted, at most 64 behind |
| PendingSignals.StandardKeepsFirstInfo | src/guest_thread.c:330-368 | until a collection takes it, a standard signal keeps the info of its first arrival, whatever else is collected |
| PendingSignals.FirstArrivalIsTaken | src/guest_thread.c:346-358 | a standard signal is taken with the information of its first arrival |
| PendingSignals.ArrivalIsAcceptedIff | src/guest_thread.c:335-345 | a realtime arrival is accepted, at the end of its queue, if and only if fewer than 64 are outstanding |
| SignalFrame.MaskRoundTrip | src/guest_thread.c:419-431 | two mask words hold exactly the set of blocked signals |
| SignalFrame.VfpRoundTrip | src/guest_signal.c:119-147 | the saved floating-point block is accepted and restored exactly |
| SignalFrame.UcontextRoundTrip | src/guest_signal.c:167-179 | a prepared context reads back as the same registers, flags, mask and stack |
| SignalFrame.UcontextLayout | src/guest_signal.c:26-56 | every field of the context lies at its offset in the Linux structure |
| SignalFrame.FrameSizes | src/guest_signal.c:43-56 | frames are 888 and 760 bytes long and the context starts at byte 128 or 0 |
| SignalFrame.MaskBit | src/guest_signal.c:99-108 | signal n is bit (n - 1) % 32 of mask word (n - 1) / 32 |
| SignalDelivery.DeliveryWritesFrame | src/guest_signal.c:181-268 | a delivery writes an 8-aligned frame that holds the interrupted state |
| SignalDelivery.DeliveryIsDecided | src/guest_signal.c:196-206 | a handler is entered if and only if the signal has one and is not blocked, or is SIGILL or SIGSEGV; a blocked signal is left pending; everything else is refused |
| SignalDelivery.BlockedStaysOut | src/guest_signal.c:196-206 | over every run of nested handlers no handler is entered for a signal that is blocked at that moment |
| SignalDelivery.HandlerIsNotReentered | src/guest_signal.c:238-253 | while a handler runs, and the guest unblocks nothing itself, neither its own signal nor one of its mask or of the interrupted mask enters a handler, however deep others nest |
| SignalDelivery.FrameIsOnAltStackIffAsked | src/guest_signal.c:210-218 | from off the alternate stack a frame goes onto it if and only if the handler asks for it |
| SignalDelivery.HandlerSeesItsArguments | src/guest_signal.c:181-268 | the handler is entered with its number, finds siginfo and context where r1 and r2 point, returns to the right restorer, and runs with exactly the specified mask and action table |
| SignalDelivery.ReturnRestores | src/guest_signal.c:299-322 | returning on an intact frame is never rejected and restores registers, flags, VFP state, mask and, for realtime frames, the alternate stack |
| SignalDelivery.NestedRunsNeverFail | src/guest_signal.c:181-322 | over every run in which frames go where there is room, on the ordinary or the alternate stack, frames stay 8-aligned, pairwise disjoint and intact, and no return is rejected |
| SignalDelivery.MatchingReturnRestores | src/guest_signal.c:181-322 | however deep the nesting in between, the matching return restores registers, flags and VFP state of its delivery, its mask or the mask parked then, and for a siginfo handler entered off the alternate stack that stack |
| SignalDelivery.FirstFrameFitsAltStack | src/guest_signal.c:207-226 | one frame always fits an accepted alternate stack, wherever it lies |
| SignalDelivery.NestedFrameFitsAltStackIff | src/guest_signal.c:207-226 | a second frame stays on the alternate stack below the stack pointer if and only if the reserve fits above the first aligned address of the stack |
| SignalDelivery.SmallAltStackOverflows | src/guest_signal.c:207-226 | after a delivery onto an alternate stack of at most 8192 bytes every nested frame leaves that stack |
| SignalState.SignalThread.Enter | src/guest_signal.c:181-268 | the in-place delivery computes the specified result; unless a handler is entered nothing changes |
| SignalState.SignalThread.Leave | src/guest_signal.c:299-322 | the in-place return computes the specified result; a rejected frame changes nothing |
| SignalArrival.ArrivalIsDeliveredOrKept | src/guest_signal.c:354-364 | an arriving signal enters its handler if and only if guest code was interrupted and the signal is unblocked and handled; otherwise the guest is untouched, the signal is pending, and no other signal is affected |
| SignalArrival.RecordedOnceIff | src/guest_signal.c:198-203 | a signal that is kept is recorded once, if and only if it is not a blocked realtime signal in guest code with room for two |
| SignalArrival.SentOnceQueuedTwice | src/guest_signal.c:354-364 | after a spurious wake of a ppoll a realtime signal of its mask that is sent once is queued twice |
| SyscallExit.TakenIsDeliveredIffHandled | src/guest_signal.c:281-297 | a taken signal is unmasked and enters a handler if and only if one is installed |
| SyscallExit.RestartIffInterrupted | src/guest_signal.c:270-297 | the frame brings back the pre-trap registers if and only if the call failed with EINTR, the handler has SA_RESTART and the call restarts; otherwise those after the call |
| SyscallExit.RestartedCallRunsAgain | src/trap.c:103-119 | dispatch, advance, rewind, frame push and frame pop are the identity on the context |
| SyscallExit.CompletedWaitDeliversUnderOldMask | src/guest_thread.c:501-506 | a wait that is not interrupted returns to the old mask, which selects what is delivered next |
| SyscallExit.InterruptedWaitRestoresMaskIffHandled | src/guest_thread.c:433-451 | after an interrupted sigsuspend, ppoll or pselect6 the mask the handler returns to is the old one if and only if the signal the temporary mask selects has a handler, or the masks were equal |
| SyscallExit.SpuriousWakeKeepsTemporaryMask | src/linux_poll.c:227-257 | a ppoll run the host can have: a signal the host does not block yet and the temporary mask blocks arrives between the publication of the pipe and the host mask; nothing is delivered, the temporary mask stays and the old one stays parked |
| SyscallExit.NextReturnKeepsMaskIff | src/guest_thread.c:443-451 | the next handler returns to the mask it interrupted if and only if no other mask is parked |
| SyscallExit.ParkedMaskOverridesGuest | src/guest_thread.c:443-451 | after a spurious wake a mask the guest sets is lost at its next handler |
| SyscallExit.SuspendInHandlerSleeps | src/guest_signal.c:281-297 | one exit delivers one signal; a handler that then waits in sigsuspend for a second pending one falls asleep on it |
| PollWait.NoLostWakeup | src/linux_poll.c:153-199 | for every arrival time, once the wait is armed a signal the temporary mask lets through implies a readable pipe |
| PollWait.WaitSettlesMasks | src/guest_thread.c:453-520 | however a ppoll, pselect6 or sigsuspend ends, the caller has its old mask, or the temporary one with the old one parked, and the host blocks what it blocked before |
| PollWait.QuietWaitArms | src/linux_poll.c:227-250 | a wait during which nothing arrives comes to its host call with a byte in the pipe if and only if something pending is deliverable under the temporary mask |
| PollWait.SuspendSleepsOnIff | src/guest_signal.c:468-489 | some schedule lets sigsuspend fall asleep on a signal its mask lets through if and only if the signal is pending before the call or the host does not block it then |
| PathSyntax.NormalizedIsClean | src/guest_path.c:120-172 | normalisation yields no empty, `.` or `..` component, and a path that fits |
| PathSyntax.NormalizeIsIdempotent | src/guest_path.c:120-172 | normalising a normalised path changes nothing |
| PathSyntax.DotsCancel | src/guest_path.c:148-153 | on components: a name and the `..` behind it cancel, `..` at the root and `.` anywhere say nothing |
| PathSyntax.NormalizeCancels | src/guest_path.c:120-172 | on text: a path with `name/..` or `.` in it normalises as the path without, as long as the longer spelling fits the buffer |
| PathSyntax.ShortPathsFit | src/guest_path.c:122-153 | a path no longer than PATH_MAX + 1 never needs more than the PATH_MAX / 2 component slots |
| PathSyntax.LongPathOverrunsSlots | src/guest_path.c:122-153 | an accepted path of 513 one-letter names needs one slot more |
| PathResolution.ResolutionLeavesNoLinks | src/guest_path.c:33-118 | every prefix of a resolved path is a real node; only an allowed leaf may be missing |
| PathResolution.HostCandidateIs | src/guest_path.c:54-72 | the walk asks the host about exactly the root followed by the prefix walked so far |
| PathResolution.RedirectedComponents | src/guest_path.c:86-96 | the rewritten path denotes the link target, from the root or from the link's directory, followed by the rest of the path |
| PathResolution.ResolutionFollowsLinks | src/guest_path.c:33-118 | resolution succeeds with r if and only if at most 40 substitutions of first links lead to the link-free r |
| PathResolution.ResolutionIsFixedPoint | src/guest_path.c:33-118 | resolving a resolved path on the same tree gives it back |
| PathResolution.ResolveReaches | src/guest_path.c:184-210 | a path resolves to a host path if and only if it is the null device or leads over at most 40 links to a link-free path; the host path is the root followed by it |
| PathResolution.NoFollowReaches | src/guest_path.c:212-249 | the same for the parent of a path whose last name is kept as written |
| PathResolution.GuestDirectoryIff | src/guest_path.c:271-279 | a descriptor is accepted if and only if its path is the root or lies below it |
| PathResolution.ResolveAtIsRelativeResolution | src/guest_path.c:251-290 | resolving at a directory descriptor, the root itself included, equals resolving with that directory as working directory |
| PathResolution.ResolveAtComponents | src/guest_path.c:251-290 | such a call resolves the directory's components with the path's folded onto them |
| PathResolution.NoFollowParentHasNoLinks | src/guest_path.c:212-249 | every directory a no-follow path passes through is a real node below the root and the leaf is kept; root and null device included |
| GuestPaths.PathState.CollectComponents | src/guest_path.c:140-154 | the cursor loop and component stack compute the fold, never underflow, and report how many slots they used |
| GuestPaths.PathState.WriteComponents | src/guest_path.c:155-172 | the output loop renders the components or refuses to pass the buffer |
| GuestPaths.PathState.NormalizePath | src/guest_path.c:120-172 | the imperative normaliser computes the specification, errors included |
| GuestPaths.PathState.ResolveSymlinks | src/guest_path.c:33-118 | the restart loop terminates on links left, then path left, and computes the specification |
| GuestPaths.PathState.ChangeDirectory | src/guest_path.c:314-338 | the working directory changes only when everything succeeded |
| GuestPaths.PathState.ChangeToDescriptor | src/guest_path.c:340-356 | a descriptor outside the root is refused; otherwise it is a chdir |
| GuestPaths.InitialCwdIsNormalized | src/guest_path.c:11 | the working directory every run starts from is normalized |
| GuestPaths.CwdStaysNormalized | src/guest_path.c:314-356 | over every run of chdir and fchdir calls the working directory stays normalised |
| GuestPaths.ChangesDirectoryIff | src/guest_path.c:314-338 | chdir succeeds if and only if the path leads over at most 40 links to a directory that fits below the root, which is then the working directory |

## Left out

- Sockets, terminals, time, stat and errno conversion: finite tables and thin wrappers around host calls.
- System-call dispatch, descriptor tracking and exec: mostly host calls; dispatch is a parameter of the trap model.
- The Linux/QNX signal-number map, the siginfo fields, and host signal masks outside the waits of PollWait: the software mask is modelled, the translated siginfo is a parameter.
- Inline assembly, kuser helpers, Thumb, and the SIGSEGV branch of the trap handler.
- Timeout conversion, the fork reset, and the event-bit maps of poll and select.
- Agreement of host mappings and registry on the error paths of `linux_mmap2` with MAP_FIXED, where the code does not keep it.
- Identification bytes, table sizes and the PT_INTERP text of an ELF file: one refusal outcome stands for them.
- Synchronisation of `guest_memory_is_executable`, which the source reads without the lock; the model assumes it is held.
- The main thread in the lifecycle model: its state is static and never freed.
- Flag words are records of booleans and masks are sets of signal numbers; the mask words are covered by MaskRoundTrip.
- PendingSignals.ThreadSignals.SignalPending: requires the ring counter below its signed maximum, because the source's counter overflow is undefined.
- PendingSignals.ThreadSignals.TakePending: the compare-and-swap is one assignment, because TakeRace models its races.
- FutexTheorems.WakeAllRetiresWord: assumes fewer than 2^31 - 1 waiters on one word, because the wake count is INT_MAX.
- FutexList.WaiterList.Requeue: starts after the argument and value checks, because the transition system models those.
- ElfMapping.PatchElfMapping: starts after the section table has been read, and the mapping does not wrap, because the host returned it.
- GuestPaths.PathState.CollectComponents: the component array is a sequence here and goes on past its PATH_MAX / 2 slots, because what the source does there is undefined.
- StartupStack.StartupReadsBack: assumes a 16-aligned lower bound, because the host maps whole pages.
- LoadState.Tables.MapLoadSegment: a host answer that places a segment over mapped memory counts as a misplacement, because the host never gives one.
- Trap.RunSimulates: code and table are fixed during the run, because CodeChanges treats code that changes.
- Trap.StepSimulates: signal delivery and sigreturn do not look at the code, because frames lie on a stack.
- CodeChanges.ChangingCodeSimulates: the order of guest stores and instructions is part of the history, because the processor's own stores are not decoded.
- LoadSuccess.StaticProgramRunsIff: programs at a fixed address without an interpreter, because AttemptSucceedsIff and TryBiasesIsFirstFit give every attempt of the others.
- SignalArrival.ArrivalIsDeliveredOrKept: that guest code was interrupted outside a system call is one flag, because both tests come from the host context.
- ThreadExit.ExitReleasesJoiners: assumes nobody else stores into the TID word or requeues onto it and fewer than INT_MAX waiters, because the guest owns the word.
