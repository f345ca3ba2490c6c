# ZOFI, modelled and proved in Dafny

ZOFI launches a program under ptrace, stops it at a random moment, flips one bit of one
register, lets it run on and classifies what happens. This project models the decisions ZOFI
takes around the operating system calls and proves what they guarantee: for every command
line, every register image, every stream of process events and every order in which jobs finish.

`dafny verify dfyconfig.toml` checks everything.

| file | what it models |
|---|---|
| `DiffCommand.dfy` | macro expansion of `-diff-cmd`: four rescanning replacement loops against one simultaneous pass |
| `LineWrap.dfy` | greedy line splitting of the help text |
| `FileDiff.dfy`, `PrettyTime.dfy` | chunked file comparison, printing of times |
| `AddressSpaces.dfy` | the ordered set of address ranges and its point lookup |
| `Bits.dfy` | bytes, little-endian integers, exclusive or, the flip of a bit |
| `VectorState.dfy` | copying between the XSAVE buffer and the flat `zmm` array |
| `Registers.dfy` | reading the registers, flipping a bit, writing them back |
| `InstructionRegisters.dfy` | the registers an instruction accesses and the choice among them |
| `ThreadTracking.dfy` | tracked threads, swallowed events, the random pick |
| `InjectionLog.dfy`, `Injection.dfy` | the rules for what a run does to its children, and the run itself |
| `StaleExit.dfy` | an input on which a run leaves a child unattended |
| `Statistics.dfy`, `Scheduler.dfy`, `TestRuns.dfy` | counters, the job pool, all test runs together |

The operating system is adversarial. Event streams and the answers to calls are arbitrary
inputs; process ids, descriptors and the next job to finish are chosen freely by methods whose
contracts are all that callers may use. What is assumed of the system: a new process id is
positive and not one of an unreaped child, a new descriptor is not open, a job has written its
result when it exits, reading and writing the vector registers moves the whole XSAVE buffer or
nothing, and system calls that the program wraps in a fatal check succeed.

## Where the code and its evident intent part

Each of these is modelled as the code has it, and the exact condition under which the intent
holds is proved.

- A path can help to spell a macro, which is then expanded again (`DiffCommand.ExpansionIsOnePassIff`). Absolute paths without `%` never do; with relative ones the loops end, but can end with another command (`DiffCommand.ClashShows`).
- A description with as many consecutive unsplittable characters as fit on a line makes the help text loop for ever (`LineWrap.WrapDescription`).
- Byte 16 and byte 32 of a vector register are looked up in the next row, and registers 16 to 31 past the buffer (`VectorState.ImportAfterExportAsWrittenIff`, `VectorState.ExportSpillsAsWritten`).
- A flip of a register backed by the flat array never reaches the machine (`Registers.FlippedChangesOneBit`), though it counts as a success. In a classified run with injections the machine has changed by exactly the chosen bit if and only if the register is not of that kind and the vector state is not stale (`Injection.Runner.RunAndWait`).
- Ranges are compared as closed, so an address that ends one range and starts the next is found in the first (`AddressSpaces.FindIsOwnerIff`); every path of two characters counts as a library (`AddressSpaces.PathIsLibraryIff`).
- Implicit registers are missing from the vector used when both reads and writes are selected (`InstructionRegisters.AllIsUnionIff`).
- After a clone the main thread is resumed, whichever thread has cloned (`ThreadTracking.ResumedIff`); a new thread's stop is swallowed only after its announcement (`ThreadTracking.NoAnnouncedStopReturnedIff`; `ThreadTracking.EarlyStopIsReturned` is a stream for which this fails).
- A failed attempt kills its child only if the signal was sent and the event returned is no exit; it does not matter whose exit (`Injection.Runner.TryInjectFaultAt`). So a started child is left unattended at the next launch exactly when one of the two went wrong and its own end was not waited for (`InjectionLog.AbandonedIff`), and the number of such children of a run is computed from its input (`Injection.Runner.RunAndWait`). The late exit of a child that could not be traced is enough (`StaleExit.StaleExitRun`).
- The outcome is classified by whatever event comes next. It is the child's own if and only if its process is the child or a thread announced since the launch (`Injection.Runner.RunAndWait`). Streams in which only living processes of the child report always are that way (`ThreadTracking.OrderlyReturned`); an early stop or a stale exit is not (`ThreadTracking.ForeignIsReturned`).
- A failed read of the vector state goes unnoticed, and what was read before is written back (`Registers.StaleFlipShows`, `Registers.RegisterManipulator.TryBitFlip`).
- Clearing the counters does not clear the totals (`Statistics.Statistics.Zero`).
- One day, one hour and one minute sharp are printed as 24 hours, 60 minutes and 60 seconds, and less than two seconds as nothing (`PrettyTime.PrettyPrintTime`).

## Model

| member | source | states |
|---|---|---|
| DiffCommand.FindFrom | src/utils.h:117 | the first occurrence at or after an index, or none at all |
| DiffCommand.StrReplace | src/utils.h:113-120 | ends with the string in which the macro no longer occurs that the rescanning loop reaches; needs only that the loop ends |
| DiffCommand.LoopEnds | src/utils.h:114-120 | a path without '%' makes the loop end on every string, because every replacement takes one '%' away |
| DiffCommand.ExpansionEnds | src/runner.cpp:586-590 | so do the successive loops |
| DiffCommand.LoopIsOnePass | src/utils.h:113-120 | the loop terminates and equals one left-to-right pass for every string, whenever the path cannot help to spell the macro |
| DiffCommand.OnePassComposes | src/runner.cpp:587-590 | a later loop applied to an expanded string is one pass with one rule more, if no earlier path clashes with its macro |
| DiffCommand.HarmlessSuffices | src/runner.cpp:586-590 | if no path clashes with the macro of its own or a later loop, the successive loops produce the simultaneous substitution |
| DiffCommand.HarmWitness | src/runner.cpp:586-590 | for any clash there is a command with a single macro whose one-pass result spells another macro |
| DiffCommand.FinalLacks | src/runner.cpp:586-590 | whatever the loops produce lacks the macro of the last harmful pair |
| DiffCommand.ExpansionIsOnePassIff | src/runner.cpp:583-590 | the loops are the simultaneous substitution for all commands if and only if no path clashes with its own or a later macro |
| DiffCommand.ClashShows | src/runner.cpp:586-590 | if no path has a '%', any clash shows: on some command the loops end with another string than the one pass |
| DiffCommand.ExpandsToUnique | src/runner.cpp:586-590 | the loops have at most one final string |
| DiffCommand.OnePassOrder | src/runner.cpp:587-590 | the simultaneous substitution does not depend on the order of the rules |
| DiffCommand.PlainPathNeverClashes | src/runner.cpp:587-590 | an absolute path without '%' clashes with no macro |
| DiffCommand.PlainPathsExpand | src/runner.cpp:583-590 | with such paths every order of the loops ends, gives the simultaneous substitution, and leaves no macro |
| DiffCommand.MacroReplaced | src/utils.h:114-120 | one pass copies text without '%', and puts the path of a rule in the place of its macro, whatever follows |
| DiffCommand.MacrosStandFor | src/runner.cpp:587-590 | each of the four macros, by its name, stands for its own file |
| DiffCommand.RelativePathDiffers | src/runner.cpp:586-590 | with one relative path there is a command on which the loops end with another string than the one pass |
| DiffCommand.ExpandDiffCommand | src/runner.cpp:583-590 | the four loops run in the order of the source; with plain paths the result is the one pass, and each macro by itself gives its own file |
| LineWrap.LastSplit | src/options.cpp:286-294 | the last split character in reach of the line width, or -1 exactly when none is |
| LineWrap.PrintPiece | src/options.cpp:296-300 | prints exactly the piece, without the final NUL, and stays inside the buffer |
| LineWrap.WrapDescription | src/options.cpp:273-302 | hangs exactly if as many characters as fit on a line are neither spaces nor commas; else the lines join to the description, fit, end at a space or comma but for the last, and are the fewest of any split |
| LineWrap.SplitExistsIff | src/options.cpp:285-294 | a description can be split at all if and only if it nowhere holds a line's worth of unsplittable characters |
| LineWrap.StuckIsUnbroken | src/options.cpp:252-262 | a description is stuck exactly if some window of it holds neither space nor comma |
| LineWrap.SplitIsWellBroken | src/options.cpp:273-302 | the lines of any split fit, and each but the last ends at a space or a comma |
| LineWrap.GreedyIsLongest | src/options.cpp:286-296 | the greedy line is at least as long as the first line of any split of the rest |
| LineWrap.AheadStep | src/options.cpp:278-302 | after each greedy line every split of the whole can still be matched with no more lines |
| FileDiff.File.Fread | src/utils.h:244-245 | reads the next bytes and sets the end-of-file mark only when it gets fewer than asked for |
| FileDiff.CommonLengthBounds | src/utils.h:243-251 | prefixes agree exactly up to the common length |
| FileDiff.DefaultDiff | src/utils.h:225-254 | true exactly for equal contents; the number of reads is that of the chunk of the first difference, or one past the full chunks, an empty one for multiples of 256 |
| PrettyTime.PrintUnit | src/utils.h:343-348 | what is printed for a unit and what is left make up the time, and less than the unit is left |
| PrettyTime.PrettyPrintTime | src/utils.h:331-350 | nothing below two seconds, else mixed radix fields that decode to the time; the first field reaches its radix exactly for one day, hour or minute sharp |
| AddressSpaces.InsertUnderSpec | src/addrSpace.cpp:41 | insertion along the search path, decided by the predecessor, inserts at the place of the range in the sorted order or not at all |
| AddressSpaces.InsertSpec | src/addrSpace.cpp:41 | a range is rejected exactly when it is nested with a member; else the set stays sorted |
| AddressSpaces.EquivalentIsNested | src/addrSpace.h:45-49 | neither range is less than the other exactly when one lies within the other |
| AddressSpaces.InsertAllSpec | src/addrSpace.cpp:32-42 | any list of ranges gives a sorted set of listed ranges, and all of them exactly when none are nested |
| AddressSpaces.LowerBoundSpec | src/addrSpace.cpp:50 | the walk finds the first range that does not end before the address, on a tree of any shape |
| AddressSpaces.FindIsScan | src/addrSpace.cpp:48-54 | lookup equals the linear scan: found exactly when a range covers the address, ends included |
| AddressSpaces.FindIsOwnerIff | src/addrSpace.cpp:41-55 | disjoint non-empty ranges are all inserted, in whatever order they are listed, and the tree lookup finds the owner of an address exactly when no range ends at it |
| AddressSpaces.CoveredTwice | src/addrSpace.h:38-49 | two ranges of the disjoint listing cover an address only where one ends and the next starts, and the scan finds the lower |
| AddressSpaces.PathIsLibraryIff | src/addrSpace.cpp:57-60 | the size_t test holds exactly for paths that end in .so and for paths of two characters |
| AddressSpaces.AddressSpace.constructor | src/addrSpace.cpp:24-46 | all ranges of the listing are in the sorted set if none are nested |
| AddressSpaces.AddressSpace.IsInLibrary | src/addrSpace.cpp:48-61 | fatal exactly when no range covers the address; else the answer of the range the scan finds first |
| Bits.XorToggles | src/regManip.cpp:391-393 | exclusive or with 2^k adds or subtracts 2^k, by the old bit |
| Bits.ToggleOneBit | src/regManip.cpp:391-393 | bit k changes and every other bit stays |
| Bits.FlipBitToggles | src/regManip.cpp:103-126 | XOR-ing one byte of a register of any width toggles exactly the chosen bit of its little-endian integer |
| Bits.FlipBitTwice | src/regManip.cpp:118-126 | flipping twice restores the register, flipping once changes it, and other bytes stay |
| VectorState.VecRegsState.ImportData | src/regManip.cpp:52-56 | the nested loops fill the flat array as the cell-by-cell specification does |
| VectorState.VecRegsState.ExportData | src/regManip.cpp:58-62 | the nested loops write the buffer as the cell-by-cell specification does |
| VectorState.ImportAt | src/regManip.cpp:52-56 | import leaves the buffer alone and fills each cell from its location; rows 16 to 31, read past the buffer, are copies of rows 0 to 15 |
| VectorState.ExportAt | src/regManip.cpp:58-62 | each location ends with the value its last writer had before the export |
| VectorState.AsWrittenSharing | src/regManip.h:163-178 | the only cells that share a location are byte 16 of a row below 15 and byte 0 of the next |
| VectorState.ExportAfterImport | src/regManip.cpp:52-62 | exporting what was just imported changes no byte, as written and row by row |
| VectorState.RowExactInjective | src/regManip.h:152-161 | row-exact locations lie in the vector area and have a left inverse |
| VectorState.RowExactOnto | src/regManip.h:152-161 | row-exact locations cover the vector area |
| VectorState.RowExactDrawing | src/regManip.h:91-130 | row by row, each byte of a register lies at the bit the drawing of the XSAVE area gives it |
| VectorState.LayoutsAgreeIff | src/regManip.h:163-178 | as written, bytes of registers 0 to 15 are where they belong exactly off bytes 16 and 32, which lie in the row of the next register, and those of the others are 1024 bytes off |
| VectorState.ImportAfterExportRowExact | src/regManip.cpp:52-62 | row by row, import undoes export for every flat array, and export touches the vector area only |
| VectorState.RoundTripAsWritten | src/regManip.h:163-178 | what each cell holds after export and import as written |
| VectorState.ImportAfterExportAsWrittenIff | src/regManip.h:163-178 | as written, import undoes export exactly for arrays whose shared bytes agree and whose upper rows repeat the lower ones |
| VectorState.ExportSpillsAsWritten | src/regManip.h:165-168 | as written, export also overwrites the first reserved and the first opmask byte, and nothing else outside the vector area |
| Registers.FlippedChangesOneBit | src/regManip.cpp:375-408 | the machine's registers, as integers, change by one toggled bit, and change at all exactly when the register is not backed by the flat array |
| Registers.FlippedInjective | src/regManip.cpp:375-408 | flips of different states differ, so a stale state written back would show; a second flip restores the state |
| Registers.RegisterValueToggles | src/regManip.cpp:103-126 | the register's own value, read at its base pointer, toggles the bit |
| Registers.StaleFlipShows | src/regManip.cpp:64-91 | a flip of the state as read is the flip of the machine's state if and only if the vector state was read or the buffer already equalled it |
| Registers.ToggledIff | src/regManip.cpp:64-91 | a flip that is written back toggles exactly the chosen bit among all bytes of the machine if and only if the register is not backed by the flat array and the vector state was read or had not changed |
| Registers.RowExactWriteBackReaches | src/regManip.cpp:77-91 | with a row-exact export before the write-back a changed cell reaches its place in the buffer and nothing else changes |
| Registers.RegisterManipulator.ImportRegisters | src/regManip.cpp:64-75 | the general purpose buffer holds the machine's registers; the XSAVE buffer does if it could be read, and else what it held before |
| Registers.RegisterManipulator.ExportRegisters | src/regManip.cpp:77-91 | which registers are written for each pair of answers |
| Registers.RegisterManipulator.GetProgramCounter | src/regManip.cpp:363-372 | the machine's instruction pointer |
| Registers.RegisterManipulator.FlipRegisterByte | src/regManip.cpp:103-126 | one byte of one buffer is changed; the result depends on the base pointer and the bit alone |
| Registers.RegisterManipulator.TryBitFlip | src/regManip.cpp:374-408 | on success the machine is what it was at the call with exactly the chosen bit toggled, if and only if the vector state was read or had not changed; registers backed by the flat array are not flipped; the failure cases leave what the answers imply |
| Registers.RegisterManipulator.FlipAtInstruction | src/runner.cpp:477-520 | after a single step to any state the flip is of that state, not of the snapshot taken for the instruction pointer; if only the snapshot could be read, this holds exactly if the step did not touch the vector state |
| InstructionRegisters.IsControlInstr | src/regManip.cpp:152-174 | true exactly when some group of the instruction is a control group |
| InstructionRegisters.PushOperand | src/regManip.cpp:269-303 | what one operand adds to each of the three vectors, and when its registers are unknown |
| InstructionRegisters.GetInstrRegisters | src/regManip.cpp:187-315 | dies exactly for an unknown register; else the three vectors in order, all empty for bytes that cannot be decoded |
| InstructionRegisters.OperandsBalance | src/regManip.cpp:266-304 | explicit registers: all of them are the written, the read and the silent ones, counting repetitions |
| InstructionRegisters.VectorsBalanced | src/regManip.cpp:234-304 | AllRegs, with the second rip and the implicit registers added, is WRegs and RRegs together with the silent operands |
| InstructionRegisters.AllIsUnionIff | src/regManip.cpp:234-304 | AllRegs with a second rip is WRegs and RRegs together exactly when implicit registers and silent operands are the same multiset |
| InstructionRegisters.VectorsSound | src/regManip.cpp:234-304 | RRegs holds no written entry, WRegs only written ones or rip, all with the bits of the table |
| InstructionRegisters.VectorsMembers | src/regManip.cpp:234-304 | exactly which registers each vector holds, by the letters of the option and the disassembly: rip for 'c' or 'o', implicit ones for 'i', operands for 'e', written ones in WRegs and read ones in RRegs |
| InstructionRegisters.GetSelectedRegAndBit | src/regManip.cpp:317-361 | a selected bit lies in its register's range; without 'w' only read registers are chosen and without 'r' only written ones or rip, with both any entry of AllRegs by the random number; the cases of failure |
| ThreadTracking.TrackIsLive | src/runner.cpp:207-238 | for every event stream a thread is tracked exactly when it was announced and has not exited or been killed since |
| ThreadTracking.SkipCountSpec | src/runner.cpp:201-240 | every event before the returned one is swallowed by the threads tracked when it arrives, and the returned one is not |
| ThreadTracking.ReturnedIff | src/runner.cpp:197-241 | over a whole stream, one wait after another returns an event exactly if it is not swallowed by the threads tracked when it arrives |
| ThreadTracking.ReturnedExactly | src/runner.cpp:206-238 | in terms of the stream alone: everything is returned but clone stops and, of threads announced before that have not ended since, SIGSTOPs and ends |
| ThreadTracking.StopReturnedIff | src/runner.cpp:222-227 | in every stream a SIGSTOP is returned if and only if its thread has not been announced before or has died since |
| ThreadTracking.NoAnnouncedStopReturnedIff | src/runner.cpp:207-227 | no SIGSTOP of a thread announced anywhere in the stream is returned, if and only if each follows its announcement with no death in between |
| ThreadTracking.OrderlyReturned | src/runner.cpp:197-241 | if only the main thread and living announced threads report, what is returned is the main thread's, or a living thread's stop by another signal than SIGSTOP |
| ThreadTracking.OrdinaryRun | src/runner.cpp:197-241 | an ordinary run of two threads is orderly, and only the end of the child is returned |
| ThreadTracking.ForeignIsReturned | src/runner.cpp:199-240 | an early stop or the exit of a process that is not tracked is returned at once, though it is not the child's |
| ThreadTracking.AnnouncedByIff | src/runner.cpp:207-219 | the announced threads are those named by some clone event |
| ThreadTracking.ResumedIff | src/runner.cpp:208-227 | every swallowed stop is resumed, in order, if and only if only the main thread clones |
| ThreadTracking.EarlyStopIsReturned | src/runner.cpp:222-227 | two streams that differ in order: the stop before the announcement is returned, the stop after it is not |
| ThreadTracking.NthInjective | src/runner.cpp:259-264 | different counts reach different tracked threads |
| ThreadTracking.PickOnto | src/runner.cpp:250-267 | the pick reaches the main thread and every tracked thread |
| ThreadTracking.PickInjectiveIff | src/runner.cpp:253-264 | different counts pick different processes if and only if the main thread is not tracked |
| ThreadTracking.PickOrder | src/runner.cpp:256-264 | the main thread is picked for 0, and greater counts pick greater threads |
| ThreadTracking.GetRandomChildThreadPID | src/runner.cpp:250-267 | returns the process picked for the count; the fatal error behind the loop is unreachable |
| InjectionLog.ClassifiedWasFlipped | src/runner.cpp:376-409 | in a log that keeps the rules, exactly the expected number of successful flips has come since the last launch when an outcome is classified |
| InjectionLog.ClassifiedByLastWaited | src/runner.cpp:292-297 | the process an outcome is attributed to is that of the event waited for last, after the last launch |
| InjectionLog.FlipHitsOwnThread | src/runner.cpp:472-526 | a single step and a successful flip are of the child launched last or a thread announced since |
| InjectionLog.PendingUntilReaped | src/runner.cpp:542-549 | a failed flip stays pending until the child has been killed and then reaped |
| InjectionLog.FailedFlipIsKilled | src/runner.cpp:539-549 | a child whose flip failed is killed and reaped before the next launch, and not classified before that |
| InjectionLog.AbandonedIff | src/runner.cpp:434-462 | between two launches a started child has been killed and reaped if and only if its signal was sent and no exit was waited for; it is left unattended exactly otherwise, unless its own end was waited for |
| InjectionLog.FateKnows | src/runner.cpp:434-551 | what the monitor knows of the child launched last is what the log says since its launch: started, killed, reaped after that, excused |
| InjectionLog.FateCountsAbandoned | src/runner.cpp:376-401 | the monitor's count is the number of launches in the log that leave a started child unattended |
| InjectionLog.TerminalsBalance | src/runner.cpp:269-273 | a descriptor has been opened as often as closed, once more while it is the open terminal |
| InjectionLog.OpenedIsClosed | src/runner.cpp:111-131 | every terminal is closed before the next is opened, and before the end if none is open then |
| InjectionLog.WatchCounts | src/runner.cpp:376-401 | the monitor's counters are the numbers of launches, starts and flips in the log |
| Injection.Runner.CloseOpenTerminal | src/runner.cpp:269-273 | closes the terminal of the last launch, if there is one |
| Injection.Runner.ForkChild | src/runner.cpp:111-131 | the old terminal is closed before the new one is opened; the threads are forgotten |
| Injection.Runner.Run | src/runner.cpp:111-195 | the child is started exactly when its options can be set |
| Injection.Runner.ProcessEvent | src/runner.cpp:199-238 | one event: what is tracked, who is resumed by the kind of the event, whether the loop goes on, which is exactly unless the event is among those returned |
| Injection.Runner.WaitpidSkipThreadState | src/runner.cpp:197-241 | returns the first event not swallowed, blocks if there is none; threads and resumed processes are those of the swallowed events; the process to inject to is picked among the threads tracked when the sleeper wakes |
| Injection.Runner.SleepAndStopRandomChildThread | src/runner.cpp:411-432 | the process to inject to is the random pick among the child's processes |
| Injection.Runner.StopChildAfter | src/runner.cpp:434-470 | true exactly when the signal was sent and the event returned is a stop; else the child is killed and reaped exactly when the signal was sent and the event is a death; which process is signalled |
| Injection.Runner.DoBitFlip | src/runner.cpp:472-527 | when the flip succeeds, fails or is fatal; what a success does to the machine; exactly a register that the instruction writes is stepped over, directly before the flip; in a library nothing is flipped if that is asked for |
| Injection.Runner.TryBitFlip | src/runner.cpp:518-526 | the flip is followed by resuming the thread, and both happen only if it is written back; the change logged is what happens to the machine |
| Injection.Runner.StepIfWritten | src/runner.cpp:499-516 | the thread is stepped exactly if the instruction writes the register, and then the flip goes on only after a trap, on the state after the step |
| Injection.ChangedState | src/runner.cpp:499-520 | a successful flip is of the selected bit, in the state after the step if the register is written and in the one at the stop otherwise |
| Injection.FlippingExactly | src/runner.cpp:472-527 | a bit is flipped exactly if the address is no reason to skip, a register in reach is selected, a step that is needed ends in a trap and both writes succeed |
| Injection.DiesExactly | src/runner.cpp:472-527 | when the program dies instead |
| Injection.TogglesIffReaches | src/runner.cpp:472-527 | a successful flip of an attempt toggles exactly the chosen bit of the thread's machine if and only if the register is part of the machine and the vector state is read for the flip or the same as when it was read |
| Injection.Runner.PtraceKillChild | src/runner.cpp:304-308 | the child is killed and reaped, so no unfinished child is left |
| Injection.Runner.GiveUpChild | src/runner.cpp:542-549 | a failed flip is counted once, then the child is killed and reaped |
| Injection.Runner.TryInjectFaultAt | src/runner.cpp:529-551 | success is one written-back flip, and when it comes is exact; failure is counted once, and then the child has been killed and reaped if and only if the signal was sent and the event returned is no exit of any process; else nothing is done to it |
| Injection.Runner.WaitChildAndGetStatus | src/runner.cpp:292-360 | which event and comparison give which status, whatever process the event is of; a run that does not redirect is skipped; an unfinished child is killed |
| Injection.ExplainsOne | src/runner.cpp:298-358 | an event and a comparison are explained by one status at most |
| Injection.ExplainsExactly | src/runner.cpp:298-358 | which status it is for each event, exit code and comparison |
| Injection.ExplainedIff | src/runner.cpp:298-358 | some status explains an event exactly if the output is not redirected or the event is an exit or a stop |
| Injection.Runner.InjectLoop | src/runner.cpp:376-401 | ends after at most maxInjectionAttempts - 1 launches in unsigned arithmetic, normally only after a success if injections are enabled, counts each started but failed attempt once, and leads to the end that the input comes to |
| Injection.Runner.RunAndWait | src/runner.cpp:376-409 | every run keeps the rules of the log, launches at most MaxInjectionAttempts - 1 children, and ends as its input comes to; a classified run has made exactly one successful flip if injections are enabled and none otherwise, and that flip has toggled exactly the chosen bit of the machine if and only if the register is part of it and the vector state is not stale; the event that decides is the child's own if and only if its process is the child or a thread announced since the launch; the number of children left unattended is that computed from the input |
| Injection.ComesToOne | src/runner.cpp:376-409 | an input comes to one end only, so a run depends on nothing but the options and the answers of the kernel |
| StaleExit.StaleExitLeavesChild | src/runner.cpp:185-187 | an input, with the exit of a child that could not be traced, that comes to a masked fault and leaves one started child unattended |
| StaleExit.StaleExitRun | src/runner.cpp:376-409 | every run on it is classified as masked, and its log shows one child left unattended |
| Injection.Runner.Destroy | src/runner.cpp:61-67 | after the destructor every terminal has been closed as often as opened |
| Statistics.Statistics.constructor | src/statistics.cpp:28-35 | all counters and totals are zero and agree |
| Statistics.Statistics.Forked | src/threads.cpp:111-128 | a forked job counts in a copy of its own |
| Statistics.Statistics.Zero | src/statistics.cpp:37-42 | clears the seven counters and nothing else; the totals agree afterwards exactly if they are zero |
| Statistics.Statistics.Incr | src/statistics.cpp:44-71 | adds one to the counter and to the totals it belongs to, keeping them in agreement; rejects other kinds |
| Statistics.PrintedRowsComplete | src/statistics.cpp:138-147 | the rows other than Skipped add up to the checked runs exactly when the Detected row is shown or nothing was detected |
| Statistics.Statistics.Dump | src/statistics.cpp:124-157 | no rows without a checked run; else the counters of the selected rows in order; if the totals agree with the counters, the rows add up to the checked runs exactly when the Detected row is shown or zero |
| Statistics.KindOf | src/threads.cpp:28-54 | each status has the counter of its own name |
| Scheduler.LaunchKeepsInv | src/threads.cpp:106-131 | launching keeps jobs, children, pipe ends and ids in balance |
| Scheduler.CollectKeepsInv | src/threads.cpp:69-84 | collecting any finished job keeps the balance |
| Scheduler.IdleMeansAllDone | src/threads.cpp:135-140 | with nothing active all children are reaped, every id collected and both ends of every pipe closed once |
| Scheduler.TallyPermutation | src/threads.cpp:62-67 | the counts do not depend on the order in which jobs finish |
| Scheduler.JobScheduler.FindJob | src/threads.cpp:74-76 | the active job with the given process id |
| Scheduler.JobScheduler.OrigJobFinishedParentCode | src/threads.cpp:56-60 | after the credit the kept state is the one job 0 wrote, if it has been collected |
| Scheduler.JobScheduler.TestJobFinishedParentCode | src/threads.cpp:62-67 | the counter with the name of the status its own job wrote grows by one, the counters are again the tally of what the collected jobs wrote, and the totals still agree |
| Scheduler.JobScheduler.JobFinishedParentCode | src/threads.cpp:56-67 | the value read from the pipe is credited to the job that wrote it |
| Scheduler.JobScheduler.WaitForJob | src/threads.cpp:69-84 | whichever job finishes, it is collected, its pipe closed and it is no longer active |
| Scheduler.JobScheduler.Launch | src/threads.cpp:106-131 | the next id is launched on a fresh pipe with a fresh process id |
| Scheduler.JobScheduler.Run | src/threads.cpp:86-143 | every id is launched and collected once, at most `jobs` at a time, every pipe end is closed once, the original state is job 0's, and the counters are the tally of all results |
| TestRuns.ChildJobCode | src/threads.cpp:157-163 | a job ends as its input comes to; what it writes is never a failed injection, a detection only if enabled, and skipped exactly if output is not redirected |
| TestRuns.RunJobs | src/threads.cpp:86-128 | every job writes the status its input comes to; all write one if and only if all inputs come to a classification |
| TestRuns.NeverTallied | src/threads.cpp:62-67 | statuses that runs can have tally no failed injection, no detection that is not enabled, and all or no skipped checks |
| TestRuns.TallyIsHowMany | src/threads.cpp:26-55 | the tally of a counter is the number of statuses of its name |
| TestRuns.CountAllTests | src/zofi.cpp:94-104 | all runs are counted if and only if every job's input comes to a classification; then each counter is the number of inputs that come to the status of its name, and failed injections and disabled detections are 0 |
| TestRuns.RunAllTests | src/zofi.cpp:94-119 | for all inputs of all jobs: the printed rows give for each status, by its name, how many inputs come to it, and add up to the number of runs; failed injections stay 0 although the jobs count theirs; all runs or none are checked |

## Left out

- Operating system calls: execve, signals, alarms, sleeping and the kernel's own behaviour; their results are inputs.
- Calls whose failure is fatal (`ptraceSafe`, `waitpidSafe`, `killSafe`, `closeSafe`): taken to succeed. In particular resuming the main thread when it is not stopped would be fatal in the program.
- `cleanupWaitpidState`: one Reap entry in the log; its loop depends on the kernel alone.
- The race between the sleeping thread and the event loop: the pick is an atomic step between two events.
- Events that are still queued when a child is replaced stay in the stream and are delivered to the next attempt, as waitpid for any process does.
- Timing: timeouts, the random injection time, the quality of random numbers.
- Disassembly, and the full register table: any table whose registers lie within one buffer.
- Injection.Runner.DoBitFlip: the register and bit selected are an input that meets what `InstructionRegisters.GetSelectedRegAndBit` ensures, and whether the address lies in a library is the answer of `AddressSpaces.AddressSpace.IsInLibrary`.
- Injection.Runner.StopChildAfter: the stop that is returned may be of another process than the one signalled; reading the registers of a thread that has not stopped would be fatal in the program.
- Opening and parsing the maps file; rebalancing of the ordered set, which keeps the order that the proofs use.
- Injection.Runner.WaitChildAndGetStatus: whether output is the same is an input; `FileDiff.DefaultDiff` and `DiffCommand.ExpandDiffCommand` model the two ways to compare.
- OrigRunner::runAndWait, which is a launch and a wait without injection.
- TestRuns.RunJobs: when a job writes nothing the program reads what its variable happens to hold, fails an assertion or waits for ever; the model stops there.
- Scheduler.JobScheduler.Run: progress bar and seeds of the jobs.
- Statistics.Statistics.Incr: counters are unbounded; a run counts at most 2^32 - 1 jobs, so the 64-bit counters cannot wrap.
- Percentages, CSV and Moufoplot files, option values, help and version texts.
- The addresses past the XSAVE structure that registers 16 to 31 are read from and written to are taken to be those of the array that follows it in memory.
