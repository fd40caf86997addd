# libbpf-tools: proofs about the state kept by the tools

A model of the parts of BCC's libbpf-tools that keep and transform state, with proofs about
every run, every interleaving or every input. Kernel-side handlers are modelled twice: as a
class whose methods update maps and arrays in place, the way the source does, and as functions
on values to which each method is tied; the theorems are about those functions. BPF maps have
their capacities and refuse new keys when full; words wrap at the source's widths. Clock values,
stack ids, command names, results of reading user or kernel memory and of allocating memory are
inputs.

| files | system |
|---|---|
| `Klockstat.dfy`, `KlockstatForms.dfy`, `KlockstatCalls.dfy` | the lock life cycle of klockstat, its statistics, the fentry and kprobe forms of its probes, and both in terms of the calls traced |
| `KsnoopStack.dfy`, `KsnoopTrace.dfy`, `KsnoopStackMode.dfy`, `KsnoopPacking.dfy`, `KsnoopPredicate.dfy`, `KsnoopEvent.dfy`, `KsnoopMember.dfy` | ksnoop: the shadow call stack, one probe hit, stack mode, the event buffer, predicates compiled and evaluated across a call, what an event carries, and the member search |
| `Memleak.dfy`, `MemleakLive.dfy`, `MemleakReport.dfy` | memleak: the table of allocations against the packed index and against the history of events, and the user-side regrouping |
| `Futexctn.dfy`, `FutexctnCounts.dfy`, `FutexctnExtremes.dfy` | lookup-or-init, the counters, and the minimum and maximum of futexctn under every interleaving of atomic steps |
| `Histogram.dfy` | the branch-free logarithm and the printed histogram rows |
| `Ksyms.dfy`, `Syms.dfy`, `SymsLoad.dfy` | the kernel symbol table; user-space symbols through mapped ELF files, from the lines of /proc/PID/maps to answers |
| `Execsnoop.dfy`, `Tar.dfy` | argument packing and printing; finding a file in a tar archive |
| `BpfMap.dfy`, `Sums.dfy`, `Qsort.dfy` | maps with a capacity, sums over maps, sorting |

Runs are sequences of events folded from an initial state. For futexctn each map operation and
each atomic operation is a step of its own, and a run is any interleaving; elsewhere a handler is
one step.

## Where the code does not do what one would expect

The model follows the code. Each point is a proved statement, with the exact condition where
there is one.

- The klockstat kprobe form misses exactly the returns of calls inside which the thread completes
  another traced call (`KlockstatForms.MissesExactlyInterrupted`), and so loses acquisitions
  (`KlockstatForms.NestedCallLosesAcquire`).
- ksnoop's shadow stack mirrors a tree of calls if and only if the tree is at most 15 deep, though
  it has 16 slots (`KsnoopStack.MirrorsExactlyUpTo15`).
- ksnoop's predicate text `!==` compiles to equality, and a lone `=` or `!` to no test at all
  (`KsnoopPredicate.OperatorsAccepted`).
- If a value of a ksnoop trace is collected a second time and its copy fails, the old length stays
  beside a new offset; exactly then a segment is misplaced (`KsnoopPacking.RunPlacedIff`). This takes
  a stashing trace in stack mode, where it happens (`KsnoopPacking.SecondReturnMisplaces`).
- A ksnoop event drops a value if and only if 10240 bytes or more were collected before it, although
  2048 bytes are still free then (`KsnoopEvent.CarriedIff`).
- ksnoop cuts each member offset to 16 bits, so the offset found is the true one if and only if
  every offset on the way is below 64 KiB (`KsnoopMember.OffsetIsTrueIff`).
- memleak's index drifts if an address that is still listed is allocated again or the table is full
  (`Memleak.RecordKeepsIff`, `Memleak.ReusedAddressMisleads`).
- memleak's age filter lets every entry pass while the machine has been up for less than the age asked
  for, because the subtraction wraps (`MemleakReport.PassesIffOld`).
- futexctn tries its compare-and-swap once, so its maximum need not be the largest delta
  (`FutexctnExtremes.OverlapLosesLarger`). Of the exits that finished, a delta above the maximum is one whose swap found it changed
  (`FutexctnExtremes.ExtremesUnlessLost`), which takes two exits of a cell that overlap there
  (`FutexctnExtremes.AloneLosesNone`).
- The first address of a mapped range never resolves to a symbol, because the range test is strict on
  both sides (`Syms.TranslationInvertsLoading`).
- Symbols of a segment that does not lie as far from its place in the file as .text are not found, or
  others are found for them: the translation looks at the header of .text only
  (`Syms.TranslationInvertsLoading`, `Syms.SecondSegmentMisleads`).
- A comment in execsnoop says that a further argument pointer that is not null means there are more
  arguments. The code only asks whether the pointer can be read, so the ellipsis also appears when
  there are exactly as many arguments as the limit (`Execsnoop.EllipsisIff`).

The loading rule used in `Syms.dfy` is that of chapter 5, "Program Loading", of the System V gABI;
the archive format in `Tar.dfy` is "ustar Interchange Format" under the pax utility of IEEE Std 1003.1.

## Model

| member | source | states |
|---|---|---|
| `Klockstat.StatisticsAreExact` | bcc_src/libbpf-tools/klockstat.bpf.c:84-235 | Over every run in which each task's events on a lock follow try, acquire or abort, release (possibly joined mid-cycle) and the holder map has room: each row's two counts are the number of completed cycles charged to its key, its totals the summed waits and holds modulo 2^64, its maxima the largest of each, first attained by the task and lock (and command) it names; while the statistics map has room, exactly the keys with a completed cycle have a row |
| `Klockstat.RunExact` | bcc_src/libbpf-tools/klockstat.bpf.c:84-235 | After every prefix of such a run, the holder map holds exactly the cycles the history leaves open, and every row is exact for the cycles completed so far |
| `Klockstat.HoldersStep` | bcc_src/libbpf-tools/klockstat.bpf.c:84-154 | Any event keeps the holder map equal to the open cycles read off the history, for the lock it concerns and all others |
| `Klockstat.ReleaseSeesCycle` | bcc_src/libbpf-tools/klockstat.bpf.c:214-235 | A release finds a holder if and only if the history completes a cycle there, and then with that cycle's stack and times |
| `Klockstat.RowCharged` | bcc_src/libbpf-tools/klockstat.bpf.c:156-212 | Charging a completed cycle to an exact row, or to one just created, gives an exact row for one cycle more |
| `Klockstat.ChargeExact` | bcc_src/libbpf-tools/klockstat.bpf.c:187-211 | One side of a row stays exact when a sample is added: count, sum, an attained and named maximum; a per-thread row keeps its command name |
| `Klockstat.StatsCharged` | bcc_src/libbpf-tools/klockstat.bpf.c:156-212 | Accounting a cycle updates exactly the row of its key; a key refused by a full map leaves all rows exact |
| `KlockstatForms.KprobeIsFentryAsSeen` | bcc_src/libbpf-tools/klockstat.bpf.c:415-740 | For every interleaving of threads and however calls nest, with room in the side map: the kprobe handlers leave exactly what the fentry handlers leave on the events as the kprobes get to know them (a return with nothing in flight unnoticed, any other taken for the lock remembered), and the side map holds the arguments of the calls last entered |
| `KlockstatForms.MissesExactlyInterrupted` | bcc_src/libbpf-tools/klockstat.bpf.c:415-740 | In every properly nested run the returns missed are exactly those of calls inside which another traced call completed; every other return is taken for what it is |
| `KlockstatForms.KprobeOnNestedRuns` | bcc_src/libbpf-tools/klockstat.bpf.c:415-740 | So on nested runs the kprobe form leaves what the fentry form leaves without those returns |
| `KlockstatForms.KprobeRefinesFentry` | bcc_src/libbpf-tools/klockstat.bpf.c:237-740 | For every interleaving where no thread enters a second traced function before its first returns, both forms leave the same holder and statistics maps, and the side map holds exactly the arguments of the calls in flight |
| `KlockstatForms.KprobeStatisticsAreExact` | bcc_src/libbpf-tools/klockstat.bpf.c:415-740 | So the rows of the kprobe form are exact for the cycles in the history of calls as well, and while the statistics map has room exactly the keys with a completed cycle have one |
| `KlockstatForms.FentryIsRun` | bcc_src/libbpf-tools/klockstat.bpf.c:237-413 | The wrappers as a whole amount to one run of lock events, so the theorems on lock events apply to them |
| `KlockstatForms.NestedCallLosesAcquire` | bcc_src/libbpf-tools/klockstat.bpf.c:415-740 | A missed return shows: from any state, a blocking call completed inside another by the same thread makes the kprobe form leave the outer acquisition unrecorded, which the fentry form records |
| `KlockstatCalls.StatisticsOfCalls` | bcc_src/libbpf-tools/klockstat.bpf.c:84-740 | Over every history in which tasks call the lock functions in order, with the clock not running backwards and room in the holder map: the rows of the fentry form are exact for the cycles of calls, said by function and result alone, and exactly the keys with such cycles have one; without calls within calls the same holds of the kprobe form |
| `KlockstatCalls.CallsAreCharged` | bcc_src/libbpf-tools/klockstat.bpf.c:237-413 | Calls in order give lock events that follow the protocol, and the cycles charged to a row are exactly the cycles of calls that go to it: an acquiring call that succeeded (0 for interruptible and killable ones, non-zero for mutex_trylock, 1 for the semaphore trylocks) up to the entry of the matching unlock |
| `KlockstatCalls.ActionsOfEvent` | bcc_src/libbpf-tools/klockstat.bpf.c:237-413 | Which lock events each entry and return amounts to, by function and result; attempts that do not wait and fail have none |
| `KlockstatCalls.FiltersAgree` | bcc_src/libbpf-tools/klockstat.bpf.c:72-97 | A task is traced exactly if its process, thread and lock are those asked for, and its cycles go to the row of its thread or of the stack waited in |
| `KlockstatForms.Program.LockContended` | bcc_src/libbpf-tools/klockstat.bpf.c:84-118 | Changes the holder map as the try event of the run theorem, and nothing else |
| `KlockstatForms.Program.LockAborted` | bcc_src/libbpf-tools/klockstat.bpf.c:120-133 | Changes the holder map as the abort event, and nothing else |
| `KlockstatForms.Program.LockAcquired` | bcc_src/libbpf-tools/klockstat.bpf.c:135-154 | Changes the holder map as the acquire event, and nothing else |
| `KlockstatForms.Program.Account` | bcc_src/libbpf-tools/klockstat.bpf.c:156-212 | The in-place creation and update of a row has the effect whose exactness RowCharged states |
| `KlockstatForms.Program.LockReleased` | bcc_src/libbpf-tools/klockstat.bpf.c:214-235 | Charges the cycle and forgets the holder, as the release event |
| `KlockstatForms.Program.OnEnter` | bcc_src/libbpf-tools/klockstat.bpf.c:237-413 | An entry probe has the effect of its lock events |
| `KlockstatForms.Program.OnExit` | bcc_src/libbpf-tools/klockstat.bpf.c:244-413 | An exit probe that knows its lock has the effect of its lock events, by kind of function and result |
| `KlockstatForms.Program.OnKprobe` | bcc_src/libbpf-tools/klockstat.bpf.c:415-740 | A kprobe or kretprobe is a step of the kprobe form, on all three maps |
| `KsnoopStack.Exec` | bcc_src/libbpf-tools/ksnoop.bpf.c:87-143 | Whatever sequence of entries and returns a task makes, the depth stays in 0..15 and the stack keeps 16 slots |
| `KsnoopStack.MirrorsCallTree` | bcc_src/libbpf-tools/ksnoop.bpf.c:87-143 | From any stack with room for a tree of calls, each entry is shown its immediate probed caller, each return the matching function and its last direct probed callee; afterwards everything at and below the caller is as before and the slot above names the last callee |
| `KsnoopStack.MirrorsExactlyUpTo15` | bcc_src/libbpf-tools/ksnoop.bpf.c:87-143 | A task's probes see exactly the links of a tree of calls if and only if the tree is at most 15 calls deep |
| `KsnoopStack.TooDeepIsMissed` | bcc_src/libbpf-tools/ksnoop.bpf.c:87-98 | In any deeper tree some probe is not shown anything |
| `KsnoopStack.PushThenPop` | bcc_src/libbpf-tools/ksnoop.bpf.c:87-143 | A return pops what the matching entry pushed, leaving the caller's part of the stack untouched |
| `KsnoopStack.LinksAreTested` | bcc_src/libbpf-tools/ksnoop.bpf.c:166-198 | In stack mode an entry passes exactly when its direct caller in the tree is the one asked for, a return exactly when its last direct callee is |
| `KsnoopStack.TasksAreIndependent` | bcc_src/libbpf-tools/ksnoop.bpf.c:67-143 | However the probes of many tasks interleave, a task with a stack sees what it would see alone; a task without one met a full map |
| `KsnoopStack.FuncStack.Enter` | bcc_src/libbpf-tools/ksnoop.bpf.c:87-120 | The in-place push on the 16-slot array, with 8-bit arithmetic, is the abstract push |
| `KsnoopStack.FuncStack.Return` | bcc_src/libbpf-tools/ksnoop.bpf.c:121-143 | The in-place pop is the abstract pop |
| `KsnoopStackMode.ReadyTestsLink` | bcc_src/libbpf-tools/ksnoop.bpf.c:154-198 | The end of get_trace goes on exactly when the stash state allows it and the direct link asked for is the one seen |
| `KsnoopStackMode.StackModeFollowsTree` | bcc_src/libbpf-tools/ksnoop.bpf.c:67-201 | At any probe of any tree of calls at most 15 deep, get_trace hands out the trace exactly when the tree has the direct link the trace asks for |
| `KsnoopTrace.Cell.ClearTrace` | bcc_src/libbpf-tools/ksnoop.bpf.c:60-65 | Forgets all recorded data and flags, leaves the buffer's bytes |
| `KsnoopTrace.Cell.GetTrace` | bcc_src/libbpf-tools/ksnoop.bpf.c:145-201 | Clears, keeps or refuses the trace as the abstract preparation, in place |
| `KsnoopTrace.Cell.OutputTrace` | bcc_src/libbpf-tools/ksnoop.bpf.c:203-229 | Sends, stashes or drops the trace as the abstract output, in place |
| `KsnoopTrace.Cell.ReadRaw` | bcc_src/libbpf-tools/ksnoop.bpf.c:353-378 | The word to compare comes from the register, the pointer or the member behind it; a failed read of the pointer is recorded as an error and nothing else changes |
| `KsnoopTrace.Cell.Passes` | bcc_src/libbpf-tools/ksnoop.bpf.c:383-406 | Lets a value through exactly when it has no predicate bits or one of the set bits' comparisons holds |
| `KsnoopTrace.Cell.Copy` | bcc_src/libbpf-tools/ksnoop.bpf.c:416-435 | Records where the copied bytes are and advances the used length, or records the error; bytes outside the copy are untouched |
| `KsnoopTrace.Cell.CollectValue` | bcc_src/libbpf-tools/ksnoop.bpf.c:334-436 | One turn of the loop: skip, reject, stop because the buffer is full, or go on, with the used length below the buffer size |
| `KsnoopTrace.Cell.CollectAll` | bcc_src/libbpf-tools/ksnoop.bpf.c:333-436 | The whole loop over the six values, in place, is the abstract loop, and never lets the used length reach the buffer size |
| `KsnoopTrace.Cell.Ksnoop` | bcc_src/libbpf-tools/ksnoop.bpf.c:304-446 | One probe hit from trace to event, in place, is the abstract handler |
| `KsnoopPacking.CollectPacks` | bcc_src/libbpf-tools/ksnoop.bpf.c:334-436 | One turn of the loop keeps all recorded segments pairwise disjoint, inside the used part, and holding the bytes copied for them, unless a second copy of a value fails in it |
| `KsnoopPacking.LoopPacksIff` | bcc_src/libbpf-tools/ksnoop.bpf.c:333-436 | From a packed buffer, a loop that passes leaves the segments well placed if and only if no value recorded before was copied again and failed |
| `KsnoopPacking.LoopPacks` | bcc_src/libbpf-tools/ksnoop.bpf.c:333-436 | Such a loop keeps the buffer packed with exactly what was copied |
| `KsnoopPacking.OutputPacks` | bcc_src/libbpf-tools/ksnoop.bpf.c:203-229 | An output keeps the buffer packed; a non-empty trace not to be stashed is always sent, trimmed to a length that covers the used part and is never refused |
| `KsnoopPacking.HandlePacks` | bcc_src/libbpf-tools/ksnoop.bpf.c:304-446 | One probe hit without a failed second copy keeps the buffer packed with what was copied since the last clear, and the event it sends carries all of it |
| `KsnoopPacking.RunPacks` | bcc_src/libbpf-tools/ksnoop.bpf.c:304-446 | In every run of hits and flushes from a cleared trace in which no second copy fails, stash and stack mode included, the segments are pairwise disjoint, in the used part, and hold exactly what the run copied since the last clear |
| `KsnoopPacking.RunPlacedIff` | bcc_src/libbpf-tools/ksnoop.bpf.c:304-446 | In every run at all, whatever a hit hands on to be stashed or sent is well placed if and only if no second copy of a value fails |
| `KsnoopPacking.RunSendsAll` | bcc_src/libbpf-tools/ksnoop.bpf.c:220-226 | Whatever such a run sends next, from a hit or a flush, carries all that was copied since the last clear, and its length is never refused |
| `KsnoopPacking.CollectedOnceIsClean` | bcc_src/libbpf-tools/ksnoop.bpf.c:333-436 | A run that collects each value at most once is such a run |
| `KsnoopPacking.SimpleCollectsOnce` | bcc_src/libbpf-tools/ksnoop.bpf.c:154-229 | Unless stash and stack mode are combined every run collects each value at most once |
| `KsnoopPacking.SecondReturnMisplaces` | bcc_src/libbpf-tools/ksnoop.bpf.c:413-435 | With both combined it need not: after an entry, a return and a second return whose copy fails, the stash has a segment outside the used part |
| `KsnoopPacking.StashedEventIsIntact` | bcc_src/libbpf-tools/ksnoop.bpf.c:304-446 | The event of a stashed call, whatever was traced before, holds for each value nothing or exactly the bytes read for it, on entry for an argument and on return for a result |
| `KsnoopPacking.SentIsMarked` | bcc_src/libbpf-tools/ksnoop.bpf.c:326-330 | An event sent says which side of the call it is from, and is no longer marked as held back |
| `KsnoopEvent.CarriedIff` | bcc_src/libbpf-tools/ksnoop.bpf.c:304-446 | When reads succeed it carries a used value if and only if fewer than 10240 bytes were collected before it, and otherwise nothing for it |
| `KsnoopEvent.SingleCarriedIff` | bcc_src/libbpf-tools/ksnoop.bpf.c:304-446 | The event of an entry, or of a return without stash, carries a used value of its side, with as many of its bytes as fit 2048, if and only if fewer than 10240 bytes were collected before it |
| `KsnoopEvent.FailuresAreMarked` | bcc_src/libbpf-tools/ksnoop.bpf.c:364-369 | From a cleared trace a value is marked as failed only if it is used and a read of it failed, and then has no bytes; and always if so and the buffer was not full |
| `KsnoopEvent.SingleWords` | bcc_src/libbpf-tools/ksnoop.bpf.c:353-378 | A value it carries comes with the word that was compared |
| `KsnoopPacking.BufferNeverOverflows` | bcc_src/libbpf-tools/ksnoop.bpf.c:413-435 | In every run of every trace, stack mode included, the used length is below 12288 |
| `KsnoopPredicate.OperatorsMeanComparisons` | bcc_src/libbpf-tools/ksnoop.c:255-304 | Each of the six operators compiles to flag bits whose evaluation is the unsigned 64-bit comparison it stands for |
| `KsnoopPredicate.OperatorsAccepted` | bcc_src/libbpf-tools/ksnoop.c:255-304 | Exactly which operator texts are accepted and which comparison, or none, the bits then make, for every text the scanner lets through |
| `KsnoopPredicate.PredicateToValue` | bcc_src/libbpf-tools/ksnoop.c:255-304 | Sets operand and bits as the encoding whose meaning the two lemmas state, or refuses; no predicate changes nothing |
| `KsnoopPredicate.ParseTrace` | bcc_src/libbpf-tools/ksnoop.c:573-625 | Accepts exactly the argument lists whose predicates, of any operator text, compile; stashes exactly when there is a predicate, an entry value and a return value |
| `KsnoopPredicate.LoopSeesAll` | bcc_src/libbpf-tools/ksnoop.bpf.c:333-436 | With reads succeeding the loop passes if and only if every predicate of its phase holds: a full buffer never hides a later one |
| `KsnoopPredicate.CompiledMeans` | bcc_src/libbpf-tools/ksnoop.bpf.c:383-406 | The bits evaluated by the probes say what the predicates as written say, over all values of a phase |
| `KsnoopPredicate.StashEntry` | bcc_src/libbpf-tools/ksnoop.bpf.c:154-229 | An entry leaves a stash if and only if the process is wanted, its predicates hold and it has bytes to show; room for the return values is left |
| `KsnoopPredicate.ReturnSends` | bcc_src/libbpf-tools/ksnoop.bpf.c:154-229 | A return sends an event if and only if the process is wanted, its predicates hold, and there is a stash or, without stash mode, something to show |
| `KsnoopPredicate.HitOutcome` | bcc_src/libbpf-tools/ksnoop.bpf.c:154-229 | What becomes of any entry, and of any return without stash, stack mode included: when it has something to show it is held back if more of the stack is to come or the trace stashes, sent otherwise; at the last function of a stack only if the walk over stashed traces gets there, and left as it is if not; with nothing to show it leaves nothing |
| `KsnoopPredicate.ContinuedOutcome` | bcc_src/libbpf-tools/ksnoop.bpf.c:154-229 | What becomes of a return of a stashing trace, stack mode included: nothing without a stash; with one it is sent, or held back again if there is a previous function in the stack |
| `KsnoopPredicate.EntryEventIffAllHold` | bcc_src/libbpf-tools/ksnoop.bpf.c:304-446 | Outside stack mode an entry event is sent if and only if the trace does not stash, every predicate on the arguments holds, the process is wanted and there are bytes to show |
| `KsnoopPredicate.WordIsInMemory` | bcc_src/libbpf-tools/ksnoop.bpf.c:353-378 | The word compared is the argument, or the little-endian pointer or number that the member holds in memory |
| `KsnoopPredicate.ReturnEventIffAllHold` | bcc_src/libbpf-tools/ksnoop.bpf.c:304-446 | Across a call, from any earlier state: a return event is sent if and only if every entry predicate and every return predicate of that call held, the process is wanted and there are bytes to show |
| `KsnoopMember.TypeToValue` | bcc_src/libbpf-tools/ksnoop.c:97-133 | Ends at the type behind all qualifiers and pointers, noting whether there was a pointer; ends on every acyclic table |
| `KsnoopMember.ChainIsStripped` | bcc_src/libbpf-tools/ksnoop.c:97-133 | At the end of any chain of qualifiers and pointers the value has the type and size found there, and is a pointer exactly if one is on the chain |
| `KsnoopMember.MemberToValue` | bcc_src/libbpf-tools/ksnoop.c:135-210 | Ends on every acyclic type table; succeeds if and only if the flattened type has a member of that name, and then stands at the first one in depth-first declaration order with the offsets along its path added; on failure the value is unchanged |
| `KsnoopMember.SearchInside` | bcc_src/libbpf-tools/ksnoop.c:178-189 | Looking inside an anonymous member adds its offset to the path of the first match there, or takes the offset back |
| `KsnoopMember.MatchFrom` | bcc_src/libbpf-tools/ksnoop.c:158-203 | The first match in the flattened type is inside the next member if that is anonymous, at it, or later |
| `KsnoopMember.OffsetIsTrueIff` | bcc_src/libbpf-tools/ksnoop.c:162-199 | The computed offset is the true one if and only if every offset on the path is below 64 KiB; the value is marked as a member and has the type behind the one declared |
| `Memleak.IndexAgreesAlways` | bcc_src/libbpf-tools/memleak.bpf.c:54-457 | Over every run that lists no address twice and does not fill the table (with the missed-free workaround kernel allocations may reuse addresses): every stack in the index holds the packed sum over exactly its live allocations, and while the index has room every stack with a live allocation is in it |
| `Memleak.StepKeeps` | bcc_src/libbpf-tools/memleak.bpf.c:89-457 | Each probe keeps that agreement |
| `Memleak.KernelKeeps` | bcc_src/libbpf-tools/memleak.bpf.c:305-350 | With the workaround a kernel allocation keeps the agreement whatever address it returns |
| `Memleak.FreeKeeps` | bcc_src/libbpf-tools/memleak.bpf.c:145-162 | A free, of a listed address or not, keeps the agreement |
| `Memleak.RecordKeepsIff` | bcc_src/libbpf-tools/memleak.bpf.c:108-138 | From an index that agrees, recording an allocation leaves it in agreement if and only if: its address is listed for a stack that is not indexed; or it is new and the table has room; or the table is full and its stack neither is indexed nor can be |
| `Memleak.ReusedAddressMisleads` | bcc_src/libbpf-tools/memleak.bpf.c:431-451 | From the empty maps, two allocations that return one address with no free between them leave the index wrong, whatever their sizes and stacks |
| `Memleak.TableFits` | bcc_src/libbpf-tools/memleak.bpf.c:108-138 | In no run does the table outgrow its map |
| `MemleakLive.TableIsLive` | bcc_src/libbpf-tools/memleak.bpf.c:89-457 | Over every run in which no map is full the table is exactly the live allocations read off the events: each address allocated and not given back since by a free, a realloc or the workaround for missed frees, with size, time and stack of its last allocation; sizes are those of the request, if it passed the size filter and sampling |
| `MemleakLive.RunTells` | bcc_src/libbpf-tools/memleak.bpf.c:89-457 | The remembered sizes and pointers are, thread by thread, the requests of the history that have not come to an end |
| `MemleakLive.FreedIsGone` | bcc_src/libbpf-tools/memleak.bpf.c:145-162 | An address is not listed after a free of it, whatever came before |
| `Memleak.FieldsDecode` | bcc_src/libbpf-tools/memleak.h:14-20 | Wherever the index agrees, the two fields of a word are the exact bytes and count of its stack whenever these fit 40 and 24 bits |
| `Memleak.OpsWrap` | bcc_src/libbpf-tools/memleak.bpf.c:54-87 | After any sequence of adds and subtracts a word is net bytes plus 2^40 times net count, modulo 2^64 |
| `Memleak.OpsDecode` | bcc_src/libbpf-tools/memleak.bpf.c:54-87 | So both fields decode exactly whenever what is outstanding fits, even if an earlier state overflowed |
| `Memleak.ZeroNeverListed` | bcc_src/libbpf-tools/memleak.bpf.c:108-138 | Address 0 is in the table after no run |
| `Memleak.Program.UpdateStatisticsAdd` | bcc_src/libbpf-tools/memleak.bpf.c:54-68 | Adds one packed allocation to its stack's word, creating it while there is room |
| `Memleak.Program.UpdateStatisticsDel` | bcc_src/libbpf-tools/memleak.bpf.c:70-87 | Takes one packed allocation off its stack's word, if indexed |
| `Memleak.Program.GenAllocEnter` | bcc_src/libbpf-tools/memleak.bpf.c:89-106 | Remembers a requested size that passes the size and sampling filters, and nothing else |
| `Memleak.Program.GenAllocExit` | bcc_src/libbpf-tools/memleak.bpf.c:108-143 | Lists a successful allocation and indexes it, consuming the remembered size |
| `Memleak.Program.GenFreeEnter` | bcc_src/libbpf-tools/memleak.bpf.c:145-162 | Forgets a listed address and takes it off the index |
| `Memleak.Program.OnEvent` | bcc_src/libbpf-tools/memleak.bpf.c:164-457 | Every probe is one step of the run theorem, on all four maps |
| `MemleakReport.NextKeyAt` | bcc_src/libbpf-tools/memleak.c:836-848 | From key 0, which is never listed, following next keys visits every key of a quiet map once |
| `MemleakReport.PassesIffOld` | bcc_src/libbpf-tools/memleak.c:859-867 | An entry with a usable stack passes if and only if its age is at least the one asked for, or the machine has not been up that long, when the subtraction wraps |
| `MemleakReport.AddEntry` | bcc_src/libbpf-tools/memleak.c:870-924 | Charging an entry keeps one right row per stack: size, count and, if asked for, the list of allocations |
| `MemleakReport.PrintOutstandingAllocs` | bcc_src/libbpf-tools/memleak.c:828-935 | Rows with distinct stacks, each the sum and count of exactly the entries of that stack passing the age and stack filters, none missing, no more than entries in the map, in descending order of size; the rows shown are the first ones |
| `MemleakReport.RowsFit` | bcc_src/libbpf-tools/memleak.c:836-924 | In every run the rows fit the array that holds them |
| `MemleakReport.ShownAreLargest` | bcc_src/libbpf-tools/memleak.c:813-826 | No row left out is larger than a row shown |
| `MemleakReport.GroupsPermuted` | bcc_src/libbpf-tools/memleak.c:926-927 | Sorting rows loses and doubles none |
| `MemleakReport.RowsMatchIndex` | bcc_src/libbpf-tools/memleak.c:836-924 | When no entry is too young, a row's size and count are what the kernel's word for its stack decodes to |
| `Histogram.Log2Steps` | bcc_src/libbpf-tools/bits.bpf.h:8-19 | The branch-free assignments, with their bitwise or, compute the logarithm that Log2IsTop characterises |
| `Histogram.OrIsSum` | bcc_src/libbpf-tools/bits.bpf.h:12-16 | Bitwise or is addition when one operand stays below the lowest bit the other may have |
| `Histogram.Log2IsTop` | bcc_src/libbpf-tools/bits.bpf.h:8-19 | For every positive 32-bit word the result is the position of its highest bit |
| `Histogram.Log2lIsTop` | bcc_src/libbpf-tools/bits.bpf.h:21-29 | For every 64-bit word v > 0: 2^log2l(v) <= v < 2^(log2l(v)+1); log2l(0) = 0 |
| `Histogram.SlotIsRow` | bcc_src/libbpf-tools/trace_helpers.c:963-967 | A value lies in the printed range of a row if and only if that row is its slot |
| `Histogram.RowsPartition` | bcc_src/libbpf-tools/trace_helpers.c:963-967 | The rows 0..n-1 cover exactly the values below 2^n, each once |
| `Histogram.ClampedSlotIsRowIff` | bcc_src/libbpf-tools/futexctn.bpf.c:112-114 | The printed row of a clamped slot contains the value if and only if it was not clamped; a value too large for all slots goes to the last |
| `Futexctn.CallerGetsCell` | bcc_src/libbpf-tools/maps.bpf.h:31-39 | In every reachable state, a caller without a cell is given up if and only if its insert meets a full map without its key; otherwise it goes from lookup to insert to the cell of its key |
| `Futexctn.OneCellPerKey` | bcc_src/libbpf-tools/maps.bpf.h:31-39 | Under every interleaving of lookups and inserts, whatever two CPUs hold at any two times is the same cell if and only if it is for the same key |
| `Futexctn.CellIsReplay` | bcc_src/libbpf-tools/maps.bpf.h:31-39 | A histogram is the initial one with the operations of all CPUs on it applied one after the other: it is initialised once and no update is lost |
| `Futexctn.RunExtends` | bcc_src/libbpf-tools/maps.bpf.h:31-39 | No step moves a key to another cell or drops one |
| `Futexctn.StepWellFormed` | bcc_src/libbpf-tools/maps.bpf.h:31-39 | Every step keeps one cell per key, every CPU's cell valid, and the key of every exit that tried to insert present |
| `FutexctnCounts.EveryCallIsCounted` | bcc_src/libbpf-tools/futexctn.bpf.c:103-117 | Under every interleaving each counter of a key is what all calls started for it bring, without those that have the addition still to make and those refused by a full map, modulo its width; a key without a histogram has only such calls |
| `FutexctnCounts.CallsAreConserved` | bcc_src/libbpf-tools/futexctn.bpf.c:103-117 | For slots, count and time alike: started = booked on the cell + still to be booked + refused |
| `FutexctnCounts.RefusedOnlyWhenFull` | bcc_src/libbpf-tools/maps.bpf.h:35-37 | Nothing is refused while the map has room |
| `FutexctnCounts.ReplayTallies` | bcc_src/libbpf-tools/futexctn.bpf.c:115-117 | Each counter is the operations made on it, slot by slot, modulo its width |
| `FutexctnCounts.SlotsExceedCountByInFlight` | bcc_src/libbpf-tools/futexctn.bpf.c:115-116 | While no counter wraps, the slots of a histogram exceed its count by exactly the exits between the two adds |
| `FutexctnCounts.NothingLostWhenIdle` | bcc_src/libbpf-tools/futexctn.bpf.c:115-117 | When all CPUs are idle and the map was never full, slots and count are the calls started for the key and the total is the sum of their deltas |
| `FutexctnExtremes.ExtremesUnlessLost` | bcc_src/libbpf-tools/futexctn.bpf.c:118-123 | Under every interleaving the maximum is the largest delta whose swap did not find it changed, 0 if none; with positive deltas the minimum is the smallest; every delta swapped was recorded in a slot |
| `FutexctnExtremes.ExtremesNeverGoBack` | bcc_src/libbpf-tools/futexctn.bpf.c:118-123 | The maximum never falls and is 0 or a recorded delta; with positive deltas a non-zero minimum never rises and is one too |
| `FutexctnExtremes.MaxSwapIff` | bcc_src/libbpf-tools/futexctn.bpf.c:121-123 | After the swap the maximum is at least the delta if and only if it was still the one read, or already that high |
| `FutexctnExtremes.MinSwapIff` | bcc_src/libbpf-tools/futexctn.bpf.c:118-120 | After the swap the minimum is at most the delta if and only if it was still the one read, or already that low |
| `FutexctnExtremes.AloneLosesNone` | bcc_src/libbpf-tools/futexctn.bpf.c:118-123 | If no two exits of a cell overlap between reading and swapping, no delta is lost |
| `FutexctnExtremes.MaxExactWhenAlone` | bcc_src/libbpf-tools/futexctn.bpf.c:121-123 | Then, once nobody holds the cell, the maximum is the largest of all recorded deltas |
| `FutexctnExtremes.MinExactWhenAlone` | bcc_src/libbpf-tools/futexctn.bpf.c:118-120 | And the minimum the smallest, if deltas are positive |
| `FutexctnExtremes.LargerDeltaCanLose` | bcc_src/libbpf-tools/futexctn.bpf.c:121-123 | Two exits that read the same maximum: the larger delta is lost if the smaller swaps first |
| `FutexctnExtremes.OverlapLosesLarger` | bcc_src/libbpf-tools/futexctn.bpf.c:103-123 | Such a state is reached: from the empty map, for any deltas 0 < a < b, a run that ends idle with a maximum of a |
| `Ksyms.Table.ReserveStrs` | bcc_src/libbpf-tools/trace_helpers.c:54-65 | Growing the string buffer changes no symbol; on success the string fits |
| `Ksyms.Table.ReserveSyms` | bcc_src/libbpf-tools/trace_helpers.c:66-75 | Growing the symbol array changes no symbol; on success one more fits |
| `Ksyms.Table.AddSymbol` | bcc_src/libbpf-tools/trace_helpers.c:48-87 | Appends the symbol under its own name, or nothing when memory runs out; sizes stay within capacities |
| `Ksyms.Table.Relocate` | bcc_src/libbpf-tools/trace_helpers.c:125-127 | Turning offsets into pointers changes no name and no address |
| `Ksyms.Table.Sort` | bcc_src/libbpf-tools/trace_helpers.c:89-96 | The table becomes a rearrangement of itself in order of address, then name |
| `Ksyms.Table.MapAddr` | bcc_src/libbpf-tools/trace_helpers.c:150-170 | The binary search finds the greatest symbol at or below the address, or none exactly when there is none |
| `Ksyms.Fill` | bcc_src/libbpf-tools/trace_helpers.c:98-123 | Reading the lines gives a table of exactly them in order, or none when memory runs out |
| `Ksyms.Load` | bcc_src/libbpf-tools/trace_helpers.c:98-138 | The loaded table is a sorted rearrangement of the lines read, every name as read |
| `Ksyms.LeIsTotal` | bcc_src/libbpf-tools/trace_helpers.c:89-96 | The comparison is a total order on symbols, so equal ranks mean equal symbols |
| `Ksyms.StrLeAt` | bcc_src/libbpf-tools/trace_helpers.c:89-96 | Names compare by the first character in which they differ, and a name comes before its extensions |
| `Ksyms.ScanIsGreatest` | bcc_src/libbpf-tools/trace_helpers.c:150-170 | The reference scan of an unsorted list finds the greatest entry at or below an address, or none exactly when there is none |
| `Ksyms.SearchIsScan` | bcc_src/libbpf-tools/trace_helpers.c:150-170 | The search of the sorted table answers what a scan of the original list would |
| `Syms.TranslationInvertsLoading` | bcc_src/libbpf-tools/trace_helpers.c:373-400 | With disjoint ranges and proper symbols, an address that the loading rule gives to byte k of symbol s is answered with a symbol of the extent of s and offset k if and only if it is not the first address of its range and the segment of the range lies as far from its place in the file as .text |
| `Syms.AnswersContainTheAddress` | bcc_src/libbpf-tools/trace_helpers.c:627-655 | Whatever is answered contains the translated address at the offset written, and that is the address with the bias taken off if and only if the segment lies like .text; nothing is assumed of the table |
| `Syms.SecondSegmentMisleads` | bcc_src/libbpf-tools/trace_helpers.c:386-392 | A file with a second executable segment that lies differently, where an address of one symbol is answered with another |
| `SymsLoad.MappingsToAnswers` | bcc_src/libbpf-tools/trace_helpers.c:323-400 | From mappings to answers: on the table built from pairwise disjoint code mappings of ELF files, after any queries, an address that the loading rule gives to byte k of symbol s of a mapped file is answered from that file with the extent of s and offset k if and only if it is not the first of its mapping and its segment lies like the .text header found in the file |
| `SymsLoad.LoadFile` | bcc_src/libbpf-tools/trace_helpers.c:657-698 | The table holds the files of exactly the executable file-backed lines; none is built if and only if a shared file among them has no .text |
| `SymsLoad.BuiltIsDescribed` | bcc_src/libbpf-tools/trace_helpers.c:356-370 | Each file of the table is of the kind its name and ELF type say, with .text at the address and offset of its header |
| `SymsLoad.MappingIsBuilt` | bcc_src/libbpf-tools/trace_helpers.c:329-355 | Every mapping is in the table under its name, and no earlier one is lost |
| `SymsLoad.BuiltIsMapped` | bcc_src/libbpf-tools/trace_helpers.c:329-355 | The table has no range that is not a mapping of that file |
| `SymsLoad.OthersAnswerNothing` | bcc_src/libbpf-tools/trace_helpers.c:614-625 | In a file of any other type no address is answered |
| `Syms.KeptIff` | bcc_src/libbpf-tools/trace_helpers.c:466-476 | Exactly the entries with a name and an address become symbols |
| `Syms.Describe` | bcc_src/libbpf-tools/trace_helpers.c:351-370 | Records the range, then the kind and the .text header; fails exactly for a shared file without one |
| `Syms.DsoFoundIff` | bcc_src/libbpf-tools/trace_helpers.c:373-400 | An address of a mapped range is found in that range and no other, unless it is the range's first |
| `Syms.TranslateUnloadsIff` | bcc_src/libbpf-tools/trace_helpers.c:386-392 | The translation takes exactly the load bias off, in wrapping arithmetic, if and only if the segment lies like .text |
| `Syms.SymbolAtFinds` | bcc_src/libbpf-tools/trace_helpers.c:627-655 | In an ordered table of proper symbols an address inside one finds one of the same extent |
| `Syms.SymbolAtContains` | bcc_src/libbpf-tools/trace_helpers.c:649-653 | What is found contains the address, also when start plus size wraps |
| `Syms.LoadTable` | bcc_src/libbpf-tools/trace_helpers.c:450-527 | The loaded table is in order and a rearrangement of exactly the entries with a name and an address |
| `Syms.MarkedKeeps` | bcc_src/libbpf-tools/trace_helpers.c:651-652 | Writing the offset of a query into the table keeps its order and its symbols |
| `Syms.Table.AddDso` | bcc_src/libbpf-tools/trace_helpers.c:323-371 | One file per name, gathering its ranges in order, with the kind and .text place of the last mapping; out of memory leaves nothing, or a file without the range; a failed .text lookup is reported with the range already recorded; loaded tables stay sound |
| `Syms.Table.FindDso` | bcc_src/libbpf-tools/trace_helpers.c:373-400 | The nested loops find the first file with a range strictly around the address, and its translation |
| `Syms.Search` | bcc_src/libbpf-tools/trace_helpers.c:634-654 | The binary search finds the last symbol starting at or before the address, if it reaches that far |
| `Syms.Table.FindSym` | bcc_src/libbpf-tools/trace_helpers.c:627-655 | Loads the table if there is none, answers from it, and changes nothing but that table; loaded tables stay sound |
| `Syms.Table.MapAddr` | bcc_src/libbpf-tools/trace_helpers.c:730-739 | A query answers from the file and table found and changes at most that file's table, so every later query has the same guarantees |
| `Execsnoop.PacksTheStrings` | bcc_src/libbpf-tools/execsnoop.bpf.c:75-111 | For every argv and every limit in 1..60: the buffer is the file name and the arguments, of each as much as 127 characters, with terminators; the count is right; the event is always sent |
| `Execsnoop.CollectPacks` | bcc_src/libbpf-tools/execsnoop.bpf.c:88-111 | The loop packs every readable string up to the limit; the cutoff for the last slot never ends it |
| `Execsnoop.PrintsWhatWasPacked` | bcc_src/libbpf-tools/execsnoop.c:194-227 | Unquoted printing gives the packed strings back in order, each followed by one space, with the ellipsis exactly when the slot at the limit could be read |
| `Execsnoop.PrintsTheArguments` | bcc_src/libbpf-tools/execsnoop.c:194-227 | With fewer arguments than the limit, all short, the output is the file name and the arguments as given, each followed by one space |
| `Execsnoop.EllipsisIff` | bcc_src/libbpf-tools/execsnoop.bpf.c:104-111 | For an argv of argc strings: all up to the limit are packed, and the ellipsis follows if and only if argc is at least the limit, so it says what its comment means exactly when argc differs from the limit |
| `Execsnoop.Event.EnterExecve` | bcc_src/libbpf-tools/execsnoop.bpf.c:71-111 | The handler, in place, leaves the packed value |
| `Execsnoop.Event.CollectArgs` | bcc_src/libbpf-tools/execsnoop.bpf.c:88-111 | The loop, in place, never writes outside the buffer and leaves the packed value |
| `Execsnoop.Event.PrintArgs` | bcc_src/libbpf-tools/execsnoop.c:194-227 | The character loop prints what PrintsWhatWasPacked speaks of |
| `Execsnoop.ReadUserStr` | bcc_src/libbpf-tools/execsnoop.bpf.c:75-83 | Copies the string, or its first 127 characters if it is longer, and a terminator behind what is there, and returns the length with the terminator |
| `Tar.TarFileStart` | bcc_src/libbpf-tools/btf_helpers.c:154-163 | On every archive of well-formed members the walk ends; it returns nothing if and only if no member has the name, and otherwise exactly the content and length of the first one that has |
| `Tar.AtHeader` | bcc_src/libbpf-tools/btf_helpers.c:156-160 | What the walker reads at a header is the member's size and whether it has the name, and the next header is where the next member starts |
| `Tar.NameRead` | bcc_src/libbpf-tools/btf_helpers.c:134-152 | For a wanted name of at most 99 characters the name field compares equal exactly if it is the member's name, even where the field has no room for a terminator |
| `Tar.WriteIsWellFormed` | bcc_src/libbpf-tools/btf_helpers.c:134-152 | What a writer with zero-padded octal sizes makes of any file whose name fits is a well-formed member |
| `Tar.OctalRoundTrip` | bcc_src/libbpf-tools/btf_helpers.c:157-157 | Writing a size in octal and reading it back gives the size |

## Left out

- Program loading, attaching, option parsing, signal handling and polling in every tool.
- Reading ELF, BTF, kallsyms and /proc files, and inflating archives: their results are inputs.
- `output_stashed_traces` in ksnoop: its walk over other traces appears only as an input saying whether
  it reaches the current trace, and as flushes of a trace by another function's probe.
- KsnoopPredicate.ReturnEventIffAllHold: takes traces with arguments given and probe reads that succeed, with no
  other call of the function on the CPU between entry and return; traces without arguments have no predicates.
- KsnoopPredicate.HitOutcome: takes it as an input whether the walk over stashed traces gets to the current one, and
  reads that succeed.
- KsnoopMember.TypeToValue: does not model the name copied into the value or the unknown type id for a negative id.
- KsnoopMember.MemberToValue: returns the changed value where the source writes through a pointer (so does
  `KsnoopPredicate.PredicateToValue`), and does not model the messages printed on failure.
- Concurrent execution of klockstat's accounting, which the source itself notes as racy.
- Memory reused after a map entry is deleted: a handler keeps reading the value it looked up.
- MemleakReport.PrintOutstandingAllocs: does not model a map that changes during the walk, the release of the
  printed lists, or failing to allocate a list node.
- `print_outstanding_combined_allocs` in memleak, whose walk also starts at key 0 though 0 can be a key there.
- FutexctnCounts.EveryCallIsCounted: speaks of `futex_exit` as its atomic steps instead of a method body, because other CPUs act
  between any two of them; `bpf_map_lookup_or_try_init` appears as the first three of these steps.
- The `start` map and the filters of futexctn, the division of the delta by its unit and the command name in a histogram.
- Ksyms.Load: does not model the overflow of C integers in the growth of capacities; growing is by 4/3 on naturals.
- SymsLoad.LoadFile: takes the lines of the maps file as parsed, and memory enough; `Syms.Table.AddDso` covers running out
  of it.
- Syms.LoadTable: does not model the growth of the symbol array, which is that of the kernel table, nor a symbol
  section that fails halfway.
- Execsnoop.ReadUserStr: takes the kernel helper at its documented word, that the length it returns is positive also
  for an empty string; the branch for a length above 128, which that rules out, is not modelled.
- Execsnoop.EllipsisIff: takes an argv of at least one string; slot 0 is never read, so an empty argv is read past its end.
- Quoted printing in execsnoop, which does not escape backslashes and so cannot be inverted.
- Tar.TarFileStart: takes archives below 2^31 bytes, the most the C int that holds the archive's size can say, and wanted
  names of at most 99 characters, the most the caller's buffer holds.
- The `*top` tools and profile, whose comparisons return truncated differences.
- The many snoop and latency tools that store a start time and send an event, and all tables of names: each would add
  one easy member.
