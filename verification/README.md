# PInsight verification model

A Dafny 4.11 model of the algorithms and state machines of PInsight's tracing runtime and of two of
its analysis scripts, with proofs of what they keep over every input, every run and every
interleaving. `dafny verify dfyconfig.toml` checks the whole project.

Code that works by changing things step by step is modelled as methods with loops and as classes
whose fields are the source's; every such method is proved against a function of its input or of
the old state, and the laws are proved about those functions and the runs they generate.

| files | what they model |
|---|---|
| `Numbering.dfy` | facts about numbers that several components share |
| `Sorting.dfy`, `KernelOverlap.dfy` | the kernel-overlap detector: merged busy time, sweep-line peak, and the theorem that joins them |
| `Words.dfy`, `BitSets.dfy`, `RangeText.dfy` | bitsets over 64-bit words, their iteration, and their text form with its grammar |
| `LexgionStack.dfy`, `RateControl.dfy`, `ThreadData.dfy` | the per-thread region table, the record stack, the start/max/rate filter |
| `SamplerDeadlines.dfy`, `SamplerProtocol.dfy`, `SamplerRegistry.dfy`, `Timespec.dfy` | the sampler's deadlines, and registration, kicks and unregistration beside its threads |
| `CodeSet.dfy` | the open-addressing set of code objects |
| `WindowProtocol.dfy`, `ControlThread.dfy` | how a tracing window ends: latches, pending action, timer, control thread |
| `Rotation.dfy`, `ActivityGate.dfy`, `NodePolicies.dfy`, `NodeRole.dfy` | the rotating collector, the gate on GPU activity records, the election of a node's process |
| `PhaseDetect.dfy` | phase segmentation in exact real arithmetic |
| `EnergySpans.dfy`, `EnergySummary.dfy` | armed energy spans and their report |
| `BracketStrip.dfy` | the bracket stripper for kernel names |
| `PunitText.dfy`, `PunitConfig.dfy` | the text form of punit sets and the lookup of a section's configuration |
| `ConfigLookup.dfy` | which trace config a region gets, its cache across reloads, and the decision to trace an event |

## Modelling conventions

- C integers are unbounded where no run of the source can wrap them, and wrap explicitly where one
  can (region counters, generations, the `int` returned by the bitset searches, the hash). Words are
  numbers below 2^64 with the C operators defined digit by digit.
- Pointers into a table are indices; NULL is -1 (0 for code pointers).
- Clocks, environment answers, node statuses, lock outcomes, counter readings and library results
  are parameters. Warnings printed to stderr are not modelled, except the flags that change behaviour.
- Locks and atomics give atomic steps: one window-end fire, one handler body, one API step under
  the sampler's mutexes, one apply of a collect decision.
- Python floats are exact reals; Python's integer timestamps are integers.

## Where the code and its own comments part

Each of these is a theorem below, with the exact condition under which the comment holds.

- `code_set_insert` is said to return 0 when the table is full; it returns 1 (`CodeSet.Table.Insert`, `CodeSet.Saturate`).
- The SERIALIZED message speaks of "every device"; its guard looks at the least overlap only, so it
  can be trusted exactly with one device (`KernelOverlap.SerializedMessage`).
- `bitset_equal` skips index `nbits` when `nbits` is a nonzero multiple of 64 (`BitSets.EqualDecides`);
  the punit bitsets, created with 1024, are such a case (`PunitConfig.MatchesExactly`).
- The punit range check stops at 1023 and lets the id 1024 through (`PunitText.LimitsHoldExactly`, `PunitText.EscapesTheCheck`).
- The section parser passes the row of its domain where `find_exact_punit_config` expects the
  array, so only sections of the first domain find the configuration they opened
  (`PunitConfig.OneDomainSection`, `PunitConfig.SecondDomainIsMissed`).
- A region reported without an address gets the first named entry in use, whatever its name; with an
  address a named entry is found only by name (`ConfigLookup.NamedEntriesNeedTheirName`).
- The counter value meant to force a fresh lookup is an ordinary value after 2^32 - 1 reloads; up to
  there no lookup is ever stale (`ConfigLookup.CacheIsCoherent`).
- Records above a match are said to be stale by construction; a stale record can itself be the match
  when it shares the codeptr (`LexgionStack.EndRestoresIff`, `LexgionStack.StaleRecordMatches`), and
  an end whose begin did not fit the stack pops an enclosing instance of the same region
  (`LexgionStack.PairAtOverflow`, `LexgionStack.OverflowPopsOuter`).
- A signal during an introspection pause is consumed by the pause; its reload waits for a later
  wakeup (`WindowProtocol.WakeupsAreKept`).
- Cyclic windows on per-domain copies of an action can stall: a second copy fired before the handler
  runs takes the only pending slot, and the first stays latched for good
  (`WindowProtocol.CyclesNeverStall`, `WindowProtocol.CopyStalls`).
- The rotation wake is meant to land just after the next boundary; it does exactly for periods of at
  least 3 ms (`Rotation.WakesInNextSlot`).
- The detected phases cover the whole run exactly when the coarse factor divides the number of bins
  (`PhaseDetect.AnalysisCovers`, `PhaseDetect.LastBinIsMissed`).
- A node's election leaves at most one winner exactly when no two processes take themselves for the
  leader and none does beside one that does not know its rank (`NodeRole.ElectionIsExclusive`,
  `NodeRole.ExclusivePolicies`).

## Model

| member | source | states |
|---|---|---|
| `Sorting.Sort` | analysis/gpu_kernel_concurrency.py:64 | the result is sorted by both components and a permutation of the input |
| `Sorting.SortedIsUnique` | analysis/gpu_kernel_concurrency.py:84 | a sorted list is determined by its multiset, so which sorting algorithm runs does not matter |
| `KernelOverlap.UnionNs` | analysis/gpu_kernel_concurrency.py:60-73 | the merge loop returns the number of integer instants covered by at least one half-open interval, for any input order |
| `KernelOverlap.MaxConcurrent` | analysis/gpu_kernel_concurrency.py:76-89 | the sweep returns the largest number of intervals that cover one instant; zero-length intervals count as none |
| `KernelOverlap.PeakBalance` | analysis/gpu_kernel_concurrency.py:85-89 | the sweep loop's peak bounds every running balance and is reached just after a start |
| `KernelOverlap.StartBound` | analysis/gpu_kernel_concurrency.py:78-84 | processing ends before starts at equal times means the counter after a start never exceeds the true depth there |
| `KernelOverlap.DepthIsBalance` | analysis/gpu_kernel_concurrency.py:80-87 | the depth at any instant is one of the sweep counter's values |
| `KernelOverlap.DoubleCounting` | analysis/gpu_kernel_concurrency.py:106-107 | adding durations and adding depths over instants give the same total |
| `KernelOverlap.OverlapTheorem` | analysis/gpu_kernel_concurrency.py:106-110 | union <= sum of durations <= peak * union, and sum equals union exactly when the peak is at most 1 |
| `KernelOverlap.OverlapIsOne` | analysis/gpu_kernel_concurrency.py:109-110 | overlap factor at most 1.00 exactly when at most one kernel runs at a time; exactly 1.00 exactly when the peak is 1; never above the peak |
| `KernelOverlap.OrderIrrelevant` | analysis/gpu_kernel_concurrency.py:60-89 | both measures are the same for any order in which the kernels were recorded |
| `KernelOverlap.PeakExists` | analysis/gpu_kernel_concurrency.py:76-89 | every list of intervals has a peak depth, so the theorems about the peak apply to all of them |
| `KernelOverlap.Report` | analysis/gpu_kernel_concurrency.py:92-140 | the four verdicts, each characterised by the devices' overlap factors and stream counts; never SERIALIZED without a device of several streams |
| `KernelOverlap.OverlapsIs` | analysis/gpu_kernel_concurrency.py:131-134 | the comparison of the ratio with 1.001 as one of whole numbers, a device without busy time included |
| `KernelOverlap.ConcurrentIsSound` | analysis/gpu_kernel_concurrency.py:134-136 | wherever the factor reaches the CONCURRENT threshold, two kernels were resident at one instant |
| `KernelOverlap.SerializedMessage` | analysis/gpu_kernel_concurrency.py:130-133 | over all reports on n devices, SERIALIZED implies low overlap on every device exactly when n <= 1 |
| `Words.PopCount` | src/bitset.c:131-139 | clearing the lowest one until zero counts the word's ones |
| `Words.ClearLowest` | src/bitset.c:135 | x & (x - 1) removes exactly the least digit of a nonzero word |
| `BitSets.BitSet.constructor` | src/bitset.c:51-70 | the empty set of indices 0..nbits, inline below 64 and in nbits / 64 + 1 words otherwise |
| `BitSets.BitSet.GetWord` | src/bitset.c:22-33 | inline and heap storage read as one sequence of words, zero beyond its end |
| `BitSets.BitSet.SetWord` | src/bitset.c:36-47 | replaces one word of that sequence and nothing else; out of range it changes nothing |
| `BitSets.BitSet.Reset` | src/bitset.c:85-95 | leaves the empty set |
| `BitSets.BitSet.Set` | src/bitset.c:97-106 | adds exactly that index; above nbits it changes nothing |
| `BitSets.BitSet.Clear` | src/bitset.c:108-117 | removes exactly that index |
| `BitSets.BitSet.Test` | src/bitset.c:119-127 | answers membership |
| `BitSets.BitSet.Count` | src/bitset.c:141-151 | the cardinality of the set |
| `BitSets.BitSet.ScanWord` | src/bitset.c:199-209 | the least index of one word at or above a position, -1 exactly when it has none there |
| `BitSets.BitSet.ScanWords` | src/bitset.c:211-227 | the least element from a word on, across empty words, or -1 |
| `BitSets.BitSet.FirstSet` | src/bitset.c:153-173 | the least element, converted to int, or -1 exactly when the set is empty |
| `BitSets.BitSet.NextSet` | src/bitset.c:175-228 | the least element above prev (from 0 for negative prev), or -1 exactly when there is none |
| `BitSets.BitSet.Or` | src/bitset.c:230-240 | the union, when all three have the same nbits; otherwise no change; operands may be the receiver |
| `BitSets.BitSet.And` | src/bitset.c:242-252 | the intersection under the same conditions |
| `BitSets.BitSet.Equal` | src/bitset.c:254-279 | same nbits and agreement on exactly the indices of the words compared |
| `BitSets.EqualDecides` | src/bitset.c:260-276 | that comparison decides equality of sets exactly when nbits is 0 or not a multiple of 64 |
| `BitSets.ReadUint` | src/bitset.c:299-316 | spaces, then the decimal value of the longest digit run, refused above ULONG_MAX |
| `BitSets.BitSet.ParseRanges` | src/bitset.c:318-373 | computes the reader's specification, return code and set, also on malformed text |
| `RangeText.ReaderDecides` | src/bitset.c:318-373 | the reader accepts a string as a set exactly when the grammar spells items within 0..nbits whose union is the set |
| `RangeText.AcceptsSpelling` | src/bitset.c:327-370 | every spelling, with spare spaces and commas, is read as the union of its items |
| `RangeText.AcceptedIsSpelling` | src/bitset.c:327-370 | whatever the reader accepts is such a spelling |
| `RangeText.ReadingAdds` | src/bitset.c:318-373 | what was read before a fault stays set |
| `BitSets.BitSet.RunEnd` | src/bitset.c:393-401 | extends a run as far as it goes and finds where the next one begins |
| `BitSets.BitSet.ToRangestring` | src/bitset.c:377-423 | the text lists exactly the set's maximal runs in increasing order whenever it fits the buffer of 6 * (nbits + 1) + 1 |
| `BitSets.TextFits` | src/bitset.c:381-383 | for nbits below 10^8 the text of every set fits that buffer |
| `BitSets.TextGrows` | src/bitset.c:382-412 | why it fits: every index up to the last one written has paid for 6 characters |
| `RangeText.RunsAreUnique` | src/bitset.c:391-416 | a set has exactly one list of maximal runs, so its text is a function of the set |
| `RangeText.RoundTrip` | src/bitset.c:318-423 | reading back the text of any set within 0..nbits, with the same nbits, succeeds and gives the set |
| `RangeText.TextIsInjective` | src/bitset.c:377-423 | two sets have the same text exactly when they are equal |
| `ThreadData.Thread.constructor` | src/pinsight.c:117-128 | an empty table and stack |
| `ThreadData.Thread.FindLexgion` | src/pinsight.c:186-217 | the search from the recent cursor round finds an entry exactly when the key is in the table |
| `ThreadData.Thread.ResolveEntry` | src/pinsight.c:225-265 | finds or adds the entry; fails exactly when the region is new and the table full; a new entry starts with zero counters |
| `ThreadData.Thread.PushLexgion` | src/pinsight.c:135-160 | pushes the record, or changes nothing on a full stack; parent links stay the array order |
| `ThreadData.Thread.PopLexgion` | src/pinsight.c:168-178 | removes and returns the top record, NULL on an empty stack |
| `ThreadData.Thread.LexgionBegin` | src/pinsight.c:222-276 | the Begin step: keys stay distinct, each counter is the number of begins resolved to it, known keys resolve in a full table |
| `ThreadData.Thread.TopRecord` | src/pinsight.c:301-304 | walking the parent links finds the topmost record of the codeptr in the array |
| `ThreadData.Thread.LexgionEndMatch` | src/pinsight.c:300-312 | pops down to and including the topmost match, returns it, and pops nothing without one |
| `ThreadData.Thread.AllSeenCapped` | src/pinsight.c:96-109 | true exactly when some entry has a finite cap and all such entries reached theirs |
| `ThreadData.Thread.SetRateTraceBit` | src/pinsight.c:513-533 | the filter step on one entry; every other entry, the directory and the stack stay |
| `ThreadData.Thread.PostTraceUpdate` | src/pinsight.h:228-258 | the trace accounting step, and exactly when it fires the window end under either count policy |
| `LexgionStack.RunKeepsBase` | src/pinsight.c:288-312 | an untangled run (a begin without a record finds none of its codeptr on the stack) pops no record from below its starting point |
| `LexgionStack.RunLeaves` | src/pinsight.c:295-298 | records left behind by a run belong to executions whose end never came |
| `LexgionStack.EndRestores` | src/pinsight.c:300-312 | over any untangled run with skipped and overflowing begins and missing ends, the end restores the stack from before the begin, unless an unended execution inside shares its codeptr |
| `LexgionStack.EndRestoresIff` | src/pinsight.c:298-312 | the exact condition: no record left above the region's own has its codeptr; the end of a begin without a record pops nothing exactly when no record left inside has it |
| `LexgionStack.StaleRecordMatches` | src/pinsight.c:298-312 | a region that runs inside itself without an inner end: the outer end leaves the outer record behind |
| `LexgionStack.BalancedRun` | src/pinsight.c:222-312 | when every end arrives, every execution at every depth leaves the stack as it found it exactly when the run is untangled |
| `LexgionStack.RoomyIsUntangled` | src/pinsight.c:227-246 | with one class and type for each codeptr and room on the stack every run is untangled, however many begins a full table skips |
| `LexgionStack.PairAtOverflow` | src/pinsight.c:137-150 | with a full stack, a begin and its end, around any balanced run, leave the stack alone exactly when no enclosing record has the codeptr |
| `LexgionStack.OverflowPopsOuter` | src/pinsight.c:137-150 | with room for one record, the inner of two nested executions of a region pops the outer's record |
| `RateControl.TracesFixedConfig` | src/pinsight.c:513-533 | from any counters, with a fixed config and generation: the traced executions are exactly k1, k1 + r, k1 + 2r, ... up to what the cap has left, where traces of another generation do not count; the cap branch is taken exactly when the cap is reached; all counters in closed form |
| `RateControl.DueIff` | src/pinsight.c:527-531 | the three-part test of the code is exactly membership in that progression |
| `RateControl.StepTraces` | src/pinsight.c:513-533 | the count min(left, (n - k1) / r + 1) grows by one exactly at the traced executions |
| `RateControl.CapPerGeneration` | src/pinsight.h:236-257 | wherever a run stands, the executions up to the next generation step emit at most max traces and visit the cap branch at most once |
| `RateControl.CapOverRun` | src/pinsight.h:236-257 | hence at most max traces and one such visit for each generation of a whole run |
| `RateControl.NextWindow` | src/pinsight.c:515-525 | after any run and a generation step, n executions emit min(max, as many as the rate allows) traces, whatever the windows before emitted, and the cap branch is taken exactly when max is reached |
| `ConfigLookup.Resolve` | src/pinsight.c:360-403 | the first entry for the address, else the first for the name, else the domain's default, else the global one |
| `ConfigLookup.ResolvesOnce` | src/pinsight.c:334-341 | these four levels determine one answer |
| `ConfigLookup.WhatIsFound` | src/pinsight.c:364-389 | no removed entry is found; an entry found is at the address or serves the name, domain and file; a default, or an entry by name, is taken only where no such entry, or none at the address, is left |
| `ConfigLookup.NamedEntriesNeedTheirName` | src/pinsight.c:364-389 | over all tables, a named entry is chosen only for its name exactly when the region has an address |
| `ConfigLookup.RunKeepsCache` | src/pinsight.c:356-408 | over every run of lookups, renamings and fewer than 2^32 - 1 reloads a cache that counts as fresh holds the current answer |
| `ConfigLookup.CacheIsCoherent` | src/pinsight.c:356-408 | no run with at most n reloads ends in a stale lookup exactly when n < 2^32 - 1 |
| `ConfigLookup.StaleRun` | src/pinsight.c:260-261 | for any number of reloads, the run of one lookup, the reloads and a renaming, and the state it ends in |
| `ConfigLookup.MatchPunits` | src/trace_config.c:90-117 | some kind is constrained and every constrained kind accepts the current id |
| `ConfigLookup.ConstraintsNarrow` | src/trace_config.c:90-117 | a punit set without constraints matches nothing; further constraints never let more through |
| `ConfigLookup.RangeCheckIsBackedUp` | src/trace_config.c:109-111 | dropping ids outside the limits, or not, never changes a match, so the id that escapes the parser's check is harmless |
| `ConfigLookup.IsDue` | src/pinsight.c:411-423 | no masked event passes; without a punit set every other one does; with one exactly those whose punits match |
| `ConfigLookup.Lookup.ResolveConfig` | src/pinsight.c:356-408 | the cached config, looked up anew exactly after a reload or a renaming |
| `ConfigLookup.Lookup.SetTopTraceBit` | src/pinsight.c:343-445 | traced exactly when the event and the punits pass and the rate filter is due; the filter's counters move only then; the config is the current one whenever the cache is coherent |
| `CodeSet.EmptyMeansAbsent` | src/pysysmon_sampler.c:111-115 | a probe sequence that reaches an empty slot without the pointer proves it absent |
| `CodeSet.InsertKeepsConsistent` | src/pysysmon_sampler.c:125-127 | storing there keeps every pointer unique and reachable from its home slot with wrap-around |
| `CodeSet.FullWalk` | src/pysysmon_sampler.c:111-130 | a probe sequence of full length visits every slot, so the fall-through return is unreachable |
| `CodeSet.Table.Insert` | src/pysysmon_sampler.c:108-131 | returns 0 exactly for NULL or a stored pointer; otherwise 1, stored below the cap and not above it |
| `CodeSet.Table.Spare` | src/pysysmon_sampler.c:116 | at least an eighth of the slots is always empty |
| `CodeSet.Saturate` | src/pysysmon_sampler.c:116-123 | the cap is reached by a run of inserts, after which a new pointer is answered 1 and not stored |
| `WindowProtocol.InvariantAfter` | src/pinsight_control_thread.c:394-540 | over every interleaving of fires, timer, signals and control steps the latch and switch accounts add up |
| `WindowProtocol.LatchWins` | src/pinsight.c:33-38 | an action's latch wins are its completed cycles plus one if the latch is taken; its generation counts the cycles |
| `WindowProtocol.SwitchedAtMostOnce` | src/pinsight_control_thread.c:467-484 | window ends switch a domain at most once between two resets of its latch, copies and timer included |
| `WindowProtocol.WakeupsAreKept` | src/pinsight_control_thread.c:226-244 | no reason is ever left waiting without a token, over all runs, exactly when no action pauses the application |
| `WindowProtocol.PauseLoses` | src/pinsight_control_thread.c:232-244 | any pausing action has a run in which the pause takes a signal's token and leaves its reason |
| `WindowProtocol.CyclesNeverStall` | src/pinsight_control_thread.c:457-540 | in every state of every run each taken latch of a cyclic action is being handled, or pending with its token and reason, exactly when the action is the only one or none is cyclic; and exactly otherwise some run latches one for good |
| `WindowProtocol.StrandedForever` | src/pinsight_control_thread.c:457-458 | a latched action that is neither pending nor being handled stays so under every continuation and never wins its latch again |
| `WindowProtocol.CopyStalls` | src/pinsight.c:64-72 | with a second action there is a run that overwrites the pending slot and leaves the cyclic one latched in every continuation |
| `WindowProtocol.StepModes` | src/pinsight.c:48-61 | in every step the domains change only by the action that step carries out: a named target with a clear latch is taken and the old mode remembered, nothing else moves; the next window opens, with all latches clear and the timer armed, exactly after a cyclic action was handled |
| `WindowProtocol.ModeIsTarget` | src/pinsight_control_thread.c:467-484 | after any run a domain is in its first mode or in the one named by the action of the last step that switched it, its last mode is the one it was in then, and while its latch is taken nothing has touched it since |
| `WindowProtocol.LatchHolds` | src/pinsight_control_thread.c:473-474 | a latched domain keeps mode, last mode and latch under every continuation until the next window opens |
| `WindowProtocol.WindowEnds` | src/pinsight.c:48-61 | a won fire without introspection puts each named domain with a clear latch into its target at once, until the next window opens |
| `WindowProtocol.SignalRearms` | src/pinsight_control_thread.c:437-456 | after a signal the control thread can wake, and then arms the timer as configured, whatever else it handles |
| `ControlThread.Process.WinLatch` | src/pinsight.c:33-38 | exactly one caller wins a clear latch |
| `ControlThread.Process.SwitchDomains` | src/pinsight.c:48-61 | every named target with a clear latch is taken and latched, the old mode remembered; no other domain changes |
| `ControlThread.Process.FireWindowEnd` | src/pinsight.c:27-73 | is the Fire step; the domains take their targets exactly if the latch is won and the action does not introspect |
| `ControlThread.Process.WindowAlreadyEnded` | src/pinsight_control_thread.c:86-96 | the action has a target and all its targets have switched |
| `ControlThread.Process.OnTimer` | src/pinsight_control_thread.c:395-419 | is the Timer step |
| `ControlThread.Process.OnWake` | src/pinsight_control_thread.c:420-436 | is the Wake step |
| `ControlThread.Process.HandleReasons` | src/pinsight_control_thread.c:457-463 | takes the pending action and pauses or applies it |
| `ControlThread.Process.OnResume` | src/pinsight_control_thread.c:226-252 | is the Resume step |
| `ControlThread.Process.ApplyAction` | src/pinsight_control_thread.c:465-540 | the domains take their targets; the next window opens exactly for a cyclic action |
| `ControlThread.Process.ResetLatches` | src/pinsight_control_thread.c:526-539 | clears all domain latches and the action's, advances its generation, rearms the timer |
| `ControlThread.ChooseDeadline` | src/pinsight_control_thread.c:335-367 | the earliest armed deadline; ties go to rotation, then window, then manifest; none armed means none chosen |
| `Timespec.AddUs` | src/pinsight_sampler.c:79-86 | adds the microseconds and stays normalised |
| `Timespec.DiffNs` | src/pinsight_sampler.c:88-93 | the difference of the two times in nanoseconds |
| `Timespec.Before` | src/pinsight_control_thread.c:133-136 | the lexicographic comparison is the order of times |
| `Rotation.FairShare` | src/roctracer_callback.c:288-290 | of any n * p consecutive milliseconds each of n ranks collects exactly p |
| `Rotation.CollectorRepeats` | src/roctracer_callback.c:288-290 | the selection is periodic with n slots |
| `Rotation.WakesInNextSlot` | src/pinsight_control_thread.c:347-351 | the computed wake falls in the very next slot exactly when the period is at least 3 ms |
| `Rotation.RotateDeadline` | src/pinsight_control_thread.c:343-354 | the deadline is normalised and that many milliseconds after the realtime clock |
| `ActivityGate.ApplyKeeps` | src/roctracer_callback.c:841-875 | an apply step keeps flag, device, pool and decision in agreement and leaves the decision applied |
| `ActivityGate.StepKeeps` | src/cupti_callback.c:412-451 | every step of either vendor's gate keeps that agreement and the account of records |
| `ActivityGate.RunKeeps` | src/roctracer_callback.c:841-913 | over every run: pool open, flag set and device on exactly after a decision to collect; every captured record traced exactly once in order; permanently off means off |
| `ActivityGate.DecisionIsApplied` | src/roctracer_callback.c:841-875 | every step that takes a decision carries it out: device, flag and pool follow it, for either vendor |
| `ActivityGate.OffExactlyWhen` | src/roctracer_callback.c:903-906 | over every run a gate is off for good exactly if it started in OFF or applied a mode change to OFF |
| `ActivityGate.OffIsForGood` | src/roctracer_callback.c:884-886 | from then on, whatever follows and for either vendor, nothing is opened, enabled, captured or traced |
| `ActivityGate.MethodIsPinned` | src/roctracer_callback.c:269-281 | once pinned, the selection method and period never change |
| `ActivityGate.StepPins` | src/roctracer_callback.c:269-281 | a method is pinned exactly by the first decision in TRACING under a policy that names one, with its period or 1000 ms |
| `ActivityGate.ElectionDecides` | src/roctracer_callback.c:279-293 | with a pinned method that does not or cannot rotate, the decision is the election's for the rest of the run, up to ON and OFF |
| `ActivityGate.OneCollector` | src/roctracer_callback.c:282-291 | with rotation pinned on every rank and a shared clock there is exactly one rank whose decision is to collect |
| `ActivityGate.FairCollection` | src/roctracer_callback.c:282-291 | of any n * p consecutive milliseconds a rank's decision is to collect in exactly p |
| `ActivityGate.HipGate.constructor` | src/roctracer_callback.c:919-941 | an active start applies the first decision, an OFF start is off for good |
| `ActivityGate.HipGate.ShouldCollectNow` | src/roctracer_callback.c:255-294 | the live decision, pinning the method at the first method-bearing policy |
| `ActivityGate.HipGate.RotatePeriodMs` | src/roctracer_callback.c:298-316 | positive exactly while a rotation can move the collector, and then the period that is or will be pinned |
| `ActivityGate.HipGate.ApplyCollectState` | src/roctracer_callback.c:841-875 | is the apply step: flush before clearing the flag, close after disabling |
| `ActivityGate.HipGate.ApplyNewModeNow` | src/roctracer_callback.c:884-913 | is the mode step: off for good exactly if it was, or on a change to OFF, and then silent |
| `ActivityGate.HipGate.Fini` | src/roctracer_callback.c:943-959 | ends with everything captured traced and everything off |
| `NodeRole.Process.ClaimSingleton` | src/trace_config.c:1088-1113 | the first answer for a name, then the cached one |
| `NodeRole.Process.NodeRole` | src/trace_config.c:1115-1150 | the cached role, or the policy's decision from status and lock |
| `NodeRole.RoleSticks` | src/trace_config.c:1118-1119 | a cached role is the answer for the rest of the run, whatever policy later calls name |
| `NodeRole.ClaimSticks` | src/trace_config.c:1088-1113 | a cached claim is the answer for the rest of the run: the lock is not tried again |
| `NodeRole.FirstAnswerIsKept` | src/trace_config.c:1144-1148 | a first answer is cached under its name exactly when a slot is free and the name is at most 31 characters |
| `NodeRole.FirstCallDecides` | src/trace_config.c:1115-1150 | after any earlier calls a process's role is what its first call of that name decided |
| `NodeRole.RoleOfRun` | src/trace_config.c:1115-1150 | whatever it asked before, a process has the role exactly if its first call of the name found ON, itself the leader under a leader policy, or a case left to the lock and the lock |
| `NodeRole.ElectionIsExclusive` | src/trace_config.c:1115-1150 | for processes with any earlier calls, caches and policies: however the lock falls, at most one is elected exactly when no first call elects itself beside another that may be elected |
| `NodeRole.ExclusivePolicies` | src/trace_config.c:1121-1143 | for one common policy that means: a single process for ON, and for the leader policies no leader beside a leader or an unknown status |
| `SamplerDeadlines.AdvanceCountsPassed` | src/pinsight_sampler.c:213-223 | an overrun adds exactly the nominal deadlines already passed; the new deadline is one interval after the old one if that is still to come, else one interval after now |
| `SamplerDeadlines.RunAccountsForTime` | src/pinsight_sampler.c:178-224 | over any run: (ticks + missed) * I <= movement of the deadline <= (ticks + missed + overruns) * I |
| `SamplerDeadlines.EnabledFrom` | src/pinsight_sampler.c:97-113 | a probe with an interval that may run here is enabled exactly from its least mode on, none being the lowest |
| `SamplerDeadlines.Probe.Arm` | src/pinsight_sampler.c:153-162 | disarms a disabled probe, arms a newly enabled one one interval from now, leaves an armed one |
| `SamplerDeadlines.Probe.FinishTick` | src/pinsight_sampler.c:203-223 | counts the tick and its cost and advances the deadline |
| `SamplerDeadlines.Probe.RunIfDue` | src/pinsight_sampler.c:180-223 | runs exactly the enabled, armed, due probes whose interval is still nonzero; the next deadline is that of the schedule, and in the future |
| `SamplerDeadlines.EarliestDeadline` | src/pinsight_sampler.c:145-167 | the least deadline of the enabled probes, none exactly when none is enabled |
| `SamplerProtocol.OwnSlotExists` | src/pinsight_sampler.c:322-333 | while the registry has room an own-thread context is free, so the fallback to the shared thread is unreachable |
| `SamplerProtocol.NextKeeps` | src/pinsight_sampler.c:270-404 | every step of registration, kick, loop and unregistration keeps the registry's invariant |
| `SamplerProtocol.ReachableStates` | src/pinsight_sampler.c:134-404 | in every reachable state own contexts serve at most one probe and callbacks run only for registered probes |
| `SamplerProtocol.UnregisterEndsQuiet` | src/pinsight_sampler.c:349-377 | the step that ends an unregistration leaves the probe in no context and in no callback |
| `SamplerProtocol.StaysQuiet` | src/pinsight_sampler.c:349-377 | from then on, under any interleaving, its callback neither runs nor starts until it is registered again |
| `SamplerProtocol.UnregisterCompletes` | src/pinsight_sampler.c:349-377 | from every state an unregistration in progress is brought to its end by at most four steps of its own and of the thread it waits for, and then the probe is quiet |
| `SamplerProtocol.RemovalIsComplete` | src/pinsight_sampler.c:359-365 | the removal loop leaves none of a probe exactly when it was listed at most once, so a probe registered twice survives its unregistration |
| `SamplerProtocol.KickStaffs` | src/pinsight_sampler.c:243-260 | a kick gives each context it staffs a running thread, leaves one whose thread cannot be created without, and changes no other |
| `SamplerProtocol.RegisteredCanStart` | src/pinsight_sampler.c:270-347 | after a registration with room and a kick that staffs its context the probe's callback can start |
| `SamplerProtocol.EveryProbeCanRun` | src/pinsight_sampler.c:134-404 | in every reachable state without a call in progress a registered probe is at most two steps from its callback |
| `SamplerRegistry.SwapOut` | src/pinsight_sampler.c:359-365 | removes the probe by moving the last one into its place |
| `SamplerRegistry.Registry.RegisterProbe` | src/pinsight_sampler.c:270-347 | fails exactly when full; otherwise the Register step, with an own context for a probe that wants one; keeps the invariant for a probe not registered yet |
| `SamplerRegistry.Registry.RemoveProbe` | src/pinsight_sampler.c:354-376 | is the Remove step, and says exactly when the thread is to be joined |
| `SamplerRegistry.Registry.KickAll` | src/pinsight_sampler.c:389-404 | exactly the contexts with an enabled probe and no thread get one, looping, or are left ready for the next kick if it cannot be created; no other context changes |
| `PhaseDetect.CostIsLeastDeviation` | analysis/phase_detect.py:98-107 | the cost is the squared deviation from the mean, the least over all centres, never negative |
| `PhaseDetect.CutFeature` | analysis/phase_detect.py:119 | cutting a segment never raises a feature's cost |
| `PhaseDetect.GainNonNegative` | analysis/phase_detect.py:117-119 | no cut has negative gain |
| `PhaseDetect.FindBest` | analysis/phase_detect.py:114-121 | the first of the cuts with the largest gain among all admissible ones, none exactly when there is none |
| `PhaseDetect.SplitStep` | analysis/phase_detect.py:122-126 | an accepted cut keeps a contiguous partition of long enough pieces and pays its threshold |
| `PhaseDetect.NothingWorthIt` | analysis/phase_detect.py:122-123 | the search stops only when no admissible cut reaches the threshold |
| `PhaseDetect.Segments` | analysis/phase_detect.py:109-127 | the segmentation is reached from the whole series by best cuts only, each worth its threshold; sorted, at most MAX_PHASES pieces, long enough once split, k cuts lower the cost by k thresholds; it is full or no cut is worth it |
| `PhaseDetect.TotalCostNonNegative` | analysis/phase_detect.py:98-107 | no segmentation has negative cost, which bounds what all splits can gain |
| `PhaseDetect.FlatSeries` | analysis/phase_detect.py:109-127 | a series without variation stays one phase |
| `PhaseDetect.BinsPerCoarse` | analysis/phase_detect.py:176 | the nearest factor to nb / 500, the even one of two, at least 1 and never more than the number of bins |
| `PhaseDetect.Aggregate` | analysis/phase_detect.py:164-170 | one mean row for each full group of k bins, in order; a shorter rest is dropped |
| `PhaseDetect.AggregateConserves` | analysis/phase_detect.py:164-170 | k times the coarse total is the fine total of the bins kept |
| `PhaseDetect.PhasesCover` | analysis/phase_detect.py:182-183 | mapped back, each phase is k times its coarse bins; together they are contiguous over the full groups, and cover the run exactly when k divides the number of bins |
| `PhaseDetect.AnalysisCovers` | analysis/phase_detect.py:176-183 | with the factor the script computes: exactly when it divides the number of bins, and the factor is 1 exactly below 750 bins |
| `PhaseDetect.LastBinIsMissed` | analysis/phase_detect.py:176-183 | with 751 bins the phases end at 750 |
| `EnergySpans.RunAlternates` | src/energy.c:137-201 | over every run the trace is enter(0), exit(0), enter(1), ... with one open enter exactly while armed, and empty elsewhere than on the measurer |
| `EnergySpans.RunEmitsCompleteSpans` | src/energy.c:111-176 | a run that ends in fini leaves complete, consecutively numbered pairs only |
| `EnergySpans.VariantIsLatched` | src/energy.c:143-160 | whatever the first arm has fixed as variant and role stays for the whole run; what it fixes is in SpansOfRun |
| `EnergySpans.SpansOfRun` | src/energy.c:137-201 | over every run: the events that open and close spans; the first decides variant and role by its own policy and election; each entry of the trace carries the direction, span number, time and readings of its own event |
| `EnergySpans.FirstMark` | src/energy.c:137-143 | a run arms at all exactly when it has an arm or reload under a policy other than OFF, and first at the first of them |
| `EnergySpans.Coordinator.BackendsInitOnce` | src/energy.c:67-109 | the first readable node backend alone, or else the first readable CPU one and every readable GPU one, once |
| `EnergySpans.Coordinator.ArmSpan` | src/energy.c:137-165 | is the Arm step |
| `EnergySpans.Coordinator.DisarmSpan` | src/energy.c:167-176 | is the Disarm step |
| `EnergySpans.Coordinator.ApplyConfig` | src/energy.c:178-201 | is the Reconfigure step: only off and armed matter, a variant change does not |
| `EnergySpans.Coordinator.Fini` | src/energy.c:111-116 | closes the open span before the backends are dropped |
| `EnergySummary.SumSpans` | analysis/mpi_gpu_energy_report.py:229-240 | the totals over the spans in ascending order |
| `EnergySummary.TotalsMean` | analysis/mpi_gpu_energy_report.py:229-240 | complete spans and no others are summed, in time and for exactly the devices that all of them have readings of; the rest are counted |
| `EnergySummary.EventOfSpan` | src/energy.c:170-175 | an event of a trace stands where its span number and direction say, and nowhere else |
| `EnergySummary.SubTraceSpans` | analysis/mpi_gpu_energy_report.py:222-236 | of any captured part, the complete spans are exactly those with both events in it, with their own readings |
| `EnergySummary.WholeTraceIsComplete` | analysis/mpi_gpu_energy_report.py:221-243 | a finished trace has no incomplete span and all of them are counted |
| `EnergySummary.CapturedIsSummed` | analysis/mpi_gpu_energy_report.py:221-240 | for any captured part of a trace: spans counted, seconds and joules are those of the spans with both events in the part |
| `EnergySummary.RunIsSummed` | analysis/mpi_gpu_energy_report.py:221-243 | from any run to the report of any captured part of it; of the whole trace every span counts and none is incomplete |
| `EnergySummary.Summarize` | analysis/mpi_gpu_energy_report.py:227-243 | each host is represented by the process that measured longest, the first among equals, and no other host appears |
| `BracketStrip.GroupEnd` | analysis/mpi_gpu_energy_report.py:88-91 | deleting the group leaves what one pass keeps of the rest, also when it is never closed |
| `BracketStrip.StripGroups` | analysis/mpi_gpu_energy_report.py:87-92 | on every string the loop stops, leaves no opener, and equals a single pass |
| `BracketStrip.StripBrackets` | analysis/mpi_gpu_energy_report.py:86-92 | both passes: neither opener is left |
| `BracketStrip.StripIsIdempotent` | analysis/mpi_gpu_energy_report.py:86-92 | stripping twice is stripping once |
| `BracketStrip.CloserSurvives` | analysis/mpi_gpu_energy_report.py:90-92 | a closer is left exactly when some prefix closes more groups than it opens |
| `BracketStrip.StripsToTopLevel` | analysis/mpi_gpu_energy_report.py:72-92 | a well-nested name is reduced to exactly its characters outside every argument list |
| `PunitText.ParseKeeps` | src/trace_config_parse.c:1235-1357 | whatever the text: flags of domains and kinds stay in step, ids stay inside the bitsets, accepted ids inside the limits or 1024 |
| `PunitText.SpecDecides` | src/trace_config_parse.c:1235-1357 | a text is accepted exactly when a separate grammar of pieces spells it and their ids can be read, and then the pieces are stored in order |
| `PunitText.StoredPiece` | src/trace_config_parse.c:1289-1345 | a piece with known names flags its kind and replaces its ids by those read that pass the check, or by all that were read of a faulty list; nothing else changes |
| `PunitText.ReadingKeepsFlags` | src/trace_config_parse.c:1235-1357 | reading takes no flag back, also when a later piece is faulty |
| `PunitText.FiltersSplit` | src/trace_config.c:557-595 | a filter splits what is printed without one into the kinds of that domain and all others |
| `PunitText.LimitsHoldExactly` | src/trace_config_parse.c:1329-1340 | the range check confines the ids exactly when 1024 is not listed or is allowed |
| `PunitText.EscapesTheCheck` | src/trace_config_parse.c:1329-1340 | the text "a.b(1024)" is accepted for a kind with ids 0 to 3 and leaves it the id 1024 |
| `PunitText.PrintedReadsBack` | src/trace_config.c:557-595 | reading the printed text into an empty array gives exactly what survives: the shown flagged kinds with their checked ids |
| `PunitText.TripIsExact` | src/trace_config_parse.c:1235-1357 | the trip is the identity exactly when flags are in step and ids within limits, empty kinds included |
| `PunitConfig.DropOutside` | src/trace_config_parse.c:1329-1340 | removes exactly the ids up to 1023 outside the limits |
| `PunitConfig.ReadIds` | src/trace_config_parse.c:1298-1340 | the listed ids, checked when they parse and as far as read when they do not |
| `PunitConfig.FindDomainIndex` | src/trace_config_parse.c:1216-1222 | the first domain of that name, or -1 |
| `PunitConfig.FindPunitKindIndex` | src/trace_config_parse.c:1224-1231 | the first kind of that name, or -1 |
| `PunitConfig.FindPiece` | src/trace_config_parse.c:1245-1284 | the three delimiters, each looked for after the one before, or failure |
| `PunitConfig.PunitSets.StoreIds` | src/trace_config_parse.c:1263-1345 | stores one piece; unknown names change nothing and are no fault |
| `PunitConfig.PunitSets.ParsePunitSet` | src/trace_config_parse.c:1235-1357 | computes the reader's specification in place, error results included |
| `PunitConfig.PunitSets.PrintFiltered` | src/trace_config.c:557-595 | prints the shown flagged kinds in table order, separated, and keeps the first-printed flag |
| `PunitConfig.FindExactPunitConfig` | src/trace_config_parse.c:1183-1214 | the first configuration whose row matches, none exactly when none does |
| `PunitConfig.MatchesExactly` | src/trace_config_parse.c:1192-1207 | a match is equality of the flagged kinds and ids, except for the id 1024 |
| `PunitConfig.LastIdIsMissed` | src/trace_config_parse.c:1201-1202 | rows that differ in the id 1024 alone match |
| `PunitConfig.SectionFindsItsConfig` | src/trace_config_parse.c:727-728 | for a section naming any domains, the lookup answers rightly over all configurations exactly when the row twice as far down matches the domain's own |
| `PunitConfig.OneDomainSection` | src/trace_config_parse.c:727-728 | a section that names one domain: exactly when the domain is the table's first; otherwise nothing is ever found |
| `PunitConfig.SecondDomainIsMissed` | src/trace_config_parse.c:727-728 | three domains, a section of the second, its configuration in the list and not found |

## Left out

- BitSets.BitSet.ToRangestring: says nothing about a set whose text does not fit the buffer, which takes nine-digit indices; what snprintf does with the wrapped size then is not part of this model.
- BitSets.BitSet.constructor: memory is always obtained, so a bitset without words is not part of this model; bitset_free and bitset_to_string are not either.
- RangeText.ReaderDecides: characters are classified as in the C locale.
- ThreadData.Thread.SetRateTraceBit: the entry's config is an index into a table of configs; how it got there is in ConfigLookup.
- ConfigLookup.CacheIsCoherent: a region is looked up under one domain; the cache of a region that two domains share is not modelled. lexgion_set_trace_config and lexgion_check_event_enabled repeat parts of the modelled function.
- ThreadData.Thread.LexgionBegin: lexgion_end and top_lexgion_type are the plain pop and a plain search and are not repeated.
- RateControl.TracesFixedConfig: as long as none of the unsigned counters wraps within the executions.
- RateControl.NextWindow: runs of fewer than 2^32 events, so that the generation has not come round to one seen before.
- ConfigLookup.Lookup.SetTopTraceBit: the config a cache points to is still in the tables, as the source's pointers are.
- LexgionStack.EndRestores: one thread; two threads incrementing one region's counter are not modelled.
- WindowProtocol.InvariantAfter: a config reload is only its wakeup and timer rearming; what a reload changes in modes and actions is not modelled, nor are the device-activity and sampling targets of a window end, scripts, and manifest bursts.
- WindowProtocol.SwitchedAtMostOnce: each fire and each handler body is one step; finer interleavings of the plain flag mode_change_fired do not support the claim.
- ActivityGate.RunKeeps: applying a decision is one step and library calls succeed, so records in flight between flush and disable are not modelled; host API callbacks are not either.
- NodeRole.ElectionIsExclusive: names are shorter than 32 characters and there are at most eight of them, as many as the caches hold; the lock is granted to at most one process of the node; lock files, users and environment variables are parameters.
- SamplerProtocol.StaysQuiet: deadlines are in SamplerDeadlines; here a thread may start any listed probe at any time. The random draw of process_fraction is a setting.
- SamplerDeadlines.RunAccountsForTime: a constant interval; costs and counters are unbounded.
- SamplerRegistry.Registry.RegisterProbe: the kick that follows a registration is a call of its own; for a probe registered already, the reset of its in_call flag while its callback may be running is not modelled.
- CodeSet.Table.Insert: the warning's text; only its flag is kept.
- PhaseDetect.Segments: exact reals; rounding, normalisation (_znorm), periodicity and the character tags are not modelled.
- KernelOverlap.Report: records arrive as lists of intervals per device; trace reading, percentiles and printing are not modelled, and the ratio is an exact real.
- EnergySummary.Summarize: spans arrive per process; trace decoding and the rank-to-device map are not modelled.
- EnergySpans.Coordinator.ArmSpan: counter readings are inputs; warnings about ignored variant changes are not kept.
- BracketStrip.StripBrackets: demangling and the later replacements of simp (return type, version namespaces, last two parts) are not modelled.
- PunitConfig.PunitSets.ParsePunitSet: a punit set's bitset is kept as the set it stands for, so storage shared between copies of a configuration is not modelled; the temporary cut of the input text at the closing parenthesis is not either.
- PunitConfig.SectionFindsItsConfig: rows past the end of the array, which the lookup of a domain in its second half would read, have no value in this model.
- Tracepoints, callbacks of OMPT, PMPI, CUPTI, ROCTracer and Python, backtraces, knobs, DSL tables, and the figures and tables of the analysis scripts are declarations, foreign calls or printing.
