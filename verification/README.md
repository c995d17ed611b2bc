# ARCHIE, verified

ARCHIE records one undisturbed ("golden") execution of a program as a sequence of translation
blocks (TBs), computes offline on which hit of which instruction each fault has to trigger, and
replays the program with a plugin that counts hits, injects, keeps a fault alive for its
lifespan and reverses it. This project models that chain in Dafny and proves that its parts
agree with one simple thing: the flat instruction trace.

| part | modules |
|---|---|
| the golden trace: TB table, executed TBs, the flat trace they stand for, hit counts with overlapping TBs | `Trace`, `HitCounting` |
| offline: trigger search and its cache, wildcard ranges, what the answers mean on the trace | `TriggerSearch`, `TriggerTable`, `Filters`, `Wildcard`, `Replay` |
| single-step artefact filter and its round trip | `TraceFilter`, `RoundTrip` |
| the plugin: state machine, what every run keeps, the trigger table, the single-step requests, the imperative code that refines it | `PluginState`, `PluginRuns`, `PluginTriggers`, `PluginRequests`, `FaultPlugin` |
| both together: where on the trace the plugin injects and reverses what the search resolved | `ReplayRuns` |
| memory faults: the injection code, and any interleaving of faults and program writes | `MemoryFault`, `MemoryRuns` |
| the AVL library on the heap: find, probe, insert, delete, destroy, height | `AvlTree`, `AvlHeight`, `AvlFocus`, `AvlGrowth`, `AvlShrink`, `AvlTable`, `AvlDelete`, `AvlDestroy` |
| its two clients: memory-access index and TB table | `MemIndex`, `TbInfo` |
| execution order: ring buffer and list | `ExecOrder` |
| the Unicorn worker: fault models on big numbers, lifespan queue | `UnicornWorker` |
| worker pool, result queue and collector as a concurrent protocol | `Campaign` |

What the trace arithmetic relies on is one predicate, `Trace.WellFormed`: TB ids are unique, a TB
that starts inside another is its tail (same end, same decoded instructions), `ins_count` is the
number of decoded instructions, and instructions are at least two bytes long.

Where the code falls short of what it is meant to do, the code is kept and the exact condition is
proved, with a concrete input that shows the condition is needed:

- Wildcard generation runs one fault past the end of its range exactly when the range's end is
  excluded and its TB still has an instruction to fault (`Replay.StopsWithRange`, `Replay.ExcludedEndOverruns`).
- Filtering undoes single stepping exactly when no block-mode row extends the stepped TB after it
  to a run of its own TB (`RoundTrip.FilterUndoesStepping`).
- Single-step requests are conserved, and none is given back in vain, in every run of a configuration
  exactly if the marker 0xdeadbeaf of served table entries does no harm: an instruction fault at that
  address is the only one that can be injected, or all that can be are at that address and injected
  together by the first TB (`PluginRequests.RequestsAreConserved`, with the run of `PluginRequests.SentinelBreaksConservation`).
- A faulted TB is captured when it is translated, except exactly when the counter of served entries has
  already reached the number of all, because an entry was served twice at the marker
  (`PluginRequests.MissedExactlyIf`, with the run of `PluginRequests.ServedTwiceIsMissed`).
- The field `trignum` numbers first a trigger slot and then a live entry. Every outstanding fault is
  found by its slot in every run exactly if two things hold of the configuration. None of the first t
  faults is outstanding, where t transient faults are injected at the first TB (they wipe the slots 0
  to t - 1); and no transient fault can take the number i of a later fault with its trigger address,
  which it can if t <= i and at least i other transient faults can be injected
  (`PluginTriggers.TableAgrees`, with the configurations of `PluginTriggers.SharedTriggerIsLost`
  and `PluginTriggers.SharedTriggerIsKept`).
- A fault clamped to the start of the trace gets hit counter 0. The plugin injects it, at the first TB,
  only if it is an instruction fault (`ReplayRuns.ZeroHitsInjection`, `ReplayRuns.ClampedFaultEnds`); the
  Unicorn worker does not inject it (`UnicornWorker.Worker.FaultHook`).
- The memory index narrows a 64-bit difference to 32 bits: an order on a range of addresses
  exactly if the range has at most 2^31 bytes (`MemIndex.OrderByWindow`, `MemIndex.AliasedAddresses`).
- Reversing an overwrite fault is exact for all memories exactly if its mask is zero beyond the
  overwritten bytes (`MemoryRuns.OverwriteReversible`). The other faults leave nothing behind, in any run over
  any memory, exactly if no two of them mask a common bit (`MemoryRuns.NoTraceExactlyIfDisjoint`, `MemoryRuns.OverlapStays`).
- The Unicorn worker subtracts the instruction count from a deadline instead of adding it, which is
  right only at count 0 (`UnicornWorker.DeadlineIsRight`), its undo drops leading zero bytes
  (`UnicornWorker.UndoExact`, `UnicornWorker.UndoableByModel`), and the size of a fault is one byte too
  many exactly if the logarithm of its mask was rounded up to a multiple of 8 (`UnicornWorker.FaultSizeExact`).

## Model

| member | source | states |
|---|---|---|
| Trace.OccurrenceIsUnique | calculate_trigger.py:75-96 | the k-th execution of an address has one position on the flat trace |
| Trace.CoversSameInstruction | goldenrun.py:309-345 | two TBs that cover one byte decode the same instruction there |
| Trace.HitsAreOccurrences | calculate_trigger.py:75-96 | the number of executed TBs that cover an instruction is its number of executions on the flat trace |
| Trace.RankInTb | calculate_trigger.py:164-203 | the covering TBs up to the k-th give the rank of an instruction in that TB on the flat trace |
| Trace.FindRow | calculate_trigger.py:27-29 | the first row with an id is the row of that id |
| HitCounting.RowKinds | goldenrun.py:309-345 | own row, enclosing TBs and tails that reach down to an instruction are exactly the TBs that cover it |
| HitCounting.CorrectedCount | calculate_trigger.py:164-203 | a TB's own count plus the super-TB and sub-TB corrections is the number of executed TBs that hold the instruction |
| TriggerSearch.AlignToInstruction | calculate_trigger.py:32-44 | an address is aligned to the instruction that holds it, and to none exactly if the TB does not cover it |
| TriggerSearch.FindFault | calculate_trigger.py:75-96 | finds the TB execution and instruction of an occurrence, and nothing exactly if there are too few |
| TriggerSearch.FoundIsTarget | calculate_trigger.py:75-96 | what is found is the one flat position with that rank |
| TriggerSearch.TooFewOccurrences | calculate_trigger.py:83-87 | with too few covering TBs no flat position is the one asked for |
| TriggerSearch.LifespanFromStart | calculate_trigger.py:47-72 | the number of instructions from trace start up to and including the target |
| TriggerSearch.TriggerHitcounter | calculate_trigger.py:164-203 | the hit counter written back is the rank of the trigger instruction's flat position |
| TriggerSearch.StepInTb | calculate_trigger.py:131-147 | one step of the backward walk inside the fault's TB keeps the distance to the trigger position |
| TriggerSearch.StepOverTb | calculate_trigger.py:148-163 | one step over an earlier TB keeps the distance to the trigger position |
| TriggerSearch.WalkBack | calculate_trigger.py:104-205 | from a fault at flat position p with offset -n the walk ends at p - n with its rank, or is clamped to trace start |
| TriggerSearch.SearchForFaultLocation | calculate_trigger.py:99-205 | the search returns flat[p - n] and its rank, the clamped answer if n > p, and address -1 if the occurrence does not exist |
| TriggerTable.ResolveFault | calculate_trigger.py:217-275 | one fault is resolved by its own search or by a remembered answer that is right for it, and the memory stays right |
| TriggerTable.CalculateTriggerAddresses | calculate_trigger.py:208-275 | every fault of the list gets the answer the search owes to it, through the cache |
| Filters.SortByLengthSorts | faultclass.py:335-340 | sorting by length keeps all filters and puts them in order |
| Filters.BuildFilters | faultclass.py:315-340 | one filter for each TB, its instructions from the last to the first, the longest TB first |
| Filters.FiltersAreTbs | faultclass.py:315-340 | the filters are the TBs' lists with their multiplicity, none missing, the lengths never rise, and of equally long ones that of the later TB comes first |
| Wildcard.Visit | goldenrun.py:248-303 | after each instruction the range counters and flags say what the flat trace says, and the instruction is faulted exactly if it is in the range |
| Wildcard.AnalyzeTb | goldenrun.py:305-333 | the corrections worked out for a TB are the counts of its super-TBs and of its tails by start address |
| Wildcard.HitcounterOf | goldenrun.py:335-348 | the corrections that apply to an instruction are added, no others |
| Wildcard.EmitFault | goldenrun.py:305-355 | the emitted fault carries the instruction and the rank of its own flat position |
| Wildcard.Finish | goldenrun.py:360-376 | the counters tell at the end whether start and end of the range were met |
| Wildcard.GenerateWildcardFaults | goldenrun.py:204-378 | the faults are those of the flat positions up to where generation stops; it fails exactly if start or end is not met |
| Replay.FiresAtOccurrence | faultplugin/faultplugin.c:564-588 | counting hits down along a trace reaches zero exactly at the occurrence with that rank; that the callback counts so is `ReplayRuns.FiresWhereCounted` |
| Replay.SearchedTriggerFires | calculate_trigger.py:99-205 | on the trace the trigger of a fault at p with offset -n counts down to zero at p - n and nowhere else |
| Replay.ClampKeepsEnd | calculate_trigger.py:116-129 | a fault clamped to trace start lives no longer than asked for, at least p + 1, and its lifespan on the trace ends at the same position |
| Replay.RejectedExactlyIf | calculate_trigger.py:248-254 | a fault is given up without a search exactly if its lifespan on the trace would end before the fault's own position |
| Replay.FaultsExact | goldenrun.py:204-378 | one fault for each position of the range that is not excluded, in trace order, with that position's rank |
| Replay.RankSelectsPosition | goldenrun.py:335-348 | select undoes rank: the hit counter of any position has enough hits for `find_fault`, and whatever it finds is the instruction and the TB execution of that position |
| Replay.WildcardTriggersFire | goldenrun.py:381-426 | a wildcard fault resolved with offset -n has its trigger n instructions before its own position, or the clamped answer with the lifespan that is left |
| Replay.StartedFromOccurrence | goldenrun.py:266-283 | the range is open after position s exactly from the start's occurrence on |
| Replay.EndIsAfterStart | goldenrun.py:253-261 | the range has its end exactly where the end's occurrence comes strictly after the start's |
| Replay.StopsWithRange | goldenrun.py:350-357 | generation stops with the range exactly if its end is faulted or its TB has nothing more to fault; otherwise one fault too many |
| Replay.StopConditionIsExclusion | goldenrun.py:300-303 | outside local mode that condition speaks of the excluded regions only |
| Replay.ExcludedEndOverruns | goldenrun.py:300-357 | a two-instruction trace on which the excluded range end lets the next instruction in |
| Replay.RangeExact | goldenrun.py:248-298 | from an execution of the start to a later, not excluded one of the end: exactly the closed interval without the excluded regions is faulted |
| Replay.LocalRangeExact | goldenrun.py:285-298 | in local mode exactly the positions from a start to the next end are faulted, without the excluded regions |
| ReplayRuns.FiresWhereCounted | faultplugin/faultplugin.c:564-588 | along a trace the plugin injects a fault where counting its hits down says, nowhere else |
| ReplayRuns.EndsWhereCounted | faultplugin/faultplugin.c:595-614 | along a trace the plugin reverses a transient fault where its lifespan ends, nowhere else |
| ReplayRuns.SearchedFaultIsInjected | calculate_trigger.py:99-205 | a fault at flat position p with offset -n is injected by the plugin at p - n and nowhere else, and reversed its lifespan later |
| ReplayRuns.WildcardFaultIsInjected | goldenrun.py:381-426 | every wildcard fault that is not clamped is injected by the plugin n instructions before its own position and nowhere else |
| ReplayRuns.ZeroHitsInjection | faultplugin/faultplugin.c:536-546 | with hit counter 0 an instruction fault is injected by the first TB, any other fault never |
| ReplayRuns.ClampedFaultEnds | calculate_trigger.py:116-129 | a clamped instruction fault is in effect when the trace begins and is reversed where the fault asked for would have ended |
| ReplayRuns.TraceCanBeFollowed | faultplugin/faultplugin.c:564-697 | for every configuration and trace some run of the plugin has the hits of the trace for each fault that keeps its trigger, and the live callbacks of the trace for each transient fault that comes into effect, which is reversed its lifespan later |
| ReplayRuns.ComesAndGoes | faultplugin/faultplugin.c:564-614 | a transient fault that keeps its trigger is, in some run along the trace, injected at the occurrence its hit counter names and reversed its lifespan later |
| TraceFilter.MatchHeads | faultclass.py:390-398 | shift and intersect finds exactly the complete consecutive runs that match a filter |
| TraceFilter.FilterFunction | faultclass.py:390-410 | all rows of each run but its head are invalidated and every counter is reduced by the rows lost |
| TraceFilter.FoldConserves | faultclass.py:382-410 | an id loses as many rows to a filter as its counter loses executions |
| TraceFilter.GoldenFiltersAreDistinct | faultclass.py:315-340 | no filter of a well-formed golden table repeats an address |
| TraceFilter.CountersStayInStep | faultclass.py:382-456 | over all filters without repeated addresses the counter minus the occurrences of an id is unchanged |
| TraceFilter.RowsThatStay | faultclass.py:449-452 | a TB row is dropped exactly if its id no longer occurs, and a row that stays counts what is left |
| TraceFilter.RowsInOrder | faultclass.py:449-452 | the rows that stay are those at the positions whose id still occurs, each once and in order |
| TraceFilter.FilterTb | faultclass.py:413-456 | survivors keep their order with dense positions; with a well-formed golden table and counters that count the trace, exactly the rows whose id still occurs are kept, in order, and count what is left |
| RoundTrip.FilterUndoesStepping | faultclass.py:413-456 | filtering a partly single-stepped trace gives its block trace back exactly if no block row extends a stepped TB |
| RoundTrip.SegmentSurvivors | faultclass.py:390-410 | of the rows logged for one executed TB at most the oldest survives |
| RoundTrip.ExtendedSegmentFolds | faultclass.py:390-410 | where a block row extends a stepped TB, that TB is lost from the filtered trace |
| RoundTrip.SteppedRunFoldsBack | faultclass.py:413-456 | a run stepped throughout folds back to its block trace |
| PluginRuns.InjectResult | faultplugin/fault_injection.c:37-75 | injection never meets a full table, clears its own slot and gives a transient fault the next live entry |
| PluginRuns.FirstTbKeeps | faultplugin/faultplugin.c:528-551 | the first TB keeps the invariant from fault to fault |
| PluginRuns.TriggerKeeps | faultplugin/faultplugin.c:564-588 | a trigger callback keeps the invariant: it injects on the last hit only |
| PluginRuns.ExecKeeps | faultplugin/faultplugin.c:595-614 | a live callback keeps the invariant: it reverses on the last one only |
| PluginRuns.EvaluateLivesKeeps | faultplugin/faultplugin.c:671-697 | no entry of the live table has lifetime 0, so evaluating the entries changes the registered callbacks only |
| PluginRuns.TranslationWatches | faultplugin/faultplugin.c:671-697 | after a translation in a started plugin every transient fault in effect has its live callback |
| PluginRuns.RunKeeps | faultplugin/faultplugin.c:1168-1190 | every reachable state satisfies the invariant |
| PluginRuns.TablesNeverOverflow | faultplugin/faultplugin.c:502-516 | the overflow and zero-lifetime branches are never taken |
| PluginRuns.HistoryCountsEvents | faultplugin/faultplugin.c:564-614 | the histories count the callbacks of the run |
| PluginRuns.InjectedAndReversedOnTime | faultplugin/faultplugin.c:528-614 | each fault is injected at most once, by its last hit or the first TB, and reversed at most once, by the last of its live callbacks |
| PluginTriggers.FirstTbTable | faultplugin/faultplugin.c:536-551 | which slots the first TB clears and which faults are outstanding afterwards |
| PluginTriggers.FirstTbKeepsTable | faultplugin/faultplugin.c:536-551 | the trigger table is intact after the first TB exactly if the faults at the head of the list are not outstanding |
| PluginTriggers.TableStaysIntact | faultplugin/faultplugin.c:480-483 | the slots of outstanding faults are intact in every state of every run exactly if the head of the list is spared |
| PluginTriggers.NumberTaken | faultplugin/fault_injection.c:71-74 | in a reachable state only a fault that the configuration lets take number i has it, while fault i is outstanding |
| PluginTriggers.NumberGetsTaken | faultplugin/fault_injection.c:71-74 | a fault that can take number i takes it in some run, and the lookup for fault i then finds an earlier fault |
| PluginTriggers.TableAgrees | faultplugin/faultplugin.c:432-483 | in every state of every run slot i holds the trigger of outstanding fault i and the lookup returns that fault, if and only if the configuration spares the head of the list and leaves the numbers free |
| PluginTriggers.TranslationArms | faultplugin/faultplugin.c:1089-1116 | a translation in a started plugin arms no fault whose trigger lies outside the TB and, where the table agrees in every run, arms every outstanding fault whose trigger lies in it |
| PluginTriggers.FirstTbTransientSteals | faultplugin/faultplugin.c:539-544 | a configuration in which a transient fault at the first TB wipes another fault's trigger |
| PluginTriggers.SharedTriggerIsLost | faultplugin/fault_list.c:142-157 | a configuration with a run in which a shared trigger address makes the lookup return the wrong fault |
| PluginTriggers.SharedTriggerIsKept | faultplugin/fault_list.c:142-157 | without its third fault that configuration never goes wrong |
| PluginRequests.InjectConserves | faultplugin/fault_injection.c:69-74 | one holder of a request less, the new holders more |
| PluginRequests.FirstTbKeepsRequests | faultplugin/faultplugin.c:528-551 | the first TB keeps the requests equal to their holders |
| PluginRequests.TriggerKeepsRequests | faultplugin/faultplugin.c:564-588 | a trigger callback keeps the requests equal to their holders |
| PluginRequests.ExecKeepsRequests | faultplugin/faultplugin.c:595-614 | a live callback keeps them equal, and the reversal's request is there to give back |
| PluginRequests.CheckKeepsRequests | faultplugin/tb_faulted_collection.c:125-148 | capturing faulted TBs keeps them equal while the marker is not listed or nothing was captured yet |
| PluginRequests.CheckCaptures | faultplugin/tb_faulted_collection.c:125-148 | a check that is not skipped captures exactly the faulted TBs that lie in the TB and saves the assembly of the newest entry of each, and of no address outside the TB |
| PluginRequests.TranslationCaptures | faultplugin/faultplugin.c:1168-1195 | the same of a translation in any reachable state |
| PluginRequests.MissedExactlyIf | faultplugin/tb_faulted_collection.c:125-131 | a translation misses a faulted TB that waits in it exactly if the plugin has started, the counter of served entries equals that of all, and one in the TB is not served |
| PluginRequests.CapturedWhenTranslated | faultplugin/tb_faulted_collection.c:125-148 | in every run that translates no TB with the marker address each faulted TB is captured as soon as it is translated |
| PluginRequests.ServedTwiceIsMissed | faultplugin/tb_faulted_collection.c:136-146 | a run in which an entry served twice lets the counter reach the number of entries, so that another faulted TB is missed |
| PluginRequests.DebtGrows | faultplugin/tb_faulted_collection.c:81-102 | serving a captured entry again, with its marker in the list, gives back a request that nobody held |
| PluginRequests.LaterFaultBreaks | faultplugin/tb_faulted_collection.c:136-146 | two injectable instruction faults, one at the marker, one injected by its trigger: some run does not conserve the requests |
| PluginRequests.ApartFaultsBreak | faultplugin/tb_faulted_collection.c:136-146 | two instruction faults of the first TB, only one at the marker: some run does not conserve the requests |
| PluginRequests.RequestsAreConserved | faultplugin/singlestep.c:48-69 | requests equal imminent faults plus live transient faults plus uncaptured faulted TBs, none given back in vain, in every state of every run, if and only if the marker is harmless |
| PluginRequests.SteppingOnDemand | faultplugin/singlestep.c:34-46 | then stepping is on exactly while a fault is imminent or in effect or a faulted TB waits |
| PluginRequests.SentinelBreaksConservation | faultplugin/tb_faulted_collection.c:136-146 | with a fault at the marker address stepping is off while a faulted TB still waits |
| PluginRequests.LoneMarkerConserves | faultplugin/tb_faulted_collection.c:136-146 | a lone fault at the marker address does no harm |
| FaultPlugin.FaultList.AddFault | faultplugin/fault_list.c:50-80 | a fault is inserted at the head of the list |
| FaultPlugin.RegisterFaultTriggerAddresses | faultplugin/faultplugin.c:464-474 | slots and numbers are filled in list order |
| FaultPlugin.Plugin.constructor | faultplugin/faultplugin.c:432-478 | the tables of a list of faults are those of the start state |
| FaultPlugin.Plugin.AddSinglestepReq | faultplugin/singlestep.c:48-56 | refines the step that adds a request |
| FaultPlugin.Plugin.RemSinglestepReq | faultplugin/singlestep.c:58-69 | refines the saturating removal of a request |
| FaultPlugin.Plugin.TbFaultedRegister | faultplugin/tb_faulted_collection.c:104-123 | refines the registration of a faulted TB, within the bounds of its table |
| FaultPlugin.Plugin.InsertFaultedAssembly | faultplugin/tb_faulted_collection.c:81-102 | the list search captures the newest entry of the address |
| FaultPlugin.Plugin.CheckTbFaulted | faultplugin/tb_faulted_collection.c:125-148 | the loop over the active entries refines the captures of the state machine |
| FaultPlugin.Plugin.RegisterLiveFaultsCallback | faultplugin/faultplugin.c:502-516 | refines the entry into the live table and returns its index |
| FaultPlugin.Plugin.InjectFault | faultplugin/fault_injection.c:37-75 | refines injection on the linked list, the arrays and the counters |
| FaultPlugin.Plugin.ReverseFault | faultplugin/fault_injection.c:86-115 | refines reversal |
| FaultPlugin.Plugin.HandleFirstTbFaultInsertion | faultplugin/faultplugin.c:528-554 | the walk over the list refines the first-TB step, every array access within bounds |
| FaultPlugin.Plugin.TriggerInsnCb | faultplugin/faultplugin.c:564-588 | refines the trigger callback and keeps the invariant |
| FaultPlugin.Plugin.TbExecCb | faultplugin/faultplugin.c:595-614 | refines the live callback and keeps the invariant |
| FaultPlugin.Plugin.GetFaultStructByTrigger | faultplugin/fault_list.c:142-157 | the list search returns the first fault with this address and number |
| FaultPlugin.Plugin.EvaluateTrigger | faultplugin/faultplugin.c:625-651 | returns the callback of the fault the lookup finds on exactly the instructions that hold its trigger address |
| FaultPlugin.OneHolds | faultplugin/faultplugin.c:637-648 | in a TB whose instructions lie one behind the other exactly one of them holds an address of the TB |
| FaultPlugin.OneInstruction | faultplugin/faultplugin.c:625-651 | so a fault that is found has its trigger callback on exactly one instruction of the TB, the one that holds its trigger |
| FaultPlugin.Plugin.EvalLiveFaultCallback | faultplugin/faultplugin.c:671-697 | returns the live callback of the entry's fault on every instruction of the TB, in order, if the fault has lifetime left, and none otherwise |
| FaultPlugin.Plugin.HandleTbTranslateEvent | faultplugin/faultplugin.c:1089-1116 | the callbacks of a TB: each fault in effect on all its instructions, each fault whose slot lies in the TB, and that is found, where its trigger is held; no others |
| FaultPlugin.Plugin.TranslationEvent | faultplugin/faultplugin.c:1168-1190 | refines the whole translation step, returns these callbacks, none for the first TB, and keeps the invariant |
| MemoryFault.ProcessBits | faultplugin/fault_injection.c:271-364 | of the window's bits SET0 clears, SET1 sets and TOGGLE flips exactly the masked ones, and their old values are saved |
| MemoryFault.ProcessOverwrite | faultplugin/fault_injection.c:237-263 | the first bytes, at most 16, become those of the mask and are saved, all others stay, and the rest of the restore mask is zero |
| MemoryFault.InjectMemoryFault | faultplugin/fault_injection.c:200-226 | memory becomes what the model of the fault means bit by bit, nothing outside the window changes, and the restore mask is the saved one |
| MemoryFault.ProcessReverseFault | faultplugin/fault_injection.c:296-313 | the window gets its masked bits from the restore mask |
| MemoryRuns.ReversalIsExact | faultplugin/fault_injection.c:296-313 | under any interleaving, overlapping or not, reversal restores the masked bits to their pre-injection values and touches no other bit |
| MemoryRuns.InjectKeeps | faultplugin/fault_injection.c:271-364 | injecting a fault apart from those in effect leaves every free bit ideal and saves the ideal masked bits |
| MemoryRuns.ReverseKeeps | faultplugin/fault_injection.c:296-313 | reversing a fault makes its bits ideal again, whatever overlaps its window |
| MemoryRuns.WriteKeeps | faultplugin/fault_injection.c:296-313 | a program write reaches the bits no fault holds |
| MemoryRuns.NothingRemains | faultplugin/fault_injection.c:200-364 | if faults in effect at one time mask different bits, the memory is the ideal memory whenever no fault is in effect |
| MemoryRuns.FaultsLeaveNoTrace | faultplugin/fault_injection.c:200-364 | if the program wrote no byte a fault held, memory ends as without faults |
| MemoryRuns.OverlapStays | faultplugin/fault_injection.c:271-313 | any two faults that mask a common bit, reversed in the order of injection, leave a changed bit in some memory |
| MemoryRuns.NoTraceExactlyIfDisjoint | faultplugin/fault_injection.c:200-364 | SET0, SET1 and TOGGLE faults leave nothing behind in any run over any memory if and only if no two of them mask a common bit |
| MemoryRuns.OverwriteReversible | faultplugin/fault_injection.c:237-313 | untouched overwrite faults are reversed exactly if and only if the mask is zero beyond the overwritten bytes |
| MemoryRuns.TouchedByte | faultplugin/fault_injection.c:303-307 | a byte changed since is restored exactly if it has no bit outside mask and old value |
| AvlHeight.SizeByHeight | faultplugin/lib/avl.h:49-52 | an AVL tree of h levels has at least Fib(h + 2) - 1 nodes |
| AvlHeight.HeightBound | faultplugin/lib/avl.h:49-52 | fewer than 2^64 nodes make at most 91 levels, so stacks of 92 entries suffice |
| AvlFocus.FixedLeftBalanced | faultplugin/lib/avl.c:126-154 | a rotation at a node two levels too high on the left balances it; it loses a level unless the child was even |
| AvlFocus.FixedRightBalanced | faultplugin/lib/avl.c:155-186 | the same on the right |
| AvlFocus.FixedLeftSame | faultplugin/lib/avl.c:126-154 | the rotation keeps the nodes and their order |
| AvlFocus.FixedRightSame | faultplugin/lib/avl.c:155-186 | the same on the right |
| AvlFocus.FixLeft | faultplugin/lib/avl.c:126-154 | the pointer surgery and balances on the heap give the rotated tree |
| AvlFocus.FixRight | faultplugin/lib/avl.c:155-186 | the same on the right |
| AvlGrowth.GrownAtTop | faultplugin/lib/avl.c:119-126 | after an insertion only the lowest uneven node can be out of balance, by one level, and then its higher child is not even |
| AvlShrink.FrameShrinks | faultplugin/lib/avl.c:280-383 | the balance a node shows after losing a level below tells whether it is balanced, lower, or to be rotated |
| AvlShrink.WithSuccessor | faultplugin/lib/avl.c:246-275 | with the in-order successor in its place the order lacks just the deleted node and one level is missing at the path's end |
| AvlTable.AvlTable.Find | faultplugin/lib/avl.c:60-80 | returns an equal item exactly if the tree has one |
| AvlTable.AvlTable.Descend | faultplugin/lib/avl.c:97-111 | the walk down ends at an equal item or at the free place of the item, directions cached from the lowest uneven node |
| AvlTable.AvlTable.UpdateBalances | faultplugin/lib/avl.c:119-123 | exactly the balances from that node down to the new one change, by one towards it |
| AvlTable.AvlTable.Rebalance | faultplugin/lib/avl.c:125-190 | the rotated subtree hangs in the old one's place and the whole tree is balanced |
| AvlTable.AvlTable.Probe | faultplugin/lib/avl.c:85-191 | keeps order, stored balances and count; adds exactly one node where the order wants it, or nothing if an equal item is there |
| AvlTable.AvlTable.Insert | faultplugin/lib/avl.c:197-202 | nothing for a new item, otherwise the equal item that was there |
| AvlTable.OneItemMore | faultplugin/lib/avl.c:85-191 | one node more is exactly one item more |
| AvlDelete.FindSuccessor | faultplugin/lib/avl.c:253-263 | the walk to the leftmost node of the right subtree, its path on the stack |
| AvlDelete.ReplaceBySuccessor | faultplugin/lib/avl.c:246-275 | the successor takes place, subtrees and balance of the deleted node |
| AvlDelete.Unlink | faultplugin/lib/avl.c:239-276 | in all three cases the order lacks just the node and the stack leads to the missing level |
| AvlDelete.ShrinkStep | faultplugin/lib/avl.c:281-383 | one step up keeps the order and either ends the loss of height or passes it on |
| AvlDelete.ShrinkUp | faultplugin/lib/avl.c:280-383 | the loop up the stack balances the whole tree |
| AvlDelete.Delete | faultplugin/lib/avl.c:224-388 | removes exactly the equal node, keeps order, stored balances and count; the stack never overflows |
| AvlDestroy.OnceEach | faultplugin/lib/avl.c:821-844 | no node occurs twice in the order |
| AvlDestroy.SpineGrows | faultplugin/lib/avl.c:836-840 | a rotation brings one more node on the right spine |
| AvlDestroy.Destroy | faultplugin/lib/avl.c:821-844 | terminates and frees every node exactly once in ascending order |
| MemIndex.WindowOrders | faultplugin/faultplugin.c:175-188 | on windows of 2^31 bytes the comparator is a total order |
| MemIndex.OrderByWindow | faultplugin/faultplugin.c:175-188 | on all addresses of a range the narrowed difference is an order exactly if the range has at most 2^31 bytes |
| MemIndex.AliasedAddresses | faultplugin/faultplugin.c:175-188 | addresses 2^32 apart count as one |
| MemIndex.MemIndex.MemAccess | faultplugin/faultplugin.c:214-234 | after any accesses: one record for each pair of instruction and address, with size and direction of its first access, its counter the number of accesses, list and tree the same |
| MemIndex.CountersAddUp | faultplugin/faultplugin.c:214-234 | the counters add up to the number of accesses |
| TbInfo.TbTable.AddTbInfo | faultplugin/tb_info_data_collection.c:165-209 | one record for each base address, with the bytes and instructions of its first translation; neither error exit is taken |
| TbInfo.TbOrders | faultplugin/tb_info_data_collection.c:85-96 | the comparator is a total order on all records, that of their base addresses |
| ExecOrder.RingLog.Event | faultplugin/tb_exec_data_collection.c:226-259 | the ring holds the last 100 executions with their positions, through every wrap-around |
| ExecOrder.RingLog.Dump | faultplugin/tb_exec_data_collection.c:95-152 | the dump in ring mode is the last entries of the whole history, oldest first, each with the base address of its TB and its position |
| ExecOrder.ListLog.Event | faultplugin/tb_exec_data_collection.c:245-256 | the list grows by one node, linked both ways |
| ExecOrder.ListLog.Dump | faultplugin/tb_exec_data_collection.c:153-211 | back to the first and forward again dumps the whole history in order |
| ExecOrder.DumpBoth | faultplugin/tb_exec_data_collection.c:90-259 | for one run the ring dump is the end of the list dump |
| UnicornWorker.UndoExact | emulation_worker/src/hooks/util.rs:95-97 | the undo gives all bytes back exactly if the leading zero bytes of the saved value are zero now |
| UnicornWorker.FaultyMeans | emulation_worker/src/hooks/util.rs:54-65 | bit by bit: Set0 clears and Set1 sets the masked bits, Toggle flips the bits up to the highest one that is set, Overwrite puts the mask in place of the data |
| UnicornWorker.FaultSizeExact | emulation_worker/src/hooks/util.rs:132-138 | the size is the mask's number of bytes, or one more exactly if its logarithm was rounded up to a multiple of 8; for Overwrite it is the given number of bytes |
| UnicornWorker.UndoableByModel | emulation_worker/src/hooks/util.rs:54-65 | whatever the size, Set0 and Toggle can always be undone, Set1 and Overwrite exactly if the mask spares the leading zero bytes |
| UnicornWorker.ToggleIgnoresMask | emulation_worker/src/hooks/util.rs:59-62 | the toggle model does not depend on the mask |
| UnicornWorker.StoredDeadline | emulation_worker/src/hooks.rs:260-267 | the stored deadline is lifespan minus count, or wraps around |
| UnicornWorker.DeadlineIsRight | emulation_worker/src/hooks.rs:260-267 | it is count plus lifespan exactly if the count is 0 |
| UnicornWorker.Worker.FaultHook | emulation_worker/src/hooks.rs:175-267 | a fault is injected by its last hit only, its bytes become what the model means and all others stay; its queue entry holds the old bytes and never replaces another |
| UnicornWorker.Worker.Peek | emulation_worker/src/hooks/util.rs:78-79 | the entry with the highest priority |
| UnicornWorker.Worker.UndoFaults | emulation_worker/src/hooks/util.rs:68-110 | at most one fault is undone, one with the earliest stored deadline, never before it |
| UnicornWorker.Worker.SingleSteps | emulation_worker/src/hooks.rs:106-134 | over any number of single steps nothing is undone early and each step past all deadlines takes one entry |
| UnicornWorker.StepMore | emulation_worker/src/hooks.rs:106-134 | one more single step extends that statement |
| Campaign.Collect | hdf5logger.py:587-656 | the receive loop ends with the message that completes all experiments and awaited messages, and not at all if that never comes |
| Campaign.CompleteStays | hdf5logger.py:598-656 | later messages do not undo completeness |
| Campaign.ReapFinished | controller.py:888-925 | removing while enumerating is the sweep that skips the entry after a removed one |
| Campaign.SweepHalves | controller.py:888-925 | a sweep removes no living worker and leaves at most half of the dead ones |
| Campaign.SweepSteps | controller.py:888-925 | the scheduler's steps over one sweep alone end at the top of its loop with the list that `ReapFinished` answers |
| Campaign.OneRound | controller.py:818-925 | so one round, after a start or without, is `ReapFinished` on the list with the worker just started |
| Campaign.RunKeeps | controller.py:801-925 | the invariant of the protocol holds in every reachable state |
| Campaign.AlwaysBounded | controller.py:818-866 | experiments start once and in order, workers stay within their number, queue plus results owed never exceeds max(initial, depth + workers - 1) |
| Campaign.EveryExperimentOnce | controller.py:814-925 | when the scheduler leaves, each experiment is queued, collected or lost, exactly one of these |
| Campaign.MessagesInOrder | controller.py:814-925 | messages are not lost, doubled or reordered between the workers and the collector |
| Campaign.CanLeave | controller.py:801-925 | with all experiments started and all workers dead, sweeps alone let the scheduler leave |
| Campaign.FinishesExactlyIf | controller.py:801-925 | from a state that keeps the invariant the scheduler can leave exactly if nothing is left to start or a worker and a place in the queue are allowed |
| Campaign.EveryRunCanFinish | controller.py:801-925 | every such run can be continued until the scheduler has left and the queue is empty or the collector complete, with no further result lost |
| Campaign.CollectorEnds | hdf5logger.py:587-656 | with the scheduler gone and the queue empty the collector has ended exactly if no result was lost and every awaited message came |

## Left out

- QEMU, Unicorn, Capstone and the process machinery: TB translation, instruction execution and callbacks are events; memory is a byte array.
- Pipes, protobuf, HDF5 tables, the command line, backups, log strings, RAM sampling and the memory-management estimate (the scheduler may hold back at any time instead).
- Assembler strings: a TB carries its ascending instruction addresses, so sorting them in `build_filters` and `find_fault` changes nothing.
- Filters.BuildFilters: the filters are values, so that `filter_function` reversing a filter in place is seen only inside that call.
- Masks and byte counts by instruction width in wildcard faults: dictionary lookups beside the range machine.
- The fault list of lists is one flat list in `TriggerTable`; faults of one experiment are resolved in the same order.
- TriggerSearch.SearchForFaultLocation: needs an offset below 0 and an occurrence of at least 1, which its only caller guarantees.
- Start and end points of the replay, register and memory dumps, the memory map: data copying beside the fault lifecycle.
- FaultPlugin.Plugin.constructor: the number of faults in the control message is the length of the list; the exit for an empty list and malloc failures are not modelled.
- The plugin's memory effects are in `MemoryFault` and `MemoryRuns`, apart from its lifecycle; that a read or write of guest memory can fail is not modelled.
- Register faults: the same per-byte models on the eight bytes of a register, computed partly in `int` in the source.
- AvlTable.AvlTable.Probe: the count is not taken modulo 2^64, and the parts of the function are methods of their own; insertion and deletion share the code of a rotation, which the source writes out twice.
- AvlDelete.Delete: the successor's left link is set after the link of its parent, two independent writes which the source does in the other order.
- AVL traversers, `avl_copy` and `avl_replace`: not used by the plugin.
- MemIndex.MemIndex.MemAccess: memory accesses outside the windows are excluded by its precondition, because the comparator is no order there.
- ExecOrder.DumpBoth: runs both modes on the same TBs one beside the other, so each TB's own execution counter advances twice.
- The sizes and addresses of translated TBs are not limited, so a run may translate TBs that no program has.
- Unicorn registers, which are restored as whole 64-bit values; re-entry after an instruction fault; the logs.
- UnicornWorker.Worker.FaultHook: a mask must fit the bytes it overwrites, as otherwise the source aborts; the binary logarithm of the mask is a parameter between the multiples of 8 around it.
- Campaign.Collect: groups that exist already in the output file make the source raise an error; the stop signal and timeouts are not modelled.
- Fairness of the campaign: that it can always go on to its end is proved, that workers, scheduler and collector get their turns is left to the operating system.
