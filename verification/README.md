# Verified models of the stop_trading core algorithms

A Dafny project that models the self-contained algorithms and protocols of the trading system and
proves what they keep, over all inputs, runs and interleavings. `dafny verify dfyconfig.toml` checks
everything.

| module | what it models |
|---|---|
| `FeatureDag`, `FeatureDagExact` | the feature DAG: depth-first topological sort on every edit, and the executor; the exact conditions under which execution has its meaning and ignores the registration order |
| `TxGraph`, `TxGraphRuns`, `MixerReach`, `MixerScore`, `MixerDetector` | the transaction graph with pruning, the bounded breadth-first search for mixers, the risk score and the blocking decision |
| `PipelineRun`, `PipelineOutcome` | CI/CD runs as interleaved worker, trigger and cancel steps, and what they record of what happened |
| `TicketRing` | the ticketed ring buffer as interleaved atomic steps |
| `BacktestJobs` | the backtest job manager, one event per lock-protected section |
| `Drawdown` | the strategy, equity and drawdown kernels and the walk-forward splits |
| `RingHistory`, `RegimeEncoder`, `TemporalAttention` | circular buffers against the plain sequence of everything written |
| `BloomFilter` | the sanctions Bloom filter, bytes against a set of bit indices |
| `OrderBook` | a book side's cached 64-bit volume against the sum of its levels |
| `SpreadWindow` | rolling sums against the values a bounded deque holds |
| `TradeJournal` | the journaling pipeline against the sequence of accepted events |
| `Common` | shared definitions |

Objects the system updates in place are classes whose methods are proved to do what a function on
values does; the theorems are lemmas about those functions. Protocols are step functions on values and
theorems over every sequence of steps. Floating point is modelled by exact reals, clocks, digests and
stage callbacks by parameters. A Python exception is a Boolean or a constructor in the result, together
with the state the exception leaves behind.

## What the proofs found

- Pruning deletes dictionary keys that a node that never sent, or never received, does not have. The
  exception then surfaces from `add_transaction`; `AddTransactionOutcome` gives the exact condition for it and
  the exact condition under which it corrupts the graph. Over all runs from the empty graph that happens
  exactly for the limits from 10 on (`ConsistentExactly`), for each of them after a run of good graphs (`PruneCorrupts`).
- `mark_as_mixer` adds the address to the mixer set before the flag update raises on an unknown address. On
  construction with `auto_populate`, the default, the detector marks addresses of an empty graph, so
  it always raises (`PopulatingEmptyGraphRaises`).
- The score is an average, so an address next to a mixer is allowed as soon as it also reaches a mixer
  further away (`DecisionExact`).
- A cancel that lands just before the worker's first or last status write has no effect at all
  (`CancelEffective`).
- `submit_job` checks memory against what runs but reserves nothing (`UngatedExceeds`); usage stays within the
  limits exactly on the runs in which every start is gated by `should_accept_job` (`WithinIffGated`).
- Resubmitting the id of a running job makes the second `run_job` raise KeyError after its release and release
  again in the handler, which takes usage below zero (`LiveResubmissionOverReleases`); the accounting holds exactly on
  the runs without such a resubmission and without a reset while a job runs (`AccountsExactly`).
- A dependency cycle through two distinct nodes makes results depend on the registration order, and any cycle,
  a self-dependency included, takes the meaning from execution (`OrderIndependenceExact`, `MeaningExact`). Nothing reports either.
- A consumer whose slot was stamped over before it looked spins as long as the 64-bit counter does not wrap, and
  every other one can still get out without a wrap (`LappedForever`, `PassesUnlessLapped`); two publishers that overlap in a slot leave it stamped by one with the data of the other
  (`OverlapMixes`).
- The backward walk misses an in-window event exactly when a later event within reach lies outside the window
  (`RunIsWholeWindow`).
- An address listed with its "0x" prefix is not looked up when it is checked without (`PrefixListedIsMissed`).
- The constructor of `OFACChecker` declares `evan_list_path` and reads `evm_list_path`
  (python/compliance/ofac_checker.py:161 and 174), a NameError on every call; the model's constructor
  always succeeds, so that `check_evm` can be modelled.
- The windows that `register_pair` creates subtract only once, and any constant spread other than zero makes
  their variance negative from the 1002nd value on (`SignExact`, `RegisteredPairGoesNegative`).
- The regime features are stale after every update that just wrapped the buffer (`ReportedExactly`, `StaleCurrent`).
- Test windows leave samples out exactly when they are shorter than a step and the rest after the last whole
  step together (`AllTestedExactly`).
- `stop` never writes the batch the writer holds when it is cancelled: exactly that batch is missing
  (`StopLosesInHand`, with `StopLosesAnEvent` as an instance).

Where documentation and code disagree the model follows the code: the risk score of a non-mixer never
exceeds 0.5, although its documentation announces a range up to 1.0; `events_written` counts accepted events, and the
"rolling" sums of a registered pair do not roll.

## Model

| member | source | states |
|---|---|---|
| `FeatureDag.Visit` | python/features/feat_mod.py:113-122 | visiting never forgets a visited node, which is what makes the recursion terminate on cyclic graphs too |
| `FeatureDag.VisitAllKeepsInv` | python/features/feat_mod.py:113-125 | after visiting a list of nodes: everything visited is ordered or on the call stack, nothing twice, and on acyclic graphs the order is topological so far |
| `FeatureDag.BackEdgeIsCycle` | python/features/feat_mod.py:118-120 | a dependency found on the call stack closes a cycle |
| `FeatureDag.TopologicalImpliesAcyclic` | python/features/feat_mod.py:108-109 | a topological order of all nodes rules cycles out |
| `FeatureDag.ExecutionOrderCorrect` | python/features/feat_mod.py:108-127 | on every graph the order is a duplicate-free permutation of the registered nodes, and it is topological if and only if the registered dependency graph is acyclic |
| `FeatureDag.EvaluationIsMeaning` | python/features/feat_mod.py:129-154 | on acyclic graphs with plain outputs, no shadowed inputs and local roots, execution gives the one and only solution of "every node is its transformer applied to its declared dependencies" |
| `FeatureDag.InsertionOrderIrrelevant` | python/features/feat_mod.py:124-154 | under the same conditions the order of registration does not change the results |
| `FeatureDag.CycleMakesOrderMatter` | python/features/feat_mod.py:113-154 | on a two-node cycle the registration order changes the results |
| `FeatureDagExact.MeaningExact` | python/features/feat_mod.py:108-154 | for every graph and registration order, execution gives all declarative transformers (on integers, already) their recursive meaning if and only if the registered dependency graph is acyclic |
| `FeatureDagExact.CountedAt` | python/features/feat_mod.py:129-154 | a node that counts its inputs ends up with the number of its dependencies that stand before it in the order |
| `FeatureDagExact.VisitAllLoopless` | python/features/feat_mod.py:113-122 | the search takes the same course with and without dependencies of nodes on themselves |
| `FeatureDagExact.VisitedExactly` | python/features/feat_mod.py:113-122 | on any graph, visiting a list visits exactly what can be reached from it past nothing visited before |
| `FeatureDagExact.SearchInTurn` | python/features/feat_mod.py:113-125 | names and dependencies are visited in turn: whatever part of a list comes first is ordered first, with exactly what it newly reaches, and a node follows what its dependencies reach |
| `FeatureDagExact.SearchFrom` | python/features/feat_mod.py:113-127 | the order begins with a stretch that holds everything the first registered node reaches, followed by that node |
| `FeatureDagExact.OrderIrrelevant` | python/features/feat_mod.py:108-154 | if no cycle passes through two distinct nodes, declarative results do not depend on the registration order, for values of any type |
| `FeatureDagExact.OrderIndependenceExact` | python/features/feat_mod.py:108-154 | declarative results are independent of the registration order if and only if no cycle passes through two distinct nodes |
| `FeatureDag.RemovalKeepsAcyclic` | python/features/feat_mod.py:96-105 | removing a node never introduces a cycle |
| `FeatureDag.WithoutExact` | python/features/feat_mod.py:98-103 | removing a node takes its own entry and the first mention of it in every other list, and nothing else |
| `Common.RemoveFirstExact` | python/features/feat_mod.py:101-103 | `list.remove` takes the first occurrence and keeps what stands before and after it |
| `FeatureDag.FeatureDAG.AddNode` | python/features/feat_mod.py:89-93 | new dictionaries, unchanged position of a replaced node, and an order recomputed for them |
| `FeatureDag.FeatureDAG.RemoveNode` | python/features/feat_mod.py:96-105 | the node goes, the first occurrence of its name leaves each dependency list, the order is recomputed; an unknown name changes nothing |
| `FeatureDag.FeatureDAG.ComputeExecutionOrder` | python/features/feat_mod.py:108-127 | the stored order is the depth-first order of the registered nodes |
| `FeatureDag.FeatureDAG.VisitNode` | python/features/feat_mod.py:113-122 | the recursive loop computes the specified visit and terminates |
| `FeatureDag.FeatureDAG.ExecuteNode` | python/features/feat_mod.py:134-150 | one round: the results are overlaid with what the node writes on the inputs it is shown |
| `FeatureDag.FeatureDAG.Execute` | python/features/feat_mod.py:129-154 | the loop evaluates the stored order; for any transformers each key holds what its last writer wrote or else the input's value, and on acyclic declarative graphs the results solve the recursive meaning |
| `FeatureDag.LastWriterWins` | python/features/feat_mod.py:129-154 | for any graph, order and transformers: under each key stands the value of the last node in the order that writes it, where a dictionary output writes each of its keys and any other output the node's own name; unwritten keys keep the input's value, and there are no other keys |
| `FeatureDag.InputsExact` | python/features/feat_mod.py:137-141 | a node without dependencies is shown all results so far, any other exactly those of its dependencies that exist |
| `TxGraph.RemoveNodeSucceeds` | python/compliance/mixer_detector.py:151-162 | removing a node that has both keys keeps every invariant and takes exactly the edges touching it |
| `TxGraph.RemoveNodeRaises` | python/compliance/mixer_detector.py:153-159 | removing a node that misses a key raises, and leaves the graph consistent if and only if the node has an adjacency key or no incoming edge |
| `TxGraph.RemoveAllConsistent` | python/compliance/mixer_detector.py:151-162 | a prune leaves a consistent graph if and only if its first blocked candidate has an adjacency key or receives only from candidates before it |
| `TxGraph.RemoveAllRaises` | python/compliance/mixer_detector.py:151-162 | a prune raises if and only if some candidate misses a key |
| `TxGraph.RemoveAllExact` | python/compliance/mixer_detector.py:151-162 | a prune that does not raise removes exactly its candidates and the edges touching them |
| `TxGraph.CandidatesExact` | python/compliance/mixer_detector.py:140-149 | a prune tries, oldest first, exactly the unflagged nodes with at most one receiver and at most one sender among the oldest tenth of the limit |
| `TxGraph.AddTransactionOutcome` | python/compliance/mixer_detector.py:43-62 | success, consistency afterwards, each with its exact condition; mixers and flagged nodes survive |
| `TxGraph.AddTransactionExact` | python/compliance/mixer_detector.py:43-62 | a successful transaction adds its endpoints and edge and takes away only the candidates of a prune that was due |
| `TxGraph.AddTransactionNodes` | python/compliance/mixer_detector.py:43-62 | after a successful transaction the remaining nodes keep their place, flags and score, and new endpoints come last, unflagged and with score 0 |
| `TxGraph.MarkAsMixerOutcome` | python/compliance/mixer_detector.py:64-68 | the graph stays consistent and the mixer set grows; of a known node only the mixer bit and the score change, to 1; every mixer stays flagged if and only if the address is a known node |
| `TxGraph.RunKeepsInvariant` | python/compliance/mixer_detector.py:43-68 | along every run, caught exceptions included, reverse adjacency stays the transpose of adjacency, endpoints known, the count right and every mixer flagged, if and only if each prune that is due is harmless and each mark hits a known node; on such runs no mixer is lost |
| `TxGraph.HistoryEnds` | python/compliance/mixer_detector.py:247-254 | a history is replayed to its end if and only if none of its transactions raises |
| `TxGraph.HistoryIsRun` | python/compliance/mixer_detector.py:247-254 | replaying runs its transactions in order, sender to receiver, up to and including the first that raises |
| `TxGraphRuns.PruneCorrupts` | python/compliance/mixer_detector.py:43-62 | for every node limit from 10 on, a run leads from the empty graph through good graphs only to one that any given transaction leaves inconsistent |
| `TxGraphRuns.ConsistentExactly` | python/compliance/mixer_detector.py:43-68 | every run from the empty graph, caught exceptions included, stays consistent if and only if the node limit is below 10 |
| `TxGraphRuns.SmallStaysConsistent` | python/compliance/mixer_detector.py:140-149 | below a limit of 10 no prune has candidates, and every run stays consistent |
| `TxGraph.PopulatingEmptyGraphRaises` | python/compliance/mixer_detector.py:217-223 | marking any address of a new graph raises and leaves a mixer that is no node |
| `MixerReach.Frontier` | python/compliance/mixer_detector.py:107-128 | along any admissible path the search has visited a node in time or still has something at least as near queued |
| `MixerReach.FrontIsShortest` | python/compliance/mixer_detector.py:107-113 | the first unvisited queue entry carries a shortest distance, duplicates notwithstanding |
| `MixerReach.Expand` | python/compliance/mixer_detector.py:113-128 | visiting the head and queueing its neighbours keeps the search invariant; mixers are not expanded |
| `MixerReach.Skip` | python/compliance/mixer_detector.py:110-111 | dropping a visited or too distant entry loses nothing |
| `MixerReach.SearchEnds` | python/compliance/mixer_detector.py:107-128 | when the queue is empty exactly the mixers within the depth have been found |
| `MixerDetector.RoundVisits` | python/compliance/mixer_detector.py:108-128 | a round that visits its head keeps the invariant, records mixers, and leaves fewer nodes to visit |
| `MixerDetector.Search` | python/compliance/mixer_detector.py:101-128 | for every graph, start and depth the search terminates and lists each mixer reachable by an undirected path of at most that many hops with no mixer before its end exactly once, with the length of a shortest such path |
| `MixerDetector.TransactionGraph.MixerConnections` | python/compliance/mixer_detector.py:101-128 | the search applied to the current graph lists exactly those mixers |
| `MixerDetector.TransactionGraph.CalculateRiskScore` | python/compliance/mixer_detector.py:84-138 | 1 for a flagged address, otherwise the mean of 2^-d over the mixers at each shortest distance d up to the depth, 0 if there is none |
| `MixerDetector.TransactionGraph.AddTransaction` | python/compliance/mixer_detector.py:43-62 | the in-place updates are the specified ones, exceptions included |
| `MixerDetector.TransactionGraph.MarkAsMixer` | python/compliance/mixer_detector.py:64-68 | the in-place updates are the specified ones, exceptions included |
| `MixerDetector.TransactionGraph.PruneOldNodes` | python/compliance/mixer_detector.py:140-162 | the loops select and remove the specified candidates, stopping where a deletion raises |
| `MixerScore.ScoreWellDefined` | python/compliance/mixer_detector.py:122-136 | the score does not depend on the iteration order of the neighbour sets |
| `MixerScore.ScoreValue` | python/compliance/mixer_detector.py:130-138 | for any depth the score times the number of mixers in reach times 2^depth is the sum of 2^(depth - d) times the number of mixers at each shortest distance d; the cap of 1 never bites |
| `MixerScore.ScoreAtDepthThree` | python/compliance/mixer_detector.py:130-138 | at depth 3, with n1, n2, n3 mixers at one, two and three hops: 8 (n1 + n2 + n3) times the score is 4 n1 + 2 n2 + n3 |
| `MixerScore.RiskValue` | python/compliance/mixer_detector.py:96-138 | what calculate_risk_score returns, from these counts alone, for every depth, negative ones included |
| `MixerScore.ScoreBand` | python/compliance/mixer_detector.py:130-138 | for any depth: zero if and only if nothing is reached, else between the depth's weight and 1/2, and 1/2 if and only if every mixer reached is one hop away |
| `MixerScore.DecisionExact` | python/compliance/mixer_detector.py:258-269 | at depth 3 a non-mixer scores 0 if and only if it reaches no mixer, else within [1/8, 1/2], and is high risk at threshold 0.5 if and only if it reaches a mixer and every mixer it reaches is one hop away |
| `MixerDetector.MixerDetector.Analyze` | python/compliance/mixer_detector.py:232-274 | history replayed until it raises, score, decision and counters; at the default threshold exactly the addresses described above are blocked |
| `PipelineRun.StepKeepsInv` | python/ci_cd/ci_cd_pipeline.py:183-239 | every worker step, whatever callbacks and disk do, keeps the run invariant, the stage shape included |
| `PipelineRun.CancelKeepsInv` | python/ci_cd/ci_cd_pipeline.py:406-411 | so does a cancel, wherever it lands |
| `PipelineRun.PromotionGuarded` | python/ci_cd/ci_cd_pipeline.py:187-211 | promotion or deployment has started only if every earlier stage is completed and the gate's passed was not False |
| `PipelineRun.AlwaysSafe` | python/ci_cd/ci_cd_pipeline.py:124-231 | in every interleaving: completed*, then one running or failed or skipped*, then pending*; guarded promotion; completed runs have all stages completed; the counter equals active plus completed runs, disjoint |
| `PipelineRun.CancelEffective` | python/ci_cd/ci_cd_pipeline.py:184-223 | a cancel in flight rules completion out if and only if the worker is not about to overwrite the status; otherwise the next step is as if there had been no cancel |
| `PipelineRun.CancelHolds` | python/ci_cd/ci_cd_pipeline.py:187-239 | after an effective cancel, in every continuation of the whole system the run is cancelled or failed and at most one further stage starts |
| `PipelineRun.EventKeepsInv` | python/ci_cd/ci_cd_pipeline.py:124-231 | trigger, worker step and cancel each keep the system invariant |
| `PipelineRun.WorkerFinishes` | python/ci_cd/ci_cd_pipeline.py:177-239 | in every interleaving a worker is done, and its run listed as completed, after at most fifty of its own steps, whatever cancels, other runs, callbacks and disk do in between |
| `PipelineOutcome.StageOutcomes` | python/ci_cd/ci_cd_pipeline.py:193-218 | in every interleaving a stage is failed if and only if its callback raised, or it is the gate and returned something without `get`, and completed if and only if its callback returned otherwise, as soon as the worker has recorded it |
| `PipelineOutcome.RunOutcome` | python/ci_cd/ci_cd_pipeline.py:184-239 | a finished run that was never cancelled and whose save worked is completed if and only if every callback returned and the gate's passed was not False, and failed otherwise; a failed save fails it; uncalled stages are pending after a stage that ended the run and else skipped |
| `PipelineOutcome.CompletedInOrder` | python/ci_cd/ci_cd_pipeline.py:229-231 | completed runs are listed in the order in which they complete |
| `PipelineOutcome.TriggerExact` | python/ci_cd/ci_cd_pipeline.py:124-155 | a trigger is refused, without effect, if and only if as many active runs are running as may; otherwise it adds one pending run of pending stages and counts it |
| `TicketRing.UniqueUntilWrap` | benches/tick_to_trade.rs:69 | tickets are unique if and only if at most 2^64 were drawn |
| `TicketRing.EventKeepsInv` | benches/tick_to_trade.rs:68-90 | every atomic step keeps the protocol invariant |
| `TicketRing.SpinExitSafe` | benches/tick_to_trade.rs:68-90 | in every interleaving a slot's stamp is 0 or congruent to its index, and a consumer of a sequence from 1 on leaves the spin only after the one publisher with that ticket finished its data stores |
| `TicketRing.SequenceZeroPassesAtOnce` | benches/tick_to_trade.rs:37-42 | the consumer of sequence 0 passes with nothing published |
| `TicketRing.LappedForever` | benches/tick_to_trade.rs:79-90 | once a slot has been stamped over, whoever waits for the old sequence waits in every continuation that does not wrap |
| `TicketRing.PassesUnlessLapped` | benches/tick_to_trade.rs:68-90 | a waiting consumer can leave its spin in some continuation without a wrap if and only if its slot has not been stamped over |
| `TicketRing.LappedReachable` | benches/tick_to_trade.rs:68-90 | for every ring and any two tickets that share a slot, a state is reachable in which a consumer of the one has been lapped |
| `TicketRing.ReadsLastWord` | benches/tick_to_trade.rs:74-79 | if publishers never overlap in a slot, a stamped slot with nobody at work holds the last word of the stamping publisher |
| `TicketRing.DataIsLastStored` | benches/tick_to_trade.rs:72-79 | in every interleaving a slot holds the latest word of the publisher that stored into it last |
| `TicketRing.FinishedDataExact` | benches/tick_to_trade.rs:72-79 | a finished publisher whose last word occurs in no other tick finds it in its slot if and only if it was the last to store there |
| `TicketRing.OverlapMixes` | benches/tick_to_trade.rs:68-81 | a reachable slot stamped by one publisher, with nobody at work, that holds the other's word |
| `BacktestJobs.EventKeepsInv` | python/backtest/bt_mod.py:138-241 | an event keeps the accounting if and only if it neither resubmits the id of a running job nor resets while a job runs |
| `BacktestJobs.AccountsExactly` | python/backtest/bt_mod.py:138-241 | all along a run tracked memory is the sum over RUNNING jobs, `_job_memory` holds exactly the PENDING and RUNNING ids and open calls correspond one to one to RUNNING jobs, if and only if all its events are of that kind |
| `BacktestJobs.LiveResubmissionOverReleases` | python/backtest/bt_mod.py:161-239 | a run in which a resubmission of a running id ends in a double release and negative usage |
| `BacktestJobs.EventWithinIffGated` | python/backtest/bt_mod.py:172-186 | from a state within the limits an event leaves them if and only if it starts a job that should_accept_job would refuse |
| `BacktestJobs.RunsFromEmpty` | python/backtest/bt_mod.py:138-241 | both equivalences for every interleaving of submissions, starts, finishes and resets from the empty manager on |
| `BacktestJobs.QueueIsSubmissions` | python/backtest/bt_mod.py:138-168 | in every run the queue is the submissions accepted since the last reset, in order, and a job is what was last submitted under its id |
| `BacktestJobs.StatusFromHistory` | python/backtest/bt_mod.py:172-239 | every job object has the status that its own start and finish sections gave it |
| `BacktestJobs.HistoryFromEmpty` | python/backtest/bt_mod.py:138-239 | both for every run from the empty manager |
| `BacktestJobs.WithinIffGated` | python/backtest/bt_mod.py:336-349 | over whole runs usage and concurrency stay within their limits if and only if every start is one that should_accept_job accepts under its lock hold |
| `BacktestJobs.UngatedExceeds` | python/backtest/bt_mod.py:145-186 | two jobs that each fit alone are both accepted and exceed the limit when both run |
| `BacktestJobs.BacktestClusterManager.SubmitJob` | python/backtest/bt_mod.py:138-168 | refused exactly when running memory plus the estimate exceeds the limit, otherwise recorded as pending, replacing a job of the same id; keeps the accounting exactly when that job was not running |
| `BacktestJobs.BacktestClusterManager.BeginJob` | python/backtest/bt_mod.py:172-186 | starts exactly a known pending job and tracks its estimate |
| `BacktestJobs.BacktestClusterManager.CompleteJob` | python/backtest/bt_mod.py:211-227 | releases what the start took and marks the job object it holds; raises exactly when the memory record is gone |
| `BacktestJobs.BacktestClusterManager.FailJob` | python/backtest/bt_mod.py:231-239 | the handler's section: marks, releases and drops the memory record, after an earlier release too |
| `BacktestJobs.BacktestClusterManager.Reset` | python/backtest/bt_mod.py:372-379 | everything cleared, open calls aside; keeps the accounting exactly when nothing runs |
| `BacktestJobs.BacktestClusterManager.ShouldAcceptJob` | python/backtest/bt_mod.py:336-349 | the counting loop decides by the number of RUNNING jobs and the memory left |
| `BacktestJobs.BacktestClusterManager.GetNextPendingJob` | python/backtest/bt_mod.py:351-357 | the first pending id in queue order, none exactly when no job is pending |
| `Drawdown.DeepestDipIsWorstLoss` | python/backtest/vectorbt_engine.py:70-87 | while equity is positive the single pass gives the maximum of (e_i - e_j)/e_i over all i <= j |
| `Drawdown.DeepestDipBounds` | python/backtest/vectorbt_engine.py:70-87 | whatever the equity, no relative drop below a positive running maximum exceeds the computed one |
| `Drawdown.DeepestDipAttained` | python/backtest/vectorbt_engine.py:70-87 | the computed drawdown is such a drop, or 0 |
| `Drawdown.DrawdownsAgree` | python/backtest/walk_forward.py:429-454 | the two drawdown implementations agree for every positive capital and every series whose first return is not negative |
| `Drawdown.AgreementExact` | python/backtest/walk_forward.py:429-454 | all series with a given first return agree if and only if that return is not negative |
| `Drawdown.StrategyDrawdownsAgree` | python/backtest/vectorbt_engine.py:31-87 | the drawdowns agree on everything the signal kernels produce |
| `Drawdown.ApplySignalStrategy` | python/backtest/vectorbt_engine.py:31-53 | element 0 is 0, each other element the previous position's return less the cost, or 0 when flat |
| `Drawdown.ApplySignals` | python/backtest/walk_forward.py:294-309 | the same series as the other kernel on the predicted signals at cost 0.0005 |
| `Drawdown.ReturnsLessCosts` | python/backtest/vectorbt_engine.py:41-53 | up to any period the strategy has returned what the previous signals earned on the returns, less one cost for each period with a position |
| `Drawdown.ComputeEquityCurve` | python/backtest/vectorbt_engine.py:57-66 | compounding from the capital, the first return ignored |
| `Drawdown.ComputeDrawdown` | python/backtest/vectorbt_engine.py:70-87 | the drawdown of every element, its maximum, and on positive equity the worst loss over all pairs |
| `Drawdown.ComputeMaxDrawdown` | python/backtest/walk_forward.py:429-454 | the deepest relative drop of the growth curve from 1, 0 for no returns |
| `Drawdown.AnchoredSplit` | python/backtest/walk_forward.py:24-53 | splits trained from sample 0, training ending where testing starts, a step later each time, no window past the samples, only the last reaching the end; exactly which samples from the initial training set on are tested |
| `Drawdown.GapExactly` | python/backtest/walk_forward.py:39-51 | between two windows samples stay untested if and only if the step exceeds the test size |
| `Drawdown.TestedExactly` | python/backtest/walk_forward.py:31-53 | a sample within the whole steps is tested if and only if its offset in its step is less than the test size, one after them if and only if that offset plus a step is |
| `Drawdown.AllTestedExactly` | python/backtest/walk_forward.py:31-53 | every sample from the initial training set on is tested if and only if the test size is at least the step plus the rest after the last whole step |
| `RingHistory.Write` | python/alt_data/regime_encoder.py:131-134 | writing at the head and advancing appends to the represented history |
| `RingHistory.AfterMirrors` | python/alt_data/regime_encoder.py:131-134 | the writes of any sequence into a new buffer leave its tail, with the head at the number of writes modulo the length |
| `RingHistory.ReadBack` | python/deep_learning/temporal_attention.py:110-121 | stepping back from the head reads the history newest first |
| `RegimeEncoder.ReconstructIsChronological` | python/alt_data/regime_encoder.py:160-172 | the reconstruction is the last min(n, L) updates in order |
| `RegimeEncoder.PhysicalCount` | python/alt_data/regime_encoder.py:212 | the count in physical order differs from the chronological one by the seam at the head less the seam at the array's ends, and not at all before wrapping |
| `RegimeEncoder.RecentPair` | python/alt_data/regime_encoder.py:203-221 | the reported pair is the last two updates unless the buffer is full and the number of updates is 1 modulo its length, where the value reported as current is the one before the latest |
| `RegimeEncoder.ReportedExactly` | python/alt_data/regime_encoder.py:203-221 | after n updates from a new buffer the pair is the last two, whatever the regimes, if and only if that is not the case |
| `RegimeEncoder.TransitionFlag` | python/alt_data/regime_encoder.py:194-221 | the flag says whether the last two updates differ, or the two before the latest when a buffer of more than two has just wrapped; nothing is known before the second update |
| `RegimeEncoder.FrequencyWithinOne` | python/alt_data/regime_encoder.py:212-218 | the reported frequency is within one transition of the true one and complementary to the stability |
| `RegimeEncoder.FrequencyFromHistory` | python/alt_data/regime_encoder.py:212-218 | past wrapping the reported count differs from the true one exactly by the seam between latest and oldest less the one between the updates at the ends of the array |
| `RegimeEncoder.FrequencyExactEarly` | python/alt_data/regime_encoder.py:212-218 | before wrapping, and whenever the head is back at 0, it is exact |
| `RegimeEncoder.StaleCurrent` | python/alt_data/regime_encoder.py:203-206 | four updates of a new buffer of three after which the latest regime is not reported |
| `RegimeEncoder.RegimeEncoder.UpdateRegime` | python/alt_data/regime_encoder.py:130-134 | both buffers represent the history with the new update appended |
| `RegimeEncoder.RegimeEncoder.ContextHistory` | python/alt_data/regime_encoder.py:154-172 | regimes and confidences come back as the last min(n, L) updates in order |
| `RegimeEncoder.RegimeEncoder.GetTransitionFeatures` | python/alt_data/regime_encoder.py:194-221 | the specified features; the last pair unless the buffer has just wrapped, the regime before the latest as current if it has |
| `TemporalAttention.RunIsWholeWindow` | python/deep_learning/temporal_attention.py:114-131 | the longest run is every in-window event within the limit if and only if, within the limit, no in-window event is older than one outside the window |
| `TemporalAttention.OrderedLogsAreWhole` | python/deep_learning/temporal_attention.py:114-131 | that holds for every cutoff if and only if the timestamps in reach never go back |
| `TemporalAttention.LongestRunUnique` | python/deep_learning/temporal_attention.py:114-131 | there is exactly one longest run |
| `TemporalAttention.OutOfOrderHides` | python/deep_learning/temporal_attention.py:114-127 | an out-of-order event hides an in-window one |
| `TemporalAttention.TemporalAttentionBuffer.AddEvent` | python/deep_learning/temporal_attention.py:69-88 | the buffers represent the history with the new event appended |
| `TemporalAttention.TemporalAttentionBuffer.GetRecentEvents` | python/deep_learning/temporal_attention.py:90-136 | terminates and returns, newest first, the longest run of latest events at or after the cutoff, at most min(count, 999) |
| `BloomFilter.RoundToBytes` | python/compliance/ofac_checker.py:40 | the least multiple of 8 not below the computed size |
| `BloomFilter.Index` | python/compliance/ofac_checker.py:84-86 | every index is a bit of the file |
| `BloomFilter.IndexSpacing` | python/compliance/ofac_checker.py:84-86 | the first index is the first digest and each further one the second digest ahead, modulo the number of bits |
| `BloomFilter.BitLayout` | python/compliance/ofac_checker.py:97-100 | index 8b + k is bit k of byte b |
| `BloomFilter.TextIsItsEncoding` | python/compliance/ofac_checker.py:90-110 | a string is hashed as the encoding of its lower-case form, bytes as they are |
| `BloomFilter.SetBitExact` | python/compliance/ofac_checker.py:97-100 | setting a bit sets that bit and no other |
| `BloomFilter.BitsAreIndices` | python/compliance/ofac_checker.py:90-100 | after any additions the set bits are the initial ones and the added items' indices |
| `BloomFilter.NoFalseNegatives` | python/compliance/ofac_checker.py:90-118 | from any initial bytes every added item is reported, up to letter case |
| `BloomFilter.ContainsExactly` | python/compliance/ofac_checker.py:104-118 | from a zero file an item is reported if and only if each of its indices is an index of some added item |
| `BloomFilter.ListedIsSanctioned` | python/compliance/ofac_checker.py:235-250 | a listed address is reported in any case, with blanks around it, and when it was listed without its prefix, whatever the hashes and the initial file |
| `BloomFilter.NormalizePadded` | python/compliance/ofac_checker.py:238 | normalizing takes letter case and the blanks around away and nothing else |
| `BloomFilter.BlankCharacters` | python/compliance/ofac_checker.py:238 | the ASCII characters that strip takes away |
| `BloomFilter.SpellingExact` | python/compliance/ofac_checker.py:235-250 | a listed spelling is reported for an address under all hashes if and only if the two agree up to case, or the address adds a prefix that the listed one lacks |
| `BloomFilter.PrefixListedIsMissed` | python/compliance/ofac_checker.py:235-250 | listed without the prefix and checked with it, an address is sure to be reported; the other way round it is not |
| `BloomFilter.MmapBloomFilter.AddItem` | python/compliance/ofac_checker.py:90-102 | the byte loop sets exactly the item's bits, every access in range |
| `BloomFilter.MmapBloomFilter.ContainsItem` | python/compliance/ofac_checker.py:104-118 | the byte loop decides membership, every access in range |
| `BloomFilter.OFACChecker.Check` | python/compliance/ofac_checker.py:235-253 | the verdict for both spellings, and the counters |
| `OrderBook.VolumeStep` | benches/orderbook_update.rs:47-79 | a delta moves the cached volume as it moves the sum of levels, except for what an Add overwrites |
| `OrderBook.VolumeAlong` | benches/orderbook_update.rs:47-79 | for every delta sequence the cached volume is congruent mod 2^64 to the sum of levels plus all overwritten quantities |
| `OrderBook.VolumeExact` | benches/orderbook_update.rs:47-79 | it equals the sum mod 2^64 if and only if the overwritten quantities add up to a multiple of 2^64 |
| `OrderBook.LevelsFromHistory` | benches/orderbook_update.rs:47-79 | for every delta sequence: a price is present if and only if an Add hit it and no Delete since; its quantity is that of the last Add or Update at it, its order count one plus the Updates since the last Add modulo 2^32; the time is the last delta's |
| `OrderBook.OrderBookSide.Apply` | benches/orderbook_update.rs:47-79 | after any history the levels are those the history calls for, and the volume relation holds |
| `SpreadWindow.WindowHoldsTail` | python/arb/spread_monitor.py:54-65 | the deque holds the last values up to its bound |
| `SpreadWindow.SumsAreCounted` | python/arb/spread_monitor.py:58-67 | the sums are the window's when max_size equals the bound, everything ever added but the first value when it is smaller, everything when it is larger |
| `SpreadWindow.TracksExactly` | python/arb/spread_monitor.py:58-67 | for all sizes and histories the sum is the window's if and only if the stray values add up to zero, and the sum of squares if and only if they are all zero: with a smaller max_size the first value until the deque overflows and then all it let go but the first, with a larger one all it let go |
| `SpreadWindow.CauchySchwarz` | python/arb/spread_monitor.py:84 | n times the sum of squares is at least the square of the sum |
| `SpreadWindow.VarianceSign` | python/arb/spread_monitor.py:84-86 | the corrected variance has the sign of that difference |
| `SpreadWindow.VarianceIsSample` | python/arb/spread_monitor.py:78-87 | where the sums are the window's, the variance is the sample variance about the mean, with Bessel's correction |
| `SpreadWindow.MatchedNeverNegative` | python/arb/spread_monitor.py:58-86 | with matching sizes the variance is never negative |
| `SpreadWindow.SignExact` | python/arb/spread_monitor.py:58-86 | for all sizes the variance is non-negative for all histories of a length if and only if the sizes match or the length is at most the bound, or one more when max_size is smaller |
| `SpreadWindow.ConstantSpread` | python/arb/spread_monitor.py:58-86 | every constant non-zero history gives a negative variance from the first length at which any does |
| `SpreadWindow.RegisteredPairGoesNegative` | python/arb/spread_monitor.py:157 | with the shipped sizes a constant non-zero spread gives a negative variance if and only if it lasts at least 1002 updates |
| `SpreadWindow.SpreadWindow.AddValue` | python/arb/spread_monitor.py:58-67 | the in-place update follows the specification, and with matching sizes the sums are the window's |
| `TradeJournal.EventConserves` | python/audit/trade_journaler.py:223-308 | every step keeps each accepted event in exactly one place, in order |
| `TradeJournal.ExecutionConserves` | python/audit/trade_journaler.py:223-308 | so does every interleaving; queue, batch and abandoned stretch stay within their bounds |
| `TradeJournal.NothingMissingWhileServing` | python/audit/trade_journaler.py:232-289 | while serving, disk, batch in hand and queue are the accepted events in order if and only if no write has failed |
| `TradeJournal.StopLosesInHand` | python/audit/trade_journaler.py:95-108 | wherever the cancel catches the writer and whatever follows, a stop with successful writes leaves exactly the batch in hand off the disk, and what was accepted after the drain in the queue; nothing else is missing if and only if the hand was empty and no write failed |
| `TradeJournal.DrainEmpties` | python/audit/trade_journaler.py:297-308 | what a stop leaves in the queue is exactly what was accepted after its drain |
| `TradeJournal.QuietStop` | python/audit/trade_journaler.py:95-108 | a stop with successful writes and no acceptance after the drain leaves the queue empty and every accepted event but the batch in hand on the disk, in order |
| `TradeJournal.HandIsShort` | python/audit/trade_journaler.py:252-289 | the hand is at most a batch, and less than one when the writer is asleep |
| `TradeJournal.RoundExact` | python/audit/trade_journaler.py:240-258 | a round tops the batch up with the oldest queued events and starts writing it if and only if it is full or, once the interval has passed, not empty |
| `TradeJournal.EnqueueExact` | python/audit/trade_journaler.py:223-230 | an event is dropped and counted as dropped if and only if the queue is bounded and full, and else accepted last |
| `TradeJournal.CountersAddUp` | python/audit/trade_journaler.py:223-230 | every event offered is counted once, as written or as dropped |
| `TradeJournal.StopLosesAnEvent` | python/audit/trade_journaler.py:95-108 | a run in which a stop loses an accepted event although every write succeeds |

## Left out

- Sockets, ZMQ, shared memory, files, mmap, installers, command line and dashboards: I/O without algorithmic content.
- Machine learning, Ray and Nautilus code, `src/lib.rs` modules and Sharpe, Kalman or embedding statistics: foreign code or no crisp specification.
- Rounding: floats are exact reals; square roots are not taken, so `SpreadWindow` stops at the sign of the variance.
- Transformers of the feature DAG are pure functions; one that changes its input dictionary or keeps state between calls is not modelled, nor is a caller changing a dependency list it passed in.
- Letter case beyond ASCII, and address validation: `Lower` and `Strip` work on ASCII.
- A bound on the node count: pruning may remove nothing.
- Pattern analysis, block reasons and graph import or export of the mixer detector, which do not influence the decision.
- `PipelineRun`, `TicketRing` and `TradeJournal` are step machines on values, not classes, because other threads and tasks act inside a method.
- Pipeline runs: ids are assumed unique, stage timings and stored stage results other than the gate's are not modelled, and no bound on parallel runs is claimed, since the capacity check ignores pending runs.
- Memory ordering: `TicketRing` interleaves sequentially consistent steps, and models the slot's one data word; the multi-word read past it in process_tick is not modelled.
- Durations, results and the engine calls between the lock-protected sections of `run_job`.
- Microprice and spread of the order book, which combine the two sides without further state.
- Drawdown.AnchoredSplit: assumes room for at least one split, because with none the source returns through an unset loop variable.
- Sizes the code cannot work with: an empty series for the vectorbt equity and drawdown kernels, a max_size, context length or bit count of zero, which index or divide out of range.
- File rotation and IPC notification of the journaler; a failed write is taken to lose the unwritten rest of its batch, and a line in flight at a cancel either lands then or not at all, whereas the file thread may add it a little later.
