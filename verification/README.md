# Verified models of Fish

Fish is a build orchestrator. This project models the algorithms at its core in Dafny
and proves what they promise: schedules, caches, pruning, chunking, orderings,
fingerprints, filters and graph walks. Code that changes state step by step is modelled
by classes and loops proved against specifications; the theorems are lemmas about those
specifications, for all inputs and all runs. Check everything with
`dafny verify dfyconfig.toml`.

| modules | subject |
|---|---|
| `Graphs`, `Sorting`, `Basics`, `Options`, `Paths` | shared: walks, reachability, cycles, dependency-first orders, heaviest chains; stable sorting |
| `GreedyBatches`, `BatchScheduler`, `ScheduleDepths`, `ScheduleTheorems`, `ScheduleLaws`, `LongestChains`, `CriticalPath`, `Speedups`, `ScheduleOptimizer` | the greedy batch scheduler, its critical path and its estimate |
| `DownstreamCosts`, `RecordedCosts`, `CriticalWeights` | critical weights from measured durations |
| `TaskLists`, `OrderLaws`, `DagOrder`, `Fingerprints`, `FingerprintTrees`, `FingerprintLaws`, `BuildGraph`, `NameEdges`, `NodeTrees`, `TaskNodes`, `TaskGraph` | dependency ordering, fingerprint combination, the task graph of a backend |
| `JobOrders`, `JobLevels`, `CiMatrix` | job order and levels |
| `FileCacheRuns`, `FileDependents`, `FileInvalidation` | the file-level cache and its transitive invalidation |
| `Lru`, `LruRuns`, `LruSteps`, `LruLaws`, `LruCache`, `Tiers`, `TierRuns`, `TierLaws`, `TieredCache` | the recency cache and the three tiers above one another |
| `CacheDisk`, `PruneSteps`, `PruneLaws`, `Prune`, `KeyCodec`, `KeyLaws` | pruning the local cache with reference counts; the codec of its file names |
| `Chunking`, `WindowHashes`, `ChunkLaws` | content-defined chunking and reconstruction |
| `Globs`, `Regexes`, `InputFilter`, `GlobLaws` | globs, the fragment of regular expressions they compile to, the filter |

The modules named `...Laws` say what the definitions mean in terms of the input alone: constants,
comparisons and texts are written out in them.

## Where the code and its intention part

* The cycle check of the scheduler looks only below tasks nobody depends on. A cycle
  beside such a task goes unnoticed and its tasks are left out of the plan
  (`HiddenCycleExample`). Passing the check means being acyclic exactly when, besides, every
  task can be reached from those tasks (`AcyclicIffCheckedAndSeen`); where it can, the check
  is exact (`CheckIsExactWhenAllSeen`); on any table `DetectedIff` says when it finds one.
* A task named "" ends the critical path, since the empty name also stands for "no next
  hop" (`EmptyNameExample`; exactly when that costs anything, in `FoundIsCriticalIff`).
* A hit in the second tier discards what the put of the demoted entries evicts there
  (line 246 of `strategies.rs`). An old copy in the third tier can then come back
  (`StaleRun`; exactly when, in `WrittenRunsAreCoherentIff`). With the demotion completed
  every run is coherent (`DemotingRunsAreCoherent`), and so is the code as written when keys
  never change their value (`AgreeingRunsAreCoherent`).
* Replacing a value in the recency cache never evicts, so the byte limit can be exceeded
  (`ReplaceMayExceed`; exactly when, in `PutIsWithinLimitIff` for one put and
  `RunsAreWithinLimitIff` for whole runs).
* The levels of a job matrix never separate a job from its dependency on acyclic
  matrices: there is always one level (`OneLevelExample`, `OrderedIsOneLevel`,
  `OrderedIndependentIff`). On any order `LevelsIndependentIff` says when they do; testing
  against finished levels instead would always separate them (`FinishedLevelsSeparate`).
* A compiled `**` does not run across line breaks, as the dot of the expression does not
  (`LineBreakExample`; exactly when that matters, in `MeaningPreservedIff`).
* `freed_bytes` of a prune leaves out the bytes of cascaded objects; `Prune` states the
  difference exactly (`CascadeIsNotReported`; right exactly when, in
  `FreedBytesAreRightIff`). An object whose name ends in `.tmp` can be swept while a record
  references it (`TmpObjectIsSwept`; exactly when, in `AgeKeepsReferencesIff` for the age
  phase and `PruneKeepsReferencesIff` for a whole prune).
* A dependency on a name that several tasks have is ordered after the last of them, but its
  edge belongs to all: `build_task_graph` can order a list and still be refused an edge
  (`OrderedNamesCanCycle`; exactly when, in `BuildTaskGraph`). With distinct names it cannot.
  A fingerprint takes in the latest earlier task of each name (`NodeTree`).
* Cached files are keyed alike for both slashes, but dependencies by the path as written, so
  a dependent can be missed (`OtherSpellingIsMissed`; exactly when, in `AllDependentsGoIff`).

## Reading the model

* Strings stand for their bytes; the length in a fingerprint frame is the length of the
  sequence. Keys are sequences of bytes.
* Hash functions are parameters. Where a theorem needs that hashes do not collide, it says
  on which texts.
* A map that the source walks in arbitrary order is walked in arbitrary order here.
* Weights of the scheduler are real numbers; memory is in integers.
* Times are inputs. The local cache is three finite maps (records, objects, temporary
  files beside the records), and deleting a file succeeds.
* Which windows cut enters the chunking theorems as a function of the window alone, so they
  hold for every such rule; `Sizes.Rule` is the one of the code.

## Model

| member | source | states |
|---|---|---|
| `BatchScheduler.CountDependencies` | py/fish_optimizer/scheduler_opt.py:33-39 | the counters give every task its number of listed dependencies (with multiplicity), and the dependents table is the transpose of the dependency table |
| `BatchScheduler.FillBatch` | py/fish_optimizer/scheduler_opt.py:54-61 | from a list sorted heaviest first, takes a batch that is never empty, never exceeds the workers, exceeds the memory budget only as a single task, and leaves a task behind only if the batch is full of tasks at least as long, or if those of them taken before its turn leave too little memory; what is left is exactly the rest |
| `BatchScheduler.CountDown` | py/fish_optimizer/scheduler_opt.py:64-67 | every counter falls by the number of occurrences, and a task is released exactly when its counter reaches zero now |
| `BatchScheduler.ReleaseDependents` | py/fish_optimizer/scheduler_opt.py:63-67 | after a batch the counters count the dependencies outside the larger done set; each newly ready task is released once |
| `BatchScheduler.RunBatches` | py/fish_optimizer/scheduler_opt.py:41-71 | the loop ends; every batch is a greedy choice from exactly the tasks whose dependencies are done, nothing is ready at the end, and the batches concatenate to the ordered tasks |
| `ScheduleTheorems.ScheduleIsSafeAndComplete` | py/fish_optimizer/scheduler_opt.py:49-71 | each task is emitted once; emitted are exactly the tasks from which no cycle is reachable; dependencies lie in strictly earlier batches; batches respect workers and budget or are single tasks |
| `ScheduleTheorems.CompleteIffAcyclic` | py/fish_optimizer/scheduler_opt.py:49-71 | the schedule covers all tasks, and is valid, if and only if the dependencies are acyclic |
| `ScheduleTheorems.UnfilledIsBounded` | py/fish_optimizer/scheduler_opt.py:49-71 | with memory never binding, every batch short of the worker limit goes one level deeper: after k of them every task with chains of at most k tasks is done, and k is at most the length of the longest chain |
| `ScheduleTheorems.BatchBound` | py/fish_optimizer/scheduler_opt.py:49-71 | with memory never binding, at most n / m batches plus the length of the longest chain |
| `ScheduleTheorems.AnyScheduleNeeds` | py/fish_optimizer/scheduler_opt.py:49-71 | every valid schedule with the same workers has at least as many batches as any chain has tasks, and enough batches for all tasks |
| `ScheduleTheorems.GreedyWithinGraham` | py/fish_optimizer/scheduler_opt.py:49-71 | with memory never binding, the greedy schedule on m workers has at most 2 - 1/m times as many batches as any valid schedule |
| `ScheduleLaws.TimeIs` | py/fish_optimizer/scheduler_opt.py:21-22 | a task takes its recorded duration, and 1 when none is recorded |
| `ScheduleLaws.MemoryIs` | py/fish_optimizer/scheduler_opt.py:55 | a task needs its recorded memory, and 256 when none is recorded |
| `ScheduleLaws.LongestTaskRuns` | py/fish_optimizer/scheduler_opt.py:46-61 | no ready task takes longer than the first one of the batch |
| `ScheduleLaws.WaitsForAReason` | py/fish_optimizer/scheduler_opt.py:54-61 | a ready task waits only for tasks at least as long: those of a batch with as many as there are workers, or the first ones of a batch, with which it would exceed the budget |
| `ScheduleLaws.NoneWaits` | py/fish_optimizer/scheduler_opt.py:54-61 | with a worker for each ready task and memory for any of them together, all ready tasks run |
| `ScheduleOptimizer.PeakMemory` | py/fish_optimizer/scheduler_opt.py:78 | the reported memory is the largest batch sum, 256 if there is no batch |
| `ScheduleOptimizer.PeakOverBudgetIsOneTask` | py/fish_optimizer/scheduler_opt.py:56-78 | the reported memory exceeds the budget only when one single task needs that much |
| `ScheduleOptimizer.PeakIsReached` | py/fish_optimizer/scheduler_opt.py:78 | no batch needs more memory than the reported peak and some batch needs it; 256 when no task is listed |
| `ScheduleOptimizer.PlanListsTasks` | py/fish_optimizer/scheduler_opt.py:49-86 | the ordered tasks of a plan are exactly those without a cycle ahead, each once, dependencies first |
| `ScheduleOptimizer.OptimizeSchedule` | py/fish_optimizer/scheduler_opt.py:13-86 | fails exactly when a cycle is reachable from the chosen roots; otherwise the plan holds the critical path, a greedy schedule, its peak memory, and the speed-up estimated from all durations and the path |
| `Speedups.SequentialTime` | py/fish_optimizer/scheduler_opt.py:73 | the loop adds up the durations of all tasks, in any order |
| `ScheduleOptimizer.SpeedupIsInRange` | py/fish_optimizer/scheduler_opt.py:73-76 | for every plan of tasks without negative durations the estimate lies between 0 and the number of workers, and is at least 1 if and only if all tasks together take at least 0.1, or 1 when the path found has no weight; on acyclic dependencies with no task named "" that is 0.1 |
| `ScheduleOptimizer.SpeedupIsLargest` | py/fish_optimizer/scheduler_opt.py:73-76 | for every plan of tasks without negative durations, a number is at most the estimate if and only if it is at most the workers, and so many times the path found, and 0.1, are at most the total time (so many times 1 when the path has no weight) |
| `ScheduleOptimizer.PathLimitsSpeedup` | py/fish_optimizer/scheduler_opt.py:74-76 | the estimate times the path found, and any smaller number times it, is at most the total time |
| `ScheduleOptimizer.ChainsLimitSpeedup` | py/fish_optimizer/scheduler_opt.py:74-76 | on acyclic dependencies without a task named "" the estimate times any chain is at most the total time |
| `ScheduleOptimizer.NoScheduleBeatsEstimate` | py/fish_optimizer/scheduler_opt.py:73-76 | the parallel time the estimate divides by is a lower bound for every valid way of batching the tasks on these workers, times below 0.1 counting as 0.1 (as 1 when the path has no weight) |
| `Speedups.NoScheduleIsFaster` | py/fish_optimizer/scheduler_opt.py:73-75 | every valid schedule takes at least the time of every chain, and so many workers times its time cover all tasks |
| `ScheduleOptimizer.AcyclicIffCheckedAndSeen` | py/fish_optimizer/scheduler_opt.py:126-130 | the dependencies are acyclic if and only if the check raises no error and every task can be reached from a chosen root |
| `ScheduleOptimizer.CheckIsExactWhenAllSeen` | py/fish_optimizer/scheduler_opt.py:126-130 | where every task can be reached from a chosen root, the check raises an error if and only if there is a cycle |
| `ScheduleOptimizer.DetectedIff` | py/fish_optimizer/scheduler_opt.py:126-130 | an error is raised if and only if a cycle lies ahead of a task with an entry that no entry needs, or there are entries and each is needed by another |
| `ScheduleOptimizer.HiddenCycleExample` | py/fish_optimizer/scheduler_opt.py:126-130 | a two-task cycle beside an unrelated root raises no error, and its tasks are missing from every plan |
| `ScheduleOptimizer.CriticalPathIsHeaviestOverall` | py/fish_optimizer/scheduler_opt.py:126-137 | on acyclic dependencies whose tasks have no negative durations the critical path is at least as heavy as every chain from any task |
| `CriticalPath.LongestChainSearch.GetLongest` | py/fish_optimizer/scheduler_opt.py:97-124 | keeps the memo and next-hop tables right, returns only settled values, restores the visiting set, and raises only when a cycle is reachable |
| `CriticalPath.LongestChainSearch.Finish` | py/fish_optimizer/scheduler_opt.py:120-124 | stores the node weight plus the best child, links the next hop, and unmarks the task |
| `CriticalPath.LongestChainSearch.FollowHops` | py/fish_optimizer/scheduler_opt.py:131-137 | following next hops gives a real chain from the root without a task named ""; its weight is the memoised value, or that value without the one of a task named "" that the last task depends on (`LongestChains.HopsEnd`) |
| `LongestChains.Settle` | py/fish_optimizer/scheduler_opt.py:112-122 | a task whose children are settled is settled by its weight plus the heaviest child: the value is attained by a chain and no chain is heavier |
| `CriticalPath.CalculateCriticalPath` | py/fish_optimizer/scheduler_opt.py:88-137 | an error exactly when a cycle is reachable from the chosen roots; otherwise a critical path (a real chain from a chosen root reaching the maximum over all chains from those roots), or the part of one before a task named "" (`LongestChains.IsFoundPath`) |
| `LongestChains.FoundIsCriticalIff` | py/fish_optimizer/scheduler_opt.py:118-137 | every path that may be found is critical if and only if no critical path starts at a task named "", or goes through one from which some chain has positive weight |
| `LongestChains.FoundIsCriticalIffAvoided` | py/fish_optimizer/scheduler_opt.py:118-137 | if a task named "" would take time: if and only if no critical path goes through one |
| `LongestChains.FoundPathIsCritical` | py/fish_optimizer/scheduler_opt.py:118-137 | in particular without a task of that name |
| `LongestChains.EmptyNameExample` | py/fish_optimizer/scheduler_opt.py:118-137 | a task that depends on one named "": exactly the path of the first task alone is found, and it is not critical |
| `CriticalWeights.CriticalPathScheduler.RecordTaskDuration` | crates/fish-cli/src/critical_path.rs:42-47 | only the named task changes, to the truncated running mean of one more sample |
| `DownstreamCosts.MeanStaysInRange` | crates/fish-cli/src/critical_path.rs:42-47 | however many samples, the recorded mean lies between the least and the greatest duration |
| `DownstreamCosts.MeanDrift` | crates/fish-cli/src/critical_path.rs:42-47 | truncation only loses time, and after n samples at most n(n-1)/2 ms of the exact sum |
| `CriticalWeights.CriticalPathScheduler.ComputeCriticalWeights` | crates/fish-cli/src/critical_path.rs:49-73 | `Cycle` exactly when a cycle is reachable from a listed task; otherwise exactly the listed tasks, each with the maximum total cost over all downstream chains |
| `RecordedCosts.ProfilesAre` | crates/fish-cli/src/critical_path.rs:42-47 | after any recordings for any tasks, a task has a profile exactly when it was recorded, and that of its own durations in order |
| `RecordedCosts.UnrecordedCost` | crates/fish-cli/src/critical_path.rs:59-60 | a task never recorded costs 100 ms |
| `RecordedCosts.RecordedCost` | crates/fish-cli/src/critical_path.rs:42-60 | a task recorded n times costs at least the least and at most the greatest of its durations, at most their mean and at most (n-1)/2 less |
| `RecordedCosts.SteadyCost` | crates/fish-cli/src/critical_path.rs:42-60 | a task always recorded with one duration costs that duration |
| `CriticalWeights.CriticalPathScheduler.LongestDownstreamPath` | crates/fish-cli/src/critical_path.rs:75-107 | terminates on every finite graph, keeps every memo entry equal to the naive maximum, and reports a cycle only when one is reachable |
| `DownstreamCosts.Settle` | crates/fish-cli/src/critical_path.rs:89-105 | a maximum over memoised neighbours is the maximum over all downstream chains |
| `TaskLists.KeyIndexOfName` | crates/fish-core/src/backend_utils.rs:279-283 | the index finds, for every listed name, the last task of that name |
| `OrderLaws.LastTaskOfName` | crates/fish-core/src/backend_utils.rs:279-283 | a dependency on a name of several tasks is one on the last of them |
| `OrderLaws.UnknownIsFirst` | crates/fish-core/src/backend_utils.rs:285-292 | an unknown-task error names a task and one of its dependencies that no task is called by; before them, in list order, every dependency is the name of a task |
| `OrderLaws.CyclicAreListed` | crates/fish-core/src/backend_utils.rs:319-330 | a cycle error lists the names of exactly the tasks with a cycle ahead, by increasing index |
| `DagOrder.CheckKnown` | crates/fish-core/src/backend_utils.rs:285-292 | reports the first dependency, in list order, that names no task, and nothing else |
| `DagOrder.OnePass` | crates/fish-core/src/backend_utils.rs:298-317 | a pass either resolves a task or leaves every unresolved task blocked by an unresolved dependency |
| `DagOrder.RemainingNames` | crates/fish-core/src/backend_utils.rs:319-330 | the reported names are those of exactly the tasks from which a cycle is reachable, in list order |
| `TaskLists.StuckIsCyclic` | crates/fish-core/src/backend_utils.rs:294-331 | without progress, a task is unresolved if and only if a cycle is reachable from it |
| `TaskLists.FullOrder` | crates/fish-core/src/backend_utils.rs:294-333 | a complete resolution is a permutation with dependencies first, and the relation is acyclic |
| `DagOrder.ResolveDagOrder` | crates/fish-core/src/backend_utils.rs:270-334 | Ok if and only if all dependencies are known and acyclic; then a permutation of all indices, dependencies first; otherwise the right error |
| `Fingerprints.CombineFingerprints` | crates/fish-core/src/backend_utils.rs:42-55 | hashes exactly the framed prefix and the sorted framed inputs |
| `Fingerprints.LexIsTotalOrder` | crates/fish-core/src/backend_utils.rs:48-49 | the sort order is total and antisymmetric, so the sorted listing is unique |
| `FingerprintLaws.LexLeqIff` | crates/fish-core/src/backend_utils.rs:48-49 | a text is sorted before another exactly when it is its beginning, or smaller where they first differ |
| `FingerprintLaws.DecimalReads` | crates/fish-core/src/backend_utils.rs:45-53 | a length is written in decimal digits without a leading zero, and reads as itself |
| `FingerprintLaws.PrefixAlone` | crates/fish-core/src/backend_utils.rs:42-47 | without inputs the text is "prefix[", the length, "]:" and the prefix, and nothing for an empty prefix |
| `FingerprintLaws.NextInput` | crates/fish-core/src/backend_utils.rs:48-53 | an input that comes last in order adds "fp[", its length, "]:" and itself at the end |
| `FingerprintLaws.OrderDoesNotMatter` | crates/fish-core/src/backend_utils.rs:48-49 | the order of the inputs does not change the text |
| `Fingerprints.FrameReadsBack` | crates/fish-core/src/backend_utils.rs:45-53 | a length-prefixed frame can be read back in front of any text |
| `Fingerprints.EncodeIsUniquelyDecodable` | crates/fish-core/src/backend_utils.rs:42-55 | two inputs are hashed as the same text if and only if prefixes and multisets of fingerprints are equal |
| `FingerprintTrees.FingerprintDeterminesTree` | crates/fish-backend-ts/src/lib.rs:71-91 | with a collision-free hash and project fingerprints of one length, fingerprints agree if and only if project fingerprint and whole dependency trees do, up to the order of dependencies |
| `FingerprintTrees.SameTreeSameDigest` | crates/fish-backend-ts/src/lib.rs:71-91 | equal trees, in any order of dependencies, have equal fingerprints under every hash |
| `FingerprintTrees.DigestsDetermineForest` | crates/fish-backend-ts/src/lib.rs:73-91 | equal multisets of fingerprints come from the same trees, matched one to one |
| `TaskGraph.MemberFingerprints` | crates/fish-backend-ts/src/lib.rs:73-86 | every lookup succeeds, whatever the names, and gives the fingerprint of the node that the node map finds for the dependency |
| `TaskGraph.AddNodes` | crates/fish-backend-ts/src/lib.rs:71-112 | one node a task in the resolved order, whatever the names; the map finds the latest node of every name, and each node carries the digest of the tree behind it |
| `TaskGraph.AddTaskEdges` | crates/fish-backend-ts/src/lib.rs:116-118 | all edges of a task are recorded, or an edge is refused because the names have a cycle; with rising node numbers none is refused, and exactly the dependencies become edges, in order |
| `TaskGraph.AddEdges` | crates/fish-backend-ts/src/lib.rs:114-119 | all edges are accepted if and only if the graph of names is acyclic; recorded edges are edges of names and, if accepted, the other way round; with distinct names the graph has exactly the listed edges |
| `NameEdges.RefusedIsCycle` | crates/fish-graph/src/graph.rs:134-142 | an edge that would close a cycle of nodes closes a cycle of names, and the error names a wanted edge on it |
| `NameEdges.PresentIsAcyclic` | crates/fish-backend-ts/src/lib.rs:114-119 | when every edge of names is recorded in an acyclic graph, the names have no cycle |
| `NameEdges.OrderedNamesCanCycle` | crates/fish-backend-ts/src/lib.rs:61-119 | three tasks, two of one name, that can be ordered although their names depend on each other |
| `TaskGraph.BuildTaskGraph` | crates/fish-backend-ts/src/lib.rs:52-122 | fails in ordering exactly on unknown or cyclic dependencies, with the right error, and succeeds if and only if the graph of names is acyclic as well; a refused edge is a wanted one on a cycle of names; once ordered, one node a task with the digest of the tree behind it; with distinct names it always succeeds, with the digests of the dependency trees and exactly the listed edges |
| `NodeTrees.CombinedIsDigest` | crates/fish-backend-ts/src/lib.rs:71-91 | combining the fingerprints looked up for a task gives the digest of the tree in which each dependency stands for the latest earlier task of that name |
| `FingerprintLaws.NodeFingerprint` | crates/fish-backend-ts/src/lib.rs:71-91 | a node is fingerprinted by the hash of "ts:", the project fingerprint, ":" and its name, combined with the digests of its dependencies; without dependencies the whole text is written out |
| `NodeTrees.NextNode` | crates/fish-backend-ts/src/lib.rs:71-112 | one turn of the loop keeps nodes, node map, fingerprint table and digests right |
| `TaskNodes.OrderResolves` | crates/fish-backend-ts/src/lib.rs:61-86 | in a resolved order every dependency is the name of an earlier task |
| `TaskNodes.NodeTreeIsTaskTree` | crates/fish-backend-ts/src/lib.rs:71-112 | with distinct names the tree behind a node is the transitive dependency tree of its task |
| `TaskNodes.TreeIsUnique` | crates/fish-backend-ts/src/lib.rs:71-112 | a task has one transitive dependency tree |
| `NodeTrees.EqualFingerprintsEqualTrees` | crates/fish-backend-ts/src/lib.rs:71-112 | nodes of two projects whose project fingerprints have one length have equal fingerprints if and only if project fingerprint and the trees behind them agree; then their names agree |
| `BuildGraph.BuildGraph.AddNode` | crates/fish-graph/src/graph.rs:66-76 | appends the payload with no edges and keeps the graph acyclic and its two tables transposed |
| `BuildGraph.BuildGraph.AddDependency` | crates/fish-graph/src/graph.rs:123-146 | accepts an edge exactly when both nodes exist, differ, and the edge closes no cycle; a refused edge changes nothing, and the error is the first of missing dependency, missing dependent, self-dependency and cycle |
| `BuildGraph.BuildGraph.IsReachable` | crates/fish-graph/src/graph.rs:351-367 | the queue search answers reachability exactly |
| `CiMatrix.CiMatrix.AddJob` | crates/fish-ci-generator/src/matrix.rs:50-54 | appends the job and replaces its dependency entry |
| `CiMatrix.CiMatrix.Visit` | crates/fish-ci-generator/src/matrix.rs:67-86 | terminates on cyclic matrices, adds exactly unvisited jobs reachable from the given one, each once, and keeps dependencies first when no cycle is reachable |
| `CiMatrix.CiMatrix.TopologicalSort` | crates/fish-ci-generator/src/matrix.rs:56-65 | lists exactly the jobs reachable from a listed one, each once; dependencies come first if and only if no cycle is reachable |
| `CiMatrix.CiMatrix.GetParallelLevels` | crates/fish-ci-generator/src/matrix.rs:88-118 | the levels spell out the job order, and without reachable cycles there is at most one |
| `CiMatrix.CiMatrix.GroupLevels` | crates/fish-ci-generator/src/matrix.rs:90-117 | the loop computes the grouping: a job opens a level only when a dependency is not yet listed |
| `JobLevels.LevelsFlatten` | crates/fish-ci-generator/src/matrix.rs:88-118 | the levels always concatenate to the order, with either test |
| `JobLevels.OrderedIsOneLevel` | crates/fish-ci-generator/src/matrix.rs:94-111 | every non-empty dependency-first order is put into one single level, because `completed` already holds the current level |
| `JobLevels.OpensIffUnlisted` | crates/fish-ci-generator/src/matrix.rs:97-111 | a job opens a level exactly when one of its dependencies is not listed before it |
| `JobLevels.ShareLevelIff` | crates/fish-ci-generator/src/matrix.rs:90-117 | on any order, with either test, two jobs share a level if and only if no job after the earlier one, up to the later one, opens a level |
| `JobLevels.LevelsIndependentIff` | crates/fish-ci-generator/src/matrix.rs:90-118 | on any order, cyclic matrices included, and with either test: no job shares a level with its dependency if and only if a level opens between every two such jobs |
| `JobLevels.OrderedIndependentIff` | crates/fish-ci-generator/src/matrix.rs:97-98 | so on dependency-first orders the code as written keeps jobs and dependencies apart if and only if no listed job has a dependency |
| `JobLevels.OneLevelExample` | crates/fish-ci-generator/src/matrix.rs:97-111 | a job and its dependency, listed in the right order, that end up in one level |
| `JobLevels.FinishedLevelsSeparate` | crates/fish-ci-generator/src/matrix.rs:88-118 | with the test against finished levels instead, on every dependency-first order the levels spell out the order and no job shares a level with its dependency |
| `FileCacheRuns.FoundIffCached` | crates/fish-cache/src/file_level.rs:48-78 | over all runs of caching and invalidating, a file is found if and only if it was cached under either spelling and not invalidated since, itself or with its directory; and then with the latest artifact of the hash it was cached under |
| `FileCacheRuns.CachedFileIsFound` | crates/fish-cache/src/file_level.rs:48-78 | if no two different artifacts of a run share a hash, a file is found with exactly what was cached for it last and not invalidated since |
| `FileCacheRuns.StepKeepsStored` | crates/fish-cache/src/file_level.rs:61-96 | every operation keeps every listed hash stored, under its own artifact |
| `FileCacheRuns.DirectoryGoes` | crates/fish-cache/src/file_level.rs:81-96 | invalidating a directory removes exactly the files whose path, in forward slashes, goes on after the directory and a slash |
| `FileCacheRuns.DirectoryWithSlashGoes` | crates/fish-cache/src/file_level.rs:81-96 | so does the directory written with a slash or a backslash at its end |
| `FileCacheRuns.SiblingStays` | crates/fish-cache/src/file_level.rs:81-96 | files of another directory whose name only begins alike stay |
| `FileInvalidation.FileLevelCache.CacheFile` | crates/fish-cache/src/file_level.rs:61-72 | acts on both tables as the run step: the artifact under its hash, the hash under the file key, nothing else; every listed hash stays stored |
| `FileInvalidation.FileLevelCache.InvalidateFile` | crates/fish-cache/src/file_level.rs:75-78 | acts as the run step: removes exactly the file key |
| `FileInvalidation.FileLevelCache.InvalidateDirectory` | crates/fish-cache/src/file_level.rs:81-96 | acts as the run step: removes exactly the keys below the directory, by whole components |
| `FileDependents.SameKeyIff` | crates/fish-cache/src/file_level.rs:119-121 | two paths share a key exactly when they agree up to the direction of slashes |
| `FileInvalidation.FileDependencyGraph.AddDependency` | crates/fish-cache/src/file_level.rs:147-157 | appends the dependency, and the reverse table stays the transpose with multiplicity |
| `FileDependents.Mirror` | crates/fish-cache/src/file_level.rs:147-157 | one more edge on both sides keeps the tables transposed, occurrence by occurrence |
| `FileInvalidation.FileDependencyGraph.InvalidateWithDependents` | crates/fish-cache/src/file_level.rs:168-183 | terminates on cyclic graphs and removes exactly the keys of files that reach the changed file through dependencies; all other entries stay |
| `FileDependents.SearchVisit` | crates/fish-cache/src/file_level.rs:172-182 | one visit keeps the search on its way, the entries left those of no visited file, and leaves fewer files to visit |
| `FileDependents.AffectedAreVisited` | crates/fish-cache/src/file_level.rs:168-183 | what the reverse search visits is what depends on the file in the forward table |
| `FileDependents.AllDependentsGoIff` | crates/fish-cache/src/file_level.rs:119-121 | every key that depends on the changed key, with both spellings of a path as one file, is removed if and only if listing any spelling of an affected file makes the key of the listing file an affected one |
| `FileDependents.OneSpellingIsEnough` | crates/fish-cache/src/file_level.rs:119-183 | so it is when no two paths of the table and the changed file differ in their slashes only |
| `FileDependents.OtherSpellingIsMissed` | crates/fish-cache/src/file_level.rs:119-183 | a dependency listed with a backslash is missed when the file changes under a forward slash |
| `LruCache.LruCache.constructor` | crates/fish-cache/src/strategies.rs:38-48 | a new cache is the empty recency list with the given limits |
| `LruCache.LruCache.GetWithSize` | crates/fish-cache/src/strategies.rs:55-75 | finds the item in the recency list and moves it to the front; a miss changes nothing |
| `LruCache.LruCache.PutWithEvictions` | crates/fish-cache/src/strategies.rs:83-138 | acts on the recency list as `Lru.Put`: replaces in place of the old item at the front, or evicts the least recent suffix and inserts; map, queue and byte counter agree throughout |
| `LruCache.LruCache.MakeRoom` | crates/fish-cache/src/strategies.rs:111-122 | leaves the longest prefix with room and returns the rest, least recent first |
| `LruCache.LruCache.EvictOldest` | crates/fish-cache/src/strategies.rs:116-121 | pops the least recent item out of queue, map and counter |
| `LruCache.LruCache.Remove` | crates/fish-cache/src/strategies.rs:140-151 | removes the one item with that key and returns its value |
| `LruCache.LruCache.Clear` | crates/fish-cache/src/strategies.rs:153-160 | empties the recency list |
| `LruCache.Position` | crates/fish-cache/src/strategies.rs:65 | the first place of the key in the queue |
| `LruSteps.MoveToFront` | crates/fish-cache/src/strategies.rs:65-68 | moving a key to the front keeps queue and map in agreement and accounts for the changed size |
| `LruSteps.DropOne` | crates/fish-cache/src/strategies.rs:144-147 | removing one key from map and queue removes one item and its size |
| `Lru.TrimIsLongest` | crates/fish-cache/src/strategies.rs:113-122 | what eviction keeps is the longest prefix that makes room: no shorter suffix would do |
| `LruLaws.RoomyPut` | crates/fish-cache/src/strategies.rs:111-138 | a new key evicts nothing while the entries are fewer than the capacity and the bytes with its own within max_size |
| `LruLaws.NewKeyKeepsWhatFits` | crates/fish-cache/src/strategies.rs:111-138 | a new key goes to the front of the longest most-recent part of the list that has fewer entries than the capacity and, with the new bytes, at most max_size; the others are evicted, least recent first |
| `LruLaws.HitMovesToFront` | crates/fish-cache/src/strategies.rs:55-75 | a key that is there moves to the front, the others keep their order, and nothing is evicted; a put also tells the old value |
| `Lru.PutIsBounded` | crates/fish-cache/src/strategies.rs:83-138 | no key twice, at most max(1, capacity) entries, and an inserted key leaves at most max_size bytes or only itself |
| `Lru.PutConserves` | crates/fish-cache/src/strategies.rs:111-138 | kept and evicted items together are the old items and the new one |
| `Lru.PutIsWithinLimitIff` | crates/fish-cache/src/strategies.rs:83-138 | after a put the bytes are within max_size if and only if, for a new key, the item alone is, and for a replaced one, the old bytes without its old size and with its new one are |
| `Lru.ReplaceMayExceed` | crates/fish-cache/src/strategies.rs:92-109 | replacing a value can exceed max_size without evicting |
| `LruRuns.EveryRunIsUpToDate` | crates/fish-cache/src/strategies.rs:50-160 | after every sequence of operations the list is ordered by last touch, every value is the last one put since removal, no key is there twice and the number of entries is bounded |
| `LruLaws.RoomyRunIsMap` | crates/fish-cache/src/strategies.rs:50-160 | as long as all that a run inserts fits, every key has what was put last: the cache acts as a plain map |
| `LruLaws.ReplacedWasPutLast` | crates/fish-cache/src/strategies.rs:92-109 | after any run a put tells the value put last under its key, and none when the key is gone |
| `LruLaws.LeastRecentGoes` | crates/fish-cache/src/strategies.rs:55-138 | a run with room for two in which the third key pushes out the one that was not read |
| `LruRuns.RunsAreWithinLimitIff` | crates/fish-cache/src/strategies.rs:50-160 | the bytes stay within max_size all along a run if and only if every insertion of the run meets that condition |
| `LruRuns.RunIsBoundedUnlessReplaced` | crates/fish-cache/src/strategies.rs:50-160 | after every run the bytes are within max_size or one item stands alone, unless a value was replaced since the last new key |
| `TieredCache.TieredCache.constructor` | crates/fish-cache/src/strategies.rs:217-223 | three empty tiers with the default limits |
| `TieredCache.TieredCache.Get` | crates/fish-cache/src/strategies.rs:225-274 | acts on the three recency lists as `Tiers.TierGet` as written, including the discarded evictions of line 246 |
| `TieredCache.TieredCache.Put` | crates/fish-cache/src/strategies.rs:276-306 | acts on the three recency lists as `Tiers.TierPut` |
| `TieredCache.TieredCache.Invalidate` | crates/fish-cache/src/strategies.rs:308-312 | removes the key from every tier |
| `TieredCache.TieredCache.Clear` | crates/fish-cache/src/strategies.rs:314-318 | empties every tier |
| `TieredCache.PutEach` | crates/fish-cache/src/strategies.rs:289-305 | puts the items one after the other and collects all evictions in order |
| `Tiers.GetReturnsWhatIsSeen` | crates/fish-cache/src/strategies.rs:225-274 | a read returns the topmost copy |
| `TierLaws.HitStays` | crates/fish-cache/src/strategies.rs:225-274 | a hit never loses its own key: the next read returns the same |
| `TierLaws.HitIsPromoted` | crates/fish-cache/src/strategies.rs:225-274 | after a hit the key is first in the first tier, or in the second when found in the third, with its value and size; a miss changes nothing |
| `TierLaws.HitRefreshes` | crates/fish-cache/src/strategies.rs:225-274 | when the tier above has room, a hit adds the key to its front, makes it the most recent of the tier it was found in, and changes nothing else |
| `TierLaws.HitIsACopy` | crates/fish-cache/src/strategies.rs:231-271 | a hit below the first tier leaves the key in its tier as well, unless what comes down overflows it |
| `TierLaws.FirstTierHitLosesNothing` | crates/fish-cache/src/strategies.rs:226-229 | a hit in the first tier makes no key disappear |
| `TierLaws.SecondTierHitLosesOnOverflow` | crates/fish-cache/src/strategies.rs:231-250 | a hit in the second tier makes a key disappear only if the first tier's entries do not all fit beside those of the second (with the demotion completed: those of both beside the third's) |
| `TierLaws.ThirdTierHitLosesOnOverflow` | crates/fish-cache/src/strategies.rs:252-271 | a hit in the third tier makes a key disappear only if the second tier's entries do not all fit beside those of the third |
| `TierLaws.WriteShows` | crates/fish-cache/src/strategies.rs:276-284 | a written key shows its value, from the front of the first tier |
| `TierLaws.WriteLosesOnOverflow` | crates/fish-cache/src/strategies.rs:276-306 | a write makes a key disappear only if the upper tiers' entries do not all fit beside those of the third |
| `TierLaws.InvalidateSees` | crates/fish-cache/src/strategies.rs:308-312 | invalidating takes away the one key and leaves what every other shows |
| `TierLaws.RoomyRunForgetsNothing` | crates/fish-cache/src/strategies.rs:225-318 | as long as all that a run writes fits in the first tier, every key shows what was written last |
| `Tiers.PutKeepsValues` | crates/fish-cache/src/strategies.rs:83-138 | between a list and its evictions, a put changes the value of its own key only |
| `Tiers.PutAllKeepsValues` | crates/fish-cache/src/strategies.rs:291-295 | the same for a batch of puts |
| `Tiers.PutSees` | crates/fish-cache/src/strategies.rs:276-306 | after a put a key is gone or shows its current value |
| `Tiers.DemotingGetSees` | crates/fish-cache/src/strategies.rs:225-274 | a read that passes the evictions on, as a put does, never changes what a key shows except by losing it |
| `Tiers.WrittenGetSeesIff` | crates/fish-cache/src/strategies.rs:231-271 | the read as written keeps that promise for a key if and only if it does not push it out of both upper tiers while they hide an old copy in the third; a condition on the tiers before the read |
| `TierRuns.DemotingRunsAreCoherent` | crates/fish-cache/src/strategies.rs:225-318 | over all runs with the demotion completed, a read returns nothing or the value of the last put since the last invalidation |
| `TierRuns.WrittenRunsAreCoherent` | crates/fish-cache/src/strategies.rs:225-318 | the code as written is coherent on every run in which no read uncovers an older copy |
| `TierRuns.WrittenRunsAreCoherentIff` | crates/fish-cache/src/strategies.rs:225-318 | all prefixes of a run are coherent if and only if no read of it uncovers an older copy |
| `TierRuns.AgreeingRunsAreCoherent` | crates/fish-cache/src/strategies.rs:225-318 | the code as written is coherent on every run that writes a key only with the value it has, unless invalidated in between: a condition on the operations alone |
| `TierRuns.UncoveringReadIsIncoherent` | crates/fish-cache/src/strategies.rs:236-249 | the first read that uncovers an older copy makes the cache incoherent |
| `TierRuns.StaleRun` | crates/fish-cache/src/strategies.rs:236-249 | with the default limits some run of the code as written shows an overwritten value |
| `Prune.LocalCache.RefCounts` | crates/fish-cache/src/lib.rs:606-614 | the table counts the records that reference each object, and has exactly the referenced objects as keys |
| `Prune.LocalCache.DropRecordAndCascade` | crates/fish-cache/src/lib.rs:619-650 | the record goes, its object goes exactly when no other record references it, the table keeps counting, the report grows by the record and the object count, and the returned bytes include the object |
| `Prune.LocalCache.ReleaseObject` | crates/fish-cache/src/lib.rs:632-648 | takes back one reference and deletes the object with the last one, unless this pass already has |
| `Prune.LocalCache.DropAged` | crates/fish-cache/src/lib.rs:477-489 | exactly the records of at least the given age go, each object with its last record, in whatever order they are listed |
| `Prune.LocalCache.SweepObjects` | crates/fish-cache/src/lib.rs:494-533 | exactly the old objects that are temporary or unknown to the table go; temporary ones are not counted |
| `Prune.LocalCache.CleanupTmpFiles` | crates/fish-cache/src/lib.rs:654-685 | exactly the old temporary files go, and their bytes are returned |
| `Prune.LocalCache.EvictByAge` | crates/fish-cache/src/lib.rs:475-537 | the first phase leaves exactly what `CacheDisk.AfterAge` describes, and the report accounts for it |
| `Prune.LocalCache.EvictRecords` | crates/fish-cache/src/lib.rs:555-579 | records go oldest first only while the limit is exceeded; the running total is always the bytes that remain |
| `Prune.LocalCache.EvictRecord` | crates/fish-cache/src/lib.rs:571-578 | one turn: no underflow of the total, one record and what it cascades |
| `Prune.LocalCache.EvictObjects` | crates/fish-cache/src/lib.rs:581-598 | objects go oldest first only while the limit is exceeded; the running total is always the bytes that remain |
| `Prune.LocalCache.CountBytes` | crates/fish-cache/src/lib.rs:555-564 | the total starts as the bytes of all records and of all objects not removed before |
| `Prune.LocalCache.Prune` | crates/fish-cache/src/lib.rs:455-602 | age first, then size, to the limit; freed bytes plus the bytes of cascaded objects are the bytes before minus the bytes after; removed counts are exact up to swept temporary files; the memory cache is emptied |
| `PruneSteps.DropIsKept` | crates/fish-cache/src/lib.rs:632-648 | one reference less in the table and the object gone at the last one is the same as keeping every object that a remaining record references |
| `PruneSteps.AgeLeaves` | crates/fish-cache/src/lib.rs:475-537 | dropping, sweeping and cleaning up together leave what age leaves |
| `PruneLaws.RecordStaysIff` | crates/fish-cache/src/lib.rs:475-489 | a record stays exactly when the age is not 0 and its time plus the age lies in the future |
| `PruneLaws.ObjectStaysIff` | crates/fish-cache/src/lib.rs:475-532 | an object that records name stays while a young one does, unless it is old and its name is more than ".tmp" and ends in it; an object that no record names stays while it is young |
| `PruneLaws.TmpFileStaysIff` | crates/fish-cache/src/lib.rs:534-537 | temporary files beside the records stay while they are young |
| `PruneLaws.SweptTmpIff` | crates/fish-cache/src/lib.rs:500-532 | which objects are swept as temporary files and left out of the count |
| `PruneLaws.PruneKeepsObjectsOfRecords` | crates/fish-cache/src/lib.rs:455-602 | where no object's name ends in ".tmp", no prune of any age or size leaves a record without its object |
| `PruneLaws.NoLimitsNoChange` | crates/fish-cache/src/lib.rs:455-602 | without age and size a prune leaves a cache of fewer than 2 to the 64 bytes as it is |
| `PruneLaws.GivenLimitIsMet` | crates/fish-cache/src/lib.rs:539-598 | with a size, the bytes of records and objects end within it |
| `PruneLaws.LastDropWasNeeded` | crates/fish-cache/src/lib.rs:567-579 | before the last record went for size the limit was exceeded |
| `PruneLaws.ObjectGoesWithItsRecords` | crates/fish-cache/src/lib.rs:567-598 | as long as records are left, an object goes for size exactly when records named it and none of those left does |
| `PruneLaws.OlderObjectsGoFirst` | crates/fish-cache/src/lib.rs:581-598 | an object that goes on its own for size is no younger than one that stays |
| `PruneLaws.ReportCounts` | crates/fish-cache/src/lib.rs:455-602 | the report counts all records that went, and all objects but those swept as temporary files |
| `PruneSteps.PruneKeepsReferencesIff` | crates/fish-cache/src/lib.rs:455-602 | a prune of a cache without dangling references leaves one if and only if a record that stays names an object swept as an old temporary file; if no record that survives the age limit names one it leaves none, and within the size limit this is exact |
| `PruneSteps.SweepTakes` | crates/fish-cache/src/lib.rs:500-532 | one deletion of the sweep keeps the disk, the removed paths and the report in step |
| `PruneSteps.RecordGoes` | crates/fish-cache/src/lib.rs:567-579 | one record dropped for size keeps stage, total and report in step |
| `PruneSteps.ObjectGoes` | crates/fish-cache/src/lib.rs:581-598 | one object dropped for size keeps stage, total and report in step |
| `CacheDisk.KeptKeepsReferences` | crates/fish-cache/src/lib.rs:617-650 | dropping records with their last-referenced objects never leaves a record without its object |
| `CacheDisk.AgeKeepsReferencesIff` | crates/fish-cache/src/lib.rs:512-528 | the age phase leaves a dangling reference exactly when a young record names an old temporary file as its object |
| `CacheDisk.TmpObjectIsSwept` | crates/fish-cache/src/lib.rs:512-528 | such a cache: a young record loses the object it references |
| `CacheDisk.ObjectsGoLast` | crates/fish-cache/src/lib.rs:567-598 | an object is removed for size only when no record is left |
| `CacheDisk.EvictionKeepsReferences` | crates/fish-cache/src/lib.rs:539-598 | the size phase never leaves a dangling reference |
| `CacheDisk.EvictionMeetsLimit` | crates/fish-cache/src/lib.rs:567-598 | afterwards the counted bytes are within the limit |
| `CacheDisk.NothingToEvict` | crates/fish-cache/src/lib.rs:567-586 | a cache within the limit is left unchanged |
| `CacheDisk.OlderRecordsGoFirst` | crates/fish-cache/src/lib.rs:544-579 | a record evicted for size is no younger than one that stays |
| `CacheDisk.KeptTwice` | crates/fish-cache/src/lib.rs:619-650 | dropping records in two steps is dropping them at once, whatever objects they share |
| `CacheDisk.CascadedBytesIff` | crates/fish-cache/src/lib.rs:632-648 | what cascades has no bytes if and only if every object that goes with its last record is an empty file |
| `PruneSteps.FreedBytesAreRightIff` | crates/fish-cache/src/lib.rs:455-602 | `freed_bytes` of a whole prune never exceeds the bytes that went, and is right if and only if every object that cascades, by age or by size, is an empty file |
| `PruneSteps.CascadeIsNotReported` | crates/fish-cache/src/lib.rs:477-489 | a cache whose prune by age frees 6 bytes and reports 1 |
| `Prune.LocalCache.EvictBySize` | crates/fish-cache/src/lib.rs:539-598 | the second phase evicts for size as specified, and the report accounts for it |
| `KeyCodec.EncodeKey` | crates/fish-cache/src/lib.rs:733-744 | the loop writes the specified encoding of every byte in order |
| `KeyCodec.DecodeKey` | crates/fish-cache/src/lib.rs:747-763 | the loop decodes as specified and fails exactly on cut-short or non-hexadecimal escapes or non-text |
| `KeyCodec.RoundTrip` | crates/fish-cache/src/lib.rs:733-763 | decoding an encoded key gives the key, for every key that is text |
| `KeyCodec.EncodingIsInjective` | crates/fish-cache/src/lib.rs:730-744 | two keys are encoded alike if and only if they are equal |
| `KeyCodec.EncodedIsCanonical` | crates/fish-cache/src/lib.rs:733-744 | the output escapes exactly the characters that are not unreserved (RFC 3986, sections 2.1 and 2.3), in upper case |
| `KeyLaws.OneByte` | crates/fish-cache/src/lib.rs:730-744 | a letter, a digit and each of "-._~" is itself, any other byte a percent sign and its two upper-case hexadecimal digits |
| `KeyLaws.EncodedJoin` | crates/fish-cache/src/lib.rs:733-744 | bytes are encoded one by one |
| `KeyLaws.NameIsPlain` | crates/fish-cache/src/lib.rs:730-744 | no slash, backslash or other special character gets into a file name |
| `KeyLaws.PlainKeyIff` | crates/fish-cache/src/lib.rs:730-744 | a key is its own file name if and only if it has no other characters |
| `KeyLaws.DecodedFront` | crates/fish-cache/src/lib.rs:747-763 | decoding takes off an escape in upper-case digits, or any other byte as it is |
| `KeyCodec.EncodedAlphabet` | crates/fish-cache/src/lib.rs:733-744 | the output has only unreserved characters and percent signs, so it is one file name segment |
| `KeyCodec.ReencodesIffCanonical` | crates/fish-cache/src/lib.rs:733-763 | encoding undoes decoding exactly on the canonical strings |
| `Chunking.HashWindow` | crates/fish-cas/src/chunking.rs:87-91 | the loop computes the wrapping 64-bit hash of the window |
| `WindowHashes.HashIsPolynomial` | crates/fish-cas/src/chunking.rs:87-91 | the hash is the polynomial of the bytes of the window in the multiplier, modulo 2 to the 64: wrapping in between changes nothing |
| `Chunking.AtBoundary` | crates/fish-cas/src/chunking.rs:79-94 | decides whether the window at a position cuts, from at most 8 bytes |
| `Chunking.NextLength` | crates/fish-cas/src/chunking.rs:69-102 | the scan finds the first cutting position within the limits, or takes the rest; it ends for min_size 0 and avg_size 0 too |
| `Chunking.CutUp` | crates/fish-cas/src/chunking.rs:67-117 | the loop cuts the data into the specified pieces with their offsets, lengths and hashes |
| `Chunking.ChunkData` | crates/fish-cas/src/chunking.rs:44-126 | chunks and manifest describe the specified pieces; empty data is one empty chunk |
| `Chunking.ChunksPartition` | crates/fish-cas/src/chunking.rs:67-117 | the pieces are non-empty and concatenate to the data |
| `Chunking.ChunksInBounds` | crates/fish-cas/src/chunking.rs:69-97 | with min_size at least 1, no piece has more than max(min_size, max_size) bytes, and all but the last have at least min_size |
| `Chunking.ChunksFromBoundary` | crates/fish-cas/src/chunking.rs:67-117 | from any boundary on, the pieces are those of the remaining bytes alone |
| `ChunkLaws.BoundaryIff` | crates/fish-cas/src/chunking.rs:79-94 | a place cuts exactly when the polynomial of the up to 8 bytes from it on, modulo 2 to the 64, is a multiple of avg_size (of 1 when that is 0) |
| `ChunkLaws.FirstChunk` | crates/fish-cas/src/chunking.rs:69-102 | the first piece ends at the first place that cuts from min_size on, at the latest at max_size or the end; all data is taken when there is no more than min_size of it or the place is 0 |
| `ChunkLaws.LaterChunks` | crates/fish-cas/src/chunking.rs:67-117 | the later pieces are those of the bytes behind the first |
| `ChunkLaws.EmptyDataIsOneChunk` | crates/fish-cas/src/chunking.rs:45-64 | empty data is one empty chunk at offset 0 |
| `Chunking.CommonSuffixAgrees` | crates/fish-cas/src/chunking.rs:67-117 | two inputs that both cut at the start of a common suffix agree on all later pieces |
| `Chunking.EarlyChunksStay` | crates/fish-cas/src/chunking.rs:81-97 | appending data keeps every piece that ends at least 8 bytes before the old end; this and the other locality results hold for every rule on windows |
| `Chunking.ReconstructFromChunks` | crates/fish-cas/src/chunking.rs:128-141 | Ok exactly when no hash is missing, with the looked-up pieces in order; otherwise the first missing hash |
| `Chunking.RoundTrip` | crates/fish-cas/src/chunking.rs:44-141 | when the pieces have no colliding hashes, all hashes are present and reconstruction gives back the data |
| `ChunkLaws.ManifestLeadsBack` | crates/fish-cas/src/chunking.rs:44-141 | the manifest lists hash and length of every piece, and when the pieces have no colliding hashes its hashes lead back to the data |
| `InputFilter.GlobToRegex` | crates/fish-core/src/input_filter.rs:60-89 | the character loop emits the text of the glob pieces, anchored, and parses it |
| `InputFilter.CompiledTextParses` | crates/fish-core/src/input_filter.rs:60-89 | the emitted text of every glob is well formed, and parses to what its pieces mean |
| `InputFilter.MeaningCovers` | crates/fish-core/src/input_filter.rs:71-84 | each emitted item matches exactly what its piece stands for, two-star forms within a line |
| `InputFilter.CompiledGlobDenotes` | crates/fish-core/src/input_filter.rs:60-89 | the expression accepts exactly what the glob denotes when two stars stay on one line |
| `GlobLaws.PlainGlob` | crates/fish-core/src/input_filter.rs:60-89 | a glob without stars and question marks matches itself and nothing else |
| `GlobLaws.PlainCharacter` | crates/fish-core/src/input_filter.rs:81-84 | any other character stands for itself |
| `GlobLaws.QuestionMark` | crates/fish-core/src/input_filter.rs:78 | a question mark stands for one character that is no slash |
| `GlobLaws.OneStar` | crates/fish-core/src/input_filter.rs:76 | a single star stands for any text without a slash |
| `GlobLaws.TwoStarsAnywhere` | crates/fish-core/src/input_filter.rs:71-74 | two stars stand for any text on one line |
| `GlobLaws.TwoStarsSlash` | crates/fish-core/src/input_filter.rs:71-74 | two stars and a slash stand for nothing or for directories on one line |
| `GlobLaws.TwoStarsSlashOnOneLine` | crates/fish-core/src/input_filter.rs:71-74 | on one-line text, such a glob matches exactly when its rest matches the text or what follows one of its slashes |
| `GlobLaws.MatchHasGlobsSlashes` | crates/fish-core/src/input_filter.rs:76-78 | a glob without two adjacent stars matches only texts with exactly as many slashes |
| `GlobLaws.NamePatternExample` | crates/fish-core/src/input_filter.rs:71-76 | "*.rs" matches "b.rs" and not "a/b.rs", which "**/*.rs" matches |
| `InputFilter.CompilationPreservesMeaning` | crates/fish-core/src/input_filter.rs:60-89 | on text without line breaks the expression accepts exactly what the glob denotes |
| `InputFilter.MeaningPreservedIff` | crates/fish-core/src/input_filter.rs:71-74 | all globs keep their meaning on a text if and only if it has no line break |
| `InputFilter.LineBreakExample` | crates/fish-core/src/input_filter.rs:71-74 | two stars denote a text with a line break, and the compiled expression refuses it |
| `InputFilter.CompileAll` | crates/fish-core/src/input_filter.rs:12-19 | no pattern is ever dropped: one expression a glob, in order |
| `InputFilter.MicroInputFilter.constructor` | crates/fish-core/src/input_filter.rs:11-25 | both lists hold the expressions of all given globs |
| `InputFilter.MicroInputFilter.Matches` | crates/fish-core/src/input_filter.rs:27-47 | accepts exactly when no exclude matches and the includes are empty or one of them matches, on the path with forward slashes; on one-line paths this is the globs' own meaning |
| `InputFilter.SomeMatch` | crates/fish-core/src/input_filter.rs:30-44 | the search through a list finds a match exactly when some glob matches |
| `Globs.OneLineAgrees` | crates/fish-core/src/input_filter.rs:71-74 | with no line break the two readings of two stars agree |

## Left out

- BatchScheduler.RunBatches: requires at least one worker; with none the source loop never ends.
- ScheduleOptimizer.OptimizeSchedule: the rounding of the estimated speed-up to two digits is not modelled.
- CriticalWeights.CriticalPathScheduler.ComputeCriticalWeights: sums are unbounded; overflow of 64-bit costs is not modelled.
- LruCache.LruCache.PutWithEvictions: sizes are unbounded; overflow of the 64-bit byte counter is not modelled. Hit counters, access counts and timestamps are left out, and every method is one atomic step under its locks.
- Prune.LocalCache.Prune: failing deletes, concurrent writers, nested object directories and unreadable modification times are not modelled; byte totals are unbounded.
- Prune.LocalCache.EvictByAge: file times are whole seconds; the finer order the source sorts by is one of the arbitrary orders covered.
- KeyCodec.DecodeKey: which bytes form valid text is a parameter.
- Chunking.NextLength: offsets and sizes are unbounded; only the window hash wraps at 64 bits.
- InputFilter.GlobToRegex: the compiled-size limit of the regex library is not modelled, nor syntax that compiled globs do not use.
- FileInvalidation.FileDependencyGraph.InvalidateWithDependents: paths are compared as text, not by components, and all are valid text; the lossy conversion of others is not modelled.
- TaskGraph.BuildTaskGraph: nodes carry name and fingerprint only; command lines, cache keys and the project fingerprint are parameters or left out.
- `SpinLockLruCache` repeats the recency list of `LruCache` without returning evictions.
- `PredictiveCache`, cache statistics, buffer pools and asynchronous input and output.
- `filter_paths`, which applies the filter to paths relative to a directory.
- `parse_dep_file` of the file-level cache.
- The other language backends, whose task loop is that of the TypeScript backend.
- `hash_directory_filtered`: its stream is not length-delimited, so it determines nothing.
- Garbage collection in `gc.rs` and storage eviction in `storage.rs`, easier forms of pruning.
- Executors, workers, remote caches, command line, user interfaces and templates.
