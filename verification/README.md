# adapter-os: a verified model

This project models six parts of adapter-os in Dafny and proves what they keep.

* **Work distribution and merging.** `TaskRouter` splits files over agents by chunking, in turns, or by
  packing clusters largest first, and re-splits the work of a failed agent. The result merger groups proposed
  edits by file and decides conflicts. The supervisor's health monitor restarts dead agents a bounded number of times.
* **Build-id agreement.** Any number of build scripts share a lock file and an atomically renamed id file. The
  same source holds the line-based Cargo.lock scanner and the crate manifest.
* **Hot swap.** Active, staged and saved slot maps, once as an object used serially and once as threads
  interleaving at every lock operation; a thread alone in the second does what the first promises.
* **Adapter cache.** An LRU list with a 64-bit byte counter, and the manager that loads through it.
* **AOS archives.** The writer, the loader's parser, and the writer module's own parser.
* **Component similarity.** Two hand-written Rust scanners in Python and a pruned pair search.

Code that changes state is modelled by classes and loops. Each is proved against a function or predicate on
values, about which the lasting properties are lemmas. Hash-map iteration is an arbitrary choice; clocks, spawns,
file contents, git output, hashes and path parents are parameters or nondeterministic.

## What the code does not keep

Some promises do not hold of the code. The model follows the code, shows the failure and proves the exact condition.

* The build scripts are documented to share one canonical id. They do exactly when `SOURCE_DATE_EPOCH` is set
  (`DivergeWithoutEpoch`, `AgreementExactlyWithEpoch`).
* The cache counter is documented as the cache size. Evictions are subtracted twice and clears not at all, so the
  limit can be overrun, with a counter too low (`DriftOverrunsLimit`) or wrapped around (`WrapOverrunsLimit`).
  Insertions are safe exactly while the counter lies between the resident sum and the limit (`LimitSafeExactly`),
  which runs without drift guarantee (`DriftlessRunsRespectLimit`).
* A failing swap is atomic when calls are serial (`Swap`) but not between threads (`FailedSwapIsNotAtomic`). It
  restores the map saved last (`RestoredExactly`), so it is undone in every interleaving exactly when at most one
  thread swaps (`AtomicExactlyForOneSwapper`).
* `evict_moe_for_size` is documented to free the requested bytes, oldest first. It starts with the most recently used
  (`MoeDropsMostRecent`) and, short of 2^64 bytes, frees nothing or everything (`EvictMoeForSizeIsAllOrNothing`).
* The two archive parsers differ exactly on files that are well formed after truncation and have a 64-bit field
  that `usize` cannot hold (`ParsersAgreeExactly`); where `usize` has 32 bits, one
  byte makes any archive below 4 GiB such a file (`ParsersDiffer`).
* The manifest serialiser does not escape quotes. It is injective on quote-free lists (`ManifestInjective`); over all
  lists a manifest identifies its list only in the cases `IdentifiedExactly` names.
* The merger accepts a deletion beside a rename, and whole-file edits beside others (`MixedDeletionExactly`,
  `WholeFileEditsPass`), under exactly the conditions stated there. Its unresolvable-conflict error is unreachable (`Merge`).
* The Rust scanners do not close a raw string that is directly followed by one more hash sign (`RawReadsOn`). All
  other text written from Rust lexemes, kept apart where two would run together, they read as Rust does (`ProgramScans`).
* Semantic splitting with precomputed clusters distributes the files of the clusters, not the files in scope: the
  work handed out is then the clusters' content (`CreateAssignments`, `ScopeIsReplaced`).

## Model

| member | source | states |
|---|---|---|
| `LoadBalance.SumLoadsIsTotal` | crates/adapteros-agent-spawn/src/task_router.rs:311-321 | However jobs are placed, the loads of all machines add up to the total work |
| `LoadBalance.SmallJobOrItFits` | crates/adapteros-agent-spawn/src/task_router.rs:297-333 | The heart of the largest-first bound: if the smallest, last job fits on no machine within what some other schedule needs, it is at most a third of that |
| `LoadBalance.LastJobAverages` | crates/adapteros-agent-spawn/src/task_router.rs:311-321 | When the last job lands on a least-loaded machine, m times what that machine carried plus the job is at most m times the heaviest load of any other schedule |
| `LoadBalance.GreedyWithinTwice` | crates/adapteros-agent-spawn/src/task_router.rs:297-333 | Greedy placement in any order: the heaviest load is at most (2 - 1/m) times the heaviest load of every other schedule of the same jobs |
| `LoadBalance.LargestFirstWithinFourThirds` | crates/adapteros-agent-spawn/src/task_router.rs:297-333 | Graham's theorem: greedy placement of jobs sorted largest first is within (4/3 - 1/(3m)) of every other schedule |
| `TightPacking.FourThirdsIsTight` | crates/adapteros-agent-spawn/src/task_router.rs:297-333 | The factor cannot be lowered for any number of machines: for every m there are jobs on which the greedy rule attains it with equality |
| `LoadBalance.GreedyIsLevel` | crates/adapteros-agent-spawn/src/task_router.rs:297-333 | No two loads of a greedy schedule differ by more than the largest job |
| `TaskRouter.ChunkingIsFair` | crates/adapteros-agent-spawn/src/task_router.rs:212-244 | Chunks of the ceiling-division size concatenate to the input in order, none is empty or oversized, and there are never more chunks than agents |
| `TaskRouter.DealtIsInTurns` | crates/adapteros-agent-spawn/src/task_router.rs:247-269 | Dealing puts file n in bucket n mod m at place n / m |
| `TaskRouter.PaddedChunks` | crates/adapteros-agent-spawn/src/task_router.rs:212-244 | Chunks padded with empty buckets hold file n of the input at place n mod c of bucket n / c |
| `TaskRouter.SplitByFileOwnership` | crates/adapteros-agent-spawn/src/task_router.rs:212-244 | Exactly one scope per agent, idle ones included; file n of the input is file n mod c of agent n / c, where c is the ceiling share, so the owned files in order are the input; nothing else is in a scope |
| `TaskRouter.DealtConserves` | crates/adapteros-agent-spawn/src/task_router.rs:247-269 | Dealing in turns puts every file, with its multiplicity, in exactly one bucket |
| `TaskRouter.DealtAt` | crates/adapteros-agent-spawn/src/task_router.rs:255-257 | The k-th file of bucket i is input file k*m + i, so buckets keep the input order |
| `TaskRouter.RoundRobinIsLevel` | crates/adapteros-agent-spawn/src/task_router.rs:247-269 | Round-robin bucket sizes differ by at most one |
| `TaskRouter.SplitRoundRobin` | crates/adapteros-agent-spawn/src/task_router.rs:247-269 | One scope per agent, and file n of the input is file n / m of agent n mod m: each file is dealt once, in turn, and shares differ by at most one |
| `ClusterPacking.SortPermutes` | crates/adapteros-agent-spawn/src/task_router.rs:306-308 | Sorting clusters by size permutes the clusters, and with them the files |
| `ClusterPacking.SortBySizeIsStable` | crates/adapteros-agent-spawn/src/task_router.rs:306-308 | Clusters of equal size keep their order |
| `ClusterPacking.SortKeepsLoads` | crates/adapteros-agent-spawn/src/task_router.rs:306-308 | Every assignment of the clusters as given has a counterpart for the sorted clusters with the same load on every agent |
| `ClusterPacking.LeastLoaded` | crates/adapteros-agent-spawn/src/task_router.rs:312-317 | The chosen bucket is least loaded, and the first among ties |
| `ClusterPacking.PackingWithinFourThirds` | crates/adapteros-agent-spawn/src/task_router.rs:297-333 | The heaviest bucket of the packing, in files, is within (4/3 - 1/(3m)) of the heaviest bucket of any assignment of the same clusters in their original order |
| `ClusterPacking.PackingIsLevel` | crates/adapteros-agent-spawn/src/task_router.rs:297-333 | The heaviest and the lightest bucket differ by at most the largest cluster |
| `ClusterPacking.PackingConserves` | crates/adapteros-agent-spawn/src/task_router.rs:297-333 | A packing loses and duplicates no file, and keeps every cluster contiguous in one bucket |
| `ClusterPacking.SplitClusters` | crates/adapteros-agent-spawn/src/task_router.rs:297-333 | The packing loop yields one scope per agent and follows the largest-first greedy rule with ties to the first bucket, so the bounds above apply to it |
| `Assignments.GroupByDirectory` | crates/adapteros-agent-spawn/src/task_router.rs:285-290 | Groups exist exactly for the parent directories that occur, each holding its files in input order |
| `Assignments.ListGroups` | crates/adapteros-agent-spawn/src/task_router.rs:292-293 | In whatever order the hash map yields them, the groups together are exactly the input files, and every group is listed once |
| `Assignments.SplitSemantic` | crates/adapteros-agent-spawn/src/task_router.rs:272-294 | The scopes are a packing of the precomputed clusters, or of the directory groups when there are none; without clusters the owned files are the input files as a multiset |
| `Assignments.SplitWork` | crates/adapteros-agent-spawn/src/task_router.rs:182-209 | One scope per agent under every strategy: in turns for round robin, in consecutive chunks for ownership and regions, packed within Graham's bound for the semantic split; the files split are the targets, or all files when there are none |
| `Assignments.CreateAssignments` | crates/adapteros-agent-spawn/src/task_router.rs:137-179 | Fails exactly on an empty agent list; otherwise one assignment per agent with that agent's subtask id and sequence number, and the files are handed out in turns, in chunks or packed within Graham's bound as the strategy says: pairing agents with scopes drops neither. The files in scope are what is handed out exactly when precomputed clusters are unused or hold the same files |
| `Assignments.ScopeIsReplaced` | crates/adapteros-agent-spawn/src/task_router.rs:272-282 | A task and clusters for which the file asked for is not handed out |
| `Assignments.RebalanceConserves` | crates/adapteros-agent-spawn/src/task_router.rs:344-392 | A failed agent's files go, in order and complete, to a prefix of the survivors in non-empty chunks, file n to survivor n / c for the ceiling share c, with the failed task's objective and context; it fails exactly when nobody survives |
| `Assignments.FailMoves` | crates/adapteros-agent-spawn/src/task_router.rs:344-392 | A failure replaces the failed entry of the board by its parts, one per surviving agent that gets any, and leaves every other entry alone; without survivors it changes nothing |
| `Assignments.EveryRunConserves` | crates/adapteros-agent-spawn/src/task_router.rs:344-392 | Over every sequence of failures and rebalances the outstanding work is the same files in the same order |
| `ResultMerger.HasOverlappingRanges` | crates/adapteros-agent-spawn/src/result_merger.rs:338-354 | Finds an overlap exactly when two of the edits both have line ranges and these overlap |
| `ResultMerger.OverlapShares` | crates/adapteros-agent-spawn/src/result_merger.rs:342-349 | Two ranges that do not run backwards overlap exactly when some line lies in both |
| `ResultMerger.DetectConflict` | crates/adapteros-agent-spawn/src/result_merger.rs:288-335 | Reports exactly the conflict class the kinds and ranges of the edits determine |
| `ResultMerger.NoConflictExactly` | crates/adapteros-agent-spawn/src/result_merger.rs:288-335 | Several edits of a file pass as conflict-free exactly when every two are compatible (disjoint modifications, or deletions and renames) and they are not all renames |
| `ResultMerger.ConflictIsNamed` | crates/adapteros-agent-spawn/src/result_merger.rs:288-335 | The conflict reported is the one the edits show: a deletion beside a change, a creation beside a modification, overlapping ranges, or repeated creations or renames |
| `ResultMerger.MostConfident` | crates/adapteros-agent-spawn/src/result_merger.rs:365-383 | The winner is exceeded by nobody, with NaN below every number, and is the last such |
| `ResultMerger.Earliest` | crates/adapteros-agent-spawn/src/result_merger.rs:385-398 | The winner comes from the earliest proposal, and is its first edit of the file |
| `ResultMerger.Latest` | crates/adapteros-agent-spawn/src/result_merger.rs:400-413 | The winner comes from the latest proposal, and is its last edit of the file |
| `ResultMerger.AcceptedIsDecided` | crates/adapteros-agent-spawn/src/result_merger.rs:357-414 | Of conflicting edits in proposal order exactly one is accepted: the first under first-wins, the last under last-wins, under highest-confidence one that none exceeds and all later ones fall short of, NaN lowest; none under review; of edits that do not conflict, all |
| `ResultMerger.AcceptedAreCompatible` | crates/adapteros-agent-spawn/src/result_merger.rs:203-230 | No two edits accepted for a file conflict, under any strategy |
| `ResultMerger.EveryFileAccountedFor` | crates/adapteros-agent-spawn/src/result_merger.rs:203-230 | A file with proposed edits has some accepted or is unresolved, never both and never neither; nothing unproposed is accepted |
| `ResultMerger.MixedDeletionExactly` | crates/adapteros-agent-spawn/src/result_merger.rs:288-335 | A deletion is accepted beside another kind of edit exactly when a file is deleted and renamed and neither created nor modified: deletion never mixes with creation or modification |
| `ResultMerger.MixedDeletionWitness` | crates/adapteros-agent-spawn/src/result_merger.rs:288-335 | A file deleted by one proposal and renamed by another: both edits are accepted |
| `ResultMerger.WholeFileEditsPass` | crates/adapteros-agent-spawn/src/result_merger.rs:338-354 | A modification without a line range is accepted beside another edit exactly when the edits are several modifications, one of them without a range, whose given ranges are disjoint |
| `ResultMerger.WholeFileWitness` | crates/adapteros-agent-spawn/src/result_merger.rs:338-354 | A modification of a whole file and one of some of its lines are both accepted, whatever the lines |
| `MergePlan.GroupByPath` | crates/adapteros-agent-spawn/src/result_merger.rs:185-196 | A path has a group exactly when some edit names it, and the group is all its edits in proposal order |
| `MergePlan.AllItemsAt` | crates/adapteros-agent-spawn/src/result_merger.rs:185-196 | Edit i of proposal n stands after all edits of earlier proposals and the first i of its own, with that proposal's position and confidence |
| `MergePlan.ForAt` | crates/adapteros-agent-spawn/src/result_merger.rs:185-196 | An edit stands in its file's group right after the edits of that file before it |
| `MergePlan.MergeFile` | crates/adapteros-agent-spawn/src/result_merger.rs:203-230 | What one file contributes: exactly the edits the strategy decides on, a conflict report exactly when it stays unresolved, and whether a conflict was resolved |
| `MergePlan.Merge` | crates/adapteros-agent-spawn/src/result_merger.rs:168-285 | In every iteration order, for every file, the plan's edits of it are in order the ones the strategy decides on: all when they are compatible, else the first, the last, the most confident or none; each unresolved file is reported exactly once with all its edits and the conflict they show; the resolved count is the number of resolved files; the result is never the unresolvable-conflict error |
| `MergePlan.PlanIsCompatible` | crates/adapteros-agent-spawn/src/result_merger.rs:168-285 | Any two edits of the same file anywhere in a merged plan are compatible |
| `HealthMonitor.EveryHistory` | crates/adapteros-agent-spawn/src/supervisor.rs:145-195 | In every run a listed agent has been restarted exactly as often as its count, at most max times; a removed one was restarted exactly max times and then marked dead once, as its last event; an unlisted one has no events |
| `HealthMonitor.GoneForGood` | crates/adapteros-agent-spawn/src/supervisor.rs:155-170 | A removed agent never returns and nothing further happens to it |
| `HealthMonitor.BudgetBalances` | crates/adapteros-agent-spawn/src/supervisor.rs:145-195 | Every dead check logs one event and spends exactly one unit of the sum of (max - count + 1) over listed agents: spent plus remaining is always agents times (max + 1) |
| `HealthMonitor.DeadChecksBounded` | crates/adapteros-agent-spawn/src/supervisor.rs:145-195 | The number of dead checks never exceeds agents times (max + 1), and equals it exactly when no agent is left |
| `HealthMonitor.Supervisor.SpawnAll` | crates/adapteros-agent-spawn/src/supervisor.rs:83-133 | Exactly the agents that came up are listed, each with the handle of its last success in the list and a zero count; an error exactly when none came up, an empty configuration included |
| `HealthMonitor.Supervisor.CheckAgent` | crates/adapteros-agent-spawn/src/supervisor.rs:159-192 | One agent of the snapshot: restart below the limit, mark dead and remove at it, untouched when alive |
| `HealthMonitor.Supervisor.Sweep` | crates/adapteros-agent-spawn/src/supervisor.rs:153-193 | A sweep is a possible run of checks, and what it does to each agent is the same in every iteration order |
| `BuildIdFormat.TrimTrims` | build_support/aos_build_id.rs:164-166 | The input is white space, the result, white space; the result has no white space at either end, and exactly the strings without any are left alone |
| `BuildIdFormat.TrimFinds` | build_support/aos_build_id.rs:164-166 | Whatever trimmed text stands between white space is what trimming finds |
| `BuildIdFormat.ParseSplits` | build_support/aos_build_id.rs:164-174 | A parsed id, trimmed, is its prefix, a dash and its timestamp, with a non-empty prefix and fourteen digits |
| `BuildIdFormat.FormatRoundTrip` | build_support/aos_build_id.rs:159-174 | Joining a descriptor and a timestamp parses back to the same two parts exactly when the descriptor is non-empty without leading space and the timestamp is fourteen digits, whatever dashes the descriptor contains |
| `BuildIdProtocol.StepKeepsInvariant` | build_support/aos_build_id.rs:308-424 | Every file-system step of every process keeps lock ownership and the rightfulness of all pending and returned ids |
| `BuildIdProtocol.MutualExclusion` | build_support/aos_build_id.rs:207-227 | In every interleaving at most one process is between creating and removing the lock file |
| `BuildIdProtocol.OnlyHolderReplaces` | build_support/aos_build_id.rs:184-201 | Whenever the file changes, the step was a rename by the lock holder, and the new content is an id that holder may use |
| `BuildIdProtocol.OkIdIsRightful` | build_support/aos_build_id.rs:308-424 | Every id returned is the override, or parses to the process's own git descriptor and to its expected timestamp when one is set |
| `BuildIdProtocol.OkIdWasInFile` | build_support/aos_build_id.rs:308-424 | Every id returned was, up to surrounding white space, the file's content at some moment of the run |
| `BuildIdResolution.FastPath` | build_support/aos_build_id.rs:355-362 | In every run, a process that starts and finds in the file its own descriptor, a dash and a timestamp it takes returns exactly that and touches neither file nor lock |
| `BuildIdResolution.SlowPath` | build_support/aos_build_id.rs:355-383 | One that does not find it goes on to the lock, touching nothing yet |
| `BuildIdResolution.WaitFindsOwn` | build_support/aos_build_id.rs:270-292 | A waiting process that reads its own id returns it unless its time is up, and one that does not goes back to the lock; neither writes |
| `BuildIdResolution.WaitGoesOn` | build_support/aos_build_id.rs:270-292 | Having read in vain it reads again exactly while the lock is there, and gives up once it is gone |
| `BuildIdResolution.WaitersNeverWrite` | build_support/aos_build_id.rs:270-292 | A process that found the lock taken never takes it or writes the file afterwards, in any run |
| `BuildIdResolution.AloneResolves` | build_support/aos_build_id.rs:308-424 | A process on its own that returns an id returns its own id found in the file, which stays as it was, or else its descriptor with a fresh timestamp, which is then what the file holds |
| `BuildIdResolution.OverrideStarts` | build_support/aos_build_id.rs:318-352 | An override that is no id is an error; one the file holds already is returned at once; any other goes to the lock |
| `BuildIdResolution.OverrideResolves` | build_support/aos_build_id.rs:318-352 | A process with an override, on its own, that returns an id returns the override without the white space around it, and the file then holds it |
| `BuildIdProtocol.DivergeWithoutEpoch` | build_support/aos_build_id.rs:375-424 | A run in which two processes at the same commit return different ids, because the generating path does not re-read the file under the lock |
| `BuildIdProtocol.AgreementExactlyWithEpoch` | build_support/aos_build_id.rs:308-424 | Two processes at the same commit and epoch return the same id in every run exactly when the epoch is set |
| `CargoLock.InsertUpdates` | build_support/aos_build_id.rs:458-462 | Inserting a pair keeps keys sorted and updates the map at that key only |
| `CargoLock.UnquoteStrips` | build_support/aos_build_id.rs:522-524 | The argument is quotes, the result, quotes, and the result has no quote at either end |
| `CargoLock.UnquoteFinds` | build_support/aos_build_id.rs:522-524 | Whatever stands between quotes, and begins and ends with none, is what is found |
| `CargoLock.SortedUnique` | build_support/aos_build_id.rs:448-496 | A sorted list of pairs is determined by the map it stands for |
| `CargoLock.VersionsFound` | build_support/aos_build_id.rs:435-497 | A name is in the result exactly when it was requested and some complete package block lists it |
| `CargoLock.VersionsAreLast` | build_support/aos_build_id.rs:435-497 | The version of a name is the one in the last complete block listing it, never one from another block |
| `CargoLock.ParseCrateVersions` | build_support/aos_build_id.rs:435-497 | The line scanner returns, sorted by name, exactly the map that a block-by-block reading of the lock file defines |
| `LockFile.BlockReads` | build_support/aos_build_id.rs:448-496 | The block of a package, wherever it stands in a file and whatever other lines it has, reads as its name and version |
| `LockFile.ReadLockFile` | build_support/aos_build_id.rs:435-497 | Of a file that lists packages, exactly the requested names that are listed are read, sorted, each with the version of its last listing |
| `CrateManifest.SerializeCrateManifest` | build_support/aos_build_id.rs:504-518 | The loop writes the manifest text of the list: entries in order, comma separated, none after the last |
| `CrateManifest.ManifestInjective` | build_support/aos_build_id.rs:504-518 | On quote-free pairs, different lists have different manifests |
| `CrateManifest.MergedCollides` | build_support/aos_build_id.rs:504-518 | Every list of two or more entries shares its manifest with a shorter list, which is sorted if the list was |
| `CrateManifest.IdentifiedExactly` | build_support/aos_build_id.rs:504-518 | No other list has the same manifest exactly when the list is empty, or is a single entry whose name and version contain the separator between them only once |
| `CrateManifest.QuotesCollide` | build_support/aos_build_id.rs:504-518 | Two crates, and one crate with quotes in its version, share one manifest |
| `HotSwap.SwappableIsComplete` | crates/adapteros-aos/src/hot_swap.rs:101-134 | A slot list has no first missing slot exactly when it has no repeats and every slot is staged |
| `HotSwap.HotSwapManager.Preload` | crates/adapteros-aos/src/hot_swap.rs:83-98 | Stages the loaded adapter, replacing what was staged; fails exactly without a loader or on a failed load, saying which, and then changes nothing |
| `HotSwap.HotSwapManager.PreloadMoe` | crates/adapteros-aos/src/hot_swap.rs:197-230 | As preload, and also refuses an adapter that is not MoE, naming the slot |
| `HotSwap.HotSwapManager.Swap` | crates/adapteros-aos/src/hot_swap.rs:101-134 | Succeeds exactly when the slots are distinct and all staged, and then moves exactly those; otherwise the active map is as before, the first missing slot is named, and the staged slots before it are consumed |
| `HotSwap.HotSwapManager.RollbackInternal` | crates/adapteros-aos/src/hot_swap.rs:150-160 | Restores the saved map, or fails and changes nothing when none is saved |
| `HotSwap.HotSwapManager.Rollback` | crates/adapteros-aos/src/hot_swap.rs:142-148 | The public rollback: the saved map becomes active and stays saved |
| `HotSwap.HotSwapManager.SwapMoe` | crates/adapteros-aos/src/hot_swap.rs:236-259 | Succeeds exactly when the slots are distinct, all staged and all MoE; a missing or non-MoE slot changes none of the three maps, and the first such slot is named with its fault |
| `HotSwap.SwapThenRollback` | crates/adapteros-aos/src/hot_swap.rs:101-160 | Rollback after any swap attempt restores the active map, and a second rollback keeps it |
| `HotSwapLocks.LockOrder` | crates/adapteros-aos/src/hot_swap.rs:101-160 | No operation asks for a lock while holding one of the same or a later rank, active being first |
| `HotSwapLocks.NoWaitCycle` | crates/adapteros-aos/src/hot_swap.rs:83-259 | No chain of threads each waiting for the next closes into a cycle |
| `HotSwapLocks.NeverStuck` | crates/adapteros-aos/src/hot_swap.rs:83-259 | While any thread is inside an operation some thread can take a step, even when writers are preferred over readers |
| `HotSwapLocks.ActiveWasPreloaded` | crates/adapteros-aos/src/hot_swap.rs:83-160 | In every lock-granular interleaving, whatever is active or saved at a slot was preloaded for that slot earlier in the run |
| `HotSwapLocks.OnlyWritersChange` | crates/adapteros-aos/src/hot_swap.rs:83-160 | Each map changes only in a step of the one thread that holds its lock for writing, with no other holder |
| `HotSwapSolo.SwapAlone` | crates/adapteros-aos/src/hot_swap.rs:101-134 | A swap by a thread alone inside runs to its end lock by lock and leaves exactly what the serial swap promises, success or failure |
| `HotSwapSolo.SwapMoeAlone` | crates/adapteros-aos/src/hot_swap.rs:236-259 | Likewise an MoE swap: the serial swap when every slot is staged with an MoE adapter, and otherwise nothing changes |
| `HotSwapSolo.RollbackAlone` | crates/adapteros-aos/src/hot_swap.rs:142-160 | Likewise a rollback: the saved map becomes active and nothing else changes |
| `HotSwapSolo.PreloadAlone` | crates/adapteros-aos/src/hot_swap.rs:83-98 | Likewise a preload: the slot is staged and nothing else changes |
| `HotSwapAtomicity.UndoRestoresLastSave` | crates/adapteros-aos/src/hot_swap.rs:101-160 | In every interleaving an undo makes active the map recorded by the last save before it, whichever thread saved |
| `HotSwapAtomicity.RestoredExactly` | crates/adapteros-aos/src/hot_swap.rs:101-160 | A failed swap restores what was active when it saved exactly when the last save before its undo recorded that same map |
| `HotSwapAtomicity.SoleSwapperRestores` | crates/adapteros-aos/src/hot_swap.rs:101-160 | A failed swap restores the active map when no other thread saves between its save and its undo |
| `HotSwapAtomicity.FailedSwapIsNotAtomic` | crates/adapteros-aos/src/hot_swap.rs:101-160 | For any two of any number of threads, a run in which a failed swap leaves its slot active and a successful swap is lost |
| `HotSwapAtomicity.AtomicExactlyForOneSwapper` | crates/adapteros-aos/src/hot_swap.rs:101-160 | Every failed swap of every interleaving restores the active map exactly when at most one thread swaps |
| `CacheModel.UpdateSizeMoves` | crates/adapteros-aos/src/metrics.rs:71-84 | Through the signed casts, for every u64 size, the counter moves up or down by the size modulo 2^64 |
| `CacheLedger.EvictLoopEffect` | crates/adapteros-aos/src/cache.rs:129-155 | The eviction loop removes a least-recently-used prefix and subtracts each removed size once |
| `CacheLedger.LedgerLaw` | crates/adapteros-aos/src/cache.rs:68-264 | After every sequence of operations the counter is the resident sum minus the bytes subtracted twice plus the bytes cleared, modulo 2^64 |
| `CacheLedger.CounterIsResident` | crates/adapteros-aos/src/cache.rs:68-264 | In runs without double subtraction or clearing the counter is exactly the resident sum |
| `CacheLedger.EvictionIsMinimal` | crates/adapteros-aos/src/cache.rs:129-155 | With an accurate counter, making room removes exactly the shortest prefix of the list that suffices, never underflows, and fails exactly when the new size alone exceeds the limit, leaving the cache empty; by `UseOrder` that prefix is the least recently used |
| `CacheLedger.MakesRoomSoundlyExactly` | crates/adapteros-aos/src/cache.rs:129-155 | With an accurate counter, making room succeeds for exactly the sizes within the limit and never underflows, if and only if resident and needed bytes together stay below 2^64 |
| `CacheLedger.InsertWithinLimit` | crates/adapteros-aos/src/cache.rs:68-89 | While the counter is not below the resident sum and does not wrap around with the new size, an insertion keeps the resident sum within a positive limit |
| `CacheLedger.LimitSafeExactly` | crates/adapteros-aos/src/cache.rs:68-89 | In a cache within its limit, full or not, all insertions, of new or cached paths, keep it so exactly when the counter lies between the resident sum and the limit |
| `CacheLedger.SafeSizesExactly` | crates/adapteros-aos/src/cache.rs:68-89 | With an accurate counter, insertions of up to a given size are safe exactly when that size and the resident sum together stay below 2^64 |
| `CacheLedger.CapacityHolds` | crates/adapteros-aos/src/cache.rs:68-111 | In every run the cache holds no more adapters than its capacity |
| `CacheLedger.DriftlessRunsRespectLimit` | crates/adapteros-aos/src/cache.rs:68-264 | In every run without drift the resident sum stays within a positive limit |
| `CacheLedger.DriftOverrunsLimit` | crates/adapteros-aos/src/cache.rs:129-155 | Sizes 60, 60, 100 under a limit of 100: the counter falls to zero and 160 bytes end up resident |
| `CacheLedger.WrapOverrunsLimit` | crates/adapteros-aos/src/cache.rs:129-155 | Sizes 60, 50, 60 under a limit of 100: the counter wraps below zero and 110 bytes end up resident |
| `LruOrder.UseOrder` | crates/adapteros-aos/src/cache.rs:53-111 | Over every run from an empty cache every entry was got or inserted at some operation, and the entries stand in the order of the last such operation |
| `LruOrder.InsertDropsLeastRecent` | crates/adapteros-aos/src/cache.rs:68-155 | A path that an insertion drops, to make room or because the cache is full, was last used before every other path it keeps |
| `LruOrder.InsertLeaves` | crates/adapteros-aos/src/cache.rs:68-155 | An insertion that fails leaves nothing; one that succeeds leaves the entries of other paths from some point on and the new entry last; without a size limit only a full cache loses one, its oldest |
| `LruOrder.MoeDropsMostRecent` | crates/adapteros-aos/src/cache.rs:220-264 | Making room among MoE adapters drops MoE adapters only, each last used after every MoE adapter it keeps |
| `LruOrder.StepLeaves` | crates/adapteros-aos/src/cache.rs:53-264 | What each operation leaves of the entries it finds: a get all of them, a removal those of other paths, an insertion the new entry and only entries of other paths, an MoE eviction the rest |
| `LruOrder.CachedIsLastInserted` | crates/adapteros-aos/src/cache.rs:53-264 | Over every run from an empty cache, what is cached for a path is what was last inserted for it |
| `LruOrder.LookupFinds` | crates/adapteros-aos/src/cache.rs:53-66 | A lookup returns exactly the cached adapter of the path, and nothing exactly when none is cached |
| `LruAdapterCache.AdapterCache.constructor` | crates/adapteros-aos/src/cache.rs:35-47 | A new cache is empty with a zero counter |
| `LruAdapterCache.AdapterCache.Get` | crates/adapteros-aos/src/cache.rs:53-66 | Returns what is cached for the path and makes it the most recently used, in the order `UseOrder` proves of every run; nothing else changes |
| `LruAdapterCache.AdapterCache.EvictForSize` | crates/adapteros-aos/src/cache.rs:129-155 | The loop on the object computes the eviction whose minimality and ledger effect are proved above |
| `LruAdapterCache.AdapterCache.Insert` | crates/adapteros-aos/src/cache.rs:68-89 | Room is made first; on success the pair is stored, displacing the same path or the oldest entry when full; on failure nothing is stored |
| `LruAdapterCache.AdapterCache.Remove` | crates/adapteros-aos/src/cache.rs:91-101 | Removes and returns what was cached for the path, subtracting its size once |
| `LruAdapterCache.AdapterCache.Clear` | crates/adapteros-aos/src/cache.rs:108-111 | Empties the list and leaves the counter as it was |
| `LruAdapterCache.AdapterCache.EvictAllMoeAdapters` | crates/adapteros-aos/src/cache.rs:191-213 | Exactly the MoE adapters go, the order of the others kept; their total is returned modulo 2^64 and subtracted twice |
| `LruAdapterCache.AdapterCache.MoeSizeBytes` | crates/adapteros-aos/src/cache.rs:170-177 | The total size of the MoE adapters modulo 2^64 |
| `LruAdapterCache.AdapterCache.EvictMoeForSize` | crates/adapteros-aos/src/cache.rs:220-264 | MoE adapters go from the most recently used end until what was freed, modulo 2^64, suffices or none is left; the others keep their order, and success is reported exactly when it sufficed |
| `LruAdapterCache.EvictMoeForSizeIsAllOrNothing` | crates/adapteros-aos/src/cache.rs:220-264 | While the MoE adapters hold fewer than 2^64 bytes: 0 bytes freed and nothing changed, exactly when they hold at least the requested size, or every MoE adapter and no other removed, and failure |
| `LruAdapterCache.WrappedMoeEvictsSome` | crates/adapteros-aos/src/cache.rs:220-264 | Two MoE adapters of 2^63 bytes: their sum wraps to zero, one is evicted and the call succeeds |
| `AosManager.LoadIsTransparent` | crates/adapteros-aos/src/manager.rs:23-40 | After every sequence of loads, evictions and clears, a load answers what the uncached loader answers, except for a failure to make room, which occurs exactly on an uncached path whose insertion fails |
| `AosManager.CallsReach` | crates/adapteros-aos/src/manager.rs:23-108 | Whatever cache the manager's calls lead to, some run of cache operations leads to, so the laws of cache runs hold of it |
| `AosManager.LoadCaches` | crates/adapteros-aos/src/manager.rs:23-40 | After every sequence of calls, an adapter loaded through the cache is cached: the next load finds it there |
| `AosManager.CannotMakeRoomMeansTooLarge` | crates/adapteros-aos/src/manager.rs:23-40 | With an accurate counter, room fails to be made only for an uncached adapter larger than the whole positive limit, and for all of these whose size does not wrap around with the resident sum |
| `AosManager.AosManager.LoadAdapter` | crates/adapteros-aos/src/manager.rs:23-40 | Any answer other than failing to make room is the loader's own, and the cache stays faithful to the loader |
| `AosManager.AosManager.Evict` | crates/adapteros-aos/src/manager.rs:96-102 | Returns what the loader would return for the path if it was cached, and keeps the cache faithful |
| `AosManager.AosManager.ClearCache` | crates/adapteros-aos/src/manager.rs:104-108 | Clears the cache, if there is one |
| `AosManager.AosManager.EvictMoeAdapters` | crates/adapteros-aos/src/manager.rs:277-283 | Drops the MoE adapters and reports their total, 0 without a cache |
| `AosFormat.LERoundTrip` | crates/adapteros-aos/src/implementation.rs:57-88 | A number that fits its width is read back from its little-endian bytes |
| `AosReader.HeaderParses` | crates/adapteros-aos/src/implementation.rs:44-136 | The header is accepted exactly when well formed, for every usize width, and the check at 103-107 never fires |
| `AosReader.EntryParses` | crates/adapteros-aos/src/implementation.rs:138-206 | An entry is accepted exactly when well formed and yields the segment it describes, and the check at 181-185 never fires |
| `AosReader.OpenAos` | crates/adapteros-aos/src/implementation.rs:44-207 | Over every byte string and usize width: no out-of-bounds access, it accepts exactly the well-formed archives, with a view showing exactly their manifest and segments, and otherwise names a fault that the header, or the first bad entry, really has |
| `AosDamage.UnmarkedIsRefused` | crates/adapteros-aos/src/implementation.rs:44-107 | Nothing is accepted without a magic number, an odd flag byte, 64 as index offset and zeros in the reserved header bytes |
| `AosDamage.CutIsRefused` | crates/adapteros-aos/src/implementation.rs:44-136 | A written archive with its end cut off, however little, is refused |
| `AosDamage.DamagedPayloadIsRefused` | crates/adapteros-aos/src/implementation.rs:138-206 | A written archive in which a payload was changed into one with another hash is refused |
| `AosDamage.ShownIsHashed` | crates/adapteros-aos/src/implementation.rs:138-206 | Every payload shown has the hash its entry records |
| `AosLayout.ArchiveRoundTrip` | crates/adapteros-aos/src/writer.rs:314-365 | An archive in the written layout is well formed and shows one thing only: the manifest and the segments in order, with their tags, ids, scope and weight hashes |
| `AosLayout.PayloadAt` | crates/adapteros-aos/src/writer.rs:288-324 | Each payload is found at the offset its entry gives, between the index and the manifest |
| `AosLayout.ShowsUnique` | crates/adapteros-aos/src/implementation.rs:44-207 | A well-formed archive determines its manifest and segments |
| `AosArchive.BuildIndex` | crates/adapteros-aos/src/writer.rs:288-324 | The index loop succeeds exactly on acceptable segments and produces the 80-byte entries with running offsets |
| `AosArchive.WriteArchive` | crates/adapteros-aos/src/writer.rs:229-389 | Succeeds exactly when a canonical segment and a scope path are present, offsets fit, and each segment carries the hash of its payload and a zero or matching scope hash; otherwise names what is wrong, of segments the first at fault; writes header, index, payloads, manifest |
| `AosArchive.WriteThenOpen` | crates/adapteros-aos/src/writer.rs:229-389 | Whatever the writer accepts and the platform can hold, the loader opens, with the same manifest bytes and the same segments in order |
| `AosArchive.AosWriter.AddSegment` | crates/adapteros-aos/src/writer.rs:193-215 | Queues the segment with its hashes under the next id, which wraps at 2^32 |
| `AosArchive.AosWriter.ClearSegments` | crates/adapteros-aos/src/writer.rs:218-220 | No segment is queued any more |
| `AosTruncatingReader.ParseSegments` | crates/adapteros-aos/src/writer.rs:457-561 | Accepts exactly the indexes whose entries are well formed after truncation to usize |
| `AosTruncatingReader.OpenTruncating` | crates/adapteros-aos/src/writer.rs:564-587 | The second parser opens exactly the archives that are well formed after truncating 64-bit fields to usize, and otherwise names a fault that the truncated header, or the first bad entry, really has |
| `AosTruncatingReader.ParsersAgreeExactly` | crates/adapteros-aos/src/writer.rs:409-587 | The loader accepts an archive exactly when this parser does and no field was truncated; on 64-bit platforms the two always agree |
| `AosTruncatingReader.ParsersDiffer` | crates/adapteros-aos/src/writer.rs:409-587 | Every archive shorter than 4 GiB becomes, with one byte changed, one that this parser opens on a 32-bit platform and the loader refuses |
| `RustScanner.TokensTile` | scripts/ui_component_similarity.py:178-292 | Tokens cover the text without gap or overlap, each beginning where and in the mode in which the one before ended |
| `RustScanner.MatchStep` | scripts/ui_component_similarity.py:189-290 | One turn of the brace matcher moves and changes mode as the lexer does, and counts exactly the braces met in code |
| `RustScanner.FindMatchingBrace` | scripts/ui_component_similarity.py:178-292 | The first closing brace in code at which the depth returns to zero; -1 exactly when there is none; `MatchProgram` says which brace that is in Rust text |
| `RustScanner.RawOpening` | scripts/ui_component_similarity.py:135-149 | The rebuilt opening of a raw string is the text itself |
| `RustScanner.StripStep` | scripts/ui_component_similarity.py:64-173 | One turn of the comment remover moves and changes mode as the lexer does, and emits the token unless it is comment, keeping the newline that ends a line comment |
| `RustScanner.RemoveComments` | scripts/ui_component_similarity.py:53-175 | The output is the text with exactly its comment tokens removed, newlines ending line comments kept; `CleanProgram` says what these are in Rust text |
| `ScannerAgreement.AdvanceInSlice` | scripts/ui_component_similarity.py:314-323 | Cutting the text at a brace that will be read as code changes no token before it |
| `ScannerAgreement.SliceTokens` | scripts/ui_component_similarity.py:314-323 | Up to the matched brace the body lexes alone as it does in the file |
| `ScannerAgreement.BodyLexesInPlace` | scripts/ui_component_similarity.py:314-323 | For a matched body the two scanners put every character in the same mode, and no literal or comment is open at its end |
| `ScannerAgreement.BodyBalances` | scripts/ui_component_similarity.py:178-292 | Between an opening brace and its match the braces in code balance |
| `ScannerAgreement.ScannersAgree` | scripts/ui_component_similarity.py:53-323 | Removing comments from the body alone leaves exactly what the file's own tokens leave there, with balanced braces |
| `ScannerAgreement.ExtractBody` | scripts/ui_component_similarity.py:314-323 | Yields nothing exactly when the brace is never matched, else the text between the braces with its comments removed, whichever of the two texts is lexed |
| `RustProgram.LexemeScan` | scripts/ui_component_similarity.py:53-292 | Each lexeme of Rust text, in place, is read as itself: plain code, comments nested to any depth, strings and characters with escapes, lifetimes, raw strings with any number of hashes |
| `RustProgram.RawReadsOn` | scripts/ui_component_similarity.py:108-124 | A raw string directly followed by one more hash sign is not closed by its closing quote: the scan reads on inside it |
| `RustProgram.ProgramScans` | scripts/ui_component_similarity.py:53-292 | On any text written from lexemes the two scanners do what the lexemes say: comments go, newlines ending line comments stay, and only braces of plain code count |
| `RustProgram.CleanProgram` | scripts/ui_component_similarity.py:53-175 | Removing comments from text written from lexemes leaves the lexemes without the comments |
| `RustProgram.MatchProgram` | scripts/ui_component_similarity.py:178-292 | In text written from lexemes the brace found is the first plain-code brace at which opening and closing ones balance, and -1 exactly when there is none |
| `RustProgram.BodyOfProgram` | scripts/ui_component_similarity.py:314-323 | The body found is the lexemes between the two braces, without their comments |
| `Similarity.LengthBound` | scripts/ui_component_similarity.py:347-354 | No two texts of these lengths can be more similar than the length bound |
| `Similarity.LengthBoundIsTight` | scripts/ui_component_similarity.py:347-354 | The bound is attained when the shorter text is matched in full |
| `Similarity.RatioIsMatched` | scripts/ui_component_similarity.py:379-385 | Ratio times total length is twice the matched length, and two empty texts have ratio 1 |
| `Similarity.RatioOfSelf` | scripts/ui_component_similarity.py:379-385 | A text matched in full against itself has ratio 1 |
| `Similarity.KeysIdentify` | scripts/ui_component_similarity.py:28-30 | Components with equal keys have the same file, line and name, when file and name hold no colon |
| `Similarity.ComputePairs` | scripts/ui_component_similarity.py:357-387 | Every pair that reaches the threshold is kept with its true ratio; the kept pairs are exactly those that survive all three bounds, row by row; the two skip counts are the numbers of pairs ruled out by length and, of the others, by a quick bound; together n(n - 1)/2 |
| `Similarity.RankPeers` | scripts/ui_component_similarity.py:399-415 | Each component's best is the first maximal ratio among the evaluated pairs it is in; the keys are those with a pair at the threshold |
| `Similarity.BestIsTrueMaximum` | scripts/ui_component_similarity.py:399-441 | A qualifying component's best is its true maximum over all peers, pruned pairs included |
| `Similarity.QualifyingIsUnpruned` | scripts/ui_component_similarity.py:357-441 | A key is reported exactly when a component with it qualifies in the search without pruning |
| `Similarity.Report` | scripts/ui_component_similarity.py:390-441 | Qualifying keys and best ratios are those of the unpruned all-pairs search |

## Left out

* Subprocesses, sockets, handshakes, timeouts and shutdown of agents: a spawn is a success or a failure.
* The agent barrier, the orchestrator and the determinism executor: marking an agent dead is one logged event.
* Exclude patterns, constraints and context values of tasks; the subtask id is an uninterpreted function.
* Plan hash, summary text, contributors, weighted confidence and timestamps of a merged plan.
* Rounding of floating-point confidences and ratios: numbers are real, confidences may also be NaN.
* Component discovery by regular expressions, white-space normalisation, file exclusion and the printed report.
* The internals of difflib: its ratio is twice the matched length over the total length, and its quick ratios are upper bounds.
* `git`, `date` and epoch formatting: a descriptor is non-empty without leading white space, a timestamp is fourteen digits.
* The pid written into the lock file, directory creation, and I/O errors other than a failed step.
* Concurrent use of the cache and the manager, hit, miss and swap metrics, hit rates and memory pressure.
* Overflow panics of the development profile: additions and subtractions wrap as in the release profile.
* Memory mapping, SafeTensors, Metal buffers, signatures, JSON manifests and MoE discovery: an adapter is an id, a size, an MoE flag and a payload.
* `select_segment`, `read_header` on files and the writer's options other than the queued segments.
* Letters of a Rust lifetime after the first, which the scanners read as plain code like any identifier.
* The hash functions: a hash is any function giving 32 bytes, the scope hash any function giving 16.
- CacheLedger.EvictionIsMinimal: assumes that resident and needed bytes stay below 2^64; `MakesRoomSoundlyExactly` shows that its promise fails otherwise.
- CacheLedger.MakesRoomSoundlyExactly: assumes that the resident sum and the limit together stay below 2^64.
- CacheLedger.InsertWithinLimit: assumes that counter and size do not wrap around together; `LimitSafeExactly` covers the states in which they can.
- CacheLedger.LimitSafeExactly: assumes a limit below a third of 2^64, and considers sizes that do not wrap around with the limit; `SafeSizesExactly` shows why sizes must be bounded.
- CacheLedger.SafeSizesExactly: assumes a limit below half of 2^64 and something resident.
- CacheLedger.DriftlessRunsRespectLimit: assumes that no inserted size plus the limit reaches 2^64, where the size check itself would wrap.
- AosManager.CannotMakeRoomMeansTooLarge: assumes that the resident sum and the limit together stay below 2^64.
- AosArchive.WriteArchive: assumes that the header and the index together are shorter than 2^64 bytes.
- AosManager.LoadIsTransparent: files do not change during a run, and calls are serial.
