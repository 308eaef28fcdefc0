/**
 Task assignments: choosing a splitter, handing one scope to each agent, and any run of
 rebalances after agents fail.  The file-to-directory map and the subtask hash are parameters.
 */
module Assignments {
  import opened TaskRouter
  import opened ClusterPacking
  import opened LoadBalance

  // ---------- grouping by directory ----------

  function InDirectory(files: seq<File>, dir: File, parentOf: File -> File): seq<File> {
    if files == [] then []
    else
      var n := |files| - 1;
      InDirectory(files[..n], dir, parentOf) + if parentOf(files[n]) == dir then [files[n]] else []
  }

  lemma {:induction false} InDirectoryCounts(files: seq<File>, dir: File, parentOf: File -> File, f: File)
    ensures multiset(InDirectory(files, dir, parentOf))[f] ==
            if parentOf(f) == dir then multiset(files)[f] else 0
  {
    if files != [] {
      var n := |files| - 1;
      InDirectoryCounts(files[..n], dir, parentOf, f);
      assert files == files[..n] + [files[n]];
    }
  }

  method GroupByDirectory(files: seq<File>, parentOf: File -> File) returns (groups: map<File, seq<File>>)
    ensures groups.Keys == set f | f in files :: parentOf(f)
    ensures forall d :: d in groups ==> groups[d] == InDirectory(files, d, parentOf)
  {
    groups := map[];
    for n := 0 to |files|
      invariant groups.Keys == set f | f in files[..n] :: parentOf(f)
      invariant forall d :: d in groups ==> groups[d] == InDirectory(files[..n], d, parentOf)
      invariant forall d :: d !in groups ==> InDirectory(files[..n], d, parentOf) == []
    {
      var dir := parentOf(files[n]);
      assert files[..n + 1][..n] == files[..n];
      assert files[..n + 1] == files[..n] + [files[n]];
      groups := groups[dir := (if dir in groups then groups[dir] else []) + [files[n]]];
    }
    assert files[..|files|] == files;
  }

  /** `lists` holds exactly the files whose directory is in `dirs`. */
  ghost predicate Covers(lists: seq<seq<File>>, files: seq<File>, parentOf: File -> File, dirs: set<File>) {
    forall f :: multiset(Flatten(lists))[f] == if parentOf(f) in dirs then multiset(files)[f] else 0
  }

  lemma CoverOneMore(lists: seq<seq<File>>, files: seq<File>, parentOf: File -> File, dirs: set<File>, dir: File)
    requires Covers(lists, files, parentOf, dirs) && dir !in dirs
    ensures Covers(lists + [InDirectory(files, dir, parentOf)], files, parentOf, dirs + {dir})
  {
    var group := InDirectory(files, dir, parentOf);
    FlattenConcat(lists, [group]);
    assert Flatten([group]) == group;
    forall f ensures multiset(Flatten(lists + [group]))[f] ==
                     if parentOf(f) in dirs + {dir} then multiset(files)[f] else 0
    {
      InDirectoryCounts(files, dir, parentOf, f);
    }
  }

  lemma CoverAll(lists: seq<seq<File>>, files: seq<File>, parentOf: File -> File, dirs: set<File>)
    requires Covers(lists, files, parentOf, dirs) && dirs == set f | f in files :: parentOf(f)
    ensures multiset(Flatten(lists)) == multiset(files)
  {
    forall f ensures multiset(Flatten(lists))[f] == multiset(files)[f] {
      if f in files { assert parentOf(f) in dirs; }
    }
  }

  /** The groups listed in any order: together they are exactly the files. */
  method ListGroups(files: seq<File>, parentOf: File -> File, groups: map<File, seq<File>>)
    returns (lists: seq<seq<File>>)
    requires groups.Keys == set f | f in files :: parentOf(f)
    requires forall d :: d in groups ==> groups[d] == InDirectory(files, d, parentOf)
    ensures multiset(Flatten(lists)) == multiset(files)
    ensures forall d :: d in groups ==> groups[d] in lists
    ensures |lists| == |groups|
  {
    lists := [];
    var pending := groups.Keys;
    assert |pending| == |groups|;
    while pending != {}
      invariant pending <= groups.Keys
      invariant |lists| + |pending| == |groups|
      invariant Listed(groups, pending, lists)
      invariant Covers(lists, files, parentOf, groups.Keys - pending)
    {
      var dir :| dir in pending;
      OneMoreGroup(files, parentOf, groups, pending, lists, dir);
      lists := lists + [groups[dir]];
      pending := pending - {dir};
    }
    assert groups.Keys - pending == groups.Keys;
    CoverAll(lists, files, parentOf, groups.Keys);
  }

  /** Every group but the pending ones is in the list. */
  ghost predicate Listed(groups: map<File, seq<File>>, pending: set<File>, lists: seq<seq<File>>) {
    forall d :: d in groups && d !in pending ==> groups[d] in lists
  }

  lemma OneMoreGroup(files: seq<File>, parentOf: File -> File, groups: map<File, seq<File>>, pending: set<File>,
                     lists: seq<seq<File>>, dir: File)
    requires dir in pending && pending <= groups.Keys && groups[dir] == InDirectory(files, dir, parentOf)
    requires Listed(groups, pending, lists) && Covers(lists, files, parentOf, groups.Keys - pending)
    ensures Listed(groups, pending - {dir}, lists + [groups[dir]])
    ensures Covers(lists + [groups[dir]], files, parentOf, groups.Keys - (pending - {dir}))
  {
    ListedOneMore(groups, pending, lists, dir);
    CoverOneMore(lists, files, parentOf, groups.Keys - pending, dir);
    assert groups.Keys - pending + {dir} == groups.Keys - (pending - {dir});
  }

  lemma ListedOneMore(groups: map<File, seq<File>>, pending: set<File>, lists: seq<seq<File>>, dir: File)
    requires dir in groups && Listed(groups, pending, lists)
    ensures Listed(groups, pending - {dir}, lists + [groups[dir]])
  {
  }

  method SplitSemantic(files: seq<File>, clusters: seq<Cluster>, agentCount: nat, rootDir: File, parentOf: File -> File)
    returns (scopes: seq<TaskScope>, ghost packed: seq<Cluster>, ghost sched: seq<nat>)
    requires agentCount > 0
    ensures |scopes| == agentCount
    ensures Packing(packed, sched, Owned(scopes))
    ensures clusters != [] ==> packed == clusters
    ensures clusters == [] ==> forall f :: f in files ==> InDirectory(files, parentOf(f), parentOf) in packed
    ensures multiset(Flatten(Owned(scopes))) == multiset(if clusters != [] then Flatten(clusters) else files)
    ensures forall i :: 0 <= i < agentCount ==> Bare(scopes[i], rootDir)
  {
    if clusters != [] {
      scopes, sched := SplitClusters(clusters, agentCount, rootDir);
      packed := clusters;
    } else {
      var groups := GroupByDirectory(files, parentOf);
      var lists := ListGroups(files, parentOf, groups);
      forall f | f in files ensures InDirectory(files, parentOf(f), parentOf) in lists {
        assert parentOf(f) in groups;
      }
      scopes, sched := SplitClusters(lists, agentCount, rootDir);
      packed := lists;
    }
  }

  // ---------- assignments ----------

  function FilesInScope(task: PlanningTask, context: CodebaseContext): seq<File> {
    if task.targetFiles == [] then context.files else task.targetFiles
  }

  /** What gets split: the files in scope, unless precomputed clusters replace them. */
  function WorkToSplit(strategy: Strategy, task: PlanningTask, context: CodebaseContext): seq<File> {
    if strategy == Semantic && context.clusters != [] then Flatten(context.clusters)
    else FilesInScope(task, context)
  }

  /** The files in scope are the work: there are no precomputed clusters in use, or they hold the same files. */
  predicate ScopeKept(strategy: Strategy, task: PlanningTask, context: CodebaseContext) {
    strategy == Semantic && context.clusters != [] ==> multiset(Flatten(context.clusters)) == multiset(FilesInScope(task, context))
  }

  /** Clusters of other files take the place of the file asked for. */
  lemma ScopeIsReplaced(task: PlanningTask, f: File, g: File)
    requires task.targetFiles == [f] && f != g
    ensures !ScopeKept(Semantic, task, CodebaseContext([], [[g]]))
    ensures f !in WorkToSplit(Semantic, task, CodebaseContext([], [[g]]))
  {
    assert [[g]][1..] == [] && Flatten([[g]]) == [g] + [];
    assert f in multiset([f]) && f !in multiset([g]);
  }

  /** What a semantic split packs: the precomputed clusters, or the files grouped by directory. */
  ghost predicate ClustersOf(files: seq<File>, clusters: seq<Cluster>, parentOf: File -> File, packed: seq<Cluster>) {
    if clusters != [] then packed == clusters
    else multiset(Flatten(packed)) == multiset(files) && forall f :: f in files ==> InDirectory(files, parentOf(f), parentOf) in packed
  }

  /** The buckets are a packing, within Graham's bound of every other assignment of the same clusters. */
  ghost predicate WellPacked(packed: seq<Cluster>, buckets: seq<seq<File>>) {
    && buckets != [] && (exists sched :: Packing(packed, sched, buckets))
    && forall other :: Schedule(Sizes(packed), other, |buckets|) ==>
         3 * (|buckets| * Heaviest(buckets)) <= (4 * |buckets| - 1) * Makespan(Sizes(packed), other, |buckets|)
  }

  lemma PackingIsWell(packed: seq<Cluster>, sched: seq<nat>, buckets: seq<seq<File>>)
    requires buckets != [] && Packing(packed, sched, buckets)
    ensures WellPacked(packed, buckets)
  {
    forall other | Schedule(Sizes(packed), other, |buckets|)
      ensures 3 * (|buckets| * Heaviest(buckets)) <= (4 * |buckets| - 1) * Makespan(Sizes(packed), other, |buckets|)
    {
      PackingWithinFourThirds(packed, sched, buckets, other);
    }
  }

  /** What each strategy makes of the files in scope. */
  ghost predicate SplitAs(strategy: Strategy, files: seq<File>, clusters: seq<Cluster>, parentOf: File -> File, buckets: seq<seq<File>>) {
    match strategy
    case RoundRobin => InTurns(files, buckets)
    case Semantic => exists packed :: ClustersOf(files, clusters, parentOf, packed) && WellPacked(packed, buckets)
    case _ => InChunks(files, buckets)
  }

  method SplitWork(strategy: Strategy, task: PlanningTask, context: CodebaseContext, agentCount: nat, parentOf: File -> File)
    returns (scopes: seq<TaskScope>)
    requires agentCount > 0
    ensures |scopes| == agentCount
    ensures multiset(Flatten(Owned(scopes))) == multiset(WorkToSplit(strategy, task, context))
    ensures SplitAs(strategy, if task.targetFiles != [] then task.targetFiles else context.files, context.clusters, parentOf, Owned(scopes))
    ensures forall i :: 0 <= i < agentCount ==> Bare(scopes[i], task.rootDir)
  {
    var files := FilesInScope(task, context);
    match strategy
    case FileOwnership => scopes := SplitByFileOwnership(files, agentCount, task.rootDir);
    case RoundRobin => scopes := SplitRoundRobin(files, agentCount, task.rootDir);
    case Semantic =>
      ghost var packed, sched;
      scopes, packed, sched := SplitSemantic(files, context.clusters, agentCount, task.rootDir, parentOf);
      PackingIsWell(packed, sched, Owned(scopes));
      PackingConserves(packed, sched, Owned(scopes));
    case AstRegion => scopes := SplitByFileOwnership(files, agentCount, task.rootDir);
  }

  /**
   One assignment per agent, and all the work handed out exactly once: pairing agents with
   scopes drops neither.  Only an empty agent list fails.
   */
  method CreateAssignments(strategy: Strategy, task: PlanningTask, context: CodebaseContext, agentIds: seq<AgentId>,
                           parentOf: File -> File, subtaskId: (TaskId, AgentId) -> TaskId)
    returns (r: Result<seq<TaskAssignment>>)
    ensures r.Ok? <==> agentIds != []
    ensures agentIds == [] ==> r == DistributionFailed("No agents available")
    ensures r.Ok? ==> |r.value| == |agentIds|
    ensures r.Ok? ==> forall i :: 0 <= i < |agentIds| ==>
              && r.value[i].taskId == subtaskId(task.id, agentIds[i])
              && r.value[i].sequence == i
              && r.value[i].objective == task.objective
              && Bare(r.value[i].scope, task.rootDir)
    ensures r.Ok? ==> multiset(Flatten(OwnedBy(r.value))) == multiset(WorkToSplit(strategy, task, context))
    ensures r.Ok? ==> SplitAs(strategy, if task.targetFiles != [] then task.targetFiles else context.files,
                              context.clusters, parentOf, OwnedBy(r.value))
    ensures r.Ok? ==> (multiset(Flatten(OwnedBy(r.value))) == multiset(FilesInScope(task, context)) <==>
                       ScopeKept(strategy, task, context))
  {
    if agentIds == [] {
      return DistributionFailed("No agents available");
    }
    var scopes := SplitWork(strategy, task, context, |agentIds|, parentOf);
    var n := if |agentIds| < |scopes| then |agentIds| else |scopes|;
    var assignments := seq(n, i requires 0 <= i < n =>
      TaskAssignment(subtaskId(task.id, agentIds[i]), i, task.objective, scopes[i]));
    assert OwnedBy(assignments) == Owned(scopes);
    r := Ok(assignments);
  }

  // ---------- rebalancing ----------

  type Board = seq<(AgentId, TaskAssignment)>

  function BoardFiles(board: Board): (r: seq<seq<File>>)
    ensures |r| == |board|
  {
    seq(|board|, i requires 0 <= i < |board| => board[i].1.scope.ownedFiles)
  }

  /** Re-splits a failed agent's files over the survivors, pairing agents with chunks. */
  function Rebalance(failed: TaskAssignment, remaining: seq<AgentId>, subtaskId: (TaskId, AgentId) -> TaskId): Result<Board> {
    if remaining == [] then DistributionFailed("No remaining agents for rebalancing")
    else
      var files := failed.scope.ownedFiles;
      var chunks := Chunks(files, ChunkSize(|files|, |remaining|));
      var n := if |remaining| < |chunks| then |remaining| else |chunks|;
      Ok(seq(n, i requires 0 <= i < n =>
        (remaining[i],
         TaskAssignment(subtaskId(failed.taskId, remaining[i]), failed.sequence, failed.objective,
                        TaskScope(chunks[i], failed.scope.contextFiles, failed.scope.rootDir)))))
  }

  /** A part of a failed assignment: its own id, everything else but the files as it was. */
  predicate Inherits(part: TaskAssignment, failed: TaskAssignment, id: TaskId) {
    && part.taskId == id && part.sequence == failed.sequence && part.objective == failed.objective
    && part.scope.contextFiles == failed.scope.contextFiles && part.scope.rootDir == failed.scope.rootDir
  }

  /** The failed agent's files, in order, over a prefix of the survivors; fails only without survivors. */
  lemma RebalanceConserves(failed: TaskAssignment, remaining: seq<AgentId>, subtaskId: (TaskId, AgentId) -> TaskId)
    ensures Rebalance(failed, remaining, subtaskId).Ok? <==> remaining != []
    ensures remaining == [] ==> Rebalance(failed, remaining, subtaskId) == DistributionFailed("No remaining agents for rebalancing")
    ensures remaining != [] ==>
              var board := Rebalance(failed, remaining, subtaskId).value;
              && Flatten(BoardFiles(board)) == failed.scope.ownedFiles
              && |board| <= |remaining|
              && (forall n :: 0 <= n < |failed.scope.ownedFiles| ==>
                    ChunkedAt(failed.scope.ownedFiles, BoardFiles(board), ChunkSize(|failed.scope.ownedFiles|, |remaining|), n))
              && (forall i :: 0 <= i < |board| ==>
                    && board[i].0 == remaining[i]
                    && 0 < |board[i].1.scope.ownedFiles| <= ChunkSize(|failed.scope.ownedFiles|, |remaining|)
                    && Inherits(board[i].1, failed, subtaskId(failed.taskId, remaining[i])))
  {
    if remaining != [] {
      var files := failed.scope.ownedFiles;
      var chunks := Chunks(files, ChunkSize(|files|, |remaining|));
      ChunkingIsFair(files, |remaining|);
      var board := Rebalance(failed, remaining, subtaskId).value;
      assert BoardFiles(board) == chunks;
      forall n | 0 <= n < |files| ensures ChunkedAt(files, chunks, ChunkSize(|files|, |remaining|), n) {
        ChunksAt(files, ChunkSize(|files|, |remaining|), n);
      }
      forall i | 0 <= i < |board| ensures 0 < |board[i].1.scope.ownedFiles| <= ChunkSize(|files|, |remaining|) {
        assert chunks[i] in chunks;
      }
    }
  }

  /** An entry of the board fails and its work goes to `survivors`. */
  datatype Failure = Failure(entry: nat, survivors: seq<AgentId>)

  /** A failed rebalance leaves the board as it was. */
  function Fail(board: Board, event: Failure, subtaskId: (TaskId, AgentId) -> TaskId): Board {
    if event.entry >= |board| then board
    else
      match Rebalance(board[event.entry].1, event.survivors, subtaskId)
      case Ok(moved) => board[..event.entry] + moved + board[event.entry + 1..]
      case DistributionFailed(_) => board
  }

  function Run(board: Board, events: seq<Failure>, subtaskId: (TaskId, AgentId) -> TaskId): Board
    decreases events
  {
    if events == [] then board else Run(Fail(board, events[0], subtaskId), events[1..], subtaskId)
  }

  lemma BoardConcat(a: Board, b: Board)
    ensures BoardFiles(a + b) == BoardFiles(a) + BoardFiles(b)
    ensures Flatten(BoardFiles(a + b)) == Flatten(BoardFiles(a)) + Flatten(BoardFiles(b))
  {
    FlattenConcat(BoardFiles(a), BoardFiles(b));
  }

  lemma FailConserves(board: Board, event: Failure, subtaskId: (TaskId, AgentId) -> TaskId)
    ensures Flatten(BoardFiles(Fail(board, event, subtaskId))) == Flatten(BoardFiles(board))
  {
    if event.entry < |board| && event.survivors != [] {
      var entry := board[event.entry];
      var pre, post := board[..event.entry], board[event.entry + 1..];
      RebalanceConserves(entry.1, event.survivors, subtaskId);
      var moved := Rebalance(entry.1, event.survivors, subtaskId).value;
      assert board == pre + [entry] + post;
      BoardConcat(pre + [entry], post);
      BoardConcat(pre, [entry]);
      BoardConcat(pre + moved, post);
      BoardConcat(pre, moved);
      assert Flatten(BoardFiles([entry])) == entry.1.scope.ownedFiles by {
        assert BoardFiles([entry]) == [entry.1.scope.ownedFiles];
      }
    }
  }

  /** A failed entry goes, its survivors' parts take its place, and no other entry changes; without survivors it stays. */
  lemma FailMoves(board: Board, event: Failure, subtaskId: (TaskId, AgentId) -> TaskId)
    requires event.entry < |board|
    ensures event.survivors == [] ==> Fail(board, event, subtaskId) == board
    ensures event.survivors != [] ==>
              var after, failed := Fail(board, event, subtaskId), board[event.entry].1;
              var parts := |after| - (|board| - 1);
              && 0 <= parts <= |event.survivors|
              && after[..event.entry] == board[..event.entry] && after[event.entry + parts..] == board[event.entry + 1..]
              && Flatten(BoardFiles(after[event.entry..event.entry + parts])) == failed.scope.ownedFiles
              && forall i :: 0 <= i < parts ==>
                   && after[event.entry + i].0 == event.survivors[i] && after[event.entry + i].1.scope.ownedFiles != []
                   && Inherits(after[event.entry + i].1, failed, subtaskId(failed.taskId, event.survivors[i]))
  {
    if event.survivors != [] {
      RebalanceConserves(board[event.entry].1, event.survivors, subtaskId);
      var moved := Rebalance(board[event.entry].1, event.survivors, subtaskId).value;
      assert Fail(board, event, subtaskId)[event.entry..event.entry + |moved|] == moved;
    }
  }

  /** However agents fail, the outstanding work is the same files in the same order. */
  lemma {:induction false} EveryRunConserves(board: Board, events: seq<Failure>, subtaskId: (TaskId, AgentId) -> TaskId)
    ensures Flatten(BoardFiles(Run(board, events, subtaskId))) == Flatten(BoardFiles(board))
    decreases events
  {
    if events != [] {
      FailConserves(board, events[0], subtaskId);
      EveryRunConserves(Fail(board, events[0], subtaskId), events[1..], subtaskId);
    }
  }
}
