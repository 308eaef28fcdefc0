/** The data of work distribution, and its two simple splitters: consecutive chunks and dealing in turns. */
module TaskRouter {

  type File = string
  type AgentId = string
  type TaskId = seq<nat>

  datatype Strategy = FileOwnership | RoundRobin | Semantic | AstRegion

  datatype TaskScope = TaskScope(ownedFiles: seq<File>, contextFiles: seq<File>, rootDir: File)

  datatype TaskAssignment = TaskAssignment(taskId: TaskId, sequence: nat, objective: string, scope: TaskScope)

  datatype PlanningTask = PlanningTask(id: TaskId, objective: string, rootDir: File, targetFiles: seq<File>)

  datatype CodebaseContext = CodebaseContext(files: seq<File>, clusters: seq<seq<File>>)

  datatype Result<+T> = Ok(value: T) | DistributionFailed(reason: string)

  // ---------- lists of lists ----------

  function Flatten(lists: seq<seq<File>>): seq<File> {
    if lists == [] then [] else lists[0] + Flatten(lists[1..])
  }

  lemma {:induction false} FlattenConcat(a: seq<seq<File>>, b: seq<seq<File>>)
    ensures Flatten(a + b) == Flatten(a) + Flatten(b)
  {
    if a == [] {
      assert a + b == b;
    } else {
      FlattenConcat(a[1..], b);
      assert (a + b)[1..] == a[1..] + b && (a + b)[0] == a[0];
      assert a[0] + (Flatten(a[1..]) + Flatten(b)) == a[0] + Flatten(a[1..]) + Flatten(b);
    }
  }

  /** Appending to one bucket adds exactly the appended files. */
  lemma FlattenUpdate(lists: seq<seq<File>>, i: nat, extra: seq<File>)
    requires i < |lists|
    ensures multiset(Flatten(lists[i := lists[i] + extra])) == multiset(Flatten(lists)) + multiset(extra)
  {
    var pre, post := lists[..i], lists[i + 1..];
    assert lists == pre + ([lists[i]] + post);
    assert lists[i := lists[i] + extra] == pre + ([lists[i] + extra] + post);
    FlattenConcat(pre, [lists[i]] + post);
    FlattenConcat(pre, [lists[i] + extra] + post);
  }

  lemma {:induction false} FlattenEmpties(lists: seq<seq<File>>)
    requires forall i :: 0 <= i < |lists| ==> lists[i] == []
    ensures Flatten(lists) == []
  {
    if lists != [] { FlattenEmpties(lists[1..]); }
  }

  function Owned(scopes: seq<TaskScope>): (r: seq<seq<File>>)
    ensures |r| == |scopes|
  {
    seq(|scopes|, i requires 0 <= i < |scopes| => scopes[i].ownedFiles)
  }

  function OwnedBy(assignments: seq<TaskAssignment>): (r: seq<seq<File>>)
    ensures |r| == |assignments|
  {
    seq(|assignments|, i requires 0 <= i < |assignments| => assignments[i].scope.ownedFiles)
  }

  // ---------- chunking ----------

  function DivCeil(n: nat, m: nat): (r: nat)
    requires m > 0
    ensures n <= m * r < n + m
  {
    (n + m - 1) / m
  }

  /** Consecutive slices of `size` files; the last may be shorter. */
  function Chunks(files: seq<File>, size: nat): seq<seq<File>>
    requires size > 0
  {
    if files == [] then []
    else if |files| <= size then [files]
    else [files[..size]] + Chunks(files[size..], size)
  }

  lemma {:induction false} ChunksConserve(files: seq<File>, size: nat)
    requires size > 0
    ensures Flatten(Chunks(files, size)) == files
    ensures forall c :: c in Chunks(files, size) ==> 0 < |c| <= size
  {
    if |files| > size {
      ChunksConserve(files[size..], size);
      assert files == files[..size] + files[size..];
      FlattenConcat([files[..size]], Chunks(files[size..], size));
      assert Flatten([files[..size]]) == files[..size];
    } else if files != [] {
      assert Flatten([files]) == files;
    }
  }

  /** Chunks big enough for `m` to hold everything are at most `m` in number. */
  lemma {:induction false} ChunksFit(files: seq<File>, size: nat, m: nat)
    requires size > 0 && |files| <= m * size
    ensures |Chunks(files, size)| <= m
  {
    if |files| > size {
      assert m * size == (m - 1) * size + size;
      assert m > 0;
      ChunksFit(files[size..], size, m - 1);
    } else if files != [] {
      assert m > 0;
    }
  }

  /** The chunk size both splitters use. */
  function ChunkSize(n: nat, agents: nat): (r: nat)
    requires agents > 0
    ensures r > 0 && n <= agents * r
    ensures if n > 0 then agents * r < n + agents else r == 1
  {
    var r := DivCeil(n, agents);
    if r == 0 then 1 else r
  }

  /** What chunking over `agents` promises: in order, nothing lost, no chunk empty or too large, none left over. */
  lemma ChunkingIsFair(files: seq<File>, agents: nat)
    requires agents > 0
    ensures var chunks := Chunks(files, ChunkSize(|files|, agents));
            && Flatten(chunks) == files
            && |chunks| <= agents
            && forall c :: c in chunks ==> 0 < |c| <= ChunkSize(|files|, agents)
  {
    ChunksConserve(files, ChunkSize(|files|, agents));
    ChunksFit(files, ChunkSize(|files|, agents), agents);
  }

  /** File `n` is file `n % share` of bucket `n / share`. */
  predicate ChunkedAt(files: seq<File>, buckets: seq<seq<File>>, share: nat, n: nat)
    requires share > 0 && n < |files|
  {
    n / share < |buckets| && n % share < |buckets[n / share]| && buckets[n / share][n % share] == files[n]
  }

  /** The files in consecutive chunks of the ceiling share, bucket after bucket. */
  ghost predicate InChunks(files: seq<File>, buckets: seq<seq<File>>) {
    && buckets != [] && Flatten(buckets) == files
    && (forall i :: 0 <= i < |buckets| ==> |buckets[i]| <= ChunkSize(|files|, |buckets|))
    && (forall n :: 0 <= n < |files| ==> ChunkedAt(files, buckets, ChunkSize(|files|, |buckets|), n))
  }

  lemma OneRoundLess(n: nat, size: nat)
    requires 0 < size <= n
    ensures (n - size) / size == n / size - 1 && (n - size) % size == n % size
  {
    var q, r := n / size, n % size;
    assert n == q * size + r && n - size == (q - 1) * size + r;
    MulGap(q, 1, size);
    QuotientIs(n - size, q - 1, r, size);
  }

  lemma QuotientIs(n: nat, q: nat, r: nat, size: nat)
    requires r < size && n == q * size + r
    ensures n / size == q && n % size == r
  {
    assert n == (n / size) * size + n % size;
    SameRemainder(q, r, n / size, n % size, size);
  }

  lemma {:induction false} ChunksAt(files: seq<File>, size: nat, n: nat)
    requires size > 0 && n < |files|
    ensures ChunkedAt(files, Chunks(files, size), size, n)
    decreases |files|
  {
    if n < size {
      QuotientIs(n, 0, n, size);
    } else {
      OneRoundLess(n, size);
      ChunksAt(files[size..], size, n - size);
      var rest := Chunks(files[size..], size);
      assert ([files[..size]] + rest)[n / size] == rest[n / size - 1];
    }
  }

  predicate Padded(chunks: seq<seq<File>>, buckets: seq<seq<File>>) {
    chunks <= buckets && forall i :: |chunks| <= i < |buckets| ==> buckets[i] == []
  }

  lemma PadOne(chunks: seq<seq<File>>, scopes: seq<TaskScope>, idle: TaskScope)
    requires Padded(chunks, Owned(scopes)) && idle.ownedFiles == []
    ensures Padded(chunks, Owned(scopes + [idle]))
  {
    assert Owned(scopes + [idle]) == Owned(scopes) + [[]];
  }

  lemma PaddedAt(files: seq<File>, size: nat, buckets: seq<seq<File>>, n: nat)
    requires size > 0 && n < |files| && Padded(Chunks(files, size), buckets)
    ensures ChunkedAt(files, buckets, size, n)
  {
    ChunksAt(files, size, n);
    assert buckets[n / size] == Chunks(files, size)[n / size];
  }

  lemma PaddedFlatten(chunks: seq<seq<File>>, buckets: seq<seq<File>>)
    requires Padded(chunks, buckets)
    ensures Flatten(buckets) == Flatten(chunks)
  {
    FlattenConcat(chunks, buckets[|chunks|..]);
    FlattenEmpties(buckets[|chunks|..]);
    assert buckets == chunks + buckets[|chunks|..];
  }

  lemma PaddedSizes(chunks: seq<seq<File>>, buckets: seq<seq<File>>, size: nat)
    requires Padded(chunks, buckets) && forall c :: c in chunks ==> 0 < |c| <= size
    ensures forall i :: 0 <= i < |buckets| ==> |buckets[i]| <= size
  {
    forall i | 0 <= i < |buckets| ensures |buckets[i]| <= size {
      if i < |chunks| { assert buckets[i] == chunks[i] && chunks[i] in chunks; }
    }
  }

  /** Chunking, with idle buckets after the last chunk. */
  lemma PaddedChunks(files: seq<File>, buckets: seq<seq<File>>)
    requires |buckets| > 0 && Padded(Chunks(files, ChunkSize(|files|, |buckets|)), buckets)
    ensures InChunks(files, buckets)
  {
    var size := ChunkSize(|files|, |buckets|);
    ChunkingIsFair(files, |buckets|);
    PaddedFlatten(Chunks(files, size), buckets);
    PaddedSizes(Chunks(files, size), buckets, size);
    forall n | 0 <= n < |files| ensures ChunkedAt(files, buckets, size, n) { PaddedAt(files, size, buckets, n); }
  }

  /** A scope of its owned files alone. */
  predicate Bare(scope: TaskScope, rootDir: File) { scope.contextFiles == [] && scope.rootDir == rootDir }

  method SplitByFileOwnership(files: seq<File>, agentCount: nat, rootDir: File) returns (scopes: seq<TaskScope>)
    requires agentCount > 0
    ensures |scopes| == agentCount
    ensures InChunks(files, Owned(scopes))
    ensures forall i :: 0 <= i < agentCount ==> Bare(scopes[i], rootDir)
  {
    var size := ChunkSize(|files|, agentCount);
    var chunks := Chunks(files, size);
    ChunkingIsFair(files, agentCount);
    scopes := Scopes(chunks, rootDir);
    while |scopes| < agentCount
      invariant |scopes| <= agentCount && Padded(chunks, Owned(scopes))
      invariant forall i :: 0 <= i < |scopes| ==> Bare(scopes[i], rootDir)
    {
      PadOne(chunks, scopes, TaskScope([], [], rootDir));
      scopes := scopes + [TaskScope([], [], rootDir)];
    }
    PaddedChunks(files, Owned(scopes));
  }

  // ---------- round-robin ----------

  function Scopes(buckets: seq<seq<File>>, rootDir: File): (scopes: seq<TaskScope>)
    ensures |scopes| == |buckets|
    ensures Owned(scopes) == buckets
    ensures forall i :: 0 <= i < |buckets| ==> Bare(scopes[i], rootDir)
  {
    seq(|buckets|, i requires 0 <= i < |buckets| => TaskScope(buckets[i], [], rootDir))
  }

  /** The bucket file number `n` is dealt to. */
  function Turn(n: nat, m: nat): (t: nat)
    requires m > 0
    ensures t < m
  {
    n % m
  }

  lemma TurnIsRemainder(n: nat, m: nat)
    requires m > 0
    ensures n == (n / m) * m + Turn(n, m)
  {
  }

  /** The files dealt to bucket `i` of `m`, one file at a time. */
  function DealtTo(files: seq<File>, i: nat, m: nat): seq<File>
    requires m > 0
  {
    if files == [] then []
    else
      var n := |files| - 1;
      DealtTo(files[..n], i, m) + if Turn(n, m) == i then [files[n]] else []
  }

  function Dealt(files: seq<File>, m: nat): (buckets: seq<seq<File>>)
    requires m > 0
    ensures |buckets| == m
  {
    seq(m, i requires 0 <= i < m => DealtTo(files, i, m))
  }

  lemma DealOne(files: seq<File>, file: File, m: nat)
    requires m > 0
    ensures var t := Turn(|files|, m);
            Dealt(files + [file], m) == Dealt(files, m)[t := Dealt(files, m)[t] + [file]]
  {
    var longer := files + [file];
    assert longer[..|files|] == files;
    forall i | 0 <= i < m
      ensures DealtTo(longer, i, m) == DealtTo(files, i, m) + if Turn(|files|, m) == i then [file] else []
    {
    }
    assert forall i :: 0 <= i < m && i != Turn(|files|, m) ==> DealtTo(longer, i, m) == DealtTo(files, i, m);
  }

  /** Dealing puts every file in exactly one bucket. */
  lemma {:induction false} DealtConserves(files: seq<File>, m: nat)
    requires m > 0
    ensures multiset(Flatten(Dealt(files, m))) == multiset(files)
  {
    if files == [] {
      FlattenEmpties(Dealt(files, m));
    } else {
      var n := |files| - 1;
      assert files[..n] + [files[n]] == files;
      DealOne(files[..n], files[n], m);
      FlattenUpdate(Dealt(files[..n], m), Turn(n, m), [files[n]]);
      DealtConserves(files[..n], m);
    }
  }

  lemma {:induction false} MulGap(a: nat, b: nat, m: nat)
    ensures a < b ==> a * m + m <= b * m
  {
    if a < b {
      assert b * m == (b - 1) * m + m;
      MulGap(a, b - 1, m);
    }
  }

  /** Quotient and remainder are unique. */
  lemma SameRemainder(q: nat, i: nat, p: nat, j: nat, m: nat)
    requires i < m && j < m && q * m + i == p * m + j
    ensures q == p && i == j
  {
    MulGap(q, p, m);
    MulGap(p, q, m);
  }

  /** Bucket `i` received one file per full round, and one more when the current round has passed it. */
  lemma {:induction false} DealtSize(files: seq<File>, i: nat, m: nat)
    requires i < m
    ensures var b := |DealtTo(files, i, m)|; |files| <= b * m + i < |files| + m
  {
    if files != [] {
      var n := |files| - 1;
      DealtSize(files[..n], i, m);
      TurnIsRemainder(n, m);
      var b := |DealtTo(files[..n], i, m)|;
      MulGap(b, b + 1, m);
      MulGap(b, n / m, m);
      MulGap(n / m, b, m);
      if b * m + i == n { SameRemainder(b, i, n / m, Turn(n, m), m); }
    }
  }

  /** The k-th file of bucket `i` is file `k * m + i`. */
  lemma {:induction false} DealtAt(files: seq<File>, i: nat, m: nat, k: nat)
    requires i < m && k < |DealtTo(files, i, m)|
    ensures k * m + i < |files| && DealtTo(files, i, m)[k] == files[k * m + i]
  {
    var n := |files| - 1;
    var before := DealtTo(files[..n], i, m);
    if k < |before| {
      DealtAt(files[..n], i, m, k);
    } else {
      DealtNext(files[..n], i, m);
    }
  }

  /** When it is the turn of bucket `i`, it holds one file per round so far. */
  lemma DealtNext(files: seq<File>, i: nat, m: nat)
    requires i < m && Turn(|files|, m) == i
    ensures |DealtTo(files, i, m)| * m + i == |files|
  {
    DealtSize(files, i, m);
    TurnIsRemainder(|files|, m);
    RoundOf(|files|, |files| / m, i, m, |DealtTo(files, i, m)|);
  }

  /** A position with remainder `i` that lies within one round of `k * m + i` is that position. */
  lemma RoundOf(n: nat, q: nat, i: nat, m: nat, k: nat)
    requires i < m && n == q * m + i && n <= k * m + i < n + m
    ensures n == k * m + i
  {
    MulGap(k, q, m);
    MulGap(q, k, m);
  }

  /** Bucket sizes differ by at most one. */
  lemma RoundRobinIsLevel(files: seq<File>, i: nat, j: nat, m: nat)
    requires i < m && j < m
    ensures |DealtTo(files, i, m)| <= |DealtTo(files, j, m)| + 1
  {
    DealtSize(files, i, m);
    DealtSize(files, j, m);
    var a, b := |DealtTo(files, i, m)|, |DealtTo(files, j, m)|;
    MulGap(b + 1, a, m);
    MulGap(b, b + 1, m);
  }

  /** File `n` is file `n / m` of bucket `n % m`. */
  predicate DealtOutAt(files: seq<File>, buckets: seq<seq<File>>, n: nat)
    requires buckets != [] && n < |files|
  {
    var m := |buckets|;
    n / m < |buckets[n % m]| && buckets[n % m][n / m] == files[n]
  }

  /** The files dealt one at a time to the buckets in turn. */
  ghost predicate InTurns(files: seq<File>, buckets: seq<seq<File>>) {
    && buckets != [] && multiset(Flatten(buckets)) == multiset(files)
    && (forall n :: 0 <= n < |files| ==> DealtOutAt(files, buckets, n))
    && (forall i, j :: 0 <= i < |buckets| && 0 <= j < |buckets| ==> |buckets[i]| <= |buckets[j]| + 1)
  }

  lemma DealtOut(files: seq<File>, m: nat, k: nat, i: nat, n: nat)
    requires i < m && n == k * m + i < |files|
    ensures k < |DealtTo(files, i, m)| && DealtTo(files, i, m)[k] == files[n]
  {
    DealtSize(files, i, m);
    MulGap(|DealtTo(files, i, m)|, k, m);
    DealtAt(files, i, m, k);
  }

  lemma DealtOutEach(files: seq<File>, m: nat, n: nat)
    requires m > 0 && n < |files|
    ensures DealtOutAt(files, Dealt(files, m), n)
  {
    TurnIsRemainder(n, m);
    DealtOut(files, m, n / m, Turn(n, m), n);
  }

  lemma DealtIsInTurns(files: seq<File>, m: nat)
    requires m > 0
    ensures InTurns(files, Dealt(files, m))
  {
    var buckets := Dealt(files, m);
    DealtConserves(files, m);
    forall n | 0 <= n < |files| ensures DealtOutAt(files, buckets, n) {
      DealtOutEach(files, m, n);
    }
    forall i, j | 0 <= i < m && 0 <= j < m ensures |buckets[i]| <= |buckets[j]| + 1 { RoundRobinIsLevel(files, i, j, m); }
  }

  /** Each file goes to exactly one bucket, in the order it was dealt. */
  method SplitRoundRobin(files: seq<File>, agentCount: nat, rootDir: File) returns (scopes: seq<TaskScope>)
    requires agentCount > 0
    ensures |scopes| == agentCount
    ensures InTurns(files, Owned(scopes))
    ensures forall i :: 0 <= i < agentCount ==> Bare(scopes[i], rootDir)
  {
    var buckets: seq<seq<File>> := seq(agentCount, i => []);
    for n := 0 to |files|
      invariant buckets == Dealt(files[..n], agentCount)
    {
      var t := Turn(n, agentCount);
      DealOne(files[..n], files[n], agentCount);
      assert files[..n + 1] == files[..n] + [files[n]];
      buckets := buckets[t := buckets[t] + [files[n]]];
    }
    assert files[..|files|] == files;
    DealtIsInTurns(files, agentCount);
    scopes := Scopes(buckets, rootDir);
  }
}
