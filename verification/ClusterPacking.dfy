/**
 Largest-first packing of file clusters into agent buckets, and its guarantees:
 nothing is lost, clusters stay whole, and the heaviest bucket obeys Graham's bound
 against every other assignment of the same clusters.
 */
module ClusterPacking {
  import opened LoadBalance
  import opened TaskRouter

  type Cluster = seq<File>

  function Sizes(clusters: seq<Cluster>): (r: seq<nat>)
    ensures |r| == |clusters|
  {
    seq(|clusters|, k requires 0 <= k < |clusters| => |clusters[k]|)
  }

  // ---------- the stable sort, largest first ----------

  function InsertBySize(c: Cluster, sorted: seq<Cluster>): seq<Cluster> {
    if sorted == [] || |sorted[0]| <= |c| then [c] + sorted
    else [sorted[0]] + InsertBySize(c, sorted[1..])
  }

  function SortBySize(clusters: seq<Cluster>): seq<Cluster> {
    if clusters == [] then [] else InsertBySize(clusters[0], SortBySize(clusters[1..]))
  }

  function OfSize(clusters: seq<Cluster>, n: nat): seq<Cluster> {
    if clusters == [] then []
    else (if |clusters[0]| == n then [clusters[0]] else []) + OfSize(clusters[1..], n)
  }

  predicate LargestFirst(clusters: seq<Cluster>) {
    forall j, k :: 0 <= j <= k < |clusters| ==> |clusters[k]| <= |clusters[j]|
  }

  /** Insertion lands after the larger clusters and before those of its own size or less. */
  lemma {:induction false} InsertBySizeAt(c: Cluster, sorted: seq<Cluster>) returns (at: nat)
    requires LargestFirst(sorted)
    ensures at <= |sorted|
    ensures InsertBySize(c, sorted) == sorted[..at] + [c] + sorted[at..]
    ensures forall k :: 0 <= k < at ==> |sorted[k]| > |c|
    ensures forall k :: at <= k < |sorted| ==> |sorted[k]| <= |c|
  {
    if sorted == [] || |sorted[0]| <= |c| {
      at := 0;
    } else {
      at := InsertBySizeAt(c, sorted[1..]);
      at := at + 1;
    }
  }

  lemma {:induction false} InsertKeepsSizeClass(c: Cluster, sorted: seq<Cluster>, n: nat)
    ensures OfSize(InsertBySize(c, sorted), n) == OfSize([c] + sorted, n)
  {
    assert ([c] + sorted)[1..] == sorted;
    if sorted != [] && |sorted[0]| > |c| {
      var deeper := InsertBySize(c, sorted[1..]);
      InsertKeepsSizeClass(c, sorted[1..], n);
      assert ([sorted[0]] + deeper)[1..] == deeper;
      assert ([c] + sorted[1..])[1..] == sorted[1..];
    }
  }

  lemma {:induction false} SortDescends(clusters: seq<Cluster>)
    ensures LargestFirst(SortBySize(clusters))
  {
    if clusters != [] {
      SortDescends(clusters[1..]);
      var at := InsertBySizeAt(clusters[0], SortBySize(clusters[1..]));
    }
  }

  lemma {:induction false} InsertAdds(c: Cluster, sorted: seq<Cluster>)
    ensures multiset(InsertBySize(c, sorted)) == multiset{c} + multiset(sorted)
    ensures multiset(Flatten(InsertBySize(c, sorted))) == multiset(c) + multiset(Flatten(sorted))
  {
    if sorted == [] || |sorted[0]| <= |c| {
      assert ([c] + sorted)[1..] == sorted;
    } else {
      var deeper := InsertBySize(c, sorted[1..]);
      InsertAdds(c, sorted[1..]);
      assert ([sorted[0]] + deeper)[1..] == deeper;
      assert sorted == [sorted[0]] + sorted[1..];
    }
  }

  /** Sorting permutes the clusters, and so the files in them. */
  lemma {:induction false} SortPermutes(clusters: seq<Cluster>)
    ensures multiset(SortBySize(clusters)) == multiset(clusters)
    ensures multiset(Flatten(SortBySize(clusters))) == multiset(Flatten(clusters))
  {
    if clusters != [] {
      SortPermutes(clusters[1..]);
      InsertAdds(clusters[0], SortBySize(clusters[1..]));
      assert clusters == [clusters[0]] + clusters[1..];
    }
  }

  /** Clusters of equal size keep their order. */
  lemma {:induction false} SortBySizeIsStable(clusters: seq<Cluster>, n: nat)
    ensures OfSize(SortBySize(clusters), n) == OfSize(clusters, n)
  {
    if clusters != [] {
      var c, rest := clusters[0], SortBySize(clusters[1..]);
      SortBySizeIsStable(clusters[1..], n);
      InsertKeepsSizeClass(c, rest, n);
      assert ([c] + rest)[1..] == rest;
    }
  }

  lemma SortedSizesDescend(clusters: seq<Cluster>)
    ensures Descending(Sizes(SortBySize(clusters)))
  {
    SortDescends(clusters);
  }

  lemma InsertedPrefix(s: seq<nat>, at: nat, x: nat)
    requires at < |s|
    ensures var n := |s|;
            (s[..at] + [x] + s[at..])[..n] == s[..n - 1][..at] + [x] + s[..n - 1][at..]
  {
    var n := |s|;
    assert s[..n - 1][..at] == s[..at];
    assert s[at..] == s[..n - 1][at..] + [s[n - 1]];
  }

  lemma {:induction false} LoadInsert(sizes: seq<nat>, sched: seq<nat>, at: nat, x: nat, machine: nat, i: nat)
    requires |sched| == |sizes| && at <= |sizes|
    ensures Load(sizes[..at] + [x] + sizes[at..], sched[..at] + [machine] + sched[at..], i) ==
            Load(sizes, sched, i) + if machine == i then x else 0
    decreases |sizes|
  {
    var sizes', sched' := sizes[..at] + [x] + sizes[at..], sched[..at] + [machine] + sched[at..];
    var n := |sizes|;
    if at == n {
      assert sizes'[..n] == sizes && sched'[..n] == sched;
    } else {
      LoadInsert(sizes[..n - 1], sched[..n - 1], at, x, machine, i);
      InsertedPrefix(sizes, at, x);
      InsertedPrefix(sched, at, machine);
    }
  }

  /** Any assignment of the clusters is, load for load, an assignment of the sorted clusters. */
  lemma SizesInserted(sorted: seq<Cluster>, c: Cluster, at: nat)
    requires at <= |sorted|
    ensures Sizes(sorted[..at] + [c] + sorted[at..]) == Sizes(sorted)[..at] + [|c|] + Sizes(sorted)[at..]
  {
  }

  lemma {:induction false} SortKeepsLoads(clusters: seq<Cluster>, other: seq<nat>, m: nat) returns (moved: seq<nat>)
    requires Schedule(Sizes(clusters), other, m)
    ensures Schedule(Sizes(SortBySize(clusters)), moved, m)
    ensures forall i {:trigger Load(Sizes(clusters), other, i)} ::
              0 <= i < m ==> Load(Sizes(SortBySize(clusters)), moved, i) == Load(Sizes(clusters), other, i)
  {
    if clusters == [] {
      moved := [];
    } else {
      var tail := clusters[1..];
      assert Sizes(tail) == Sizes(clusters)[1..];
      var rest := SortKeepsLoads(tail, other[1..], m);
      SortDescends(tail);
      var sorted := SortBySize(tail);
      var at := InsertBySizeAt(clusters[0], sorted);
      moved := rest[..at] + [other[0]] + rest[at..];
      var sizes := Sizes(sorted);
      SizesInserted(sorted, clusters[0], at);
      forall i | 0 <= i < m
        ensures Load(Sizes(SortBySize(clusters)), moved, i) == Load(Sizes(clusters), other, i)
      {
        assert Load(Sizes(tail), other[1..], i) == Load(sizes, rest, i);
        LoadsAgree(Sizes(clusters), other, sizes, rest, at, i);
      }
    }
  }

  /** Taking the first job off one schedule and putting it into another at `at` keeps equal loads equal. */
  lemma LoadsAgree(sizes: seq<nat>, sched: seq<nat>, rest: seq<nat>, moved: seq<nat>, at: nat, i: nat)
    requires |sched| == |sizes| > 0 && |moved| == |rest| && at <= |rest|
    requires Load(rest, moved, i) == Load(sizes[1..], sched[1..], i)
    ensures Load(rest[..at] + [sizes[0]] + rest[at..], moved[..at] + [sched[0]] + moved[at..], i) == Load(sizes, sched, i)
  {
    LoadInsert(rest, moved, at, sizes[0], sched[0], i);
    LoadFirst(sizes, sched, i);
  }

  lemma LoadFirst(sizes: seq<nat>, sched: seq<nat>, i: nat)
    requires |sched| == |sizes| > 0
    ensures Load(sizes, sched, i) == Load(sizes[1..], sched[1..], i) + if sched[0] == i then sizes[0] else 0
  {
    LoadInsert(sizes[1..], sched[1..], 0, sizes[0], sched[0], i);
    assert sizes == sizes[1..][..0] + [sizes[0]] + sizes[1..][0..];
    assert sched == sched[1..][..0] + [sched[0]] + sched[1..][0..];
  }

  // ---------- buckets ----------

  /** The files machine `i` receives under `sched`, in the order the clusters were placed. */
  function Bucket(clusters: seq<Cluster>, sched: seq<nat>, i: nat): seq<File>
    requires |sched| == |clusters|
  {
    if clusters == [] then []
    else
      var k := |clusters| - 1;
      Bucket(clusters[..k], sched[..k], i) + if sched[k] == i then clusters[k] else []
  }

  lemma {:induction false} BucketLoad(clusters: seq<Cluster>, sched: seq<nat>, i: nat)
    requires |sched| == |clusters|
    ensures |Bucket(clusters, sched, i)| == Load(Sizes(clusters), sched, i)
  {
    if clusters != [] {
      var k := |clusters| - 1;
      assert Sizes(clusters)[..k] == Sizes(clusters[..k]);
      BucketLoad(clusters[..k], sched[..k], i);
    }
  }

  function Buckets(clusters: seq<Cluster>, sched: seq<nat>, m: nat): (r: seq<seq<File>>)
    requires |sched| == |clusters|
    ensures |r| == m
  {
    seq(m, i requires 0 <= i < m => Bucket(clusters, sched, i))
  }

  lemma BucketsSnoc(clusters: seq<Cluster>, sched: seq<nat>, c: Cluster, t: nat, m: nat)
    requires |sched| == |clusters| && t < m
    ensures var before := Buckets(clusters, sched, m);
            Buckets(clusters + [c], sched + [t], m) == before[t := before[t] + c]
  {
    assert (clusters + [c])[..|clusters|] == clusters && (sched + [t])[..|sched|] == sched;
    assert forall i :: 0 <= i < m && i != t ==>
      Bucket(clusters + [c], sched + [t], i) == Bucket(clusters, sched, i);
  }

  lemma {:induction false} BucketsConserve(clusters: seq<Cluster>, sched: seq<nat>, m: nat)
    requires Schedule(Sizes(clusters), sched, m)
    ensures multiset(Flatten(Buckets(clusters, sched, m))) == multiset(Flatten(clusters))
  {
    if clusters == [] {
      FlattenEmpties(Buckets(clusters, sched, m));
    } else {
      var k := |clusters| - 1;
      assert clusters == clusters[..k] + [clusters[k]] && sched == sched[..k] + [sched[k]];
      assert Sizes(clusters[..k]) == Sizes(clusters)[..k];
      BucketsConserve(clusters[..k], sched[..k], m);
      BucketsSnoc(clusters[..k], sched[..k], clusters[k], sched[k], m);
      FlattenUpdate(Buckets(clusters[..k], sched[..k], m), sched[k], clusters[k]);
      FlattenConcat(clusters[..k], [clusters[k]]);
      assert Flatten([clusters[k]]) == clusters[k];
    }
  }

  /** `part` occurs in `whole` as one uninterrupted run. */
  ghost predicate RunOf(part: seq<File>, whole: seq<File>) {
    exists before, after :: whole == before + part + after
  }

  lemma {:induction false} ClusterStaysWhole(clusters: seq<Cluster>, sched: seq<nat>, j: nat)
    requires |sched| == |clusters| && j < |clusters|
    ensures RunOf(clusters[j], Bucket(clusters, sched, sched[j]))
  {
    var k := |clusters| - 1;
    var sofar := Bucket(clusters[..k], sched[..k], sched[j]);
    var whole := Bucket(clusters, sched, sched[j]);
    if j == k {
      assert whole == sofar + clusters[k] + [];
    } else {
      ClusterStaysWhole(clusters[..k], sched[..k], j);
      var before, after :| sofar == before + clusters[j] + after;
      assert whole == before + clusters[j] + (after + if sched[k] == sched[j] then clusters[k] else []);
    }
  }

  // ---------- the packing loop ----------

  /** The first index whose size is least. */
  method LeastLoaded(sizes: seq<nat>) returns (least: nat)
    requires sizes != []
    ensures least < |sizes|
    ensures forall i :: 0 <= i < |sizes| ==> sizes[least] <= sizes[i]
    ensures forall i :: 0 <= i < least ==> sizes[least] < sizes[i]
  {
    least := 0;
    for i := 1 to |sizes|
      invariant least < i
      invariant forall j :: 0 <= j < i ==> sizes[least] <= sizes[j]
      invariant forall j :: 0 <= j < least ==> sizes[least] < sizes[j]
    {
      if sizes[i] < sizes[least] { least := i; }
    }
  }

  /** Ties between equally loaded machines go to the first. */
  ghost predicate FirstOfTies(sizes: seq<nat>, sched: seq<nat>) {
    && |sched| == |sizes|
    && forall k :: 0 <= k < |sizes| ==> FirstAt(sizes, sched, k)
  }

  ghost predicate FirstAt(sizes: seq<nat>, sched: seq<nat>, k: nat)
    requires |sched| == |sizes| && k < |sizes|
  {
    forall i :: 0 <= i < sched[k] ==>
      Load(sizes[..k], sched[..k], sched[k]) < Load(sizes[..k], sched[..k], i)
  }

  /** `buckets` is the largest-first greedy packing of `clusters`, placed as `sched` says. */
  ghost predicate Packing(clusters: seq<Cluster>, sched: seq<nat>, buckets: seq<seq<File>>) {
    var sorted := SortBySize(clusters);
    && Greedy(Sizes(sorted), sched, |buckets|)
    && FirstOfTies(Sizes(sorted), sched)
    && buckets == Buckets(sorted, sched, |buckets|)
  }

  lemma GreedySnoc(sizes: seq<nat>, sched: seq<nat>, x: nat, t: nat, m: nat)
    requires Greedy(sizes, sched, m) && FirstOfTies(sizes, sched) && t < m
    requires forall i :: 0 <= i < m ==> Load(sizes, sched, t) <= Load(sizes, sched, i)
    requires forall i :: 0 <= i < t ==> Load(sizes, sched, t) < Load(sizes, sched, i)
    ensures Greedy(sizes + [x], sched + [t], m) && FirstOfTies(sizes + [x], sched + [t])
  {
    var sizes', sched' := sizes + [x], sched + [t];
    forall k | 0 <= k < |sizes'| ensures GreedyAt(sizes', sched', m, k) && FirstAt(sizes', sched', k) {
      if k < |sizes| {
        assert GreedyAt(sizes, sched, m, k) && FirstAt(sizes, sched, k);
        assert sizes'[..k] == sizes[..k] && sched'[..k] == sched[..k];
      } else {
        assert sizes'[..k] == sizes && sched'[..k] == sched;
      }
    }
  }

  /** The heaviest bucket. */
  function Heaviest(buckets: seq<seq<File>>): (r: nat)
    requires buckets != []
    ensures forall i :: 0 <= i < |buckets| ==> |buckets[i]| <= r
    ensures exists i :: 0 <= i < |buckets| && |buckets[i]| == r
  {
    var last := buckets[|buckets| - 1];
    if |buckets| == 1 then |last|
    else
      var before := Heaviest(buckets[..|buckets| - 1]);
      if before < |last| then |last| else before
  }

  lemma BucketWithinFourThirds(clusters: seq<Cluster>, sched: seq<nat>, buckets: seq<seq<File>>, other: seq<nat>, cap: nat, i: nat)
    requires i < |buckets| && Packing(clusters, sched, buckets) && Within(Sizes(clusters), other, |buckets|, cap)
    ensures 3 * (|buckets| * |buckets[i]|) <= (4 * |buckets| - 1) * cap
  {
    var sorted := SortBySize(clusters);
    SortedSizesDescend(clusters);
    var moved := SortKeepsLoads(clusters, other, |buckets|);
    BucketLoad(sorted, sched, i);
    assert |buckets[i]| == Load(Sizes(sorted), sched, i) by {
      assert buckets[i] == Buckets(sorted, sched, |buckets|)[i];
    }
    forall j | 0 <= j < |buckets| ensures Load(Sizes(sorted), moved, j) <= cap {
      assert Load(Sizes(clusters), other, j) <= cap;
    }
    LargestFirstLoadBound(Sizes(sorted), sched, moved, |buckets|, cap, i);
  }

  /** Graham's bound for a packing, against any assignment `other` of the clusters as given. */
  lemma PackingWithinFourThirds(clusters: seq<Cluster>, sched: seq<nat>, buckets: seq<seq<File>>, other: seq<nat>)
    requires buckets != [] && Packing(clusters, sched, buckets)
    requires Schedule(Sizes(clusters), other, |buckets|)
    ensures var m := |buckets|;
            3 * (m * Heaviest(buckets)) <= (4 * m - 1) * Makespan(Sizes(clusters), other, m)
  {
    var i :| 0 <= i < |buckets| && |buckets[i]| == Heaviest(buckets);
    BucketWithinFourThirds(clusters, sched, buckets, other, Makespan(Sizes(clusters), other, |buckets|), i);
  }

  /** The heaviest and the lightest bucket differ by at most the largest cluster. */
  lemma PackingIsLevel(clusters: seq<Cluster>, sched: seq<nat>, buckets: seq<seq<File>>, i: nat, j: nat, largest: nat)
    requires Packing(clusters, sched, buckets) && i < |buckets| && j < |buckets|
    requires forall c :: c in clusters ==> |c| <= largest
    ensures |buckets[i]| <= |buckets[j]| + largest
  {
    var sorted := SortBySize(clusters);
    SortPermutes(clusters);
    forall k | 0 <= k < |sorted| ensures Sizes(sorted)[k] <= largest {
      assert sorted[k] in multiset(sorted);
    }
    assert buckets[i] == Buckets(sorted, sched, |buckets|)[i] && buckets[j] == Buckets(sorted, sched, |buckets|)[j];
    BucketLoad(sorted, sched, i);
    BucketLoad(sorted, sched, j);
    GreedyIsLevel(Sizes(sorted), sched, |buckets|, i, j, largest);
  }

  /** A packing loses nothing and keeps every cluster whole. */
  lemma PackingConserves(clusters: seq<Cluster>, sched: seq<nat>, buckets: seq<seq<File>>)
    requires Packing(clusters, sched, buckets)
    ensures multiset(Flatten(buckets)) == multiset(Flatten(clusters))
    ensures forall c :: c in clusters ==> exists b :: b in buckets && RunOf(c, b)
  {
    var sorted := SortBySize(clusters);
    SortPermutes(clusters);
    BucketsConserve(sorted, sched, |buckets|);
    forall c | c in clusters ensures exists b :: b in buckets && RunOf(c, b) {
      assert c in multiset(sorted);
      var j :| 0 <= j < |sorted| && sorted[j] == c;
      ClusterStaysWhole(sorted, sched, j);
      assert buckets[sched[j]] == Buckets(sorted, sched, |buckets|)[sched[j]];
      assert buckets[sched[j]] in buckets;
    }
  }

  method SplitClusters(clusters: seq<Cluster>, agentCount: nat, rootDir: File)
    returns (scopes: seq<TaskScope>, ghost sched: seq<nat>)
    requires agentCount > 0
    ensures |scopes| == agentCount
    ensures Packing(clusters, sched, Owned(scopes))
    ensures multiset(Flatten(Owned(scopes))) == multiset(Flatten(clusters))
    ensures forall i :: 0 <= i < agentCount ==> Bare(scopes[i], rootDir)
  {
    var buckets: seq<seq<File>> := seq(agentCount, i => []);
    var bucketSizes: seq<nat> := seq(agentCount, i => 0);
    var sorted := SortBySize(clusters);
    ghost var sizes := Sizes(sorted);
    sched := [];
    for k := 0 to |sorted|
      invariant |sched| == k && |bucketSizes| == agentCount
      invariant buckets == Buckets(sorted[..k], sched, agentCount)
      invariant forall i :: 0 <= i < agentCount ==> bucketSizes[i] == Load(sizes[..k], sched, i)
      invariant Greedy(sizes[..k], sched, agentCount) && FirstOfTies(sizes[..k], sched)
    {
      var t := LeastLoaded(bucketSizes);
      var cluster := sorted[k];
      GreedySnoc(sizes[..k], sched, |cluster|, t, agentCount);
      BucketsSnoc(sorted[..k], sched, cluster, t, agentCount);
      assert sorted[..k + 1] == sorted[..k] + [cluster];
      assert sizes[..k + 1] == sizes[..k] + [|cluster|];
      assert (sizes[..k + 1])[..k] == sizes[..k] && (sched + [t])[..k] == sched;
      buckets := buckets[t := buckets[t] + cluster];
      bucketSizes := bucketSizes[t := bucketSizes[t] + |cluster|];
      sched := sched + [t];
    }
    assert sorted[..|sorted|] == sorted && sizes[..|sorted|] == sizes;
    PackingConserves(clusters, sched, buckets);
    scopes := Scopes(buckets, rootDir);
  }
}
