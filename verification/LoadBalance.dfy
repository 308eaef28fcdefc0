/**
 Makespan bounds for greedy packing.

 A job list is a sequence of sizes; a schedule gives each job a machine below `m`.
 `Greedy` is the rule the router packs clusters by: each job goes to a machine whose
 load is minimal at that moment.  The results are Graham's two bounds, stated over the
 integers: (2 - 1/m) for greedy packing in any order, (4/3 - 1/(3m)) for largest-first.
 */
module LoadBalance {

  /** What machine `i` carries. */
  function Load(sizes: seq<nat>, sched: seq<nat>, i: nat): nat
    requires |sched| == |sizes|
  {
    if sizes == [] then 0
    else
      var k := |sizes| - 1;
      Load(sizes[..k], sched[..k], i) + if sched[k] == i then sizes[k] else 0
  }

  function Total(sizes: seq<nat>): nat {
    if sizes == [] then 0 else Total(sizes[..|sizes| - 1]) + sizes[|sizes| - 1]
  }

  /** The loads of machines `0..m` added up. */
  function SumLoads(sizes: seq<nat>, sched: seq<nat>, m: nat): nat
    requires |sched| == |sizes|
  {
    if m == 0 then 0 else SumLoads(sizes, sched, m - 1) + Load(sizes, sched, m - 1)
  }

  /** The heaviest load among machines `0..m`. */
  function Makespan(sizes: seq<nat>, sched: seq<nat>, m: nat): (r: nat)
    requires |sched| == |sizes| && m > 0
    ensures forall i :: 0 <= i < m ==> Load(sizes, sched, i) <= r
    ensures exists i :: 0 <= i < m && Load(sizes, sched, i) == r
  {
    var last := Load(sizes, sched, m - 1);
    if m == 1 then last
    else
      var before := Makespan(sizes, sched, m - 1);
      if before < last then last else before
  }

  ghost predicate Schedule(sizes: seq<nat>, sched: seq<nat>, m: nat) {
    |sched| == |sizes| && forall k :: 0 <= k < |sched| ==> sched[k] < m
  }

  /** Job `k` went to a machine no more loaded than any other by the jobs before it. */
  ghost predicate GreedyAt(sizes: seq<nat>, sched: seq<nat>, m: nat, k: nat)
    requires |sched| == |sizes| && k < |sizes|
  {
    forall i :: 0 <= i < m ==>
      Load(sizes[..k], sched[..k], sched[k]) <= Load(sizes[..k], sched[..k], i)
  }

  ghost predicate Greedy(sizes: seq<nat>, sched: seq<nat>, m: nat) {
    Schedule(sizes, sched, m) && forall k :: 0 <= k < |sizes| ==> GreedyAt(sizes, sched, m, k)
  }

  /** No machine carries more than `cap`. */
  ghost predicate Within(sizes: seq<nat>, sched: seq<nat>, m: nat, cap: nat) {
    Schedule(sizes, sched, m) && forall i :: 0 <= i < m ==> Load(sizes, sched, i) <= cap
  }

  predicate Descending(sizes: seq<nat>) {
    forall j, k :: 0 <= j <= k < |sizes| ==> sizes[k] <= sizes[j]
  }

  // ---------- loads ----------

  lemma {:induction false} SumLoadsSnoc(sizes: seq<nat>, sched: seq<nat>, m: nat)
    requires |sched| == |sizes| && sizes != []
    ensures var k := |sizes| - 1;
            SumLoads(sizes, sched, m) ==
            SumLoads(sizes[..k], sched[..k], m) + if sched[k] < m then sizes[k] else 0
  {
    if m > 0 { SumLoadsSnoc(sizes, sched, m - 1); }
  }

  lemma {:induction false} SumLoadsEmpty(m: nat)
    ensures SumLoads([], [], m) == 0
  {
    if m > 0 { SumLoadsEmpty(m - 1); }
  }

  /** Nothing is lost or duplicated by scheduling: the loads add up to the work. */
  lemma {:induction false} SumLoadsIsTotal(sizes: seq<nat>, sched: seq<nat>, m: nat)
    requires Schedule(sizes, sched, m)
    ensures SumLoads(sizes, sched, m) == Total(sizes)
  {
    if sizes == [] {
      SumLoadsEmpty(m);
    } else {
      var k := |sizes| - 1;
      SumLoadsSnoc(sizes, sched, m);
      SumLoadsIsTotal(sizes[..k], sched[..k], m);
    }
  }

  lemma {:induction false} SumLoadsAtLeast(sizes: seq<nat>, sched: seq<nat>, m: nat, low: nat)
    requires |sched| == |sizes|
    requires forall i :: 0 <= i < m ==> Load(sizes, sched, i) >= low
    ensures SumLoads(sizes, sched, m) >= m * low
  {
    if m > 0 {
      SumLoadsAtLeast(sizes, sched, m - 1, low);
      assert m * low == (m - 1) * low + low;
    }
  }

  lemma {:induction false} SumLoadsAtMost(sizes: seq<nat>, sched: seq<nat>, m: nat, high: nat)
    requires |sched| == |sizes|
    requires forall i :: 0 <= i < m ==> Load(sizes, sched, i) <= high
    ensures SumLoads(sizes, sched, m) <= m * high
  {
    if m > 0 {
      SumLoadsAtMost(sizes, sched, m - 1, high);
      assert m * high == (m - 1) * high + high;
    }
  }

  lemma {:induction false} JobWithinLoad(sizes: seq<nat>, sched: seq<nat>, j: nat)
    requires |sched| == |sizes| && j < |sizes|
    ensures sizes[j] <= Load(sizes, sched, sched[j])
  {
    var k := |sizes| - 1;
    if j < k { JobWithinLoad(sizes[..k], sched[..k], j); }
  }

  // ---------- the counting argument ----------

  /** Two for a job too large to share a machine of capacity `cap` with one of size `q`, else one. */
  function Weights(sizes: seq<nat>, cap: nat, q: nat): (w: seq<nat>)
    ensures |w| == |sizes|
  {
    seq(|sizes|, k requires 0 <= k < |sizes| => if sizes[k] + q > cap then 2 else 1)
  }

  /** A machine no job of size `q` fits on any more has weight two. */
  lemma {:induction false} FullMachineIsHeavy(sizes: seq<nat>, sched: seq<nat>, i: nat, cap: nat, q: nat)
    requires |sched| == |sizes| && q <= cap
    ensures Load(Weights(sizes, cap, q), sched, i) == 0 ==> Load(sizes, sched, i) == 0
    ensures Load(Weights(sizes, cap, q), sched, i) < 2 ==> Load(sizes, sched, i) + q <= cap
  {
    if sizes != [] {
      var k := |sizes| - 1;
      assert Weights(sizes, cap, q)[..k] == Weights(sizes[..k], cap, q);
      FullMachineIsHeavy(sizes[..k], sched[..k], i, cap, q);
    }
  }

  /** With every job larger than a third of `cap`, a machine within `cap` has weight at most two. */
  lemma {:induction false} FittingMachineIsLight(sizes: seq<nat>, sched: seq<nat>, i: nat, cap: nat, q: nat)
    requires |sched| == |sizes| && 3 * q > cap
    requires forall k :: 0 <= k < |sizes| ==> sizes[k] >= q
    ensures var w := Load(Weights(sizes, cap, q), sched, i);
            var load := Load(sizes, sched, i);
            && (w >= 1 ==> load >= q)
            && (w >= 2 ==> load >= 2 * q || load + q > cap)
            && (w >= 3 ==> load > cap)
  {
    if sizes != [] {
      var k := |sizes| - 1;
      assert Weights(sizes, cap, q)[..k] == Weights(sizes[..k], cap, q);
      FittingMachineIsLight(sizes[..k], sched[..k], i, cap, q);
    }
  }

  /** If the last, smallest job fits on no machine, it is at most a third of `cap`. */
  lemma SmallJobOrItFits(before: seq<nat>, q: nat, sched: seq<nat>, other: seq<nat>, m: nat, cap: nat, low: nat)
    requires m > 0 && Schedule(before, sched, m) && Within(before + [q], other, m, cap)
    requires forall k :: 0 <= k < |before| ==> before[k] >= q
    requires forall i :: 0 <= i < m ==> low <= Load(before, sched, i)
    requires low + q > cap
    ensures 3 * q <= cap
  {
    var sizes := before + [q];
    JobWithinLoad(sizes, other, |before|);
    if 3 * q > cap {
      var w := Weights(sizes, cap, q);
      var w' := Weights(before, cap, q);
      assert w[..|before|] == w';
      forall i | 0 <= i < m ensures Load(w', sched, i) >= 2 && Load(w, other, i) <= 2 {
        FullMachineIsHeavy(before, sched, i, cap, q);
        FittingMachineIsLight(sizes, other, i, cap, q);
      }
      SumLoadsAtLeast(w', sched, m, 2);
      SumLoadsAtMost(w, other, m, 2);
      SumLoadsIsTotal(w', sched, m);
      SumLoadsIsTotal(w, other, m);
      assert false;
    }
  }

  // ---------- the bounds ----------

  lemma Prefixes(sizes: seq<nat>, sched: seq<nat>, other: seq<nat>, m: nat, cap: nat)
    requires sizes != [] && Greedy(sizes, sched, m) && Within(sizes, other, m, cap)
    ensures var k := |sizes| - 1;
            Greedy(sizes[..k], sched[..k], m) && Within(sizes[..k], other[..k], m, cap)
  {
    var n := |sizes| - 1;
    forall k | 0 <= k < n ensures GreedyAt(sizes[..n], sched[..n], m, k) {
      assert GreedyAt(sizes, sched, m, k);
      assert sizes[..n][..k] == sizes[..k] && sched[..n][..k] == sched[..k];
    }
    forall i | 0 <= i < m ensures Load(sizes[..n], other[..n], i) <= cap {
      assert Load(sizes, other, i) <= cap;
    }
  }

  /** Averaging: `low` is what the machine carried when it received the last job. */
  lemma LastJobAverages(sizes: seq<nat>, sched: seq<nat>, other: seq<nat>, m: nat, cap: nat) returns (low: nat)
    requires m > 0 && sizes != []
    requires Greedy(sizes, sched, m) && Within(sizes, other, m, cap)
    ensures var k := |sizes| - 1;
            && low == Load(sizes[..k], sched[..k], sched[k])
            && low + sizes[k] == Load(sizes, sched, sched[k])
            && (forall i :: 0 <= i < m ==> low <= Load(sizes[..k], sched[..k], i))
            && m * low + sizes[k] <= m * cap
            && sizes[k] <= cap
  {
    var k := |sizes| - 1;
    low := Load(sizes[..k], sched[..k], sched[k]);
    assert GreedyAt(sizes, sched, m, k);
    SumLoadsAtLeast(sizes[..k], sched[..k], m, low);
    SumLoadsIsTotal(sizes[..k], sched[..k], m);
    SumLoadsIsTotal(sizes, other, m);
    SumLoadsAtMost(sizes, other, m, cap);
    JobWithinLoad(sizes, other, k);
  }

  lemma MulAtMost(n: nat, a: nat, b: nat)
    requires a <= b
    ensures n * a <= n * b
  {
  }

  lemma Expand(m: nat, low: nat, q: nat, cap: nat)
    ensures m * (low + q) == m * low + m * q
    ensures (2 * m - 1) * cap == 2 * (m * cap) - cap && (4 * m - 1) * cap == 4 * (m * cap) - cap
    ensures (m - 1) * q == m * q - q && (m - 1) * cap == m * cap - cap && (m - 1) * (3 * q) == 3 * (m * q) - 3 * q
  {
  }

  lemma TwiceArithmetic(m: nat, low: nat, q: nat, cap: nat)
    requires m > 0 && m * low + q <= m * cap && q <= cap
    ensures m * (low + q) <= (2 * m - 1) * cap
  {
    Expand(m, low, q, cap);
    MulAtMost(m - 1, q, cap);
  }

  lemma FourThirdsArithmetic(m: nat, low: nat, q: nat, cap: nat)
    requires m > 0 && m * low + q <= m * cap
    requires low + q <= cap || 3 * q <= cap
    ensures 3 * (m * (low + q)) <= (4 * m - 1) * cap
  {
    Expand(m, low, q, cap);
    if low + q <= cap {
      MulAtMost(m, low + q, cap);
      MulAtMost(m, 1, m);
    } else {
      MulAtMost(m - 1, 3 * q, cap);
    }
  }

  lemma {:induction false} AnyOrderLoadBound(sizes: seq<nat>, sched: seq<nat>, other: seq<nat>, m: nat, cap: nat, i: nat)
    requires i < m && Greedy(sizes, sched, m) && Within(sizes, other, m, cap)
    ensures m * Load(sizes, sched, i) <= (2 * m - 1) * cap
  {
    if sizes == [] {
    } else if sched[|sizes| - 1] == i {
      var low := LastJobAverages(sizes, sched, other, m, cap);
      TwiceArithmetic(m, low, sizes[|sizes| - 1], cap);
    } else {
      var k := |sizes| - 1;
      Prefixes(sizes, sched, other, m, cap);
      AnyOrderLoadBound(sizes[..k], sched[..k], other[..k], m, cap, i);
    }
  }

  lemma LastJobIsSmall(sizes: seq<nat>, sched: seq<nat>, other: seq<nat>, m: nat, cap: nat, low: nat)
    requires m > 0 && sizes != [] && Schedule(sizes, sched, m) && Descending(sizes) && Within(sizes, other, m, cap)
    requires var k := |sizes| - 1; forall i :: 0 <= i < m ==> low <= Load(sizes[..k], sched[..k], i)
    ensures low + sizes[|sizes| - 1] <= cap || 3 * sizes[|sizes| - 1] <= cap
  {
    var k := |sizes| - 1;
    if low + sizes[k] > cap {
      assert sizes[..k] + [sizes[k]] == sizes;
      SmallJobOrItFits(sizes[..k], sizes[k], sched[..k], other, m, cap, low);
    }
  }

  lemma LastJobBound(sizes: seq<nat>, sched: seq<nat>, other: seq<nat>, m: nat, cap: nat)
    requires sizes != [] && m > 0 && Greedy(sizes, sched, m) && Descending(sizes) && Within(sizes, other, m, cap)
    ensures 3 * (m * Load(sizes, sched, sched[|sizes| - 1])) <= (4 * m - 1) * cap
  {
    var low := LastJobAverages(sizes, sched, other, m, cap);
    LastJobIsSmall(sizes, sched, other, m, cap, low);
    FourThirdsArithmetic(m, low, sizes[|sizes| - 1], cap);
  }

  lemma {:induction false} LargestFirstLoadBound(sizes: seq<nat>, sched: seq<nat>, other: seq<nat>, m: nat, cap: nat, i: nat)
    requires i < m && Greedy(sizes, sched, m) && Descending(sizes) && Within(sizes, other, m, cap)
    ensures 3 * (m * Load(sizes, sched, i)) <= (4 * m - 1) * cap
  {
    if sizes == [] {
    } else if sched[|sizes| - 1] == i {
      LastJobBound(sizes, sched, other, m, cap);
    } else {
      var k := |sizes| - 1;
      Prefixes(sizes, sched, other, m, cap);
      LargestFirstLoadBound(sizes[..k], sched[..k], other[..k], m, cap, i);
    }
  }

  /** Greedy packing in any order is within 2 - 1/m of every other schedule. */
  lemma GreedyWithinTwice(sizes: seq<nat>, sched: seq<nat>, other: seq<nat>, m: nat)
    requires m > 0 && Greedy(sizes, sched, m) && Schedule(sizes, other, m)
    ensures m * Makespan(sizes, sched, m) <= (2 * m - 1) * Makespan(sizes, other, m)
  {
    var i :| 0 <= i < m && Load(sizes, sched, i) == Makespan(sizes, sched, m);
    AnyOrderLoadBound(sizes, sched, other, m, Makespan(sizes, other, m), i);
  }

  /** Graham's bound: largest-first greedy packing is within 4/3 - 1/(3m) of every other schedule. */
  lemma LargestFirstWithinFourThirds(sizes: seq<nat>, sched: seq<nat>, other: seq<nat>, m: nat)
    requires m > 0 && Greedy(sizes, sched, m) && Descending(sizes) && Schedule(sizes, other, m)
    ensures 3 * (m * Makespan(sizes, sched, m)) <= (4 * m - 1) * Makespan(sizes, other, m)
  {
    var i :| 0 <= i < m && Load(sizes, sched, i) == Makespan(sizes, sched, m);
    LargestFirstLoadBound(sizes, sched, other, m, Makespan(sizes, other, m), i);
  }

  /** No two machines of a greedy schedule differ by more than the largest job. */
  lemma {:induction false} GreedyIsLevel(sizes: seq<nat>, sched: seq<nat>, m: nat, i: nat, j: nat, largest: nat)
    requires Greedy(sizes, sched, m) && i < m && j < m
    requires forall k :: 0 <= k < |sizes| ==> sizes[k] <= largest
    ensures Load(sizes, sched, i) <= Load(sizes, sched, j) + largest
  {
    if sizes != [] {
      var k := |sizes| - 1;
      assert GreedyAt(sizes, sched, m, k);
      Prefixes(sizes, sched, sched, m, Makespan(sizes, sched, m));
      GreedyIsLevel(sizes[..k], sched[..k], m, i, j, largest);
    }
  }
}
