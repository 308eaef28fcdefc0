/**
 Graham's bound for largest-first packing cannot be lowered for any number of machines.  The jobs are two of
 each size from 2m - 1 down to m + 1, and three of size m: the greedy rule reaches 4m - 1 where 3m would do.
 */
module TightPacking {
  import opened LoadBalance

  function Size(m: nat, k: nat): nat
    requires k <= 2 * m && m > 0
  {
    if k == 2 * m then m else 2 * m - 1 - k / 2
  }

  function Jobs(m: nat): (r: seq<nat>)
    requires m > 0
    ensures |r| == 2 * m + 1
  {
    seq(2 * m + 1, k requires 0 <= k < 2 * m + 1 => Size(m, k))
  }

  /** Machines 0 to m - 1, then back, and the last job on machine 0. */
  function GreedyPlace(m: nat, k: nat): nat
    requires k <= 2 * m && m > 0
  {
    if k < m then k else if k < 2 * m then 2 * m - 1 - k else 0
  }

  function GreedySchedule(m: nat): (r: seq<nat>)
    requires m > 0
    ensures |r| == 2 * m + 1
  {
    seq(2 * m + 1, k requires 0 <= k < 2 * m + 1 => GreedyPlace(m, k))
  }

  /** The three jobs of size m together, the others in pairs that add up to 3m. */
  function BestPlace(m: nat, k: nat): nat
    requires k <= 2 * m && m > 0
  {
    if k >= 2 * m - 2 then 0 else if k < m - 1 then k + 1 else 2 * m - 2 - k
  }

  function BestSchedule(m: nat): (r: seq<nat>)
    requires m > 0
    ensures |r| == 2 * m + 1
  {
    seq(2 * m + 1, k requires 0 <= k < 2 * m + 1 => BestPlace(m, k))
  }

  lemma LoadStep(sizes: seq<nat>, sched: seq<nat>, n: nat, i: nat)
    requires |sched| == |sizes| && n < |sizes|
    ensures Load(sizes[..n + 1], sched[..n + 1], i) == Load(sizes[..n], sched[..n], i) + if sched[n] == i then sizes[n] else 0
  {
    assert sizes[..n + 1][..n] == sizes[..n] && sched[..n + 1][..n] == sched[..n];
  }

  // ---------- the greedy schedule ----------

  /** What machine `i` carries after `n` jobs. */
  function GreedyLoad(m: nat, n: nat, i: nat): nat
    requires i < m && n <= 2 * m + 1
  {
    (if n > i then Size(m, i) else 0) + (if n > 2 * m - 1 - i then Size(m, 2 * m - 1 - i) else 0)
    + if n > 2 * m && i == 0 then m else 0
  }

  lemma {:induction false} GreedyLoads(m: nat, n: nat, i: nat)
    requires i < m && n <= 2 * m + 1
    ensures Load(Jobs(m)[..n], GreedySchedule(m)[..n], i) == GreedyLoad(m, n, i)
  {
    if n > 0 {
      GreedyLoads(m, n - 1, i);
      LoadStep(Jobs(m), GreedySchedule(m), n - 1, i);
    }
  }

  /** Two jobs on a machine add up to 3m - 1. */
  lemma GreedyPairs(m: nat, i: nat)
    requires i < m
    ensures Size(m, i) + Size(m, 2 * m - 1 - i) == 3 * m - 1
  {
  }

  /** Larger jobs come first. */
  lemma SizesFall(m: nat, k: nat, l: nat)
    requires m > 0 && k <= l <= 2 * m
    ensures Size(m, k) >= Size(m, l) >= m
  {
  }

  /** Job `k` goes to a machine no more loaded than any other. */
  lemma PlacedGreedily(m: nat, k: nat, i: nat)
    requires m > 0 && k <= 2 * m && i < m
    ensures GreedyLoad(m, k, GreedyPlace(m, k)) <= GreedyLoad(m, k, i)
  {
    GreedyPairs(m, i);
    if m <= k < 2 * m {
      var t := GreedyPlace(m, k);
      if i <= t { SizesFall(m, i, t); } else { SizesFall(m, 0, t); }
    } else if k == 2 * m {
      GreedyPairs(m, 0);
    }
  }

  lemma ScheduleIsGreedy(m: nat)
    requires m > 0
    ensures Greedy(Jobs(m), GreedySchedule(m), m)
  {
    forall k | 0 <= k < |Jobs(m)| ensures GreedyAt(Jobs(m), GreedySchedule(m), m, k) {
      forall i | 0 <= i < m
        ensures Load(Jobs(m)[..k], GreedySchedule(m)[..k], GreedySchedule(m)[k]) <= Load(Jobs(m)[..k], GreedySchedule(m)[..k], i)
      {
        GreedyLoads(m, k, GreedyPlace(m, k));
        GreedyLoads(m, k, i);
        PlacedGreedily(m, k, i);
      }
    }
  }

  lemma GreedyMakespan(m: nat)
    requires m > 0
    ensures Makespan(Jobs(m), GreedySchedule(m), m) == 4 * m - 1
  {
    var sizes, sched := Jobs(m), GreedySchedule(m);
    assert sizes[..2 * m + 1] == sizes && sched[..2 * m + 1] == sched;
    forall i | 0 <= i < m ensures Load(sizes, sched, i) == if i == 0 then 4 * m - 1 else 3 * m - 1 {
      GreedyLoads(m, 2 * m + 1, i);
      GreedyPairs(m, i);
    }
    var i :| 0 <= i < m && Load(sizes, sched, i) == Makespan(sizes, sched, m);
    assert Load(sizes, sched, 0) == 4 * m - 1;
  }

  // ---------- a better schedule ----------

  function BestLoad(m: nat, n: nat, i: nat): nat
    requires i < m && n <= 2 * m + 1
  {
    if i == 0 then m * (if n > 2 * m - 2 then n - (2 * m - 2) else 0)
    else (if n > i - 1 then Size(m, i - 1) else 0) + (if n > 2 * m - 2 - i then Size(m, 2 * m - 2 - i) else 0)
  }

  lemma {:induction false} BestLoads(m: nat, n: nat, i: nat)
    requires i < m && n <= 2 * m + 1
    ensures Load(Jobs(m)[..n], BestSchedule(m)[..n], i) == BestLoad(m, n, i)
  {
    if n > 0 {
      BestLoads(m, n - 1, i);
      LoadStep(Jobs(m), BestSchedule(m), n - 1, i);
      BestLoadStep(m, n - 1, i);
    }
  }

  lemma BestLoadStep(m: nat, n: nat, i: nat)
    requires i < m && n <= 2 * m
    ensures BestLoad(m, n + 1, i) == BestLoad(m, n, i) + if BestPlace(m, n) == i then Size(m, n) else 0
  {
    if i == 0 && n >= 2 * m - 2 {
      assert m * (n + 1 - (2 * m - 2)) == m * (n - (2 * m - 2)) + m;
    }
  }

  lemma BestMakespan(m: nat)
    requires m > 0
    ensures Makespan(Jobs(m), BestSchedule(m), m) == 3 * m
  {
    var sizes, sched := Jobs(m), BestSchedule(m);
    assert sizes[..2 * m + 1] == sizes && sched[..2 * m + 1] == sched;
    forall i | 0 <= i < m ensures Load(sizes, sched, i) == 3 * m { BestLoads(m, 2 * m + 1, i); }
  }

  /** For every number of machines the bound is attained. */
  lemma FourThirdsIsTight(m: nat)
    requires m > 0
    ensures Greedy(Jobs(m), GreedySchedule(m), m) && Descending(Jobs(m)) && Schedule(Jobs(m), BestSchedule(m), m)
    ensures 3 * (m * Makespan(Jobs(m), GreedySchedule(m), m)) == (4 * m - 1) * Makespan(Jobs(m), BestSchedule(m), m)
  {
    ScheduleIsGreedy(m);
    GreedyMakespan(m);
    BestMakespan(m);
    forall i, j | 0 <= i < j < |Jobs(m)| ensures Jobs(m)[i] >= Jobs(m)[j] { SizesFall(m, i, j); }
    assert 3 * (m * (4 * m - 1)) == (4 * m - 1) * (3 * m);
  }
}
