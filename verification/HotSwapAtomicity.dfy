/**
 When a failing swap restores the active map.  Serially it always does; between threads it restores the
 map that was saved last, which need not be its own.
 */
module HotSwapAtomicity {
  import opened Wrappers
  import opened Adapters
  import opened HotSwap
  import opened HotSwapLocks

  /** Step `k` of the run is the next thing thread `t` does. */
  ghost predicate TakenBy(run: seq<State>, k: nat, t: nat) {
    k + 1 < |run| && CanStep(run[k], t) && run[k + 1] == Take(run[k], t)
  }

  /** Step `k` is a swap of thread `t` saving the active map. */
  ghost predicate SavesAt(run: seq<State>, k: nat, t: nat) {
    TakenBy(run, k, t) && run[k].threads[t].InSave?
  }

  /** Step `j` is thread `t` putting the saved map back. */
  ghost predicate RestoresAt(run: seq<State>, j: nat, t: nat) {
    TakenBy(run, j, t) && run[j].threads[t].InRestore?
  }

  /** One swap of thread `t`: it saved at step `i`, failed, and undid at step `j`. */
  ghost predicate FailedSwap(run: seq<State>, i: nat, j: nat, t: nat) {
    && i < j && SavesAt(run, i, t) && RestoresAt(run, j, t)
    && forall k :: i <= k <= j ==> t < |run[k].threads| && !run[k].threads[t].Idle?
  }

  ghost predicate NoSaves(run: seq<State>, lo: nat, hi: nat) {
    forall k, t :: lo <= k < hi ==> !SavesAt(run, k, t)
  }

  // ---------- the last save decides ----------

  lemma OnlySavesChangeSaved(s: State, s': State, t: nat)
    requires StepBy(s, s', t) && s'.saved != s.saved
    ensures CanStep(s, t) && s' == Take(s, t) && s.threads[t].InSave?
  {
  }

  lemma JustSaved(run: seq<State>, k: nat, u: nat)
    requires SavesAt(run, k, u)
    ensures run[k + 1].saved == Some(run[k].active)
  {
  }

  lemma SavedStep(run: seq<State>, m: nat)
    requires Run(run) && m + 1 < |run| && NoSaves(run, m, m + 1)
    ensures run[m + 1].saved == run[m].saved
  {
    assert Steps(run[m + 1 - 1], run[m + 1]);
    var t: nat :| StepBy(run[m], run[m + 1], t);
    assert !SavesAt(run, m, t);
    if run[m + 1].saved != run[m].saved { OnlySavesChangeSaved(run[m], run[m + 1], t); }
  }

  lemma {:induction false} SavedIsKept(run: seq<State>, lo: nat, hi: nat)
    requires Run(run) && lo <= hi < |run| && NoSaves(run, lo, hi)
    ensures run[hi].saved == run[lo].saved
  {
    if lo < hi {
      SavedIsKept(run, lo, hi - 1);
      SavedStep(run, hi - 1);
    }
  }

  lemma Restores(run: seq<State>, j: nat, t: nat)
    requires RestoresAt(run, j, t) && run[j].saved.Some?
    ensures run[j + 1].active == run[j].saved.value
  {
  }

  /** An undo puts back the map recorded by the last save before it, whichever thread's swap that was. */
  lemma UndoRestoresLastSave(run: seq<State>, k: nat, u: nat, j: nat, t: nat)
    requires Run(run) && k < j && SavesAt(run, k, u) && RestoresAt(run, j, t) && NoSaves(run, k + 1, j)
    ensures run[j + 1].active == run[k].active
  {
    JustSaved(run, k, u);
    SavedIsKept(run, k + 1, j);
    Restores(run, j, t);
  }

  /** A failed swap restores what was active when it saved exactly when the last save recorded that same map. */
  lemma RestoredExactly(run: seq<State>, i: nat, j: nat, t: nat, k: nat, u: nat)
    requires Run(run) && FailedSwap(run, i, j, t)
    requires i <= k < j && SavesAt(run, k, u) && NoSaves(run, k + 1, j)
    ensures run[j + 1].active == run[i].active <==> run[k].active == run[i].active
  {
    UndoRestoresLastSave(run, k, u, j, t);
  }

  // ---------- one swapping thread ----------

  predicate PastSave(pc: Pc) {
    pc.WantTarget? || pc.WantMove? || pc.InMove? || pc.InDrop? || pc.WantUndo? || pc.WantRestore? || pc.InRestore?
  }

  lemma StepPastSave(s: State, s': State, u: nat, t: nat)
    requires StepBy(s, s', u) && t < |s.threads| && PastSave(s.threads[t])
    ensures |s'.threads| == |s.threads| && (PastSave(s'.threads[t]) || s'.threads[t].Idle?)
  {
  }

  lemma SavedIsPast(run: seq<State>, i: nat, t: nat)
    requires SavesAt(run, i, t)
    ensures t < |run[i + 1].threads| && PastSave(run[i + 1].threads[t])
  {
  }

  lemma RunStepPastSave(run: seq<State>, m: nat, t: nat)
    requires Run(run) && 0 < m < |run| && t < |run[m - 1].threads| && PastSave(run[m - 1].threads[t])
    ensures t < |run[m].threads| && (PastSave(run[m].threads[t]) || run[m].threads[t].Idle?)
  {
    assert Steps(run[m - 1], run[m]);
    var u: nat :| StepBy(run[m - 1], run[m], u);
    StepPastSave(run[m - 1], run[m], u, t);
  }

  lemma {:induction false} StaysPastSave(run: seq<State>, i: nat, j: nat, t: nat, m: nat)
    requires Run(run) && FailedSwap(run, i, j, t) && i < m <= j
    ensures PastSave(run[m].threads[t])
  {
    if m == i + 1 {
      SavedIsPast(run, i, t);
    } else {
      StaysPastSave(run, i, j, t, m - 1);
      RunStepPastSave(run, m, t);
    }
  }

  /** Only threads of `savers` swap. */
  ghost predicate OnlySavedBy(run: seq<State>, savers: set<nat>) {
    forall k, t :: SavesAt(run, k, t) ==> t in savers
  }

  /** A failed swap restores the active map when no other thread saves meanwhile. */
  lemma SoleSwapperRestores(run: seq<State>, i: nat, j: nat, t: nat)
    requires Run(run) && FailedSwap(run, i, j, t)
    requires forall k, u :: i < k < j && SavesAt(run, k, u) ==> u == t
    ensures run[j + 1].active == run[i].active
  {
    forall k, u | i + 1 <= k < j ensures !SavesAt(run, k, u) {
      StaysPastSave(run, i, j, t, k);
    }
    UndoRestoresLastSave(run, i, t, j, t);
  }

  // ---------- two swapping threads ----------

  function Quiet(n: nat): (r: seq<Pc>)
    ensures |r| == n && forall t :: 0 <= t < n ==> r[t] == Idle
  {
    seq(n, _ => Idle)
  }

  /** No thread but `t` holds a guard. */
  predicate Alone(s: State, t: nat) {
    t < |s.threads| && forall u :: 0 <= u < |s.threads| && u != t ==> Holds(s.threads[u]) == {}
  }

  lemma Extend(run: seq<State>, t: nat, s': State) returns (longer: seq<State>)
    requires Run(run) && StepBy(run[|run| - 1], s', t)
    ensures Run(longer) && longer == run + [s']
  {
    longer := run + [s'];
    forall i | 0 < i < |longer| ensures Steps(longer[i - 1], longer[i]) {
      if i < |run| { assert Steps(run[i - 1], run[i]); }
    }
  }

  /** Of `n` threads only `p` and `q` do anything. */
  predicate Pair(s: State, n: nat, p: nat, q: nat) {
    p < n && q < n && p != q && |s.threads| == n && forall u :: 0 <= u < n && u != p && u != q ==> s.threads[u] == Idle
  }

  /** A run of such states; thread `p` is inside one operation from state `i` on. */
  ghost predicate Duet(run: seq<State>, n: nat, p: nat, q: nat, i: nat) {
    && Run(run)
    && (forall k :: 0 <= k < |run| ==> Pair(run[k], n, p, q))
    && (forall k :: i <= k < |run| ==> Pair(run[k], n, p, q) && !run[k].threads[p].Idle?)
  }

  lemma StepKeepsPair(s: State, s': State, t: nat, n: nat, p: nat, q: nat)
    requires Pair(s, n, p, q) && t in {p, q} && StepBy(s, s', t)
    ensures Pair(s', n, p, q)
  {
  }

  /** A duet goes on with a step of `t`, one of the two. */
  lemma Continue(run: seq<State>, n: nat, p: nat, q: nat, i: nat, t: nat, s': State) returns (longer: seq<State>)
    requires Duet(run, n, p, q, i) && t in {p, q} && StepBy(run[|run| - 1], s', t)
    requires Pair(s', n, p, q) ==> i > |run| || !s'.threads[p].Idle?
    ensures Duet(longer, n, p, q, i) && longer == run + [s']
  {
    StepKeepsPair(run[|run| - 1], s', t, n, p, q);
    longer := Extend(run, t, s');
  }

  lemma AloneCanStep(s: State, t: nat)
    requires Alone(s, t) && !s.threads[t].Idle?
    ensures CanStep(s, t)
  {
  }

  /** Thread `t`, alone in holding guards, takes its next step. */
  lemma Advance(run: seq<State>, n: nat, p: nat, q: nat, i: nat, t: nat) returns (longer: seq<State>)
    requires Duet(run, n, p, q, i) && t in {p, q}
    requires Alone(run[|run| - 1], t) && !run[|run| - 1].threads[t].Idle?
    requires i > |run| || (CanStep(run[|run| - 1], t) ==>
               p < |Take(run[|run| - 1], t).threads| && !Take(run[|run| - 1], t).threads[p].Idle?)
    ensures Duet(longer, n, p, q, i) && CanStep(run[|run| - 1], t) && longer == run + [Take(run[|run| - 1], t)]
  {
    AloneCanStep(run[|run| - 1], t);
    longer := Continue(run, n, p, q, i, t, Take(run[|run| - 1], t));
  }

  /** The first step of an operation of `t`. */
  lemma Begin(run: seq<State>, n: nat, p: nat, q: nat, i: nat, t: nat, pc: Pc) returns (longer: seq<State>)
    requires Duet(run, n, p, q, i) && t in {p, q} && Entry(pc)
    requires t < |run[|run| - 1].threads| && run[|run| - 1].threads[t].Idle? && (t == q ==> !run[|run| - 1].threads[p].Idle?)
    ensures Duet(longer, n, p, q, i) && longer == run + [Goto(run[|run| - 1], t, pc)]
  {
    longer := Continue(run, n, p, q, i, t, Goto(run[|run| - 1], t, pc));
  }

  /** Thread `p` preloads `a` for `x`. */
  lemma RunPreload(run: seq<State>, n: nat, p: nat, q: nat, i: nat, x: Slot, a: Adapter) returns (longer: seq<State>)
    requires Duet(run, n, p, q, i) && run[|run| - 1].threads == Quiet(n) && i > |run| + 2
    ensures Duet(longer, n, p, q, i) && |longer| == |run| + 3
    ensures var s := run[|run| - 1];
            longer[|longer| - 1] == s.(staged := s.staged[x := a], preloaded := s.preloaded + {(x, a)})
  {
    var s := run[|run| - 1];
    assert Pair(s, n, p, q);
    longer := Begin(run, n, p, q, i, p, WantStage(x, a));
    longer := Advance(longer, n, p, q, i, p);
    longer := Advance(longer, n, p, q, i, p);
    assert longer[|longer| - 1].threads == s.threads;
  }

  /** A swap takes its first locks and is about to save. */
  lemma ReachSave(run: seq<State>, n: nat, p: nat, q: nat, i: nat, t: nat, slots: seq<Slot>) returns (longer: seq<State>)
    requires Duet(run, n, p, q, i) && t in {p, q} && Alone(run[|run| - 1], t) && p < |run[|run| - 1].threads|
    requires run[|run| - 1].threads[t] == WantSource(slots) && !run[|run| - 1].threads[p].Idle?
    ensures Duet(longer, n, p, q, i) && run <= longer && |longer| == |run| + 2
    ensures longer[|longer| - 1] == Goto(run[|run| - 1], t, InSave(slots))
  {
    longer := Advance(run, n, p, q, i, t);
    longer := Advance(longer, n, p, q, i, t);
  }

  /** It saves and reaches its loop. */
  lemma SaveAndLock(run: seq<State>, n: nat, p: nat, q: nat, i: nat, t: nat, slots: seq<Slot>) returns (longer: seq<State>)
    requires Duet(run, n, p, q, i) && t in {p, q} && Alone(run[|run| - 1], t) && p < |run[|run| - 1].threads|
    requires run[|run| - 1].threads[t] == InSave(slots) && !run[|run| - 1].threads[p].Idle?
    ensures Duet(longer, n, p, q, i) && run <= longer && SavesAt(longer, |run| - 1, t)
    ensures var s := run[|run| - 1];
            longer[|longer| - 1] == Goto(s, t, InMove(slots)).(saved := Some(s.active))
  {
    longer := Advance(run, n, p, q, i, t);
    longer := Advance(longer, n, p, q, i, t);
    longer := Advance(longer, n, p, q, i, t);
  }

  /** The loop moves `x`. */
  lemma MoveOne(run: seq<State>, n: nat, p: nat, q: nat, i: nat, t: nat, x: Slot, rest: seq<Slot>) returns (longer: seq<State>)
    requires Duet(run, n, p, q, i) && t in {p, q} && Alone(run[|run| - 1], t) && p < |run[|run| - 1].threads|
    requires run[|run| - 1].threads[t] == InMove([x] + rest) && !run[|run| - 1].threads[p].Idle? && x in run[|run| - 1].staged
    ensures Duet(longer, n, p, q, i) && run <= longer
    ensures var s := run[|run| - 1];
            longer[|longer| - 1] ==
            Goto(s, t, InMove(rest)).(active := s.active[x := s.staged[x]], staged := s.staged - {x})
  {
    assert ([x] + rest)[1..] == rest;
    longer := Advance(run, n, p, q, i, t);
  }

  /** Thread `p` finds `y` missing and drops its locks. */
  lemma GiveUp(run: seq<State>, n: nat, p: nat, q: nat, i: nat, y: Slot) returns (longer: seq<State>)
    requires Duet(run, n, p, q, i) && Alone(run[|run| - 1], p)
    requires run[|run| - 1].threads[p] == InMove([y]) && y !in run[|run| - 1].staged
    ensures Duet(longer, n, p, q, i) && run <= longer
    ensures longer[|longer| - 1] == Goto(run[|run| - 1], p, WantUndo)
  {
    longer := Advance(run, n, p, q, i, p);
    longer := Advance(longer, n, p, q, i, p);
  }

  /** Thread `p` takes its locks again and is about to undo. */
  lemma ReachUndo(run: seq<State>, n: nat, p: nat, q: nat, i: nat) returns (longer: seq<State>)
    requires Duet(run, n, p, q, i) && Alone(run[|run| - 1], p) && run[|run| - 1].threads[p] == WantUndo
    ensures Duet(longer, n, p, q, i) && run <= longer
    ensures longer[|longer| - 1] == Goto(run[|run| - 1], p, InRestore)
  {
    longer := Advance(run, n, p, q, i, p);
    longer := Advance(longer, n, p, q, i, p);
  }

  lemma StillSaves(run: seq<State>, longer: seq<State>, i: nat, t: nat)
    requires run <= longer && SavesAt(run, i, t)
    ensures SavesAt(longer, i, t) && longer[i] == run[i]
  {
    assert longer[i] == run[i] && longer[i + 1] == run[i + 1];
  }

  /** Two adapters are staged, and thread `p` is about to save for a swap of x and y. */
  lemma Opening(n: nat, p: nat, q: nat, x: Slot, y: Slot, z: Slot, a: Adapter, c: Adapter) returns (run: seq<State>)
    requires p < n && q < n && p != q && x != z
    ensures Duet(run, n, p, q, 9) && |run| == 10
    ensures run[9] == State(map[], map[x := a, z := c], None, {(x, a), (z, c)}, Quiet(n)[p := InSave([x, y])])
  {
    run := [State(map[], map[], None, {}, Quiet(n))];
    run := RunPreload(run, n, p, q, 9, x, a);
    run := RunPreload(run, n, p, q, 9, z, c);
    run := Begin(run, n, p, q, 9, p, WantSource([x, y]));
    run := ReachSave(run, n, p, q, 9, p, [x, y]);
  }

  /** It saves, moves x, finds y missing, and drops its locks. */
  lemma HalfSwap(run: seq<State>, n: nat, p: nat, q: nat, x: Slot, y: Slot, z: Slot, a: Adapter, c: Adapter)
    returns (longer: seq<State>)
    requires Duet(run, n, p, q, 9) && |run| == 10 && x != y && x != z && y != z
    requires run[9] == State(map[], map[x := a, z := c], None, {(x, a), (z, c)}, Quiet(n)[p := InSave([x, y])])
    ensures Duet(longer, n, p, q, 9) && run <= longer && SavesAt(longer, 9, p)
    ensures longer[|longer| - 1] ==
            State(map[x := a], map[z := c], Some(map[]), {(x, a), (z, c)}, Quiet(n)[p := WantUndo])
  {
    longer := SaveAndLock(run, n, p, q, 9, p, [x, y]);
    var saved := longer;
    assert [x] + [y] == [x, y] && map[x := a, z := c] - {x} == map[z := c];
    longer := MoveOne(longer, n, p, q, 9, p, x, [y]);
    longer := GiveUp(longer, n, p, q, 9, y);
    StillSaves(saved, longer, 9, p);
  }

  /** Meanwhile thread `q` swaps z, successfully. */
  lemma OtherSwap(run: seq<State>, n: nat, p: nat, q: nat, x: Slot, z: Slot, a: Adapter, c: Adapter)
    returns (longer: seq<State>)
    requires Duet(run, n, p, q, 9) && x != z
    requires run[|run| - 1] == State(map[x := a], map[z := c], Some(map[]), {(x, a), (z, c)}, Quiet(n)[p := WantUndo])
    ensures Duet(longer, n, p, q, 9) && run <= longer
    ensures longer[|longer| - 1] ==
            State(map[x := a, z := c], map[], Some(map[x := a]), {(x, a), (z, c)}, Quiet(n)[p := WantUndo])
  {
    assert Pair(run[|run| - 1], n, p, q);
    longer := Begin(run, n, p, q, 9, q, WantSource([z]));
    longer := ReachSave(longer, n, p, q, 9, q, [z]);
    longer := SaveAndLock(longer, n, p, q, 9, q, [z]);
    assert [z] + [] == [z] && map[z := c] - {z} == map[];
    longer := MoveOne(longer, n, p, q, 9, q, z, []);
    longer := Finish(longer, n, p, q, 9);
  }

  /** With no slot left, thread `q` returns. */
  lemma Finish(run: seq<State>, n: nat, p: nat, q: nat, i: nat) returns (longer: seq<State>)
    requires Duet(run, n, p, q, i) && Alone(run[|run| - 1], q) && p < |run[|run| - 1].threads|
    requires run[|run| - 1].threads == Quiet(n)[p := WantUndo][q := InMove([])]
    ensures Duet(longer, n, p, q, i) && run <= longer
    ensures longer[|longer| - 1] == run[|run| - 1].(threads := Quiet(n)[p := WantUndo])
  {
    assert Pair(run[|run| - 1], n, p, q);
    longer := Advance(run, n, p, q, i, q);
    assert longer[|longer| - 1].threads == Quiet(n)[p := WantUndo];
  }

  lemma DuetSaves(run: seq<State>, n: nat, p: nat, q: nat)
    requires forall k :: 0 <= k < |run| ==> Pair(run[k], n, p, q)
    ensures OnlySavedBy(run, {p, q})
  {
    forall k: nat, t: nat | SavesAt(run, k, t) ensures t in {p, q} { assert Pair(run[k], n, p, q); }
  }

  /** Both threads' steps up to the undo of `p`. */
  lemma UpToUndo(n: nat, p: nat, q: nat, x: Slot, y: Slot, z: Slot, a: Adapter, c: Adapter) returns (run: seq<State>)
    requires p < n && q < n && p != q && x != y && x != z && y != z
    ensures Duet(run, n, p, q, 9) && SavesAt(run, 9, p) && run[9].active == map[]
    ensures run[|run| - 1] ==
            State(map[x := a, z := c], map[], Some(map[x := a]), {(x, a), (z, c)}, Quiet(n)[p := InRestore])
  {
    var opening := Opening(n, p, q, x, y, z, a, c);
    var half := HalfSwap(opening, n, p, q, x, y, z, a, c);
    assert half[9] == opening[9];
    var other := OtherSwap(half, n, p, q, x, z, a, c);
    StillSaves(half, other, 9, p);
    run := ReachUndo(other, n, p, q, 9);
    StillSaves(other, run, 9, p);
    assert Quiet(n)[p := WantUndo][p := InRestore] == Quiet(n)[p := InRestore];
  }

  /** Thread `p` puts the saved map back and returns. */
  lemma Undo(run: seq<State>, n: nat, p: nat, q: nat, i: nat, saved: SlotMap) returns (longer: seq<State>, j: nat)
    requires Duet(run, n, p, q, i) && SavesAt(run, i, p) && Alone(run[|run| - 1], p)
    requires run[|run| - 1].threads[p] == InRestore && run[|run| - 1].saved == Some(saved)
    ensures Run(longer) && run <= longer && j == |run| - 1 && |longer[0].threads| == n
    ensures OnlySavedBy(longer, {p, q}) && FailedSwap(longer, i, j, p) && longer[j + 1].active == saved
  {
    j := |run| - 1;
    AloneCanStep(run[j], p);
    longer := Extend(run, p, Take(run[j], p));
    StepKeepsPair(run[j], longer[j + 1], p, n, p, q);
    StillSaves(run, longer, i, p);
    DuetSaves(longer, n, p, q);
    forall k | i <= k <= j ensures p < |longer[k].threads| && !longer[k].threads[p].Idle? { assert longer[k] == run[k]; }
    assert Pair(longer[0], n, p, q);
  }

  /**
   Thread `p` swaps x and a slot that is not staged; between its dropping the locks and undoing, `q` swaps
   z and succeeds.  The undo then restores the map `q` saved: x stays active although its swap failed, and
   z is gone although its swap succeeded.
   */
  lemma FailedSwapIsNotAtomic(n: nat, p: nat, q: nat, x: Slot, y: Slot, z: Slot, a: Adapter, c: Adapter)
    returns (run: seq<State>, i: nat, j: nat)
    requires p < n && q < n && p != q && x != y && x != z && y != z
    ensures Run(run) && |run[0].threads| == n && OnlySavedBy(run, {p, q}) && FailedSwap(run, i, j, p)
    ensures run[i].active == map[] && run[j].active == map[x := a, z := c] && run[j + 1].active == map[x := a]
  {
    i := 9;
    var r := UpToUndo(n, p, q, x, y, z, a, c);
    run, j := Undo(r, n, p, q, 9, map[x := a]);
    assert run[9] == r[9] && run[j] == r[j];
  }

  // ---------- exactly when ----------

  /** With `n` threads of which only `savers` swap, every failed swap restores what was active when it saved. */
  ghost predicate AlwaysRestores(n: nat, savers: set<nat>) {
    forall run: seq<State>, i: nat, j: nat, t: nat ::
      Run(run) && |run[0].threads| == n && OnlySavedBy(run, savers) && FailedSwap(run, i, j, t) ==>
        run[j + 1].active == run[i].active
  }

  /** Failed swaps are undone in every interleaving exactly when at most one thread swaps. */
  lemma AtomicExactlyForOneSwapper(n: nat, savers: set<nat>)
    requires forall t :: t in savers ==> t < n
    ensures AlwaysRestores(n, savers) <==> |savers| <= 1
  {
    if |savers| <= 1 {
      forall run: seq<State>, i: nat, j: nat, t: nat |
        Run(run) && |run[0].threads| == n && OnlySavedBy(run, savers) && FailedSwap(run, i, j, t)
        ensures run[j + 1].active == run[i].active
      {
        forall k, u | i < k < j && SavesAt(run, k, u) ensures u == t { AtMostOne(savers, t, u); }
        SoleSwapperRestores(run, i, j, t);
      }
    } else {
      var p, q := TwoOf(savers);
      var a := Adapter("", 0, false, 0);
      var run, i, j := FailedSwapIsNotAtomic(n, p, q, "x", "y", "z", a, a);
      assert OnlySavedBy(run, savers);
      assert "x" in map["x" := a];
    }
  }

  lemma AtMostOne(s: set<nat>, t: nat, u: nat)
    requires |s| <= 1 && t in s && u in s
    ensures t == u
  {
    if t != u { assert {t, u} <= s; Bigger({t, u}, s); }
  }

  lemma {:induction false} Bigger(a: set<nat>, b: set<nat>)
    requires a <= b
    ensures |a| <= |b|
  {
    if x :| x in a {
      Bigger(a - {x}, b - {x});
    }
  }

  lemma TwoOf(s: set<nat>) returns (p: nat, q: nat)
    requires |s| >= 2
    ensures p in s && q in s && p != q
  {
    p :| p in s;
    assert |s - {p}| >= 1;
    q :| q in s - {p};
  }
}
