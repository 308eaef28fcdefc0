/**
 A thread alone inside the hot-swap manager does, lock by lock, what the serial operations promise: the
 interleaved model refines the one-call-at-a-time model.
 */
module HotSwapSolo {
  import opened Wrappers
  import opened Adapters
  import opened HotSwap
  import opened HotSwapLocks

  /** Every other thread is outside. */
  predicate Alone(s: State, t: nat) {
    t < |s.threads| && forall u :: 0 <= u < |s.threads| && u != t ==> s.threads[u] == Idle
  }

  /** `n` steps of thread `t`, and of no other, lead from `s` to `s'`. */
  ghost predicate Solo(s: State, t: nat, n: nat, s': State)
    decreases n
  {
    if n == 0 then s == s' else CanStep(s, t) && Solo(Take(s, t), t, n - 1, s')
  }

  lemma SoloCons(s: State, t: nat, next: State, m: nat, s': State) returns (n: nat)
    requires CanStep(s, t) && next == Take(s, t) && Solo(next, t, m, s')
    ensures n == m + 1 && Solo(s, t, n, s')
  {
    n := m + 1;
  }

  /** A lone thread can always step, and is alone after it. */
  lemma AloneSteps(s: State, t: nat)
    requires Alone(s, t) && s.threads[t] != Idle
    ensures CanStep(s, t) && Alone(Take(s, t), t)
  {
  }

  /** Nothing but the thread's own position changed among the threads. */
  predicate OnlyMoved(s: State, t: nat, s': State, pc: Pc)
    requires t < |s.threads|
  {
    s'.threads == s.threads[t := pc]
  }

  // ---------- what each serial operation leaves ----------

  /** The serial contract of a swap, on values. */
  ghost predicate Swaps(s: State, slots: seq<Slot>, s': State) {
    && s'.saved == Some(s.active) && s'.preloaded == s.preloaded
    && if Swappable(slots, s.staged) then
         Replaced(s.active, s.staged, slots, s'.active) && s'.staged == s.staged - Taken(slots)
       else
         s'.active == s.active && s'.staged == s.staged - Taken(slots[..FirstMissing(slots, s.staged)])
  }

  /** The serial contract of a rollback. */
  predicate RollsBack(s: State, s': State) {
    && s'.active == (if s.saved.Some? then s.saved.value else s.active)
    && s'.staged == s.staged && s'.saved == s.saved && s'.preloaded == s.preloaded
  }

  // ---------- rollback ----------

  lemma RollbackAlone(s: State, t: nat) returns (s': State)
    requires Alone(s, t) && s.threads[t] == WantUndo
    ensures Solo(s, t, 3, s') && OnlyMoved(s, t, s', Idle) && RollsBack(s, s')
  {
    AloneSteps(s, t);
    var a := Take(s, t);
    AloneSteps(a, t);
    var b := Take(a, t);
    AloneSteps(b, t);
    s' := Take(b, t);
    assert Solo(s', t, 0, s');
    assert Solo(b, t, 1, s');
    assert Solo(a, t, 2, s');
  }

  // ---------- staging and looking ----------

  lemma PreloadAlone(s: State, t: nat, slot: Slot, adapter: Adapter) returns (s': State)
    requires Alone(s, t) && s.threads[t] == WantStage(slot, adapter)
    ensures Solo(s, t, 2, s') && OnlyMoved(s, t, s', Idle)
    ensures s'.staged == s.staged[slot := adapter] && s'.active == s.active && s'.saved == s.saved
  {
    AloneSteps(s, t);
    var a := Take(s, t);
    AloneSteps(a, t);
    s' := Take(a, t);
    assert Solo(s', t, 0, s');
    assert Solo(a, t, 1, s');
  }

  // ---------- swapping ----------

  /** The slots of `done` moved, the rest of `all` still to do. */
  ghost predicate Moving(s0: State, s: State, t: nat, all: seq<Slot>, done: nat) {
    && Alone(s, t) && done <= |all| && s.threads[t] == InMove(all[done..])
    && s.saved == Some(s0.active) && s.preloaded == s0.preloaded
    && s.staged == s0.staged - Taken(all[..done]) && Replaced(s0.active, s0.staged, all[..done], s.active)
    && done <= FirstMissing(all, s0.staged)
  }

  lemma MoveOne(s0: State, s: State, t: nat, all: seq<Slot>, done: nat)
    requires Moving(s0, s, t, all, done) && done < |all| && all[done] in s.staged
    ensures CanStep(s, t) && Moving(s0, Take(s, t), t, all, done + 1) && Take(s, t).threads == s.threads[t := InMove(all[done + 1..])]
  {
    AloneSteps(s, t);
    assert all[done..][0] == all[done] && all[done..][1..] == all[done + 1..];
    assert all[..done + 1] == all[..done] + [all[done]];
    ReplaceOne(s0.active, s0.staged, all[..done], s.active, s.staged, all[done]);
  }

  lemma MoveFails(s0: State, s: State, t: nat, all: seq<Slot>, done: nat) returns (n: nat, s': State)
    requires Moving(s0, s, t, all, done) && done < |all| && all[done] !in s.staged
    ensures Solo(s, t, n, s') && OnlyMoved(s, t, s', Idle) && Swaps(s0, all, s')
  {
    assert all[done..][0] == all[done];
    AloneSteps(s, t);
    var a := Take(s, t);
    AloneSteps(a, t);
    var b := Take(a, t);
    var c := RollbackAlone(b, t);
    assert Solo(a, t, 4, c);
    assert Solo(s, t, 5, c);
    MissingHere(s0.staged, all, done);
    SwappableIsComplete(all, s0.staged);
    n, s' := 5, c;
  }

  lemma MissingHere(staged: SlotMap, all: seq<Slot>, done: nat)
    requires done < |all| && done <= FirstMissing(all, staged) && all[done] !in staged - Taken(all[..done])
    ensures FirstMissing(all, staged) == done
  {
  }

  lemma MoveEnds(s0: State, s: State, t: nat, all: seq<Slot>) returns (n: nat, s': State)
    requires Moving(s0, s, t, all, |all|)
    ensures Solo(s, t, n, s') && OnlyMoved(s, t, s', Idle) && Swaps(s0, all, s')
  {
    AloneSteps(s, t);
    n, s' := 1, Take(s, t);
    assert Solo(s', t, 0, s');
    SwappableIsComplete(all, s0.staged);
    assert all[..|all|] == all;
  }

  lemma StillOnlyMoved(s: State, t: nat, mid: State, pc: Pc, s': State)
    requires t < |s.threads| && OnlyMoved(s, t, mid, pc) && OnlyMoved(mid, t, s', Idle)
    ensures OnlyMoved(s, t, s', Idle)
  {
  }

  lemma {:induction false} MoveAll(s0: State, s: State, t: nat, all: seq<Slot>, done: nat) returns (n: nat, s': State)
    requires Moving(s0, s, t, all, done)
    ensures Solo(s, t, n, s') && OnlyMoved(s, t, s', Idle) && Swaps(s0, all, s')
    decreases |all| - done
  {
    if done == |all| {
      n, s' := MoveEnds(s0, s, t, all);
    } else if all[done] in s.staged {
      MoveOne(s0, s, t, all, done);
      var next := Take(s, t);
      var m;
      m, s' := MoveAll(s0, next, t, all, done + 1);
      n := SoloCons(s, t, next, m, s');
      StillOnlyMoved(s, t, next, InMove(all[done + 1..]), s');
    } else {
      n, s' := MoveFails(s0, s, t, all, done);
    }
  }

  /** One step of thread `t`. */
  predicate Next(s: State, t: nat, s': State) { CanStep(s, t) && s' == Take(s, t) }

  lemma SaveAlone(s: State, t: nat, slots: seq<Slot>) returns (a: State, b: State, c: State)
    requires Alone(s, t) && s.threads[t] == WantSource(slots)
    ensures Next(s, t, a) && Next(a, t, b) && Next(b, t, c)
    ensures Alone(c, t) && c == Goto(s, t, WantTarget(slots)).(saved := Some(s.active))
  {
    AloneSteps(s, t);
    a := Take(s, t);
    AloneSteps(a, t);
    b := Take(a, t);
    AloneSteps(b, t);
    c := Take(b, t);
  }

  lemma LockAlone(s: State, t: nat, slots: seq<Slot>) returns (a: State, b: State)
    requires Alone(s, t) && s.threads[t] == WantTarget(slots)
    ensures Next(s, t, a) && Next(a, t, b)
    ensures Alone(b, t) && b == Goto(s, t, InMove(slots))
  {
    AloneSteps(s, t);
    a := Take(s, t);
    AloneSteps(a, t);
    b := Take(a, t);
  }

  lemma MovingAtFirst(s: State, mid: State, t: nat, slots: seq<Slot>)
    requires Alone(mid, t) && t < |s.threads| && mid == Goto(s, t, InMove(slots)).(saved := Some(s.active))
    ensures Moving(s, mid, t, slots, 0)
  {
    assert slots[0..] == slots && slots[..0] == [];
  }

  /** A swap by a lone thread ends, and leaves what the serial swap promises. */
  lemma SwapAlone(s: State, t: nat, slots: seq<Slot>) returns (n: nat, s': State)
    requires Alone(s, t) && s.threads[t] == WantSource(slots)
    ensures Solo(s, t, n, s') && OnlyMoved(s, t, s', Idle) && Swaps(s, slots, s')
  {
    var a, b, c := SaveAlone(s, t, slots);
    var d, e := LockAlone(c, t, slots);
    MovingAtFirst(s, e, t, slots);
    n, s' := MoveAll(s, e, t, slots, 0);
    StillOnlyMoved(s, t, e, InMove(slots), s');
    n := SoloCons(d, t, e, n, s');
    n := SoloCons(c, t, d, n, s');
    n := SoloCons(b, t, c, n, s');
    n := SoloCons(a, t, b, n, s');
    n := SoloCons(s, t, a, n, s');
  }

  /** An MoE swap by a lone thread swaps when every listed slot is staged with an MoE adapter, and otherwise changes nothing. */
  lemma SwapMoeAlone(s: State, t: nat, slots: seq<Slot>) returns (n: nat, s': State)
    requires Alone(s, t) && s.threads[t] == WantCheck(slots)
    ensures Solo(s, t, n, s') && OnlyMoved(s, t, s', Idle)
    ensures if forall x :: x in slots ==> x in s.staged && s.staged[x].moe then Swaps(s, slots, s')
            else s'.active == s.active && s'.staged == s.staged && s'.saved == s.saved
  {
    AloneSteps(s, t);
    var a := Take(s, t);
    AloneSteps(a, t);
    var b := Take(a, t);
    if forall x :: x in slots ==> x in s.staged && s.staged[x].moe {
      n, s' := SwapAlone(b, t, slots);
      n := n + 2;
      assert Solo(a, t, n - 1, s');
      assert b.threads[t := Idle] == s.threads[t := Idle];
    } else {
      n, s' := 2, b;
      assert Solo(b, t, 0, s');
      assert Solo(a, t, 1, s');
    }
  }
}
