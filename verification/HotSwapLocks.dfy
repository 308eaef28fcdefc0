/**
 The hot-swap manager at lock granularity: any number of threads inside preload, swap, swap_moe,
 rollback and the readers, one lock operation or map update per step.

 Who holds which lock is read off the threads' program counters, because every guard lives exactly
 as long as a stretch of code.
 */
module HotSwapLocks {
  import opened Wrappers
  import opened Adapters
  import opened HotSwap

  datatype Lock = ActiveLock | StagedLock | RollbackLock

  datatype Access = Read | Write

  datatype Guard = Guard(lock: Lock, access: Access)

  /** Where a thread is: about to take a lock (Want...) or between taking and dropping (In...). */
  datatype Pc =
    | Idle
    | WantStage(slot: Slot, adapter: Adapter)
    | InStage(slot: Slot, adapter: Adapter)
    | WantCheck(slots: seq<Slot>)
    | InCheck(slots: seq<Slot>)
    | WantSource(slots: seq<Slot>)
    | WantSave(slots: seq<Slot>)
    | InSave(slots: seq<Slot>)
    | WantTarget(slots: seq<Slot>)
    | WantMove(slots: seq<Slot>)
    | InMove(slots: seq<Slot>)
    | InDrop
    | WantUndo
    | WantRestore
    | InRestore
    | WantLook(lock: Lock)
    | InLook(lock: Lock)

  function Wants(pc: Pc): Option<Guard> {
    match pc
    case WantStage(_, _) => Some(Guard(StagedLock, Write))
    case WantCheck(_) => Some(Guard(StagedLock, Read))
    case WantSource(_) => Some(Guard(ActiveLock, Read))
    case WantSave(_) => Some(Guard(RollbackLock, Write))
    case WantTarget(_) => Some(Guard(ActiveLock, Write))
    case WantMove(_) => Some(Guard(StagedLock, Write))
    case WantUndo => Some(Guard(ActiveLock, Write))
    case WantRestore => Some(Guard(RollbackLock, Read))
    case WantLook(l) => Some(Guard(l, Read))
    case _ => None
  }

  function Holds(pc: Pc): set<Guard> {
    match pc
    case InStage(_, _) => {Guard(StagedLock, Write)}
    case InCheck(_) => {Guard(StagedLock, Read)}
    case WantSave(_) => {Guard(ActiveLock, Read)}
    case InSave(_) => {Guard(ActiveLock, Read), Guard(RollbackLock, Write)}
    case WantMove(_) => {Guard(ActiveLock, Write)}
    case InMove(_) => {Guard(ActiveLock, Write), Guard(StagedLock, Write)}
    case InDrop => {Guard(StagedLock, Write)}
    case WantRestore => {Guard(ActiveLock, Write)}
    case InRestore => {Guard(ActiveLock, Write), Guard(RollbackLock, Read)}
    case InLook(l) => {Guard(l, Read)}
    case _ => {}
  }

  predicate Conflict(a: Guard, b: Guard) {
    a.lock == b.lock && (a.access == Write || b.access == Write)
  }

  /** `preloaded` remembers every (slot, adapter) ever staged by a preload. */
  datatype State = State(active: SlotMap, staged: SlotMap, saved: Option<SlotMap>,
                         preloaded: set<(Slot, Adapter)>, threads: seq<Pc>)

  /** No other thread holds a conflicting guard. */
  predicate Grantable(s: State, t: nat)
    requires t < |s.threads| && Wants(s.threads[t]).Some?
  {
    forall u, g :: 0 <= u < |s.threads| && u != t && g in Holds(s.threads[u]) ==>
      !Conflict(Wants(s.threads[t]).value, g)
  }

  predicate CanStep(s: State, t: nat) {
    && t < |s.threads| && !s.threads[t].Idle?
    && (Wants(s.threads[t]).Some? ==> Grantable(s, t))
  }

  function Goto(s: State, t: nat, pc: Pc): State
    requires t < |s.threads|
  {
    s.(threads := s.threads[t := pc])
  }

  /** What a thread that can step does next. */
  function Take(s: State, t: nat): State
    requires CanStep(s, t)
  {
    match s.threads[t]
    case WantStage(slot, a) => Goto(s, t, InStage(slot, a))
    case InStage(slot, a) =>
      Goto(s, t, Idle).(staged := s.staged[slot := a], preloaded := s.preloaded + {(slot, a)})
    case WantCheck(slots) => Goto(s, t, InCheck(slots))
    case InCheck(slots) =>
      Goto(s, t, if forall x :: x in slots ==> x in s.staged && s.staged[x].moe then WantSource(slots) else Idle)
    case WantSource(slots) => Goto(s, t, WantSave(slots))
    case WantSave(slots) => Goto(s, t, InSave(slots))
    case InSave(slots) => Goto(s, t, WantTarget(slots)).(saved := Some(s.active))
    case WantTarget(slots) => Goto(s, t, WantMove(slots))
    case WantMove(slots) => Goto(s, t, InMove(slots))
    case InMove(slots) =>
      if slots == [] then Goto(s, t, Idle)
      else if slots[0] in s.staged then
        Goto(s, t, InMove(slots[1..])).(active := s.active[slots[0] := s.staged[slots[0]]], staged := s.staged - {slots[0]})
      else Goto(s, t, InDrop)
    case InDrop => Goto(s, t, WantUndo)
    case WantUndo => Goto(s, t, WantRestore)
    case WantRestore => Goto(s, t, InRestore)
    case InRestore => Goto(s, t, Idle).(active := if s.saved.Some? then s.saved.value else s.active)
    case WantLook(l) => Goto(s, t, InLook(l))
    case InLook(_) => Goto(s, t, Idle)
  }

  /** The first thing each public operation does. */
  predicate Entry(pc: Pc) {
    pc.WantStage? || pc.WantCheck? || pc.WantSource? || pc.WantUndo? || pc.WantLook?
  }

  predicate StepBy(s: State, s': State, t: nat) {
    t < |s.threads| &&
    (|| (s.threads[t].Idle? && t < |s'.threads| && Entry(s'.threads[t]) && s' == Goto(s, t, s'.threads[t]))
     || (CanStep(s, t) && s' == Take(s, t)))
  }

  ghost predicate Steps(s: State, s': State) {
    exists t :: StepBy(s, s', t)
  }

  predicate Initial(s: State) {
    && s.active == map[] && s.staged == map[] && s.saved == None && s.preloaded == {}
    && forall t :: 0 <= t < |s.threads| ==> s.threads[t] == Idle
  }

  ghost predicate Run(run: seq<State>) {
    run != [] && Initial(run[0]) && forall i :: 0 < i < |run| ==> Steps(run[i - 1], run[i])
  }

  // ---------- deadlock freedom ----------

  /** The acquisition order: active before staged and rollback. */
  function Rank(l: Lock): nat { if l == ActiveLock then 0 else 1 }

  /** No thread asks for a lock while holding one of the same or a later rank. */
  lemma LockOrder(pc: Pc, g: Guard)
    requires Wants(pc).Some? && g in Holds(pc)
    ensures Rank(g.lock) < Rank(Wants(pc).value.lock)
  {
  }

  /**
   Thread `t` waits for `u`: `u` holds a conflicting guard, or `t` wants to read and `u` is a writer
   in the queue before it (the lock may prefer waiting writers to new readers).
   */
  predicate WaitsFor(s: State, t: nat, u: nat) {
    && t < |s.threads| && u < |s.threads| && t != u && Wants(s.threads[t]).Some?
    && var want := Wants(s.threads[t]).value;
       || (exists g :: g in Holds(s.threads[u]) && Conflict(want, g))
       || (want.access == Read && Wants(s.threads[u]) == Some(Guard(want.lock, Write)))
  }

  predicate Blocked(s: State, t: nat) {
    exists u :: 0 <= u < |s.threads| && WaitsFor(s, t, u)
  }

  function Height(pc: Pc): nat {
    match Wants(pc)
    case Some(g) => 2 * Rank(g.lock) + if g.access == Write then 1 else 0
    case None => 4
  }

  lemma WaitRises(s: State, t: nat, u: nat)
    requires WaitsFor(s, t, u)
    ensures Height(s.threads[t]) < Height(s.threads[u])
  {
    var want := Wants(s.threads[t]).value;
    if g :| g in Holds(s.threads[u]) && Conflict(want, g) {
      if Wants(s.threads[u]).Some? { LockOrder(s.threads[u], g); }
    }
  }

  /** Threads each waiting for the next. */
  ghost predicate WaitChain(s: State, chain: seq<nat>) {
    forall i :: 0 < i < |chain| ==> WaitsFor(s, chain[i - 1], chain[i])
  }

  lemma {:induction false} ChainRises(s: State, chain: seq<nat>)
    requires WaitChain(s, chain) && |chain| >= 2
    ensures chain[0] < |s.threads| && chain[|chain| - 1] < |s.threads|
    ensures Height(s.threads[chain[0]]) < Height(s.threads[chain[|chain| - 1]])
  {
    var n := |chain| - 1;
    assert WaitsFor(s, chain[n - 1], chain[n]);
    WaitRises(s, chain[n - 1], chain[n]);
    if n >= 2 { ChainRises(s, chain[..n]); }
  }

  /** No state, reachable or not, has a wait cycle. */
  lemma NoWaitCycle(s: State, chain: seq<nat>)
    requires WaitChain(s, chain) && |chain| >= 2
    ensures chain[0] != chain[|chain| - 1]
  {
    ChainRises(s, chain);
  }

  /** As long as any thread is inside an operation, some thread can step, even with writers preferred. */
  lemma {:induction false} NeverStuck(s: State, t: nat) returns (u: nat)
    requires t < |s.threads| && !s.threads[t].Idle?
    ensures u < |s.threads| && !Blocked(s, u) && CanStep(s, u)
    decreases 4 - Height(s.threads[t])
  {
    if Blocked(s, t) {
      var w :| 0 <= w < |s.threads| && WaitsFor(s, t, w);
      WaitRises(s, t, w);
      u := NeverStuck(s, w);
    } else {
      u := t;
      if Wants(s.threads[t]).Some? {
        forall v, g | 0 <= v < |s.threads| && v != t && g in Holds(s.threads[v])
          ensures !Conflict(Wants(s.threads[t]).value, g)
        {
          assert !WaitsFor(s, t, v);
        }
      }
    }
  }

  // ---------- exclusion and provenance ----------

  predicate Apart(a: Pc, b: Pc) {
    forall g, h :: g in Holds(a) && h in Holds(b) ==> !Conflict(g, h)
  }

  /** Guards held at the same time by different threads never conflict. */
  predicate Exclusive(s: State) {
    forall t, u :: 0 <= t < |s.threads| && 0 <= u < |s.threads| && t != u ==> Apart(s.threads[t], s.threads[u])
  }

  predicate From(m: SlotMap, preloaded: set<(Slot, Adapter)>) {
    forall x :: x in m ==> (x, m[x]) in preloaded
  }

  predicate Traceable(s: State) {
    From(s.active, s.preloaded) && From(s.staged, s.preloaded) && (s.saved.Some? ==> From(s.saved.value, s.preloaded))
  }

  /** A step takes at most the guard it was granted. */
  lemma TakeGuards(s: State, t: nat, g: Guard)
    requires CanStep(s, t) && g in Holds(Take(s, t).threads[t])
    ensures g in Holds(s.threads[t]) || Wants(s.threads[t]) == Some(g)
  {
  }

  /** After its step a thread is still apart from every other. */
  lemma StepStaysApart(s: State, s': State, t: nat, u: nat)
    requires Exclusive(s) && StepBy(s, s', t) && u < |s.threads| && u != t
    ensures |s'.threads| == |s.threads| && s'.threads[u] == s.threads[u]
    ensures Apart(s'.threads[t], s.threads[u]) && Apart(s.threads[u], s'.threads[t])
  {
    assert Apart(s.threads[t], s.threads[u]);
    forall g, h | g in Holds(s'.threads[t]) && h in Holds(s.threads[u]) ensures !Conflict(g, h) && !Conflict(h, g) {
      if CanStep(s, t) && s' == Take(s, t) { TakeGuards(s, t, g); }
    }
  }

  lemma StepKeepsExclusive(s: State, s': State, t: nat)
    requires Exclusive(s) && StepBy(s, s', t)
    ensures Exclusive(s')
  {
    assert |s'.threads| == |s.threads|;
    forall v, u | 0 <= v < |s'.threads| && 0 <= u < |s'.threads| && v != u
      ensures Apart(s'.threads[v], s'.threads[u])
    {
      if v != t { StepStaysApart(s, s', t, v); }
      if u != t { StepStaysApart(s, s', t, u); }
    }
  }

  lemma PreloadStaysFrom(m: SlotMap, preloaded: set<(Slot, Adapter)>, slot: Slot, a: Adapter)
    requires From(m, preloaded)
    ensures From(m, preloaded + {(slot, a)}) && From(m[slot := a], preloaded + {(slot, a)})
  {
  }

  lemma MoveStaysFrom(active: SlotMap, staged: SlotMap, preloaded: set<(Slot, Adapter)>, slot: Slot)
    requires From(active, preloaded) && From(staged, preloaded) && slot in staged
    ensures From(active[slot := staged[slot]], preloaded) && From(staged - {slot}, preloaded)
  {
  }

  lemma StepKeepsTraceable(s: State, s': State, t: nat)
    requires Traceable(s) && StepBy(s, s', t)
    ensures Traceable(s') && s.preloaded <= s'.preloaded
  {
    var pc := s.threads[t];
    if pc.InStage? {
      PreloadStaysFrom(s.staged, s.preloaded, pc.slot, pc.adapter);
      PreloadStaysFrom(s.active, s.preloaded, pc.slot, pc.adapter);
      if s.saved.Some? { PreloadStaysFrom(s.saved.value, s.preloaded, pc.slot, pc.adapter); }
    } else if pc.InMove? && pc.slots != [] && pc.slots[0] in s.staged {
      MoveStaysFrom(s.active, s.staged, s.preloaded, pc.slots[0]);
    }
  }

  lemma {:induction false} RunInvariant(run: seq<State>, i: nat)
    requires Run(run) && i < |run|
    ensures Exclusive(run[i]) && Traceable(run[i])
  {
    if i > 0 {
      RunInvariant(run, i - 1);
      assert Steps(run[i - 1], run[i]);
      var t :| StepBy(run[i - 1], run[i], t);
      StepKeepsExclusive(run[i - 1], run[i], t);
      StepKeepsTraceable(run[i - 1], run[i], t);
    }
  }

  /** Some earlier step was a preload staging `adapter` for `slot`. */
  ghost predicate PreloadedBefore(run: seq<State>, i: nat, slot: Slot, adapter: Adapter) {
    exists k, t :: 0 <= k < i < |run| && 0 <= t < |run[k].threads| && run[k].threads[t] == InStage(slot, adapter)
                   && CanStep(run[k], t) && run[k + 1] == Take(run[k], t)
  }

  lemma {:induction false} PreloadedBySomeone(run: seq<State>, i: nat, slot: Slot, adapter: Adapter)
    requires Run(run) && i < |run| && (slot, adapter) in run[i].preloaded
    ensures PreloadedBefore(run, i, slot, adapter)
  {
    assert i > 0;
    assert Steps(run[i - 1], run[i]);
    if (slot, adapter) in run[i - 1].preloaded {
      PreloadedBySomeone(run, i - 1, slot, adapter);
      var k, t :| 0 <= k < i - 1 < |run| && 0 <= t < |run[k].threads| && run[k].threads[t] == InStage(slot, adapter)
                  && CanStep(run[k], t) && run[k + 1] == Take(run[k], t);
    } else {
      var t: nat :| StepBy(run[i - 1], run[i], t);
      assert run[i - 1].threads[t] == InStage(slot, adapter);
      assert run[i - 1 + 1] == Take(run[i - 1], t);
    }
  }

  /** In every interleaving, whatever is active or saved at a slot was preloaded for that slot before. */
  lemma ActiveWasPreloaded(run: seq<State>, i: nat, slot: Slot)
    requires Run(run) && i < |run|
    ensures slot in run[i].active ==> PreloadedBefore(run, i, slot, run[i].active[slot])
    ensures run[i].saved.Some? && slot in run[i].saved.value ==>
              PreloadedBefore(run, i, slot, run[i].saved.value[slot])
  {
    RunInvariant(run, i);
    if slot in run[i].active { PreloadedBySomeone(run, i, slot, run[i].active[slot]); }
    if run[i].saved.Some? && slot in run[i].saved.value {
      PreloadedBySomeone(run, i, slot, run[i].saved.value[slot]);
    }
  }

  predicate SoleWriter(s: State, t: nat, l: Lock) {
    && t < |s.threads| && Guard(l, Write) in Holds(s.threads[t])
    && forall u, g :: 0 <= u < |s.threads| && u != t && g in Holds(s.threads[u]) ==> g.lock != l
  }

  lemma WriterIsSole(s: State, t: nat, l: Lock)
    requires Exclusive(s) && t < |s.threads| && Guard(l, Write) in Holds(s.threads[t])
    ensures SoleWriter(s, t, l)
  {
    forall u, g | 0 <= u < |s.threads| && u != t && g in Holds(s.threads[u]) ensures g.lock != l {
      assert Apart(s.threads[t], s.threads[u]) && !Conflict(Guard(l, Write), g);
    }
  }

  lemma ChangeNeedsGuard(s: State, s': State, t: nat)
    requires StepBy(s, s', t)
    ensures s'.active != s.active ==> Guard(ActiveLock, Write) in Holds(s.threads[t])
    ensures s'.staged != s.staged ==> Guard(StagedLock, Write) in Holds(s.threads[t])
    ensures s'.saved != s.saved ==> Guard(RollbackLock, Write) in Holds(s.threads[t])
  {
  }

  /** A map changes only in a step of a thread holding its lock for writing, and nobody else then holds it. */
  lemma OnlyWritersChange(run: seq<State>, i: nat, t: nat)
    requires Run(run) && 0 < i < |run| && StepBy(run[i - 1], run[i], t)
    ensures run[i].active != run[i - 1].active ==> SoleWriter(run[i - 1], t, ActiveLock)
    ensures run[i].staged != run[i - 1].staged ==> SoleWriter(run[i - 1], t, StagedLock)
    ensures run[i].saved != run[i - 1].saved ==> SoleWriter(run[i - 1], t, RollbackLock)
  {
    RunInvariant(run, i - 1);
    ChangeNeedsGuard(run[i - 1], run[i], t);
    if run[i].active != run[i - 1].active { WriterIsSole(run[i - 1], t, ActiveLock); }
    if run[i].staged != run[i - 1].staged { WriterIsSole(run[i - 1], t, StagedLock); }
    if run[i].saved != run[i - 1].saved { WriterIsSole(run[i - 1], t, RollbackLock); }
  }
}
