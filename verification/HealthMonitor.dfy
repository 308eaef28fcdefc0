/**
 The supervisor's health monitor.  A sweep checks every agent of a snapshot, in hash-map order; whether
 an agent is alive and whether a restart yields a new handle are decided by the environment.
 */
module HealthMonitor {
  import opened Wrappers

  type AgentId = string
  type Handle = nat

  datatype Event = Restart(id: AgentId) | MarkDead(id: AgentId)

  datatype State = State(agents: map<AgentId, Handle>, restarts: map<AgentId, nat>, log: seq<Event>)

  /** What one check of one agent finds. */
  datatype Check = Check(id: AgentId, alive: bool, respawned: Option<Handle>)

  function Count(s: State, id: AgentId): nat { if id in s.restarts then s.restarts[id] else 0 }

  function Step(max: nat, s: State, c: Check): State {
    if c.alive then s
    else if Count(s, c.id) >= max then
      State(s.agents - {c.id}, s.restarts, s.log + [MarkDead(c.id)])
    else
      State(if c.respawned.Some? then s.agents[c.id := c.respawned.value] else s.agents,
            s.restarts[c.id := Count(s, c.id) + 1], s.log + [Restart(c.id)])
  }

  function Run(max: nat, s: State, checks: seq<Check>): State {
    if checks == [] then s else Step(max, Run(max, s, checks[..|checks| - 1]), checks[|checks| - 1])
  }

  /** Only agents still listed are checked. */
  predicate Possible(max: nat, s: State, checks: seq<Check>) {
    checks == [] ||
    var n := |checks| - 1;
    Possible(max, s, checks[..n]) && checks[n].id in Run(max, s, checks[..n]).agents
  }

  predicate Started(s: State) {
    s.log == [] && forall id :: id in s.agents ==> Count(s, id) == 0
  }

  // ---------- what happens to one agent ----------

  /** The events of one agent, in order. */
  function Of(log: seq<Event>, id: AgentId): seq<Event> {
    if log == [] then []
    else
      var n := |log| - 1;
      Of(log[..n], id) + if log[n].id == id then [log[n]] else []
  }

  function Restarts(id: AgentId, n: nat): seq<Event> { if n == 0 then [] else Restarts(id, n - 1) + [Restart(id)] }

  lemma OfSnoc(log: seq<Event>, e: Event, id: AgentId)
    ensures Of(log + [e], id) == Of(log, id) + if e.id == id then [e] else []
  {
    assert (log + [e])[..|log|] == log;
  }

  /** The whole life of `id`, told from its state. */
  ghost predicate History(max: nat, s0: State, s: State, id: AgentId) {
    if id !in s0.agents then
      id !in s.agents && Of(s.log, id) == []
    else if id in s.agents then
      Count(s, id) <= max && Of(s.log, id) == Restarts(id, Count(s, id))
    else
      Count(s, id) == max && Of(s.log, id) == Restarts(id, max) + [MarkDead(id)]
  }

  /** A check of one agent leaves every other alone. */
  lemma OthersUntouched(max: nat, s: State, c: Check, id: AgentId)
    requires id != c.id
    ensures var t := Step(max, s, c);
            (id in t.agents <==> id in s.agents) && Count(t, id) == Count(s, id) && Of(t.log, id) == Of(s.log, id)
  {
    if c.alive {
    } else if Count(s, c.id) >= max {
      OfOther(s.log, MarkDead(c.id), id);
    } else {
      OfOther(s.log, Restart(c.id), id);
    }
  }

  lemma OfOther(log: seq<Event>, e: Event, id: AgentId)
    requires e.id != id
    ensures Of(log + [e], id) == Of(log, id)
  {
    OfSnoc(log, e, id);
  }

  lemma StepKeepsHistory(max: nat, s0: State, s: State, c: Check, id: AgentId)
    requires History(max, s0, s, id) && History(max, s0, s, c.id) && c.id in s.agents
    ensures History(max, s0, Step(max, s, c), id)
  {
    if id != c.id {
      OthersUntouched(max, s, c, id);
    } else {
      OfSnoc(s.log, MarkDead(id), id);
      OfSnoc(s.log, Restart(id), id);
    }
  }

  /**
   In every run each agent is restarted as often as its count says, at most `max` times; one that is
   gone was restarted exactly `max` times and then marked dead, once, and nothing happens to it later.
   */
  lemma {:induction false} EveryHistory(max: nat, s0: State, checks: seq<Check>, id: AgentId)
    requires Started(s0) && Possible(max, s0, checks)
    ensures History(max, s0, Run(max, s0, checks), id)
  {
    if checks != [] {
      var n := |checks| - 1;
      EveryHistory(max, s0, checks[..n], id);
      EveryHistory(max, s0, checks[..n], checks[n].id);
      StepKeepsHistory(max, s0, Run(max, s0, checks[..n]), checks[n], id);
    }
  }

  /** An agent that is gone stays gone, whatever is checked afterwards. */
  lemma {:induction false} GoneForGood(max: nat, s: State, checks: seq<Check>, id: AgentId)
    requires Possible(max, s, checks) && id !in s.agents
    ensures id !in Run(max, s, checks).agents && Of(Run(max, s, checks).log, id) == Of(s.log, id)
  {
    if checks != [] {
      var n := |checks| - 1;
      var before := Run(max, s, checks[..n]);
      GoneForGood(max, s, checks[..n], id);
      OfSnoc(before.log, MarkDead(checks[n].id), id);
      OfSnoc(before.log, Restart(checks[n].id), id);
    }
  }

  // ---------- how long it can go on ----------

  /** How many more dead checks `id` can take. */
  function Budget(max: nat, s: State, id: AgentId): int {
    if id in s.agents then max - Count(s, id) + 1 else 0
  }

  function Potential(max: nat, s: State, ids: seq<AgentId>): int {
    if ids == [] then 0 else Potential(max, s, ids[..|ids| - 1]) + Budget(max, s, ids[|ids| - 1])
  }

  predicate Distinct(ids: seq<AgentId>) { forall i, j :: 0 <= i < j < |ids| ==> ids[i] != ids[j] }

  function DeadChecks(checks: seq<Check>): nat {
    if checks == [] then 0
    else DeadChecks(checks[..|checks| - 1]) + if checks[|checks| - 1].alive then 0 else 1
  }

  lemma {:induction false} PotentialAt(max: nat, s: State, t: State, ids: seq<AgentId>, id: AgentId, spent: int)
    requires Distinct(ids)
    requires forall other :: other != id ==> Budget(max, t, other) == Budget(max, s, other)
    requires Budget(max, t, id) == Budget(max, s, id) - spent
    ensures Potential(max, t, ids) == Potential(max, s, ids) - if id in ids then spent else 0
  {
    if ids != [] {
      var n := |ids| - 1;
      PotentialAt(max, s, t, ids[..n], id, spent);
      assert ids == ids[..n] + [ids[n]];
    }
  }

  lemma {:induction false} FullPotential(max: nat, s: State, ids: seq<AgentId>)
    requires Started(s) && forall i :: 0 <= i < |ids| ==> ids[i] in s.agents
    ensures Potential(max, s, ids) == |ids| * (max + 1)
  {
    if ids != [] { FullPotential(max, s, ids[..|ids| - 1]); }
  }

  lemma {:induction false} PotentialBounds(max: nat, s: State, ids: seq<AgentId>)
    requires forall id :: id in s.agents ==> Count(s, id) <= max
    ensures 0 <= Potential(max, s, ids)
    ensures Potential(max, s, ids) == 0 <==> forall i :: 0 <= i < |ids| ==> ids[i] !in s.agents
  {
    if ids != [] {
      PotentialBounds(max, s, ids[..|ids| - 1]);
      assert ids == ids[..|ids| - 1] + [ids[|ids| - 1]];
    }
  }

  /** Each dead check spends exactly one unit and logs exactly one event: the account always balances. */
  lemma {:induction false} BudgetBalances(max: nat, s0: State, checks: seq<Check>, ids: seq<AgentId>)
    requires Started(s0) && Possible(max, s0, checks) && Distinct(ids) && s0.agents.Keys == set id | id in ids
    ensures var s := Run(max, s0, checks);
            && |s.log| == DeadChecks(checks)
            && DeadChecks(checks) + Potential(max, s, ids) == |ids| * (max + 1)
  {
    if checks == [] {
      FullPotential(max, s0, ids);
    } else {
      var n := |checks| - 1;
      var c, s := checks[n], Run(max, s0, checks[..n]);
      BudgetBalances(max, s0, checks[..n], ids);
      EveryHistory(max, s0, checks[..n], c.id);
      StepSpends(max, s, c, ids);
    }
  }

  lemma StepSpends(max: nat, s: State, c: Check, ids: seq<AgentId>)
    requires Distinct(ids) && c.id in ids && c.id in s.agents && Count(s, c.id) <= max
    ensures var spent := if c.alive then 0 else 1;
            && |Step(max, s, c).log| == |s.log| + spent
            && Potential(max, Step(max, s, c), ids) == Potential(max, s, ids) - spent
  {
    PotentialAt(max, s, Step(max, s, c), ids, c.id, if c.alive then 0 else 1);
  }

  /** Dead checks never exceed agents times (max + 1), and reach it exactly when no agent is left. */
  lemma DeadChecksBounded(max: nat, s0: State, checks: seq<Check>, ids: seq<AgentId>)
    requires Started(s0) && Possible(max, s0, checks) && Distinct(ids) && s0.agents.Keys == set id | id in ids
    ensures DeadChecks(checks) <= |ids| * (max + 1)
    ensures DeadChecks(checks) == |ids| * (max + 1) <==> Run(max, s0, checks).agents == map[]
  {
    var s := Run(max, s0, checks);
    BudgetBalances(max, s0, checks, ids);
    forall id | id in s.agents ensures id in s0.agents && Count(s, id) <= max { EveryHistory(max, s0, checks, id); }
    PotentialBounds(max, s, ids);
    assert s.agents == map[] <==> forall i :: 0 <= i < |ids| ==> ids[i] !in s.agents;
  }

  // ---------- the supervisor ----------

  /** Where a sweep takes each agent, whatever the order of the checks. */
  ghost predicate SweptAt(max: nat, s: State, alive: set<AgentId>, respawned: map<AgentId, Handle>, t: State, id: AgentId) {
    if id !in s.agents || id in alive then
      (id in t.agents <==> id in s.agents) && (id in s.agents ==> t.agents[id] == s.agents[id]) && Count(t, id) == Count(s, id)
    else if Count(s, id) >= max then
      id !in t.agents && Count(t, id) == Count(s, id)
    else
      && id in t.agents && Count(t, id) == Count(s, id) + 1
      && t.agents[id] == if id in respawned then respawned[id] else s.agents[id]
  }

  /** A sweep part way through: `pending` not yet checked, the rest swept. */
  ghost predicate Sweeping(max: nat, s: State, alive: set<AgentId>, respawned: map<AgentId, Handle>, pending: set<AgentId>, t: State) {
    && pending <= s.agents.Keys
    && (forall id :: id in pending ==> id in t.agents && t.agents[id] == s.agents[id] && Count(t, id) == Count(s, id))
    && (forall id :: id !in pending ==> SweptAt(max, s, alive, respawned, t, id))
  }

  function Found(alive: set<AgentId>, respawned: map<AgentId, Handle>, id: AgentId): Check {
    Check(id, id in alive, if id in respawned then Some(respawned[id]) else None)
  }

  lemma SweepOneMore(max: nat, s: State, alive: set<AgentId>, respawned: map<AgentId, Handle>, pending: set<AgentId>, t: State, id: AgentId)
    requires Sweeping(max, s, alive, respawned, pending, t) && id in pending
    ensures Sweeping(max, s, alive, respawned, pending - {id}, Step(max, t, Found(alive, respawned, id)))
  {
  }

  lemma RunSnoc(max: nat, s: State, checks: seq<Check>, c: Check)
    requires Possible(max, s, checks) && c.id in Run(max, s, checks).agents
    ensures Possible(max, s, checks + [c]) && Run(max, s, checks + [c]) == Step(max, Run(max, s, checks), c)
  {
    assert (checks + [c])[..|checks|] == checks;
  }

  /** Result `i` is the last success of agent `id` among the first `n`. */
  predicate LastSuccess(ids: seq<AgentId>, results: seq<Option<Handle>>, n: nat, id: AgentId, i: nat)
    requires n <= |results| == |ids|
  {
    i < n && ids[i] == id && results[i].Some? && forall k :: i < k < n && ids[k] == id ==> results[k].None?
  }

  class Supervisor {
    const agentIds: seq<AgentId>
    const maxRestarts: nat
    var agents: map<AgentId, Handle>
    var restartCounts: map<AgentId, nat>
    ghost var log: seq<Event>

    ghost function Value(): State reads this { State(agents, restartCounts, log) }

    constructor (agentIds: seq<AgentId>, maxRestarts: nat)
      ensures this.agentIds == agentIds && this.maxRestarts == maxRestarts
      ensures Value() == State(map[], map[], [])
    {
      this.agentIds, this.maxRestarts := agentIds, maxRestarts;
      agents, restartCounts, log := map[], map[], [];
    }

    /** Only agents that came up are listed, each with its last handle and a fresh count; an error exactly when none did. */
    method SpawnAll(results: seq<Option<Handle>>) returns (ok: bool)
      requires |results| == |agentIds| && Value() == State(map[], map[], [])
      modifies this
      ensures Started(Value())
      ensures agents.Keys == set i | 0 <= i < |agentIds| && results[i].Some? :: agentIds[i]
      ensures forall id, i: nat :: LastSuccess(agentIds, results, |results|, id, i) ==> id in agents && agents[id] == results[i].value
      ensures ok <==> exists i :: 0 <= i < |results| && results[i].Some?
    {
      var failed := 0;
      for i := 0 to |results|
        invariant Started(Value())
        invariant agents.Keys == set k | 0 <= k < i && results[k].Some? :: agentIds[k]
        invariant forall id, k: nat :: LastSuccess(agentIds, results, i, id, k) ==> id in agents && agents[id] == results[k].value
        invariant failed <= i
        invariant failed == i <==> forall k :: 0 <= k < i ==> results[k].None?
      {
        forall id, k: nat | LastSuccess(agentIds, results, i + 1, id, k)
          ensures k < i ==> LastSuccess(agentIds, results, i, id, k) && (agentIds[i] == id ==> results[i].None?)
        {
        }
        if results[i].Some? {
          agents := agents[agentIds[i] := results[i].value];
          restartCounts := restartCounts[agentIds[i] := 0];
        } else {
          failed := failed + 1;
        }
      }
      ok := failed != |agentIds|;
    }

    /** One agent of the snapshot. */
    method CheckAgent(c: Check)
      modifies this
      ensures Value() == Step(maxRestarts, old(Value()), c)
    {
      if !c.alive {
        var restartCount := if c.id in restartCounts then restartCounts[c.id] else 0;
        if restartCount >= maxRestarts {
          log := log + [MarkDead(c.id)];
          agents := agents - {c.id};
        } else {
          restartCounts := restartCounts[c.id := restartCount + 1];
          log := log + [Restart(c.id)];
          if c.respawned.Some? {
            agents := agents[c.id := c.respawned.value];
          }
        }
      }
    }

    /** A sweep is a run, and leaves every agent where `SweptAt` says, in whatever order it goes. */
    method Sweep(alive: set<AgentId>, respawned: map<AgentId, Handle>) returns (ghost checks: seq<Check>)
      modifies this
      ensures Possible(maxRestarts, old(Value()), checks) && Value() == Run(maxRestarts, old(Value()), checks)
      ensures forall id :: SweptAt(maxRestarts, old(Value()), alive, respawned, Value(), id)
    {
      ghost var s := Value();
      var pending := agents.Keys;
      checks := [];
      while pending != {}
        invariant Sweeping(maxRestarts, s, alive, respawned, pending, Value())
        invariant Possible(maxRestarts, s, checks) && Value() == Run(maxRestarts, s, checks)
        decreases |pending|
      {
        var id :| id in pending;
        SweepOneMore(maxRestarts, s, alive, respawned, pending, Value(), id);
        RunSnoc(maxRestarts, s, checks, Found(alive, respawned, id));
        checks := checks + [Found(alive, respawned, id)];
        CheckAgent(Found(alive, respawned, id));
        pending := pending - {id};
      }
    }
  }
}
