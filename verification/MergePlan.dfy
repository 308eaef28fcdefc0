/** The merge itself: grouping, the loop over files in hash-map order, and the plan. */
module MergePlan {
  import opened Wrappers
  import opened ResultMerger

  /** The edits of the first `k` modifications of proposal `index`. */
  function ItemsOf(p: Proposal, index: nat, k: nat): seq<Item>
    requires k <= |p.modifications|
  {
    if k == 0 then [] else ItemsOf(p, index, k - 1) + [Item(index, p.modifications[k - 1], p.confidence)]
  }

  /** All proposed edits, in order. */
  function AllItems(ps: seq<Proposal>): seq<Item> {
    if ps == [] then []
    else
      var n := |ps| - 1;
      AllItems(ps[..n]) + ItemsOf(ps[n], n, |ps[n].modifications|)
  }

  /** The edits of one file, in order. */
  function For(items: seq<Item>, path: string): seq<Item> {
    if items == [] then []
    else
      var n := |items| - 1;
      For(items[..n], path) + if items[n].edit.path == path then [items[n]] else []
  }

  lemma ForSnoc(items: seq<Item>, item: Item, path: string)
    ensures For(items + [item], path) == For(items, path) + if item.edit.path == path then [item] else []
  {
    assert (items + [item])[..|items|] == items;
  }

  lemma {:induction false} ForOnlyPath(items: seq<Item>, path: string)
    ensures forall i :: 0 <= i < |For(items, path)| ==> For(items, path)[i].edit.path == path && For(items, path)[i] in items
  {
    if items != [] { ForOnlyPath(items[..|items| - 1], path); }
  }

  // ---------- the order of the edits ----------

  /** Every edit of every proposal stands in its place, with its proposal's position and confidence. */
  lemma {:induction false} ItemsOfAt(p: Proposal, index: nat, k: nat, i: nat)
    requires i < k <= |p.modifications|
    ensures |ItemsOf(p, index, k)| == k && ItemsOf(p, index, k)[i] == Item(index, p.modifications[i], p.confidence)
  {
    if k > 1 { ItemsOfAt(p, index, k - 1, if i < k - 1 then i else 0); }
  }

  lemma {:induction false} AllItemsAt(ps: seq<Proposal>, n: nat, i: nat)
    requires n < |ps| && i < |ps[n].modifications|
    ensures |AllItems(ps[..n])| + i < |AllItems(ps)|
    ensures AllItems(ps)[|AllItems(ps[..n])| + i] == Item(n, ps[n].modifications[i], ps[n].confidence)
    decreases |ps|
  {
    var last := |ps| - 1;
    if n == last {
      ItemsOfAt(ps[n], n, |ps[n].modifications|, i);
    } else {
      AllItemsAt(ps[..last], n, i);
      assert ps[..last][..n] == ps[..n];
    }
  }

  lemma {:induction false} ItemsInOrder(ps: seq<Proposal>)
    ensures InProposalOrder(AllItems(ps)) && forall i :: 0 <= i < |AllItems(ps)| ==> AllItems(ps)[i].index < |ps|
  {
    if ps != [] {
      var n := |ps| - 1;
      var last := ItemsOf(ps[n], n, |ps[n].modifications|);
      ItemsInOrder(ps[..n]);
      forall i | 0 <= i < |last| ensures last[i].index == n { OneProposal(ps[n], n, |ps[n].modifications|, i); }
    }
  }

  lemma {:induction false} OneProposal(p: Proposal, index: nat, k: nat, i: nat)
    requires k <= |p.modifications| && i < |ItemsOf(p, index, k)|
    ensures ItemsOf(p, index, k)[i].index == index
  {
    if i < |ItemsOf(p, index, k - 1)| { OneProposal(p, index, k - 1, i); }
  }

  lemma {:induction false} ForInOrder(items: seq<Item>, path: string)
    requires InProposalOrder(items)
    ensures InProposalOrder(For(items, path))
  {
    if items != [] {
      var n := |items| - 1;
      ForInOrder(items[..n], path);
      ForOnlyPath(items[..n], path);
      forall i | 0 <= i < |For(items[..n], path)| ensures For(items[..n], path)[i].index <= items[n].index {
        var k :| 0 <= k < n && items[k] == For(items[..n], path)[i];
      }
    }
  }

  /** An edit stands among those of its file after the ones of that file before it. */
  lemma {:induction false} ForAt(items: seq<Item>, i: nat)
    requires i < |items|
    ensures var path := items[i].edit.path;
            |For(items[..i], path)| < |For(items, path)| && For(items, path)[|For(items[..i], path)|] == items[i]
    decreases |items|
  {
    var n := |items| - 1;
    if i < n {
      ForAt(items[..n], i);
      assert items[..n][..i] == items[..i];
    }
  }

  /** `groups` maps every file with edits among `items` to its edits. */
  ghost predicate Grouped(items: seq<Item>, groups: map<string, seq<Item>>) {
    && (forall p :: p in groups ==> groups[p] != [] && groups[p] == For(items, p))
    && (forall p :: p !in groups ==> For(items, p) == [])
  }

  function AddToGroup(groups: map<string, seq<Item>>, item: Item): map<string, seq<Item>> {
    var p := item.edit.path;
    groups[p := (if p in groups then groups[p] else []) + [item]]
  }

  lemma GroupedSnoc(items: seq<Item>, groups: map<string, seq<Item>>, item: Item)
    requires Grouped(items, groups)
    ensures Grouped(items + [item], AddToGroup(groups, item))
  {
    forall p { ForSnoc(items, item, p); }
  }

  /** The groups after the first `k` edits of proposal `n`. */
  function AddItems(p: Proposal, n: nat, k: nat, groups: map<string, seq<Item>>): map<string, seq<Item>>
    requires k <= |p.modifications|
  {
    if k == 0 then groups
    else AddToGroup(AddItems(p, n, k - 1, groups), Item(n, p.modifications[k - 1], p.confidence))
  }

  lemma {:induction false} AddItemsGrouped(before: seq<Item>, p: Proposal, n: nat, k: nat, groups: map<string, seq<Item>>)
    requires k <= |p.modifications| && Grouped(before, groups)
    ensures Grouped(before + ItemsOf(p, n, k), AddItems(p, n, k, groups))
  {
    if k == 0 {
      assert before + ItemsOf(p, n, 0) == before;
    } else {
      AddItemsGrouped(before, p, n, k - 1, groups);
      var item := Item(n, p.modifications[k - 1], p.confidence);
      GroupedSnoc(before + ItemsOf(p, n, k - 1), AddItems(p, n, k - 1, groups), item);
      assert before + ItemsOf(p, n, k) == before + ItemsOf(p, n, k - 1) + [item];
    }
  }

  /** One proposal's edits joined to the groups. */
  method AddProposal(p: Proposal, n: nat, groups: map<string, seq<Item>>) returns (r: map<string, seq<Item>>)
    ensures r == AddItems(p, n, |p.modifications|, groups)
  {
    r := groups;
    for k := 0 to |p.modifications|
      invariant r == AddItems(p, n, k, groups)
    {
      r := AddToGroup(r, Item(n, p.modifications[k], p.confidence));
    }
  }

  method GroupByPath(ps: seq<Proposal>) returns (groups: map<string, seq<Item>>)
    ensures Grouped(AllItems(ps), groups)
  {
    groups := map[];
    for n := 0 to |ps|
      invariant Grouped(AllItems(ps[..n]), groups)
    {
      AddItemsGrouped(AllItems(ps[..n]), ps[n], n, |ps[n].modifications|, groups);
      groups := AddProposal(ps[n], n, groups);
      assert ps[..n + 1][..n] == ps[..n];
    }
    assert ps[..|ps|] == ps;
  }

  // ---------- what the plan holds ----------

  /** The edits of one file among others, in order. */
  function On(edits: seq<Modification>, path: string): seq<Modification> {
    if edits == [] then []
    else
      var n := |edits| - 1;
      On(edits[..n], path) + if edits[n].path == path then [edits[n]] else []
  }

  lemma {:induction false} OnConcat(a: seq<Modification>, b: seq<Modification>, path: string)
    ensures On(a + b, path) == On(a, path) + On(b, path)
  {
    if b == [] {
      assert a + b == a;
    } else {
      var n := |b| - 1;
      OnConcat(a, b[..n], path);
      assert (a + b)[..|a + b| - 1] == a + b[..n];
    }
  }

  lemma {:induction false} OnOneFile(edits: seq<Modification>, path: string, other: string)
    requires forall m :: m in edits ==> m.path == path
    ensures On(edits, other) == if other == path then edits else []
  {
    if edits != [] { OnOneFile(edits[..|edits| - 1], path, other); }
  }

  lemma {:induction false} OnCounts(edits: seq<Modification>, m: Modification)
    ensures multiset(edits)[m] == multiset(On(edits, m.path))[m]
  {
    if edits != [] {
      var n := |edits| - 1;
      OnCounts(edits[..n], m);
      assert edits == edits[..n] + [edits[n]];
    }
  }

  /** `accepted` holds exactly what is accepted for the files in `done`. */
  ghost predicate AcceptsFor(strategy: Strategy, items: seq<Item>, done: set<string>, accepted: seq<Modification>) {
    forall p :: On(accepted, p) == if p in done then Accepted(strategy, For(items, p)) else []
  }

  lemma AcceptedPath(strategy: Strategy, items: seq<Item>, path: string, m: Modification)
    requires m in Accepted(strategy, For(items, path))
    ensures m.path == path
  {
    ForOnlyPath(items, path);
    var group := For(items, path);
    if group != [] { EveryFileAccountedFor(strategy, group); }
    var i :| 0 <= i < |Edits(group)| && Edits(group)[i] == m;
  }

  lemma AcceptOneMore(strategy: Strategy, items: seq<Item>, done: set<string>, accepted: seq<Modification>, path: string)
    requires AcceptsFor(strategy, items, done, accepted) && path !in done
    ensures AcceptsFor(strategy, items, done + {path}, accepted + Accepted(strategy, For(items, path)))
  {
    var more := Accepted(strategy, For(items, path));
    forall m | m in more ensures m.path == path { AcceptedPath(strategy, items, path, m); }
    forall p ensures On(accepted + more, p) == if p in done + {path} then Accepted(strategy, For(items, p)) else [] {
      OnConcat(accepted, more, p);
      OnOneFile(more, path, p);
    }
  }

  /** Each unresolved file of `done` is reported once, with its conflict, and no other. */
  ghost predicate ReportsFor(strategy: Strategy, items: seq<Item>, done: set<string>, reports: seq<Conflict>) {
    && (forall i :: 0 <= i < |reports| ==>
          reports[i].path in done && Unresolved(strategy, For(items, reports[i].path))
          && Describes(items, reports[i]))
    && (forall i, j :: 0 <= i < j < |reports| ==> reports[i].path != reports[j].path)
    && (forall p :: p in done && Unresolved(strategy, For(items, p)) ==> Reported(reports, p))
  }

  /** The report names all the edits of its file and their conflict. */
  ghost predicate Describes(items: seq<Item>, report: Conflict) {
    && report.items == For(items, report.path) && ConflictIn(report.items) == Some(report.conflictType)
    && Conflicting(report.items) && Names(report.conflictType, report.items)
  }

  predicate Reported(reports: seq<Conflict>, path: string) {
    exists i :: 0 <= i < |reports| && reports[i].path == path
  }

  lemma ReportOneMore(strategy: Strategy, items: seq<Item>, done: set<string>, reports: seq<Conflict>, path: string)
    requires ReportsFor(strategy, items, done, reports) && path !in done
    ensures !Unresolved(strategy, For(items, path)) ==> ReportsFor(strategy, items, done + {path}, reports)
    ensures Unresolved(strategy, For(items, path)) ==>
              ReportsFor(strategy, items, done + {path}, reports + [Conflict(path, For(items, path), ConflictIn(For(items, path)).value)])
  {
    if Unresolved(strategy, For(items, path)) {
      ConflictIsNamed(For(items, path));
      ConflictingExactly(For(items, path));
      var reports' := reports + [Conflict(path, For(items, path), ConflictIn(For(items, path)).value)];
      forall p | p in done + {path} && Unresolved(strategy, For(items, p)) ensures Reported(reports', p) {
        if p == path {
          assert reports'[|reports|].path == path;
        } else {
          var i :| 0 <= i < |reports| && reports[i].path == p;
          assert reports'[i].path == p;
        }
      }
    }
  }

  /** `names` are the files whose conflicts were resolved. */
  ghost predicate AreResolved(strategy: Strategy, items: seq<Item>, names: set<string>) {
    forall p :: p in names <==> Resolved(strategy, For(items, p))
  }

  /** What one file adds to the plan: its accepted edits, a report when it is unresolved, and whether a conflict was resolved. */
  ghost predicate Settles(strategy: Strategy, path: string, group: seq<Item>, accepted: seq<Modification>, report: Option<Conflict>, resolved: bool) {
    && accepted == Accepted(strategy, group)
    && (report.Some? <==> Unresolved(strategy, group))
    && (report.Some? ==> report.value == Conflict(path, group, ConflictIn(group).value))
    && (resolved <==> Resolved(strategy, group))
  }

  method MergeFile(strategy: Strategy, path: string, group: seq<Item>)
    returns (accepted: seq<Modification>, report: Option<Conflict>, resolved: bool)
    requires group != []
    ensures Settles(strategy, path, group, accepted, report, resolved)
    ensures InProposalOrder(group) ==> Decided(strategy, group, accepted)
  {
    accepted, report, resolved := [], None, false;
    if |group| == 1 {
      accepted := Edits(group);
    } else {
      var conflict := DetectConflict(group);
      if conflict.Some? {
        var winner := Winner(strategy, group);
        if winner.Some? {
          accepted := [group[winner.value].edit];
          resolved := true;
        } else {
          report := Some(Conflict(path, group, conflict.value));
        }
      } else {
        accepted := Edits(group);
      }
    }
    if InProposalOrder(group) { AcceptedIsDecided(strategy, group); }
  }

  /** The plan after the files in `done`. */
  ghost predicate Drafted(strategy: Strategy, items: seq<Item>, done: set<string>, names: set<string>, draft: Plan) {
    && AcceptsFor(strategy, items, done, draft.modifications)
    && ReportsFor(strategy, items, done, draft.unresolved)
    && |names| == draft.conflictsResolved
    && forall p :: p in names <==> p in done && Resolved(strategy, For(items, p))
  }

  /** One more file's outcome joined to the plan. */
  method Extend(ghost strategy: Strategy, ghost items: seq<Item>, ghost done: set<string>, ghost names: set<string>,
                draft: Plan, path: string, more: seq<Modification>, report: Option<Conflict>, resolved: bool)
    returns (r: Plan, ghost names': set<string>)
    requires Drafted(strategy, items, done, names, draft) && path !in done
    requires Settles(strategy, path, For(items, path), more, report, resolved)
    ensures Drafted(strategy, items, done + {path}, names', r) && r.proposalsMerged == draft.proposalsMerged
  {
    AcceptOneMore(strategy, items, done, draft.modifications, path);
    ReportOneMore(strategy, items, done, draft.unresolved, path);
    names' := if resolved then names + {path} else names;
    assert forall p :: p in names' <==> p in done + {path} && Resolved(strategy, For(items, p));
    r := Plan(draft.modifications + more, draft.unresolved + if report.Some? then [report.value] else [],
              draft.conflictsResolved + if resolved then 1 else 0, draft.proposalsMerged);
    assert report.None? ==> r.unresolved == draft.unresolved;
  }

  lemma NothingDrafted(strategy: Strategy, items: seq<Item>, merged: nat)
    ensures Drafted(strategy, items, {}, {}, Plan([], [], 0, merged))
  {
  }

  /** One more file of the groups. */
  method MergeNext(strategy: Strategy, ghost items: seq<Item>, groups: map<string, seq<Item>>, ghost done: set<string>,
                   ghost names: set<string>, draft: Plan, path: string)
    returns (r: Plan, ghost names': set<string>)
    requires Grouped(items, groups) && Drafted(strategy, items, done, names, draft) && path in groups && path !in done
    ensures Drafted(strategy, items, done + {path}, names', r) && r.proposalsMerged == draft.proposalsMerged
  {
    var more, report, resolved := MergeFile(strategy, path, groups[path]);
    r, names' := Extend(strategy, items, done, names, draft, path, more, report, resolved);
  }

  /** Every file is done or pending. */
  ghost predicate Apart(all: set<string>, done: set<string>, pending: set<string>) {
    done == all - pending && pending <= all && (pending == {} ==> done == all)
  }

  lemma Moved(all: set<string>, done: set<string>, pending: set<string>, path: string)
    requires Apart(all, done, pending) && path in pending
    ensures path in all && path !in done && Apart(all, done + {path}, pending - {path}) && |pending - {path}| < |pending|
  {
    assert pending == (pending - {path}) + {path};
  }

  /** The files of the groups, in whatever order. */
  method MergeFiles(strategy: Strategy, ghost items: seq<Item>, groups: map<string, seq<Item>>, merged: nat)
    returns (draft: Plan, ghost names: set<string>)
    requires Grouped(items, groups)
    ensures Drafted(strategy, items, groups.Keys, names, draft) && draft.proposalsMerged == merged
  {
    draft, names := Plan([], [], 0, merged), {};
    NothingDrafted(strategy, items, merged);
    var pending := groups.Keys;
    ghost var done: set<string> := {};
    while pending != {}
      invariant Apart(groups.Keys, done, pending) && draft.proposalsMerged == merged
      invariant Drafted(strategy, items, done, names, draft)
      decreases |pending|
    {
      var path :| path in pending;
      Moved(groups.Keys, done, pending, path);
      draft, names := MergeNext(strategy, items, groups, done, names, draft, path);
      pending, done := pending - {path}, done + {path};
    }
  }

  lemma DraftIsComplete(strategy: Strategy, items: seq<Item>, groups: map<string, seq<Item>>, names: set<string>, draft: Plan)
    requires Grouped(items, groups) && Drafted(strategy, items, groups.Keys, names, draft)
    ensures forall p :: On(draft.modifications, p) == Accepted(strategy, For(items, p))
    ensures forall p :: Reported(draft.unresolved, p) <==> Unresolved(strategy, For(items, p))
    ensures draft.unresolved != [] ==> strategy == RequireReview
    ensures AreResolved(strategy, items, names)
  {
    forall p ensures On(draft.modifications, p) == Accepted(strategy, For(items, p)) {
      if p !in groups { assert Accepted(strategy, For(items, p)) == []; }
    }
    ReportsAreComplete(strategy, items, groups, draft.unresolved);
    forall p ensures p in names <==> Resolved(strategy, For(items, p)) {
      if Resolved(strategy, For(items, p)) { assert p in groups; }
    }
  }

  lemma DraftIsDecided(strategy: Strategy, ps: seq<Proposal>, edits: seq<Modification>)
    requires forall p :: On(edits, p) == Accepted(strategy, For(AllItems(ps), p))
    ensures forall p :: Decided(strategy, For(AllItems(ps), p), On(edits, p))
    ensures forall m :: multiset(edits)[m] == multiset(Accepted(strategy, For(AllItems(ps), m.path)))[m]
  {
    ItemsInOrder(ps);
    forall p ensures Decided(strategy, For(AllItems(ps), p), On(edits, p)) {
      ForInOrder(AllItems(ps), p);
      AcceptedIsDecided(strategy, For(AllItems(ps), p));
    }
    forall m ensures multiset(edits)[m] == multiset(Accepted(strategy, For(AllItems(ps), m.path)))[m] {
      OnCounts(edits, m);
      assert On(edits, m.path) == Accepted(strategy, For(AllItems(ps), m.path));
    }
  }

  /**
   Under every strategy and in every order of the files: the plan accepts, of each file's edits in the order of
   the proposals, what the strategy decides; it reports each unresolved file once, and merging never fails.
   */
  method Merge(strategy: Strategy, ps: seq<Proposal>) returns (r: Result)
    ensures r.Ok?
    ensures r.plan.proposalsMerged == |ps|
    ensures forall p :: Decided(strategy, For(AllItems(ps), p), On(r.plan.modifications, p))
    ensures forall m :: multiset(r.plan.modifications)[m] == multiset(Accepted(strategy, For(AllItems(ps), m.path)))[m]
    ensures forall p :: Reported(r.plan.unresolved, p) <==> Unresolved(strategy, For(AllItems(ps), p))
    ensures forall i, j :: 0 <= i < j < |r.plan.unresolved| ==> r.plan.unresolved[i].path != r.plan.unresolved[j].path
    ensures forall i :: 0 <= i < |r.plan.unresolved| ==> Describes(AllItems(ps), r.plan.unresolved[i])
    ensures r.plan.unresolved != [] ==> strategy == RequireReview
    ensures exists names :: AreResolved(strategy, AllItems(ps), names) && |names| == r.plan.conflictsResolved
  {
    ghost var items := AllItems(ps);
    if ps == [] {
      assert AreResolved(strategy, items, {});
      assert forall p :: Edits(For(items, p)) == [];
      return Ok(Plan([], [], 0, 0));
    }
    var groups := GroupByPath(ps);
    var draft, names := MergeFiles(strategy, items, groups, |ps|);
    DraftIsComplete(strategy, items, groups, names, draft);
    DraftIsDecided(strategy, ps, draft.modifications);
    r := if draft.unresolved == [] || strategy == RequireReview then Ok(draft) else UnresolvableConflict(|draft.unresolved|);
  }

  lemma ReportsAreComplete(strategy: Strategy, items: seq<Item>, groups: map<string, seq<Item>>, reports: seq<Conflict>)
    requires Grouped(items, groups) && ReportsFor(strategy, items, groups.Keys, reports)
    ensures forall p :: Reported(reports, p) <==> Unresolved(strategy, For(items, p))
    ensures reports != [] ==> strategy == RequireReview
  {
    forall p ensures Reported(reports, p) <==> Unresolved(strategy, For(items, p)) {
      if Unresolved(strategy, For(items, p)) { assert p in groups; }
    }
    if reports != [] { assert Unresolved(strategy, For(items, reports[0].path)); }
  }

  // ---------- what the plan promises ----------

  lemma WithoutOne(s: seq<Modification>, i: nat)
    requires i < |s|
    ensures multiset(s) == multiset(s[..i] + s[i + 1..]) + multiset{s[i]}
  {
    assert s == s[..i] + [s[i]] + s[i + 1..];
  }

  lemma TwoPlaces(s: seq<Modification>, a: Modification, b: Modification) returns (i: nat, j: nat)
    requires multiset{a, b} <= multiset(s)
    ensures i < |s| && j < |s| && i != j && s[i] == a && s[j] == b
  {
    assert a in multiset(s);
    i :| 0 <= i < |s| && s[i] == a;
    var rest := s[..i] + s[i + 1..];
    WithoutOne(s, i);
    assert b in multiset(rest);
    var k :| 0 <= k < |rest| && rest[k] == b;
    j := if k < i then k else k + 1;
  }

  lemma TwoOfPlan(plan: seq<Modification>, i: nat, j: nat)
    requires i < j < |plan|
    ensures multiset{plan[i], plan[j]} <= multiset(plan)
  {
    assert plan == plan[..i] + [plan[i]] + plan[i + 1..j] + [plan[j]] + plan[j + 1..];
  }

  /** No two edits of one file in a merged plan conflict, whatever order they were accepted in. */
  lemma PlanIsCompatible(strategy: Strategy, items: seq<Item>, plan: seq<Modification>, i: nat, j: nat)
    requires forall m :: multiset(plan)[m] == multiset(Accepted(strategy, For(items, m.path)))[m]
    requires i < j < |plan| && plan[i].path == plan[j].path
    ensures Compatible(plan[i], plan[j])
  {
    TwoOfPlan(plan, i, j);
    var a, b := InAccepted(plan, Accepted(strategy, For(items, plan[i].path)), plan[i], plan[j]);
    if a < b {
      AcceptedAreCompatible(strategy, For(items, plan[i].path), a, b);
    } else {
      AcceptedAreCompatible(strategy, For(items, plan[i].path), b, a);
    }
  }

  lemma InAccepted(plan: seq<Modification>, accepted: seq<Modification>, a: Modification, b: Modification) returns (i: nat, j: nat)
    requires multiset{a, b} <= multiset(plan) && a.path == b.path
    requires multiset(plan)[a] == multiset(accepted)[a] && multiset(plan)[b] == multiset(accepted)[b]
    ensures i < |accepted| && j < |accepted| && i != j && accepted[i] == a && accepted[j] == b
  {
    i, j := TwoPlaces(accepted, a, b);
  }
}
