/**
 Least recently used, said of the operations a run performed: the last use of a path is the index of the last
 operation that got or inserted it.
 */
module LruOrder {
  import opened Wrappers
  import opened Adapters
  import opened CacheModel
  import opened CacheLedger

  predicate Uses(op: Op, path: string) { (op.GetOp? || op.InsertOp?) && op.path == path }

  /** The index of the last operation that uses the path, -1 when none does. */
  function LastUse(ops: seq<Op>, path: string): (k: int)
    ensures -1 <= k < |ops| && (k >= 0 ==> Uses(ops[k], path)) && forall j :: k < j < |ops| ==> !Uses(ops[j], path)
  {
    if ops == [] then -1
    else if Uses(ops[|ops| - 1], path) then |ops| - 1
    else LastUse(ops[..|ops| - 1], path)
  }

  /** Every entry was used, and each after the ones before it. */
  predicate InUseOrder(ops: seq<Op>, entries: seq<Entry>) {
    && (forall i :: 0 <= i < |entries| ==> 0 <= LastUse(ops, entries[i].path))
    && (forall i, j :: 0 <= i < j < |entries| ==> LastUse(ops, entries[i].path) < LastUse(ops, entries[j].path))
  }

  lemma UseOrderDistinct(ops: seq<Op>, entries: seq<Entry>)
    requires InUseOrder(ops, entries)
    ensures Distinct(entries)
  {
  }

  /** One more operation changes the last use of the path it uses, and of no other. */
  lemma OneMore(ops: seq<Op>, op: Op, path: string)
    ensures LastUse(ops + [op], path) == if Uses(op, path) then |ops| else LastUse(ops, path)
  {
    assert (ops + [op])[..|ops|] == ops;
  }

  // ---------- sublists ----------

  /** The entries with other paths, in order. */
  function Others(entries: seq<Entry>, path: string): seq<Entry> {
    if entries == [] then []
    else (if entries[0].path == path then [] else [entries[0]]) + Others(entries[1..], path)
  }

  lemma {:induction false} OthersAre(entries: seq<Entry>, path: string, e: Entry)
    ensures e in Others(entries, path) <==> e in entries && e.path != path
  {
    if entries != [] { OthersAre(entries[1..], path, e); }
  }

  /** Every entry was last used after `n`. */
  predicate UsedAfter(ops: seq<Op>, n: int, entries: seq<Entry>) {
    forall i :: 0 <= i < |entries| ==> n < LastUse(ops, entries[i].path)
  }

  lemma OrderCons(ops: seq<Op>, e: Entry, rest: seq<Entry>)
    requires 0 <= LastUse(ops, e.path) && UsedAfter(ops, LastUse(ops, e.path), rest) && InUseOrder(ops, rest)
    ensures InUseOrder(ops, [e] + rest)
  {
  }

  lemma OrderTail(ops: seq<Op>, entries: seq<Entry>)
    requires InUseOrder(ops, entries) && entries != []
    ensures 0 <= LastUse(ops, entries[0].path) && UsedAfter(ops, LastUse(ops, entries[0].path), entries[1..]) && InUseOrder(ops, entries[1..])
  {
  }

  lemma OthersUsedAfter(ops: seq<Op>, n: int, entries: seq<Entry>, path: string)
    requires UsedAfter(ops, n, entries)
    ensures UsedAfter(ops, n, Others(entries, path))
  {
    var others := Others(entries, path);
    forall i | 0 <= i < |others| ensures n < LastUse(ops, others[i].path) {
      OthersAre(entries, path, others[i]);
    }
  }

  lemma {:induction false} OthersOrder(ops: seq<Op>, entries: seq<Entry>, path: string)
    requires InUseOrder(ops, entries)
    ensures InUseOrder(ops, Others(entries, path))
  {
    if entries != [] {
      var rest := Others(entries[1..], path);
      OrderTail(ops, entries);
      OthersOrder(ops, entries[1..], path);
      OthersUsedAfter(ops, LastUse(ops, entries[0].path), entries[1..], path);
      OrderCons(ops, entries[0], rest);
      assert [] + rest == rest;
    }
  }

  lemma NotInTail(entries: seq<Entry>, path: string)
    requires !Has(entries, path) && entries != []
    ensures !Has(entries[1..], path)
  {
  }

  lemma {:induction false} NoOthers(entries: seq<Entry>, path: string)
    requires !Has(entries, path)
    ensures Others(entries, path) == entries
  {
    if entries != [] {
      assert entries[0].path != path;
      NotInTail(entries, path);
      NoOthers(entries[1..], path);
    }
  }

  lemma {:induction false} CutIsOthers(entries: seq<Entry>, path: string)
    requires Distinct(entries) && Has(entries, path)
    ensures Cut(entries, IndexOf(entries, path)) == Others(entries, path)
  {
    if entries[0].path == path {
      NoOthers(entries[1..], path);
      assert Cut(entries, 0) == entries[1..];
    } else {
      var j :| 0 <= j < |entries| && entries[j].path == path;
      assert entries[1..][j - 1].path == path;
      CutIsOthers(entries[1..], path);
      var i := IndexOf(entries[1..], path);
      assert Cut(entries, i + 1) == [entries[0]] + Cut(entries[1..], i);
    }
  }

  lemma {:induction false} WithoutMoeAre(entries: seq<Entry>, e: Entry)
    ensures e in WithoutMoe(entries) <==> e in entries && !e.adapter.moe
  {
    if entries != [] { WithoutMoeAre(entries[1..], e); }
  }

  lemma WithoutMoeUsedAfter(ops: seq<Op>, n: int, entries: seq<Entry>)
    requires UsedAfter(ops, n, entries)
    ensures UsedAfter(ops, n, WithoutMoe(entries))
  {
    var kept := WithoutMoe(entries);
    forall i | 0 <= i < |kept| ensures n < LastUse(ops, kept[i].path) {
      WithoutMoeAre(entries, kept[i]);
    }
  }

  lemma {:induction false} WithoutMoeOrder(ops: seq<Op>, entries: seq<Entry>)
    requires InUseOrder(ops, entries)
    ensures InUseOrder(ops, WithoutMoe(entries))
  {
    if entries != [] {
      var rest := WithoutMoe(entries[1..]);
      OrderTail(ops, entries);
      WithoutMoeOrder(ops, entries[1..]);
      WithoutMoeUsedAfter(ops, LastUse(ops, entries[0].path), entries[1..]);
      OrderCons(ops, entries[0], rest);
      assert [] + rest == rest;
    }
  }

  lemma {:induction false} MoeTailOrder(ops: seq<Op>, entries: seq<Entry>, j: nat)
    requires InUseOrder(ops, entries) && j <= |entries|
    ensures InUseOrder(ops, entries[..j] + WithoutMoe(entries[j..]))
    ensures forall n :: UsedAfter(ops, n, entries) ==> UsedAfter(ops, n, entries[..j] + WithoutMoe(entries[j..]))
  {
    if j == 0 {
      assert entries[0..] == entries && entries[..0] + WithoutMoe(entries) == WithoutMoe(entries);
      WithoutMoeOrder(ops, entries);
      forall n | UsedAfter(ops, n, entries) ensures UsedAfter(ops, n, WithoutMoe(entries)) { WithoutMoeUsedAfter(ops, n, entries); }
    } else {
      var rest := entries[1..][..j - 1] + WithoutMoe(entries[1..][j - 1..]);
      OrderTail(ops, entries);
      MoeTailOrder(ops, entries[1..], j - 1);
      OrderCons(ops, entries[0], rest);
      assert entries[1..][j - 1..] == entries[j..];
      assert entries[..j] + WithoutMoe(entries[j..]) == [entries[0]] + rest;
      forall n | UsedAfter(ops, n, entries) ensures UsedAfter(ops, n, [entries[0]] + rest) {
        assert UsedAfter(ops, n, entries[1..]);
      }
    }
  }

  // ---------- every operation ----------

  lemma {:induction false} EvictLoopSuffix(e: Evicted, goal: nat, max: nat) returns (k: nat)
    ensures k <= |e.entries| && EvictLoop(e, goal, max).entries == e.entries[k..]
    ensures !EvictLoop(e, goal, max).ok ==> k == |e.entries|
    decreases |e.entries|
  {
    if Sub64(goal, e.freed) <= max || e.entries == [] {
      k := 0;
    } else {
      var size := e.entries[0].adapter.size;
      var next := Evicted(e.entries[1..], RecordEviction(e.counter, size), Add64(e.freed, size), e.gone + size, false);
      var n := EvictLoopSuffix(next, goal, max);
      k := n + 1;
    }
  }

  /**
   What an insertion leaves: nothing when it fails, else the entries of other paths from some point on, and the
   new entry last; without a size limit that point is the start, or one further when the cache is full.
   */
  lemma InsertLeaves(cfg: Config, c: Cache, path: string, adapter: Adapter) returns (k: nat)
    requires Distinct(c.entries)
    ensures k <= |c.entries|
    ensures var (after, ok) := Insert(cfg, c, path, adapter);
            after.entries == if ok then Others(c.entries[k..], path) + [Entry(path, adapter)] else []
    ensures cfg.maxSizeBytes == 0 ==>
              && Insert(cfg, c, path, adapter).1
              && k == if !Has(c.entries, path) && c.entries != [] && |c.entries| >= cfg.Capacity() then 1 else 0
  {
    var (made, ok) := if cfg.maxSizeBytes > 0 then EvictForSize(cfg, c, adapter.size) else (c, true);
    k := MadeFrom(cfg, c, adapter.size);
    assert Distinct(made.entries);
    if ok {
      if Has(made.entries, path) {
        CutIsOthers(made.entries, path);
      } else if made.entries != [] && |made.entries| >= cfg.Capacity() {
        assert c.entries[k + 1..] == made.entries[1..];
        NotInTail(made.entries, path);
        NoOthers(made.entries[1..], path);
        k := k + 1;
      } else {
        NoOthers(made.entries, path);
      }
    }
  }

  lemma MadeFrom(cfg: Config, c: Cache, needed: nat) returns (k: nat)
    ensures k <= |c.entries|
    ensures var (made, ok) := if cfg.maxSizeBytes > 0 then EvictForSize(cfg, c, needed) else (c, true);
            made.entries == c.entries[k..] && (!ok ==> k == |c.entries|)
    ensures cfg.maxSizeBytes == 0 ==> k == 0
  {
    if cfg.maxSizeBytes > 0 && Add64(c.counter, needed) > cfg.maxSizeBytes {
      k := EvictLoopSuffix(Evicted(c.entries, c.counter, 0, 0, false), Add64(c.counter, needed), cfg.maxSizeBytes);
    } else {
      k := 0;
      assert c.entries[0..] == c.entries;
    }
  }

  /** Entries of other paths keep their order, and a path used now comes last. */
  lemma UsedLast(ops: seq<Op>, op: Op, entries: seq<Entry>, e: Entry)
    requires InUseOrder(ops, entries) && Uses(op, e.path)
    ensures InUseOrder(ops + [op], Others(entries, e.path) + [e])
  {
    var others := Others(entries, e.path);
    OthersOrder(ops, entries, e.path);
    OneMore(ops, op, e.path);
    forall i | 0 <= i < |others| ensures LastUse(ops + [op], others[i].path) == LastUse(ops, others[i].path) {
      OthersAre(entries, e.path, others[i]);
      OneMore(ops, op, others[i].path);
    }
  }

  lemma UnusedKept(ops: seq<Op>, op: Op, entries: seq<Entry>)
    requires InUseOrder(ops, entries) && forall i :: 0 <= i < |entries| ==> !Uses(op, entries[i].path)
    ensures InUseOrder(ops + [op], entries)
  {
    forall i | 0 <= i < |entries| ensures LastUse(ops + [op], entries[i].path) == LastUse(ops, entries[i].path) {
      OneMore(ops, op, entries[i].path);
    }
  }

  lemma StepKeepsOrder(cfg: Config, c: Cache, ops: seq<Op>, op: Op)
    requires InUseOrder(ops, c.entries)
    ensures InUseOrder(ops + [op], Apply(cfg, c, op).entries)
  {
    UseOrderDistinct(ops, c.entries);
    match op
    case GetOp(path) =>
      if Has(c.entries, path) {
        CutIsOthers(c.entries, path);
        UsedLast(ops, op, c.entries, c.entries[IndexOf(c.entries, path)]);
      } else {
        UnusedKept(ops, op, c.entries);
      }
    case InsertOp(path, adapter) =>
      var k := InsertLeaves(cfg, c, path, adapter);
      UsedLast(ops, op, c.entries[k..], Entry(path, adapter));
    case RemoveOp(path) =>
      if Has(c.entries, path) {
        CutIsOthers(c.entries, path);
        OthersOrder(ops, c.entries, path);
        UnusedKept(ops, op, Others(c.entries, path));
      } else {
        UnusedKept(ops, op, c.entries);
      }
    case ClearOp =>
    case EvictMoeOp =>
      WithoutMoeOrder(ops, c.entries);
      UnusedKept(ops, op, WithoutMoe(c.entries));
    case EvictMoeForSizeOp(needed) =>
      var j := StopAt(c.entries, |c.entries|, needed);
      MoeTailOrder(ops, c.entries, j);
      UnusedKept(ops, op, c.entries[..j] + WithoutMoe(c.entries[j..]));
      UnusedKept(ops, op, c.entries);
  }

  /** Over every run from an empty cache, the entries stand in the order of their last uses. */
  lemma {:induction false} UseOrder(cfg: Config, ops: seq<Op>)
    ensures InUseOrder(ops, ApplyAll(cfg, EMPTY, ops).entries)
  {
    if ops != [] {
      var before := ops[..|ops| - 1];
      UseOrder(cfg, before);
      StepKeepsOrder(cfg, ApplyAll(cfg, EMPTY, before), before, ops[|ops| - 1]);
      assert before + [ops[|ops| - 1]] == ops;
    }
  }

  // ---------- what goes first ----------

  /** An insertion, whether it evicts for size or displaces when full, drops the least recently used paths. */
  lemma InsertDropsLeastRecent(cfg: Config, ops: seq<Op>, path: string, adapter: Adapter, gone: string, kept: string)
    requires var c := ApplyAll(cfg, EMPTY, ops);
             var after := Insert(cfg, c, path, adapter).0;
             && Has(c.entries, gone) && !Has(after.entries, gone)
             && Has(c.entries, kept) && Has(after.entries, kept) && kept != path
    ensures LastUse(ops, gone) < LastUse(ops, kept)
  {
    var c := ApplyAll(cfg, EMPTY, ops);
    var after := Insert(cfg, c, path, adapter).0;
    UseOrder(cfg, ops);
    UseOrderDistinct(ops, c.entries);
    var k := InsertLeaves(cfg, c, path, adapter);
    var g :| 0 <= g < |c.entries| && c.entries[g].path == gone;
    var h := KeptAt(c.entries, k, path, adapter, after.entries, kept);
    if k <= g {
      OthersAre(c.entries[k..], path, c.entries[g]);
      assert c.entries[k..][g - k] == c.entries[g];
      StillThere(after.entries, Others(c.entries[k..], path), Entry(path, adapter), c.entries[g]);
    }
  }

  lemma KeptAt(before: seq<Entry>, k: nat, path: string, adapter: Adapter, after: seq<Entry>, kept: string) returns (h: nat)
    requires k <= |before| && Has(after, kept) && kept != path
    requires after == Others(before[k..], path) + [Entry(path, adapter)] || after == []
    ensures k <= h < |before| && before[h].path == kept
  {
    var i :| 0 <= i < |after| && after[i].path == kept;
    OthersAre(before[k..], path, after[i]);
    var at :| 0 <= at < |before[k..]| && before[k..][at] == after[i];
    h := k + at;
  }

  lemma StillThere(after: seq<Entry>, others: seq<Entry>, e: Entry, f: Entry)
    requires after == others + [e] && (f in others || f.path == e.path)
    ensures Has(after, f.path)
  {
    if f in others {
      var i :| 0 <= i < |others| && others[i] == f;
      assert after[i].path == f.path;
    } else {
      assert after[|others|].path == f.path;
    }
  }

  lemma MoeTailAre(entries: seq<Entry>, j: nat, i: nat)
    requires Distinct(entries) && j <= |entries| && i < |entries|
    ensures entries[i] in entries[..j] + WithoutMoe(entries[j..]) <==> i < j || !entries[i].adapter.moe
  {
    WithoutMoeAre(entries[j..], entries[i]);
    if i < j {
      assert entries[..j][i] == entries[i];
    } else {
      assert entries[j..][i - j] == entries[i];
      assert forall h :: 0 <= h < j ==> entries[..j][h] == entries[h];
    }
  }

  /** Making room among MoE adapters keeps every other adapter, and drops the most recently used of them. */
  lemma MoeDropsMostRecent(cfg: Config, ops: seq<Op>, needed: nat, gone: Entry, kept: Entry)
    requires var c := ApplyAll(cfg, EMPTY, ops);
             var after := EvictMoeForSize(c, needed).0;
             gone in c.entries && gone !in after.entries && kept in c.entries && kept in after.entries
    ensures gone.adapter.moe && (kept.adapter.moe ==> LastUse(ops, kept.path) < LastUse(ops, gone.path))
  {
    var c := ApplyAll(cfg, EMPTY, ops);
    var j := if needed <= MoeResident(c.entries) % W then |c.entries| else StopAt(c.entries, |c.entries|, needed);
    UseOrder(cfg, ops);
    UseOrderDistinct(ops, c.entries);
    assert c.entries[..|c.entries|] + WithoutMoe(c.entries[|c.entries|..]) == c.entries;
    var g :| 0 <= g < |c.entries| && c.entries[g] == gone;
    var h :| 0 <= h < |c.entries| && c.entries[h] == kept;
    MoeTailAre(c.entries, j, g);
    MoeTailAre(c.entries, j, h);
  }

  // ---------- what is kept ----------

  /** What an operation leaves of the entries it finds. */
  ghost predicate Leaves(before: seq<Entry>, op: Op, after: seq<Entry>) {
    match op
    case GetOp(_) => forall e :: e in after <==> e in before
    case InsertOp(path, adapter) =>
      after == [] || (Entry(path, adapter) in after
                      && forall e :: e in after && e != Entry(path, adapter) ==> e in before && e.path != path)
    case RemoveOp(path) => forall e :: e in after <==> e in before && e.path != path
    case ClearOp => after == []
    case EvictMoeOp => forall e :: e in after <==> e in before && !e.adapter.moe
    case EvictMoeForSizeOp(_) => (forall e :: e in after ==> e in before) && forall e :: e in before && !e.adapter.moe ==> e in after
  }

  lemma AllOthersAre(entries: seq<Entry>, path: string)
    ensures forall e :: e in Others(entries, path) <==> e in entries && e.path != path
  {
    forall e ensures e in Others(entries, path) <==> e in entries && e.path != path { OthersAre(entries, path, e); }
  }

  lemma AllWithoutMoeAre(entries: seq<Entry>)
    ensures forall e :: e in WithoutMoe(entries) <==> e in entries && !e.adapter.moe
  {
    forall e ensures e in WithoutMoe(entries) <==> e in entries && !e.adapter.moe { WithoutMoeAre(entries, e); }
  }

  lemma StepLeaves(cfg: Config, c: Cache, op: Op)
    requires Distinct(c.entries)
    ensures Leaves(c.entries, op, Apply(cfg, c, op).entries)
  {
    match op
    case GetOp(path) =>
      if Has(c.entries, path) { AllOthersAre(c.entries, path); CutIsOthers(c.entries, path); OnlyOne(c.entries, path); }
    case InsertOp(path, adapter) =>
      var k := InsertLeaves(cfg, c, path, adapter);
      AllOthersAre(c.entries[k..], path);
    case RemoveOp(path) =>
      AllOthersAre(c.entries, path);
      if Has(c.entries, path) { CutIsOthers(c.entries, path); }
    case ClearOp =>
    case EvictMoeOp => AllWithoutMoeAre(c.entries);
    case EvictMoeForSizeOp(needed) =>
      var j := StopAt(c.entries, |c.entries|, needed);
      AllWithoutMoeAre(c.entries[j..]);
      assert c.entries == c.entries[..j] + c.entries[j..];
  }

  lemma OnlyOne(entries: seq<Entry>, path: string)
    requires Distinct(entries) && Has(entries, path)
    ensures forall e :: e in entries && e.path == path ==> e == entries[IndexOf(entries, path)]
  {
  }

  /** The index of the last insertion of the path, -1 when there is none. */
  function LastInsert(ops: seq<Op>, path: string): (k: int)
    ensures -1 <= k < |ops| && (k >= 0 ==> ops[k].InsertOp? && ops[k].path == path)
    ensures forall j :: k < j < |ops| ==> !(ops[j].InsertOp? && ops[j].path == path)
  {
    if ops == [] then -1
    else if ops[|ops| - 1].InsertOp? && ops[|ops| - 1].path == path then |ops| - 1
    else LastInsert(ops[..|ops| - 1], path)
  }

  /** Over every run from an empty cache, what is cached for a path is what was last inserted for it. */
  lemma {:induction false} CachedIsLastInserted(cfg: Config, ops: seq<Op>, e: Entry)
    requires e in ApplyAll(cfg, EMPTY, ops).entries
    ensures var k := LastInsert(ops, e.path); k >= 0 && ops[k] == InsertOp(e.path, e.adapter)
  {
    var before, op := ops[..|ops| - 1], ops[|ops| - 1];
    var c := ApplyAll(cfg, EMPTY, before);
    UseOrder(cfg, before);
    UseOrderDistinct(before, c.entries);
    StepLeaves(cfg, c, op);
    if !(op.InsertOp? && e == Entry(op.path, op.adapter)) {
      CachedIsLastInserted(cfg, before, e);
    }
  }

  /** A lookup finds what is cached for the path, and nothing when nothing is. */
  lemma LookupFinds(c: Cache, path: string, adapter: Adapter)
    requires Distinct(c.entries)
    ensures Lookup(c, path) == Some(adapter) <==> Entry(path, adapter) in c.entries
    ensures Lookup(c, path) == None <==> forall e :: e in c.entries ==> e.path != path
  {
    if Has(c.entries, path) { OnlyOne(c.entries, path); }
  }

  lemma {:induction false} LastOnly(entries: seq<Entry>, e: Entry)
    requires forall i :: 0 <= i < |entries| ==> entries[i].path != e.path
    ensures Has(entries + [e], e.path) && IndexOf(entries + [e], e.path) == |entries|
  {
    assert (entries + [e])[|entries|].path == e.path;
    if entries != [] {
      LastOnly(entries[1..], e);
      assert (entries + [e])[1..] == entries[1..] + [e];
    }
  }

  lemma OthersThen(entries: seq<Entry>, e: Entry)
    ensures Has(Others(entries, e.path) + [e], e.path) && IndexOf(Others(entries, e.path) + [e], e.path) == |Others(entries, e.path)|
  {
    AllOthersAre(entries, e.path);
    LastOnly(Others(entries, e.path), e);
  }

  /** What was inserted is found. */
  lemma InsertedIsFound(cfg: Config, c: Cache, path: string, adapter: Adapter)
    requires Distinct(c.entries)
    ensures var (after, ok) := Insert(cfg, c, path, adapter); ok ==> Lookup(after, path) == Some(adapter)
  {
    var k := InsertLeaves(cfg, c, path, adapter);
    OthersThen(c.entries[k..], Entry(path, adapter));
  }

  /** Getting a path changes nothing of what is found under it. */
  lemma TouchedIsFound(c: Cache, path: string)
    requires Distinct(c.entries)
    ensures Lookup(Get(c, path), path) == Lookup(c, path)
  {
    if Has(c.entries, path) {
      CutIsOthers(c.entries, path);
      OthersThen(c.entries, c.entries[IndexOf(c.entries, path)]);
    }
  }
}
