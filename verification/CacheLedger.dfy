/**
 What the byte counter really keeps: the ledger law over every run, the exact effect of an eviction,
 and exactly when the size limit is respected.
 */
module CacheLedger {
  import opened Adapters
  import opened CacheModel

  // ---------- arithmetic modulo 2^64 ----------

  lemma ModShift(x: int, n: int)
    ensures (x % W + n) % W == (x + n) % W
  {
    ModEqual(x % W + n, x + n, -(x / W));
  }

  lemma ModBack(x: int, n: nat)
    ensures (x % W - n) % W == (x - n) % W
  {
    ModEqual(x % W - n, x - n, -(x / W));
  }

  // ---------- sums ----------

  lemma {:induction false} ResidentConcat(a: seq<Entry>, b: seq<Entry>)
    ensures Resident(a + b) == Resident(a) + Resident(b)
  {
    if a == [] {
      assert a + b == b;
    } else {
      ResidentConcat(a[1..], b);
      assert (a + b)[1..] == a[1..] + b;
    }
  }

  lemma ResidentCut(entries: seq<Entry>, i: nat, e: Entry)
    requires i < |entries|
    ensures Resident(Cut(entries, i)) == Resident(entries) - entries[i].adapter.size
    ensures Resident(Cut(entries, i) + [e]) == Resident(entries) - entries[i].adapter.size + e.adapter.size
  {
    assert entries == entries[..i] + ([entries[i]] + entries[i + 1..]);
    ResidentConcat(entries[..i], [entries[i]] + entries[i + 1..]);
    ResidentConcat(entries[..i], entries[i + 1..]);
    ResidentConcat(Cut(entries, i), [e]);
    assert ([entries[i]] + entries[i + 1..])[1..] == entries[i + 1..];
    assert Resident([e]) == e.adapter.size;
  }

  lemma {:induction false} WithoutMoeResident(entries: seq<Entry>)
    ensures Resident(WithoutMoe(entries)) == Resident(entries) - MoeResident(entries)
  {
    if entries != [] {
      WithoutMoeResident(entries[1..]);
      var kept := WithoutMoe(entries[1..]);
      assert entries[0].adapter.moe ==> [] + kept == kept;
      assert ([entries[0]] + kept)[1..] == kept;
    }
  }

  // ---------- the ledger law ----------

  predicate U64Sizes(entries: seq<Entry>) {
    forall i :: 0 <= i < |entries| ==> entries[i].adapter.size < W
  }

  /** The counter is the resident sum, less what was subtracted twice, plus what was never subtracted. */
  predicate Ledger(c: Cache) {
    && c.counter == (Resident(c.entries) - c.doubled + c.dropped) % W
    && U64Sizes(c.entries)
  }

  /** The eviction loop pops a prefix, and subtracts each popped size once. */
  lemma {:induction false} EvictLoopEffect(e: Evicted, goal: nat, max: nat, x: int)
    requires e.counter == x % W && e.freed == e.gone % W && U64Sizes(e.entries)
    ensures var r := EvictLoop(e, goal, max);
            && r.freed == r.gone % W && e.gone <= r.gone
            && r.counter == (x - (r.gone - e.gone)) % W
            && Resident(r.entries) == Resident(e.entries) - (r.gone - e.gone)
            && |r.entries| <= |e.entries| && r.entries == e.entries[|e.entries| - |r.entries|..]
            && (!r.ok ==> r.entries == [])
    decreases |e.entries|
  {
    if Sub64(goal, e.freed) > max && e.entries != [] {
      var size := e.entries[0].adapter.size;
      ModBack(x, size);
      ModShift(e.gone, size);
      EvictLoopEffect(Evicted(e.entries[1..], RecordEviction(e.counter, size), Add64(e.freed, size), e.gone + size, false), goal, max, x - size);
    }
  }

  /** The sum of the evicted sizes, subtracted a second time. */
  lemma SecondSubtraction(x: int, counter: nat, gone: nat, freed: nat)
    requires counter == (x - gone) % W && freed == gone % W
    ensures UpdateSize(counter, Neg64(AsI64(freed))) == (x - gone - gone) % W
  {
    UpdateSizeMoves(counter, freed);
    ModBack(x - gone, freed);
    ModEqual(x - gone - freed, x - gone - gone, gone / W);
  }

  lemma EvictForSizeKeepsLedger(cfg: Config, c: Cache, needed: nat)
    requires Ledger(c)
    ensures Ledger(EvictForSize(cfg, c, needed).0)
  {
    if Add64(c.counter, needed) > cfg.maxSizeBytes {
      var x := Resident(c.entries) - c.doubled + c.dropped;
      var start := Evicted(c.entries, c.counter, 0, 0, false);
      var goal := Add64(c.counter, needed);
      EvictLoopEffect(start, goal, cfg.maxSizeBytes, x);
      var r := EvictLoop(start, goal, cfg.maxSizeBytes);
      if r.ok {
        SecondSubtraction(x, r.counter, r.gone, r.freed);
      }
    }
  }

  lemma PushEffect(entries: seq<Entry>, capacity: nat, path: string, adapter: Adapter)
    requires U64Sizes(entries) && adapter.size < W
    ensures var p := Push(entries, capacity, path, adapter);
            && U64Sizes(p.entries)
            && (p.out.Some? ==> p.out.value.size < W)
            && Resident(p.entries) == Resident(entries) + adapter.size - if p.out.Some? then p.out.value.size else 0
  {
    var e := Entry(path, adapter);
    if Has(entries, path) {
      ResidentCut(entries, IndexOf(entries, path), e);
    } else if entries != [] && |entries| >= capacity {
      ResidentConcat(entries[1..], [e]);
    } else {
      ResidentConcat(entries, [e]);
    }
    assert Resident([e]) == adapter.size;
  }

  lemma StoreKeepsLedger(cfg: Config, c: Cache, path: string, adapter: Adapter)
    requires Ledger(c) && adapter.size < W
    ensures Ledger(Store(cfg, c, path, adapter))
  {
    PushEffect(c.entries, cfg.Capacity(), path, adapter);
    var p := Push(c.entries, cfg.Capacity(), path, adapter);
    var x := Resident(c.entries) - c.doubled + c.dropped;
    var out := if p.out.Some? then p.out.value.size else 0;
    var counter := if p.out.Some? then RecordEviction(c.counter, out) else c.counter;
    assert counter == (x - out) % W by { ModBack(x, out); }
    UpdateSizeMoves(counter, adapter.size);
    ModShift(x - out, adapter.size);
  }

  lemma InsertKeepsLedger(cfg: Config, c: Cache, path: string, adapter: Adapter)
    requires Ledger(c) && adapter.size < W
    ensures Ledger(Insert(cfg, c, path, adapter).0)
  {
    EvictForSizeKeepsLedger(cfg, c, adapter.size);
    var (made, ok) := if cfg.maxSizeBytes > 0 then EvictForSize(cfg, c, adapter.size) else (c, true);
    if ok { StoreKeepsLedger(cfg, made, path, adapter); }
  }

  lemma GetKeepsLedger(c: Cache, path: string)
    requires Ledger(c)
    ensures Ledger(Get(c, path))
  {
    if Has(c.entries, path) {
      var i := IndexOf(c.entries, path);
      ResidentCut(c.entries, i, c.entries[i]);
    }
  }

  lemma RemoveKeepsLedger(c: Cache, path: string)
    requires Ledger(c)
    ensures Ledger(Remove(c, path))
  {
    if Has(c.entries, path) {
      var i := IndexOf(c.entries, path);
      ResidentCut(c.entries, i, c.entries[i]);
      UpdateSizeMoves(c.counter, c.entries[i].adapter.size);
      ModBack(Resident(c.entries) - c.doubled + c.dropped, c.entries[i].adapter.size);
    }
  }

  lemma {:induction false} WithoutMoeSizes(entries: seq<Entry>)
    requires U64Sizes(entries)
    ensures U64Sizes(WithoutMoe(entries))
  {
    if entries != [] { WithoutMoeSizes(entries[1..]); }
  }

  lemma EvictMoeFromResident(c: Cache, j: nat)
    requires j <= |c.entries|
    ensures Resident(EvictMoeFrom(c, j).entries) == Resident(c.entries) - MoeResident(c.entries[j..])
  {
    assert c.entries == c.entries[..j] + c.entries[j..];
    ResidentConcat(c.entries[..j], c.entries[j..]);
    ResidentConcat(c.entries[..j], WithoutMoe(c.entries[j..]));
    WithoutMoeResident(c.entries[j..]);
  }

  lemma EvictMoeFromKeepsLedger(c: Cache, j: nat)
    requires Ledger(c) && j <= |c.entries|
    ensures Ledger(EvictMoeFrom(c, j))
  {
    var x := Resident(c.entries) - c.doubled + c.dropped;
    var moe := MoeResident(c.entries[j..]);
    EvictMoeFromResident(c, j);
    WithoutMoeSizes(c.entries[j..]);
    ModBack(x, moe);
    ModBack(x - moe, moe);
  }

  datatype Op =
    | GetOp(path: string)
    | InsertOp(path: string, adapter: Adapter)
    | RemoveOp(path: string)
    | ClearOp
    | EvictMoeOp
    | EvictMoeForSizeOp(needed: nat)

  function Apply(cfg: Config, c: Cache, op: Op): Cache {
    match op
    case GetOp(path) => Get(c, path)
    case InsertOp(path, adapter) => Insert(cfg, c, path, adapter).0
    case RemoveOp(path) => Remove(c, path)
    case ClearOp => Clear(c)
    case EvictMoeOp => EvictMoe(c)
    case EvictMoeForSizeOp(needed) => EvictMoeForSize(c, needed).0
  }

  function ApplyAll(cfg: Config, c: Cache, ops: seq<Op>): Cache {
    if ops == [] then c else Apply(cfg, ApplyAll(cfg, c, ops[..|ops| - 1]), ops[|ops| - 1])
  }

  /** Sizes are u64 values. */
  predicate OpOk(op: Op) { op.InsertOp? ==> op.adapter.size < W }

  lemma ApplyKeepsLedger(cfg: Config, c: Cache, op: Op)
    requires Ledger(c) && OpOk(op)
    ensures Ledger(Apply(cfg, c, op))
  {
    match op
    case GetOp(path) => GetKeepsLedger(c, path);
    case InsertOp(path, adapter) => InsertKeepsLedger(cfg, c, path, adapter);
    case RemoveOp(path) => RemoveKeepsLedger(c, path);
    case ClearOp =>
      assert Clear(c).counter == (0 - c.doubled + (c.dropped + Resident(c.entries))) % W;
    case EvictMoeOp =>
      EvictMoeIsFromStart(c);
      EvictMoeFromKeepsLedger(c, 0);
    case EvictMoeForSizeOp(needed) => EvictMoeFromKeepsLedger(c, StopAt(c.entries, |c.entries|, needed));
  }

  /** The ledger law, over every run from an empty cache. */
  lemma {:induction false} LedgerLaw(cfg: Config, ops: seq<Op>)
    requires forall op :: op in ops ==> OpOk(op)
    ensures Ledger(ApplyAll(cfg, EMPTY, ops))
  {
    if ops != [] {
      LedgerLaw(cfg, ops[..|ops| - 1]);
      ApplyKeepsLedger(cfg, ApplyAll(cfg, EMPTY, ops[..|ops| - 1]), ops[|ops| - 1]);
    }
  }

  /** Without double subtractions and clears, the counter is the resident sum. */
  lemma CounterIsResident(cfg: Config, ops: seq<Op>)
    requires forall op :: op in ops ==> OpOk(op)
    requires var c := ApplyAll(cfg, EMPTY, ops); c.doubled == 0 && c.dropped == 0 && Resident(c.entries) < W
    ensures var c := ApplyAll(cfg, EMPTY, ops); c.counter == Resident(c.entries)
  {
    LedgerLaw(cfg, ops);
    NoDrift(ApplyAll(cfg, EMPTY, ops));
  }

  lemma NoDrift(c: Cache)
    requires Ledger(c) && c.doubled == 0 && c.dropped == 0 && Resident(c.entries) < W
    ensures c.counter == Resident(c.entries)
  {
  }

  // ---------- what one eviction does ----------

  /** Some turn of the loop subtracts more than it has. */
  predicate Underflows(e: Evicted, goal: nat, max: nat)
    decreases |e.entries|
  {
    e.freed > goal ||
    (Sub64(goal, e.freed) > max && e.entries != [] &&
     var size := e.entries[0].adapter.size;
     Underflows(Evicted(e.entries[1..], RecordEviction(e.counter, size), Add64(e.freed, size), e.gone + size, false), goal, max))
  }

  lemma SmallNumbers(a: nat, b: nat)
    requires b <= a < W
    ensures Sub64(a, b) == a - b
  {
  }

  /** The entries left when the oldest are dropped until `needed` more bytes fit. */
  function Fitting(entries: seq<Entry>, needed: nat, max: nat): seq<Entry> {
    if Resident(entries) + needed <= max || entries == [] then entries else Fitting(entries[1..], needed, max)
  }

  lemma {:induction false} FittingIsMinimal(entries: seq<Entry>, needed: nat, max: nat)
    ensures var left := Fitting(entries, needed, max);
            var k := |entries| - |left|;
            && k >= 0 && left == entries[k..]
            && (if needed <= max then Resident(left) + needed <= max else left == [])
            && (forall j :: 0 <= j < k ==> Resident(entries[j..]) + needed > max)
  {
    if Resident(entries) + needed > max && entries != [] {
      FittingIsMinimal(entries[1..], needed, max);
      SuffixesExceed(entries, |entries| - |Fitting(entries[1..], needed, max)|, needed, max);
    }
  }

  lemma SuffixesExceed(entries: seq<Entry>, k: nat, needed: nat, max: nat)
    requires 0 < k <= |entries| && Resident(entries) + needed > max
    requires forall j :: 0 <= j < k - 1 ==> Resident(entries[1..][j..]) + needed > max
    ensures forall j :: 0 <= j < k ==> Resident(entries[j..]) + needed > max
    ensures entries[1..][k - 1..] == entries[k..]
  {
    forall j | 0 <= j < k ensures Resident(entries[j..]) + needed > max {
      if j > 0 { assert entries[j..] == entries[1..][j - 1..]; } else { assert entries[0..] == entries; }
    }
  }

  /** While nothing wraps, the loop leaves what fits. */
  lemma {:induction false} EvictLoopExact(e: Evicted, goal: nat, max: nat, needed: nat)
    requires e.freed == e.gone && goal == e.gone + Resident(e.entries) + needed < W
    ensures !Underflows(e, goal, max)
    ensures EvictLoop(e, goal, max).entries == Fitting(e.entries, needed, max)
    ensures EvictLoop(e, goal, max).ok <==> needed <= max
    decreases |e.entries|
  {
    SmallNumbers(goal, e.freed);
    if goal - e.freed > max && e.entries != [] {
      var size := e.entries[0].adapter.size;
      SmallSum(e.freed, size);
      EvictLoopExact(Evicted(e.entries[1..], RecordEviction(e.counter, size), Add64(e.freed, size), e.gone + size, false), goal, max, needed);
    }
  }

  lemma SmallSum(a: nat, b: nat)
    requires a + b < W
    ensures Add64(a, b) == a + b
  {
  }

  /**
   With an accurate counter, making room removes exactly the shortest least-recently-used prefix that
   suffices, never underflows, and fails exactly when the new size exceeds the limit by itself, leaving
   the cache empty.
   */
  lemma EvictionIsMinimal(cfg: Config, c: Cache, needed: nat)
    requires c.counter == Resident(c.entries) && Resident(c.entries) + needed < W
    ensures var (made, ok) := EvictForSize(cfg, c, needed);
            var k := |c.entries| - |made.entries|;
            && k >= 0 && made.entries == c.entries[k..]
            && (ok <==> needed <= cfg.maxSizeBytes)
            && (if ok then Resident(made.entries) + needed <= cfg.maxSizeBytes else made.entries == [])
            && (forall j :: 0 <= j < k ==> Resident(c.entries[j..]) + needed > cfg.maxSizeBytes)
    ensures !Underflows(Evicted(c.entries, c.counter, 0, 0, false), Add64(c.counter, needed), cfg.maxSizeBytes)
  {
    SmallSum(c.counter, needed);
    EvictLoopExact(Evicted(c.entries, c.counter, 0, 0, false), Add64(c.counter, needed), cfg.maxSizeBytes, needed);
    FittingIsMinimal(c.entries, needed, cfg.maxSizeBytes);
  }

  /** Once more is freed than was asked for, a turn of the loop has subtracted too much, unless it stopped before. */
  lemma {:induction false} EvictLoopWrapped(e: Evicted, goal: nat, max: nat)
    requires e.freed + Resident(e.entries) > goal && e.freed + Resident(e.entries) < W
    ensures EvictLoop(e, goal, max).ok || Underflows(e, goal, max)
    decreases |e.entries|
  {
    if e.freed <= goal {
      SmallNumbers(goal, e.freed);
      if goal - e.freed > max && e.entries != [] {
        var size := e.entries[0].adapter.size;
        SmallSum(e.freed, size);
        EvictLoopWrapped(Evicted(e.entries[1..], RecordEviction(e.counter, size), Add64(e.freed, size), e.gone + size, false), goal, max);
      }
    }
  }

  /** What making room promises: it succeeds for sizes within the limit only, and never underflows. */
  predicate MakesRoomSoundly(cfg: Config, c: Cache, needed: nat) {
    && (EvictForSize(cfg, c, needed).1 <==> needed <= cfg.maxSizeBytes)
    && !Underflows(Evicted(c.entries, c.counter, 0, 0, false), Add64(c.counter, needed), cfg.maxSizeBytes)
  }

  /** With an accurate counter that promise is kept exactly when resident and new bytes together fit a u64. */
  lemma MakesRoomSoundlyExactly(cfg: Config, c: Cache, needed: nat)
    requires c.counter == Resident(c.entries) && needed < W && Resident(c.entries) + cfg.maxSizeBytes < W
    ensures MakesRoomSoundly(cfg, c, needed) <==> Resident(c.entries) + needed < W
  {
    if Resident(c.entries) + needed < W {
      EvictionIsMinimal(cfg, c, needed);
    } else {
      var goal := Resident(c.entries) + needed - W;
      ModEqual(c.counter + needed, goal, 1);
      assert Add64(c.counter, needed) == goal;
      EvictLoopWrapped(Evicted(c.entries, c.counter, 0, 0, false), goal, cfg.maxSizeBytes);
    }
  }

  // ---------- the size limit ----------

  lemma {:induction false} EvictLoopRoom(e: Evicted, goal: nat, max: nat, needed: nat)
    requires e.freed == e.gone && e.gone + Resident(e.entries) + needed <= goal < W
    ensures var r := EvictLoop(e, goal, max);
            if r.ok then Resident(r.entries) + needed <= max else r.entries == []
    decreases |e.entries|
  {
    if Sub64(goal, e.freed) > max && e.entries != [] {
      var size := e.entries[0].adapter.size;
      EvictLoopRoom(Evicted(e.entries[1..], RecordEviction(e.counter, size), Add64(e.freed, size), e.gone + size, false), goal, max, needed);
    }
  }

  /** A counter that does not lag behind the resident sum keeps the cache within its limit. */
  lemma InsertWithinLimit(cfg: Config, c: Cache, path: string, adapter: Adapter)
    requires cfg.maxSizeBytes > 0 && Resident(c.entries) <= c.counter && c.counter + adapter.size < W
    requires U64Sizes(c.entries)
    ensures Resident(Insert(cfg, c, path, adapter).0.entries) <= cfg.maxSizeBytes
  {
    RoomIsMade(cfg, c, adapter.size);
    var (made, ok) := EvictForSize(cfg, c, adapter.size);
    if ok { PushEffect(made.entries, cfg.Capacity(), path, adapter); }
  }

  lemma RoomIsMade(cfg: Config, c: Cache, needed: nat)
    requires cfg.maxSizeBytes > 0 && Resident(c.entries) <= c.counter && c.counter + needed < W && U64Sizes(c.entries)
    ensures var (made, ok) := EvictForSize(cfg, c, needed);
            U64Sizes(made.entries) && if ok then Resident(made.entries) + needed <= cfg.maxSizeBytes else made.entries == []
  {
    SmallSum(c.counter, needed);
    var start := Evicted(c.entries, c.counter, 0, 0, false);
    EvictLoopRoom(start, c.counter + needed, cfg.maxSizeBytes, needed);
    EvictLoopEffect(start, c.counter + needed, cfg.maxSizeBytes, c.counter);
  }

  // ---------- when insertions are safe ----------

  function Longest(entries: seq<Entry>): nat {
    if entries == [] then 0
    else if Longest(entries[1..]) < |entries[0].path| then |entries[0].path| else Longest(entries[1..])
  }

  lemma {:induction false} LongestIsLongest(entries: seq<Entry>, i: nat)
    requires i < |entries|
    ensures |entries[i].path| <= Longest(entries)
  {
    if i > 0 { LongestIsLongest(entries[1..], i - 1); }
  }

  /** There is always a path not cached. */
  lemma NewPath(entries: seq<Entry>) returns (path: string)
    ensures !Has(entries, path)
  {
    path := seq(Longest(entries) + 1, _ => 'x');
    forall i | 0 <= i < |entries| ensures entries[i].path != path { LongestIsLongest(entries, i); }
  }

  /** What is pushed stays, whatever it displaces. */
  lemma PushAtLeast(entries: seq<Entry>, capacity: nat, path: string, adapter: Adapter)
    ensures Resident(Push(entries, capacity, path, adapter).entries) >= adapter.size
  {
    var e := Entry(path, adapter);
    assert Resident([e]) == adapter.size;
    if Has(entries, path) {
      ResidentConcat(Cut(entries, IndexOf(entries, path)), [e]);
    } else if entries != [] && |entries| >= capacity {
      ResidentConcat(entries[1..], [e]);
    } else {
      ResidentConcat(entries, [e]);
    }
  }

  /** If the sum of counter and size wraps to within the limit, nothing is evicted and an oversized adapter is stored. */
  lemma WrappedInsertOverruns(cfg: Config, c: Cache, path: string, adapter: Adapter)
    requires Add64(c.counter, adapter.size) <= cfg.maxSizeBytes < adapter.size
    ensures Insert(cfg, c, path, adapter).1
    ensures Resident(Insert(cfg, c, path, adapter).0.entries) > cfg.maxSizeBytes
  {
    PushAtLeast(c.entries, cfg.Capacity(), path, adapter);
  }

  /** The size of the oldest entry that has one. */
  function FirstSize(entries: seq<Entry>): nat {
    if entries == [] then 0 else if entries[0].adapter.size > 0 then entries[0].adapter.size else FirstSize(entries[1..])
  }

  lemma {:induction false} FirstSizeBounds(entries: seq<Entry>)
    ensures FirstSize(entries) <= Resident(entries) && (FirstSize(entries) == 0 <==> Resident(entries) == 0)
  {
    if entries != [] { FirstSizeBounds(entries[1..]); }
  }

  /** Asked for one entry too many, the loop pops up to the oldest entry that has a size. */
  lemma {:induction false} EvictToFirst(e: Evicted, goal: nat, max: nat)
    requires e.freed == 0 && FirstSize(e.entries) > 0 && goal == max + FirstSize(e.entries) < W
    ensures var r := EvictLoop(e, goal, max);
            r.ok && |r.entries| < |e.entries| && Resident(r.entries) == Resident(e.entries) - FirstSize(e.entries)
            && forall path :: Has(r.entries, path) ==> Has(e.entries, path)
    decreases |e.entries|
  {
    var size := e.entries[0].adapter.size;
    var next := Evicted(e.entries[1..], RecordEviction(e.counter, size), Add64(e.freed, size), e.gone + size, false);
    SmallNumbers(goal, 0);
    SmallSum(0, size);
    if size == 0 {
      EvictToFirst(next, goal, max);
    } else {
      SmallNumbers(goal, size);
    }
  }

  lemma RoomyInsertOverruns(cfg: Config, c: Cache, path: string, adapter: Adapter)
    requires c.counter < Resident(c.entries) && c.counter + adapter.size == cfg.maxSizeBytes < W
    requires U64Sizes(c.entries) && |c.entries| < cfg.Capacity() && !Has(c.entries, path)
    ensures Resident(Insert(cfg, c, path, adapter).0.entries) > cfg.maxSizeBytes
  {
    SmallSum(c.counter, adapter.size);
    PushEffect(c.entries, cfg.Capacity(), path, adapter);
  }

  lemma FullInsertOverruns(cfg: Config, c: Cache, path: string, adapter: Adapter)
    requires c.counter < Resident(c.entries) && c.counter + adapter.size == cfg.maxSizeBytes + FirstSize(c.entries) < W
    requires U64Sizes(c.entries) && |c.entries| == cfg.Capacity() && !Has(c.entries, path) && cfg.maxSizeBytes > 0
    ensures Resident(Insert(cfg, c, path, adapter).0.entries) > cfg.maxSizeBytes
  {
    var goal := c.counter + adapter.size;
    SmallSum(c.counter, adapter.size);
    FirstSizeBounds(c.entries);
    var start := Evicted(c.entries, c.counter, 0, 0, false);
    EvictToFirst(start, goal, cfg.maxSizeBytes);
    EvictLoopEffect(start, goal, cfg.maxSizeBytes, c.counter);
    PushEffect(EvictLoop(start, goal, cfg.maxSizeBytes).entries, cfg.Capacity(), path, adapter);
  }

  /** A counter that has fallen behind lets an insertion overrun the limit. */
  lemma LaggingInsertOverruns(cfg: Config, c: Cache) returns (path: string, adapter: Adapter)
    requires c.counter < Resident(c.entries) <= cfg.maxSizeBytes && 3 * cfg.maxSizeBytes < W
    requires U64Sizes(c.entries) && |c.entries| <= cfg.Capacity()
    ensures adapter.size + cfg.maxSizeBytes < W
    ensures Resident(Insert(cfg, c, path, adapter).0.entries) > cfg.maxSizeBytes
  {
    path := NewPath(c.entries);
    if |c.entries| < cfg.Capacity() {
      adapter := Adapter("", cfg.maxSizeBytes - c.counter, false, 0);
      RoomyInsertOverruns(cfg, c, path, adapter);
    } else {
      FirstSizeBounds(c.entries);
      adapter := Adapter("", cfg.maxSizeBytes - c.counter + FirstSize(c.entries), false, 0);
      FullInsertOverruns(cfg, c, path, adapter);
    }
  }

  /** A counter beyond the limit, as left by a wrap-around, lets an insertion overrun it too. */
  lemma LeadingInsertOverruns(cfg: Config, c: Cache) returns (path: string, adapter: Adapter)
    requires cfg.maxSizeBytes < c.counter < W && 3 * cfg.maxSizeBytes < W && cfg.maxSizeBytes > 0
    ensures adapter.size + cfg.maxSizeBytes < W
    ensures Resident(Insert(cfg, c, path, adapter).0.entries) > cfg.maxSizeBytes
  {
    path := "";
    var room := c.counter - cfg.maxSizeBytes - 1;
    var k := if room < cfg.maxSizeBytes then room else cfg.maxSizeBytes;
    adapter := Adapter("", W - c.counter + k, false, 0);
    ModEqual(c.counter + adapter.size, k, 1);
    WrappedInsertOverruns(cfg, c, path, adapter);
  }

  /** Every insertion of a size that does not wrap around with the limit keeps the cache within it. */
  ghost predicate LimitSafe(cfg: Config, c: Cache) {
    forall path: string, adapter: Adapter {:trigger Insert(cfg, c, path, adapter)} ::
      adapter.size + cfg.maxSizeBytes < W ==>
        Resident(Insert(cfg, c, path, adapter).0.entries) <= cfg.maxSizeBytes
  }

  /** In a cache within its limit, insertions are safe exactly when the counter is between the resident sum and the limit. */
  lemma LimitSafeExactly(cfg: Config, c: Cache)
    requires 0 < cfg.maxSizeBytes && 3 * cfg.maxSizeBytes < W && Resident(c.entries) <= cfg.maxSizeBytes
    requires U64Sizes(c.entries) && |c.entries| <= cfg.Capacity() && c.counter < W
    ensures LimitSafe(cfg, c) <==> Resident(c.entries) <= c.counter <= cfg.maxSizeBytes
  {
    if c.counter < Resident(c.entries) {
      var path, adapter := LaggingInsertOverruns(cfg, c);
    } else if c.counter > cfg.maxSizeBytes {
      var path, adapter := LeadingInsertOverruns(cfg, c);
    } else {
      forall path: string, adapter: Adapter | adapter.size + cfg.maxSizeBytes < W
        ensures Resident(Insert(cfg, c, path, adapter).0.entries) <= cfg.maxSizeBytes
      {
        InsertWithinLimit(cfg, c, path, adapter);
      }
    }
  }

  /** Every insertion of at most `bound` bytes keeps the cache within its limit. */
  ghost predicate SafeUpTo(cfg: Config, c: Cache, bound: nat) {
    forall path: string, adapter: Adapter {:trigger Insert(cfg, c, path, adapter)} ::
      adapter.size <= bound ==> Resident(Insert(cfg, c, path, adapter).0.entries) <= cfg.maxSizeBytes
  }

  /** With an accurate counter, insertions are safe up to exactly the sizes that fit a u64 beside what is resident. */
  lemma SafeSizesExactly(cfg: Config, c: Cache, bound: nat)
    requires c.counter == Resident(c.entries) && 0 < Resident(c.entries) <= cfg.maxSizeBytes && 2 * cfg.maxSizeBytes < W
    requires U64Sizes(c.entries)
    ensures SafeUpTo(cfg, c, bound) <==> Resident(c.entries) + bound < W
  {
    if Resident(c.entries) + bound < W {
      forall path: string, adapter: Adapter | adapter.size <= bound
        ensures Resident(Insert(cfg, c, path, adapter).0.entries) <= cfg.maxSizeBytes
      {
        InsertWithinLimit(cfg, c, path, adapter);
      }
    } else {
      var adapter := Adapter("", W - Resident(c.entries), false, 0);
      WrappedInsertOverruns(cfg, c, "", adapter);
    }
  }

  lemma {:induction false} EvictLoopShrinks(e: Evicted, goal: nat, max: nat)
    ensures |EvictLoop(e, goal, max).entries| <= |e.entries|
    decreases |e.entries|
  {
    if Sub64(goal, e.freed) > max && e.entries != [] {
      var size := e.entries[0].adapter.size;
      EvictLoopShrinks(Evicted(e.entries[1..], RecordEviction(e.counter, size), Add64(e.freed, size), e.gone + size, false), goal, max);
    }
  }

  lemma {:induction false} WithoutMoeShrinks(entries: seq<Entry>)
    ensures |WithoutMoe(entries)| <= |entries|
  {
    if entries != [] { WithoutMoeShrinks(entries[1..]); }
  }

  /** In every run the cache holds at most as many adapters as its capacity. */
  lemma {:induction false} CapacityHolds(cfg: Config, ops: seq<Op>)
    ensures |ApplyAll(cfg, EMPTY, ops).entries| <= cfg.Capacity()
  {
    if ops != [] {
      var c, op := ApplyAll(cfg, EMPTY, ops[..|ops| - 1]), ops[|ops| - 1];
      CapacityHolds(cfg, ops[..|ops| - 1]);
      match op
      case InsertOp(path, adapter) =>
        EvictLoopShrinks(Evicted(c.entries, c.counter, 0, 0, false), Add64(c.counter, adapter.size), cfg.maxSizeBytes);
      case EvictMoeOp => WithoutMoeShrinks(c.entries);
      case EvictMoeForSizeOp(needed) => WithoutMoeShrinks(c.entries[StopAt(c.entries, |c.entries|, needed)..]);
      case _ =>
    }
  }

  lemma DriftOnlyGrows(cfg: Config, c: Cache, op: Op)
    ensures Apply(cfg, c, op).doubled >= c.doubled && Apply(cfg, c, op).dropped >= c.dropped
  {
  }

  lemma OtherOpsShrink(cfg: Config, c: Cache, op: Op)
    requires !op.InsertOp?
    ensures Resident(Apply(cfg, c, op).entries) <= Resident(c.entries)
  {
    match op
    case GetOp(path) =>
      if Has(c.entries, path) { ResidentCut(c.entries, IndexOf(c.entries, path), c.entries[IndexOf(c.entries, path)]); }
    case RemoveOp(path) =>
      if Has(c.entries, path) { ResidentCut(c.entries, IndexOf(c.entries, path), c.entries[IndexOf(c.entries, path)]); }
    case ClearOp =>
    case EvictMoeOp => WithoutMoeResident(c.entries);
    case EvictMoeForSizeOp(needed) => EvictMoeFromResident(c, StopAt(c.entries, |c.entries|, needed));
  }

  /** In every run that never drifts, the resident bytes stay within a positive limit. */
  lemma {:induction false} DriftlessRunsRespectLimit(cfg: Config, ops: seq<Op>)
    requires cfg.maxSizeBytes > 0
    requires forall op :: op in ops ==> op.InsertOp? ==> op.adapter.size + cfg.maxSizeBytes < W
    requires var c := ApplyAll(cfg, EMPTY, ops); c.doubled == 0 && c.dropped == 0
    ensures Resident(ApplyAll(cfg, EMPTY, ops).entries) <= cfg.maxSizeBytes
  {
    if ops != [] {
      var n := |ops| - 1;
      DriftOnlyGrows(cfg, ApplyAll(cfg, EMPTY, ops[..n]), ops[n]);
      DriftlessRunsRespectLimit(cfg, ops[..n]);
      LedgerLaw(cfg, ops[..n]);
      assert ops[n] in ops;
      DriftlessStep(cfg, ApplyAll(cfg, EMPTY, ops[..n]), ops[n]);
    }
  }

  lemma DriftlessStep(cfg: Config, before: Cache, op: Op)
    requires cfg.maxSizeBytes > 0 && (op.InsertOp? ==> op.adapter.size + cfg.maxSizeBytes < W)
    requires Ledger(before) && before.doubled == 0 && before.dropped == 0 && Resident(before.entries) <= cfg.maxSizeBytes
    ensures Resident(Apply(cfg, before, op).entries) <= cfg.maxSizeBytes
  {
    if op.InsertOp? {
      InsertWithinLimit(cfg, before, op.path, op.adapter);
    } else {
      OtherOpsShrink(cfg, before, op);
    }
  }

  lemma TwoResident(x: Entry, y: Entry)
    ensures Resident([x]) == x.adapter.size && Resident([x, y]) == x.adapter.size + y.adapter.size
  {
    assert [x, y][1..] == [y] && [y][1..] == [] && [x][1..] == [];
    assert Resident([y]) == y.adapter.size;
  }

  /** Storing into a cache with room and without the path. */
  lemma StoreNew(c: Cache, path: string, adapter: Adapter)
    requires adapter.size < W && !Has(c.entries, path) && |c.entries| < 100
    ensures Store(Config(100, 0), c, path, adapter) ==
            c.(entries := c.entries + [Entry(path, adapter)], counter := Add64(c.counter, adapter.size))
  {
    UpdateSizeMoves(c.counter, adapter.size);
  }

  lemma FirstInsert(p: string, a: Adapter)
    requires a.size <= 100
    ensures Insert(Config(100, 0), EMPTY, p, a).0 == Cache([Entry(p, a)], a.size, 0, 0)
  {
    StoreNew(EMPTY, p, a);
    assert [] + [Entry(p, a)] == [Entry(p, a)];
  }

  /** The evicted size is subtracted twice. */
  lemma EvictOnly(x: Entry, needed: nat)
    requires x.adapter.size <= 100 && needed <= 100 < x.adapter.size + needed
    ensures EvictForSize(Config(100, 0), Cache([x], x.adapter.size, 0, 0), needed) ==
            (Cache([], Sub64(0, x.adapter.size), x.adapter.size, 0), true)
  {
    var size, goal := x.adapter.size, x.adapter.size + needed;
    assert [x][1..] == [];
    assert EvictLoop(Evicted([], 0, size, size, false), goal, 100) == Evicted([], 0, size, size, true);
    assert EvictLoop(Evicted([x], size, 0, 0, false), goal, 100) == Evicted([], 0, size, size, true);
    UpdateSizeMoves(0, size);
  }

  /** The first eviction leaves the counter at the difference of the sizes, wrapped. */
  lemma SecondInsert(p: string, a: Adapter, q: string, b: Adapter)
    requires a.size <= 100 && b.size <= 100 < a.size + b.size
    ensures Insert(Config(100, 0), Cache([Entry(p, a)], a.size, 0, 0), q, b).0 ==
            Cache([Entry(q, b)], (b.size - a.size) % W, a.size, 0)
  {
    EvictOnly(Entry(p, a), b.size);
    StoreNew(Cache([], Sub64(0, a.size), a.size, 0), q, b);
    assert [] + [Entry(q, b)] == [Entry(q, b)];
    ModShift(0 - a.size, b.size);
  }

  lemma ThirdInsert(q: string, b: Adapter, counter: nat, doubled: nat, r: string, d: Adapter)
    requires d.size < W && Add64(counter, d.size) <= 100 && q != r
    ensures Insert(Config(100, 0), Cache([Entry(q, b)], counter, doubled, 0), r, d).0 ==
            Cache([Entry(q, b), Entry(r, d)], Add64(counter, d.size), doubled, 0)
  {
    StoreNew(Cache([Entry(q, b)], counter, doubled, 0), r, d);
    assert [Entry(q, b)] + [Entry(r, d)] == [Entry(q, b), Entry(r, d)];
  }

  /** Three insertions of at most 100 bytes each under a limit of 100, the second evicting the first. */
  function Third(p: string, a: Adapter, q: string, b: Adapter, r: string, d: Adapter): Cache {
    var cfg := Config(100, 0);
    Insert(cfg, Insert(cfg, Insert(cfg, EMPTY, p, a).0, q, b).0, r, d).0
  }

  /** Sizes 60, 60, 100: the counter falls to zero, and the third insertion finds room that is not there. */
  lemma DriftOverrunsLimit(p: string, q: string, r: string, a: Adapter, b: Adapter, d: Adapter)
    requires p != q && q != r && a.size == 60 && b.size == 60 && d.size == 100
    ensures Resident(Third(p, a, q, b, r, d).entries) == 160 && Third(p, a, q, b, r, d).counter == 100
  {
    FirstInsert(p, a);
    SecondInsert(p, a, q, b);
    ThirdInsert(q, b, 0, 60, r, d);
    TwoResident(Entry(q, b), Entry(r, d));
  }

  /** Sizes 60, 50, 60: the counter wraps below zero, and the third insertion wraps it back to within the limit. */
  lemma WrapOverrunsLimit(p: string, q: string, r: string, a: Adapter, b: Adapter, d: Adapter)
    requires p != q && q != r && a.size == 60 && b.size == 50 && d.size == 60
    ensures var second := Insert(Config(100, 0), Insert(Config(100, 0), EMPTY, p, a).0, q, b).0;
            second.counter == W - 10 && Resident(second.entries) == 50
    ensures Resident(Third(p, a, q, b, r, d).entries) == 110 && Third(p, a, q, b, r, d).counter == 50
  {
    FirstInsert(p, a);
    SecondInsert(p, a, q, b);
    ThirdInsert(q, b, W - 10, 60, r, d);
    TwoResident(Entry(q, b), Entry(r, d));
  }
}
