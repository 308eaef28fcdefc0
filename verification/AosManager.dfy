/**
 The manager's cached loads.  Files do not change, so the loader is a function of the path; loading
 through the cache must be indistinguishable from loading directly.
 */
module AosManager {
  import opened Wrappers
  import opened Adapters
  import opened CacheModel
  import opened CacheLedger
  import opened LruAdapterCache
  import opened LruOrder

  datatype Loaded = Good(adapter: Adapter) | LoadError(message: string) | CannotMakeRoom

  type Loader = string -> Loaded

  /** The uncached loader either yields an adapter with a u64 size or an error of its own. */
  ghost predicate LoaderOk(loader: Loader) {
    forall path :: !loader(path).CannotMakeRoom? && (loader(path).Good? ==> loader(path).adapter.size < W)
  }

  /** Everything cached is what the loader would return. */
  predicate Faithful(loader: Loader, entries: seq<Entry>) {
    forall i :: 0 <= i < |entries| ==> loader(entries[i].path) == Good(entries[i].adapter)
  }

  function LoadUncached(loader: Loader, path: string): Loaded { loader(path) }

  /** load: look up, else load and insert. */
  function Load(cfg: Config, loader: Loader, cache: Option<Cache>, path: string): (Option<Cache>, Loaded) {
    match cache
    case None => (None, loader(path))
    case Some(c) =>
      match Lookup(c, path)
      case Some(adapter) => (Some(Get(c, path)), Good(adapter))
      case None =>
        var touched := Get(c, path);
        match loader(path)
        case Good(adapter) =>
          var (stored, ok) := Insert(cfg, touched, path, adapter);
          (Some(stored), if ok then Good(adapter) else CannotMakeRoom)
        case failed => (Some(touched), failed)
  }

  datatype Call = LoadCall(path: string) | Evict(path: string) | ClearCache | EvictMoeAdapters

  function Perform(cfg: Config, loader: Loader, cache: Option<Cache>, call: Call): Option<Cache> {
    match call
    case LoadCall(path) => Load(cfg, loader, cache, path).0
    case Evict(path) => if cache.Some? then Some(Remove(cache.value, path)) else None
    case ClearCache => if cache.Some? then Some(Clear(cache.value)) else None
    case EvictMoeAdapters => if cache.Some? then Some(EvictMoe(cache.value)) else None
  }

  function PerformAll(cfg: Config, loader: Loader, cache: Option<Cache>, calls: seq<Call>): Option<Cache> {
    if calls == [] then cache
    else Perform(cfg, loader, PerformAll(cfg, loader, cache, calls[..|calls| - 1]), calls[|calls| - 1])
  }

  // ---------- faithfulness ----------

  lemma {:induction false} EvictLoopFaithful(loader: Loader, e: Evicted, goal: nat, max: nat)
    requires Faithful(loader, e.entries)
    ensures Faithful(loader, EvictLoop(e, goal, max).entries)
    decreases |e.entries|
  {
    if Sub64(goal, e.freed) > max && e.entries != [] {
      var size := e.entries[0].adapter.size;
      EvictLoopFaithful(loader, Evicted(e.entries[1..], RecordEviction(e.counter, size), Add64(e.freed, size), e.gone + size, false), goal, max);
    }
  }

  lemma InsertFaithful(cfg: Config, loader: Loader, c: Cache, path: string, adapter: Adapter)
    requires Faithful(loader, c.entries) && loader(path) == Good(adapter)
    ensures Faithful(loader, Insert(cfg, c, path, adapter).0.entries)
  {
    EvictLoopFaithful(loader, Evicted(c.entries, c.counter, 0, 0, false), Add64(c.counter, adapter.size), cfg.maxSizeBytes);
    var (made, ok) := if cfg.maxSizeBytes > 0 then EvictForSize(cfg, c, adapter.size) else (c, true);
    assert Faithful(loader, made.entries);
  }

  lemma WithoutMoeFaithful(loader: Loader, entries: seq<Entry>)
    requires Faithful(loader, entries)
    ensures Faithful(loader, WithoutMoe(entries))
  {
    forall i | 0 <= i < |WithoutMoe(entries)|
      ensures loader(WithoutMoe(entries)[i].path) == Good(WithoutMoe(entries)[i].adapter)
    {
      WithoutMoeAre(entries, WithoutMoe(entries)[i]);
    }
  }

  lemma PerformFaithful(cfg: Config, loader: Loader, cache: Option<Cache>, call: Call)
    requires cache.Some? ==> Faithful(loader, cache.value.entries)
    ensures var after := Perform(cfg, loader, cache, call);
            after.Some? == cache.Some? && (after.Some? ==> Faithful(loader, after.value.entries))
  {
    if cache.Some? {
      match call
      case LoadCall(path) =>
        if Lookup(cache.value, path).None? && loader(path).Good? {
          InsertFaithful(cfg, loader, Get(cache.value, path), path, loader(path).adapter);
        }
      case Evict(path) =>
      case ClearCache =>
      case EvictMoeAdapters => WithoutMoeFaithful(loader, cache.value.entries);
    }
  }

  lemma {:induction false} RunFaithful(cfg: Config, loader: Loader, cache: Option<Cache>, calls: seq<Call>)
    requires cache.Some? ==> Faithful(loader, cache.value.entries)
    ensures var after := PerformAll(cfg, loader, cache, calls);
            after.Some? == cache.Some? && (after.Some? ==> Faithful(loader, after.value.entries))
  {
    if calls != [] {
      RunFaithful(cfg, loader, cache, calls[..|calls| - 1]);
      PerformFaithful(cfg, loader, PerformAll(cfg, loader, cache, calls[..|calls| - 1]), calls[|calls| - 1]);
    }
  }

  /**
   After any calls, a load returns what the uncached loader returns, except that it may fail to make
   room; and that happens only when the path was not cached, the loader succeeded, and the insertion failed.
   */
  lemma LoadIsTransparent(cfg: Config, loader: Loader, cached: bool, calls: seq<Call>, path: string)
    requires LoaderOk(loader)
    ensures var cache := PerformAll(cfg, loader, if cached then Some(EMPTY) else None, calls);
            var result := Load(cfg, loader, cache, path).1;
            && (result != CannotMakeRoom ==> result == LoadUncached(loader, path))
            && (result == CannotMakeRoom <==>
                  && cache.Some? && !Has(cache.value.entries, path) && loader(path).Good?
                  && !Insert(cfg, Get(cache.value, path), path, loader(path).adapter).1)
  {
    var start := if cached then Some(EMPTY) else None;
    RunFaithful(cfg, loader, start, calls);
    var cache := PerformAll(cfg, loader, start, calls);
    if cached && Has(cache.value.entries, path) {
      var i := IndexOf(cache.value.entries, path);
      assert loader(cache.value.entries[i].path) == Good(cache.value.entries[i].adapter);
    }
  }

  /**
   While the counter is accurate, room fails to be made only for an uncached adapter larger than the whole
   cache; and for every such adapter, unless its size and what is resident wrap around together.
   */
  lemma CannotMakeRoomMeansTooLarge(cfg: Config, loader: Loader, c: Cache, path: string)
    requires LoaderOk(loader) && loader(path).Good?
    requires c.counter == Resident(c.entries) && Resident(c.entries) + cfg.maxSizeBytes < W
    ensures Load(cfg, loader, Some(c), path).1 == CannotMakeRoom ==>
            !Has(c.entries, path) && 0 < cfg.maxSizeBytes < loader(path).adapter.size
    ensures !Has(c.entries, path) && 0 < cfg.maxSizeBytes < loader(path).adapter.size
            && Resident(c.entries) + loader(path).adapter.size < W ==>
            Load(cfg, loader, Some(c), path).1 == CannotMakeRoom
  {
    if Resident(c.entries) + loader(path).adapter.size < W {
      EvictionIsMinimal(cfg, c, loader(path).adapter.size);
    }
  }

  // ---------- what stays cached ----------

  /** Some run from an empty cache ends in `c`. */
  ghost predicate Reached(cfg: Config, c: Cache) {
    exists ops :: EndsIn(cfg, ops, c)
  }

  predicate EndsIn(cfg: Config, ops: seq<Op>, c: Cache) { ApplyAll(cfg, EMPTY, ops) == c }

  lemma EndsNext(cfg: Config, ops: seq<Op>, c: Cache, op: Op, c': Cache)
    requires EndsIn(cfg, ops, c) && c' == Apply(cfg, c, op)
    ensures EndsIn(cfg, ops + [op], c')
  {
    assert (ops + [op])[..|ops|] == ops && (ops + [op])[|ops|] == op;
  }

  lemma ReachedNext(cfg: Config, c: Cache, op: Op, c': Cache)
    requires Reached(cfg, c) && c' == Apply(cfg, c, op)
    ensures Reached(cfg, c')
  {
    var ops :| EndsIn(cfg, ops, c);
    EndsNext(cfg, ops, c, op, c');
  }

  lemma ReachedAtFirst(cfg: Config)
    ensures Reached(cfg, EMPTY)
  {
    assert EndsIn(cfg, [], EMPTY);
  }

  /** A load is a get, and an insertion after it when nothing was cached and the file loads. */
  lemma LoadReaches(cfg: Config, loader: Loader, c: Cache, path: string, c': Cache)
    requires Reached(cfg, c) && Load(cfg, loader, Some(c), path).0 == Some(c')
    ensures Reached(cfg, c')
  {
    var got := Get(c, path);
    ReachedNext(cfg, c, GetOp(path), got);
    if c' != got {
      ReachedNext(cfg, got, InsertOp(path, loader(path).adapter), c');
    }
  }

  lemma PerformReaches(cfg: Config, loader: Loader, c: Cache, call: Call, c': Cache)
    requires Reached(cfg, c) && Perform(cfg, loader, Some(c), call) == Some(c')
    ensures Reached(cfg, c')
  {
    match call
    case LoadCall(path) => LoadReaches(cfg, loader, c, path, c');
    case Evict(path) => ReachedNext(cfg, c, RemoveOp(path), c');
    case ClearCache => ReachedNext(cfg, c, ClearOp, c');
    case EvictMoeAdapters => ReachedNext(cfg, c, EvictMoeOp, c');
  }

  lemma PerformKeepsCache(cfg: Config, loader: Loader, cache: Option<Cache>, call: Call)
    requires cache.Some?
    ensures Perform(cfg, loader, cache, call).Some?
  {
  }

  /** Whatever the manager's calls lead to, operations of the cache lead to, so the laws of its runs hold of it. */
  lemma {:induction false} CallsReach(cfg: Config, loader: Loader, calls: seq<Call>)
    ensures var cache := PerformAll(cfg, loader, Some(EMPTY), calls); cache.Some? && Reached(cfg, cache.value)
  {
    if calls == [] {
      ReachedAtFirst(cfg);
    } else {
      var n := |calls| - 1;
      CallsReach(cfg, loader, calls[..n]);
      var before := PerformAll(cfg, loader, Some(EMPTY), calls[..n]);
      PerformKeepsCache(cfg, loader, before, calls[n]);
      PerformReaches(cfg, loader, before.value, calls[n], PerformAll(cfg, loader, Some(EMPTY), calls).value);
    }
  }

  lemma ReachedDistinct(cfg: Config, c: Cache)
    requires Reached(cfg, c)
    ensures Distinct(c.entries)
  {
    var ops :| EndsIn(cfg, ops, c);
    UseOrder(cfg, ops);
    UseOrderDistinct(ops, c.entries);
  }

  lemma GetMisses(c: Cache, path: string)
    requires Lookup(c, path) == None
    ensures Get(c, path) == c
  {
  }

  /** After any calls, an adapter loaded through the cache is cached, and the next load finds it there. */
  lemma LoadCaches(cfg: Config, loader: Loader, calls: seq<Call>, path: string)
    ensures var (cache, result) := Load(cfg, loader, PerformAll(cfg, loader, Some(EMPTY), calls), path);
            cache.Some? && (result.Good? ==> Lookup(cache.value, path) == Some(result.adapter))
  {
    CallsReach(cfg, loader, calls);
    var c := PerformAll(cfg, loader, Some(EMPTY), calls).value;
    ReachedDistinct(cfg, c);
    LoadCachesIn(cfg, loader, c, path);
  }

  lemma LoadCachesIn(cfg: Config, loader: Loader, c: Cache, path: string)
    requires Distinct(c.entries)
    ensures var (cache, result) := Load(cfg, loader, Some(c), path);
            cache.Some? && (result.Good? ==> Lookup(cache.value, path) == Some(result.adapter))
  {
    if Lookup(c, path) == None {
      GetMisses(c, path);
      if loader(path).Good? { InsertedIsFound(cfg, c, path, loader(path).adapter); }
    } else {
      TouchedIsFound(c, path);
    }
  }

  // ---------- the object ----------

  class AosManager {
    const loader: Loader
    const cache: AdapterCache?

    ghost predicate Valid()
      reads if cache == null then {} else {cache}
    {
      LoaderOk(loader) && (cache != null ==> cache.Valid() && Faithful(loader, cache.entries))
    }

    constructor (loader: Loader, cache: AdapterCache?)
      requires LoaderOk(loader) && (cache != null ==> cache.Valid() && cache.entries == [])
      ensures Valid() && this.loader == loader && this.cache == cache
    {
      this.loader, this.cache := loader, cache;
    }

    /** A successful load, and any error of the loader, is the loader's own answer. */
    method LoadAdapter(path: string) returns (r: Loaded)
      requires Valid()
      modifies if cache == null then {} else {cache}
      ensures Valid()
      ensures r != CannotMakeRoom ==> r == loader(path)
      ensures cache == null ==> r == loader(path)
      ensures cache != null ==> (Some(cache.View()), r) == Load(cache.cfg, loader, Some(old(cache.View())), path)
    {
      if cache != null {
        var hit := cache.Get(path);
        if hit.Some? {
          return Good(hit.value);
        }
      }
      var loaded := loader(path);
      if !loaded.Good? {
        return loaded;
      }
      if cache != null {
        InsertFaithful(cache.cfg, loader, cache.View(), path, loaded.adapter);
        var ok := cache.Insert(path, loaded.adapter);
        if !ok {
          return CannotMakeRoom;
        }
      }
      r := loaded;
    }

    method Evict(path: string) returns (r: Option<Adapter>)
      requires Valid()
      modifies if cache == null then {} else {cache}
      ensures Valid()
      ensures r.Some? ==> loader(path) == Good(r.value)
      ensures r == if cache == null then None else Lookup(old(cache.View()), path)
      ensures cache != null ==> Some(cache.View()) == Perform(cache.cfg, loader, Some(old(cache.View())), Call.Evict(path))
    {
      r := None;
      if cache != null {
        PerformFaithful(cache.cfg, loader, Some(cache.View()), Call.Evict(path));
        r := cache.Remove(path);
      }
    }

    method ClearCache()
      requires Valid()
      modifies if cache == null then {} else {cache}
      ensures Valid()
      ensures cache != null ==> Some(cache.View()) == Perform(cache.cfg, loader, Some(old(cache.View())), Call.ClearCache)
    {
      if cache != null {
        cache.Clear();
      }
    }

    method EvictMoeAdapters() returns (freed: nat)
      requires Valid()
      modifies if cache == null then {} else {cache}
      ensures Valid()
      ensures freed == if cache == null then 0 else MoeResident(old(cache.entries)) % W
      ensures cache != null ==> Some(cache.View()) == Perform(cache.cfg, loader, Some(old(cache.View())), Call.EvictMoeAdapters)
    {
      freed := 0;
      if cache != null {
        PerformFaithful(cache.cfg, loader, Some(cache.View()), Call.EvictMoeAdapters);
        freed := cache.EvictAllMoeAdapters();
      }
    }
  }
}
