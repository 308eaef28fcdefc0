/**
 The LRU adapter cache and its byte counter.

 The counter is the atomic u64 of the metrics: additions and subtractions wrap modulo 2^64, as in the
 release profile.  `doubled` and `dropped` are a ledger kept beside the state: the bytes whose eviction
 was subtracted twice, and the bytes cleared without being subtracted.
 */
module CacheModel {
  import opened Wrappers
  import opened Adapters

  const W: nat := 0x1_0000_0000_0000_0000

  datatype Entry = Entry(path: string, adapter: Adapter)

  datatype Config = Config(maxSizeBytes: nat, maxCount: nat) {
    function Capacity(): nat { if maxCount > 0 then maxCount else 100 }

    predicate Valid() { maxSizeBytes < W }
  }

  /** `entries` runs from least to most recently used. */
  datatype Cache = Cache(entries: seq<Entry>, counter: nat, doubled: nat, dropped: nat)

  const EMPTY := Cache([], 0, 0, 0)

  // ---------- the counter ----------

  function Add64(a: nat, b: nat): nat { (a + b) % W }

  function Sub64(a: nat, b: nat): nat { (a - b) % W }

  function AsI64(u: nat): int { if u % W < W / 2 then u % W else u % W - W }

  function AsU64(i: int): nat { i % W }

  /** Negation of an i64, which wraps on the least value. */
  function Neg64(i: int): int { if i == -(W / 2) then i else -i }

  function RecordEviction(counter: nat, size: nat): nat { Sub64(counter, size) }

  function UpdateSize(counter: nat, delta: int): nat {
    if delta >= 0 then Add64(counter, AsU64(delta)) else Sub64(counter, AsU64(Neg64(delta)))
  }

  lemma ModEqual(x: int, y: int, k: int)
    requires x == y + k * W
    ensures x % W == y % W
  {
  }

  /** The casts of a u64: its own value below 2^63, its complement's negation from there on. */
  lemma Casts(size: nat)
    requires size < W
    ensures AsI64(size) == if size < W / 2 then size else size - W
    ensures size < W / 2 ==> AsU64(size) == size
    ensures size > W / 2 ==> AsU64(W - size) == W - size
    ensures AsU64(Neg64(0 - W / 2)) == W / 2
  {
  }

  /** Whatever the sign the cast produces, the counter moves by the size modulo 2^64. */
  lemma UpdateSizeMoves(counter: nat, size: nat)
    requires size < W
    ensures UpdateSize(counter, AsI64(size)) == Add64(counter, size)
    ensures UpdateSize(counter, Neg64(AsI64(size))) == Sub64(counter, size)
  {
    Casts(size);
    ModEqual(counter - (W - size), counter + size, -1);
    ModEqual(counter + (W - size), counter - size, 1);
  }

  // ---------- the list ----------

  function Resident(entries: seq<Entry>): nat {
    if entries == [] then 0 else entries[0].adapter.size + Resident(entries[1..])
  }

  function MoeResident(entries: seq<Entry>): nat {
    if entries == [] then 0
    else (if entries[0].adapter.moe then entries[0].adapter.size else 0) + MoeResident(entries[1..])
  }

  predicate Has(entries: seq<Entry>, path: string) {
    exists i :: 0 <= i < |entries| && entries[i].path == path
  }

  predicate Distinct(entries: seq<Entry>) {
    forall i, j :: 0 <= i < j < |entries| ==> entries[i].path != entries[j].path
  }

  function IndexOf(entries: seq<Entry>, path: string): (i: nat)
    requires Has(entries, path)
    ensures i < |entries| && entries[i].path == path
  {
    if entries[0].path == path then 0 else 1 + IndexOf(entries[1..], path)
  }

  function Cut(entries: seq<Entry>, i: nat): seq<Entry>
    requires i < |entries|
  {
    entries[..i] + entries[i + 1..]
  }

  /** Moves the entry to the most recently used end. */
  function Touch(entries: seq<Entry>, path: string): seq<Entry> {
    if Has(entries, path) then
      var i := IndexOf(entries, path);
      Cut(entries, i) + [entries[i]]
    else entries
  }

  datatype Pushed = Pushed(entries: seq<Entry>, out: Option<Adapter>)

  /** LruCache::push: replaces an entry with the same path, else displaces the oldest when full. */
  function Push(entries: seq<Entry>, capacity: nat, path: string, adapter: Adapter): Pushed {
    var e := Entry(path, adapter);
    if Has(entries, path) then
      var i := IndexOf(entries, path);
      Pushed(Cut(entries, i) + [e], Some(entries[i].adapter))
    else if entries != [] && |entries| >= capacity then Pushed(entries[1..] + [e], Some(entries[0].adapter))
    else Pushed(entries + [e], None)
  }

  function WithoutMoe(entries: seq<Entry>): seq<Entry> {
    if entries == [] then []
    else (if entries[0].adapter.moe then [] else [entries[0]]) + WithoutMoe(entries[1..])
  }

  // ---------- the operations, on values ----------

  /** `freed` is the u64 sum the code keeps; `gone` is the same sum without wrap-around. */
  datatype Evicted = Evicted(entries: seq<Entry>, counter: nat, freed: nat, gone: nat, ok: bool)

  /** The loop of evict_for_size: `goal` is current + needed as computed on entry. */
  function EvictLoop(e: Evicted, goal: nat, max: nat): Evicted
    decreases |e.entries|
  {
    if Sub64(goal, e.freed) <= max then e.(ok := true)
    else if e.entries == [] then e.(ok := false)
    else
      var size := e.entries[0].adapter.size;
      EvictLoop(Evicted(e.entries[1..], RecordEviction(e.counter, size), Add64(e.freed, size), e.gone + size, false), goal, max)
  }

  function EvictForSize(cfg: Config, c: Cache, needed: nat): (Cache, bool) {
    if Add64(c.counter, needed) <= cfg.maxSizeBytes then (c, true)
    else
      var e := EvictLoop(Evicted(c.entries, c.counter, 0, 0, false), Add64(c.counter, needed), cfg.maxSizeBytes);
      if e.ok then
        (Cache(e.entries, UpdateSize(e.counter, Neg64(AsI64(e.freed))), c.doubled + e.gone, c.dropped), true)
      else (Cache(e.entries, e.counter, c.doubled, c.dropped), false)
  }

  /** The second half of insert: push, settle what was pushed out, add the new size. */
  function Store(cfg: Config, c: Cache, path: string, adapter: Adapter): Cache {
    var pushed := Push(c.entries, cfg.Capacity(), path, adapter);
    var counter := if pushed.out.Some? then RecordEviction(c.counter, pushed.out.value.size) else c.counter;
    c.(entries := pushed.entries, counter := UpdateSize(counter, AsI64(adapter.size)))
  }

  function Insert(cfg: Config, c: Cache, path: string, adapter: Adapter): (Cache, bool) {
    var (made, ok) := if cfg.maxSizeBytes > 0 then EvictForSize(cfg, c, adapter.size) else (c, true);
    if ok then (Store(cfg, made, path, adapter), true) else (made, false)
  }

  function Get(c: Cache, path: string): Cache { c.(entries := Touch(c.entries, path)) }

  function Lookup(c: Cache, path: string): Option<Adapter> {
    if Has(c.entries, path) then Some(c.entries[IndexOf(c.entries, path)].adapter) else None
  }

  function Remove(c: Cache, path: string): Cache {
    if Has(c.entries, path) then
      var i := IndexOf(c.entries, path);
      c.(entries := Cut(c.entries, i), counter := UpdateSize(c.counter, Neg64(AsI64(c.entries[i].adapter.size))))
    else c
  }

  function Clear(c: Cache): Cache {
    c.(entries := [], dropped := c.dropped + Resident(c.entries))
  }

  /**
   Dropping the MoE adapters at positions `j` and up, the most recently used: each subtracted by its
   eviction, and their sum once more.
   */
  function EvictMoeFrom(c: Cache, j: nat): Cache
    requires j <= |c.entries|
  {
    var moe := MoeResident(c.entries[j..]);
    c.(entries := c.entries[..j] + WithoutMoe(c.entries[j..]), counter := Sub64(Sub64(c.counter, moe), moe), doubled := c.doubled + moe)
  }

  /** Dropping every MoE adapter. */
  function EvictMoe(c: Cache): Cache {
    var moe := MoeResident(c.entries);
    c.(entries := WithoutMoe(c.entries), counter := Sub64(Sub64(c.counter, moe), moe), doubled := c.doubled + moe)
  }

  lemma EvictMoeIsFromStart(c: Cache)
    ensures EvictMoeFrom(c, 0) == EvictMoe(c)
  {
    assert c.entries[0..] == c.entries && c.entries[..0] == [];
  }

  /** Where popping from the most recently used end stops: what was freed, as a u64, suffices, or nothing is left. */
  function StopAt(entries: seq<Entry>, j: nat, needed: nat): (k: nat)
    requires j <= |entries|
    ensures k <= j
  {
    if j == 0 || MoeResident(entries[j..]) % W >= needed then j else StopAt(entries, j - 1, needed)
  }

  datatype Outcome = Freed(bytes: nat) | NoRoom

  function EvictMoeForSize(c: Cache, needed: nat): (Cache, Outcome) {
    if needed <= MoeResident(c.entries) % W then (c, Freed(0))
    else
      var j := StopAt(c.entries, |c.entries|, needed);
      var freed := MoeResident(c.entries[j..]) % W;
      (EvictMoeFrom(c, j), if freed < needed then NoRoom else Freed(freed))
  }
}
