/** The cache object: the same operations in place, each tied to its value-level specification. */
module LruAdapterCache {
  import opened Wrappers
  import opened Adapters
  import opened CacheModel
  import opened CacheLedger
  import opened LruOrder

  lemma {:induction false} IndexIsFirst(entries: seq<Entry>, path: string, j: nat)
    requires j < |entries| && entries[j].path == path && forall i :: 0 <= i < j ==> entries[i].path != path
    ensures Has(entries, path) && IndexOf(entries, path) == j
  {
    if j > 0 { IndexIsFirst(entries[1..], path, j - 1); }
  }

  lemma PushKeepsDistinct(entries: seq<Entry>, capacity: nat, path: string, adapter: Adapter)
    requires Distinct(entries)
    ensures Distinct(Push(entries, capacity, path, adapter).entries)
  {
    if Has(entries, path) {
      var at := IndexOf(entries, path);
      assert forall i :: 0 <= i < |entries| && i != at ==> entries[i].path != path;
    }
  }

  lemma {:induction false} WithoutMoeKeepsDistinct(entries: seq<Entry>)
    requires Distinct(entries)
    ensures Distinct(WithoutMoe(entries))
  {
    if entries != [] {
      var rest := WithoutMoe(entries[1..]);
      WithoutMoeKeepsDistinct(entries[1..]);
      forall j | 0 <= j < |rest| ensures rest[j].path != entries[0].path {
        WithoutMoeAre(entries[1..], rest[j]);
        var k :| 0 <= k < |entries[1..]| && entries[1..][k] == rest[j];
        assert entries[k + 1] == rest[j];
      }
    }
  }

  /** Popping the MoE entry at `j`, with those after it already gone. */
  lemma PopMoe(all: seq<Entry>, j: nat)
    requires Distinct(all) && j < |all|
    ensures var entries := all[..j + 1] + WithoutMoe(all[j + 1..]);
            && Has(entries, all[j].path) && IndexOf(entries, all[j].path) == j
            && (all[j].adapter.moe ==> Cut(entries, j) == all[..j] + WithoutMoe(all[j..]))
            && (!all[j].adapter.moe ==> entries == all[..j] + WithoutMoe(all[j..]))
            && MoeResident(all[j..]) == (if all[j].adapter.moe then all[j].adapter.size else 0) + MoeResident(all[j + 1..])
  {
    var rest := WithoutMoe(all[j + 1..]);
    var entries := all[..j + 1] + rest;
    assert all[j..][1..] == all[j + 1..] && all[j..][0] == all[j];
    assert entries[j] == all[j];
    IndexIsFirst(entries, all[j].path, j);
    assert all[..j + 1] == all[..j] + [all[j]];
    assert entries[..j] == all[..j] && entries[j + 1..] == rest;
  }

  /** The state of the MoE loops with positions `j` and up of `all` visited: their MoE entries popped and subtracted once. */
  ghost predicate Popped(all: seq<Entry>, j: nat, start: nat, entries: seq<Entry>, counter: nat, freed: nat) {
    j <= |all| && Left(all, j, entries) && Counted(all, j, start, counter, freed)
  }

  predicate Left(all: seq<Entry>, j: nat, entries: seq<Entry>)
    requires j <= |all|
  {
    entries == all[..j] + WithoutMoe(all[j..])
  }

  predicate Counted(all: seq<Entry>, j: nat, start: nat, counter: nat, freed: nat)
    requires j <= |all|
  {
    Subtracted(start, MoeResident(all[j..]), counter, freed)
  }

  /** `moe` bytes taken from `start` and added up, both modulo 2^64. */
  predicate Subtracted(start: nat, moe: nat, counter: nat, freed: nat) {
    counter == (start - moe) % W && freed == moe % W
  }

  lemma PoppedNone(all: seq<Entry>, start: nat)
    requires start < W
    ensures Popped(all, |all|, start, all, start, 0)
  {
    assert all[..|all|] == all && all[|all|..] == [];
  }

  /** Subtracting and adding one more size, through the wrap-around. */
  lemma WrapOne(start: nat, rest: nat, size: nat, counter: nat, freed: nat)
    requires Subtracted(start, rest, counter, freed)
    ensures Subtracted(start, size + rest, RecordEviction(counter, size), Add64(freed, size))
  {
    ModShift(rest, size);
    ModBack(start - rest, size);
    assert start - rest - size == start - (size + rest);
  }

  /** What is popped, and what is left, at position `j`. */
  lemma LeftStep(all: seq<Entry>, j: nat, entries: seq<Entry>)
    requires Distinct(all) && j < |all| && Left(all, j + 1, entries)
    ensures Has(entries, all[j].path)
    ensures Left(all, j, if all[j].adapter.moe then Cut(entries, IndexOf(entries, all[j].path)) else entries)
  {
    PopMoe(all, j);
  }

  lemma MoeStep(all: seq<Entry>, j: nat)
    requires j < |all|
    ensures MoeResident(all[j..]) == (if all[j].adapter.moe then all[j].adapter.size else 0) + MoeResident(all[j + 1..])
  {
    assert all[j..][1..] == all[j + 1..] && all[j..][0] == all[j];
  }

  lemma CountedStep(all: seq<Entry>, j: nat, start: nat, counter: nat, freed: nat)
    requires j < |all| && Counted(all, j + 1, start, counter, freed)
    ensures if all[j].adapter.moe then
              Counted(all, j, start, RecordEviction(counter, all[j].adapter.size), Add64(freed, all[j].adapter.size))
            else Counted(all, j, start, counter, freed)
  {
    MoeStep(all, j);
    WrapOne(start, MoeResident(all[j + 1..]), all[j].adapter.size, counter, freed);
  }

  /** Subtracting the sum of what was popped again gives what `EvictMoeFrom` says. */
  lemma PoppedFrom(c: Cache, j: nat, entries: seq<Entry>, counter: nat, freed: nat)
    requires Popped(c.entries, j, c.counter, entries, counter, freed)
    ensures entries == EvictMoeFrom(c, j).entries && freed == MoeResident(c.entries[j..]) % W
    ensures UpdateSize(counter, Neg64(AsI64(freed))) == EvictMoeFrom(c, j).counter
  {
    var moe := MoeResident(c.entries[j..]);
    SecondSubtraction(c.counter, counter, moe, freed);
    ModBack(c.counter - moe, moe);
  }

  lemma DistinctConcat(a: seq<Entry>, b: seq<Entry>)
    requires Distinct(a) && Distinct(b)
    requires forall i, k :: 0 <= i < |a| && 0 <= k < |b| ==> a[i].path != b[k].path
    ensures Distinct(a + b)
  {
  }

  lemma LeftKeepsDistinct(all: seq<Entry>, j: nat)
    requires Distinct(all) && j <= |all|
    ensures Distinct(all[..j] + WithoutMoe(all[j..]))
  {
    var kept := WithoutMoe(all[j..]);
    WithoutMoeKeepsDistinct(all[j..]);
    forall i, k | 0 <= i < j && 0 <= k < |kept| ensures all[i].path != kept[k].path {
      WithoutMoeAre(all[j..], kept[k]);
      var m :| 0 <= m < |all[j..]| && all[j..][m] == kept[k];
      assert all[j + m] == kept[k];
    }
    DistinctConcat(all[..j], kept);
  }
  /**
   As long as the MoE adapters together hold fewer than 2^64 bytes, evicting for a size does nothing and
   reports 0 bytes freed, or removes every MoE adapter and no other and fails.
   */
  lemma EvictMoeForSizeIsAllOrNothing(c: Cache, needed: nat)
    requires MoeResident(c.entries) < W
    ensures EvictMoeForSize(c, needed) ==
            if needed <= MoeResident(c.entries) then (c, Freed(0)) else (EvictMoe(c), NoRoom)
  {
    if needed > MoeResident(c.entries) {
      NeverStops(c.entries, |c.entries|, needed);
      EvictMoeIsFromStart(c);
    }
  }

  lemma {:induction false} NeverStops(entries: seq<Entry>, j: nat, needed: nat)
    requires j <= |entries| && MoeResident(entries) < needed && MoeResident(entries) < W
    ensures StopAt(entries, j, needed) == 0
    decreases j
  {
    MoeSuffix(entries, j);
    if j > 0 { NeverStops(entries, j - 1, needed); }
  }

  /** With more than that the sum wraps: here only the more recently used of two is evicted, and the call succeeds. */
  lemma WrappedMoeEvictsSome(p: string, a: Adapter, q: string, b: Adapter, counter: nat)
    requires a.moe && b.moe && a.size == W / 2 && b.size == W / 2
    ensures var (after, outcome) := EvictMoeForSize(Cache([Entry(p, a), Entry(q, b)], counter, 0, 0), W / 2);
            after.entries == [Entry(p, a)] && outcome == Freed(W / 2)
  {
    var x, y := Entry(p, a), Entry(q, b);
    var entries := [x, y];
    assert entries[2..] == [] && entries[1..] == [y] && [y][1..] == [];
    assert MoeResident([y]) == W / 2 && MoeResident(entries) == W;
    assert StopAt(entries, 1, W / 2) == 1;
    assert entries[..1] == [x] && WithoutMoe([y]) == [];
  }

  class AdapterCache {
    const cfg: Config
    var entries: seq<Entry>
    var counter: nat
    ghost var doubled: nat
    ghost var dropped: nat

    ghost function View(): Cache
      reads this
    {
      Cache(entries, counter, doubled, dropped)
    }

    /** Paths are keys, sizes and the counter are u64. */
    ghost predicate Valid()
      reads this
    {
      Distinct(entries) && U64Sizes(entries) && counter < W
    }

    constructor (cfg: Config)
      ensures Valid() && this.cfg == cfg && View() == EMPTY
    {
      this.cfg := cfg;
      entries, counter, doubled, dropped := [], 0, 0, 0;
    }

    method Get(path: string) returns (r: Option<Adapter>)
      requires Valid()
      modifies this`entries
      ensures Valid() && r == Lookup(old(View()), path)
      ensures View() == CacheModel.Get(old(View()), path)
    {
      if Has(entries, path) {
        var i := IndexOf(entries, path);
        r := Some(entries[i].adapter);
        entries := Cut(entries, i) + [entries[i]];
      } else {
        r := None;
      }
    }

    /** Pops from the least recently used end until the new size fits. */
    method EvictForSize(needed: nat) returns (ok: bool)
      requires Valid() && needed < W
      modifies this
      ensures Valid() && (View(), ok) == CacheModel.EvictForSize(cfg, old(View()), needed)
    {
      var current := counter;
      if Add64(current, needed) <= cfg.maxSizeBytes {
        return true;
      }
      var goal, freed := Add64(current, needed), 0;
      ghost var gone := 0;
      ghost var start := Evicted(entries, counter, 0, 0, false);
      while Sub64(goal, freed) > cfg.maxSizeBytes
        invariant Valid() && doubled == old(doubled) && dropped == old(dropped)
        invariant EvictLoop(Evicted(entries, counter, freed, gone, false), goal, cfg.maxSizeBytes) ==
                  EvictLoop(start, goal, cfg.maxSizeBytes)
        decreases |entries|
      {
        if entries == [] {
          return false;
        }
        var size := entries[0].adapter.size;
        entries := entries[1..];
        freed := Add64(freed, size);
        counter := RecordEviction(counter, size);
        gone := gone + size;
      }
      counter := UpdateSize(counter, Neg64(AsI64(freed)));
      doubled := doubled + gone;
      ok := true;
    }

    method Insert(path: string, adapter: Adapter) returns (ok: bool)
      requires Valid() && adapter.size < W
      modifies this
      ensures Valid() && (View(), ok) == CacheModel.Insert(cfg, old(View()), path, adapter)
    {
      if cfg.maxSizeBytes > 0 {
        ok := EvictForSize(adapter.size);
        if !ok { return; }
      }
      var pushed := Push(entries, cfg.Capacity(), path, adapter);
      PushKeepsDistinct(entries, cfg.Capacity(), path, adapter);
      PushEffect(entries, cfg.Capacity(), path, adapter);
      entries := pushed.entries;
      if pushed.out.Some? {
        counter := RecordEviction(counter, pushed.out.value.size);
      }
      counter := UpdateSize(counter, AsI64(adapter.size));
      ok := true;
    }

    method Remove(path: string) returns (r: Option<Adapter>)
      requires Valid()
      modifies this
      ensures Valid() && r == Lookup(old(View()), path)
      ensures View() == CacheModel.Remove(old(View()), path)
    {
      if Has(entries, path) {
        var i := IndexOf(entries, path);
        r := Some(entries[i].adapter);
        counter := UpdateSize(counter, Neg64(AsI64(entries[i].adapter.size)));
        entries := Cut(entries, i);
      } else {
        r := None;
      }
    }

    /** Empties the list; the counter keeps its value. */
    method Clear()
      requires Valid()
      modifies this
      ensures Valid() && View() == CacheModel.Clear(old(View()))
    {
      dropped := dropped + Resident(entries);
      entries := [];
    }

    /** One turn of the MoE loops: an MoE adapter at `j` is popped and subtracted. */
    method PopAt(all: seq<Entry>, j: nat, ghost start: nat, before: nat) returns (freed: nat)
      requires Distinct(all) && j < |all| && Popped(all, j + 1, start, entries, counter, before)
      modifies this`entries, this`counter
      ensures Popped(all, j, start, entries, counter, freed)
    {
      freed := before;
      LeftStep(all, j, entries);
      CountedStep(all, j, start, counter, freed);
      if all[j].adapter.moe {
        entries := Cut(entries, IndexOf(entries, all[j].path));
        freed := Add64(freed, all[j].adapter.size);
        counter := RecordEviction(counter, all[j].adapter.size);
      }
    }

    /** After the MoE loops: what was freed is subtracted once more. */
    method Settle(ghost was: Cache, ghost j: nat, freed: nat)
      requires Distinct(was.entries) && U64Sizes(was.entries) && doubled == was.doubled && dropped == was.dropped
      requires Popped(was.entries, j, was.counter, entries, counter, freed)
      modifies this`counter, this`doubled
      ensures Valid() && View() == EvictMoeFrom(was, j)
      ensures freed == MoeResident(was.entries[j..]) % W
    {
      PoppedFrom(was, j, entries, counter, freed);
      LeftKeepsDistinct(was.entries, j);
      WithoutMoeSizes(was.entries[j..]);
      counter := UpdateSize(counter, Neg64(AsI64(freed)));
      doubled := doubled + MoeResident(was.entries[j..]);
    }

    /** Pops every MoE adapter, most recently used first. */
    method EvictAllMoeAdapters() returns (freed: nat)
      requires Valid()
      modifies this
      ensures Valid() && View() == EvictMoe(old(View()))
      ensures freed == MoeResident(old(entries)) % W
    {
      freed := 0;
      var all, j := entries, |entries|;
      ghost var start := counter;
      PoppedNone(all, start);
      while j > 0
        invariant 0 <= j && all == old(entries) && Popped(all, j, start, entries, counter, freed)
        invariant doubled == old(doubled) && dropped == old(dropped)
      {
        j := j - 1;
        freed := PopAt(all, j, start, freed);
      }
      Settle(old(View()), 0, freed);
      EvictMoeIsFromStart(old(View()));
      assert all[0..] == all;
    }

    method MoeSizeBytes() returns (size: nat)
      requires Valid()
      ensures size == MoeResident(entries) % W
    {
      size := 0;
      var j := |entries|;
      while j > 0
        invariant 0 <= j <= |entries|
        invariant size == MoeResident(entries[j..]) % W
      {
        j := j - 1;
        assert entries[j..][1..] == entries[j + 1..];
        if entries[j].adapter.moe {
          ModShift(MoeResident(entries[j + 1..]), entries[j].adapter.size);
          size := Add64(size, entries[j].adapter.size);
        }
      }
      assert entries[0..] == entries;
    }

    /** The loop of evict_moe_for_size. */
    method PopMoeUntil(needed: nat) returns (j: nat, freed: nat)
      requires Valid()
      modifies this`entries, this`counter
      ensures j == StopAt(old(entries), |old(entries)|, needed) && Popped(old(entries), j, old(counter), entries, counter, freed)
    {
      var all := entries;
      j, freed := |entries|, 0;
      ghost var start := counter;
      PoppedNone(all, start);
      while j > 0 && freed < needed
        invariant j <= |all| && Popped(all, j, start, entries, counter, freed)
        invariant StopAt(all, |all|, needed) == StopAt(all, j, needed)
      {
        j := j - 1;
        freed := PopAt(all, j, start, freed);
      }
    }

    /** Pops MoE adapters, most recently used first, until what was freed suffices or none is left. */
    method EvictMoeForSize(needed: nat) returns (r: Outcome)
      requires Valid()
      modifies this
      ensures Valid() && (View(), r) == CacheModel.EvictMoeForSize(old(View()), needed)
    {
      var moeSize := MoeSizeBytes();
      if needed <= moeSize {
        return Freed(0);
      }
      var j, freed := PopMoeUntil(needed);
      Settle(old(View()), j, freed);
      r := if freed < needed then NoRoom else Freed(freed);
    }
  }

  lemma {:induction false} MoeSuffix(entries: seq<Entry>, j: nat)
    requires j <= |entries|
    ensures MoeResident(entries[j..]) <= MoeResident(entries)
  {
    if j > 0 {
      MoeSuffix(entries[1..], j - 1);
      assert entries[1..][j - 1..] == entries[j..];
    } else {
      assert entries[0..] == entries;
    }
  }
}
