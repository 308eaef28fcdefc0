/**
 The hot-swap manager, one call at a time: three maps changed in place by preload, swap and
 rollback.
 */
module HotSwap {
  import opened Wrappers
  import opened Adapters

  type Slot = string

  type SlotMap = map<Slot, Adapter>

  datatype Result = Ok | Err(reason: Reason)

  datatype Reason = LoaderUnavailable | LoadFailed | NotStaged(slot: Slot) | NotMoe(slot: Slot) | NoRollbackState

  /** The first position whose slot is not staged or was already taken by an earlier position. */
  function FirstMissing(slots: seq<Slot>, staged: SlotMap): (k: nat)
    ensures k <= |slots|
    ensures forall j :: 0 <= j < k ==> slots[j] in staged && slots[j] !in slots[..j]
    ensures k < |slots| ==> slots[k] !in staged || slots[k] in slots[..k]
  {
    if slots == [] then 0
    else
      var n := |slots| - 1;
      var before := FirstMissing(slots[..n], staged);
      if before < n then
        assert slots[..n][before] == slots[before] && slots[..n][..before] == slots[..before];
        before
      else if slots[n] in staged && slots[n] !in slots[..n] then
        assert forall j :: 0 <= j < n ==> slots[..n][..j] == slots[..j] && slots[..n][j] == slots[j];
        |slots|
      else
        assert forall j :: 0 <= j < n ==> slots[..n][..j] == slots[..j] && slots[..n][j] == slots[j];
        n
  }

  predicate NoRepeats(slots: seq<Slot>) {
    forall i, j :: 0 <= i < j < |slots| ==> slots[i] != slots[j]
  }

  /** A slot list can be swapped in whole exactly when it has no repeats and every slot is staged. */
  predicate Swappable(slots: seq<Slot>, staged: SlotMap) {
    NoRepeats(slots) && forall s :: s in slots ==> s in staged
  }

  lemma SwappableIsComplete(slots: seq<Slot>, staged: SlotMap)
    ensures Swappable(slots, staged) <==> FirstMissing(slots, staged) == |slots|
  {
    var k := FirstMissing(slots, staged);
    if k == |slots| {
      forall i, j | 0 <= i < j < |slots| ensures slots[i] != slots[j] {
        assert slots[..j][i] == slots[i];
      }
    }
  }

  /** Slot `k` is the first that is not staged with an MoE adapter. */
  predicate FirstUnfit(slots: seq<Slot>, staged: SlotMap, k: nat) {
    && k < |slots| && (slots[k] !in staged || !staged[slots[k]].moe)
    && forall j :: 0 <= j < k ==> slots[j] in staged && staged[slots[j]].moe
  }

  function Taken(slots: seq<Slot>): set<Slot> { set s | s in slots }

  /** The listed slots of `was` moved over: what a swap of them leaves active. */
  ghost predicate Replaced(before: SlotMap, was: SlotMap, slots: seq<Slot>, after: SlotMap) {
    && after.Keys == before.Keys + Taken(slots)
    && (forall s :: s in after ==> if s in slots then s in was && after[s] == was[s] else after[s] == before[s])
  }

  lemma ReplaceOne(before: SlotMap, was: SlotMap, slots: seq<Slot>, after: SlotMap, left: SlotMap, slot: Slot)
    requires Replaced(before, was, slots, after) && left == was - Taken(slots) && slot in left
    ensures Replaced(before, was, slots + [slot], after[slot := left[slot]])
    ensures left - {slot} == was - Taken(slots + [slot])
  {
    assert Taken(slots + [slot]) == Taken(slots) + {slot};
  }

  class HotSwapManager {
    var active: SlotMap
    var staged: SlotMap
    var saved: Option<SlotMap>
    const enabled: bool

    constructor (enabled: bool)
      ensures active == map[] && staged == map[] && saved == None && this.enabled == enabled
    {
      this.enabled := enabled;
      active, staged, saved := map[], map[], None;
    }

    /** Stages what the loader read for `slot`, replacing what was staged there. */
    method Preload(slot: Slot, loaded: Option<Adapter>) returns (r: Result)
      modifies this`staged
      ensures r.Ok? <==> enabled && loaded.Some?
      ensures r.Err? ==> r.reason == if enabled then LoadFailed else LoaderUnavailable
      ensures staged == if r.Ok? then old(staged)[slot := loaded.value] else old(staged)
    {
      if !enabled { return Err(LoaderUnavailable); }
      if loaded.None? { return Err(LoadFailed); }
      staged := staged[slot := loaded.value];
      r := Ok;
    }

    method PreloadMoe(slot: Slot, loaded: Option<Adapter>) returns (r: Result)
      modifies this`staged
      ensures r.Ok? <==> enabled && loaded.Some? && loaded.value.moe
      ensures r.Err? ==> r.reason == if !enabled then LoaderUnavailable else if loaded.None? then LoadFailed else NotMoe(slot)
      ensures staged == if r.Ok? then old(staged)[slot := loaded.value] else old(staged)
    {
      if !enabled { return Err(LoaderUnavailable); }
      if loaded.None? { return Err(LoadFailed); }
      if !loaded.value.moe { return Err(NotMoe(slot)); }
      staged := staged[slot := loaded.value];
      r := Ok;
    }

    /**
     All or nothing for the active map: it receives exactly the listed slots, or is as before the
     call.  A failed swap still consumes the staged slots before the first missing one.
     */
    method Swap(slots: seq<Slot>) returns (r: Result)
      modifies this
      ensures r.Ok? <==> Swappable(slots, old(staged))
      ensures saved == Some(old(active))
      ensures r.Ok? ==> Replaced(old(active), old(staged), slots, active) && staged == old(staged) - Taken(slots)
      ensures r.Err? ==>
                var k := FirstMissing(slots, old(staged));
                && k < |slots| && r.reason == NotStaged(slots[k])
                && active == old(active)
                && staged == old(staged) - Taken(slots[..k])
    {
      saved := Some(active);
      SwappableIsComplete(slots, staged);
      ghost var first := FirstMissing(slots, staged);
      for k := 0 to |slots|
        invariant saved == Some(old(active))
        invariant k <= first
        invariant staged == old(staged) - Taken(slots[..k])
        invariant Replaced(old(active), old(staged), slots[..k], active)
      {
        var slot := slots[k];
        assert slots[..k + 1] == slots[..k] + [slot];
        if slot in staged {
          ReplaceOne(old(active), old(staged), slots[..k], active, staged, slot);
          active := active[slot := staged[slot]];
          staged := staged - {slot};
        } else {
          assert k == first;
          var rb := RollbackInternal();
          return Err(NotStaged(slot));
        }
      }
      assert slots[..|slots|] == slots;
      r := Ok;
    }

    method RollbackInternal() returns (r: Result)
      modifies this`active
      ensures r.Ok? <==> saved.Some?
      ensures active == if saved.Some? then saved.value else old(active)
    {
      if saved.None? { return Err(NoRollbackState); }
      active := saved.value;
      r := Ok;
    }

    /** Restores the map saved by the last swap attempt; doing it twice is doing it once. */
    method Rollback() returns (r: Result)
      modifies this`active
      ensures r.Ok? <==> saved.Some?
      ensures active == if saved.Some? then saved.value else old(active)
    {
      r := RollbackInternal();
    }

    /** Swaps only when every listed slot is staged with an MoE adapter; otherwise changes nothing at all. */
    method SwapMoe(slots: seq<Slot>) returns (r: Result)
      modifies this
      ensures r.Ok? <==> Swappable(slots, old(staged)) && forall s :: s in slots ==> old(staged)[s].moe
      ensures r.Ok? ==>
                && Replaced(old(active), old(staged), slots, active) && staged == old(staged) - Taken(slots)
                && (forall s :: s in slots ==> s in active && active[s].moe)
      ensures r.Err? ==> active == old(active)
      ensures (exists s :: s in slots && (s !in old(staged) || !old(staged)[s].moe)) ==>
                r.Err? && staged == old(staged) && saved == old(saved)
      ensures forall k: nat :: FirstUnfit(slots, old(staged), k) ==>
                r == Err(if slots[k] in old(staged) then NotMoe(slots[k]) else NotStaged(slots[k]))
      ensures (forall s :: s in slots ==> s in old(staged) && old(staged)[s].moe) ==> saved == Some(old(active))
    {
      for k := 0 to |slots|
        invariant forall s :: s in slots[..k] ==> s in staged && staged[s].moe
        invariant forall j :: 0 <= j < k ==> slots[j] in staged && staged[slots[j]].moe
        invariant active == old(active) && staged == old(staged) && saved == old(saved)
      {
        if slots[k] in staged {
          if !staged[slots[k]].moe { return Err(NotMoe(slots[k])); }
        } else {
          return Err(NotStaged(slots[k]));
        }
        assert slots[..k + 1] == slots[..k] + [slots[k]];
      }
      assert slots[..|slots|] == slots;
      r := Swap(slots);
    }
  }

  /** Rolling back after a swap, successful or not, restores the active map; rolling back again keeps it. */
  method SwapThenRollback(m: HotSwapManager, slots: seq<Slot>) returns (swapped: Result)
    modifies m
    ensures m.active == old(m.active)
    ensures swapped.Ok? <==> Swappable(slots, old(m.staged))
  {
    swapped := m.Swap(slots);
    var once := m.Rollback();
    assert m.active == old(m.active);
    var twice := m.Rollback();
  }
}
