/**
 Merging proposals: edits are grouped by file, conflicts detected and resolved.  Hash-map iteration
 order is arbitrary; a confidence is a number or NaN.
 */
module ResultMerger {
  import opened Wrappers

  datatype Kind = Create | Modify | Delete | Rename

  type Range = (nat, nat)

  datatype Modification = Modification(path: string, kind: Kind, range: Option<Range>, content: string)

  datatype Confidence = NaN | Num(value: real)

  datatype Proposal = Proposal(agentId: string, modifications: seq<Modification>, confidence: Confidence)

  datatype Strategy = HighestConfidence | FirstWins | LastWins | RequireReview

  /** A modification with the position and the confidence of the proposal it came from. */
  datatype Item = Item(index: nat, edit: Modification, confidence: Confidence)

  datatype ConflictType = SameFileModification | CreateModifyConflict | DeleteModifyConflict | OverlappingRanges

  datatype Conflict = Conflict(path: string, items: seq<Item>, conflictType: ConflictType)

  datatype Plan = Plan(modifications: seq<Modification>, unresolved: seq<Conflict>, conflictsResolved: nat, proposalsMerged: nat)

  datatype Result = Ok(plan: Plan) | UnresolvableConflict(count: int)

  // ---------- overlapping ranges ----------

  predicate Overlap(a: Range, b: Range) { a.0 <= b.1 && b.0 <= a.1 }

  predicate Covers(r: Range, line: nat) { r.0 <= line <= r.1 }

  /** Ranges that do not run backwards overlap exactly when they share a line. */
  lemma OverlapShares(a: Range, b: Range)
    requires a.0 <= a.1 && b.0 <= b.1
    ensures Overlap(a, b) <==> exists line: nat :: Covers(a, line) && Covers(b, line)
  {
    var first := if a.0 <= b.0 then b.0 else a.0;
    if Overlap(a, b) { assert Covers(a, first) && Covers(b, first); }
  }

  function Ranges(items: seq<Item>): seq<Range> {
    if items == [] then []
    else
      var n := |items| - 1;
      Ranges(items[..n]) + if items[n].edit.range.Some? then [items[n].edit.range.value] else []
  }

  predicate AnyOverlap(ranges: seq<Range>) {
    exists i, j :: 0 <= i < j < |ranges| && Overlap(ranges[i], ranges[j])
  }

  /** Two of the edits have line ranges that overlap. */
  ghost predicate EditsOverlap(items: seq<Item>) {
    exists i, j :: 0 <= i < j < |items| && OverlapAt(items, i, j)
  }

  predicate OverlapAt(items: seq<Item>, i: nat, j: nat)
    requires i < |items| && j < |items|
  {
    items[i].edit.range.Some? && items[j].edit.range.Some? && Overlap(items[i].edit.range.value, items[j].edit.range.value)
  }

  /** Every range comes from an edit, in order. */
  lemma {:induction false} RangeSource(items: seq<Item>, k: nat) returns (i: nat)
    requires k < |Ranges(items)|
    ensures i < |items| && items[i].edit.range == Some(Ranges(items)[k]) && |Ranges(items[..i])| == k
  {
    var n := |items| - 1;
    if k < |Ranges(items[..n])| {
      i := RangeSource(items[..n], k);
      assert items[..n][..i] == items[..i];
    } else {
      i := n;
    }
  }

  lemma {:induction false} RangeTarget(items: seq<Item>, i: nat)
    requires i < |items| && items[i].edit.range.Some?
    ensures |Ranges(items[..i])| < |Ranges(items)| && Ranges(items)[|Ranges(items[..i])|] == items[i].edit.range.value
    decreases |items|
  {
    var n := |items| - 1;
    if i < n {
      RangeTarget(items[..n], i);
      assert items[..n][..i] == items[..i];
    }
  }

  lemma {:induction false} RangesGrow(items: seq<Item>, i: nat, j: nat)
    requires i <= j <= |items|
    ensures |Ranges(items[..i])| <= |Ranges(items[..j])|
    ensures i < j && items[i].edit.range.Some? ==> |Ranges(items[..i])| < |Ranges(items[..j])|
  {
    if i < j {
      RangesGrow(items, i, j - 1);
      assert items[..j][..j - 1] == items[..j - 1];
    }
  }

  lemma RangesOverlapExactly(items: seq<Item>)
    ensures AnyOverlap(Ranges(items)) <==> EditsOverlap(items)
  {
    var ranges := Ranges(items);
    if i, j :| 0 <= i < j < |ranges| && Overlap(ranges[i], ranges[j]) {
      var a := RangeSource(items, i);
      var b := RangeSource(items, j);
      if b < a { RangesGrow(items, b, a); }
      assert OverlapAt(items, a, b);
    }
    if i, j :| 0 <= i < j < |items| && OverlapAt(items, i, j) {
      RangeTarget(items, i);
      RangeTarget(items, j);
      RangesGrow(items, i, j);
      assert Overlap(ranges[|Ranges(items[..i])|], ranges[|Ranges(items[..j])|]);
    }
  }

  method HasOverlappingRanges(items: seq<Item>) returns (found: bool)
    ensures found <==> EditsOverlap(items)
  {
    var ranges := Ranges(items);
    RangesOverlapExactly(items);
    for i := 0 to |ranges|
      invariant forall a, b :: 0 <= a < b < |ranges| && a < i ==> !Overlap(ranges[a], ranges[b])
    {
      for j := i + 1 to |ranges|
        invariant forall b :: i < b < j ==> !Overlap(ranges[i], ranges[b])
      {
        if ranges[i].0 <= ranges[j].1 && ranges[j].0 <= ranges[i].1 {
          return true;
        }
      }
    }
    found := false;
  }

  // ---------- detecting a conflict ----------

  predicate HasKind(items: seq<Item>, kind: Kind) {
    exists i :: 0 <= i < |items| && items[i].edit.kind == kind
  }

  /** The conflict among two or more edits of one file, if any. */
  method DetectConflict(items: seq<Item>) returns (r: Option<ConflictType>)
    ensures r == ConflictIn(items)
  {
    var hasDelete, hasCreate, hasModify := HasKind(items, Delete), HasKind(items, Create), HasKind(items, Modify);
    if hasDelete {
      r := if hasModify || hasCreate then Some(DeleteModifyConflict) else None;
    } else if hasCreate && hasModify {
      r := Some(CreateModifyConflict);
    } else if |items| > 1 && AllModify(items) {
      var overlapping := HasOverlappingRanges(items);
      r := if overlapping then Some(OverlappingRanges) else None;
    } else if |items| > 1 {
      r := Some(SameFileModification);
    } else {
      r := None;
    }
  }

  predicate AllModify(items: seq<Item>) {
    forall i :: 0 <= i < |items| ==> items[i].edit.kind == Modify
  }

  ghost function ConflictIn(items: seq<Item>): Option<ConflictType> {
    if HasKind(items, Delete) then
      if HasKind(items, Modify) || HasKind(items, Create) then Some(DeleteModifyConflict) else None
    else if HasKind(items, Create) && HasKind(items, Modify) then Some(CreateModifyConflict)
    else if |items| > 1 && AllModify(items) then if EditsOverlap(items) then Some(OverlappingRanges) else None
    else if |items| > 1 then Some(SameFileModification)
    else None
  }

  /** Edits two of which may both be applied: disjoint modifications, or deletions and renames. */
  predicate Compatible(a: Modification, b: Modification) {
    || (a.kind == Modify && b.kind == Modify && (a.range.Some? && b.range.Some? ==> !Overlap(a.range.value, b.range.value)))
    || (a.kind in {Delete, Rename} && b.kind in {Delete, Rename})
  }

  ghost predicate PairwiseCompatible(items: seq<Item>) {
    forall i, j :: 0 <= i < j < |items| ==> Compatible(items[i].edit, items[j].edit)
  }

  lemma CompatiblePasses(items: seq<Item>)
    requires |items| > 1 && PairwiseCompatible(items) && (HasKind(items, Delete) || HasKind(items, Modify))
    ensures ConflictIn(items).None?
  {
    AllOfOneFamily(items);
    forall i, j | 0 <= i < j < |items| ensures AllModify(items) ==> !OverlapAt(items, i, j) {
      assert Compatible(items[i].edit, items[j].edit);
    }
  }

  /** Two or more edits pass as conflict-free exactly when pairwise compatible and not all renames. */
  lemma NoConflictExactly(items: seq<Item>)
    requires |items| > 1
    ensures ConflictIn(items).None? <==>
            PairwiseCompatible(items) && (HasKind(items, Delete) || HasKind(items, Modify))
  {
    if ConflictIn(items).None? {
      assert HasKind(items, items[0].edit.kind);
      forall i, j | 0 <= i < j < |items| ensures Compatible(items[i].edit, items[j].edit) {
        assert HasKind(items, items[i].edit.kind) && HasKind(items, items[j].edit.kind);
        assert AllModify(items) ==> !OverlapAt(items, i, j);
      }
    }
    if PairwiseCompatible(items) && (HasKind(items, Delete) || HasKind(items, Modify)) {
      CompatiblePasses(items);
    }
  }

  /** Pairwise compatible edits are all modifications, or all deletions and renames. */
  lemma AllOfOneFamily(items: seq<Item>)
    requires |items| > 1 && PairwiseCompatible(items)
    ensures AllModify(items) || forall i :: 0 <= i < |items| ==> items[i].edit.kind in {Delete, Rename}
  {
    assert Compatible(items[0].edit, items[1].edit);
    forall i | 1 <= i < |items| ensures Compatible(items[0].edit, items[i].edit) {}
  }

  // ---------- resolving a conflict ----------

  /** NaN below every number. */
  predicate Below(a: Confidence, b: Confidence) {
    (a.NaN? && b.Num?) || (a.Num? && b.Num? && a.value < b.value)
  }

  /** max_by: the last item no other exceeds. */
  function MostConfident(items: seq<Item>): (w: nat)
    requires items != []
    ensures w < |items|
    ensures forall i :: 0 <= i < |items| ==> !Below(items[w].confidence, items[i].confidence)
    ensures forall i :: w < i < |items| ==> Below(items[i].confidence, items[w].confidence)
  {
    var n := |items| - 1;
    if n == 0 then 0
    else
      var w := MostConfident(items[..n]);
      if Below(items[n].confidence, items[w].confidence) then w else n
  }

  /** min_by_key: the first item of least proposal position. */
  function Earliest(items: seq<Item>): (w: nat)
    requires items != []
    ensures w < |items|
    ensures forall i :: 0 <= i < |items| ==> items[w].index <= items[i].index
    ensures forall i :: 0 <= i < w ==> items[w].index < items[i].index
  {
    var n := |items| - 1;
    if n == 0 then 0
    else
      var w := Earliest(items[..n]);
      if items[n].index < items[w].index then n else w
  }

  /** max_by_key: the last item of greatest proposal position. */
  function Latest(items: seq<Item>): (w: nat)
    requires items != []
    ensures w < |items|
    ensures forall i :: 0 <= i < |items| ==> items[i].index <= items[w].index
    ensures forall i :: w < i < |items| ==> items[i].index < items[w].index
  {
    var n := |items| - 1;
    if n == 0 then 0
    else
      var w := Latest(items[..n]);
      if items[n].index >= items[w].index then n else w
  }

  function Winner(strategy: Strategy, items: seq<Item>): Option<nat> {
    if items == [] then None
    else
      match strategy
      case RequireReview => None
      case HighestConfidence => Some(MostConfident(items))
      case FirstWins => Some(Earliest(items))
      case LastWins => Some(Latest(items))
  }

  function Edits(items: seq<Item>): (r: seq<Modification>)
    ensures |r| == |items|
  {
    seq(|items|, i requires 0 <= i < |items| => items[i].edit)
  }

  /** What is accepted of the edits of one file. */
  ghost function Accepted(strategy: Strategy, items: seq<Item>): seq<Modification> {
    if |items| <= 1 || ConflictIn(items).None? then Edits(items)
    else if strategy == RequireReview then []
    else [items[Winner(strategy, items).value].edit]
  }

  ghost predicate Unresolved(strategy: Strategy, items: seq<Item>) {
    |items| > 1 && ConflictIn(items).Some? && strategy == RequireReview
  }

  ghost predicate Resolved(strategy: Strategy, items: seq<Item>) {
    |items| > 1 && ConflictIn(items).Some? && strategy != RequireReview
  }

  // ---------- which edits are accepted ----------

  /** Several edits of a file, not all compatible, or all renames. */
  ghost predicate Conflicting(items: seq<Item>) {
    |items| > 1 && !(PairwiseCompatible(items) && exists i :: 0 <= i < |items| && items[i].edit.kind in {Delete, Modify})
  }

  /** A confidence is at most another, NaN being the lowest. */
  predicate AtMost(a: Confidence, b: Confidence) { a.NaN? || (b.Num? && a.value <= b.value) }

  /** No edit is more confident than the one at `w`, and the later ones are less so. */
  predicate MostConfidentAt(items: seq<Item>, w: nat) {
    && w < |items|
    && (forall i :: 0 <= i < |items| ==> AtMost(items[i].confidence, items[w].confidence))
    && (forall i :: w < i < |items| ==> !AtMost(items[w].confidence, items[i].confidence))
  }

  /** What a strategy makes of the edits of one file, given in the order of their proposals. */
  ghost predicate Decided(strategy: Strategy, items: seq<Item>, accepted: seq<Modification>) {
    if !Conflicting(items) then accepted == Edits(items)
    else
      match strategy
      case RequireReview => accepted == []
      case FirstWins => accepted == [items[0].edit]
      case LastWins => accepted == [items[|items| - 1].edit]
      case HighestConfidence => exists w: nat :: MostConfidentAt(items, w) && accepted == [items[w].edit]
  }

  predicate InProposalOrder(items: seq<Item>) {
    forall i, j :: 0 <= i < j < |items| ==> items[i].index <= items[j].index
  }

  /** What each kind of conflict says of the edits. */
  ghost predicate Names(conflict: ConflictType, items: seq<Item>) {
    match conflict
    case DeleteModifyConflict =>
      && (exists i :: 0 <= i < |items| && items[i].edit.kind == Delete)
      && (exists i :: 0 <= i < |items| && items[i].edit.kind in {Create, Modify})
    case CreateModifyConflict =>
      && (exists i :: 0 <= i < |items| && items[i].edit.kind == Create)
      && (exists i :: 0 <= i < |items| && items[i].edit.kind == Modify)
      && (forall i :: 0 <= i < |items| ==> items[i].edit.kind != Delete)
    case OverlappingRanges => (forall i :: 0 <= i < |items| ==> items[i].edit.kind == Modify) && EditsOverlap(items)
    case SameFileModification =>
      || (forall i :: 0 <= i < |items| ==> items[i].edit.kind in {Create, Rename})
      || (&& (forall i :: 0 <= i < |items| ==> items[i].edit.kind in {Modify, Rename})
          && exists i :: 0 <= i < |items| && items[i].edit.kind == Rename)
  }

  /** The conflict found is the one there is. */
  lemma ConflictIsNamed(items: seq<Item>)
    requires ConflictIn(items).Some?
    ensures Names(ConflictIn(items).value, items)
  {
    match ConflictIn(items).value
    case DeleteModifyConflict =>
      assert HasKind(items, Delete) && (HasKind(items, Modify) || HasKind(items, Create));
    case CreateModifyConflict =>
      assert HasKind(items, Create) && HasKind(items, Modify) && !HasKind(items, Delete);
    case OverlappingRanges =>
    case SameFileModification =>
      assert !HasKind(items, Delete) && !(HasKind(items, Create) && HasKind(items, Modify)) && !AllModify(items);
      NoDeletions(items);
  }

  lemma NoDeletions(items: seq<Item>)
    requires !HasKind(items, Delete) && !(HasKind(items, Create) && HasKind(items, Modify)) && !AllModify(items)
    ensures Names(SameFileModification, items)
  {
    if HasKind(items, Modify) {
      assert forall i :: 0 <= i < |items| ==> items[i].edit.kind in {Modify, Rename};
      var i :| 0 <= i < |items| && items[i].edit.kind != Modify;
      assert items[i].edit.kind == Rename;
    } else {
      assert forall i :: 0 <= i < |items| ==> items[i].edit.kind in {Create, Rename};
    }
  }

  lemma ConflictingExactly(items: seq<Item>)
    ensures Conflicting(items) <==> |items| > 1 && ConflictIn(items).Some?
  {
    if |items| > 1 {
      NoConflictExactly(items);
      if i :| 0 <= i < |items| && items[i].edit.kind in {Delete, Modify} {
        assert HasKind(items, items[i].edit.kind);
      }
    }
  }

  /** What is accepted is what the strategy decides. */
  lemma AcceptedIsDecided(strategy: Strategy, items: seq<Item>)
    requires InProposalOrder(items)
    ensures Decided(strategy, items, Accepted(strategy, items))
  {
    ConflictingExactly(items);
    if Conflicting(items) {
      if strategy == HighestConfidence { assert MostConfidentAt(items, MostConfident(items)); }
    }
  }

  /** No two accepted edits of a file conflict. */
  lemma AcceptedAreCompatible(strategy: Strategy, items: seq<Item>, i: nat, j: nat)
    requires i < j < |Accepted(strategy, items)|
    ensures Compatible(Accepted(strategy, items)[i], Accepted(strategy, items)[j])
  {
    NoConflictExactly(items);
  }

  /** Every file with proposed edits has some accepted, or is unresolved, and never both; nothing else is accepted. */
  lemma EveryFileAccountedFor(strategy: Strategy, items: seq<Item>)
    requires items != []
    ensures Accepted(strategy, items) == [] <==> Unresolved(strategy, items)
    ensures forall m :: m in Accepted(strategy, items) ==> m in Edits(items)
  {
    forall m | m in Accepted(strategy, items) ensures m in Edits(items) {
      if Resolved(strategy, items) {
        assert Edits(items)[Winner(strategy, items).value] == m;
      }
    }
  }

  /** A deletion is accepted beside an edit of another kind exactly when a file is both deleted and renamed and nothing else. */
  lemma MixedDeletionExactly(strategy: Strategy, items: seq<Item>)
    ensures (exists i, j :: 0 <= i < |Accepted(strategy, items)| && 0 <= j < |Accepted(strategy, items)|
                            && Accepted(strategy, items)[i].kind == Delete && Accepted(strategy, items)[j].kind != Delete)
            <==>
            HasKind(items, Delete) && HasKind(items, Rename) && !HasKind(items, Create) && !HasKind(items, Modify)
  {
    var accepted := Accepted(strategy, items);
    if i, j :| 0 <= i < |accepted| && 0 <= j < |accepted| && accepted[i].kind == Delete && accepted[j].kind != Delete {
      assert accepted == Edits(items);
      assert items[i].edit.kind == Delete && HasKind(items, items[j].edit.kind);
    }
    if HasKind(items, Delete) && HasKind(items, Rename) && !HasKind(items, Create) && !HasKind(items, Modify) {
      assert accepted == Edits(items);
      var i :| 0 <= i < |items| && items[i].edit.kind == Delete;
      var j :| 0 <= j < |items| && items[j].edit.kind == Rename;
      assert accepted[i].kind == Delete && accepted[j].kind == Rename;
    }
  }

  /** Two edits, of a file deleted and renamed, are both accepted. */
  lemma MixedDeletionWitness(strategy: Strategy, deletion: Item, renaming: Item)
    requires deletion.edit.kind == Delete && renaming.edit.kind == Rename
    ensures Accepted(strategy, [deletion, renaming]) == [deletion.edit, renaming.edit]
  {
    var items := [deletion, renaming];
    assert items[0].edit.kind == Delete && HasKind(items, Delete);
    assert Edits(items) == [deletion.edit, renaming.edit];
  }

  /** A modification of a whole file, one given no line range, is among the accepted edits and not alone. */
  predicate WholeFileBeside(accepted: seq<Modification>) {
    |accepted| > 1 && exists i :: 0 <= i < |accepted| && accepted[i].kind == Modify && accepted[i].range.None?
  }

  /**
   A whole-file modification is accepted beside another edit exactly when the edits are several modifications,
   one of them without a line range, and the ranges given are disjoint: no range counts as overlapping nothing.
   */
  lemma WholeFileEditsPass(strategy: Strategy, items: seq<Item>)
    ensures WholeFileBeside(Accepted(strategy, items)) <==>
            && |items| > 1 && AllModify(items) && !EditsOverlap(items)
            && exists i :: 0 <= i < |items| && items[i].edit.range.None?
  {
    var accepted := Accepted(strategy, items);
    if WholeFileBeside(accepted) {
      assert accepted == Edits(items) && ConflictIn(items).None?;
      var i :| 0 <= i < |accepted| && accepted[i].kind == Modify && accepted[i].range.None?;
      assert items[i].edit == accepted[i];
      assert HasKind(items, Modify);
    }
    if |items| > 1 && AllModify(items) && !EditsOverlap(items) {
      assert items[0].edit.kind == Modify && accepted == Edits(items);
      if i :| 0 <= i < |items| && items[i].edit.range.None? {
        assert accepted[i] == items[i].edit;
      }
    }
  }

  /** A modification of the whole file and one of some lines of it are both accepted, whatever the lines. */
  lemma WholeFileWitness(strategy: Strategy, whole: Item, part: Item)
    requires whole.edit.kind == Modify && whole.edit.range.None? && part.edit.kind == Modify
    ensures Accepted(strategy, [whole, part]) == [whole.edit, part.edit]
  {
    var items := [whole, part];
    assert items[0].edit.kind == Modify && !EditsOverlap(items);
    assert Edits(items) == [whole.edit, part.edit];
  }
}
