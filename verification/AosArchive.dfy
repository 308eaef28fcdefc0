/** Writing archives, and opening what was written. */
module AosArchive {
  import opened Wrappers
  import opened AosFormat
  import opened AosLayout
  import Reader = AosReader

  datatype WriteError =
    NoSegments | NoCanonical | MissingScopePath | OffsetsOverflow | HashMismatch(segmentId: nat) | ScopeMismatch

  datatype Written = Ok(bytes: Bytes) | Err(error: WriteError)

  /** What write_archive demands of its segments and manifest. */
  predicate Acceptable(segs: seq<Pending>, scopePath: Option<string>, hash: Hash, scopeHashOf: string -> Bytes) {
    && segs != [] && (exists i :: 0 <= i < |segs| && segs[i].backendTag == Canonical)
    && scopePath.Some? && scopePath.value != []
    && OffsetOf(segs, |segs|) < U64
    && AllOk(segs, scopeHashOf(scopePath.value), hash)
  }

  predicate AllOk(segs: seq<Pending>, scopeHash: Bytes, hash: Hash) {
    segs == [] || (AllOk(segs[..|segs| - 1], scopeHash, hash) && SegmentOk(segs[|segs| - 1], scopeHash, hash))
  }

  lemma {:induction false} AllOkEach(segs: seq<Pending>, scopeHash: Bytes, hash: Hash, i: nat)
    requires AllOk(segs, scopeHash, hash) && i < |segs|
    ensures SegmentOk(segs[i], scopeHash, hash)
    decreases |segs|
  {
    if i < |segs| - 1 { AllOkEach(segs[..|segs| - 1], scopeHash, hash, i); }
  }

  lemma AllOkNext(segs: seq<Pending>, scopeHash: Bytes, hash: Hash, k: nat)
    requires k < |segs| && AllOk(segs[..k], scopeHash, hash)
    ensures AllOk(segs[..k + 1], scopeHash, hash) <==> SegmentOk(segs[k], scopeHash, hash)
    ensures !SegmentOk(segs[k], scopeHash, hash) ==> !AllOk(segs, scopeHash, hash)
  {
    assert segs[..k + 1][..k] == segs[..k];
    if AllOk(segs, scopeHash, hash) { AllOkEach(segs, scopeHash, hash, k); }
  }

  predicate SegmentOk(seg: Pending, scopeHash: Bytes, hash: Hash) {
    hash(seg.payload) == seg.weightsHash && ScopeOk(seg.scopeHash, scopeHash)
  }

  /** No scope of its own, or the manifest's. */
  predicate ScopeOk(own: Bytes, manifests: Bytes) { own == Zeros(16) || own == manifests }

  /** What each error of the index says of a segment at `offset`. */
  predicate SegmentFault(seg: Pending, offset: nat, scopeHash: Bytes, hash: Hash, e: WriteError) {
    match e
    case OffsetsOverflow => offset + |seg.payload| >= U64
    case HashMismatch(id) => id == seg.segmentId && hash(seg.payload) != seg.weightsHash
    case ScopeMismatch => seg.scopeHash != Zeros(16) && seg.scopeHash != scopeHash
    case _ => false
  }

  /** Segment `k` has that fault, and those before it none. */
  ghost predicate FirstFault(segs: seq<Pending>, k: nat, scopeHash: Bytes, hash: Hash, e: WriteError) {
    k < |segs| && SegmentFault(segs[k], OffsetOf(segs, k), scopeHash, hash, e) && AllOk(segs[..k], scopeHash, hash)
  }

  /** What each error says of the input. */
  ghost predicate Blames(segs: seq<Pending>, scopePath: Option<string>, hash: Hash, scopeHashOf: string -> Bytes, e: WriteError) {
    match e
    case NoSegments => segs == []
    case NoCanonical => segs != [] && forall i :: 0 <= i < |segs| ==> segs[i].backendTag != Canonical
    case MissingScopePath => scopePath.None? || scopePath.value == []
    case _ => scopePath.Some? && exists k: nat :: FirstFault(segs, k, scopeHashOf(scopePath.value), hash, e)
  }

  lemma JoinSnoc(fields: seq<Bytes>, k: nat)
    requires k < |fields|
    ensures Join(fields[..k + 1]) == Join(fields[..k]) + fields[k]
  {
    assert fields[..k + 1][..k] == fields[..k];
  }

  lemma OffsetStep(segs: seq<Pending>, k: nat)
    requires k < |segs|
    ensures OffsetOf(segs, k + 1) == OffsetOf(segs, k) + |segs[k].payload| <= OffsetOf(segs, |segs|)
  {
    StartNext(PayloadFields(segs), k);
    StartsGrow(PayloadFields(segs), k, |segs|);
  }

  lemma IndexStep(segs: seq<Pending>, scopeHash: Bytes, hash: Hash, k: nat)
    requires k < |segs|
    ensures Join(IndexFields(segs, scopeHash, hash)[..k + 1]) ==
            Join(IndexFields(segs, scopeHash, hash)[..k]) + Join(EntryFields(segs[k], OffsetOf(segs, k), scopeHash, hash))
  {
    JoinSnoc(IndexFields(segs, scopeHash, hash), k);
  }

  /** One turn of the index loop: the checks of a segment, and its entry. */
  method IndexEntry(seg: Pending, offset: nat, scopeHash: Bytes, hash: Hash) returns (entry: Bytes, error: Option<WriteError>)
    ensures error.None? <==> offset + |seg.payload| < U64 && SegmentOk(seg, scopeHash, hash)
    ensures error.None? ==> entry == Join(EntryFields(seg, offset, scopeHash, hash))
    ensures error.Some? ==> SegmentFault(seg, offset, scopeHash, hash, error.value)
  {
    if offset + |seg.payload| >= U64 {
      return [], Some(OffsetsOverflow);
    }
    if hash(seg.payload) != seg.weightsHash {
      return [], Some(HashMismatch(seg.segmentId));
    }
    if !ScopeOk(seg.scopeHash, scopeHash) {
      return [], Some(ScopeMismatch);
    }
    return Join(EntryFields(seg, offset, scopeHash, hash)), None;
  }

  method BuildIndex(segs: seq<Pending>, scopeHash: Bytes, hash: Hash)
    returns (index: Bytes, manifestOffset: nat, error: Option<WriteError>)
    requires PayloadBase(segs) < U64
    ensures error.None? <==>
            OffsetOf(segs, |segs|) < U64 && AllOk(segs, scopeHash, hash)
    ensures error.Some? ==> exists k: nat :: FirstFault(segs, k, scopeHash, hash, error.value)
    ensures error.None? ==> index == Join(IndexFields(segs, scopeHash, hash)) && manifestOffset == OffsetOf(segs, |segs|)
  {
    index, manifestOffset, error := [], PayloadBase(segs), None;
    ghost var fields := IndexFields(segs, scopeHash, hash);
    assert PayloadFields(segs)[..0] == [] && fields[..0] == [];
    for k := 0 to |segs|
      invariant manifestOffset == OffsetOf(segs, k) < U64 && index == Join(fields[..k])
      invariant error.None?
      invariant AllOk(segs[..k], scopeHash, hash)
    {
      OffsetStep(segs, k);
      IndexStep(segs, scopeHash, hash, k);
      AllOkNext(segs, scopeHash, hash, k);
      var entry;
      entry, error := IndexEntry(segs[k], manifestOffset, scopeHash, hash);
      if error.Some? {
        assert FirstFault(segs, k, scopeHash, hash, error.value);
        return;
      }
      manifestOffset := manifestOffset + |segs[k].payload|;
      index := index + entry;
    }
    assert fields[..|segs|] == fields && segs[..|segs|] == segs;
  }

  lemma JoinFour(a: Bytes, b: Bytes, c: Bytes, d: Bytes)
    ensures Join([a, b, c, d]) == a + b + c + d
  {
    var fields := [a, b, c, d];
    assert fields[..0] == [] && fields[..4] == fields;
    JoinSnoc(fields, 0);
    JoinSnoc(fields, 1);
    JoinSnoc(fields, 2);
    JoinSnoc(fields, 3);
  }

  method AppendPayloads(start: Bytes, segs: seq<Pending>) returns (file: Bytes)
    ensures file == start + Join(PayloadFields(segs))
  {
    file := start;
    ghost var payloads := PayloadFields(segs);
    assert payloads[..0] == [];
    for k := 0 to |segs|
      invariant file == start + Join(payloads[..k])
    {
      JoinSnoc(payloads, k);
      file := file + segs[k].payload;
    }
    assert payloads[..|segs|] == payloads;
  }

  /** Succeeds exactly on acceptable input, else says what is wrong with it, and writes header, index, payloads and manifest in that order. */
  method WriteArchive(segs: seq<Pending>, scopePath: Option<string>, manifest: Bytes, hash: Hash, scopeHashOf: string -> Bytes)
    returns (r: Written)
    requires PayloadBase(segs) < U64
    ensures r.Ok? <==> Acceptable(segs, scopePath, hash, scopeHashOf)
    ensures r.Ok? ==> r.bytes == Archive(segs, scopeHashOf(scopePath.value), manifest, hash)
    ensures r.Err? ==> Blames(segs, scopePath, hash, scopeHashOf, r.error)
  {
    if segs == [] { return Err(NoSegments); }
    if !exists i :: 0 <= i < |segs| && segs[i].backendTag == Canonical { return Err(NoCanonical); }
    if scopePath.None? || scopePath.value == [] { return Err(MissingScopePath); }
    var scopeHash := scopeHashOf(scopePath.value);
    var index, manifestOffset, error := BuildIndex(segs, scopeHash, hash);
    if error.Some? { return Err(error.value); }
    var header := Join(HeaderFields(|segs| * INDEX_ENTRY_SIZE, manifestOffset, |manifest|));
    var file := AppendPayloads(header + index, segs);
    ghost var payloads := PayloadFields(segs);
    JoinFour(header, index, Join(payloads), manifest);
    r := Ok(file + manifest);
  }

  /**
   The round trip: whatever the writer accepts and the platform can hold, the loader's parser opens, and
   shows the same manifest and the same segments in the same order.
   */
  method WriteThenOpen(segs: seq<Pending>, scopePath: Option<string>, manifest: Bytes, usizeMax: nat, hash: Hash, scopeHashOf: string -> Bytes)
    returns (written: Written, found: Reader.Parsed<FileView>)
    requires PayloadBase(segs) < U64 && usizeMax < U64 && Writable(segs) && Is32(hash)
    requires scopePath.Some? ==> |scopeHashOf(scopePath.value)| == 16
    ensures written.Ok? <==> Acceptable(segs, scopePath, hash, scopeHashOf)
    ensures written.Ok? && |written.bytes| <= usizeMax ==>
              found == Reader.Ok(FileView(manifest, Expected(segs, scopeHashOf(scopePath.value), hash)))
  {
    written := WriteArchive(segs, scopePath, manifest, hash, scopeHashOf);
    found := Reader.Err(Reader.TooSmall);
    if written.Ok? && |written.bytes| <= usizeMax {
      found := Reader.OpenAos(written.bytes, usizeMax, hash);
      ArchiveRoundTrip(segs, scopeHashOf(scopePath.value), manifest, hash,
                       if found.Ok? then found.value else FileView([], []));
    }
  }

  /** The queue of segments the writer is given. */
  class AosWriter {
    var segments: seq<Pending>

    ghost predicate Valid()
      reads this
    {
      Writable(segments)
    }

    constructor ()
      ensures Valid() && segments == []
    {
      segments := [];
    }

    /** Queues a segment under the next id, which wraps at 2^32. */
    method AddSegment(tag: BackendTag, scopePath: Option<string>, bytes: Bytes, hash: Hash, scopeHashOf: string -> Bytes)
      returns (id: nat)
      requires Valid()
      modifies this
      ensures Valid() && id == |old(segments)| % U32
      ensures segments == old(segments) +
                          [Pending(id, tag, if scopePath.Some? then scopeHashOf(scopePath.value) else Zeros(16), hash(bytes), bytes)]
    {
      id := |segments| % U32;
      var scopeHash := if scopePath.Some? then scopeHashOf(scopePath.value) else Zeros(16);
      segments := segments + [Pending(id, tag, scopeHash, hash(bytes), bytes)];
    }

    method ClearSegments()
      modifies this
      ensures Valid() && segments == []
    {
      segments := [];
    }
  }
}
