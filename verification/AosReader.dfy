/**
 The loader's archive parser, with every width check explicit: `usizeMax` is the largest `usize`, and a
 byte slice is never longer than that.
 */
module AosReader {
  import opened Wrappers
  import opened AosFormat

  datatype AosError =
    | TooSmall | BadMagic | MissingIndex | FieldTooLarge(field: string) | BadHeaderLayout | ReservedNonZero
    | IndexOverlapsHeader | IndexOverflow | IndexBeyondFile | IndexMisaligned
    | ManifestOverflow | ManifestBeyondFile | ManifestOverlapsIndex
    | UnknownBackendTag(tag: nat) | SegmentFieldTooLarge | SegmentOverflow
    | SegmentOverlapsIndex | SegmentOverlapsManifest | SegmentBeyondFile | SegmentHashMismatch(segmentId: nat)

  datatype Parsed<+T> = Ok(value: T) | Err(error: AosError)

  datatype Header = Header(indexSize: nat, manifestOffset: nat, manifestSize: nat)

  /** What each header error says of the bytes, fields taken modulo `modulus` and `usizeMax` being the largest `usize`. */
  predicate HeaderFault(bytes: Bytes, modulus: nat, usizeMax: nat, e: AosError)
    requires modulus > 0
  {
    if |bytes| < HEADER_SIZE then e == TooSmall
    else
      var indexEnd := HEADER_SIZE + SizeAt(bytes, 16, modulus);
      var manifestEnd := SizeAt(bytes, 24, modulus) + SizeAt(bytes, 32, modulus);
      match e
      case BadMagic => !HasMagic(bytes)
      case MissingIndex => FromLE(bytes[4..8]) % 2 == 0
      case FieldTooLarge(field) =>
        || (field == "index_offset" && SizeAt(bytes, 8, modulus) > usizeMax)
        || (field == "index_size" && SizeAt(bytes, 16, modulus) > usizeMax)
        || (field == "manifest_offset" && SizeAt(bytes, 24, modulus) > usizeMax)
        || (field == "manifest_size" && SizeAt(bytes, 32, modulus) > usizeMax)
      case BadHeaderLayout => U64At(bytes, 8) != HEADER_SIZE
      case ReservedNonZero => exists k :: 40 <= k < HEADER_SIZE && bytes[k] != 0
      case IndexOverflow => SizeAt(bytes, 16, modulus) <= usizeMax < indexEnd
      case IndexBeyondFile => |bytes| < indexEnd <= usizeMax
      case IndexMisaligned => SizeAt(bytes, 16, modulus) % INDEX_ENTRY_SIZE != 0
      case ManifestOverflow => SizeAt(bytes, 24, modulus) <= usizeMax < manifestEnd
      case ManifestBeyondFile => |bytes| < manifestEnd <= usizeMax
      case ManifestOverlapsIndex => SizeAt(bytes, 24, modulus) < indexEnd
      case _ => false
  }

  /** What each segment error says of the entry at `at`. */
  predicate EntryFault(bytes: Bytes, at: nat, indexEnd: nat, manifestOffset: nat, modulus: nat, usizeMax: nat, hash: Hash, e: AosError)
    requires modulus > 0
  {
    && at + INDEX_ENTRY_SIZE <= |bytes|
    && var offset, len := SizeAt(bytes, at + 8, modulus), SizeAt(bytes, at + 16, modulus);
       match e
       case UnknownBackendTag(tag) => tag == FromLE(bytes[at + 4..at + 6]) >= 4
       case SegmentFieldTooLarge => offset > usizeMax || len > usizeMax
       case SegmentOverflow => offset <= usizeMax && len <= usizeMax < offset + len
       case SegmentOverlapsIndex => offset < indexEnd
       case SegmentOverlapsManifest => manifestOffset < offset + len <= usizeMax
       case SegmentHashMismatch(id) =>
         id == FromLE(bytes[at..at + 4]) && offset + len <= |bytes| && hash(bytes[offset..offset + len]) != bytes[at + 40..at + 72]
       case _ => false
  }

  /** Entry `i` has that fault, and every entry before it is well formed. */
  ghost predicate FirstFault(bytes: Bytes, i: nat, modulus: nat, usizeMax: nat, hash: Hash, e: AosError)
    requires HeaderOk(bytes, modulus)
  {
    && EntryFault(bytes, HEADER_SIZE + i * INDEX_ENTRY_SIZE, HEADER_SIZE + SizeAt(bytes, 16, modulus), SizeAt(bytes, 24, modulus),
                  modulus, usizeMax, hash, e)
    && forall j :: 0 <= j < i ==> EntryOkAt(bytes, j, modulus, hash)
  }

  /** The error is a fault of the header, or of the first entry that is not well formed. */
  ghost predicate Blames(bytes: Bytes, modulus: nat, usizeMax: nat, hash: Hash, e: AosError) {
    modulus > 0 && if HeaderOk(bytes, modulus) then exists i: nat :: FirstFault(bytes, i, modulus, usizeMax, hash, e)
                   else HeaderFault(bytes, modulus, usizeMax, e)
  }

  /** The header checks, in order. */
  function ParseHeader(bytes: Bytes, usizeMax: nat): Parsed<Header> {
    if |bytes| < HEADER_SIZE then Err(TooSmall)
    else if bytes[0..4] != AOS_MAGIC && bytes[0..4] != AOS_MAGIC_V2 then Err(BadMagic)
    else if FromLE(bytes[4..8]) % 2 == 0 then Err(MissingIndex)
    else
      var indexOffset, indexSize := U64At(bytes, 8), U64At(bytes, 16);
      var manifestOffset, manifestSize := U64At(bytes, 24), U64At(bytes, 32);
      if indexOffset > usizeMax then Err(FieldTooLarge("index_offset"))
      else if indexSize > usizeMax then Err(FieldTooLarge("index_size"))
      else if manifestOffset > usizeMax then Err(FieldTooLarge("manifest_offset"))
      else if manifestSize > usizeMax then Err(FieldTooLarge("manifest_size"))
      else if indexOffset != HEADER_SIZE then Err(BadHeaderLayout)
      else if exists k :: 40 <= k < HEADER_SIZE && bytes[k] != 0 then Err(ReservedNonZero)
      else if indexOffset < HEADER_SIZE then Err(IndexOverlapsHeader)
      else if indexOffset + indexSize > usizeMax then Err(IndexOverflow)
      else if indexOffset + indexSize > |bytes| then Err(IndexBeyondFile)
      else if indexSize % INDEX_ENTRY_SIZE != 0 then Err(IndexMisaligned)
      else if manifestOffset + manifestSize > usizeMax then Err(ManifestOverflow)
      else if manifestOffset + manifestSize > |bytes| then Err(ManifestBeyondFile)
      else if manifestOffset < indexOffset + indexSize then Err(ManifestOverlapsIndex)
      else Ok(Header(indexSize, manifestOffset, manifestSize))
  }

  lemma Untruncated(bytes: Bytes, at: nat)
    requires at + 8 <= |bytes|
    ensures SizeAt(bytes, at, U64) == U64At(bytes, at)
  {
    U64AtBound(bytes, at);
  }

  lemma MagicIsPrefix(bytes: Bytes)
    requires |bytes| >= 4
    ensures HasMagic(bytes) <==> bytes[0..4] == AOS_MAGIC || bytes[0..4] == AOS_MAGIC_V2
  {
  }

  /** The header is accepted exactly when well-formed, whatever the width; the overlap check never fires. */
  lemma HeaderParses(bytes: Bytes, usizeMax: nat)
    requires |bytes| <= usizeMax
    ensures ParseHeader(bytes, usizeMax).Ok? <==> HeaderOk(bytes, U64)
    ensures ParseHeader(bytes, usizeMax) != Err(IndexOverlapsHeader)
    ensures var r := ParseHeader(bytes, usizeMax); r.Err? ==> HeaderFault(bytes, U64, usizeMax, r.error)
    ensures HeaderOk(bytes, U64) ==>
              ParseHeader(bytes, usizeMax).value == Header(SizeAt(bytes, 16, U64), SizeAt(bytes, 24, U64), SizeAt(bytes, 32, U64))
  {
    if |bytes| >= HEADER_SIZE {
      MagicIsPrefix(bytes);
      Untruncated(bytes, 8);
      Untruncated(bytes, 16);
      Untruncated(bytes, 24);
      Untruncated(bytes, 32);
    }
  }

  /** The checks of one index entry, in order. */
  function ParseEntry(bytes: Bytes, at: nat, indexEnd: nat, manifestOffset: nat, usizeMax: nat, hash: Hash): Parsed<Segment>
    requires at + INDEX_ENTRY_SIZE <= |bytes|
  {
    var segmentId, tag := FromLE(bytes[at..at + 4]), FromLE(bytes[at + 4..at + 6]);
    if TagFrom(tag).None? then Err(UnknownBackendTag(tag))
    else
      var offset, len := U64At(bytes, at + 8), U64At(bytes, at + 16);
      if offset > usizeMax || len > usizeMax then Err(SegmentFieldTooLarge)
      else if offset + len > usizeMax then Err(SegmentOverflow)
      else if offset < indexEnd then Err(SegmentOverlapsIndex)
      else if offset + len > manifestOffset then Err(SegmentOverlapsManifest)
      else if offset + len > |bytes| then Err(SegmentBeyondFile)
      else
        var payload := bytes[offset..offset + len];
        if hash(payload) != bytes[at + 40..at + 72] then Err(SegmentHashMismatch(segmentId))
        else Ok(Segment(TagFrom(tag).value, bytes[at + 24..at + 40], segmentId, payload, bytes[at + 40..at + 72]))
  }

  /** An entry is accepted exactly when well-formed; the final bound check never fires. */
  lemma EntryParses(bytes: Bytes, at: nat, indexEnd: nat, manifestOffset: nat, usizeMax: nat, hash: Hash)
    requires at + INDEX_ENTRY_SIZE <= |bytes| && manifestOffset <= |bytes| <= usizeMax
    ensures var r := ParseEntry(bytes, at, indexEnd, manifestOffset, usizeMax, hash);
            && (r.Ok? <==> EntryOk(bytes, at, indexEnd, manifestOffset, U64, hash))
            && (r.Ok? ==> r.value == SegmentAt(bytes, at, U64))
            && r != Err(SegmentBeyondFile)
            && (r.Err? ==> EntryFault(bytes, at, indexEnd, manifestOffset, U64, usizeMax, hash, r.error))
  {
    Untruncated(bytes, at + 8);
    Untruncated(bytes, at + 16);
  }

  /** The header of a well-formed archive, and only that, is read. */
  method ReadHeader(bytes: Bytes, usizeMax: nat) returns (r: Parsed<Header>)
    requires |bytes| <= usizeMax
    ensures r.Ok? <==> HeaderOk(bytes, U64)
    ensures r.Err? ==> HeaderFault(bytes, U64, usizeMax, r.error)
    ensures r.Ok? ==> r.value == Header(SizeAt(bytes, 16, U64), SizeAt(bytes, 24, U64), SizeAt(bytes, 32, U64))
    ensures r != Err(IndexOverlapsHeader) && r != Err(SegmentBeyondFile)
  {
    HeaderParses(bytes, usizeMax);
    r := ParseHeader(bytes, usizeMax);
  }

  lemma EntryInIndex(bytes: Bytes, i: nat)
    requires HeaderOk(bytes, U64) && i < EntryCount(bytes, U64)
    ensures HEADER_SIZE + i * INDEX_ENTRY_SIZE + INDEX_ENTRY_SIZE <= HEADER_SIZE + SizeAt(bytes, 16, U64) <= |bytes|
  {
  }

  method ReadEntry(bytes: Bytes, i: nat, h: Header, usizeMax: nat, hash: Hash) returns (r: Parsed<Segment>)
    requires |bytes| <= usizeMax && HeaderOk(bytes, U64) && i < EntryCount(bytes, U64)
    requires h == Header(SizeAt(bytes, 16, U64), SizeAt(bytes, 24, U64), SizeAt(bytes, 32, U64))
    ensures r.Ok? <==> EntryOkAt(bytes, i, U64, hash)
    ensures r.Err? ==> EntryFault(bytes, HEADER_SIZE + i * INDEX_ENTRY_SIZE, HEADER_SIZE + h.indexSize, h.manifestOffset, U64, usizeMax, hash, r.error)
    ensures r.Ok? ==> IsSegment(bytes, i, U64, hash, r.value)
    ensures r != Err(IndexOverlapsHeader) && r != Err(SegmentBeyondFile)
  {
    EntryInIndex(bytes, i);
    var at := HEADER_SIZE + i * INDEX_ENTRY_SIZE;
    EntryParses(bytes, at, HEADER_SIZE + h.indexSize, h.manifestOffset, usizeMax, hash);
    r := ParseEntry(bytes, at, HEADER_SIZE + h.indexSize, h.manifestOffset, usizeMax, hash);
  }

  /**
   Accepts exactly the well-formed archives and shows exactly their contents, whatever the width of
   `usize`; otherwise it blames a fault of the header or of the first bad entry.  Two of its checks are
   implied by the others.
   */
  method OpenAos(bytes: Bytes, usizeMax: nat, hash: Hash) returns (r: Parsed<FileView>)
    requires |bytes| <= usizeMax
    ensures r.Ok? <==> WellFormed(bytes, U64, hash)
    ensures r.Ok? ==> Shows(bytes, U64, hash, r.value)
    ensures r.Err? ==> Blames(bytes, U64, usizeMax, hash, r.error)
    ensures r != Err(IndexOverlapsHeader) && r != Err(SegmentBeyondFile)
  {
    var parsed := ReadHeader(bytes, usizeMax);
    if parsed.Err? {
      return Err(parsed.error);
    }
    var h := parsed.value;
    var segments: seq<Segment> := [];
    for i := 0 to h.indexSize / INDEX_ENTRY_SIZE
      invariant |segments| == i
      invariant forall j :: 0 <= j < i ==> IsSegment(bytes, j, U64, hash, segments[j])
    {
      var entry := ReadEntry(bytes, i, h, usizeMax, hash);
      if entry.Err? {
        assert forall j :: 0 <= j < i ==> IsSegment(bytes, j, U64, hash, segments[j]) && EntryOkAt(bytes, j, U64, hash);
        assert FirstFault(bytes, i, U64, usizeMax, hash, entry.error);
        return Err(entry.error);
      }
      segments := segments + [entry.value];
    }
    forall i | 0 <= i < EntryCount(bytes, U64) ensures EntryOkAt(bytes, i, U64, hash) {
      assert IsSegment(bytes, i, U64, hash, segments[i]);
    }
    r := Ok(FileView(bytes[h.manifestOffset..h.manifestOffset + h.manifestSize], segments));
  }
}
