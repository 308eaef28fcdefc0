/**
 The writer module's own parser.  It does the same checks as the loader's, but converts 64-bit fields
 with `as usize`, which truncates: `modulus` is one more than the largest `usize`.
 */
module AosTruncatingReader {
  import opened Wrappers
  import opened AosFormat
  import opened AosReader

  datatype Descriptor = Descriptor(segmentId: nat, backendTag: BackendTag, scopeHash: Bytes, weightsHash: Bytes, offset: nat, len: nat)

  datatype SegmentView = SegmentView(segmentId: nat, backendTag: BackendTag, scopeHash: Bytes, payload: Bytes)

  datatype ArchiveView = ArchiveView(manifest: Bytes, segments: seq<SegmentView>)

  /** The header and layout checks, in order. */
  function ParseLayout(bytes: Bytes, modulus: nat): Parsed<Header>
    requires modulus > 0
  {
    if |bytes| < HEADER_SIZE then Err(TooSmall)
    else if bytes[0..4] != AOS_MAGIC && bytes[0..4] != AOS_MAGIC_V2 then Err(BadMagic)
    else if U64At(bytes, 8) != HEADER_SIZE then Err(BadHeaderLayout)
    else if exists k :: 40 <= k < HEADER_SIZE && bytes[k] != 0 then Err(ReservedNonZero)
    else if FromLE(bytes[4..8]) % 2 == 0 then Err(MissingIndex)
    else if U64At(bytes, 8) % modulus < HEADER_SIZE then Err(IndexOverlapsHeader)
    else
      var indexSize, manifestOffset, manifestSize := SizeAt(bytes, 16, modulus), SizeAt(bytes, 24, modulus), SizeAt(bytes, 32, modulus);
      if HEADER_SIZE + indexSize >= modulus then Err(IndexOverflow)
      else if HEADER_SIZE + indexSize > |bytes| then Err(IndexBeyondFile)
      else if indexSize % INDEX_ENTRY_SIZE != 0 then Err(IndexMisaligned)
      else if manifestOffset + manifestSize >= modulus then Err(ManifestOverflow)
      else if manifestOffset + manifestSize > |bytes| then Err(ManifestBeyondFile)
      else if manifestOffset < HEADER_SIZE + indexSize then Err(ManifestOverlapsIndex)
      else Ok(Header(indexSize, manifestOffset, manifestSize))
  }

  method ReadLayout(bytes: Bytes, modulus: nat) returns (r: Parsed<Header>)
    requires |bytes| < modulus
    ensures r.Ok? <==> HeaderOk(bytes, modulus)
    ensures r.Err? ==> HeaderFault(bytes, modulus, modulus - 1, r.error)
    ensures r.Ok? ==> r.value == Header(SizeAt(bytes, 16, modulus), SizeAt(bytes, 24, modulus), SizeAt(bytes, 32, modulus))
  {
    if |bytes| >= HEADER_SIZE {
      MagicIsPrefix(bytes);
      assert HEADER_SIZE % modulus == HEADER_SIZE by { Remainder(0, HEADER_SIZE, modulus); }
    }
    r := ParseLayout(bytes, modulus);
  }

  function ParseDescriptor(bytes: Bytes, at: nat, indexEnd: nat, manifestOffset: nat, modulus: nat, hash: Hash): Parsed<Descriptor>
    requires at + INDEX_ENTRY_SIZE <= |bytes| && modulus > 0
  {
    var segmentId, tag := FromLE(bytes[at..at + 4]), FromLE(bytes[at + 4..at + 6]);
    if TagFrom(tag).None? then Err(UnknownBackendTag(tag))
    else
      var offset, len := SizeAt(bytes, at + 8, modulus), SizeAt(bytes, at + 16, modulus);
      if offset + len >= modulus then Err(SegmentOverflow)
      else if offset < indexEnd then Err(SegmentOverlapsIndex)
      else if offset + len > manifestOffset then Err(SegmentOverlapsManifest)
      else if offset + len > |bytes| then Err(SegmentBeyondFile)
      else if hash(bytes[offset..offset + len]) != bytes[at + 40..at + 72] then Err(SegmentHashMismatch(segmentId))
      else Ok(Descriptor(segmentId, TagFrom(tag).value, bytes[at + 24..at + 40], bytes[at + 40..at + 72], offset, len))
  }

  /** The descriptor of entry `i`. */
  predicate Describes(bytes: Bytes, i: nat, modulus: nat, hash: Hash, d: Descriptor)
    requires HeaderOk(bytes, modulus)
  {
    && EntryOkAt(bytes, i, modulus, hash)
    && d.offset + d.len <= |bytes|
    && SegmentAt(bytes, HEADER_SIZE + i * INDEX_ENTRY_SIZE, modulus) ==
       Segment(d.backendTag, d.scopeHash, d.segmentId, bytes[d.offset..d.offset + d.len], d.weightsHash)
  }

  method ReadDescriptor(bytes: Bytes, i: nat, h: Header, modulus: nat, hash: Hash) returns (r: Parsed<Descriptor>)
    requires |bytes| < modulus && HeaderOk(bytes, modulus) && i < EntryCount(bytes, modulus)
    requires h == Header(SizeAt(bytes, 16, modulus), SizeAt(bytes, 24, modulus), SizeAt(bytes, 32, modulus))
    ensures r.Ok? <==> EntryOkAt(bytes, i, modulus, hash)
    ensures r.Err? ==> EntryFault(bytes, HEADER_SIZE + i * INDEX_ENTRY_SIZE, HEADER_SIZE + h.indexSize, h.manifestOffset,
                                  modulus, modulus - 1, hash, r.error)
    ensures r.Ok? ==> Describes(bytes, i, modulus, hash, r.value)
  {
    r := ParseDescriptor(bytes, HEADER_SIZE + i * INDEX_ENTRY_SIZE, HEADER_SIZE + h.indexSize, h.manifestOffset, modulus, hash);
  }

  method ParseSegments(bytes: Bytes, h: Header, modulus: nat, hash: Hash) returns (r: Parsed<seq<Descriptor>>)
    requires |bytes| < modulus && HeaderOk(bytes, modulus)
    requires h == Header(SizeAt(bytes, 16, modulus), SizeAt(bytes, 24, modulus), SizeAt(bytes, 32, modulus))
    ensures r.Ok? <==> WellFormed(bytes, modulus, hash)
    ensures r.Err? ==> Blames(bytes, modulus, modulus - 1, hash, r.error)
    ensures r.Ok? ==> |r.value| == EntryCount(bytes, modulus)
    ensures r.Ok? ==> forall i :: 0 <= i < |r.value| ==> Describes(bytes, i, modulus, hash, r.value[i])
  {
    var ds: seq<Descriptor> := [];
    for i := 0 to h.indexSize / INDEX_ENTRY_SIZE
      invariant |ds| == i
      invariant forall j :: 0 <= j < i ==> Describes(bytes, j, modulus, hash, ds[j])
    {
      var d := ReadDescriptor(bytes, i, h, modulus, hash);
      if d.Err? {
        assert forall j :: 0 <= j < i ==> Describes(bytes, j, modulus, hash, ds[j]) && EntryOkAt(bytes, j, modulus, hash);
        assert FirstFault(bytes, i, modulus, modulus - 1, hash, d.error);
        return Err(d.error);
      }
      ds := ds + [d.value];
    }
    forall i | 0 <= i < EntryCount(bytes, modulus) ensures EntryOkAt(bytes, i, modulus, hash) {
      assert Describes(bytes, i, modulus, hash, ds[i]);
    }
    r := Ok(ds);
  }

  /** `view` is what a well-formed archive contains, without the weight hashes. */
  ghost predicate Presents(bytes: Bytes, modulus: nat, hash: Hash, view: ArchiveView)
    requires WellFormed(bytes, modulus, hash)
  {
    && view.manifest == bytes[SizeAt(bytes, 24, modulus)..SizeAt(bytes, 24, modulus) + SizeAt(bytes, 32, modulus)]
    && |view.segments| == EntryCount(bytes, modulus)
    && forall i :: 0 <= i < |view.segments| ==> Outlines(bytes, i, modulus, hash, view.segments[i])
  }

  predicate Outlines(bytes: Bytes, i: nat, modulus: nat, hash: Hash, v: SegmentView)
    requires HeaderOk(bytes, modulus)
  {
    EntryOkAt(bytes, i, modulus, hash) &&
    var s := SegmentAt(bytes, HEADER_SIZE + i * INDEX_ENTRY_SIZE, modulus);
    v == SegmentView(s.segmentId, s.backendTag, s.scopeHash, s.payload)
  }

  lemma SumTruncates(a: nat, b: nat, modulus: nat)
    requires modulus > 0 && U64 % modulus == 0 && a % modulus + b % modulus < modulus
    ensures ((a + b) % U64) % modulus == a % modulus + b % modulus
  {
    var q := U64 / modulus;
    assert U64 == q * modulus;
    var wraps := (a + b) / U64;
    assert a + b == wraps * U64 + (a + b) % U64;
    var k := a / modulus + b / modulus - wraps * q;
    assert (a + b) % U64 == k * modulus + (a % modulus + b % modulus) by {
      assert wraps * U64 == wraps * q * modulus;
      assert a == (a / modulus) * modulus + a % modulus && b == (b / modulus) * modulus + b % modulus;
      assert k * modulus == (a / modulus) * modulus + (b / modulus) * modulus - wraps * q * modulus;
    }
    Remainder(k, a % modulus + b % modulus, modulus);
  }

  lemma MultipleGap(d: int, m: nat)
    ensures d > 0 ==> d * m >= m
    ensures d < 0 ==> d * m <= 0 - m
  {
  }

  lemma Remainder(k: int, r: nat, m: nat)
    requires r < m && k * m + r >= 0
    ensures (k * m + r) % m == r
  {
    var x := k * m + r;
    assert x == (x / m) * m + x % m;
    var d := x / m - k;
    assert d * m == r - x % m;
    assert 0 - m < d * m < m;
    MultipleGap(d, m);
  }

  /** The payload of every descriptor, cut from the file. */
  method CutPayloads(bytes: Bytes, ds: seq<Descriptor>, ghost modulus: nat, ghost hash: Hash) returns (segments: seq<SegmentView>)
    requires HeaderOk(bytes, modulus)
    requires forall i :: 0 <= i < |ds| ==> Describes(bytes, i, modulus, hash, ds[i])
    ensures |segments| == |ds|
    ensures forall i :: 0 <= i < |ds| ==> Outlines(bytes, i, modulus, hash, segments[i])
  {
    segments := [];
    for i := 0 to |ds|
      invariant |segments| == i
      invariant forall j :: 0 <= j < i ==> Outlines(bytes, j, modulus, hash, segments[j])
    {
      assert Describes(bytes, i, modulus, hash, ds[i]);
      segments := segments + [SegmentView(ds[i].segmentId, ds[i].backendTag, ds[i].scopeHash, bytes[ds[i].offset..ds[i].offset + ds[i].len])];
    }
  }

  /** Opens exactly the archives that are well formed after truncation, and shows them. */
  method OpenTruncating(bytes: Bytes, modulus: nat, hash: Hash) returns (r: Parsed<ArchiveView>)
    requires |bytes| < modulus && U64 % modulus == 0
    ensures r.Ok? <==> WellFormed(bytes, modulus, hash)
    ensures r.Ok? ==> Presents(bytes, modulus, hash, r.value)
    ensures r.Err? ==> Blames(bytes, modulus, modulus - 1, hash, r.error)
  {
    var layout := ReadLayout(bytes, modulus);
    if layout.Err? {
      return Err(layout.error);
    }
    var parsed := ParseSegments(bytes, layout.value, modulus, hash);
    if parsed.Err? {
      return Err(parsed.error);
    }
    var segments := CutPayloads(bytes, parsed.value, modulus, hash);
    var start := U64At(bytes, 24) % modulus;
    SumTruncates(U64At(bytes, 24), U64At(bytes, 32), modulus);
    var end := ((U64At(bytes, 24) + U64At(bytes, 32)) % U64) % modulus;
    r := Ok(ArchiveView(bytes[start..end], segments));
  }

  // ---------- the two parsers ----------

  /** No field the parsers read is beyond `usize`. */
  ghost predicate FieldsFit(bytes: Bytes, modulus: nat)
    requires HeaderOk(bytes, modulus)
  {
    && HeaderFits(bytes, modulus)
    && forall i :: 0 <= i < EntryCount(bytes, modulus) ==> EntryFits(bytes, HEADER_SIZE + i * INDEX_ENTRY_SIZE, modulus)
  }

  predicate EntryFits(bytes: Bytes, at: nat, modulus: nat) {
    at + INDEX_ENTRY_SIZE <= |bytes| && U64At(bytes, at + 8) < modulus && U64At(bytes, at + 16) < modulus
  }

  /** A field that fits is read the same at either width. */
  lemma SameSize(bytes: Bytes, at: nat, modulus: nat)
    requires at + 8 <= |bytes| && 0 < modulus <= U64
    ensures SizeAt(bytes, at, U64) == U64At(bytes, at)
    ensures U64At(bytes, at) < modulus ==> SizeAt(bytes, at, modulus) == U64At(bytes, at)
  {
    Untruncated(bytes, at);
  }

  predicate HeaderFits(bytes: Bytes, modulus: nat) {
    |bytes| >= HEADER_SIZE && U64At(bytes, 16) < modulus && U64At(bytes, 24) < modulus && U64At(bytes, 32) < modulus
  }

  lemma HeaderWidth(bytes: Bytes, modulus: nat)
    requires |bytes| < modulus <= U64
    ensures HeaderOk(bytes, U64) ==> HeaderFits(bytes, modulus)
    ensures HeaderFits(bytes, modulus) ==>
              && (HeaderOk(bytes, U64) <==> HeaderOk(bytes, modulus))
              && SizeAt(bytes, 16, U64) == SizeAt(bytes, 16, modulus) && SizeAt(bytes, 24, U64) == SizeAt(bytes, 24, modulus)
  {
    if |bytes| >= HEADER_SIZE {
      SameSize(bytes, 16, modulus);
      SameSize(bytes, 24, modulus);
      SameSize(bytes, 32, modulus);
    }
  }

  lemma EntryWidth(bytes: Bytes, at: nat, lo: nat, hi: nat, modulus: nat, hash: Hash)
    requires |bytes| < modulus <= U64
    ensures EntryOk(bytes, at, lo, hi, U64, hash) ==> EntryFits(bytes, at, modulus)
    ensures EntryFits(bytes, at, modulus) ==> (EntryOk(bytes, at, lo, hi, U64, hash) <==> EntryOk(bytes, at, lo, hi, modulus, hash))
  {
    if at + INDEX_ENTRY_SIZE <= |bytes| {
      SameSize(bytes, at + 8, modulus);
      SameSize(bytes, at + 16, modulus);
    }
  }

  lemma EntryWidthAt(bytes: Bytes, i: nat, modulus: nat, hash: Hash)
    requires |bytes| < modulus <= U64 && HeaderOk(bytes, U64) && HeaderOk(bytes, modulus)
    requires SizeAt(bytes, 16, U64) == SizeAt(bytes, 16, modulus) && SizeAt(bytes, 24, U64) == SizeAt(bytes, 24, modulus)
    ensures EntryOkAt(bytes, i, U64, hash) <==>
            EntryOkAt(bytes, i, modulus, hash) && EntryFits(bytes, HEADER_SIZE + i * INDEX_ENTRY_SIZE, modulus)
  {
    EntryWidth(bytes, HEADER_SIZE + i * INDEX_ENTRY_SIZE, HEADER_SIZE + SizeAt(bytes, 16, modulus), SizeAt(bytes, 24, modulus), modulus, hash);
  }

  /**
   The loader's parser accepts exactly what this one accepts without having truncated anything; on a 64-bit
   platform, where nothing is ever truncated, they accept the same archives.
   */
  lemma ParsersAgreeExactly(bytes: Bytes, modulus: nat, hash: Hash)
    requires |bytes| < modulus <= U64
    ensures WellFormed(bytes, U64, hash) <==> WellFormed(bytes, modulus, hash) && FieldsFit(bytes, modulus)
  {
    HeaderWidth(bytes, modulus);
    if HeaderFits(bytes, modulus) && HeaderOk(bytes, U64) {
      assert EntryCount(bytes, U64) == EntryCount(bytes, modulus);
      if WellFormed(bytes, U64, hash) {
        forall i | 0 <= i < EntryCount(bytes, modulus)
          ensures EntryOkAt(bytes, i, modulus, hash) && EntryFits(bytes, HEADER_SIZE + i * INDEX_ENTRY_SIZE, modulus)
        {
          EntryWidthAt(bytes, i, modulus, hash);
        }
      }
      if WellFormed(bytes, modulus, hash) && FieldsFit(bytes, modulus) {
        forall i | 0 <= i < EntryCount(bytes, U64) ensures EntryOkAt(bytes, i, U64, hash) {
          EntryWidthAt(bytes, i, modulus, hash);
          assert EntryFits(bytes, HEADER_SIZE + i * INDEX_ENTRY_SIZE, modulus);
        }
      }
    }
  }

  // ---------- where they differ ----------

  lemma {:induction false} FromLESet(s: Bytes, k: nat, v: byte)
    requires k < |s|
    ensures FromLE(s[k := v]) == FromLE(s) + (v - s[k]) * Pow256(k)
  {
    if k == 0 {
      assert s[0 := v][1..] == s[1..];
    } else {
      FromLESet(s[1..], k - 1, v);
      assert s[k := v][1..] == s[1..][k - 1 := v];
      Shifted(v - s[k], Pow256(k - 1));
    }
  }

  lemma Shifted(d: int, p: nat)
    ensures 256 * (d * p) == d * (256 * p)
  {
  }

  /** A 64-bit number below 2^32 has a zero fifth byte; setting it to one adds 2^32. */
  lemma FifthByte(s: Bytes)
    requires |s| == 8 && FromLE(s) < U32
    ensures s[4] == 0 && FromLE(s[4 := 1]) == FromLE(s) + U32
  {
    Widths();
    FromLESet(s, 4, 0);
    FromLESet(s, 4, 1);
    assert (0 - s[4]) * U32 + FromLE(s) >= 0;
  }

  /** The archive with the fifth byte of its manifest size set to one. */
  function Enlarged(bytes: Bytes): Bytes
    requires |bytes| >= HEADER_SIZE
  {
    bytes[36 := 1]
  }

  lemma EnlargedSlice(bytes: Bytes, from: nat, to: nat)
    requires |bytes| >= HEADER_SIZE && from <= to <= |bytes| && (to <= 36 || from >= 37)
    ensures Enlarged(bytes)[from..to] == bytes[from..to]
  {
  }

  lemma EnlargedField(bytes: Bytes, at: nat, modulus: nat)
    requires |bytes| >= HEADER_SIZE && at + 8 <= |bytes| && (at + 8 <= 36 || at >= 37) && modulus > 0
    ensures U64At(Enlarged(bytes), at) == U64At(bytes, at) && SizeAt(Enlarged(bytes), at, modulus) == SizeAt(bytes, at, modulus)
  {
    EnlargedSlice(bytes, at, at + 8);
  }

  lemma EnlargedManifestSize(bytes: Bytes)
    requires |bytes| >= HEADER_SIZE && U64At(bytes, 32) < U32
    ensures U64At(Enlarged(bytes), 32) == U64At(bytes, 32) + U32
    ensures SizeAt(Enlarged(bytes), 32, U32) == U64At(bytes, 32) && SizeAt(Enlarged(bytes), 32, U64) >= U32
  {
    FifthByte(bytes[32..40]);
    assert Enlarged(bytes)[32..40] == bytes[32..40][4 := 1];
    U64AtBound(Enlarged(bytes), 32);
  }

  lemma EnlargedHeader(bytes: Bytes)
    requires HeaderOk(bytes, U32) && U64At(bytes, 32) < U32
    ensures HeaderOk(Enlarged(bytes), U32)
    ensures SizeAt(Enlarged(bytes), 16, U32) == SizeAt(bytes, 16, U32) && SizeAt(Enlarged(bytes), 24, U32) == SizeAt(bytes, 24, U32)
  {
    var b := Enlarged(bytes);
    EnlargedField(bytes, 8, U32);
    EnlargedField(bytes, 16, U32);
    EnlargedField(bytes, 24, U32);
    EnlargedManifestSize(bytes);
    EnlargedSlice(bytes, 4, 8);
    EnlargedSlice(bytes, 0, 4);
    MagicIsPrefix(bytes);
    MagicIsPrefix(b);
  }

  lemma EnlargedEntry(bytes: Bytes, at: nat, lo: nat, hi: nat, hash: Hash)
    requires |bytes| >= HEADER_SIZE && at >= HEADER_SIZE && lo >= HEADER_SIZE && EntryOk(bytes, at, lo, hi, U32, hash)
    ensures EntryOk(Enlarged(bytes), at, lo, hi, U32, hash)
  {
    EnlargedSlice(bytes, at + 4, at + 6);
    EnlargedField(bytes, at + 8, U32);
    EnlargedField(bytes, at + 16, U32);
    EnlargedSlice(bytes, at + 40, at + 72);
    var offset, len := SizeAt(bytes, at + 8, U32), SizeAt(bytes, at + 16, U32);
    EnlargedSlice(bytes, offset, offset + len);
  }

  lemma EnlargedEntryAt(bytes: Bytes, i: nat, hash: Hash)
    requires HeaderOk(bytes, U32) && U64At(bytes, 32) < U32 && EntryOkAt(bytes, i, U32, hash)
    ensures HeaderOk(Enlarged(bytes), U32) && EntryOkAt(Enlarged(bytes), i, U32, hash)
  {
    EnlargedHeader(bytes);
    EnlargedEntry(bytes, HEADER_SIZE + i * INDEX_ENTRY_SIZE, HEADER_SIZE + SizeAt(bytes, 16, U32), SizeAt(bytes, 24, U32), hash);
  }

  lemma EnlargedOpens(bytes: Bytes, hash: Hash)
    requires WellFormed(bytes, U32, hash) && U64At(bytes, 32) < U32
    ensures WellFormed(Enlarged(bytes), U32, hash)
  {
    EnlargedHeader(bytes);
    forall i | 0 <= i < EntryCount(Enlarged(bytes), U32) ensures EntryOkAt(Enlarged(bytes), i, U32, hash) {
      assert EntryOkAt(bytes, i, U32, hash);
      EnlargedEntryAt(bytes, i, hash);
    }
  }

  /**
   Every archive shorter than 4 GiB becomes, by changing one byte, one that this parser opens on a 32-bit
   platform and the loader refuses everywhere.
   */
  lemma ParsersDiffer(bytes: Bytes, hash: Hash)
    requires WellFormed(bytes, U64, hash) && |bytes| < U32
    ensures WellFormed(Enlarged(bytes), U32, hash) && !WellFormed(Enlarged(bytes), U64, hash)
  {
    ParsersAgreeExactly(bytes, U32, hash);
    EnlargedOpens(bytes, hash);
    EnlargedManifestSize(bytes);
  }
}
