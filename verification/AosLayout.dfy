/**
 The layout the archive writer produces, and that a reader of the format finds everything in it again.
 */
module AosLayout {
  import opened Wrappers
  import opened AosFormat

  datatype Pending = Pending(segmentId: nat, backendTag: BackendTag, scopeHash: Bytes, weightsHash: Bytes, payload: Bytes)

  function Zeros(n: nat): (z: Bytes)
    ensures |z| == n && forall k :: 0 <= k < n ==> z[k] == 0
  {
    seq(n, _ => 0)
  }

  // ---------- fields one after another ----------

  function Join(fields: seq<Bytes>): Bytes {
    if fields == [] then [] else Join(fields[..|fields| - 1]) + fields[|fields| - 1]
  }

  /** Where field `i` starts. */
  function Start(fields: seq<Bytes>, i: nat): nat
    requires i <= |fields|
  {
    if i == 0 then 0 else Start(fields, i - 1) + |fields[i - 1]|
  }

  lemma StartNext(fields: seq<Bytes>, i: nat)
    requires i < |fields|
    ensures Start(fields, i + 1) == Start(fields, i) + |fields[i]|
  {
  }

  lemma {:induction false} StartOfPrefix(fields: seq<Bytes>, n: nat, i: nat)
    requires i <= n <= |fields|
    ensures Start(fields[..n], i) == Start(fields, i)
  {
    if i > 0 { StartOfPrefix(fields, n, i - 1); }
  }

  lemma {:induction false} JoinLength(fields: seq<Bytes>)
    ensures |Join(fields)| == Start(fields, |fields|)
  {
    if fields != [] {
      JoinLength(fields[..|fields| - 1]);
      StartOfPrefix(fields, |fields| - 1, |fields| - 1);
    }
  }

  /** `field` is in `bytes` at position `at`. */
  predicate HasAt(bytes: Bytes, at: nat, field: Bytes) {
    at + |field| <= |bytes| && bytes[at..at + |field|] == field
  }

  lemma AppendAt(bytes: Bytes, more: Bytes, at: nat, field: Bytes)
    requires HasAt(bytes, at, field)
    ensures HasAt(bytes + more, at, field)
  {
    assert (bytes + more)[..|bytes|] == bytes;
  }

  lemma {:induction false} JoinAt(fields: seq<Bytes>, i: nat)
    requires i < |fields|
    ensures HasAt(Join(fields), Start(fields, i), fields[i])
    decreases |fields|
  {
    var n := |fields| - 1;
    StartOfPrefix(fields, n, i);
    if i < n {
      JoinAt(fields[..n], i);
      AppendAt(Join(fields[..n]), fields[n], Start(fields, i), fields[i]);
    } else {
      JoinLength(fields[..n]);
    }
  }

  /** A field of a field. */
  lemma HasAtNested(bytes: Bytes, at: nat, outer: Bytes, k: nat, inner: Bytes)
    requires HasAt(bytes, at, outer) && HasAt(outer, k, inner)
    ensures HasAt(bytes, at + k, inner)
  {
    var got := bytes[at + k..at + k + |inner|];
    forall j | 0 <= j < |inner| ensures got[j] == inner[j] {
      assert got[j] == bytes[at + k + j] == outer[k + j] == inner[j];
    }
  }

  lemma ReadU64(bytes: Bytes, at: nat, n: nat)
    requires HasAt(bytes, at, ToLE(n, 8)) && n < U64
    ensures U64At(bytes, at) == n
  {
    Widths();
    LERoundTrip(n, 8);
  }

  // ---------- the layout ----------

  function HeaderFields(indexSize: nat, manifestOffset: nat, manifestSize: nat): seq<Bytes> {
    [AOS_MAGIC, ToLE(1, 4), ToLE(HEADER_SIZE, 8), ToLE(indexSize, 8), ToLE(manifestOffset, 8), ToLE(manifestSize, 8), Zeros(24)]
  }

  function EntryFields(seg: Pending, offset: nat, scopeHash: Bytes, hash: Hash): seq<Bytes> {
    [ToLE(seg.segmentId, 4), ToLE(seg.backendTag.AsU16(), 2), Zeros(2), ToLE(offset, 8), ToLE(|seg.payload|, 8),
     scopeHash, hash(seg.payload), Zeros(8)]
  }

  function PayloadFields(segs: seq<Pending>): (r: seq<Bytes>)
    ensures |r| == |segs|
  {
    seq(|segs|, i requires 0 <= i < |segs| => segs[i].payload)
  }

  /** Payloads start after the header and one entry per segment. */
  function PayloadBase(segs: seq<Pending>): nat { HEADER_SIZE + |segs| * INDEX_ENTRY_SIZE }

  function OffsetOf(segs: seq<Pending>, i: nat): nat
    requires i <= |segs|
  {
    PayloadBase(segs) + Start(PayloadFields(segs), i)
  }

  function IndexFields(segs: seq<Pending>, scopeHash: Bytes, hash: Hash): (r: seq<Bytes>)
    ensures |r| == |segs|
  {
    seq(|segs|, i requires 0 <= i < |segs| => Join(EntryFields(segs[i], OffsetOf(segs, i), scopeHash, hash)))
  }

  function ArchiveFields(segs: seq<Pending>, scopeHash: Bytes, manifest: Bytes, hash: Hash): seq<Bytes> {
    [Join(HeaderFields(|segs| * INDEX_ENTRY_SIZE, OffsetOf(segs, |segs|), |manifest|)),
     Join(IndexFields(segs, scopeHash, hash)), Join(PayloadFields(segs)), manifest]
  }

  function Archive(segs: seq<Pending>, scopeHash: Bytes, manifest: Bytes, hash: Hash): Bytes {
    Join(ArchiveFields(segs, scopeHash, manifest, hash))
  }

  // ---------- where each field is ----------

  lemma HeaderLayout(fields: seq<Bytes>)
    requires |fields| == 7 && |fields[0]| == 4 && |fields[1]| == 4 && |fields[6]| == 24
    requires |fields[2]| == 8 && |fields[3]| == 8 && |fields[4]| == 8 && |fields[5]| == 8
    ensures Start(fields, 0) == 0 && Start(fields, 1) == 4 && Start(fields, 2) == 8 && Start(fields, 3) == 16
    ensures Start(fields, 4) == 24 && Start(fields, 5) == 32 && Start(fields, 6) == 40 && |Join(fields)| == HEADER_SIZE
  {
    StartNext(fields, 0);
    StartNext(fields, 1);
    StartNext(fields, 2);
    StartNext(fields, 3);
    StartNext(fields, 4);
    StartNext(fields, 5);
    StartNext(fields, 6);
    JoinLength(fields);
  }

  lemma EntryLayout(fields: seq<Bytes>)
    requires |fields| == 8 && |fields[0]| == 4 && |fields[1]| == 2 && |fields[2]| == 2 && |fields[3]| == 8
    requires |fields[4]| == 8 && |fields[5]| == 16 && |fields[6]| == 32 && |fields[7]| == 8
    ensures Start(fields, 0) == 0 && Start(fields, 1) == 4 && Start(fields, 3) == 8 && Start(fields, 4) == 16
    ensures Start(fields, 5) == 24 && Start(fields, 6) == 40 && |Join(fields)| == INDEX_ENTRY_SIZE
  {
    StartNext(fields, 0);
    StartNext(fields, 1);
    StartNext(fields, 2);
    StartNext(fields, 3);
    StartNext(fields, 4);
    StartNext(fields, 5);
    StartNext(fields, 6);
    StartNext(fields, 7);
    JoinLength(fields);
  }

  lemma {:induction false} EqualFields(fields: seq<Bytes>, size: nat, i: nat)
    requires i <= |fields| && forall k :: 0 <= k < |fields| ==> |fields[k]| == size
    ensures Start(fields, i) == i * size
  {
    if i > 0 {
      EqualFields(fields, size, i - 1);
      StartNext(fields, i - 1);
      assert i * size == (i - 1) * size + size;
    }
  }

  lemma FourParts(a: Bytes, b: Bytes, c: Bytes, d: Bytes)
    ensures var fields := [a, b, c, d];
            && Start(fields, 0) == 0 && Start(fields, 1) == |a| && Start(fields, 2) == |a| + |b|
            && Start(fields, 3) == |a| + |b| + |c| && |Join(fields)| == |a| + |b| + |c| + |d|
  {
    var fields := [a, b, c, d];
    StartNext(fields, 0);
    StartNext(fields, 1);
    StartNext(fields, 2);
    StartNext(fields, 3);
    JoinLength(fields);
  }

  lemma EntrySize(seg: Pending, offset: nat, scopeHash: Bytes, hash: Hash)
    requires |scopeHash| == 16 && Is32(hash)
    ensures |Join(EntryFields(seg, offset, scopeHash, hash))| == INDEX_ENTRY_SIZE
  {
    EntryLayout(EntryFields(seg, offset, scopeHash, hash));
  }

  lemma IndexLayout(segs: seq<Pending>, scopeHash: Bytes, hash: Hash, i: nat)
    requires |scopeHash| == 16 && Is32(hash) && i <= |segs|
    ensures Start(IndexFields(segs, scopeHash, hash), i) == i * INDEX_ENTRY_SIZE
    ensures |Join(IndexFields(segs, scopeHash, hash))| == |segs| * INDEX_ENTRY_SIZE
  {
    var fields := IndexFields(segs, scopeHash, hash);
    forall k | 0 <= k < |segs| ensures |fields[k]| == INDEX_ENTRY_SIZE {
      EntrySize(segs[k], OffsetOf(segs, k), scopeHash, hash);
    }
    EqualFields(fields, INDEX_ENTRY_SIZE, i);
    EqualFields(fields, INDEX_ENTRY_SIZE, |segs|);
    JoinLength(fields);
  }

  lemma HeaderSize(indexSize: nat, manifestOffset: nat, manifestSize: nat)
    ensures |Join(HeaderFields(indexSize, manifestOffset, manifestSize))| == HEADER_SIZE
  {
    HeaderLayout(HeaderFields(indexSize, manifestOffset, manifestSize));
  }

  /** Header, index, payloads and manifest follow one another. */
  lemma ArchiveLayout(segs: seq<Pending>, scopeHash: Bytes, manifest: Bytes, hash: Hash)
    requires |scopeHash| == 16 && Is32(hash)
    ensures var fields := ArchiveFields(segs, scopeHash, manifest, hash);
            && Start(fields, 0) == 0 && Start(fields, 1) == HEADER_SIZE && Start(fields, 2) == PayloadBase(segs)
            && Start(fields, 3) == OffsetOf(segs, |segs|)
            && |Archive(segs, scopeHash, manifest, hash)| == OffsetOf(segs, |segs|) + |manifest|
  {
    var header := Join(HeaderFields(|segs| * INDEX_ENTRY_SIZE, OffsetOf(segs, |segs|), |manifest|));
    HeaderSize(|segs| * INDEX_ENTRY_SIZE, OffsetOf(segs, |segs|), |manifest|);
    IndexLayout(segs, scopeHash, hash, |segs|);
    JoinLength(PayloadFields(segs));
    FourParts(header, Join(IndexFields(segs, scopeHash, hash)), Join(PayloadFields(segs)), manifest);
  }

  // ---------- reading fields back ----------

  /** Field `k` of `fields`, when these are joined at `at`. */
  lemma FieldAt(bytes: Bytes, at: nat, fields: seq<Bytes>, k: nat, start: nat)
    requires HasAt(bytes, at, Join(fields)) && k < |fields| && start == Start(fields, k)
    ensures HasAt(bytes, at + start, fields[k])
  {
    JoinAt(fields, k);
    HasAtNested(bytes, at, Join(fields), start, fields[k]);
  }

  /** The header, the index, the payloads and the manifest, one after the other. */
  ghost predicate Laid(bytes: Bytes, segs: seq<Pending>, scopeHash: Bytes, manifest: Bytes, hash: Hash) {
    && |bytes| == OffsetOf(segs, |segs|) + |manifest|
    && HasAt(bytes, 0, Join(HeaderFields(|segs| * INDEX_ENTRY_SIZE, OffsetOf(segs, |segs|), |manifest|)))
    && HasAt(bytes, HEADER_SIZE, Join(IndexFields(segs, scopeHash, hash)))
    && HasAt(bytes, PayloadBase(segs), Join(PayloadFields(segs)))
    && HasAt(bytes, OffsetOf(segs, |segs|), manifest)
  }

  lemma ArchiveIsLaid(segs: seq<Pending>, scopeHash: Bytes, manifest: Bytes, hash: Hash)
    requires |scopeHash| == 16 && Is32(hash)
    ensures Laid(Archive(segs, scopeHash, manifest, hash), segs, scopeHash, manifest, hash)
  {
    var fields := ArchiveFields(segs, scopeHash, manifest, hash);
    ArchiveLayout(segs, scopeHash, manifest, hash);
    JoinAt(fields, 0);
    JoinAt(fields, 1);
    JoinAt(fields, 2);
    JoinAt(fields, 3);
  }

  /** The bytes of a header with these values. */
  predicate HeaderBytes(bytes: Bytes, indexSize: nat, manifestOffset: nat, manifestSize: nat) {
    && |bytes| >= HEADER_SIZE
    && HasAt(bytes, 0, AOS_MAGIC) && HasAt(bytes, 4, ToLE(1, 4)) && HasAt(bytes, 8, ToLE(HEADER_SIZE, 8))
    && HasAt(bytes, 16, ToLE(indexSize, 8)) && HasAt(bytes, 24, ToLE(manifestOffset, 8))
    && HasAt(bytes, 32, ToLE(manifestSize, 8)) && HasAt(bytes, 40, Zeros(24))
  }

  lemma HeaderBytesAt(bytes: Bytes, indexSize: nat, manifestOffset: nat, manifestSize: nat)
    requires HasAt(bytes, 0, Join(HeaderFields(indexSize, manifestOffset, manifestSize)))
    ensures HeaderBytes(bytes, indexSize, manifestOffset, manifestSize)
  {
    var fields := HeaderFields(indexSize, manifestOffset, manifestSize);
    HeaderSevenAt(bytes, fields);
  }

  lemma HeaderSevenAt(bytes: Bytes, fields: seq<Bytes>)
    requires |fields| == 7 && |fields[0]| == 4 && |fields[1]| == 4 && |fields[6]| == 24
    requires |fields[2]| == 8 && |fields[3]| == 8 && |fields[4]| == 8 && |fields[5]| == 8
    requires HasAt(bytes, 0, Join(fields))
    ensures |bytes| >= HEADER_SIZE
    ensures HasAt(bytes, 0, fields[0]) && HasAt(bytes, 4, fields[1]) && HasAt(bytes, 8, fields[2])
    ensures HasAt(bytes, 16, fields[3]) && HasAt(bytes, 24, fields[4]) && HasAt(bytes, 32, fields[5]) && HasAt(bytes, 40, fields[6])
  {
    HeaderLayout(fields);
    FieldAt(bytes, 0, fields, 0, 0);
    FieldAt(bytes, 0, fields, 1, 4);
    FieldAt(bytes, 0, fields, 2, 8);
    FieldAt(bytes, 0, fields, 3, 16);
    FieldAt(bytes, 0, fields, 4, 24);
    FieldAt(bytes, 0, fields, 5, 32);
    FieldAt(bytes, 0, fields, 6, 40);
  }

  lemma HeaderMarks(bytes: Bytes)
    requires |bytes| >= HEADER_SIZE && HasAt(bytes, 0, AOS_MAGIC) && HasAt(bytes, 4, ToLE(1, 4)) && HasAt(bytes, 40, Zeros(24))
    ensures HasMagic(bytes) && FromLE(bytes[4..8]) == 1
    ensures forall k :: 40 <= k < HEADER_SIZE ==> bytes[k] == 0
  {
    Widths();
    LERoundTrip(1, 4);
    forall k | 40 <= k < HEADER_SIZE ensures bytes[k] == 0 {
      assert bytes[40..64][k - 40] == bytes[k];
    }
  }

  lemma ReadSize(bytes: Bytes, at: nat, n: nat)
    requires HasAt(bytes, at, ToLE(n, 8)) && n < U64
    ensures SizeAt(bytes, at, U64) == n && U64At(bytes, at) == n
  {
    ReadU64(bytes, at, n);
  }

  lemma HeaderDecodes(bytes: Bytes, indexSize: nat, manifestOffset: nat, manifestSize: nat)
    requires HeaderBytes(bytes, indexSize, manifestOffset, manifestSize)
    requires indexSize % INDEX_ENTRY_SIZE == 0 && HEADER_SIZE + indexSize <= manifestOffset
    requires manifestOffset + manifestSize <= |bytes| < U64
    ensures HeaderOk(bytes, U64)
    ensures SizeAt(bytes, 16, U64) == indexSize && SizeAt(bytes, 24, U64) == manifestOffset && SizeAt(bytes, 32, U64) == manifestSize
  {
    HeaderMarks(bytes);
    ReadSize(bytes, 8, HEADER_SIZE);
    ReadSize(bytes, 16, indexSize);
    ReadSize(bytes, 24, manifestOffset);
    ReadSize(bytes, 32, manifestSize);
  }

  lemma WholeEntries(n: nat)
    ensures (n * INDEX_ENTRY_SIZE) % INDEX_ENTRY_SIZE == 0
  {
  }

  lemma HeaderReads(bytes: Bytes, entries: nat, manifestOffset: nat, manifestSize: nat)
    requires HasAt(bytes, 0, Join(HeaderFields(entries * INDEX_ENTRY_SIZE, manifestOffset, manifestSize)))
    requires HEADER_SIZE + entries * INDEX_ENTRY_SIZE <= manifestOffset && manifestOffset + manifestSize <= |bytes| < U64
    ensures HeaderOk(bytes, U64) && EntryCount(bytes, U64) == entries
    ensures SizeAt(bytes, 16, U64) == entries * INDEX_ENTRY_SIZE
    ensures SizeAt(bytes, 24, U64) == manifestOffset && SizeAt(bytes, 32, U64) == manifestSize
  {
    WholeEntries(entries);
    HeaderBytesAt(bytes, entries * INDEX_ENTRY_SIZE, manifestOffset, manifestSize);
    HeaderDecodes(bytes, entries * INDEX_ENTRY_SIZE, manifestOffset, manifestSize);
  }

  lemma {:induction false} StartsGrow(fields: seq<Bytes>, i: nat, j: nat)
    requires i < j <= |fields|
    ensures Start(fields, i) + |fields[i]| <= Start(fields, j)
  {
    StartNext(fields, j - 1);
    if i < j - 1 { StartsGrow(fields, i, j - 1); }
  }

  /** Each payload is between the index and the manifest, at the offset its entry gives. */
  lemma PayloadAt(bytes: Bytes, segs: seq<Pending>, i: nat)
    requires HasAt(bytes, PayloadBase(segs), Join(PayloadFields(segs))) && i < |segs|
    ensures HasAt(bytes, OffsetOf(segs, i), segs[i].payload)
    ensures PayloadBase(segs) <= OffsetOf(segs, i) && OffsetOf(segs, i) + |segs[i].payload| <= OffsetOf(segs, |segs|)
  {
    FieldAt(bytes, PayloadBase(segs), PayloadFields(segs), i, Start(PayloadFields(segs), i));
    StartsGrow(PayloadFields(segs), i, |segs|);
  }

  /** Entry `i`, as a whole. */
  lemma EntryAt(bytes: Bytes, segs: seq<Pending>, scopeHash: Bytes, hash: Hash, i: nat)
    requires |scopeHash| == 16 && Is32(hash) && i < |segs|
    requires HasAt(bytes, HEADER_SIZE, Join(IndexFields(segs, scopeHash, hash)))
    ensures HasAt(bytes, HEADER_SIZE + i * INDEX_ENTRY_SIZE, Join(EntryFields(segs[i], OffsetOf(segs, i), scopeHash, hash)))
  {
    IndexLayout(segs, scopeHash, hash, i);
    FieldAt(bytes, HEADER_SIZE, IndexFields(segs, scopeHash, hash), i, i * INDEX_ENTRY_SIZE);
  }

  lemma EntryEightAt(bytes: Bytes, at: nat, fields: seq<Bytes>)
    requires |fields| == 8 && |fields[0]| == 4 && |fields[1]| == 2 && |fields[2]| == 2 && |fields[3]| == 8
    requires |fields[4]| == 8 && |fields[5]| == 16 && |fields[6]| == 32 && |fields[7]| == 8
    requires HasAt(bytes, at, Join(fields))
    ensures at + INDEX_ENTRY_SIZE <= |bytes|
    ensures HasAt(bytes, at, fields[0]) && HasAt(bytes, at + 4, fields[1]) && HasAt(bytes, at + 8, fields[3])
    ensures HasAt(bytes, at + 16, fields[4]) && HasAt(bytes, at + 24, fields[5]) && HasAt(bytes, at + 40, fields[6])
  {
    EntryLayout(fields);
    FieldAt(bytes, at, fields, 0, 0);
    FieldAt(bytes, at, fields, 1, 4);
    FieldAt(bytes, at, fields, 3, 8);
    FieldAt(bytes, at, fields, 4, 16);
    FieldAt(bytes, at, fields, 5, 24);
    FieldAt(bytes, at, fields, 6, 40);
  }

  /** The bytes of the index entry of `seg`. */
  predicate EntryBytes(bytes: Bytes, at: nat, seg: Pending, offset: nat, scopeHash: Bytes, hash: Hash) {
    && at + INDEX_ENTRY_SIZE <= |bytes|
    && HasAt(bytes, at, ToLE(seg.segmentId, 4)) && HasAt(bytes, at + 4, ToLE(seg.backendTag.AsU16(), 2))
    && HasAt(bytes, at + 8, ToLE(offset, 8)) && HasAt(bytes, at + 16, ToLE(|seg.payload|, 8))
    && HasAt(bytes, at + 24, scopeHash) && HasAt(bytes, at + 40, hash(seg.payload))
  }

  lemma EntryBytesAt(bytes: Bytes, at: nat, seg: Pending, offset: nat, scopeHash: Bytes, hash: Hash)
    requires |scopeHash| == 16 && Is32(hash)
    requires HasAt(bytes, at, Join(EntryFields(seg, offset, scopeHash, hash)))
    ensures EntryBytes(bytes, at, seg, offset, scopeHash, hash)
  {
    EntryEightAt(bytes, at, EntryFields(seg, offset, scopeHash, hash));
  }

  /** The entry at `at` is well formed and describes `segment`. */
  predicate Describes(bytes: Bytes, at: nat, lo: nat, hi: nat, hash: Hash, segment: Segment) {
    EntryOk(bytes, at, lo, hi, U64, hash) && SegmentAt(bytes, at, U64) == segment
  }

  lemma EntryDecodes(bytes: Bytes, at: nat, seg: Pending, offset: nat, scopeHash: Bytes, hash: Hash, lo: nat, hi: nat)
    requires |scopeHash| == 16 && Is32(hash) && seg.segmentId < U32 && hi <= |bytes| < U64
    requires EntryBytes(bytes, at, seg, offset, scopeHash, hash) && HasAt(bytes, offset, seg.payload)
    requires lo <= offset && offset + |seg.payload| <= hi
    ensures Describes(bytes, at, lo, hi, hash, Segment(seg.backendTag, scopeHash, seg.segmentId, seg.payload, hash(seg.payload)))
  {
    EntryNumbers(bytes, at, seg.segmentId, seg.backendTag, offset, |seg.payload|);
    assert |hash(seg.payload)| == 32;
  }

  /** The numbers of an entry, read back. */
  lemma EntryNumbers(bytes: Bytes, at: nat, id: nat, tag: BackendTag, offset: nat, size: nat)
    requires id < U32 && offset < U64 && size < U64
    requires HasAt(bytes, at, ToLE(id, 4)) && HasAt(bytes, at + 4, ToLE(tag.AsU16(), 2))
    requires HasAt(bytes, at + 8, ToLE(offset, 8)) && HasAt(bytes, at + 16, ToLE(size, 8))
    ensures at + 24 <= |bytes| && FromLE(bytes[at..at + 4]) == id
    ensures FromLE(bytes[at + 4..at + 6]) == tag.AsU16() < 4 && TagFrom(tag.AsU16()) == Some(tag)
    ensures SizeAt(bytes, at + 8, U64) == offset && SizeAt(bytes, at + 16, U64) == size
  {
    Widths();
    LERoundTrip(id, 4);
    LERoundTrip(tag.AsU16(), 2);
    ReadSize(bytes, at + 8, offset);
    ReadSize(bytes, at + 16, size);
  }

  // ---------- the round trip ----------

  predicate Writable(segs: seq<Pending>) {
    forall i :: 0 <= i < |segs| ==> segs[i].segmentId < U32
  }

  /** What opening the archive should show. */
  function Expected(segs: seq<Pending>, scopeHash: Bytes, hash: Hash): (r: seq<Segment>)
    ensures |r| == |segs|
  {
    seq(|segs|, i requires 0 <= i < |segs| =>
      Segment(segs[i].backendTag, scopeHash, segs[i].segmentId, segs[i].payload, hash(segs[i].payload)))
  }

  /** An entry and its payload in place. */
  lemma EntryWithPayload(bytes: Bytes, at: nat, seg: Pending, offset: nat, scopeHash: Bytes, hash: Hash, lo: nat, hi: nat)
    requires |scopeHash| == 16 && Is32(hash) && seg.segmentId < U32 && hi <= |bytes| < U64
    requires HasAt(bytes, at, Join(EntryFields(seg, offset, scopeHash, hash))) && HasAt(bytes, offset, seg.payload)
    requires lo <= offset && offset + |seg.payload| <= hi
    ensures Describes(bytes, at, lo, hi, hash, Segment(seg.backendTag, scopeHash, seg.segmentId, seg.payload, hash(seg.payload)))
  {
    EntryBytesAt(bytes, at, seg, offset, scopeHash, hash);
    EntryDecodes(bytes, at, seg, offset, scopeHash, hash, lo, hi);
  }

  /** Entry `i` is well formed and describes segment `i`. */
  lemma EntryShows(bytes: Bytes, segs: seq<Pending>, scopeHash: Bytes, hash: Hash, i: nat)
    requires |scopeHash| == 16 && Is32(hash) && i < |segs| && segs[i].segmentId < U32
    requires HasAt(bytes, HEADER_SIZE, Join(IndexFields(segs, scopeHash, hash)))
    requires HasAt(bytes, PayloadBase(segs), Join(PayloadFields(segs))) && OffsetOf(segs, |segs|) <= |bytes| < U64
    ensures Describes(bytes, HEADER_SIZE + i * INDEX_ENTRY_SIZE, PayloadBase(segs), OffsetOf(segs, |segs|), hash,
                      Expected(segs, scopeHash, hash)[i])
  {
    var at := HEADER_SIZE + i * INDEX_ENTRY_SIZE;
    assert HasAt(bytes, at, Join(EntryFields(segs[i], OffsetOf(segs, i), scopeHash, hash))) by {
      EntryAt(bytes, segs, scopeHash, hash, i);
    }
    assert HasAt(bytes, OffsetOf(segs, i), segs[i].payload) && PayloadBase(segs) <= OffsetOf(segs, i)
           && OffsetOf(segs, i) + |segs[i].payload| <= OffsetOf(segs, |segs|) by {
      PayloadAt(bytes, segs, i);
    }
    EntryWithPayload(bytes, at, segs[i], OffsetOf(segs, i), scopeHash, hash, PayloadBase(segs), OffsetOf(segs, |segs|));
  }

  lemma ShowsAt(bytes: Bytes, i: nat, at: nat, lo: nat, hi: nat, hash: Hash, segment: Segment)
    requires HeaderOk(bytes, U64) && at == HEADER_SIZE + i * INDEX_ENTRY_SIZE
    requires lo == HEADER_SIZE + SizeAt(bytes, 16, U64) && hi == SizeAt(bytes, 24, U64)
    requires Describes(bytes, at, lo, hi, hash, segment)
    ensures IsSegment(bytes, i, U64, hash, segment)
  {
  }

  /** Bytes laid out so are well formed, and show the manifest and the segments. */
  lemma LaidShows(bytes: Bytes, segs: seq<Pending>, scopeHash: Bytes, manifest: Bytes, hash: Hash)
    requires |scopeHash| == 16 && Is32(hash) && Writable(segs) && |bytes| < U64
    requires Laid(bytes, segs, scopeHash, manifest, hash)
    ensures WellFormed(bytes, U64, hash)
    ensures Shows(bytes, U64, hash, FileView(manifest, Expected(segs, scopeHash, hash)))
  {
    LaidHeader(bytes, segs, scopeHash, manifest, hash);
    forall i | 0 <= i < |segs|
      ensures IsSegment(bytes, i, U64, hash, Expected(segs, scopeHash, hash)[i])
    {
      EntryShows(bytes, segs, scopeHash, hash, i);
      ShowsAt(bytes, i, HEADER_SIZE + i * INDEX_ENTRY_SIZE, PayloadBase(segs), OffsetOf(segs, |segs|), hash,
              Expected(segs, scopeHash, hash)[i]);
    }
    ShownSegments(bytes, manifest, Expected(segs, scopeHash, hash), OffsetOf(segs, |segs|), hash);
  }

  lemma LaidHeader(bytes: Bytes, segs: seq<Pending>, scopeHash: Bytes, manifest: Bytes, hash: Hash)
    requires |bytes| < U64 && Laid(bytes, segs, scopeHash, manifest, hash)
    ensures HeaderOk(bytes, U64) && EntryCount(bytes, U64) == |segs|
    ensures HEADER_SIZE + SizeAt(bytes, 16, U64) == PayloadBase(segs)
    ensures SizeAt(bytes, 24, U64) == OffsetOf(segs, |segs|) && SizeAt(bytes, 32, U64) == |manifest|
  {
    HeaderReads(bytes, |segs|, OffsetOf(segs, |segs|), |manifest|);
  }

  lemma ShownSegments(bytes: Bytes, manifest: Bytes, segments: seq<Segment>, offset: nat, hash: Hash)
    requires HeaderOk(bytes, U64) && EntryCount(bytes, U64) == |segments|
    requires SizeAt(bytes, 24, U64) == offset && SizeAt(bytes, 32, U64) == |manifest| && HasAt(bytes, offset, manifest)
    requires forall i :: 0 <= i < |segments| ==> IsSegment(bytes, i, U64, hash, segments[i])
    ensures WellFormed(bytes, U64, hash) && Shows(bytes, U64, hash, FileView(manifest, segments))
  {
    forall i | 0 <= i < |segments| ensures EntryOkAt(bytes, i, U64, hash) {
      assert IsSegment(bytes, i, U64, hash, segments[i]);
    }
  }

  /** A well-formed archive shows one thing only. */
  lemma ShowsUnique(bytes: Bytes, modulus: nat, hash: Hash, a: FileView, b: FileView)
    requires WellFormed(bytes, modulus, hash) && Shows(bytes, modulus, hash, a) && Shows(bytes, modulus, hash, b)
    ensures a == b
  {
    forall i | 0 <= i < |a.segments| ensures a.segments[i] == b.segments[i] {
      assert IsSegment(bytes, i, modulus, hash, a.segments[i]) && IsSegment(bytes, i, modulus, hash, b.segments[i]);
    }
    assert a.segments == b.segments;
  }

  /** An archive laid out by the writer is well formed, and shows exactly the manifest and the segments in order. */
  lemma ArchiveRoundTrip(segs: seq<Pending>, scopeHash: Bytes, manifest: Bytes, hash: Hash, view: FileView)
    requires |scopeHash| == 16 && Is32(hash) && Writable(segs)
    requires |Archive(segs, scopeHash, manifest, hash)| < U64
    ensures WellFormed(Archive(segs, scopeHash, manifest, hash), U64, hash)
    ensures Shows(Archive(segs, scopeHash, manifest, hash), U64, hash, view) <==>
            view == FileView(manifest, Expected(segs, scopeHash, hash))
  {
    ArchiveIsLaid(segs, scopeHash, manifest, hash);
    LaidShows(Archive(segs, scopeHash, manifest, hash), segs, scopeHash, manifest, hash);
    if Shows(Archive(segs, scopeHash, manifest, hash), U64, hash, view) {
      ShowsUnique(Archive(segs, scopeHash, manifest, hash), U64, hash, view, FileView(manifest, Expected(segs, scopeHash, hash)));
    }
  }
}
