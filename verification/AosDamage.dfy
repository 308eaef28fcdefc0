/** What the loader refuses, said of the bytes: bad marks in the header, files cut short, damaged payloads. */
module AosDamage {
  import opened Wrappers
  import opened AosFormat
  import opened AosLayout

  /** The marks of an archive: a magic number, an odd flag byte, the index right after the header, zeros at the end. */
  predicate Marked(bytes: Bytes) {
    && |bytes| >= 64
    && (bytes[..4] == [0x41, 0x4F, 0x53, 0x00] || bytes[..4] == [0x41, 0x4F, 0x53, 0x32])
    && bytes[4] % 2 == 1
    && bytes[8..16] == [64, 0, 0, 0, 0, 0, 0, 0]
    && forall k :: 40 <= k < 64 ==> bytes[k] == 0
  }

  lemma {:induction false} LEInjective(a: Bytes, b: Bytes)
    requires |a| == |b| && FromLE(a) == FromLE(b)
    ensures a == b
  {
    if a != [] {
      assert a[0] == FromLE(a) % 256 && b[0] == FromLE(b) % 256;
      LEInjective(a[1..], b[1..]);
      assert a == [a[0]] + a[1..] && b == [b[0]] + b[1..];
    }
  }

  lemma SixtyFour()
    ensures FromLE([64, 0, 0, 0, 0, 0, 0, 0]) == 64
  {
    var s: Bytes := [64, 0, 0, 0, 0, 0, 0, 0];
    assert FromLE(s[8..]) == 0;
    assert s[7..][1..] == s[8..] && FromLE(s[7..]) == 0;
    assert s[6..][1..] == s[7..] && FromLE(s[6..]) == 0;
    assert s[5..][1..] == s[6..] && FromLE(s[5..]) == 0;
    assert s[4..][1..] == s[5..] && FromLE(s[4..]) == 0;
    assert s[3..][1..] == s[4..] && FromLE(s[3..]) == 0;
    assert s[2..][1..] == s[3..] && FromLE(s[2..]) == 0;
    assert s[1..][1..] == s[2..] && FromLE(s[1..]) == 0;
  }

  /** Nothing without the marks is well formed. */
  lemma UnmarkedIsRefused(bytes: Bytes, hash: Hash)
    requires WellFormed(bytes, U64, hash)
    ensures Marked(bytes)
  {
    assert AOS_MAGIC <= bytes ==> bytes[..4] == AOS_MAGIC;
    assert AOS_MAGIC_V2 <= bytes ==> bytes[..4] == AOS_MAGIC_V2;
    assert bytes[4..8][0] == bytes[4] && FromLE(bytes[4..8]) == bytes[4] + 256 * FromLE(bytes[4..8][1..]);
    OddByte(bytes[4], FromLE(bytes[4..8][1..]));
    SixtyFour();
    LEInjective(bytes[8..16], [64, 0, 0, 0, 0, 0, 0, 0]);
  }

  lemma OddByte(b: nat, rest: nat)
    ensures (b + 256 * rest) % 2 == b % 2
  {
  }

  /** No written archive opens once its end is cut off, however little. */
  lemma CutIsRefused(segs: seq<Pending>, scopeHash: Bytes, manifest: Bytes, hash: Hash, n: nat)
    requires |scopeHash| == 16 && Is32(hash) && n < |Archive(segs, scopeHash, manifest, hash)| < U64
    ensures !WellFormed(Archive(segs, scopeHash, manifest, hash)[..n], U64, hash)
  {
    var whole := Archive(segs, scopeHash, manifest, hash);
    var cut := whole[..n];
    ArchiveIsLaid(segs, scopeHash, manifest, hash);
    LaidHeader(whole, segs, scopeHash, manifest, hash);
    if n >= 64 {
      assert cut[24..32] == whole[24..32] && cut[32..40] == whole[32..40];
    }
  }

  /** Whatever the loader shows, each payload has the hash its entry records. */
  lemma ShownIsHashed(bytes: Bytes, hash: Hash, view: FileView, i: nat)
    requires WellFormed(bytes, U64, hash) && Shows(bytes, U64, hash, view) && i < |view.segments|
    ensures hash(view.segments[i].payload) == view.segments[i].weightsHash
  {
    assert IsSegment(bytes, i, U64, hash, view.segments[i]);
  }

  /** `damaged` differs from `bytes` between `lo` and `hi` only. */
  predicate SameAround(bytes: Bytes, damaged: Bytes, lo: nat, hi: nat) {
    |damaged| == |bytes| && forall k :: 0 <= k < |bytes| && (k < lo || hi <= k) ==> damaged[k] == bytes[k]
  }

  lemma HasAtAround(bytes: Bytes, damaged: Bytes, lo: nat, hi: nat, at: nat, field: Bytes)
    requires SameAround(bytes, damaged, lo, hi) && HasAt(bytes, at, field) && at + |field| <= lo
    ensures HasAt(damaged, at, field)
  {
    assert damaged[at..at + |field|] == bytes[at..at + |field|];
  }

  lemma IndexEnds(segs: seq<Pending>, i: nat)
    requires i < |segs|
    ensures HEADER_SIZE + i * INDEX_ENTRY_SIZE + INDEX_ENTRY_SIZE <= PayloadBase(segs)
    ensures PayloadBase(segs) <= OffsetOf(segs, i) && OffsetOf(segs, i) + |segs[i].payload| <= OffsetOf(segs, |segs|)
  {
    StartsGrow(PayloadFields(segs), i, |segs|);
  }

  lemma EntryStays(whole: Bytes, damaged: Bytes, lo: nat, hi: nat, at: nat, seg: Pending, offset: nat, scopeHash: Bytes, hash: Hash)
    requires |scopeHash| == 16 && Is32(hash) && SameAround(whole, damaged, lo, hi) && at + INDEX_ENTRY_SIZE <= lo
    requires HasAt(whole, at, Join(EntryFields(seg, offset, scopeHash, hash)))
    ensures EntryBytes(damaged, at, seg, offset, scopeHash, hash)
  {
    EntrySize(seg, offset, scopeHash, hash);
    HasAtAround(whole, damaged, lo, hi, at, Join(EntryFields(seg, offset, scopeHash, hash)));
    EntryBytesAt(damaged, at, seg, offset, scopeHash, hash);
  }

  lemma HeaderStays(segs: seq<Pending>, scopeHash: Bytes, manifest: Bytes, hash: Hash, whole: Bytes, damaged: Bytes, lo: nat, hi: nat)
    requires Laid(whole, segs, scopeHash, manifest, hash) && |whole| < U64
    requires SameAround(whole, damaged, lo, hi) && PayloadBase(segs) <= lo
    ensures HeaderOk(damaged, U64) && EntryCount(damaged, U64) == |segs|
  {
    var header := Join(HeaderFields(|segs| * INDEX_ENTRY_SIZE, OffsetOf(segs, |segs|), |manifest|));
    HeaderSize(|segs| * INDEX_ENTRY_SIZE, OffsetOf(segs, |segs|), |manifest|);
    HasAtAround(whole, damaged, lo, hi, 0, header);
    HeaderReads(damaged, |segs|, OffsetOf(segs, |segs|), |manifest|);
  }

  /** An entry is not well formed when the bytes it points to have another hash than it records. */
  lemma WrongHash(bytes: Bytes, at: nat, seg: Pending, offset: nat, scopeHash: Bytes, hash: Hash, lo: nat, hi: nat)
    requires Is32(hash) && EntryBytes(bytes, at, seg, offset, scopeHash, hash) && seg.segmentId < U32
    requires offset + |seg.payload| <= |bytes| < U64 && hash(bytes[offset..offset + |seg.payload|]) != hash(seg.payload)
    ensures !EntryOk(bytes, at, lo, hi, U64, hash)
  {
    EntryNumbers(bytes, at, seg.segmentId, seg.backendTag, offset, |seg.payload|);
    assert |hash(seg.payload)| == 32;
  }

  lemma BadEntry(bytes: Bytes, hash: Hash, i: nat, at: nat, seg: Pending, offset: nat, end: nat, scopeHash: Bytes)
    requires HeaderOk(bytes, U64) && i < EntryCount(bytes, U64) && at == HEADER_SIZE + i * INDEX_ENTRY_SIZE
    requires Is32(hash) && EntryBytes(bytes, at, seg, offset, scopeHash, hash) && seg.segmentId < U32
    requires end == offset + |seg.payload| <= |bytes| < U64 && hash(bytes[offset..end]) != hash(seg.payload)
    ensures !WellFormed(bytes, U64, hash)
  {
    WrongHash(bytes, at, seg, offset, scopeHash, hash, HEADER_SIZE + SizeAt(bytes, 16, U64), SizeAt(bytes, 24, U64));
    assert !EntryOkAt(bytes, i, U64, hash);
  }

  /** No written archive opens once a payload is changed into anything with another hash. */
  lemma DamagedPayloadIsRefused(segs: seq<Pending>, scopeHash: Bytes, manifest: Bytes, hash: Hash, i: nat, damaged: Bytes, lo: nat, hi: nat)
    requires |scopeHash| == 16 && Is32(hash) && Writable(segs) && i < |segs| && |Archive(segs, scopeHash, manifest, hash)| < U64
    requires lo == OffsetOf(segs, i) && hi == lo + |segs[i].payload| <= |damaged|
    requires SameAround(Archive(segs, scopeHash, manifest, hash), damaged, lo, hi)
    requires hash(damaged[lo..hi]) != hash(segs[i].payload)
    ensures !WellFormed(damaged, U64, hash)
  {
    var at := HEADER_SIZE + i * INDEX_ENTRY_SIZE;
    IndexEnds(segs, i);
    EntryRemains(segs, scopeHash, manifest, hash, i, damaged, lo, hi, at);
    HeaderRemains(segs, scopeHash, manifest, hash, damaged, lo, hi);
    BadEntry(damaged, hash, i, at, segs[i], lo, hi, scopeHash);
  }

  lemma EntryRemains(segs: seq<Pending>, scopeHash: Bytes, manifest: Bytes, hash: Hash, i: nat, damaged: Bytes, lo: nat, hi: nat, at: nat)
    requires |scopeHash| == 16 && Is32(hash) && i < |segs| && at == HEADER_SIZE + i * INDEX_ENTRY_SIZE && at + INDEX_ENTRY_SIZE <= lo
    requires SameAround(Archive(segs, scopeHash, manifest, hash), damaged, lo, hi)
    ensures EntryBytes(damaged, at, segs[i], OffsetOf(segs, i), scopeHash, hash)
  {
    var whole := Archive(segs, scopeHash, manifest, hash);
    ArchiveIsLaid(segs, scopeHash, manifest, hash);
    EntryAt(whole, segs, scopeHash, hash, i);
    EntryStays(whole, damaged, lo, hi, at, segs[i], OffsetOf(segs, i), scopeHash, hash);
  }

  lemma HeaderRemains(segs: seq<Pending>, scopeHash: Bytes, manifest: Bytes, hash: Hash, damaged: Bytes, lo: nat, hi: nat)
    requires |scopeHash| == 16 && Is32(hash) && |Archive(segs, scopeHash, manifest, hash)| < U64 && PayloadBase(segs) <= lo
    requires SameAround(Archive(segs, scopeHash, manifest, hash), damaged, lo, hi)
    ensures HeaderOk(damaged, U64) && EntryCount(damaged, U64) == |segs|
  {
    ArchiveIsLaid(segs, scopeHash, manifest, hash);
    HeaderStays(segs, scopeHash, manifest, hash, Archive(segs, scopeHash, manifest, hash), damaged, lo, hi);
  }
}
