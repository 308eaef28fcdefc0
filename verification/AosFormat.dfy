/**
 The AOS archive layout: a 64-byte header, 80-byte index entries, segment payloads, manifest.
 Integers are little-endian.  The BLAKE3 hash is a parameter.
 */
module AosFormat {
  import opened Wrappers

  type byte = x: int | 0 <= x < 256

  type Bytes = seq<byte>

  const HEADER_SIZE: nat := 64
  const INDEX_ENTRY_SIZE: nat := 80
  const AOS_MAGIC: Bytes := [0x41, 0x4F, 0x53, 0x00]
  const AOS_MAGIC_V2: Bytes := [0x41, 0x4F, 0x53, 0x32]
  const U64: nat := 0x1_0000_0000_0000_0000
  const U32: nat := 0x1_0000_0000

  type Hash = Bytes -> Bytes

  ghost predicate Is32(hash: Hash) {
    forall b: Bytes {:trigger hash(b)} :: |hash(b)| == 32
  }

  // ---------- little-endian integers ----------

  function Pow256(k: nat): nat { if k == 0 then 1 else 256 * Pow256(k - 1) }

  function FromLE(s: Bytes): nat {
    if s == [] then 0 else s[0] + 256 * FromLE(s[1..])
  }

  function ToLE(n: nat, k: nat): (s: Bytes)
    ensures |s| == k
    decreases n, k
  {
    if k == 0 then [] else [n % 256] + ToLE(n / 256, k - 1)
  }

  lemma {:induction false} LERoundTrip(n: nat, k: nat)
    requires n < Pow256(k)
    ensures FromLE(ToLE(n, k)) == n
    decreases n, k
  {
    if k > 0 {
      assert n / 256 < Pow256(k - 1);
      LERoundTrip(n / 256, k - 1);
      assert ToLE(n, k)[1..] == ToLE(n / 256, k - 1);
    }
  }

  lemma {:induction false} FromLEBound(s: Bytes)
    ensures FromLE(s) < Pow256(|s|)
  {
    if s != [] { FromLEBound(s[1..]); }
  }

  lemma Widths()
    ensures Pow256(2) == 0x1_0000 && Pow256(4) == U32 && Pow256(8) == U64
  {
    assert Pow256(2) == 0x1_0000 by { assert Pow256(1) == 256; }
    assert Pow256(4) == U32 by { assert Pow256(3) == 256 * Pow256(2); }
    assert Pow256(6) == 256 * Pow256(5) && Pow256(5) == 256 * Pow256(4);
    assert Pow256(8) == 256 * Pow256(7) && Pow256(7) == 256 * Pow256(6);
  }

  // ---------- segments ----------

  datatype BackendTag = Canonical | Mlx | Metal | Coreml {
    function AsU16(): nat {
      match this case Canonical => 0 case Mlx => 1 case Metal => 2 case Coreml => 3
    }
  }

  function TagFrom(n: nat): Option<BackendTag> {
    if n == 0 then Some(Canonical)
    else if n == 1 then Some(Mlx)
    else if n == 2 then Some(Metal)
    else if n == 3 then Some(Coreml)
    else None
  }

  datatype Segment = Segment(backendTag: BackendTag, scopeHash: Bytes, segmentId: nat, payload: Bytes, weightsHash: Bytes)

  datatype FileView = FileView(manifest: Bytes, segments: seq<Segment>)

  // ---------- reading fields ----------

  function U64At(bytes: Bytes, at: nat): nat
    requires at + 8 <= |bytes|
  {
    FromLE(bytes[at..at + 8])
  }

  /** A 64-bit field read as a `usize` of the given modulus. */
  function SizeAt(bytes: Bytes, at: nat, modulus: nat): nat
    requires at + 8 <= |bytes| && modulus > 0
  {
    U64At(bytes, at) % modulus
  }

  predicate HasMagic(bytes: Bytes) {
    AOS_MAGIC <= bytes || AOS_MAGIC_V2 <= bytes
  }

  /** The header of a well-formed archive: the index follows it, the manifest follows the index within the file. */
  predicate HeaderOk(bytes: Bytes, modulus: nat) {
    && modulus > 0
    && |bytes| >= HEADER_SIZE
    && HasMagic(bytes)
    && FromLE(bytes[4..8]) % 2 == 1
    && U64At(bytes, 8) == HEADER_SIZE
    && (forall k :: 40 <= k < HEADER_SIZE ==> bytes[k] == 0)
    && SizeAt(bytes, 16, modulus) % INDEX_ENTRY_SIZE == 0
    && HEADER_SIZE + SizeAt(bytes, 16, modulus) <= SizeAt(bytes, 24, modulus)
    && SizeAt(bytes, 24, modulus) + SizeAt(bytes, 32, modulus) <= |bytes|
  }

  function EntryCount(bytes: Bytes, modulus: nat): nat
    requires HeaderOk(bytes, modulus)
  {
    SizeAt(bytes, 16, modulus) / INDEX_ENTRY_SIZE
  }

  /** Entry `i` is where it should be, and describes a payload between the index and the manifest. */
  predicate EntryOkAt(bytes: Bytes, i: nat, modulus: nat, hash: Hash)
    requires HeaderOk(bytes, modulus)
  {
    EntryOk(bytes, HEADER_SIZE + i * INDEX_ENTRY_SIZE, HEADER_SIZE + SizeAt(bytes, 16, modulus),
            SizeAt(bytes, 24, modulus), modulus, hash)
  }

  /** A well-formed archive, its 64-bit fields taken modulo `modulus`. */
  ghost predicate WellFormed(bytes: Bytes, modulus: nat, hash: Hash) {
    && HeaderOk(bytes, modulus)
    && forall i :: 0 <= i < EntryCount(bytes, modulus) ==> EntryOkAt(bytes, i, modulus, hash)
  }

  predicate EntryOk(bytes: Bytes, at: nat, lo: nat, hi: nat, modulus: nat, hash: Hash) {
    && modulus > 0 && at + INDEX_ENTRY_SIZE <= |bytes| && hi <= |bytes|
    && FromLE(bytes[at + 4..at + 6]) < 4
    && var offset, len := SizeAt(bytes, at + 8, modulus), SizeAt(bytes, at + 16, modulus);
       lo <= offset && offset + len <= hi && hash(bytes[offset..offset + len]) == bytes[at + 40..at + 72]
  }

  /** The segment described by the entry at `at`. */
  function SegmentAt(bytes: Bytes, at: nat, modulus: nat): Segment
    requires modulus > 0 && at + INDEX_ENTRY_SIZE <= |bytes| && FromLE(bytes[at + 4..at + 6]) < 4
    requires SizeAt(bytes, at + 8, modulus) + SizeAt(bytes, at + 16, modulus) <= |bytes|
  {
    var offset, len := SizeAt(bytes, at + 8, modulus), SizeAt(bytes, at + 16, modulus);
    Segment(TagFrom(FromLE(bytes[at + 4..at + 6])).value, bytes[at + 24..at + 40], FromLE(bytes[at..at + 4]),
            bytes[offset..offset + len], bytes[at + 40..at + 72])
  }

  /** `view` is what a well-formed archive contains. */
  ghost predicate Shows(bytes: Bytes, modulus: nat, hash: Hash, view: FileView)
    requires WellFormed(bytes, modulus, hash)
  {
    && view.manifest == bytes[SizeAt(bytes, 24, modulus)..SizeAt(bytes, 24, modulus) + SizeAt(bytes, 32, modulus)]
    && |view.segments| == EntryCount(bytes, modulus)
    && forall i :: 0 <= i < |view.segments| ==> IsSegment(bytes, i, modulus, hash, view.segments[i])
  }

  predicate IsSegment(bytes: Bytes, i: nat, modulus: nat, hash: Hash, segment: Segment)
    requires HeaderOk(bytes, modulus)
  {
    EntryOkAt(bytes, i, modulus, hash) && segment == SegmentAt(bytes, HEADER_SIZE + i * INDEX_ENTRY_SIZE, modulus)
  }

  lemma U64AtBound(bytes: Bytes, at: nat)
    requires at + 8 <= |bytes|
    ensures U64At(bytes, at) < U64
  {
    FromLEBound(bytes[at..at + 8]);
    Widths();
  }
}
