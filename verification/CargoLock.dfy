/**
 The line-based Cargo.lock scanner, proved against a definition by package blocks: a block runs from a
 `[[package]]` line to the next blank or bracketed line.
 */
module CargoLock {
  import opened Wrappers
  import opened BuildIdFormat

  type Entries = seq<(string, string)>

  const HEADER := "[[package]]"
  const NAME := "name = "
  const VERSION := "version = "

  // ---------- the sorted map the results are collected in ----------

  predicate Less(a: string, b: string) {
    b != [] && (a == [] || a[0] < b[0] || (a[0] == b[0] && Less(a[1..], b[1..])))
  }

  lemma {:induction false} LessTrichotomy(a: string, b: string)
    ensures a == b || Less(a, b) || Less(b, a)
    ensures !Less(a, a) && !(Less(a, b) && Less(b, a))
  {
    if a != [] { LessTrichotomy(a[1..], a[1..]); }
    if a != [] && b != [] && a[0] == b[0] {
      LessTrichotomy(a[1..], b[1..]);
      assert a == [a[0]] + a[1..] && b == [b[0]] + b[1..];
    }
  }

  lemma {:induction false} LessTransitive(a: string, b: string, c: string)
    requires Less(a, b) && Less(b, c)
    ensures Less(a, c)
  {
    if a != [] && a[0] == b[0] && b[0] == c[0] { LessTransitive(a[1..], b[1..], c[1..]); }
  }

  /** Every key of `es` comes after `key`. */
  predicate Above(key: string, es: Entries) {
    es == [] || (Less(key, es[0].0) && Above(key, es[1..]))
  }

  predicate Sorted(es: Entries) {
    es == [] || (Above(es[0].0, es[1..]) && Sorted(es[1..]))
  }

  function ToMap(es: Entries): map<string, string> {
    if es == [] then map[] else ToMap(es[1..])[es[0].0 := es[0].1]
  }

  function Insert(es: Entries, key: string, value: string): Entries {
    if es == [] || Less(key, es[0].0) then [(key, value)] + es
    else if es[0].0 == key then [(key, value)] + es[1..]
    else [es[0]] + Insert(es[1..], key, value)
  }

  lemma {:induction false} AboveTransitive(low: string, key: string, es: Entries)
    requires Less(low, key) && Above(key, es)
    ensures Above(low, es)
  {
    if es != [] {
      LessTransitive(low, key, es[0].0);
      AboveTransitive(low, key, es[1..]);
    }
  }

  lemma {:induction false} InsertAbove(low: string, es: Entries, key: string, value: string)
    requires Above(low, es) && Less(low, key)
    ensures Above(low, Insert(es, key, value))
  {
    if es == [] || Less(key, es[0].0) {
      assert ([(key, value)] + es)[1..] == es;
    } else if es[0].0 == key {
      assert ([(key, value)] + es[1..])[1..] == es[1..];
    } else {
      InsertAbove(low, es[1..], key, value);
      assert ([es[0]] + Insert(es[1..], key, value))[1..] == Insert(es[1..], key, value);
    }
  }

  /** Insertion keeps the keys sorted and updates the map at one key. */
  lemma {:induction false} InsertUpdates(es: Entries, key: string, value: string)
    requires Sorted(es)
    ensures Sorted(Insert(es, key, value))
    ensures ToMap(Insert(es, key, value)) == ToMap(es)[key := value]
  {
    if es == [] {
    } else if Less(key, es[0].0) {
      AboveTransitive(key, es[0].0, es[1..]);
      assert ([(key, value)] + es)[1..] == es;
    } else if es[0].0 == key {
      assert ([(key, value)] + es[1..])[1..] == es[1..];
    } else {
      LessTrichotomy(key, es[0].0);
      InsertUpdates(es[1..], key, value);
      InsertAbove(es[0].0, es[1..], key, value);
      assert ([es[0]] + Insert(es[1..], key, value))[1..] == Insert(es[1..], key, value);
    }
  }

  lemma {:induction false} AboveNotIn(key: string, es: Entries)
    requires Above(key, es)
    ensures key !in ToMap(es)
  {
    if es != [] {
      LessTrichotomy(key, es[0].0);
      AboveNotIn(key, es[1..]);
    }
  }

  lemma {:induction false} AboveKeys(low: string, es: Entries, key: string)
    requires Above(low, es) && key in ToMap(es)
    ensures Less(low, key)
  {
    if es[0].0 != key { AboveKeys(low, es[1..], key); }
  }

  lemma EmptyMap(es: Entries)
    ensures ToMap(es) == map[] <==> es == []
  {
    if es != [] { assert es[0].0 in ToMap(es); }
  }

  /** A sorted list is determined by the map it stands for. */
  lemma {:induction false} SortedUnique(a: Entries, b: Entries)
    requires Sorted(a) && Sorted(b) && ToMap(a) == ToMap(b)
    ensures a == b
  {
    if a == [] {
      EmptyMap(b);
    } else {
      assert a[0].0 in ToMap(b) && b != [];
      assert b[0].0 in ToMap(a);
      assert a[0].0 == b[0].0 by {
        if a[0].0 != b[0].0 {
          AboveKeys(a[0].0, a[1..], b[0].0);
          AboveKeys(b[0].0, b[1..], a[0].0);
          LessTrichotomy(a[0].0, b[0].0);
        }
      }
      AboveNotIn(a[0].0, a[1..]);
      AboveNotIn(b[0].0, b[1..]);
      assert ToMap(a[1..]) == ToMap(a) - {a[0].0};
      assert ToMap(b[1..]) == ToMap(b) - {b[0].0};
      SortedUnique(a[1..], b[1..]);
    }
  }

  // ---------- package blocks ----------

  predicate IsHeader(line: string) { Trim(line) == HEADER }

  /** A blank or bracketed line: the end of any block. */
  predicate EndsBlock(line: string) {
    var t := Trim(line);
    t == [] || t[0] == '['
  }

  predicate HasPrefix(s: string, prefix: string) { prefix <= s }

  function Unquote(s: string): string { UnquoteEnd(UnquoteStart(s)) }

  function UnquoteStart(s: string): string {
    if s != [] && s[0] == '"' then UnquoteStart(s[1..]) else s
  }

  function UnquoteEnd(s: string): string {
    if s != [] && s[|s| - 1] == '"' then UnquoteEnd(s[..|s| - 1]) else s
  }

  predicate Quotes(s: string) { forall k :: 0 <= k < |s| ==> s[k] == '"' }

  /** No quote at either end. */
  predicate Bare(s: string) { s == [] || (s[0] != '"' && s[|s| - 1] != '"') }

  lemma {:induction false} UnquoteStartStrips(s: string) returns (before: string)
    ensures s == before + UnquoteStart(s) && Quotes(before) && (UnquoteStart(s) != [] ==> UnquoteStart(s)[0] != '"')
  {
    before := [];
    if s != [] && s[0] == '"' {
      var b := UnquoteStartStrips(s[1..]);
      before := [s[0]] + b;
    }
  }

  lemma {:induction false} UnquoteEndStrips(s: string) returns (after: string)
    ensures s == UnquoteEnd(s) + after && Quotes(after)
    ensures UnquoteEnd(s) != [] ==> UnquoteEnd(s)[|UnquoteEnd(s)| - 1] != '"' && UnquoteEnd(s)[0] == s[0]
  {
    after := [];
    if s != [] && s[|s| - 1] == '"' {
      var a := UnquoteEndStrips(s[..|s| - 1]);
      after := a + [s[|s| - 1]];
    }
  }

  /** The argument is quotes, the result, quotes; and the result has no quote at either end. */
  lemma UnquoteStrips(s: string) returns (before: string, after: string)
    ensures s == before + Unquote(s) + after && Quotes(before) && Quotes(after) && Bare(Unquote(s))
  {
    before := UnquoteStartStrips(s);
    after := UnquoteEndStrips(UnquoteStart(s));
  }

  lemma {:induction false} UnquoteStartFinds(a: string, m: string)
    requires Quotes(a) && (m != [] ==> m[0] != '"')
    ensures UnquoteStart(a + m) == m
  {
    if a == [] {
      assert a + m == m;
    } else {
      assert (a + m)[1..] == a[1..] + m;
      UnquoteStartFinds(a[1..], m);
    }
  }

  lemma {:induction false} UnquoteEndFinds(m: string, b: string)
    requires Quotes(b) && (m != [] ==> m[|m| - 1] != '"')
    ensures UnquoteEnd(m + b) == m
  {
    if b == [] {
      assert m + b == m;
    } else {
      assert (m + b)[..|m + b| - 1] == m + b[..|b| - 1];
      UnquoteEndFinds(m, b[..|b| - 1]);
    }
  }

  /** Whatever stands between quotes, and begins and ends with none, is what is found. */
  lemma UnquoteFinds(a: string, m: string, b: string)
    requires Quotes(a) && Quotes(b) && Bare(m)
    ensures Unquote(a + m + b) == m
  {
    if m == [] {
      assert a + m + b == (a + b) + "";
      UnquoteStartFinds(a + b, "");
    } else {
      assert a + m + b == a + (m + b);
      UnquoteStartFinds(a, m + b);
      UnquoteEndFinds(m, b);
    }
  }

  /** The value of the last line from `lo` to `hi` that sets `field`. */
  function FieldIn(lines: seq<string>, lo: nat, hi: nat, field: string): Option<string>
    requires lo <= hi <= |lines|
    decreases hi
  {
    if lo == hi then None
    else
      var t := Trim(lines[hi - 1]);
      if HasPrefix(t, field) then Some(Unquote(t[|field|..])) else FieldIn(lines, lo, hi - 1, field)
  }

  /** Where the block whose first line is `k` ends. */
  function BlockEnd(lines: seq<string>, k: nat): (e: nat)
    requires k <= |lines|
    ensures k <= e <= |lines|
    decreases |lines| - k
  {
    if k == |lines| || EndsBlock(lines[k]) then k else BlockEnd(lines, k + 1)
  }

  /** The name and version of the block headed by line `h`, when it has both. */
  function Package(lines: seq<string>, h: nat): Option<(string, string)>
    requires h < |lines|
  {
    var e := BlockEnd(lines, h + 1);
    var name, version := FieldIn(lines, h + 1, e, NAME), FieldIn(lines, h + 1, e, VERSION);
    if name.Some? && version.Some? then Some((name.value, version.value)) else None
  }

  /** What line `k` heads: a complete package block, or nothing. */
  function Block(lines: seq<string>, k: nat): Option<(string, string)>
    requires k < |lines|
  {
    if IsHeader(lines[k]) then Package(lines, k) else None
  }

  type Blocks = seq<Option<(string, string)>>

  function BlocksOf(lines: seq<string>): (r: Blocks)
    ensures |r| == |lines|
  {
    seq(|lines|, k requires 0 <= k < |lines| => Block(lines, k))
  }

  predicate Lists(blocks: Blocks, h: nat, name: string) {
    h < |blocks| && blocks[h].Some? && blocks[h].value.0 == name
  }

  /** The requested packages among the blocks headed before `bound`; later blocks win. */
  function Versions(blocks: Blocks, names: seq<string>, bound: nat): map<string, string>
    requires bound <= |blocks|
  {
    if bound == 0 then map[]
    else
      var m, b := Versions(blocks, names, bound - 1), blocks[bound - 1];
      if b.Some? && b.value.0 in names then m[b.value.0 := b.value.1] else m
  }

  /** Block `h` is the last before `bound` to list `name`. */
  ghost predicate LastToList(blocks: Blocks, h: nat, bound: nat, name: string) {
    h < bound && Lists(blocks, h, name) && forall k :: h < k < bound ==> !Lists(blocks, k, name)
  }

  /** Some complete block headed before `bound` lists `name`. */
  ghost predicate ListedBefore(blocks: Blocks, bound: nat, name: string) {
    exists h :: 0 <= h < bound && Lists(blocks, h, name)
  }

  lemma ListedStep(blocks: Blocks, k: nat, name: string)
    ensures ListedBefore(blocks, k + 1, name) <==> ListedBefore(blocks, k, name) || Lists(blocks, k, name)
  {
    if h :| 0 <= h < k && Lists(blocks, h, name) { assert 0 <= h < k + 1; }
  }

  /** A name is found exactly when it is requested and some complete block lists it. */
  lemma {:induction false} VersionsFound(blocks: Blocks, names: seq<string>, bound: nat, name: string)
    requires bound <= |blocks|
    ensures name in Versions(blocks, names, bound) <==> name in names && ListedBefore(blocks, bound, name)
  {
    if bound > 0 {
      VersionsFound(blocks, names, bound - 1, name);
      ListedStep(blocks, bound - 1, name);
    }
  }

  /** Its version is the one in the last such block: never one from another block. */
  lemma {:induction false} VersionsAreLast(blocks: Blocks, names: seq<string>, bound: nat, name: string) returns (h: nat)
    requires bound <= |blocks| && name in Versions(blocks, names, bound)
    ensures LastToList(blocks, h, bound, name)
    ensures blocks[h].value == (name, Versions(blocks, names, bound)[name])
  {
    VersionsFound(blocks, names, bound, name);
    if Lists(blocks, bound - 1, name) {
      h := bound - 1;
    } else {
      h := VersionsAreLast(blocks, names, bound - 1, name);
    }
  }

  lemma {:induction false} NoBlocks(blocks: Blocks, names: seq<string>, lo: nat, hi: nat)
    requires lo <= hi <= |blocks|
    requires forall j :: lo <= j < hi ==> blocks[j].None?
    ensures Versions(blocks, names, hi) == Versions(blocks, names, lo)
  {
    if lo < hi { NoBlocks(blocks, names, lo, hi - 1); }
  }

  lemma HeaderEndsBlock(line: string)
    ensures IsHeader(line) ==> EndsBlock(line)
  {
  }

  lemma {:induction false} BlockEndIs(lines: seq<string>, k: nat, e: nat)
    requires k <= e <= |lines| && (forall j :: k <= j < e ==> !EndsBlock(lines[j]))
    requires e == |lines| || EndsBlock(lines[e])
    ensures BlockEnd(lines, k) == e
    decreases e - k
  {
    if k < e { BlockEndIs(lines, k + 1, e); }
  }

  // ---------- the scanner ----------

  function Flush(results: Entries, names: seq<string>, name: Option<string>, version: Option<string>): Entries {
    if name.Some? && version.Some? && name.value in names then Insert(results, name.value, version.value) else results
  }

  /** The scanner's state before line `k`: what it has collected, and the block it is in, if any, headed at `h`. */
  ghost predicate Scanning(lines: seq<string>, names: seq<string>, k: nat, results: Entries,
                           inPackage: bool, h: nat, name: Option<string>, version: Option<string>)
    requires k <= |lines|
  {
    && Sorted(results)
    && (if inPackage then
          && h < k && IsHeader(lines[h]) && (forall j :: h < j < k ==> !EndsBlock(lines[j]))
          && name == FieldIn(lines, h + 1, k, NAME) && version == FieldIn(lines, h + 1, k, VERSION)
          && ToMap(results) == Versions(BlocksOf(lines), names, h)
        else
          name.None? && version.None? && ToMap(results) == Versions(BlocksOf(lines), names, k))
  }

  lemma NoBlockAt(lines: seq<string>, j: nat)
    requires j < |lines| && !EndsBlock(lines[j])
    ensures BlocksOf(lines)[j].None?
  {
    HeaderEndsBlock(lines[j]);
  }

  lemma {:induction false} NoBlocksBetween(lines: seq<string>, names: seq<string>, lo: nat, hi: nat)
    requires lo <= hi <= |lines|
    requires forall j :: lo <= j < hi ==> !EndsBlock(lines[j])
    ensures Versions(BlocksOf(lines), names, hi) == Versions(BlocksOf(lines), names, lo)
  {
    if lo < hi {
      NoBlocksBetween(lines, names, lo, hi - 1);
      NoBlockAt(lines, hi - 1);
      NoBlocks(BlocksOf(lines), names, hi - 1, hi);
    }
  }

  /** A block headed at `h` and ending before `k` is all there is between them. */
  lemma BlockAccounts(lines: seq<string>, names: seq<string>, h: nat, k: nat)
    requires h < k <= |lines| && IsHeader(lines[h]) && (k == |lines| || EndsBlock(lines[k]))
    requires forall j :: h < j < k ==> !EndsBlock(lines[j])
    ensures BlockEnd(lines, h + 1) == k && Versions(BlocksOf(lines), names, k) == Versions(BlocksOf(lines), names, h + 1)
  {
    BlockEndIs(lines, h + 1, k);
    NoBlocksBetween(lines, names, h + 1, k);
  }

  lemma FlushUpdates(results: Entries, names: seq<string>, name: Option<string>, version: Option<string>)
    requires Sorted(results)
    ensures Sorted(Flush(results, names, name, version))
    ensures ToMap(Flush(results, names, name, version)) ==
            if name.Some? && version.Some? && name.value in names then ToMap(results)[name.value := version.value] else ToMap(results)
  {
    if name.Some? && version.Some? { InsertUpdates(results, name.value, version.value); }
  }

  /** Flushing at the end of a block accounts for that block. */
  lemma FlushAccounts(lines: seq<string>, names: seq<string>, k: nat, results: Entries,
                      inPackage: bool, h: nat, name: Option<string>, version: Option<string>)
    requires k <= |lines| && Scanning(lines, names, k, results, inPackage, h, name, version)
    requires k == |lines| || EndsBlock(lines[k])
    ensures Sorted(Flush(results, names, name, version))
    ensures ToMap(Flush(results, names, name, version)) == Versions(BlocksOf(lines), names, k)
  {
    FlushUpdates(results, names, name, version);
    if inPackage {
      BlockAccounts(lines, names, h, k);
      assert Package(lines, h) == if name.Some? && version.Some? then Some((name.value, version.value)) else None;
    }
  }

  /** A header line opens the next block. */
  lemma BlockOpens(lines: seq<string>, names: seq<string>, k: nat, results: Entries)
    requires k < |lines| && IsHeader(lines[k]) && Sorted(results) && ToMap(results) == Versions(BlocksOf(lines), names, k)
    ensures Scanning(lines, names, k + 1, results, true, k, None, None)
  {
  }

  /** Outside blocks, a line that opens none is passed over. */
  lemma LinePasses(lines: seq<string>, names: seq<string>, k: nat, results: Entries, h: nat)
    requires k < |lines| && !IsHeader(lines[k]) && Sorted(results) && ToMap(results) == Versions(BlocksOf(lines), names, k)
    ensures Scanning(lines, names, k + 1, results, false, h, None, None)
  {
    NoBlocks(BlocksOf(lines), names, k, k + 1);
  }

  /** Inside a block, a line may set the name or the version. */
  lemma LineSets(lines: seq<string>, names: seq<string>, k: nat, results: Entries, h: nat, name: Option<string>, version: Option<string>)
    requires k < |lines| && Scanning(lines, names, k, results, true, h, name, version) && !EndsBlock(lines[k])
    ensures var t := Trim(lines[k]);
            Scanning(lines, names, k + 1, results, true, h,
                     if HasPrefix(t, NAME) then Some(Unquote(t[|NAME|..])) else name,
                     if HasPrefix(t, VERSION) then Some(Unquote(t[|VERSION|..])) else version)
  {
  }

  method ParseCrateVersions(lines: seq<string>, names: seq<string>) returns (results: Entries)
    ensures Sorted(results)
    ensures ToMap(results) == Versions(BlocksOf(lines), names, |lines|)
  {
    results := [];
    var name, version, inPackage := None, None, false;
    ghost var h := 0;
    for k := 0 to |lines|
      invariant Scanning(lines, names, k, results, inPackage, h, name, version)
    {
      results, name, version, inPackage, h := ReadLine(lines, names, k, results, inPackage, h, name, version);
    }
    FlushAccounts(lines, names, |lines|, results, inPackage, h, name, version);
    results := Flush(results, names, name, version);
  }

  /** One line of the lock file. */
  method ReadLine(lines: seq<string>, names: seq<string>, k: nat, before: Entries,
                  wasIn: bool, ghost head: nat, name0: Option<string>, version0: Option<string>)
    returns (results: Entries, name: Option<string>, version: Option<string>, inPackage: bool, ghost h: nat)
    requires k < |lines| && Scanning(lines, names, k, before, wasIn, head, name0, version0)
    ensures Scanning(lines, names, k + 1, results, inPackage, h, name, version)
  {
    results, name, version, inPackage, h := before, name0, version0, wasIn, head;
    var t := Trim(lines[k]);
    if t == HEADER {
      FlushAccounts(lines, names, k, results, inPackage, h, name, version);
      results := Flush(results, names, name, version);
      name, version, inPackage, h := None, None, true, k;
      BlockOpens(lines, names, k, results);
    } else if !inPackage {
      LinePasses(lines, names, k, results, h);
    } else if t == [] || t[0] == '[' {
      FlushAccounts(lines, names, k, results, inPackage, h, name, version);
      results := Flush(results, names, name, version);
      name, version, inPackage := None, None, t == HEADER;
      LinePasses(lines, names, k, results, h);
    } else {
      LineSets(lines, names, k, results, h, name, version);
      if HasPrefix(t, NAME) {
        name := Some(Unquote(t[|NAME|..]));
        assert !HasPrefix(t, VERSION);
      } else if HasPrefix(t, VERSION) {
        version := Some(Unquote(t[|VERSION|..]));
      }
    }
  }
}
