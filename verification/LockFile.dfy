/** What is read from a lock file, said of the packages it lists. */
module LockFile {
  import opened Wrappers
  import opened BuildIdFormat
  import opened CargoLock

  /** A package with its name, its version and the other lines of its block. */
  datatype Listed = Listed(name: string, version: string, others: seq<string>)

  /** Any other line of a block: no white space around it, no bracket first, and neither a name nor a version. */
  predicate OtherLine(line: string) {
    && line != "" && !IsSpace(line[0]) && !IsSpace(line[|line| - 1]) && line[0] != '['
    && !("name = " <= line) && !("version = " <= line)
  }

  predicate ListedOk(p: Listed) {
    '"' !in p.name && '"' !in p.version && forall i :: 0 <= i < |p.others| ==> OtherLine(p.others[i])
  }

  function NameLine(p: Listed): string { "name = " + ("\"" + p.name + "\"") }

  function VersionLine(p: Listed): string { "version = " + ("\"" + p.version + "\"") }

  /** The block of a package, with the blank line that ends it. */
  function BlockLines(p: Listed): seq<string> {
    ["[[package]]", NameLine(p), VersionLine(p)] + p.others + [""]
  }

  function LockLines(ps: seq<Listed>): seq<string> {
    if ps == [] then [] else LockLines(ps[..|ps| - 1]) + BlockLines(ps[|ps| - 1])
  }

  /** Package `i` is the last of that name. */
  predicate LastListed(ps: seq<Listed>, i: nat, name: string) {
    i < |ps| && ps[i].name == name && forall k :: i < k < |ps| ==> ps[k].name != name
  }

  // ---------- one block ----------

  /** The block of `p` stands at line `h`. */
  predicate BlockAt(lines: seq<string>, h: nat, p: Listed) {
    && h + 4 + |p.others| <= |lines| && lines[h] == "[[package]]"
    && lines[h + 1] == NameLine(p) && lines[h + 2] == VersionLine(p)
    && (forall i :: 0 <= i < |p.others| ==> lines[h + 3 + i] == p.others[i])
    && lines[h + 3 + |p.others|] == ""
  }

  lemma HeaderLine()
    ensures IsHeader("[[package]]") && EndsBlock("")
  {
    TrimFixes("[[package]]");
    TrimFixes("");
  }

  lemma QuotedField(prefix: string, value: string)
    requires prefix != "" && !IsSpace(prefix[0])
    ensures Trim(prefix + ("\"" + value + "\"")) == prefix + ("\"" + value + "\"")
  {
    var line := prefix + ("\"" + value + "\"");
    assert line[|line| - 1] == '"' && line[0] == prefix[0];
    TrimFixes(line);
  }

  lemma NameLineReads(p: Listed)
    requires '"' !in p.name
    ensures var t := Trim(NameLine(p)); HasPrefix(t, NAME) && Unquote(t[|NAME|..]) == p.name
    ensures !EndsBlock(NameLine(p)) && !HasPrefix(Trim(NameLine(p)), VERSION)
  {
    var t := NameLine(p);
    QuotedField("name = ", p.name);
    assert t[|NAME|..] == "\"" + p.name + "\"" && t[..|NAME|] == NAME;
    UnquoteFinds("\"", p.name, "\"");
    assert t[0] == 'n' && VERSION[0] == 'v';
  }

  lemma VersionLineReads(p: Listed)
    requires '"' !in p.version
    ensures var t := Trim(VersionLine(p)); HasPrefix(t, VERSION) && Unquote(t[|VERSION|..]) == p.version
    ensures !EndsBlock(VersionLine(p)) && !HasPrefix(Trim(VersionLine(p)), NAME)
  {
    var t := VersionLine(p);
    QuotedField("version = ", p.version);
    assert t[|VERSION|..] == "\"" + p.version + "\"" && t[..|VERSION|] == VERSION;
    UnquoteFinds("\"", p.version, "\"");
    assert t[0] == 'v' && NAME[0] == 'n';
  }

  lemma OtherLinePasses(line: string)
    requires OtherLine(line)
    ensures !EndsBlock(line) && !HasPrefix(Trim(line), NAME) && !HasPrefix(Trim(line), VERSION)
  {
    TrimFixes(line);
  }

  lemma {:induction false} FieldSkips(lines: seq<string>, lo: nat, mid: nat, hi: nat, field: string)
    requires lo <= mid <= hi <= |lines| && forall k :: mid <= k < hi ==> !HasPrefix(Trim(lines[k]), field)
    ensures FieldIn(lines, lo, hi, field) == FieldIn(lines, lo, mid, field)
    decreases hi
  {
    if mid < hi { FieldSkips(lines, lo, mid, hi - 1, field); }
  }

  /** The lines of a block between its header and its blank line do not end it, and only the first two name anything. */
  lemma InsideBlock(lines: seq<string>, h: nat, p: Listed, k: nat)
    requires BlockAt(lines, h, p) && ListedOk(p) && h < k < h + 3 + |p.others|
    ensures !EndsBlock(lines[k])
    ensures k > h + 1 ==> !HasPrefix(Trim(lines[k]), NAME)
    ensures k > h + 2 ==> !HasPrefix(Trim(lines[k]), VERSION)
  {
    if k == h + 1 {
      NameLineReads(p);
    } else if k == h + 2 {
      VersionLineReads(p);
    } else {
      assert lines[k] == p.others[k - h - 3];
      OtherLinePasses(lines[k]);
    }
  }

  lemma BlockReads(lines: seq<string>, h: nat, p: Listed)
    requires BlockAt(lines, h, p) && ListedOk(p)
    ensures Block(lines, h) == Some((p.name, p.version))
  {
    var e := h + 3 + |p.others|;
    HeaderLine();
    forall k | h < k < e
      ensures !EndsBlock(lines[k]) && (k > h + 1 ==> !HasPrefix(Trim(lines[k]), NAME)) && (k > h + 2 ==> !HasPrefix(Trim(lines[k]), VERSION))
    {
      InsideBlock(lines, h, p, k);
    }
    BlockEndIs(lines, h + 1, e);
    FieldSkips(lines, h + 1, h + 2, e, NAME);
    FieldSkips(lines, h + 1, h + 3, e, VERSION);
    NameLineReads(p);
    VersionLineReads(p);
  }

  lemma NoHeaderInside(lines: seq<string>, h: nat, p: Listed, k: nat)
    requires BlockAt(lines, h, p) && ListedOk(p) && h < k < h + 4 + |p.others|
    ensures Block(lines, k) == None
  {
    if k < h + 3 + |p.others| {
      InsideBlock(lines, h, p, k);
      HeaderEndsBlock(lines[k]);
    } else {
      TrimFixes("");
    }
  }

  // ---------- the whole file ----------

  lemma {:induction false} LockPlaces(ps: seq<Listed>, n: nat)
    requires n < |ps|
    ensures |LockLines(ps[..n])| + 4 + |ps[n].others| == |LockLines(ps[..n + 1])| <= |LockLines(ps)|
    ensures BlockAt(LockLines(ps), |LockLines(ps[..n])|, ps[n])
    decreases |ps|
  {
    var last := |ps| - 1;
    assert ps[..n + 1][..n] == ps[..n];
    if n == last {
      assert ps[..n + 1] == ps;
    } else {
      LockPlaces(ps[..last], n);
      assert ps[..last][..n] == ps[..n] && ps[..last][..n + 1] == ps[..n + 1];
      StaysAt(LockLines(ps[..last]), BlockLines(ps[last]), |LockLines(ps[..n])|, ps[n]);
    }
  }

  lemma StaysAt(lines: seq<string>, more: seq<string>, h: nat, p: Listed)
    requires BlockAt(lines, h, p)
    ensures BlockAt(lines + more, h, p)
  {
  }

  predicate ListedIn(ps: seq<Listed>, name: string) {
    exists i :: 0 <= i < |ps| && ps[i].name == name
  }

  /** The last version of each requested package. */
  ghost predicate HoldsLast(ps: seq<Listed>, names: seq<string>, m: map<string, string>) {
    && (forall name :: name in m <==> name in names && ListedIn(ps, name))
    && (forall name, i: nat :: name in m && LastListed(ps, i, name) ==> m[name] == ps[i].version)
  }

  lemma HoldsOneMore(ps: seq<Listed>, names: seq<string>, m: map<string, string>, p: Listed)
    requires HoldsLast(ps, names, m)
    ensures HoldsLast(ps + [p], names, if p.name in names then m[p.name := p.version] else m)
  {
    var ps' := ps + [p];
    var m' := if p.name in names then m[p.name := p.version] else m;
    assert ps'[|ps|] == p;
    forall name ensures ListedIn(ps', name) <==> ListedIn(ps, name) || p.name == name {
      if i :| 0 <= i < |ps| && ps[i].name == name { assert ps'[i].name == name; }
    }
    forall name, i: nat | name in m' && LastListed(ps', i, name) ensures m'[name] == ps'[i].version {
      if i < |ps| {
        forall k | i < k < |ps| ensures ps[k].name != name { assert ps'[k] == ps[k]; }
        assert LastListed(ps, i, name);
      }
    }
  }

  /** Of the lines from `h` to `at`, the first heads the package, and no other heads any. */
  predicate BlockIs(blocks: Blocks, h: nat, at: nat, name: string, version: string) {
    h < at <= |blocks| && blocks[h] == Some((name, version)) && forall k :: h < k < at ==> blocks[k].None?
  }

  lemma LockBlocks(ps: seq<Listed>, n: nat)
    requires n < |ps| && ListedOk(ps[n])
    ensures BlockIs(BlocksOf(LockLines(ps)), |LockLines(ps[..n])|, |LockLines(ps[..n + 1])|, ps[n].name, ps[n].version)
  {
    var lines, h, p := LockLines(ps), |LockLines(ps[..n])|, ps[n];
    LockPlaces(ps, n);
    BlockReads(lines, h, p);
    forall k | h < k < h + 4 + |p.others| ensures BlocksOf(lines)[k].None? { NoHeaderInside(lines, h, p, k); }
  }

  lemma BlockCounts(blocks: Blocks, names: seq<string>, h: nat, at: nat, name: string, version: string)
    requires BlockIs(blocks, h, at, name, version)
    ensures var before := Versions(blocks, names, h);
            Versions(blocks, names, at) == if name in names then before[name := version] else before
  {
    NoBlocks(blocks, names, h + 1, at);
  }

  /** What is read from the first `at` lines holds the last versions among `done`. */
  ghost predicate HoldsUpTo(blocks: Blocks, names: seq<string>, done: seq<Listed>, at: nat) {
    at <= |blocks| && HoldsLast(done, names, Versions(blocks, names, at))
  }

  lemma HoldsNone(blocks: Blocks, names: seq<string>)
    ensures HoldsUpTo(blocks, names, [], 0)
  {
  }

  lemma HoldsNext(blocks: Blocks, names: seq<string>, done: seq<Listed>, h: nat, at: nat, p: Listed)
    requires BlockIs(blocks, h, at, p.name, p.version) && HoldsUpTo(blocks, names, done, h)
    ensures HoldsUpTo(blocks, names, done + [p], at)
  {
    BlockCounts(blocks, names, h, at, p.name, p.version);
    HoldsOneMore(done, names, Versions(blocks, names, h), p);
  }

  lemma {:induction false} LockHolds(ps: seq<Listed>, blocks: Blocks, names: seq<string>, n: nat)
    requires n <= |ps| && blocks == BlocksOf(LockLines(ps)) && forall i :: 0 <= i < |ps| ==> ListedOk(ps[i])
    ensures HoldsUpTo(blocks, names, ps[..n], |LockLines(ps[..n])|)
  {
    if n == 0 {
      assert ps[..0] == [];
      HoldsNone(blocks, names);
    } else {
      LockBlocks(ps, n - 1);
      LockHolds(ps, blocks, names, n - 1);
      HoldsNext(blocks, names, ps[..n - 1], |LockLines(ps[..n - 1])|, |LockLines(ps[..n])|, ps[n - 1]);
      assert ps[..n - 1] + [ps[n - 1]] == ps[..n];
    }
  }

  /** Of a file that lists packages, each requested name that is listed is read with its last version, and no other name. */
  method ReadLockFile(ghost ps: seq<Listed>, lines: seq<string>, names: seq<string>) returns (results: Entries)
    requires lines == LockLines(ps) && forall i :: 0 <= i < |ps| ==> ListedOk(ps[i])
    ensures Sorted(results) && HoldsLast(ps, names, ToMap(results))
  {
    assert ps[..|ps|] == ps;
    LockHolds(ps, BlocksOf(lines), names, |ps|);
    results := ParseCrateVersions(lines, names);
  }
}
