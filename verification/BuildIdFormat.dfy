/** The build id format `{git}-{YYYYMMDDHHmmss}` and its parser. */
module BuildIdFormat {
  import opened Wrappers

  /** Unicode White_Space, the characters Rust's `trim` removes. */
  predicate IsSpace(c: char) {
    var n := c as int;
    || 0x09 <= n <= 0x0D || n == 0x20 || n == 0x85 || n == 0xA0 || n == 0x1680
    || 0x2000 <= n <= 0x200A || n == 0x2028 || n == 0x2029 || n == 0x202F || n == 0x205F || n == 0x3000
  }

  /** The 25 characters with the Unicode property White_Space. */
  lemma WhiteSpaceTable(c: char)
    ensures IsSpace(c) <==> c as int in {0x09, 0x0A, 0x0B, 0x0C, 0x0D, 0x20, 0x85, 0xA0, 0x1680, 0x2000, 0x2001, 0x2002, 0x2003,
                                         0x2004, 0x2005, 0x2006, 0x2007, 0x2008, 0x2009, 0x200A, 0x2028, 0x2029, 0x202F, 0x205F, 0x3000}
  {
  }

  function TrimStart(s: string): string {
    if s != [] && IsSpace(s[0]) then TrimStart(s[1..]) else s
  }

  function TrimEnd(s: string): string {
    if s != [] && IsSpace(s[|s| - 1]) then TrimEnd(s[..|s| - 1]) else s
  }

  function Trim(s: string): string { TrimEnd(TrimStart(s)) }

  /** Nothing to trim: empty, or neither end is white space. */
  predicate Trimmed(s: string) {
    s == [] || (!IsSpace(s[0]) && !IsSpace(s[|s| - 1]))
  }

  predicate Spaces(s: string) { forall k :: 0 <= k < |s| ==> IsSpace(s[k]) }

  lemma {:induction false} TrimEndTrims(s: string) returns (b: string)
    ensures var t := TrimEnd(s); t == [] || !IsSpace(t[|t| - 1])
    ensures s == TrimEnd(s) + b && Spaces(b)
  {
    b := [];
    if s != [] && IsSpace(s[|s| - 1]) {
      b := TrimEndTrims(s[..|s| - 1]);
      b := b + [s[|s| - 1]];
    }
  }

  lemma {:induction false} TrimStartTrims(s: string) returns (a: string)
    ensures var t := TrimStart(s); t == [] || !IsSpace(t[0])
    ensures s == a + TrimStart(s) && Spaces(a)
  {
    a := [];
    if s != [] && IsSpace(s[0]) {
      a := TrimStartTrims(s[1..]);
      a := [s[0]] + a;
    }
  }

  /** `s` is `t` with white space around it. */
  ghost predicate Around(s: string, t: string) {
    exists a, b :: Spaces(a) && Spaces(b) && s == a + t + b
  }

  lemma TrimFixes(s: string)
    ensures Trimmed(Trim(s)) && (Trimmed(s) <==> Trim(s) == s)
  {
    var a := TrimStartTrims(s);
    var b := TrimEndTrims(TrimStart(s));
  }

  /** `Trim` returns a trimmed string that differs by white space around it only, and leaves exactly the trimmed strings alone. */
  lemma TrimTrims(s: string)
    ensures Trimmed(Trim(s)) && Around(s, Trim(s))
    ensures Trimmed(s) <==> Trim(s) == s
  {
    TrimFixes(s);
    var a := TrimStartTrims(s);
    var b := TrimEndTrims(TrimStart(s));
    assert s == a + Trim(s) + b;
  }

  lemma {:induction false} TrimStartSkips(a: string, t: string)
    requires Spaces(a) && (t == [] || !IsSpace(t[0]))
    ensures TrimStart(a + t) == t
  {
    if a == [] {
      assert a + t == t;
    } else {
      TrimStartSkips(a[1..], t);
      assert (a + t)[1..] == a[1..] + t;
    }
  }

  lemma {:induction false} TrimEndSkips(t: string, b: string)
    requires Spaces(b) && (t == [] || !IsSpace(t[|t| - 1]))
    ensures TrimEnd(t + b) == t
  {
    if b == [] {
      assert t + b == t;
    } else {
      TrimEndSkips(t, b[..|b| - 1]);
      assert (t + b)[..|t + b| - 1] == t + b[..|b| - 1];
    }
  }

  /** Trimming finds the one trimmed string, if not empty, that white space was put around. */
  lemma TrimFinds(s: string, t: string)
    requires Around(s, t) && t != [] && Trimmed(t)
    ensures Trim(s) == t
  {
    var a, b :| Spaces(a) && Spaces(b) && s == a + t + b;
    assert s == a + (t + b) && (t + b)[0] == t[0];
    TrimStartSkips(a, t + b);
    TrimEndSkips(t, b);
  }

  predicate IsDigit(c: char) { '0' <= c <= '9' }

  predicate IsCompactTimestamp(s: string) {
    |s| == 14 && forall k :: 0 <= k < |s| ==> IsDigit(s[k])
  }

  /** The index after the last `-`, or 0 when there is none. */
  function AfterLastDash(s: string): (k: nat)
    ensures k <= |s|
    ensures k > 0 ==> s[k - 1] == '-'
    ensures forall j :: k <= j < |s| ==> s[j] != '-'
  {
    if s == [] then 0
    else if s[|s| - 1] == '-' then |s|
    else AfterLastDash(s[..|s| - 1])
  }

  /** Splits on the last `-`. */
  function ParseBuildId(value: string): Option<(string, string)> {
    var trimmed := Trim(value);
    var k := AfterLastDash(trimmed);
    if trimmed == [] || k == 0 then None
    else
      var prefix, ts := trimmed[..k - 1], trimmed[k..];
      if prefix == [] || !IsCompactTimestamp(ts) then None else Some((prefix, ts))
  }

  /** A parsed id is its two parts joined again. */
  lemma ParseSplits(value: string)
    ensures ParseBuildId(value).Some? ==>
              var (prefix, ts) := ParseBuildId(value).value;
              Trim(value) == prefix + "-" + ts && prefix != [] && IsCompactTimestamp(ts)
  {
    if ParseBuildId(value).Some? {
      var trimmed := Trim(value);
      var k := AfterLastDash(trimmed);
      assert trimmed == trimmed[..k - 1] + [trimmed[k - 1]] + trimmed[k..];
    }
  }

  lemma {:induction false} AfterLastDashUnique(prefix: string, ts: string)
    requires forall j :: 0 <= j < |ts| ==> ts[j] != '-'
    ensures AfterLastDash(prefix + "-" + ts) == |prefix| + 1
  {
    var s := prefix + "-" + ts;
    if ts == [] {
      assert s[|s| - 1] == '-';
    } else {
      AfterLastDashUnique(prefix, ts[..|ts| - 1]);
      assert s[..|s| - 1] == prefix + "-" + ts[..|ts| - 1];
    }
  }

  /** Joining and parsing is a round trip exactly when the parts are well formed. */
  lemma FormatRoundTrip(git: string, ts: string)
    ensures ParseBuildId(git + "-" + ts) == Some((git, ts)) <==>
            git != [] && !IsSpace(git[0]) && IsCompactTimestamp(ts)
    ensures git != [] && !IsSpace(git[0]) && IsCompactTimestamp(ts) ==> Trim(git + "-" + ts) == git + "-" + ts
  {
    var id := git + "-" + ts;
    TrimFixes(id);
    if git != [] && !IsSpace(git[0]) && IsCompactTimestamp(ts) {
      assert id[|id| - 1] == ts[13] && IsDigit(ts[13]);
      assert Trimmed(id);
      AfterLastDashUnique(git, ts);
      assert id[..|git|] == git && id[|git| + 1..] == ts;
    } else if ParseBuildId(id) == Some((git, ts)) {
      ParseSplits(id);
      assert id[0] == git[0];
    }
  }
}
