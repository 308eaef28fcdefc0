/** The crate manifest: its text, and which lists of crates and versions it identifies. */
module CrateManifest {
  import opened CargoLock

  function Entry(e: (string, string)): string { "\"" + e.0 + "\":\"" + e.1 + "\"" }

  function More(es: Entries): string {
    if es == [] then "" else "," + Entry(es[0]) + More(es[1..])
  }

  function Manifest(es: Entries): string {
    "{\"format\":1,\"crates\":{" + (if es == [] then "" else Entry(es[0]) + More(es[1..])) + "}}"
  }

  lemma {:induction false} MoreSnoc(es: Entries, e: (string, string))
    ensures More(es + [e]) == More(es) + "," + Entry(e)
  {
    if es == [] {
      assert More([]) == "";
    } else {
      MoreSnoc(es[1..], e);
      assert (es + [e])[1..] == es[1..] + [e];
    }
  }

  /** The manifest up to entry `i`, and one entry more. */
  lemma Appended(entries: Entries, i: nat)
    requires 0 < i < |entries|
    ensures More(entries[1..i + 1]) == More(entries[1..i]) + "," + Entry(entries[i])
  {
    MoreSnoc(entries[1..i], entries[i]);
    assert entries[1..i + 1] == entries[1..i] + [entries[i]];
  }

  method AppendEntry(before: string, e: (string, string)) returns (json: string)
    ensures json == before + Entry(e)
  {
    json := before + "\"";
    json := json + e.0;
    json := json + "\":\"";
    json := json + e.1;
    json := json + "\"";
  }

  method SerializeCrateManifest(entries: Entries) returns (json: string)
    ensures json == Manifest(entries)
  {
    var open := "{\"format\":1,\"crates\":{";
    json := open;
    for i := 0 to |entries|
      invariant json == open + if i == 0 then "" else Entry(entries[0]) + More(entries[1..i])
    {
      if i > 0 {
        Appended(entries, i);
        json := json + ",";
      }
      json := AppendEntry(json, entries[i]);
    }
    json := json + "}}";
    assert entries != [] ==> entries[1..|entries|] == entries[1..];
  }

  predicate QuoteFree(es: Entries) {
    forall i :: 0 <= i < |es| ==> '"' !in es[i].0 && '"' !in es[i].1
  }

  lemma QuoteSplits(x: string, s: string, y: string, t: string)
    requires '"' !in x && '"' !in y && x + "\"" + s == y + "\"" + t
    ensures x == y && s == t
  {
    var l, r := x + "\"" + s, y + "\"" + t;
    assert l[|x|] == '"' && r[|y|] == '"';
    assert forall j :: 0 <= j < |x| ==> l[j] == x[j] != '"';
    assert forall j :: 0 <= j < |y| ==> r[j] == y[j] != '"';
    assert x == l[..|x|] && y == r[..|y|];
    assert s == l[|x| + 1..] && t == r[|y| + 1..];
  }

  lemma EntrySplits(a: (string, string), s: string, b: (string, string), t: string)
    requires '"' !in a.0 && '"' !in a.1 && '"' !in b.0 && '"' !in b.1
    requires Entry(a) + s == Entry(b) + t
    ensures a == b && s == t
  {
    var sa, sb := ":\"" + a.1 + "\"" + s, ":\"" + b.1 + "\"" + t;
    assert (Entry(a) + s)[1..] == a.0 + "\"" + sa;
    assert (Entry(b) + t)[1..] == b.0 + "\"" + sb;
    QuoteSplits(a.0, sa, b.0, sb);
    assert sa[2..] == a.1 + "\"" + s && sb[2..] == b.1 + "\"" + t;
    QuoteSplits(a.1, s, b.1, t);
  }

  lemma {:induction false} MoreInjective(a: Entries, b: Entries)
    requires QuoteFree(a) && QuoteFree(b) && More(a) + "}}" == More(b) + "}}"
    ensures a == b
  {
    if a == [] || b == [] {
      assert (More(a) + "}}")[0] == if a == [] then '}' else ',';
      assert (More(b) + "}}")[0] == if b == [] then '}' else ',';
    } else {
      var s, t := More(a[1..]) + "}}", More(b[1..]) + "}}";
      assert (More(a) + "}}")[1..] == Entry(a[0]) + s;
      assert (More(b) + "}}")[1..] == Entry(b[0]) + t;
      EntrySplits(a[0], s, b[0], t);
      MoreInjective(a[1..], b[1..]);
    }
  }

  /** Different entry lists never serialise alike, as long as no name or version contains a quote. */
  lemma ManifestInjective(a: Entries, b: Entries)
    requires QuoteFree(a) && QuoteFree(b) && Manifest(a) == Manifest(b)
    ensures a == b
  {
    var open := "{\"format\":1,\"crates\":{";
    var x := if a == [] then "" else Entry(a[0]) + More(a[1..]);
    var y := if b == [] then "" else Entry(b[0]) + More(b[1..]);
    assert Manifest(a)[|open|..] == x + "}}" && Manifest(b)[|open|..] == y + "}}";
    if a == [] || b == [] {
      assert (x + "}}")[0] == if a == [] then '}' else '"';
      assert (y + "}}")[0] == if b == [] then '}' else '"';
    } else {
      assert x + "}}" == Entry(a[0]) + (More(a[1..]) + "}}");
      assert y + "}}" == Entry(b[0]) + (More(b[1..]) + "}}");
      EntrySplits(a[0], More(a[1..]) + "}}", b[0], More(b[1..]) + "}}");
      MoreInjective(a[1..], b[1..]);
    }
  }

  // ---------- exactly which lists a manifest identifies ----------

  /** What stands between a name and its version. */
  const SEPARATOR := "\":\""

  function Joined(e: (string, string)): string { e.0 + SEPARATOR + e.1 }

  predicate SeparatorAt(s: string, p: nat) { p + 3 <= |s| && s[p..p + 3] == SEPARATOR }

  /** The entries as written, without the first and the last quote. */
  function Inner(es: Entries): string
    requires es != []
  {
    if |es| == 1 then Joined(es[0]) else Joined(es[0]) + "\",\"" + Inner(es[1..])
  }

  function Body(es: Entries): string { if es == [] then "" else Entry(es[0]) + More(es[1..]) }

  lemma {:induction false} BodyInner(es: Entries)
    requires es != []
    ensures Body(es) == "\"" + Inner(es) + "\""
  {
    assert Entry(es[0]) == "\"" + Joined(es[0]) + "\"";
    if |es| == 1 {
      assert es[1..] == [] && Body(es) == Entry(es[0]) + "";
    } else {
      BodyInner(es[1..]);
      MoreIsBody(es[1..]);
      Requoted(Joined(es[0]), Inner(es[1..]));
    }
  }

  lemma MoreIsBody(es: Entries)
    requires es != []
    ensures More(es) == "," + Body(es)
  {
  }

  lemma Requoted(x: string, y: string)
    ensures "\"" + x + "\"" + ("," + ("\"" + y + "\"")) == "\"" + (x + "\",\"" + y) + "\""
  {
  }

  lemma SameBody(a: Entries, b: Entries)
    ensures Manifest(a) == Manifest(b) <==> Body(a) == Body(b)
  {
    var open := "{\"format\":1,\"crates\":{";
    assert Manifest(a) == open + Body(a) + "}}" && Manifest(b) == open + Body(b) + "}}";
    assert Manifest(a)[|open|..|Manifest(a)| - 2] == Body(a) && Manifest(b)[|open|..|Manifest(b)| - 2] == Body(b);
  }

  lemma SameInner(a: Entries, b: Entries)
    requires a != [] && b != []
    ensures Manifest(a) == Manifest(b) <==> Inner(a) == Inner(b)
  {
    SameBody(a, b);
    BodyInner(a);
    BodyInner(b);
    assert Body(a)[1..|Body(a)| - 1] == Inner(a) && Body(b)[1..|Body(b)| - 1] == Inner(b);
  }

  lemma SeparatorInJoined(e: (string, string), rest: string)
    ensures SeparatorAt(Joined(e) + rest, |e.0|)
  {
    assert (Joined(e) + rest)[|e.0|..|e.0| + 3] == SEPARATOR;
  }

  /** A list that also reads as its first two entries in one. */
  function Merged(es: Entries): Entries
    requires |es| >= 2
  {
    [(es[0].0, es[0].1 + "\",\"" + Joined(es[1]))] + es[2..]
  }

  lemma MergedStaysSorted(es: Entries)
    requires |es| >= 2 && Sorted(es)
    ensures Sorted(Merged(es))
  {
    assert Merged(es)[1..] == es[2..] && es[1..][1..] == es[2..];
    assert Above(es[0].0, es[1..]) && Sorted(es[1..]);
    assert Above(es[0].0, es[2..]) && Sorted(es[2..]);
  }

  lemma MergedJoined(a: (string, string), b: (string, string))
    ensures Joined((a.0, a.1 + "\",\"" + Joined(b))) == Joined(a) + "\",\"" + Joined(b)
  {
    assert a.0 + SEPARATOR + (a.1 + "\",\"" + Joined(b)) == a.0 + SEPARATOR + a.1 + "\",\"" + Joined(b);
  }

  lemma Rejoined(x: string, y: string, z: string)
    ensures x + "\",\"" + (y + "\",\"" + z) == x + "\",\"" + y + "\",\"" + z
  {
  }

  lemma InnerThree(es: Entries, x: string, y: string, z: string)
    requires |es| >= 3 && x == Joined(es[0]) && y == Joined(es[1]) && z == Inner(es[2..])
    ensures Inner(es) == x + "\",\"" + (y + "\",\"" + z)
  {
    assert es[1..][1..] == es[2..];
  }

  lemma MergedInner(es: Entries)
    requires |es| >= 2
    ensures Inner(Merged(es)) == Inner(es)
  {
    MergedJoined(es[0], es[1]);
    assert Merged(es)[1..] == es[2..];
    if |es| > 2 {
      InnerThree(es, Joined(es[0]), Joined(es[1]), Inner(es[2..]));
      Rejoined(Joined(es[0]), Joined(es[1]), Inner(es[2..]));
    }
  }

  /** Every list of two or more entries shares its manifest with a shorter list, sorted if it was. */
  lemma MergedCollides(es: Entries)
    requires |es| >= 2
    ensures Manifest(Merged(es)) == Manifest(es) && |Merged(es)| == |es| - 1
    ensures Sorted(es) ==> Sorted(Merged(es))
  {
    MergedInner(es);
    SameInner(Merged(es), es);
    if Sorted(es) { MergedStaysSorted(es); }
  }

  /** Two crates, and one crate with a quoted version, serialise alike. */
  lemma QuotesCollide()
    ensures var a := [("a", "1"), ("b", "2")];
            var b := [("a", "1\",\"b\":\"2")];
            a != b && Manifest(a) == Manifest(b)
  {
    var a := [("a", "1"), ("b", "2")];
    MergedCollides(a);
    assert a[2..] == [];
    assert Joined(("b", "2")) == "b\":\"2";
    assert "1" + "\",\"" + "b\":\"2" == "1\",\"b\":\"2";
    assert Merged(a) == [("a", "1\",\"b\":\"2")];
  }

  /** An entry split at another separator is another entry with the same text. */
  lemma SplitCollides(e: (string, string), p: nat)
    requires SeparatorAt(Joined(e), p) && p != |e.0|
    ensures var f := (Joined(e)[..p], Joined(e)[p + 3..]);
            f != e && Manifest([f]) == Manifest([e])
  {
    var f := (Joined(e)[..p], Joined(e)[p + 3..]);
    assert |f.0| == p;
    assert Joined(f) == Joined(e);
    SameInner([f], [e]);
  }

  /** A list of two or more has two separators in its text. */
  lemma TwoSeparators(es: Entries) returns (p: nat)
    requires |es| >= 2
    ensures SeparatorAt(Inner(es), |es[0].0|) && SeparatorAt(Inner(es), p) && p > |es[0].0|
  {
    var first, rest := Joined(es[0]) + "\",\"", Inner(es[1..]);
    assert Inner(es) == Joined(es[0]) + ("\",\"" + rest);
    SeparatorInJoined(es[0], "\",\"" + rest);
    var tail := if |es| == 2 then "" else "\",\"" + Inner(es[1..][1..]);
    assert rest == Joined(es[1]) + tail;
    SeparatorInJoined(es[1], tail);
    p := |first| + |es[1].0|;
    assert Inner(es)[p..p + 3] == rest[|es[1].0|..|es[1].0| + 3];
  }

  /** No other list serialises alike. */
  ghost predicate Identified(es: Entries) {
    forall other: Entries :: Manifest(other) == Manifest(es) ==> other == es
  }

  predicate OneSeparator(e: (string, string)) {
    forall p :: 0 <= p <= |Joined(e)| && SeparatorAt(Joined(e), p) ==> p == |e.0|
  }

  lemma SingleIsIdentified(e: (string, string), other: Entries)
    requires OneSeparator(e) && Manifest(other) == Manifest([e])
    ensures other == [e]
  {
    SameBody(other, [e]);
    BodyInner([e]);
    assert other != [];
    SameInner(other, [e]);
    if |other| == 1 {
      SeparatorInJoined(other[0], "");
      assert Joined(other[0]) + "" == Joined(e);
      assert other[0].0 == Joined(e)[..|e.0|] == e.0 && other[0].1 == Joined(e)[|e.0| + 3..] == e.1;
    } else {
      var p := TwoSeparators(other);
    }
  }

  /**
   A manifest identifies its list exactly when the list is empty, or is a single entry whose text contains
   the separator once.
   */
  lemma IdentifiedExactly(es: Entries)
    ensures Identified(es) <==> es == [] || (|es| == 1 && OneSeparator(es[0]))
  {
    if es == [] {
      forall other: Entries | Manifest(other) == Manifest(es) ensures other == es { SameBody(other, es); }
    } else if |es| >= 2 {
      MergedCollides(es);
    } else {
      assert es == [es[0]];
      if OneSeparator(es[0]) {
        forall other: Entries | Manifest(other) == Manifest(es) ensures other == es { SingleIsIdentified(es[0], other); }
      } else {
        var p :| 0 <= p <= |Joined(es[0])| && SeparatorAt(Joined(es[0]), p) && p != |es[0].0|;
        SplitCollides(es[0], p);
      }
    }
  }
}
