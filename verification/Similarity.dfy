/**
 The pruned all-pairs similarity search.  `ratio` and the two quick ratios come from Python's
 difflib and are parameters; what the search relies on is stated by `Difflib`.  Ratios are exact
 reals.
 */
module Similarity {

  type Text = string

  function Decimal(n: nat): string {
    if n < 10 then ["0123456789"[n]] else Decimal(n / 10) + ["0123456789"[n % 10]]
  }

  datatype Component = Component(name: string, file: string, line: nat, normalized: Text) {
    function Key(): string { file + ":" + Decimal(line) + ":" + name }
  }

  datatype Pair = Pair(left: nat, right: nat, ratio: real)

  datatype Matcher = Matcher(
    matches: (Text, Text) -> nat,
    quick: (Text, Text) -> real,
    realQuick: (Text, Text) -> real)

  /** difflib's ratio: twice the matched length over the total length, 1 for two empty texts. */
  function Ratio(mt: Matcher, a: Text, b: Text): real {
    if |a| + |b| == 0 then 1.0 else 2.0 * (mt.matches(a, b) as real) / ((|a| + |b|) as real)
  }

  /** What difflib documents: matches lie in both texts, and the quick ratios are upper bounds. */
  ghost predicate Difflib(mt: Matcher) {
    forall a: Text, b: Text {:trigger mt.matches(a, b)} {:trigger mt.quick(a, b)} {:trigger mt.realQuick(a, b)} ::
      && mt.matches(a, b) <= |a| && mt.matches(a, b) <= |b|
      && Ratio(mt, a, b) <= mt.quick(a, b)
      && Ratio(mt, a, b) <= mt.realQuick(a, b)
  }

  function MaxPossibleRatio(left: nat, right: nat): real {
    if left == 0 && right == 0 then 1.0
    else if left == 0 || right == 0 then 0.0
    else
      var shorter := if left < right then left else right;
      var longer := if left < right then right else left;
      (2.0 * (shorter as real)) / ((shorter + longer) as real)
  }

  lemma DivideMonotone(x: real, y: real, t: real)
    requires x <= y && t > 0.0
    ensures x / t <= y / t
  {
  }

  /** The length bound: no two texts of these lengths are more similar than this. */
  lemma LengthBound(mt: Matcher, a: Text, b: Text)
    requires Difflib(mt)
    ensures Ratio(mt, a, b) <= MaxPossibleRatio(|a|, |b|)
  {
    var matched := mt.matches(a, b);
    if |a| > 0 && |b| > 0 {
      var shorter := if |a| < |b| then |a| else |b|;
      DivideMonotone(2.0 * (matched as real), 2.0 * (shorter as real), (|a| + |b|) as real);
    } else if |a| + |b| > 0 {
      assert matched == 0;
    }
  }

  /** The bound is attained when the shorter text is matched in full. */
  lemma LengthBoundIsTight(mt: Matcher, a: Text, b: Text)
    requires mt.matches(a, b) == if |a| < |b| then |a| else |b|
    ensures Ratio(mt, a, b) == MaxPossibleRatio(|a|, |b|)
  {
  }

  /** The ratio says how much of the two texts is matched: all of two empty ones. */
  lemma RatioIsMatched(mt: Matcher, a: Text, b: Text)
    ensures a == [] && b == [] ==> Ratio(mt, a, b) == 1.0
    ensures Ratio(mt, a, b) * ((|a| + |b|) as real) == if a == [] && b == [] then 0.0 else 2.0 * (mt.matches(a, b) as real)
  {
    if |a| + |b| > 0 { Quotient(2.0 * (mt.matches(a, b) as real), (|a| + |b|) as real); }
  }

  lemma Quotient(x: real, y: real)
    requires y > 0.0
    ensures x / y * y == x
  {
  }

  /** A text matched in full against itself has ratio 1. */
  lemma RatioOfSelf(mt: Matcher, a: Text)
    requires mt.matches(a, a) == |a|
    ensures Ratio(mt, a, a) == 1.0
  {
    if a != [] { SelfQuotient(|a| as real); }
  }

  lemma SelfQuotient(x: real)
    requires x > 0.0
    ensures 2.0 * x / (x + x) == 1.0
  {
  }

  // ---------- keys ----------

  lemma {:induction false} DecimalDigits(n: nat)
    ensures Decimal(n) != [] && forall i :: 0 <= i < |Decimal(n)| ==> '0' <= Decimal(n)[i] <= '9'
  {
    if n >= 10 { DecimalDigits(n / 10); }
  }

  lemma DigitOf(d: nat)
    requires d < 10
    ensures "0123456789"[d] == '0' + d as char
  {
  }

  lemma {:induction false} DecimalInjective(m: nat, n: nat)
    requires Decimal(m) == Decimal(n)
    ensures m == n
  {
    DecimalDigits(m / 10);
    DecimalDigits(n / 10);
    DigitOf(m % 10);
    DigitOf(n % 10);
    if m >= 10 && n >= 10 {
      var a, b := Decimal(m), Decimal(n);
      assert a[..|a| - 1] == Decimal(m / 10) && b[..|b| - 1] == Decimal(n / 10);
      assert a[|a| - 1] == "0123456789"[m % 10] && b[|b| - 1] == "0123456789"[n % 10];
      DecimalInjective(m / 10, n / 10);
    }
  }

  /** Text up to its first colon, and what follows. */
  lemma FirstColon(a: string, b: string, x: string, y: string)
    requires ':' !in a && ':' !in b && a + ":" + x == b + ":" + y
    ensures a == b && x == y
  {
    var s := a + ":" + x;
    assert s[|a|] == ':' && s[|b|] == ':';
    assert forall i :: 0 <= i < |a| ==> s[i] == a[i];
    assert forall i :: 0 <= i < |b| ==> s[i] == b[i];
    assert |a| == |b|;
    assert a == s[..|a|] && x == s[|a| + 1..];
  }

  /** Equal keys mean the same file, line and name, when file and name hold no colon. */
  lemma KeysIdentify(c: Component, d: Component)
    requires ':' !in c.file && ':' !in d.file && ':' !in c.name && ':' !in d.name && c.Key() == d.Key()
    ensures c.file == d.file && c.line == d.line && c.name == d.name
  {
    DecimalDigits(c.line);
    DecimalDigits(d.line);
    assert c.Key() == c.file + ":" + (Decimal(c.line) + ":" + c.name);
    assert d.Key() == d.file + ":" + (Decimal(d.line) + ":" + d.name);
    FirstColon(c.file, d.file, Decimal(c.line) + ":" + c.name, Decimal(d.line) + ":" + d.name);
    FirstColon(Decimal(c.line), Decimal(d.line), c.name, d.name);
    DecimalInjective(c.line, d.line);
  }

  // ---------- the search ----------

  /** The similarity of components `i` and `j`, as the search orients the pair. */
  function PairRatio(mt: Matcher, cs: seq<Component>, i: nat, j: nat): real
    requires i < |cs| && j < |cs|
  {
    if i < j then Ratio(mt, cs[i].normalized, cs[j].normalized)
    else Ratio(mt, cs[j].normalized, cs[i].normalized)
  }

  /** `pairs` holds every pair among those visited that reaches the threshold, with its true ratio. */
  ghost predicate KeepsQualifying(mt: Matcher, cs: seq<Component>, threshold: real, pairs: seq<Pair>, i: nat, j: nat) {
    && (forall p :: p in pairs ==>
          p.left < p.right < |cs| && p.ratio == PairRatio(mt, cs, p.left, p.right))
    && (forall l: nat, r: nat {:trigger PairRatio(mt, cs, l, r)} ::
          l < r < |cs| && (l < i || (l == i && r < j)) && PairRatio(mt, cs, l, r) >= threshold ==>
          Pair(l, r, PairRatio(mt, cs, l, r)) in pairs)
  }

  function TotalPairs(n: nat): nat { if n == 0 then 0 else TotalPairs(n - 1) + (n - 1) }

  lemma {:induction false} TotalPairsAre(n: nat)
    ensures 2 * TotalPairs(n) == n * (n - 1)
  {
    if n > 0 { TotalPairsAre(n - 1); }
  }

  /** Pairs visited by the outer loop up to row `i` of `n`. */
  function RowsBefore(n: nat, i: nat): nat
    requires i <= n
  {
    if i == 0 then 0 else RowsBefore(n, i - 1) + (n - i)
  }

  lemma {:induction false} RowsAreTriangle(n: nat, i: nat)
    requires i <= n
    ensures RowsBefore(n, i) + TotalPairs(n - i) == TotalPairs(n)
  {
    if i > 0 { RowsAreTriangle(n, i - 1); }
  }

  // ---------- what becomes of a pair ----------

  datatype Fate = TooDifferent | RuledOut | Compared

  /** Too different in length to reach the threshold, else ruled out by a quick bound, else compared. */
  function FateOf(mt: Matcher, cs: seq<Component>, threshold: real, l: nat, r: nat): Fate
    requires l < |cs| && r < |cs|
  {
    var a, b := cs[l].normalized, cs[r].normalized;
    if MaxPossibleRatio(|a|, |b|) < threshold then TooDifferent
    else if mt.realQuick(a, b) < threshold || mt.quick(a, b) < threshold then RuledOut
    else Compared
  }

  /** The pairs of a fate. */
  ghost function Fated(mt: Matcher, cs: seq<Component>, threshold: real, fate: Fate): set<(nat, nat)> {
    set l: nat, r: nat | l < r < |cs| && FateOf(mt, cs, threshold, l, r) == fate :: (l, r)
  }

  predicate Visited(l: nat, r: nat, i: nat, j: nat) { l < i || (l == i && r < j) }

  /** `s` holds the pairs of that fate among those visited. */
  ghost predicate Holds(mt: Matcher, cs: seq<Component>, threshold: real, i: nat, j: nat, fate: Fate, s: set<(nat, nat)>) {
    forall l: nat, r: nat :: (l, r) in s <==> l < r < |cs| && Visited(l, r, i, j) && FateOf(mt, cs, threshold, l, r) == fate
  }

  lemma HoldsNext(mt: Matcher, cs: seq<Component>, threshold: real, i: nat, j: nat, fate: Fate, s: set<(nat, nat)>)
    requires i < j < |cs| && Holds(mt, cs, threshold, i, j, fate, s)
    ensures (i, j) !in s
    ensures Holds(mt, cs, threshold, i, j + 1, fate, if FateOf(mt, cs, threshold, i, j) == fate then s + {(i, j)} else s)
  {
  }

  lemma HoldsRow(mt: Matcher, cs: seq<Component>, threshold: real, i: nat, fate: Fate, s: set<(nat, nat)>)
    requires i < |cs| && Holds(mt, cs, threshold, i, |cs|, fate, s)
    ensures Holds(mt, cs, threshold, i + 1, i + 2, fate, s)
  {
  }

  lemma HoldsAll(mt: Matcher, cs: seq<Component>, threshold: real, fate: Fate, s: set<(nat, nat)>)
    requires Holds(mt, cs, threshold, |cs|, |cs| + 1, fate, s)
    ensures s == Fated(mt, cs, threshold, fate)
  {
    forall p ensures p in s <==> p in Fated(mt, cs, threshold, fate) {
      assert p == (p.0, p.1);
    }
  }

  predicate Before(p: Pair, q: Pair) { p.left < q.left || (p.left == q.left && p.right < q.right) }

  /** `pairs` are the pairs of `s`, row by row. */
  ghost predicate RowByRow(pairs: seq<Pair>, s: set<(nat, nat)>) {
    && |pairs| == |s|
    && (forall k :: 0 <= k < |pairs| ==> (pairs[k].left, pairs[k].right) in s)
    && (forall k, m :: 0 <= k < m < |pairs| ==> Before(pairs[k], pairs[m]))
  }

  lemma RowByRowNext(mt: Matcher, cs: seq<Component>, threshold: real, i: nat, j: nat, pairs: seq<Pair>, s: set<(nat, nat)>, ratio: real)
    requires i < j < |cs| && Holds(mt, cs, threshold, i, j, Compared, s) && RowByRow(pairs, s)
    ensures RowByRow(pairs + [Pair(i, j, ratio)], s + {(i, j)})
  {
    forall k | 0 <= k < |pairs| ensures Before(pairs[k], Pair(i, j, ratio)) {
      assert (pairs[k].left, pairs[k].right) in s;
    }
  }

  /** The three fates counted, and the compared pairs listed row by row. */
  ghost predicate Tallied(mt: Matcher, cs: seq<Component>, threshold: real, i: nat, j: nat, pairs: seq<Pair>, byLength: nat, byQuick: nat,
                          different: set<(nat, nat)>, ruledOut: set<(nat, nat)>, compared: set<(nat, nat)>) {
    && Holds(mt, cs, threshold, i, j, TooDifferent, different) && byLength == |different|
    && Holds(mt, cs, threshold, i, j, RuledOut, ruledOut) && byQuick == |ruledOut|
    && Holds(mt, cs, threshold, i, j, Compared, compared) && RowByRow(pairs, compared)
  }

  lemma TallyRow(mt: Matcher, cs: seq<Component>, threshold: real, i: nat, pairs: seq<Pair>, byLength: nat, byQuick: nat,
                 different: set<(nat, nat)>, ruledOut: set<(nat, nat)>, compared: set<(nat, nat)>)
    requires i < |cs| && Tallied(mt, cs, threshold, i, |cs|, pairs, byLength, byQuick, different, ruledOut, compared)
    ensures Tallied(mt, cs, threshold, i + 1, i + 2, pairs, byLength, byQuick, different, ruledOut, compared)
  {
    HoldsRow(mt, cs, threshold, i, TooDifferent, different);
    HoldsRow(mt, cs, threshold, i, RuledOut, ruledOut);
    HoldsRow(mt, cs, threshold, i, Compared, compared);
  }

  lemma TallyOne(mt: Matcher, cs: seq<Component>, threshold: real, i: nat, j: nat, pairs: seq<Pair>, byLength: nat, byQuick: nat,
                 different: set<(nat, nat)>, ruledOut: set<(nat, nat)>, compared: set<(nat, nat)>, ratio: real)
    requires i < j < |cs| && Tallied(mt, cs, threshold, i, j, pairs, byLength, byQuick, different, ruledOut, compared)
    ensures match FateOf(mt, cs, threshold, i, j)
            case TooDifferent => Tallied(mt, cs, threshold, i, j + 1, pairs, byLength + 1, byQuick, different + {(i, j)}, ruledOut, compared)
            case RuledOut => Tallied(mt, cs, threshold, i, j + 1, pairs, byLength, byQuick + 1, different, ruledOut + {(i, j)}, compared)
            case Compared => Tallied(mt, cs, threshold, i, j + 1, pairs + [Pair(i, j, ratio)], byLength, byQuick, different, ruledOut, compared + {(i, j)})
  {
    HoldsNext(mt, cs, threshold, i, j, TooDifferent, different);
    HoldsNext(mt, cs, threshold, i, j, RuledOut, ruledOut);
    HoldsNext(mt, cs, threshold, i, j, Compared, compared);
    RowByRowNext(mt, cs, threshold, i, j, pairs, compared, ratio);
  }

  /** The state of the search before pair (i, j): what is kept and what is counted. */
  ghost predicate Searching(mt: Matcher, cs: seq<Component>, threshold: real, i: nat, j: nat, pairs: seq<Pair>, byLength: nat, byQuick: nat,
                            different: set<(nat, nat)>, ruledOut: set<(nat, nat)>, compared: set<(nat, nat)>) {
    && KeepsQualifying(mt, cs, threshold, pairs, i, j)
    && Tallied(mt, cs, threshold, i, j, pairs, byLength, byQuick, different, ruledOut, compared)
  }

  lemma KeepOne(mt: Matcher, cs: seq<Component>, threshold: real, i: nat, j: nat, pairs: seq<Pair>)
    requires Difflib(mt) && i < j < |cs| && KeepsQualifying(mt, cs, threshold, pairs, i, j)
    ensures var pair := Pair(i, j, Ratio(mt, cs[i].normalized, cs[j].normalized));
            KeepsQualifying(mt, cs, threshold, if FateOf(mt, cs, threshold, i, j) == Compared then pairs + [pair] else pairs, i, j + 1)
  {
    LengthBound(mt, cs[i].normalized, cs[j].normalized);
  }

  /** One pair: compared, or skipped for a reason that rules it out. */
  method VisitPair(mt: Matcher, cs: seq<Component>, threshold: real, i: nat, j: nat, pairs: seq<Pair>, byLength: nat, byQuick: nat,
                   ghost different: set<(nat, nat)>, ghost ruledOut: set<(nat, nat)>, ghost compared: set<(nat, nat)>)
    returns (pairs': seq<Pair>, byLength': nat, byQuick': nat,
             ghost different': set<(nat, nat)>, ghost ruledOut': set<(nat, nat)>, ghost compared': set<(nat, nat)>)
    requires Difflib(mt) && i < j < |cs| && Searching(mt, cs, threshold, i, j, pairs, byLength, byQuick, different, ruledOut, compared)
    ensures Searching(mt, cs, threshold, i, j + 1, pairs', byLength', byQuick', different', ruledOut', compared')
    ensures |pairs'| + byLength' + byQuick' == |pairs| + byLength + byQuick + 1
  {
    pairs', byLength', byQuick' := pairs, byLength, byQuick;
    different', ruledOut', compared' := different, ruledOut, compared;
    var a, b := cs[i].normalized, cs[j].normalized;
    TallyOne(mt, cs, threshold, i, j, pairs, byLength, byQuick, different, ruledOut, compared, Ratio(mt, a, b));
    KeepOne(mt, cs, threshold, i, j, pairs);
    if MaxPossibleRatio(|a|, |b|) < threshold {
      byLength', different' := byLength + 1, different + {(i, j)};
    } else if mt.realQuick(a, b) < threshold || mt.quick(a, b) < threshold {
      byQuick', ruledOut' := byQuick + 1, ruledOut + {(i, j)};
    } else {
      pairs', compared' := pairs + [Pair(i, j, Ratio(mt, a, b))], compared + {(i, j)};
    }
  }

  lemma SearchRow(mt: Matcher, cs: seq<Component>, threshold: real, i: nat, pairs: seq<Pair>, byLength: nat, byQuick: nat,
                  different: set<(nat, nat)>, ruledOut: set<(nat, nat)>, compared: set<(nat, nat)>)
    requires i < |cs| && Searching(mt, cs, threshold, i, |cs|, pairs, byLength, byQuick, different, ruledOut, compared)
    ensures Searching(mt, cs, threshold, i + 1, i + 2, pairs, byLength, byQuick, different, ruledOut, compared)
  {
    TallyRow(mt, cs, threshold, i, pairs, byLength, byQuick, different, ruledOut, compared);
  }

  lemma SearchDone(mt: Matcher, cs: seq<Component>, threshold: real, pairs: seq<Pair>, byLength: nat, byQuick: nat,
                   different: set<(nat, nat)>, ruledOut: set<(nat, nat)>, compared: set<(nat, nat)>)
    requires Searching(mt, cs, threshold, |cs|, |cs| + 1, pairs, byLength, byQuick, different, ruledOut, compared)
    ensures KeepsQualifying(mt, cs, threshold, pairs, |cs|, 0)
    ensures byLength == |Fated(mt, cs, threshold, TooDifferent)| && byQuick == |Fated(mt, cs, threshold, RuledOut)|
    ensures RowByRow(pairs, Fated(mt, cs, threshold, Compared))
  {
    HoldsAll(mt, cs, threshold, TooDifferent, different);
    HoldsAll(mt, cs, threshold, RuledOut, ruledOut);
    HoldsAll(mt, cs, threshold, Compared, compared);
  }

  /** Every pair that reaches the threshold is kept, the compared pairs are listed row by row, and each reason to skip is counted. */
  method ComputePairs(mt: Matcher, cs: seq<Component>, threshold: real)
    returns (pairs: seq<Pair>, total: nat, byLength: nat, byQuick: nat)
    requires Difflib(mt)
    ensures KeepsQualifying(mt, cs, threshold, pairs, |cs|, 0)
    ensures 2 * total == |cs| * (|cs| - 1) && total == |pairs| + byLength + byQuick
    ensures byLength == |Fated(mt, cs, threshold, TooDifferent)| && byQuick == |Fated(mt, cs, threshold, RuledOut)|
    ensures RowByRow(pairs, Fated(mt, cs, threshold, Compared))
  {
    pairs, total, byLength, byQuick := [], 0, 0, 0;
    ghost var different: set<(nat, nat)>, ruledOut: set<(nat, nat)>, compared: set<(nat, nat)> := {}, {}, {};
    for i := 0 to |cs|
      invariant Searching(mt, cs, threshold, i, i + 1, pairs, byLength, byQuick, different, ruledOut, compared)
      invariant total == RowsBefore(|cs|, i) == |pairs| + byLength + byQuick
    {
      for j := i + 1 to |cs|
        invariant Searching(mt, cs, threshold, i, j, pairs, byLength, byQuick, different, ruledOut, compared)
        invariant total == RowsBefore(|cs|, i) + (j - i - 1) == |pairs| + byLength + byQuick
      {
        total := total + 1;
        pairs, byLength, byQuick, different, ruledOut, compared :=
          VisitPair(mt, cs, threshold, i, j, pairs, byLength, byQuick, different, ruledOut, compared);
      }
      SearchRow(mt, cs, threshold, i, pairs, byLength, byQuick, different, ruledOut, compared);
    }
    RowsAreTriangle(|cs|, |cs|);
    TotalPairsAre(|cs|);
    SearchDone(mt, cs, threshold, pairs, byLength, byQuick, different, ruledOut, compared);
  }

  // ---------- the report ----------

  datatype Best = Best(peer: int, ratio: real)

  /** Some peer reaches the threshold. */
  ghost predicate Qualifies(mt: Matcher, cs: seq<Component>, threshold: real, i: nat)
    requires i < |cs|
  {
    exists j: nat :: j < |cs| && j != i && PairRatio(mt, cs, i, j) >= threshold
  }

  /** `best` is the largest ratio over all peers, attained by the recorded peer. */
  ghost predicate TrueBest(mt: Matcher, cs: seq<Component>, i: nat, best: Best)
    requires i < |cs|
  {
    && (forall j: nat :: j < |cs| && j != i ==> PairRatio(mt, cs, i, j) <= best.ratio)
    && (best.peer == -1 ==> best.ratio == 0.0)
    && (best.peer != -1 ==> 0 <= best.peer < |cs| && best.peer != i && best.ratio == PairRatio(mt, cs, i, best.peer))
  }

  /** The best entry of component `i` after `pairs`: the first pair with the largest ratio of those mentioning it, or none. */
  ghost predicate BestSoFar(pairs: seq<Pair>, i: nat, best: Best) {
    && best.ratio >= 0.0
    && (forall p :: p in pairs && Mentions(p, i) ==> p.ratio <= best.ratio)
    && (best.peer == -1 ==> best.ratio == 0.0)
    && (best.peer != -1 ==> exists k: nat :: FirstBest(pairs, i, best, k))
  }

  predicate Mentions(p: Pair, i: nat) { p.left == i || p.right == i }

  /** Pair `k` joins `i` to its best peer, and every earlier pair mentioning `i` has a smaller ratio. */
  predicate FirstBest(pairs: seq<Pair>, i: nat, best: Best, k: nat) {
    && k < |pairs| && pairs[k].ratio == best.ratio && Joins(pairs[k], i, best.peer)
    && forall m :: 0 <= m < k && Mentions(pairs[m], i) ==> pairs[m].ratio < best.ratio
  }

  predicate Joins(p: Pair, i: nat, peer: int) {
    (p.left == i && p.right == peer) || (p.right == i && p.left == peer)
  }

  ghost predicate QualifyingKey(cs: seq<Component>, pairs: seq<Pair>, threshold: real, key: string) {
    exists p :: p in pairs && p.ratio >= threshold && p.left < |cs| && p.right < |cs|
                && (cs[p.left].Key() == key || cs[p.right].Key() == key)
  }

  method RankPeers(cs: seq<Component>, pairs: seq<Pair>, threshold: real)
    returns (best: seq<Best>, keys: set<string>)
    requires forall p :: p in pairs ==> p.left < p.right < |cs|
    ensures |best| == |cs|
    ensures forall i :: 0 <= i < |cs| ==> BestSoFar(pairs, i, best[i])
    ensures forall key :: key in keys <==> QualifyingKey(cs, pairs, threshold, key)
  {
    best := seq(|cs|, _ => Best(-1, 0.0));
    keys := {};
    for n := 0 to |pairs|
      invariant |best| == |cs|
      invariant forall i :: 0 <= i < |cs| ==> BestSoFar(pairs[..n], i, best[i])
      invariant forall key :: key in keys <==> QualifyingKey(cs, pairs[..n], threshold, key)
    {
      var p := pairs[n];
      assert p in pairs;
      assert pairs[..n + 1] == pairs[..n] + [p];
      ghost var before, keysBefore := best, keys;
      if p.ratio >= threshold {
        keys := keys + {cs[p.left].Key(), cs[p.right].Key()};
      }
      KeyStep(cs, pairs[..n], p, threshold, keysBefore, keys);
      if p.ratio > best[p.left].ratio {
        best := best[p.left := Best(p.right, p.ratio)];
      }
      if p.ratio > best[p.right].ratio {
        best := best[p.right := Best(p.left, p.ratio)];
      }
      forall i | 0 <= i < |cs| ensures BestSoFar(pairs[..n] + [p], i, best[i]) {
        BestStep(pairs[..n], p, i, before[i]);
      }
    }
    assert pairs[..|pairs|] == pairs;
  }

  lemma KeyStep(cs: seq<Component>, pairs: seq<Pair>, p: Pair, threshold: real, before: set<string>, after: set<string>)
    requires p.left < |cs| && p.right < |cs|
    requires forall key :: key in before <==> QualifyingKey(cs, pairs, threshold, key)
    requires after == if p.ratio >= threshold then before + {cs[p.left].Key(), cs[p.right].Key()} else before
    ensures forall key :: key in after <==> QualifyingKey(cs, pairs + [p], threshold, key)
  {
    forall key ensures key in after <==> QualifyingKey(cs, pairs + [p], threshold, key) {
      if QualifyingKey(cs, pairs, threshold, key) {
        var q :| q in pairs && q.ratio >= threshold && q.left < |cs| && q.right < |cs|
                 && (cs[q.left].Key() == key || cs[q.right].Key() == key);
        assert q in pairs + [p];
      }
      if p.ratio >= threshold && (cs[p.left].Key() == key || cs[p.right].Key() == key) {
        assert p in pairs + [p];
      }
    }
  }

  lemma BestStep(pairs: seq<Pair>, p: Pair, i: nat, before: Best)
    requires BestSoFar(pairs, i, before) && p.left < p.right
    ensures BestSoFar(pairs + [p], i,
                      if p.left == i && p.ratio > before.ratio then Best(p.right, p.ratio)
                      else if p.right == i && p.ratio > before.ratio then Best(p.left, p.ratio)
                      else before)
  {
    if Mentions(p, i) && p.ratio > before.ratio {
      var best := Best(if p.left == i then p.right else p.left, p.ratio);
      forall m | 0 <= m < |pairs| && Mentions(pairs[m], i) ensures pairs[m].ratio < best.ratio { assert pairs[m] in pairs; }
      assert FirstBest(pairs + [p], i, best, |pairs|);
    } else if before.peer != -1 {
      var k: nat :| FirstBest(pairs, i, before, k);
      assert FirstBest(pairs + [p], i, before, k);
    }
  }

  // ---------- pruning changes nothing that is reported ----------

  /** A component that qualifies has its true best over all peers, although pairs were pruned. */
  lemma BestIsTrueMaximum(mt: Matcher, cs: seq<Component>, threshold: real, pairs: seq<Pair>, i: nat, best: Best)
    requires i < |cs| && KeepsQualifying(mt, cs, threshold, pairs, |cs|, 0)
    requires BestSoFar(pairs, i, best) && Qualifies(mt, cs, threshold, i)
    ensures TrueBest(mt, cs, i, best) && best.ratio >= threshold
  {
    var q: nat :| q < |cs| && q != i && PairRatio(mt, cs, i, q) >= threshold;
    if best.peer != -1 {
      var k: nat :| FirstBest(pairs, i, best, k);
      assert pairs[k] in pairs;
    }
    forall j: nat | j < |cs| && j != i ensures PairRatio(mt, cs, i, j) >= threshold ==> PairRatio(mt, cs, i, j) <= best.ratio {
      var l, r := if i < j then i else j, if i < j then j else i;
      assert PairRatio(mt, cs, l, r) == PairRatio(mt, cs, i, j);
    }
    assert PairRatio(mt, cs, i, q) <= best.ratio;
  }

  /** A key is reported exactly when a component with that key qualifies in the unpruned search. */
  lemma QualifyingIsUnpruned(mt: Matcher, cs: seq<Component>, threshold: real, pairs: seq<Pair>, key: string)
    requires KeepsQualifying(mt, cs, threshold, pairs, |cs|, 0)
    ensures QualifyingKey(cs, pairs, threshold, key) <==>
            exists i: nat :: i < |cs| && cs[i].Key() == key && Qualifies(mt, cs, threshold, i)
  {
    if QualifyingKey(cs, pairs, threshold, key) {
      var p :| p in pairs && p.ratio >= threshold && p.left < |cs| && p.right < |cs|
               && (cs[p.left].Key() == key || cs[p.right].Key() == key);
      assert PairRatio(mt, cs, p.right, p.left) == PairRatio(mt, cs, p.left, p.right) >= threshold;
      assert Qualifies(mt, cs, threshold, p.left) && Qualifies(mt, cs, threshold, p.right);
    }
    if i: nat :| i < |cs| && cs[i].Key() == key && Qualifies(mt, cs, threshold, i) {
      var j: nat :| j < |cs| && j != i && PairRatio(mt, cs, i, j) >= threshold;
      var l, r := if i < j then i else j, if i < j then j else i;
      assert PairRatio(mt, cs, l, r) == PairRatio(mt, cs, i, j);
      assert Pair(l, r, PairRatio(mt, cs, l, r)) in pairs;
    }
  }

  /** The report's qualifying keys and best ratios are those of the search without pruning. */
  method Report(mt: Matcher, cs: seq<Component>, threshold: real) returns (best: seq<Best>, keys: set<string>)
    requires Difflib(mt)
    ensures |best| == |cs|
    ensures forall key :: key in keys <==>
              exists i: nat :: i < |cs| && cs[i].Key() == key && Qualifies(mt, cs, threshold, i)
    ensures forall i: nat :: i < |cs| && Qualifies(mt, cs, threshold, i) ==>
              TrueBest(mt, cs, i, best[i]) && best[i].ratio >= threshold
  {
    var pairs, total, byLength, byQuick := ComputePairs(mt, cs, threshold);
    best, keys := RankPeers(cs, pairs, threshold);
    forall key { QualifyingIsUnpruned(mt, cs, threshold, pairs, key); }
    forall i: nat | i < |cs| && Qualifies(mt, cs, threshold, i)
      ensures TrueBest(mt, cs, i, best[i]) && best[i].ratio >= threshold
    {
      BestIsTrueMaximum(mt, cs, threshold, pairs, i, best[i]);
    }
  }
}
