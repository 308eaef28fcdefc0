/**
 The brace matcher runs over the whole file; the comment remover runs again from scratch over
 the body it delimits, without seeing what follows.  They nevertheless read every character of
 the body in the same mode.
 */
module ScannerAgreement {
  import opened Wrappers
  import opened RustScanner

  /** Every token lies between `lo` and `hi`. */
  predicate Inside(toks: seq<Token>, lo: nat, hi: nat) {
    forall k :: 0 <= k < |toks| ==> lo <= toks[k].start < toks[k].end <= hi
  }

  function Shift1(t: Token, lo: nat): Token
    requires lo <= t.start && lo <= t.end
  {
    Token(t.start - lo, t.end - lo, t.before, t.after)
  }

  /** The tokens as seen from `lo`. */
  function Shift(toks: seq<Token>, lo: nat, hi: nat): (r: seq<Token>)
    requires Inside(toks, lo, hi)
    ensures |r| == |toks|
  {
    if toks == [] then [] else [Shift1(toks[0], lo)] + Shift(toks[1..], lo, hi)
  }

  lemma {:induction false} HashesInSlice(text: string, lo: nat, hi: nat, j: nat)
    requires lo <= j <= hi < |text| && text[hi] != '#'
    ensures Hashes(text[lo..hi], j - lo) == Hashes(text, j) && j + Hashes(text, j) <= hi
    decreases hi - j
  {
    if At(text, j, '#') { HashesInSlice(text, lo, hi, j + 1); }
  }

  /** A scan at `j` that can still arrive at `hi` in code: it is there, or its next token stays short of it. */
  predicate Heads(text: string, j: nat, mode: Mode, hi: nat, letter: char -> bool)
    requires hi < |text|
  {
    (j == hi && mode == Code) || (j < hi && Advance(text, j, mode, letter).next <= hi)
  }

  /** Cutting the text off at a closing brace the scan will read as code changes no token before it. */
  lemma AdvanceInSlice(text: string, lo: nat, hi: nat, i: nat, mode: Mode, letter: char -> bool)
    requires lo <= i < hi < |text| && text[hi] == '}'
    requires var s := Advance(text, i, mode, letter); Heads(text, s.next, s.mode, hi, letter)
    ensures var s := Advance(text, i, mode, letter);
            Advance(text[lo..hi], i - lo, mode, letter) == Step(s.next - lo, s.mode)
  {
    HashesInSlice(text, lo, hi, i + 1);
    var s := Advance(text, i, mode, letter);
    var body := text[lo..hi];
    if mode == Code && text[i] == '\'' {
      if s.mode == Char {
        assert s.next == i + 1 < hi;
        assert StartsCharLiteral(text, i) ==> StartsCharLiteral(body, i - lo);
      } else {
        assert i + 1 < hi;
      }
    }
  }

  lemma {:induction false} TokensBefore(text: string, i: nat, mode: Mode, letter: char -> bool, k: nat)
    requires k < |Tokens(text, i, mode, letter)|
    ensures Inside(Tokens(text, i, mode, letter)[..k], i, Tokens(text, i, mode, letter)[k].start)
    decreases k
  {
    TokensTile(text, i, mode, letter, k);
    if k > 0 {
      TokensTile(text, i, mode, letter, k - 1);
      TokensBefore(text, i, mode, letter, k - 1);
    }
  }

  lemma TokensCons(text: string, i: nat, mode: Mode, letter: char -> bool) returns (s: Step)
    requires i < |text|
    ensures s == Advance(text, i, mode, letter)
    ensures Tokens(text, i, mode, letter) == [Token(i, s.next, mode, s.mode)] + Tokens(text, s.next, s.mode, letter)
  {
    s := Advance(text, i, mode, letter);
  }

  /** If the k-th token from `j` starts at `hi` in code, the scan at `j` heads for it. */
  lemma HeadsFor(text: string, j: nat, mode: Mode, letter: char -> bool, k: nat)
    requires k < |Tokens(text, j, mode, letter)| && Tokens(text, j, mode, letter)[k].before == Code
    ensures var hi := Tokens(text, j, mode, letter)[k].start;
            j <= hi < |text| && Heads(text, j, mode, hi, letter)
  {
    TokensTile(text, j, mode, letter, k);
    TokensTile(text, j, mode, letter, 0);
    if k > 0 {
      TokensBefore(text, j, mode, letter, k);
      assert Tokens(text, j, mode, letter)[..k][0].end <= Tokens(text, j, mode, letter)[k].start;
    }
  }

  /** The first token before the closing brace `hi`, seen in place and in the body alone. */
  lemma FirstInSlice(text: string, lo: nat, hi: nat, i: nat, mode: Mode, letter: char -> bool, k: nat) returns (t: Token)
    requires lo <= i <= hi < |text| && 0 < k < |Tokens(text, i, mode, letter)|
    requires var t := Tokens(text, i, mode, letter)[k]; t.start == hi && Closes(text, t)
    ensures lo <= t.start < t.end <= hi
    ensures Tokens(text, i, mode, letter) == [t] + Tokens(text, t.end, t.after, letter)
    ensures Tokens(text[lo..hi], i - lo, mode, letter) == [Shift1(t, lo)] + Tokens(text[lo..hi], t.end - lo, t.after, letter)
  {
    TokensTile(text, i, mode, letter, k);
    var s := TokensCons(text, i, mode, letter);
    HeadsFor(text, s.next, s.mode, letter, k - 1);
    AdvanceInSlice(text, lo, hi, i, mode, letter);
    var s' := TokensCons(text[lo..hi], i - lo, mode, letter);
    t := Token(i, s.next, mode, s.mode);
  }

  /** Up to the token that starts at the closing brace `hi`, the body alone lexes as it does in place. */
  lemma {:induction false} SliceTokens(text: string, lo: nat, hi: nat, i: nat, mode: Mode, letter: char -> bool, k: nat)
    requires lo <= i <= hi < |text| && k < |Tokens(text, i, mode, letter)|
    requires var t := Tokens(text, i, mode, letter)[k]; t.start == hi && Closes(text, t)
    requires Inside(Tokens(text, i, mode, letter)[..k], lo, hi)
    ensures Tokens(text[lo..hi], i - lo, mode, letter) == Shift(Tokens(text, i, mode, letter)[..k], lo, hi)
    decreases k
  {
    var toks := Tokens(text, i, mode, letter);
    TokensTile(text, i, mode, letter, k);
    if k > 0 {
      var t := FirstInSlice(text, lo, hi, i, mode, letter, k);
      var rest := Tokens(text, t.end, t.after, letter);
      assert toks[..k][1..] == rest[..k - 1];
      SliceTokens(text, lo, hi, t.end, t.after, letter, k - 1);
      ShiftCons(toks[..k], rest[..k - 1], lo, hi);
    }
  }

  lemma ShiftCons(toks: seq<Token>, rest: seq<Token>, lo: nat, hi: nat)
    requires Inside(toks, lo, hi) && Inside(rest, lo, hi) && toks != [] && toks[1..] == rest
    ensures Shift(toks, lo, hi) == [Shift1(toks[0], lo)] + Shift(rest, lo, hi)
  {
  }

  /** What the tokens leave behind, one after the other. */
  function EmitAll(text: string, toks: seq<Token>): string
    requires Inside(toks, 0, |text|)
  {
    if toks == [] then "" else Emit(text, toks[0]) + EmitAll(text, toks[1..])
  }

  lemma TokensInText(text: string, i: nat, mode: Mode, letter: char -> bool)
    ensures Inside(Tokens(text, i, mode, letter), i, |text|)
  {
    forall k | 0 <= k < |Tokens(text, i, mode, letter)|
      ensures var t := Tokens(text, i, mode, letter)[k]; i <= t.start < t.end <= |text|
    {
      TokensTile(text, i, mode, letter, k);
    }
  }

  lemma {:induction false} StrippedIsEmitAll(text: string, i: nat, mode: Mode, letter: char -> bool)
    ensures Inside(Tokens(text, i, mode, letter), 0, |text|)
    ensures Stripped(text, i, mode, letter) == EmitAll(text, Tokens(text, i, mode, letter))
    decreases |text| - i
  {
    TokensInText(text, i, mode, letter);
    if i < |text| {
      var s := Advance(text, i, mode, letter);
      StrippedIsEmitAll(text, s.next, s.mode, letter);
      assert Tokens(text, i, mode, letter)[1..] == Tokens(text, s.next, s.mode, letter);
    }
  }

  lemma EmitShifted(text: string, lo: nat, hi: nat, t: Token)
    requires lo <= t.start < t.end <= hi <= |text|
    ensures Emit(text[lo..hi], Shift1(t, lo)) == Emit(text, t)
  {
    var body := text[lo..hi];
    var a, b := body[t.start - lo..t.end - lo], text[t.start..t.end];
    assert |a| == |b|;
    forall k | 0 <= k < |a| ensures a[k] == b[k] {
      assert a[k] == body[t.start - lo + k] == text[t.start + k];
    }
    assert a == b;
  }

  lemma {:induction false} ShiftInside(lo: nat, hi: nat, toks: seq<Token>)
    requires Inside(toks, lo, hi)
    ensures forall k :: 0 <= k < |toks| ==> Shift(toks, lo, hi)[k] == Shift1(toks[k], lo)
    ensures lo <= hi ==> Inside(Shift(toks, lo, hi), 0, hi - lo)
  {
    if toks != [] { ShiftInside(lo, hi, toks[1..]); }
  }

  lemma {:induction false} EmitAllShifted(text: string, lo: nat, hi: nat, toks: seq<Token>)
    requires lo <= hi <= |text| && Inside(toks, lo, hi) && Inside(Shift(toks, lo, hi), 0, hi - lo)
    ensures EmitAll(text[lo..hi], Shift(toks, lo, hi)) == EmitAll(text, toks)
  {
    if toks != [] {
      var rest := Shift(toks[1..], lo, hi);
      assert Shift(toks, lo, hi) == [Shift1(toks[0], lo)] + rest;
      assert Shift(toks, lo, hi)[1..] == rest;
      ShiftInside(lo, hi, toks[1..]);
      EmitAllShifted(text, lo, hi, toks[1..]);
      EmitShifted(text, lo, hi, toks[0]);
    }
  }

  lemma {:induction false} DepthShifted(text: string, lo: nat, hi: nat, toks: seq<Token>)
    requires lo <= hi <= |text| && Inside(toks, lo, hi)
    ensures Depth(text[lo..hi], Shift(toks, lo, hi)) == Depth(text, toks)
  {
    if toks != [] {
      DepthShifted(text, lo, hi, toks[1..]);
      assert toks == [toks[0]] + toks[1..];
      DepthCons(text, toks[0], toks[1..]);
      DepthCons(text[lo..hi], Shift1(toks[0], lo), Shift(toks[1..], lo, hi));
    }
  }

  lemma {:induction false} DepthCons(text: string, t: Token, toks: seq<Token>)
    ensures Depth(text, [t] + toks) ==
            Depth(text, toks) + if Opens(text, t) then 1 else if Closes(text, t) then -1 else 0
  {
    if toks == [] {
      DepthSnoc(text, [], t);
      assert [t] + toks == [] + [t];
    } else {
      var k := |toks| - 1;
      DepthCons(text, t, toks[..k]);
      assert ([t] + toks)[..k + 1] == [t] + toks[..k];
    }
  }

  /** The first token from an opening brace is that brace, and its match comes later. */
  lemma OpeningToken(text: string, open: nat, letter: char -> bool, at: nat)
    requires At(text, open, '{') && Balances(text, Tokens(text, open, Code, letter), at)
    ensures var toks := Tokens(text, open, Code, letter);
            0 < at && toks == [Token(open, open + 1, Code, Code)] + Tokens(text, open + 1, Code, letter)
  {
    var s := TokensCons(text, open, Code, letter);
    assert s == Step(open + 1, Code);
  }

  /** Between an opening brace and the brace matched to it, braces balance. */
  lemma BodyBalances(text: string, toks: seq<Token>, at: nat)
    requires 0 < at && Balances(text, toks, at) && Opens(text, toks[0])
    ensures Depth(text, toks[1..at]) == 0
  {
    assert toks[..at] == [toks[0]] + toks[1..at];
    DepthCons(text, toks[0], toks[1..at]);
    assert toks[..at + 1] == toks[..at] + [toks[at]];
    DepthSnoc(text, toks[..at], toks[at]);
  }

  /**
   For a body delimited by an opening brace and the brace matched to it: lexing the body alone
   gives exactly the tokens it has in the file, and no literal or comment is open at its end.
   */
  lemma BodyLexesInPlace(text: string, open: nat, letter: char -> bool, at: nat)
    requires At(text, open, '{') && Balances(text, Tokens(text, open, Code, letter), at)
    ensures var toks := Tokens(text, open, Code, letter);
            var close := toks[at].start;
            && open < close < |text| && 0 < at
            && Inside(toks[1..at], open + 1, close)
            && Tokens(text[open + 1..close], 0, Code, letter) == Shift(toks[1..at], open + 1, close)
            && toks[at - 1].after == Code
  {
    var toks := Tokens(text, open, Code, letter);
    OpeningToken(text, open, letter, at);
    var rest := Tokens(text, open + 1, Code, letter);
    TokensTile(text, open, Code, letter, at);
    TokensTile(text, open + 1, Code, letter, at - 1);
    TokensBefore(text, open + 1, Code, letter, at - 1);
    assert toks[1..at] == rest[..at - 1];
    SliceTokens(text, open + 1, toks[at].start, open + 1, Code, letter, at - 1);
  }

  /** The comment remover, run on the body alone, leaves what the file's own tokens leave; its braces balance. */
  lemma ScannersAgree(text: string, open: nat, letter: char -> bool, at: nat)
    requires At(text, open, '{') && Balances(text, Tokens(text, open, Code, letter), at)
    ensures var toks := Tokens(text, open, Code, letter);
            var close := toks[at].start;
            && 0 < at && open < close < |text| && Inside(toks[1..at], open + 1, close)
            && Stripped(text[open + 1..close], 0, Code, letter) == EmitAll(text, toks[1..at])
            && Depth(text[open + 1..close], Tokens(text[open + 1..close], 0, Code, letter)) == 0
  {
    var toks := Tokens(text, open, Code, letter);
    var close := toks[at].start;
    BodyLexesInPlace(text, open, letter, at);
    OpeningToken(text, open, letter, at);
    BodyBalances(text, toks, at);
    ShiftInside(open + 1, close, toks[1..at]);
    EmitAllShifted(text, open + 1, close, toks[1..at]);
    DepthShifted(text, open + 1, close, toks[1..at]);
    StrippedIsEmitAll(text[open + 1..close], 0, Code, letter);
  }

  /** `body` is what the tokens between the opening brace and the matching token `at` leave behind. */
  ghost predicate IsBody(text: string, open: nat, toks: seq<Token>, at: nat, body: string) {
    && 0 < at && Matches(text, toks, at) && Inside(toks[1..at], 0, |text|)
    && toks[at].start > open && body == EmitAll(text, toks[1..at])
  }

  /**
   The body of the function whose opening brace is at `openIdx`, comments removed; nothing exactly
   when the brace is never matched.
   */
  method ExtractBody(text: string, openIdx: nat, letter: char -> bool) returns (r: Option<string>)
    requires At(text, openIdx, '{')
    ensures var toks := Tokens(text, openIdx, Code, letter);
            if r.None? then forall k :: 0 <= k < |toks| ==> !Balances(text, toks, k)
            else exists at: nat :: IsBody(text, openIdx, toks, at, r.value)
    ensures var close := CloseFrom(text, openIdx, Code, 0, letter);
            if close == -1 then r.None?
            else openIdx < close <= |text| && r == Some(Stripped(text[openIdx + 1..close], 0, Code, letter))
  {
    var closeIdx := FindMatchingBrace(text, openIdx, letter);
    if closeIdx == -1 {
      return None;
    }
    ghost var toks := Tokens(text, openIdx, Code, letter);
    ghost var at: nat :| Matches(text, toks, at) && closeIdx == toks[at].start;
    ScannersAgree(text, openIdx, letter, at);
    var stripped := RemoveComments(text[openIdx + 1..closeIdx], letter);
    r := Some(stripped);
    assert IsBody(text, openIdx, toks, at, stripped);
  }
}
