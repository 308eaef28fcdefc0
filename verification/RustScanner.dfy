/**
 The two hand-written scanners of Rust source text, each proved against one lexer.

 `Advance` is the lexer: from a position in a mode it consumes one token and says which mode
 follows.  `Tokens` runs it to the end of the text.  Which non-ASCII characters are letters
 is a parameter.
 */
module RustScanner {

  datatype Mode = Code | Line | Block(depth: nat) | Str | Char | Raw(hashes: nat)

  datatype Step = Step(next: nat, mode: Mode)

  datatype Token = Token(start: nat, end: nat, before: Mode, after: Mode)

  /** `text[k]` exists and is `c`. */
  predicate At(text: string, k: nat, c: char) {
    k < |text| && text[k] == c
  }

  predicate IsIdentStart(c: char, letter: char -> bool) {
    c == '_' || 'a' <= c <= 'z' || 'A' <= c <= 'Z' || (c >= 128 as char && letter(c))
  }

  predicate StartsCharLiteral(text: string, i: nat) {
    At(text, i + 2, '\'') || (At(text, i + 1, '\\') && At(text, i + 3, '\''))
  }

  /** How many `#` follow one another from `j`. */
  function Hashes(text: string, j: nat): nat
    decreases |text| - j
  {
    if At(text, j, '#') then 1 + Hashes(text, j + 1) else 0
  }

  lemma {:induction false} HashesEnd(text: string, j: nat)
    ensures j <= |text| ==> j + Hashes(text, j) <= |text|
    decreases |text| - j
  {
    if At(text, j, '#') { HashesEnd(text, j + 1); }
  }

  function Advance(text: string, i: nat, mode: Mode, letter: char -> bool): (s: Step)
    requires i < |text|
    ensures i < s.next <= |text|
  {
    var c := text[i];
    match mode
    case Line => Step(i + 1, if c == '\n' then Code else Line)
    case Block(d) =>
      if c == '/' && At(text, i + 1, '*') then Step(i + 2, Block(d + 1))
      else if c == '*' && At(text, i + 1, '/') then Step(i + 2, if d <= 1 then Code else Block(d - 1))
      else Step(i + 1, mode)
    case Str =>
      if c == '\\' && i + 1 < |text| then Step(i + 2, Str)
      else Step(i + 1, if c == '"' then Code else Str)
    case Char =>
      if c == '\\' && i + 1 < |text| then Step(i + 2, Char)
      else Step(i + 1, if c == '\'' then Code else Char)
    case Raw(h) =>
      HashesEnd(text, i + 1);
      if c == '"' && Hashes(text, i + 1) == h then Step(i + 1 + h, Code) else Step(i + 1, mode)
    case Code =>
      HashesEnd(text, i + 1);
      if c == '/' && At(text, i + 1, '/') then Step(i + 2, Line)
      else if c == '/' && At(text, i + 1, '*') then Step(i + 2, Block(1))
      else if c == 'r' && At(text, i + 1 + Hashes(text, i + 1), '"') then
        Step(i + 2 + Hashes(text, i + 1), Raw(Hashes(text, i + 1)))
      else if c == '"' then Step(i + 1, Str)
      else if c == '\'' && (StartsCharLiteral(text, i) || !(i + 1 < |text| && IsIdentStart(text[i + 1], letter)))
      then Step(i + 1, Char)
      else Step(i + 1, Code)
  }

  function Tokens(text: string, i: nat, mode: Mode, letter: char -> bool): seq<Token>
    decreases |text| - i
  {
    if i >= |text| then []
    else
      var s := Advance(text, i, mode, letter);
      [Token(i, s.next, mode, s.mode)] + Tokens(text, s.next, s.mode, letter)
  }

  /** Tokens tile the text: each starts where, and in the mode in which, the one before it ended. */
  lemma {:induction false} TokensTile(text: string, i: nat, mode: Mode, letter: char -> bool, k: nat)
    requires k < |Tokens(text, i, mode, letter)|
    ensures var toks := Tokens(text, i, mode, letter);
            && i <= toks[k].start < toks[k].end <= |text|
            && Advance(text, toks[k].start, toks[k].before, letter) == Step(toks[k].end, toks[k].after)
            && (if k == 0 then toks[k].start == i && toks[k].before == mode
                else toks[k].start == toks[k - 1].end && toks[k].before == toks[k - 1].after && toks[k].start > i)
            && (k == |toks| - 1 ==> toks[k].end == |text|)
    decreases k
  {
    var s := Advance(text, i, mode, letter);
    var rest := Tokens(text, s.next, s.mode, letter);
    if k > 0 {
      TokensTile(text, s.next, s.mode, letter, k - 1);
    } else if rest == [] {
      assert s.next == |text|;
    }
  }

  // ---------- matching braces ----------

  predicate Opens(text: string, t: Token) { t.before == Code && At(text, t.start, '{') }

  predicate Closes(text: string, t: Token) { t.before == Code && At(text, t.start, '}') }

  /** Braces opened less braces closed, counting only those in code. */
  function Depth(text: string, toks: seq<Token>): int {
    if toks == [] then 0
    else
      var k := |toks| - 1;
      Depth(text, toks[..k]) + if Opens(text, toks[k]) then 1 else if Closes(text, toks[k]) then -1 else 0
  }

  /** Token `k` is a closing brace in code at which the depth returns to zero. */
  predicate Balances(text: string, toks: seq<Token>, k: nat) {
    k < |toks| && Closes(text, toks[k]) && Depth(text, toks[..k + 1]) == 0
  }

  /** The flags each scanner keeps. */
  datatype Flags = Flags(inLine: bool, blockDepth: nat, inStr: bool, inChar: bool, inRaw: bool, rawHashes: nat) {
    /** The flags read as a mode, in the order the source tests them. */
    function Mode(): Mode {
      if inLine then Line
      else if blockDepth > 0 then Block(blockDepth)
      else if inStr then Str
      else if inChar then Char
      else if inRaw then Raw(rawHashes)
      else Code
    }

    /** At most one flag is up. */
    predicate Valid() {
      && (inLine ==> blockDepth == 0 && !inStr && !inChar && !inRaw)
      && (blockDepth > 0 ==> !inStr && !inChar && !inRaw)
      && (inStr ==> !inChar && !inRaw)
      && (inChar ==> !inRaw)
    }
  }

  const NO_FLAGS := Flags(false, 0, false, false, false, 0)

  method CountHashes(text: string, start: nat) returns (count: nat, j: nat)
    ensures count == Hashes(text, start) && j == start + count
  {
    j, count := start, 0;
    while j < |text| && text[j] == '#'
      invariant j == start + count
      invariant count + Hashes(text, j) == Hashes(text, start)
      decreases |text| - j
    {
      count := count + 1;
      j := j + 1;
    }
  }

  lemma DepthSnoc(text: string, toks: seq<Token>, t: Token)
    ensures Depth(text, toks + [t]) ==
            Depth(text, toks) + if Opens(text, t) then 1 else if Closes(text, t) then -1 else 0
  {
    assert (toks + [t])[..|toks|] == toks;
  }

  /** Position and mode after `s`, where a scan past the end of the text counts as at its end. */
  predicate Follows(text: string, i: nat, flags: Flags, s: Step) {
    flags.Mode() == s.mode && (i == s.next || i > |text| == s.next)
  }

  /** One turn of the brace matcher's loop: it follows the lexer, and counts braces met in code. */
  method MatchStep(text: string, start: nat, before: Flags, letter: char -> bool)
    returns (i: nat, flags: Flags, delta: int)
    requires start < |text| && before.Valid()
    ensures flags.Valid() && start < i
    ensures Follows(text, i, flags, Advance(text, start, before.Mode(), letter))
    ensures delta == if before.Mode() != Code then 0
                     else if text[start] == '{' then 1
                     else if text[start] == '}' then -1 else 0
  {
    i, flags, delta := start, before, 0;
    var c := text[i];
    if flags.inLine {
      if c == '\n' { flags := flags.(inLine := false); }
      i := i + 1;
      return;
    }
    if flags.blockDepth > 0 {
      if c == '/' && At(text, i + 1, '*') {
        flags := flags.(blockDepth := flags.blockDepth + 1);
        i := i + 2;
        return;
      }
      if c == '*' && At(text, i + 1, '/') {
        flags := flags.(blockDepth := flags.blockDepth - 1);
        i := i + 2;
        return;
      }
      i := i + 1;
      return;
    }
    if flags.inStr {
      if c == '\\' {
        i := i + 2;
        return;
      }
      if c == '"' { flags := flags.(inStr := false); }
      i := i + 1;
      return;
    }
    if flags.inChar {
      if c == '\\' {
        i := i + 2;
        return;
      }
      if c == '\'' { flags := flags.(inChar := false); }
      i := i + 1;
      return;
    }
    if flags.inRaw {
      if c == '"' {
        var count, j := CountHashes(text, i + 1);
        if count == flags.rawHashes {
          flags := flags.(inRaw := false, rawHashes := 0);
          i := j;
          return;
        }
      }
      i := i + 1;
      return;
    }
    if c == '/' && At(text, i + 1, '/') {
      flags := flags.(inLine := true);
      i := i + 2;
      return;
    }
    if c == '/' && At(text, i + 1, '*') {
      flags := flags.(blockDepth := 1);
      i := i + 2;
      return;
    }
    if c == 'r' {
      var hashes, j := CountHashes(text, i + 1);
      if j < |text| && text[j] == '"' {
        flags := flags.(inRaw := true, rawHashes := hashes);
        i := j + 1;
        return;
      }
    }
    if c == '"' {
      flags := flags.(inStr := true);
      i := i + 1;
      return;
    }
    if c == '\'' {
      if StartsCharLiteral(text, i) {
        flags := flags.(inChar := true);
        i := i + 1;
        return;
      }
      if i + 1 < |text| && IsIdentStart(text[i + 1], letter) {
        i := i + 1;
        return;
      }
      flags := flags.(inChar := true);
      i := i + 1;
      return;
    }
    if c == '{' {
      delta := 1;
    } else if c == '}' {
      delta := -1;
    }
    i := i + 1;
  }

  /** Token `at` is the first to bring the depth back to zero. */
  ghost predicate Matches(text: string, toks: seq<Token>, at: nat) {
    Balances(text, toks, at) && forall k :: 0 <= k < at ==> !Balances(text, toks, k)
  }

  /** The brace at which a depth of `d` returns to zero, from `i` on; -1 when there is none. */
  function CloseFrom(text: string, i: nat, mode: Mode, d: int, letter: char -> bool): int
    decreases |text| - i
  {
    if i >= |text| then -1
    else
      var s := Advance(text, i, mode, letter);
      var d' := d + if mode != Code then 0 else if text[i] == '{' then 1 else if text[i] == '}' then -1 else 0;
      if d' == d - 1 && d' == 0 then i else CloseFrom(text, s.next, s.mode, d', letter)
  }

  /** The first closing brace in code that brings the depth back to zero; -1 exactly when there is none. */
  method FindMatchingBrace(text: string, openIdx: nat, letter: char -> bool) returns (r: int)
    ensures var toks := Tokens(text, openIdx, Code, letter);
            if r == -1 then forall k :: 0 <= k < |toks| ==> !Balances(text, toks, k)
            else exists at: nat :: Matches(text, toks, at) && r == toks[at].start
    ensures r == CloseFrom(text, openIdx, Code, 0, letter)
  {
    var i, flags, depth := openIdx, NO_FLAGS, 0;
    ghost var toks := Tokens(text, openIdx, Code, letter);
    ghost var seen: seq<Token> := [];
    while i < |text|
      invariant flags.Valid()
      invariant toks == seen + Tokens(text, i, flags.Mode(), letter)
      invariant depth == Depth(text, seen)
      invariant forall k :: 0 <= k < |seen| ==> !Balances(text, toks, k)
      invariant CloseFrom(text, i, flags.Mode(), depth, letter) == CloseFrom(text, openIdx, Code, 0, letter)
      decreases |text| - i
    {
      ghost var s := Advance(text, i, flags.Mode(), letter);
      ghost var t := Token(i, s.next, flags.Mode(), s.mode);
      assert toks == seen + [t] + Tokens(text, s.next, s.mode, letter);
      assert toks[..|seen| + 1] == seen + [t];
      DepthSnoc(text, seen, t);
      var delta;
      var here := i;
      i, flags, delta := MatchStep(text, i, flags, letter);
      depth := depth + delta;
      if delta == -1 && depth == 0 {
        assert Matches(text, toks, |seen|);
        return here;
      }
      seen := seen + [t];
    }
    return -1;
  }

  // ---------- removing comments ----------

  predicate IsComment(t: Token) {
    t.before.Line? || t.before.Block? || (t.before.Code? && (t.after.Line? || t.after.Block?))
  }

  /** What a token leaves behind: itself, unless it is comment; of comments only the newline ending a line comment. */
  function Emit(text: string, t: Token): string
    requires t.start < t.end <= |text|
  {
    if !IsComment(t) then text[t.start..t.end]
    else if t.before.Line? && text[t.start] == '\n' then "\n"
    else ""
  }

  /** The text from `i` without its comments. */
  function Stripped(text: string, i: nat, mode: Mode, letter: char -> bool): string
    decreases |text| - i
  {
    if i >= |text| then ""
    else
      var s := Advance(text, i, mode, letter);
      Emit(text, Token(i, s.next, mode, s.mode)) + Stripped(text, s.next, s.mode, letter)
  }

  function Repeat(c: char, n: nat): (r: string)
    ensures |r| == n && forall k :: 0 <= k < n ==> r[k] == c
  {
    seq(n, _ => c)
  }

  lemma {:induction false} HashesAre(text: string, j: nat)
    requires j <= |text|
    ensures j + Hashes(text, j) <= |text|
    ensures forall k :: j <= k < j + Hashes(text, j) ==> text[k] == '#'
    decreases |text| - j
  {
    if At(text, j, '#') { HashesAre(text, j + 1); }
  }

  lemma HashRun(text: string, j: nat)
    requires j <= |text|
    ensures j + Hashes(text, j) <= |text|
    ensures text[j..j + Hashes(text, j)] == Repeat('#', Hashes(text, j))
  {
    HashesAre(text, j);
    var n := Hashes(text, j);
    var run := text[j..j + n];
    forall k | 0 <= k < n ensures run[k] == '#' {
      assert run[k] == text[j + k];
    }
  }

  /** Slices of one and two characters. */
  lemma ShortSlices(text: string, i: nat)
    requires i < |text|
    ensures text[i..i + 1] == [text[i]]
    ensures i + 1 < |text| ==> text[i..i + 2] == [text[i], text[i + 1]]
  {
  }

  /** The comment remover inside a comment. */
  method StripComment(text: string, start: nat, before: Flags, letter: char -> bool)
    returns (i: nat, flags: Flags, out: string)
    requires start < |text| && before.Valid() && (before.Mode().Line? || before.Mode().Block?)
    ensures flags.Valid() && start < i
    ensures Follows(text, i, flags, Advance(text, start, before.Mode(), letter))
    ensures var s := Advance(text, start, before.Mode(), letter);
            out == Emit(text, Token(start, s.next, before.Mode(), s.mode))
  {
    i, flags, out := start, before, [];
    var c := text[i];
    if flags.inLine {
      if c == '\n' {
        flags := flags.(inLine := false);
        out := out + [c];
      }
      i := i + 1;
      return;
    }
    if flags.blockDepth > 0 {
      if c == '/' && At(text, i + 1, '*') {
        flags := flags.(blockDepth := flags.blockDepth + 1);
        i := i + 2;
        return;
      }
      if c == '*' && At(text, i + 1, '/') {
        flags := flags.(blockDepth := flags.blockDepth - 1);
        i := i + 2;
        return;
      }
      i := i + 1;
      return;
    }
  }

  /** The comment remover inside a string or character literal. */
  method StripQuoted(text: string, start: nat, before: Flags, letter: char -> bool)
    returns (i: nat, flags: Flags, out: string)
    requires start < |text| && before.Valid() && (before.Mode().Str? || before.Mode().Char?)
    ensures flags.Valid() && start < i
    ensures Follows(text, i, flags, Advance(text, start, before.Mode(), letter))
    ensures var s := Advance(text, start, before.Mode(), letter);
            out == Emit(text, Token(start, s.next, before.Mode(), s.mode))
  {
    ShortSlices(text, start);
    i, flags, out := start, before, [];
    var c := text[i];
    if flags.inStr {
      out := out + [c];
      if c == '\\' && i + 1 < |text| {
        out := out + [text[i + 1]];
        i := i + 2;
        return;
      }
      if c == '"' { flags := flags.(inStr := false); }
      i := i + 1;
      return;
    }
    if flags.inChar {
      out := out + [c];
      if c == '\\' && i + 1 < |text| {
        out := out + [text[i + 1]];
        i := i + 2;
        return;
      }
      if c == '\'' { flags := flags.(inChar := false); }
      i := i + 1;
      return;
    }
  }

  /** The comment remover inside a raw string. */
  method StripRaw(text: string, start: nat, before: Flags, letter: char -> bool)
    returns (i: nat, flags: Flags, out: string)
    requires start < |text| && before.Valid() && before.Mode().Raw?
    ensures flags.Valid() && start < i
    ensures Follows(text, i, flags, Advance(text, start, before.Mode(), letter))
    ensures var s := Advance(text, start, before.Mode(), letter);
            out == Emit(text, Token(start, s.next, before.Mode(), s.mode))
  {
    ShortSlices(text, start);
    i, flags, out := start, before, [text[start]];
    if text[i] == '"' {
      var count, j := CountHashes(text, i + 1);
      if count == flags.rawHashes {
        HashRun(text, i + 1);
        assert text[i..j] == [text[i]] + text[i + 1..j];
        out := out + Repeat('#', count);
        i := j;
        flags := flags.(inRaw := false, rawHashes := 0);
        return;
      }
    }
    i := i + 1;
  }

  /** The opening of a raw string, rebuilt from its parts, is the text itself. */
  method RawOpening(text: string, i: nat, hashes: nat) returns (out: string)
    requires At(text, i, 'r') && hashes == Hashes(text, i + 1) && At(text, i + 1 + hashes, '"')
    ensures out == text[i..i + 2 + hashes]
  {
    HashRun(text, i + 1);
    out := "r";
    if hashes > 0 { out := out + Repeat('#', hashes); }
    out := out + "\"";
    var j := i + 1 + hashes;
    assert text[i..j + 1] == [text[i]] + text[i + 1..j] + [text[j]];
  }

  /** The comment remover in code. */
  method StripCode(text: string, start: nat, before: Flags, letter: char -> bool)
    returns (i: nat, flags: Flags, out: string)
    requires start < |text| && before.Valid() && before.Mode().Code?
    ensures flags.Valid() && start < i
    ensures Follows(text, i, flags, Advance(text, start, before.Mode(), letter))
    ensures var s := Advance(text, start, before.Mode(), letter);
            out == Emit(text, Token(start, s.next, before.Mode(), s.mode))
  {
    ShortSlices(text, start);
    i, flags, out := start, before, [];
    var c := text[i];
    if c == '/' && At(text, i + 1, '/') {
      flags := flags.(inLine := true);
      i := i + 2;
      return;
    }
    if c == '/' && At(text, i + 1, '*') {
      flags := flags.(blockDepth := 1);
      i := i + 2;
      return;
    }
    if c == 'r' {
      var hashes, j := CountHashes(text, i + 1);
      if j < |text| && text[j] == '"' {
        out := RawOpening(text, i, hashes);
        i := j + 1;
        flags := flags.(inRaw := true, rawHashes := hashes);
        return;
      }
    }
    if c == '"' {
      flags := flags.(inStr := true);
      out := out + [c];
      i := i + 1;
      return;
    }
    if c == '\'' {
      if StartsCharLiteral(text, i) {
        flags := flags.(inChar := true);
        out := out + [c];
        i := i + 1;
        return;
      }
      if i + 1 < |text| && IsIdentStart(text[i + 1], letter) {
        out := out + [c];
        i := i + 1;
        return;
      }
      flags := flags.(inChar := true);
      out := out + [c];
      i := i + 1;
      return;
    }
    out := out + [c];
    i := i + 1;
  }

  /** One turn of the comment remover's loop: it follows the lexer, and appends what the token leaves behind. */
  method StripStep(text: string, start: nat, before: Flags, letter: char -> bool)
    returns (i: nat, flags: Flags, out: string)
    requires start < |text| && before.Valid()
    ensures flags.Valid() && start < i
    ensures Follows(text, i, flags, Advance(text, start, before.Mode(), letter))
    ensures var s := Advance(text, start, before.Mode(), letter);
            out == Emit(text, Token(start, s.next, before.Mode(), s.mode))
  {
    if before.inLine || before.blockDepth > 0 {
      i, flags, out := StripComment(text, start, before, letter);
    } else if before.inStr || before.inChar {
      i, flags, out := StripQuoted(text, start, before, letter);
    } else if before.inRaw {
      i, flags, out := StripRaw(text, start, before, letter);
    } else {
      i, flags, out := StripCode(text, start, before, letter);
    }
  }

  method RemoveComments(text: string, letter: char -> bool) returns (out: string)
    ensures out == Stripped(text, 0, Code, letter)
  {
    out := [];
    var i, flags := 0, NO_FLAGS;
    while i < |text|
      invariant flags.Valid()
      invariant out + Stripped(text, i, flags.Mode(), letter) == Stripped(text, 0, Code, letter)
      decreases |text| - i
    {
      var more;
      ghost var s := Advance(text, i, flags.Mode(), letter);
      ghost var left := Emit(text, Token(i, s.next, flags.Mode(), s.mode));
      assert out + (left + Stripped(text, s.next, s.mode, letter)) == out + left + Stripped(text, s.next, s.mode, letter);
      i, flags, more := StripStep(text, i, flags, letter);
      out := out + more;
    }
  }
}
