/**
 What the scanners make of Rust text, said of the lexemes it is written from: plain code, comments, strings,
 characters, lifetimes and raw strings.  Nothing here refers to how the scanners read.
 */
module RustProgram {
  import opened Wrappers
  import opened RustScanner
  import opened ScannerAgreement

  /** A character written as itself or escaped. */
  datatype Piece = Lit(c: char) | Esc(c: char)

  /** What is inside a block comment: characters and further block comments. */
  datatype Comment = End | Ch(c: char, rest: Comment) | Sub(inner: Comment, rest: Comment)

  /** A lifetime is its quote and its first letter; its other letters are plain code. */
  datatype Lexeme =
    | Plain(c: char)
    | LineComment(body: string)
    | LastComment(body: string)
    | BlockComment(block: Comment)
    | Quoted(pieces: seq<Piece>)
    | Character(pieces: seq<Piece>)
    | Lifetime(first: char)
    | RawQuoted(hashes: nat, body: string)

  // ---------- how lexemes are written ----------

  function PieceText(p: Piece): string { if p.Lit? then [p.c] else ['\\', p.c] }

  function PiecesText(ps: seq<Piece>): string {
    if ps == [] then "" else PieceText(ps[0]) + PiecesText(ps[1..])
  }

  function BlockText(b: Comment): string {
    match b
    case End => ""
    case Ch(c, rest) => [c] + BlockText(rest)
    case Sub(inner, rest) => "/*" + BlockText(inner) + "*/" + BlockText(rest)
  }

  function Pounds(n: nat): (s: string)
    ensures |s| == n && forall k :: 0 <= k < n ==> s[k] == '#'
  {
    if n == 0 then "" else "#" + Pounds(n - 1)
  }

  function Text(l: Lexeme): string {
    match l
    case Plain(c) => [c]
    case LineComment(body) => "//" + body + "\n"
    case LastComment(body) => "//" + body
    case BlockComment(b) => "/*" + BlockText(b) + "*/"
    case Quoted(ps) => "\"" + PiecesText(ps) + "\""
    case Character(ps) => "'" + PiecesText(ps) + "'"
    case Lifetime(first) => ['\'', first]
    case RawQuoted(n, body) => "r" + Pounds(n) + "\"" + body + "\"" + Pounds(n)
  }

  function ProgramText(ls: seq<Lexeme>): string {
    if ls == [] then "" else Text(ls[0]) + ProgramText(ls[1..])
  }

  /** What is left of a lexeme when comments are removed. */
  function Kept(l: Lexeme): string {
    match l
    case LineComment(_) => "\n"
    case LastComment(_) => ""
    case BlockComment(_) => ""
    case _ => Text(l)
  }

  function KeptText(ls: seq<Lexeme>): string {
    if ls == [] then "" else Kept(ls[0]) + KeptText(ls[1..])
  }

  // ---------- when they are lexemes of Rust ----------

  predicate Begins(s: string, c: char) { s != "" && s[0] == c }

  /** `s` starts with any number of `#` and a double quote. */
  predicate BeginsRaw(s: string) {
    s != "" && (s[0] == '"' || (s[0] == '#' && BeginsRaw(s[1..])))
  }

  predicate PiecesOk(ps: seq<Piece>, quote: char) {
    forall i :: 0 <= i < |ps| && ps[i].Lit? ==> ps[i].c != quote && ps[i].c != '\\'
  }

  /** No character of the comment opens or closes one together with what follows it. */
  predicate BlockOk(b: Comment) {
    match b
    case End => true
    case Ch(c, rest) =>
      var next := BlockText(rest) + "*/";
      (c == '/' ==> !Begins(next, '*')) && (c == '*' ==> !Begins(next, '/')) && BlockOk(rest)
    case Sub(inner, rest) => BlockOk(inner) && BlockOk(rest)
  }

  /** Fewer than `n` hashes follow position `k`, in this text alone. */
  predicate FewPounds(body: string, k: nat, n: nat)
    decreases n
  {
    n > 0 && (!At(body, k, '#') || FewPounds(body, k + 1, n - 1))
  }

  /** A quote at `k` does not end a raw string with `n` hashes. */
  predicate QuoteIsOpen(body: string, k: nat, n: nat)
    requires k < |body|
  {
    body[k] == '"' ==> FewPounds(body, k + 1, n)
  }

  /** The lexeme reads as itself when `next` follows it. */
  predicate LexemeOk(l: Lexeme, next: string, letter: char -> bool) {
    match l
    case Plain(c) =>
      && c != '"' && c != '\''
      && (c == '/' ==> !Begins(next, '/') && !Begins(next, '*'))
      && (c == 'r' ==> !BeginsRaw(next))
    case LineComment(body) => '\n' !in body
    case LastComment(body) => '\n' !in body && next == ""
    case BlockComment(b) => BlockOk(b)
    case Quoted(ps) => PiecesOk(ps, '"')
    case Character(ps) => ps != [] && PiecesOk(ps, '\'') && (|ps| == 1 || ps[0].Esc?)
    case Lifetime(first) => IsIdentStart(first, letter) && !Begins(next, '\'') && (first == 'r' ==> !BeginsRaw(next))
    case RawQuoted(n, body) =>
      (forall k :: 0 <= k < |body| ==> QuoteIsOpen(body, k, n)) && !Begins(next, '#')
  }

  predicate ProgramOk(ls: seq<Lexeme>, letter: char -> bool) {
    ls == [] || (LexemeOk(ls[0], ProgramText(ls[1..]), letter) && ProgramOk(ls[1..], letter))
  }

  // ---------- stretches of scanning ----------

  type Relation = (nat, Mode, nat, Mode, string) -> bool

  /** `n` steps lead from `i` in mode `m` to `j` in mode `m'` and leave `out`. */
  ghost predicate Chain(step: Relation, n: nat, i: nat, m: Mode, j: nat, m': Mode, out: string)
    decreases n
  {
    if n == 0 then i == j && m == m' && out == ""
    else exists k, mid, e, rest :: step(i, m, k, mid, e) && Chain(step, n - 1, k, mid, j, m', rest) && out == e + rest
  }

  lemma ChainCons(step: Relation, n: nat, i: nat, m: Mode, h: nat, mid: Mode, e: string, j: nat, m': Mode, rest: string, out: string)
    requires step(i, m, h, mid, e) && Chain(step, n, h, mid, j, m', rest) && out == e + rest
    ensures Chain(step, n + 1, i, m, j, m', out)
  {
  }

  lemma {:induction false} ChainOn(step: Relation, a: nat, i: nat, m: Mode, j: nat, m': Mode, out: string,
                                   b: nat, k: nat, m'': Mode, more: string)
    requires Chain(step, a, i, m, j, m', out) && Chain(step, b, j, m', k, m'', more)
    ensures Chain(step, a + b, i, m, k, m'', out + more)
    decreases a
  {
    if a == 0 {
      assert out + more == more;
    } else {
      var h, mid, e, rest :| step(i, m, h, mid, e) && Chain(step, a - 1, h, mid, j, m', rest) && out == e + rest;
      ChainOn(step, a - 1, h, mid, j, m', rest, b, k, m'', more);
      assert out + more == e + (rest + more);
      ChainCons(step, a - 1 + b, i, m, h, mid, e, k, m'', rest + more, out + more);
    }
  }

  /** Every step leaves its output and whatever `strip` finds after it, and changes nothing of what `close` finds. */
  ghost predicate Respects(step: Relation, strip: (nat, Mode) -> string, close: (nat, Mode) -> int) {
    forall i, m, j, m', out :: step(i, m, j, m', out) ==> strip(i, m) == out + strip(j, m') && close(i, m) == close(j, m')
  }

  lemma {:induction false} ChainRespects(step: Relation, strip: (nat, Mode) -> string, close: (nat, Mode) -> int,
                                         n: nat, i: nat, m: Mode, j: nat, m': Mode, out: string)
    requires Respects(step, strip, close) && Chain(step, n, i, m, j, m', out)
    ensures strip(i, m) == out + strip(j, m') && close(i, m) == close(j, m')
    decreases n
  {
    if n > 0 {
      var h, mid, e, rest :| step(i, m, h, mid, e) && Chain(step, n - 1, h, mid, j, m', rest) && out == e + rest;
      ChainRespects(step, strip, close, n - 1, h, mid, j, m', rest);
      Reassociate(strip(i, m), e, strip(h, mid), rest, strip(j, m'));
    }
  }

  /** One step of the scanners, which meets no brace in code. */
  predicate Moves(text: string, letter: char -> bool, i: nat, m: Mode, j: nat, m': Mode, out: string) {
    && i < |text| && (m == Code ==> text[i] != '{' && text[i] != '}')
    && Advance(text, i, m, letter) == Step(j, m') && out == Emit(text, Token(i, j, m, m'))
  }

  function Mover(text: string, letter: char -> bool): Relation {
    (i: nat, m: Mode, j: nat, m': Mode, out: string) => Moves(text, letter, i, m, j, m', out)
  }

  /** From `i` in mode `m` the scan arrives at `j` in mode `m'`, leaving `out`, and meets no brace in code. */
  ghost predicate Stretch(text: string, letter: char -> bool, i: nat, m: Mode, j: nat, m': Mode, out: string) {
    exists n: nat :: Chain(Mover(text, letter), n, i, m, j, m', out)
  }

  lemma Stay(text: string, letter: char -> bool, i: nat, m: Mode)
    ensures Stretch(text, letter, i, m, i, m, "")
  {
    assert Chain(Mover(text, letter), 0, i, m, i, m, "");
  }

  lemma Go(text: string, letter: char -> bool, i: nat, m: Mode, s: Step, out: string)
    requires Moves(text, letter, i, m, s.next, s.mode, out)
    ensures Stretch(text, letter, i, m, s.next, s.mode, out)
  {
    var step := Mover(text, letter);
    OneStep(step, i, m, s.next, s.mode, out);
  }

  lemma OneStep(step: Relation, i: nat, m: Mode, j: nat, m': Mode, out: string)
    requires step(i, m, j, m', out)
    ensures Chain(step, 1, i, m, j, m', out)
  {
    assert Chain(step, 0, j, m', j, m', "") && out == out + "";
  }

  lemma Join(text: string, letter: char -> bool, i: nat, m: Mode, j: nat, m': Mode, k: nat, m'': Mode, out: string, more: string)
    requires Stretch(text, letter, i, m, j, m', out) && Stretch(text, letter, j, m', k, m'', more)
    ensures Stretch(text, letter, i, m, k, m'', out + more)
  {
    var a: nat :| Chain(Mover(text, letter), a, i, m, j, m', out);
    var b: nat :| Chain(Mover(text, letter), b, j, m', k, m'', more);
    ChainOn(Mover(text, letter), a, i, m, j, m', out, b, k, m'', more);
  }

  lemma MoveScans(text: string, letter: char -> bool, i: nat, m: Mode, j: nat, m': Mode, out: string, d: int)
    requires Moves(text, letter, i, m, j, m', out)
    ensures Stripped(text, i, m, letter) == out + Stripped(text, j, m', letter)
    ensures CloseFrom(text, i, m, d, letter) == CloseFrom(text, j, m', d, letter)
  {
  }

  lemma Reassociate(x: string, e: string, y: string, rest: string, z: string)
    requires x == e + y && y == rest + z
    ensures x == e + rest + z
  {
  }

  lemma MoverRespects(text: string, letter: char -> bool, d: int)
    ensures Respects(Mover(text, letter), (i: nat, m: Mode) => Stripped(text, i, m, letter), (i: nat, m: Mode) => CloseFrom(text, i, m, d, letter))
  {
    var step := Mover(text, letter);
    forall i, m, j, m', out | step(i, m, j, m', out)
      ensures Stripped(text, i, m, letter) == out + Stripped(text, j, m', letter)
      ensures CloseFrom(text, i, m, d, letter) == CloseFrom(text, j, m', d, letter)
    {
      MoveScans(text, letter, i, m, j, m', out, d);
    }
  }

  /** What a stretch does to the two scanners. */
  lemma StretchScans(text: string, letter: char -> bool, i: nat, m: Mode, j: nat, m': Mode, out: string, d: int)
    requires Stretch(text, letter, i, m, j, m', out)
    ensures Stripped(text, i, m, letter) == out + Stripped(text, j, m', letter)
    ensures CloseFrom(text, i, m, d, letter) == CloseFrom(text, j, m', d, letter)
  {
    var n: nat :| Chain(Mover(text, letter), n, i, m, j, m', out);
    MoverRespects(text, letter, d);
    ChainRespects(Mover(text, letter), (i: nat, m: Mode) => Stripped(text, i, m, letter), (i: nat, m: Mode) => CloseFrom(text, i, m, d, letter),
                  n, i, m, j, m', out);
  }

  /** `s` is what the text reads from `i` on. */
  predicate Reads(text: string, i: nat, s: string) { i + |s| <= |text| && text[i..i + |s|] == s }

  lemma ReadsParts(text: string, i: nat, a: string, b: string)
    requires Reads(text, i, a + b)
    ensures Reads(text, i, a) && Reads(text, i + |a|, b)
  {
    var s := text[i..i + |a + b|];
    assert s[..|a|] == a && s[|a|..] == b;
    assert text[i..i + |a|] == s[..|a|] && text[i + |a|..i + |a| + |b|] == s[|a|..];
  }

  lemma ReadsAt(text: string, i: nat, s: string, k: nat)
    requires Reads(text, i, s) && k < |s|
    ensures text[i + k] == s[k]
  {
    assert text[i..i + |s|][k] == text[i + k];
  }

  lemma ReadsCons(text: string, i: nat, s: string)
    requires Reads(text, i, s) && s != ""
    ensures i < |text| && text[i] == s[0] && Reads(text, i + 1, s[1..])
  {
    assert s == s[..1] + s[1..];
    ReadsParts(text, i, s[..1], s[1..]);
    ReadsAt(text, i, s, 0);
  }

  lemma ReadsTwo(text: string, i: nat, s: string)
    requires Reads(text, i, s) && |s| == 2
    ensures At(text, i, s[0]) && At(text, i + 1, s[1])
  {
    ReadsAt(text, i, s, 0);
    ReadsAt(text, i, s, 1);
  }

  lemma Fenced(text: string, i: nat, mid: string, a: char, b: char, c: char, d: char)
    requires Reads(text, i, [a, b] + mid + [c, d])
    ensures At(text, i, a) && At(text, i + 1, b) && Reads(text, i + 2, mid + [c, d])
    ensures At(text, i + 2 + |mid|, c) && At(text, i + 3 + |mid|, d)
  {
    assert [a, b] + mid + [c, d] == [a, b] + (mid + [c, d]);
    ReadsParts(text, i, [a, b], mid + [c, d]);
    ReadsParts(text, i + 2, mid, [c, d]);
    ReadsTwo(text, i, [a, b]);
    ReadsTwo(text, i + 2 + |mid|, [c, d]);
  }

  lemma ReadsLast(text: string, i: nat, a: string, c: char)
    requires Reads(text, i, a + [c])
    ensures Reads(text, i, a) && At(text, i + |a|, c)
  {
    ReadsParts(text, i, a, [c]);
    ReadsAt(text, i + |a|, [c], 0);
  }

  // ---------- comments ----------

  lemma LineChar(text: string, letter: char -> bool, i: nat)
    requires i < |text| && text[i] != '\n'
    ensures Stretch(text, letter, i, Line, i + 1, Line, "")
  {
    Go(text, letter, i, Line, Step(i + 1, Line), "");
  }

  lemma {:induction false} InLine(text: string, letter: char -> bool, i: nat, j: nat)
    requires i <= j <= |text| && forall k :: i <= k < j ==> text[k] != '\n'
    ensures Stretch(text, letter, i, Line, j, Line, "")
    decreases j - i
  {
    if i == j {
      Stay(text, letter, i, Line);
    } else {
      LineChar(text, letter, i);
      InLine(text, letter, i + 1, j);
      Join(text, letter, i, Line, i + 1, Line, j, Line, "", "");
    }
  }

  lemma LineOpens(text: string, letter: char -> bool, i: nat)
    requires At(text, i, '/') && At(text, i + 1, '/')
    ensures Stretch(text, letter, i, Code, i + 2, Line, "")
  {
    Go(text, letter, i, Code, Step(i + 2, Line), "");
  }

  lemma LineEnds(text: string, letter: char -> bool, i: nat)
    requires At(text, i, '\n')
    ensures Stretch(text, letter, i, Line, i + 1, Code, "\n")
  {
    Go(text, letter, i, Line, Step(i + 1, Code), "\n");
  }

  /** A line comment up to its end at `j`. */
  lemma LineUpTo(text: string, letter: char -> bool, i: nat, j: nat)
    requires At(text, i, '/') && At(text, i + 1, '/') && i + 2 <= j <= |text| && forall k :: i + 2 <= k < j ==> text[k] != '\n'
    ensures Stretch(text, letter, i, Code, j, Line, "")
  {
    LineOpens(text, letter, i);
    InLine(text, letter, i + 2, j);
    Join(text, letter, i, Code, i + 2, Line, j, Line, "", "");
  }

  // ---------- block comments ----------

  /** The mode with `d` block comments open. */
  function Inside(d: nat): Mode { if d == 0 then Code else Mode.Block(d) }

  lemma BlockOpens(text: string, letter: char -> bool, i: nat, d: nat)
    requires At(text, i, '/') && At(text, i + 1, '*')
    ensures Stretch(text, letter, i, Inside(d), i + 2, Mode.Block(d + 1), "")
  {
    Go(text, letter, i, Inside(d), Step(i + 2, Mode.Block(d + 1)), "");
  }

  lemma BlockCloses(text: string, letter: char -> bool, i: nat, d: nat)
    requires At(text, i, '*') && At(text, i + 1, '/')
    ensures Stretch(text, letter, i, Mode.Block(d + 1), i + 2, Inside(d), "")
  {
    Go(text, letter, i, Mode.Block(d + 1), Step(i + 2, Inside(d)), "");
  }

  lemma BlockChar(text: string, letter: char -> bool, i: nat, d: nat)
    requires i < |text| && (text[i] == '/' ==> !At(text, i + 1, '*')) && (text[i] == '*' ==> !At(text, i + 1, '/'))
    ensures Stretch(text, letter, i, Mode.Block(d + 1), i + 1, Mode.Block(d + 1), "")
  {
    Go(text, letter, i, Mode.Block(d + 1), Step(i + 1, Mode.Block(d + 1)), "");
  }

  lemma ReadsFirst(text: string, i: nat, s: string)
    requires Reads(text, i, s) && s != ""
    ensures forall c :: Begins(s, c) <==> At(text, i, c)
  {
    ReadsAt(text, i, s, 0);
  }

  lemma ChReads(text: string, i: nat, c: char, rest: Comment)
    requires BlockOk(Ch(c, rest)) && Reads(text, i, BlockText(Ch(c, rest)) + "*/")
    ensures Reads(text, i + 1, BlockText(rest) + "*/") && i < |text|
    ensures (text[i] == '/' ==> !At(text, i + 1, '*')) && (text[i] == '*' ==> !At(text, i + 1, '/'))
  {
    var next := BlockText(rest) + "*/";
    assert BlockText(Ch(c, rest)) + "*/" == [c] + next;
    ReadsParts(text, i, [c], next);
    ReadsAt(text, i, [c], 0);
    ReadsFirst(text, i + 1, next);
  }

  lemma SubReads(text: string, i: nat, inner: Comment, rest: Comment)
    requires Reads(text, i, BlockText(Sub(inner, rest)) + "*/")
    ensures Reads(text, i, "/*" + BlockText(inner) + "*/")
    ensures Reads(text, i + 4 + |BlockText(inner)|, BlockText(rest) + "*/")
  {
    var sub, more := "/*" + BlockText(inner) + "*/", BlockText(rest) + "*/";
    assert BlockText(Sub(inner, rest)) + "*/" == sub + more;
    ReadsParts(text, i, sub, more);
  }

  lemma {:induction false} InBlock(text: string, letter: char -> bool, i: nat, b: Comment, d: nat, j: nat)
    requires BlockOk(b) && Reads(text, i, BlockText(b) + "*/") && j == i + |BlockText(b)|
    ensures Stretch(text, letter, i, Mode.Block(d + 1), j, Mode.Block(d + 1), "")
    decreases b, 0
  {
    match b
    case End => Stay(text, letter, i, Mode.Block(d + 1));
    case Ch(c, rest) =>
      ChReads(text, i, c, rest);
      BlockChar(text, letter, i, d);
      InBlock(text, letter, i + 1, rest, d, j);
      JoinQuietly(text, letter, i, Mode.Block(d + 1), i + 1, Mode.Block(d + 1), j, Mode.Block(d + 1));
    case Sub(inner, rest) =>
      var k := i + 4 + |BlockText(inner)|;
      SubReads(text, i, inner, rest);
      NestedBlock(text, letter, i, inner, d + 1, k);
      InBlock(text, letter, k, rest, d, j);
      JoinQuietly(text, letter, i, Mode.Block(d + 1), k, Mode.Block(d + 1), j, Mode.Block(d + 1));
  }

  lemma JoinQuietly(text: string, letter: char -> bool, i: nat, m: Mode, j: nat, m': Mode, k: nat, m'': Mode)
    requires Stretch(text, letter, i, m, j, m', "") && Stretch(text, letter, j, m', k, m'', "")
    ensures Stretch(text, letter, i, m, k, m'', "")
  {
    Join(text, letter, i, m, j, m', k, m'', "", "");
    assert "" + "" == "";
  }

  lemma BlockParts(text: string, i: nat, b: Comment, j: nat)
    requires Reads(text, i, "/*" + BlockText(b) + "*/") && j == i + 2 + |BlockText(b)|
    ensures At(text, i, '/') && At(text, i + 1, '*') && Reads(text, i + 2, BlockText(b) + "*/")
    ensures At(text, j, '*') && At(text, j + 1, '/')
  {
    Fenced(text, i, BlockText(b), '/', '*', '*', '/');
  }

  /** A whole block comment, `d` others being open around it. */
  lemma NestedBlock(text: string, letter: char -> bool, i: nat, b: Comment, d: nat, k: nat)
    requires BlockOk(b) && Reads(text, i, "/*" + BlockText(b) + "*/") && k == i + 4 + |BlockText(b)|
    ensures Stretch(text, letter, i, Inside(d), k, Inside(d), "")
    decreases b, 1
  {
    var j := k - 2;
    BlockParts(text, i, b, j);
    BlockOpens(text, letter, i, d);
    InBlock(text, letter, i + 2, b, d, j);
    BlockCloses(text, letter, j, d);
    JoinQuietly(text, letter, i, Inside(d), i + 2, Mode.Block(d + 1), j, Mode.Block(d + 1));
    JoinQuietly(text, letter, i, Inside(d), j, Mode.Block(d + 1), k, Inside(d));
  }

  // ---------- quoted text ----------

  lemma JoinSlices(text: string, letter: char -> bool, i: nat, m: Mode, j: nat, m': Mode, k: nat, m'': Mode)
    requires i <= j <= k <= |text| && Stretch(text, letter, i, m, j, m', text[i..j]) && Stretch(text, letter, j, m', k, m'', text[j..k])
    ensures Stretch(text, letter, i, m, k, m'', text[i..k])
  {
    Join(text, letter, i, m, j, m', k, m'', text[i..j], text[j..k]);
    assert text[i..k] == text[i..j] + text[j..k];
  }

  predicate IsQuote(m: Mode, quote: char) { (m == Str && quote == '"') || (m == Char && quote == '\'') }

  lemma Unescaped(text: string, letter: char -> bool, i: nat, m: Mode, quote: char)
    requires IsQuote(m, quote) && i < |text| && text[i] != quote && text[i] != '\\'
    ensures Stretch(text, letter, i, m, i + 1, m, [text[i]])
  {
    Go(text, letter, i, m, Step(i + 1, m), [text[i]]);
  }

  lemma Escaped(text: string, letter: char -> bool, i: nat, m: Mode, quote: char)
    requires IsQuote(m, quote) && At(text, i, '\\') && i + 1 < |text|
    ensures Stretch(text, letter, i, m, i + 2, m, ['\\', text[i + 1]])
  {
    assert text[i..i + 2] == ['\\', text[i + 1]];
    Go(text, letter, i, m, Step(i + 2, m), ['\\', text[i + 1]]);
  }

  lemma QuoteEnds(text: string, letter: char -> bool, i: nat, m: Mode, quote: char)
    requires IsQuote(m, quote) && At(text, i, quote)
    ensures Stretch(text, letter, i, m, i + 1, Code, [quote])
  {
    assert text[i..i + 1] == [quote];
    Go(text, letter, i, m, Step(i + 1, Code), [quote]);
  }

  lemma OnePiece(text: string, letter: char -> bool, i: nat, m: Mode, quote: char, p: Piece)
    requires IsQuote(m, quote) && Reads(text, i, PieceText(p)) && (p.Lit? ==> p.c != quote && p.c != '\\')
    ensures Stretch(text, letter, i, m, i + |PieceText(p)|, m, PieceText(p))
  {
    ReadsAt(text, i, PieceText(p), 0);
    if p.Lit? {
      Unescaped(text, letter, i, m, quote);
    } else {
      ReadsAt(text, i, PieceText(p), 1);
      Escaped(text, letter, i, m, quote);
    }
  }

  lemma PiecesCons(text: string, i: nat, ps: seq<Piece>, first: string, rest: string, k: nat)
    requires ps != [] && Reads(text, i, PiecesText(ps)) && k == i + |PiecesText(ps)|
    requires first == PieceText(ps[0]) && rest == PiecesText(ps[1..])
    ensures PiecesText(ps) == first + rest && Reads(text, i, first) && Reads(text, i + |first|, rest) && k == i + |first| + |rest|
  {
    ReadsParts(text, i, first, rest);
  }

  lemma {:induction false} InQuotes(text: string, letter: char -> bool, i: nat, m: Mode, quote: char, ps: seq<Piece>, k: nat)
    requires IsQuote(m, quote) && PiecesOk(ps, quote) && Reads(text, i, PiecesText(ps)) && k == i + |PiecesText(ps)|
    ensures Stretch(text, letter, i, m, k, m, PiecesText(ps))
    decreases |ps|
  {
    if ps == [] {
      Stay(text, letter, i, m);
    } else {
      var first, rest := PieceText(ps[0]), PiecesText(ps[1..]);
      PiecesCons(text, i, ps, first, rest, k);
      var j := i + |first|;
      OnePiece(text, letter, i, m, quote, ps[0]);
      InQuotes(text, letter, j, m, quote, ps[1..], k);
      Join(text, letter, i, m, j, m, k, m, first, rest);
    }
  }

  lemma OneOf(text: string, i: nat, c: char)
    requires At(text, i, c)
    ensures i + 1 <= |text| && text[i..i + 1] == [c]
  {
  }

  lemma QuotedParts(text: string, i: nat, quote: char, inner: string, j: nat)
    requires Reads(text, i, [quote] + inner + [quote]) && j == i + 1 + |inner|
    ensures At(text, i, quote) && At(text, j, quote) && Reads(text, i + 1, inner) && text[i + 1..j] == inner
  {
    ReadsLast(text, i, [quote] + inner, quote);
    ReadsParts(text, i, [quote], inner);
    ReadsAt(text, i, [quote], 0);
  }

  /** From the opening quote on, wherever it puts the scan into quotes. */
  lemma WholeQuoted(text: string, letter: char -> bool, i: nat, m: Mode, quote: char, ps: seq<Piece>, j: nat)
    requires IsQuote(m, quote) && PiecesOk(ps, quote) && Reads(text, i, [quote] + PiecesText(ps) + [quote]) && j == i + 1 + |PiecesText(ps)|
    requires Stretch(text, letter, i, Code, i + 1, m, [quote])
    ensures j < |text| && Stretch(text, letter, i, Code, j + 1, Code, text[i..j + 1])
  {
    QuotedParts(text, i, quote, PiecesText(ps), j);
    OneOf(text, i, quote);
    OneOf(text, j, quote);
    InQuotes(text, letter, i + 1, m, quote, ps, j);
    JoinSlices(text, letter, i, Code, i + 1, m, j, m);
    QuoteEnds(text, letter, j, m, quote);
    JoinSlices(text, letter, i, Code, j, m, j + 1, Code);
  }

  lemma StringOpens(text: string, letter: char -> bool, i: nat)
    requires At(text, i, '"')
    ensures Stretch(text, letter, i, Code, i + 1, Str, "\"")
  {
    assert text[i..i + 1] == "\"";
    Go(text, letter, i, Code, Step(i + 1, Str), "\"");
  }

  lemma CharacterOpens(text: string, letter: char -> bool, i: nat)
    requires At(text, i, '\'') && (At(text, i + 2, '\'') || At(text, i + 1, '\\'))
    ensures Stretch(text, letter, i, Code, i + 1, Char, "'")
  {
    assert text[i..i + 1] == "'";
    Go(text, letter, i, Code, Step(i + 1, Char), "'");
  }

  lemma CharacterText(ps: seq<Piece>)
    requires ps != [] && (|ps| == 1 || ps[0].Esc?)
    ensures var s := "'" + PiecesText(ps) + "'";
            |s| >= 3 && s[0] == '\'' && (s[1] == '\\' || s[2] == '\'')
  {
    var rest := PiecesText(ps[1..]);
    if ps[0].Lit? {
      assert ps[1..] == [] && PiecesText(ps) == [ps[0].c] + "";
    } else {
      assert PiecesText(ps) == ['\\', ps[0].c] + rest;
    }
  }

  lemma CharacterBegins(text: string, i: nat, ps: seq<Piece>)
    requires ps != [] && (|ps| == 1 || ps[0].Esc?) && Reads(text, i, "'" + PiecesText(ps) + "'")
    ensures At(text, i, '\'') && (At(text, i + 2, '\'') || At(text, i + 1, '\\'))
  {
    var s := "'" + PiecesText(ps) + "'";
    CharacterText(ps);
    ReadsAt(text, i, s, 0);
    ReadsAt(text, i, s, 1);
    ReadsAt(text, i, s, 2);
  }

  // ---------- plain code and lifetimes ----------

  lemma {:induction false} RawBegins(text: string, j: nat)
    requires j <= |text|
    ensures BeginsRaw(text[j..]) <==> At(text, j + Hashes(text, j), '"')
    decreases |text| - j
  {
    if At(text, j, '#') {
      RawBegins(text, j + 1);
      assert text[j..][1..] == text[j + 1..];
    }
  }

  /** A character that is code by itself. */
  predicate CodeAt(text: string, i: nat) {
    && i < |text| && text[i] != '"' && text[i] != '\''
    && (text[i] == '/' ==> !At(text, i + 1, '/') && !At(text, i + 1, '*'))
    && (text[i] == 'r' ==> !BeginsRaw(text[i + 1..]))
  }

  lemma CodeAdvances(text: string, letter: char -> bool, i: nat)
    requires CodeAt(text, i)
    ensures Advance(text, i, Code, letter) == Step(i + 1, Code)
    ensures Stripped(text, i, Code, letter) == [text[i]] + Stripped(text, i + 1, Code, letter)
  {
    RawBegins(text, i + 1);
    assert text[i..i + 1] == [text[i]];
  }

  lemma CodeGoes(text: string, letter: char -> bool, i: nat)
    requires CodeAt(text, i) && text[i] != '{' && text[i] != '}'
    ensures Stretch(text, letter, i, Code, i + 1, Code, [text[i]])
  {
    CodeAdvances(text, letter, i);
    assert text[i..i + 1] == [text[i]];
    Go(text, letter, i, Code, Step(i + 1, Code), [text[i]]);
  }

  lemma LifetimeOpens(text: string, letter: char -> bool, i: nat)
    requires At(text, i, '\'') && i + 1 < |text| && IsIdentStart(text[i + 1], letter) && !At(text, i + 2, '\'')
    ensures Stretch(text, letter, i, Code, i + 1, Code, "'")
  {
    assert text[i..i + 1] == "'";
    Go(text, letter, i, Code, Step(i + 1, Code), "'");
  }

  lemma WholeLifetime(text: string, letter: char -> bool, i: nat)
    requires At(text, i, '\'') && i + 1 < |text| && IsIdentStart(text[i + 1], letter) && !At(text, i + 2, '\'')
    requires text[i + 1] == 'r' ==> !BeginsRaw(text[i + 2..])
    ensures Stretch(text, letter, i, Code, i + 2, Code, ['\'', text[i + 1]])
  {
    LifetimeOpens(text, letter, i);
    CodeGoes(text, letter, i + 1);
    Join(text, letter, i, Code, i + 1, Code, i + 2, Code, "'", [text[i + 1]]);
    assert "'" + [text[i + 1]] == ['\'', text[i + 1]];
  }

  // ---------- raw strings ----------

  lemma {:induction false} PoundsCount(text: string, j: nat, n: nat)
    requires Reads(text, j, Pounds(n)) && !At(text, j + n, '#')
    ensures Hashes(text, j) == n
    decreases n
  {
    if n > 0 {
      ReadsCons(text, j, Pounds(n));
      assert Pounds(n)[1..] == Pounds(n - 1);
      PoundsCount(text, j + 1, n - 1);
    }
  }

  lemma {:induction false} FewHashes(text: string, p: nat, body: string, k: nat, n: nat)
    requires Reads(text, p, body) && At(text, p + |body|, '"') && k <= |body| && FewPounds(body, k, n)
    ensures Hashes(text, p + k) < n
    decreases n
  {
    if At(body, k, '#') {
      FewHashes(text, p, body, k + 1, n - 1);
    } else if k < |body| {
      ReadsAt(text, p, body, k);
    }
  }

  lemma RawChar(text: string, letter: char -> bool, i: nat, n: nat)
    requires i < |text| && (text[i] == '"' ==> Hashes(text, i + 1) != n)
    ensures Stretch(text, letter, i, Raw(n), i + 1, Raw(n), [text[i]])
  {
    assert text[i..i + 1] == [text[i]];
    Go(text, letter, i, Raw(n), Step(i + 1, Raw(n)), [text[i]]);
  }

  lemma {:induction false} InRaw(text: string, letter: char -> bool, i: nat, j: nat, n: nat)
    requires i <= j <= |text| && forall k :: i <= k < j && text[k] == '"' ==> Hashes(text, k + 1) != n
    ensures Stretch(text, letter, i, Raw(n), j, Raw(n), text[i..j])
    decreases j - i
  {
    if i == j {
      Stay(text, letter, i, Raw(n));
    } else {
      RawChar(text, letter, i, n);
      InRaw(text, letter, i + 1, j, n);
      assert text[i..j] == [text[i]] + text[i + 1..j];
      Join(text, letter, i, Raw(n), i + 1, Raw(n), j, Raw(n), [text[i]], text[i + 1..j]);
    }
  }

  lemma RawOpens(text: string, letter: char -> bool, i: nat, n: nat)
    requires At(text, i, 'r') && Hashes(text, i + 1) == n && At(text, i + 1 + n, '"')
    ensures Stretch(text, letter, i, Code, i + 2 + n, Raw(n), text[i..i + 2 + n])
  {
    Go(text, letter, i, Code, Step(i + 2 + n, Raw(n)), text[i..i + 2 + n]);
  }

  lemma RawCloses(text: string, letter: char -> bool, i: nat, n: nat)
    requires At(text, i, '"') && Hashes(text, i + 1) == n && i + 1 + n <= |text|
    ensures Stretch(text, letter, i, Raw(n), i + 1 + n, Code, text[i..i + 1 + n])
  {
    Go(text, letter, i, Raw(n), Step(i + 1 + n, Code), text[i..i + 1 + n]);
  }

  /** A raw string with its contents from `a` to `b`. */
  lemma WholeRaw(text: string, letter: char -> bool, i: nat, n: nat, a: nat, b: nat, c: nat)
    requires At(text, i, 'r') && Hashes(text, i + 1) == n && At(text, i + 1 + n, '"') && a == i + 2 + n <= b < c == b + 1 + n <= |text|
    requires forall k :: a <= k < b && text[k] == '"' ==> Hashes(text, k + 1) != n
    requires At(text, b, '"') && Hashes(text, b + 1) == n
    ensures Stretch(text, letter, i, Code, c, Code, text[i..c])
  {
    RawUpTo(text, letter, i, n, a, b);
    RawCloses(text, letter, b, n);
    JoinSlices(text, letter, i, Code, b, Raw(n), c, Code);
  }

  // ---------- every lexeme ----------

  predicate IsBrace(l: Lexeme) { l == Plain('{') || l == Plain('}') }

  lemma BeginsAt(text: string, i: nat, c: char)
    requires i <= |text|
    ensures Begins(text[i..], c) <==> At(text, i, c)
  {
  }

  lemma PlainIsCode(text: string, letter: char -> bool, i: nat, c: char)
    requires Reads(text, i, [c]) && LexemeOk(Plain(c), text[i + 1..], letter)
    ensures CodeAt(text, i) && text[i] == c
  {
    ReadsAt(text, i, [c], 0);
    BeginsAt(text, i + 1, '/');
    BeginsAt(text, i + 1, '*');
  }

  lemma LineScan(text: string, letter: char -> bool, i: nat, body: string)
    requires Reads(text, i, "//" + body) && '\n' !in body
    ensures Stretch(text, letter, i, Code, i + 2 + |body|, Line, "")
  {
    ReadsParts(text, i, "//", body);
    ReadsAt(text, i, "//", 0);
    ReadsAt(text, i, "//", 1);
    forall k | i + 2 <= k < i + 2 + |body| ensures text[k] != '\n' {
      ReadsAt(text, i + 2, body, k - i - 2);
      assert body[k - i - 2] in body;
    }
    LineUpTo(text, letter, i, i + 2 + |body|);
  }

  lemma JoinAfterQuiet(text: string, letter: char -> bool, i: nat, m: Mode, j: nat, m': Mode, k: nat, m'': Mode, out: string)
    requires Stretch(text, letter, i, m, j, m', "") && Stretch(text, letter, j, m', k, m'', out)
    ensures Stretch(text, letter, i, m, k, m'', out)
  {
    Join(text, letter, i, m, j, m', k, m'', "", out);
    assert "" + out == out;
  }

  lemma LineCommentScan(text: string, letter: char -> bool, i: nat, body: string, j: nat)
    requires Reads(text, i, "//" + body) && '\n' !in body && j == i + 2 + |body| && At(text, j, '\n')
    ensures Stretch(text, letter, i, Code, j + 1, Code, "\n")
  {
    LineScan(text, letter, i, body);
    LineEnds(text, letter, j);
    JoinAfterQuiet(text, letter, i, Code, j, Line, j + 1, Code, "\n");
  }

  lemma QuotedScan(text: string, letter: char -> bool, i: nat, ps: seq<Piece>)
    requires Reads(text, i, "\"" + PiecesText(ps) + "\"") && PiecesOk(ps, '"')
    ensures Stretch(text, letter, i, Code, i + 2 + |PiecesText(ps)|, Code, "\"" + PiecesText(ps) + "\"")
  {
    ReadsAt(text, i, "\"" + PiecesText(ps) + "\"", 0);
    StringOpens(text, letter, i);
    WholeQuoted(text, letter, i, Str, '"', ps, i + 1 + |PiecesText(ps)|);
  }

  lemma CharacterScan(text: string, letter: char -> bool, i: nat, ps: seq<Piece>)
    requires Reads(text, i, "'" + PiecesText(ps) + "'") && ps != [] && PiecesOk(ps, '\'') && (|ps| == 1 || ps[0].Esc?)
    ensures Stretch(text, letter, i, Code, i + 2 + |PiecesText(ps)|, Code, "'" + PiecesText(ps) + "'")
  {
    CharacterBegins(text, i, ps);
    CharacterOpens(text, letter, i);
    WholeQuoted(text, letter, i, Char, '\'', ps, i + 1 + |PiecesText(ps)|);
  }

  lemma LifetimeScan(text: string, letter: char -> bool, i: nat, first: char)
    requires Reads(text, i, ['\'', first]) && LexemeOk(Lifetime(first), text[i + 2..], letter)
    ensures Stretch(text, letter, i, Code, i + 2, Code, ['\'', first])
  {
    ReadsAt(text, i, ['\'', first], 0);
    ReadsAt(text, i, ['\'', first], 1);
    BeginsAt(text, i + 2, '\'');
    WholeLifetime(text, letter, i);
  }

  lemma RawHead(text: string, i: nat, pounds: string)
    requires Reads(text, i, "r" + pounds + "\"")
    ensures At(text, i, 'r') && Reads(text, i + 1, pounds) && At(text, i + 1 + |pounds|, '"')
  {
    ReadsLast(text, i, "r" + pounds, '"');
    ReadsParts(text, i, "r", pounds);
    ReadsAt(text, i, "r", 0);
  }

  /** A raw string written from `i` to `j`, its contents from `p` to `b`. */
  predicate RawAt(text: string, i: nat, n: nat, body: string, p: nat, b: nat, j: nat) {
    && p == i + 2 + n && b == p + |body| && j == b + 1 + n
    && At(text, i, 'r') && Reads(text, i + 1, Pounds(n)) && At(text, p - 1, '"')
    && Reads(text, p, body) && At(text, b, '"') && Reads(text, b + 1, Pounds(n))
  }

  lemma RawParts(text: string, i: nat, pounds: string, body: string)
    requires Reads(text, i, "r" + pounds + "\"" + body + "\"" + pounds)
    ensures At(text, i, 'r') && Reads(text, i + 1, pounds) && At(text, i + 1 + |pounds|, '"')
    ensures Reads(text, i + 2 + |pounds|, body) && At(text, i + 2 + |pounds| + |body|, '"')
    ensures Reads(text, i + 3 + |pounds| + |body|, pounds)
  {
    var head := "r" + pounds + "\"";
    ReadsParts(text, i, head + body + "\"", pounds);
    ReadsLast(text, i, head + body, '"');
    ReadsParts(text, i, head, body);
    RawHead(text, i, pounds);
  }

  lemma RawPlaces(text: string, i: nat, n: nat, body: string)
    requires Reads(text, i, "r" + Pounds(n) + "\"" + body + "\"" + Pounds(n))
    ensures RawAt(text, i, n, body, i + 2 + n, i + 2 + n + |body|, i + 3 + n + |body| + n)
  {
    RawParts(text, i, Pounds(n), body);
  }

  lemma RawBodyScan(text: string, p: nat, n: nat, body: string)
    requires Reads(text, p, body) && At(text, p + |body|, '"')
    requires forall k :: 0 <= k < |body| ==> QuoteIsOpen(body, k, n)
    ensures forall k :: p <= k < p + |body| && text[k] == '"' ==> Hashes(text, k + 1) != n
  {
    forall k | p <= k < p + |body| && text[k] == '"' ensures Hashes(text, k + 1) != n {
      ReadsAt(text, p, body, k - p);
      assert QuoteIsOpen(body, k - p, n);
      FewHashes(text, p, body, k - p + 1, n);
    }
  }

  lemma RawCounts(text: string, i: nat, n: nat, body: string, p: nat, b: nat, j: nat)
    requires RawAt(text, i, n, body, p, b, j) && !At(text, j, '#')
    ensures Hashes(text, i + 1) == n && Hashes(text, b + 1) == n && j <= |text|
  {
    PoundsCount(text, i + 1, n);
    PoundsCount(text, b + 1, n);
  }

  lemma RawScan(text: string, letter: char -> bool, i: nat, n: nat, body: string, p: nat, b: nat, j: nat)
    requires RawAt(text, i, n, body, p, b, j) && !At(text, j, '#')
    requires forall k :: 0 <= k < |body| ==> QuoteIsOpen(body, k, n)
    ensures j <= |text| && Stretch(text, letter, i, Code, j, Code, text[i..j])
  {
    RawCounts(text, i, n, body, p, b, j);
    RawBodyScan(text, p, n, body);
    WholeRaw(text, letter, i, n, p, b, j);
  }

  lemma {:induction false} MorePounds(text: string, j: nat, n: nat)
    requires Reads(text, j, Pounds(n)) && At(text, j + n, '#')
    ensures Hashes(text, j) > n
    decreases n
  {
    if n > 0 {
      ReadsCons(text, j, Pounds(n));
      assert Pounds(n)[1..] == Pounds(n - 1);
      MorePounds(text, j + 1, n - 1);
    }
  }

  lemma RawUpTo(text: string, letter: char -> bool, i: nat, n: nat, a: nat, b: nat)
    requires At(text, i, 'r') && Hashes(text, i + 1) == n && At(text, i + 1 + n, '"') && a == i + 2 + n <= b <= |text|
    requires forall k :: a <= k < b && text[k] == '"' ==> Hashes(text, k + 1) != n
    ensures Stretch(text, letter, i, Code, b, Raw(n), text[i..b])
  {
    RawOpens(text, letter, i, n);
    InRaw(text, letter, a, b, n);
    JoinSlices(text, letter, i, Code, a, Raw(n), b, Raw(n));
  }

  /** A raw string directly followed by one more hash sign is not closed by its closing quote: the scan reads on in it. */
  lemma RawReadsOn(text: string, letter: char -> bool, i: nat, n: nat, body: string, p: nat, b: nat, j: nat)
    requires RawAt(text, i, n, body, p, b, j) && At(text, j, '#')
    requires forall k :: 0 <= k < |body| ==> QuoteIsOpen(body, k, n)
    ensures b < |text| && Stretch(text, letter, i, Code, b + 1, Raw(n), text[i..b + 1])
  {
    PoundsCount(text, i + 1, n);
    MorePounds(text, b + 1, n);
    RawBodyScan(text, p, n, body);
    RawUpTo(text, letter, i, n, p, b + 1);
  }

  lemma RawLexeme(text: string, letter: char -> bool, i: nat, n: nat, body: string, j: nat)
    requires Reads(text, i, "r" + Pounds(n) + "\"" + body + "\"" + Pounds(n)) && j == i + 3 + n + |body| + n && !At(text, j, '#')
    requires forall k :: 0 <= k < |body| ==> QuoteIsOpen(body, k, n)
    ensures j <= |text| && Stretch(text, letter, i, Code, j, Code, text[i..j])
  {
    assert RawAt(text, i, n, body, i + 2 + n, i + 2 + n + |body|, j) by { RawPlaces(text, i, n, body); }
    RawScan(text, letter, i, n, body, i + 2 + n, i + 2 + n + |body|, j);
  }

  /** A lexeme that is no brace reads as itself, and leaves of itself what is to be kept. */
  lemma LexemeScan(text: string, letter: char -> bool, i: nat, l: Lexeme)
    requires Reads(text, i, Text(l)) && LexemeOk(l, text[i + |Text(l)|..], letter) && !IsBrace(l) && !l.LastComment?
    ensures Stretch(text, letter, i, Code, i + |Text(l)|, Code, Kept(l))
  {
    match l
    case Plain(c) =>
      PlainIsCode(text, letter, i, c);
      CodeGoes(text, letter, i);
    case LineComment(body) =>
      ReadsLast(text, i, "//" + body, '\n');
      LineCommentScan(text, letter, i, body, i + 2 + |body|);
    case BlockComment(b) => NestedBlock(text, letter, i, b, 0, i + |Text(l)|);
    case Quoted(ps) => QuotedScan(text, letter, i, ps);
    case Character(ps) => CharacterScan(text, letter, i, ps);
    case Lifetime(first) => LifetimeScan(text, letter, i, first);
    case RawQuoted(n, body) =>
      BeginsAt(text, i + |Text(l)|, '#');
      RawLexeme(text, letter, i, n, body, i + |Text(l)|);
  }

  // ---------- whole programs ----------

  /** The text from `i` on is written from `ls`. */
  predicate Written(text: string, i: nat, ls: seq<Lexeme>) { i <= |text| && text[i..] == ProgramText(ls) }

  lemma Splits(text: string, i: nat, a: string, b: string, j: nat)
    requires i <= |text| && text[i..] == a + b && j == i + |a|
    ensures Reads(text, i, a) && j <= |text| && text[j..] == b
  {
    var t := text[i..];
    assert t[..|a|] == a && t[|a|..] == b;
    assert text[i..j] == t[..|a|] && text[j..] == t[|a|..];
  }

  lemma WrittenCons(text: string, i: nat, ls: seq<Lexeme>, j: nat)
    requires Written(text, i, ls) && ls != [] && j == i + |Text(ls[0])|
    ensures Reads(text, i, Text(ls[0])) && Written(text, j, ls[1..])
  {
    Splits(text, i, Text(ls[0]), ProgramText(ls[1..]), j);
  }

  // ---------- matching braces ----------

  function Weight(l: Lexeme): int { if l == Plain('{') then 1 else if l == Plain('}') then -1 else 0 }

  /** Opening less closing braces of plain code. */
  function Net(ls: seq<Lexeme>): int {
    if ls == [] then 0 else Weight(ls[0]) + Net(ls[1..])
  }

  /** Where a depth of `d` returns to zero, the program starting at `i`. */
  function Closing(ls: seq<Lexeme>, d: int, i: nat): int {
    if ls == [] then -1
    else if ls[0] == Plain('}') && d == 1 then i
    else Closing(ls[1..], d + Weight(ls[0]), i + |Text(ls[0])|)
  }

  /** What one lexeme from `i` to `j` does to the two scanners, `d` deep: what they make of the text before and after it. */
  predicate Steps(l: Lexeme, i: nat, d: int, before: string, after: string, close: int, later: int) {
    before == Kept(l) + after && close == if l == Plain('}') && d == 1 then i else later
  }

  lemma LastSteps(text: string, letter: char -> bool, i: nat, body: string, d: int)
    requires Reads(text, i, "//" + body) && '\n' !in body && i + 2 + |body| == |text|
    ensures Stripped(text, i, Code, letter) == "" == Stripped(text, |text|, Code, letter)
    ensures CloseFrom(text, i, Code, d, letter) == -1 == CloseFrom(text, |text|, Code, d, letter)
  {
    LineScan(text, letter, i, body);
    StretchScans(text, letter, i, Code, |text|, Line, "", d);
  }

  lemma BraceSteps(text: string, letter: char -> bool, i: nat, d: int)
    requires i < |text| && (text[i] == '{' || text[i] == '}')
    ensures Stripped(text, i, Code, letter) == [text[i]] + Stripped(text, i + 1, Code, letter)
    ensures CloseFrom(text, i, Code, d, letter)
         == if text[i] == '{' then CloseFrom(text, i + 1, Code, d + 1, letter)
            else if d == 1 then i else CloseFrom(text, i + 1, Code, d - 1, letter)
  {
    CodeAdvances(text, letter, i);
    assert Emit(text, Token(i, i + 1, Code, Code)) == [text[i]];
  }

  lemma OtherSteps(text: string, letter: char -> bool, i: nat, l: Lexeme, d: int, j: nat)
    requires Reads(text, i, Text(l)) && j == i + |Text(l)| && LexemeOk(l, text[j..], letter) && !IsBrace(l) && !l.LastComment?
    ensures Stripped(text, i, Code, letter) == Kept(l) + Stripped(text, j, Code, letter)
    ensures CloseFrom(text, i, Code, d, letter) == CloseFrom(text, j, Code, d, letter)
  {
    LexemeScan(text, letter, i, l);
    StretchScans(text, letter, i, Code, j, Code, Kept(l), d);
  }

  lemma LexemeSteps(text: string, letter: char -> bool, i: nat, l: Lexeme, d: int, j: nat)
    requires Reads(text, i, Text(l)) && j == i + |Text(l)| && LexemeOk(l, text[j..], letter)
    ensures Steps(l, i, d, Stripped(text, i, Code, letter), Stripped(text, j, Code, letter),
                  CloseFrom(text, i, Code, d, letter), CloseFrom(text, j, Code, d + Weight(l), letter))
  {
    if l.LastComment? {
      assert text[j..] == "" && j == |text|;
      LastSteps(text, letter, i, l.body, d);
    } else if IsBrace(l) {
      ReadsAt(text, i, [l.c], 0);
      BraceSteps(text, letter, i, d);
    } else {
      OtherSteps(text, letter, i, l, d, j);
    }
  }

  /** The two scanners as functions of where they start. */
  function Stripper(text: string, letter: char -> bool): nat -> string {
    (i: nat) => Stripped(text, i, Code, letter)
  }

  function Closer(text: string, letter: char -> bool): (nat, int) -> int {
    (i: nat, d: int) => CloseFrom(text, i, Code, d, letter)
  }

  ghost predicate StepsOver(strip: nat -> string, close: (nat, int) -> int, l: Lexeme, i: nat, j: nat) {
    forall d: int :: Steps(l, i, d, strip(i), strip(j), close(i, d), close(j, d + Weight(l)))
  }

  /** Functions that step over every lexeme of a program, and have nothing left at its end. */
  ghost predicate StepsAlong(strip: nat -> string, close: (nat, int) -> int, ls: seq<Lexeme>, i: nat) {
    if ls == [] then strip(i) == "" && forall d :: close(i, d) == -1
    else StepsOver(strip, close, ls[0], i, i + |Text(ls[0])|) && StepsAlong(strip, close, ls[1..], i + |Text(ls[0])|)
  }

  lemma {:induction false} StepsGive(strip: nat -> string, close: (nat, int) -> int, ls: seq<Lexeme>, i: nat, d: int)
    requires StepsAlong(strip, close, ls, i)
    ensures strip(i) == KeptText(ls) && close(i, d) == Closing(ls, d, i)
    decreases |ls|
  {
    if ls != [] {
      var l, j := ls[0], i + |Text(ls[0])|;
      StepsGive(strip, close, ls[1..], j, d + Weight(l));
      assert Steps(l, i, d, strip(i), strip(j), close(i, d), close(j, d + Weight(l)));
    }
  }

  lemma ScannersStep(text: string, letter: char -> bool, i: nat, l: Lexeme, j: nat)
    requires Reads(text, i, Text(l)) && j == i + |Text(l)| && LexemeOk(l, text[j..], letter)
    ensures StepsOver(Stripper(text, letter), Closer(text, letter), l, i, j)
  {
    forall d: int
      ensures Steps(l, i, d, Stripped(text, i, Code, letter), Stripped(text, j, Code, letter),
                    CloseFrom(text, i, Code, d, letter), CloseFrom(text, j, Code, d + Weight(l), letter))
    {
      LexemeSteps(text, letter, i, l, d, j);
    }
  }

  lemma StepsCons(strip: nat -> string, close: (nat, int) -> int, ls: seq<Lexeme>, i: nat)
    requires ls != [] && StepsOver(strip, close, ls[0], i, i + |Text(ls[0])|) && StepsAlong(strip, close, ls[1..], i + |Text(ls[0])|)
    ensures StepsAlong(strip, close, ls, i)
  {
  }

  lemma StepsEnd(text: string, letter: char -> bool)
    ensures StepsAlong(Stripper(text, letter), Closer(text, letter), [], |text|)
  {
  }

  /** The two scanners step along a program. */
  lemma {:induction false} ScannersStepAlong(text: string, letter: char -> bool, i: nat, ls: seq<Lexeme>)
    requires Written(text, i, ls) && ProgramOk(ls, letter)
    ensures StepsAlong(Stripper(text, letter), Closer(text, letter), ls, i)
    decreases |ls|
  {
    if ls == [] {
      StepsEnd(text, letter);
    } else {
      WrittenCons(text, i, ls, i + |Text(ls[0])|);
      ScannersStep(text, letter, i, ls[0], i + |Text(ls[0])|);
      ScannersStepAlong(text, letter, i + |Text(ls[0])|, ls[1..]);
      StepsCons(Stripper(text, letter), Closer(text, letter), ls, i);
    }
  }

  /** Lexeme `b` is a brace of plain code at which the depth, `d` at first, returns to zero. */
  predicate ClosesAt(ls: seq<Lexeme>, d: int, b: nat) {
    b < |ls| && ls[b] == Plain('}') && d + Net(ls[..b + 1]) == 0
  }

  /** Lexeme `b`, at `r` in a text where `ls` starts at `i`, is the first such. */
  ghost predicate FirstCloses(ls: seq<Lexeme>, d: int, i: nat, b: nat, r: int) {
    ClosesAt(ls, d, b) && r == i + |ProgramText(ls[..b])| && forall c: nat :: c < b ==> !ClosesAt(ls, d, c)
  }

  /** `r` is where the depth first returns to zero, -1 when it never does. */
  ghost predicate Found(ls: seq<Lexeme>, d: int, i: nat, r: int) {
    if r == -1 then forall b: nat :: !ClosesAt(ls, d, b) else exists b: nat :: FirstCloses(ls, d, i, b, r)
  }

  lemma ClosesLater(ls: seq<Lexeme>, d: int, b: nat)
    requires ls != []
    ensures ClosesAt(ls, d, b + 1) <==> ClosesAt(ls[1..], d + Weight(ls[0]), b)
  {
    if b + 1 < |ls| { assert ls[..b + 2][1..] == ls[1..][..b + 1]; }
  }

  lemma ClosesNow(ls: seq<Lexeme>, d: int)
    requires ls != []
    ensures ClosesAt(ls, d, 0) <==> ls[0] == Plain('}') && d == 1
  {
    assert ls[..1] == [ls[0]] && Net([ls[0]]) == Weight(ls[0]) + Net([]);
  }

  lemma NoneClosesLater(ls: seq<Lexeme>, d: int, d': int)
    requires ls != [] && !(ls[0] == Plain('}') && d == 1) && d' == d + Weight(ls[0])
    requires forall b: nat :: !ClosesAt(ls[1..], d', b)
    ensures forall b: nat :: !ClosesAt(ls, d, b)
  {
    forall b: nat ensures !ClosesAt(ls, d, b) {
      if b == 0 { ClosesNow(ls, d); } else { ClosesLater(ls, d, b - 1); }
    }
  }

  lemma FirstClosesLater(ls: seq<Lexeme>, d: int, i: nat, b: nat, r: int)
    requires ls != [] && !(ls[0] == Plain('}') && d == 1) && FirstCloses(ls[1..], d + Weight(ls[0]), i + |Text(ls[0])|, b, r)
    ensures FirstCloses(ls, d, i, b + 1, r)
  {
    ClosesLater(ls, d, b);
    forall c: nat | c < b + 1 ensures !ClosesAt(ls, d, c) {
      if c == 0 { ClosesNow(ls, d); } else { ClosesLater(ls, d, c - 1); }
    }
    assert ls[..b + 1][1..] == ls[1..][..b];
  }

  lemma FoundNow(ls: seq<Lexeme>, i: nat)
    requires ls != [] && ls[0] == Plain('}')
    ensures Found(ls, 1, i, i)
  {
    ClosesNow(ls, 1);
    assert ls[..0] == [];
    assert FirstCloses(ls, 1, i, 0, i);
  }

  lemma FoundLater(ls: seq<Lexeme>, d: int, i: nat, d': int, i': nat, r: int)
    requires ls != [] && !(ls[0] == Plain('}') && d == 1) && d' == d + Weight(ls[0]) && i' == i + |Text(ls[0])|
    requires Found(ls[1..], d', i', r)
    ensures Found(ls, d, i, r)
  {
    if r == -1 {
      NoneClosesLater(ls, d, d');
    } else {
      var b: nat :| FirstCloses(ls[1..], d', i', b, r);
      FirstClosesLater(ls, d, i, b, r);
    }
  }

  /** The recursive reading of the program finds it. */
  lemma {:induction false} ClosingFinds(ls: seq<Lexeme>, d: int, i: nat)
    ensures Found(ls, d, i, Closing(ls, d, i))
  {
    if ls != [] {
      if ls[0] == Plain('}') && d == 1 {
        FoundNow(ls, i);
      } else {
        var d', i' := d + Weight(ls[0]), i + |Text(ls[0])|;
        ClosingFinds(ls[1..], d', i');
        FoundLater(ls, d, i, d', i', Closing(ls[1..], d', i'));
      }
    }
  }

  // ---------- the scanners on programs ----------

  /** Removing comments leaves the lexemes without their comments; a match is where the depth first returns to zero. */
  lemma ProgramScans(text: string, letter: char -> bool, i: nat, ls: seq<Lexeme>, d: int)
    requires Written(text, i, ls) && ProgramOk(ls, letter)
    ensures Stripped(text, i, Code, letter) == KeptText(ls) && CloseFrom(text, i, Code, d, letter) == Closing(ls, d, i)
  {
    ScannersStepAlong(text, letter, i, ls);
    StepsGive(Stripper(text, letter), Closer(text, letter), ls, i, d);
  }

  method CleanProgram(ghost ls: seq<Lexeme>, text: string, letter: char -> bool) returns (out: string)
    requires text == ProgramText(ls) && ProgramOk(ls, letter)
    ensures out == KeptText(ls)
  {
    assert text[0..] == text;
    ProgramScans(text, letter, 0, ls, 0);
    out := RemoveComments(text, letter);
  }

  /** The brace found in a program, anywhere in a text, is the first that brings the depth of plain braces back to zero. */
  method MatchProgram(ghost ls: seq<Lexeme>, text: string, openIdx: nat, letter: char -> bool) returns (r: int)
    requires Written(text, openIdx, ls) && ProgramOk(ls, letter)
    ensures Found(ls, 0, openIdx, r)
  {
    ProgramScans(text, letter, openIdx, ls, 0);
    ClosingFinds(ls, 0, openIdx);
    r := FindMatchingBrace(text, openIdx, letter);
  }

  lemma {:induction false} RawPrefix(p: string, q: string)
    requires p <= q && BeginsRaw(p)
    ensures BeginsRaw(q)
  {
    if p[0] == '#' { RawPrefix(p[1..], q[1..]); }
  }

  lemma LexemePrefix(l: Lexeme, p: string, q: string, letter: char -> bool)
    requires p <= q && LexemeOk(l, q, letter)
    ensures LexemeOk(l, p, letter)
  {
    if BeginsRaw(p) { RawPrefix(p, q); }
  }

  lemma {:induction false} PrefixText(ls: seq<Lexeme>, b: nat)
    requires b <= |ls|
    ensures ProgramText(ls) == ProgramText(ls[..b]) + ProgramText(ls[b..])
  {
    if b == 0 {
      assert ls[..0] == [] && ls[0..] == ls;
      assert ProgramText(ls) == "" + ProgramText(ls);
    } else {
      PrefixText(ls[1..], b - 1);
      assert ls[..b][1..] == ls[1..][..b - 1] && ls[1..][b - 1..] == ls[b..];
      Reassociate(ProgramText(ls), Text(ls[0]), ProgramText(ls[1..]), ProgramText(ls[..b][1..]), ProgramText(ls[b..]));
    }
  }

  /** The beginning of a program is a program. */
  lemma {:induction false} PrefixOk(ls: seq<Lexeme>, b: nat, letter: char -> bool)
    requires b <= |ls| && ProgramOk(ls, letter)
    ensures ProgramOk(ls[..b], letter)
  {
    if b > 0 {
      PrefixOk(ls[1..], b - 1, letter);
      assert ls[..b][1..] == ls[1..][..b - 1];
      PrefixText(ls[1..], b - 1);
      LexemePrefix(ls[0], ProgramText(ls[1..][..b - 1]), ProgramText(ls[1..]), letter);
    }
  }

  lemma WrittenPrefix(text: string, letter: char -> bool, i: nat, ls: seq<Lexeme>, b: nat, j: nat)
    requires Written(text, i, ls) && ProgramOk(ls, letter) && b <= |ls| && j == i + |ProgramText(ls[..b])|
    ensures j <= |text| && text[i..j] == ProgramText(ls[..b]) && ProgramOk(ls[..b], letter)
  {
    PrefixOk(ls, b, letter);
    PrefixText(ls, b);
    Splits(text, i, ProgramText(ls[..b]), ProgramText(ls[b..]), j);
  }

  /** Between the braces stands the program between them. */
  lemma BetweenBraces(text: string, letter: char -> bool, openIdx: nat, ls: seq<Lexeme>, b: nat, close: int)
    requires Written(text, openIdx, ls) && ProgramOk(ls, letter) && ls != [] && ls[0] == Plain('{')
    requires FirstCloses(ls, 0, openIdx, b, close)
    ensures 1 <= b && openIdx < close <= |text| && text[openIdx + 1..close] == ProgramText(ls[1..b]) && ProgramOk(ls[1..b], letter)
  {
    ClosesNow(ls, 0);
    WrittenCons(text, openIdx, ls, openIdx + 1);
    assert ls[1..][..b - 1] == ls[1..b] && ls[..b][1..] == ls[1..b];
    WrittenPrefix(text, letter, openIdx + 1, ls[1..], b - 1, close);
  }

  /** The body found in a program is what stands between the two braces, without its comments. */
  method BodyOfProgram(ghost ls: seq<Lexeme>, text: string, openIdx: nat, letter: char -> bool) returns (r: Option<string>)
    requires Written(text, openIdx, ls) && ProgramOk(ls, letter) && ls != [] && ls[0] == Plain('{')
    ensures if r.None? then forall b: nat :: !ClosesAt(ls, 0, b)
            else exists b: nat, close :: 1 <= b && FirstCloses(ls, 0, openIdx, b, close) && r.value == KeptText(ls[1..b])
  {
    WrittenCons(text, openIdx, ls, openIdx + 1);
    ReadsAt(text, openIdx, "{", 0);
    ProgramScans(text, letter, openIdx, ls, 0);
    ClosingFinds(ls, 0, openIdx);
    r := ExtractBody(text, openIdx, letter);
    ghost var close := CloseFrom(text, openIdx, Code, 0, letter);
    if close != -1 {
      ghost var b: nat :| FirstCloses(ls, 0, openIdx, b, close);
      BetweenBraces(text, letter, openIdx, ls, b, close);
      ghost var inner := text[openIdx + 1..close];
      assert inner[0..] == inner;
      ProgramScans(inner, letter, 0, ls[1..b], 0);
    }
  }
}
