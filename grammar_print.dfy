/**
 * A printer for grammars in the DSL, and the proof that parsing what it prints
 * gives back the productions, folded into the same grammar map.
 *
 * Not every token can be written down: an identifier that starts with
 * `Nothing` is read back as the keyword followed by the rest, a string or
 * pattern that ends with a backslash would escape its own closing quote, an
 * empty hex block or pattern has no syntax, and a pattern that does not
 * compile is rejected. `ValidToken` excludes exactly these, and the parser
 * never produces them, so every grammar it accepts can be printed and read
 * back (`ParsedGrammarRoundTrip`).
 */
module GrammarPrint {
  import opened Primitives
  import opened GrammarParser
  import opened GrammarFacts

  // ---------------------------------------------------------------------------
  // Printing

  /** Escapes every quote as `\"`, the only escape of the DSL. */
  function Escape(x: string): (e: string)
    ensures |e| >= |x|
    ensures x != [] ==> e[0] == (if x[0] == '"' then '\\' else x[0])
  {
    if x == [] then []
    else (if x[0] == '"' then "\\\"" else [x[0]]) + Escape(x[1..])
  }

  function Quote(x: string): string {
    "\"" + Escape(x) + "\""
  }

  function HexChar(v: nat): (c: char)
    requires v < 16
    ensures IsHexDigit(c) && HexDigitValue(c) == v
  {
    if v < 10 then ('0' as int + v) as char else ('a' as int + v - 10) as char
  }

  /** Two lower-case hex digits per byte, high nibble first. */
  function EncodeHex(b: seq<byte>): (d: string)
    ensures |d| == 2 * |b| && AllHex(d)
  {
    if b == [] then []
    else [HexChar(b[0] as int / 16), HexChar(b[0] as int % 16)] + EncodeHex(b[1..])
  }

  function DigitChar(v: nat): (c: char)
    requires v < 10
    ensures IsDigit(c) && DigitValue(c) == v
  {
    ('0' as int + v) as char
  }

  /** The decimal digits of `n`, without leading zeros. */
  function Decimal(n: nat): (d: string)
    ensures |d| > 0 && AllDigits(d)
  {
    if n < 10 then [DigitChar(n)] else Decimal(n / 10) + [DigitChar(n % 10)]
  }

  function PrintToken(t: Token): string {
    match t
    case Identifier(n) => n
    case Str(x) => if x == [] then "Nothing" else Quote(x)
    case Hex(b) => "0x" + EncodeHex(b)
    case Regex(p, n) => "re(" + (Quote(p) + (", " + (Decimal(n as nat) + ")")))
  }

  /** Each further token of a right-hand side, preceded by a space. */
  function PrintTail(ts: seq<Token>): string {
    if ts == [] then [] else " " + (PrintToken(ts[0]) + PrintTail(ts[1..]))
  }

  /** The tokens of an alternative, separated by single spaces. */
  function PrintRhs(ts: ProductionRhs): string {
    if ts == [] then [] else PrintToken(ts[0]) + PrintTail(ts[1..])
  }

  /** The alternatives after the first, each as `| alt `. */
  function PrintMore(alts: seq<ProductionRhs>): string {
    if alts == [] then [] else "| " + (PrintRhs(alts[0]) + (" " + PrintMore(alts[1..])))
  }

  /** `-> alt | alt ;` */
  function PrintAlternatives(alts: seq<ProductionRhs>): string {
    var first := if alts == [] then [] else alts[0];
    var more := if alts == [] then [] else alts[1..];
    "-> " + (PrintRhs(first) + (" " + (PrintMore(more) + ";")))
  }

  /** `name -> alt | alt ;` and a line break. */
  function PrintProduction(p: Production): string {
    p.lhs + (" " + (PrintAlternatives(p.rhs) + "\n"))
  }

  function PrintProductions(ps: seq<Production>): string {
    if ps == [] then [] else PrintProduction(ps[0]) + PrintProductions(ps[1..])
  }

  // ---------------------------------------------------------------------------
  // Round trips of the lexical pieces

  /** Decoding undoes encoding. */
  lemma {:induction false} DecodeEncodeHex(b: seq<byte>)
    ensures DecodeHex(EncodeHex(b)) == b
  {
    if b != [] {
      var d := EncodeHex(b);
      assert d[2..] == EncodeHex(b[1..]);
      DecodeEncodeHex(b[1..]);
    }
  }

  /** The value of the printed digits is the number. */
  lemma {:induction false} DecimalValueOf(n: nat)
    ensures DecimalValue(Decimal(n)) == n
  {
    if n >= 10 {
      var d := Decimal(n);
      assert d[..|d| - 1] == Decimal(n / 10);
      DecimalValueOf(n / 10);
    }
  }

  /** A `0x` block of an even, non-zero number of hex digits is read up to its end. */
  lemma HexBlock(d: string, rest: string)
    requires d != [] && |d| % 2 == 0 && AllHex(d)
    requires rest == [] || !IsHexDigit(rest[0])
    ensures ParseHexString("0x" + (d + rest)) == Some((DecodeHex(d), rest))
  {
    var s := "0x" + (d + rest);
    assert s[..2] == "0x" && s[2..] == d + rest;
    HexBlockAt(s, d, rest);
  }

  lemma HexBlockAt(s: string, d: string, rest: string)
    requires d != [] && |d| % 2 == 0 && AllHex(d)
    requires rest == [] || !IsHexDigit(rest[0])
    requires StartsWith(s, "0x") && s[2..] == d + rest
    ensures ParseHexString(s) == Some((DecodeHex(d), rest))
  {
    SpanConcat(IsHexDigit, d, rest);
    var n := Span(IsHexDigit, s[2..]);
    var t := s[2..];
    assert t[..n] == d && t[n..] == rest;
    assert s[2..2 + n] == d && s[2 + n..] == rest;
    assert ParseHexString(s) == Some((DecodeHex(s[2..2 + n]), s[2 + n..]));
  }

  lemma NumberRoundTrip(n: u32, rest: string)
    requires rest == [] || !IsDigit(rest[0])
    ensures ParseNumber(Decimal(n as nat) + rest) == Some((n, rest))
  {
    var d := Decimal(n as nat);
    SpanConcat(IsDigit, d, rest);
    assert (d + rest)[..|d|] == d && (d + rest)[|d|..] == rest;
    DecimalValueOf(n as nat);
  }

  /** The escape `\"` stands for a quote. */
  lemma EscapedQuote(s': string)
    ensures ParseStringChar("\\\"" + s') == Some(('"', s'))
  {
    var s := "\\\"" + s';
    assert s[..2] == "\\\"" && s[2..] == s';
  }

  /** Any other character stands for itself, unless it is a backslash before a quote. */
  lemma PlainChar(c: char, s': string)
    requires c != '"' && (c != '\\' || s' == [] || s'[0] != '"')
    ensures ParseStringChar([c] + s') == Some((c, s'))
  {
    var s := [c] + s';
    assert s[0] == c && s[1..] == s';
    if |s| >= 2 {
      assert s[..2][0] == c && s[..2][1] == s'[0];
    }
  }

  lemma StringCharsStep(s: string, x: string, s': string, rest: string)
    requires x != []
    requires ParseStringChar(s) == Some((x[0], s'))
    requires StringChars(s') == (x[1..], rest)
    ensures StringChars(s) == (x, rest)
  {
    HeadTail(x);
  }

  /** The first character of an escaped text is read back as such. */
  lemma FirstEscapedChar(x: string, tail: string)
    requires x != [] && NoTrailingBackslash(x)
    ensures ParseStringChar(Escape(x) + ("\"" + tail)) == Some((x[0], Escape(x[1..]) + ("\"" + tail)))
  {
    if x[0] == '"' {
      FirstEscapedQuote(x, tail);
    } else {
      FirstPlainChar(x, tail);
    }
  }

  lemma FirstEscapedQuote(x: string, tail: string)
    requires x != [] && x[0] == '"'
    ensures ParseStringChar(Escape(x) + ("\"" + tail)) == Some((x[0], Escape(x[1..]) + ("\"" + tail)))
  {
    var s' := Escape(x[1..]) + ("\"" + tail);
    assert Escape(x) == "\\\"" + Escape(x[1..]);
    assert Escape(x) + ("\"" + tail) == "\\\"" + s';
    EscapedQuote(s');
  }

  /** What follows the first character of an escaped text is never a quote, unless it is the closing one. */
  lemma AfterFirst(x: string, tail: string)
    requires x != [] && NoTrailingBackslash(x)
    ensures var s' := Escape(x[1..]) + ("\"" + tail);
      s' != [] && (s'[0] != '"' || x[0] != '\\')
  {
    var s' := Escape(x[1..]) + ("\"" + tail);
    if x[1..] == [] {
      assert x[|x| - 1] == x[0];
    } else {
      assert s'[0] == Escape(x[1..])[0];
    }
  }

  lemma FirstPlainChar(x: string, tail: string)
    requires x != [] && x[0] != '"' && NoTrailingBackslash(x)
    ensures ParseStringChar(Escape(x) + ("\"" + tail)) == Some((x[0], Escape(x[1..]) + ("\"" + tail)))
  {
    var s' := Escape(x[1..]) + ("\"" + tail);
    assert Escape(x) + ("\"" + tail) == [x[0]] + s';
    AfterFirst(x, tail);
    PlainChar(x[0], s');
  }

  /** Reading the escaped text of `x` stops exactly at the closing quote. */
  lemma {:induction false} StringCharsRoundTrip(x: string, tail: string)
    requires NoTrailingBackslash(x)
    ensures StringChars(Escape(x) + ("\"" + tail)) == (x, "\"" + tail)
  {
    if x == [] {
      assert Escape(x) + ("\"" + tail) == "\"" + tail;
    } else {
      var s' := Escape(x[1..]) + ("\"" + tail);
      assert NoTrailingBackslash(x[1..]);
      StringCharsRoundTrip(x[1..], tail);
      FirstEscapedChar(x, tail);
      StringCharsStep(Escape(x) + ("\"" + tail), x, s', "\"" + tail);
    }
  }

  lemma StringRoundTrip(x: string, rest: string)
    requires x != [] && NoTrailingBackslash(x)
    ensures ParseString(Quote(x) + rest) == Some((x, rest))
  {
    var s := Quote(x) + rest;
    assert s[1..] == Escape(x) + ("\"" + rest);
    StringCharsRoundTrip(x, rest);
    assert ("\"" + rest)[1..] == rest;
  }

  // ---------------------------------------------------------------------------
  // Tokens

  /**
   * What follows a printed token: a space, then something that can neither
   * extend the token nor open the parenthesis of `re(`.
   */
  predicate TokenEnd(rest: string) {
    |rest| >= 2 && rest[0] == ' ' && !IsWs(rest[1]) && rest[1] != '('
  }

  lemma SkipOneSpace(rest: string)
    requires |rest| >= 1 && rest[0] == ' ' && (|rest| == 1 || !IsWs(rest[1]))
    ensures SkipWs(rest) == rest[1..]
  {
    SkipWsConcat(" ", rest[1..]);
    assert " " + rest[1..] == rest;
  }

  lemma IdentifierNotNothing(n: string, rest: string)
    requires IsIdentifier(n) && !StartsWith(n, "Nothing") && TokenEnd(rest)
    ensures !StartsWith(n + rest, "Nothing")
  {
    var s := n + rest;
    if |n| >= 7 {
      assert s[..7] == n[..7];
    } else if |s| >= 7 {
      assert s[..7][|n|] == ' ';
    }
  }

  lemma IdentifierNotRegex(n: string, rest: string, compiles: Compiler)
    requires IsIdentifier(n) && TokenEnd(rest)
    ensures ParseRegex(n + rest, compiles) == None
  {
    var s := n + rest;
    if |n| >= 3 {
      assert s[2..][0] == n[2];
      SkipWsNone(s[2..]);
    } else if |n| == 2 {
      assert s[2..] == rest;
      SkipOneSpace(rest);
    } else {
      assert s[..2][1] == ' ';
    }
  }

  lemma IdentifierTokenRoundTrip(n: string, rest: string, compiles: Compiler)
    requires IsIdentifier(n) && !StartsWith(n, "Nothing")
    requires TokenEnd(rest)
    ensures ParseToken(n + rest, compiles) == Some((Identifier(n), rest))
  {
    IdentifierNotNothing(n, rest);
    IdentifierNotRegex(n, rest, compiles);
    IdentifierExact(n, rest);
    IdentifierToken(n + rest, compiles);
  }

  lemma StrTokenRoundTrip(x: string, rest: string, compiles: Compiler)
    requires NoTrailingBackslash(x)
    ensures ParseToken(PrintToken(Str(x)) + rest, compiles) == Some((Str(x), rest))
  {
    var s := PrintToken(Str(x)) + rest;
    if x == [] {
      assert s[..7] == "Nothing" && s[7..] == rest;
    } else {
      assert s == Quote(x) + rest && s[0] == '"';
      StringRoundTrip(x, rest);
      StringToken(s, compiles);
    }
  }

  /** A `0x` block followed by a token separator is a hex token. */
  lemma HexBlockToken(d: string, rest: string, compiles: Compiler)
    requires d != [] && |d| % 2 == 0 && AllHex(d) && TokenEnd(rest)
    ensures ParseToken("0x" + (d + rest), compiles) == Some((Hex(DecodeHex(d)), rest))
  {
    HexBlock(d, rest);
    HexToken("0x" + (d + rest), compiles);
  }

  lemma HexTokenRoundTrip(b: seq<byte>, rest: string, compiles: Compiler)
    requires b != [] && TokenEnd(rest)
    ensures ParseToken(PrintToken(Hex(b)) + rest, compiles) == Some((Hex(b), rest))
  {
    var d := EncodeHex(b);
    assert PrintToken(Hex(b)) + rest == "0x" + (d + rest);
    DecodeEncodeHex(b);
    HexBlockToken(d, rest, compiles);
  }

  /** `re(` and a quoted pattern, up to what follows the closing quote. */
  lemma RegexOpenRoundTrip(p: string, after: string)
    requires p != [] && NoTrailingBackslash(p)
    requires after == [] || !IsWs(after[0])
    ensures RegexOpen("re(" + (Quote(p) + after)) == Some((p, after))
  {
    var s := "re(" + (Quote(p) + after);
    assert s[..2] == "re";
    assert s[2..] == "(" + (Quote(p) + after);
    StringRoundTrip(p, after);
    RegexOpenParts(s, Quote(p) + after, p, after);
  }

  /** Rule regex up to its pattern, over `re` `(` and a string literal with nothing between them. */
  lemma RegexOpenParts(s: string, q: string, p: string, after: string)
    requires StartsWith(s, "re") && s[2..] == "(" + q
    requires q != [] && q[0] == '"' && ParseString(q) == Some((p, after))
    requires after == [] || !IsWs(after[0])
    ensures RegexOpen(s) == Some((p, after))
  {
    var a := s[2..];
    SkipWsNone(a);
    assert a[1..] == q;
    SkipWsNone(q);
    SkipWsNone(after);
  }

  /** `, N)` gives the bound N. */
  lemma RegexBoundRoundTrip(n: u32, rest: string)
    ensures RegexBound(", " + (Decimal(n as nat) + (")" + rest))) == Some((n, rest))
  {
    var d := Decimal(n as nat);
    var a := ", " + (d + (")" + rest));
    assert a[1..] == " " + (d + (")" + rest));
    SkipWsConcat(" ", d + (")" + rest));
    NumberRoundTrip(n, ")" + rest);
    SkipWsNone(")" + rest);
  }

  lemma RegexRoundTrip(p: string, n: u32, rest: string, compiles: Compiler)
    requires p != [] && NoTrailingBackslash(p) && compiles(p)
    ensures ParseRegex("re(" + (Quote(p) + (", " + (Decimal(n as nat) + (")" + rest)))), compiles)
      == Some(((p, n), rest))
  {
    var after := ", " + (Decimal(n as nat) + (")" + rest));
    RegexOpenRoundTrip(p, after);
    RegexBoundRoundTrip(n, rest);
  }

  /** `re("p")` gets the default bound 100. */
  lemma RegexDefaultBound(p: string, rest: string, compiles: Compiler)
    requires p != [] && NoTrailingBackslash(p) && compiles(p)
    ensures ParseRegex("re(" + (Quote(p) + (")" + rest)), compiles) == Some(((p, DefaultRegexBound), rest))
  {
    RegexOpenRoundTrip(p, ")" + rest);
    assert RegexBound(")" + rest) == None;
    assert (")" + rest)[1..] == rest;
  }

  /**
   * A pattern that does not compile makes both alternatives of rule regex
   * fail; rule token then reads the identifier `re`, and what follows it,
   * starting with `(`, is no token at all.
   */
  lemma RegexNotCompiling(p: string, rest: string, compiles: Compiler)
    requires p != [] && NoTrailingBackslash(p) && !compiles(p)
    ensures var s := "re(" + (Quote(p) + (")" + rest));
      ParseRegex(s, compiles) == None &&
      ParseToken(s, compiles) == Some((Identifier("re"), s[2..])) &&
      ParseToken(s[2..], compiles) == None
  {
    var s := "re(" + (Quote(p) + (")" + rest));
    RegexOpenRoundTrip(p, ")" + rest);
    assert s == "re" + s[2..] && s[2..][0] == '(';
    NotStartsWith(s, "Nothing");
    IdentifierExact("re", s[2..]);
    IdentifierToken(s, compiles);
    TokenValid(s[2..], compiles);
  }

  lemma PrintRegexShape(p: string, n: u32, rest: string)
    ensures PrintToken(Regex(p, n)) + rest == "re(" + (Quote(p) + (", " + (Decimal(n as nat) + (")" + rest))))
  {
  }

  lemma RegexTokenRoundTrip(p: string, n: u32, rest: string, compiles: Compiler)
    requires p != [] && NoTrailingBackslash(p) && compiles(p)
    ensures ParseToken(PrintToken(Regex(p, n)) + rest, compiles) == Some((Regex(p, n), rest))
  {
    var s := PrintToken(Regex(p, n)) + rest;
    PrintRegexShape(p, n, rest);
    RegexRoundTrip(p, n, rest, compiles);
    RegexBeforeIdentifier(s, compiles);
  }

  /** Parsing a printable token followed by a separator gives the token back. */
  lemma TokenRoundTrip(t: Token, rest: string, compiles: Compiler)
    requires ValidToken(t, compiles) && TokenEnd(rest)
    ensures ParseToken(PrintToken(t) + rest, compiles) == Some((t, rest))
  {
    match t
    case Identifier(n) => IdentifierTokenRoundTrip(n, rest, compiles);
    case Str(x) => StrTokenRoundTrip(x, rest, compiles);
    case Hex(b) => HexTokenRoundTrip(b, rest, compiles);
    case Regex(p, n) => RegexTokenRoundTrip(p, n, rest, compiles);
  }

  /** A printed token starts with a character that can begin a token. */
  lemma PrintTokenStart(t: Token, compiles: Compiler)
    requires ValidToken(t, compiles)
    ensures PrintToken(t) != []
    ensures IsIdentStart(PrintToken(t)[0]) || PrintToken(t)[0] == '"' || PrintToken(t)[0] == '0'
  {
    match t
    case Identifier(n) =>
    case Str(x) =>
      if x != [] { assert PrintToken(t)[0] == Quote(x)[0]; }
    case Hex(b) =>
    case Regex(p, n) =>
  }

  // ---------------------------------------------------------------------------
  // Right-hand sides and productions

  /** `rest` starts with a space and then `|` or `;`: a right-hand side ends there. */
  predicate RhsEnd(rest: string) {
    |rest| >= 2 && rest[0] == ' ' && (rest[1] == '|' || rest[1] == ';')
  }

  lemma PrintTailCons(ts: seq<Token>, rest: string)
    requires ts != []
    ensures PrintTail(ts) + rest == " " + (PrintToken(ts[0]) + (PrintTail(ts[1..]) + rest))
  {
  }

  /** After every token of a printed right-hand side comes a token separator. */
  lemma TailEnd(ts: seq<Token>, rest: string, compiles: Compiler)
    requires forall t :: t in ts ==> ValidToken(t, compiles)
    requires RhsEnd(rest)
    ensures TokenEnd(PrintTail(ts) + rest)
  {
    if ts == [] {
      assert PrintTail(ts) + rest == rest;
    } else {
      PrintTailCons(ts, rest);
      assert ts[0] in ts;
      PrintTokenStart(ts[0], compiles);
    }
  }

  /** Nothing that starts with `|` or `;` is a token. */
  lemma NoTokenAtSeparator(x: string, compiles: Compiler)
    requires x != [] && (x[0] == '|' || x[0] == ';')
    ensures ParseToken(x, compiles) == None
  {
    TokenValid(x, compiles);
  }

  /** A right-hand side ends where ` |` or ` ;` follows. */
  lemma RhsTailStop(rest: string, compiles: Compiler)
    requires RhsEnd(rest)
    ensures RhsTail(rest, compiles) == ([], rest)
  {
    SkipOneSpace(rest);
    NoTokenAtSeparator(rest[1..], compiles);
  }

  lemma RhsTailStep(s: string, ts: seq<Token>, tail: string, rest: string, compiles: Compiler)
    requires ts != []
    requires ParseToken(SkipWs(s), compiles) == Some((ts[0], tail))
    requires RhsTail(tail, compiles) == (ts[1..], rest)
    ensures RhsTail(s, compiles) == (ts, rest)
  {
    HeadTail(ts);
  }

  /** A printed token after a single space. */
  lemma SpacedToken(t: Token, tail: string, compiles: Compiler)
    requires ValidToken(t, compiles) && TokenEnd(tail)
    ensures ParseToken(SkipWs(" " + (PrintToken(t) + tail)), compiles) == Some((t, tail))
  {
    PrintTokenStart(t, compiles);
    assert (PrintToken(t) + tail)[0] == PrintToken(t)[0];
    SkipWsConcat(" ", PrintToken(t) + tail);
    TokenRoundTrip(t, tail, compiles);
  }

  lemma {:induction false} RhsTailRoundTrip(ts: seq<Token>, rest: string, compiles: Compiler)
    requires forall t :: t in ts ==> ValidToken(t, compiles)
    requires RhsEnd(rest)
    ensures RhsTail(PrintTail(ts) + rest, compiles) == (ts, rest)
  {
    if ts == [] {
      assert PrintTail(ts) + rest == rest;
      RhsTailStop(rest, compiles);
    } else {
      var tail := PrintTail(ts[1..]) + rest;
      PrintTailCons(ts, rest);
      assert forall u :: u in ts[1..] ==> u in ts;
      TailEnd(ts[1..], rest, compiles);
      assert ts[0] in ts;
      SpacedToken(ts[0], tail, compiles);
      RhsTailRoundTrip(ts[1..], rest, compiles);
      RhsTailStep(PrintTail(ts) + rest, ts, tail, rest, compiles);
    }
  }

  /** Rule rhs in two steps: a first token, then the rest of the tokens. */
  lemma RhsStep(s: string, ts: seq<Token>, tail: string, rest: string, compiles: Compiler)
    requires ts != []
    requires ParseToken(s, compiles) == Some((ts[0], tail))
    requires RhsTail(tail, compiles) == (ts[1..], rest)
    ensures ParseRhs(s, compiles) == Some((ts, rest))
  {
    HeadTail(ts);
  }

  lemma RhsRoundTrip(ts: ProductionRhs, rest: string, compiles: Compiler)
    requires ValidRhs(ts, compiles) && RhsEnd(rest)
    ensures ParseRhs(PrintRhs(ts) + rest, compiles) == Some((ts, rest))
  {
    var tail := PrintTail(ts[1..]) + rest;
    assert PrintRhs(ts) + rest == PrintToken(ts[0]) + tail;
    assert forall u :: u in ts[1..] ==> u in ts;
    TailEnd(ts[1..], rest, compiles);
    assert ts[0] in ts;
    TokenRoundTrip(ts[0], tail, compiles);
    RhsTailRoundTrip(ts[1..], rest, compiles);
    RhsStep(PrintRhs(ts) + rest, ts, tail, rest, compiles);
  }

  /** A printed right-hand side starts with the first character of its first token. */
  lemma PrintRhsStart(ts: ProductionRhs, compiles: Compiler)
    requires ValidRhs(ts, compiles)
    ensures PrintRhs(ts) != [] && !IsWs(PrintRhs(ts)[0])
  {
    assert ts[0] in ts;
    PrintTokenStart(ts[0], compiles);
    assert PrintRhs(ts)[0] == PrintToken(ts[0])[0];
  }

  lemma PrintMoreStart(alts: seq<ProductionRhs>, tail: string)
    ensures (PrintMore(alts) + (";" + tail))[0] == (if alts == [] then ';' else '|')
  {
  }

  lemma HeadTail<T>(xs: seq<T>)
    requires xs != []
    ensures [xs[0]] + xs[1..] == xs
  {
  }

  lemma DropFirst(c: string, tail: string)
    requires |c| == 1
    ensures (c + tail)[1..] == tail
  {
  }

  // The rules above as single steps, so that each round trip below only
  // has to supply the pieces.

  lemma MoreRhsStep(s: string, alt: ProductionRhs, b: string, compiles: Compiler)
    requires SkipWs(s) != [] && SkipWs(s)[0] == '|'
    requires ParseRhs(SkipWs(SkipWs(s)[1..]), compiles) == Some((alt, b))
    ensures ParseMoreRhs(s, compiles) == Some((alt, SkipWs(b)))
  {
  }

  lemma MoreRhsStarCons(s: string, alts: seq<ProductionRhs>, after: string, rest: string, compiles: Compiler)
    requires alts != []
    requires ParseMoreRhs(s, compiles) == Some((alts[0], after))
    requires MoreRhsStar(after, compiles) == (alts[1..], rest)
    ensures MoreRhsStar(s, compiles) == (alts, rest)
  {
    HeadTail(alts);
  }

  lemma AlternativesStep(s: string, alts: seq<ProductionRhs>, d: string, tail: string, compiles: Compiler)
    requires StartsWith(s, "->") && alts != []
    requires ParseRhs(SkipWs(s[2..]), compiles) == Some((alts[0], d))
    requires MoreRhsStar(SkipWs(d), compiles) == (alts[1..], ";" + tail)
    ensures ParseAlternatives(s, compiles) == Some((alts, tail))
  {
    HeadTail(alts);
    DropFirst(";", tail);
  }

  lemma ProductionStep(s: string, name: string, b: string, alts: seq<ProductionRhs>, e: string, rest: string, compiles: Compiler)
    requires ParseIdentifier(SkipWs(s)) == Some((name, b))
    requires ParseAlternatives(SkipWs(b), compiles) == Some((alts, e))
    requires SkipWs(e) == rest
    ensures ParseProduction(s, compiles) == Some((Production(name, alts), rest))
  {
  }

  lemma ProductionStarCons(s: string, ps: seq<Production>, after: string, rest: string, compiles: Compiler)
    requires ps != []
    requires ParseProduction(s, compiles) == Some((ps[0], after))
    requires ProductionStar(after, compiles) == (ps[1..], rest)
    ensures ProductionStar(s, compiles) == (ps, rest)
  {
    HeadTail(ps);
  }

  lemma MoreRhsOnce(alt: ProductionRhs, after: string, compiles: Compiler)
    requires ValidRhs(alt, compiles)
    requires after != [] && (after[0] == '|' || after[0] == ';')
    ensures ParseMoreRhs("| " + (PrintRhs(alt) + (" " + after)), compiles) == Some((alt, after))
  {
    var body := PrintRhs(alt) + (" " + after);
    var s := "| " + body;
    assert s[1..] == " " + body;
    SeparatedRhs(alt, after, compiles);
    MoreRhsStep(s, alt, " " + after, compiles);
  }

  /**
   * A printed alternative preceded by a space is skipped to, read in full, and
   * the space after it is skipped as well.
   */
  lemma SeparatedRhs(alt: ProductionRhs, after: string, compiles: Compiler)
    requires ValidRhs(alt, compiles)
    requires after != [] && (after[0] == '|' || after[0] == ';')
    ensures SkipWs(" " + (PrintRhs(alt) + (" " + after))) == PrintRhs(alt) + (" " + after)
    ensures ParseRhs(PrintRhs(alt) + (" " + after), compiles) == Some((alt, " " + after))
    ensures SkipWs(" " + after) == after
  {
    var body := PrintRhs(alt) + (" " + after);
    PrintRhsStart(alt, compiles);
    assert body[0] == PrintRhs(alt)[0];
    SkipWsConcat(" ", body);
    RhsRoundTrip(alt, " " + after, compiles);
    SkipWsConcat(" ", after);
  }

  /** After the last alternative comes `;`, which ends `more_rhs()*`. */
  lemma MoreRhsStop(tail: string, compiles: Compiler)
    ensures MoreRhsStar(";" + tail, compiles) == ([], ";" + tail)
  {
    var s := ";" + tail;
    assert s[0] == ';';
    assert ParseMoreRhs(s, compiles) == None;
  }

  lemma PrintMoreCons(alts: seq<ProductionRhs>, x: string)
    requires alts != []
    ensures PrintMore(alts) + x == "| " + (PrintRhs(alts[0]) + (" " + (PrintMore(alts[1..]) + x)))
  {
  }

  /** `PrintMore(alts)` is read back by `more_rhs()*`, which stops at the `;`. */
  lemma {:induction false} MoreRhsRoundTrip(alts: seq<ProductionRhs>, tail: string, compiles: Compiler)
    requires forall alt :: alt in alts ==> ValidRhs(alt, compiles)
    ensures MoreRhsStar(PrintMore(alts) + (";" + tail), compiles) == (alts, ";" + tail)
  {
    if alts == [] {
      assert PrintMore(alts) + (";" + tail) == ";" + tail;
      MoreRhsStop(tail, compiles);
    } else {
      var after := PrintMore(alts[1..]) + (";" + tail);
      PrintMoreCons(alts, ";" + tail);
      PrintMoreStart(alts[1..], tail);
      assert alts[0] in alts;
      MoreRhsOnce(alts[0], after, compiles);
      assert forall a :: a in alts[1..] ==> a in alts;
      MoreRhsRoundTrip(alts[1..], tail, compiles);
      MoreRhsStarCons(PrintMore(alts) + (";" + tail), alts, after, ";" + tail, compiles);
    }
  }

  lemma PrintAlternativesShape(alts: seq<ProductionRhs>, tail: string)
    requires alts != []
    ensures PrintAlternatives(alts) + tail
      == "->" + (" " + (PrintRhs(alts[0]) + (" " + (PrintMore(alts[1..]) + (";" + tail)))))
  {
  }

  /** The arrow and the whitespace after it, up to the first alternative. */
  lemma ArrowOpen(body: string)
    requires body != [] && !IsWs(body[0])
    ensures StartsWith("->" + (" " + body), "->")
    ensures SkipWs(("->" + (" " + body))[2..]) == body
  {
    var s := "->" + (" " + body);
    assert s[..2] == "->" && s[2..] == " " + body;
    SkipWsConcat(" ", body);
  }

  /** `-> alt | alt ;` is read back by the alternatives part of rule production. */
  lemma AlternativesRoundTrip(alts: seq<ProductionRhs>, tail: string, compiles: Compiler)
    requires alts != [] && forall alt :: alt in alts ==> ValidRhs(alt, compiles)
    ensures ParseAlternatives(PrintAlternatives(alts) + tail, compiles) == Some((alts, tail))
  {
    var after := PrintMore(alts[1..]) + (";" + tail);
    var body := PrintRhs(alts[0]) + (" " + after);
    var s := PrintAlternatives(alts) + tail;
    PrintAlternativesShape(alts, tail);
    assert alts[0] in alts;
    PrintMoreStart(alts[1..], tail);
    SeparatedRhs(alts[0], after, compiles);
    ArrowOpen(body);
    assert forall a :: a in alts[1..] ==> a in alts;
    MoreRhsRoundTrip(alts[1..], tail, compiles);
    AlternativesStep(s, alts, " " + after, tail, compiles);
  }

  /** The name of a production, up to the arrow. */
  /** Rule production over a name, a space, the alternatives and a newline. */
  lemma ProductionParts(name: string, a: string, alts: seq<ProductionRhs>, tail: string, compiles: Compiler)
    requires IsIdentifier(name) && a != [] && a[0] == '-'
    requires ParseAlternatives(a + ("\n" + tail), compiles) == Some((alts, "\n" + tail))
    requires tail == [] || IsIdentStart(tail[0])
    ensures ParseProduction(name + (" " + (a + ("\n" + tail))), compiles) == Some((Production(name, alts), tail))
  {
    var b := a + ("\n" + tail);
    var s := name + (" " + b);
    assert s[0] == name[0];
    SkipWsNone(s);
    IdentifierExact(name, " " + b);
    assert b[0] == '-';
    SkipWsConcat(" ", b);
    SkipWsConcat("\n", tail);
    ProductionStep(s, name, " " + b, alts, "\n" + tail, tail, compiles);
  }

  lemma ProductionRoundTrip(p: Production, tail: string, compiles: Compiler)
    requires ValidProduction(p, compiles)
    requires tail == [] || IsIdentStart(tail[0])
    ensures ParseProduction(PrintProduction(p) + tail, compiles) == Some((p, tail))
  {
    var a := PrintAlternatives(p.rhs);
    assert PrintProduction(p) + tail == p.lhs + (" " + (a + ("\n" + tail)));
    AlternativesRoundTrip(p.rhs, "\n" + tail, compiles);
    ProductionParts(p.lhs, a, p.rhs, tail, compiles);
  }

  lemma PrintProductionStart(p: Production)
    requires IsIdentifier(p.lhs)
    ensures PrintProduction(p) != [] && PrintProduction(p)[0] == p.lhs[0]
  {
  }

  /** What follows a printed production: nothing, or the next production's name. */
  lemma NextProductionStart(ps: seq<Production>, compiles: Compiler)
    requires forall p :: p in ps ==> ValidProduction(p, compiles)
    ensures PrintProductions(ps) == [] || IsIdentStart(PrintProductions(ps)[0])
  {
    if ps != [] {
      assert ps[0] in ps;
      PrintProductionStart(ps[0]);
      assert PrintProductions(ps)[0] == PrintProduction(ps[0])[0];
    }
  }

  lemma NoProductionInEmpty(compiles: Compiler)
    ensures ProductionStar([], compiles) == ([], [])
  {
    assert ParseProduction([], compiles) == None;
  }

  lemma {:induction false} ProductionsRoundTrip(ps: seq<Production>, compiles: Compiler)
    requires forall p :: p in ps ==> ValidProduction(p, compiles)
    ensures ProductionStar(PrintProductions(ps), compiles) == (ps, [])
  {
    if ps == [] {
      NoProductionInEmpty(compiles);
    } else {
      var tail := PrintProductions(ps[1..]);
      assert forall p :: p in ps[1..] ==> p in ps;
      NextProductionStart(ps[1..], compiles);
      assert ps[0] in ps;
      ProductionRoundTrip(ps[0], tail, compiles);
      ProductionsRoundTrip(ps[1..], compiles);
      ProductionStarCons(PrintProductions(ps), ps, tail, [], compiles);
    }
  }

  /**
   * Parsing the printed form of a non-empty list of printable productions
   * gives the grammar those productions fold into.
   */
  lemma GrammarRoundTrip(ps: seq<Production>, compiles: Compiler)
    requires ps != []
    requires forall p :: p in ps ==> ValidProduction(p, compiles)
    ensures ParseGrammar(PrintProductions(ps), compiles) == Some(Fold(ps))
  {
    ProductionsRoundTrip(ps, compiles);
  }

  /**
   * Every grammar text the parser accepts can be printed from its productions,
   * and the printed text parses to the same grammar.
   */
  lemma ParsedGrammarRoundTrip(s: string, compiles: Compiler)
    requires ParseGrammar(s, compiles).Some?
    ensures ParseGrammar(PrintProductions(ProductionStar(s, compiles).0), compiles) == ParseGrammar(s, compiles)
  {
    ProductionStarValid(s, compiles);
    GrammarRoundTrip(ProductionStar(s, compiles).0, compiles);
  }
}
