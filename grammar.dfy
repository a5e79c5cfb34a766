/**
 * The grammar DSL of the fuzzer and its PEG parser (the `grammar_parser`
 * rules of src/grammar.rs).
 *
 * Every rule is a function from the remaining input to `Parse<T>`: `None` when
 * the rule fails, `Some((value, rest))` when it succeeds with `rest` left over.
 * Ordered choice tries its alternatives in source order; repetition (`*`, `+`,
 * `++`) is greedy and never backtracks into itself, as in a PEG.
 *
 * Regex compilation is a call into a foreign library; it is the parameter
 * `compiles`, which says whether a pattern compiles.
 */
module GrammarParser {
  import opened Primitives

  datatype Token =
    | Identifier(name: string)                // reference to another non-terminal
    | Str(text: string)                       // a quoted string, or `Nothing`
    | Hex(bytes: seq<byte>)                   // a `0x` hex block
    | Regex(pattern: string, bound: u32)      // `re("pattern")` or `re("pattern", N)`

  type ProductionRhs = seq<Token>

  datatype Production = Production(lhs: string, rhs: seq<ProductionRhs>)

  type Grammar = map<string, seq<ProductionRhs>>

  /** Whether the regex engine accepts a pattern. */
  type Compiler = string -> bool

  type Parse<T> = Option<(T, string)>

  /** The bound a `re("pattern")` token gets when none is written. */
  const DefaultRegexBound: u32 := 100

  // ---------------------------------------------------------------------------
  // Character classes and helpers

  predicate IsWs(c: char) { c == ' ' || c == '\r' || c == '\n' || c == '\t' }

  predicate IsHexDigit(c: char) { '0' <= c <= '9' || 'a' <= c <= 'f' || 'A' <= c <= 'F' }

  predicate IsDigit(c: char) { '0' <= c <= '9' }

  predicate IsIdentStart(c: char) { 'a' <= c <= 'z' || 'A' <= c <= 'Z' || c == '_' }

  predicate IsIdentChar(c: char) { IsIdentStart(c) || IsDigit(c) }

  /** `[a-zA-Z_][a-zA-Z0-9_]*` */
  predicate IsIdentifier(n: string) {
    |n| > 0 && IsIdentStart(n[0]) && forall i :: 1 <= i < |n| ==> IsIdentChar(n[i])
  }

  predicate StartsWith(s: string, prefix: string) {
    |prefix| <= |s| && s[..|prefix|] == prefix
  }

  lemma StartsWithHead(s: string, prefix: string)
    requires StartsWith(s, prefix) && prefix != []
    ensures s[0] == prefix[0]
  {
    assert s[..|prefix|][0] == s[0];
  }

  /** Length of the longest prefix of `s` whose characters all satisfy `p` (see SpanAll). */
  function Span(p: char -> bool, s: string): (n: nat)
    ensures n <= |s|
    ensures n == |s| || !p(s[n])
  {
    if s != [] && p(s[0]) then 1 + Span(p, s[1..]) else 0
  }

  /** Every character of the prefix `Span` measures satisfies `p`. */
  lemma {:induction false} SpanAll(p: char -> bool, s: string)
    ensures forall i :: 0 <= i < Span(p, s) ==> p(s[i])
  {
    if s != [] && p(s[0]) {
      SpanAll(p, s[1..]);
      assert forall i :: 1 <= i < Span(p, s) ==> s[i] == s[1..][i - 1];
    }
  }

  /** Rule `_`: skips space, tab, CR and LF, and nothing else. */
  function SkipWs(s: string): (r: string)
    ensures |r| <= |s|
    ensures r == [] || !IsWs(r[0])
  {
    if s != [] && IsWs(s[0]) then SkipWs(s[1..]) else s
  }

  /** Rule `_` drops exactly the leading run of whitespace: what it skips is all whitespace. */
  lemma {:induction false} SkipWsSkipsWhitespace(s: string)
    ensures SkipWs(s) == s[|s| - |SkipWs(s)|..]
    ensures forall i :: 0 <= i < |s| - |SkipWs(s)| ==> IsWs(s[i])
  {
    if s != [] && IsWs(s[0]) {
      SkipWsSkipsWhitespace(s[1..]);
    }
  }

  // ---------------------------------------------------------------------------
  // Rule hexstring

  function HexDigitValue(c: char): (v: nat)
    requires IsHexDigit(c)
    ensures v < 16
  {
    if '0' <= c <= '9' then c as int - '0' as int
    else if 'a' <= c <= 'f' then c as int - 'a' as int + 10
    else c as int - 'A' as int + 10
  }

  predicate AllHex(d: string) { forall i :: 0 <= i < |d| ==> IsHexDigit(d[i]) }

  /** Decodes pairs of hex digits into bytes, high nibble first (see DecodeHexAt). */
  function DecodeHex(d: string): (b: seq<byte>)
    requires |d| % 2 == 0 && AllHex(d)
    ensures |b| == |d| / 2
  {
    if d == [] then []
    else [(16 * HexDigitValue(d[0]) + HexDigitValue(d[1])) as byte] + DecodeHex(d[2..])
  }

  /** Byte i of a decoded hex block is 16 * digit(2i) + digit(2i + 1). */
  lemma {:induction false} DecodeHexAt(d: string, i: nat)
    requires |d| % 2 == 0 && AllHex(d) && i < |d| / 2
    ensures DecodeHex(d)[i] as int == 16 * HexDigitValue(d[2 * i]) + HexDigitValue(d[2 * i + 1])
  {
    if i > 0 {
      DecodeHexAt(d[2..], i - 1);
      assert d[2..][2 * (i - 1)] == d[2 * i] && d[2..][2 * (i - 1) + 1] == d[2 * i + 1];
    }
  }

  /** Rule hexstring: `0x` and a maximal run of hex digits, of even length. */
  function ParseHexString(s: string): (r: Parse<seq<byte>>)
    ensures r.Some? <==>
      StartsWith(s, "0x") && Span(IsHexDigit, s[2..]) > 0 && Span(IsHexDigit, s[2..]) % 2 == 0
    ensures r.Some? ==>
      |r.value.0| == Span(IsHexDigit, s[2..]) / 2 && r.value.1 == s[2 + Span(IsHexDigit, s[2..])..]
  {
    if !StartsWith(s, "0x") then None
    else
      var n := Span(IsHexDigit, s[2..]);
      if n == 0 then None
      else if n % 2 != 0 then None
      else
        SpanAll(IsHexDigit, s[2..]);
        assert s[2..2 + n] == s[2..][..n];
        Some((DecodeHex(s[2..2 + n]), s[2 + n..]))
  }

  // ---------------------------------------------------------------------------
  // Rules stringchar and string

  /** Rule stringchar: the escape `\"` gives a quote, any other non-quote character itself. */
  function ParseStringChar(s: string): (r: Parse<char>)
    ensures r.Some? <==> s != [] && s[0] != '"'
    ensures r.Some? && r.value.0 == '"' ==> StartsWith(s, "\\\"") && r.value.1 == s[2..]
    ensures r.Some? && r.value.0 != '"' ==> r.value.0 == s[0] && r.value.1 == s[1..]
    ensures StartsWith(s, "\\\"") ==> r == Some(('"', s[2..]))
    ensures s != [] && s[0] != '"' && !StartsWith(s, "\\\"") ==> r == Some((s[0], s[1..]))
  {
    if StartsWith(s, "\\\"") then Some(('"', s[2..]))
    else if s != [] && s[0] != '"' then Some((s[0], s[1..]))
    else None
  }

  /** `stringchar()*`: reads characters up to the first unescaped quote or the end. */
  function StringChars(s: string): (r: (string, string))
    ensures |r.1| <= |s| && (r.1 == [] || r.1[0] == '"')
    ensures r.0 == [] <==> r.1 == s
    ensures |r.1| + |r.0| <= |s|
    decreases |s|
  {
    match ParseStringChar(s)
    case None => ([], s)
    case Some((c, rest)) =>
      var (cs, rest') := StringChars(rest);
      ([c] + cs, rest')
  }

  /** What `stringchar()*` leaves is a suffix of its input. */
  lemma {:induction false} StringCharsSuffix(s: string)
    ensures StringChars(s).1 == s[|s| - |StringChars(s).1|..]
    decreases |s|
  {
    match ParseStringChar(s)
    case None =>
    case Some((c, rest)) =>
      StringCharsSuffix(rest);
  }

  predicate NoTrailingBackslash(x: string) {
    x == [] || x[|x| - 1] != '\\'
  }

  /**
   * Text read up to a closing quote never ends with a backslash: a backslash
   * right before a quote is read as the escape `\"` instead.
   */
  lemma {:induction false} StringCharsClosed(s: string)
    ensures StringChars(s).1 != [] ==> NoTrailingBackslash(StringChars(s).0)
    decreases |s|
  {
    match ParseStringChar(s)
    case None =>
    case Some((c, rest)) =>
      StringCharsClosed(rest);
      var (cs, rest') := StringChars(rest);
      if cs == [] {
        assert |s| >= 2 ==> s[..2] == [s[0], s[1]];
      } else {
        assert ([c] + cs)[|cs|] == cs[|cs| - 1];
      }
  }

  /** Rule string: a quote, one or more stringchars, a quote. */
  function ParseString(s: string): (r: Parse<string>)
    ensures r.Some? ==> |r.value.0| > 0 && s != [] && s[0] == '"' && |r.value.1| + 2 < |s|
    ensures r.Some? ==> var k := |s| - |r.value.1|; s[k - 1] == '"' && r.value.1 == s[k..]
    ensures r.Some? ==> NoTrailingBackslash(r.value.0)
  {
    if s == [] || s[0] != '"' then None
    else
      StringCharsClosed(s[1..]);
      StringCharsSuffix(s[1..]);
      var (cs, rest) := StringChars(s[1..]);
      if cs == [] then None
      else if rest == [] then None
      else Some((cs, rest[1..]))
  }

  // ---------------------------------------------------------------------------
  // Rules identifier and number

  /** Rule identifier: a letter or `_`, then a maximal run of letters, digits and `_`. */
  function ParseIdentifier(s: string): (r: Parse<string>)
    ensures r.Some? <==> s != [] && IsIdentStart(s[0])
    ensures r.Some? ==>
      IsIdentifier(r.value.0) && s == r.value.0 + r.value.1 &&
      (r.value.1 == [] || !IsIdentChar(r.value.1[0]))
  {
    if s != [] && IsIdentStart(s[0]) then
      var n := 1 + Span(IsIdentChar, s[1..]);
      SpanAll(IsIdentChar, s[1..]);
      assert forall i :: 1 <= i < n ==> s[..n][i] == s[1..][i - 1];
      Some((s[..n], s[n..]))
    else None
  }

  predicate AllDigits(d: string) { forall i :: 0 <= i < |d| ==> IsDigit(d[i]) }

  function DigitValue(c: char): (v: nat)
    requires IsDigit(c)
    ensures v < 10
  {
    c as int - '0' as int
  }

  /** The value of a string of decimal digits (empty: 0). */
  function DecimalValue(d: string): (v: nat)
    requires AllDigits(d)
  {
    if d == [] then 0 else 10 * DecimalValue(d[..|d| - 1]) + DigitValue(d[|d| - 1])
  }

  /**
   * Rule number: a maximal run of decimal digits read as a `u32`. A value that
   * does not fit in a `u32` makes the rule fail.
   */
  function ParseNumber(s: string): (r: Parse<u32>)
    ensures r.Some? ==> s != [] && IsDigit(s[0]) && |r.value.1| < |s|
    ensures r.Some? ==> r.value.1 == [] || !IsDigit(r.value.1[0])
  {
    var n := Span(IsDigit, s);
    if n == 0 then None
    else
      SpanAll(IsDigit, s);
      assert forall i :: 0 <= i < n ==> s[..n][i] == s[i];
      var v := DecimalValue(s[..n]);
      if v < 0x1_0000_0000 then Some((v as u32, s[n..])) else None
  }

  // ---------------------------------------------------------------------------
  // Rule regex

  /** The prefix both alternatives of rule regex share: `"re" _ "(" _ s:string() _`. */
  function RegexOpen(s: string): (r: Parse<string>)
    ensures r.Some? ==> StartsWith(s, "re") && |r.value.0| > 0 && |r.value.1| + 5 <= |s|
    ensures r.Some? ==> SkipWs(s[2..]) != [] && SkipWs(s[2..])[0] == '('
    ensures r.Some? ==> NoTrailingBackslash(r.value.0)
  {
    if !StartsWith(s, "re") then None
    else
      var a := SkipWs(s[2..]);
      if a == [] || a[0] != '(' then None
      else match ParseString(SkipWs(a[1..]))
        case None => None
        case Some((pattern, b)) => Some((pattern, SkipWs(b)))
  }

  /** The tail `"," _ size:number() _ ")"` of the first alternative of rule regex. */
  function RegexBound(a: string): (r: Parse<u32>)
    ensures r.Some? ==> |r.value.1| < |a|
  {
    if a == [] || a[0] != ',' then None
    else match ParseNumber(SkipWs(a[1..]))
      case None => None
      case Some((n, b)) =>
        var c := SkipWs(b);
        if c == [] || c[0] != ')' then None else Some((n, c[1..]))
  }

  /**
   * Rule regex: `re("p", N)` with bound N, else `re("p")` with bound 100; each
   * alternative fails when the pattern does not compile.
   */
  function ParseRegex(s: string, compiles: Compiler): (r: Parse<(string, u32)>)
    ensures r.Some? ==> compiles(r.value.0.0) && |r.value.0.0| > 0 && NoTrailingBackslash(r.value.0.0)
    ensures r.Some? ==> StartsWith(s, "re") && SkipWs(s[2..]) != [] && SkipWs(s[2..])[0] == '('
    ensures r.Some? ==> |r.value.1| < |s|
  {
    match RegexOpen(s)
    case None => None
    case Some((pattern, a)) =>
      var withBound := RegexBound(a);
      if withBound.Some? && compiles(pattern) then
        Some(((pattern, withBound.value.0), withBound.value.1))
      else if a != [] && a[0] == ')' && compiles(pattern) then
        Some(((pattern, DefaultRegexBound), a[1..]))
      else None
  }

  // ---------------------------------------------------------------------------
  // Rule token

  /**
   * What every token the parser produces satisfies. These are also exactly the
   * tokens that can be written down: an identifier starting with `Nothing`
   * would be read as the keyword, a text ending in a backslash would escape
   * its closing quote, and an empty hex block or pattern has no syntax.
   */
  predicate ValidToken(t: Token, compiles: Compiler) {
    match t
    case Identifier(n) => IsIdentifier(n) && !StartsWith(n, "Nothing")
    case Str(x) => NoTrailingBackslash(x)
    case Hex(b) => b != []
    case Regex(p, _) => p != [] && NoTrailingBackslash(p) && compiles(p)
  }

  lemma StartsWithConcat(x: string, y: string, prefix: string)
    ensures StartsWith(x, prefix) ==> StartsWith(x + y, prefix)
  {
    if StartsWith(x, prefix) {
      assert (x + y)[..|prefix|] == x[..|prefix|];
    }
  }

  /** Rule token: `Nothing`, then regex, identifier, string and hex, in that order. */
  function ParseToken(s: string, compiles: Compiler): (r: Parse<Token>)
    ensures r.Some? ==> |r.value.1| < |s|
  {
    if StartsWith(s, "Nothing") then Some((Str([]), s[7..]))
    else match ParseRegex(s, compiles)
    case Some(((pattern, bound), rest)) => Some((Regex(pattern, bound), rest))
    case None =>
      match ParseIdentifier(s)
      case Some((name, rest)) => Some((Identifier(name), rest))
      case None =>
        match ParseString(s)
        case Some((text, rest)) => Some((Str(text), rest))
        case None =>
          match ParseHexString(s)
          case Some((bytes, rest)) => Some((Hex(bytes), rest))
          case None => None
  }

  /**
   * Every token rule token produces is well formed, starts at a letter, `_`,
   * a quote or the `0` of `0x`, and is the empty string only for `Nothing`.
   */
  lemma TokenValid(s: string, compiles: Compiler)
    ensures var r := ParseToken(s, compiles);
      r.Some? ==>
        ValidToken(r.value.0, compiles) &&
        (IsIdentStart(s[0]) || s[0] == '"' || s[0] == '0') &&
        (r.value.0 == Str([]) ==> StartsWith(s, "Nothing"))
  {
    if StartsWith(s, "Nothing") {
      StartsWithHead(s, "Nothing");
    } else if ParseRegex(s, compiles).Some? {
      StartsWithHead(s, "re");
    } else if ParseIdentifier(s).Some? {
      var (n, rest) := ParseIdentifier(s).value;
      StartsWithConcat(n, rest, "Nothing");
    } else if ParseString(s).None? && ParseHexString(s).Some? {
      StartsWithHead(s, "0x");
    }
  }

  // ---------------------------------------------------------------------------
  // Rules rhs, more_rhs, production and grammar

  predicate ValidRhs(ts: ProductionRhs, compiles: Compiler) {
    |ts| > 0 && forall t :: t in ts ==> ValidToken(t, compiles)
  }

  /** `(_ token())*`: each further token may follow its predecessor with or without whitespace. */
  function RhsTail(s: string, compiles: Compiler): (r: (seq<Token>, string))
    ensures |r.1| <= |s|
    decreases |s|
  {
    match ParseToken(SkipWs(s), compiles)
    case None => ([], s)
    case Some((t, rest)) =>
      var (ts, rest') := RhsTail(rest, compiles);
      ([t] + ts, rest')
  }

  lemma {:induction false} RhsTailValid(s: string, compiles: Compiler)
    ensures forall t :: t in RhsTail(s, compiles).0 ==> ValidToken(t, compiles)
    decreases |s|
  {
    TokenValid(SkipWs(s), compiles);
    match ParseToken(SkipWs(s), compiles)
    case None =>
    case Some((t, rest)) => RhsTailValid(rest, compiles);
  }

  /** Rule rhs: `token()++_`, one or more tokens separated by optional whitespace. */
  function ParseRhs(s: string, compiles: Compiler): (r: Parse<ProductionRhs>)
    ensures r.Some? ==> |r.value.1| < |s|
  {
    match ParseToken(s, compiles)
    case None => None
    case Some((t, rest)) =>
      var (ts, rest') := RhsTail(rest, compiles);
      Some(([t] + ts, rest'))
  }

  lemma RhsValid(s: string, compiles: Compiler)
    ensures ParseRhs(s, compiles).Some? ==> ValidRhs(ParseRhs(s, compiles).value.0, compiles)
  {
    TokenValid(s, compiles);
    match ParseToken(s, compiles)
    case None =>
    case Some((t, rest)) => RhsTailValid(rest, compiles);
  }

  /** Rule more_rhs: `_ "|" _ rhs() _`. */
  function ParseMoreRhs(s: string, compiles: Compiler): (r: Parse<ProductionRhs>)
    ensures r.Some? ==> |r.value.1| < |s|
  {
    var a := SkipWs(s);
    if a == [] || a[0] != '|' then None
    else match ParseRhs(SkipWs(a[1..]), compiles)
      case None => None
      case Some((alt, b)) => Some((alt, SkipWs(b)))
  }

  /** `more_rhs()*` */
  function MoreRhsStar(s: string, compiles: Compiler): (r: (seq<ProductionRhs>, string))
    ensures |r.1| <= |s|
    decreases |s|
  {
    match ParseMoreRhs(s, compiles)
    case None => ([], s)
    case Some((alt, rest)) =>
      var (alts, rest') := MoreRhsStar(rest, compiles);
      ([alt] + alts, rest')
  }

  lemma {:induction false} MoreRhsStarValid(s: string, compiles: Compiler)
    ensures forall alt :: alt in MoreRhsStar(s, compiles).0 ==> ValidRhs(alt, compiles)
    decreases |s|
  {
    var a := SkipWs(s);
    if a != [] && a[0] == '|' {
      RhsValid(SkipWs(a[1..]), compiles);
    }
    match ParseMoreRhs(s, compiles)
    case None =>
    case Some((alt, rest)) => MoreRhsStarValid(rest, compiles);
  }

  predicate ValidProduction(p: Production, compiles: Compiler) {
    IsIdentifier(p.lhs) && |p.rhs| > 0 && forall alt :: alt in p.rhs ==> ValidRhs(alt, compiles)
  }

  /** The part `"->" _ first:rhs() _ rest:more_rhs()* _ ";"` of rule production. */
  function ParseAlternatives(s: string, compiles: Compiler): (r: Parse<seq<ProductionRhs>>)
    ensures r.Some? ==> |r.value.1| < |s|
  {
    if !StartsWith(s, "->") then None
    else match ParseRhs(SkipWs(s[2..]), compiles)
      case None => None
      case Some((first, d)) =>
        var (rest, e) := MoreRhsStar(SkipWs(d), compiles);
        var e1 := SkipWs(e);
        if e1 == [] || e1[0] != ';' then None
        else
          var alts := [first] + rest;
          Some((alts, e1[1..]))
  }

  lemma AlternativesValid(s: string, compiles: Compiler)
    ensures var r := ParseAlternatives(s, compiles);
      r.Some? ==> |r.value.0| > 0 && forall alt :: alt in r.value.0 ==> ValidRhs(alt, compiles)
  {
    if StartsWith(s, "->") {
      RhsValid(SkipWs(s[2..]), compiles);
      match ParseRhs(SkipWs(s[2..]), compiles)
      case None =>
      case Some((first, d)) => MoreRhsStarValid(SkipWs(d), compiles);
    }
  }

  /**
   * Rule production: `_ name _ "->" _ first _ rest* _ ";" _`; the alternatives
   * are listed in source order, `first` at index 0.
   */
  function ParseProduction(s: string, compiles: Compiler): (r: Parse<Production>)
    ensures r.Some? ==> |r.value.1| < |s|
  {
    match ParseIdentifier(SkipWs(s))
    case None => None
    case Some((name, b)) =>
      match ParseAlternatives(SkipWs(b), compiles)
      case None => None
      case Some((alts, e)) => Some((Production(name, alts), SkipWs(e)))
  }

  lemma ProductionValid(s: string, compiles: Compiler)
    ensures ParseProduction(s, compiles).Some? ==> ValidProduction(ParseProduction(s, compiles).value.0, compiles)
  {
    match ParseIdentifier(SkipWs(s))
    case None =>
    case Some((name, b)) => AlternativesValid(SkipWs(b), compiles);
  }

  /** `production()*` */
  function ProductionStar(s: string, compiles: Compiler): (r: (seq<Production>, string))
    ensures |r.1| <= |s|
    decreases |s|
  {
    match ParseProduction(s, compiles)
    case None => ([], s)
    case Some((p, rest)) =>
      var (ps, rest') := ProductionStar(rest, compiles);
      var all := [p] + ps;
      (all, rest')
  }

  lemma {:induction false} ProductionStarValid(s: string, compiles: Compiler)
    ensures forall p :: p in ProductionStar(s, compiles).0 ==> ValidProduction(p, compiles)
    decreases |s|
  {
    ProductionValid(s, compiles);
    match ParseProduction(s, compiles)
    case None =>
    case Some((p, rest)) => ProductionStarValid(rest, compiles);
  }

  /**
   * Folds productions into a map, as collecting `(lhs, rhs)` pairs into a
   * HashMap does: a name defined more than once keeps its last definition
   * (see FoldLookup).
   */
  function Fold(ps: seq<Production>): (g: Grammar)
    ensures g.Keys == set i | 0 <= i < |ps| :: ps[i].lhs
  {
    if ps == [] then map[]
    else
      var init := ps[..|ps| - 1];
      var last := ps[|ps| - 1];
      assert forall i :: 0 <= i < |init| ==> init[i] == ps[i];
      Fold(init)[last.lhs := last.rhs]
  }

  /** The entry for a name is the right-hand side of its last definition. */
  lemma {:induction false} FoldLookup(ps: seq<Production>, i: nat)
    requires i < |ps|
    requires forall j :: i < j < |ps| ==> ps[j].lhs != ps[i].lhs
    ensures ps[i].lhs in Fold(ps) && Fold(ps)[ps[i].lhs] == ps[i].rhs
  {
    if i < |ps| - 1 {
      var init := ps[..|ps| - 1];
      assert init[i] == ps[i];
      FoldLookup(init, i);
    }
  }

  predicate ValidGrammar(g: Grammar, compiles: Compiler) {
    forall k :: k in g ==>
      IsIdentifier(k) && |g[k]| > 0 && forall alt :: alt in g[k] ==> ValidRhs(alt, compiles)
  }

  /** Folding valid productions gives a valid grammar. */
  lemma {:induction false} FoldValid(ps: seq<Production>, compiles: Compiler)
    requires forall p :: p in ps ==> ValidProduction(p, compiles)
    ensures ValidGrammar(Fold(ps), compiles)
  {
    if ps != [] {
      var init := ps[..|ps| - 1];
      assert forall p :: p in init ==> p in ps;
      FoldValid(init, compiles);
      assert ps[|ps| - 1] in ps;
    }
  }

  /**
   * Rule grammar: `production()+`, which must consume the whole input, folded
   * into a map from name to alternatives.
   */
  function ParseGrammar(s: string, compiles: Compiler): (r: Option<Grammar>)
    ensures r.Some? ==> |r.value| > 0 && ValidGrammar(r.value, compiles)
  {
    var (ps, rest) := ProductionStar(s, compiles);
    if ps == [] || rest != [] then None
    else
      var g := Fold(ps);
      assert ps[0].lhs in g;
      ProductionStarValid(s, compiles);
      FoldValid(ps, compiles);
      Some(g)
  }
}
