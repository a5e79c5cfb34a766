/**
 * What the individual rules of the grammar DSL accept and return: hex blocks,
 * string literals, identifiers, the ordered choice in rule token and the
 * requirement of at least one production.
 */
module GrammarFacts {
  import opened Primitives
  import opened GrammarParser

  /** The maximal run of `p`-characters of `x + rest` is `x` when `rest` does not continue it. */
  lemma {:induction false} SpanConcat(p: char -> bool, x: string, rest: string)
    requires forall i :: 0 <= i < |x| ==> p(x[i])
    requires rest == [] || !p(rest[0])
    ensures Span(p, x + rest) == |x|
  {
    if x != [] {
      assert (x + rest)[0] == x[0];
      assert (x + rest)[1..] == x[1..] + rest;
      SpanConcat(p, x[1..], rest);
    } else {
      assert x + rest == rest;
    }
  }

  /** Whitespace in front of a non-whitespace character is skipped, all of it. */
  lemma {:induction false} SkipWsConcat(w: string, x: string)
    requires forall i :: 0 <= i < |w| ==> IsWs(w[i])
    requires x == [] || !IsWs(x[0])
    ensures SkipWs(w + x) == x
  {
    if w == [] {
      assert w + x == x;
    } else {
      assert (w + x)[0] == w[0];
      assert (w + x)[1..] == w[1..] + x;
      SkipWsConcat(w[1..], x);
    }
  }

  /** Input that does not start with whitespace is left alone by rule `_`. */
  lemma SkipWsNone(x: string)
    requires x == [] || !IsWs(x[0])
    ensures SkipWs(x) == x
  {
  }

  /** Input whose first character differs from that of `prefix` does not start with it. */
  lemma NotStartsWith(s: string, prefix: string)
    requires prefix != [] && (s == [] || s[0] != prefix[0])
    ensures !StartsWith(s, prefix)
  {
    if |prefix| <= |s| && s != [] {
      assert s[..|prefix|][0] == s[0];
    }
  }

  // ---------------------------------------------------------------------------
  // hexstring

  /** A `0x` block with an odd number of hex digits is rejected, not truncated. */
  lemma HexOddRejected(s: string)
    requires StartsWith(s, "0x") && Span(IsHexDigit, s[2..]) % 2 == 1
    ensures ParseHexString(s) == None
  {
  }

  /**
   * A block of 2k hex digits, in either case, decodes to k bytes, byte i being
   * 16 * digit(2i) + digit(2i + 1).
   */
  lemma HexBytes(s: string, i: nat)
    requires ParseHexString(s).Some?
    requires i < |ParseHexString(s).value.0|
    ensures var n := Span(IsHexDigit, s[2..]);
      2 * i + 1 < n && IsHexDigit(s[2..][2 * i]) && IsHexDigit(s[2..][2 * i + 1]) &&
      ParseHexString(s).value.0[i] as int == 16 * HexDigitValue(s[2..][2 * i]) + HexDigitValue(s[2..][2 * i + 1])
  {
    var n := Span(IsHexDigit, s[2..]);
    var d := s[2..][..n];
    SpanAll(IsHexDigit, s[2..]);
    assert s[2..2 + n] == d;
    DecodeHexAt(d, i);
  }

  /** `0x00ff` and `0x00FF` both give the two bytes 0x00 and 0xFF. */
  lemma HexExample()
    ensures ParseHexString("0x00ff") == Some(([0x00, 0xFF], []))
    ensures ParseHexString("0x00FF") == Some(([0x00, 0xFF], []))
  {
    HexBlockExample("0x00ff");
    HexBlockExample("0x00FF");
  }

  lemma HexBlockExample(s: string)
    requires s == "0x00ff" || s == "0x00FF"
    ensures ParseHexString(s) == Some(([0x00, 0xFF], []))
  {
    var d := s[2..];
    SpanConcat(IsHexDigit, d, []);
    assert d + [] == d;
    assert s[2..2 + 4] == d && s[2 + 4..] == [];
    DecodeHexAt(d, 0);
    DecodeHexAt(d, 1);
    assert HexDigitValue(d[2]) == 15 && HexDigitValue(d[3]) == 15;
    assert DecodeHex(d) == [0x00, 0xFF];
  }

  // ---------------------------------------------------------------------------
  // number

  /**
   * Rule number reads the maximal run of digits: it succeeds exactly when the
   * run is nonempty and its value fits a `u32`, and then gives that value and
   * leaves the input after the run.
   */
  lemma NumberValue(s: string)
    ensures var n := Span(IsDigit, s);
      AllDigits(s[..n]) &&
      (ParseNumber(s).Some? <==> n > 0 && DecimalValue(s[..n]) < 0x1_0000_0000) &&
      (ParseNumber(s).Some? ==> ParseNumber(s).value.0 as int == DecimalValue(s[..n]) && ParseNumber(s).value.1 == s[n..])
  {
    var n := Span(IsDigit, s);
    SpanAll(IsDigit, s);
    assert forall i :: 0 <= i < n ==> s[..n][i] == s[i];
  }

  /** Leading zeros are allowed: `007` is 7. */
  lemma NumberLeadingZeros(rest: string)
    requires rest == [] || !IsDigit(rest[0])
    ensures ParseNumber("007" + rest) == Some((7, rest))
  {
    var s := "007" + rest;
    SpanConcat(IsDigit, "007", rest);
    NumberValue(s);
    assert s[..3] == "007" && s[3..] == rest;
    assert "007"[..2] == "00" && "00"[..1] == "0" && "0"[..0] == [];
  }

  /** A run of digits whose value does not fit a `u32` is no number. */
  lemma NumberTooLarge(d: string, rest: string)
    requires d != [] && AllDigits(d) && DecimalValue(d) >= 0x1_0000_0000
    requires rest == [] || !IsDigit(rest[0])
    ensures ParseNumber(d + rest) == None
  {
    SpanConcat(IsDigit, d, rest);
    NumberValue(d + rest);
    assert (d + rest)[..|d|] == d;
  }

  // ---------------------------------------------------------------------------
  // string

  /** `""` is not a string literal: at least one character is required. */
  lemma EmptyStringRejected(rest: string)
    ensures ParseString("\"\"" + rest) == None
  {
    var s := "\"\"" + rest;
    assert s[1..][0] == '"';
  }

  /** A literal of one plain character reads as that character, and what follows the closing quote is left. */
  lemma OneCharString(c: char, rest: string)
    requires c != '"' && c != '\\'
    ensures ParseString("\"" + ([c] + ("\"" + rest))) == Some(([c], rest))
  {
    var q := "\"" + rest;
    var t := [c] + q;
    assert ("\"" + t)[1..] == t;
    OneCharChars(c, q);
    assert q[1..] == rest;
  }

  lemma OneCharChars(c: char, q: string)
    requires c != '"' && c != '\\' && q != [] && q[0] == '"'
    ensures StringChars([c] + q) == ([c], q)
  {
    var t := [c] + q;
    assert t[0] == c && t[1..] == q;
    NotStartsWith(t, "\\\"");
    assert StringChars(q) == ([], q);
    assert [c] + [] == [c];
  }

  /** `Nothing` is the only way to obtain the empty string token. */
  lemma EmptyStrOnlyFromNothing(s: string, compiles: Compiler)
    requires ParseToken(s, compiles).Some? && ParseToken(s, compiles).value.0 == Str([])
    ensures StartsWith(s, "Nothing") && ParseToken(s, compiles).value.1 == s[7..]
  {
    TokenValid(s, compiles);
  }

  // ---------------------------------------------------------------------------
  // identifier

  /**
   * Every identifier is accepted in full, whatever follows it, as long as the
   * next character cannot continue it.
   */
  lemma IdentifierExact(n: string, rest: string)
    requires IsIdentifier(n)
    requires rest == [] || !IsIdentChar(rest[0])
    ensures ParseIdentifier(n + rest) == Some((n, rest))
  {
    var s := n + rest;
    assert s[0] == n[0];
    assert s[1..] == n[1..] + rest;
    SpanConcat(IsIdentChar, n[1..], rest);
    assert s[..|n|] == n && s[|n|..] == rest;
  }

  /** Nothing that starts with a digit, a quote or punctuation is an identifier. */
  lemma IdentifierNeedsStart(s: string)
    requires s == [] || !IsIdentStart(s[0])
    ensures ParseIdentifier(s) == None
  {
  }

  // ---------------------------------------------------------------------------
  // token: ordered choice

  /** `Nothing` is tried first and wins over the identifier reading of the same text. */
  lemma NothingBeforeIdentifier(s: string, compiles: Compiler)
    requires StartsWith(s, "Nothing")
    ensures ParseIdentifier(s).Some?
    ensures ParseToken(s, compiles) == Some((Str([]), s[7..]))
  {
    StartsWithHead(s, "Nothing");
  }

  /** A regex token wins over the identifier `re`. */
  lemma RegexBeforeIdentifier(s: string, compiles: Compiler)
    requires ParseRegex(s, compiles).Some?
    ensures ParseIdentifier(s).Some?
    ensures var ((p, n), rest) := ParseRegex(s, compiles).value;
      ParseToken(s, compiles) == Some((Regex(p, n), rest))
  {
    StartsWithHead(s, "re");
    if StartsWith(s, "Nothing") {
      StartsWithHead(s, "Nothing");
      assert false;
    }
  }

  /** Input that starts with a quote can only be a string token. */
  lemma StringToken(s: string, compiles: Compiler)
    requires s != [] && s[0] == '"'
    ensures ParseToken(s, compiles) ==
      match ParseString(s)
      case Some((text, rest)) => Some((Str(text), rest))
      case None => None
  {
    NotStartsWith(s, "Nothing");
    NotStartsWith(s, "re");
  }

  /** Input that starts with `0` can only be a hex token. */
  lemma HexToken(s: string, compiles: Compiler)
    requires s != [] && s[0] == '0'
    ensures ParseToken(s, compiles) ==
      match ParseHexString(s)
      case Some((bytes, rest)) => Some((Hex(bytes), rest))
      case None => None
  {
    NotStartsWith(s, "Nothing");
    NotStartsWith(s, "re");
  }

  /** An identifier is read as such when neither keyword form applies. */
  lemma IdentifierToken(s: string, compiles: Compiler)
    requires !StartsWith(s, "Nothing") && ParseRegex(s, compiles).None?
    requires ParseIdentifier(s).Some?
    ensures ParseToken(s, compiles) == Some((Identifier(ParseIdentifier(s).value.0), ParseIdentifier(s).value.1))
  {
  }

  /**
   * The keyword `Nothing` has no word boundary: `NothingElse` on a right-hand
   * side is the empty string followed by the identifier `Else`.
   */
  lemma NothingElseSplits(compiles: Compiler)
    ensures ParseRhs("NothingElse", compiles) == Some(([Str([]), Identifier("Else")], []))
  {
    var s := "NothingElse";
    assert StartsWith(s, "Nothing") && s[7..] == "Else";
    assert ParseToken(s, compiles) == Some((Str([]), "Else"));
    assert !StartsWith("Else", "Nothing") by { assert "Else"[0] != "Nothing"[0]; }
    assert !StartsWith("Else", "re") by { assert "Else"[0] != "re"[0]; }
    LoneIdentifierTail("Else", compiles);
    assert [Str([])] + [Identifier("Else")] == [Str([]), Identifier("Else")];
  }

  /** Adjacent tokens need no whitespace between them: `"a"b` is two tokens. */
  lemma AdjacentTokens(compiles: Compiler)
    ensures ParseRhs("\"a\"b", compiles) == Some(([Str("a"), Identifier("b")], []))
  {
    QuotedAToken(compiles);
    LoneIdentifierTail("b", compiles);
    assert [Str("a")] + [Identifier("b")] == [Str("a"), Identifier("b")];
  }

  lemma QuotedAToken(compiles: Compiler)
    ensures ParseToken("\"a\"b", compiles) == Some((Str("a"), "b"))
  {
    var s := "\"a\"b";
    assert s == "\"" + (['a'] + ("\"" + "b"));
    OneCharString('a', "b");
    StringToken(s, compiles);
  }

  /** What is left of a right-hand side after its first token: a last identifier. */
  lemma LoneIdentifierTail(n: string, compiles: Compiler)
    requires IsIdentifier(n) && !StartsWith(n, "Nothing") && !StartsWith(n, "re")
    ensures RhsTail(n, compiles) == ([Identifier(n)], [])
  {
    SkipWsNone(n);
    IdentifierExact(n, []);
    assert n + [] == n;
    assert ParseToken(n, compiles) == Some((Identifier(n), []));
    assert ParseToken(SkipWs([]), compiles) == None;
    assert RhsTail([], compiles) == ([], []);
    assert [Identifier(n)] + [] == [Identifier(n)];
  }

  // ---------------------------------------------------------------------------
  // grammar

  /** Input without a production, blank input included, is not a grammar. */
  lemma BlankInputRejected(w: string, compiles: Compiler)
    requires forall i :: 0 <= i < |w| ==> IsWs(w[i])
    ensures ParseGrammar(w, compiles) == None
  {
    SkipWsConcat(w, []);
    assert w + [] == w;
    assert ParseProduction(w, compiles) == None;
  }
}
