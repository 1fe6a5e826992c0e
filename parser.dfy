/**
 * The literal recognizers of src/parser.rs. Both are built on one escaped-run scanner:
 * a run of characters other than a quote or a backslash, or of a backslash followed by
 * one character of an escape set. The recognized text is returned raw: escapes are
 * recognized, never decoded. Every failure of the underlying combinators is `None`.
 */
module Parser {
  import opened Wrappers
  import opened Predicates
  import opened Strings

  const Backslash: char := '\\'

  /** After a backslash, a literal admits only a quote or a backslash. */
  const LiteralEscapes: set<char> := {'\'', '\\'}

  /** After a backslash, a general escaped string admits `" ' \ b t n f r`. */
  const StringEscapes: set<char> := {'"', '\'', '\\', 'b', 't', 'n', 'f', 'r'}

  /** `t` is a sequence of plain characters and escape pairs: the grammar of a literal's content. */
  predicate WellEscaped(t: string, escapes: set<char>)
    decreases |t|
  {
    |t| == 0
    || (t[0] != Quote && t[0] != Backslash && WellEscaped(t[1..], escapes))
    || (|t| >= 2 && t[0] == Backslash && t[1] in escapes && WellEscaped(t[2..], escapes))
  }

  /**
   * The length of the escaped run at the start of `s`: it ends at the first unescaped quote
   * or at the end of the input, and fails at a backslash that is not followed by an escape.
   */
  function Scan(s: string, escapes: set<char>): (r: Option<nat>)
    decreases |s|
    ensures r.Some? ==> r.value <= |s| && WellEscaped(s[..r.value], escapes)
    ensures r.Some? ==> r.value == |s| || s[r.value] == Quote
  {
    if |s| == 0 || s[0] == Quote then Some(0)
    else if s[0] == Backslash then
      if |s| >= 2 && s[1] in escapes then
        match Scan(s[2..], escapes)
        case None => None
        case Some(n) =>
          assert s[..n + 2][2..] == s[2..][..n];
          Some(n + 2)
      else None
    else
      match Scan(s[1..], escapes)
      case None => None
      case Some(n) =>
        assert s[..n + 1][1..] == s[1..][..n];
        Some(n + 1)
  }

  /** The scanner finds every well-escaped content that a quote or the end of input closes. */
  lemma {:induction false} ScanComplete(t: string, rest: string, escapes: set<char>)
    requires WellEscaped(t, escapes)
    requires rest == [] || rest[0] == Quote
    ensures Scan(t + rest, escapes) == Some(|t|)
    decreases |t|
  {
    if |t| == 0 {
      assert t + rest == rest;
    } else if t[0] != Quote && t[0] != Backslash && WellEscaped(t[1..], escapes) {
      assert (t + rest)[1..] == t[1..] + rest;
      ScanComplete(t[1..], rest, escapes);
    } else {
      assert (t + rest)[2..] == t[2..] + rest;
      ScanComplete(t[2..], rest, escapes);
    }
  }

  /** The scanner fails exactly when no well-escaped prefix of `s` is closed by a quote or the end of input. */
  lemma ScanFails(s: string, escapes: set<char>)
    ensures Scan(s, escapes).None? <==>
            forall n :: 0 <= n <= |s| && WellEscaped(s[..n], escapes) ==> n < |s| && s[n] != Quote
  {
    if Scan(s, escapes).None? {
      forall n | 0 <= n <= |s| && WellEscaped(s[..n], escapes)
        ensures n < |s| && s[n] != Quote
      {
        if n == |s| || s[n] == Quote {
          assert s[..n] + s[n..] == s;
          ScanComplete(s[..n], s[n..], escapes);
        }
      }
    }
  }

  /** A backslash that no escape character follows stops a well-escaped prefix from being extended: the scan fails. */
  lemma {:induction false} ScanBadEscape(t: string, rest: string, escapes: set<char>)
    requires WellEscaped(t, escapes)
    requires |rest| > 0 && rest[0] == Backslash
    requires |rest| == 1 || rest[1] !in escapes
    ensures Scan(t + rest, escapes) == None
    decreases |t|
  {
    if |t| == 0 {
      assert t + rest == rest;
    } else if t[0] != Quote && t[0] != Backslash && WellEscaped(t[1..], escapes) {
      assert (t + rest)[1..] == t[1..] + rest;
      ScanBadEscape(t[1..], rest, escapes);
    } else {
      assert (t + rest)[2..] == t[2..] + rest;
      ScanBadEscape(t[2..], rest, escapes);
    }
  }

  /** Content that is well escaped for a smaller escape set is well escaped for a larger one. */
  lemma {:induction false} WellEscapedWiden(t: string, small: set<char>, large: set<char>)
    requires small <= large
    requires WellEscaped(t, small)
    ensures WellEscaped(t, large)
    decreases |t|
  {
    if |t| > 0 {
      if t[0] != Quote && t[0] != Backslash && WellEscaped(t[1..], small) {
        WellEscapedWiden(t[1..], small, large);
      } else {
        WellEscapedWiden(t[2..], small, large);
      }
    }
  }

  /** The escaped combinator: a non-empty run and the input after it. */
  function Escaped(s: string, escapes: set<char>): (r: Option<(string, string)>)
    ensures r.Some? ==> s == r.value.0 + r.value.1
    ensures r.Some? ==> |r.value.0| > 0 && WellEscaped(r.value.0, escapes)
    ensures r.Some? ==> r.value.1 == [] || r.value.1[0] == Quote
  {
    match Scan(s, escapes)
    case None => None
    case Some(n) => if n == 0 then None else Some((s[..n], s[n..]))
  }

  /** `escaped_string`: the raw run with the wide escape set. */
  function EscapedString(s: string): (r: Option<(string, string)>)
    ensures r.Some? ==> s == r.value.0 + r.value.1
    ensures r.Some? ==> |r.value.0| > 0 && WellEscaped(r.value.0, StringEscapes)
    ensures r.Some? ==> r.value.1 == [] || r.value.1[0] == Quote
  {
    Escaped(s, StringEscapes)
  }

  /** `literal`: a quote, a raw run with the narrow escape set, a closing quote. */
  function ParseLiteral(s: string): (r: Option<(Id, string)>)
    ensures r.Some? ==> r.value.0.Literal?
    ensures r.Some? ==> s == RenderId(r.value.0) + r.value.1
    ensures r.Some? ==> |r.value.0.text| > 0 && WellEscaped(r.value.0.text, LiteralEscapes)
  {
    if |s| == 0 || s[0] != Quote then None
    else match Escaped(s[1..], LiteralEscapes)
      case None => None
      case Some((raw, rest)) =>
        if |rest| == 0 then None
        else
          assert s == [Quote] + raw + [Quote] + rest[1..];
          Some((Literal(raw), rest[1..]))
  }

  // ---------------------------------------------------------------- properties

  /** Rendering a literal and parsing it back gives the literal and the remaining input, exactly for non-empty well-escaped text. */
  lemma LiteralRoundTrip(text: string, rest: string)
    ensures ParseLiteral(RenderId(Literal(text)) + rest) == Some((Literal(text), rest))
            <==> |text| > 0 && WellEscaped(text, LiteralEscapes)
  {
    if |text| > 0 && WellEscaped(text, LiteralEscapes) {
      RenderedLiteralParses(text, rest);
    }
  }

  lemma RenderedLiteralParses(text: string, rest: string)
    requires |text| > 0 && WellEscaped(text, LiteralEscapes)
    ensures ParseLiteral(RenderId(Literal(text)) + rest) == Some((Literal(text), rest))
  {
    var s := RenderId(Literal(text)) + rest;
    var after := [Quote] + rest;
    AppendAssoc([Quote] + text, [Quote], rest);
    AppendAssoc([Quote], text, after);
    assert s[1..] == text + after;
    ScanComplete(text, after, LiteralEscapes);
    assert (text + after)[..|text|] == text;
    assert (text + after)[|text|..] == after;
    assert Escaped(s[1..], LiteralEscapes) == Some((text, after));
    assert after[1..] == rest;
  }

  /** The escaped string stops at the first unescaped quote and leaves it in the input. */
  lemma EscapedStringStopsAtQuote(t: string, rest: string)
    requires |t| > 0 && WellEscaped(t, StringEscapes)
    ensures EscapedString(t + [Quote] + rest) == Some((t, [Quote] + rest))
  {
    var after := [Quote] + rest;
    AppendAssoc(t, [Quote], rest);
    ScanComplete(t, after, StringEscapes);
    assert (t + after)[..|t|] == t;
    assert (t + after)[|t|..] == after;
  }

  /** Input that does not start with a quote is not a literal. */
  lemma UnquotedRejected(s: string)
    requires |s| == 0 || s[0] != Quote
    ensures ParseLiteral(s) == None
  {
  }

  /** Inside a literal, a backslash followed by anything but a quote or a backslash is rejected. */
  lemma LiteralBadEscapeRejected(t: string, c: char, rest: string)
    requires WellEscaped(t, LiteralEscapes)
    requires c !in LiteralEscapes
    ensures ParseLiteral([Quote] + t + [Backslash, c] + rest) == None
  {
    var s := [Quote] + t + [Backslash, c] + rest;
    assert s[1..] == t + ([Backslash, c] + rest);
    ScanBadEscape(t, [Backslash, c] + rest, LiteralEscapes);
  }

  /** The payload a literal returns is the run that the escaped string recognizes on the same text, up to the closing quote. */
  lemma LiteralPayloadIsEscapedString(s: string)
    requires ParseLiteral(s).Some?
    ensures EscapedString(s[1..]) == Some((ParseLiteral(s).value.0.text, [Quote] + ParseLiteral(s).value.1))
  {
    var raw, rest := ParseLiteral(s).value.0.text, ParseLiteral(s).value.1;
    assert s == [Quote] + (raw + [Quote] + rest);
    WellEscapedWiden(raw, LiteralEscapes, StringEscapes);
    EscapedStringStopsAtQuote(raw, rest);
  }

  /** The unit tests: a plain literal, and a literal whose escaped quote keeps its backslash. */
  lemma PlainLiteralExample()
    ensures ParseLiteral("'asdf'") == Some((Literal("asdf"), ""))
  {
    assert WellEscaped("f", LiteralEscapes);
    assert WellEscaped("df", LiteralEscapes);
    assert WellEscaped("sdf", LiteralEscapes);
    assert WellEscaped("asdf", LiteralEscapes);
    RenderedLiteralParses("asdf", "");
    assert RenderId(Literal("asdf")) + "" == "'asdf'";
  }

  lemma EscapedQuoteLiteralExample()
    ensures ParseLiteral("'asd\\'f'") == Some((Literal("asd\\'f"), ""))
  {
    assert WellEscaped("\\'f", LiteralEscapes);
    assert WellEscaped("d\\'f", LiteralEscapes);
    assert WellEscaped("sd\\'f", LiteralEscapes);
    assert WellEscaped("asd\\'f", LiteralEscapes);
    RenderedLiteralParses("asd\\'f", "");
    assert RenderId(Literal("asd\\'f")) + "" == "'asd\\'f'";
  }

  /** A `\n` escape is refused inside a literal but accepted by the escaped string. */
  lemma NewlineEscapeExamples()
    ensures ParseLiteral("'a\\nb'") == None
    ensures EscapedString("a\\nb'x") == Some(("a\\nb", "'x"))
  {
    assert WellEscaped("a", LiteralEscapes);
    LiteralBadEscapeRejected("a", 'n', "b'");
    assert [Quote] + "a" + [Backslash, 'n'] + "b'" == "'a\\nb'";
    assert WellEscaped("b", StringEscapes);
    assert WellEscaped("\\nb", StringEscapes);
    assert WellEscaped("a\\nb", StringEscapes);
    EscapedStringStopsAtQuote("a\\nb", "x");
    assert "a\\nb" + [Quote] + "x" == "a\\nb'x";
  }

  /** The renderer does not escape: a quote inside a literal's text closes the literal early when it is read back. */
  lemma UnescapedQuoteExample()
    ensures RenderId(Literal("a'b")) == "'a'b'"
    ensures ParseLiteral(RenderId(Literal("a'b"))) == Some((Literal("a"), "b'"))
  {
    assert RenderId(Literal("a'b")) == "'a'b'";
    var s := "'a'b'";
    assert s[1..] == "a" + "'b'";
    assert WellEscaped("a", LiteralEscapes);
    ScanComplete("a", "'b'", LiteralEscapes);
    assert s[1..][..1] == "a";
    assert s[1..][1..] == "'b'";
  }
}
