/**
 * Character escaping of the XML emitter: `escape` for element content and `quoteattr` for
 * attribute values, with the entity decoding an XML parser applies as their inverse.
 */
module Escaping {
  import opened Text

  /** What escaping writes for one character; `quot` adds the `&quot;` rule of attribute quoting. */
  function EscapeChar(c: char, quot: bool): string
  {
    if c == '&' then "&amp;"
    else if c == '>' then "&gt;"
    else if c == '<' then "&lt;"
    else if quot && c == '"' then "&quot;"
    else [c]
  }

  /** Character-by-character escaping: a reference definition for `Escape` and the quoted body. */
  function EscapeEach(s: string, quot: bool): string
  {
    if s == [] then [] else EscapeChar(s[0], quot) + EscapeEach(s[1..], quot)
  }

  /** `escape(data)`: three successive `replace` calls, the one for `&` first. */
  function Escape(data: string): string
  {
    ReplaceChar(ReplaceChar(ReplaceChar(data, '&', "&amp;"), '>', "&gt;"), '<', "&lt;")
  }

  /** The entity decoding of an XML parser, restricted to the four entities the emitter writes. */
  function Unescape(t: string): string
    decreases |t|
  {
    if t == [] then []
    else if "&amp;" <= t then "&" + Unescape(t[5..])
    else if "&lt;" <= t then "<" + Unescape(t[4..])
    else if "&gt;" <= t then ">" + Unescape(t[4..])
    else if "&quot;" <= t then "\"" + Unescape(t[6..])
    else [t[0]] + Unescape(t[1..])
  }

  /** True when an entity written by the emitter starts at position `i` of `t`. */
  predicate EntityAt(t: string, i: nat)
    requires i <= |t|
  {
    "&amp;" <= t[i..] || "&gt;" <= t[i..] || "&lt;" <= t[i..] || "&quot;" <= t[i..]
  }

  // ---------------------------------------------------------------------
  // The successive replacements are a character-by-character escape
  // ---------------------------------------------------------------------

  lemma EscapeOneChar(c: char)
    ensures Escape([c]) == EscapeChar(c, false)
  {
    assert ReplaceChar([c], '&', "&amp;") == (if c == '&' then "&amp;" else [c]);
  }

  lemma {:induction false} EscapeIsCharwise(s: string)
    ensures Escape(s) == EscapeEach(s, false)
  {
    if s != [] {
      var c, t := s[0], s[1..];
      assert s == [c] + t;
      ReplaceCharAppend([c], t, '&', "&amp;");
      ReplaceCharAppend(ReplaceChar([c], '&', "&amp;"), ReplaceChar(t, '&', "&amp;"), '>', "&gt;");
      ReplaceCharAppend(ReplaceChar(ReplaceChar([c], '&', "&amp;"), '>', "&gt;"),
                        ReplaceChar(ReplaceChar(t, '&', "&amp;"), '>', "&gt;"), '<', "&lt;");
      EscapeOneChar(c);
      EscapeIsCharwise(t);
    }
  }

  /** Replacing `"` by `&quot;` in escaped text gives the escape with the `&quot;` rule. */
  lemma {:induction false} QuoteEscapedIsCharwise(s: string)
    ensures ReplaceChar(EscapeEach(s, false), '"', "&quot;") == EscapeEach(s, true)
  {
    if s != [] {
      ReplaceCharAppend(EscapeChar(s[0], false), EscapeEach(s[1..], false), '"', "&quot;");
      QuoteEscapedIsCharwise(s[1..]);
      var c := s[0];
      if c == '"' {
        assert ReplaceChar([c], '"', "&quot;") == "&quot;";
      } else {
        assert ReplaceChar(EscapeChar(c, false), '"', "&quot;") == EscapeChar(c, true);
      }
    }
  }

  // ---------------------------------------------------------------------
  // What escaped text contains
  // ---------------------------------------------------------------------

  lemma {:induction false} EscapeEachAppend(a: string, b: string, quot: bool)
    ensures EscapeEach(a + b, quot) == EscapeEach(a, quot) + EscapeEach(b, quot)
  {
    if a == [] {
      assert a + b == b;
    } else {
      assert (a + b)[0] == a[0] && (a + b)[1..] == a[1..] + b;
      EscapeEachAppend(a[1..], b, quot);
    }
  }

  /** The characters escaping may write for input that is not itself `<` or `>` (`"` too under the `&quot;` rule). */
  predicate Safe(c: char, quot: bool) {
    c != '<' && c != '>' && (quot ==> c != '"')
  }

  lemma EscapeCharSafe(c: char, quot: bool)
    ensures forall i | 0 <= i < |EscapeChar(c, quot)| :: Safe(EscapeChar(c, quot)[i], quot)
    ensures forall i | 0 < i < |EscapeChar(c, quot)| :: EscapeChar(c, quot)[i] != '&'
    ensures EscapeChar(c, quot)[0] == '&' ==> EntityAt(EscapeChar(c, quot), 0)
    ensures '\'' in EscapeChar(c, quot) <==> c == '\''
    ensures !quot ==> ('"' in EscapeChar(c, quot) <==> c == '"')
  {
    var h := EscapeChar(c, quot);
    if c == '&' {
      assert h == "&amp;" && h[1..] == "amp;";
    } else if c == '>' {
      assert h == "&gt;" && h[1..] == "gt;";
    } else if c == '<' {
      assert h == "&lt;" && h[1..] == "lt;";
    } else if quot && c == '"' {
      assert h == "&quot;" && h[1..] == "quot;";
    } else {
      assert h == [c];
    }
  }

  /** Escaped text holds no `<` or `>` (and no `"` under the `&quot;` rule). */
  lemma {:induction false} EscapeEachSafe(s: string, quot: bool)
    ensures forall i | 0 <= i < |EscapeEach(s, quot)| :: Safe(EscapeEach(s, quot)[i], quot)
  {
    if s != [] {
      EscapeEachSafe(s[1..], quot);
      EscapeCharSafe(s[0], quot);
      var h, t := EscapeChar(s[0], quot), EscapeEach(s[1..], quot);
      var e := h + t;
      forall i | 0 <= i < |e| ensures Safe(e[i], quot) {
        if i >= |h| { assert e[i] == t[i - |h|]; } else { assert e[i] == h[i]; }
      }
    }
  }

  /** Every `&` of escaped text begins an entity. */
  lemma {:induction false} EscapeEachEntities(s: string, quot: bool)
    ensures forall i | 0 <= i < |EscapeEach(s, quot)| && EscapeEach(s, quot)[i] == '&' :: EntityAt(EscapeEach(s, quot), i)
  {
    if s != [] {
      EscapeEachEntities(s[1..], quot);
      EscapeCharSafe(s[0], quot);
      var h, t := EscapeChar(s[0], quot), EscapeEach(s[1..], quot);
      var e := h + t;
      forall i | 0 <= i < |e| && e[i] == '&' ensures EntityAt(e, i) {
        if i < |h| {
          assert i == 0 && e[0] == h[0];
          assert EntityAt(h, 0);
          assert h <= e;
        } else {
          assert e[i..] == t[i - |h|..];
        }
      }
    }
  }

  /** Escaped text holds a `'` exactly when the input does, and a `"` too without the `&quot;` rule. */
  lemma {:induction false} EscapeEachQuotes(s: string, quot: bool)
    ensures '\'' in EscapeEach(s, quot) <==> '\'' in s
    ensures !quot ==> ('"' in EscapeEach(s, quot) <==> '"' in s)
  {
    if s != [] {
      EscapeEachQuotes(s[1..], quot);
      EscapeCharSafe(s[0], quot);
      assert s == [s[0]] + s[1..];
    }
  }

  /** `escape` output contains no `<` or `>`, and every `&` in it begins `&amp;`, `&gt;` or `&lt;`. */
  lemma EscapeContents(s: string)
    ensures var e := Escape(s);
      && (forall i | 0 <= i < |e| :: e[i] != '<' && e[i] != '>')
      && (forall i | 0 <= i < |e| && e[i] == '&' :: "&amp;" <= e[i..] || "&gt;" <= e[i..] || "&lt;" <= e[i..])
      && ('"' in e <==> '"' in s) && ('\'' in e <==> '\'' in s)
  {
    EscapeIsCharwise(s);
    var e := Escape(s);
    EscapeEachSafe(s, false);
    EscapeEachEntities(s, false);
    EscapeEachQuotes(s, false);
    forall i | 0 <= i < |e| && e[i] == '&' ensures "&amp;" <= e[i..] || "&gt;" <= e[i..] || "&lt;" <= e[i..] {
      assert EntityAt(e, i);
      if "&quot;" <= e[i..] {
        EscapeNoQuotEntity(s, i);
      }
    }
  }

  /** Plain escaping never writes `&quot;`: each `&` it writes starts `&amp;`, `&gt;` or `&lt;`. */
  lemma {:induction false} EscapeNoQuotEntity(s: string, i: nat)
    requires i < |EscapeEach(s, false)|
    ensures !("&quot;" <= EscapeEach(s, false)[i..])
  {
    if s != [] {
      var h, t := EscapeChar(s[0], false), EscapeEach(s[1..], false);
      var e := h + t;
      assert e == EscapeEach(s, false);
      if i >= |h| {
        assert e[i..] == t[i - |h|..];
        EscapeNoQuotEntity(s[1..], i - |h|);
      } else if i > 0 {
        EscapeCharSafe(s[0], false);
        assert e[i] == h[i];
      } else if s[0] == '&' {
        assert h == "&amp;" && e[1] == h[1];
      } else if s[0] == '>' {
        assert h == "&gt;" && e[1] == h[1];
      } else if s[0] == '<' {
        assert h == "&lt;" && e[1] == h[1];
      } else {
        assert e[0] == s[0];
      }
    }
  }

  // ---------------------------------------------------------------------
  // Round trip through entity decoding
  // ---------------------------------------------------------------------

  lemma UnescapeChar(c: char, quot: bool, rest: string)
    ensures Unescape(EscapeChar(c, quot) + rest) == [c] + Unescape(rest)
  {
    var t := EscapeChar(c, quot) + rest;
    if c == '&' {
      assert "&amp;" <= t && t[5..] == rest;
    } else if c == '>' {
      assert t[..4] == "&gt;" && t[4..] == rest;
      assert t[1] == 'g';
    } else if c == '<' {
      assert t[..4] == "&lt;" && t[4..] == rest;
      assert t[1] == 'l';
    } else if quot && c == '"' {
      assert t[..6] == "&quot;" && t[6..] == rest;
      assert t[1] == 'q';
    } else {
      assert t[0] == c && t[1..] == rest;
    }
  }

  /** Decoding the entities of escaped text gives back the original text. */
  lemma {:induction false} UnescapeEscapeEach(s: string, quot: bool)
    ensures Unescape(EscapeEach(s, quot)) == s
  {
    if s != [] {
      UnescapeChar(s[0], quot, EscapeEach(s[1..], quot));
      UnescapeEscapeEach(s[1..], quot);
    }
  }

  /** `escape` is undone by an XML parser's entity decoding. */
  lemma UnescapeEscape(s: string)
    ensures Unescape(Escape(s)) == s
  {
    EscapeIsCharwise(s);
    UnescapeEscapeEach(s, false);
  }

  // ---------------------------------------------------------------------
  // Attribute quoting
  // ---------------------------------------------------------------------

  /** `quoteattr(data)`: the escaped value between `"` or `'` delimiters. */
  function QuoteAttr(data: string): (q: string)
    ensures |q| >= 2 && q[0] == q[|q| - 1] && (q[0] == '"' || q[0] == '\'')
  {
    var e := Escape(data);
    if '"' in e then
      if '\'' in e then "\"" + ReplaceChar(e, '"', "&quot;") + "\""
      else "'" + e + "'"
    else "\"" + e + "\""
  }

  /** The text between the delimiters of a quoted attribute value. */
  function QuotedBody(q: string): string
    requires |q| >= 2
  {
    q[1..|q| - 1]
  }

  /**
   * The delimiter is `'` exactly when the value holds a `"` and no `'`; a `"` inside is written
   * `&quot;` only when both kinds occur, and otherwise the body is the escaped value unchanged.
   */
  lemma QuoteAttrDelimiter(data: string)
    ensures var q := QuoteAttr(data);
      && (q[0] == '\'' <==> '"' in data && '\'' !in data)
      && (!('"' in data && '\'' in data) ==> QuotedBody(q) == Escape(data))
      && ('"' in data && '\'' in data ==> QuotedBody(q) == EscapeEach(data, true))
  {
    EscapeContents(data);
    var e := Escape(data);
    var q := QuoteAttr(data);
    if '"' in e && '\'' in e {
      EscapeIsCharwise(data);
      QuoteEscapedIsCharwise(data);
      assert QuotedBody(q) == ReplaceChar(e, '"', "&quot;");
    } else {
      assert QuotedBody(q) == e;
    }
  }

  /** The delimiter never occurs between the delimiters, so the quoted value ends where it should. */
  lemma QuoteAttrClosed(data: string)
    ensures var q := QuoteAttr(data);
      forall i | 0 <= i < |QuotedBody(q)| :: QuotedBody(q)[i] != q[0]
  {
    QuoteAttrDelimiter(data);
    var q := QuoteAttr(data);
    var body := QuotedBody(q);
    EscapeIsCharwise(data);
    if '"' in data && '\'' in data {
      EscapeEachSafe(data, true);
      assert forall i | 0 <= i < |body| :: Safe(body[i], true);
    } else if q[0] == '\'' {
      EscapeEachQuotes(data, false);
      assert '\'' !in body;
    } else {
      EscapeEachQuotes(data, false);
      assert '"' !in body;
    }
  }

  /** Decoding the entities between the delimiters gives the attribute value back. */
  lemma QuoteAttrRoundTrip(data: string)
    ensures Unescape(QuotedBody(QuoteAttr(data))) == data
  {
    QuoteAttrDelimiter(data);
    EscapeIsCharwise(data);
    UnescapeEscapeEach(data, false);
    UnescapeEscapeEach(data, true);
  }

  // ---------------------------------------------------------------------
  // Escaping and line boundaries
  // ---------------------------------------------------------------------

  function EscapeAll(lines: seq<string>): (r: seq<string>)
    ensures |r| == |lines| && forall k | 0 <= k < |lines| :: r[k] == Escape(lines[k])
  {
    if lines == [] then [] else [Escape(lines[0])] + EscapeAll(lines[1..])
  }

  /** A line boundary is written as itself; any other character becomes text without one. */
  lemma EscapeCharBreak(c: char)
    ensures IsLineBreak(c) ==> EscapeChar(c, false) == [c]
    ensures !IsLineBreak(c) ==> NoLineBreak(EscapeChar(c, false))
    ensures |EscapeChar(c, false)| > 0 && (EscapeChar(c, false)[0] == '\n' <==> c == '\n')
  {
  }

  lemma {:induction false} FirstBreakAppend(x: string, y: string)
    requires NoLineBreak(x)
    ensures FirstBreak(x + y) == |x| + FirstBreak(y)
  {
    if x != [] {
      assert (x + y)[0] == x[0] && (x + y)[1..] == x[1..] + y;
      FirstBreakAppend(x[1..], y);
    } else {
      assert x + y == y;
    }
  }

  lemma EscapeEachCons(c: char, t: string)
    ensures EscapeEach([c] + t, false) == EscapeChar(c, false) + EscapeEach(t, false)
  {
    assert ([c] + t)[1..] == t;
  }

  /** Escaping moves the first line boundary to the end of the escaped first line. */
  lemma {:induction false} FirstBreakEscape(s: string)
    ensures FirstBreak(EscapeEach(s, false)) == |EscapeEach(s[..FirstBreak(s)], false)|
  {
    if s != [] {
      EscapeCharBreak(s[0]);
      if IsLineBreak(s[0]) {
        FirstBreakAtBreak(s);
      } else {
        FirstBreakEscape(s[1..]);
        FirstBreakEscapeStep(s, FirstBreak(s[1..]));
      }
    }
  }

  lemma FirstBreakAtBreak(s: string)
    requires s != [] && IsLineBreak(s[0])
    ensures FirstBreak(EscapeEach(s, false)) == |EscapeEach(s[..FirstBreak(s)], false)|
  {
    EscapeCharBreak(s[0]);
    assert s[..0] == [];
  }

  lemma FirstBreakEscapeStep(s: string, j: nat)
    requires s != [] && !IsLineBreak(s[0]) && j == FirstBreak(s[1..])
    requires FirstBreak(EscapeEach(s[1..], false)) == |EscapeEach(s[1..][..j], false)|
    ensures FirstBreak(EscapeEach(s, false)) == |EscapeEach(s[..FirstBreak(s)], false)|
  {
    var e := EscapeChar(s[0], false);
    EscapeCharBreak(s[0]);
    FirstBreakAppend(e, EscapeEach(s[1..], false));
    var t := s[1..][..j];
    ConsSlice(s, j);
    EscapeEachCons(s[0], t);
  }

  lemma EscapeSplitAt(s: string, j: nat)
    requires j <= |s|
    ensures Escape(s) == Escape(s[..j]) + Escape(s[j..])
  {
    assert s == s[..j] + s[j..];
    EscapeIsCharwise(s);
    EscapeIsCharwise(s[..j]);
    EscapeIsCharwise(s[j..]);
    EscapeEachAppend(s[..j], s[j..], false);
  }

  /** Escaping keeps the first line boundary, right after the escaped first line. */
  lemma BreakEscapeHead(s: string, i: nat)
    requires i == FirstBreak(s) < |s|
    ensures var e, k := Escape(s), |Escape(s[..i])|;
      FirstBreak(e) == k < |e| && e[..k] == Escape(s[..i]) && e[k..] == [s[i]] + Escape(s[i + 1..])
  {
    EscapeSplitAt(s, i);
    FirstBreakEscape(s);
    EscapeIsCharwise(s);
    EscapeIsCharwise(s[..i]);
    var t := s[i..];
    EscapeSplitAt(t, 1);
    EscapeOneChar(s[i]);
    EscapeCharBreak(s[i]);
    assert t[..1] == [s[i]] && t[1..] == s[i + 1..];
  }

  lemma EscapeFirst(u: string)
    requires u != []
    ensures Escape(u) == EscapeChar(u[0], false) + Escape(u[1..])
  {
    EscapeSplitAt(u, 1);
    EscapeOneChar(u[0]);
    assert u[..1] == [u[0]];
  }

  /** The text after a line boundary escapes to the text after the escaped boundary. */
  lemma BreakEscapeNext(s: string, i: nat, e: string, k: nat)
    requires i < |s| && k < |e| && e[k..] == [s[i]] + Escape(s[i + 1..])
    ensures AfterBreak(e, k) - k == AfterBreak(s, i) - i && e[AfterBreak(e, k)..] == Escape(s[AfterBreak(s, i)..])
  {
    var r := Escape(s[i + 1..]);
    assert e[k] == s[i] && e[k + 1..] == r;
    if i + 1 < |s| {
      var u := s[i + 1..];
      EscapeFirst(u);
      EscapeCharBreak(u[0]);
      assert u[0] == s[i + 1] && u[1..] == s[i + 2..];
      assert k + 1 < |e| && e[k + 1] == r[0];
      if s[i] == '\r' && s[i + 1] == '\n' {
        assert AfterBreak(s, i) == i + 2;
        assert AfterBreak(e, k) == k + 2;
        assert e[k + 2..] == r[1..];
      } else {
        assert AfterBreak(s, i) == i + 1;
        assert AfterBreak(e, k) == k + 1;
      }
    } else {
      assert r == [];
      assert AfterBreak(s, i) == i + 1;
      assert AfterBreak(e, k) == k + 1;
    }
  }

  /** `escape(s).splitlines()` is `s.splitlines()` with every line escaped. */
  lemma {:induction false} SplitLinesEscape(s: string)
    ensures SplitLines(Escape(s)) == EscapeAll(SplitLines(s))
    decreases |s|
  {
    if s != [] {
      var i := FirstBreak(s);
      var e := Escape(s);
      if i == |s| {
        assert s[..i] == s;
        FirstBreakEscape(s);
        EscapeIsCharwise(s);
        assert FirstBreak(e) == |e|;
      } else {
        BreakEscapeHead(s, i);
        var k := |Escape(s[..i])|;
        BreakEscapeNext(s, i, e, k);
        SplitLinesEscape(s[AfterBreak(s, i)..]);
        assert SplitLines(e) == [e[..k]] + SplitLines(e[AfterBreak(e, k)..]);
      }
    }
  }
}
