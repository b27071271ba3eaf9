/**
 * String helpers with the meaning Python's `str` methods give them:
 * `strip`, `splitlines`, `replace` of a single character, `join`,
 * code-point ordering of strings, and decimal `str`/`int` of naturals.
 */
module Text {
  import opened Wrappers

  // ---------------------------------------------------------------------
  // Whitespace and stripping
  // ---------------------------------------------------------------------

  /** The characters for which Python's `str.isspace()` holds; `strip()` removes exactly these. */
  predicate IsSpace(c: char) {
    c == ' ' || ('\t' <= c <= '\r') || ('\U{1C}' <= c <= '\U{1F}') || c == '\U{85}' || c == '\U{A0}'
    || c == '\U{1680}' || ('\U{2000}' <= c <= '\U{200A}') || c == '\U{2028}' || c == '\U{2029}'
    || c == '\U{202F}' || c == '\U{205F}' || c == '\U{3000}'
  }

  predicate IsBlank(s: string) {
    forall i | 0 <= i < |s| :: IsSpace(s[i])
  }

  /** `s.lstrip()`: the longest suffix of `s` that does not start with whitespace. */
  function LStrip(s: string): (r: string)
    ensures |r| <= |s| && r == s[|s| - |r|..]
    ensures r == [] || !IsSpace(r[0])
  {
    if s != [] && IsSpace(s[0]) then LStrip(s[1..]) else s
  }

  /** `s.rstrip()`: the longest prefix of `s` that does not end with whitespace. */
  function RStrip(s: string): (r: string)
    ensures |r| <= |s| && r == s[..|r|]
    ensures r == [] || !IsSpace(r[|r| - 1])
  {
    if s != [] && IsSpace(s[|s| - 1]) then RStrip(s[..|s| - 1]) else s
  }

  /** What `lstrip()` removes is whitespace. */
  lemma {:induction false} LStripSpaces(s: string)
    ensures forall i | 0 <= i < |s| - |LStrip(s)| :: IsSpace(s[i])
  {
    if s != [] && IsSpace(s[0]) {
      LStripSpaces(s[1..]);
      forall i | 0 <= i < |s| - |LStrip(s)| ensures IsSpace(s[i]) {
        if i > 0 {
          assert s[i] == s[1..][i - 1];
        }
      }
    }
  }

  /** What `rstrip()` removes is whitespace. */
  lemma {:induction false} RStripSpaces(s: string)
    ensures forall i | |RStrip(s)| <= i < |s| :: IsSpace(s[i])
  {
    if s != [] && IsSpace(s[|s| - 1]) {
      RStripSpaces(s[..|s| - 1]);
      forall i | |RStrip(s)| <= i < |s| ensures IsSpace(s[i]) {
        if i < |s| - 1 {
          assert s[i] == s[..|s| - 1][i];
        }
      }
    }
  }

  /** `s.strip()`. */
  function Strip(s: string): (r: string)
  {
    RStrip(LStrip(s))
  }

  /**
   * `strip()` removes leading and trailing whitespace and nothing else: the result is the slice of
   * `s` that follows its `|s| - |LStrip(s)|` leading whitespace characters and precedes its trailing ones.
   */
  lemma StripShape(s: string)
    ensures var r, i := Strip(s), |s| - |LStrip(s)|;
      && i + |r| <= |s| && r == s[i..i + |r|]
      && (forall j | 0 <= j < i :: IsSpace(s[j]))
      && (forall j | i + |r| <= j < |s| :: IsSpace(s[j]))
      && (r == [] || (!IsSpace(r[0]) && !IsSpace(r[|r| - 1])))
  {
    StripIsSlice(s);
    StripTrailing(s);
    StripEnds(s);
    LStripSpaces(s);
  }

  lemma StripIsSlice(s: string)
    ensures var r, i := Strip(s), |s| - |LStrip(s)|;
      i + |r| <= |s| && r == s[i..i + |r|]
  {
    var l := LStrip(s);
    var r := RStrip(l);
    var i := |s| - |l|;
    SliceOfSlice(s, i, |r|);
  }

  lemma ConsSlice(s: string, j: nat)
    requires 1 + j <= |s|
    ensures s[..1 + j] == [s[0]] + s[1..][..j]
  {
    assert s[..1 + j] == [s[0]] + s[1..][..j];
  }

  lemma SliceOfSlice(s: string, i: nat, n: nat)
    requires i + n <= |s|
    ensures s[i..][..n] == s[i..i + n]
  {
  }

  lemma StripTrailing(s: string)
    ensures var r, i := Strip(s), |s| - |LStrip(s)|;
      forall j | i + |r| <= j < |s| :: IsSpace(s[j])
  {
    var l := LStrip(s);
    var r := RStrip(l);
    var i := |s| - |l|;
    RStripSpaces(l);
    SpacesShift(s, l, i, |r|);
  }

  lemma SpacesShift(s: string, l: string, i: nat, n: nat)
    requires i <= |s| && l == s[i..] && n <= |l|
    requires forall k | n <= k < |l| :: IsSpace(l[k])
    ensures forall j | i + n <= j < |s| :: IsSpace(s[j])
  {
    forall j | i + n <= j < |s| ensures IsSpace(s[j]) {
      assert s[j] == l[j - i];
    }
  }

  lemma StripEnds(s: string)
    ensures var r := Strip(s);
      r == [] || (!IsSpace(r[0]) && !IsSpace(r[|r| - 1]))
  {
    var l := LStrip(s);
    var r := RStrip(l);
    if r != [] {
      assert r[0] == l[0];
    }
  }

  /** `strip()` leaves nothing exactly when `s` is blank. */
  lemma StripEmpty(s: string)
    ensures Strip(s) == [] <==> IsBlank(s)
  {
    StripShape(s);
    var l := LStrip(s);
    var i := |s| - |l|;
    if Strip(s) == [] {
      assert forall j | i <= j < |s| :: IsSpace(s[j]);
    }
  }

  /** A string that neither starts nor ends with whitespace is its own `strip()`. */
  lemma StripTrimmed(s: string)
    requires s == [] || (!IsSpace(s[0]) && !IsSpace(s[|s| - 1]))
    ensures Strip(s) == s
  {
  }

  // ---------------------------------------------------------------------
  // Replace, join, membership
  // ---------------------------------------------------------------------

  /** `s.replace(c, rep)` for a one-character `c`. */
  function ReplaceChar(s: string, c: char, rep: string): (r: string)
    ensures c !in s ==> r == s
  {
    if s == [] then [] else (if s[0] == c then rep else [s[0]]) + ReplaceChar(s[1..], c, rep)
  }

  lemma {:induction false} ReplaceCharAppend(a: string, b: string, c: char, rep: string)
    ensures ReplaceChar(a + b, c, rep) == ReplaceChar(a, c, rep) + ReplaceChar(b, c, rep)
  {
    if a != [] {
      assert (a + b)[0] == a[0] && (a + b)[1..] == a[1..] + b;
      ReplaceCharAppend(a[1..], b, c, rep);
    } else {
      assert a + b == b;
    }
  }

  /** Replacing a character by one character keeps the length and changes exactly its occurrences. */
  lemma {:induction false} ReplaceCharByChar(s: string, c: char, d: char)
    ensures |ReplaceChar(s, c, [d])| == |s|
    ensures forall i | 0 <= i < |s| :: ReplaceChar(s, c, [d])[i] == if s[i] == c then d else s[i]
  {
    if s != [] {
      ReplaceCharByChar(s[1..], c, d);
      var r := ReplaceChar(s, c, [d]);
      assert r == [if s[0] == c then d else s[0]] + ReplaceChar(s[1..], c, [d]);
      forall i | 1 <= i < |s| ensures r[i] == if s[i] == c then d else s[i] {
        assert r[i] == ReplaceChar(s[1..], c, [d])[i - 1] && s[i] == s[1..][i - 1];
      }
    }
  }

  /** `sep.join(parts)`. */
  function Join(sep: string, parts: seq<string>): string
  {
    if |parts| == 0 then ""
    else if |parts| == 1 then parts[0]
    else parts[0] + sep + Join(sep, parts[1..])
  }

  /** Joining a list with a first element: that element, then the separator and the rest when there is a rest. */
  lemma JoinCons(sep: string, x: string, parts: seq<string>)
    ensures Join(sep, [x] + parts) == if parts == [] then x else x + sep + Join(sep, parts)
  {
    assert ([x] + parts)[1..] == parts;
  }

  /** `"".join(parts)`. */
  function Concat(parts: seq<string>): string
  {
    if parts == [] then "" else parts[0] + Concat(parts[1..])
  }

  /** A character absent from the separator and from every part is absent from their join. */
  lemma {:induction false} JoinAvoids(sep: string, parts: seq<string>, p: char -> bool)
    requires forall i | 0 <= i < |sep| :: !p(sep[i])
    requires forall k, i | 0 <= k < |parts| && 0 <= i < |parts[k]| :: !p(parts[k][i])
    ensures forall i | 0 <= i < |Join(sep, parts)| :: !p(Join(sep, parts)[i])
  {
    if |parts| > 1 {
      JoinAvoids(sep, parts[1..], p);
      var rest := Join(sep, parts[1..]);
      var whole := parts[0] + sep + rest;
      forall i | 0 <= i < |whole| ensures !p(whole[i]) {
        if i < |parts[0]| {
          assert whole[i] == parts[0][i];
        } else if i < |parts[0]| + |sep| {
          assert whole[i] == sep[i - |parts[0]|];
        } else {
          assert whole[i] == rest[i - |parts[0]| - |sep|];
        }
      }
    } else if |parts| == 1 {
      assert forall i | 0 <= i < |parts[0]| :: !p(parts[0][i]);
    }
  }

  // ---------------------------------------------------------------------
  // Line boundaries (`str.splitlines()`)
  // ---------------------------------------------------------------------

  /** The single characters `str.splitlines()` treats as line boundaries (`\r\n` counts as one). */
  predicate IsLineBreak(c: char) {
    c == '\n' || c == '\r' || c == '\U{0B}' || c == '\U{0C}' || c == '\U{1C}' || c == '\U{1D}'
    || c == '\U{1E}' || c == '\U{85}' || c == '\U{2028}' || c == '\U{2029}'
  }

  predicate NoLineBreak(s: string) {
    forall i | 0 <= i < |s| :: !IsLineBreak(s[i])
  }

  /** Index of the first line boundary of `s`, or `|s|` when there is none. */
  function FirstBreak(s: string): (i: nat)
    ensures i <= |s|
    ensures NoLineBreak(s[..i])
    ensures i < |s| ==> IsLineBreak(s[i])
  {
    if s == [] then 0
    else if IsLineBreak(s[0]) then 0
    else
      var j := FirstBreak(s[1..]);
      assert s[..1 + j] == [s[0]] + s[1..][..j];
      1 + j
  }

  /** Where the line after the boundary at `i` starts: `\r\n` is one boundary of two characters. */
  function AfterBreak(s: string, i: nat): (j: nat)
    requires i < |s|
    ensures i < j <= |s|
  {
    if s[i] == '\r' && i + 1 < |s| && s[i + 1] == '\n' then i + 2 else i + 1
  }

  /** `s.splitlines()`: the lines of `s` without their terminators; a final terminator opens no new line. */
  function SplitLines(s: string): (lines: seq<string>)
    ensures |lines| == 0 <==> s == []
    decreases |s|
  {
    if s == [] then []
    else
      var i := FirstBreak(s);
      if i == |s| then [s]
      else
        [s[..i]] + SplitLines(s[AfterBreak(s, i)..])
  }

  /** No line of `s.splitlines()` holds a line boundary. */
  lemma {:induction false} SplitLinesNoBreak(s: string)
    ensures forall k | 0 <= k < |SplitLines(s)| :: NoLineBreak(SplitLines(s)[k])
    decreases |s|
  {
    if s != [] {
      var i := FirstBreak(s);
      if i < |s| {
        SplitLinesNoBreak(s[AfterBreak(s, i)..]);
      }
    }
  }

  /** A text without line boundaries is one line. */
  lemma SplitLinesSingle(s: string)
    requires s != [] && NoLineBreak(s)
    ensures SplitLines(s) == [s]
  {
  }

  lemma NoLineBreakSlice(s: string, i: nat, j: nat)
    requires NoLineBreak(s) && i <= j <= |s|
    ensures NoLineBreak(s[i..j])
  {
    forall k | 0 <= k < j - i ensures !IsLineBreak(s[i..j][k]) {
      assert s[i..j][k] == s[i + k];
    }
  }

  lemma StripNoBreak(s: string)
    requires NoLineBreak(s)
    ensures NoLineBreak(Strip(s))
  {
    StripIsSlice(s);
    var i := |s| - |LStrip(s)|;
    NoLineBreakSlice(s, i, i + |Strip(s)|);
  }

  lemma {:induction false} ConcatNoBreak(parts: seq<string>)
    requires forall k | 0 <= k < |parts| :: NoLineBreak(parts[k])
    ensures NoLineBreak(Concat(parts))
  {
    if parts != [] {
      ConcatNoBreak(parts[1..]);
      var a, b := parts[0], Concat(parts[1..]);
      assert NoLineBreak(a);
      forall k | 0 <= k < |a + b| ensures !IsLineBreak((a + b)[k]) {
        if k >= |a| {
          assert (a + b)[k] == b[k - |a|];
        }
      }
    }
  }

  /** The final `\n` of a text, which `splitlines()` drops, or nothing. */
  function FinalNewline(s: string): string
  {
    if s != [] && s[|s| - 1] == '\n' then "\n" else ""
  }

  /**
   * For text whose only line boundary is `\n`, joining the lines with `\n` gives the text back,
   * except for a final `\n`, which `splitlines()` drops.
   */
  /** Every line boundary in `s` is `\n`. */
  predicate NewlinesOnly(s: string) {
    s == [] || ((IsLineBreak(s[0]) ==> s[0] == '\n') && NewlinesOnly(s[1..]))
  }

  lemma {:induction false} NewlinesOnlyAt(s: string, i: nat)
    requires NewlinesOnly(s) && i < |s| && IsLineBreak(s[i])
    ensures s[i] == '\n' && NewlinesOnly(s[i + 1..])
  {
    if i > 0 {
      NewlinesOnlyAt(s[1..], i - 1);
      assert s[1..][i - 1 + 1..] == s[i + 1..];
    }
  }

  lemma {:induction false} SplitLinesJoin(s: string)
    requires NewlinesOnly(s)
    ensures Join("\n", SplitLines(s)) + FinalNewline(s) == s
    decreases |s|
  {
    if s != [] {
      var i := FirstBreak(s);
      if i < |s| {
        NewlinesOnlyAt(s, i);
        SplitLinesJoin(s[i + 1..]);
        SplitLinesJoinStep(s, i);
      } else {
        SplitLinesJoinLast(s);
      }
    }
  }

  lemma SplitLinesJoinStep(s: string, i: nat)
    requires i == FirstBreak(s) < |s| && s[i] == '\n'
    requires Join("\n", SplitLines(s[i + 1..])) + FinalNewline(s[i + 1..]) == s[i + 1..]
    ensures Join("\n", SplitLines(s)) + FinalNewline(s) == s
  {
    var rest, head := s[i + 1..], s[..i];
    assert AfterBreak(s, i) == i + 1;
    var lines := SplitLines(rest);
    assert SplitLines(s) == [head] + lines;
    JoinCons("\n", head, lines);
    SplitAround(s, i);
    JoinLinesStep(s, head, rest, lines);
  }

  lemma SplitLinesJoinLast(s: string)
    requires s != [] && FirstBreak(s) == |s|
    ensures Join("\n", SplitLines(s)) + FinalNewline(s) == s
  {
    assert s[..|s|] == s;
    assert s[|s| - 1] == s[..|s|][|s| - 1] && !IsLineBreak(s[|s| - 1]);
    assert SplitLines(s) == [s];
  }

  lemma SplitAround(s: string, i: nat)
    requires i < |s|
    ensures s == s[..i] + [s[i]] + s[i + 1..]
  {
    assert s[i..] == [s[i]] + s[i + 1..];
    assert s == s[..i] + s[i..];
  }

  lemma JoinLinesStep(s: string, head: string, rest: string, lines: seq<string>)
    requires s == head + "\n" + rest && (lines == [] <==> rest == [])
    requires Join("\n", lines) + FinalNewline(rest) == rest
    requires Join("\n", [head] + lines) == if lines == [] then head else head + "\n" + Join("\n", lines)
    ensures Join("\n", [head] + lines) + FinalNewline(s) == s
  {
    if rest != [] {
      assert s[|s| - 1] == rest[|rest| - 1];
    }
  }

  // ---------------------------------------------------------------------
  // Code-point order of strings (Python's `<` on `str`)
  // ---------------------------------------------------------------------

  predicate LexLe(a: string, b: string) {
    a == [] || (b != [] && (a[0] < b[0] || (a[0] == b[0] && LexLe(a[1..], b[1..]))))
  }

  lemma {:induction false} LexLeTotal(a: string, b: string)
    ensures LexLe(a, b) || LexLe(b, a)
  {
    if a != [] && b != [] && a[0] == b[0] { LexLeTotal(a[1..], b[1..]); }
  }

  lemma {:induction false} LexLeAntisymmetric(a: string, b: string)
    requires LexLe(a, b) && LexLe(b, a)
    ensures a == b
  {
    if a != [] {
      LexLeAntisymmetric(a[1..], b[1..]);
      assert a == [a[0]] + a[1..] && b == [b[0]] + b[1..];
    }
  }

  lemma {:induction false} LexLeTransitive(a: string, b: string, c: string)
    requires LexLe(a, b) && LexLe(b, c)
    ensures LexLe(a, c)
  {
    if a != [] && a[0] == b[0] && b[0] == c[0] { LexLeTransitive(a[1..], b[1..], c[1..]); }
  }

  // ---------------------------------------------------------------------
  // Decimal text of naturals (`str(n)` and `int(s)`)
  // ---------------------------------------------------------------------

  predicate IsDigit(c: char) { '0' <= c <= '9' }

  function DigitValue(c: char): (d: nat)
    requires IsDigit(c)
    ensures d < 10
  {
    c as int - '0' as int
  }

  function DigitChar(d: nat): (c: char)
    requires d < 10
    ensures IsDigit(c) && DigitValue(c) == d
  {
    ('0' as int + d) as char
  }

  /** `str(n)` for a natural number: its shortest decimal representation. */
  function NatToString(n: nat): (s: string)
    ensures |s| > 0
    ensures forall i | 0 <= i < |s| :: IsDigit(s[i])
    ensures |s| > 1 ==> s[0] != '0'
  {
    if n < 10 then [DigitChar(n)] else NatToString(n / 10) + [DigitChar(n % 10)]
  }

  /** Value of a string of decimal digits. */
  function DigitsValue(s: string): nat
    requires forall i | 0 <= i < |s| :: IsDigit(s[i])
  {
    if s == [] then 0 else 10 * DigitsValue(s[..|s| - 1]) + DigitValue(s[|s| - 1])
  }

  /** `int(s)` restricted to a non-empty run of decimal digits; anything else is a parse error. */
  function ParseNat(s: string): (r: Option<nat>)
    ensures r.Some? <==> s != [] && forall i | 0 <= i < |s| :: IsDigit(s[i])
  {
    if s != [] && forall i | 0 <= i < |s| :: IsDigit(s[i]) then Some(DigitsValue(s)) else None
  }

  lemma {:induction false} DigitsValueOfNat(n: nat)
    ensures DigitsValue(NatToString(n)) == n
  {
    if n >= 10 {
      DigitsValueOfNat(n / 10);
      var s := NatToString(n);
      assert s[..|s| - 1] == NatToString(n / 10);
    }
  }

  /** `int(str(n)) == n`. */
  lemma ParseNatToString(n: nat)
    ensures ParseNat(NatToString(n)) == Some(n)
  {
    DigitsValueOfNat(n);
  }

  lemma {:induction false} LexLeReflexive(a: string)
    ensures LexLe(a, a)
  {
    if a != [] { LexLeReflexive(a[1..]); }
  }

  // ---------------------------------------------------------------------
  // Searching
  // ---------------------------------------------------------------------

  /** `s.index(c)` / `s.find(c)`: the first position of `c` in `s`, if any. */
  function IndexOf(s: string, c: char): (r: Option<nat>)
    ensures r.Some? <==> c in s
    ensures r.Some? ==> r.value < |s| && s[r.value] == c && c !in s[..r.value]
  {
    if s == [] then None
    else if s[0] == c then Some(0)
    else
      match IndexOf(s[1..], c)
      case None => None
      case Some(i) =>
        assert s[..i + 1] == [s[0]] + s[1..][..i];
        Some(i + 1)
  }

  lemma IndexOfAppend(a: string, b: string, c: char)
    requires c !in a
    ensures IndexOf(a + b, c) == (match IndexOf(b, c) case None => None case Some(i) => Some(|a| + i))
  {
    var r := IndexOf(a + b, c);
    if c in b {
      var i := IndexOf(b, c).value;
      assert (a + b)[|a| + i] == c;
      assert (a + b)[..|a| + i] == a + b[..i];
    } else {
      assert c !in a + b;
    }
  }
}
