/**
 * The XML text emitter (`XmlWriter`): attribute rendering with sorted keys, two spaces of
 * indentation per open element, line-break markers inside text-bearing elements.
 *
 * Every call of the writer is also recorded as a tag event; the text it writes is a function of
 * the events so far (`Render`), and whether the events nest properly is a second function (`Nest`).
 */
module Emitter {
  import opened Wrappers
  import opened Text
  import opened Escaping

  // ---------------------------------------------------------------------
  // Sorted attribute keys (`sorted(attrs.items())`)
  // ---------------------------------------------------------------------

  predicate IsLeast(k: string, ks: set<string>) {
    k in ks && forall k' | k' in ks :: LexLe(k, k')
  }

  lemma LeastExists(ks: set<string>)
    requires ks != {}
    ensures exists k :: IsLeast(k, ks)
    decreases |ks|
  {
    var x :| x in ks;
    var rest := ks - {x};
    LexLeReflexive(x);
    if rest == {} {
      assert ks == {x};
      assert IsLeast(x, ks);
    } else {
      LeastExists(rest);
      var m :| IsLeast(m, rest);
      LexLeTotal(x, m);
      if LexLe(x, m) {
        forall k' | k' in ks ensures LexLe(x, k') {
          if k' != x { LexLeTransitive(x, m, k'); }
        }
        assert IsLeast(x, ks);
      } else {
        assert IsLeast(m, ks);
      }
    }
  }

  lemma LeastUnique(ks: set<string>)
    ensures forall a, b | IsLeast(a, ks) && IsLeast(b, ks) :: a == b
  {
    forall a, b | IsLeast(a, ks) && IsLeast(b, ks) ensures a == b {
      LexLeAntisymmetric(a, b);
    }
  }

  /** The smallest of a non-empty set of keys in code-point order. */
  function LeastKey(ks: set<string>): (k: string)
    requires ks != {}
    ensures k in ks && forall k' | k' in ks :: LexLe(k, k')
  {
    LeastExists(ks);
    LeastUnique(ks);
    var k :| IsLeast(k, ks);
    k
  }

  predicate StrictlyAscending(ks: seq<string>) {
    forall i, j | 0 <= i < j < |ks| :: LexLe(ks[i], ks[j]) && ks[i] != ks[j]
  }

  /** The keys of an attribute map in ascending code-point order, each once. */
  function SortedKeys(ks: set<string>): (r: seq<string>)
    ensures |r| == |ks|
    ensures forall i | 0 <= i < |r| :: r[i] in ks
    ensures forall k | k in ks :: k in r
    ensures StrictlyAscending(r)
    decreases |ks|
  {
    if ks == {} then []
    else
      var k := LeastKey(ks);
      var rest := SortedKeys(ks - {k});
      ConsAscending(k, rest, ks);
      [k] + rest
  }

  lemma ConsAscending(k: string, rest: seq<string>, ks: set<string>)
    requires k in ks && forall k' | k' in ks :: LexLe(k, k')
    requires forall i | 0 <= i < |rest| :: rest[i] in ks - {k}
    requires forall k' | k' in ks - {k} :: k' in rest
    requires StrictlyAscending(rest) && |rest| == |ks - {k}|
    ensures var r := [k] + rest;
      |r| == |ks| && (forall i | 0 <= i < |r| :: r[i] in ks) && (forall k' | k' in ks :: k' in r) && StrictlyAscending(r)
  {
    var r := [k] + rest;
    forall i, j | 0 <= i < j < |r| ensures LexLe(r[i], r[j]) && r[i] != r[j] {
      if i > 0 {
        assert r[i] == rest[i - 1] && r[j] == rest[j - 1];
      } else {
        assert r[j] == rest[j - 1];
      }
    }
    forall k' | k' in ks ensures k' in r {
      if k' != k { assert k' in rest; }
    }
  }

  // ---------------------------------------------------------------------
  // Attribute text (`atts_to_str`)
  // ---------------------------------------------------------------------

  /** One rendered attribute, `k=quoteattr(v)`. */
  function AttrItem(k: string, v: string): string
  {
    k + "=" + QuoteAttr(v)
  }

  function AttrItems(attrs: map<string, string>, ks: seq<string>): (items: seq<string>)
    requires forall i | 0 <= i < |ks| :: ks[i] in attrs
    ensures |items| == |ks|
  {
    if ks == [] then [] else [AttrItem(ks[0], attrs[ks[0]])] + AttrItems(attrs, ks[1..])
  }

  /**
   * `XmlWriter.atts_to_str(attrs)`, one attribute at a time from the smallest key:
   * `" " + k=quoteattr(v)` for each key in ascending order (`AttsToStrIsJoin` states the equivalence
   * with the joined form).
   */
  function AttsToStr(attrs: map<string, string>): (r: string)
    ensures r == "" <==> attrs == map[]
    decreases |attrs|
  {
    if |attrs| == 0 then ""
    else
      var k := LeastKey(attrs.Keys);
      " " + AttrItem(k, attrs[k]) + AttsToStr(attrs - {k})
  }

  /** The ascending keys of a non-empty map start with its least key and go on with the rest. */
  lemma SortedKeysFirst(attrs: map<string, string>)
    requires |attrs| > 0
    ensures var k := LeastKey(attrs.Keys);
      SortedKeys(attrs.Keys) == [k] + SortedKeys((attrs - {k}).Keys)
  {
    var k := LeastKey(attrs.Keys);
    assert (attrs - {k}).Keys == attrs.Keys - {k};
  }

  lemma {:induction false} AttrItemsTail(attrs: map<string, string>, k: string, ks: seq<string>)
    requires k in attrs && k !in ks
    requires forall i | 0 <= i < |ks| :: ks[i] in attrs
    ensures AttrItems(attrs - {k}, ks) == AttrItems(attrs, ks)
  {
    if ks != [] {
      AttrItemsTail(attrs, k, ks[1..]);
    }
  }

  /**
   * The attribute text is empty for an empty map and otherwise a space followed by the items
   * `k=quoteattr(v)` for the keys in ascending order, joined by single spaces.
   */
  lemma {:induction false} AttsToStrIsJoin(attrs: map<string, string>)
    ensures var ks := SortedKeys(attrs.Keys);
      AttsToStr(attrs) == if |attrs| == 0 then "" else " " + Join(" ", AttrItems(attrs, ks))
    decreases |attrs|
  {
    if |attrs| > 0 {
      var k := LeastKey(attrs.Keys);
      var rest := attrs - {k};
      var ks := SortedKeys(rest.Keys);
      var item, tail := AttrItem(k, attrs[k]), AttrItems(rest, ks);
      assert AttsToStr(attrs) == " " + item + AttsToStr(rest);
      AttsToStrIsJoin(rest);
      SortedKeysFirst(attrs);
      AttrItemsCons(attrs, k, ks);
      JoinCons(" ", item, tail);
      JoinRegroup(AttsToStr(attrs), item, AttsToStr(rest), Join(" ", [item] + tail), Join(" ", tail), tail == []);
    }
  }

  lemma AttrItemsCons(attrs: map<string, string>, k: string, ks: seq<string>)
    requires k in attrs && k !in ks
    requires forall i | 0 <= i < |ks| :: ks[i] in attrs
    ensures AttrItems(attrs, [k] + ks) == [AttrItem(k, attrs[k])] + AttrItems(attrs - {k}, ks)
  {
    AttrItemsTail(attrs, k, ks);
    assert ([k] + ks)[1..] == ks;
  }

  lemma JoinRegroup(whole: string, item: string, rest: string, joined: string, tailJoined: string, noTail: bool)
    requires whole == " " + item + rest
    requires rest == if noTail then "" else " " + tailJoined
    requires joined == if noTail then item else item + " " + tailJoined
    ensures whole == " " + joined
  {
  }

  // ---------------------------------------------------------------------
  // Element content
  // ---------------------------------------------------------------------

  /** The elements whose text content has its line breaks written as `<text:line-break/>`. */
  const TextTags: set<string> :=
    {"text:a", "text:h", "text:meta", "text:meta-field", "text:p", "text:ruby-base", "text:span"}

  const LineBreakMarker: string := "<text:line-break/>"

  /** What `simple_tag` writes between the tags of an element with contents. */
  function Content(name: string, contents: string): string
  {
    var e := Escape(contents);
    if name in TextTags then Join(LineBreakMarker, SplitLines(e)) else e
  }

  /** Inside a text-bearing element no line-break character survives. */
  lemma ContentHasNoLineBreak(name: string, contents: string)
    requires name in TextTags
    ensures NoLineBreak(Content(name, contents))
  {
    var lines := SplitLines(Escape(contents));
    SplitLinesNoBreak(Escape(contents));
    JoinAvoids(LineBreakMarker, lines, IsLineBreak);
  }

  /** Inside a text-bearing element the lines of the contents are written escaped, one marker between each two. */
  lemma ContentIsEscapedLines(name: string, contents: string)
    requires name in TextTags
    ensures Content(name, contents) == Join(LineBreakMarker, EscapeAll(SplitLines(contents)))
  {
    SplitLinesEscape(contents);
  }

  // ---------------------------------------------------------------------
  // Tag events and the text they produce
  // ---------------------------------------------------------------------

  const Header: string := "<?xml version=\"1.0\" encoding=\"utf-8\"?>\n"

  /** One call of the writer: `start_tag`, `end_tag` or `simple_tag`. */
  datatype Event =
    | Start(name: string, attrs: map<string, string>)
    | End(name: string)
    | Simple(name: string, attrs: map<string, string>, contents: Option<string>)

  /** `" " * indentation * 2`, which is empty for a level that has gone below zero. */
  function Indent(level: int): (r: string)
    ensures |r| == (if level > 0 then 2 * level else 0)
    ensures forall i | 0 <= i < |r| :: r[i] == ' '
  {
    seq(if level > 0 then 2 * level else 0, _ => ' ')
  }

  function OpenTag(name: string, attrs: map<string, string>): string
  {
    "<" + name + AttsToStr(attrs) + ">"
  }

  function CloseTag(name: string): string
  {
    "</" + name + ">\n"
  }

  function EmptyTag(name: string, attrs: map<string, string>): string
  {
    "<" + name + AttsToStr(attrs) + "/>\n"
  }

  /** The text one call writes when the indentation before the call is `level`. */
  function EventText(e: Event, level: int): string
  {
    match e
    case Start(name, attrs) => Indent(level) + (OpenTag(name, attrs) + "\n")
    case End(name) => Indent(level - 1) + CloseTag(name)
    case Simple(name, attrs, None) => Indent(level) + EmptyTag(name, attrs)
    case Simple(name, attrs, Some(c)) => Indent(level) + (OpenTag(name, attrs) + (Content(name, c) + CloseTag(name)))
  }

  /** How one call changes the indentation. */
  function Delta(e: Event): int
  {
    match e
    case Start(_, _) => 1
    case End(_) => -1
    case Simple(_, _, _) => 0
  }

  /** How a sequence of calls changes the indentation. */
  function Net(es: seq<Event>): int
  {
    if es == [] then 0 else Net(es[..|es| - 1]) + Delta(es[|es| - 1])
  }

  /** The text a sequence of calls writes, starting at indentation `level`, when each call writes `text`. */
  function RenderWith(text: (Event, int) -> string, es: seq<Event>, level: int): string
  {
    if es == [] then ""
    else RenderWith(text, es[..|es| - 1], level) + text(es[|es| - 1], level + Net(es[..|es| - 1]))
  }

  /** The text a sequence of writer calls writes, starting at indentation `level`. */
  function Render(es: seq<Event>, level: int): string
  {
    RenderWith(EventText, es, level)
  }

  /** The open-element stack after one call, or None when an end tag does not close the innermost open element. */
  function NestStep(e: Event, open: seq<string>): Option<seq<string>>
  {
    match e
    case Start(name, _) => Some(open + [name])
    case End(name) => if |open| > 0 && open[|open| - 1] == name then Some(open[..|open| - 1]) else None
    case Simple(_, _, _) => Some(open)
  }

  /** The open-element stack after a sequence of calls, or None when the calls do not nest. */
  function Nest(es: seq<Event>, open: seq<string>): Option<seq<string>>
  {
    if es == [] then Some(open)
    else
      match Nest(es[..|es| - 1], open)
      case None => None
      case Some(s) => NestStep(es[|es| - 1], s)
  }

  lemma AppendAssoc(a: string, b: string, c: string)
    ensures a + b + c == a + (b + c)
  {
  }

  lemma RenderWithSnoc(text: (Event, int) -> string, es: seq<Event>, e: Event, level: int)
    ensures RenderWith(text, es + [e], level) == RenderWith(text, es, level) + text(e, level + Net(es))
    ensures Net(es + [e]) == Net(es) + Delta(e)
  {
    var es' := es + [e];
    assert es'[..|es'| - 1] == es;
  }

  lemma RenderSnoc(es: seq<Event>, e: Event, level: int)
    ensures Render(es + [e], level) == Render(es, level) + EventText(e, level + Net(es))
    ensures Net(es + [e]) == Net(es) + Delta(e)
  {
    RenderWithSnoc(EventText, es, e, level);
  }

  lemma {:induction false} NetAppend(a: seq<Event>, b: seq<Event>)
    ensures Net(a + b) == Net(a) + Net(b)
  {
    if b == [] {
      assert a + b == a;
    } else {
      assert (a + b)[..|a + b| - 1] == a + b[..|b| - 1];
      NetAppend(a, b[..|b| - 1]);
    }
  }

  /** `RenderWithSnoc` for a sequence already known to end in `e`. */
  lemma RenderWithLast(text: (Event, int) -> string, s: seq<Event>, es: seq<Event>, e: Event, level: int)
    requires s == es + [e]
    ensures RenderWith(text, s, level) == RenderWith(text, es, level) + text(e, level + Net(es))
  {
    RenderWithSnoc(text, es, e, level);
  }

  lemma RenderWithAppendAt(text: (Event, int) -> string, a: seq<Event>, b: seq<Event>, level: int, n: int)
    requires n == Net(a)
    ensures RenderWith(text, a + b, level) == RenderWith(text, a, level) + RenderWith(text, b, level + n)
  {
    RenderWithAppend(text, a, b, level);
  }

  lemma {:induction false} RenderWithAppend(text: (Event, int) -> string, a: seq<Event>, b: seq<Event>, level: int)
    ensures RenderWith(text, a + b, level) == RenderWith(text, a, level) + RenderWith(text, b, level + Net(a))
    decreases |b|
  {
    if b == [] {
      assert a + b == a;
    } else {
      var b', e := b[..|b| - 1], b[|b| - 1];
      assert b == b' + [e];
      assert a + b == (a + b') + [e];
      RenderWithAppend(text, a, b', level);
      NetAppend(a, b');
      var l2 := level + Net(a);
      var z := text(e, level + Net(a + b'));
      assert z == text(e, l2 + Net(b'));
      RenderWithLast(text, a + b, a + b', e, level);
      RenderWithLast(text, b, b', e, l2);
      SplitConcat(RenderWith(text, a + b, level), RenderWith(text, a + b', level), RenderWith(text, a, level),
        RenderWith(text, b', l2), RenderWith(text, b, l2), z);
    }
  }

  lemma SplitConcat(p: string, q: string, r: string, s: string, t: string, z: string)
    requires p == q + z && q == r + s && t == s + z
    ensures p == r + t
  {
  }

  /** The text of two call sequences one after the other; `n` is how far the first moves the indentation. */
  lemma RenderAppend(a: seq<Event>, b: seq<Event>, level: int, n: int)
    requires n == Net(a)
    ensures Render(a + b, level) == Render(a, level) + Render(b, level + n)
  {
    RenderWithAppendAt(EventText, a, b, level, n);
  }

  lemma {:induction false} NestAppend(a: seq<Event>, b: seq<Event>, open: seq<string>)
    ensures Nest(a + b, open) == (match Nest(a, open) case None => None case Some(s) => Nest(b, s))
  {
    if b == [] {
      assert a + b == a;
    } else {
      var b' := b[..|b| - 1];
      assert (a + b)[..|a + b| - 1] == a + b';
      NestAppend(a, b', open);
    }
  }

  /** When the calls nest, the indentation counts exactly the elements left open. */
  lemma {:induction false} NestDepth(es: seq<Event>, open: seq<string>)
    requires Nest(es, open).Some?
    ensures |Nest(es, open).value| == |open| + Net(es)
  {
    if es != [] {
      NestDepth(es[..|es| - 1], open);
    }
  }

  /** An end tag without an open element of that name makes the whole sequence ill-nested, whatever follows. */
  lemma NestFailurePersists(a: seq<Event>, b: seq<Event>, open: seq<string>)
    requires Nest(a, open) == None
    ensures Nest(a + b, open) == None
  {
    NestAppend(a, b, open);
  }

  /** The text of an element with contents, as the three writes of `simple_tag` produce it. */
  lemma SimpleTextParts(name: string, attrs: map<string, string>, c: string, level: int)
    ensures EventText(Simple(name, attrs, Some(c)), level) == Indent(level) + OpenTag(name, attrs) + Content(name, c) + CloseTag(name)
  {
    AppendAssoc(Indent(level) + OpenTag(name, attrs), Content(name, c), CloseTag(name));
  }

  lemma WriteThree(out: string, out2: string, out1: string, out0: string, x: string, y: string, z: string)
    requires out1 == out0 + x && out2 == out1 + y && out == out2 + z
    ensures out == out0 + (x + y + z)
  {
  }

  // ---------------------------------------------------------------------
  // The writer object
  // ---------------------------------------------------------------------

  /** `XmlWriter`: its output stream is modelled as the text written so far. */
  class XmlWriter {
    var indentation: int
    var output: string
    /** Every tag call made so far. */
    ghost var events: seq<Event>

    ghost predicate Valid()
      reads this
    {
      output == Header + Render(events, 0) && indentation == Net(events)
    }

    constructor ()
      ensures Valid() && events == [] && indentation == 0 && output == Header
    {
      indentation := 0;
      output := "";
      events := [];
      new;
      Write(Header, true);
    }

    /** `_write`: an indented write is prefixed by two spaces per level. */
    method Write(line: string, indent: bool)
      modifies this
      ensures indent ==> output == old(output) + (Indent(indentation) + line)
      ensures !indent ==> output == old(output) + line
      ensures indentation == old(indentation) && events == old(events)
    {
      if indent {
        output := output + (Indent(indentation) + line);
      } else {
        output := output + line;
      }
    }

    method StartTag(name: string, attrs: map<string, string>)
      requires Valid()
      modifies this
      ensures Valid() && events == old(events) + [Start(name, attrs)]
      ensures indentation == old(indentation) + 1
      ensures output == old(output) + EventText(Start(name, attrs), old(indentation))
    {
      Write(OpenTag(name, attrs) + "\n", true);
      indentation := indentation + 1;
      Record(Start(name, attrs), old(output));
    }

    method EndTag(name: string)
      requires Valid()
      modifies this
      ensures Valid() && events == old(events) + [End(name)]
      ensures indentation == old(indentation) - 1
      ensures output == old(output) + EventText(End(name), old(indentation))
    {
      indentation := indentation - 1;
      Write(CloseTag(name), true);
      Record(End(name), old(output));
    }

    method SimpleTag(name: string, attrs: map<string, string>, contents: Option<string>)
      requires Valid()
      modifies this
      ensures Valid() && events == old(events) + [Simple(name, attrs, contents)]
      ensures indentation == old(indentation)
      ensures output == old(output) + EventText(Simple(name, attrs, contents), old(indentation))
    {
      if contents.None? {
        Write(EmptyTag(name, attrs), true);
      } else {
        ghost var out0, open := output, Indent(indentation) + OpenTag(name, attrs);
        Write(OpenTag(name, attrs), true);
        ghost var out1 := output;
        assert out1 == out0 + open;
        var content := Escape(contents.value);
        if name in TextTags {
          content := Join(LineBreakMarker, SplitLines(content));
        }
        assert content == Content(name, contents.value);
        Write(content, false);
        ghost var out2 := output;
        Write(CloseTag(name), false);
        SimpleTextParts(name, attrs, contents.value, indentation);
        WriteThree(output, out2, out1, out0, open, content, CloseTag(name));
      }
      Record(Simple(name, attrs, contents), old(output));
    }

    /** Appends a call to the ghost record once its text has been written. */
    ghost method Record(e: Event, before: string)
      requires before == Header + Render(events, 0) && indentation == Net(events) + Delta(e)
      requires output == before + EventText(e, Net(events))
      modifies this
      ensures Valid() && events == old(events) + [e]
      ensures output == old(output) && indentation == old(indentation)
    {
      var es := events + [e];
      RenderSnoc(events, e, 0);
      AppendAssoc(Header, Render(events, 0), EventText(e, Net(events)));
      assert output == Header + Render(es, 0);
      assert indentation == Net(es);
      events := es;
    }
  }
}
