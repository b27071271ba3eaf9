/**
 * The text-document decoder (`TextReader`): the children of the `office:text` element become a
 * tree of paragraphs, headings and spans holding text runs. Element names other than `text:p`,
 * `text:h` and `text:span` raise, and so does every node that is neither an element nor text.
 */
module TextReading {
  import opened Wrappers
  import opened Text
  import opened Dom

  datatype Kind = P | H | Span

  /** A decoded node: a text run, or a paragraph, heading or span with its renamed attributes. */
  datatype TextTree =
    | Run(text: string)
    | Tree(kind: Kind, attributes: map<string, string>, nodes: seq<TextTree>)

  /** What `_parse_node` raises on. */
  datatype ParseError = UnknownElement(name: string) | UnknownNodeType(nodeType: nat)

  function KindOf(name: string): (k: Option<Kind>)
    ensures k.Some? <==> name in {"text:p", "text:h", "text:span"}
  {
    if name == "text:p" then Some(P)
    else if name == "text:h" then Some(H)
    else if name == "text:span" then Some(Span)
    else None
  }

  // ---------------------------------------------------------------------
  // Attribute names
  // ---------------------------------------------------------------------

  /** `name.replace(":", "_").replace("-", "_")`. */
  function RenameAttr(name: string): (r: string)
  {
    ReplaceChar(ReplaceChar(name, ':', "_"), '-', "_")
  }

  /** Renaming keeps the length and maps `:` and `-` to `_`, one character at a time. */
  lemma RenameAttrChars(name: string)
    ensures var r := RenameAttr(name);
      |r| == |name| && forall i | 0 <= i < |name| :: r[i] == if name[i] == ':' || name[i] == '-' then '_' else name[i]
  {
    var t := ReplaceChar(name, ':', "_");
    ReplaceCharByChar(name, ':', '_');
    ReplaceCharByChar(t, '-', '_');
  }

  predicate NoColonOrDash(k: string) {
    forall i | 0 <= i < |k| :: k[i] != ':' && k[i] != '-'
  }

  /** The attributes of a node, set one by one in document order under their renamed names. */
  function RenameAttrs(attrs: seq<Attr>): (m: map<string, string>)
    ensures forall k | k in m :: NoColonOrDash(k)
  {
    if attrs == [] then map[]
    else
      var a := attrs[|attrs| - 1];
      RenameAttrChars(a.name);
      RenameAttrs(attrs[..|attrs| - 1])[RenameAttr(a.name) := a.value]
  }

  /** A renamed name is present exactly when some attribute renames to it. */
  lemma {:induction false} RenameAttrsKey(attrs: seq<Attr>, k: string)
    ensures k in RenameAttrs(attrs) <==> exists i | 0 <= i < |attrs| :: RenameAttr(attrs[i].name) == k
  {
    if attrs != [] {
      var n := |attrs| - 1;
      var init := attrs[..n];
      RenameAttrsKey(init, k);
      var last := RenameAttr(attrs[n].name);
      assert RenameAttrs(attrs) == RenameAttrs(init)[last := attrs[n].value];
      if k == last {
        assert RenameAttr(attrs[n].name) == k;
      } else if k in RenameAttrs(init) {
        var i :| 0 <= i < |init| && RenameAttr(init[i].name) == k;
        assert attrs[i] == init[i];
        assert RenameAttr(attrs[i].name) == k;
      } else {
        forall i | 0 <= i < |attrs| ensures RenameAttr(attrs[i].name) != k {
          if i < n {
            assert init[i] == attrs[i];
          }
        }
      }
    }
  }

  /** The renamed name of an attribute holds its value when no later attribute renames to the same name. */
  lemma {:induction false} RenameAttrsValue(attrs: seq<Attr>, i: nat)
    requires i < |attrs| && LastWith(attrs, i)
    ensures RenameAttr(attrs[i].name) in RenameAttrs(attrs)
    ensures RenameAttrs(attrs)[RenameAttr(attrs[i].name)] == attrs[i].value
  {
    var n := |attrs| - 1;
    if i < n {
      var init := attrs[..n];
      assert init[i] == attrs[i];
      assert RenameAttr(attrs[n].name) != RenameAttr(attrs[i].name);
      LastWithInit(attrs, init, i);
      RenameAttrsValue(init, i);
    }
  }

  lemma LastWithInit(attrs: seq<Attr>, init: seq<Attr>, i: nat)
    requires 0 < |attrs| && init == attrs[..|attrs| - 1] && i < |init| && LastWith(attrs, i)
    ensures LastWith(init, i)
  {
    forall j | i < j < |init| ensures RenameAttr(init[j].name) != RenameAttr(init[i].name) {
      assert init[j] == attrs[j] && init[i] == attrs[i];
    }
  }

  /** No later attribute is renamed to the same name as attribute `i`. */
  predicate LastWith(attrs: seq<Attr>, i: nat)
    requires i < |attrs|
  {
    forall j | i < j < |attrs| :: RenameAttr(attrs[j].name) != RenameAttr(attrs[i].name)
  }

  // ---------------------------------------------------------------------
  // Text runs
  // ---------------------------------------------------------------------

  /**
   * The whitespace rule for a text node: dropped when blank; otherwise stripped, then a space
   * appended when the stripped text is shorter than the original, then a space prepended when
   * the text with that space is still shorter than the original.
   */
  function NormaliseRun(v: string): (r: Option<string>)
    ensures r.None? <==> IsBlank(v)
  {
    var snode := Strip(v);
    StripEmpty(v);
    if |snode| == 0 then None else Some(PadStart(PadEnd(snode, v), v))
  }

  /** `if len(node.rstrip()) < len(fnode): node += " "`. */
  function PadEnd(node: string, v: string): string
  {
    if |RStrip(node)| < |v| then node + " " else node
  }

  /** `if len(node.lstrip()) < len(fnode): node = " " + node`. */
  function PadStart(node: string, v: string): string
  {
    if |LStrip(node)| < |v| then " " + node else node
  }

  /**
   * The run keeps the stripped text and gains one trailing space when at least one whitespace
   * character was removed, and one leading space as well when at least two were; so it is never
   * longer than the text node, and strips to the same text.
   */
  lemma NormaliseRunShape(v: string)
    requires !IsBlank(v)
    ensures var s, removed, r := Strip(v), |v| - |Strip(v)|, NormaliseRun(v).value;
      && (removed == 0 ==> r == s)
      && (removed == 1 ==> r == s + " ")
      && (removed >= 2 ==> r == " " + s + " ")
      && |r| <= |v| && Strip(r) == s
  {
    var s := Strip(v);
    StripEmpty(v);
    StripEnds(v);
    var node1 := PadEnd(s, v);
    PadEndOf(s, v);
    assert node1[0] == s[0];
    var node2 := PadStart(node1, v);
    PadStartOf(node1, v);
    assert NormaliseRun(v) == Some(node2);
    NormalisedStrip(s, node2);
  }

  lemma PadEndOf(s: string, v: string)
    requires s != [] && !IsSpace(s[|s| - 1])
    ensures PadEnd(s, v) == if |s| < |v| then s + " " else s
  {
    RStripKeeps(s);
  }

  lemma PadStartOf(s: string, v: string)
    requires s != [] && !IsSpace(s[0])
    ensures PadStart(s, v) == if |s| < |v| then " " + s else s
  {
    LStripKeeps(s);
  }

  lemma RStripKeeps(s: string)
    requires s != [] && !IsSpace(s[|s| - 1])
    ensures RStrip(s) == s
  {
  }

  lemma LStripKeeps(s: string)
    requires s != [] && !IsSpace(s[0])
    ensures LStrip(s) == s
  {
  }

  lemma NormalisedStrip(s: string, t: string)
    requires s != [] && !IsSpace(s[0]) && !IsSpace(s[|s| - 1])
    requires t == s || t == s + " " || t == " " + s + " "
    ensures Strip(t) == s
  {
    StripTrimmed(s);
    LStripKeeps(s + " ");
    if t == s + " " {
      assert RStrip(t) == RStrip(s) by {
        assert t[..|t| - 1] == s;
      }
    } else if t == " " + s + " " {
      assert LStrip(t) == LStrip(s + " ") by {
        assert t[1..] == s + " ";
      }
      assert RStrip(s + " ") == RStrip(s) by {
        assert (s + " ")[..|s|] == s;
      }
    }
  }

  /** A leading space moves to the end: `" hello"` reads as `"hello "`. */
  lemma LeadingSpaceMoves()
    ensures NormaliseRun(" hello") == Some("hello ")
  {
    var s := "hello";
    assert s[0] == 'h' && s[|s| - 1] == 'o';
    assert " hello" == [' '] + s;
    assert "hello " == s + " ";
    OneLeadingSpace(' ', s);
  }

  lemma OneLeadingSpace(c: char, s: string)
    requires IsSpace(c) && s != [] && !IsSpace(s[0]) && !IsSpace(s[|s| - 1])
    ensures NormaliseRun([c] + s) == Some(s + " ")
  {
    var v := [c] + s;
    assert v[1..] == s;
    LStripKeeps(s);
    RStripKeeps(s);
    assert Strip(v) == s;
    NormaliseRunShape(v);
  }

  // ---------------------------------------------------------------------
  // `_parse_node`
  // ---------------------------------------------------------------------

  /** What `_parse_node` appends to its parent's nodes for one DOM node: nothing for a blank run. */
  function Parsed(n: Node): Result<Option<TextTree>, ParseError>
    decreases n, 1
  {
    match n
    case Element(name, attrs, children) =>
      (match KindOf(name)
       case None => Err(UnknownElement(name))
       case Some(k) =>
         match ParsedAll(children)
         case Err(e) => Err(e)
         case Ok(ns) => Ok(Some(Tree(k, RenameAttrs(attrs), ns))))
    case TextNode(v) =>
      (match NormaliseRun(v)
       case None => Ok(None)
       case Some(t) => Ok(Some(Run(t))))
    case Other(t) => Err(UnknownNodeType(t))
  }

  /** The nodes parsed from a list of DOM nodes in order, stopping at the first that raises. */
  function ParsedAll(ns: seq<Node>): Result<seq<TextTree>, ParseError>
    decreases ns, 0
  {
    if ns == [] then Ok([]) else NodeStep(ParsedAll(ns[..|ns| - 1]), ns[|ns| - 1])
  }

  function NodeStep(acc: Result<seq<TextTree>, ParseError>, n: Node): Result<seq<TextTree>, ParseError>
    decreases n, 2
  {
    match acc
    case Err(e) => Err(e)
    case Ok(done) =>
      match Parsed(n)
      case Err(e) => Err(e)
      case Ok(None) => Ok(done)
      case Ok(Some(t)) => Ok(done + [t])
  }

  lemma ParsedAllPrefix(ns: seq<Node>, j: nat)
    requires j < |ns|
    ensures ParsedAll(ns[..j + 1]) == NodeStep(ParsedAll(ns[..j]), ns[j])
  {
    assert ns[..j + 1][..j] == ns[..j];
  }

  /** Once a node raises, the nodes after it are never parsed. */
  lemma {:induction false} ParsedAllErr(ns: seq<Node>, j: nat)
    requires j <= |ns| && ParsedAll(ns[..j]).Err?
    ensures ParsedAll(ns) == ParsedAll(ns[..j])
    decreases |ns| - j
  {
    if j < |ns| {
      assert ns[..|ns| - 1][..j] == ns[..j];
      ParsedAllErr(ns[..|ns| - 1], j);
    } else {
      assert ns[..j] == ns;
    }
  }

  /** The attribute loop of `_parse_node`. */
  method RenameAll(attrs: seq<Attr>) returns (m: map<string, string>)
    ensures m == RenameAttrs(attrs)
  {
    m := map[];
    for i := 0 to |attrs|
      invariant m == RenameAttrs(attrs[..i])
    {
      assert attrs[..i + 1][..i] == attrs[..i];
      m := m[RenameAttr(attrs[i].name) := attrs[i].value];
    }
    assert attrs[..|attrs|] == attrs;
  }

  /** `_parse_node`: the node one DOM node contributes to its parent, if any. */
  method ParseNode(n: Node) returns (r: Result<Option<TextTree>, ParseError>)
    ensures r == Parsed(n)
    decreases n, 1
  {
    match n
    case Element(name, attrs, children) =>
      var kind := KindOf(name);
      if kind.None? {
        return Err(UnknownElement(name));
      }
      var attributes := RenameAll(attrs);
      var nodes := ParseChildren(children);
      if nodes.Err? {
        return Err(nodes.error);
      }
      return Ok(Some(Tree(kind.value, attributes, nodes.value)));
    case TextNode(v) =>
      var run := NormaliseRun(v);
      if run.None? {
        return Ok(None);
      }
      return Ok(Some(Run(run.value)));
    case Other(t) =>
      return Err(UnknownNodeType(t));
  }

  /** The child loop of `_parse_node`: each child parsed and appended when it yields a node. */
  method ParseChildren(children: seq<Node>) returns (r: Result<seq<TextTree>, ParseError>)
    ensures r == ParsedAll(children)
    decreases children, 0
  {
    var nodes: seq<TextTree> := [];
    for i := 0 to |children|
      invariant ParsedAll(children[..i]) == Ok(nodes)
    {
      ParsedAllPrefix(children, i);
      var c := ParseNode(children[i]);
      if c.Err? {
        ParsedAllErr(children, i + 1);
        return Err(c.error);
      }
      if c.value.Some? {
        nodes := nodes + [c.value.value];
      }
    }
    assert children[..|children|] == children;
    return Ok(nodes);
  }

  /** `TextReader(text_elem).nodes`: the children of the text element parsed in order. */
  method ReadText(textElem: Node) returns (r: Result<seq<TextTree>, ParseError>)
    ensures r == ParsedAll(if textElem.Element? then textElem.children else [])
  {
    if textElem.Element? {
      r := ParseChildren(textElem.children);
    } else {
      r := Ok([]);
    }
  }

  // ---------------------------------------------------------------------
  // What the decoder accepts and what it produces
  // ---------------------------------------------------------------------

  /** Every element below is a paragraph, heading or span, and every other node is text. */
  predicate Supported(n: Node)
    decreases n, 1
  {
    match n
    case Element(name, _, children) => KindOf(name).Some? && AllSupported(children)
    case TextNode(_) => true
    case Other(_) => false
  }

  predicate AllSupported(ns: seq<Node>)
    decreases ns, 0
  {
    ns == [] || (AllSupported(ns[..|ns| - 1]) && Supported(ns[|ns| - 1]))
  }

  /** A node parses exactly when everything in it is supported. */
  lemma {:induction false} ParsedOkIffSupported(n: Node)
    ensures Parsed(n).Ok? <==> Supported(n)
    decreases n, 1
  {
    if n.Element? {
      ParsedAllOkIffSupported(n.children);
    }
  }

  lemma {:induction false} ParsedAllOkIffSupported(ns: seq<Node>)
    ensures ParsedAll(ns).Ok? <==> AllSupported(ns)
    decreases ns, 0
  {
    if ns != [] {
      var init, last := ns[..|ns| - 1], ns[|ns| - 1];
      ParsedAllOkIffSupported(init);
      ParsedOkIffSupported(last);
      NodeStepOk(ParsedAll(init), last);
    }
  }

  lemma NodeStepOk(acc: Result<seq<TextTree>, ParseError>, n: Node)
    ensures NodeStep(acc, n).Ok? <==> acc.Ok? && Parsed(n).Ok?
  {
  }

  /** What a decoded tree looks like: no blank runs, no `:` or `-` in attribute names. */
  predicate WellFormed(t: TextTree)
    decreases t, 1
  {
    match t
    case Run(s) => !IsBlank(s)
    case Tree(_, attributes, nodes) => (forall k | k in attributes :: NoColonOrDash(k)) && AllWellFormed(nodes)
  }

  predicate AllWellFormed(ts: seq<TextTree>)
    decreases ts, 0
  {
    forall i | 0 <= i < |ts| :: WellFormed(ts[i])
  }

  lemma BlankStrip(s: string)
    requires !IsBlank(Strip(s))
    ensures !IsBlank(s)
  {
    StripEmpty(s);
  }

  /** Everything the decoder produces is well formed. */
  lemma {:induction false} ParsedWellFormed(n: Node)
    requires Parsed(n).Ok? && Parsed(n).value.Some?
    ensures WellFormed(Parsed(n).value.value)
    decreases n, 1
  {
    match n
    case Element(_, _, children) =>
      ParsedAllWellFormed(children);
    case TextNode(v) =>
      var t := NormaliseRun(v).value;
      NormaliseRunShape(v);
      StripEmpty(v);
      StripEmpty(t);
    case Other(_) =>
  }

  lemma {:induction false} ParsedAllWellFormed(ns: seq<Node>)
    requires ParsedAll(ns).Ok?
    ensures AllWellFormed(ParsedAll(ns).value)
    decreases ns, 0
  {
    if ns != [] {
      var init, last := ns[..|ns| - 1], ns[|ns| - 1];
      ParsedAllWellFormed(init);
      if Parsed(last).value.Some? {
        ParsedWellFormed(last);
      }
    }
  }
}
