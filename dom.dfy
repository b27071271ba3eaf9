/**
 * The parsed XML tree the readers walk (`xml.dom.minidom` nodes), reduced to what they look at:
 * elements with their attributes in document order and their children, text nodes, and every
 * other kind of node (comments, CDATA sections, processing instructions) by its node type.
 */
module Dom {
  import opened Text

  datatype Attr = Attr(name: string, value: string)

  datatype Node =
    | Element(name: string, attrs: seq<Attr>, children: seq<Node>)
    | TextNode(value: string)
    | Other(nodeType: nat)

  // ---------------------------------------------------------------------
  // Attributes
  // ---------------------------------------------------------------------

  predicate HasName(attrs: seq<Attr>, key: string) {
    exists i | 0 <= i < |attrs| :: attrs[i].name == key
  }

  /** `hasAttribute(key)`: only elements have attributes. */
  predicate HasAttribute(n: Node, key: string) {
    n.Element? && HasName(n.attrs, key)
  }

  /** The value of the first attribute with the given name, `""` when there is none. */
  function AttrValue(attrs: seq<Attr>, key: string): (v: string)
    ensures !HasName(attrs, key) ==> v == ""
    ensures forall i | 0 <= i < |attrs| && attrs[i].name == key && key !in NamesOf(attrs[..i]) :: v == attrs[i].value
  {
    if attrs == [] then ""
    else if attrs[0].name == key then attrs[0].value
    else
      assert forall i | 1 <= i < |attrs| :: NamesOf(attrs[..i]) == [attrs[0].name] + NamesOf(attrs[1..][..i - 1]);
      AttrValue(attrs[1..], key)
  }

  function NamesOf(attrs: seq<Attr>): (names: seq<string>)
    ensures |names| == |attrs| && forall i | 0 <= i < |attrs| :: names[i] == attrs[i].name
  {
    if attrs == [] then [] else [attrs[0].name] + NamesOf(attrs[1..])
  }

  /** `getAttribute(key)`: the empty string when the attribute is absent. */
  function GetAttribute(n: Node, key: string): (v: string)
    ensures !HasAttribute(n, key) ==> v == ""
  {
    if n.Element? then AttrValue(n.attrs, key) else ""
  }

  /** Attribute names as a parser delivers them: no name twice on one element. */
  predicate DistinctNames(attrs: seq<Attr>) {
    forall i, j | 0 <= i < j < |attrs| :: attrs[i].name != attrs[j].name
  }

  /** With distinct names, `getAttribute` finds the value of the one attribute with that name. */
  lemma GetAttributeOf(attrs: seq<Attr>, i: nat)
    requires DistinctNames(attrs) && i < |attrs|
    ensures AttrValue(attrs, attrs[i].name) == attrs[i].value
  {
    assert attrs[i].name !in NamesOf(attrs[..i]);
  }

  // ---------------------------------------------------------------------
  // `getElementsByTagName`
  // ---------------------------------------------------------------------

  /** The elements of a node list and their descendants with the given name, in document order. */
  function ElementsByTagIn(ns: seq<Node>, name: string): (r: seq<Node>)
    ensures forall i | 0 <= i < |r| :: r[i].Element? && r[i].name == name
    decreases ns
  {
    if ns == [] then [] else ElementsByTagAt(ns[0], name) + ElementsByTagIn(ns[1..], name)
  }

  /** A node itself when it is an element with the name, followed by its matching descendants. */
  function ElementsByTagAt(n: Node, name: string): (r: seq<Node>)
    ensures forall i | 0 <= i < |r| :: r[i].Element? && r[i].name == name
    ensures n.Element? && n.name == name ==> |r| > 0 && r[0] == n
    decreases n
  {
    if n.Element? then (if n.name == name then [n] else []) + ElementsByTagIn(n.children, name) else []
  }

  /** `n.getElementsByTagName(name)`: the matching descendants of `n`, not `n` itself. */
  function ElementsByTag(n: Node, name: string): (r: seq<Node>)
    ensures forall i | 0 <= i < |r| :: r[i].Element? && r[i].name == name
  {
    if n.Element? then ElementsByTagIn(n.children, name) else []
  }

  /** The search of a list is the searches of its parts one after the other. */
  lemma {:induction false} ElementsByTagInAppend(a: seq<Node>, b: seq<Node>, name: string)
    ensures ElementsByTagIn(a + b, name) == ElementsByTagIn(a, name) + ElementsByTagIn(b, name)
  {
    if a == [] {
      assert a + b == b;
    } else {
      assert (a + b)[0] == a[0] && (a + b)[1..] == a[1..] + b;
      ElementsByTagInAppend(a[1..], b, name);
    }
  }

  /** Every child element with the name is found, at the place its subtree starts. */
  lemma {:induction false} ElementsByTagFindsChild(ns: seq<Node>, i: nat, name: string)
    requires i < |ns| && ns[i].Element? && ns[i].name == name
    ensures ns[i] in ElementsByTagIn(ns, name)
  {
    assert ns == ns[..i] + [ns[i]] + ns[i + 1..];
    ElementsByTagInAppend(ns[..i] + [ns[i]], ns[i + 1..], name);
    ElementsByTagInAppend(ns[..i], [ns[i]], name);
    assert [ns[i]][1..] == [];
  }

  // ---------------------------------------------------------------------
  // `_get_text`
  // ---------------------------------------------------------------------

  /** `_get_text(node)`: each text child stripped, each other child's own text, concatenated. */
  function GetText(n: Node): string
    decreases n
  {
    if n.Element? then GetTextIn(n.children) else ""
  }

  function GetTextIn(ns: seq<Node>): string
    decreases ns
  {
    if ns == [] then "" else (if ns[0].TextNode? then Strip(ns[0].value) else GetText(ns[0])) + GetTextIn(ns[1..])
  }

  /** The text of a list is the texts of its parts one after the other. */
  lemma {:induction false} GetTextInAppend(a: seq<Node>, b: seq<Node>)
    ensures GetTextIn(a + b) == GetTextIn(a) + GetTextIn(b)
  {
    if a == [] {
      assert a + b == b;
    } else {
      assert (a + b)[0] == a[0] && (a + b)[1..] == a[1..] + b;
      GetTextInAppend(a[1..], b);
    }
  }

  /** The values of the text nodes below a node list, in document order. */
  function TextValuesIn(ns: seq<Node>): seq<string>
    decreases ns
  {
    if ns == [] then [] else TextValuesAt(ns[0]) + TextValuesIn(ns[1..])
  }

  function TextValuesAt(n: Node): seq<string>
    decreases n
  {
    match n
    case Element(_, _, children) => TextValuesIn(children)
    case TextNode(v) => [v]
    case Other(_) => []
  }

  function StripAll(ss: seq<string>): (r: seq<string>)
    ensures |r| == |ss| && forall i | 0 <= i < |ss| :: r[i] == Strip(ss[i])
  {
    seq(|ss|, i requires 0 <= i < |ss| => Strip(ss[i]))
  }

  lemma {:induction false} ConcatAppend(a: seq<string>, b: seq<string>)
    ensures Concat(a + b) == Concat(a) + Concat(b)
  {
    if a == [] {
      assert a + b == b;
    } else {
      assert (a + b)[0] == a[0] && (a + b)[1..] == a[1..] + b;
      ConcatAppend(a[1..], b);
    }
  }

  lemma {:induction false} StripAllAppend(a: seq<string>, b: seq<string>)
    ensures StripAll(a + b) == StripAll(a) + StripAll(b)
  {
    if a == [] {
      assert a + b == b;
    } else {
      assert (a + b)[0] == a[0] && (a + b)[1..] == a[1..] + b;
      StripAllAppend(a[1..], b);
    }
  }

  /** The text of an element is every text node below it stripped, concatenated in document order. */
  lemma {:induction false} GetTextIsStrippedTexts(n: Node)
    requires n.Element?
    ensures GetText(n) == Concat(StripAll(TextValuesAt(n)))
    decreases n, 1
  {
    GetTextInIsStrippedTexts(n.children);
  }

  lemma {:induction false} GetTextInIsStrippedTexts(ns: seq<Node>)
    ensures GetTextIn(ns) == Concat(StripAll(TextValuesIn(ns)))
    decreases ns
  {
    if ns != [] {
      var head, tail := TextValuesAt(ns[0]), TextValuesIn(ns[1..]);
      GetTextInIsStrippedTexts(ns[1..]);
      StripAllAppend(head, tail);
      ConcatAppend(StripAll(head), StripAll(tail));
      match ns[0]
      case Element(_, _, _) =>
        GetTextIsStrippedTexts(ns[0]);
      case TextNode(v) =>
        assert Concat(StripAll([v])) == Strip(v) + Concat([]);
      case Other(_) =>
        assert StripAll(head) == [];
    }
  }
}
