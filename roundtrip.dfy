/**
 * Reading back what the spreadsheet writer wrote.
 *
 * The writer produces text and the reader walks a parsed tree; parsing itself is not part of this
 * model. What an XML 1.0 parser delivers for the writer's text is stated here as the *image* of the
 * written values: an element per tag, its attributes in the order they were written with their
 * values unescaped and then normalised as section 3.3.3 of the XML 1.0 recommendation requires
 * (after the line-end handling of its section 2.11), and a whitespace text node between every two
 * tags the writer put on separate lines. With that image the decoder's result is computed for every
 * written value, and the values that come back unchanged are characterised.
 */
module RoundTrip {
  import opened Wrappers
  import opened Text
  import opened Escaping
  import opened Emitter
  import opened DateTimes
  import opened Cells
  import opened Dom
  import opened TableReading
  import opened SpreadsheetWriting

  // ---------------------------------------------------------------------
  // Attribute values as a parser delivers them
  // ---------------------------------------------------------------------

  /** The characters an attribute value cannot keep: `quoteattr` leaves them as they are, and the parser turns each into a space. */
  predicate IsAttrBreak(c: char) {
    c == '\t' || c == '\n' || c == '\r'
  }

  predicate NoAttrBreak(s: string) {
    forall i | 0 <= i < |s| :: !IsAttrBreak(s[i])
  }

  /** Line ends first become `\n` (`\r\n` as one), then tab, line feed and carriage return each become a space. */
  function NormaliseAttr(s: string): (r: string)
    ensures |r| <= |s|
  {
    if s == [] then []
    else if |s| > 1 && s[0] == '\r' && s[1] == '\n' then " " + NormaliseAttr(s[2..])
    else (if IsAttrBreak(s[0]) then " " else [s[0]]) + NormaliseAttr(s[1..])
  }

  /** A value without tab, line feed or carriage return is delivered unchanged. */
  lemma {:induction false} NormalisePlain(s: string)
    requires NoAttrBreak(s)
    ensures NormaliseAttr(s) == s
  {
    if s != [] {
      assert !IsAttrBreak(s[0]);
      NoAttrBreakTail(s);
      NormalisePlain(s[1..]);
    }
  }

  lemma NoAttrBreakTail(s: string)
    requires s != [] && NoAttrBreak(s)
    ensures NoAttrBreak(s[1..])
  {
    forall i | 0 <= i < |s| - 1 ensures !IsAttrBreak(s[1..][i]) {
      assert s[1..][i] == s[i + 1];
    }
  }

  /** A prefix without those characters is delivered unchanged in front of the normalised rest. */
  lemma {:induction false} NormalisePlainPrefix(a: string, b: string)
    requires NoAttrBreak(a)
    ensures NormaliseAttr(a + b) == a + NormaliseAttr(b)
  {
    if a == [] {
      assert a + b == b;
    } else {
      assert !IsAttrBreak(a[0]);
      assert (a + b)[0] == a[0] && (a + b)[1..] == a[1..] + b;
      NoAttrBreakTail(a);
      NormalisePlainPrefix(a[1..], b);
    }
  }

  /** A delivered value has none of those characters left, so delivering it again changes nothing. */
  lemma {:induction false} NormaliseClears(s: string)
    ensures NoAttrBreak(NormaliseAttr(s))
  {
    if s != [] {
      if |s| > 1 && s[0] == '\r' && s[1] == '\n' {
        NormaliseClears(s[2..]);
        NoAttrBreakCons(' ', NormaliseAttr(s[2..]));
      } else {
        NormaliseClears(s[1..]);
        NoAttrBreakAppend(if IsAttrBreak(s[0]) then " " else [s[0]], NormaliseAttr(s[1..]));
      }
    }
  }

  lemma NoAttrBreakCons(c: char, s: string)
    requires !IsAttrBreak(c) && NoAttrBreak(s)
    ensures NoAttrBreak([c] + s)
  {
    NoAttrBreakAppend([c], s);
  }

  lemma NoAttrBreakAppend(a: string, b: string)
    requires NoAttrBreak(a) && NoAttrBreak(b)
    ensures NoAttrBreak(a + b)
  {
    forall i | 0 <= i < |a + b| ensures !IsAttrBreak((a + b)[i]) {
      if i >= |a| {
        assert (a + b)[i] == b[i - |a|];
      }
    }
  }

  /** A character the parser keeps is one of the value's own: an `=` in the delivered value was in the written one. */
  lemma {:induction false} NormaliseKeeps(s: string, c: char)
    requires c != ' ' && c in NormaliseAttr(s)
    ensures c in s
  {
    if s != [] {
      if |s| > 1 && s[0] == '\r' && s[1] == '\n' {
        NormaliseKeeps(s[2..], c);
      } else if c == (if IsAttrBreak(s[0]) then " " else [s[0]])[0] {
      } else {
        NormaliseKeeps(s[1..], c);
      }
    }
  }

  // ---------------------------------------------------------------------
  // The attributes of a written tag
  // ---------------------------------------------------------------------

  /** `atts_to_str(attrs)` as parsed: the attributes in ascending key order, each value unescaped and normalised. */
  function ImageAttrs(m: map<string, string>): (attrs: seq<Attr>)
    ensures |attrs| == |m|
  {
    var ks := SortedKeys(m.Keys);
    seq(|ks|, i requires 0 <= i < |ks| => Attr(ks[i], NormaliseAttr(m[ks[i]])))
  }

  /** The parsed tag has the written attributes and no others, each with its delivered value. */
  lemma ImageLookup(m: map<string, string>, k: string)
    ensures HasName(ImageAttrs(m), k) <==> k in m
    ensures k in m ==> AttrValue(ImageAttrs(m), k) == NormaliseAttr(m[k])
    ensures k !in m ==> AttrValue(ImageAttrs(m), k) == ""
  {
    if k in m {
      ImageHas(m, k);
    } else {
      ImageLacks(m, k);
    }
  }

  lemma ImageHas(m: map<string, string>, k: string)
    requires k in m
    ensures HasName(ImageAttrs(m), k) && AttrValue(ImageAttrs(m), k) == NormaliseAttr(m[k])
  {
    var ks := SortedKeys(m.Keys);
    var attrs := ImageAttrs(m);
    ImageNames(m);
    assert k in ks;
    var i :| 0 <= i < |ks| && ks[i] == k;
    GetAttributeOf(attrs, i);
  }

  lemma ImageLacks(m: map<string, string>, k: string)
    requires k !in m
    ensures !HasName(ImageAttrs(m), k) && AttrValue(ImageAttrs(m), k) == ""
  {
    ImageNames(m);
    assert !HasName(ImageAttrs(m), k);
  }

  lemma ImageNames(m: map<string, string>)
    ensures var ks, attrs := SortedKeys(m.Keys), ImageAttrs(m);
      |attrs| == |ks| && (forall i | 0 <= i < |attrs| :: attrs[i] == Attr(ks[i], NormaliseAttr(m[ks[i]])))
      && DistinctNames(attrs)
  {
    var ks, attrs := SortedKeys(m.Keys), ImageAttrs(m);
    forall i, j | 0 <= i < j < |attrs| ensures attrs[i].name != attrs[j].name {
      assert attrs[i].name == ks[i] && attrs[j].name == ks[j];
    }
  }

  // ---------------------------------------------------------------------
  // Text between tags and inside a paragraph
  // ---------------------------------------------------------------------

  const ParagraphTag: string := "text:p"
  const LineBreakTag: string := "text:line-break"

  /** The line end and indentation the writer puts before a tag at the given level. */
  function Gap(level: int): Node {
    TextNode("\n" + Indent(level))
  }

  /** The children of an element at `level` whose child tags sit on lines of their own, one level deeper. */
  function Spaced(items: seq<Node>, level: int): seq<Node>
  {
    if items == [] then [Gap(level)] else [Gap(level + 1), items[0]] + Spaced(items[1..], level)
  }

  /** The nodes of one line of a paragraph: a text node, none for an empty line. */
  function LineNodes(line: string): seq<Node> {
    if line == [] then [] else [TextNode(line)]
  }

  /** The lines of a paragraph with a `text:line-break` element between every two. */
  function LinesNodes(lines: seq<string>): seq<Node>
  {
    if lines == [] then []
    else if |lines| == 1 then LineNodes(lines[0])
    else LineNodes(lines[0]) + [Element(LineBreakTag, [], [])] + LinesNodes(lines[1..])
  }

  /** A `text:p` written with the given contents, as parsed. */
  function Paragraph(c: string): Node {
    Element(ParagraphTag, [], LinesNodes(SplitLines(c)))
  }

  /**
   * What the paragraph image stands for: the writer puts the escaped lines between the
   * line-break markers, and each escaped line unescapes to the line itself.
   */
  lemma ParagraphWritten(c: string)
    ensures Content(ParagraphTag, c) == Join(LineBreakMarker, EscapeAll(SplitLines(c)))
    ensures forall k | 0 <= k < |SplitLines(c)| :: Unescape(EscapeAll(SplitLines(c))[k]) == SplitLines(c)[k]
  {
    ContentIsEscapedLines(ParagraphTag, c);
    var lines := SplitLines(c);
    forall k | 0 <= k < |lines| ensures Unescape(EscapeAll(lines)[k]) == lines[k] {
      UnescapeEscape(lines[k]);
    }
  }

  lemma GapBlank(level: int)
    ensures Strip(Gap(level).value) == []
  {
    var s := Gap(level).value;
    assert forall i | 1 <= i < |s| :: s[i] == Indent(level)[i - 1];
    assert IsBlank(s);
    StripEmpty(s);
  }

  /** Indentation adds nothing to `_get_text`. */
  lemma {:induction false} SpacedText(items: seq<Node>, level: int)
    ensures GetTextIn(Spaced(items, level)) == GetTextIn(items)
    decreases items
  {
    GapBlank(level);
    GapBlank(level + 1);
    if items == [] {
      assert GetTextIn([Gap(level)]) == Strip(Gap(level).value) + GetTextIn([]);
    } else {
      var head := [Gap(level + 1), items[0]];
      SpacedText(items[1..], level);
      GetTextInAppend(head, Spaced(items[1..], level));
      assert head[1..] == [items[0]];
      assert GetTextIn(head) == GetTextIn([items[0]]);
      GetTextInAppend([items[0]], items[1..]);
      assert [items[0]] + items[1..] == items;
    }
  }

  /** Indentation holds no elements. */
  lemma {:induction false} SpacedSearch(items: seq<Node>, level: int, name: string)
    ensures ElementsByTagIn(Spaced(items, level), name) == ElementsByTagIn(items, name)
    decreases items
  {
    if items == [] {
      assert ElementsByTagIn([Gap(level)], name) == ElementsByTagAt(Gap(level), name) + ElementsByTagIn([], name);
    } else {
      var head := [Gap(level + 1), items[0]];
      SpacedSearch(items[1..], level, name);
      ElementsByTagInAppend(head, Spaced(items[1..], level), name);
      assert head[1..] == [items[0]];
      assert ElementsByTagIn(head, name) == ElementsByTagIn([items[0]], name);
      ElementsByTagInAppend([items[0]], items[1..], name);
      assert [items[0]] + items[1..] == items;
    }
  }

  /** The text of a paragraph image is each line stripped, concatenated. */
  lemma {:induction false} LinesText(lines: seq<string>)
    ensures GetTextIn(LinesNodes(lines)) == Concat(StripAll(lines))
  {
    if lines != [] {
      var head := LineNodes(lines[0]);
      assert GetTextIn(head) == Strip(lines[0]) by {
        if lines[0] == [] {
          StripEmpty(lines[0]);
        }
      }
      assert StripAll(lines)[1..] == StripAll(lines[1..]);
      if |lines| == 1 {
        assert StripAll(lines)[1..] == [];
      } else {
        var lb := Element(LineBreakTag, [], []);
        LinesText(lines[1..]);
        GetTextInAppend(head + [lb], LinesNodes(lines[1..]));
        GetTextInAppend(head, [lb]);
      }
    }
  }

  /** A paragraph image holds no element but line breaks. */
  lemma {:induction false} LinesSearch(lines: seq<string>, name: string)
    requires name != LineBreakTag
    ensures ElementsByTagIn(LinesNodes(lines), name) == []
  {
    if lines != [] {
      var head := LineNodes(lines[0]);
      assert ElementsByTagIn(head, name) == [];
      if |lines| > 1 {
        var lb := Element(LineBreakTag, [], []);
        LinesSearch(lines[1..], name);
        ElementsByTagInAppend(head + [lb], LinesNodes(lines[1..]), name);
        ElementsByTagInAppend(head, [lb], name);
        assert ElementsByTagIn([lb], name) == ElementsByTagAt(lb, name) + ElementsByTagIn([], name);
      }
    }
  }

  // ---------------------------------------------------------------------
  // One cell
  // ---------------------------------------------------------------------

  /** A merged cell as parsed: its attributes, and the paragraph on a line of its own when it has contents. */
  function CellImage(u: Unit, level: int): Node {
    var children := match u.enc.contents
      case None => []
      case Some(c) => Spaced([Paragraph(c)], level);
    Element(CellTag, ImageAttrs(CellAtts(u)), children)
  }

  /** What the decoder makes of a value the writer wrote; `Preserved` says when that is the value itself. */
  function Reread(v: CellValue): Result<CellValue, DecodeError> {
    match v
    case Date(dt) =>
      (match ParseDateTime(FormatDateTime(dt))
       case None => Err(MalformedTimestamp)
       case Some(d) => Ok(Date(d)))
    case Str(s) => Ok(Str(Concat(StripAll(SplitLines(s)))))
    case Bool(b) => Ok(Bool(b))
    case Num(t) => Ok(Num(NormaliseAttr(t)))
    case Formula(e) =>
      var n := NormaliseAttr(e);
      (match IndexOf(n, '=')
       case None => Err(MalformedFormula)
       case Some(j) => Ok(Formula(n[j..])))
    case Empty => Ok(Empty)
    case Opaque(r) => Ok(Str(NormaliseAttr(r)))
  }

  /** The cell's text: its paragraph's lines, each stripped. */
  lemma CellText(u: Unit, level: int, c: string)
    requires u.enc.contents == Some(c)
    ensures GetText(CellImage(u, level)) == Concat(StripAll(SplitLines(c)))
  {
    SpacedText([Paragraph(c)], level);
    LinesText(SplitLines(c));
    assert GetTextIn([Paragraph(c)]) == GetText(Paragraph(c)) + GetTextIn([]);
  }

  /** Any attribute but the repeat count is on the parsed cell exactly when the encoding has it. */
  lemma CellAttr(u: Unit, level: int, k: string)
    requires k != Repeated
    ensures HasAttribute(CellImage(u, level), k) <==> k in u.enc.atts
    ensures GetAttribute(CellImage(u, level), k) == if k in u.enc.atts then NormaliseAttr(u.enc.atts[k]) else ""
  {
    ImageLookup(CellAtts(u), k);
  }

  lemma DigitsPlain(s: string)
    requires forall i | 0 <= i < |s| :: IsDigit(s[i])
    ensures NoAttrBreak(s)
  {
  }

  lemma Pad2Plain(n: nat)
    ensures NoAttrBreak(Pad2(n))
  {
    DigitsPlain(NatToString(n));
    if n < 10 {
      NoAttrBreakAppend("0", NatToString(n));
    }
  }

  /** A written timestamp holds digits and separators only. */
  lemma FormatPlain(dt: DateTime)
    ensures NoAttrBreak(FormatDateTime(dt))
  {
    DigitsPlain(NatToString(dt.year));
    Pad2Plain(dt.month);
    Pad2Plain(dt.day);
    Pad2Plain(dt.hour);
    Pad2Plain(dt.minute);
    Pad2Plain(dt.second);
    var a := NatToString(dt.year) + "-";
    NoAttrBreakAppend(NatToString(dt.year), "-");
    NoAttrBreakAppend(a, Pad2(dt.month));
    var b := a + Pad2(dt.month) + "-";
    NoAttrBreakAppend(a + Pad2(dt.month), "-");
    NoAttrBreakAppend(b, Pad2(dt.day));
    var c := b + Pad2(dt.day) + "T";
    NoAttrBreakAppend(b + Pad2(dt.day), "T");
    NoAttrBreakAppend(c, Pad2(dt.hour));
    var d := c + Pad2(dt.hour) + ":";
    NoAttrBreakAppend(c + Pad2(dt.hour), ":");
    NoAttrBreakAppend(d, Pad2(dt.minute));
    var e := d + Pad2(dt.minute) + ":";
    NoAttrBreakAppend(d + Pad2(dt.minute), ":");
    NoAttrBreakAppend(e, Pad2(dt.second));
  }

  /** The words the writer puts in attribute values come back unchanged. */
  lemma WordsPlain()
    ensures NormaliseAttr("date") == "date" && NormaliseAttr("string") == "string"
    ensures NormaliseAttr("boolean") == "boolean" && NormaliseAttr("float") == "float"
    ensures NormaliseAttr("true") == "true" && NormaliseAttr("false") == "false"
  {
    DatePlain();
    StringPlain();
    BooleanPlain();
    FloatPlain();
    TruePlain();
    FalsePlain();
  }

  lemma DatePlain() ensures NormaliseAttr("date") == "date" { NormalisePlain("date"); }
  lemma StringPlain() ensures NormaliseAttr("string") == "string" { NormalisePlain("string"); }
  lemma BooleanPlain() ensures NormaliseAttr("boolean") == "boolean" { NormalisePlain("boolean"); }
  lemma FloatPlain() ensures NormaliseAttr("float") == "float" { NormalisePlain("float"); }
  lemma TruePlain() ensures NormaliseAttr("true") == "true" { NormalisePlain("true"); }
  lemma FalsePlain() ensures NormaliseAttr("false") == "false" { NormalisePlain("false"); }

  /** A read value as the reader's variable holds it once the cell has assigned it. */
  function Assigned(rv: Result<CellValue, DecodeError>): Result<Option<CellValue>, DecodeError> {
    match rv
    case Err(e) => Err(e)
    case Ok(x) => Ok(Some(x))
  }

  /** The attribute facts of a cell decide what it decodes to; each lemma below states them for one kind of value. */
  lemma DecodeTyped(cell: Node, t: string, prev: Option<CellValue>)
    requires !HasAttribute(cell, FormulaAttr) && HasAttribute(cell, ValueType) && GetAttribute(cell, ValueType) == t
    ensures t == "date" ==> DecodeValue(cell, prev) == Assigned(match ParseDateTime(GetAttribute(cell, DateValue)) case None => Err(MalformedTimestamp) case Some(d) => Ok(Date(d)))
    ensures t == "string" && !HasAttribute(cell, StringValue) ==> DecodeValue(cell, prev) == Ok(Some(Str(GetText(cell))))
    ensures t == "string" && HasAttribute(cell, StringValue) ==> DecodeValue(cell, prev) == Ok(Some(Str(GetAttribute(cell, StringValue))))
    ensures t == "boolean" ==> DecodeValue(cell, prev) == Ok(Some(Bool(GetAttribute(cell, BooleanValue) == "true")))
    ensures t == "float" ==> DecodeValue(cell, prev) == Ok(Some(Num(GetAttribute(cell, FloatValue))))
  {
  }

  lemma DecodeDateCell(u: Unit, dt: DateTime, level: int, prev: Option<CellValue>)
    requires FormulaAttr !in u.enc.atts && ValueType in u.enc.atts && u.enc.atts[ValueType] == "date"
    requires DateValue in u.enc.atts && u.enc.atts[DateValue] == FormatDateTime(dt)
    ensures DecodeValue(CellImage(u, level), prev) == Assigned(match ParseDateTime(FormatDateTime(dt)) case None => Err(MalformedTimestamp) case Some(d) => Ok(Date(d)))
  {
    var cell := CellImage(u, level);
    CellAttr(u, level, FormulaAttr);
    CellAttr(u, level, ValueType);
    CellAttr(u, level, DateValue);
    DatePlain();
    FormatPlain(dt);
    NormalisePlain(FormatDateTime(dt));
    DecodeTyped(cell, "date", prev);
  }

  lemma DecodeStrCell(u: Unit, s: string, level: int, prev: Option<CellValue>)
    requires FormulaAttr !in u.enc.atts && ValueType in u.enc.atts && u.enc.atts[ValueType] == "string"
    requires StringValue !in u.enc.atts && u.enc.contents == Some(s)
    ensures DecodeValue(CellImage(u, level), prev) == Ok(Some(Str(Concat(StripAll(SplitLines(s))))))
  {
    var cell := CellImage(u, level);
    CellAttr(u, level, FormulaAttr);
    CellAttr(u, level, ValueType);
    CellAttr(u, level, StringValue);
    StringPlain();
    CellText(u, level, s);
    DecodeTyped(cell, "string", prev);
  }

  lemma DecodeBoolCell(u: Unit, b: bool, level: int, prev: Option<CellValue>)
    requires FormulaAttr !in u.enc.atts && ValueType in u.enc.atts && u.enc.atts[ValueType] == "boolean"
    requires BooleanValue in u.enc.atts && u.enc.atts[BooleanValue] == if b then "true" else "false"
    ensures DecodeValue(CellImage(u, level), prev) == Ok(Some(Bool(b)))
  {
    var cell := CellImage(u, level);
    CellAttr(u, level, FormulaAttr);
    CellAttr(u, level, ValueType);
    CellAttr(u, level, BooleanValue);
    BooleanPlain();
    TruePlain();
    FalsePlain();
    assert "false" != "true";
    DecodeTyped(cell, "boolean", prev);
  }

  lemma DecodeNumCell(u: Unit, t: string, level: int, prev: Option<CellValue>)
    requires FormulaAttr !in u.enc.atts && ValueType in u.enc.atts && u.enc.atts[ValueType] == "float"
    requires FloatValue in u.enc.atts && u.enc.atts[FloatValue] == t
    ensures DecodeValue(CellImage(u, level), prev) == Ok(Some(Num(NormaliseAttr(t))))
  {
    var cell := CellImage(u, level);
    CellAttr(u, level, FormulaAttr);
    CellAttr(u, level, ValueType);
    CellAttr(u, level, FloatValue);
    FloatPlain();
    DecodeTyped(cell, "float", prev);
  }

  lemma DecodeFormulaCell(u: Unit, e: string, level: int, prev: Option<CellValue>)
    requires FormulaAttr in u.enc.atts && u.enc.atts[FormulaAttr] == "of:" + e
    ensures DecodeValue(CellImage(u, level), prev) == Assigned(match IndexOf(NormaliseAttr(e), '=') case None => Err(MalformedFormula) case Some(j) => Ok(Formula(NormaliseAttr(e)[j..])))
  {
    var cell := CellImage(u, level);
    CellAttr(u, level, FormulaAttr);
    FormulaPlainPrefix(e);
    DecodeFormula(cell, NormaliseAttr(e), prev);
  }

  lemma FormulaPlainPrefix(e: string)
    ensures NormaliseAttr("of:" + e) == "of:" + NormaliseAttr(e)
  {
    NormalisePlainPrefix("of:", e);
  }

  /** A formula attribute `of:` followed by the delivered expression decodes as `Reread` of a formula says. */
  lemma DecodeFormula(cell: Node, n: string, prev: Option<CellValue>)
    requires HasAttribute(cell, FormulaAttr) && GetAttribute(cell, FormulaAttr) == "of:" + n
    ensures DecodeValue(cell, prev) == Assigned(match IndexOf(n, '=') case None => Err(MalformedFormula) case Some(j) => Ok(Formula(n[j..])))
  {
    FormulaSlice(n);
  }

  /** The first `=` of the attribute is the first `=` of the expression, three characters on. */
  lemma FormulaSlice(n: string)
    ensures var f := "of:" + n;
      match IndexOf(f, '=')
      case None => IndexOf(n, '=') == None
      case Some(i) => 3 <= i && IndexOf(n, '=') == Some(i - 3) && f[i..] == n[i - 3..]
  {
    var f := "of:" + n;
    assert '=' !in "of:";
    IndexOfAppend("of:", n, '=');
    match IndexOf(n, '=')
    case None =>
    case Some(j) =>
      assert f[3 + j..] == n[j..];
  }

  lemma DecodeEmptyCell(u: Unit, level: int, prev: Option<CellValue>)
    requires u.enc.atts == map[]
    ensures DecodeValue(CellImage(u, level), prev) == Ok(Some(Empty))
  {
    CellAttr(u, level, FormulaAttr);
    CellAttr(u, level, ValueType);
  }

  lemma DecodeOpaqueCell(u: Unit, r: string, level: int, prev: Option<CellValue>)
    requires FormulaAttr !in u.enc.atts && ValueType in u.enc.atts && u.enc.atts[ValueType] == "string"
    requires StringValue in u.enc.atts && u.enc.atts[StringValue] == r
    ensures DecodeValue(CellImage(u, level), prev) == Ok(Some(Str(NormaliseAttr(r))))
  {
    var cell := CellImage(u, level);
    CellAttr(u, level, FormulaAttr);
    CellAttr(u, level, ValueType);
    CellAttr(u, level, StringValue);
    StringPlain();
    DecodeTyped(cell, "string", prev);
  }

  /** A written cell decodes to `Reread` of its value, whatever the cell before it left behind. */
  lemma CellImageDecodes(u: Unit, v: CellValue, level: int, prev: Option<CellValue>)
    requires u.enc == EncodeCell(v)
    ensures DecodeValue(CellImage(u, level), prev) == Assigned(Reread(v))
  {
    match v
    case Date(dt) => DateAtts(dt); DecodeDateCell(u, dt, level, prev); RereadDate(dt);
    case Str(s) => StrAtts(s); DecodeStrCell(u, s, level, prev); RereadStr(s);
    case Bool(b) => BoolAtts(b); DecodeBoolCell(u, b, level, prev); RereadBool(b);
    case Num(t) => NumAtts(t); DecodeNumCell(u, t, level, prev); RereadNum(t);
    case Formula(e) => FormulaAtts(e); DecodeFormulaCell(u, e, level, prev); RereadFormula(e);
    case Empty => DecodeEmptyCell(u, level, prev); RereadEmpty();
    case Opaque(r) => OpaqueAtts(r); DecodeOpaqueCell(u, r, level, prev); RereadOpaque(r);
  }

  lemma RereadDate(dt: DateTime)
    ensures Reread(Date(dt)) == match ParseDateTime(FormatDateTime(dt)) case None => Err(MalformedTimestamp) case Some(d) => Ok(Date(d))
  {
  }

  lemma RereadStr(s: string) ensures Reread(Str(s)) == Ok(Str(Concat(StripAll(SplitLines(s))))) {}
  lemma RereadBool(b: bool) ensures Reread(Bool(b)) == Ok(Bool(b)) {}
  lemma RereadNum(t: string) ensures Reread(Num(t)) == Ok(Num(NormaliseAttr(t))) {}

  lemma RereadFormula(e: string)
    ensures Reread(Formula(e)) == match IndexOf(NormaliseAttr(e), '=') case None => Err(MalformedFormula) case Some(j) => Ok(Formula(NormaliseAttr(e)[j..]))
  {
  }

  lemma RereadEmpty() ensures Reread(Empty) == Ok(Empty) {}
  lemma RereadOpaque(r: string) ensures Reread(Opaque(r)) == Ok(Str(NormaliseAttr(r))) {}

  /** A written cell's repeat count reads back as the number of cells it stands for. */
  lemma CellImageCount(u: Unit, level: int)
    requires Repeated !in u.enc.atts && u.count >= 1
    ensures RepeatCount(CellImage(u, level)) == Ok(u.count)
  {
    ImageLookup(CellAtts(u), Repeated);
    if u.count > 1 {
      CountPlain(u.count);
      ParseIntOfNat(u.count);
    }
  }

  lemma CountPlain(n: nat)
    ensures NormaliseAttr(NatToString(n)) == NatToString(n)
  {
    DigitsPlain(NatToString(n));
    NormalisePlain(NatToString(n));
  }

  // ---------------------------------------------------------------------
  // The values that come back unchanged
  // ---------------------------------------------------------------------

  /**
   * The values a write and a read leave as they were: a date from year 1000 on, a string of one
   * line without surrounding whitespace, a boolean, a number or formula text without tab or line
   * end, a formula starting with `=`, and the empty cell. An other object comes back as a string.
   */
  predicate Preserved(v: CellValue) {
    match v
    case Date(dt) => ValidDateTime(dt) && 1000 <= dt.year
    case Str(s) => NoLineBreak(s) && Strip(s) == s
    case Bool(_) => true
    case Num(t) => NoAttrBreak(t)
    case Formula(e) => NoAttrBreak(e) && |e| > 0 && e[0] == '='
    case Empty => true
    case Opaque(_) => false
  }

  /** A value comes back as itself exactly when it is preserved. */
  lemma RereadPreserves(v: CellValue)
    ensures Reread(v) == Ok(v) <==> Preserved(v)
  {
    match v
    case Date(dt) => RereadDate(dt); RereadDateIff(dt);
    case Str(s) => RereadStr(s); RereadStrIff(s);
    case Bool(b) => RereadBool(b);
    case Num(t) => RereadNum(t); NormaliseFixed(t);
    case Formula(e) => RereadFormula(e); RereadFormulaIff(e);
    case Empty => RereadEmpty();
    case Opaque(r) => RereadOpaque(r);
  }

  lemma RereadDateIff(dt: DateTime)
    ensures ParseDateTime(FormatDateTime(dt)) == Some(dt) <==> ValidDateTime(dt) && 1000 <= dt.year
  {
    if ValidDateTime(dt) && 1000 <= dt.year {
      ParseFormat(dt);
    } else if ValidDateTime(dt) {
      ParseFormatShortYear(dt);
    }
  }

  lemma StrippedLinesNoBreak(s: string)
    ensures NoLineBreak(Concat(StripAll(SplitLines(s))))
  {
    var lines := SplitLines(s);
    SplitLinesNoBreak(s);
    forall k | 0 <= k < |lines| ensures NoLineBreak(StripAll(lines)[k]) {
      StripNoBreak(lines[k]);
    }
    ConcatNoBreak(StripAll(lines));
  }

  lemma RereadStrIff(s: string)
    ensures Concat(StripAll(SplitLines(s))) == s <==> NoLineBreak(s) && Strip(s) == s
  {
    StrippedLinesNoBreak(s);
    if s == [] {
      StripEmpty(s);
    } else if NoLineBreak(s) {
      SplitLinesSingle(s);
      assert StripAll([s]) == [Strip(s)];
      assert Concat([Strip(s)]) == Strip(s) + Concat([]);
    }
  }

  /** An attribute value reads back as itself exactly when it holds no tab, newline or carriage return. */
  lemma NormaliseFixed(t: string)
    ensures NormaliseAttr(t) == t <==> NoAttrBreak(t)
  {
    NormaliseClears(t);
    if NoAttrBreak(t) {
      NormalisePlain(t);
    }
  }

  lemma RereadFormulaIff(e: string)
    ensures var n := NormaliseAttr(e);
      (match IndexOf(n, '=') case None => false case Some(j) => n[j..] == e)
      <==> NoAttrBreak(e) && |e| > 0 && e[0] == '='
  {
    var n := NormaliseAttr(e);
    NormaliseClears(e);
    if NoAttrBreak(e) && |e| > 0 && e[0] == '=' {
      NormalisePlain(e);
      assert IndexOf(n, '=') == Some(0);
      assert n[0..] == n;
    }
    match IndexOf(n, '=')
    case None =>
    case Some(j) =>
      if n[j..] == e {
        assert forall i | 0 <= i < |e| :: e[i] == n[j + i];
      }
  }

  // ---------------------------------------------------------------------
  // Rows
  // ---------------------------------------------------------------------

  /** The image of each item by `img`, in order: the elements written for a list of units, rows or tables. */
  function Images<X>(img: X -> Node, xs: seq<X>): (r: seq<Node>)
    ensures |r| == |xs|
  {
    if xs == [] then [] else Images(img, xs[..|xs| - 1]) + [img(xs[|xs| - 1])]
  }

  lemma ImagesSnoc<X>(img: X -> Node, xs: seq<X>, x: X)
    ensures Images(img, xs + [x]) == Images(img, xs) + [img(x)]
  {
    assert (xs + [x])[..|xs|] == xs;
  }

  /** A merged cell as parsed, on a line of its own at the given level. */
  function CellImageAt(level: int): Unit -> Node {
    u => CellImage(u, level)
  }

  /** A `table:table-row` as written for a row: its cells merged, one level deeper. */
  function RowImage(row: seq<CellValue>, level: int): Node {
    Element(RowTag, [], Spaced(RowCellImages(row, level + 1), level))
  }

  /** Each item read by `f` in order, stopping at the first error, as the reader's loops do. */
  function AllOk<X, Y>(f: X -> Result<Y, DecodeError>, xs: seq<X>): (r: Result<seq<Y>, DecodeError>)
    ensures r.Ok? ==> |r.value| == |xs|
  {
    if xs == [] then Ok([])
    else
      match AllOk(f, xs[..|xs| - 1])
      case Err(e) => Err(e)
      case Ok(ys) =>
        match f(xs[|xs| - 1])
        case Err(e) => Err(e)
        case Ok(y) => Ok(ys + [y])
  }

  /** Reading every item gives the items back exactly when reading each item gives it back. */
  lemma AllOkFixed<X>(f: X -> Result<X, DecodeError>, xs: seq<X>)
    ensures AllOk(f, xs) == Ok(xs) <==> forall i | 0 <= i < |xs| :: f(xs[i]) == Ok(xs[i])
  {
    if AllOk(f, xs) == Ok(xs) {
      forall i | 0 <= i < |xs| ensures f(xs[i]) == Ok(xs[i]) {
        AllOkAt(f, xs, i);
      }
    }
    if forall i | 0 <= i < |xs| :: f(xs[i]) == Ok(xs[i]) {
      AllOkOfFixed(f, xs);
    }
  }

  /** When every item reads, the `i`-th result is the `i`-th item read. */
  lemma {:induction false} AllOkAt<X, Y>(f: X -> Result<Y, DecodeError>, xs: seq<X>, i: nat)
    requires AllOk(f, xs).Ok? && i < |xs|
    ensures f(xs[i]) == Ok(AllOk(f, xs).value[i])
  {
    var n := |xs| - 1;
    var ys := AllOk(f, xs[..n]).value;
    assert AllOk(f, xs).value == ys + [f(xs[n]).value];
    if i < n {
      AllOkAt(f, xs[..n], i);
      assert xs[..n][i] == xs[i];
    }
  }

  lemma {:induction false} AllOkOfFixed<X>(f: X -> Result<X, DecodeError>, xs: seq<X>)
    requires forall i | 0 <= i < |xs| :: f(xs[i]) == Ok(xs[i])
    ensures AllOk(f, xs) == Ok(xs)
  {
    if xs != [] {
      var n := |xs| - 1;
      assert forall i | 0 <= i < n :: xs[..n][i] == xs[i];
      AllOkOfFixed(f, xs[..n]);
      assert f(xs[n]) == Ok(xs[n]);
      assert xs[..n] + [xs[n]] == xs;
    }
  }

  /** What the decoder makes of a written row: each value reread, or the first error. */
  function RereadRow(row: seq<CellValue>): Result<seq<CellValue>, DecodeError> {
    AllOk(Reread, row)
  }

  /** The decoder's result for a row agrees with the reread row: the same error, or the same values. */
  predicate AgreesCells(r: Result<Decoded, DecodeError>, s: Result<seq<CellValue>, DecodeError>) {
    match s
    case Err(e) => r == Err(e)
    case Ok(vs) => r.Ok? && r.value.values == vs
  }

  lemma CellChildrenSearch(u: Unit, level: int, name: string)
    requires name != ParagraphTag && name != LineBreakTag
    ensures ElementsByTagIn(CellImage(u, level).children, name) == []
  {
    match u.enc.contents
    case None =>
    case Some(c) =>
      SpacedSearch([Paragraph(c)], level, name);
      LinesSearch(SplitLines(c), name);
      assert ElementsByTagIn([Paragraph(c)], name) == ElementsByTagAt(Paragraph(c), name) + ElementsByTagIn([], name);
  }

  /** Searching the cells of a row finds exactly those cells, and nothing else by any other name. */
  lemma UnitImagesSearch(us: seq<Unit>, level: int, name: string)
    requires name != ParagraphTag && name != LineBreakTag
    ensures var cells := Images(CellImageAt(level), us);
      ElementsByTagIn(cells, name) == if name == CellTag then cells else []
  {
    var img := CellImageAt(level);
    forall u ensures ElementsByTagIn(img(u).children, name) == [] {
      CellChildrenSearch(u, level, name);
    }
    if name == CellTag {
      ImagesFound(img, us, name);
    } else {
      ImagesMissed(img, us, name);
    }
  }

  /** `row_elem.getElementsByTagName("table:table-cell")` on a written row gives its merged cells. */
  lemma RowCells(row: seq<CellValue>, level: int)
    ensures ElementsByTag(RowImage(row, level), CellTag) == RowCellImages(row, level + 1)
  {
    var us := RunLength(EncodeAll(row));
    SpacedSearch(Images(CellImageAt(level + 1), us), level, CellTag);
    UnitImagesSearch(us, level + 1, CellTag);
  }

  /** One pass of the cell loop over a written cell. */
  lemma CellStepImage(acc: Result<Decoded, DecodeError>, u: Unit, v: CellValue, level: int)
    requires u.enc == EncodeCell(v) && u.count >= 1
    ensures CellStep(acc, CellImage(u, level)) == StepResult(acc, Reread(v), u.count)
  {
    if acc.Ok? {
      CellImageDecodes(u, v, level, acc.value.last);
      CellImageCount(u, level);
    }
  }

  lemma ReadCellsSnoc(cells: seq<Node>, c: Node, last: Option<CellValue>)
    ensures ReadCells(cells + [c], last) == CellStep(ReadCells(cells, last), c)
  {
    assert (cells + [c])[..|cells|] == cells;
  }

  lemma RowRunLengthSnoc(row: seq<CellValue>)
    requires row != []
    ensures RunLength(EncodeAll(row)) == Push(RunLength(EncodeAll(row[..|row| - 1])), EncodeCell(row[|row| - 1]))
  {
    EncodeAllSnoc(row);
    RunLengthSnoc(EncodeAll(row[..|row| - 1]), EncodeCell(row[|row| - 1]));
  }

  lemma CopiesSnoc(x: CellValue, c: nat)
    ensures Copies(x, c + 1) == Copies(x, c) + [x]
  {
  }

  lemma RereadRowSnoc(row: seq<CellValue>)
    requires row != []
    ensures RereadRow(row) ==
      match RereadRow(row[..|row| - 1])
      case Err(e) => Err(e)
      case Ok(vs) => (match Reread(row[|row| - 1]) case Err(e) => Err(e) case Ok(x) => Ok(vs + [x]))
  {
  }

  /**
   * The cell loop over a written row, merged cells and all, gives each value reread, or stops at
   * the first value whose reading raises.
   */
  lemma {:induction false} UnitsDecode(row: seq<CellValue>, level: int, last: Option<CellValue>)
    ensures AgreesCells(ReadCells(RowCellImages(row, level), last), RereadRow(row))
  {
    if row != [] {
      var n := |row| - 1;
      UnitsDecode(row[..n], level, last);
      RowCellStep(row, level, last);
      RereadRowSnoc(row);
      AgreeStep(ReadCells(RowCellImages(row[..n], level), last), ReadCells(RowCellImages(row, level), last),
        RereadRow(row[..n]), Reread(row[n]), RereadRow(row));
    }
  }

  /** The cells written for a row, as parsed. */
  function RowCellImages(row: seq<CellValue>, level: int): seq<Node> {
    Images(CellImageAt(level), RunLength(EncodeAll(row)))
  }

  /** Writing one more value adds one more value to what the cell loop reads, whether or not it is merged. */
  lemma RowCellStep(row: seq<CellValue>, level: int, last: Option<CellValue>)
    requires row != []
    ensures Appended(ReadCells(RowCellImages(row[..|row| - 1], level), last), ReadCells(RowCellImages(row, level), last), Reread(row[|row| - 1]))
  {
    var n := |row| - 1;
    var us := RunLength(EncodeAll(row[..n]));
    RowRunLengthSnoc(row);
    EncodedReads(row[n], level);
    if us != [] {
      LastCountPositive(EncodeAll(row[..n]));
    }
    PushStep(us, EncodeCell(row[n]), Reread(row[n]), CellImageAt(level), last);
  }

  lemma SplitLast<T>(s: seq<T>)
    requires s != []
    ensures s == s[..|s| - 1] + [s[|s| - 1]]
  {
  }

  /** One more cell given to the merge loop reads as one more value, whether or not it is merged. */
  lemma PushStep(us: seq<Unit>, e: Encoded, rv: Result<CellValue, DecodeError>, img: Unit -> Node, last: Option<CellValue>)
    requires us != [] ==> us[|us| - 1].count >= 1
    requires Reads(img, e, rv)
    ensures Appended(ReadCells(Images(img, us), last), ReadCells(Images(img, Push(us, e)), last), rv)
  {
    var before, after := Images(img, us), Images(img, Push(us, e));
    if |us| > 0 && us[|us| - 1].enc == e {
      var pre, k := us[..|us| - 1], us[|us| - 1].count;
      var u, w := Unit(e, k), Unit(e, k + 1);
      assert us[|us| - 1] == u;
      SplitLast(us);
      ImagesSnoc(img, pre, u);
      ImagesSnoc(img, pre, w);
      MergedCells(Images(img, pre), img(u), img(w), rv, k, last, before, after);
    } else {
      var u := Unit(e, 1);
      ImagesSnoc(img, us, u);
      FreshCell(Images(img, us), img(u), rv, last, before, after);
    }
  }

  /** How the cell loop's result changes when one more value is read as `rv`. */
  predicate Appended(before: Result<Decoded, DecodeError>, after: Result<Decoded, DecodeError>, rv: Result<CellValue, DecodeError>) {
    && (before.Err? ==> after == before)
    && (before.Ok? && rv.Err? ==> after == Err(rv.error))
    && (before.Ok? && rv.Ok? ==> after.Ok? && after.value.values == before.value.values + [rv.value])
  }

  lemma AgreeStep(before: Result<Decoded, DecodeError>, after: Result<Decoded, DecodeError>,
                  prev: Result<seq<CellValue>, DecodeError>, rv: Result<CellValue, DecodeError>, whole: Result<seq<CellValue>, DecodeError>)
    requires AgreesCells(before, prev) && Appended(before, after, rv)
    requires whole == match prev case Err(e) => Err(e) case Ok(vs) => (match rv case Err(e) => Err(e) case Ok(x) => Ok(vs + [x]))
    ensures AgreesCells(after, whole)
  {
  }

  /** A cell that the cell loop reads as `k` copies of the result `rv`. */
  ghost predicate Behaves(c: Node, rv: Result<CellValue, DecodeError>, k: nat) {
    forall acc :: CellStep(acc, c) == StepResult(acc, rv, k)
  }

  /** Every unit of the encoding, whatever its count, reads through `img` as that many copies of `rv`. */
  ghost predicate Reads(img: Unit -> Node, e: Encoded, rv: Result<CellValue, DecodeError>) {
    forall k: nat | k >= 1 :: Behaves(img(Unit(e, k)), rv, k)
  }

  lemma EncodedReads(v: CellValue, level: int)
    ensures Reads(CellImageAt(level), EncodeCell(v), Reread(v))
  {
    forall k: nat | k >= 1 {
      CellImageBehaves(Unit(EncodeCell(v), k), v, level);
    }
  }

  lemma CellImageBehaves(u: Unit, v: CellValue, level: int)
    requires u.enc == EncodeCell(v) && u.count >= 1
    ensures Behaves(CellImage(u, level), Reread(v), u.count)
  {
    forall acc {
      CellStepImage(acc, u, v, level);
    }
  }

  /** A last cell read once more often adds one copy of its value, or fails as before. */
  lemma MergedCells(cells: seq<Node>, c1: Node, c2: Node, rv: Result<CellValue, DecodeError>, k: nat, last: Option<CellValue>,
                     before: seq<Node>, after: seq<Node>)
    requires Behaves(c1, rv, k) && Behaves(c2, rv, k + 1) && before == cells + [c1] && after == cells + [c2]
    ensures Appended(ReadCells(before, last), ReadCells(after, last), rv)
  {
    var acc := ReadCells(cells, last);
    ReadCellsSnoc(cells, c1, last);
    ReadCellsSnoc(cells, c2, last);
    assert CellStep(acc, c1) == StepResult(acc, rv, k);
    assert CellStep(acc, c2) == StepResult(acc, rv, k + 1);
    OneMoreCopy(acc, rv, k);
  }

  /** A new last cell read once. */
  lemma FreshCell(cells: seq<Node>, c: Node, rv: Result<CellValue, DecodeError>, last: Option<CellValue>,
                   before: seq<Node>, after: seq<Node>)
    requires Behaves(c, rv, 1) && before == cells && after == cells + [c]
    ensures Appended(ReadCells(before, last), ReadCells(after, last), rv)
  {
    var acc := ReadCells(cells, last);
    ReadCellsSnoc(cells, c, last);
    assert CellStep(acc, c) == StepResult(acc, rv, 1);
    if rv.Ok? {
      assert Copies(rv.value, 1) == [rv.value];
    }
  }

  /** One pass of the cell loop once the cell's value and count are known. */
  function StepResult(acc: Result<Decoded, DecodeError>, rv: Result<CellValue, DecodeError>, k: nat): Result<Decoded, DecodeError>
  {
    match acc
    case Err(e) => Err(e)
    case Ok(d) => (match rv case Err(e) => Err(e) case Ok(x) => Ok(Decoded(d.values + Copies(x, k), Some(x))))
  }

  /** Reading a value once more than before appends one copy, or fails as before. */
  lemma OneMoreCopy(acc: Result<Decoded, DecodeError>, rv: Result<CellValue, DecodeError>, k: nat)
    ensures StepResult(acc, rv, k).Err? ==> StepResult(acc, rv, k + 1) == StepResult(acc, rv, k)
    ensures StepResult(acc, rv, k).Ok? ==>
      rv.Ok? && StepResult(acc, rv, k + 1) == Ok(Decoded(StepResult(acc, rv, k).value.values + [rv.value], Some(rv.value)))
  {
    if acc.Ok? && rv.Ok? {
      CopiesSnoc(rv.value, k);
      assert acc.value.values + Copies(rv.value, k + 1) == (acc.value.values + Copies(rv.value, k)) + [rv.value];
    }
  }

  // ---------------------------------------------------------------------
  // Tables
  // ---------------------------------------------------------------------

  /** A written row as parsed, on a line of its own at the given level. */
  function RowImageAt(level: int): seq<CellValue> -> Node {
    r => RowImage(r, level)
  }

  /** What the decoder makes of written rows: each row reread, or the first error. */
  function RereadRows(rows: seq<seq<CellValue>>): Result<seq<seq<CellValue>>, DecodeError> {
    AllOk(RereadRow, rows)
  }

  /** The decoder's result for a table's rows agrees with the reread rows. */
  predicate AgreesRows(r: Result<DecodedRows, DecodeError>, s: Result<seq<seq<CellValue>>, DecodeError>) {
    match s
    case Err(e) => r == Err(e)
    case Ok(rs) => r.Ok? && r.value.rows == rs
  }

  /** A row element whose cells read as `rr`, whatever value the previous row left behind. */
  ghost predicate RowReads(x: Node, rr: Result<seq<CellValue>, DecodeError>) {
    forall last :: AgreesCells(ReadCells(ElementsByTag(x, CellTag), last), rr)
  }

  lemma RowImageReads(row: seq<CellValue>, level: int)
    ensures RowReads(RowImage(row, level), RereadRow(row))
  {
    var inner := level + 1;
    var cells := RowCellImages(row, inner);
    RowCells(row, level);
    forall last ensures AgreesCells(ReadCells(cells, last), RereadRow(row)) {
      UnitsDecode(row, inner, last);
    }
    RowReadsOf(RowImage(row, level), cells, RereadRow(row));
  }

  lemma RowReadsOf(x: Node, cells: seq<Node>, rr: Result<seq<CellValue>, DecodeError>)
    requires ElementsByTag(x, CellTag) == cells
    requires forall last :: AgreesCells(ReadCells(cells, last), rr)
    ensures RowReads(x, rr)
  {
  }

  /** One pass of the row loop over a row element that reads as `rr`. */
  lemma RowStepAgrees(acc: Result<DecodedRows, DecodeError>, x: Node, prev: Result<seq<seq<CellValue>>, DecodeError>,
                      rr: Result<seq<CellValue>, DecodeError>)
    requires AgreesRows(acc, prev) && RowReads(x, rr)
    ensures AgreesRows(RowStep(acc, x), match prev case Err(e) => Err(e) case Ok(rs) => (match rr case Err(e) => Err(e) case Ok(r) => Ok(rs + [r])))
  {
    if acc.Ok? {
      assert AgreesCells(ReadCells(ElementsByTag(x, CellTag), acc.value.last), rr);
    }
  }

  lemma {:induction false} RowsRead(img: seq<CellValue> -> Node, rows: seq<seq<CellValue>>, last: Option<CellValue>)
    requires forall r :: RowReads(img(r), RereadRow(r))
    ensures AgreesRows(ReadRows(Images(img, rows), last), RereadRows(rows))
  {
    if rows != [] {
      var n := |rows| - 1;
      var xs := Images(img, rows);
      RowsRead(img, rows[..n], last);
      assert xs[..n] == Images(img, rows[..n]);
      RowStepAgrees(ReadRows(xs[..n], last), img(rows[n]), RereadRows(rows[..n]), RereadRow(rows[n]));
    }
  }

  /** The row loop over written rows gives each row reread, or the first error of any of them. */
  lemma RowsDecode(rows: seq<seq<CellValue>>, level: int, last: Option<CellValue>)
    ensures AgreesRows(ReadRows(Images(RowImageAt(level), rows), last), RereadRows(rows))
  {
    forall r {
      RowImageReads(r, level);
    }
    RowsRead(RowImageAt(level), rows, last);
  }

  const ColumnTag: string := "table:table-column"

  /** The empty `table:table-column` element each table starts with. */
  const ColumnImage: Node := Element(ColumnTag, [], [])

  /** A `table:table` as written: the name attribute, the column, then the rows one level deeper. */
  function TableImage(t: Table, level: int): Node {
    Element(TableTag, ImageAttrs(map[TableName := t.name]), Spaced([ColumnImage] + Images(RowImageAt(level + 1), t.rows), level))
  }

  /** What the decoder makes of a written table: the name as the attribute reads back, each row reread. */
  function RereadTable(t: Table): Result<Table, DecodeError> {
    match RereadRows(t.rows)
    case Err(e) => Err(e)
    case Ok(rs) => Ok(Table(NormaliseAttr(t.name), rs))
  }

  /** Searching written rows finds exactly those rows, and nothing else by any name not used inside a row. */
  lemma RowImagesSearch(rows: seq<seq<CellValue>>, level: int, name: string)
    requires name != ParagraphTag && name != LineBreakTag && name != CellTag
    ensures var xs := Images(RowImageAt(level), rows);
      ElementsByTagIn(xs, name) == if name == RowTag then xs else []
  {
    var img := RowImageAt(level);
    forall row ensures ElementsByTagIn(img(row).children, name) == [] {
      SpacedSearch(RowCellImages(row, level + 1), level, name);
      UnitImagesSearch(RunLength(EncodeAll(row)), level + 1, name);
    }
    if name == RowTag {
      ImagesFound(img, rows, name);
    } else {
      ImagesMissed(img, rows, name);
    }
  }

  /** Searching a written table's children finds its rows, and nothing by any name not used inside a table. */
  lemma TableChildrenSearch(t: Table, level: int, name: string)
    requires name != ParagraphTag && name != LineBreakTag && name != CellTag && name != ColumnTag
    ensures ElementsByTagIn(TableImage(t, level).children, name) ==
      if name == RowTag then Images(RowImageAt(level + 1), t.rows) else []
  {
    var xs := Images(RowImageAt(level + 1), t.rows);
    ColumnRowsSearch(xs, level, name);
    RowImagesSearch(t.rows, level + 1, name);
  }

  lemma ColumnRowsSearch(xs: seq<Node>, level: int, name: string)
    requires name != ColumnTag
    ensures ElementsByTagIn(Spaced([ColumnImage] + xs, level), name) == ElementsByTagIn(xs, name)
  {
    SpacedSearch([ColumnImage] + xs, level, name);
    ElementsByTagInAppend([ColumnImage], xs, name);
    assert ElementsByTagIn([ColumnImage], name) == ElementsByTagAt(ColumnImage, name) + ElementsByTagIn([], name);
  }

  /** `TableReader` on a written table reads the name back and each row reread, or the first error. */
  lemma TableDecode(t: Table, level: int)
    ensures DecodeTable(TableImage(t, level)) == RereadTable(t)
  {
    var x := TableImage(t, level);
    var xs := Images(RowImageAt(level + 1), t.rows);
    TableChildrenSearch(t, level, RowTag);
    ImageLookup(map[TableName := t.name], TableName);
    RowsDecode(t.rows, level + 1, None);
    TableDecodeOf(x, xs, NormaliseAttr(t.name), RereadRows(t.rows));
  }

  lemma TableDecodeOf(x: Node, rowElems: seq<Node>, name: string, rr: Result<seq<seq<CellValue>>, DecodeError>)
    requires ElementsByTag(x, RowTag) == rowElems && GetAttribute(x, TableName) == name
    requires AgreesRows(ReadRows(rowElems, None), rr)
    ensures DecodeTable(x) == match rr case Err(e) => Err(e) case Ok(rs) => Ok(Table(name, rs))
  {
  }

  // ---------------------------------------------------------------------
  // The spreadsheet
  // ---------------------------------------------------------------------

  /** A written table as parsed, on a line of its own at the given level. */
  function TableImageAt(level: int): Table -> Node {
    t => TableImage(t, level)
  }

  /**
   * The `office:spreadsheet` element of a document whose tables were appended in order: it sits
   * two levels deep, below `office:document-content` and `office:body`, and its tables one deeper.
   */
  function SpreadsheetImage(ts: seq<Table>): Node {
    Element(Spreadsheet, [], Spaced(Images(TableImageAt(3), ts), 2))
  }

  /** What the decoder makes of written tables: each table reread, or the first error. */
  function RereadTables(ts: seq<Table>): Result<seq<Table>, DecodeError> {
    AllOk(RereadTable, ts)
  }

  lemma TableImagesSearch(ts: seq<Table>, level: int)
    ensures var xs := Images(TableImageAt(level), ts);
      ElementsByTagIn(xs, TableTag) == xs
  {
    forall t ensures ElementsByTagIn(TableImageAt(level)(t).children, TableTag) == [] {
      TableChildrenSearch(t, level, TableTag);
    }
    ImagesFound(TableImageAt(level), ts, TableTag);
  }

  /** A list of images, none with the name and none below it either, gives nothing. */
  lemma {:induction false} ImagesMissed<X>(img: X -> Node, xs: seq<X>, name: string)
    requires forall x :: img(x).Element? && img(x).name != name
    requires forall x :: ElementsByTagIn(img(x).children, name) == []
    ensures ElementsByTagIn(Images(img, xs), name) == []
  {
    if xs != [] {
      var n := |xs| - 1;
      var y := img(xs[n]);
      ImagesMissed(img, xs[..n], name);
      ElementsByTagInAppend(Images(img, xs[..n]), [y], name);
      assert ElementsByTagIn([y], name) == ElementsByTagAt(y, name) + ElementsByTagIn([], name);
    }
  }

  /** A list of images, each an element with the name and none below it, is found as it is. */
  lemma {:induction false} ImagesFound<X>(img: X -> Node, xs: seq<X>, name: string)
    requires forall x :: img(x).Element? && img(x).name == name
    requires forall x :: ElementsByTagIn(img(x).children, name) == []
    ensures ElementsByTagIn(Images(img, xs), name) == Images(img, xs)
  {
    if xs != [] {
      var n := |xs| - 1;
      var y := img(xs[n]);
      ImagesFound(img, xs[..n], name);
      ElementsByTagInAppend(Images(img, xs[..n]), [y], name);
      assert ElementsByTagIn([y], name) == ElementsByTagAt(y, name) + ElementsByTagIn([], name);
    }
  }

  lemma {:induction false} TablesRead(img: Table -> Node, ts: seq<Table>)
    requires forall t :: DecodeTable(img(t)) == RereadTable(t)
    ensures DecodeTables(Images(img, ts)) == RereadTables(ts)
  {
    if ts != [] {
      var n := |ts| - 1;
      var xs := Images(img, ts);
      TablesRead(img, ts[..n]);
      assert xs[..n] == Images(img, ts[..n]);
      assert DecodeTable(img(ts[n])) == RereadTable(ts[n]);
    }
  }

  /**
   * `SpreadsheetReader` on the spreadsheet a writer produced gives every table back reread: the
   * same number of tables, names and rows in order, merged cells expanded; or the first error.
   */
  lemma SpreadsheetDecodes(ts: seq<Table>)
    ensures DecodeSpreadsheet(SpreadsheetImage(ts)) == RereadTables(ts)
  {
    var xs := Images(TableImageAt(3), ts);
    SpacedSearch(xs, 2, TableTag);
    TableImagesSearch(ts, 3);
    forall t {
      TableDecode(t, 3);
    }
    TablesRead(TableImageAt(3), ts);
  }

  // ---------------------------------------------------------------------
  // Spreadsheets that come back unchanged
  // ---------------------------------------------------------------------

  predicate PreservedRow(row: seq<CellValue>) {
    forall i | 0 <= i < |row| :: Preserved(row[i])
  }

  /** A table whose name needs no normalising and all of whose values are preserved. */
  predicate PreservedTable(t: Table) {
    NoAttrBreak(t.name) && forall j | 0 <= j < |t.rows| :: PreservedRow(t.rows[j])
  }

  lemma RereadRowFixed(row: seq<CellValue>)
    ensures RereadRow(row) == Ok(row) <==> PreservedRow(row)
  {
    AllOkFixed(Reread, row);
    forall i | 0 <= i < |row| ensures Reread(row[i]) == Ok(row[i]) <==> Preserved(row[i]) {
      RereadPreserves(row[i]);
    }
  }

  lemma RereadRowsFixed(rows: seq<seq<CellValue>>)
    ensures RereadRows(rows) == Ok(rows) <==> forall j | 0 <= j < |rows| :: PreservedRow(rows[j])
  {
    AllOkFixed(RereadRow, rows);
    forall j | 0 <= j < |rows| ensures RereadRow(rows[j]) == Ok(rows[j]) <==> PreservedRow(rows[j]) {
      RereadRowFixed(rows[j]);
    }
  }

  lemma RereadTableFixed(t: Table)
    ensures RereadTable(t) == Ok(t) <==> PreservedTable(t)
  {
    RereadRowsFixed(t.rows);
    NormaliseFixed(t.name);
  }

  /**
   * Writing tables and reading the file back gives exactly the same tables if and only if every
   * table name is free of tabs and line breaks and every value is preserved.
   */
  lemma SpreadsheetPreserved(ts: seq<Table>)
    ensures DecodeSpreadsheet(SpreadsheetImage(ts)) == Ok(ts) <==> forall k | 0 <= k < |ts| :: PreservedTable(ts[k])
  {
    SpreadsheetDecodes(ts);
    AllOkFixed(RereadTable, ts);
    forall k | 0 <= k < |ts| ensures RereadTable(ts[k]) == Ok(ts[k]) <==> PreservedTable(ts[k]) {
      RereadTableFixed(ts[k]);
    }
  }
}
