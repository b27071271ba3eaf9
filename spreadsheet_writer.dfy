/**
 * `SpreadsheetWriter`: the tag calls it makes on its `XmlWriter` for the document skeleton
 * (`__init__` and `close`) and for every table (`append_table`), and the proof that they nest:
 * after `__init__` three elements are open, every table closes what it opens, and `close` leaves
 * nothing open.
 */
module SpreadsheetWriting {
  import opened Wrappers
  import opened Text
  import opened Emitter
  import opened Cells

  /** The namespace declarations of the root element (the literal lists `xmlns:office` twice; the later one wins). */
  const NamespaceAttrs: map<string, string> := map[
    "xmlns:office" := "urn:oasis:names:tc:opendocument:xmlns:office:1.0",
    "xmlns:style" := "urn:oasis:names:tc:opendocument:xmlns:style:1.0",
    "xmlns:text" := "urn:oasis:names:tc:opendocument:xmlns:text:1.0",
    "xmlns:table" := "urn:oasis:names:tc:opendocument:xmlns:table:1.0",
    "xmlns:draw" := "urn:oasis:names:tc:opendocument:xmlns:drawing:1.0",
    "xmlns:fo" := "urn:oasis:names:tc:opendocument:xmlns:xsl-fo-compatible:1.0",
    "xmlns:xlink" := "http://www.w3.org/1999/xlink",
    "xmlns:dc" := "http://purl.org/dc/elements/1.1/",
    "xmlns:meta" := "urn:oasis:names:tc:opendocument:xmlns:meta:1.0",
    "xmlns:number" := "urn:oasis:names:tc:opendocument:xmlns:datastyle:1.0",
    "xmlns:presentation" := "urn:oasis:names:tc:opendocument:xmlns:presentation:1.0",
    "xmlns:svg" := "urn:oasis:names:tc:opendocument:xmlns:svg-compatible:1.0",
    "xmlns:chart" := "urn:oasis:names:tc:opendocument:xmlns:chart:1.0",
    "xmlns:dr3d" := "urn:oasis:names:tc:opendocument:xmlns:dr3d:1.0",
    "xmlns:math" := "http://www.w3.org/1998/Math/MathML",
    "xmlns:form" := "urn:oasis:names:tc:opendocument:xmlns:form:1.0",
    "xmlns:script" := "urn:oasis:names:tc:opendocument:xmlns:script:1.0",
    "xmlns:dom" := "http://www.w3.org/2001/xml-events",
    "xmlns:xforms" := "http://www.w3.org/2002/xforms",
    "xmlns:xsd" := "http://www.w3.org/2001/XMLSchema",
    "xmlns:xsi" := "http://www.w3.org/2001/XMLSchema-instance",
    "xmlns:of" := "urn:oasis:names:tc:opendocument:xmlns:of:1.2",
    "xmlns:xhtml" := "http://www.w3.org/1999/xhtml",
    "xmlns:css3t" := "http://www.w3.org/TR/css3-text/",
    "office:version" := "1.2"]

  const DocumentContent: string := "office:document-content"
  const Body: string := "office:body"
  const Spreadsheet: string := "office:spreadsheet"

  /** The elements left open between `__init__` and `close`, outermost first. */
  const DocumentStack: seq<string> := [DocumentContent, Body, Spreadsheet]

  const CellDateStyle: map<string, string> := map[
    "style:name" := "cell_date",
    "style:family" := "table-cell",
    "style:parent-style-name" := "Default",
    "style:data-style-name" := "date"]

  /** The parts of the `date` number style, each an empty or a text-only element. */
  const DateParts: seq<Event> :=
    [Simple("number:year", map["number:style" := "long"], None)]
    + [Simple("number:text", map[], Some("-"))]
    + [Simple("number:month", map["number:style" := "long"], None)]
    + [Simple("number:text", map[], Some("-"))]
    + [Simple("number:day", map["number:style" := "long"], None)]
    + [Simple("number:text", map[], Some(" "))]
    + [Simple("number:hours", map["number:style" := "long"], None)]
    + [Simple("number:text", map[], Some(":"))]
    + [Simple("number:minutes", map["number:style" := "long"], None)]

  /** The `office:automatic-styles` element: the `date` number style and the `cell_date` cell style. */
  const StyleEvents: seq<Event> :=
    [Start("office:automatic-styles", map[])]
    + ([Start("number:date-style", map["style:name" := "date"])] + DateParts + [End("number:date-style")]
       + [Simple("style:style", CellDateStyle, None)])
    + [End("office:automatic-styles")]

  /** The calls `__init__` makes after the fixed archive members are written, one per line. */
  const PrologueEvents: seq<Event> :=
    [Start(DocumentContent, NamespaceAttrs), Simple("office:scripts", map[], None)]
    + StyleEvents
    + [Start(Body, map[]), Start(Spreadsheet, map[])]

  /** The calls `close` makes. */
  const CloseEvents: seq<Event> := [End(Spreadsheet), End(Body), End(DocumentContent)]

  /** The calls for one merged cell: an empty element, or an element around a `text:p` with the contents. */
  function UnitEvents(u: Unit): seq<Event>
  {
    var atts := CellAtts(u);
    match u.enc.contents
    case None => [Simple("table:table-cell", atts, None)]
    case Some(c) => [Start("table:table-cell", atts)] + [Simple("text:p", map[], Some(c))] + [End("table:table-cell")]
  }

  function UnitsEvents(us: seq<Unit>): seq<Event>
  {
    if us == [] then [] else UnitsEvents(us[..|us| - 1]) + UnitEvents(us[|us| - 1])
  }

  function RowEvents(row: seq<CellValue>): seq<Event>
  {
    [Start("table:table-row", map[])] + UnitsEvents(RunLength(EncodeAll(row))) + [End("table:table-row")]
  }

  function RowsEvents(rows: seq<seq<CellValue>>): seq<Event>
  {
    if rows == [] then [] else RowsEvents(rows[..|rows| - 1]) + RowEvents(rows[|rows| - 1])
  }

  /** The calls `append_table(name, rows)` makes. */
  function TableEvents(name: string, rows: seq<seq<CellValue>>): seq<Event>
  {
    [Start("table:table", map["table:name" := name]), Simple("table:table-column", map[], None)]
      + RowsEvents(rows) + [End("table:table")]
  }

  // ---------------------------------------------------------------------
  // Nesting of the skeleton
  // ---------------------------------------------------------------------

  /** Calls that close everything they open, whatever is open around them. */
  ghost predicate Balanced(es: seq<Event>) {
    forall st: seq<string> {:trigger Nest(es, st)} :: Nest(es, st) == Some(st)
  }

  lemma BalancedConcat(a: seq<Event>, b: seq<Event>)
    requires Balanced(a) && Balanced(b)
    ensures Balanced(a + b)
  {
    forall st: seq<string> ensures Nest(a + b, st) == Some(st) {
      NestAppend(a, b, st);
      assert Nest(a, st) == Some(st);
      assert Nest(b, st) == Some(st);
    }
  }

  /** Opening `name`, balanced calls, then closing `name` is balanced. */
  lemma BalancedWrap(name: string, attrs: map<string, string>, inner: seq<Event>)
    requires Balanced(inner)
    ensures Balanced([Start(name, attrs)] + inner + [End(name)])
  {
    forall st: seq<string> ensures Nest([Start(name, attrs)] + inner + [End(name)], st) == Some(st) {
      var open := [Start(name, attrs)];
      assert Nest(open, st) == Some(st + [name]) by {
        assert open[..0] == [];
      }
      NestAppend(open, inner, st);
      assert Nest(inner, st + [name]) == Some(st + [name]);
      NestAppend(open + inner, [End(name)], st);
      var close := [End(name)];
      assert close[..0] == [];
      assert (st + [name])[..|st + [name]| - 1] == st;
    }
  }

  lemma BalancedSimple(e: Event)
    requires e.Simple?
    ensures Balanced([e])
  {
    forall st: seq<string> ensures Nest([e], st) == Some(st) {
      assert [e][..0] == [];
    }
  }

  lemma BalancedEmpty()
    ensures Balanced([])
  {
    forall st: seq<string> ensures Nest([], st) == Some(st) {
    }
  }

  lemma UnitBalanced(u: Unit)
    ensures Balanced(UnitEvents(u))
  {
    var atts := CellAtts(u);
    match u.enc.contents
    case None =>
      BalancedSimple(Simple("table:table-cell", atts, None));
    case Some(c) =>
      var p := Simple("text:p", map[], Some(c));
      BalancedSimple(p);
      BalancedWrap("table:table-cell", atts, [p]);
      assert UnitEvents(u) == [Start("table:table-cell", atts)] + [p] + [End("table:table-cell")];
  }

  lemma {:induction false} UnitsBalanced(us: seq<Unit>)
    ensures Balanced(UnitsEvents(us))
  {
    if us == [] {
      BalancedEmpty();
    } else {
      UnitsBalanced(us[..|us| - 1]);
      UnitBalanced(us[|us| - 1]);
      BalancedConcat(UnitsEvents(us[..|us| - 1]), UnitEvents(us[|us| - 1]));
    }
  }

  lemma {:induction false} RowsBalanced(rows: seq<seq<CellValue>>)
    ensures Balanced(RowsEvents(rows))
  {
    if rows == [] {
      BalancedEmpty();
    } else {
      var row := rows[|rows| - 1];
      RowsBalanced(rows[..|rows| - 1]);
      UnitsBalanced(RunLength(EncodeAll(row)));
      BalancedWrap("table:table-row", map[], UnitsEvents(RunLength(EncodeAll(row))));
      BalancedConcat(RowsEvents(rows[..|rows| - 1]), RowEvents(row));
    }
  }

  /** `append_table` closes every element it opens, so it returns the writer to the indentation it found. */
  lemma TableBalanced(name: string, rows: seq<seq<CellValue>>)
    ensures forall st: seq<string> :: Nest(TableEvents(name, rows), st) == Some(st)
    ensures Net(TableEvents(name, rows)) == 0
  {
    TableEventsBalanced(name, rows);
    assert Nest(TableEvents(name, rows), []) == Some([]);
    NestDepth(TableEvents(name, rows), []);
  }

  lemma TableEventsBalanced(name: string, rows: seq<seq<CellValue>>)
    ensures Balanced(TableEvents(name, rows))
  {
    var column := Simple("table:table-column", map[], None);
    RowsBalanced(rows);
    BalancedSimple(column);
    BalancedConcat([column], RowsEvents(rows));
    BalancedWrap("table:table", map["table:name" := name], [column] + RowsEvents(rows));
    TableEventsWrap(name, rows, column);
  }

  lemma TableEventsWrap(name: string, rows: seq<seq<CellValue>>, column: Event)
    requires column == Simple("table:table-column", map[], None)
    ensures TableEvents(name, rows) == [Start("table:table", map["table:name" := name])] + ([column] + RowsEvents(rows)) + [End("table:table")]
  {
  }

  /** The date parts written one call at a time after `base`. */
  lemma DatePartsAppended(base: seq<Event>)
    ensures base
      + [Simple("number:year", map["number:style" := "long"], None)]
      + [Simple("number:text", map[], Some("-"))]
      + [Simple("number:month", map["number:style" := "long"], None)]
      + [Simple("number:text", map[], Some("-"))]
      + [Simple("number:day", map["number:style" := "long"], None)]
      + [Simple("number:text", map[], Some(" "))]
      + [Simple("number:hours", map["number:style" := "long"], None)]
      + [Simple("number:text", map[], Some(":"))]
      + [Simple("number:minutes", map["number:style" := "long"], None)]
      == base + DateParts
  {
  }

  /** The prologue written one call at a time by a fresh writer. */
  lemma PrologueAppended()
    ensures [] + [Start(DocumentContent, NamespaceAttrs)] + [Simple("office:scripts", map[], None)]
      + StyleEvents + [Start(Body, map[])] + [Start(Spreadsheet, map[])]
      == PrologueEvents
  {
  }

  /** The styles element written one call at a time after `base`. */
  lemma StylesAppended(base: seq<Event>)
    ensures base + [Start("office:automatic-styles", map[])] + [Start("number:date-style", map["style:name" := "date"])]
      + DateParts + [End("number:date-style")] + [Simple("style:style", CellDateStyle, None)] + [End("office:automatic-styles")]
      == base + StyleEvents
  {
  }

  lemma {:induction false} SimplesBalanced(es: seq<Event>)
    requires forall i | 0 <= i < |es| :: es[i].Simple?
    ensures Balanced(es)
  {
    if es == [] {
      BalancedEmpty();
    } else {
      var init, last := es[..|es| - 1], es[|es| - 1];
      SimplesBalanced(init);
      BalancedSimple(last);
      BalancedConcat(init, [last]);
      assert init + [last] == es;
    }
  }

  /** The styles element closes everything it opens. */
  lemma StylesBalanced()
    ensures Balanced(StyleEvents)
  {
    var style := Simple("style:style", CellDateStyle, None);
    SimplesBalanced(DateParts);
    BalancedWrap("number:date-style", map["style:name" := "date"], DateParts);
    BalancedSimple(style);
    BalancedConcat([Start("number:date-style", map["style:name" := "date"])] + DateParts + [End("number:date-style")], [style]);
    BalancedWrap("office:automatic-styles", map[], [Start("number:date-style", map["style:name" := "date"])] + DateParts + [End("number:date-style")] + [style]);
  }

  /** `__init__` leaves exactly the document, body and spreadsheet elements open, at indentation 3. */
  lemma PrologueNests()
    ensures Nest(PrologueEvents, []) == Some(DocumentStack)
    ensures Net(PrologueEvents) == 3
  {
    var head := [Start(DocumentContent, NamespaceAttrs), Simple("office:scripts", map[], None)];
    var tail := [Start(Body, map[]), Start(Spreadsheet, map[])];
    NestTwo(head[0], head[1], []);
    assert [] + [DocumentContent] == [DocumentContent];
    assert Nest(head, []) == Some([DocumentContent]);
    StylesBalanced();
    assert Nest(StyleEvents, [DocumentContent]) == Some([DocumentContent]);
    NestAppend(head, StyleEvents, []);
    NestTwo(tail[0], tail[1], [DocumentContent]);
    assert [DocumentContent] + [Body] + [Spreadsheet] == DocumentStack;
    NestAppend(head + StyleEvents, tail, []);
    NestDepth(PrologueEvents, []);
  }

  lemma NestSnoc(es: seq<Event>, e: Event, open: seq<string>, s: seq<string>)
    requires Nest(es, open) == Some(s)
    ensures Nest(es + [e], open) == NestStep(e, s)
  {
    assert (es + [e])[..|es + [e]| - 1] == es;
  }

  lemma NestOne(e: Event, open: seq<string>)
    ensures Nest([e], open) == NestStep(e, open)
  {
    assert [e][..0] == [];
  }

  lemma NestTwo(e: Event, f: Event, open: seq<string>)
    ensures Nest([e, f], open) == match NestStep(e, open) case None => None case Some(s) => NestStep(f, s)
  {
    NestAppend([e], [f], open);
    assert [e] + [f] == [e, f];
    NestOne(e, open);
    if NestStep(e, open).Some? {
      NestOne(f, NestStep(e, open).value);
    }
  }

  /** `close` closes the three elements `__init__` left open, back to indentation 0. */
  lemma CloseNests()
    ensures Nest(CloseEvents, DocumentStack) == Some([])
    ensures Net(CloseEvents) == -3
  {
    NestTwo(End(Spreadsheet), End(Body), DocumentStack);
    assert DocumentStack[..2] == [DocumentContent, Body];
    assert [DocumentContent, Body][..1] == [DocumentContent];
    NestAppend([End(Spreadsheet), End(Body)], [End(DocumentContent)], DocumentStack);
    NestOne(End(DocumentContent), [DocumentContent]);
    assert [End(Spreadsheet), End(Body)] + [End(DocumentContent)] == CloseEvents;
    NestDepth(CloseEvents, DocumentStack);
  }

  /** The merge loop of `append_table` for one row: each value encoded, runs of equal cells counted. */
  method MergeRow(row: seq<CellValue>) returns (cells: seq<Unit>)
    ensures cells == RunLength(EncodeAll(row))
  {
    cells := [];
    for j := 0 to |row|
      invariant cells == RunLength(EncodeAll(row[..j]))
    {
      var enc := EncodeCell(row[j]);
      if |cells| > 0 && cells[|cells| - 1].enc == enc {
        cells := cells[..|cells| - 1] + [Unit(enc, cells[|cells| - 1].count + 1)];
      } else {
        cells := cells + [Unit(enc, 1)];
      }
      assert row[..j + 1][..j] == row[..j];
    }
    assert row[..|row|] == row;
  }

  lemma AppendAssocEvents(a: seq<Event>, b: seq<Event>, c: seq<Event>)
    ensures a + b + c == a + (b + c)
  {
  }

  lemma RowAppended(base: seq<Event>, cells: seq<Unit>, row: seq<CellValue>)
    requires cells == RunLength(EncodeAll(row))
    ensures base + [Start("table:table-row", map[])] + UnitsEvents(cells) + [End("table:table-row")]
      == base + RowEvents(row)
  {
  }

  lemma UnitEventsNone(u: Unit, atts: map<string, string>, es: seq<Event>, all: seq<Event>)
    requires u.enc.contents.None? && atts == CellAtts(u)
    requires all == es + [Simple("table:table-cell", atts, None)]
    ensures all == es + UnitEvents(u)
  {
  }

  lemma UnitEventsSome(u: Unit, atts: map<string, string>, es: seq<Event>, all: seq<Event>)
    requires u.enc.contents.Some? && atts == CellAtts(u)
    requires all == es + [Start("table:table-cell", atts)] + [Simple("text:p", map[], u.enc.contents)] + [End("table:table-cell")]
    ensures all == es + UnitEvents(u)
  {
    ThreeEvents(es, Start("table:table-cell", atts), Simple("text:p", map[], u.enc.contents), End("table:table-cell"), all);
  }

  lemma ThreeEvents(es: seq<Event>, a: Event, b: Event, c: Event, all: seq<Event>)
    requires all == es + [a] + [b] + [c]
    ensures all == es + ([a] + [b] + [c])
  {
  }

  lemma TableShape(base: seq<Event>, head: seq<Event>, name: string, rows: seq<seq<CellValue>>, es: seq<Event>)
    requires head == base + [Start("table:table", map["table:name" := name])] + [Simple("table:table-column", map[], None)]
    requires es == head + RowsEvents(rows) + [End("table:table")]
    ensures es == base + TableEvents(name, rows)
  {
  }

  /** Appending a table to an open document keeps it open, at the same depth, and renders as the table's own calls. */
  lemma TableAppended(base: seq<Event>, name: string, rows: seq<seq<CellValue>>, es: seq<Event>)
    requires Nest(base, []) == Some(DocumentStack)
    requires es == base + TableEvents(name, rows)
    ensures Nest(es, []) == Some(DocumentStack)
    ensures Net(es) == Net(base)
    ensures Render(es, 0) == Render(base, 0) + Render(TableEvents(name, rows), Net(base))
  {
    TableBalanced(name, rows);
    NestAppend(base, TableEvents(name, rows), []);
    NestDepth(base, []);
    NestDepth(es, []);
    RenderAppend(base, TableEvents(name, rows), 0, Net(base));
  }

  lemma OutputAppended(out0: string, out: string, h: string, x: string, y: string, z: string)
    requires out0 == h + x && out == h + y && y == x + z
    ensures out == out0 + z
  {
  }

  // ---------------------------------------------------------------------
  // The writer object
  // ---------------------------------------------------------------------

  /**
   * `SpreadsheetWriter`, reduced to the content stream: its `XmlWriter` and whether `close` has
   * run. The archive members with fixed text are not part of this model.
   */
  class SpreadsheetWriter {
    const writer: XmlWriter
    ghost var isOpen: bool

    /** The writer's calls nest, with the document skeleton open until `close`. */
    ghost predicate Valid()
      reads this, writer
    {
      writer.Valid() && Nest(writer.events, []) == Some(if isOpen then DocumentStack else [])
    }

    /** `__init__`: writes the XML declaration and the document skeleton up to the spreadsheet body. */
    constructor ()
      ensures Valid() && isOpen && fresh(writer)
      ensures writer.events == PrologueEvents && writer.indentation == 3
    {
      var w := new XmlWriter();
      writer := w;
      new;
      w.StartTag(DocumentContent, NamespaceAttrs);
      w.SimpleTag("office:scripts", map[], None);
      WriteStyles();
      w.StartTag(Body, map[]);
      w.StartTag(Spreadsheet, map[]);
      PrologueAppended();
      PrologueNests();
      isOpen := true;
    }

    /** The `office:automatic-styles` part of `__init__`. */
    method WriteStyles()
      requires writer.Valid()
      modifies writer
      ensures writer.Valid() && writer.events == old(writer.events) + StyleEvents
    {
      ghost var base := writer.events;
      writer.StartTag("office:automatic-styles", map[]);
      writer.StartTag("number:date-style", map["style:name" := "date"]);
      WriteDateParts();
      writer.EndTag("number:date-style");
      writer.SimpleTag("style:style", CellDateStyle, None);
      writer.EndTag("office:automatic-styles");
      StylesAppended(base);
    }

    /** The parts of the `date` number style, year to minutes. */
    method WriteDateParts()
      requires writer.Valid()
      modifies writer
      ensures writer.Valid() && writer.events == old(writer.events) + DateParts
    {
      ghost var base := writer.events;
      writer.SimpleTag("number:year", map["number:style" := "long"], None);
      writer.SimpleTag("number:text", map[], Some("-"));
      writer.SimpleTag("number:month", map["number:style" := "long"], None);
      writer.SimpleTag("number:text", map[], Some("-"));
      writer.SimpleTag("number:day", map["number:style" := "long"], None);
      writer.SimpleTag("number:text", map[], Some(" "));
      writer.SimpleTag("number:hours", map["number:style" := "long"], None);
      writer.SimpleTag("number:text", map[], Some(":"));
      writer.SimpleTag("number:minutes", map["number:style" := "long"], None);
      DatePartsAppended(base);
    }

    /**
     * `append_table(name, rows)`: one `table:table` element with a column element and a row per
     * row. The writer ends at the indentation it started at, and the text appended is the
     * rendering of the table's calls.
     */
    method AppendTable(name: string, rows: seq<seq<CellValue>>)
      requires Valid() && isOpen
      modifies writer
      ensures Valid() && isOpen
      ensures writer.events == old(writer.events) + TableEvents(name, rows)
      ensures writer.indentation == old(writer.indentation)
      ensures writer.output == old(writer.output) + Render(TableEvents(name, rows), old(writer.indentation))
    {
      ghost var base, out0 := writer.events, writer.output;
      writer.StartTag("table:table", map["table:name" := name]);
      writer.SimpleTag("table:table-column", map[], None);
      ghost var head := writer.events;
      WriteRows(rows);
      writer.EndTag("table:table");
      TableShape(base, head, name, rows, writer.events);
      TableAppended(base, name, rows, writer.events);
      OutputAppended(out0, writer.output, Header, Render(base, 0), Render(writer.events, 0),
        Render(TableEvents(name, rows), Net(base)));
    }

    /** The row loop of `append_table`. */
    method WriteRows(rows: seq<seq<CellValue>>)
      requires writer.Valid()
      modifies writer
      ensures writer.Valid() && writer.events == old(writer.events) + RowsEvents(rows)
    {
      ghost var head := writer.events;
      for r := 0 to |rows|
        invariant writer.Valid()
        invariant writer.events == head + RowsEvents(rows[..r])
      {
        WriteRow(rows[r]);
        assert rows[..r + 1][..r] == rows[..r];
        AppendAssocEvents(head, RowsEvents(rows[..r]), RowEvents(rows[r]));
      }
      assert rows[..|rows|] == rows;
    }

    /** One row of `append_table`: the row element around the row's merged cells. */
    method WriteRow(row: seq<CellValue>)
      requires writer.Valid()
      modifies writer
      ensures writer.Valid() && writer.events == old(writer.events) + RowEvents(row)
    {
      ghost var base := writer.events;
      writer.StartTag("table:table-row", map[]);
      var cells := MergeRow(row);
      WriteUnits(cells);
      writer.EndTag("table:table-row");
      RowAppended(base, cells, row);
    }

    /** The cell loop of `append_table` for one row. */
    method WriteUnits(cells: seq<Unit>)
      requires writer.Valid()
      modifies writer
      ensures writer.Valid() && writer.events == old(writer.events) + UnitsEvents(cells)
    {
      ghost var head := writer.events;
      for k := 0 to |cells|
        invariant writer.Valid()
        invariant writer.events == head + UnitsEvents(cells[..k])
      {
        WriteUnit(cells[k]);
        assert cells[..k + 1][..k] == cells[..k];
        AppendAssocEvents(head, UnitsEvents(cells[..k]), UnitEvents(cells[k]));
      }
      assert cells[..|cells|] == cells;
    }

    /** One merged cell of `append_table`, with the repeat count added to its attributes when it exceeds 1. */
    method WriteUnit(u: Unit)
      requires writer.Valid()
      modifies writer
      ensures writer.Valid() && writer.events == old(writer.events) + UnitEvents(u)
    {
      var atts := CellAtts(u);
      var contents := u.enc.contents;
      ghost var e0 := writer.events;
      if contents.None? {
        writer.SimpleTag("table:table-cell", atts, None);
        UnitEventsNone(u, atts, e0, writer.events);
      } else {
        writer.StartTag("table:table-cell", atts);
        writer.SimpleTag("text:p", map[], contents);
        writer.EndTag("table:table-cell");
        UnitEventsSome(u, atts, e0, writer.events);
      }
    }

    /** `close`: closes the spreadsheet body, the body and the document, back to indentation 0. */
    method Close()
      requires Valid() && isOpen
      modifies this, writer
      ensures Valid() && !isOpen
      ensures writer.events == old(writer.events) + CloseEvents
      ensures writer.indentation == 0
    {
      ghost var base := writer.events;
      writer.EndTag(Spreadsheet);
      writer.EndTag(Body);
      writer.EndTag(DocumentContent);
      isOpen := false;
      assert writer.events == base + CloseEvents;
      CloseNests();
      NestAppend(base, CloseEvents, []);
      NestDepth(writer.events, []);
    }
  }
}
