/**
 * The spreadsheet decoder (`SpreadsheetReader` and `TableReader`): every `table:table` below the
 * spreadsheet element becomes a table, every `table:table-row` below a table a row, and every
 * `table:table-cell` below a row as many copies of its value as its repeat count says.
 *
 * The reader keeps the last value it decoded in one variable for the whole table; a cell whose
 * `office:value-type` is none of the four it knows assigns nothing, so it gets that stale value.
 * When no cell before it assigned one, the reader raises only once it appends a copy, that is
 * after the count was read and only for a count of at least 1.
 */
module TableReading {
  import opened Wrappers
  import opened Text
  import opened DateTimes
  import opened Cells
  import opened Dom

  /** Where the reader raises: no `=` in a formula, a timestamp `strptime` rejects, a count `int()` rejects, `val` never assigned. */
  datatype DecodeError = MalformedFormula | MalformedTimestamp | MalformedRepeatCount | UnboundValue

  const TableName: string := "table:name"
  const TableTag: string := "table:table"
  const RowTag: string := "table:table-row"
  const CellTag: string := "table:table-cell"

  /**
   * What `val` holds after the `if` chain for one cell, given what it held before: `None` while it
   * is still unassigned. A cell of an unknown `office:value-type` assigns nothing.
   */
  function DecodeValue(cell: Node, prev: Option<CellValue>): (r: Result<Option<CellValue>, DecodeError>)
    ensures HasAttribute(cell, FormulaAttr) ==>
      var f := GetAttribute(cell, FormulaAttr);
      (r.Ok? <==> '=' in f)
      && (r.Ok? ==> r.value.Some? && r.value.value.Formula?
                    && var e := r.value.value.expr;
                    |e| > 0 && e[0] == '=' && |e| <= |f| && f[|f| - |e|..] == e && '=' !in f[..|f| - |e|])
    ensures !HasAttribute(cell, FormulaAttr) && !HasAttribute(cell, ValueType) ==> r == Ok(Some(Empty))
    ensures !HasAttribute(cell, FormulaAttr) && HasAttribute(cell, ValueType) ==>
      var t := GetAttribute(cell, ValueType);
      && (t == "date" ==> (r.Ok? <==> ParseDateTime(GetAttribute(cell, DateValue)).Some?)
                          && (r.Ok? ==> r == Ok(Some(Date(ParseDateTime(GetAttribute(cell, DateValue)).value)))))
      && (t == "string" && HasAttribute(cell, StringValue) ==> r == Ok(Some(Str(GetAttribute(cell, StringValue)))))
      && (t == "string" && !HasAttribute(cell, StringValue) ==> r == Ok(Some(Str(GetText(cell)))))
      && (t == "float" ==> r == Ok(Some(Num(GetAttribute(cell, FloatValue)))))
      && (t == "boolean" ==> r.Ok? && r.value.Some? && r.value.value.Bool?
                             && (r.value.value.b <==> GetAttribute(cell, BooleanValue) == "true"))
      && (t !in {"date", "string", "float", "boolean"} ==> r == Ok(prev))
    ensures r.Ok? && r.value.None? ==> prev.None?
  {
    if HasAttribute(cell, FormulaAttr) then
      var f := GetAttribute(cell, FormulaAttr);
      match IndexOf(f, '=')
      case None => Err(MalformedFormula)
      case Some(i) => Ok(Some(Formula(f[i..])))
    else if HasAttribute(cell, ValueType) then
      var t := GetAttribute(cell, ValueType);
      if t == "date" then
        match ParseDateTime(GetAttribute(cell, DateValue))
        case None => Err(MalformedTimestamp)
        case Some(dt) => Ok(Some(Date(dt)))
      else if t == "string" then
        if HasAttribute(cell, StringValue) then Ok(Some(Str(GetAttribute(cell, StringValue))))
        else Ok(Some(Str(GetText(cell))))
      else if t == "float" then Ok(Some(Num(GetAttribute(cell, FloatValue))))
      else if t == "boolean" then Ok(Some(Bool(GetAttribute(cell, BooleanValue) == "true")))
      else Ok(prev)
    else Ok(Some(Empty))
  }

  /** `int(s)` for text of ASCII digits with an optional sign and surrounding whitespace. */
  function ParseInt(s: string): Option<int>
  {
    var t := Strip(s);
    if |t| > 0 && (t[0] == '+' || t[0] == '-') then
      match ParseNat(t[1..])
      case None => None
      case Some(n) =>
        var k: int := if t[0] == '-' then -(n as int) else n;
        Some(k)
    else
      match ParseNat(t)
      case None => None
      case Some(n) => Some(n)
  }

  /** A count written in decimal reads back as itself. */
  lemma ParseIntOfNat(n: nat)
    ensures ParseInt(NatToString(n)) == Some(n)
  {
    var s := NatToString(n);
    DigitIsPlain(s[0]);
    DigitIsPlain(s[|s| - 1]);
    StripTrimmed(s);
    ParseNatToString(n);
    UnsignedParse(s, n);
  }

  lemma UnsignedParse(s: string, n: nat)
    requires Strip(s) == s && s != [] && s[0] != '+' && s[0] != '-' && ParseNat(s) == Some(n)
    ensures ParseInt(s) == Some(n)
  {
  }

  lemma DigitIsPlain(c: char)
    requires IsDigit(c)
    ensures !IsSpace(c) && c != '+' && c != '-'
  {
  }

  /** The repeat count of a cell: 1 without the attribute, the attribute read by `int()` with it. */
  function RepeatCount(cell: Node): (r: Result<int, DecodeError>)
    ensures !HasAttribute(cell, Repeated) ==> r == Ok(1)
    ensures HasAttribute(cell, Repeated) ==> (r.Ok? <==> ParseInt(GetAttribute(cell, Repeated)).Some?)
    ensures HasAttribute(cell, Repeated) && r.Ok? ==> r.value == ParseInt(GetAttribute(cell, Repeated)).value
  {
    if HasAttribute(cell, Repeated) then
      match ParseInt(GetAttribute(cell, Repeated))
      case None => Err(MalformedRepeatCount)
      case Some(k) => Ok(k)
    else Ok(1)
  }

  /** `for i in range(k): row.append(v)`: no copies at all for a count below 1. */
  function Copies(v: CellValue, k: int): (r: seq<CellValue>)
    ensures |r| == (if k > 0 then k else 0) && forall i | 0 <= i < |r| :: r[i] == v
  {
    if k > 0 then seq(k, _ => v) else []
  }

  /** The values of a row so far and the value the reader's variable holds. */
  datatype Decoded = Decoded(values: seq<CellValue>, last: Option<CellValue>)

  /**
   * One pass of the cell loop: decode the value, read the count, append the copies. `val` is read
   * only by the first append, so an unassigned `val` raises only for a count of at least 1.
   */
  function CellStep(acc: Result<Decoded, DecodeError>, cell: Node): Result<Decoded, DecodeError>
  {
    match acc
    case Err(e) => Err(e)
    case Ok(d) =>
      match DecodeValue(cell, d.last)
      case Err(e) => Err(e)
      case Ok(val) =>
        match RepeatCount(cell)
        case Err(e) => Err(e)
        case Ok(k) =>
          if k <= 0 then Ok(Decoded(d.values, val))
          else
            match val
            case None => Err(UnboundValue)
            case Some(v) => Ok(Decoded(d.values + Copies(v, k), val))
  }

  /** The cell loop raises `UnboundLocalError` exactly when `val` is still unassigned and the count asks for a copy. */
  lemma CellStepUnbound(d: Decoded, cell: Node)
    ensures CellStep(Ok(d), cell) == Err(UnboundValue) <==>
      DecodeValue(cell, d.last) == Ok(None) && RepeatCount(cell).Ok? && RepeatCount(cell).value > 0
  {
  }

  /** A cell with a count below 1 adds nothing to the row, whatever its value. */
  lemma CellStepNoCopies(d: Decoded, cell: Node)
    requires DecodeValue(cell, d.last).Ok? && RepeatCount(cell).Ok? && RepeatCount(cell).value <= 0
    ensures CellStep(Ok(d), cell) == Ok(Decoded(d.values, DecodeValue(cell, d.last).value))
  {
  }

  /** The cells of one row read in document order, stopping at the first that raises. */
  function ReadCells(cells: seq<Node>, last: Option<CellValue>): Result<Decoded, DecodeError>
  {
    if cells == [] then Ok(Decoded([], last))
    else CellStep(ReadCells(cells[..|cells| - 1], last), cells[|cells| - 1])
  }

  /** The rows read so far and the value the reader's variable holds. */
  datatype DecodedRows = DecodedRows(rows: seq<seq<CellValue>>, last: Option<CellValue>)

  /** One pass of the row loop: a new row, filled from the cells below the row element. */
  function RowStep(acc: Result<DecodedRows, DecodeError>, rowElem: Node): Result<DecodedRows, DecodeError>
  {
    match acc
    case Err(e) => Err(e)
    case Ok(d) =>
      match ReadCells(ElementsByTag(rowElem, CellTag), d.last)
      case Err(e) => Err(e)
      case Ok(c) => Ok(DecodedRows(d.rows + [c.values], c.last))
  }

  /** The rows of one table read in document order. */
  function ReadRows(rowElems: seq<Node>, last: Option<CellValue>): Result<DecodedRows, DecodeError>
  {
    if rowElems == [] then Ok(DecodedRows([], last))
    else RowStep(ReadRows(rowElems[..|rowElems| - 1], last), rowElems[|rowElems| - 1])
  }

  datatype Table = Table(name: string, rows: seq<seq<CellValue>>)

  /** `TableReader(table_elem)`: the table's name and the rows below it, `val` starting unassigned. */
  function DecodeTable(t: Node): (r: Result<Table, DecodeError>)
    ensures r.Ok? ==> r.value.name == GetAttribute(t, TableName)
    ensures r.Ok? ==> |r.value.rows| == |ElementsByTag(t, RowTag)|
  {
    var rowElems := ElementsByTag(t, RowTag);
    match ReadRows(rowElems, None)
    case Err(e) => Err(e)
    case Ok(d) =>
      ReadRowsCount(rowElems, None);
      Ok(Table(GetAttribute(t, TableName), d.rows))
  }

  function TableStep(acc: Result<seq<Table>, DecodeError>, t: Node): Result<seq<Table>, DecodeError>
  {
    match acc
    case Err(e) => Err(e)
    case Ok(done) =>
      match DecodeTable(t)
      case Err(e) => Err(e)
      case Ok(table) => Ok(done + [table])
  }

  /** The tables below the spreadsheet element, in document order. */
  function DecodeTables(ts: seq<Node>): (r: Result<seq<Table>, DecodeError>)
    ensures r.Ok? ==> |r.value| == |ts|
  {
    if ts == [] then Ok([]) else TableStep(DecodeTables(ts[..|ts| - 1]), ts[|ts| - 1])
  }

  /** `SpreadsheetReader(spreadsheet_elem).tables`. */
  function DecodeSpreadsheet(s: Node): (r: Result<seq<Table>, DecodeError>)
    ensures r.Ok? ==> |r.value| == |ElementsByTag(s, TableTag)|
  {
    DecodeTables(ElementsByTag(s, TableTag))
  }

  /** One row is read for every row element. */
  lemma {:induction false} ReadRowsCount(rowElems: seq<Node>, last: Option<CellValue>)
    requires ReadRows(rowElems, last).Ok?
    ensures |ReadRows(rowElems, last).value.rows| == |rowElems|
  {
    if rowElems != [] {
      ReadRowsCount(rowElems[..|rowElems| - 1], last);
    }
  }

  /** The sum of the positive entries of a list of counts. */
  function SumPositive(ks: seq<int>): nat
  {
    if ks == [] then 0 else SumPositive(ks[..|ks| - 1]) + (if ks[|ks| - 1] > 0 then ks[|ks| - 1] else 0)
  }

  /** Each cell contributes as many values as its count, none for a count below 1. */
  lemma {:induction false} ReadCellsLength(cells: seq<Node>, last: Option<CellValue>, counts: seq<int>)
    requires ReadCells(cells, last).Ok?
    requires |counts| == |cells| && forall i | 0 <= i < |cells| :: RepeatCount(cells[i]) == Ok(counts[i])
    ensures |ReadCells(cells, last).value.values| == SumPositive(counts)
  {
    if cells != [] {
      var n := |cells| - 1;
      var init := ReadCells(cells[..n], last);
      assert init.Ok?;
      ReadCellsLength(cells[..n], last, counts[..n]);
      assert counts[..n] == counts[..|counts| - 1];
    }
  }

  /** Once a cell raises, the rest of the row is never read. */
  lemma {:induction false} ReadCellsErr(cells: seq<Node>, j: nat, last: Option<CellValue>)
    requires j <= |cells| && ReadCells(cells[..j], last).Err?
    ensures ReadCells(cells, last) == ReadCells(cells[..j], last)
    decreases |cells| - j
  {
    if j < |cells| {
      assert cells[..|cells| - 1][..j] == cells[..j];
      ReadCellsErr(cells[..|cells| - 1], j, last);
    } else {
      assert cells[..j] == cells;
    }
  }

  /** Once a row raises, the rest of the table is never read. */
  lemma {:induction false} ReadRowsErr(rowElems: seq<Node>, j: nat, last: Option<CellValue>)
    requires j <= |rowElems| && ReadRows(rowElems[..j], last).Err?
    ensures ReadRows(rowElems, last) == ReadRows(rowElems[..j], last)
    decreases |rowElems| - j
  {
    if j < |rowElems| {
      assert rowElems[..|rowElems| - 1][..j] == rowElems[..j];
      ReadRowsErr(rowElems[..|rowElems| - 1], j, last);
    } else {
      assert rowElems[..j] == rowElems;
    }
  }

  /** Once a table raises, the rest of the spreadsheet is never read. */
  lemma {:induction false} DecodeTablesErr(ts: seq<Node>, j: nat)
    requires j <= |ts| && DecodeTables(ts[..j]).Err?
    ensures DecodeTables(ts) == DecodeTables(ts[..j])
    decreases |ts| - j
  {
    if j < |ts| {
      assert ts[..|ts| - 1][..j] == ts[..j];
      DecodeTablesErr(ts[..|ts| - 1], j);
    } else {
      assert ts[..j] == ts;
    }
  }

  lemma ReadCellsPrefix(cells: seq<Node>, j: nat, last: Option<CellValue>)
    requires j < |cells|
    ensures ReadCells(cells[..j + 1], last) == CellStep(ReadCells(cells[..j], last), cells[j])
  {
    assert cells[..j + 1][..j] == cells[..j];
  }

  lemma ReadRowsPrefix(rowElems: seq<Node>, j: nat, last: Option<CellValue>)
    requires j < |rowElems|
    ensures ReadRows(rowElems[..j + 1], last) == RowStep(ReadRows(rowElems[..j], last), rowElems[j])
  {
    assert rowElems[..j + 1][..j] == rowElems[..j];
  }

  lemma DecodeTablesPrefix(ts: seq<Node>, j: nat)
    requires j < |ts|
    ensures DecodeTables(ts[..j + 1]) == TableStep(DecodeTables(ts[..j]), ts[j])
  {
    assert ts[..j + 1][..j] == ts[..j];
  }

  // ---------------------------------------------------------------------
  // The reader's loops
  // ---------------------------------------------------------------------

  /** The copy loop: `count` copies of the value appended to the row. */
  method AppendCopies(row: seq<CellValue>, v: CellValue, count: int) returns (row': seq<CellValue>)
    ensures row' == row + Copies(v, count)
  {
    row' := row;
    var i := 0;
    while i < count
      invariant 0 <= i && (count > 0 ==> i <= count) && (count <= 0 ==> i == 0)
      invariant row' == row + Copies(v, i)
    {
      row' := row' + [v];
      i := i + 1;
    }
    assert i == count || (count <= 0 && i == 0);
  }

  /** The cell loop of `TableReader.__init__` for one row. */
  method ReadRow(rowElem: Node, val0: Option<CellValue>) returns (r: Result<Decoded, DecodeError>)
    ensures r == ReadCells(ElementsByTag(rowElem, CellTag), val0)
  {
    var cellElems := ElementsByTag(rowElem, CellTag);
    var row: seq<CellValue> := [];
    var val := val0;
    for j := 0 to |cellElems|
      invariant ReadCells(cellElems[..j], val0) == Ok(Decoded(row, val))
    {
      var cell := cellElems[j];
      ReadCellsPrefix(cellElems, j, val0);
      var v := DecodeValue(cell, val);
      if v.Err? {
        ReadCellsErr(cellElems, j + 1, val0);
        return Err(v.error);
      }
      val := v.value;
      var count := RepeatCount(cell);
      if count.Err? {
        ReadCellsErr(cellElems, j + 1, val0);
        return Err(count.error);
      }
      if count.value > 0 {
        if val.None? {
          ReadCellsErr(cellElems, j + 1, val0);
          return Err(UnboundValue);
        }
        row := AppendCopies(row, val.value, count.value);
      }
    }
    assert cellElems[..|cellElems|] == cellElems;
    return Ok(Decoded(row, val));
  }

  /** `TableReader.__init__`: the name, then the row loop. */
  method ReadTable(t: Node) returns (r: Result<Table, DecodeError>)
    ensures r == DecodeTable(t)
  {
    var name := GetAttribute(t, TableName);
    var rowElems := ElementsByTag(t, RowTag);
    var rows: seq<seq<CellValue>> := [];
    var val: Option<CellValue> := None;
    for i := 0 to |rowElems|
      invariant ReadRows(rowElems[..i], None) == Ok(DecodedRows(rows, val))
    {
      ReadRowsPrefix(rowElems, i, None);
      var d := ReadRow(rowElems[i], val);
      if d.Err? {
        ReadRowsErr(rowElems, i + 1, None);
        return Err(d.error);
      }
      rows := rows + [d.value.values];
      val := d.value.last;
    }
    assert rowElems[..|rowElems|] == rowElems;
    return Ok(Table(name, rows));
  }

  /** `SpreadsheetReader.__init__`: one table reader per table element. */
  method ReadSpreadsheet(s: Node) returns (r: Result<seq<Table>, DecodeError>)
    ensures r == DecodeSpreadsheet(s)
  {
    var tableElems := ElementsByTag(s, TableTag);
    var tables: seq<Table> := [];
    for i := 0 to |tableElems|
      invariant DecodeTables(tableElems[..i]) == Ok(tables)
    {
      DecodeTablesPrefix(tableElems, i);
      var t := ReadTable(tableElems[i]);
      if t.Err? {
        DecodeTablesErr(tableElems, i + 1);
        return Err(t.error);
      }
      tables := tables + [t.value];
    }
    assert tableElems[..|tableElems|] == tableElems;
    return Ok(tables);
  }
}
