/**
 * The cell encoder of `SpreadsheetWriter.append_table`: every value of a row becomes an attribute
 * map and optional inline text, and runs of equal encoded cells are merged into one unit carrying
 * a repeat count.
 */
module Cells {
  import opened Wrappers
  import opened Text
  import opened DateTimes

  const ValueType: string := "office:value-type"
  const DateValue: string := "office:date-value"
  const StyleName: string := "table:style-name"
  const BooleanValue: string := "office:boolean-value"
  const FloatValue: string := "office:value"
  const StringValue: string := "office:string-value"
  const FormulaAttr: string := "table:formula"
  const Repeated: string := "table:number-columns-repeated"

  /**
   * A cell value: a `datetime`, a `str`, a `bool`, a number (carried as the text `str()` gives
   * it), a formula (the text `str()` gives it), `None`, or any other object (carried as its `str()`).
   */
  datatype CellValue =
    | Date(dt: DateTime)
    | Str(s: string)
    | Bool(b: bool)
    | Num(text: string)
    | Formula(expr: string)
    | Empty
    | Opaque(repr: string)

  /** One encoded cell: its attributes and the text written as a `text:p` inside it, if any. */
  datatype Encoded = Encoded(atts: map<string, string>, contents: Option<string>)

  /** The attribute map and contents the writer builds for one value. */
  function EncodeCell(v: CellValue): (c: Encoded)
    ensures Repeated !in c.atts
    ensures c.contents.Some? <==> v.Str?
    ensures ValueType in c.atts <==> !(v.Formula? || v.Empty?)
    ensures FormulaAttr in c.atts <==> v.Formula?
    ensures c.atts == map[] <==> v.Empty?
  {
    match v
    case Date(dt) =>
      Encoded(map[ValueType := "date", DateValue := FormatDateTime(dt), StyleName := "cell_date"], None)
    case Str(s) => Encoded(map[ValueType := "string"], Some(s))
    case Bool(b) => Encoded(map[ValueType := "boolean", BooleanValue := if b then "true" else "false"], None)
    case Num(text) => Encoded(map[ValueType := "float", FloatValue := text], None)
    case Formula(expr) => Encoded(map[FormulaAttr := "of:" + expr], None)
    case Empty => Encoded(map[], None)
    case Opaque(repr) => Encoded(map[ValueType := "string", StringValue := repr], None)
  }

  function EncodeAll(row: seq<CellValue>): (es: seq<Encoded>)
    ensures |es| == |row| && forall i | 0 <= i < |row| :: es[i] == EncodeCell(row[i])
  {
    if row == [] then [] else EncodeAll(row[..|row| - 1]) + [EncodeCell(row[|row| - 1])]
  }

  /**
   * Distinct values get distinct encodings: in particular a `str` and an object whose `str()` is
   * that same text are written differently, and two dates are written alike only when they are equal.
   */
  lemma {:induction false} EncodeCellInjective(v: CellValue, w: CellValue)
    requires v.Date? ==> ValidDateTime(v.dt)
    requires w.Date? ==> ValidDateTime(w.dt)
    requires EncodeCell(v) == EncodeCell(w)
    ensures v == w
  {
    var c := EncodeCell(v);
    match v
    case Date(dt) =>
      assert c.atts[ValueType] == "date";
      assert w.Date?;
      assert FormatDateTime(dt) == c.atts[DateValue] == FormatDateTime(w.dt);
      FormatInjective(dt, w.dt);
    case Str(_) =>
    case Bool(b) =>
      assert c.atts[ValueType] == "boolean";
      assert w.Bool?;
      assert c.atts[BooleanValue] == if b then "true" else "false";
    case Num(t) =>
      assert c.atts[ValueType] == "float";
      assert w.Num?;
      assert c.atts[FloatValue] == t;
    case Formula(e) =>
      assert c.atts[FormulaAttr] == "of:" + e;
      assert "of:" + w.expr == "of:" + e;
      assert e == ("of:" + e)[3..] && w.expr == ("of:" + w.expr)[3..];
    case Empty =>
    case Opaque(r) =>
      assert c.atts[ValueType] == "string";
      assert StringValue in c.atts;
      assert w.Opaque?;
      assert c.atts[StringValue] == r;
  }

  // The attributes written for each kind of value, one kind at a time.

  lemma DateAtts(dt: DateTime)
    ensures var c := EncodeCell(Date(dt)); var m := c.atts;
      && m.Keys == {ValueType, DateValue, StyleName} && c.contents == None
      && m[ValueType] == "date" && m[DateValue] == FormatDateTime(dt) && m[StyleName] == "cell_date"
  {
  }

  lemma StrAtts(s: string)
    ensures var c := EncodeCell(Str(s)); var m := c.atts;
      m.Keys == {ValueType} && m[ValueType] == "string" && c.contents == Some(s)
  {
  }

  lemma BoolAtts(b: bool)
    ensures var c := EncodeCell(Bool(b)); var m := c.atts;
      && m.Keys == {ValueType, BooleanValue} && c.contents == None
      && m[ValueType] == "boolean" && m[BooleanValue] == if b then "true" else "false"
  {
  }

  lemma NumAtts(t: string)
    ensures var c := EncodeCell(Num(t)); var m := c.atts;
      m.Keys == {ValueType, FloatValue} && c.contents == None && m[ValueType] == "float" && m[FloatValue] == t
  {
  }

  lemma FormulaAtts(e: string)
    ensures var c := EncodeCell(Formula(e)); var m := c.atts;
      m.Keys == {FormulaAttr} && c.contents == None && m[FormulaAttr] == "of:" + e
  {
  }

  lemma OpaqueAtts(r: string)
    ensures var c := EncodeCell(Opaque(r)); var m := c.atts;
      && m.Keys == {ValueType, StringValue} && c.contents == None
      && m[ValueType] == "string" && m[StringValue] == r
  {
  }

  // ---------------------------------------------------------------------
  // Run-length merge
  // ---------------------------------------------------------------------

  /** A merged cell: one encoded cell written once with a repeat count. */
  datatype Unit = Unit(enc: Encoded, count: nat)

  /** One step of the merge: extend the last unit when the next cell equals it, else start a unit. */
  function Push(us: seq<Unit>, e: Encoded): seq<Unit>
  {
    if |us| > 0 && us[|us| - 1].enc == e then us[..|us| - 1] + [Unit(e, us[|us| - 1].count + 1)]
    else us + [Unit(e, 1)]
  }

  /** The units the merge loop has built after the given cells. */
  function RunLength(es: seq<Encoded>): seq<Unit>
  {
    if es == [] then [] else Push(RunLength(es[..|es| - 1]), es[|es| - 1])
  }

  function Repeat(e: Encoded, n: nat): (r: seq<Encoded>)
    ensures |r| == n && forall i | 0 <= i < n :: r[i] == e
  {
    seq(n, _ => e)
  }

  /** The cells a list of units stands for, each unit repeated `count` times. */
  function Expand(us: seq<Unit>): seq<Encoded>
  {
    if us == [] then [] else Expand(us[..|us| - 1]) + Repeat(us[|us| - 1].enc, us[|us| - 1].count)
  }

  function TotalCount(us: seq<Unit>): nat
  {
    if us == [] then 0 else TotalCount(us[..|us| - 1]) + us[|us| - 1].count
  }

  predicate CountsPositive(us: seq<Unit>) {
    forall i | 0 <= i < |us| :: us[i].count >= 1
  }

  predicate AdjacentDistinct(us: seq<Unit>) {
    forall i | 0 < i < |us| :: us[i - 1].enc != us[i].enc
  }

  /** What the merge guarantees about its units. */
  predicate WellMerged(us: seq<Unit>, es: seq<Encoded>) {
    CountsPositive(us) && AdjacentDistinct(us) && Expand(us) == es && TotalCount(us) == |es|
  }

  lemma ExpandLength(us: seq<Unit>)
    ensures |Expand(us)| == TotalCount(us)
  {
    if us != [] {
      ExpandLength(us[..|us| - 1]);
    }
  }

  /** One merge step keeps the units well merged, now for the extended row. */
  lemma PushWellMerged(us: seq<Unit>, es: seq<Encoded>, e: Encoded)
    requires WellMerged(us, es)
    ensures WellMerged(Push(us, e), es + [e])
    ensures |Push(us, e)| <= |us| + 1
  {
    var r := Push(us, e);
    if |us| > 0 && us[|us| - 1].enc == e {
      var init, last := us[..|us| - 1], us[|us| - 1];
      assert r[..|r| - 1] == init;
      assert us[..|us| - 1] == init;
      assert Expand(r) == Expand(init) + Repeat(e, last.count + 1);
      assert Repeat(e, last.count + 1) == Repeat(e, last.count) + [e];
      assert Expand(us) == Expand(init) + Repeat(e, last.count);
      assert Expand(r) == Expand(us) + [e];
      assert TotalCount(r) == TotalCount(init) + last.count + 1;
      forall i | 0 < i < |r| ensures r[i - 1].enc != r[i].enc {
        assert r[i].enc == us[i].enc && r[i - 1].enc == us[i - 1].enc;
      }
    } else {
      assert r[..|r| - 1] == us;
      assert Repeat(e, 1) == [e];
    }
  }

  /**
   * The merge: every unit has a count of at least 1, the counts add up to the number of cells,
   * expanding the units gives the cells back, no two adjacent units are equal, and there are
   * never more units than cells.
   */
  lemma {:induction false} RunLengthWellMerged(es: seq<Encoded>)
    ensures WellMerged(RunLength(es), es)
    ensures |RunLength(es)| <= |es|
  {
    if es != [] {
      var init := es[..|es| - 1];
      RunLengthWellMerged(init);
      PushWellMerged(RunLength(init), init, es[|es| - 1]);
      assert init + [es[|es| - 1]] == es;
    }
  }

  /** Encoding a row with one more value adds that value's encoding at the end. */
  lemma EncodeAllSnoc(row: seq<CellValue>)
    requires row != []
    ensures EncodeAll(row) == EncodeAll(row[..|row| - 1]) + [EncodeCell(row[|row| - 1])]
  {
  }

  /** One more cell is one more step of the merge. */
  lemma RunLengthSnoc(es: seq<Encoded>, e: Encoded)
    ensures RunLength(es + [e]) == Push(RunLength(es), e)
  {
    assert (es + [e])[..|es|] == es;
  }

  /** Every unit the merge builds stands for at least one cell. */
  lemma LastCountPositive(es: seq<Encoded>)
    requires RunLength(es) != []
    ensures RunLength(es)[|RunLength(es)| - 1].count >= 1
  {
    RunLengthWellMerged(es);
  }

  /** The well-merged units of a row are unique, so the merge computes the canonical run-length form. */
  lemma {:induction false} WellMergedUnique(us: seq<Unit>, vs: seq<Unit>, es: seq<Encoded>)
    requires WellMerged(us, es) && WellMerged(vs, es)
    ensures us == vs
    decreases |es|
  {
    TotalCountZero(us);
    TotalCountZero(vs);
    if es != [] {
      var u, v := us[|us| - 1], vs[|vs| - 1];
      var us', vs' := us[..|us| - 1], vs[..|vs| - 1];
      ExpandLength(us');
      ExpandLength(vs');
      assert es[|es| - 1] == u.enc by {
        assert Expand(us) == Expand(us') + Repeat(u.enc, u.count);
      }
      assert es[|es| - 1] == v.enc by {
        assert Expand(vs) == Expand(vs') + Repeat(v.enc, v.count);
      }
      if u.count == v.count {
        var k := |es| - u.count;
        assert Expand(us') == es[..k];
        assert Expand(vs') == es[..k];
        WellMergedPrefix(us');
        WellMergedPrefix(vs');
        WellMergedUnique(us', vs', es[..k]);
        assert us == us' + [u] && vs == vs' + [v];
      } else {
        LastRunLength(us, es);
        LastRunLength(vs, es);
      }
    }
  }

  lemma TotalCountZero(us: seq<Unit>)
    requires CountsPositive(us)
    ensures TotalCount(us) == 0 <==> us == []
  {
  }

  lemma WellMergedPrefix(us: seq<Unit>)
    requires CountsPositive(us) && AdjacentDistinct(us)
    ensures WellMerged(us, Expand(us))
  {
    ExpandLength(us);
  }

  /** The last unit's count is exactly the length of the run of equal cells ending the row. */
  lemma LastRunLength(us: seq<Unit>, es: seq<Encoded>)
    requires WellMerged(us, es) && us != []
    ensures var u := us[|us| - 1];
      u.count <= |es| && (forall i | |es| - u.count <= i < |es| :: es[i] == u.enc)
      && (u.count < |es| ==> es[|es| - u.count - 1] != u.enc)
  {
    var u, us' := us[|us| - 1], us[..|us| - 1];
    ExpandLength(us');
    assert Expand(us) == Expand(us') + Repeat(u.enc, u.count);
    if u.count < |es| {
      assert us' != [];
      var p := us'[|us'| - 1];
      assert p == us[|us| - 2];
      ExpandLength(us'[..|us'| - 1]);
      assert Expand(us') == Expand(us'[..|us'| - 1]) + Repeat(p.enc, p.count);
      assert es[|es| - u.count - 1] == Expand(us')[|Expand(us')| - 1];
    }
  }

  /** The merge loop's units are the unique well-merged units of the row. */
  lemma RunLengthCanonical(us: seq<Unit>, es: seq<Encoded>)
    requires WellMerged(us, es)
    ensures us == RunLength(es)
  {
    RunLengthWellMerged(es);
    WellMergedUnique(us, RunLength(es), es);
  }

  /** The attributes a unit is written with: the repeat count is added when it exceeds 1. */
  function CellAtts(u: Unit): (atts: map<string, string>)
    ensures Repeated in atts <==> Repeated in u.enc.atts || u.count > 1
    ensures u.count > 1 ==> atts[Repeated] == NatToString(u.count)
    ensures forall k | k in u.enc.atts && k != Repeated :: k in atts && atts[k] == u.enc.atts[k]
    ensures forall k | k in atts && k != Repeated :: k in u.enc.atts
  {
    if u.count > 1 then u.enc.atts[Repeated := NatToString(u.count)] else u.enc.atts
  }

  /** For encoded cells the repeat attribute is there exactly when the unit stands for more than one cell, and reads back as its count. */
  lemma RepeatedIffMerged(u: Unit, v: CellValue)
    requires u.enc == EncodeCell(v)
    ensures Repeated in CellAtts(u) <==> u.count > 1
    ensures Repeated in CellAtts(u) ==> ParseNat(CellAtts(u)[Repeated]) == Some(u.count)
  {
    if u.count > 1 {
      ParseNatToString(u.count);
    }
  }
}
