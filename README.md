# odio ODF 1.2 content encoder and decoder, in Dafny

This project models the core of `odio`'s ODF 1.2 support in `src/odio/v1_2/__init__.py`. It covers
both directions:

- **writing.** `escape` and `quoteattr`, `XmlWriter` with its indentation counter, the cell encoder
  of `SpreadsheetWriter.append_table` with its run-length merge of equal adjacent cells, and the tag
  skeleton `SpreadsheetWriter.__init__` opens and `close` closes;
- **reading.** `_get_text`, `TableReader`, `SpreadsheetReader`, and `TextReader._parse_node`, which
  turn a parsed XML tree back into tables of values or a tree of paragraphs, headings and spans.

Files (one Dafny module each):

| file | module | what it holds |
|---|---|---|
| `wrappers.dfy` | `Wrappers` | `Option` and `Result` |
| `text.dfy` | `Text` | Python string operations: `strip` and its variants, `replace`, `join`, `splitlines`, `str(int)`, `int`, `index`, code-point order |
| `escaping.dfy` | `Escaping` | `escape`, `quoteattr`, and the parser's entity decoding they are undone by |
| `emitter.dfy` | `Emitter` | `atts_to_str`, the text of each tag call, the `Nest` state machine of open elements, and the `XmlWriter` class |
| `datetime.dfy` | `DateTimes` | `strftime` and `strptime` with `%Y-%m-%dT%H:%M:%S` |
| `cells.dfy` | `Cells` | the value datatype, the encoder, and the run-length merge with its invariants |
| `spreadsheet_writer.dfy` | `SpreadsheetWriting` | the calls `__init__`, `append_table` and `close` make, and the `SpreadsheetWriter` class |
| `dom.dfy` | `Dom` | the parsed tree: `getAttribute`, `getElementsByTagName` (document order), `_get_text` |
| `table_reader.dfy` | `TableReading` | the spreadsheet decoder as functions and as the loops of the source |
| `text_reader.dfy` | `TextReading` | the text-document decoder as functions and as the recursive method |
| `roundtrip.dfy` | `RoundTrip` | what the reader makes of everything the writer writes |

The writer's output stream is modelled as the string written so far. The XML declaration is the
one constant written before the first tag. Every `XmlWriter` also keeps a ghost record of the tag
calls made so far. Its output is always the header followed by the rendering of those calls, and
its indentation is always their net nesting depth.

The round trip needs a parse of the writer's text, and parsing is not modelled. `RoundTrip` instead
states what a conforming XML 1.0 parser builds from that text:

- one element per tag;
- the attributes in the order `atts_to_str` wrote them;
- each value unescaped, then with line ends and tab, line feed and carriage return normalised to
  spaces as section 3.3.3 of the XML 1.0 recommendation requires. `quoteattr` does not escape these
  characters;
- a whitespace-only text node wherever the writer started a new line;
- the lines of a `text:p` as text nodes, separated by `text:line-break` elements.

On that image, the decoder's result for every written spreadsheet is computed exactly
(`RoundTrip.SpreadsheetDecodes`). The spreadsheets that come back unchanged are characterised
value by value (`RoundTrip.SpreadsheetPreserved`):

- dates from year 1000 on (a date is a second-precision naive `datetime`; see `DateTimes.DateTime` under "Left out");
- one-line strings without surrounding whitespace;
- booleans;
- number and formula text without tab or line end, and formulas starting with `=`;
- empty cells;
- table names without tab or line end.

An object of any other type always comes back as a string.

Three behaviours of the code that a reader might not expect; the model follows the code:

- **text runs.** `_parse_node` adds the trailing space whenever stripping removed anything. It adds
  the leading space only when stripping removed at least two characters, so `" hello"` reads as
  `"hello "`. It does not restore each side's own whitespace.
- **unknown `office:value-type`.** A cell whose `office:value-type` is none of `date`, `string`,
  `float` and `boolean` assigns nothing to `val`. It therefore repeats the value of the cell before
  it, even one from an earlier row. When no cell of the table assigned `val` yet, the reader raises
  `UnboundLocalError` only at the first copy it appends: after the count was read, so a malformed
  count raises `ValueError` first, and not at all for a count below 1, which skips the cell. The
  reader functions carry that variable; no precondition excludes such cells.
- **line breaks.** `simple_tag` splits the contents with Python's full `splitlines` boundary set,
  which includes `\r`, `\r\n`, `\x0b`, `\x0c`, `\x1c`-`\x1e`, `\x85`, U+2028 and U+2029.

## Model

| member | source | states |
|---|---|---|
| Escaping.EscapeIsCharwise | src/odio/v1_2/__init__.py:15-16 | the three chained `replace` calls equal escaping each character on its own (`&` then `>` then `<`) |
| Escaping.EscapeContents | src/odio/v1_2/__init__.py:15-16 | escaped text contains no `<` or `>`, and every `&` in it begins `&amp;`, `&gt;` or `&lt;` |
| Escaping.EscapeEachEntities | src/odio/v1_2/__init__.py:15-16 | every `&` of escaped text, with or without the `&quot;` rule, begins an entity |
| Escaping.UnescapeEscape | src/odio/v1_2/__init__.py:15-16 | decoding the entities of `escape(s)` gives back `s` |
| Escaping.QuoteEscapedIsCharwise | src/odio/v1_2/__init__.py:24 | replacing `"` with `&quot;` in escaped text is escaping with the extra `"` rule |
| Escaping.QuoteAttr | src/odio/v1_2/__init__.py:19-29 | the result is at least two characters long and starts and ends with the same delimiter, `"` or `'` |
| Escaping.QuoteAttrDelimiter | src/odio/v1_2/__init__.py:19-29 | `'` delimits exactly when the value has `"` and no `'`; the body is the escaped value, with `"` written as `&quot;` exactly when both quote kinds occur |
| Escaping.QuoteAttrClosed | src/odio/v1_2/__init__.py:19-29 | the delimiter does not occur in the body, so the value ends at the closing delimiter |
| Escaping.QuoteAttrRoundTrip | src/odio/v1_2/__init__.py:19-29 | decoding the entities of the body gives back the attribute value |
| Text.LexLeTotal | src/odio/v1_2/__init__.py:44 | the code-point order `sorted` uses on keys is total |
| Text.LexLeTransitive | src/odio/v1_2/__init__.py:44 | the code-point order used on keys is transitive |
| Text.LexLeAntisymmetric | src/odio/v1_2/__init__.py:44 | the code-point order used on keys is antisymmetric |
| Emitter.SortedKeys | src/odio/v1_2/__init__.py:44 | the keys of a map in strictly ascending order: each key once and nothing else |
| Emitter.AttsToStr | src/odio/v1_2/__init__.py:39-45 | the rendering is empty exactly when the map is empty |
| Emitter.AttsToStrIsJoin | src/odio/v1_2/__init__.py:39-45 | a non-empty map renders as a space followed by `k=quoteattr(v)` items joined by spaces, in ascending key order |
| Emitter.Indent | src/odio/v1_2/__init__.py:49 | the prefix of an indented write is `2 * indentation` spaces, and empty when the level is below zero |
| Emitter.XmlWriter.constructor | src/odio/v1_2/__init__.py:33-36 | a new writer has indentation 0, no calls recorded, and has written the XML declaration |
| Emitter.XmlWriter.Write | src/odio/v1_2/__init__.py:47-50 | appends the line to the output, prefixed by the indentation when `indent` holds; nothing else changes |
| Emitter.XmlWriter.StartTag | src/odio/v1_2/__init__.py:52-54 | writes the indented open tag with its attributes and raises the indentation by 1 |
| Emitter.XmlWriter.EndTag | src/odio/v1_2/__init__.py:56-58 | lowers the indentation by 1, then writes the close tag at the new indentation |
| Emitter.XmlWriter.SimpleTag | src/odio/v1_2/__init__.py:60-77 | writes an empty-element tag, or the open tag, contents and close tag on one line; the indentation is unchanged |
| Emitter.SimpleTextParts | src/odio/v1_2/__init__.py:64-77 | an element with contents is written as the indent, the open tag, the contents and the close tag |
| Emitter.ContentHasNoLineBreak | src/odio/v1_2/__init__.py:65-76 | inside the seven text-bearing elements no line-break character is written |
| Emitter.ContentIsEscapedLines | src/odio/v1_2/__init__.py:65-76 | inside those elements the contents are written as their lines, each escaped, joined by `<text:line-break/>` |
| Escaping.SplitLinesEscape | src/odio/v1_2/__init__.py:65-75 | escaping and then splitting lines equals splitting lines and then escaping each line |
| Text.SplitLines | src/odio/v1_2/__init__.py:75 | `splitlines` gives no lines exactly for the empty string |
| Text.SplitLinesNoBreak | src/odio/v1_2/__init__.py:75 | no line from `splitlines` holds a line boundary |
| Text.SplitLinesJoin | src/odio/v1_2/__init__.py:75 | for text whose only breaks are `\n`, joining the lines with `\n` and adding back a dropped final `\n` gives the text |
| Emitter.NestDepth | src/odio/v1_2/__init__.py:52-58 | when the calls nest, the indentation equals the number of elements left open |
| Emitter.NestAppend | src/odio/v1_2/__init__.py:52-58 | nesting two call sequences in a row is nesting the second from where the first left off |
| Emitter.NestFailurePersists | src/odio/v1_2/__init__.py:56-58 | once an end tag closes the wrong element, no later call makes the sequence nest |
| Emitter.RenderAppend | src/odio/v1_2/__init__.py:47-77 | the text of two call sequences is the first's text, then the second's text at the indentation the first leaves |
| Cells.EncodeCell | src/odio/v1_2/__init__.py:233-255 | no encoding has a repeat count; there are contents exactly for strings; `office:value-type` exactly for non-formula, non-empty values; `table:formula` exactly for formulas; no attributes exactly for the empty value |
| Cells.DateAtts | src/odio/v1_2/__init__.py:235-238 | a date gets exactly the keys `value-type=date`, `date-value` with the `strftime` timestamp and `style-name=cell_date`, and no contents |
| Cells.StrAtts | src/odio/v1_2/__init__.py:239-242 | a string gets exactly the key `value-type=string`, and the text as its contents |
| Cells.BoolAtts | src/odio/v1_2/__init__.py:243-245 | a boolean gets exactly the keys `value-type=boolean` and `boolean-value` `"true"` or `"false"`, and no contents |
| Cells.NumAtts | src/odio/v1_2/__init__.py:246-248 | a number gets exactly the keys `value-type=float` and `office:value` with its text, and no contents |
| Cells.FormulaAtts | src/odio/v1_2/__init__.py:249-250 | a formula gets exactly the key `table:formula = "of:" + text`, and no contents |
| Cells.OpaqueAtts | src/odio/v1_2/__init__.py:253-255 | any other object gets exactly the keys `value-type=string` and `office:string-value = str(val)`, and no contents |
| Cells.EncodeAll | src/odio/v1_2/__init__.py:232-255 | a row encodes cell by cell, one encoding per value |
| Cells.EncodeCellInjective | src/odio/v1_2/__init__.py:233-255 | distinct values get distinct encodings |
| Cells.PushWellMerged | src/odio/v1_2/__init__.py:257-264 | one pass of the merge loop keeps the units well merged for the longer row and adds at most one unit |
| Cells.RunLengthWellMerged | src/odio/v1_2/__init__.py:257-264 | the merged units have counts of at least 1, no two adjacent units alike, and expand to exactly the encoded row; there are no more units than values |
| Cells.ExpandLength | src/odio/v1_2/__init__.py:257-264 | the expansion of the units has as many cells as their counts add up to |
| Cells.LastCountPositive | src/odio/v1_2/__init__.py:262-264 | the last unit the merge builds stands for at least one cell |
| Cells.LastRunLength | src/odio/v1_2/__init__.py:257-264 | the last unit's count is the length of the run of equal cells ending the row |
| Cells.WellMergedUnique | src/odio/v1_2/__init__.py:257-264 | a row has only one well-merged unit list |
| Cells.RunLengthCanonical | src/odio/v1_2/__init__.py:257-264 | any well-merged unit list of a row is what the merge loop builds |
| Cells.CellAtts | src/odio/v1_2/__init__.py:269-270 | a unit keeps its attributes and gains `table:number-columns-repeated = str(count)` exactly when its count exceeds 1 |
| Cells.RepeatedIffMerged | src/odio/v1_2/__init__.py:269-270 | for an encoded cell the repeat attribute is present exactly when the count exceeds 1, and `int()` of it gives the count back |
| SpreadsheetWriting.MergeRow | src/odio/v1_2/__init__.py:231-264 | the merge loop over one row computes the run-length units of the row's encodings |
| SpreadsheetWriting.SpreadsheetWriter.constructor | src/odio/v1_2/__init__.py:199-224 | makes the calls of the document skeleton, leaving the indentation at 3 and the writer open |
| SpreadsheetWriting.SpreadsheetWriter.WriteStyles | src/odio/v1_2/__init__.py:201-222 | appends the calls of the automatic-styles element |
| SpreadsheetWriting.SpreadsheetWriter.WriteDateParts | src/odio/v1_2/__init__.py:203-211 | appends the calls for the parts of the date number style, year to minutes |
| SpreadsheetWriting.PrologueNests | src/odio/v1_2/__init__.py:199-224 | the skeleton calls leave exactly the document, body and spreadsheet elements open, at net depth 3 |
| SpreadsheetWriting.StylesBalanced | src/odio/v1_2/__init__.py:201-222 | the automatic-styles calls close every element they open |
| SpreadsheetWriting.SpreadsheetWriter.AppendTable | src/odio/v1_2/__init__.py:226-279 | appends the table's calls and renders them at the current indentation; the indentation is unchanged and the writer stays open |
| SpreadsheetWriting.SpreadsheetWriter.WriteRows | src/odio/v1_2/__init__.py:229-277 | the row loop appends each row's calls in order |
| SpreadsheetWriting.SpreadsheetWriter.WriteRow | src/odio/v1_2/__init__.py:230-277 | one row appends the row element around the calls for its merged cells |
| SpreadsheetWriting.SpreadsheetWriter.WriteUnits | src/odio/v1_2/__init__.py:266-276 | the cell loop appends each unit's calls in order |
| SpreadsheetWriting.SpreadsheetWriter.WriteUnit | src/odio/v1_2/__init__.py:266-276 | a unit without contents is an empty `table:table-cell`; one with contents is a cell around a `text:p` |
| SpreadsheetWriting.TableBalanced | src/odio/v1_2/__init__.py:226-279 | `append_table` closes everything it opens, whatever is open around it, so its net depth is 0 |
| SpreadsheetWriting.TableAppended | src/odio/v1_2/__init__.py:226-279 | after the skeleton, a table leaves the same elements open at the same depth and adds exactly the table's text |
| SpreadsheetWriting.CloseNests | src/odio/v1_2/__init__.py:281-284 | `close` closes the three skeleton elements in order, back to depth 0 |
| SpreadsheetWriting.SpreadsheetWriter.Close | src/odio/v1_2/__init__.py:281-284 | appends the three end tags, returns the indentation to 0 and marks the writer closed |
| Text.StripEmpty | src/odio/v1_2/__init__.py:309 | `strip()` leaves nothing exactly when the text is all whitespace |
| Text.StripShape | src/odio/v1_2/__init__.py:309 | `strip()` is the slice of the text between its leading and trailing whitespace |
| Text.LStripSpaces | src/odio/v1_2/__init__.py:542 | what `lstrip()` removes is all whitespace |
| Text.RStripSpaces | src/odio/v1_2/__init__.py:539 | what `rstrip()` removes is all whitespace |
| Dom.AttrValue | src/odio/v1_2/__init__.py:317 | `getAttribute` gives the first attribute with the name, and `""` when there is none |
| Dom.GetAttributeOf | src/odio/v1_2/__init__.py:317 | with distinct names, `getAttribute` gives the one attribute's value |
| Dom.ElementsByTagAt | src/odio/v1_2/__init__.py:301 | the search yields only elements with the name, starting with the node itself when it matches |
| Dom.ElementsByTag | src/odio/v1_2/__init__.py:301 | `getElementsByTagName` yields only elements with the name |
| Dom.ElementsByTagInAppend | src/odio/v1_2/__init__.py:319 | the search of a node list is the search of its parts in document order |
| Dom.ElementsByTagFindsChild | src/odio/v1_2/__init__.py:322 | every child element with the name is found |
| Dom.GetTextIsStrippedTexts | src/odio/v1_2/__init__.py:305-312 | `_get_text` is every text node below the element, each stripped, concatenated in document order |
| Dom.GetTextInAppend | src/odio/v1_2/__init__.py:305-312 | the text of a node list is the texts of its parts one after the other |
| DateTimes.FormatInjective | src/odio/v1_2/__init__.py:237 | `strftime` writes distinct timestamps for distinct dates, whatever the year |
| DateTimes.ParseDateTime | src/odio/v1_2/__init__.py:330-333 | `strptime` accepts the 19-character layout with ASCII digits and an upper-case `T` exactly when it holds a real calendar date and time, and yields that date |
| DateTimes.ParseFormat | src/odio/v1_2/__init__.py:330-333 | a timestamp written for a year from 1000 on parses back to the same date (the writer's side at line 237) |
| DateTimes.ParseFormatShortYear | src/odio/v1_2/__init__.py:330-333 | a year before 1000 is written with fewer than four digits, and `strptime` rejects it (the writer's side at line 237) |
| DateTimes.FormatParse | src/odio/v1_2/__init__.py:330-333 | every timestamp that parses with a year from 1000 on is the one `strftime` writes for the result (the writer's side at line 237) |
| Text.IndexOf | src/odio/v1_2/__init__.py:325 | `index("=")` finds the first `=`, and fails exactly when there is none |
| Text.ParseNat | src/odio/v1_2/__init__.py:347 | the digit-string part of `int()` accepts exactly non-empty strings of ASCII digits |
| Text.ParseNatToString | src/odio/v1_2/__init__.py:347 | a count written in decimal is read back as itself (the writer's side at line 270) |
| TableReading.ParseIntOfNat | src/odio/v1_2/__init__.py:347 | `int(str(n))` is `n` (the writer's side at line 270) |
| TableReading.DecodeValue | src/odio/v1_2/__init__.py:323-344 | a formula attribute comes first and decodes from its first `=`, or raises without one; then the four value types; a cell with neither attribute is empty; an unknown type assigns nothing, so `val` keeps what it held, unassigned included |
| TableReading.RepeatCount | src/odio/v1_2/__init__.py:346-349 | the count is 1 without the attribute, and `int()` of it with it |
| TableReading.Copies | src/odio/v1_2/__init__.py:351-352 | `count` copies of the value, and none when the count is below 1 |
| TableReading.AppendCopies | src/odio/v1_2/__init__.py:351-352 | the copy loop appends exactly those copies to the row |
| TableReading.ReadCellsLength | src/odio/v1_2/__init__.py:322-352 | a row has as many values as the positive counts of its cells add up to |
| TableReading.ReadCellsErr | src/odio/v1_2/__init__.py:322-352 | once a cell raises, the cells after it are not read |
| TableReading.ReadRow | src/odio/v1_2/__init__.py:322-352 | the cell loop over a row element computes the row's cells read in document order |
| TableReading.CellStepUnbound | src/odio/v1_2/__init__.py:346-352 | a cell raises `UnboundLocalError` exactly when `val` is still unassigned after it, its count was read, and the count is at least 1 |
| TableReading.CellStepNoCopies | src/odio/v1_2/__init__.py:346-352 | a cell with a count below 1 adds nothing to the row, even while `val` is unassigned |
| TableReading.ReadRowsCount | src/odio/v1_2/__init__.py:319-321 | a table has one row for every row element |
| TableReading.ReadRowsErr | src/odio/v1_2/__init__.py:319-352 | once a row raises, the rows after it are not read |
| TableReading.DecodeTable | src/odio/v1_2/__init__.py:316-352 | a decoded table has the name attribute as its name and one row for every row element |
| TableReading.ReadTable | src/odio/v1_2/__init__.py:316-352 | the row loop computes the table decoded from the element |
| TableReading.DecodeTables | src/odio/v1_2/__init__.py:301-302 | the decoder gives one table for every table element |
| TableReading.DecodeTablesErr | src/odio/v1_2/__init__.py:301-302 | once a table raises, the tables after it are not read |
| TableReading.DecodeSpreadsheet | src/odio/v1_2/__init__.py:298-302 | the decoder gives one table for every `table:table` below the spreadsheet element |
| TableReading.ReadSpreadsheet | src/odio/v1_2/__init__.py:299-302 | the table loop computes the spreadsheet decoded from the element |
| TextReading.KindOf | src/odio/v1_2/__init__.py:517-524 | an element name is recognised exactly when it is `text:p`, `text:h` or `text:span` |
| TextReading.RenameAttrChars | src/odio/v1_2/__init__.py:529 | renaming keeps the length and replaces every `:` and `-` with `_`, and nothing else |
| TextReading.RenameAttrs | src/odio/v1_2/__init__.py:525-530 | no renamed attribute name holds `:` or `-` |
| TextReading.RenameAttrsKey | src/odio/v1_2/__init__.py:525-530 | a name is set exactly when some attribute renames to it |
| TextReading.RenameAttrsValue | src/odio/v1_2/__init__.py:525-530 | a renamed name holds the value of the last attribute that renames to it |
| TextReading.RenameAll | src/odio/v1_2/__init__.py:526-530 | the attribute loop sets every renamed name, in document order |
| TextReading.NormaliseRun | src/odio/v1_2/__init__.py:534-537 | a text node is dropped exactly when it is all whitespace |
| TextReading.NormaliseRunShape | src/odio/v1_2/__init__.py:534-544 | the run is the stripped text, plus a trailing space when at least one character was removed, and a leading space as well when at least two were; it is never longer than the node and strips to the same text |
| TextReading.LeadingSpaceMoves | src/odio/v1_2/__init__.py:534-544 | `" hello"` reads as `"hello "` |
| TextReading.OneLeadingSpace | src/odio/v1_2/__init__.py:534-544 | one leading whitespace character becomes one trailing space |
| TextReading.ParseNode | src/odio/v1_2/__init__.py:513-547 | `_parse_node` computes the node one DOM node contributes, or its error |
| TextReading.ParseChildren | src/odio/v1_2/__init__.py:531-532 | the child loop computes the children parsed in order, skipping dropped runs and stopping at the first error |
| TextReading.ReadText | src/odio/v1_2/__init__.py:508-511 | `TextReader` parses the children of the text element in order |
| TextReading.ParsedAllErr | src/odio/v1_2/__init__.py:531-532 | once a node raises, the nodes after it are not parsed |
| TextReading.ParsedOkIffSupported | src/odio/v1_2/__init__.py:513-546 | a node parses exactly when every element in it is a paragraph, heading or span and every other node is text |
| TextReading.ParsedAllOkIffSupported | src/odio/v1_2/__init__.py:510-532 | a node list parses exactly when every node in it is supported |
| TextReading.ParsedWellFormed | src/odio/v1_2/__init__.py:513-547 | a parsed tree has no blank run and no `:` or `-` in an attribute name |
| RoundTrip.ImageLookup | src/odio/v1_2/__init__.py:317 | a parsed tag has the written attribute names exactly, each with its value unescaped and normalised, and `""` for the rest (the writer's side at lines 39-45) |
| RoundTrip.NormaliseClears | src/odio/v1_2/__init__.py:19-29 | a normalised value holds no tab, line feed or carriage return |
| RoundTrip.NormaliseFixed | src/odio/v1_2/__init__.py:19-29 | an attribute value reads back as itself exactly when it holds no tab, line feed or carriage return |
| RoundTrip.ParagraphWritten | src/odio/v1_2/__init__.py:60-77 | a `text:p` is written as its lines escaped and joined by line-break markers, and each line decodes back to itself |
| RoundTrip.SpacedText | src/odio/v1_2/__init__.py:305-312 | the indentation between tags adds nothing to `_get_text` |
| RoundTrip.LinesText | src/odio/v1_2/__init__.py:305-312 | the text of a written paragraph is its lines, each stripped, concatenated |
| RoundTrip.CellText | src/odio/v1_2/__init__.py:305-312 | the text of a written string cell is its lines, each stripped, concatenated (the writer's side at line 275) |
| RoundTrip.CellAttr | src/odio/v1_2/__init__.py:268-277 | every attribute but the repeat count is on the written cell exactly when the encoding has it |
| RoundTrip.DecodeFormula | src/odio/v1_2/__init__.py:323-326 | `of:` followed by an expression decodes from the expression's first `=`, or raises without one |
| RoundTrip.CellImageDecodes | src/odio/v1_2/__init__.py:323-344 | a written cell decodes to the value reread, whatever the previous cell left behind (the writer's side at lines 233-255) |
| RoundTrip.CellImageCount | src/odio/v1_2/__init__.py:346-349 | a written cell's repeat count reads back as the number of cells it stands for (the writer's side at lines 269-270) |
| RoundTrip.RereadPreserves | src/odio/v1_2/__init__.py:323-344 | a value comes back as itself exactly when it is preserved (the writer's side at lines 233-255) |
| RoundTrip.RereadDateIff | src/odio/v1_2/__init__.py:330-333 | a second-precision naive date comes back exactly when it is valid and its year is at least 1000 (the writer's side at line 237) |
| RoundTrip.RereadStrIff | src/odio/v1_2/__init__.py:338 | a string comes back exactly when it has no line boundary and no surrounding whitespace (the writer's side at lines 241, 275) |
| RoundTrip.RereadFormulaIff | src/odio/v1_2/__init__.py:323-326 | a formula comes back exactly when its text starts with `=` and holds no tab or line end (the writer's side at line 250) |
| RoundTrip.RowCells | src/odio/v1_2/__init__.py:322 | searching a written row for cells finds exactly its merged cells (the writer's side at lines 268-277) |
| RoundTrip.PushStep | src/odio/v1_2/__init__.py:346-352 | one more value given to the merge loop reads as one more value, in a merged unit or a new one (the writer's side at lines 257-264) |
| RoundTrip.UnitsDecode | src/odio/v1_2/__init__.py:322-352 | the cell loop over a written row gives each value reread, or the first error (the writer's side at lines 257-277) |
| RoundTrip.AllOkFixed | src/odio/v1_2/__init__.py:319-352 | reading a list item by item gives it back exactly when each item reads back as itself |
| RoundTrip.RowsDecode | src/odio/v1_2/__init__.py:319-352 | the row loop over written rows gives each row reread, or the first error (the writer's side at lines 229-277) |
| RoundTrip.TableChildrenSearch | src/odio/v1_2/__init__.py:319 | searching a written table finds exactly its rows (the writer's side at lines 227-279) |
| RoundTrip.TableDecode | src/odio/v1_2/__init__.py:316-352 | a written table decodes to its name as normalised and its rows reread, or the first error (the writer's side at lines 226-279) |
| RoundTrip.TableImagesSearch | src/odio/v1_2/__init__.py:301 | searching the spreadsheet element finds exactly the written tables (the writer's side at lines 224-279) |
| RoundTrip.SpreadsheetDecodes | src/odio/v1_2/__init__.py:298-302 | a written spreadsheet decodes to its tables reread, or the first error (the writer's side at lines 224-284) |
| RoundTrip.RereadTableFixed | src/odio/v1_2/__init__.py:317 | a table comes back exactly when its name has no tab or line end and every value is preserved (the writer's side at line 227) |
| RoundTrip.SpreadsheetPreserved | src/odio/v1_2/__init__.py:298-352 | a written spreadsheet decodes to exactly its tables when, and only when, every table is preserved (the writer's side at lines 224-284) |

## Left out

- Zip archive, temporary file and UTF-8 encoding: the archive members, `NamedTemporaryFile`, flushing and copying `content.xml` are I/O. The output is modelled as the text written so far.
- The fixed archive members (manifest, meta, settings, styles) and the text document template: constant text, outside the content stream. The namespace attributes of `office:document-content` are modelled: `SpreadsheetWriting.NamespaceAttrs` holds the map written at lines 170-198. The literal there lists `xmlns:office` twice, and as a Python dict literal the later entry wins.
- `odio.Formula`: `odio.common` is not part of this model, so a formula is taken to be its text. The model assumes two things. First, `str(val)` at line 250 gives that text. Second, the object built at line 326 equals any formula with the same text. If `Formula` has no such `__eq__`, Python's `==` does not hold between a written formula and the one read back, although the model's `RoundTrip.RereadFormulaIff` treats them as equal.
- XML parsing: `xml.dom.minidom` is a library. The readers take a parsed tree as input. For the round trip, `RoundTrip` states what a conforming parser delivers for the writer's text and does not derive it from the text.
- XML character legality: control characters that XML 1.0 forbids are written as they are and would make a parser reject the document. This is not modelled.
- `TextWriter` and the `attach` methods of `odio.common`: `odio.common` is not part of this model. `P`, `H` and `Span` are the `TextTree` datatype.
- The `TextReader` object's own `attributes` field, which nothing fills, and `TextReader`'s use of itself as the root parent. `ReadText` returns the list of nodes.
- Numbers: `str()` of a float, int or `Decimal`, and `float()` when reading, are floating point. A number is carried as its text, and the reader returns that text.
- TableReading.DecodeValue: a `float` cell's `office:value` is returned as its text without checking it. `float()` raises `ValueError` for text that is not a number, including the empty text of a missing `office:value`; the model does not raise there. Floating point is not modelled, as the line above says.
- TableReading.ParseInt: models `int()` on ASCII digits with an optional sign and surrounding whitespace. Underscores between digits and non-ASCII digits are not accepted.
- DateTimes.ParseDateTime: models `strptime` on the fixed 19-character layout with ASCII digits and an upper-case `T` only. Four forms `strptime` also accepts are rejected: one-digit month, day, hour, minute and second fields; a lower-case `t`, since the format is matched ignoring case; a day padded with a space, such as `2015-06- 5T16:38:00`; and non-ASCII decimal digits, which `\d` matches. None of these is what the writer produces.
- DateTimes.DateTime: only second-precision naive datetimes are modelled. `strftime` drops microseconds and the time zone, and `strptime` returns a naive value. So a `datetime` with microseconds or a `tzinfo` does not come back unchanged, although the model's preserved dates do. Two datetimes that differ only in microseconds or time zone get equal attributes, so the merge writes them as one repeated cell.
- DateTimes.FormatDateTime: `%Y` is written unpadded, as the C library does on Linux. A zero-padded `%Y` is not modelled.
- SpreadsheetWriting.SpreadsheetWriter.AppendTable: requires the writer to be open. After `close` the temporary file is closed, so `append_table` raises when it writes; that error is not modelled.
- SpreadsheetWriting.SpreadsheetWriter.Close: requires the writer to be open. Calling `close` twice is not modelled.
- `__enter__`, `__exit__`, and the `compressed` flag: context-manager plumbing and archive compression.
- Loops of `append_table` and `TableReader` are split into one method per loop, each proved against its function.
- The `XmlWriter`'s `output` stream is the writer's own string. Aliasing of the stream is not modelled.
