/** The HTML fragments the converter emits: body cells, header cells, rows,
    a table with an optional caption, and the document shell with its
    embedded style sheet. Field text is inserted verbatim (no escaping). */
module Html {
  import opened Wrappers
  import opened Python

  const CellOpen := "\t<td>"
  const CellClose := "</td>\n"
  const HeadCellOpen := "\t<th>"
  const HeadCellClose := "</th>\n"
  const RowOpen := "<tr>\n"
  const RowClose := "</tr>\n"

  const TableOpen := "\n<table id=\"t01\">\n<!-- Table Begin -->\n"
  const CaptionOpen := "\n<caption style=\"font-size:30px\"><b>"
  const CaptionClose := "</b></caption>\n"
  const TableClose := "\n</table><!-- Table End -->\n"

  const DocOpen := "\n<!DOCTYPE html>\n<html>\n<head>\n\t<title>"
  /** From the end of the page title to the end of the base style rules. */
  const BaseStyle :=
    "</title>\n\n" +
    "<style>\n" +
    "table, th, td {\n" +
    "    border: 1px solid black;\n" +
    "    border-collapse: collapse;\n" +
    "}\n" +
    "th, td {\n" +
    "    padding: 5px;\n" +
    "    text-align: left;\n" +
    "}"
  /** The zebra-stripe rules, present only when colour is on. */
  const StripeStyle := "\n" + StripeRules
  const StripeRules :=
    "table#t01 tr:nth-child(even) {\n" +
    "    background-color: #eee;\n" +
    "}\n" +
    "table#t01 tr:nth-child(odd) {\n" +
    "   background-color:#fff;\n" +
    "}\n" +
    "table#t01 th    {\n" +
    "    background-color: #fff;\n" +
    "    color: black;\n" +
    "}\n"
  const StyleClose := "</style></head>\n<body>\n"
  const DocClose := "\n</body>\n</html>\n\n"

  /** The inverse of wrapping: if `s` is `open + x + close`, gives `x`. */
  function Unwrap(s: string, open: string, close: string): Option<string> {
    if |open| + |close| <= |s| && StartsWith(s, open) && EndsWith(s, close)
    then Some(s[|open|..|s| - |close|])
    else None
  }

  /** A body cell (`tableItem`). */
  function TableItem(item: string): string {
    CellOpen + item + CellClose
  }

  /** A header cell (`tableColumnName`). */
  function TableColumnName(item: string): string {
    HeadCellOpen + item + HeadCellClose
  }

  /** A row around already rendered cells (`tableRow`). */
  function TableRow(cells: string): string {
    RowOpen + cells + RowClose
  }

  /** What `table` puts before the rows: the table tag, then the caption
      line only for a non-empty title. */
  function TableHead(title: string): string {
    if title == "" then TableOpen else TableOpen + CaptionOpen + title + CaptionClose
  }

  /** A table around already rendered rows (`table`). */
  function Table(rows: string, title: string): string {
    TableHead(title) + rows + TableClose
  }

  /** Unwrapping inverts wrapping, whatever the text inside. */
  lemma UnwrapWrap(open: string, x: string, close: string)
    ensures Unwrap(open + x + close, open, close) == Some(x)
  {
    var s := open + x + close;
    assert s[..|open|] == open;
    assert s[|s| - |close|..] == close;
    assert s[|open|..|s| - |close|] == x;
  }

  /** A body cell unwraps to its text. */
  lemma TableItemRoundTrip(item: string)
    ensures Unwrap(TableItem(item), CellOpen, CellClose) == Some(item)
  {
    UnwrapWrap(CellOpen, item, CellClose);
  }

  /** A header cell unwraps to its text. */
  lemma TableColumnNameRoundTrip(item: string)
    ensures Unwrap(TableColumnName(item), HeadCellOpen, HeadCellClose) == Some(item)
  {
    UnwrapWrap(HeadCellOpen, item, HeadCellClose);
  }

  /** A row unwraps to its cells. */
  lemma TableRowRoundTrip(cells: string)
    ensures Unwrap(TableRow(cells), RowOpen, RowClose) == Some(cells)
  {
    UnwrapWrap(RowOpen, cells, RowClose);
  }

  /** A table unwraps to its rows, below the head its title selects. */
  lemma TableRoundTrip(rows: string, title: string)
    ensures Unwrap(Table(rows, title), TableHead(title), TableClose) == Some(rows)
  {
    UnwrapWrap(TableHead(title), rows, TableClose);
  }

  /** Row text as the converter produces it: nothing, or text that opens a row. */
  predicate RowsText(rows: string) {
    rows == "" || StartsWith(rows, RowOpen)
  }

  // Facts about concatenation, stated over variables so that the long
  // constants above are never unfolded character by character.

  lemma CharOfConcat(a: string, b: string, i: nat)
    requires i < |b|
    ensures (a + b)[|a| + i] == b[i]
  {
  }

  lemma Mismatch(s: string, p: string, i: nat)
    requires i < |s| && i < |p| && s[i] != p[i]
    ensures !StartsWith(s, p)
  {
    if |p| <= |s| {
      assert s[..|p|][i] == s[i];
    }
  }

  lemma StartsWithConcat(p: string, x: string)
    ensures StartsWith(p + x, p)
  {
    assert (p + x)[..|p|] == p;
  }

  lemma StartsWithExtend(s: string, p: string, x: string)
    requires StartsWith(s, p)
    ensures StartsWith(s + x, p)
  {
    assert (s + x)[..|p|] == s[..|p|];
  }

  lemma Regroup3(a: string, b: string, c: string)
    ensures a + b + c == a + (b + c)
  {
  }

  lemma Regroup5(a: string, b: string, c: string, d: string, e: string)
    ensures a + b + c + d + e == a + (b + (c + d + e))
  {
  }

  lemma DropPrefix(p: string, x: string)
    ensures (p + x)[|p|..] == x
  {
  }

  lemma HeadOfConcat(a: string, b: string)
    requires a != ""
    ensures (a + b)[0] == a[0]
  {
  }

  /** A table of rendered rows opens with a caption exactly when its title
      is non-empty. */
  lemma CaptionIffTitle(rows: string, title: string)
    requires RowsText(rows)
    ensures StartsWith(Table(rows, title), TableOpen + CaptionOpen) <==> title != ""
  {
    if title == "" {
      NoCaptionWithoutTitle(rows);
    } else {
      CaptionWithTitle(rows, title);
    }
  }

  /** With a title, the table tag is followed by the caption opener. */
  lemma CaptionWithTitle(rows: string, title: string)
    requires title != ""
    ensures StartsWith(Table(rows, title), TableOpen + CaptionOpen)
  {
    var h := TableOpen + CaptionOpen;
    StartsWithConcat(h, title);
    StartsWithExtend(h + title, h, CaptionClose);
    StartsWithExtend(TableHead(title), h, rows);
    StartsWithExtend(TableHead(title) + rows, h, TableClose);
  }

  /** Without a title, what follows the table tag differs from the caption
      opener: in its first character when there are rows, in its third when
      there are none. */
  lemma NoCaptionWithoutTitle(rows: string)
    requires RowsText(rows)
    ensures !StartsWith(Table(rows, ""), TableOpen + CaptionOpen)
  {
    Regroup3(TableOpen, rows, TableClose);
    var rest := rows + TableClose;
    var i := if rows == "" then 2 else 0;
    assert rest[i] != CaptionOpen[i] by {
      if rows == "" {
        assert rest == TableClose;
      } else {
        assert rest[0] == rows[0] == RowOpen[0];
      }
    }
    CharOfConcat(TableOpen, rest, i);
    CharOfConcat(TableOpen, CaptionOpen, i);
    Mismatch(Table(rows, ""), TableOpen + CaptionOpen, |TableOpen| + i);
  }

  /** The page title and the base style rules, up to where the stripe rules
      go. */
  function Preamble(title: string): string {
    DocOpen + title + BaseStyle
  }

  /** What `htmlHeader` puts before the body. */
  function DocHead(title: string, useColor: bool): string {
    Preamble(title) + (if useColor then StripeStyle else "") + StyleClose
  }

  /** The document shell around the body (`htmlHeader`). */
  function HtmlHeader(body: string, title: string, useColor: bool): string {
    DocHead(title, useColor) + body + DocClose
  }

  /** The document unwraps to its body. */
  lemma HtmlHeaderRoundTrip(body: string, title: string, useColor: bool)
    ensures Unwrap(HtmlHeader(body, title, useColor), DocHead(title, useColor), DocClose) == Some(body)
  {
    UnwrapWrap(DocHead(title, useColor), body, DocClose);
  }

  /** The stripe rules follow the page title and the base style rules
      exactly when colour is on. */
  lemma StripesIffColor(body: string, title: string, useColor: bool)
    ensures var k := |Preamble(title)|;
            k <= |HtmlHeader(body, title, useColor)| &&
            (StartsWith(HtmlHeader(body, title, useColor)[k..], StripeStyle) <==> useColor)
  {
    var pre := Preamble(title);
    var stripes := if useColor then StripeStyle else "";
    var tail := StyleClose + body + DocClose;
    Regroup5(pre, stripes, StyleClose, body, DocClose);
    DropPrefix(pre, stripes + tail);
    if useColor {
      StartsWithConcat(StripeStyle, tail);
    } else {
      HeadOfConcat(StyleClose, body + DocClose);
      Regroup3(StyleClose, body, DocClose);
      HeadOfConcat("\n", StripeRules);
      Mismatch(tail, StripeStyle, 0);
    }
  }
}
