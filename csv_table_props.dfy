/** What `csvToTable` promises about its input as a whole: which lines it
    reads, which errors it raises and when, and the shape of the table it
    builds. */
module CsvTableProperties {
  import opened Wrappers
  import opened Python
  import opened Html
  import opened CsvTable

  // ---------------------------------------------------------------------------
  // Comment lines
  // ---------------------------------------------------------------------------

  /** Filtering distributes over concatenation. */
  lemma {:induction false} KeptAppend(xs: seq<string>, ys: seq<string>, comment: string)
    ensures Kept(xs + ys, comment) == Kept(xs, comment) + Kept(ys, comment)
    decreases |ys|
  {
    if ys != [] {
      var n := |ys| - 1;
      KeptAppend(xs, ys[..n], comment);
      assert (xs + ys)[..|xs + ys| - 1] == xs + ys[..n];
    } else {
      assert xs + ys == xs;
    }
  }

  /** The output depends on the input only through its kept lines. */
  lemma SameKeptSameTable(lines1: seq<string>, lines2: seq<string>, firstRowNames: bool, fmt: CsvFormat, title: string)
    requires Kept(lines1, fmt.comment) == Kept(lines2, fmt.comment)
    ensures TableHtml(lines1, firstRowNames, fmt, title) == TableHtml(lines2, firstRowNames, fmt, title)
  {
  }

  /** A comment line anywhere in the input changes nothing. */
  lemma CommentLineIgnored(before: seq<string>, line: string, after: seq<string>,
                           firstRowNames: bool, fmt: CsvFormat, title: string)
    requires StartsWith(line, fmt.comment)
    ensures TableHtml(before + [line] + after, firstRowNames, fmt, title) ==
            TableHtml(before + after, firstRowNames, fmt, title)
  {
    KeptAppend(before + [line], after, fmt.comment);
    KeptAppend(before, [line], fmt.comment);
    KeptAppend(before, after, fmt.comment);
    assert Kept([line], fmt.comment) == [];
    SameKeptSameTable(before + [line] + after, before + after, firstRowNames, fmt, title);
  }

  /** Every line starts with the empty string, so an empty comment marker
      drops every line (and the run then has no data line). */
  lemma EmptyMarkerDropsAll(lines: seq<string>)
    ensures Kept(lines, "") == []
  {
    KeptMembers(lines, "");
    if Kept(lines, "") != [] {
      var l := Kept(lines, "")[0];
      assert StartsWith(l, "");
    }
  }

  // ---------------------------------------------------------------------------
  // Errors
  // ---------------------------------------------------------------------------

  /** No line is kept exactly when every line is a comment. */
  lemma KeptEmptyIff(lines: seq<string>, comment: string)
    ensures Kept(lines, comment) == [] <==> forall i :: 0 <= i < |lines| ==> StartsWith(lines[i], comment)
  {
    KeptMembers(lines, comment);
    var kept := Kept(lines, comment);
    if kept != [] {
      assert kept[0] in kept;
    } else {
      forall i | 0 <= i < |lines| ensures StartsWith(lines[i], comment) {
        assert lines[i] in lines;
      }
    }
  }

  /** IndexError on `csv_lines[0]` exactly when every line is a comment. */
  lemma NoDataIffAllComments(lines: seq<string>, firstRowNames: bool, fmt: CsvFormat)
    ensures Parse(lines, firstRowNames, fmt) == Failure(NoDataLines) <==>
            forall i :: 0 <= i < |lines| ==> StartsWith(lines[i], fmt.comment)
  {
    KeptEmptyIff(lines, fmt.comment);
  }

  /** ValueError from `split` exactly when there is a data line and the
      separator triple is empty. */
  lemma EmptySeparatorIff(lines: seq<string>, firstRowNames: bool, fmt: CsvFormat)
    ensures Parse(lines, firstRowNames, fmt) == Failure(EmptySeparator) <==>
            Kept(lines, fmt.comment) != [] && fmt.stringSep == "" && fmt.fieldSep == ""
  {
  }

  /** The column bound check fails exactly when the largest requested
      position is past the number of columns of the first kept line. */
  lemma ColumnOutOfRangeIff(lines: seq<string>, firstRowNames: bool, fmt: CsvFormat, m: int)
    requires Kept(lines, fmt.comment) != [] && Separator(fmt) != ""
    ensures var n := Columns(Kept(lines, fmt.comment), Separator(fmt));
            Parse(lines, firstRowNames, fmt) == Failure(ColumnOutOfRange(m)) <==>
            (m == Max(ResolveFormat(fmt.rowFormat, n)) && m > n - 1)
  {
  }

  /** Every column of `range(0, n)` is in range. */
  lemma MaxRange(n: nat)
    requires n > 0
    ensures Max(Range(n)) == n - 1
  {
    var r := Range(n);
    assert r[n - 1] == n - 1;
  }

  /** Without an explicit column order the bound check never fires. */
  lemma DefaultFormatInRange(lines: seq<string>, firstRowNames: bool, fmt: CsvFormat, m: int)
    requires fmt.rowFormat == []
    ensures Parse(lines, firstRowNames, fmt) != Failure(ColumnOutOfRange(m))
  {
    var kept := Kept(lines, fmt.comment);
    var sep := Separator(fmt);
    if kept != [] && sep != "" {
      MaxRange(Columns(kept, sep));
    }
  }

  // ---------------------------------------------------------------------------
  // The parsed table
  // ---------------------------------------------------------------------------

  /** The checks before the rows are read all pass. */
  predicate ChecksPass(lines: seq<string>, fmt: CsvFormat) {
    var kept := Kept(lines, fmt.comment);
    var sep := Separator(fmt);
    kept != [] && sep != "" &&
    Max(ResolveFormat(fmt.rowFormat, Columns(kept, sep))) <= Columns(kept, sep) - 1
  }

  /** The projection in use once the checks pass. */
  function FormatUsed(lines: seq<string>, fmt: CsvFormat): seq<int>
    requires ChecksPass(lines, fmt)
  {
    ResolveFormat(fmt.rowFormat, Columns(Kept(lines, fmt.comment), Separator(fmt)))
  }

  /** Every kept line projected, in order. */
  function KeptRows(lines: seq<string>, fmt: CsvFormat): (rows: seq<Option<seq<string>>>)
    requires ChecksPass(lines, fmt)
    ensures |rows| == |Kept(lines, fmt.comment)|
  {
    Rows(Kept(lines, fmt.comment), Separator(fmt), FormatUsed(lines, fmt), fmt.stringSep)
  }

  /** Entry `i` of `KeptRows` is kept line `i` split and projected. */
  lemma KeptRowsAt(lines: seq<string>, fmt: CsvFormat, i: nat)
    requires ChecksPass(lines, fmt) && i < |Kept(lines, fmt.comment)|
    ensures KeptRows(lines, fmt)[i] ==
            Project(Split(Kept(lines, fmt.comment)[i], Separator(fmt)), FormatUsed(lines, fmt), fmt.stringSep)
  {
    RowsAt(Kept(lines, fmt.comment), Separator(fmt), FormatUsed(lines, fmt), fmt.stringSep, i);
  }

  /** The rows of the lines after the first are the rows of all lines
      without the first. */
  lemma RowsOfTail(kept: seq<string>, sep: string, format: seq<int>, stringSep: string)
    requires |sep| > 0 && kept != []
    ensures Rows(kept[1..], sep, format, stringSep) == Rows(kept, sep, format, stringSep)[1..]
  {
    var rs := Rows(kept, sep, format, stringSep);
    forall k | 0 <= k < |kept| - 1 ensures Rows(kept[1..], sep, format, stringSep)[k] == rs[k + 1] {
      RowsAt(kept[1..], sep, format, stringSep, k);
      RowsAt(kept, sep, format, stringSep, k + 1);
    }
  }

  /** How the reading loops put the projected kept lines `rs` together:
      the first one as the header when the first row holds column names,
      then the data rows, stopping at the first line that does not project. */
  function Assemble(rs: seq<Option<seq<string>>>, firstRowNames: bool): Result<ParsedTable, CsvError>
    requires rs != []
  {
    var off := if firstRowNames then 1 else 0;
    if firstRowNames && rs[0].None? then Failure(FieldMissing(0))
    else
      match Gather(rs[off..])
      case Failure(k) => Failure(FieldMissing(off + k))
      case Success(rows) => Success(ParsedTable(if firstRowNames then rs[0] else None, rows))
  }

  /** `ProjectLines` in terms of the projected lines. */
  lemma ProjectLinesGathers(lines: seq<string>, sep: string, format: seq<int>, stringSep: string, first: nat)
    requires |sep| > 0
    ensures var g := Gather(Rows(lines, sep, format, stringSep));
            ProjectLines(lines, sep, format, stringSep, first) ==
            if g.Failure? then Failure(FieldMissing(first + g.error)) else Success(g.value)
  {
  }

  /** `Assemble` with column names, on a header entry followed by the rest. */
  lemma AssembleCons(r0: Option<seq<string>>, tail: seq<Option<seq<string>>>)
    ensures Assemble([r0] + tail, true) ==
            match r0
            case None => Failure(FieldMissing(0))
            case Some(names) =>
              match Gather(tail)
              case Failure(k) => Failure(FieldMissing(1 + k))
              case Success(rows) => Success(ParsedTable(Some(names), rows))
  {
    assert ([r0] + tail)[1..] == tail;
  }

  /** The projected lines are the first one's followed by the rest's. */
  lemma RowsCons(kept: seq<string>, sep: string, format: seq<int>, stringSep: string)
    requires kept != [] && |sep| > 0
    ensures Rows(kept, sep, format, stringSep) ==
            [Row(kept[0], sep, format, stringSep)] + Rows(kept[1..], sep, format, stringSep)
  {
    RowsAt(kept, sep, format, stringSep, 0);
    RowsOfTail(kept, sep, format, stringSep);
  }

  /** With column names, reading is `Assemble` over the first line's
      projection followed by the others'. */
  lemma ParseRowsHeaderFirst(kept: seq<string>, sep: string, format: seq<int>, stringSep: string)
    requires kept != [] && |sep| > 0
    ensures ParseRows(kept, true, sep, format, stringSep) ==
            Assemble([Row(kept[0], sep, format, stringSep)] + Rows(kept[1..], sep, format, stringSep), true)
  {
    AssembleCons(Row(kept[0], sep, format, stringSep), Rows(kept[1..], sep, format, stringSep));
    ProjectLinesGathers(kept[1..], sep, format, stringSep, 1);
  }

  /** With column names, the reading loops put the projected kept lines
      together as `Assemble` does. */
  lemma ParseRowsWithHeader(kept: seq<string>, sep: string, format: seq<int>, stringSep: string)
    requires kept != [] && |sep| > 0
    ensures ParseRows(kept, true, sep, format, stringSep) == Assemble(Rows(kept, sep, format, stringSep), true)
  {
    ParseRowsHeaderFirst(kept, sep, format, stringSep);
    RowsCons(kept, sep, format, stringSep);
  }

  /** Without column names, likewise. */
  lemma ParseRowsWithoutHeader(kept: seq<string>, sep: string, format: seq<int>, stringSep: string)
    requires kept != [] && |sep| > 0
    ensures ParseRows(kept, false, sep, format, stringSep) == Assemble(Rows(kept, sep, format, stringSep), false)
  {
    var rs := Rows(kept, sep, format, stringSep);
    ProjectLinesGathers(kept, sep, format, stringSep, 0);
    assert rs[0..] == rs;
  }

  /** Once the checks pass, reading is `Assemble` over the projected kept
      lines. */
  lemma ParseAssembles(lines: seq<string>, firstRowNames: bool, fmt: CsvFormat)
    requires ChecksPass(lines, fmt)
    ensures Parse(lines, firstRowNames, fmt) == Assemble(KeptRows(lines, fmt), firstRowNames)
  {
    var kept := Kept(lines, fmt.comment);
    var sep := Separator(fmt);
    var format := FormatUsed(lines, fmt);
    assert Parse(lines, firstRowNames, fmt) == ParseRows(kept, firstRowNames, sep, format, fmt.stringSep);
    if firstRowNames {
      ParseRowsWithHeader(kept, sep, format, fmt.stringSep);
    } else {
      ParseRowsWithoutHeader(kept, sep, format, fmt.stringSep);
    }
  }

  /** A successful assembly has a header exactly when the first row holds
      column names, and one data row per remaining entry, in order. */
  lemma AssembleShape(rs: seq<Option<seq<string>>>, firstRowNames: bool)
    requires rs != [] && Assemble(rs, firstRowNames).Success?
    ensures var t := Assemble(rs, firstRowNames).value;
            var off := if firstRowNames then 1 else 0;
            (t.header.Some? <==> firstRowNames) &&
            (firstRowNames ==> t.header == rs[0]) &&
            |t.rows| == |rs| - off &&
            forall i :: 0 <= i < |t.rows| ==> rs[i + off] == Some(t.rows[i])
  {
    var off := if firstRowNames then 1 else 0;
    GatherSpec(rs[off..]);
  }

  /** A failed assembly names the first entry that is absent. */
  lemma AssembleFailure(rs: seq<Option<seq<string>>>, firstRowNames: bool)
    requires rs != [] && Assemble(rs, firstRowNames).Failure?
    ensures var e := Assemble(rs, firstRowNames).error;
            e.FieldMissing? && e.line < |rs| && rs[e.line].None? &&
            forall i :: 0 <= i < e.line ==> rs[i].Some?
  {
    var off := if firstRowNames then 1 else 0;
    GatherSpec(rs[off..]);
    var e := Assemble(rs, firstRowNames).error;
    if !(firstRowNames && rs[0].None?) {
      var k := Gather(rs[off..]).error;
      assert rs[off + k] == rs[off..][k];
      forall i | 0 <= i < off + k ensures rs[i].Some? {
        if i >= off {
          assert rs[i] == rs[off..][i - off];
        }
      }
    }
  }

  /** Assembly succeeds exactly when every entry is present. */
  lemma AssembleSucceedsIff(rs: seq<Option<seq<string>>>, firstRowNames: bool)
    requires rs != []
    ensures Assemble(rs, firstRowNames).Success? <==> forall i :: 0 <= i < |rs| ==> rs[i].Some?
  {
    if Assemble(rs, firstRowNames).Success? {
      AssembleShape(rs, firstRowNames);
      var t := Assemble(rs, firstRowNames).value;
      var off := if firstRowNames then 1 else 0;
      forall i | 0 <= i < |rs| ensures rs[i].Some? {
        if i >= off {
          assert rs[(i - off) + off] == Some(t.rows[i - off]);
        }
      }
    } else {
      AssembleFailure(rs, firstRowNames);
    }
  }

  /** A successful parse has a header exactly when the first row holds
      column names, one data row per remaining kept line, and each row is
      that line projected. */
  lemma ParseShape(lines: seq<string>, firstRowNames: bool, fmt: CsvFormat)
    requires Parse(lines, firstRowNames, fmt).Success?
    ensures ChecksPass(lines, fmt)
    ensures var t := Parse(lines, firstRowNames, fmt).value;
            var off := if firstRowNames then 1 else 0;
            (t.header.Some? <==> firstRowNames) &&
            (firstRowNames ==> t.header == KeptRows(lines, fmt)[0]) &&
            |t.rows| == |Kept(lines, fmt.comment)| - off &&
            forall i :: 0 <= i < |t.rows| ==> KeptRows(lines, fmt)[i + off] == Some(t.rows[i])
  {
    ParseAssembles(lines, firstRowNames, fmt);
    AssembleShape(KeptRows(lines, fmt), firstRowNames);
  }

  /** FieldMissing names the first kept line that is too short for the
      projection: every kept line before it projects. */
  lemma FieldMissingIsFirstBadLine(lines: seq<string>, firstRowNames: bool, fmt: CsvFormat, n: nat)
    requires Parse(lines, firstRowNames, fmt) == Failure(FieldMissing(n))
    ensures ChecksPass(lines, fmt) && n < |Kept(lines, fmt.comment)|
    ensures KeptRows(lines, fmt)[n].None?
    ensures forall i :: 0 <= i < n ==> KeptRows(lines, fmt)[i].Some?
  {
    ParseAssembles(lines, firstRowNames, fmt);
    AssembleFailure(KeptRows(lines, fmt), firstRowNames);
  }

  /** Once the checks pass, reading succeeds exactly when every kept line
      has all the requested columns. */
  lemma ParseSucceedsIffAllLinesProject(lines: seq<string>, firstRowNames: bool, fmt: CsvFormat)
    requires ChecksPass(lines, fmt)
    ensures Parse(lines, firstRowNames, fmt).Success? <==>
            forall i :: 0 <= i < |Kept(lines, fmt.comment)| ==> KeptRows(lines, fmt)[i].Some?
  {
    ParseAssembles(lines, firstRowNames, fmt);
    AssembleSucceedsIff(KeptRows(lines, fmt), firstRowNames);
  }

  /** Reading the first line as column names only moves it: read as data,
      the same line becomes the first data row and nothing else changes. */
  lemma AssembleHeaderMoves(rs: seq<Option<seq<string>>>)
    requires rs != [] && Assemble(rs, true).Success?
    ensures var t := Assemble(rs, true).value;
            Assemble(rs, false) == Success(ParsedTable(None, [t.header.value] + t.rows))
  {
    var t := Assemble(rs, true).value;
    AssembleShape(rs, true);
    AssembleSucceedsIff(rs, true);
    AssembleSucceedsIff(rs, false);
    AssembleShape(rs, false);
    var u := Assemble(rs, false).value;
    var expected := [t.header.value] + t.rows;
    forall i | 0 <= i < |u.rows| ensures u.rows[i] == expected[i] {
      assert rs[i + 0] == Some(u.rows[i]);
      if i > 0 {
        assert rs[(i - 1) + 1] == Some(t.rows[i - 1]);
      }
    }
    assert u.rows == expected;
  }

  /** Reading the first line as column names only moves it: read as data,
      the same line becomes the first data row and nothing else changes. */
  lemma HeaderOnlyMovesFirstRow(lines: seq<string>, fmt: CsvFormat)
    requires Parse(lines, true, fmt).Success?
    ensures var t := Parse(lines, true, fmt).value;
            Parse(lines, false, fmt) == Success(ParsedTable(None, [t.header.value] + t.rows))
  {
    ParseAssembles(lines, true, fmt);
    ParseAssembles(lines, false, fmt);
    AssembleHeaderMoves(KeptRows(lines, fmt));
  }

  /** Every kept line of a successful parse projects to the cleaned fields
      at the positions of the projection, in projection order; each such
      position is in range of the split line. */
  lemma ParsedRowIsCleanedColumns(lines: seq<string>, firstRowNames: bool, fmt: CsvFormat, i: nat)
    requires Parse(lines, firstRowNames, fmt).Success? && i < |Kept(lines, fmt.comment)|
    ensures ChecksPass(lines, fmt)
    ensures var row := KeptRows(lines, fmt)[i];
            var split := Split(Kept(lines, fmt.comment)[i], Separator(fmt));
            var format := FormatUsed(lines, fmt);
            row.Some? && |row.value| == |format| &&
            forall j :: 0 <= j < |format| ==>
              ValidIndex(split, format[j]) && row.value[j] == Clean(At(split, format[j]), fmt.stringSep)
  {
    ParseShape(lines, firstRowNames, fmt);
    ParseSucceedsIffAllLinesProject(lines, firstRowNames, fmt);
    KeptRowsAt(lines, fmt, i);
    ProjectSpec(Split(Kept(lines, fmt.comment)[i], Separator(fmt)), FormatUsed(lines, fmt), fmt.stringSep);
  }

  // ---------------------------------------------------------------------------
  // The rendered table
  // ---------------------------------------------------------------------------

  /** Rendered rows are nothing or open with a row. */
  lemma {:induction false} RowsHtmlIsRowsText(rows: seq<seq<string>>)
    ensures RowsText(RowsHtml(rows))
    decreases |rows|
  {
    if rows != [] {
      var n := |rows| - 1;
      var last := TableRow(Cells(rows[n], false));
      StartsWithConcat(RowOpen, Cells(rows[n], false) + RowClose);
      Regroup3(RowOpen, Cells(rows[n], false), RowClose);
      RowsHtmlIsRowsText(rows[..n]);
      if RowsHtml(rows[..n]) == "" {
        assert RowsHtml(rows) == last;
      } else {
        StartsWithExtend(RowsHtml(rows[..n]), RowOpen, last);
      }
    }
  }

  /** The body of a table is nothing or opens with a row. */
  lemma BodyHtmlIsRowsText(t: ParsedTable)
    ensures RowsText(BodyHtml(t))
  {
    RowsHtmlIsRowsText(t.rows);
    if t.header.Some? {
      var cells := Cells(t.header.value, true);
      StartsWithConcat(RowOpen, cells + RowClose);
      Regroup3(RowOpen, cells, RowClose);
      StartsWithExtend(HeaderHtml(t.header), RowOpen, RowsHtml(t.rows));
    }
  }

  /** A converted table opens with a caption exactly when its title is
      non-empty, and unwraps to the rows of the parsed input. */
  lemma TableHtmlShape(lines: seq<string>, firstRowNames: bool, fmt: CsvFormat, title: string)
    requires TableHtml(lines, firstRowNames, fmt, title).Success?
    ensures var html := TableHtml(lines, firstRowNames, fmt, title).value;
            Parse(lines, firstRowNames, fmt).Success? &&
            (StartsWith(html, TableOpen + CaptionOpen) <==> title != "") &&
            Unwrap(html, TableHead(title), TableClose) == Some(BodyHtml(Parse(lines, firstRowNames, fmt).value))
  {
    var t := Parse(lines, firstRowNames, fmt).value;
    BodyHtmlIsRowsText(t);
    CaptionIffTitle(BodyHtml(t), title);
    TableRoundTrip(BodyHtml(t), title);
  }
}
