/** `csvToTable`: reading the lines of one input, dropping comment lines,
    splitting each line on the separator triple, projecting the requested
    columns and rendering the result as one HTML table.

    The specification is a pair of functions, `Parse` (lines to a header
    and data rows, or the error Python raises) and `RenderTable` (rows to
    HTML); the method `CsvToTable` follows the source's loops and is proved
    to compute their composition. */
module CsvTable {
  import opened Wrappers
  import opened Python
  import opened Html

  /** The options `csvToTable` takes besides the lines, the header flag and
      the table name. An empty `rowFormat` means "every column in order". */
  datatype CsvFormat = CsvFormat(fieldSep: string, stringSep: string, rowFormat: seq<int>, comment: string)

  /** The exceptions `csvToTable` can raise. */
  datatype CsvError =
    | NoDataLines              // IndexError: no line survives comment filtering
    | EmptySeparator           // ValueError: string_sep + field_sep + string_sep is empty
    | ColumnOutOfRange(index: int)  // IndexError from the bound check on max(row_format)
    | FieldMissing(line: nat)  // IndexError indexing a split line; `line` counts kept lines from 0

  /** A parsed input: the header row (present exactly when the first row
      holds column names) and the data rows, each already projected. */
  datatype ParsedTable = ParsedTable(header: Option<seq<string>>, rows: seq<seq<string>>)

  /** The substring a line is split on. */
  function Separator(fmt: CsvFormat): string {
    fmt.stringSep + fmt.fieldSep + fmt.stringSep
  }

  // ---------------------------------------------------------------------------
  // Gathering optional values: the first absent one stops the gathering,
  // as the first IndexError stops the source's loops.
  // ---------------------------------------------------------------------------

  /** All the values of `opts`, or the position of the first absent one. */
  function Gather<T>(opts: seq<Option<T>>): (r: Result<seq<T>, nat>)
    ensures r.Success? ==> |r.value| == |opts|
    ensures r.Failure? ==> r.error < |opts|
  {
    if opts == [] then Success([])
    else
      var n := |opts| - 1;
      match Gather(opts[..n])
      case Failure(k) => Failure(k)
      case Success(vs) =>
        match opts[n]
        case None => Failure(n)
        case Some(v) => Success(vs + [v])
  }

  /** `Gather` succeeds exactly when every value is present, and keeps them
      in order; otherwise it names the first absent one. */
  lemma {:induction false} GatherSpec<T>(opts: seq<Option<T>>)
    ensures var r := Gather(opts);
            (r.Success? <==> forall k :: 0 <= k < |opts| ==> opts[k].Some?) &&
            (r.Success? ==> forall k :: 0 <= k < |opts| ==> opts[k] == Some(r.value[k])) &&
            (r.Failure? ==> opts[r.error].None? && forall k :: 0 <= k < r.error ==> opts[k].Some?)
  {
    if opts != [] {
      var n := |opts| - 1;
      var prefix := opts[..n];
      GatherSpec(prefix);
      assert forall k :: 0 <= k < n ==> prefix[k] == opts[k];
      var r := Gather(opts);
      var rp := Gather(prefix);
      if rp.Failure? {
        assert r == rp;
      } else if opts[n].Some? {
        assert r.value == rp.value + [opts[n].value];
      }
    }
  }

  lemma GatherSnoc<T>(opts: seq<Option<T>>, x: Option<T>)
    ensures Gather(opts + [x]) ==
            match Gather(opts)
            case Failure(k) => Failure(k)
            case Success(vs) =>
              match x
              case None => Failure(|opts|)
              case Some(v) => Success(vs + [v])
  {
    assert (opts + [x])[..|opts|] == opts;
  }

  /** Once a prefix fails, the whole fails the same way. */
  lemma {:induction false} GatherPrefixFailure<T>(opts: seq<Option<T>>, m: nat)
    requires m <= |opts| && Gather(opts[..m]).Failure?
    ensures Gather(opts) == Gather(opts[..m])
    decreases |opts| - m
  {
    if m < |opts| {
      assert opts[..m + 1][..m] == opts[..m];
      GatherPrefixFailure(opts, m + 1);
    } else {
      assert opts[..m] == opts;
    }
  }

  // ---------------------------------------------------------------------------
  // Specification
  // ---------------------------------------------------------------------------

  /** The lines that do not start with the comment marker, in input order. */
  function Kept(lines: seq<string>, comment: string): (kept: seq<string>)
    ensures |kept| <= |lines|
  {
    if lines == [] then []
    else
      var last := lines[|lines| - 1];
      Kept(lines[..|lines| - 1], comment) + (if StartsWith(last, comment) then [] else [last])
  }

  /** A line is kept exactly when it is an input line that does not start
      with the comment marker. */
  lemma {:induction false} KeptMembers(lines: seq<string>, comment: string)
    ensures forall l :: l in Kept(lines, comment) <==> l in lines && !StartsWith(l, comment)
  {
    if lines != [] {
      var n := |lines| - 1;
      KeptMembers(lines[..n], comment);
      assert lines == lines[..n] + [lines[n]];
    }
  }

  /** `range(0, n)`. */
  function Range(n: nat): (r: seq<int>)
    ensures |r| == n && forall i :: 0 <= i < n ==> r[i] == i
  {
    seq(n, i => i)
  }

  /** `field.strip().strip(string_sep)`: whitespace first, then every
      leading and trailing character of `stringSep`. */
  function Clean(field: string, stringSep: string): (r: string)
    ensures r != "" ==> r[0] !in stringSep && r[|r| - 1] !in stringSep
  {
    StripChars(StripWhitespace(field), stringSep)
  }

  /** `split_up[i]` for every `i` of `format`, in that order, each None where
      Python raises IndexError. */
  function Lookups(fields: seq<string>, format: seq<int>): (opts: seq<Option<string>>)
    ensures |opts| == |format|
  {
    if format == [] then []
    else Lookups(fields, format[..|format| - 1]) + [Index(fields, format[|format| - 1])]
  }

  lemma {:induction false} LookupsAt(fields: seq<string>, format: seq<int>, j: nat)
    requires j < |format|
    ensures Lookups(fields, format)[j] == Index(fields, format[j])
  {
    var n := |format| - 1;
    if j < n {
      LookupsAt(fields, format[..n], j);
    }
  }

  /** Every field of a row cleaned. */
  function CleanRow(raw: seq<string>, stringSep: string): (r: seq<string>)
    ensures |r| == |raw|
  {
    if raw == [] then []
    else CleanRow(raw[..|raw| - 1], stringSep) + [Clean(raw[|raw| - 1], stringSep)]
  }

  lemma {:induction false} CleanRowAt(raw: seq<string>, stringSep: string, j: nat)
    requires j < |raw|
    ensures CleanRow(raw, stringSep)[j] == Clean(raw[j], stringSep)
  {
    var n := |raw| - 1;
    if j < n {
      CleanRowAt(raw[..n], stringSep, j);
    }
  }

  /** The cleaned fields at the positions of `format`, in that order; None
      when some position is out of range of the split line. */
  function Project(fields: seq<string>, format: seq<int>, stringSep: string): (r: Option<seq<string>>)
    ensures r.Some? ==> |r.value| == |format|
  {
    match Gather(Lookups(fields, format))
    case Failure(_) => None
    case Success(raw) => Some(CleanRow(raw, stringSep))
  }

  /** `Project` succeeds exactly when every position is in range (negative
      ones counting from the end), and then holds the cleaned field at each
      position. */
  lemma ProjectSpec(fields: seq<string>, format: seq<int>, stringSep: string)
    ensures var r := Project(fields, format, stringSep);
            (r.Some? <==> forall j :: 0 <= j < |format| ==> ValidIndex(fields, format[j])) &&
            (r.Some? ==> forall j :: 0 <= j < |format| ==>
                           ValidIndex(fields, format[j]) && r.value[j] == Clean(At(fields, format[j]), stringSep))
  {
    GatherSpec(Lookups(fields, format));
    forall j | 0 <= j < |format| {
      LookupsAt(fields, format, j);
    }
    var raw := Gather(Lookups(fields, format));
    if raw.Success? {
      forall j | 0 <= j < |format| {
        CleanRowAt(raw.value, stringSep, j);
      }
    }
  }

  /** One line split on `sep` and projected. */
  function Row(line: string, sep: string, format: seq<int>, stringSep: string): Option<seq<string>>
    requires |sep| > 0
  {
    Project(Split(line, sep), format, stringSep)
  }

  /** The projection of every line, in order. */
  function Rows(lines: seq<string>, sep: string, format: seq<int>, stringSep: string): (rows: seq<Option<seq<string>>>)
    requires |sep| > 0
    ensures |rows| == |lines|
  {
    if lines == [] then []
    else Rows(lines[..|lines| - 1], sep, format, stringSep) + [Row(lines[|lines| - 1], sep, format, stringSep)]
  }

  lemma {:induction false} RowsAt(lines: seq<string>, sep: string, format: seq<int>, stringSep: string, k: nat)
    requires |sep| > 0 && k < |lines|
    ensures Rows(lines, sep, format, stringSep)[k] == Row(lines[k], sep, format, stringSep)
  {
    var n := |lines| - 1;
    if k < n {
      RowsAt(lines[..n], sep, format, stringSep, k);
    }
  }

  /** The projected rows of `lines`, or FieldMissing for the first line
      whose projection fails; `first` is the kept-line number of `lines[0]`. */
  function ProjectLines(lines: seq<string>, sep: string, format: seq<int>, stringSep: string, first: nat)
    : (r: Result<seq<seq<string>>, CsvError>)
    requires |sep| > 0
    ensures r.Success? ==> |r.value| == |lines|
    ensures r.Failure? ==> r.error.FieldMissing? && first <= r.error.line < first + |lines|
  {
    match Gather(Rows(lines, sep, format, stringSep))
    case Failure(k) => Failure(FieldMissing(first + k))
    case Success(rows) => Success(rows)
  }

  /** `ProjectLines` succeeds exactly when every line projects, with the
      projected lines in order; otherwise it names the first line that does
      not. */
  lemma ProjectLinesSpec(lines: seq<string>, sep: string, format: seq<int>, stringSep: string, first: nat)
    requires |sep| > 0
    ensures (forall k :: 0 <= k < |lines| ==> Rows(lines, sep, format, stringSep)[k].Some?) ==>
            ProjectLines(lines, sep, format, stringSep, first).Success?
    ensures var r := ProjectLines(lines, sep, format, stringSep, first);
            r.Success? ==> |r.value| == |lines| &&
                           forall k :: 0 <= k < |lines| ==> Rows(lines, sep, format, stringSep)[k] == Some(r.value[k])
    ensures var r := ProjectLines(lines, sep, format, stringSep, first);
            r.Failure? ==> r.error.FieldMissing? && first <= r.error.line < first + |lines| &&
                           Rows(lines, sep, format, stringSep)[r.error.line - first].None? &&
                           forall k :: 0 <= k < r.error.line - first ==> Rows(lines, sep, format, stringSep)[k].Some?
  {
    var rows := Rows(lines, sep, format, stringSep);
    GatherSpec(rows);
    if Gather(rows).Failure? {
      var e := Gather(rows).error;
      assert rows[e].None?;
    }
  }

  /** The number of columns: the pieces of the first kept line. */
  function Columns(kept: seq<string>, sep: string): nat
    requires kept != [] && |sep| > 0
  {
    |Split(kept[0], sep)|
  }

  /** The projection actually used: the one given, or every column in order. */
  function ResolveFormat(rowFormat: seq<int>, numColumns: nat): seq<int> {
    if rowFormat == [] then Range(numColumns) else rowFormat
  }

  /** What `csvToTable` reads from `lines`, or the exception it raises. */
  function Parse(lines: seq<string>, firstRowNames: bool, fmt: CsvFormat): Result<ParsedTable, CsvError> {
    var kept := Kept(lines, fmt.comment);
    var sep := Separator(fmt);
    if kept == [] then Failure(NoDataLines)
    else if sep == "" then Failure(EmptySeparator)
    else
      var numColumns := Columns(kept, sep);
      var format := ResolveFormat(fmt.rowFormat, numColumns);
      if Max(format) > numColumns - 1 then Failure(ColumnOutOfRange(Max(format)))
      else ParseRows(kept, firstRowNames, sep, format, fmt.stringSep)
  }

  /** The rows of the kept lines once the checks have passed: the first line
      as the header when it holds column names, every other line as data. */
  function ParseRows(kept: seq<string>, firstRowNames: bool, sep: string, format: seq<int>, stringSep: string)
    : (r: Result<ParsedTable, CsvError>)
    requires kept != [] && |sep| > 0
    ensures r.Success? ==> (r.value.header.Some? <==> firstRowNames)
    ensures r.Success? ==> |r.value.rows| == |kept| - (if firstRowNames then 1 else 0)
    ensures r.Failure? ==> r.error.FieldMissing? && r.error.line < |kept|
  {
    if firstRowNames then
      match Row(kept[0], sep, format, stringSep)
      case None => Failure(FieldMissing(0))
      case Some(names) =>
        match ProjectLines(kept[1..], sep, format, stringSep, 1)
        case Failure(e) => Failure(e)
        case Success(rows) => Success(ParsedTable(Some(names), rows))
    else
      match ProjectLines(kept, sep, format, stringSep, 0)
      case Failure(e) => Failure(e)
      case Success(rows) => Success(ParsedTable(None, rows))
  }

  /** One cell: a header cell in the header row, a body cell elsewhere. */
  function Cell(field: string, header: bool): string {
    if header then TableColumnName(field) else TableItem(field)
  }

  /** The cells of one row, concatenated in order. */
  function Cells(fields: seq<string>, header: bool): string {
    if fields == [] then ""
    else Cells(fields[..|fields| - 1], header) + Cell(fields[|fields| - 1], header)
  }

  function HeaderHtml(header: Option<seq<string>>): string {
    match header
    case None => ""
    case Some(names) => TableRow(Cells(names, true))
  }

  /** The data rows, each wrapped as a row, concatenated in order. */
  function RowsHtml(rows: seq<seq<string>>): string {
    if rows == [] then ""
    else RowsHtml(rows[..|rows| - 1]) + TableRow(Cells(rows[|rows| - 1], false))
  }

  /** The rows of a parsed table as HTML: the header row first, if any. */
  function BodyHtml(t: ParsedTable): string {
    HeaderHtml(t.header) + RowsHtml(t.rows)
  }

  function RenderTable(t: ParsedTable, title: string): string {
    Table(BodyHtml(t), title)
  }

  /** What `csvToTable` returns, or the exception it raises. */
  function TableHtml(lines: seq<string>, firstRowNames: bool, fmt: CsvFormat, title: string): Result<string, CsvError> {
    match Parse(lines, firstRowNames, fmt)
    case Failure(e) => Failure(e)
    case Success(t) => Success(RenderTable(t, title))
  }

  // ---------------------------------------------------------------------------
  // The source's loops
  // ---------------------------------------------------------------------------

  /** The comment filter of `csvToTable`. */
  method DropComments(lines: seq<string>, comment: string) returns (csvLines: seq<string>)
    ensures csvLines == Kept(lines, comment)
  {
    csvLines := [];
    for i := 0 to |lines|
      invariant csvLines == Kept(lines[..i], comment)
    {
      assert lines[..i + 1][..i] == lines[..i];
      if !StartsWith(lines[i], comment) {
        csvLines := csvLines + [lines[i]];
      }
    }
    assert lines[..|lines|] == lines;
  }

  /** The inner loop of `csvToTable`: picks the fields of one split line in
      projection order, cleans each and appends its cell; None where Python
      raises IndexError. */
  method RenderFields(splitUp: seq<string>, rowFormat: seq<int>, stringSep: string, header: bool)
    returns (r: Option<string>)
    ensures r.Some? <==> Project(splitUp, rowFormat, stringSep).Some?
    ensures r.Some? ==> r.value == Cells(Project(splitUp, rowFormat, stringSep).value, header)
  {
    ghost var opts := Lookups(splitUp, rowFormat);
    var thisRow := "";
    for j := 0 to |rowFormat|
      invariant Gather(opts[..j]).Success?
      invariant thisRow == Cells(CleanRow(Gather(opts[..j]).value, stringSep), header)
    {
      var item := Index(splitUp, rowFormat[j]);
      FieldStep(splitUp, rowFormat, stringSep, header, j);
      if item.None? {
        GatherPrefixFailure(opts, j + 1);
        return None;
      }
      var field := StripWhitespace(item.value);
      field := StripChars(field, stringSep);
      thisRow := thisRow + Cell(field, header);
    }
    assert opts[..|rowFormat|] == opts;
    r := Some(thisRow);
  }

  /** The outer loop of `csvToTable`: one row per line, appended to
      `htmlOut`; FieldMissing at the first line that does not project. */
  method RenderRows(csvLines: seq<string>, sep: string, rowFormat: seq<int>, stringSep: string, first: nat, htmlOut: string)
    returns (r: Result<string, CsvError>)
    requires |sep| > 0
    ensures var p := ProjectLines(csvLines, sep, rowFormat, stringSep, first);
            r == if p.Failure? then Failure(p.error) else Success(htmlOut + RowsHtml(p.value))
  {
    ghost var opts := Rows(csvLines, sep, rowFormat, stringSep);
    var out := htmlOut;
    for k := 0 to |csvLines|
      invariant Gather(opts[..k]).Success?
      invariant out == htmlOut + RowsHtml(Gather(opts[..k]).value)
    {
      var thisRow := RenderFields(Split(csvLines[k], sep), rowFormat, stringSep, false);
      ghost var row := Row(csvLines[k], sep, rowFormat, stringSep);
      ghost var done := Gather(opts[..k]).value;
      assert Gather(opts[..k + 1]) == if row.None? then Failure(k) else Success(done + [row.value]) by {
        RowsStep(csvLines, sep, rowFormat, stringSep, k);
      }
      if thisRow.None? {
        assert ProjectLines(csvLines, sep, rowFormat, stringSep, first) == Failure(FieldMissing(first + k)) by {
          GatherPrefixFailure(opts, k + 1);
        }
        return Failure(FieldMissing(first + k));
      }
      assert thisRow.value == Cells(row.value, false);
      RowsHtmlSnoc(done, row.value);
      Regroup3(htmlOut, RowsHtml(done), TableRow(thisRow.value));
      out := out + TableRow(thisRow.value);
    }
    assert opts[..|csvLines|] == opts;
    assert ProjectLines(csvLines, sep, rowFormat, stringSep, first) == Success(Gather(opts).value);
    r := Success(out);
  }

  /** The part of `csvToTable` after the checks: the header row when the
      first line holds column names, then the data rows. */
  method RenderBody(csvLines: seq<string>, firstRowNames: bool, sep: string, rowFormat: seq<int>, stringSep: string)
    returns (r: Result<string, CsvError>)
    requires csvLines != [] && |sep| > 0
    ensures var p := ParseRows(csvLines, firstRowNames, sep, rowFormat, stringSep);
            r == if p.Failure? then Failure(p.error) else Success(BodyHtml(p.value))
  {
    var lines := csvLines;
    var htmlOut := "";
    var first := 0;
    if firstRowNames {
      var firstRow := lines[0];
      lines := lines[1..];
      var thisRow := RenderFields(Split(firstRow, sep), rowFormat, stringSep, true);
      if thisRow.None? {
        return Failure(FieldMissing(0));
      }
      htmlOut := htmlOut + TableRow(thisRow.value);
      assert htmlOut == HeaderHtml(Some(Row(firstRow, sep, rowFormat, stringSep).value));
      first := 1;
    }
    r := RenderRows(lines, sep, rowFormat, stringSep, first, htmlOut);
  }

  /** `csvToTable` over the lines the input file would yield. */
  method CsvToTable(lines: seq<string>, firstRowNames: bool, fmt: CsvFormat, tableName: string)
    returns (r: Result<string, CsvError>)
    ensures r == TableHtml(lines, firstRowNames, fmt, tableName)
  {
    var csvLines := DropComments(lines, fmt.comment);
    if csvLines == [] {
      return Failure(NoDataLines);
    }
    var sep := fmt.stringSep + fmt.fieldSep + fmt.stringSep;
    if sep == "" {
      return Failure(EmptySeparator);
    }
    var numColumns := |Split(csvLines[0], sep)|;
    var rowFormat := fmt.rowFormat;
    if rowFormat == [] {
      rowFormat := Range(numColumns);
    }
    assert rowFormat == ResolveFormat(fmt.rowFormat, Columns(csvLines, sep));
    if Max(rowFormat) > numColumns - 1 {
      return Failure(ColumnOutOfRange(Max(rowFormat)));
    }
    var body := RenderBody(csvLines, firstRowNames, sep, rowFormat, fmt.stringSep);
    match body
    case Failure(e) => r := Failure(e);
    case Success(html) => r := Success(Table(html, tableName));
  }

  /** One more position of the projection: the lookup either fails there or
      adds one cleaned field, and so one cell. */
  lemma FieldStep(splitUp: seq<string>, rowFormat: seq<int>, stringSep: string, header: bool, j: nat)
    requires j < |rowFormat| && Gather(Lookups(splitUp, rowFormat)[..j]).Success?
    ensures var opts := Lookups(splitUp, rowFormat);
            var item := Index(splitUp, rowFormat[j]);
            var done := Gather(opts[..j]).value;
            Gather(opts[..j + 1]) == (if item.None? then Failure(j) else Success(done + [item.value])) &&
            (item.Some? ==>
               Cells(CleanRow(done + [item.value], stringSep), header) ==
               Cells(CleanRow(done, stringSep), header) + Cell(Clean(item.value, stringSep), header))
  {
    var opts := Lookups(splitUp, rowFormat);
    var item := Index(splitUp, rowFormat[j]);
    LookupsAt(splitUp, rowFormat, j);
    assert opts[..j + 1] == opts[..j] + [item];
    GatherSnoc(opts[..j], item);
    if item.Some? {
      var done := Gather(opts[..j]).value;
      CleanRowSnoc(done, item.value, stringSep);
      CellsSnoc(CleanRow(done, stringSep), Clean(item.value, stringSep), header);
    }
  }

  lemma CleanRowSnoc(raw: seq<string>, f: string, stringSep: string)
    ensures CleanRow(raw + [f], stringSep) == CleanRow(raw, stringSep) + [Clean(f, stringSep)]
  {
    assert (raw + [f])[..|raw|] == raw;
  }

  lemma RowsStep(lines: seq<string>, sep: string, format: seq<int>, stringSep: string, k: nat)
    requires |sep| > 0 && k < |lines|
    ensures var opts := Rows(lines, sep, format, stringSep);
            Gather(opts[..k + 1]) ==
            match Gather(opts[..k])
            case Failure(e) => Failure(e)
            case Success(vs) =>
              match Row(lines[k], sep, format, stringSep)
              case None => Failure(k)
              case Some(v) => Success(vs + [v])
  {
    var opts := Rows(lines, sep, format, stringSep);
    RowsAt(lines, sep, format, stringSep, k);
    assert opts[..k + 1] == opts[..k] + [opts[k]];
    GatherSnoc(opts[..k], opts[k]);
  }

  lemma CellsSnoc(fields: seq<string>, f: string, header: bool)
    ensures Cells(fields + [f], header) == Cells(fields, header) + Cell(f, header)
  {
    assert (fields + [f])[..|fields|] == fields;
  }

  lemma RowsHtmlSnoc(rows: seq<seq<string>>, row: seq<string>)
    ensures RowsHtml(rows + [row]) == RowsHtml(rows) + TableRow(Cells(row, false))
  {
    assert (rows + [row])[..|rows|] == rows;
  }
}
