/** The command-line driver: choosing one table title per input file,
    converting every file with `csvToTable` (first row as column names) and
    wrapping the tables, each followed by a line break, in one document.

    Argument parsing and the file reads and write are not modelled: the
    options arrive as a value and each input file as its name and its
    lines. The platform path separator (`os.sep`) is a parameter. */
module Convert {
  import opened Wrappers
  import opened Python
  import opened Html
  import opened CsvTable
  import opened CsvTableProperties

  /** One input file: the name given on the command line and the lines
      reading it would yield. */
  datatype InputFile = InputFile(name: string, lines: seq<string>)

  /** The command-line options after parsing. `tableTitle` is None when
      `--table-title` is absent and Some([]) when it is given with no
      values. */
  datatype Options = Options(
    pageTitle: string,
    tableTitle: Option<seq<string>>,
    noColor: bool,
    fieldSep: string,
    stringSep: string,
    commentChar: string,
    extension: string,
    rowFormat: seq<int>)

  /** The option defaults. */
  const DefaultOptions := Options("Table", None, false, ",", "\"", "#", ".csv", [])

  /** The exceptions the driver can raise: too few table titles, or one
      raised by `csvToTable`. */
  datatype ConvertError = TitleShortage | Csv(error: CsvError)

  /** What follows every table in the document. */
  const LineBreak := "<br><!-- Table line break -->\n"

  /** The table options `csvToTable` receives from the command line. */
  function Format(opts: Options): CsvFormat {
    CsvFormat(opts.fieldSep, opts.stringSep, opts.rowFormat, opts.commentChar)
  }

  // ---------------------------------------------------------------------------
  // Table titles
  // ---------------------------------------------------------------------------

  /** The file name without `extension`, when it ends with it: the last
      occurrence found by `rfind` is accepted only at the very end. An empty
      extension strips nothing. */
  function StripExtension(filename: string, extension: string): string {
    if extension == "" then filename
    else
      var loc := RFind(filename, extension);
      if loc != -1 && |extension| == |filename| - loc then filename[0..loc] else filename
  }

  /** `filename.split(sep)[-1]`: what follows the last separator. */
  function LastComponent(filename: string, pathSep: string): string
    requires |pathSep| > 0
  {
    At(Split(filename, pathSep), -1)
  }

  /** The title derived from one file name. */
  function TitleFromName(filename: string, extension: string, pathSep: string): string
    requires |pathSep| > 0
  {
    LastComponent(StripExtension(filename, extension), pathSep)
  }

  /** The extension is removed exactly when the name ends with it, and only
      that suffix is removed. */
  lemma StripExtensionIffSuffix(filename: string, extension: string)
    ensures var r := StripExtension(filename, extension);
            if extension != "" && EndsWith(filename, extension)
            then r + extension == filename
            else r == filename
  {
    if extension != "" {
      var loc := RFind(filename, extension);
      var end := |filename| - |extension|;
      if EndsWith(filename, extension) {
        assert OccursAt(filename, extension, end);
        assert filename == filename[0..end] + filename[end..];
      }
    }
  }

  /** The last component holds no separator, and it is either the whole
      name or what follows a separator at the end of the name. */
  lemma LastComponentSpec(filename: string, pathSep: string)
    requires |pathSep| > 0
    ensures var c := LastComponent(filename, pathSep);
            EndsWith(filename, c) && forall p :: !OccursAt(c, pathSep, p)
    ensures var c := LastComponent(filename, pathSep);
            c == filename || EndsWith(filename, pathSep + c)
  {
    var pieces := Split(filename, pathSep);
    var n := |pieces| - 1;
    var c := pieces[n];
    SplitPiecesFree(filename, pathSep);
    JoinEndsWithLast(pieces, pathSep);
    assert LastComponent(filename, pathSep) == c;
    if n > 0 {
      var front := Join(pieces[..n], pathSep);
      JoinSnoc(pieces[..n], c, pathSep);
      assert pieces[..n] + [c] == pieces;
      Regroup3(front, pathSep, c);
      assert filename == front + (pathSep + c);
      assert filename[|filename| - |pathSep + c|..] == pathSep + c;
    }
  }

  /** One title per file, derived from its name, in file order. */
  function DerivedTitles(files: seq<InputFile>, extension: string, pathSep: string): (titles: seq<string>)
    requires |pathSep| > 0
    ensures |titles| == |files|
  {
    seq(|files|, i requires 0 <= i < |files| => TitleFromName(files[i].name, extension, pathSep))
  }

  /** `n` empty titles. */
  function Blanks(n: nat): (titles: seq<string>)
    ensures |titles| == n
  {
    seq(n, i => "")
  }

  /** The title list once resolved: derived for `--table-title` with no
      values, empty strings for an absent option, else the titles given. */
  function TitleList(files: seq<InputFile>, given: Option<seq<string>>, extension: string, pathSep: string): seq<string>
    requires |pathSep| > 0
  {
    match given
    case None => Blanks(|files|)
    case Some(ts) => if ts == [] then DerivedTitles(files, extension, pathSep) else ts
  }

  /** The resolved titles, or the IndexError raised when there are fewer
      titles than files. */
  function Titles(files: seq<InputFile>, given: Option<seq<string>>, extension: string, pathSep: string)
    : Result<seq<string>, ConvertError>
    requires |pathSep| > 0
  {
    var titles := TitleList(files, given, extension, pathSep);
    if |files| > |titles| then Failure(TitleShortage) else Success(titles)
  }

  /** Title resolution fails exactly when titles were given and there are
      fewer of them than files. */
  lemma TitlesFailIff(files: seq<InputFile>, given: Option<seq<string>>, extension: string, pathSep: string)
    requires |pathSep| > 0
    ensures Titles(files, given, extension, pathSep).Failure? <==>
            given.Some? && given.value != [] && |given.value| < |files|
  {
  }

  /** What each way of giving titles yields: one empty title per file when
      none are given, one title per file from its name when the option has
      no values, the given titles otherwise. */
  lemma TitlesSpec(files: seq<InputFile>, given: Option<seq<string>>, extension: string, pathSep: string)
    requires |pathSep| > 0 && Titles(files, given, extension, pathSep).Success?
    ensures var titles := Titles(files, given, extension, pathSep).value;
            |files| <= |titles| &&
            (given.None? ==> |titles| == |files| && forall i :: 0 <= i < |titles| ==> titles[i] == "") &&
            (given == Some([]) ==>
               (|titles| == |files| &&
                forall i :: 0 <= i < |files| ==> titles[i] == TitleFromName(files[i].name, extension, pathSep))) &&
            (given.Some? && given.value != [] ==> titles == given.value)
  {
  }

  /** The name loop of the title-resolution block: one title per file,
      appended in file order. */
  method DeriveTitles(files: seq<InputFile>, extension: string, pathSep: string) returns (titles: seq<string>)
    requires |pathSep| > 0
    ensures titles == DerivedTitles(files, extension, pathSep)
  {
    titles := [];
    for i := 0 to |files|
      invariant |titles| == i
      invariant forall k :: 0 <= k < i ==> titles[k] == TitleFromName(files[k].name, extension, pathSep)
    {
      var filename := files[i].name;
      if extension != "" {
        var loc := RFind(filename, extension);
        if loc != -1 && |extension| == |filename| - loc {
          filename := filename[0..loc];
        }
      }
      assert filename == StripExtension(files[i].name, extension);
      filename := At(Split(filename, pathSep), -1);
      assert filename == TitleFromName(files[i].name, extension, pathSep);
      titles := titles + [filename];
    }
  }

  /** The padding loop of the title-resolution block: empty titles up to
      the number of files. */
  method PadTitles(numFiles: nat) returns (titles: seq<string>)
    ensures titles == Blanks(numFiles)
  {
    titles := [];
    while numFiles > |titles|
      invariant |titles| <= numFiles
      invariant forall k :: 0 <= k < |titles| ==> titles[k] == ""
      decreases numFiles - |titles|
    {
      titles := titles + [""];
    }
  }

  /** The title-resolution block of the driver. */
  method ResolveTitles(files: seq<InputFile>, given: Option<seq<string>>, extension: string, pathSep: string)
    returns (r: Result<seq<string>, ConvertError>)
    requires |pathSep| > 0
    ensures r == Titles(files, given, extension, pathSep)
  {
    var titles: seq<string>;
    if given == Some([]) {
      titles := DeriveTitles(files, extension, pathSep);
    } else if given.None? {
      titles := PadTitles(|files|);
    } else {
      titles := given.value;
    }
    if |files| > |titles| {
      return Failure(TitleShortage);
    }
    r := Success(titles);
  }

  // ---------------------------------------------------------------------------
  // Document assembly
  // ---------------------------------------------------------------------------

  /** All values of `rs`, or the first error among them. */
  function Collect<T, E>(rs: seq<Result<T, E>>): (r: Result<seq<T>, E>)
    ensures r.Success? ==> |r.value| == |rs|
  {
    if rs == [] then Success([])
    else
      var n := |rs| - 1;
      match Collect(rs[..n])
      case Failure(e) => Failure(e)
      case Success(vs) =>
        match rs[n]
        case Failure(e) => Failure(e)
        case Success(v) => Success(vs + [v])
  }

  /** `Collect` succeeds exactly when every entry does, keeping the values
      in order; otherwise its error is that of the first failing entry. */
  lemma {:induction false} CollectSpec<T, E>(rs: seq<Result<T, E>>)
    ensures Collect(rs).Success? ==> forall k :: 0 <= k < |rs| ==> rs[k] == Success(Collect(rs).value[k])
    ensures Collect(rs).Failure? ==> exists k :: 0 <= k < |rs| && rs[k] == Failure(Collect(rs).error) &&
                                               forall j :: 0 <= j < k ==> rs[j].Success?
    ensures (forall k :: 0 <= k < |rs| ==> rs[k].Success?) ==> Collect(rs).Success?
  {
    if rs != [] {
      var n := |rs| - 1;
      var prefix := rs[..n];
      CollectSpec(prefix);
      assert forall k :: 0 <= k < n ==> prefix[k] == rs[k];
      var r := Collect(rs);
      var rp := Collect(prefix);
      if rp.Failure? {
        assert r == rp;
        var k :| 0 <= k < |prefix| && prefix[k] == Failure(rp.error) && forall j :: 0 <= j < k ==> prefix[j].Success?;
        assert rs[k] == Failure(r.error);
      } else if rs[n].Success? {
        assert r.value == rp.value + [rs[n].value];
      } else {
        assert rs[n] == Failure(r.error);
      }
    }
  }

  /** One more entry: `Collect` goes on from where the prefix left off. */
  lemma CollectStep<T, E>(rs: seq<Result<T, E>>, i: nat, x: Result<T, E>)
    requires i < |rs| && rs[i] == x
    ensures Collect(rs[..i + 1]) ==
            match Collect(rs[..i])
            case Failure(e) => Failure(e)
            case Success(vs) =>
              match x
              case Failure(e) => Failure(e)
              case Success(v) => Success(vs + [v])
  {
    assert rs[..i + 1][..i] == rs[..i];
  }

  lemma {:induction false} CollectPrefixFailure<T, E>(rs: seq<Result<T, E>>, m: nat)
    requires m <= |rs| && Collect(rs[..m]).Failure?
    ensures Collect(rs) == Collect(rs[..m])
    decreases |rs| - m
  {
    if m < |rs| {
      assert rs[..m + 1][..m] == rs[..m];
      CollectPrefixFailure(rs, m + 1);
    } else {
      assert rs[..m] == rs;
    }
  }

  lemma TerminatedSnoc(tables: seq<string>, t: string)
    ensures Terminated(tables + [t]) == Terminated(tables) + t + LineBreak
  {
    assert (tables + [t])[..|tables|] == tables;
  }

  /** What `csvToTable` gives for each file, under its title, in file
      order. */
  function TableResults(files: seq<InputFile>, fmt: CsvFormat, titles: seq<string>): (rs: seq<Result<string, CsvError>>)
    requires |files| <= |titles|
    ensures |rs| == |files|
  {
    seq(|files|, i requires 0 <= i < |files| => TableHtml(files[i].lines, true, fmt, titles[i]))
  }

  /** The tables in order, each followed by one line break. */
  function Terminated(tables: seq<string>): string {
    if tables == [] then ""
    else Terminated(tables[..|tables| - 1]) + tables[|tables| - 1] + LineBreak
  }

  /** Joining the tables with the line break and adding one more after the
      last gives the same text: exactly one break follows every table. */
  lemma {:induction false} TerminatedIsJoin(tables: seq<string>)
    requires tables != []
    ensures Terminated(tables) == Join(tables, LineBreak) + LineBreak
    decreases |tables|
  {
    var n := |tables| - 1;
    if n == 0 {
      assert tables[..0] == [];
    } else {
      TerminatedIsJoin(tables[..n]);
      JoinSnoc(tables[..n], tables[n], LineBreak);
      assert tables[..n] + [tables[n]] == tables;
      Regroup3(Join(tables[..n], LineBreak), LineBreak, tables[n]);
    }
  }

  /** `sep.join` of a list with one more element. */
  lemma {:induction false} JoinSnoc(pieces: seq<string>, x: string, sep: string)
    requires pieces != []
    ensures Join(pieces + [x], sep) == Join(pieces, sep) + sep + x
    decreases |pieces|
  {
    var all := pieces + [x];
    assert all[0] == pieces[0];
    if |pieces| == 1 {
      assert all[1..] == [x];
    } else {
      assert all[1..] == pieces[1..] + [x];
      JoinSnoc(pieces[1..], x, sep);
    }
  }

  /** The tables of all files, each followed by its line break, or the first
      error `csvToTable` raises. */
  function AllTables(files: seq<InputFile>, fmt: CsvFormat, titles: seq<string>): Result<string, CsvError>
    requires |files| <= |titles|
  {
    match Collect(TableResults(files, fmt, titles))
    case Failure(e) => Failure(e)
    case Success(tables) => Success(Terminated(tables))
  }

  /** What the driver writes, or the exception it raises. */
  function Convert(files: seq<InputFile>, opts: Options, pathSep: string): Result<string, ConvertError>
    requires |pathSep| > 0
  {
    match Titles(files, opts.tableTitle, opts.extension, pathSep)
    case Failure(e) => Failure(e)
    case Success(titles) =>
      match AllTables(files, Format(opts), titles)
      case Failure(e) => Failure(Csv(e))
      case Success(body) => Success(HtmlHeader(body, opts.pageTitle, !opts.noColor))
  }

  /** The conversion loop of the driver: one table per file, each followed
      by a line break. */
  method AssembleTables(files: seq<InputFile>, fmt: CsvFormat, titles: seq<string>)
    returns (r: Result<string, CsvError>)
    requires |files| <= |titles|
    ensures r == AllTables(files, fmt, titles)
  {
    ghost var results := TableResults(files, fmt, titles);
    var tableOut := "";
    for item := 0 to |files|
      invariant Collect(results[..item]).Success?
      invariant tableOut == Terminated(Collect(results[..item]).value)
    {
      var table := CsvToTable(files[item].lines, true, fmt, titles[item]);
      CollectStep(results, item, table);
      if table.Failure? {
        CollectPrefixFailure(results, item + 1);
        return Failure(table.error);
      }
      TerminatedSnoc(Collect(results[..item]).value, table.value);
      tableOut := tableOut + table.value;
      tableOut := tableOut + LineBreak;
    }
    assert results[..|files|] == results;
    r := Success(tableOut);
  }

  /** The driver after argument parsing: resolve the titles, convert every
      file, and wrap the tables in the document shell. */
  method Run(files: seq<InputFile>, opts: Options, pathSep: string) returns (r: Result<string, ConvertError>)
    requires |pathSep| > 0
    ensures r == Convert(files, opts, pathSep)
  {
    var titles := ResolveTitles(files, opts.tableTitle, opts.extension, pathSep);
    if titles.Failure? {
      return Failure(titles.error);
    }
    var tableOut := AssembleTables(files, Format(opts), titles.value);
    if tableOut.Failure? {
      return Failure(Csv(tableOut.error));
    }
    r := Success(HtmlHeader(tableOut.value, opts.pageTitle, !opts.noColor));
  }

  // ---------------------------------------------------------------------------
  // Properties of the whole run
  // ---------------------------------------------------------------------------

  /** When every file converts, the tables come out in file order, each
      followed by exactly one line break. */
  lemma AllTablesSuccess(files: seq<InputFile>, fmt: CsvFormat, titles: seq<string>) returns (tables: seq<string>)
    requires |files| <= |titles| && AllTables(files, fmt, titles).Success?
    ensures |tables| == |files|
    ensures forall i :: 0 <= i < |files| ==> TableHtml(files[i].lines, true, fmt, titles[i]) == Success(tables[i])
    ensures AllTables(files, fmt, titles).value == Terminated(tables)
  {
    var results := TableResults(files, fmt, titles);
    CollectSpec(results);
    tables := Collect(results).value;
    forall i | 0 <= i < |files|
      ensures TableHtml(files[i].lines, true, fmt, titles[i]) == Success(tables[i])
    {
      assert results[i] == Success(tables[i]);
    }
  }

  /** When some file fails to convert, the error is that of the first such
      file. */
  lemma AllTablesFailure(files: seq<InputFile>, fmt: CsvFormat, titles: seq<string>)
    requires |files| <= |titles| && AllTables(files, fmt, titles).Failure?
    ensures exists k :: 0 <= k < |files| &&
              TableHtml(files[k].lines, true, fmt, titles[k]) == Failure(AllTables(files, fmt, titles).error) &&
              forall j :: 0 <= j < k ==> TableHtml(files[j].lines, true, fmt, titles[j]).Success?
  {
    var results := TableResults(files, fmt, titles);
    CollectSpec(results);
    var k :| 0 <= k < |results| && results[k] == Failure(Collect(results).error) &&
             forall j :: 0 <= j < k ==> results[j].Success?;
    assert forall j :: 0 <= j < k ==> results[j] == TableHtml(files[j].lines, true, fmt, titles[j]);
  }

  /** A finished document is the page shell around the tables of all files,
      in order, each converted under its own title with the first row as
      column names and each followed by exactly one line break. */
  lemma ConvertDocument(files: seq<InputFile>, opts: Options, pathSep: string)
    requires |pathSep| > 0 && Convert(files, opts, pathSep).Success?
    ensures Titles(files, opts.tableTitle, opts.extension, pathSep).Success?
    ensures var titles := Titles(files, opts.tableTitle, opts.extension, pathSep).value;
            var doc := Convert(files, opts, pathSep).value;
            exists tables: seq<string> ::
              |tables| == |files| &&
              (forall i :: 0 <= i < |files| ==> TableHtml(files[i].lines, true, Format(opts), titles[i]) == Success(tables[i])) &&
              Unwrap(doc, DocHead(opts.pageTitle, !opts.noColor), DocClose) == Some(Terminated(tables))
  {
    ConvertSuccessParts(files, opts, pathSep);
    var titles := Titles(files, opts.tableTitle, opts.extension, pathSep).value;
    var tables := AllTablesSuccess(files, Format(opts), titles);
    HtmlHeaderRoundTrip(Terminated(tables), opts.pageTitle, !opts.noColor);
  }

  lemma ConvertSuccessParts(files: seq<InputFile>, opts: Options, pathSep: string)
    requires |pathSep| > 0 && Convert(files, opts, pathSep).Success?
    ensures Titles(files, opts.tableTitle, opts.extension, pathSep).Success?
    ensures var titles := Titles(files, opts.tableTitle, opts.extension, pathSep).value;
            var body := AllTables(files, Format(opts), titles);
            body.Success? && Convert(files, opts, pathSep).value == HtmlHeader(body.value, opts.pageTitle, !opts.noColor)
  {
  }

  /** The run fails with the first failing file's error when the titles
      suffice, and before any file is converted when they do not. */
  lemma ConvertFailure(files: seq<InputFile>, opts: Options, pathSep: string)
    requires |pathSep| > 0 && Convert(files, opts, pathSep).Failure?
    ensures var e := Convert(files, opts, pathSep).error;
            var titles := Titles(files, opts.tableTitle, opts.extension, pathSep);
            (e == TitleShortage <==> titles.Failure?) &&
            (titles.Success? ==>
               exists k :: 0 <= k < |files| &&
                 TableHtml(files[k].lines, true, Format(opts), titles.value[k]) == Failure(e.error) &&
                 forall j :: 0 <= j < k ==> TableHtml(files[j].lines, true, Format(opts), titles.value[j]).Success?)
  {
    var titles := Titles(files, opts.tableTitle, opts.extension, pathSep);
    if titles.Success? {
      AllTablesFailure(files, Format(opts), titles.value);
    }
  }

  /** With the default options (no `--row-format`), no run fails the column
      bound check. */
  lemma DefaultOptionsInRange(files: seq<InputFile>, pathSep: string, m: int)
    requires |pathSep| > 0
    ensures Convert(files, DefaultOptions, pathSep) != Failure(Csv(ColumnOutOfRange(m)))
  {
    var r := Convert(files, DefaultOptions, pathSep);
    if r == Failure(Csv(ColumnOutOfRange(m))) {
      ConvertFailure(files, DefaultOptions, pathSep);
      var titles := Titles(files, DefaultOptions.tableTitle, DefaultOptions.extension, pathSep).value;
      var k :| 0 <= k < |files| &&
               TableHtml(files[k].lines, true, Format(DefaultOptions), titles[k]) == Failure(ColumnOutOfRange(m));
      DefaultFormatInRange(files[k].lines, true, Format(DefaultOptions), m);
      assert false;
    }
  }
}
