# csvToHtml in Dafny

A model of `csvToHtml.py`, a command-line tool that turns CSV files into
HTML tables. It has four parts:

- **Reading one input** (`csvToTable`).
  - Comment lines are dropped.
  - The column count comes from the first remaining line. Lines are split on
    the separator triple `string_sep + field_sep + string_sep`.
  - The requested column order (`row_format`) is checked against that
    count.
  - The first line optionally becomes a header row.
  - Every line is projected onto the requested columns. Each field is
    cleaned with `strip()` and then `strip(string_sep)`.
- **Rendering** (`tableItem`, `tableColumnName`, `tableRow`, `table`,
  `htmlHeader`).
  - Fixed prefixes and suffixes go around the cells, rows and tables.
  - A caption appears only for a non-empty title.
  - The document shell adds zebra-stripe rules only when colour is on.
- **Table titles.** They are derived from the file names when
  `--table-title` is given with no values. They are empty when the option
  is absent. There must be at least as many titles as files.
- **Document assembly.** Each table is followed by exactly one line-break
  marker, and the whole is wrapped once in the document shell.

Files:

- `wrappers.dfy`: `Option` and `Result`.
- `python.dfy` (module `Python`): the Python 3 built-ins the program uses, with their exact semantics.
  - `startswith`, `endswith`;
  - `split` with an explicit separator, and its inverse `join`;
  - `strip()` over the `str.isspace` set, and `strip(chars)`;
  - `rfind`;
  - list indexing, including negative indices;
  - `max`.
- `html.dfy` (module `Html`): the five wrappers as functions, an `Unwrap` inverse, and the round-trip and structure lemmas.
- `csv_table.dfy` (module `CsvTable`): the specification of `csvToTable` and its loops as methods.
  - `Parse` maps lines to a header, data rows, or the exception raised.
  - `TableHtml` renders the result.
  - The loops are methods: `DropComments`, `RenderFields`, `RenderRows`, `RenderBody` and `CsvToTable`. Each is proved to compute the specification.
- `csv_table_props.dfy` (module `CsvTableProperties`): what `csvToTable` promises about a whole input.
- `convert.dfy` (module `Convert`): the driver below argument parsing.
  - Title resolution: `DeriveTitles`, `PadTitles`, `ResolveTitles`.
  - The conversion loop: `AssembleTables`.
  - The whole run: `Run`.
  - Each is proved equal to a specification function, with lemmas about the finished document.

Where the code and its own comments or help text differ, the model follows the code:

- `strip(string_sep)` removes every leading and trailing quote character, not one layer.
- A line without quotes such as `a,b,c` is split on `","` under the default separators, so it is a single field.
- An input with only one data line is read without trouble. Only an input with no non-comment line fails, with IndexError at `csv_lines[0]`.
- `--table-title` with no values (`[]`) derives titles from the file names. An absent option (`None`) gives empty titles.
- The check that should skip title derivation for a pipe never fires. By then `args.input` is always a list, so the pipe branch cannot run.

The exceptions become error values.

- `CsvError.NoDataLines`: the IndexError at `csv_lines[0]`.
- `CsvError.EmptySeparator`: the ValueError from `split('')`.
- `CsvError.ColumnOutOfRange`: the IndexError of the bound check.
- `CsvError.FieldMissing(line)`: the IndexError raised when a line is too short. `line` counts kept lines from 0.
- `ConvertError.TitleShortage`: the IndexError when there are too few titles.

They are checked in the order Python raises them.

## Model

| member | source | states |
|---|---|---|
| Python.Split | csvToHtml.py:111 | `split` on a non-empty separator gives at least one piece, and joining the pieces with the separator gives back the line |
| Python.SplitFirstCut | csvToHtml.py:111 | `split` cuts at the leftmost occurrence of the separator: no occurrence starts inside the first piece; a single piece means no occurrence at all; otherwise the rest is the split of what follows that occurrence, which fixes the pieces and their number even for a separator that overlaps itself, such as `","` |
| Python.SplitPiecesFree | csvToHtml.py:149 | no piece of a split line contains the separator |
| Python.Strip | csvToHtml.py:156-158 | after stripping a set of characters, the text neither starts nor ends with one of them |
| Python.StripRemovesOnlyStripped | csvToHtml.py:156-158 | stripping keeps a contiguous slice of the field and removes only characters of the stripped set on either side |
| Python.RFind | csvToHtml.py:220 | `rfind` gives -1 or a position where the extension occurs, and no occurrence lies after it |
| Python.Max | csvToHtml.py:120 | `max(row_format)` is an element of the list and no element exceeds it |
| Html.TableItemRoundTrip | csvToHtml.py:61-66 | removing `\t<td>` and `</td>\n` from a body cell gives back the item |
| Html.TableColumnNameRoundTrip | csvToHtml.py:68-73 | removing `\t<th>` and `</th>\n` from a header cell gives back the item |
| Html.TableRowRoundTrip | csvToHtml.py:75-80 | removing `<tr>\n` and `</tr>\n` from a row gives back its cells |
| Html.TableRoundTrip | csvToHtml.py:82-91 | removing the table head chosen by the title and the table end gives back the rows |
| Html.CaptionIffTitle | csvToHtml.py:84-91 | a table of rendered rows opens with the caption line exactly when its title is non-empty |
| Html.CaptionWithTitle | csvToHtml.py:86-87 | with a non-empty title the caption line follows the table tag |
| Html.NoCaptionWithoutTitle | csvToHtml.py:84-91 | with an empty title no caption line follows the table tag |
| Html.HtmlHeaderRoundTrip | csvToHtml.py:24-59 | removing the document head and footer gives back the body |
| Html.StripesIffColor | csvToHtml.py:41-55 | the zebra-stripe rules follow the base style rules exactly when colour is on |
| CsvTable.GatherSpec | csvToHtml.py:151-154 | picking values stops at the first absent one; otherwise all values are kept in order |
| CsvTable.KeptMembers | csvToHtml.py:102-105 | a line is kept exactly when it is an input line that does not start with the comment marker |
| CsvTable.Range | csvToHtml.py:116 | `range(0, n)` has length n and holds i at position i |
| CsvTable.Clean | csvToHtml.py:156-158 | a cleaned field neither starts nor ends with a character of `string_sep` |
| CsvTable.ProjectSpec | csvToHtml.py:151-158 | a line projects exactly when every requested index is in range (negative ones from the end); then field j is the cleaned piece at `row_format[j]` |
| CsvTable.ProjectLines | csvToHtml.py:141-164 | projecting the data lines gives one row per line, or FieldMissing for a line inside the range |
| CsvTable.ProjectLinesSpec | csvToHtml.py:141-164 | projecting the data lines succeeds when every line projects, keeps the rows in order, and otherwise names the first line that does not project |
| CsvTable.ParseRows | csvToHtml.py:123-164 | after the checks, a header exists exactly when the first row holds names; data rows number the kept lines minus the header; the only failure is FieldMissing |
| CsvTable.DropComments | csvToHtml.py:102-105 | the comment loop yields exactly the kept lines |
| CsvTable.RenderFields | csvToHtml.py:132-136 | the inner loop fails exactly when the projection fails; otherwise it gives the cells of the cleaned fields in projection order |
| CsvTable.RenderRows | csvToHtml.py:141-164 | the row loop appends one `<tr>` of body cells per line, or fails at the first line that does not project |
| CsvTable.RenderBody | csvToHtml.py:123-164 | the header row (if any) followed by the data rows, or the first FieldMissing |
| CsvTable.CsvToTable | csvToHtml.py:94-168 | `csvToTable` returns exactly the specified table, or the specified exception |
| CsvTableProperties.KeptAppend | csvToHtml.py:102-105 | comment filtering distributes over concatenation, so kept lines stay in input order |
| CsvTableProperties.SameKeptSameTable | csvToHtml.py:102-168 | the output depends on the input only through its kept lines |
| CsvTableProperties.CommentLineIgnored | csvToHtml.py:102-105 | inserting a comment line anywhere leaves the output unchanged |
| CsvTableProperties.EmptyMarkerDropsAll | csvToHtml.py:104 | an empty comment marker drops every line |
| CsvTableProperties.KeptEmptyIff | csvToHtml.py:102-105 | no line is kept exactly when every line is a comment |
| CsvTableProperties.NoDataIffAllComments | csvToHtml.py:102-111 | the IndexError at `csv_lines[0]` happens exactly when every line is a comment |
| CsvTableProperties.EmptySeparatorIff | csvToHtml.py:111 | the ValueError from `split` happens exactly when there is a kept line and both separators are empty |
| CsvTableProperties.ColumnOutOfRangeIff | csvToHtml.py:111-121 | the bound check fails exactly when the largest requested index is past the first kept line's column count |
| CsvTableProperties.MaxRange | csvToHtml.py:115-116 | the largest index of the default projection is the column count minus one |
| CsvTableProperties.DefaultFormatInRange | csvToHtml.py:115-121 | without an explicit projection the bound check never fails |
| CsvTableProperties.KeptRowsAt | csvToHtml.py:149-154 | entry i of the projected kept lines is kept line i split on the separator triple and projected |
| CsvTableProperties.ParseRowsWithHeader | csvToHtml.py:123-164 | with column names, the reading loops assemble the projected kept lines, the first as the header |
| CsvTableProperties.ParseRowsWithoutHeader | csvToHtml.py:141-164 | without column names, every projected kept line is a data row |
| CsvTableProperties.ParseAssembles | csvToHtml.py:102-164 | once the checks pass, reading equals assembling the projected kept lines |
| CsvTableProperties.AssembleShape | csvToHtml.py:123-164 | a successful assembly has a header exactly when asked for, equal to the first projected line, and one data row per remaining line, in order |
| CsvTableProperties.AssembleFailure | csvToHtml.py:133-154 | a failed assembly names the first line that does not project |
| CsvTableProperties.AssembleSucceedsIff | csvToHtml.py:123-164 | assembly succeeds exactly when every line projects |
| CsvTableProperties.AssembleHeaderMoves | csvToHtml.py:123-138 | reading the first line as names only moves it out of the data rows |
| CsvTableProperties.ParseShape | csvToHtml.py:123-164 | a successful read has a header exactly when the first row holds names, equal to the first kept line projected; the data rows are the other kept lines projected, in order |
| CsvTableProperties.FieldMissingIsFirstBadLine | csvToHtml.py:133-154 | FieldMissing(n) names the first kept line that does not project; every earlier line does |
| CsvTableProperties.ParseSucceedsIffAllLinesProject | csvToHtml.py:120-164 | once the bound check passes, reading succeeds exactly when every kept line has all requested columns |
| CsvTableProperties.HeaderOnlyMovesFirstRow | csvToHtml.py:123-164 | reading with and without column names differ only in where the first kept line goes |
| CsvTableProperties.ParsedRowIsCleanedColumns | csvToHtml.py:149-158 | in a successful read, kept line i projects to `len(row_format)` fields; field j is the cleaned piece at `row_format[j]`, which is in range |
| CsvTableProperties.RowsHtmlIsRowsText | csvToHtml.py:141-164 | rendered data rows are empty or open with `<tr>` |
| CsvTableProperties.BodyHtmlIsRowsText | csvToHtml.py:123-164 | the body of a table is empty or opens with `<tr>` |
| CsvTableProperties.TableHtmlShape | csvToHtml.py:167 | a converted table opens with a caption exactly when its title is non-empty, and unwraps to the header row and data rows |
| Convert.StripExtensionIffSuffix | csvToHtml.py:219-223 | the extension is removed exactly when the name ends with it, and only that suffix is removed |
| Convert.LastComponentSpec | csvToHtml.py:226 | `filename.split(sep)[-1]` contains no separator, and it is either the whole name or the part after a separator at the end of the name |
| Convert.TitlesFailIff | csvToHtml.py:241-243 | title resolution fails exactly when titles were given and there are fewer of them than files |
| Convert.TitlesSpec | csvToHtml.py:213-243 | no option gives one empty title per file; the option without values gives one title per file from its name; given titles are used as they are |
| Convert.DeriveTitles | csvToHtml.py:217-229 | the naming loop yields one title per file, derived from its name, in file order |
| Convert.PadTitles | csvToHtml.py:235-239 | the padding loop yields exactly as many empty titles as files |
| Convert.ResolveTitles | csvToHtml.py:213-243 | the title-resolution block yields the specified titles or the shortage error |
| Convert.CollectSpec | csvToHtml.py:245-253 | collecting results succeeds exactly when all do, keeping them in order; otherwise it gives the first failure |
| Convert.TerminatedIsJoin | csvToHtml.py:245-253 | the tables followed by one break each equal the tables joined by the break, plus one break |
| Convert.AssembleTables | csvToHtml.py:245-253 | the conversion loop yields every table followed by a break, or the first file's error |
| Convert.Run | csvToHtml.py:208-256 | the driver yields exactly the specified document or error |
| Convert.AllTablesSuccess | csvToHtml.py:245-253 | when every file converts, the tables come in file order, each followed by one break |
| Convert.AllTablesFailure | csvToHtml.py:245-253 | when some file fails, the error is that of the first failing file |
| Convert.ConvertDocument | csvToHtml.py:245-256 | the document is the shell wrapped once around every file's table, in order, each followed by one break |
| Convert.DefaultOptionsInRange | csvToHtml.py:115-121 | with the default options (no `--row-format`) the run never fails the column bound check |
| Convert.ConvertFailure | csvToHtml.py:242-256 | too few titles fails before any file is converted; otherwise the error is the first failing file's |

## Left out

- File input and output. `open`, `readlines` and `close` (csvToHtml.py:100-106) are replaced by the sequence of lines a file would yield. The output write (csvToHtml.py:255-257) is replaced by the returned document.
- Argument parsing and the platform branch (csvToHtml.py:172-201). The options arrive as an `Options` value. `os.sep` is a parameter of the driver.
  - The default input `/dev/stdin` is not supplied. A caller passes it as an ordinary input file.
- The branch for a piped input (csvToHtml.py:230-233). It cannot run, because `args.input` is always a list by then.
- The `ColumnError` class (csvToHtml.py:21). Nothing raises it.
- The `style` parameter of `table` is not modelled. It is never used.
- `str()` conversions are not modelled. They are applied only to strings here.
- Python 2 behaviour is not modelled. `str.strip()` is modelled with Python 3's whitespace set.
- HTML escaping. The program does none, and field text is inserted verbatim.
  - So a rendered row cannot in general be split back into its fields. The round trips are stated per cell, row, table and document.
- `csvToTable` is modelled as several methods, one per loop. Its `pop(0)` is modelled by slicing off the first line.
- The driver always reads the first row as column names: `main` calls `csvToTable` without `first_row_names`. Reading without names is modelled for `csvToTable` itself.
