# iTunes Connect report consolidator, modelled in Dafny

The program takes an iTunes Connect financial-report archive. It extracts the
archive, finds the manifest (`*Summary.csv`) among the extracted files and reads
one record per region from it. Each region's declared report file is resolved
to an extracted path and decompressed. The file's tab-delimited text is parsed
into a header, data rows and a three-line totals block. The result is one
ordered record per region.

This project models the logic of `itc/report.py`:

- **Strings** models the Python 2 `str` methods the code relies on: `split`
  on one character, `splitlines`, `strip`, and the substring test `in`.
- **Paths** models the `posixpath` text functions `basename`, `splitext` and
  two-component `join`.
- **OrderedDicts** models `OrderedDict` as its item sequence in insertion
  order, plus `zip`.
- **RegionParser** models `parse_region_report`. A method runs the source's
  two loops and is proved equal to the specification function
  `ParsedReport`. The row and totals properties are proved about that
  function.
- **Resolver** models `resolve_unzipped_file_path` and `find_summary`. Each
  is a method with the source's early-return scan, proved equal to a
  first-match specification.
- **Manifest** models `sanitize_row` and `summary_contents`. The CSV reader
  is a parameter.
- **Assembler** models `read_region` as a method, proved equal to
  `RegionEntry`. It also models `read_region_reports` and the data path of
  `process`. Decompression is a parameter.
- **OutputNames** models the name computations of `get_zip_output_dir` and
  `resolve_output_file`.
- **Errors** and **Wrappers** hold the exceptions the code raises, as
  `Failure` values, plus `Option` and `Result`.

Three facts about the parsed report follow from the code:

- A parsed report has only `rows` and `totals`. The code never stores the
  header.
- The totals block has at most three entries. It has fewer when labels
  repeat or the text has fewer than three lines.
- A row has as many entries as the shorter of the header and the line's
  fields, fewer when column names repeat. It does not always have one entry
  per header column.

## Model

| member | source | states |
|---|---|---|
| RegionParser.ParseRegionReport | itc/report.py:88-111 | the loop over the data lines and the loop over the totals lines, which stops at the first malformed line, compute exactly `ParsedReport(content)` |
| RegionParser.ParsedRows | itc/report.py:99-104 | a report of L lines has L-4 rows (none when L < 4), and row i is line i+1 zipped with the header |
| RegionParser.ZipRowTruncates | itc/report.py:101-103 | a row has at most min(header, fields) entries, and each column holds the field of its last occurrence within that length |
| RegionParser.ZipRowOfDistinctHeader | itc/report.py:101-103 | with distinct column names a row is exactly the positional pairs, in column order, surplus columns or fields dropped |
| RegionParser.TotalsEntries | itc/report.py:106-109 | every label of a well-formed totals block is a key, every key carries the value of a line with that label, and a label's value is that of the last line carrying it |
| RegionParser.TotalsLastWins | itc/report.py:107-109 | the last line carrying a label gives that label's value |
| RegionParser.TotalsEntriesPresent | itc/report.py:107-109 | every label is a key, and every key carries the value of some line with that label |
| RegionParser.TotalsOfDistinctLabels | itc/report.py:106-109 | with distinct labels the totals map has one entry per line, holding that line's value |
| RegionParser.TotalsFailure | itc/report.py:107-108 | a failing totals block reports its first line that is not exactly a label and a value |
| RegionParser.ParseFailure | itc/report.py:90-91 | parsing fails with `EmptyReport` exactly for empty text, and otherwise fails exactly when one of the last three lines is not a label/value pair, naming that line |
| RegionParser.ParsedTotalsSize | itc/report.py:106-109 | the totals map has at most three entries, and exactly three when there are three totals lines with distinct labels |
| RegionParser.ShortReport | itc/report.py:99-106 | with fewer than four lines there are no rows and the header line is read as a totals line |
| RegionParser.ParseOfLayout | itc/report.py:88-111 | header, n data lines and three distinct label/value lines parse into n rows, in order, and exactly those three totals |
| RegionParser.TotalsFailurePersists | itc/report.py:107-108 | once a prefix of the totals lines fails, the whole block fails with the same error |
| RegionParser.TotalsOf | itc/report.py:107-109 | the totals block parses exactly when every line splits into two fields, and then has at most one entry per line |
| Resolver.ResolveUnzippedFilePath | itc/report.py:70-79 | the early-return scan computes `Resolution`: the sentinel gives absent, otherwise the first path containing the name, otherwise `ReportNotFound` |
| Resolver.ResolutionCases | itc/report.py:70-79 | absent exactly for "not found"; failure exactly when no path contains a non-sentinel name; a found path is the earliest one containing the name |
| Resolver.FirstContainingIsFirst | itc/report.py:74-76 | the scan finds nothing exactly when no path contains the name, and otherwise finds the earliest one that does |
| Resolver.FindSummary | itc/report.py:137-142 | the early-return scan computes `SummaryLocation`: the first path containing "Summary.csv", or `SummaryNotFound` |
| Resolver.SummaryLocationCases | itc/report.py:137-142 | failure exactly when no path contains "Summary.csv"; otherwise the earliest path that does |
| Manifest.SanitizeRowStripped | itc/report.py:131-134 | no key and no value of a sanitised row has surrounding whitespace |
| Manifest.SanitizeRowKeys | itc/report.py:133 | the keys of a sanitised row are exactly the stripped keys of its items |
| Manifest.SanitizeRowValues | itc/report.py:133 | a stripped key holds the stripped value of the last item whose key strips to it |
| Manifest.SanitizeRowOfStripped | itc/report.py:131-134 | sanitising the items of an already clean record, in any order, returns that record |
| Manifest.SanitizeRowIdempotent | itc/report.py:131-134 | sanitising is idempotent |
| Manifest.EnumeratesPrefix | itc/report.py:133 | dropping the last item of an enumeration enumerates the record without that key |
| Manifest.SummaryContents | itc/report.py:123-128 | fails exactly when no summary file is found; otherwise record i is `sanitize_row` of manifest row i, one per row, all clean |
| Assembler.ReadRegion | itc/report.py:49-67 | the step-by-step construction of a region's record, with its early return, computes `RegionEntry` |
| Assembler.RegionEntryShape | itc/report.py:50-66 | a record starts with `region` and `file_name` from the manifest; `source_path` and `report` are present together, exactly when the name resolved to a non-empty path, and then hold that path and the parse of its contents |
| Assembler.NotFoundRegionHasNoReport | itc/report.py:58-61 | a "not found" region yields only `region` and `file_name`, with no placeholder for the report |
| Assembler.RegionEntryFailure | itc/report.py:50-65 | a region fails exactly with a missing column, an unresolved file name or an unparsable report, and the error is the one raised |
| Assembler.ReadRegionReports | itc/report.py:44-46 | the list succeeds exactly when every region does; it then has one record per manifest row, in order |
| Assembler.ReadRegionReportsFailure | itc/report.py:44-46 | a failing list fails with the error of the first failing region in manifest order |
| Assembler.Consolidate | itc/report.py:12-17 | without a summary file the run fails with `SummaryNotFound`; it succeeds exactly when the summary is found and every sanitised manifest row's region succeeds, and then has one record per row, each the entry of that row |
| Assembler.ConsolidateFailure | itc/report.py:16-17 | a run that finds its summary fails with the error of the first manifest row, in order, whose region fails |
| OutputNames.ZipOutputDirPlacement | itc/report.py:114-117 | the cache directory is the cache path, one separator unless it already ends in one, then the archive's name without its extension |
| OutputNames.OutputFileInDirectory | itc/report.py:165-170 | a directory destination, or one ending in a separator, receives `<input stem>-report.json` inside it |
| OutputNames.OutputFileLiteral | itc/report.py:165-166 | any other destination is the output file as given |
| Strings.Split | itc/report.py:92 | `split('\t')` yields at least one field and no field contains the separator |
| Strings.JoinOfSplit | itc/report.py:92 | splitting and re-joining on the separator gives the text back |
| Strings.SplitOfJoin | itc/report.py:108 | joining separator-free fields and splitting again gives the fields back |
| Strings.SplitCount | itc/report.py:108 | a text splits into one more field than it has separators, so a totals line unpacks exactly when it has one tab |
| Strings.SplitLines | itc/report.py:90 | `splitlines` yields no line containing a newline, and no lines exactly for empty text |
| Strings.SplitLinesOfJoinLines | itc/report.py:90 | newline-terminated lines are split back into the same lines |
| Strings.JoinLinesAsJoin | itc/report.py:90 | newline-terminated lines are the newline join of the lines followed by an empty one |
| Strings.SplitNonEmptyLast | itc/report.py:90 | a text ending in the separator splits into at least two fields, the last one empty |
| Strings.JoinLinesEndsWithNewline | itc/report.py:90 | newline-terminated text of at least one line ends in a newline |
| Strings.SplitOfSepFree | itc/report.py:92 | a separator-free prefix joins the first field |
| Strings.Strip | itc/report.py:133 | `strip()` leaves no whitespace at either end |
| Strings.TrimStartRemovesPrefix | itc/report.py:133 | left stripping removes only a whitespace prefix |
| Strings.TrimEndRemovesSuffix | itc/report.py:133 | right stripping removes only a whitespace suffix |
| Strings.StripRemovesOnlySpace | itc/report.py:133 | the stripped text is a slice of the input with only whitespace around it |
| Strings.StripOfStripped | itc/report.py:133 | stripping clean text changes nothing |
| Strings.StripIdempotent | itc/report.py:133 | stripping is idempotent |
| Strings.ContainsMiddle | itc/report.py:75 | a text contains, in the sense of `in`, each of its own pieces |
| Paths.RFind | itc/report.py:115 | the index of the last occurrence of a character, or -1 |
| Paths.Basename | itc/report.py:115 | the base name is the separator-free suffix, preceded by a separator when shorter than the path |
| Paths.BasenameEmpty | itc/report.py:166 | the base name is empty exactly for the empty path and paths ending in a separator |
| Paths.SplitExt | itc/report.py:116 | the two parts concatenate to the input; the extension is empty or one dot followed by a dot-free, separator-free rest, and the root then has a character other than a dot; an extension is split off whenever the last component has a dot after a character other than a dot |
| Paths.StemOfBasename | itc/report.py:116 | the stem of a base name contains no separator |
| Paths.Join | itc/report.py:117 | the result ends with the second component; unless that is absolute it starts with the first, and at most one character, a separator, lies between them |
| Paths.BasenameOfAppend | itc/report.py:170 | a separator-free name written after a separator is the base name of the result |
| Paths.BasenameOfJoin | itc/report.py:117 | joining a directory and a non-empty separator-free name gives a path whose base name is that name |
| OrderedDicts.Keys | itc/report.py:103 | the keys of an ordered dictionary are its items' keys, position by position |
| OrderedDicts.PutKeys | itc/report.py:103 | assignment keeps an existing key's position and appends a new key |
| OrderedDicts.PutGet | itc/report.py:103 | after assignment the key holds the new value and every other key keeps its value |
| OrderedDicts.PutDistinct | itc/report.py:103 | assignment keeps the keys distinct |
| OrderedDicts.FromPairsSpec | itc/report.py:103 | `OrderedDict(pairs)` has distinct keys, no more entries than pairs, and each key maps to the value of its last pair |
| OrderedDicts.PutNew | itc/report.py:103 | inserting a new key appends it |
| OrderedDicts.FromPairsOfDistinct | itc/report.py:103 | with distinct keys the dictionary is exactly the pairs, in order |
| OrderedDicts.DistinctSplit | itc/report.py:103 | dropping the last of distinct-keyed pairs keeps the keys distinct, and the dropped key is not among the rest |
| OrderedDicts.ZipPairs | itc/report.py:102 | `zip` has the length of its shorter input and pairs equal positions |

## Left out

- `unzip_file` and `unzip_top_level_report` (extracting the archive) are not modelled. The list of extracted paths is an input.
- `read_gzip` is not modelled. Decompression is the parameter `readGzip`, and the text it returns is taken as given.
- `csv.DictReader` is not modelled. The manifest's rows are the parameter `readRows`, each row the items in its iteration order.
- `write_reports`, JSON serialisation and standard output are not modelled. `RegionResult.Keys` records the key order that serialisation would see.
- Directory creation (`os.makedirs`), `os.path.exists`, `shutil.rmtree` and logging are left out. They are file-system or I/O effects. As a consequence, `OutputNames.OutputFile` returns a name even where `resolve_output_file` raises: for a destination without a directory part, such as "out.json", or an empty destination, `os.path.dirname` gives '', `os.path.exists('')` is false and `os.makedirs('')` fails.
- `os.path.isdir` is the boolean input `destIsDir` of `OutputFile`. `os.path.dirname` in `resolve_output_file` only feeds directory creation, so it is left out.
- `itc/cli.py` (argument parsing) is not part of this model.
- `Strings.SplitLines` splits on '\n' only. Python 2 `str.splitlines` also splits on '\r' and "\r\n". Reports containing carriage returns are not modelled.
- Python 2 `dict` and the `totals` dictionary are unordered. They are modelled as Dafny `map`s, so their iteration order is not modelled.
- `Assembler.Falsy` treats the empty path like `None`, as `not file_path` does. An empty path can only come from the extracted-path list.
- No concrete archive is run through the model; the general lemmas `RegionParser.ParseOfLayout`, `Assembler.NotFoundRegionHasNoReport` and `OutputNames.OutputFileInDirectory` state what such a run would give.
