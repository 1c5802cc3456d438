/** The report assembler: one ordered record per manifest row, in manifest
    order, carrying the region's parsed report when its file resolves. */
module Assembler {
  import opened Wrappers
  import opened Errors
  import opened RegionParser
  import opened Resolver
  import opened Manifest

  /** The manifest columns the assembler reads. */
  const RegionColumn: string := "Region"
  const ReportColumn: string := "iTunes Store Report"

  /** The OrderedDict `read_region` builds: `source_path` and `report` are
      keys only when present. */
  datatype RegionResult = RegionResult(
    region: string,
    fileName: string,
    sourcePath: Option<string>,
    report: Option<RegionReport>)
  {
    /** The dictionary's keys in insertion order, as they are serialised. */
    function Keys(): seq<string>
    {
      ["region", "file_name"]
        + (if sourcePath.Some? then ["source_path"] else [])
        + (if report.Some? then ["report"] else [])
    }
  }

  /** Python's truth test `not file_path`: both `None` and the empty path are
      false. */
  predicate Falsy(path: Option<string>)
  {
    path == None || path == Some([])
  }

  /** The specification of `read_region`; `readGzip` stands for reading and
      decompressing the file at a path. */
  function RegionEntry(record: Record, paths: seq<string>, readGzip: string -> string): Result<RegionResult, Error>
  {
    if RegionColumn !in record then Failure(MissingColumn(RegionColumn))
    else if ReportColumn !in record then Failure(MissingColumn(ReportColumn))
    else
      var name, fileName := record[RegionColumn], record[ReportColumn];
      match Resolution(fileName, paths)
      case Failure(e) => Failure(e)
      case Success(found) =>
        if Falsy(found) then Success(RegionResult(name, fileName, None, None))
        else match ParsedReport(readGzip(found.value))
          case Failure(e) => Failure(e)
          case Success(report) => Success(RegionResult(name, fileName, found, Some(report)))
  }

  /** `read_region`: builds the ordered record step by step, returning early
      when the region has no report file. */
  method ReadRegion(regionSummary: Record, unzippedFilePaths: seq<string>, readGzip: string -> string)
    returns (r: Result<RegionResult, Error>)
    ensures r == RegionEntry(regionSummary, unzippedFilePaths, readGzip)
  {
    if RegionColumn !in regionSummary {
      return Failure(MissingColumn(RegionColumn));
    }
    var name := regionSummary[RegionColumn];
    if ReportColumn !in regionSummary {
      return Failure(MissingColumn(ReportColumn));
    }
    var fileName := regionSummary[ReportColumn];
    var out := RegionResult(name, fileName, None, None);
    var filePath := ResolveUnzippedFilePath(fileName, unzippedFilePaths);
    if filePath.Failure? {
      return Failure(filePath.error);
    }
    if Falsy(filePath.value) {
      return Success(out);
    }
    out := out.(sourcePath := filePath.value);
    var fileContents := readGzip(filePath.value.value);
    var report := ParseRegionReport(fileContents);
    if report.Failure? {
      return Failure(report.error);
    }
    out := out.(report := Some(report.value));
    return Success(out);
  }

  /** A region's record starts with `region` and `file_name`, taken from the
      manifest; `source_path` and `report` are both present exactly when the
      file name resolved to a (non-empty) path, and then they hold that path
      and the parse of its decompressed contents. */
  lemma RegionEntryShape(record: Record, paths: seq<string>, readGzip: string -> string)
    requires RegionEntry(record, paths, readGzip).Success?
    ensures var e := RegionEntry(record, paths, readGzip).value;
            && RegionColumn in record && ReportColumn in record
            && e.Keys()[..2] == ["region", "file_name"]
            && e.region == record[RegionColumn] && e.fileName == record[ReportColumn]
            && Resolution(e.fileName, paths).Success?
            && (e.sourcePath.Some? <==> !Falsy(Resolution(e.fileName, paths).value))
            && (e.report.Some? <==> e.sourcePath.Some?)
            && (e.sourcePath.Some? ==>
                  && e.sourcePath == Resolution(e.fileName, paths).value
                  && Success(e.report.value) == ParsedReport(readGzip(e.sourcePath.value)))
  {
  }

  /** A region the manifest marks "not found" yields a record with only
      `region` and `file_name`, never a placeholder for the missing report. */
  lemma NotFoundRegionHasNoReport(record: Record, paths: seq<string>, readGzip: string -> string)
    requires RegionColumn in record && ReportColumn in record && record[ReportColumn] == NotFound
    ensures RegionEntry(record, paths, readGzip) == Success(RegionResult(record[RegionColumn], NotFound, None, None))
    ensures RegionEntry(record, paths, readGzip).value.Keys() == ["region", "file_name"]
  {
  }

  /** A region fails exactly when a column is missing, its file name resolves
      to nothing, or its report does not parse; the error is the one raised. */
  lemma RegionEntryFailure(record: Record, paths: seq<string>, readGzip: string -> string)
    requires RegionEntry(record, paths, readGzip).Failure?
    ensures var err := RegionEntry(record, paths, readGzip).error;
            || (RegionColumn !in record && err == MissingColumn(RegionColumn))
            || (RegionColumn in record && ReportColumn !in record && err == MissingColumn(ReportColumn))
            || (ReportColumn in record && Resolution(record[ReportColumn], paths) == Failure(err)
                && err == ReportNotFound(record[ReportColumn]))
            || (ReportColumn in record && Resolution(record[ReportColumn], paths).Success?
                && !Falsy(Resolution(record[ReportColumn], paths).value)
                && ParsedReport(readGzip(Resolution(record[ReportColumn], paths).value.value)) == Failure(err))
  {
    if RegionColumn in record && ReportColumn in record {
      ResolutionCases(record[ReportColumn], paths);
    }
  }

  /** `read_region_reports`: the list comprehension over the manifest; the
      first region that raises aborts the whole list. */
  function ReadRegionReports(summary: seq<Record>, paths: seq<string>, readGzip: string -> string)
    : (r: Result<seq<RegionResult>, Error>)
    ensures r.Success? <==> forall i :: 0 <= i < |summary| ==> RegionEntry(summary[i], paths, readGzip).Success?
    ensures r.Success? ==> |r.value| == |summary|
    ensures r.Success? ==> forall i :: 0 <= i < |summary| ==> Success(r.value[i]) == RegionEntry(summary[i], paths, readGzip)
  {
    if summary == [] then Success([])
    else match RegionEntry(summary[0], paths, readGzip)
      case Failure(e) => Failure(e)
      case Success(first) =>
        match ReadRegionReports(summary[1..], paths, readGzip)
        case Failure(e) =>
          assert forall i :: 0 <= i < |summary| - 1 ==> summary[1..][i] == summary[i + 1];
          Failure(e)
        case Success(rest) =>
          assert forall i :: 0 <= i < |summary| - 1 ==> summary[1..][i] == summary[i + 1];
          Success([first] + rest)
  }

  /** When the list fails, it fails with the error of the first region, in
      manifest order, that fails. */
  lemma {:induction false} ReadRegionReportsFailure(summary: seq<Record>, paths: seq<string>, readGzip: string -> string)
    requires ReadRegionReports(summary, paths, readGzip).Failure?
    ensures exists i :: 0 <= i < |summary|
              && RegionEntry(summary[i], paths, readGzip) == Failure(ReadRegionReports(summary, paths, readGzip).error)
              && forall j :: 0 <= j < i ==> RegionEntry(summary[j], paths, readGzip).Success?
  {
    if RegionEntry(summary[0], paths, readGzip).Success? {
      ReadRegionReportsFailure(summary[1..], paths, readGzip);
      var i :| 0 <= i < |summary| - 1
               && RegionEntry(summary[1..][i], paths, readGzip) == Failure(ReadRegionReports(summary[1..], paths, readGzip).error)
               && forall j :: 0 <= j < i ==> RegionEntry(summary[1..][j], paths, readGzip).Success?;
      assert summary[1..][i] == summary[i + 1];
      forall j | 0 <= j < i + 1 ensures RegionEntry(summary[j], paths, readGzip).Success? {
        if j > 0 { assert summary[1..][j - 1] == summary[j]; }
      }
    }
  }

  /** `process` without the extraction and the writing: the manifest found
      among the extracted paths, read with `readRows` and sanitised, drives the
      assembly of every region. */
  function Consolidate(unzippedPaths: seq<string>, readRows: string -> seq<RawRow>, readGzip: string -> string)
    : (r: Result<seq<RegionResult>, Error>)
    ensures SummaryLocation(unzippedPaths).Failure? ==> r == Failure(SummaryNotFound)
    ensures r.Success? <==>
              && SummaryLocation(unzippedPaths).Success?
              && var rows := readRows(SummaryLocation(unzippedPaths).value);
                 forall i :: 0 <= i < |rows| ==> RegionEntry(SanitizeRow(rows[i]), unzippedPaths, readGzip).Success?
    ensures r.Success? ==> SummaryLocation(unzippedPaths).Success?
                           && |r.value| == |readRows(SummaryLocation(unzippedPaths).value)|
    ensures r.Success? ==> forall i :: 0 <= i < |r.value| ==>
              Success(r.value[i]) == RegionEntry(SanitizeRow(readRows(SummaryLocation(unzippedPaths).value)[i]), unzippedPaths, readGzip)
  {
    match SummaryContents(unzippedPaths, readRows)
    case Failure(e) => Failure(e)
    case Success(summary) => ReadRegionReports(summary, unzippedPaths, readGzip)
  }

  /** A run that finds its manifest fails with the error of the first manifest
      row, in order, whose region fails. */
  lemma ConsolidateFailure(unzippedPaths: seq<string>, readRows: string -> seq<RawRow>, readGzip: string -> string)
    requires SummaryLocation(unzippedPaths).Success?
    requires Consolidate(unzippedPaths, readRows, readGzip).Failure?
    ensures var rows := readRows(SummaryLocation(unzippedPaths).value);
            exists i :: 0 <= i < |rows|
              && RegionEntry(SanitizeRow(rows[i]), unzippedPaths, readGzip) == Failure(Consolidate(unzippedPaths, readRows, readGzip).error)
              && forall j :: 0 <= j < i ==> RegionEntry(SanitizeRow(rows[j]), unzippedPaths, readGzip).Success?
  {
    var summary := SummaryContents(unzippedPaths, readRows).value;
    ReadRegionReportsFailure(summary, unzippedPaths, readGzip);
  }
}
