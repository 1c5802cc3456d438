/** Manifest-to-file resolution: a manifest entry, and the manifest itself,
    are found among the extracted paths by a first-match substring search. */
module Resolver {
  import opened Wrappers
  import opened Strings
  import opened Errors

  /** The manifest's value for a region that has no report file. */
  const NotFound: string := "not found"

  /** The name fragment that identifies the manifest among extracted files. */
  const SummaryMarker: string := "Summary.csv"

  /** The first path, in list order, that contains `name`. */
  function FirstContaining(paths: seq<string>, name: string): Option<string>
  {
    if paths == [] then None
    else if Contains(paths[0], name) then Some(paths[0])
    else FirstContaining(paths[1..], name)
  }

  /** `FirstContaining` finds nothing exactly when no path contains the name,
      and otherwise finds the earliest path that does. */
  lemma {:induction false} FirstContainingIsFirst(paths: seq<string>, name: string)
    ensures FirstContaining(paths, name).None? <==> forall i :: 0 <= i < |paths| ==> !Contains(paths[i], name)
    ensures FirstContaining(paths, name).Some? ==>
              exists i :: 0 <= i < |paths| && FirstContaining(paths, name).value == paths[i]
                          && Contains(paths[i], name) && forall j :: 0 <= j < i ==> !Contains(paths[j], name)
  {
    if paths != [] && !Contains(paths[0], name) {
      FirstContainingIsFirst(paths[1..], name);
      assert forall i :: 0 <= i < |paths| - 1 ==> paths[1..][i] == paths[i + 1];
      if FirstContaining(paths, name).Some? {
        var i :| 0 <= i < |paths| - 1 && FirstContaining(paths, name).value == paths[1..][i]
                 && Contains(paths[1..][i], name) && forall j :: 0 <= j < i ==> !Contains(paths[1..][j], name);
        assert forall j :: 0 <= j < i + 1 ==> !Contains(paths[j], name) by {
          forall j | 0 <= j < i + 1 ensures !Contains(paths[j], name) {
            if j > 0 { assert paths[j] == paths[1..][j - 1]; }
          }
        }
      } else {
        forall i | 0 <= i < |paths| ensures !Contains(paths[i], name) {
          if i > 0 { assert paths[i] == paths[1..][i - 1]; }
        }
      }
    }
  }

  // ---------------------------------------------------------------------------
  // resolve_unzipped_file_path

  /** The specification of `resolve_unzipped_file_path`: the sentinel means
      "no report", any other name resolves to the first path containing it,
      and a name that no path contains is an error. */
  function Resolution(name: string, paths: seq<string>): Result<Option<string>, Error>
  {
    if name == NotFound then Success(None)
    else match FirstContaining(paths, name)
      case Some(p) => Success(Some(p))
      case None => Failure(ReportNotFound(name))
  }

  /** `resolve_unzipped_file_path`: returns from inside the scan on the first
      match. */
  method ResolveUnzippedFilePath(name: string, unzippedPaths: seq<string>) returns (r: Result<Option<string>, Error>)
    ensures r == Resolution(name, unzippedPaths)
  {
    if name == NotFound {
      return Success(None);
    }
    for i := 0 to |unzippedPaths|
      invariant FirstContaining(unzippedPaths, name) == FirstContaining(unzippedPaths[i..], name)
    {
      assert unzippedPaths[i..][1..] == unzippedPaths[i + 1..];
      if Contains(unzippedPaths[i], name) {
        return Success(Some(unzippedPaths[i]));
      }
    }
    return Failure(ReportNotFound(name));
  }

  /** Resolution yields "absent" exactly for the sentinel; for any other name
      it yields the first path, in list order, that contains the name, and it
      raises `ReportNotFound` (never "absent") when no path does. */
  lemma ResolutionCases(name: string, paths: seq<string>)
    ensures Resolution(name, paths) == Success(None) <==> name == NotFound
    ensures Resolution(name, paths).Failure? <==>
              name != NotFound && forall i :: 0 <= i < |paths| ==> !Contains(paths[i], name)
    ensures Resolution(name, paths).Failure? ==> Resolution(name, paths).error == ReportNotFound(name)
    ensures Resolution(name, paths).Success? && Resolution(name, paths).value.Some? ==>
              exists i :: 0 <= i < |paths| && Resolution(name, paths).value.value == paths[i]
                          && Contains(paths[i], name) && forall j :: 0 <= j < i ==> !Contains(paths[j], name)
  {
    FirstContainingIsFirst(paths, name);
  }

  // ---------------------------------------------------------------------------
  // find_summary

  /** The specification of `find_summary`. */
  function SummaryLocation(paths: seq<string>): Result<string, Error>
  {
    match FirstContaining(paths, SummaryMarker)
    case Some(p) => Success(p)
    case None => Failure(SummaryNotFound)
  }

  /** `find_summary`: returns from inside the scan on the first path naming
      the summary file. */
  method FindSummary(unzippedFiles: seq<string>) returns (r: Result<string, Error>)
    ensures r == SummaryLocation(unzippedFiles)
  {
    for i := 0 to |unzippedFiles|
      invariant FirstContaining(unzippedFiles, SummaryMarker) == FirstContaining(unzippedFiles[i..], SummaryMarker)
    {
      assert unzippedFiles[i..][1..] == unzippedFiles[i + 1..];
      if Contains(unzippedFiles[i], SummaryMarker) {
        return Success(unzippedFiles[i]);
      }
    }
    return Failure(SummaryNotFound);
  }

  /** The manifest is the first path containing "Summary.csv", and it is an
      error when no path does. */
  lemma SummaryLocationCases(paths: seq<string>)
    ensures SummaryLocation(paths).Failure? <==> forall i :: 0 <= i < |paths| ==> !Contains(paths[i], SummaryMarker)
    ensures SummaryLocation(paths).Success? ==>
              exists i :: 0 <= i < |paths| && SummaryLocation(paths).value == paths[i]
                          && Contains(paths[i], SummaryMarker) && forall j :: 0 <= j < i ==> !Contains(paths[j], SummaryMarker)
  {
    FirstContainingIsFirst(paths, SummaryMarker);
  }
}
