/** Where the pipeline puts things: the extraction cache directory for an
    input archive, and the output file for a destination. Whether the
    destination is an existing directory is an input here. */
module OutputNames {
  import opened Paths

  const ReportSuffix: string := "-report.json"

  /** The inferred output file name: the input's base name without its
      extension, followed by "-report.json". */
  function ReportFileName(inputPath: string): string
  {
    Stem(Basename(inputPath)) + ReportSuffix
  }

  /** `get_zip_output_dir` (without creating the directory): the input's base
      name without extension, under the cache directory. */
  function ZipOutputDir(inPath: string, cachePath: string): string
  {
    Join(cachePath, Stem(Basename(inPath)))
  }

  /** The cache directory for an archive sits directly under the cache path,
      separated from it by exactly one separator, and is named after the
      archive without its extension. */
  lemma ZipOutputDirPlacement(inPath: string, cachePath: string)
    requires Stem(Basename(inPath)) != []
    ensures Basename(ZipOutputDir(inPath, cachePath)) == Stem(Basename(inPath))
    ensures ZipOutputDir(inPath, cachePath)[..|cachePath|] == cachePath
    ensures ZipOutputDir(inPath, cachePath) ==
              if cachePath == [] || cachePath[|cachePath| - 1] == Sep then cachePath + Stem(Basename(inPath))
              else cachePath + [Sep] + Stem(Basename(inPath))
  {
    StemOfBasename(inPath);
    BasenameOfJoin(cachePath, Stem(Basename(inPath)));
  }

  /** `resolve_output_file` (without creating the directory): a destination
      that is a directory, or whose base name is empty, receives the inferred
      file name; any other destination is the output file itself. */
  function OutputFile(outputDest: string, inputPath: string, destIsDir: bool): string
  {
    if destIsDir || Basename(outputDest) == [] then Join(outputDest, ReportFileName(inputPath))
    else outputDest
  }

  /** When the destination is a directory or ends with a separator, the output
      file lies in it and is named `<input base name without extension>-report.json`. */
  lemma OutputFileInDirectory(outputDest: string, inputPath: string, destIsDir: bool)
    requires destIsDir || outputDest == [] || outputDest[|outputDest| - 1] == Sep
    ensures var out := OutputFile(outputDest, inputPath, destIsDir);
            && Basename(out) == ReportFileName(inputPath)
            && out[..|outputDest|] == outputDest
            && |out| == |outputDest| + |ReportFileName(inputPath)| + (if outputDest == [] || outputDest[|outputDest| - 1] == Sep then 0 else 1)
  {
    StemOfBasename(inputPath);
    assert Sep !in ReportSuffix;
    BasenameOfJoin(outputDest, ReportFileName(inputPath));
  }

  /** Any other destination is used as it is. */
  lemma OutputFileLiteral(outputDest: string, inputPath: string)
    requires outputDest != [] && outputDest[|outputDest| - 1] != Sep
    ensures OutputFile(outputDest, inputPath, false) == outputDest
  {
    BasenameEmpty(outputDest);
  }
}
