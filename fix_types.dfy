/**
 * The values that fixes exchange with the fixer: the file to fix, the
 * options of one run, and the results.
 */
module FixTypes {
  import opened Wrappers
  import opened RegalConfig
  import opened ReportTypes

  datatype FixCandidate = FixCandidate(filename: string, contents: string)

  datatype RuntimeOptions = RuntimeOptions(baseDir: string, config: Option<Config>, locations: seq<Location>)

  datatype Rename = Rename(fromPath: string, toPath: string)

  datatype FixResult = FixResult(title: string, root: string, contents: string, rename: Option<Rename>)
}
