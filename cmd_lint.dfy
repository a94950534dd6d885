/**
 * The `regal lint` command (cmd/lint.go): its argument check, the flag
 * type that collects repeated string options, and the exit code derived
 * from the levels of the violations found and the chosen fail level.
 *
 * Linting itself is given by its outcome: a report, or a failure.
 */
module CmdLint {
  import opened Wrappers
  import opened GoStrings
  import opened ReportTypes

  /** The error when no path is given. */
  const NoPathsError: string := "at least one file or directory must be provided for linting"

  /** PreRunE: at least one path must be given. */
  function CheckArgs(args: seq<string>): (r: Option<string>)
    ensures r.None? <==> |args| > 0
    ensures r.Some? ==> r.value == NoPathsError
  {
    if |args| == 0 then Some(NoPathsError) else None
  }

  /** A string flag that may be given several times; `isSet` once it was. */
  class RepeatedStringFlag {
    var v: seq<string>
    var isSet: bool

    constructor ()
      ensures v == [] && !isSet
    {
      v := [];
      isSet := false;
    }

    /** Type: the flag holds strings. */
    function TypeName(): string {
      "string"
    }

    /** String: the values given so far, joined by commas. */
    function Text(): string
      reads this
    {
      Join(v, ",")
    }

    /** Set: the value is appended and the flag marked as set; it never fails. */
    method Set(s: string) returns (err: Option<string>)
      modifies this
      ensures v == old(v) + [s] && isSet && err.None?
    {
      v := v + [s];
      isSet := true;
      err := None;
    }
  }

  /** Values without commas can be read back from the flag's text. */
  lemma FlagTextReadsBack(values: seq<string>)
    requires |values| >= 1 && forall i :: 0 <= i < |values| ==> ',' !in values[i]
    ensures Split(Join(values, ","), ',') == values
  {
    SplitJoin(values, ',');
  }

  /** The number of violations at the given level. */
  function CountLevel(vs: seq<Violation>, level: string): (n: nat)
    ensures n <= |vs|
    ensures n == 0 <==> forall i :: 0 <= i < |vs| ==> vs[i].level != level
  {
    if vs == [] then 0
    else
      var rest := CountLevel(vs[..|vs| - 1], level);
      assert forall i :: 0 <= i < |vs| - 1 ==> vs[..|vs| - 1][i] == vs[i];
      rest + (if vs[|vs| - 1].level == level then 1 else 0)
  }

  /** Counting one more violation adds one exactly when it is at the level. */
  lemma CountLevelStep(vs: seq<Violation>, i: nat, level: string)
    requires i < |vs|
    ensures CountLevel(vs[..i + 1], level) == CountLevel(vs[..i], level) + (if vs[i].level == level then 1 else 0)
  {
    assert vs[..i + 1][..i] == vs[..i];
  }

  /** The violations counted as errors and as warnings never outnumber the violations. */
  lemma {:induction false} ErrorsAndWarnings(vs: seq<Violation>)
    ensures CountLevel(vs, "error") + CountLevel(vs, "warning") <= |vs|
    decreases |vs|
  {
    if vs != [] {
      ErrorsAndWarnings(vs[..|vs| - 1]);
    }
  }

  /** The exit code for a number of errors and of warnings under a fail level. */
  function CodeFor(failLevel: string, errors: nat, warnings: nat): int {
    if failLevel == "error" then (if errors > 0 then 3 else 0)
    else if failLevel == "warning" then (if errors > 0 then 3 else if warnings > 0 then 2 else 0)
    else 0
  }

  /**
   * Failing on warnings is stricter than failing on errors: it fails
   * whenever the other does, with the same code, and it fails on more.
   */
  lemma WarningIsStricter(errors: nat, warnings: nat)
    ensures CodeFor("error", errors, warnings) != 0 ==> CodeFor("warning", errors, warnings) == CodeFor("error", errors, warnings)
    ensures CodeFor("warning", errors, warnings) == 0 ==> CodeFor("error", errors, warnings) == 0
    ensures errors == 0 && warnings > 0 ==> CodeFor("error", errors, warnings) == 0 && CodeFor("warning", errors, warnings) == 2
  {
  }

  /**
   * The exit code of a lint run: 1 when linting failed; with fail level
   * "error", 3 exactly when some violation is an error; with fail level
   * "warning", 3 when some violation is an error, else 2 when some is a
   * warning; 0 otherwise, and always 0 for any other fail level. Violations
   * of other levels are not counted.
   */
  method ExitCode(outcome: Result<Report>, failLevel: string) returns (code: int)
    ensures outcome.Err? ==> code == 1
    ensures outcome.Ok? ==>
      var vs := match outcome.value.violations case None => [] case Some(vs) => vs;
      code == CodeFor(failLevel, CountLevel(vs, "error"), CountLevel(vs, "warning"))
    ensures outcome.Ok? ==>
      var vs := match outcome.value.violations case None => [] case Some(vs) => vs;
      && (failLevel == "error" ==> (code == 3 <==> CountLevel(vs, "error") > 0) && (code != 3 ==> code == 0))
      && (failLevel == "warning" ==>
            && (code == 3 <==> CountLevel(vs, "error") > 0)
            && (code == 2 <==> CountLevel(vs, "error") == 0 && CountLevel(vs, "warning") > 0)
            && (code == 0 <==> CountLevel(vs, "error") == 0 && CountLevel(vs, "warning") == 0))
      && (failLevel != "error" && failLevel != "warning" ==> code == 0)
  {
    if outcome.Err? {
      return 1;
    }
    var vs := match outcome.value.violations case None => [] case Some(vs) => vs;
    var errorsFound, warningsFound := CountFound(vs);
    code := 0;
    if failLevel == "error" && errorsFound > 0 {
      code := 3;
    }
    if failLevel == "warning" {
      if errorsFound > 0 {
        code := 3;
      } else if warningsFound > 0 {
        code := 2;
      }
    }
  }

  /** The violations at level "error" and at level "warning", counted in one pass. */
  method CountFound(vs: seq<Violation>) returns (errorsFound: nat, warningsFound: nat)
    ensures errorsFound == CountLevel(vs, "error") && warningsFound == CountLevel(vs, "warning")
  {
    errorsFound := 0;
    warningsFound := 0;
    for i := 0 to |vs|
      invariant errorsFound == CountLevel(vs[..i], "error")
      invariant warningsFound == CountLevel(vs[..i], "warning")
    {
      CountLevelStep(vs, i, "error");
      CountLevelStep(vs, i, "warning");
      if vs[i].level == "error" {
        errorsFound := errorsFound + 1;
      } else if vs[i].level == "warning" {
        warningsFound := warningsFound + 1;
      }
    }
    assert vs[..|vs|] == vs;
  }
}
