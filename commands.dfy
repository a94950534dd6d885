/**
 * The argument parsing of internal/lsp/commands/parse.go: a code action's
 * command arrives with a list of loosely typed arguments, from which the
 * language server takes a target (a file URI) and, optionally, a row and a
 * column.
 */
module Commands {
  import opened Wrappers
  import opened GoStrings

  /**
   * One command argument, Go's `any`: an int, a string, or a value of some
   * other type, given by its type name and the text `%s` prints for it.
   */
  datatype Arg = IntArg(i: int) | StringArg(s: string) | OtherArg(typeName: string, formatted: string)

  /** Which argument holds the target, the row and the column. */
  datatype ParseOptions = ParseOptions(targetArgIndex: nat, rowArgIndex: nat, colArgIndex: nat)

  /** The part of ast.Location that Parse fills in. */
  datatype Location = Location(row: int, col: int)

  datatype ParseResult = ParseResult(location: Option<Location>, target: string)

  /** fmt.Sprintf("%s", a): a string as it is, an int with the `%!s(int=…)` wrong-verb marker. */
  function Format(a: Arg): string {
    match a
    case StringArg(s) => s
    case IntArg(i) => "%!s(int=" + Itoa(i) + ")"
    case OtherArg(_, formatted) => formatted
  }

  /** The message of strconv.Atoi's syntax error for `s`. */
  function AtoiError(s: string): string {
    "strconv.Atoi: parsing \"" + s + "\": invalid syntax"
  }

  /**
   * A row or column argument (`what` names which): an int as it is, a string
   * through strconv.Atoi, anything else an error naming its type.
   */
  function Coordinate(a: Arg, what: string): (r: Result<int>)
    ensures r.Ok? <==> a.IntArg? || (a.StringArg? && Atoi(a.s).Some?)
    ensures a.IntArg? ==> r == Ok(a.i)
    ensures a.StringArg? && Atoi(a.s).Some? ==> r == Ok(Atoi(a.s).value)
    ensures a.StringArg? && Atoi(a.s).None? ==> r == Err("failed to parse " + what + ": " + AtoiError(a.s))
    ensures a.OtherArg? ==> r == Err("unexpected type for " + what + ": " + a.typeName)
  {
    match a
    case IntArg(i) => Ok(i)
    case StringArg(s) =>
      (match Atoi(s)
       case Some(v) => Ok(v)
       case None => Err("failed to parse " + what + ": " + AtoiError(s)))
    case OtherArg(typeName, _) => Err("unexpected type for " + what + ": " + typeName)
  }

  /** A coordinate sent as its decimal text reads back as the number. */
  lemma CoordinateOfDecimal(n: int, what: string)
    ensures Coordinate(StringArg(Itoa(n)), what) == Ok(n)
  {
    AtoiItoa(n);
  }

  /**
   * Parse: the target and, when the row and column indices are set apart
   * from the target's and are in range, the location.
   */
  function Parse(args: seq<Arg>, opts: ParseOptions): (r: Result<ParseResult>)
    ensures r == Err("no args supplied") <==> |args| == 0
    ensures r.Ok? ==> r.value.target == if opts.targetArgIndex < |args| then Format(args[opts.targetArgIndex]) else ""
    ensures |args| > 0 && (opts.rowArgIndex == opts.targetArgIndex || opts.rowArgIndex >= |args| || opts.colArgIndex >= |args|)
      ==> r.Ok? && r.value.location.None?
    ensures r.Ok? && r.value.location.Some? ==>
      && opts.rowArgIndex != opts.targetArgIndex
      && opts.rowArgIndex < |args| && opts.colArgIndex < |args|
      && Coordinate(args[opts.rowArgIndex], "row") == Ok(r.value.location.value.row)
      && Coordinate(args[opts.colArgIndex], "col") == Ok(r.value.location.value.col)
    ensures |args| > 0 && r.Err? ==>
      && opts.rowArgIndex != opts.targetArgIndex
      && opts.rowArgIndex < |args| && opts.colArgIndex < |args|
      && (if Coordinate(args[opts.rowArgIndex], "row").Err?
          then r.error == Coordinate(args[opts.rowArgIndex], "row").error
          else Coordinate(args[opts.colArgIndex], "col").Err? && r.error == Coordinate(args[opts.colArgIndex], "col").error)
  {
    if |args| == 0 then Err("no args supplied")
    else
      var target := if opts.targetArgIndex < |args| then Format(args[opts.targetArgIndex]) else "";
      if opts.rowArgIndex == opts.targetArgIndex then Ok(ParseResult(None, target))
      else if opts.rowArgIndex < |args| && opts.colArgIndex < |args| then
        var row := Coordinate(args[opts.rowArgIndex], "row");
        if row.Err? then Err(row.error)
        else
          var col := Coordinate(args[opts.colArgIndex], "col");
          if col.Err? then Err(col.error)
          else Ok(ParseResult(Some(Location(row.value, col.value)), target))
      else Ok(ParseResult(None, target))
  }

  /**
   * When every coordinate is well typed, Parse fails only on an empty
   * argument list, and a location comes back exactly when the indices allow one.
   */
  lemma ParseWellTyped(args: seq<Arg>, opts: ParseOptions)
    requires |args| > 0
    requires forall i :: 0 <= i < |args| ==> Coordinate(args[i], "row").Ok? && Coordinate(args[i], "col").Ok?
    ensures Parse(args, opts).Ok?
    ensures Parse(args, opts).value.location.Some? <==>
      opts.rowArgIndex != opts.targetArgIndex && opts.rowArgIndex < |args| && opts.colArgIndex < |args|
  {
  }

  /** A target and a location given as a string row and an int column. */
  lemma TargetAndLocation()
    ensures Parse([StringArg("target"), StringArg("1"), IntArg(2)], ParseOptions(0, 1, 2))
      == Ok(ParseResult(Some(Location(1, 2)), "target"))
  {
    assert Atoi("1") == Some(1) by { AtoiItoa(1); }
  }

  /** A target alone, when only the target's index is set. */
  lemma TargetOnly()
    ensures Parse([StringArg("target")], ParseOptions(0, 0, 0)) == Ok(ParseResult(None, "target"))
  {
  }
}
