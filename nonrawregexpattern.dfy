/**
 * The non-raw-regex-pattern fix of pkg/fixer/fixes/nonrawregexpattern.go:
 * for each reported location, a pattern written as a quoted string literal
 * is rewritten as a raw string, turning its quotes into backticks and each
 * doubled backslash into one.  Lines are sequences of code points (Go's
 * rune slices), and the columns of a location index into them.
 */
module NonRawRegexPattern {
  import opened Wrappers
  import opened GoStrings
  import opened ReportTypes
  import opened FixTypes

  const Name := "non-raw-regex-pattern"

  /** The bounds check as the source writes it: `end > len(line)` rather than `end >= len(line)`. */
  predicate SkipsAsWritten(start: int, end: int, lineLength: nat) {
    start < 0 || end > lineLength || start >= end
  }

  /** The bounds check the code needs before reading `line[end]`. */
  predicate Skips(start: int, end: int, lineLength: nat) {
    start < 0 || end >= lineLength || start >= end
  }

  /**
   * A location whose end column points one past the line passes the
   * check as written, and the code then reads `line[end]` out of range.
   */
  lemma AsWrittenAdmitsEndOfLine()
    ensures var line := "\"a\""; !SkipsAsWritten(0, |line|, |line|) && !(|line| < |line|)
  {
  }

  /** With the corrected check, every location it lets through is inside the line. */
  lemma SkipsGuardsIndex(start: int, end: int, lineLength: nat)
    ensures !Skips(start, end, lineLength) ==> 0 <= start < end < lineLength
    ensures Skips(start, end, lineLength) <==> SkipsAsWritten(start, end, lineLength) || end == lineLength
  {
  }

  function Unquote(c: char): char {
    if c == '"' then '`' else c
  }

  /**
   * One location's edit of a line: the characters at `start` and `end`
   * lose their double quotes, and the text between collapses `\\` to `\`.
   * The flag says whether a quote was replaced.
   */
  function FixLine(line: string, start: nat, end: nat): (r: (string, bool))
    requires start < end < |line|
    ensures r.1 <==> line[start] == '"' || line[end] == '"'
    ensures |r.0| <= |line| && |r.0| >= start + 1 + |line| - end
    ensures r.0[..start] == line[..start]
    ensures r.0[start] == Unquote(line[start])
    ensures r.0[|r.0| - (|line| - end)..] == [Unquote(line[end])] + line[end + 1..]
    ensures '\n' !in line ==> '\n' !in r.0
    ensures r.0 == line[..start] + ReplaceAll([Unquote(line[start])] + line[start + 1..end], "\\\\", "\\")
                   + [Unquote(line[end])] + line[end + 1..]
  {
    var unquoted := line[start := Unquote(line[start])][end := Unquote(line[end])];
    assert unquoted[..start] == line[..start];
    assert unquoted[start..end] == [Unquote(line[start])] + line[start + 1..end];
    assert unquoted[end..] == [Unquote(line[end])] + line[end + 1..];
    var segment := ReplaceAll(unquoted[start..end], "\\\\", "\\");
    ReplaceAllShrinks(unquoted[start..end], "\\\\", "\\");
    ReplaceAllHead(unquoted[start..end], "\\\\", "\\");
    assert '\n' !in line ==> '\n' !in segment by {
      if '\n' !in line {
        assert forall k :: 0 <= k < |unquoted| ==> unquoted[k] == line[k] || unquoted[k] == '`';
        ReplaceAllAbsent(unquoted[start..end], "\\\\", "\\", '\n');
      }
    }
    (unquoted[..start] + segment + unquoted[end..], line[start] == '"' || line[end] == '"')
  }

  /** Every location whose row is inside the file has an end position, which the code dereferences. */
  predicate EndsPresent(locations: seq<Location>, lineCount: nat) {
    forall i :: 0 <= i < |locations| && 0 <= locations[i].row - 1 < lineCount ==> locations[i].end.Some?
  }

  predicate NoNewlines(lines: seq<string>) {
    forall k :: 0 <= k < |lines| ==> '\n' !in lines[k]
  }

  /** The lines after one location's edit, and whether it replaced a quote. */
  function FixAt(lines: seq<string>, loc: Location): (r: (seq<string>, bool))
    requires 0 <= loc.row - 1 < |lines| ==> loc.end.Some?
    ensures |r.0| == |lines|
    ensures forall k :: 0 <= k < |lines| && k != loc.row - 1 ==> r.0[k] == lines[k]
    ensures NoNewlines(lines) ==> NoNewlines(r.0)
  {
    if loc.row - 1 < 0 || loc.row - 1 >= |lines| then (lines, false)
    else
      var line := lines[loc.row - 1];
      var start := loc.column - 1;
      var end := loc.end.value.column - 2;
      if Skips(start, end, |line|) then (lines, false)
      else
        var fixed := FixLine(line, start, end);
        (lines[loc.row - 1 := fixed.0], fixed.1)
  }

  /** The lines after the edits of all locations in order, and whether any replaced a quote. */
  function FixAll(lines: seq<string>, locations: seq<Location>): (r: (seq<string>, bool))
    requires EndsPresent(locations, |lines|)
    ensures |r.0| == |lines|
    ensures forall k :: 0 <= k < |lines| && (forall i :: 0 <= i < |locations| ==> locations[i].row - 1 != k) ==> r.0[k] == lines[k]
    ensures NoNewlines(lines) ==> NoNewlines(r.0)
    decreases |locations|
  {
    if |locations| == 0 then (lines, false)
    else
      var before := FixAll(lines, locations[..|locations| - 1]);
      var last := FixAt(before.0, locations[|locations| - 1]);
      (last.0, before.1 || last.1)
  }

  /**
   * NonRawRegexPattern.Fix: one result with the rewritten contents if any
   * quote was replaced, none otherwise; an error without options.
   */
  method Fix(fc: FixCandidate, opts: Option<RuntimeOptions>) returns (r: Result<seq<FixResult>>)
    requires opts.Some? ==> EndsPresent(opts.value.locations, |Split(fc.contents, '\n')|)
    ensures opts.None? <==> r.Err?
    ensures opts.Some? && |opts.value.locations| == 0 ==> r == Ok([])
    ensures r.Ok? ==> |r.value| <= 1
    ensures r.Ok? && |opts.value.locations| > 0 ==>
      var fixed := FixAll(Split(fc.contents, '\n'), opts.value.locations);
      && (|r.value| == 1 <==> fixed.1)
      && (|r.value| == 1 ==> r.value[0] == FixResult(Name, opts.value.baseDir, Join(fixed.0, "\n"), None))
  {
    if opts.None? {
      return Err("missing runtime options");
    }
    var locations := opts.value.locations;
    if |locations| == 0 {
      return Ok([]);
    }
    var lines := Split(fc.contents, '\n');
    ghost var original := lines;
    var fileChanged := false;
    var i := 0;
    while i < |locations|
      invariant 0 <= i <= |locations|
      invariant (lines, fileChanged) == FixAll(original, locations[..i])
    {
      var loc := locations[i];
      FixAllStep(original, locations, i);
      if loc.row - 1 < 0 || loc.row - 1 >= |lines| {
        i := i + 1;
        continue;
      }
      var changed;
      lines, changed := FixLocation(lines, loc);
      fileChanged := fileChanged || changed;
      i := i + 1;
    }
    assert locations[..i] == locations;
    if !fileChanged {
      return Ok([]);
    }
    return Ok([FixResult(Name, opts.value.baseDir, Join(lines, "\n"), None)]);
  }

  /** One more location: the edits so far, then that location's edit. */
  lemma FixAllStep(lines: seq<string>, locations: seq<Location>, i: nat)
    requires i < |locations| && EndsPresent(locations, |lines|)
    ensures EndsPresent(locations[..i], |lines|) && EndsPresent(locations[..i + 1], |lines|)
    ensures var before := FixAll(lines, locations[..i]);
      var last := FixAt(before.0, locations[i]);
      FixAll(lines, locations[..i + 1]) == (last.0, before.1 || last.1)
    ensures locations[i].row - 1 < 0 || locations[i].row - 1 >= |lines| ==>
      FixAll(lines, locations[..i + 1]) == FixAll(lines, locations[..i])
  {
    assert locations[..i + 1][..i] == locations[..i];
  }

  /** The body of Fix's loop for a location inside the file: the rune slice edited in place. */
  method FixLocation(lines: seq<string>, loc: Location) returns (lines': seq<string>, changed: bool)
    requires 0 <= loc.row - 1 < |lines| && loc.end.Some?
    ensures (lines', changed) == FixAt(lines, loc)
  {
    var text := lines[loc.row - 1];
    var line := new char[|text|](k requires 0 <= k < |text| => text[k]);
    var start := loc.column - 1;
    var end := loc.end.value.column - 2;
    if start < 0 || end >= line.Length || start >= end {
      return lines, false;
    }
    changed := false;
    if line[start] == '"' {
      line[start] := '`';
      changed := true;
    }
    if line[end] == '"' {
      line[end] := '`';
      changed := true;
    }
    assert line[..] == text[start := Unquote(text[start])][end := Unquote(text[end])];
    var segment := ReplaceAll(line[start..end], "\\\\", "\\");
    lines' := lines[loc.row - 1 := line[..start] + segment + line[end..]];
  }

  /**
   * The fix never adds or removes a line: the rewritten contents split
   * into exactly the edited lines, as many as the original has.
   */
  lemma LineCountPreserved(contents: string, locations: seq<Location>)
    requires EndsPresent(locations, |Split(contents, '\n')|)
    ensures var fixed := FixAll(Split(contents, '\n'), locations).0;
      Split(Join(fixed, "\n"), '\n') == fixed && |fixed| == |Split(contents, '\n')|
  {
    var lines := Split(contents, '\n');
    SplitPieces(contents, '\n');
    var fixed := FixAll(lines, locations).0;
    SplitJoin(fixed, '\n');
  }
}
