/**
 * How the language server turns lint results into diagnostics
 * (internal/lsp/lint.go): a linter report becomes per-file diagnostics, a
 * violation's location becomes a range, and a failed parse becomes one
 * whole-line error diagnostic per parse error.
 */
module Lint {
  import opened Wrappers
  import opened GoStrings
  import opened LspTypes
  import ReportTypes
  import Utf8
  import LspCache

  /** max(x, 0), before the conversion to an unsigned position field. */
  function Clamp(x: int): nat {
    if x < 0 then 0 else x
  }

  /** `a` is at or before `b` in the text. */
  predicate NotAfter(a: Position, b: Position) {
    a.line < b.line || (a.line == b.line && a.character <= b.character)
  }

  /** Errors are shown as warnings and warnings as information, to stand apart from parse errors. */
  function Severity(level: string): (r: nat)
    ensures r == 3 <==> level == "warning"
    ensures r == 2 <==> level != "warning"
  {
    if level == "warning" then 3 else 2
  }

  /** cmp.Or: the violation's file, or the workspace root for a violation without one. */
  function FileOf(v: ReportTypes.Violation, root: string): string {
    if v.location.file != "" then v.location.file else root
  }

  /** The documentation page of a rule. */
  function DocsUrl(category: string, title: string): string {
    "https://docs.styra.com/regal/rules/" + category + "/" + title
  }

  /** The byte length of the violation's text, 0 when there is none. */
  function TextLength(text: Option<string>): nat {
    if text.Some? then Utf8.ByteLen(text.value) else 0
  }

  /**
   * getRangeForViolation: the 1-based row and column become a 0-based
   * position, clamped at 0; the end comes from the location's end the same
   * way, or else lies on the start line, as many bytes on as the text is long.
   */
  function RangeForViolation(v: ReportTypes.Violation): (r: Range)
    ensures r.start == Position(Clamp(v.location.row - 1), Clamp(v.location.column - 1))
    ensures v.location.end.Some? ==>
      r.end == Position(Clamp(v.location.end.value.row - 1), Clamp(v.location.end.value.column - 1))
    ensures v.location.end.None? ==>
      r.end.line == r.start.line && r.end.character == r.start.character + TextLength(v.location.text)
  {
    var loc := v.location;
    var start := Position(Clamp(loc.row - 1), Clamp(loc.column - 1));
    var end :=
      if loc.end.Some? then Position(Clamp(loc.end.value.row - 1), Clamp(loc.end.value.column - 1))
      else Position(start.line, start.character + TextLength(loc.text));
    Range(start, end)
  }

  /**
   * A violation's range never ends before it starts, unless its location's
   * own end lies before its start.
   */
  lemma RangeOrdered(v: ReportTypes.Violation)
    requires v.location.row >= 1
    requires v.location.end.Some? ==>
      var e := v.location.end.value;
      v.location.row < e.row || (v.location.row == e.row && v.location.column <= e.column)
    ensures NotAfter(RangeForViolation(v).start, RangeForViolation(v).end)
  {
  }

  /**
   * Clamping is what keeps the range well formed: a location at row 0 or
   * column 0 (as a file-level violation has) starts at the top of the file.
   */
  lemma RangeClamped(v: ReportTypes.Violation)
    requires v.location.row <= 1 && v.location.column <= 1
    ensures RangeForViolation(v).start == Position(0, 0)
  {
  }

  /** The diagnostic a violation is shown as. */
  function ViolationDiagnostic(v: ReportTypes.Violation): (d: Diagnostic)
    ensures d.severity == Some(Severity(v.level))
    ensures d.range == RangeForViolation(v)
    ensures d.message == v.description && d.code == v.title
    ensures d.source == Some("regal/" + v.category)
    ensures d.href == Some(DocsUrl(v.category, v.title))
  {
    Diagnostic(v.title, v.description, Some("regal/" + v.category), Some(DocsUrl(v.category, v.title)),
      RangeForViolation(v), Some(Severity(v.level)))
  }

  /** The violations of a report; a nil list has none. */
  function Violations(rpt: ReportTypes.Report): seq<ReportTypes.Violation> {
    if rpt.violations.Some? then rpt.violations.value else []
  }

  /** The files the first `i` violations are filed under. */
  function FilesBefore(vs: seq<ReportTypes.Violation>, root: string, i: nat): set<string>
    requires i <= |vs|
  {
    if i == 0 then {} else FilesBefore(vs, root, i - 1) + {FileOf(vs[i - 1], root)}
  }

  /** The images under `f` of the first `i` elements of `s` that `keep` holds of, in order. */
  function MapWhere<T, U>(s: seq<T>, keep: T -> bool, f: T -> U, i: nat): seq<U>
    requires i <= |s|
  {
    if i == 0 then []
    else MapWhere(s, keep, f, i - 1) + if keep(s[i - 1]) then [f(s[i - 1])] else []
  }

  /** MapWhere holds exactly the images of the kept elements, and no more of them than elements. */
  lemma {:induction false} MapWhereMembers<T, U>(s: seq<T>, keep: T -> bool, f: T -> U, i: nat)
    requires i <= |s|
    ensures forall d :: d in MapWhere(s, keep, f, i) <==> exists k :: 0 <= k < i && keep(s[k]) && d == f(s[k])
    ensures |MapWhere(s, keep, f, i)| <= i
  {
    if i > 0 {
      MapWhereMembers(s, keep, f, i - 1);
      forall d | d in MapWhere(s, keep, f, i) && d !in MapWhere(s, keep, f, i - 1)
        ensures exists k :: 0 <= k < i && keep(s[k]) && d == f(s[k])
      {
        assert keep(s[i - 1]) && d == f(s[i - 1]);
      }
    }
  }

  /** Whether a violation is filed under `file`. */
  function Under(root: string, file: string): ReportTypes.Violation -> bool {
    (v: ReportTypes.Violation) => FileOf(v, root) == file
  }

  /** The diagnostics of the first `i` violations filed under `file`, in report order. */
  function FiledUnder(vs: seq<ReportTypes.Violation>, root: string, file: string, i: nat): seq<Diagnostic>
    requires i <= |vs|
  {
    MapWhere(vs, Under(root, file), ViolationDiagnostic, i)
  }

  /** A file's diagnostics are exactly those of the violations filed under it. */
  lemma FiledUnderMembers(vs: seq<ReportTypes.Violation>, root: string, file: string, i: nat)
    requires i <= |vs|
    ensures forall d :: d in FiledUnder(vs, root, file, i) <==>
      exists k :: 0 <= k < i && FileOf(vs[k], root) == file && d == ViolationDiagnostic(vs[k])
    ensures |FiledUnder(vs, root, file, i)| <= i
  {
    MapWhereMembers(vs, Under(root, file), ViolationDiagnostic, i);
  }

  /** A file is listed exactly when some violation is filed under it. */
  lemma {:induction false} FiledUnderNonEmpty(vs: seq<ReportTypes.Violation>, root: string, file: string, i: nat)
    requires i <= |vs|
    ensures |FiledUnder(vs, root, file, i)| > 0 <==> file in FilesBefore(vs, root, i)
  {
    if i > 0 {
      FiledUnderNonEmpty(vs, root, file, i - 1);
    }
  }

  /** The violations of a single file keep their report order. */
  lemma {:induction false} FiledInOrder(vs: seq<ReportTypes.Violation>, root: string, file: string, i: nat)
    requires i <= |vs|
    requires forall k :: 0 <= k < i ==> FileOf(vs[k], root) == file
    ensures FiledUnder(vs, root, file, i) == seq(i, k requires 0 <= k < i => ViolationDiagnostic(vs[k]))
  {
    if i > 0 {
      FiledInOrder(vs, root, file, i - 1);
    }
  }

  /** Filing the next violation keeps the map that of the violations so far. */
  lemma FileStep(fileDiags: map<string, seq<Diagnostic>>, vs: seq<ReportTypes.Violation>, root: string, i: nat)
    requires i < |vs|
    requires fileDiags.Keys == FilesBefore(vs, root, i)
    requires forall f :: f in fileDiags ==> fileDiags[f] == FiledUnder(vs, root, f, i)
    ensures var file := FileOf(vs[i], root);
      var m := fileDiags[file := (if file in fileDiags then fileDiags[file] else []) + [ViolationDiagnostic(vs[i])]];
      && m.Keys == FilesBefore(vs, root, i + 1)
      && forall f :: f in m ==> m[f] == FiledUnder(vs, root, f, i + 1)
  {
    var file := FileOf(vs[i], root);
    if file !in fileDiags {
      FiledUnderNonEmpty(vs, root, file, i);
    }
  }

  /**
   * convertReportToDiagnostics: each violation's diagnostic is appended to
   * the list of its file, so each file lists its violations in report order.
   */
  method ConvertReportToDiagnostics(rpt: ReportTypes.Report, root: string) returns (fileDiags: map<string, seq<Diagnostic>>)
    ensures fileDiags.Keys == FilesBefore(Violations(rpt), root, |Violations(rpt)|)
    ensures forall f :: f in fileDiags ==> fileDiags[f] == FiledUnder(Violations(rpt), root, f, |Violations(rpt)|)
  {
    var vs := Violations(rpt);
    fileDiags := map[];
    for i := 0 to |vs|
      invariant fileDiags.Keys == FilesBefore(vs, root, i)
      invariant forall f :: f in fileDiags ==> fileDiags[f] == FiledUnder(vs, root, f, i)
    {
      var item := vs[i];
      var file := if item.location.file != "" then item.location.file else root;
      var diag := ViolationDiagnostic(item);
      FileStep(fileDiags, vs, root, i);
      fileDiags := fileDiags[file := (if file in fileDiags then fileDiags[file] else []) + [diag]];
    }
  }

  /** ast.Error as the parse-error path reads it: its code, message and start row. */
  datatype AstError = AstError(code: string, message: string, row: int)

  /** What a failed parse returned: a list of ast.Error, a single one, or an error of another type. */
  datatype ParseFailure =
    | AstErrors(errors: seq<AstError>)
    | SingleAstError(error: AstError)
    | UnknownError(typeName: string)

  /** strings.ReplaceAll with a one-character pattern and replacement. */
  lemma {:induction false} ReplaceChar(s: string, c: char, d: char)
    ensures |ReplaceAll(s, [c], [d])| == |s|
    ensures forall k :: 0 <= k < |s| ==> ReplaceAll(s, [c], [d])[k] == if s[k] == c then d else s[k]
    decreases |s|
  {
    if |s| > 0 {
      ReplaceChar(s[1..], c, d);
      var r := ReplaceAll(s, [c], [d]);
      assert r == [if s[0] == c then d else s[0]] + ReplaceAll(s[1..], [c], [d]);
      forall k | 0 <= k < |s|
        ensures r[k] == if s[k] == c then d else s[k]
      {
        if k > 0 {
          assert r[k] == ReplaceAll(s[1..], [c], [d])[k - 1];
        }
      }
    }
  }

  /** The byte length of the line a parse error is shown on; 1 past the last line. */
  function LineLength(lines: seq<string>, line: nat): nat {
    if line < |lines| then Utf8.ByteLen(lines[line]) else 1
  }

  /**
   * The diagnostic of one parse error: an error (severity 1) over the whole
   * of its line from character 0, with the error code's '_' turned into '-'.
   * A hint for the error, when there is one, gives the key and the page;
   * otherwise the generic parse-error ones are used.
   */
  function ParseErrorDiagnostic(e: AstError, lines: seq<string>, hints: seq<string>): (d: Diagnostic)
    ensures d.severity == Some(1)
    ensures d.range.start == Position(Clamp(e.row - 1), 0)
    ensures d.range.end == Position(Clamp(e.row - 1), LineLength(lines, Clamp(e.row - 1)))
    ensures |d.code| == |e.code| && '_' !in d.code
    ensures forall k :: 0 <= k < |e.code| && e.code[k] != '_' ==> d.code[k] == e.code[k]
    ensures d.message == e.message
    ensures |hints| > 0 ==> d.source == Some(hints[0]) && d.href == Some("https://docs.styra.com/opa/errors/" + hints[0])
    ensures |hints| == 0 ==> d.source == Some("regal/parse") && d.href == Some("https://docs.styra.com/opa/category/rego-parse-error")
  {
    var line := Clamp(e.row - 1);
    var key := if |hints| > 0 then hints[0] else "regal/parse";
    var link := if |hints| > 0 then "https://docs.styra.com/opa/errors/" + hints[0] else "https://docs.styra.com/opa/category/rego-parse-error";
    ReplaceChar(e.code, '_', '-');
    var code := ReplaceAll(e.code, "_", "-");
    assert forall k :: 0 <= k < |code| ==> code[k] != '_';
    Diagnostic(code, e.message, Some(key), Some(link), Range(Position(line, 0), Position(line, LineLength(lines, line))), Some(1))
  }

  /** The ast.Error values a parse failure carries. */
  function ErrorsOf(err: ParseFailure): seq<AstError> {
    match err
    case AstErrors(errors) => errors
    case SingleAstError(error) => [error]
    case UnknownError(_) => []
  }

  /** The loop over the parse errors: one diagnostic each, in order. */
  method ParseErrorDiagnostics(errors: seq<AstError>, lines: seq<string>, hints: seq<string>) returns (diags: seq<Diagnostic>)
    ensures |diags| == |errors|
    ensures forall k :: 0 <= k < |errors| ==> diags[k] == ParseErrorDiagnostic(errors[k], lines, hints)
  {
    diags := [];
    for i := 0 to |errors|
      invariant |diags| == i
      invariant forall k :: 0 <= k < i ==> diags[k] == ParseErrorDiagnostic(errors[k], lines, hints)
    {
      diags := diags + [ParseErrorDiagnostic(errors[i], lines, hints)];
    }
  }

  /**
   * Parse errors stand apart: no violation's diagnostic has their severity,
   * and the range they highlight is never empty unless their line is.
   */
  lemma ParseErrorsStandApart(e: AstError, lines: seq<string>, hints: seq<string>, v: ReportTypes.Violation)
    ensures ParseErrorDiagnostic(e, lines, hints).severity != ViolationDiagnostic(v).severity
    ensures Clamp(e.row - 1) >= |lines| || |lines[Clamp(e.row - 1)]| > 0 ==>
      ParseErrorDiagnostic(e, lines, hints).range.end.character > 0
  {
    var line := Clamp(e.row - 1);
    if line < |lines| && |lines[line]| > 0 {
      Utf8.EncodeAppend([lines[line][0]], lines[line][1..]);
      assert [lines[line][0]] + lines[line][1..] == lines[line];
    }
  }

  /**
   * The failure branch of updateParse: the parse errors of the file's
   * contents, split into lines, are stored as its parse-error diagnostics.
   * An unknown error type, contents missing from the cache, and a failure
   * that carries no parse error are errors; only the last stores anything.
   * `hints` stands for the hints found for the error, which are not part of
   * this model.
   */
  method RecordParseErrors<M, B, K, R>(cache: LspCache.Cache<M, B, K, R>, uri: string, err: ParseFailure, hints: seq<string>)
    returns (error: Option<string>)
    modifies cache`diagnosticsParseErrors
    ensures uri !in old(cache.fileContents) ==> error.Some? && cache.diagnosticsParseErrors == old(cache.diagnosticsParseErrors)
    ensures err.UnknownError? ==> error.Some? && cache.diagnosticsParseErrors == old(cache.diagnosticsParseErrors)
    ensures uri in old(cache.fileContents) && !err.UnknownError? ==>
      && uri in cache.diagnosticsParseErrors
      && |cache.diagnosticsParseErrors[uri]| == |ErrorsOf(err)|
      && (forall k :: 0 <= k < |ErrorsOf(err)| ==>
            cache.diagnosticsParseErrors[uri][k] == ParseErrorDiagnostic(ErrorsOf(err)[k], Split(old(cache.fileContents)[uri], '\n'), hints))
      && cache.diagnosticsParseErrors == old(cache.diagnosticsParseErrors)[uri := cache.diagnosticsParseErrors[uri]]
      && (error.Some? <==> |ErrorsOf(err)| == 0)
  {
    var (content, ok) := cache.GetFileContents(uri);
    if !ok {
      return Some("failed to get file contents for uri " + uri);
    }
    var lines := Split(content, '\n');
    if err.UnknownError? {
      return Some("unknown error type: " + err.typeName);
    }
    var diags := ParseErrorDiagnostics(ErrorsOf(err), lines, hints);
    cache.SetParseErrors(uri, diags);
    if |diags| == 0 {
      return Some("failed to parse module, but no errors were set as diagnostics");
    }
    return None;
  }
}
