/**
 * Inlay hints (internal/lsp/inlayhint/inlayhint.go): for each call of a
 * built-in function, a hint before every supplied argument whose declared
 * type carries a name, showing that name; for a file that does not parse,
 * the hints of the lines before the last parse error.
 *
 * Finding the built-in calls of a module and parsing are the Rego parser's
 * work: a module is given by its calls, and the parser by the parameter
 * `parse`.
 */
module InlayHint {
  import opened Wrappers
  import opened GoStrings
  import opened LspTypes
  import opened LspRego

  /** A declared argument of a built-in: with a name, a description and its type written out, or unnamed. */
  datatype ArgType = Named(name: string, descr: string, typeText: string) | Unnamed

  /** A call of a built-in: the arguments its declaration names and the locations of the arguments supplied. */
  datatype BuiltinCall = BuiltinCall(declArgs: seq<ArgType>, args: seq<AstLocation>)

  datatype MarkupContent = MarkupContent(kind: string, value: string)

  datatype InlayHint = InlayHint(
    tooltip: MarkupContent,
    labelText: string,
    position: Position,
    kind: nat,
    paddingLeft: bool,
    paddingRight: bool)

  /** The last line of every tooltip: the type in backquotes. */
  function TypeLine(typeText: string): string {
    "Type: `" + typeText + "`"
  }

  /** createInlayTooltip: the type, after the description and a blank line when there is one. */
  function InlayTooltip(a: ArgType): (r: string)
    requires a.Named?
    ensures HasSuffix(r, TypeLine(a.typeText))
    ensures a.descr != "" ==> HasPrefix(r, a.descr + "\n\n")
    ensures a.descr == "" <==> |r| == |TypeLine(a.typeText)|
  {
    if a.descr == "" then TypeLine(a.typeText) else a.descr + "\n\n" + TypeLine(a.typeText)
  }

  /** The hint for a named argument supplied at `loc`. */
  function HintFor(a: ArgType, loc: AstLocation): (r: InlayHint)
    requires a.Named?
    ensures r.labelText == a.name + ":" && r.position == PositionFromLocation(loc)
    ensures r.kind == 2 && !r.paddingLeft && r.paddingRight
    ensures r.tooltip.kind == "markdown" && HasSuffix(r.tooltip.value, TypeLine(a.typeText))
  {
    InlayHint(MarkupContent("markdown", InlayTooltip(a)), a.name + ":", PositionFromLocation(loc), 2, false, true)
  }

  /** The `i`th declared argument of the call is named and was supplied. */
  predicate Supplied(call: BuiltinCall, i: nat) {
    i < |call.declArgs| && i < |call.args| && call.declArgs[i].Named?
  }

  /** The hints for the first `n` declared arguments of a call. */
  function CallHints(call: BuiltinCall, n: nat): seq<InlayHint>
    requires n <= |call.declArgs|
  {
    if n == 0 then []
    else
      var last := if Supplied(call, n - 1) then [HintFor(call.declArgs[n - 1], call.args[n - 1])] else [];
      CallHints(call, n - 1) + last
  }

  /** The hints for the first `n` calls. */
  function Hints(calls: seq<BuiltinCall>, n: nat): seq<InlayHint>
    requires n <= |calls|
  {
    if n == 0 then [] else Hints(calls, n - 1) + CallHints(calls[n - 1], |calls[n - 1].declArgs|)
  }

  /**
   * A call gets exactly one hint per named argument it supplies, in
   * declaration order; arguments not supplied get none, so there are no
   * more hints than arguments supplied.
   */
  lemma {:induction false} CallHintsExact(call: BuiltinCall, n: nat)
    requires n <= |call.declArgs|
    ensures forall h :: h in CallHints(call, n) ==>
      exists i :: 0 <= i < n && Supplied(call, i) && h == HintFor(call.declArgs[i], call.args[i])
    ensures forall i :: 0 <= i < n && Supplied(call, i) ==> HintFor(call.declArgs[i], call.args[i]) in CallHints(call, n)
    ensures |CallHints(call, n)| <= n && |CallHints(call, n)| <= |call.args|
  {
    if n > 0 {
      CallHintsExact(call, n - 1);
    }
  }

  /** The hint `h` belongs to the named argument `i` supplied in call `c`. */
  ghost predicate HintOf(calls: seq<BuiltinCall>, c: int, i: int, h: InlayHint) {
    0 <= c < |calls| && 0 <= i && Supplied(calls[c], i) && h == HintFor(calls[c].declArgs[i], calls[c].args[i])
  }

  /** Every hint of the module belongs to a named argument supplied in one of its calls, and every such argument has its hint. */
  lemma {:induction false} HintsExact(calls: seq<BuiltinCall>, n: nat)
    requires n <= |calls|
    ensures forall h :: h in Hints(calls, n) ==> exists c, i :: c < n && HintOf(calls, c, i, h)
    ensures forall c, i :: 0 <= c < n && 0 <= i && Supplied(calls[c], i) ==>
      HintFor(calls[c].declArgs[i], calls[c].args[i]) in Hints(calls, n)
  {
    if n > 0 {
      HintsExact(calls, n - 1);
      var call := calls[n - 1];
      var prev := Hints(calls, n - 1);
      var mine := CallHints(call, |call.declArgs|);
      CallHintsExact(call, |call.declArgs|);
      assert Hints(calls, n) == prev + mine;
      forall h | h in Hints(calls, n)
        ensures exists c, i :: c < n && HintOf(calls, c, i, h)
      {
        if h in prev {
          var c, i :| c < n - 1 && HintOf(calls, c, i, h);
          assert HintOf(calls, c, i, h);
        } else {
          assert h in mine;
          var i :| 0 <= i < |call.declArgs| && Supplied(call, i) && h == HintFor(call.declArgs[i], call.args[i]);
          assert HintOf(calls, n - 1, i, h);
        }
      }
      forall c, i | 0 <= c < n && 0 <= i && Supplied(calls[c], i)
        ensures HintFor(calls[c].declArgs[i], calls[c].args[i]) in Hints(calls, n)
      {
        if c < n - 1 {
          assert HintFor(calls[c].declArgs[i], calls[c].args[i]) in prev;
        } else {
          assert HintFor(calls[c].declArgs[i], calls[c].args[i]) in mine;
        }
      }
    }
  }

  /** FromModule: the hints of every call, call after call, argument after argument. */
  method FromModule(calls: seq<BuiltinCall>) returns (hints: seq<InlayHint>)
    ensures hints == Hints(calls, |calls|)
  {
    hints := [];
    for c := 0 to |calls|
      invariant hints == Hints(calls, c)
    {
      var call := calls[c];
      ghost var before := hints;
      for i := 0 to |call.declArgs|
        invariant hints == before + CallHints(call, i)
      {
        if |call.args| <= i {
          continue;
        }
        var arg := call.declArgs[i];
        if arg.Named? {
          hints := hints + [HintFor(arg, call.args[i])];
        }
      }
    }
  }

  /** The largest start line of the parse errors, 0 when there are none. */
  method FirstErrorLine(parseErrors: seq<Diagnostic>) returns (line: nat)
    ensures line == MaxStartLine(parseErrors)
  {
    line := 0;
    for k := 0 to |parseErrors|
      invariant forall k' :: 0 <= k' < k ==> parseErrors[k'].range.start.line <= line
      invariant line == 0 || exists k' :: 0 <= k' < k && parseErrors[k'].range.start.line == line
    {
      if parseErrors[k].range.start.line > line {
        line := parseErrors[k].range.start.line;
      }
    }
    MaxStartLineIs(parseErrors, line);
  }

  /** The text of the first `n` lines of `contents`. */
  function LinesBefore(contents: string, n: nat): string
    requires n <= |Split(contents, '\n')|
  {
    Join(Split(contents, '\n')[..n], "\n")
  }

  /**
   * The text handed to the parser is where `contents` starts: its first `n`
   * lines, with the line break that ends them when more lines follow.
   */
  lemma LinesBeforeArePrefix(contents: string, n: nat)
    requires 0 < n <= |Split(contents, '\n')|
    ensures CountChar(LinesBefore(contents, n), '\n') == n - 1
    ensures n < |Split(contents, '\n')| ==> HasPrefix(contents, LinesBefore(contents, n) + "\n")
    ensures n == |Split(contents, '\n')| ==> LinesBefore(contents, n) == contents
  {
    var split := Split(contents, '\n');
    SplitPieces(contents, '\n');
    JoinSplit(contents, '\n');
    JoinCount(split[..n], '\n');
    if n < |split| {
      assert split == split[..n] + split[n..];
      JoinAppend(split[..n], split[n..], "\n");
      assert contents == (LinesBefore(contents, n) + "\n") + Join(split[n..], "\n");
    } else {
      assert split[..n] == split;
    }
  }

  /**
   * Partial: no hints when the last parse error is on the first line or
   * past the end of the file, or when the lines before it do not parse
   * either; otherwise the hints of the module those lines make.
   */
  method Partial(parseErrors: seq<Diagnostic>, contents: string, parse: string -> Option<seq<BuiltinCall>>)
    returns (hints: seq<InlayHint>)
    ensures var first := MaxStartLine(parseErrors);
      && (first == 0 || first > |Split(contents, '\n')| ==> hints == [])
      && (0 < first <= |Split(contents, '\n')| ==>
            hints == (match parse(LinesBefore(contents, first)) case None => [] case Some(calls) => Hints(calls, |calls|)))
  {
    var first := FirstErrorLine(parseErrors);
    var split := Split(contents, '\n');
    if first == 0 || first > |split| {
      return [];
    }
    var lines := Join(split[..first], "\n");
    var parsed := parse(lines);
    if parsed.None? {
      return [];
    }
    hints := FromModule(parsed.value);
  }

  /** The largest start line of the parse errors, 0 when there are none. */
  function MaxStartLine(parseErrors: seq<Diagnostic>): (r: nat)
    ensures forall k :: 0 <= k < |parseErrors| ==> parseErrors[k].range.start.line <= r
    ensures r == 0 || exists k :: 0 <= k < |parseErrors| && parseErrors[k].range.start.line == r
  {
    if parseErrors == [] then 0
    else
      var rest := MaxStartLine(parseErrors[1..]);
      if parseErrors[0].range.start.line > rest then parseErrors[0].range.start.line else rest
  }

  /** Anything bounding every start line and equal to one of them (or 0) is the largest start line. */
  lemma MaxStartLineIs(parseErrors: seq<Diagnostic>, line: nat)
    requires forall k :: 0 <= k < |parseErrors| ==> parseErrors[k].range.start.line <= line
    requires line == 0 || exists k :: 0 <= k < |parseErrors| && parseErrors[k].range.start.line == line
    ensures MaxStartLine(parseErrors) == line
  {
  }
}
