/**
 * Turning a formatter's output into LSP text edits (internal/lsp/format.go):
 * both texts are cut into lines, diffed line by line, and every Delete or
 * non-empty Insert becomes an edit over whole lines; plus the warnings for
 * formatting options the formatter cannot honour.
 */
module Format {
  import opened Wrappers
  import opened GoStrings
  import opened LspTypes
  import opened Diff

  // ---------------------------------------------------------------------------
  // ComputeEdits

  /** The start of line n. */
  function LineStart(n: nat): Position {
    Position(n, 0)
  }

  /** The edits one operation contributes: none for Equal or for an Insert whose lines join to "". */
  function EditOf(o: Operation<string>): seq<TextEdit> {
    match o.kind
    case Delete => [TextEdit(Range(LineStart(o.i1), LineStart(o.i2)), "")]
    case Insert =>
      var content := Join(o.content, "");
      if content != "" then [TextEdit(Range(LineStart(o.i1), LineStart(o.i2)), content)] else []
    case Equal => []
  }

  /** The edits of a whole script, in script order: the fold ComputeEdits' loop performs. */
  function EditsOf(ops: seq<Operation<string>>): seq<TextEdit>
    decreases |ops|
  {
    if |ops| == 0 then [] else EditsOf(ops[..|ops| - 1]) + EditOf(ops[|ops| - 1])
  }

  /** Edits within lines [0, upto), each over a non-inverted whole-line range, left to right. */
  predicate LineEdits(edits: seq<TextEdit>, upto: int)
    decreases |edits|
  {
    |edits| == 0 ||
    var e := edits[|edits| - 1];
    && e.range.start.character == 0 && e.range.end.character == 0
    && e.range.start.line <= e.range.end.line <= upto
    && LineEdits(edits[..|edits| - 1], e.range.start.line)
  }

  /** The text of lines[..upto] with whole-line edits applied, as a client applies them. */
  function ApplyEdits(lines: seq<string>, edits: seq<TextEdit>, upto: nat): string
    requires upto <= |lines| && LineEdits(edits, upto)
    decreases |edits|
  {
    if |edits| == 0 then Concat(lines[..upto])
    else
      var e := edits[|edits| - 1];
      ApplyEdits(lines, edits[..|edits| - 1], e.range.start.line) + e.newText + Concat(lines[e.range.end.line..upto])
  }

  /** Every edit of a line-edit list starts and ends at character 0. */
  lemma {:induction false} LineEditsAtColumnZero(edits: seq<TextEdit>, upto: int)
    requires LineEdits(edits, upto)
    ensures forall j :: 0 <= j < |edits| ==>
      edits[j].range.start.character == 0 && edits[j].range.end.character == 0
    decreases |edits|
  {
    if |edits| > 0 {
      var n := |edits| - 1;
      LineEditsAtColumnZero(edits[..n], edits[n].range.start.line);
      assert forall j :: 0 <= j < n ==> edits[..n][j] == edits[j];
    }
  }

  /** Applying edits further to the right only appends the untouched lines. */
  lemma ApplyExtend(lines: seq<string>, edits: seq<TextEdit>, u: nat, v: nat)
    requires u <= v <= |lines| && LineEdits(edits, u)
    ensures LineEdits(edits, v)
    ensures ApplyEdits(lines, edits, v) == ApplyEdits(lines, edits, u) + Concat(lines[u..v])
  {
    if |edits| == 0 {
      assert lines[..v] == lines[..u] + lines[u..v];
      ConcatAppend(lines[..u], lines[u..v]);
    } else {
      var e := edits[|edits| - 1];
      assert lines[e.range.end.line..v] == lines[e.range.end.line..u] + lines[u..v];
      ConcatAppend(lines[e.range.end.line..u], lines[u..v]);
    }
  }

  /** The edits of a well-formed script are line edits that render what the script renders. */
  lemma {:induction false} EditsOfApply(a: seq<string>, b: seq<string>, ops: seq<Operation<string>>, upto: nat)
    requires upto <= |a| && ScriptOK(b, ops, upto)
    ensures |EditsOf(ops)| <= |ops|
    ensures LineEdits(EditsOf(ops), upto)
    ensures ApplyEdits(a, EditsOf(ops), upto) == Concat(Render(a, ops, upto))
    decreases |ops|
  {
    if |ops| == 0 {
      return;
    }
    var n := |ops| - 1;
    var pre := ops[..n];
    assert OpOK(b, ops[n]);
    assert forall j :: 0 <= j < n ==> pre[j] == ops[j];
    assert ScriptOK(b, pre, ops[n].i1);
    EditsOfApply(a, b, pre, ops[n].i1);
    EditsOfStep(a, b, ops, pre, ops[n], upto);
  }

  /** Appending one Delete or Insert to a script whose edits are already known to render it. */
  lemma EditsOfStep(a: seq<string>, b: seq<string>, ops: seq<Operation<string>>, pre: seq<Operation<string>>,
                    o: Operation<string>, upto: nat)
    requires |ops| > 0 && pre == ops[..|ops| - 1] && o == ops[|ops| - 1]
    requires o.i1 <= o.i2 <= upto <= |a| && Ordered(pre, o.i1) && OpOK(b, o)
    requires |EditsOf(pre)| <= |pre| && LineEdits(EditsOf(pre), o.i1)
    requires ApplyEdits(a, EditsOf(pre), o.i1) == Concat(Render(a, pre, o.i1))
    ensures |EditsOf(ops)| <= |ops|
    ensures LineEdits(EditsOf(ops), upto)
    ensures ApplyEdits(a, EditsOf(ops), upto) == Concat(Render(a, ops, upto))
  {
    var E := EditsOf(pre);
    var R := Render(a, pre, o.i1);
    assert Render(a, ops, upto) == R + o.content + a[o.i2..upto];
    JoinEmptyIsConcat(o.content);
    assert EditsOf(ops) == E + EditOf(o);
    if EditOf(o) == [] {
      assert EditsOf(ops) == E;
      AppendNoEdit(a, E, R, o.content, o.i1, o.i2, upto);
    } else {
      var e := TextEdit(Range(Position(o.i1, 0), Position(o.i2, 0)), Concat(o.content));
      assert EditOf(o) == [e];
      AppendEdit(a, E, e, R, o.content, o.i1, o.i2, upto);
    }
  }

  /** An edit for lines [i1, i2) whose text is what the operation puts there. */
  lemma AppendEdit(a: seq<string>, E: seq<TextEdit>, e: TextEdit, R: seq<string>, content: seq<string>,
                   i1: nat, i2: nat, upto: nat)
    requires i1 <= i2 <= upto <= |a| && LineEdits(E, i1) && ApplyEdits(a, E, i1) == Concat(R)
    requires e == TextEdit(Range(Position(i1, 0), Position(i2, 0)), Concat(content))
    ensures LineEdits(E + [e], upto)
    ensures ApplyEdits(a, E + [e], upto) == Concat(R + content + a[i2..upto])
  {
    assert (E + [e])[..|E|] == E;
    ConcatAppend(R + content, a[i2..upto]);
    ConcatAppend(R, content);
  }

  /** An insertion of lines that join to "" changes nothing, so leaving out its edit is sound. */
  lemma AppendNoEdit(a: seq<string>, E: seq<TextEdit>, R: seq<string>, content: seq<string>,
                     i1: nat, i2: nat, upto: nat)
    requires i1 <= i2 <= upto <= |a| && LineEdits(E, i1) && ApplyEdits(a, E, i1) == Concat(R)
    requires i1 == i2 && Concat(content) == ""
    ensures LineEdits(E, upto)
    ensures ApplyEdits(a, E, upto) == Concat(R + content + a[i2..upto])
  {
    ApplyExtend(a, E, i1, upto);
    ConcatAppend(R + content, a[i2..upto]);
    ConcatAppend(R, content);
  }

  /**
   * ComputeEdits' loop: one edit per Delete, one per Insert whose lines
   * join to a non-empty text, in script order.
   */
  method EditsFromOps(ops: seq<Operation<string>>) returns (edits: seq<TextEdit>)
    ensures edits == EditsOf(ops)
    ensures |edits| <= |ops|
  {
    edits := [];
    var k := 0;
    while k < |ops|
      invariant 0 <= k <= |ops|
      invariant edits == EditsOf(ops[..k])
      invariant |edits| <= k
    {
      var op := ops[k];
      assert ops[..k + 1][..k] == ops[..k];
      match op.kind {
        case Delete =>
          edits := edits + [TextEdit(Range(Position(op.i1, 0), Position(op.i2, 0)), "")];
        case Insert =>
          var content := Join(op.content, "");
          if content != "" {
            edits := edits + [TextEdit(Range(Position(op.i1, 0), Position(op.i2, 0)), content)];
          }
        case Equal =>
      }
      k := k + 1;
    }
    assert ops[..k] == ops;
  }

  /**
   * The edits that turn `before` into `after`: applied to the lines of
   * `before` they give `after`; every edit covers whole lines; identical
   * texts need no edit. None only if the diff search gives up.
   */
  method ComputeEdits(before: string, after: string) returns (edits: Option<seq<TextEdit>>)
    ensures before == after ==> edits == Some([])
    ensures edits.Some? ==> LineEdits(edits.value, |SplitLines(before)|)
    ensures edits.Some? ==> ApplyEdits(SplitLines(before), edits.value, |SplitLines(before)|) == after
    ensures edits.Some? ==> forall j :: 0 <= j < |edits.value| ==>
      edits.value[j].range.start.character == 0 && edits.value[j].range.end.character == 0
  {
    var a, b := SplitLines(before), SplitLines(after);
    var ops := Operations(a, b);
    if ops.None? {
      return None;
    }
    var es := EditsFromOps(ops.value);
    EditsOfApply(a, b, ops.value, |a|);
    LineEditsAtColumnZero(es, |a|);
    return Some(es);
  }

  // ---------------------------------------------------------------------------
  // validateFormattingOptions

  datatype FormattingOptions = FormattingOptions(
    tabSize: nat,
    insertSpaces: bool,
    trimTrailingWhitespace: bool,
    insertFinalNewline: bool,
    trimFinalNewlines: bool)

  const OnlyTabs := "opa fmt: only tabs supported for indentation"
  const TrailingTrimmed := "opa fmt: trailing whitespace always trimmed"
  const FinalInserted := "opa fmt: final newline always inserted"
  const FinalTrimmed := "opa fmt: final newlines always trimmed"

  /** 1 when b holds, else 0. */
  function Count(b: bool): nat { if b then 1 else 0 }

  /**
   * One warning per option the formatter cannot honour (spaces for
   * indentation, or turning off any of the three trimming rules), in a fixed
   * order; the tab size is ignored.
   */
  method ValidateFormattingOptions(opts: FormattingOptions) returns (warnings: seq<string>)
    ensures (OnlyTabs in warnings) == opts.insertSpaces
    ensures (TrailingTrimmed in warnings) == !opts.trimTrailingWhitespace
    ensures (FinalInserted in warnings) == !opts.insertFinalNewline
    ensures (FinalTrimmed in warnings) == !opts.trimFinalNewlines
    ensures |warnings| == Count(opts.insertSpaces) + Count(!opts.trimTrailingWhitespace)
      + Count(!opts.insertFinalNewline) + Count(!opts.trimFinalNewlines)
    ensures opts == FormattingOptions(0, false, false, false, false) ==> |warnings| == 3
    ensures forall j, l :: 0 <= j < l < |warnings| ==> Rank(warnings[j]) < Rank(warnings[l])
  {
    WarningsDistinct();
    warnings := [];
    if opts.insertSpaces {
      warnings := warnings + [OnlyTabs];
    }
    if !opts.trimTrailingWhitespace {
      warnings := warnings + [TrailingTrimmed];
    }
    if !opts.insertFinalNewline {
      warnings := warnings + [FinalInserted];
    }
    if !opts.trimFinalNewlines {
      warnings := warnings + [FinalTrimmed];
    }
  }

  /** The position of a warning in the order the checks run. */
  function Rank(w: string): nat {
    if w == OnlyTabs then 0
    else if w == TrailingTrimmed then 1
    else if w == FinalInserted then 2
    else 3
  }

  /** The four warnings are different texts, so each has its own rank. */
  lemma WarningsDistinct()
    ensures Rank(OnlyTabs) == 0 && Rank(TrailingTrimmed) == 1 && Rank(FinalInserted) == 2 && Rank(FinalTrimmed) == 3
  {
    assert OnlyTabs[9] == 'o' && TrailingTrimmed[9] == 't' && FinalInserted[9] == 'f' && FinalTrimmed[9] == 'f';
    assert FinalInserted[22] == ' ' && FinalTrimmed[22] == 's';
  }
}
