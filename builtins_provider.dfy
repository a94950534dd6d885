/**
 * The completion provider that offers built-in functions inside rule
 * bodies (internal/lsp/completions/providers/builtins.go): on a line that
 * looks like a rule body and is not a default rule, every built-in that is
 * called by name, not deprecated, and started by the last word typed.
 */
module BuiltinsProvider {
  import opened Wrappers
  import opened GoStrings
  import opened LspTypes
  import opened CompletionUtils
  import Utf8

  /**
   * A built-in function as the capabilities describe it: its name, its
   * infix operator ("" when it has none), whether it is deprecated, and the
   * hover text made for it.
   */
  datatype Builtin = Builtin(name: string, infix: string, deprecated: bool, hover: string)

  /** The error when the provider runs without options. */
  const MissingOptions: string := "builtins provider requires options"

  /**
   * inRuleBody: the line holds ` if `, ` contains `, ` else ` or `= `, or
   * starts with white space.
   */
  predicate InRuleBody(line: string) {
    || Contains(line, " if ")
    || Contains(line, " contains ")
    || Contains(line, " else ")
    || Contains(line, "= ")
    || StartsWithSpace(line)
  }

  /** A built-in worth offering after `lastWord`: called by name, not deprecated, and started by the word. */
  predicate Offerable(b: Builtin, lastWord: string) {
    b.infix == "" && !b.deprecated && HasPrefix(b.name, lastWord)
  }

  /** The item for a built-in: it replaces the last word, up to the cursor, with the name. */
  function BuiltinItem(b: Builtin, line: nat, start: nat, character: nat): (r: CompletionItem)
    ensures r.labelText == b.name && r.kind == FunctionKind && r.documentation == Some(b.hover)
    ensures r.textEdit.Some? && r.textEdit.value.newText == b.name
  {
    CompletionItem(b.name, FunctionKind, "built-in function", Some(b.hover),
      Some(TextEdit(Range(Position(line, start), Position(line, character)), b.name)), false, None)
  }

  /** The word the cursor completes: the last word of the trimmed line. */
  function TypedWord(line: string): string {
    LastWord(SplitWhiteSpace(TrimSpace(line)))
  }

  /** The line asks for built-ins: a rule body that is not a default rule. */
  predicate WantsBuiltins(line: string) {
    line != "" && InRuleBody(line) && !HasPrefix(TrimSpace(line), "default ")
  }

  /**
   * BuiltIns.Run: an error without options; nothing past the end of the
   * file or on a line that is not a rule body or is a default rule;
   * otherwise one item per offerable built-in, in map order, and every
   * offerable built-in gets one.  The edit starts `len(word)` bytes before
   * the cursor, but never before the line's start.
   */
  method Run(files: map<string, string>, uri: string, pos: Position, builtins: Option<map<string, Builtin>>)
    returns (r: Result<seq<CompletionItem>>, ghost chosen: seq<string>)
    ensures builtins.None? <==> r == Err(MissingOptions)
    ensures r.Ok? ==> |r.value| == |chosen|
    ensures r.Ok? ==> forall i, j :: 0 <= i < j < |chosen| ==> chosen[i] != chosen[j]
    ensures var (lines, line) := CompletionLineHelper(files, uri, pos.line);
      builtins.Some? && (|lines| < 1 || !WantsBuiltins(line)) ==> r == Ok([])
    ensures var (lines, line) := CompletionLineHelper(files, uri, pos.line);
      var word := TypedWord(line);
      builtins.Some? && |lines| >= 1 && WantsBuiltins(line) ==>
        && r.Ok?
        && (forall k :: k in chosen <==> k in builtins.value && Offerable(builtins.value[k], word))
        && (forall i :: 0 <= i < |chosen| ==>
              (chosen[i] in builtins.value
               && r.value[i] == BuiltinItem(builtins.value[chosen[i]], pos.line, EditStart(pos.character, word), pos.character)))
  {
    chosen := [];
    if builtins.None? {
      return Err(MissingOptions), chosen;
    }
    var (lines, line) := CompletionLineHelper(files, uri, pos.line);
    if |lines| < 1 || line == "" || !InRuleBody(line) {
      return Ok([]), chosen;
    }
    if HasPrefix(TrimSpace(line), "default ") {
      return Ok([]), chosen;
    }
    var word := TypedWord(line);
    var start := EditStart(pos.character, word);
    var items;
    items, chosen := Offer(builtins.value, word, pos.line, start, pos.character);
    r := Ok(items);
  }

  /**
   * The loop of BuiltIns.Run: the built-ins are visited in map order and
   * every offerable one gets an item.
   */
  method Offer(all: map<string, Builtin>, word: string, line: nat, start: nat, character: nat)
    returns (items: seq<CompletionItem>, ghost chosen: seq<string>)
    ensures |items| == |chosen|
    ensures forall k :: k in chosen <==> k in all && Offerable(all[k], word)
    ensures forall a, b :: 0 <= a < b < |chosen| ==> chosen[a] != chosen[b]
    ensures forall a :: 0 <= a < |chosen| ==>
      (chosen[a] in all && items[a] == BuiltinItem(all[chosen[a]], line, start, character))
  {
    var order := RangeOrder(all.Keys);
    items := [];
    chosen := [];
    for i := 0 to |order|
      invariant |items| == |chosen|
      invariant forall k :: k in chosen <==> k in order[..i] && Offerable(all[k], word)
      invariant forall a, b :: 0 <= a < b < |chosen| ==> chosen[a] != chosen[b]
      invariant forall a :: 0 <= a < |chosen| ==>
        (chosen[a] in all && items[a] == BuiltinItem(all[chosen[a]], line, start, character))
    {
      var b := all[order[i]];
      assert order[..i + 1] == order[..i] + [order[i]];
      if Offerable(b, word) {
        assert order[i] !in order[..i];
        items := items + [BuiltinItem(b, line, start, character)];
        chosen := chosen + [order[i]];
      }
    }
    assert order[..|order|] == order;
  }

  /**
   * As written, the edit starts `len(lastWord)` bytes before the cursor in
   * `uint`: on a rule-body line `  ` + word, such as `  count` with the
   * cursor at column 4, inside the word, the start wraps to just below
   * 2^64, past the end of the line.
   */
  lemma AsWrittenStartWraps(word: string, pos: Position)
    requires |word| > 0 && forall k :: 0 <= k < |word| ==> !IsSpace(word[k])
    requires !HasPrefix(word, "default ")
    requires pos.character < Utf8.ByteLen(word) < MaxUint / 4
    ensures WantsBuiltins("  " + word) && TypedWord("  " + word) == word
    ensures EditStartAsWritten(pos.character, TypedWord("  " + word)) > Utf8.ByteLen("  " + word)
    ensures EditStart(pos.character, TypedWord("  " + word)) == 0
  {
    var line := "  " + word;
    assert StartsWithSpace(line);
    assert TrimSpace(line) == word by {
      assert line[1..] == " " + word && line[2..] == word;
      assert TrimLeftSpace(line) == word;
      TrimSpaceNoop(word);
    }
    assert IsWord(word);
    SplitWord(word);
    Utf8.EncodeAppend("  ", word);
    EditStartWraps(pos.character, word);
  }

  /** A line without spaces, tabs, line feeds, form feeds or carriage returns is never a rule body. */
  lemma WordIsNoRuleBody(line: string)
    requires IsWord(line)
    ensures !InRuleBody(line)
  {
    forall sub: string | sub == " if " || sub == " contains " || sub == " else " || sub == "= "
      ensures !Contains(line, sub)
    {
      NoSpaceNoContains(line, sub);
    }
  }

  /** Text without white space holds no text ending in a space. */
  lemma NoSpaceNoContains(line: string, sub: string)
    requires IsWord(line) && |sub| > 0 && sub[|sub| - 1] == ' '
    ensures !Contains(line, sub)
  {
    forall j | 0 <= j <= |line|
      ensures !HasPrefix(line[j..], sub)
    {
      if |sub| <= |line| - j {
        assert line[j..][..|sub|][|sub| - 1] == line[j + |sub| - 1];
        assert !IsRegexpSpace(line[j + |sub| - 1]);
      }
    }
    IndexSpec(line, sub);
  }
}
