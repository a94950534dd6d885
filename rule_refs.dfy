/**
 * The completion provider that offers rules of imported packages
 * (internal/lsp/completions/providers/rulerefs.go): on a line that looks
 * like a rule body, the rules and functions other files define under a
 * package this file imports, except "private" ones, each labelled by its
 * package and rule name.
 */
module RuleRefs {
  import opened Wrappers
  import opened GoStrings
  import opened LspTypes
  import opened CompletionUtils
  import BuiltinsProvider
  import Utf8

  /**
   * The line asks for rule refs: it holds ` if `, ` contains `, ` else ` or
   * `= `, or starts with two spaces.
   */
  predicate RuleRefsContext(line: string) {
    || Contains(line, " if ")
    || Contains(line, " contains ")
    || Contains(line, " else ")
    || Contains(line, "= ")
    || HasPrefix(line, "  ")
  }

  /** A ref worth offering: a rule or function, not private by name, under one of the imported paths. */
  predicate FromImport(key: string, ref: Ref, imports: seq<string>) {
    && ref.kind != PackageRef
    && !Contains(ref.labelText, "._")
    && exists i :: 0 <= i < |imports| && HasPrefix(key, imports[i])
  }

  /** The item kind and detail shown for each kind of ref. */
  function KindAndDetail(kind: RefKind): (r: (ItemKind, string))
    ensures kind == ConstantRuleRef <==> r == (ConstantKind, "Constant Rule")
    ensures kind == FunctionRef <==> r == (FunctionKind, "Function")
    ensures kind != ConstantRuleRef && kind != FunctionRef <==> r == (VariableKind, "Rule")
  {
    match kind
    case ConstantRuleRef => (ConstantKind, "Constant Rule")
    case FunctionRef => (FunctionKind, "Function")
    case _ => (VariableKind, "Rule")
  }

  /**
   * labelToPackageAndRule: the last two dot-separated parts of a label with
   * at least three, the label itself otherwise.
   */
  function LabelToPackageAndRule(refLabel: string): string {
    var parts := Split(refLabel, '.');
    if |parts| < 3 then refLabel else parts[|parts| - 2] + "." + parts[|parts| - 1]
  }

  /**
   * The shortened label is what follows the last dot but one: a suffix of
   * the label holding exactly one dot; a label with fewer than two dots is
   * kept whole.
   */
  lemma PackageAndRuleIsSuffix(refLabel: string)
    ensures HasSuffix(refLabel, LabelToPackageAndRule(refLabel))
    ensures CountChar(refLabel, '.') < 2 <==> LabelToPackageAndRule(refLabel) == refLabel
    ensures CountChar(refLabel, '.') >= 2 ==> CountChar(LabelToPackageAndRule(refLabel), '.') == 1
  {
    var parts := Split(refLabel, '.');
    var n := |parts|;
    SplitPieces(refLabel, '.');
    if n >= 3 {
      var r := parts[n - 2] + "." + parts[n - 1];
      JoinSplit(refLabel, '.');
      assert parts == parts[..n - 2] + parts[n - 2..];
      JoinAppend(parts[..n - 2], parts[n - 2..], ".");
      assert Join(parts[n - 2..], ".") == r by {
        assert parts[n - 2..][1..] == [parts[n - 1]];
      }
      assert refLabel == (Join(parts[..n - 2], ".") + ".") + r;
      assert refLabel[|refLabel| - |r|..] == r;
      CountZeroIffAbsent(parts[n - 2], '.');
      CountZeroIffAbsent(parts[n - 1], '.');
      CountCharAppend(parts[n - 2] + ".", parts[n - 1], '.');
      CountCharAppend(parts[n - 2], ".", '.');
      assert CountChar(r, '.') == 1;
      assert |r| < |refLabel| by {
        assert CountChar(refLabel, '.') == n - 1;
      }
    }
  }

  /** The item for a rule ref: it replaces the last space-separated word, up to the end of the line, with the short label. */
  function RuleItem(ref: Ref, line: nat, start: nat, lineLength: nat): (r: CompletionItem)
    ensures r.labelText == LabelToPackageAndRule(ref.labelText)
    ensures (r.kind, r.detail) == KindAndDetail(ref.kind)
    ensures r.documentation == Some(ref.description)
    ensures r.textEdit.Some? && r.textEdit.value.newText == r.labelText
  {
    var (kind, detail) := KindAndDetail(ref.kind);
    var short := LabelToPackageAndRule(ref.labelText);
    CompletionItem(short, kind, detail, Some(ref.description),
      Some(TextEdit(Range(Position(line, start), Position(line, lineLength)), short)), false, None)
  }

  /** `item` offers the ref `key` names in some file other than `uri`, a ref from an imported package. */
  ghost predicate OfferedAs(allRefs: map<string, map<string, Ref>>, uri: string, paths: seq<string>, key: string,
                            item: CompletionItem, line: nat, start: nat, lineLength: nat) {
    exists file :: (file in allRefs && file != uri && key in allRefs[file]
      && FromImport(key, allRefs[file][key], paths)
      && item == RuleItem(allRefs[file][key], line, start, lineLength))
  }

  /** Every offerable ref of the other files, once each, in map order. */
  method Offer(allRefs: map<string, map<string, Ref>>, uri: string, paths: seq<string>, line: nat, start: nat, lineLength: nat)
    returns (items: seq<CompletionItem>, ghost keys: seq<string>)
    ensures |items| == |keys|
    ensures forall i, j :: 0 <= i < j < |keys| ==> keys[i] != keys[j]
    ensures forall file, key ::
      (file in allRefs && file != uri && key in allRefs[file] && FromImport(key, allRefs[file][key], paths)) ==> key in keys
    ensures forall i :: 0 <= i < |keys| ==> OfferedAs(allRefs, uri, paths, keys[i], items[i], line, start, lineLength)
  {
    var found := FilterOtherFiles(allRefs, uri, (key, ref) => FromImport(key, ref, paths));
    var order := RangeOrder(found.Keys);
    items := seq(|order|, i requires 0 <= i < |order| => RuleItem(found[order[i]], line, start, lineLength));
    keys := order;
    forall i | 0 <= i < |keys|
      ensures OfferedAs(allRefs, uri, paths, keys[i], items[i], line, start, lineLength)
    {
      var key := keys[i];
      assert key in found;
      var file :| file in allRefs && file != uri && key in allRefs[file] && allRefs[file][key] == found[key];
      assert FromImport(key, allRefs[file][key], paths);
    }
  }

  /**
   * RuleFromImportedPackageRefs.Run: nothing on an empty line or past the
   * end of the file; no answer (nil) outside a rule body or without a
   * parsed module; otherwise one item per ref from another file under an
   * imported package, in map order, and every such ref is offered.  The
   * edit runs from `len(word)` bytes before the cursor, never before the
   * line's start, to the line's length in bytes.
   */
  method Run(files: map<string, string>, allRefs: map<string, map<string, Ref>>, imports: Option<seq<string>>,
             uri: string, pos: Position)
    returns (r: Option<seq<CompletionItem>>, ghost keys: seq<string>)
    ensures var (lines, line) := CompletionLineHelper(files, uri, pos.line);
      && (|lines| < 1 || line == "" ==> r == Some([]))
      && (|lines| >= 1 && line != "" && (!RuleRefsContext(line) || imports.None?) ==> r == None)
    ensures r.Some? ==> |r.value| == |keys| && forall i, j :: 0 <= i < j < |keys| ==> keys[i] != keys[j]
    ensures var (lines, line) := CompletionLineHelper(files, uri, pos.line);
      |lines| >= 1 && line != "" && RuleRefsContext(line) && imports.Some? ==>
        && r.Some?
        && (forall file, key ::
              (file in allRefs && file != uri && key in allRefs[file] && FromImport(key, allRefs[file][key], imports.value)) ==> key in keys)
        && (forall i :: 0 <= i < |keys| ==>
              OfferedAs(allRefs, uri, imports.value, keys[i], r.value[i], pos.line,
                        EditStart(pos.character, LastSpaceWord(line)), Utf8.ByteLen(line)))
  {
    keys := [];
    var (lines, line) := CompletionLineHelper(files, uri, pos.line);
    if |lines| < 1 || line == "" {
      return Some([]), keys;
    }
    if !RuleRefsContext(line) || imports.None? {
      return None, keys;
    }
    var items;
    items, keys := Offer(allRefs, uri, imports.value, pos.line, EditStart(pos.character, LastSpaceWord(line)), Utf8.ByteLen(line));
    r := Some(items);
  }

  /**
   * As written, the edit starts `len(lastWord)` bytes before the cursor in
   * `uint`: on a rule-body line `  ` + word, such as `  count` with the
   * cursor at column 4, inside the word, the start wraps to just below
   * 2^64, past the end of the line.
   */
  lemma AsWrittenStartWraps(word: string, pos: Position)
    requires ' ' !in word
    requires pos.character < Utf8.ByteLen(word) < MaxUint / 4
    ensures RuleRefsContext("  " + word) && LastSpaceWord("  " + word) == word
    ensures EditStartAsWritten(pos.character, LastSpaceWord("  " + word)) > Utf8.ByteLen("  " + word)
    ensures EditStart(pos.character, LastSpaceWord("  " + word)) == 0
  {
    var line := "  " + word;
    assert HasPrefix(line, "  ");
    assert line[1] == ' ' && line[2..] == word;
    SplitLastPiece(line, ' ', 1);
    Utf8.EncodeAppend("  ", word);
    EditStartWraps(pos.character, word);
  }

  /** Every line the rule refs are offered on is one the built-ins are offered on too. */
  lemma ContextWithinRuleBody(line: string)
    requires RuleRefsContext(line)
    ensures BuiltinsProvider.InRuleBody(line)
  {
  }
}
