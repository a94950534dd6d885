/**
 * The completion provider that offers the keywords of a rule head
 * (internal/lsp/completions/providers/ruleheadkeyword.go): after the name
 * of a new rule it offers `if`, `contains` and `:=`, and once a word after
 * the name has been started, the one keyword that word begins, as the only
 * completion to show.
 */
module RuleHeadKeyword {
  import opened Wrappers
  import opened GoStrings
  import opened LspTypes
  import opened CompletionUtils
  import opened LspRego
  import Utf8

  const If: string := "if"
  const ContainsKeyword: string := "contains"
  const Assign: string := ":="

  /** The three keywords of a rule head. */
  function AllKeywords(): set<string> {
    {If, ContainsKeyword, Assign}
  }

  /**
   * The keywords to offer for the words of a line that does not start with
   * white space, and whether they are mandatory: none for one word or after
   * `package` or `import`; all three, optional, when the line ends in white
   * space; otherwise the one keyword the last word starts, by the
   * precedence of the source's switch.
   */
  function KeywordsForWords(words: seq<string>): (r: (set<string>, bool))
    requires |words| >= 1
    ensures r.0 <= AllKeywords()
    ensures r.1 ==> |r.0| <= 1
    ensures !r.1 ==> r.0 == {} || r.0 == AllKeywords()
    ensures |words| < 2 ==> r == ({}, false)
    ensures r.1 <==> |words| >= 2 && TrimSpace(words[0]) != "package" && TrimSpace(words[0]) != "import" && LastWord(words) != ""
  {
    if |words| < 2 then ({}, false)
    else if TrimSpace(words[0]) == "package" || TrimSpace(words[0]) == "import" then ({}, false)
    else
      var last := words[|words| - 1];
      if last == "" then (AllKeywords(), false)
      else if |words| == 2 && HasPrefix(Assign, last) then ({Assign}, true)
      else if |words| == 2 && HasPrefix(ContainsKeyword, last) then ({ContainsKeyword}, true)
      else if |words| == 4 && words[1] == ContainsKeyword then ({If}, true)
      else if |words| == 2 && HasPrefix(If, last) then ({If}, true)
      else ({}, true)
  }

  /** The keywords to offer on a line: none in a rule body, otherwise as its words decide. */
  function KeywordChoice(line: string): (r: (set<string>, bool))
    ensures r.0 <= AllKeywords()
    ensures StartsWithSpace(line) ==> r == ({}, false)
  {
    if StartsWithSpace(line) then ({}, false)
    else KeywordsForWords(SplitWhiteSpace(line))
  }

  /** The item offering keyword `k`: it replaces the text from `start` to the end of the line with `k` and a space. */
  function KeywordItem(k: string, line: nat, start: nat, lineLength: nat, mandatory: bool): (r: CompletionItem)
    ensures r.labelText == k && r.kind == KeywordKind && r.mandatory == mandatory
    ensures r.textEdit.Some? && r.textEdit.value.newText == k + " "
  {
    CompletionItem(k, KeywordKind, "", None,
      Some(TextEdit(Range(Position(line, start), Position(line, lineLength)), k + " ")),
      mandatory, None)
  }

  /** The last word of the line, the one the edit replaces. */
  function LastWordOf(line: string): string {
    LastWord(SplitWhiteSpace(line))
  }

  /**
   * RuleHeadKeyword.Run: one item per chosen keyword, in the order the
   * keyword map yields them, each replacing the last word up to the end of
   * the line; columns count bytes, as Go's `len` does.
   */
  method Run(files: map<string, string>, uri: string, pos: Position) returns (items: seq<CompletionItem>)
    ensures var line := CompletionLineHelper(files, uri, pos.line).1;
      var choice := KeywordChoice(line);
      && |items| == |choice.0|
      && (forall k :: k in choice.0 <==> exists i :: 0 <= i < |items| && items[i].labelText == k)
      && (forall i, j :: 0 <= i < j < |items| ==> items[i].labelText != items[j].labelText)
      && (forall i :: 0 <= i < |items| ==>
            items[i] == KeywordItem(items[i].labelText, pos.line, EditStart(pos.character, LastWordOf(line)), Utf8.ByteLen(line), choice.1))
  {
    var line := CompletionLineHelper(files, uri, pos.line).1;
    var choice := KeywordChoice(line);
    var start := EditStart(pos.character, LastWordOf(line));
    items := KeywordItems(choice.0, pos.line, start, Utf8.ByteLen(line), choice.1);
  }

  /** The loop building the items: one per keyword, in map order. */
  method KeywordItems(keywords: set<string>, line: nat, start: nat, lineLength: nat, mandatory: bool)
    returns (items: seq<CompletionItem>)
    ensures |items| == |keywords|
    ensures forall k :: k in keywords <==> exists i :: 0 <= i < |items| && items[i].labelText == k
    ensures forall i, j :: 0 <= i < j < |items| ==> items[i].labelText != items[j].labelText
    ensures forall i :: 0 <= i < |items| ==> items[i] == KeywordItem(items[i].labelText, line, start, lineLength, mandatory)
  {
    var order := RangeOrder(keywords);
    items := seq(|order|, i requires 0 <= i < |order| => KeywordItem(order[i], line, start, lineLength, mandatory));
    assert forall i :: 0 <= i < |items| ==> items[i].labelText == order[i];
  }

  /** A rule name that is neither `package` nor `import` and has no white space of any kind. */
  predicate RuleName(w: string) {
    |w| > 0 && w != "package" && w != "import" && forall k :: 0 <= k < |w| ==> !IsSpace(w[k])
  }

  lemma RuleNameIsWord(w: string)
    requires RuleName(w)
    ensures IsWord(w) && TrimSpace(w) == w && !StartsWithSpace(w)
  {
    TrimSpaceNoop(w);
  }

  /** After a rule name and a space, all three keywords are offered, none mandatory. */
  lemma AfterRuleName(w: string)
    requires RuleName(w)
    ensures KeywordChoice(w + " ") == (AllKeywords(), false)
  {
    RuleNameIsWord(w);
    SplitTwoWords(w, "");
    assert w + " " + "" == w + " ";
  }

  /**
   * With a word started after the rule name, the one keyword it begins is
   * mandatory, `:=` before `contains` before `if`, and nothing otherwise.
   */
  lemma TypedAfterRuleName(w: string, p: string)
    requires RuleName(w) && IsWord(p) && |p| > 0
    ensures KeywordChoice(w + " " + p) ==
      (if HasPrefix(Assign, p) then {Assign}
       else if HasPrefix(ContainsKeyword, p) then {ContainsKeyword}
       else if HasPrefix(If, p) then {If}
       else {}, true)
  {
    RuleNameIsWord(w);
    SplitTwoWords(w, p);
  }

  /** After `name contains value`, a started word is completed to `if` alone. */
  lemma TypedAfterContains(w: string, x: string, p: string)
    requires RuleName(w) && IsWord(x) && |x| > 0 && IsWord(p) && |p| > 0
    ensures KeywordChoice(Join([w, ContainsKeyword, x, p], " ")) == ({If}, true)
  {
    RuleNameIsWord(w);
    var words := [w, ContainsKeyword, x, p];
    assert IsWord(ContainsKeyword);
    SplitJoinedWords(words);
    assert Join(words, " ")[0] == w[0];
  }

  /** A line indented as a rule body gets no keywords. */
  lemma NothingInRuleBody(line: string)
    requires StartsWithSpace(line)
    ensures KeywordChoice(line).0 == {}
  {
  }

  /** A line with a started word after the rule name makes the edit replace that word from its first byte. */
  lemma EditReplacesTypedWord(w: string, p: string, pos: Position)
    requires RuleName(w) && IsWord(p) && |p| > 0
    requires pos.character == Utf8.ByteLen(w) + 1 + Utf8.ByteLen(p)
    ensures EditStart(pos.character, LastWordOf(w + " " + p)) == Utf8.ByteLen(w) + 1
  {
    SplitTwoWords(w, p);
  }

  /**
   * As written, the edit of a mandatory keyword starts `len(lastWord)`
   * before the cursor in `uint`: with the cursor inside the rule name the
   * start wraps to just below 2^64, far past the end of the line.
   */
  lemma AsWrittenStartPastLine(w: string, p: string, pos: Position)
    requires RuleName(w) && IsWord(p) && |p| > 0 && HasPrefix(ContainsKeyword, p)
    requires pos.character < Utf8.ByteLen(p) && Utf8.ByteLen(w + " " + p) < MaxInt64
    ensures KeywordChoice(w + " " + p) == ({ContainsKeyword}, true)
    ensures EditStartAsWritten(pos.character, LastWordOf(w + " " + p)) > Utf8.ByteLen(w + " " + p)
    ensures EditStart(pos.character, LastWordOf(w + " " + p)) == 0
  {
    TypedAfterRuleName(w, p);
    assert !HasPrefix(Assign, p) by { assert p[0] == ContainsKeyword[0]; }
    SplitTwoWords(w, p);
    assert LastWordOf(w + " " + p) == p;
    Utf8.EncodeAppend(w + " ", p);
    EditStartWraps(pos.character, p);
  }

  /**
   * The input of the finding: on `allow con` with the cursor at column 2,
   * inside the rule name, `contains` is the mandatory keyword and the edit
   * as written starts at 2^64 - 1.
   */
  lemma AllowConExample(pos: Position)
    requires pos.character == 2
    ensures KeywordChoice("allow con") == ({ContainsKeyword}, true)
    ensures EditStartAsWritten(pos.character, LastWordOf("allow con")) == MaxUint - 1
  {
    AllowConWords();
    ConByteLen();
    EditStartWraps(pos.character, "con");
  }

  /** The words of `allow con`: contains is chosen, and `con` is the word the edit replaces. */
  lemma AllowConWords()
    ensures KeywordChoice("allow con") == ({ContainsKeyword}, true)
    ensures LastWordOf("allow con") == "con"
  {
    var w, p := "allow", "con";
    assert w + " " + p == "allow con";
    assert RuleName(w) && IsWord(w) && IsWord(p);
    assert !HasPrefix(Assign, p) && HasPrefix(ContainsKeyword, p);
    TypedAfterRuleName(w, p);
    assert KeywordChoice(w + " " + p) == ({ContainsKeyword}, true);
    SplitTwoWords(w, p);
    assert LastWordOf(w + " " + p) == p;
  }

  lemma ConByteLen()
    ensures Utf8.ByteLen("con") == 3
  {
    var p := "con";
    assert |Utf8.EncodeRune('c')| == 1 && |Utf8.EncodeRune('o')| == 1 && |Utf8.EncodeRune('n')| == 1;
    assert Utf8.Encode(p[2..]) == Utf8.EncodeRune('n') + Utf8.Encode([]);
    assert Utf8.Encode(p[1..]) == Utf8.EncodeRune('o') + Utf8.Encode(p[2..]);
    assert Utf8.Encode(p) == Utf8.EncodeRune('c') + Utf8.Encode(p[1..]);
  }
}
