/**
 * The document symbols of internal/lsp/documentsymbol.go: one symbol for the
 * package spanning the whole file, holding one symbol per rule name; rules
 * sharing a name become one symbol whose children "#1", "#2", … are the
 * individual rules.  Workspace symbols flatten that tree, leaving out the
 * numbered children.
 */
module DocumentSymbols {
  import opened Wrappers
  import opened GoStrings
  import opened LspTypes
  import opened RuleDetail
  import Utf8
  import RoastLocation

  datatype SymbolKind = PackageSymbol | FunctionSymbol | VariableSymbol | ConstantSymbol

  /** A symbol's children: a nil pointer, or a list of symbols. */
  datatype Children = NoChildren | Children(symbols: seq<DocumentSymbol>)

  /** types.DocumentSymbol; the detail is a pointer that may be nil. */
  datatype DocumentSymbol = DocumentSymbol(
    name: string,
    kind: SymbolKind,
    range: Range,
    selectionRange: Range,
    detail: Option<string>,
    children: Children)

  /** types.WorkspaceSymbol: a symbol with the document it is in. */
  datatype WorkspaceSymbol = WorkspaceSymbol(name: string, kind: SymbolKind, uri: string, range: Range)

  /** A location's text; a nil text splits like the empty one. */
  function TextOf(loc: RoastLocation.Location): seq<Utf8.Byte> {
    if loc.text.Some? then loc.text.value else []
  }

  /** The number of newlines in a text and the byte length of its last line. */
  function Newlines(b: seq<Utf8.Byte>): nat {
    CountChar(RoastLocation.Chars(b), '\n')
  }

  function LastLineLength(b: seq<Utf8.Byte>): int {
    |b| - LastIndexChar(RoastLocation.Chars(b), '\n') - 1
  }

  /**
   * locationToRange: the zero-based range of a location, from its start to
   * the line after its text's last newline, at the end of that last line.
   * The end's character counts from the start of the last line, also when
   * the text is a single line.
   */
  function LocationToRange(loc: RoastLocation.Location): Range {
    var lines := Split(RoastLocation.Chars(TextOf(loc)), '\n');
    var endLine := if |lines| == 1 then Uint(loc.row - 1) else Uint(Uint(loc.row - 1) + Uint(|lines| - 1));
    Range(Position(Uint(loc.row - 1), Uint(loc.col - 1)), Position(endLine, |lines[|lines| - 1]|))
  }

  /**
   * The range starts at the location's row and column less one, as unsigned
   * numbers, and ends after the last newline of the text, on the line that
   * many lines further down.
   */
  lemma LocationToRangeShape(loc: RoastLocation.Location)
    ensures var r := LocationToRange(loc);
      && r.start == Position(Uint(loc.row - 1), Uint(loc.col - 1))
      && r.end.character == LastLineLength(TextOf(loc))
      && (1 <= loc.row && loc.row + Newlines(TextOf(loc)) <= MaxUint ==>
            r.end.line == loc.row - 1 + Newlines(TextOf(loc)))
  {
    RoastLocation.LinesOf(RoastLocation.Chars(TextOf(loc)));
  }

  /**
   * For a location starting in column 1, or spanning several lines, the range
   * is the RoAST encoding's start and end moved to zero-based positions.
   */
  lemma LocationToRangeAgrees(loc: RoastLocation.Location)
    requires 1 <= loc.row && 1 <= loc.col < MaxUint && loc.row + Newlines(TextOf(loc)) <= MaxUint
    requires loc.col == 1 || Newlines(TextOf(loc)) > 0
    ensures var e := RoastLocation.CodecEnd(loc);
      LocationToRange(loc) == Range(Position(loc.row - 1, loc.col - 1), Position(e.row - 1, e.col - 1))
  {
    var s := RoastLocation.Chars(TextOf(loc));
    var e := RoastLocation.CodecEnd(loc);
    var r := LocationToRange(loc);
    assert s == RoastLocation.Chars(if loc.text.Some? then loc.text.value else []);
    assert r.start == Position(loc.row - 1, loc.col - 1) by {
      LocationToRangeShape(loc);
    }
    assert r.end.line == e.row - 1 by {
      LocationToRangeShape(loc);
      assert Newlines(TextOf(loc)) == CountChar(s, '\n');
      if loc.text.None? {
        assert s == "";
      }
    }
    assert r.end.character == e.col - 1 by {
      LocationToRangeShape(loc);
      RoastLocation.LinesOf(s);
      if loc.text.None? {
        assert s == "";
      }
    }
  }

  /**
   * The package symbol's range: from the start of the file to the end of its
   * last line.
   */
  function PackageRange(contents: seq<Utf8.Byte>): (r: Range)
    ensures r.start == Position(0, 0)
    ensures r.end == Position(Uint(Newlines(contents)), LastLineLength(contents))
  {
    var lines := Split(RoastLocation.Chars(contents), '\n');
    RoastLocation.LinesOf(RoastLocation.Chars(contents));
    Range(Position(0, 0), Position(Uint(|lines| - 1), |lines[|lines| - 1]|))
  }

  /**
   * One term of a reference as refToString writes it, the term's text
   * without surrounding quotes: the first term bare, a later ground term
   * after a dot, a later variable term between brackets.
   */
  function Segment(part: RefPart, i: nat): string {
    var t := TrimChar(part.text, '"');
    if part.ground then (if i > 0 then "." + t else t)
    else if i == 0 then t
    else "[" + t + "]"
  }

  /** The text of the first `n` terms of a reference. */
  function RefStringUpTo(ref: seq<RefPart>, n: nat): string
    requires n <= |ref|
  {
    if n == 0 then "" else RefStringUpTo(ref, n - 1) + Segment(ref[n - 1], n - 1)
  }

  function RefString(ref: seq<RefPart>): string {
    RefStringUpTo(ref, |ref|)
  }

  /** refToString: writes the reference's terms one after the other. */
  method RefToString(ref: seq<RefPart>) returns (s: string)
    ensures s == RefString(ref)
  {
    s := "";
    for i := 0 to |ref|
      invariant s == RefStringUpTo(ref, i)
    {
      s := WriteSegment(s, ref[i], i);
    }
  }

  /** One iteration of refToString's loop. */
  method WriteSegment(s: string, part: RefPart, i: nat) returns (s': string)
    ensures s' == s + Segment(part, i)
  {
    s' := s;
    var t := TrimChar(part.text, '"');
    if part.ground {
      if i > 0 {
        s' := s' + ".";
      }
      s' := s' + t;
    } else {
      if i == 0 {
        s' := s' + t;
      } else {
        s' := s' + "[" + t + "]";
      }
    }
  }

  /** The terms' texts without their quotes. */
  function Unquoted(ref: seq<RefPart>): (r: seq<string>)
    ensures |r| == |ref|
    ensures forall k :: 0 <= k < |ref| ==> r[k] == TrimChar(ref[k].text, '"')
  {
    if |ref| == 0 then [] else Unquoted(ref[..|ref| - 1]) + [TrimChar(ref[|ref| - 1].text, '"')]
  }

  /**
   * A reference whose terms after the first are all ground is written as its
   * unquoted terms joined by dots.
   */
  lemma {:induction false} RefStringDotted(ref: seq<RefPart>, n: nat)
    requires 1 <= n <= |ref|
    requires forall k :: 1 <= k < n ==> ref[k].ground
    ensures RefStringUpTo(ref, n) == Join(Unquoted(ref[..n]), ".")
  {
    if n == 1 {
      assert RefStringUpTo(ref, 0) == "";
    } else {
      var u := Unquoted(ref[..n - 1]);
      var t := TrimChar(ref[n - 1].text, '"');
      assert RefStringUpTo(ref, n) == Join(u, ".") + ("." + t) by {
        RefStringDotted(ref, n - 1);
      }
      assert Unquoted(ref[..n]) == u + [t] by {
        assert ref[..n][..n - 1] == ref[..n - 1];
      }
      JoinSnoc(u, t, ".");
      ConcatAssoc(Join(u, "."), ".", t);
    }
  }

  /** `data.x` style references: the whole reference joined by dots. */
  lemma RefStringOfGround(ref: seq<RefPart>)
    requires |ref| >= 1
    requires forall k :: 1 <= k < |ref| ==> ref[k].ground
    ensures RefString(ref) == Join(Unquoted(ref), ".")
  {
    RefStringDotted(ref, |ref|);
    assert ref[..|ref|] == ref;
  }

  /** strings.Trim drops the quotes around a string term. */
  lemma TrimQuotes(t: string)
    requires '"' !in t
    ensures TrimChar("\"" + t + "\"", '"') == t
  {
    var q := "\"" + t + "\"";
    assert q[1..] == t + "\"";
    assert (t + "\"")[..|t|] == t;
    TrimCharNoop(t, '"');
  }

  /**
   * `a."b"[c]`, a variable, a string and a variable, is written "a.b[c]":
   * the string after a dot without its quotes, the variable in brackets.
   */
  lemma RefStringMixed(a: string, b: string, c: string)
    requires '"' !in a && '"' !in b && '"' !in c
    ensures RefString([RefPart(a, false), RefPart("\"" + b + "\"", true), RefPart(c, false)]) == a + "." + b + "[" + c + "]"
  {
    var ref := [RefPart(a, false), RefPart("\"" + b + "\"", true), RefPart(c, false)];
    assert Segment(ref[0], 0) == a by {
      TrimCharNoop(a, '"');
    }
    assert Segment(ref[1], 1) == "." + b by {
      TrimQuotes(b);
    }
    assert Segment(ref[2], 2) == "[" + c + "]" by {
      TrimCharNoop(c, '"');
    }
    assert RefStringUpTo(ref, 1) == a by {
      assert RefStringUpTo(ref, 0) == "";
      assert "" + a == a;
    }
    var x := a + "." + b;
    assert RefStringUpTo(ref, 2) == x by {
      ConcatAssoc(a, ".", b);
    }
    assert RefString(ref) == x + "[" + c + "]" by {
      ConcatAssoc(x, "[" + c, "]");
      ConcatAssoc(x, "[", c);
    }
  }

  /** The name a rule's symbol and its group go by. */
  function RuleName(rule: Rule): string {
    RefString(rule.head.ref)
  }

  /** The names of the rules, in order. */
  function RuleNames(rules: seq<Rule>): (r: seq<string>)
    ensures |r| == |rules|
    ensures forall k :: 0 <= k < |rules| ==> r[k] == RuleName(rules[k])
  {
    seq(|rules|, k requires 0 <= k < |rules| => RuleName(rules[k]))
  }

  /** The first `i` names, as a set. */
  function NamesBefore(names: seq<string>, i: nat): set<string>
    requires i <= |names|
  {
    if i == 0 then {} else NamesBefore(names, i - 1) + {names[i - 1]}
  }

  /** The rules among the first `i` whose name is `name`, in their order. */
  function NamedBefore(rules: seq<Rule>, names: seq<string>, name: string, i: nat): seq<Rule>
    requires |names| == |rules| && i <= |rules|
  {
    if i == 0 then []
    else NamedBefore(rules, names, name, i - 1) + if names[i - 1] == name then [rules[i - 1]] else []
  }

  /** A group holds exactly the rules that go by its name, and no more rules than there are. */
  lemma {:induction false} GroupMembers(rules: seq<Rule>, names: seq<string>, name: string, i: nat)
    requires |names| == |rules| && i <= |rules|
    ensures forall r :: r in NamedBefore(rules, names, name, i) <==> exists k :: 0 <= k < i && names[k] == name && rules[k] == r
    ensures |NamedBefore(rules, names, name, i)| <= i
  {
    if i > 0 {
      GroupMembers(rules, names, name, i - 1);
    }
  }

  /** A name has a non-empty group exactly when some rule goes by it. */
  lemma {:induction false} GroupNonEmpty(rules: seq<Rule>, names: seq<string>, name: string, i: nat)
    requires |names| == |rules| && i <= |rules|
    ensures |NamedBefore(rules, names, name, i)| > 0 <==> name in NamesBefore(names, i)
  {
    if i > 0 {
      GroupNonEmpty(rules, names, name, i - 1);
    }
  }

  /** Every rule of a group goes by the group's name. */
  lemma GroupNamed(rules: seq<Rule>, names: seq<string>, name: string)
    requires |names| == |rules| && forall k :: 0 <= k < |rules| ==> names[k] == RuleName(rules[k])
    ensures forall r :: r in NamedBefore(rules, names, name, |rules|) ==> RuleName(r) == name
  {
    GroupMembers(rules, names, name, |rules|);
  }

  /** Appending the next rule to the group of its name keeps the groups those of the rules so far. */
  lemma GroupStep(groups: map<string, seq<Rule>>, rules: seq<Rule>, names: seq<string>, i: nat)
    requires |names| == |rules| && i < |rules|
    requires groups.Keys == NamesBefore(names, i)
    requires forall n :: n in groups ==> groups[n] == NamedBefore(rules, names, n, i)
    ensures var g := groups[names[i] := (if names[i] in groups then groups[names[i]] else []) + [rules[i]]];
      && g.Keys == NamesBefore(names, i + 1)
      && forall n :: n in g ==> g[n] == NamedBefore(rules, names, n, i + 1)
  {
    var name := names[i];
    var g := groups[name := (if name in groups then groups[name] else []) + [rules[i]]];
    forall n | n in g
      ensures g[n] == NamedBefore(rules, names, n, i + 1)
    {
      if n == name && name !in groups {
        GroupNonEmpty(rules, names, n, i);
      }
    }
  }

  /** Each group non-empty and headed by a rule going by its name. */
  predicate GroupsHeaded(groups: map<string, seq<Rule>>) {
    forall n :: n in groups ==> |groups[n]| > 0 && RuleName(groups[n][0]) == n
  }

  /** Appending a rule to the group of its own name keeps every group headed by its name. */
  lemma HeadedStep(groups: map<string, seq<Rule>>, name: string, rule: Rule)
    requires GroupsHeaded(groups)
    requires RuleName(rule) == name
    ensures GroupsHeaded(groups[name := (if name in groups then groups[name] else []) + [rule]])
  {
    var g := groups[name := (if name in groups then groups[name] else []) + [rule]];
    forall n | n in g
      ensures |g[n]| > 0 && RuleName(g[n][0]) == n
    {
      if n == name && name in groups {
        assert g[n][0] == groups[n][0];
      }
    }
  }

  /** The groups of the first `i` rules, each headed by a rule going by its name. */
  ghost predicate GroupedBefore(groups: map<string, seq<Rule>>, rules: seq<Rule>, i: nat)
    requires i <= |rules|
  {
    var names := RuleNames(rules);
    && groups.Keys == NamesBefore(names, i)
    && (forall n :: n in groups ==> groups[n] == NamedBefore(rules, names, n, i))
    && GroupsHeaded(groups)
  }

  /** One turn of the grouping loop keeps GroupedBefore. */
  lemma GroupedStep(groups: map<string, seq<Rule>>, rules: seq<Rule>, i: nat, name: string, next: map<string, seq<Rule>>)
    requires i < |rules| && GroupedBefore(groups, rules, i)
    requires name == RuleName(rules[i])
    requires next == groups[name := (if name in groups then groups[name] else []) + [rules[i]]]
    ensures GroupedBefore(next, rules, i + 1)
  {
    var names := RuleNames(rules);
    assert names[i] == name;
    GroupStep(groups, rules, names, i);
    HeadedStep(groups, name, rules[i]);
  }

  /**
   * The grouping loop of documentSymbols: each rule is appended to the group
   * of its name.
   */
  method GroupRules(rules: seq<Rule>) returns (groups: map<string, seq<Rule>>)
    ensures groups.Keys == NamesBefore(RuleNames(rules), |rules|)
    ensures forall n :: n in groups ==> groups[n] == NamedBefore(rules, RuleNames(rules), n, |rules|)
    ensures GroupsHeaded(groups)
  {
    groups := map[];
    for i := 0 to |rules|
      invariant GroupedBefore(groups, rules, i)
    {
      var name := RefToString(rules[i].head.ref);
      var next := groups[name := (if name in groups then groups[name] else []) + [rules[i]]];
      GroupedStep(groups, rules, i, name, next);
      groups := next;
    }
  }

  /** A rule's description, absent when it is empty. */
  function Detail(rule: Rule, builtins: map<string, string>): (r: Option<string>)
    ensures r.None? <==> GetRuleDetail(rule, builtins) == ""
  {
    var d := GetRuleDetail(rule, builtins);
    if d == "" then None else Some(d)
  }

  /** The kind of a rule alone under its name. */
  function RuleKind(rule: Rule): SymbolKind {
    if IsConstant(rule) then ConstantSymbol
    else if rule.head.args.Some? then FunctionSymbol
    else VariableSymbol
  }

  /** fmt.Sprintf("#%d", i+1): the name of a group's `i`-th child. */
  function ChildName(i: nat): string {
    "#" + Itoa(i + 1)
  }

  /** Different children have different names. */
  lemma ChildNamesDistinct(i: nat, j: nat)
    requires i != j
    ensures ChildName(i) != ChildName(j)
  {
    if ChildName(i) == ChildName(j) {
      CancelPrefix("#", Itoa(i + 1), Itoa(j + 1));
      ItoaInjective(i + 1, j + 1);
    }
  }

  lemma CancelPrefix(p: string, a: string, b: string)
    requires p + a == p + b
    ensures a == b
  {
    assert a == (p + a)[|p|..];
    assert b == (p + b)[|p|..];
  }

  lemma ItoaInjective(a: int, b: int)
    requires Itoa(a) == Itoa(b)
    ensures a == b
  {
    AtoiItoa(a);
    AtoiItoa(b);
  }

  function ChildSymbol(rule: Rule, i: nat, kind: SymbolKind, builtins: map<string, string>): DocumentSymbol {
    var range := LocationToRange(rule.location);
    DocumentSymbol(ChildName(i), kind, range, range, Detail(rule, builtins), NoChildren)
  }

  function ChildrenOf(group: seq<Rule>, kind: SymbolKind, builtins: map<string, string>): (r: seq<DocumentSymbol>)
    ensures |r| == |group|
  {
    seq(|group|, k requires 0 <= k < |group| => ChildSymbol(group[k], k, kind, builtins))
  }

  /** The children loop: one numbered symbol per rule of the group, in order. */
  method ChildSymbols(group: seq<Rule>, kind: SymbolKind, builtins: map<string, string>) returns (children: seq<DocumentSymbol>)
    ensures children == ChildrenOf(group, kind, builtins)
  {
    ghost var all := ChildrenOf(group, kind, builtins);
    children := [];
    for i := 0 to |group|
      invariant children == all[..i]
    {
      var child := BuildChild(group[i], i, kind, builtins);
      TakeSnoc(all, i);
      children := children + [child];
    }
    assert all[..|group|] == all;
  }

  /** One iteration of the children loop. */
  method BuildChild(rule: Rule, i: nat, kind: SymbolKind, builtins: map<string, string>) returns (child: DocumentSymbol)
    ensures child == ChildSymbol(rule, i, kind, builtins)
  {
    var childRange := LocationToRange(rule.location);
    var detail := GetRuleDetail(rule, builtins);
    child := DocumentSymbol(ChildName(i), kind, childRange, childRange, if detail != "" then Some(detail) else None, NoChildren);
  }

  /**
   * The symbol of a group of rules sharing a name: a lone rule is a constant,
   * a function or a variable with its own range and description; a larger
   * group is a function or a variable (as its first rule), spans from the
   * first rule's start to the last rule's end, is described as the first rule
   * is, and holds one numbered child per rule.
   */
  function GroupSymbol(group: seq<Rule>, builtins: map<string, string>): DocumentSymbol
    requires |group| >= 1
  {
    if |group| == 1 then
      var range := LocationToRange(group[0].location);
      DocumentSymbol(RuleName(group[0]), RuleKind(group[0]), range, range, Detail(group[0], builtins), NoChildren)
    else
      var range := Range(LocationToRange(group[0].location).start, LocationToRange(group[|group| - 1].location).end);
      var kind := if group[0].head.args.Some? then FunctionSymbol else VariableSymbol;
      DocumentSymbol(RuleName(group[0]), kind, range, range, Detail(group[0], builtins), Children(ChildrenOf(group, kind, builtins)))
  }

  /** A group's symbol goes by the group's name and is described as its first rule. */
  lemma GroupSymbolNamed(group: seq<Rule>, builtins: map<string, string>)
    requires |group| >= 1
    ensures var r := GroupSymbol(group, builtins);
      && r.name == RuleName(group[0])
      && r.detail == Detail(group[0], builtins)
      && (r.children.NoChildren? <==> |group| == 1)
  {
  }

  /**
   * A lone rule keeps its own kind; a larger group is never a constant, and
   * is a function exactly when its first rule is one.
   */
  lemma GroupSymbolKind(group: seq<Rule>, builtins: map<string, string>)
    requires |group| >= 1
    ensures var r := GroupSymbol(group, builtins);
      && (|group| == 1 ==> r.kind == RuleKind(group[0]))
      && (|group| > 1 ==> r.kind != ConstantSymbol && (r.kind == FunctionSymbol <==> group[0].head.args.Some?))
  {
  }

  /** A group's symbol spans from its first rule's start to its last rule's end. */
  lemma GroupSymbolRange(group: seq<Rule>, builtins: map<string, string>)
    requires |group| >= 1
    ensures var r := GroupSymbol(group, builtins);
      && r.range == r.selectionRange
      && r.range.start == LocationToRange(group[0].location).start
      && r.range.end == LocationToRange(group[|group| - 1].location).end
      && (|group| == 1 ==> r.range == LocationToRange(group[0].location))
  {
  }

  /**
   * A larger group's children are its rules in order, named "#1", "#2", …,
   * with the group's kind and each rule's own range, and no children of
   * their own.
   */
  lemma GroupSymbolChildren(group: seq<Rule>, builtins: map<string, string>)
    requires |group| > 1
    ensures var r := GroupSymbol(group, builtins);
      && r.children.Children?
      && |r.children.symbols| == |group|
      && forall k :: 0 <= k < |group| ==>
           && r.children.symbols[k].name == ChildName(k)
           && r.children.symbols[k].kind == r.kind
           && r.children.symbols[k].range == LocationToRange(group[k].location)
           && r.children.symbols[k].children.NoChildren?
  {
  }

  /** One iteration of the loop over the groups. */
  method BuildGroupSymbol(group: seq<Rule>, builtins: map<string, string>) returns (sym: DocumentSymbol)
    requires |group| >= 1
    ensures sym == GroupSymbol(group, builtins)
  {
    var name := RefToString(group[0].head.ref);
    if |group| == 1 {
      var rule := group[0];
      var kind := VariableSymbol;
      if IsConstant(rule) {
        kind := ConstantSymbol;
      } else if rule.head.args.Some? {
        kind := FunctionSymbol;
      }
      var ruleRange := LocationToRange(rule.location);
      sym := DocumentSymbol(name, kind, ruleRange, ruleRange, Detail(rule, builtins), NoChildren);
    } else {
      var groupRange := Range(LocationToRange(group[0].location).start, LocationToRange(group[|group| - 1].location).end);
      var kind := VariableSymbol;
      if group[0].head.args.Some? {
        kind := FunctionSymbol;
      }
      var children := ChildSymbols(group, kind, builtins);
      sym := DocumentSymbol(name, kind, groupRange, groupRange, Detail(group[0], builtins), Children(children));
    }
  }

  /** The symbols of the groups named by `order`, in that order. */
  function GroupSymbols(order: seq<string>, groups: map<string, seq<Rule>>, builtins: map<string, string>): (r: seq<DocumentSymbol>)
    requires forall n :: n in order ==> n in groups && |groups[n]| > 0
    ensures |r| == |order|
  {
    if |order| == 0 then []
    else GroupSymbols(order[..|order| - 1], groups, builtins) + [GroupSymbol(groups[order[|order| - 1]], builtins)]
  }

  lemma {:induction false} GroupSymbolAt(order: seq<string>, groups: map<string, seq<Rule>>, builtins: map<string, string>, k: nat)
    requires forall n :: n in order ==> n in groups && |groups[n]| > 0
    requires k < |order|
    ensures GroupSymbols(order, groups, builtins)[k] == GroupSymbol(groups[order[k]], builtins)
  {
    var front := order[..|order| - 1];
    assert GroupSymbols(order, groups, builtins) == GroupSymbols(front, groups, builtins) + [GroupSymbol(groups[order[|order| - 1]], builtins)];
    if k < |order| - 1 {
      assert forall n :: n in front ==> n in order;
      GroupSymbolAt(front, groups, builtins, k);
      assert front[k] == order[k];
    }
  }

  /** Each group symbol goes by the name its group was chosen for. */
  lemma GroupSymbolsNamed(order: seq<string>, groups: map<string, seq<Rule>>, builtins: map<string, string>)
    requires GroupsHeaded(groups) && forall n :: n in order ==> n in groups
    ensures forall k :: 0 <= k < |order| ==> GroupSymbols(order, groups, builtins)[k].name == order[k]
  {
    forall k | 0 <= k < |order|
      ensures GroupSymbols(order, groups, builtins)[k].name == order[k]
    {
      GroupSymbolAt(order, groups, builtins, k);
      GroupSymbolNamed(groups[order[k]], builtins);
    }
  }

  /** `order` lists each name of `taken` once. */
  ghost predicate Enumerates(order: seq<string>, taken: set<string>) {
    && (forall a, b :: 0 <= a < b < |order| ==> order[a] != order[b])
    && (forall n :: n in order <==> n in taken)
  }

  lemma EnumeratesAppend(order: seq<string>, taken: set<string>, name: string)
    requires Enumerates(order, taken) && name !in taken
    ensures Enumerates(order + [name], taken + {name})
  {
  }

  /** One step of the loop over the groups: taking `name` keeps the symbols those of the names taken. */
  lemma ListStep(groups: map<string, seq<Rule>>, builtins: map<string, string>, order: seq<string>,
                 remaining: set<string>, symbols: seq<DocumentSymbol>, name: string)
    requires GroupsHeaded(groups)
    requires remaining <= groups.Keys && name in remaining
    requires Enumerates(order, groups.Keys - remaining)
    requires symbols == GroupSymbols(order, groups, builtins)
    ensures remaining - {name} <= groups.Keys
    ensures Enumerates(order + [name], groups.Keys - (remaining - {name}))
    ensures symbols + [GroupSymbol(groups[name], builtins)] == GroupSymbols(order + [name], groups, builtins)
    ensures |remaining - {name}| < |remaining|
  {
    EnumeratesAppend(order, groups.Keys - remaining, name);
    assert groups.Keys - (remaining - {name}) == (groups.Keys - remaining) + {name};
    assert (order + [name])[..|order|] == order;
  }

  /**
   * The loop of documentSymbols over the groups: one symbol per group.  The
   * groups come out of a Go map, so the order they are visited in is
   * unspecified: `order` is the order the names were taken in.
   */
  method BuildGroupSymbols(groups: map<string, seq<Rule>>, builtins: map<string, string>)
    returns (symbols: seq<DocumentSymbol>, ghost order: seq<string>)
    requires GroupsHeaded(groups)
    ensures Enumerates(order, groups.Keys)
    ensures symbols == GroupSymbols(order, groups, builtins)
  {
    symbols := [];
    var remaining := groups.Keys;
    order := [];
    while remaining != {}
      invariant remaining <= groups.Keys
      invariant Enumerates(order, groups.Keys - remaining)
      invariant symbols == GroupSymbols(order, groups, builtins)
      decreases |remaining|
    {
      var name :| name in remaining;
      var sym := BuildGroupSymbol(groups[name], builtins);
      ListStep(groups, builtins, order, remaining, symbols, name);
      symbols := symbols + [sym];
      order := order + [name];
      remaining := remaining - {name};
    }
    assert groups.Keys - remaining == groups.Keys;
  }

  /**
   * documentSymbols: the package symbol, named by the package path and
   * spanning the file, holding one symbol per group of rules sharing a name
   * (none when there are no rules), in the unspecified order `order`.
   */
  method DocumentSymbolsOf(contents: seq<Utf8.Byte>, packagePath: string, rules: seq<Rule>, builtins: map<string, string>)
    returns (docSymbols: seq<DocumentSymbol>, ghost groups: map<string, seq<Rule>>, ghost order: seq<string>)
    ensures |docSymbols| == 1
    ensures docSymbols[0].name == packagePath && docSymbols[0].kind == PackageSymbol
    ensures docSymbols[0].range == PackageRange(contents) && docSymbols[0].selectionRange == PackageRange(contents)
    ensures docSymbols[0].detail.None?
    ensures docSymbols[0].children.NoChildren? <==> |rules| == 0
    ensures groups.Keys == NamesBefore(RuleNames(rules), |rules|)
    ensures forall n :: n in groups ==> groups[n] == NamedBefore(rules, RuleNames(rules), n, |rules|)
    ensures GroupsHeaded(groups)
    ensures Enumerates(order, groups.Keys)
    ensures docSymbols[0].children.Children? ==> docSymbols[0].children.symbols == GroupSymbols(order, groups, builtins)
  {
    var pkgRange := PackageRange(contents);
    var ruleGroups := GroupRules(rules);
    groups := ruleGroups;
    var pkgSymbols;
    pkgSymbols, order := BuildGroupSymbols(ruleGroups, builtins);
    var children := if |pkgSymbols| > 0 then Children(pkgSymbols) else NoChildren;
    if |rules| > 0 {
      assert RuleNames(rules)[|rules| - 1] in ruleGroups.Keys;
      assert order != [];
    } else {
      assert ruleGroups.Keys == {};
    }
    docSymbols := [DocumentSymbol(packagePath, PackageSymbol, pkgRange, pkgRange, None, children)];
  }

  function ToWorkspaceSymbol(sym: DocumentSymbol, uri: string): WorkspaceSymbol {
    WorkspaceSymbol(sym.name, sym.kind, uri, sym.range)
  }

  /**
   * The workspace symbols of a list of document symbols: each symbol whose
   * name does not start with '#', followed by those of its children; a
   * '#'-named symbol is dropped along with its children.
   */
  function WorkspaceSymbolsOf(syms: seq<DocumentSymbol>, uri: string): seq<WorkspaceSymbol>
    decreases syms
  {
    if |syms| == 0 then []
    else
      var sym := syms[0];
      (if HasPrefix(sym.name, "#") then []
       else [ToWorkspaceSymbol(sym, uri)] + if sym.children.Children? then WorkspaceSymbolsOf(sym.children.symbols, uri) else [])
      + WorkspaceSymbolsOf(syms[1..], uri)
  }

  /** The workspace symbols one document symbol contributes: itself and its children's, unless it is '#'-named. */
  function OwnWorkspaceSymbols(sym: DocumentSymbol, uri: string): seq<WorkspaceSymbol> {
    if HasPrefix(sym.name, "#") then []
    else [ToWorkspaceSymbol(sym, uri)] + if sym.children.Children? then WorkspaceSymbolsOf(sym.children.symbols, uri) else []
  }

  lemma WorkspaceSymbolsCons(syms: seq<DocumentSymbol>, uri: string)
    requires |syms| > 0
    ensures WorkspaceSymbolsOf(syms, uri) == OwnWorkspaceSymbols(syms[0], uri) + WorkspaceSymbolsOf(syms[1..], uri)
  {
  }

  /** toWorkspaceSymbols: appends the workspace symbols of `docSym` to `symbols`. */
  method ToWorkspaceSymbols(docSym: seq<DocumentSymbol>, uri: string, symbols: seq<WorkspaceSymbol>)
    returns (out: seq<WorkspaceSymbol>)
    ensures out == symbols + WorkspaceSymbolsOf(docSym, uri)
    decreases docSym
  {
    out := symbols;
    for i := 0 to |docSym|
      invariant out + WorkspaceSymbolsOf(docSym[i..], uri) == symbols + WorkspaceSymbolsOf(docSym, uri)
    {
      var sym := docSym[i];
      ghost var before := out;
      ghost var rest := WorkspaceSymbolsOf(docSym[i + 1..], uri);
      assert WorkspaceSymbolsOf(docSym[i..], uri) == OwnWorkspaceSymbols(sym, uri) + rest by {
        WorkspaceSymbolsCons(docSym[i..], uri);
        assert docSym[i..][1..] == docSym[i + 1..];
      }
      if !HasPrefix(sym.name, "#") {
        out := out + [ToWorkspaceSymbol(sym, uri)];
        if sym.children.Children? {
          out := ToWorkspaceSymbols(sym.children.symbols, uri, out);
          ConcatAssoc(before, [ToWorkspaceSymbol(sym, uri)], WorkspaceSymbolsOf(sym.children.symbols, uri));
        } else {
          assert [ToWorkspaceSymbol(sym, uri)] + [] == [ToWorkspaceSymbol(sym, uri)];
        }
      } else {
        assert before + [] == before;
      }
      assert out == before + OwnWorkspaceSymbols(sym, uri);
      ConcatAssoc(before, OwnWorkspaceSymbols(sym, uri), rest);
    }
    assert docSym[|docSym|..] == [];
  }

  /** No workspace symbol is named with a leading '#'. */
  lemma {:induction false} WorkspaceSymbolsUnnumbered(syms: seq<DocumentSymbol>, uri: string)
    ensures forall w :: w in WorkspaceSymbolsOf(syms, uri) ==> !HasPrefix(w.name, "#")
    decreases syms
  {
    if |syms| > 0 {
      var sym := syms[0];
      if sym.children.Children? {
        WorkspaceSymbolsUnnumbered(sym.children.symbols, uri);
      }
      WorkspaceSymbolsUnnumbered(syms[1..], uri);
    }
  }

  /** Symbols whose names all start with '#' give no workspace symbols. */
  lemma {:induction false} NumberedDropped(syms: seq<DocumentSymbol>, uri: string)
    requires forall k :: 0 <= k < |syms| ==> HasPrefix(syms[k].name, "#")
    ensures WorkspaceSymbolsOf(syms, uri) == []
  {
    if |syms| > 0 {
      NumberedDropped(syms[1..], uri);
    }
  }

  /**
   * For the group symbols of a document (names without '#', children all
   * numbered), the workspace symbols are the groups themselves, in order,
   * without their children.
   */
  lemma {:induction false} WorkspaceOfGroups(syms: seq<DocumentSymbol>, uri: string)
    requires forall k :: 0 <= k < |syms| ==> !HasPrefix(syms[k].name, "#")
    requires forall k :: 0 <= k < |syms| && syms[k].children.Children? ==>
      forall j :: 0 <= j < |syms[k].children.symbols| ==> HasPrefix(syms[k].children.symbols[j].name, "#")
    ensures WorkspaceSymbolsOf(syms, uri) == seq(|syms|, k requires 0 <= k < |syms| => ToWorkspaceSymbol(syms[k], uri))
  {
    if |syms| > 0 {
      if syms[0].children.Children? {
        NumberedDropped(syms[0].children.symbols, uri);
      }
      WorkspaceOfGroups(syms[1..], uri);
    }
  }

  /** Every child of a group symbol is numbered. */
  lemma GroupChildrenNumbered(group: seq<Rule>, builtins: map<string, string>)
    requires |group| >= 1
    ensures GroupSymbol(group, builtins).children.Children? ==>
      forall j :: 0 <= j < |GroupSymbol(group, builtins).children.symbols| ==>
        HasPrefix(GroupSymbol(group, builtins).children.symbols[j].name, "#")
  {
  }
}
