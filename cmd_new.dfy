/**
 * The `regal new rule` command (cmd/new.go): the checks on its type,
 * category and name, and the values handed to the rule templates, where a
 * name that is not a plain Rego identifier is written as a quoted ref.
 *
 * Writing the scaffolded files is left out.
 */
module CmdNew {
  import opened Wrappers
  import opened GoStrings

  /** newRuleCommandParams: the rule's type, category and name. */
  datatype Params = Params(ruleType: string, category: string, name: string)

  /** TemplateValues */
  datatype TemplateValues = TemplateValues(category: string, nameOriginal: string, name: string, nameTest: string)

  predicate IsLower(c: char) { 'a' <= c <= 'z' }

  /** The characters of `[a-z_]`. */
  predicate NameStart(c: char) { IsLower(c) || c == '_' }

  /** The characters of `[a-z0-9_\-]`. */
  predicate NameChar(c: char) { IsLower(c) || IsDigit(c) || c == '_' || c == '-' }

  /** The text matches `^[a-z]+$`. */
  predicate CategoryMatches(s: string) {
    |s| > 0 && forall i :: 0 <= i < |s| ==> IsLower(s[i])
  }

  /**
   * The text matches `^[a-z_]+[a-z0-9_\-]*$`: it splits into a non-empty
   * run of `[a-z_]` and a run of `[a-z0-9_\-]`.
   */
  ghost predicate NameMatches(s: string) {
    exists k :: 1 <= k <= |s| && SplitsAt(s, k)
  }

  /** The first `k` characters are from `[a-z_]`, the rest from `[a-z0-9_\-]`. */
  predicate SplitsAt(s: string, k: nat)
    requires k <= |s|
  {
    (forall i :: 0 <= i < k ==> NameStart(s[i])) && (forall i :: k <= i < |s| ==> NameChar(s[i]))
  }

  /** How the name pattern is checked: a first character from `[a-z_]`, the others from `[a-z0-9_\-]`. */
  predicate ValidName(s: string) {
    |s| > 0 && NameStart(s[0]) && forall i :: 1 <= i < |s| ==> NameChar(s[i])
  }

  /** The check agrees with the name pattern. */
  lemma ValidNameMatches(s: string)
    ensures ValidName(s) <==> NameMatches(s)
  {
    if ValidName(s) {
      assert forall i :: 1 <= i < |s| ==> NameChar(s[i]);
      assert SplitsAt(s, 1);
    }
    if NameMatches(s) {
      var k :| 1 <= k <= |s| && SplitsAt(s, k);
      assert NameStart(s[0]);
      forall i | 1 <= i < |s| ensures NameChar(s[i]) {
        if i < k {
          assert NameStart(s[i]);
        }
      }
    }
  }

  /** Every category is a valid name, but not every name is a category. */
  lemma CategoryIsName(s: string)
    ensures CategoryMatches(s) ==> ValidName(s)
    ensures !CategoryMatches("rule_name") && ValidName("rule_name")
  {
    assert "rule_name"[4] == '_';
  }

  /**
   * PreRunE: the first failing check, in order: the type, a missing or
   * malformed category, a missing or malformed name.
   */
  function Validate(p: Params): (r: Option<string>)
    ensures r.None? <==> (p.ruleType == "custom" || p.ruleType == "builtin") && CategoryMatches(p.category) && ValidName(p.name)
    ensures p.ruleType != "custom" && p.ruleType != "builtin" ==> r == Some("type must be 'custom' or 'builtin', got " + p.ruleType)
    ensures (p.ruleType == "custom" || p.ruleType == "builtin") && p.category == "" ==> r == Some("category is required for rule")
    ensures (p.ruleType == "custom" || p.ruleType == "builtin") && CategoryMatches(p.category) && p.name == "" ==>
      r == Some("name is required for rule")
    ensures (p.ruleType == "custom" || p.ruleType == "builtin") && p.category != "" && !CategoryMatches(p.category) ==>
      r == Some("category must be a single word, using lowercase letters only")
    ensures (p.ruleType == "custom" || p.ruleType == "builtin") && CategoryMatches(p.category) && p.name != "" && !ValidName(p.name) ==>
      r == Some("name must consist only of lowercase letters, numbers, underscores and dashes")
  {
    if p.ruleType != "custom" && p.ruleType != "builtin" then Some("type must be 'custom' or 'builtin', got " + p.ruleType)
    else if p.category == "" then Some("category is required for rule")
    else if !CategoryMatches(p.category) then Some("category must be a single word, using lowercase letters only")
    else if p.name == "" then Some("name is required for rule")
    else if !ValidName(p.name) then Some("name must consist only of lowercase letters, numbers, underscores and dashes")
    else None
  }

  /** The ref a name takes in a template, and the ref of its test. */
  function TemplateNames(name: string): (r: (string, string))
    ensures '-' in name || '_' in name ==>
      r == ("[\"" + ReplaceAll(name, "_", "-") + "\"]", "[\"" + ReplaceAll(name, "_", "-") + "_test\"]")
    ensures '-' !in name && '_' !in name ==> r == ("." + name, "." + name + "_test")
  {
    var dashed := ReplaceAll(name, "_", "-");
    if Contains(name, "-") || Contains(name, "_") then
      ContainsChar(name, '-');
      ContainsChar(name, '_');
      ("[\"" + dashed + "\"]", "[\"" + dashed + "_test\"]")
    else
      ContainsChar(name, '-');
      ContainsChar(name, '_');
      ("." + name, "." + name + "_test")
  }

  /** Containing a one-character text is containing the character. */
  lemma ContainsChar(s: string, c: char)
    ensures Contains(s, [c]) <==> c in s
  {
    IndexSpec(s, [c]);
    if c in s {
      var j :| 0 <= j < |s| && s[j] == c;
      assert HasPrefix(s[j..], [c]);
    }
    if Contains(s, [c]) {
      var j := Index(s, [c]);
      assert s[j..][0] == c;
    }
  }

  /** templateValues: the category and name as given, and the refs of the rule and its test. */
  function TemplateValuesOf(p: Params): (r: TemplateValues)
    ensures r.category == p.category && r.nameOriginal == p.name
    ensures (r.name, r.nameTest) == TemplateNames(p.name)
  {
    var (name, nameTest) := TemplateNames(p.name);
    TemplateValues(p.category, p.name, name, nameTest)
  }

  /**
   * The test ref is the rule ref with "_test" added to the name: at the end
   * of a plain name, inside the quotes of a quoted one; a quoted name holds
   * no underscore of its own, and a plain one is kept as it is.
   */
  lemma TestNameFollowsName(name: string)
    ensures var (n, t) := TemplateNames(name);
      && (HasPrefix(n, ".") ==> t == n + "_test")
      && (HasPrefix(n, "[\"") ==> |n| == |name| + 4 && t == n[..|n| - 2] + "_test" + n[|n| - 2..])
      && (HasPrefix(n, "[\"") ==> '_' !in n[2..|n| - 2])
  {
    var (n, t) := TemplateNames(name);
    if '-' in name || '_' in name {
      var dashed := ReplaceAll(name, "_", "-");
      ReplaceCharSpec(name, '_', '-');
      assert n == "[\"" + dashed + "\"]";
      assert n[0] == '[';
      assert n[..|n| - 2] == "[\"" + dashed;
      assert n[|n| - 2..] == "\"]";
      assert n[2..|n| - 2] == dashed;
      assert t == "[\"" + dashed + "_test" + "\"]";
    } else {
      assert n == "." + name;
      assert n[0] == '.';
    }
  }

  /** A name with an underscore becomes a quoted ref with dashes in its place. */
  lemma UnderscoreBecomesDash(name: string)
    requires '_' in name
    ensures var n := TemplateNames(name).0;
      HasPrefix(n, "[\"") && '_' !in n && |n| == |name| + 4
  {
    var dashed := ReplaceAll(name, "_", "-");
    ReplaceCharSpec(name, '_', '-');
    var n := TemplateNames(name).0;
    assert n == "[\"" + dashed + "\"]";
    assert n[..2] == "[\"";
  }
}
