/**
 * The short description the language server shows beside a rule
 * (internal/ast/rule.go, repeated in internal/lsp/documentsymbol.go): what
 * kind of rule it is and, when known, the type of its value.  Also the test
 * for a "constant" rule and the reduction of a built-in's declared result
 * type to its base type.
 */
module RuleDetail {
  import opened Wrappers
  import opened GoStrings
  import RoastLocation

  /** The kind of term a rule head's value is, as far as the type switches tell kinds apart. */
  datatype ValueKind =
    | BooleanValue
    | NumberValue
    | StringValue
    | NullValue
    | ArrayValue
    | ArrayComprehension
    | ObjectValue
    | ObjectComprehension
    | SetValue
    | SetComprehension
    | CallValue(operator: string)
    | OtherValue

  /** One term of a reference: the text its value prints as, and whether it is ground. */
  datatype RefPart = RefPart(text: string, ground: bool)

  /** A rule head's reference: never empty, its first term is the rule's name. */
  type HeadRef = r: seq<RefPart> | |r| > 0 witness [RefPart("p", false)]

  /**
   * ast.Head: the reference, the arguments as their terms print (absent when
   * the head is not a function's), whether a key is set, and the value's kind
   * (absent when there is no value).
   */
  datatype Head = Head(ref: HeadRef, args: Option<seq<string>>, hasKey: bool, value: Option<ValueKind>)

  /**
   * ast.Rule as far as the language server looks at it: whether the body is
   * exactly the single expression `true`, whether an else branch follows,
   * and its location.
   */
  datatype Rule = Rule(head: Head, bodyIsTrue: bool, hasElse: bool, location: RoastLocation.Location)

  /** The first term of the head's reference as it prints: the rule's name. */
  function HeadName(head: Head): string {
    head.ref[0].text
  }

  /** ast.Args.String: the terms between parentheses, separated by ", ". */
  function ArgsString(args: seq<string>): string {
    "(" + Join(args, ", ") + ")"
  }

  /** The prefix every single-value rule's detail starts with. */
  function SingleValuePrefix(hasKey: bool): string {
    "single-value " + (if hasKey then "map " else "") + "rule"
  }

  /** The text up to the first `c`, or all of `s` when it holds none. */
  function Before(s: string, c: char): (r: string)
    ensures c !in r && r <= s
    ensures c !in s ==> r == s
    ensures forall x :: x in r ==> x in s
  {
    if c in s then s[..IndexChar(s, c)] else s
  }

  /** The text after the first `c`, or all of `s` when it holds none. */
  function After(s: string, c: char): (r: string)
    ensures |r| <= |s|
  {
    if c in s then s[IndexChar(s, c) + 1..] else s
  }

  /** A `c` at `k` with none before it cuts `s` at `k`. */
  lemma CutAt(s: string, c: char, k: nat)
    requires k < |s| && s[k] == c && c !in s[..k]
    ensures Before(s, c) == s[..k] && After(s, c) == s[k + 1..]
  {
    IndexCharAt(s, c, k);
  }

  /**
   * simplifyType: drops everything up to the first ':', everything from the
   * first '[' and everything from the first '<' that remain, then the
   * surrounding white space.
   */
  function SimplifyType(name: string): (r: string)
    ensures '[' !in r && '<' !in r
    ensures |r| > 0 ==> !IsSpace(r[0]) && !IsSpace(r[|r| - 1])
    ensures |r| <= |name|
  {
    var beforeAngle := Before(Before(After(name, ':'), '['), '<');
    TrimSpacePart(beforeAngle);
    TrimSpace(beforeAngle)
  }

  /** What TrimSpace keeps is a piece of its argument, so it adds no character. */
  lemma TrimSpacePart(s: string)
    ensures forall c :: c in TrimSpace(s) ==> c in s
  {
    var l := TrimLeftSpace(s);
    assert forall c :: c in l ==> c in s by {
      forall c | c in l ensures c in s {
        var k :| 0 <= k < |l| && l[k] == c;
        assert s[|s| - |l| + k] == c;
      }
    }
    var r := TrimRightSpace(l);
    assert forall c :: c in r ==> c in l by {
      forall c | c in r ensures c in l {
        var k :| 0 <= k < |r| && r[k] == c;
        assert l[k] == c;
      }
    }
  }

  /** TrimSpace leaves a text without surrounding white space as it is. */
  lemma TrimSpaceTrimmed(s: string)
    requires |s| > 0 && !IsSpace(s[0]) && !IsSpace(s[|s| - 1])
    ensures TrimSpace(s) == s
  {
  }

  /** TrimSpace drops a leading blank. */
  lemma TrimSpaceLeadingBlank(s: string)
    ensures TrimSpace(" " + s) == TrimSpace(s)
  {
    assert (" " + s)[1..] == s;
  }

  /**
   * A declared result "name: base" followed by nothing, by a '[…]' or by a
   * '<…>' parameter list simplifies to "base".
   */
  lemma SimplifyTypeBase(tag: string, base: string, rest: string)
    requires ':' !in tag
    requires |base| > 0 && !IsSpace(base[0]) && !IsSpace(base[|base| - 1])
    requires ':' !in base && '[' !in base && '<' !in base
    requires rest == "" || rest[0] == '[' || (rest[0] == '<' && '[' !in rest)
    ensures SimplifyType(tag + ": " + base + rest) == base
  {
    var name := tag + ": " + base + rest;
    assert name[..|tag|] == tag && name[|tag|] == ':';
    CutAt(name, ':', |tag|);
    var afterColon := " " + base + rest;
    assert After(name, ':') == afterColon;
    var beforeAngle := " " + base;
    assert '<' !in beforeAngle;
    assert Before(Before(afterColon, '['), '<') == beforeAngle by {
      if rest == "" {
        assert afterColon == beforeAngle;
      } else if rest[0] == '[' {
        assert afterColon[..1 + |base|] == beforeAngle && afterColon[1 + |base|] == '[';
        CutAt(afterColon, '[', 1 + |base|);
      } else {
        BracketFree(base, rest);
        assert afterColon[..1 + |base|] == beforeAngle && afterColon[1 + |base|] == '<';
        CutAt(afterColon, '<', 1 + |base|);
      }
    }
    TrimSpaceLeadingBlank(base);
    TrimSpaceTrimmed(base);
  }

  lemma BracketFree(base: string, rest: string)
    requires '[' !in base && '[' !in rest
    ensures '[' !in " " + base + rest
  {
    var t := " " + base + rest;
    forall i | 0 <= i < |t| ensures t[i] != '[' {
      if 0 < i <= |base| {
        assert t[i] == base[i - 1];
      } else if i > |base| {
        assert t[i] == rest[i - 1 - |base|];
      }
    }
  }

  /**
   * The type suffix for a single-value rule's value: the boolean kind tells a
   * test (a name starting with "test_") from other rules, a call to a known
   * built-in gives its simplified result type, and other kinds add nothing.
   */
  function TypeSuffix(head: Head, value: ValueKind, builtins: map<string, string>): string {
    match value
    case BooleanValue => if HasPrefix(HeadName(head), "test_") then " (test)" else " (boolean)"
    case NumberValue => " (number)"
    case StringValue => " (string)"
    case ArrayValue | ArrayComprehension => " (array)"
    case ObjectValue | ObjectComprehension => " (object)"
    case SetValue | SetComprehension => " (set)"
    case CallValue(op) => if op in builtins then " (" + SimplifyType(builtins[op]) + ")" else ""
    case _ => ""
  }

  /**
   * GetRuleDetail: a function is described by its arguments; a rule with a
   * key and no value is multi-value; a rule without a value has no
   * description; any other rule is single-value, "map" when it has a key,
   * followed by the type of its value where that is known.  `builtins` maps
   * each built-in's name to its declared result type.
   */
  function GetRuleDetail(rule: Rule, builtins: map<string, string>): (r: string)
    ensures rule.head.args.Some? ==> r == "function" + ArgsString(rule.head.args.value)
    ensures rule.head.args.None? && rule.head.value.None? ==> r == (if rule.head.hasKey then "multi-value rule" else "")
    ensures rule.head.args.None? && rule.head.value.Some? ==> HasPrefix(r, SingleValuePrefix(rule.head.hasKey))
    ensures rule.head.args.None? && rule.head.value.Some? ==>
      var p := SingleValuePrefix(rule.head.hasKey);
      match rule.head.value.value
      case BooleanValue => r == p + (if HasPrefix(HeadName(rule.head), "test_") then " (test)" else " (boolean)")
      case NumberValue => r == p + " (number)"
      case StringValue => r == p + " (string)"
      case ArrayValue => r == p + " (array)"
      case ArrayComprehension => r == p + " (array)"
      case ObjectValue => r == p + " (object)"
      case ObjectComprehension => r == p + " (object)"
      case SetValue => r == p + " (set)"
      case SetComprehension => r == p + " (set)"
      case CallValue(op) => r == p + (if op in builtins then " (" + SimplifyType(builtins[op]) + ")" else "")
      case NullValue => r == p
      case OtherValue => r == p
  {
    var head := rule.head;
    if head.args.Some? then "function" + ArgsString(head.args.value)
    else if head.hasKey && head.value.None? then "multi-value rule"
    else if head.value.None? then ""
    else SingleValuePrefix(head.hasKey) + TypeSuffix(head, head.value.value, builtins)
  }

  /**
   * The description tells the kinds of rule apart: it starts with "function("
   * exactly for functions, with "single-value " exactly for non-functions
   * with a value, is "multi-value rule" exactly for the keyed ones without a
   * value, and is empty exactly for the rest.
   */
  lemma DetailClassifies(rule: Rule, builtins: map<string, string>)
    ensures HasPrefix(GetRuleDetail(rule, builtins), "function(") <==> rule.head.args.Some?
    ensures HasPrefix(GetRuleDetail(rule, builtins), "single-value ") <==> rule.head.args.None? && rule.head.value.Some?
    ensures GetRuleDetail(rule, builtins) == "multi-value rule" <==> rule.head.args.None? && rule.head.value.None? && rule.head.hasKey
    ensures GetRuleDetail(rule, builtins) == "" <==> rule.head.args.None? && rule.head.value.None? && !rule.head.hasKey
  {
    var r := GetRuleDetail(rule, builtins);
    if rule.head.args.Some? {
      assert r[..9] == "function(";
      FirstCharDiffers(r, "single-value ");
    } else if rule.head.value.Some? {
      assert r[..13] == "single-value ";
      FirstCharDiffers(r, "function(");
    } else if rule.head.hasKey {
      FirstCharDiffers(r, "function(");
      FirstCharDiffers(r, "single-value ");
    }
  }

  /** A text whose first character differs from a prefix's does not start with it. */
  lemma FirstCharDiffers(s: string, prefix: string)
    requires |s| > 0 && |prefix| > 0 && s[0] != prefix[0]
    ensures !HasPrefix(s, prefix)
  {
    if |prefix| <= |s| {
      assert s[..|prefix|][0] == s[0];
    }
  }


  /**
   * IsConstant: the head's value is a scalar (a boolean, number, string or
   * null), the rule is not a function, its body is just `true` and it has
   * no else branch.
   */
  predicate IsConstant(rule: Rule) {
    && rule.head.value.Some?
    && rule.head.value.value in {BooleanValue, NumberValue, StringValue, NullValue}
    && rule.head.args.None?
    && rule.bodyIsTrue
    && !rule.hasElse
  }

  /**
   * A constant rule always has a description: the single-value one, with the
   * type of its scalar, except that null has none.
   */
  lemma ConstantDetail(rule: Rule, builtins: map<string, string>)
    requires IsConstant(rule)
    ensures GetRuleDetail(rule, builtins) != ""
    ensures rule.head.value != Some(NullValue) ==> |GetRuleDetail(rule, builtins)| > |SingleValuePrefix(rule.head.hasKey)|
    ensures rule.head.value == Some(NullValue) ==> GetRuleDetail(rule, builtins) == SingleValuePrefix(rule.head.hasKey)
  {
  }

  /** A rule without a value is never constant, whatever else holds. */
  lemma NoValueNotConstant(rule: Rule)
    requires rule.head.value.None?
    ensures !IsConstant(rule)
  {
  }

  /** A test rule `test_x if { … }` is described as "single-value rule (test)". */
  lemma TestRuleDetail(rule: Rule, builtins: map<string, string>)
    requires rule.head.ref[0].text == "test_allow"
    requires rule.head.args.None? && !rule.head.hasKey && rule.head.value == Some(BooleanValue)
    ensures GetRuleDetail(rule, builtins) == "single-value rule (test)"
  {
    assert HasPrefix(HeadName(rule.head), "test_");
  }

  /** A function `f(x, y)` is described by its arguments. */
  lemma FunctionDetail(rule: Rule, builtins: map<string, string>)
    requires rule.head.args == Some(["x", "y"])
    ensures GetRuleDetail(rule, builtins) == "function(x, y)"
  {
  }
}
