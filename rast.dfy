/**
 * Helpers of pkg/roast/rast/rast.go for building and reading Rego AST
 * pieces without the parser: dot-separated paths to refs, text to an array
 * of lines, the test for a parser-generated rule body, and the omitempty
 * rule of the struct-to-value conversion.
 */
module Rast {
  import opened Wrappers
  import opened GoStrings

  /**
   * A ref term: a variable (the head; ast.DefaultRootDocument and
   * ast.InputRootDocument are the variables `data` and `input`) or a string.
   */
  datatype Term = Var(name: string) | Str(value: string)

  /** The text a term stands for. */
  function Name(t: Term): string {
    match t
    case Var(n) => n
    case Str(s) => s
  }

  function Names(ts: seq<Term>): (r: seq<string>)
    ensures |r| == |ts|
    ensures forall i :: 0 <= i < |ts| ==> r[i] == Name(ts[i])
  {
    if |ts| == 0 then [] else [Name(ts[0])] + Names(ts[1..])
  }

  /** refHeadTerm: the root documents for "data" and "input", a variable otherwise. */
  function RefHeadTerm(name: string): (r: Term)
    ensures r.Var? && r.name == name
  {
    if name == "data" then Var("data")
    else if name == "input" then Var("input")
    else Var(name)
  }

  /**
   * The terms after the head, read from what follows a '.': a string per
   * segment, and the last segment only when it is not empty.
   */
  function TailTerms(rem: string): (r: seq<Term>)
    ensures forall i :: 0 <= i < |r| ==> r[i].Str?
    decreases |rem|
  {
    var j := IndexChar(rem, '.');
    if j < 0 then (if rem == "" then [] else [Str(rem)])
    else [Str(rem[..j])] + TailTerms(rem[j + 1..])
  }

  /** RefStringToRef's result: the head segment as a variable, then TailTerms. */
  function RefOf(path: string): (r: seq<Term>)
    ensures |r| >= 1 && r[0].Var?
    ensures forall i :: 1 <= i < |r| ==> r[i].Str?
  {
    var i := IndexChar(path, '.');
    if i < 0 then [RefHeadTerm(path)] else [RefHeadTerm(path[..i])] + TailTerms(path[i + 1..])
  }

  /** Splitting at the first separator gives the text before it and the split of the rest. */
  lemma {:induction false} SplitAtFirst(s: string, sep: char, i: nat)
    requires i < |s| && s[i] == sep && sep !in s[..i]
    ensures Split(s, sep) == [s[..i]] + Split(s[i + 1..], sep)
  {
    if i > 0 {
      assert s[0] != sep by { assert s[..i][0] == s[0]; }
      assert s[1..][i - 1] == sep && s[1..][..i - 1] == s[..i][1..];
      SplitAtFirst(s[1..], sep, i - 1);
      assert s[1..][i..] == s[i + 1..];
      assert [s[0]] + s[1..][..i - 1] == s[..i];
    }
  }

  /** The pieces without a final empty one: how the loop drops a trailing '.'. */
  function Kept(ps: seq<string>): seq<string> {
    if |ps| > 0 && ps[|ps| - 1] == "" then ps[..|ps| - 1] else ps
  }

  /** TailTerms names the split pieces of the rest, less a final empty piece. */
  lemma {:induction false} TailTermsSplit(rem: string)
    ensures Names(TailTerms(rem)) == Kept(Split(rem, '.'))
    decreases |rem|
  {
    var j := IndexChar(rem, '.');
    if j < 0 {
      SplitNoSeparator(rem, '.');
    } else {
      var head := rem[..j];
      var tail := TailTerms(rem[j + 1..]);
      var rest := Split(rem[j + 1..], '.');
      assert Names(TailTerms(rem)) == [head] + Names(tail) by {
        var ts := [Str(head)] + tail;
        assert TailTerms(rem) == ts;
        assert ts[1..] == tail;
      }
      assert Names(tail) == Kept(rest) by {
        TailTermsSplit(rem[j + 1..]);
      }
      assert Kept(Split(rem, '.')) == [head] + Kept(rest) by {
        SplitAtFirst(rem, '.', j);
        KeptCons(head, rest);
      }
    }
  }

  lemma KeptCons(x: string, ps: seq<string>)
    requires |ps| > 0
    ensures Kept([x] + ps) == [x] + Kept(ps)
  {
    if ps[|ps| - 1] == "" {
      assert ([x] + ps)[..|ps|] == [x] + ps[..|ps| - 1];
    }
  }

  /**
   * The segments of a ref built from a path are the path's '.'-separated
   * pieces, except that a final empty piece after a '.' is dropped.
   */
  lemma RefOfPieces(path: string)
    ensures var ps := Split(path, '.');
      Names(RefOf(path)) == if |ps| == 1 then ps else [ps[0]] + Kept(ps[1..])
  {
    var i := IndexChar(path, '.');
    if i < 0 {
      SplitNoSeparator(path, '.');
    } else {
      SplitAtFirst(path, '.', i);
      TailTermsSplit(path[i + 1..]);
      var ps := Split(path, '.');
      assert ps[1..] == Split(path[i + 1..], '.');
      assert Names(RefOf(path)) == [path[..i]] + Names(TailTerms(path[i + 1..]));
    }
  }

  /** A path that does not end in '.' is the ref's segment names joined by '.'. */
  lemma RefOfJoins(path: string)
    requires |path| == 0 || path[|path| - 1] != '.'
    ensures Join(Names(RefOf(path)), ".") == path
  {
    RefOfPieces(path);
    JoinSplit(path, '.');
    var ps := Split(path, '.');
    if |ps| > 1 {
      var k := LastIndexChar(path, '.');
      SplitPieces(path, '.');
      CountZeroIffAbsent(path, '.');
      SplitLastPiece(path, '.', k);
      assert ps[|ps| - 1] == path[k + 1..];
      assert |path[k + 1..]| > 0;
      assert [ps[0]] + ps[1..] == ps;
    }
  }

  /** A path with no '.' is a one-term ref. */
  lemma RefOfPlain(path: string)
    requires '.' !in path
    ensures RefOf(path) == [Var(path)]
  {
  }

  /**
   * RefStringToRef: the head segment, then each following segment in a loop
   * that takes the text up to the next '.', keeping the last one only when
   * it is not empty.
   */
  method RefStringToRef(path: string) returns (terms: seq<Term>)
    ensures terms == RefOf(path)
  {
    var i := IndexChar(path, '.');
    if i == -1 {
      return [RefHeadTerm(path)];
    }
    terms := [RefHeadTerm(path[..i])];
    var rest := path[i + 1..];
    while true
      invariant terms + TailTerms(rest) == RefOf(path)
      decreases |rest|
    {
      i := IndexChar(rest, '.');
      if i == -1 {
        if |rest| > 0 {
          terms := terms + [Str(rest)];
        }
        return;
      }
      terms := terms + [Str(rest[..i])];
      rest := rest[i + 1..];
    }
  }

  /** An expression of a query body, here always a ref. */
  datatype Expr = RefExpr(ref: seq<Term>)

  /**
   * RefStringToBody: a body of the one expression holding the ref of the
   * path (the source repeats RefStringToRef's loop; the model calls it).
   */
  method RefStringToBody(path: string) returns (body: seq<Expr>)
    ensures body == [RefExpr(RefOf(path))]
  {
    var ref := RefStringToRef(path);
    body := [RefExpr(ref)];
  }

  /** LinesArrayTerm: the lines of a text once "\r\n" is read as "\n", one string per line. */
  function LinesArray(content: string): (r: seq<string>)
    ensures var normal := ReplaceAll(content, "\r\n", "\n");
      && |r| == CountChar(normal, '\n') + 1
      && Join(r, "\n") == normal
      && forall i :: 0 <= i < |r| ==> '\n' !in r[i]
  {
    var normal := ReplaceAll(content, "\r\n", "\n");
    SplitPieces(normal, '\n');
    JoinSplit(normal, '\n');
    Split(normal, '\n')
  }

  /** A rule's parts that IsBodyGenerated looks at; `id` of a location is the identity of Go's pointer. */
  datatype Loc = Loc(id: nat, row: int, col: int)
  datatype Head = Head(valueLocation: Option<Option<Loc>>, keyLocation: Option<Option<Loc>>)
  datatype Rule = Rule(isDefault: bool, body: seq<Option<Option<Loc>>>, head: Option<Head>, location: Option<Loc>)

  /**
   * The source dereferences the first expression's and the key's
   * locations when the rule has a key, so they must then exist.
   */
  predicate KeyLocated(rule: Rule) {
    !rule.isDefault && |rule.body| > 0 && rule.head.Some? && rule.head.value.keyLocation.Some? ==>
      rule.body[0].Some? && rule.body[0].value.Some? && rule.head.value.keyLocation.value.Some?
  }

  /**
   * IsBodyGenerated: default rules and empty bodies are generated; otherwise
   * a body whose first expression shares the rule's or the head value's
   * location, or sits on the key's row before it, is generated.
   */
  predicate IsBodyGenerated(rule: Rule)
    requires KeyLocated(rule)
    ensures rule.isDefault || |rule.body| == 0 ==> IsBodyGenerated(rule)
    ensures !rule.isDefault && |rule.body| > 0 && rule.head.None? ==> !IsBodyGenerated(rule)
  {
    if rule.isDefault then true
    else if |rule.body| == 0 then true
    else if rule.head.None? then false
    else
      var first := rule.body[0];
      var head := rule.head.value;
      if first.Some? && first.value == rule.location then true
      else if first.Some? && head.valueLocation.Some? && first.value == head.valueLocation.value then true
      else if head.keyLocation.Some? then
        var b, k := first.value.value, head.keyLocation.value.value;
        b.row == k.row && b.col < k.col
      else false
  }

  /** A struct field: its json tag, its value converted, and whether Go considers it zero. */
  datatype Field<V> = Field(tag: string, value: V, isZero: bool)

  /** What a json tag asks for: skip the field, or its key and whether it is omitempty. */
  function TagOf(tag: string): (r: Option<(string, bool)>)
    ensures r.None? <==> tag == "" || tag == "-"
    ensures r.Some? && ',' !in tag ==> r.value == (tag, false)
    ensures r.Some? && ',' in tag ==> r.value == (Split(tag, ',')[0], "omitempty" in Split(tag, ',')[1..])
  {
    if tag == "" || tag == "-" then None
    else if ',' in tag then
      var parts := Split(tag, ',');
      Some((parts[0], "omitempty" in parts[1..]))
    else Some((tag, false))
  }

  /** Whether a field appears in the object: it has a tag and is not an empty omitempty field. */
  predicate Emitted<V>(f: Field<V>) {
    TagOf(f.tag).Some? && !(TagOf(f.tag).value.1 && f.isZero)
  }

  /** The object of the first `n` fields, later fields of the same key replacing earlier ones. */
  function ObjectOf<V>(fields: seq<Field<V>>, n: nat): (r: map<string, V>)
    requires n <= |fields|
  {
    if n == 0 then map[]
    else
      var prev := ObjectOf(fields, n - 1);
      var f := fields[n - 1];
      if Emitted(f) then prev[TagOf(f.tag).value.0 := f.value] else prev
  }

  /** An object's keys are the keys of its emitted fields. */
  lemma {:induction false} ObjectKeys<V>(fields: seq<Field<V>>, n: nat)
    requires n <= |fields|
    ensures forall k :: k in ObjectOf(fields, n) <==> exists i :: 0 <= i < n && Emitted(fields[i]) && TagOf(fields[i].tag).value.0 == k
  {
    if n > 0 {
      ObjectKeys(fields, n - 1);
    }
  }

  /** Among emitted fields sharing a key, the last one's value is the entry. */
  lemma {:induction false} ObjectLastWins<V>(fields: seq<Field<V>>, n: nat, i: nat)
    requires i < n <= |fields| && Emitted(fields[i])
    requires forall j :: i < j < n && Emitted(fields[j]) ==> TagOf(fields[j].tag).value.0 != TagOf(fields[i].tag).value.0
    ensures TagOf(fields[i].tag).value.0 in ObjectOf(fields, n)
    ensures ObjectOf(fields, n)[TagOf(fields[i].tag).value.0] == fields[i].value
  {
    if i < n - 1 {
      ObjectLastWins(fields, n - 1, i);
    }
  }

  /** StructToValue: one entry per emitted field, by its tag's key, in field order. */
  method StructToValue<V>(fields: seq<Field<V>>) returns (obj: map<string, V>)
    ensures obj == ObjectOf(fields, |fields|)
  {
    obj := map[];
    for i := 0 to |fields|
      invariant obj == ObjectOf(fields, i)
    {
      var tag := TagOf(fields[i].tag);
      if tag.None? {
        continue;
      }
      if tag.value.1 && fields[i].isZero {
        continue;
      }
      obj := obj[tag.value.0 := fields[i].value];
    }
  }

  /** An omitempty field holding its zero value never appears. */
  lemma OmitEmptyOmitted<V>(fields: seq<Field<V>>, i: nat)
    requires i < |fields| && TagOf(fields[i].tag).Some? && TagOf(fields[i].tag).value.1 && fields[i].isZero
    ensures !Emitted(fields[i])
  {
  }

  /**
   * UnquotedPath: the ref's terms after the first, as text with the quotes
   * of a string term's rendering trimmed.
   */
  function UnquotedPath(path: seq<Term>): (r: seq<string>)
    requires |path| >= 1
    ensures |r| == |path| - 1
    ensures forall i :: 1 <= i < |path| ==> r[i - 1] == TrimChar(Render(path[i]), '"')
  {
    if |path| == 1 then [] else [TrimChar(Render(path[1]), '"')] + UnquotedPath(path[1..])
  }

  /** A term as ast.Term.String renders it: a variable bare, a string through strconv.Quote. */
  function Render(t: Term): string {
    match t
    case Var(n) => n
    case Str(s) => Quote(s)
  }

  /**
   * The characters strconv.Quote writes with a backslash escape of its own:
   * the quote, the backslash and the control characters with a letter name.
   */
  function EscapeChar(c: char): (r: string)
    ensures |r| >= 1
    ensures |r| == 1 <==> r == [c]
  {
    match c
    case '"' => "\\\""
    case '\\' => "\\\\"
    case '\n' => "\\n"
    case '\t' => "\\t"
    case '\r' => "\\r"
    case '\U{0007}' => "\\a"
    case '\U{0008}' => "\\b"
    case '\U{000B}' => "\\v"
    case '\U{000C}' => "\\f"
    case _ => [c]
  }

  /** strconv.Quote: the escaped characters between double quotes. */
  function Quote(s: string): (r: string)
    ensures |r| >= |s| + 2 && r[0] == '"' && r[|r| - 1] == '"'
  {
    "\"" + Escaped(s) + "\""
  }

  function Escaped(s: string): (r: string)
    ensures |r| >= |s|
  {
    if s == [] then [] else EscapeChar(s[0]) + Escaped(s[1..])
  }

  /** A character that strconv.Quote writes as it is. */
  predicate Plain(c: char) {
    EscapeChar(c) == [c]
  }

  /** Text of plain characters is quoted as it is, between double quotes. */
  lemma {:induction false} EscapedPlain(s: string)
    requires forall i :: 0 <= i < |s| ==> Plain(s[i])
    ensures Escaped(s) == s
  {
    if s != [] {
      EscapedPlain(s[1..]);
      assert [s[0]] + s[1..] == s;
    }
  }

  /** A string term of plain characters unquotes to its own text. */
  lemma UnquotedPlainString(head: Term, s: string)
    requires forall i :: 0 <= i < |s| ==> Plain(s[i])
    ensures UnquotedPath([head, Str(s)]) == [s]
  {
    EscapedPlain(s);
    assert '"' !in s by {
      forall i | 0 <= i < |s| ensures s[i] != '"' {
        assert Plain(s[i]);
      }
    }
    TrimCharNoop(s, '"');
    QuotedTrim(s);
    assert [head, Str(s)][1..] == [Str(s)];
  }

  /** Trimming the outer quotes of quoted text that does not start with a quote. */
  lemma QuotedTrim(s: string)
    requires s == [] || s[0] != '"'
    ensures TrimChar("\"" + s + "\"", '"') == TrimChar(s, '"')
  {
    var q := "\"" + s + "\"";
    assert q[1..] == s + "\"";
    assert TrimChar(q, '"') == TrimChar(s + "\"", '"');
    if s != [] {
      assert (s + "\"")[0] == s[0];
      assert (s + "\"")[..|s|] == s;
    }
  }

  /**
   * A quote inside a segment keeps its backslash escape: `a"` renders as
   * `"a\""`, and trimming the outer quotes leaves `a\`.
   */
  lemma UnquotedEscapedQuote(head: Term)
    ensures UnquotedPath([head, Str("a\"")]) == ["a\\"]
  {
    var e := Escaped("a\"");
    assert e == "a\\\"" by {
      assert Escaped("\"") == "\\\"" + Escaped([]);
      assert "a\""[1..] == "\"";
    }
    QuotedTrim(e);
    var t := e + "\"";
    assert t[..|t| - 1] == e;
    assert e[..|e| - 1] == "a\\";
    assert TrimChar("a\\", '"') == "a\\";
    assert [head, Str("a\"")][1..] == [Str("a\"")];
  }
}
