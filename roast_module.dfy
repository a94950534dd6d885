/**
 * The module-to-value transform of internal/roast/transforms/module/module.go:
 * a parsed Rego module becomes a RoAST value, an object whose keys appear
 * only when the module has something to put under them, and whose terms
 * carry their "row:col:endRow:endCol" location strings.
 */
module RoastModule {
  import opened Wrappers
  import opened Utf8
  import opened RoastLocation

  /** A RoAST value: JSON-like data as OPA's ast.Value holds it. */
  datatype Value = Null | Bool(b: bool) | Str(s: string) | Arr(items: seq<Value>) | Obj(fields: map<string, Value>)

  /**
   * An ast.Term: the name of its value's type, its value already in RoAST
   * form (None is Go's nil Value) and its location, if any.
   */
  datatype Term = Term(typeName: string, value: Option<Value>, location: Option<Location>)

  /** An ast.Annotations block, with the fields this model keeps. */
  datatype Annotation = Annotation(
    scope: string, title: string, entrypoint: bool, description: string,
    organizations: seq<string>, location: Option<Location>)

  /** ast.Package: the path is absent (nil) or a sequence of terms. */
  datatype Package = Package(path: Option<seq<Term>>, location: Option<Location>)

  datatype Import = Import(path: Term, alias: string, location: Option<Location>)

  datatype Comment = Comment(text: seq<Byte>, location: Location)

  /** ast.Module; rules of type R are converted by a function the caller gives. */
  datatype Module<R> = Module(
    package: Option<Package>, annotations: seq<Annotation>, imports: seq<Import>, rules: seq<R>, comments: seq<Comment>)

  /** item: a key with its value, Go's nil value becoming null. */
  function Item(key: string, value: Option<Value>): (r: (string, Value))
    ensures r.0 == key
    ensures value.Some? ==> r.1 == value.value
    ensures value.None? ==> r.1 == Null
  {
    (key, if value.Some? then value.value else Null)
  }

  /** insert: adds a key to an object unless the value is Go's nil. */
  function Insert(obj: map<string, Value>, key: string, value: Option<Value>): (r: map<string, Value>)
    ensures value.None? ==> r == obj
    ensures value.Some? ==> r.Keys == obj.Keys + {key} && r[key] == value.value
    ensures forall k :: k in obj && k != key ==> k in r && r[k] == obj[k]
  {
    if value.None? then obj else obj[key := value.value]
  }

  /** locationItem: the "location" key with the location's RoAST string. */
  function LocationItem(loc: Location): (r: (string, Value))
    ensures r.0 == "location"
    ensures r.1 == Str(LocationString(loc.row, loc.col, CodecEnd(loc)))
  {
    ItemEndAgrees(loc);
    Item("location", Some(Str(LocationString(loc.row, loc.col, ItemEnd(loc)))))
  }

  /** The location string of a locationItem reads back as the start and the end. */
  lemma LocationItemReadsBack(loc: Location)
    ensures LocationItem(loc).1.Str?
    ensures ParseLocationString(LocationItem(loc).1.s) == Some((loc.row, loc.col, CodecEnd(loc).row, CodecEnd(loc).col))
  {
    LocationStringRoundTrip(loc.row, loc.col, CodecEnd(loc));
  }

  /** objectWithLocation: an object holding only the location, or an empty one. */
  function ObjectWithLocation(loc: Option<Location>): (r: map<string, Value>)
    ensures loc.None? ==> r == map[]
    ensures loc.Some? ==> r.Keys == {"location"} && r["location"] == LocationItem(loc.value).1
  {
    if loc.None? then map[] else var (k, v) := LocationItem(loc.value); map[k := v]
  }

  /**
   * termToObjectLoc: an absent term is the empty object, a term without a
   * value is nil, and otherwise its type and value, with its location when
   * it has one and `includeLocation` asks for it.
   */
  function TermToObject(term: Option<Term>, includeLocation: bool): (r: Option<Value>)
    ensures term.None? ==> r == Some(Obj(map[]))
    ensures term.Some? && term.value.value.None? ==> r.None?
    ensures term.Some? && term.value.value.Some? ==>
      && r.Some? && r.value.Obj? && "type" in r.value.fields && "value" in r.value.fields
      && r.value.fields["type"] == Str(term.value.typeName)
      && r.value.fields["value"] == term.value.value.value
      && ("location" in r.value.fields <==> includeLocation && term.value.location.Some?)
      && r.value.fields.Keys <= {"type", "value", "location"}
  {
    match term
    case None => Some(Obj(map[]))
    case Some(t) =>
      if t.value.None? then None
      else
        var ty, val := Item("type", Some(Str(t.typeName))), Item("value", t.value);
        if t.location.Some? && includeLocation then
          var loc := LocationItem(t.location.value);
          Some(Obj(map[ty.0 := ty.1, val.0 := val.1, loc.0 := loc.1]))
        else Some(Obj(map[ty.0 := ty.1, val.0 := val.1]))
  }

  /** A path's terms all have values, as the parser gives them. */
  predicate Valued(terms: seq<Term>) {
    forall i :: 0 <= i < |terms| ==> terms[i].value.Some?
  }

  /** termToObjectLoc on a term known to have a value. */
  function TermObject(term: Term, includeLocation: bool): Value
    requires term.value.Some?
  {
    TermToObject(Some(term), includeLocation).value
  }

  /** The RoAST objects of a path's terms, the first one without its location. */
  function PathTerms(terms: seq<Term>, from: nat): (r: seq<Value>)
    requires Valued(terms) && from <= |terms|
    ensures |r| == |terms| - from
    ensures forall i :: 0 <= i < |r| ==> r[i] == TermObject(terms[from + i], from + i != 0)
    decreases |terms| - from
  {
    if from == |terms| then [] else [TermObject(terms[from], from != 0)] + PathTerms(terms, from + 1)
  }

  /** pathArray: the empty array for an empty path; otherwise one object per term, only the first lacking a location. */
  function PathArray(terms: seq<Term>): (r: Value)
    requires Valued(terms)
    ensures |terms| == 0 ==> r == Arr([])
    ensures r.Arr? && |r.items| == |terms|
    ensures |terms| > 0 ==> r.items[0].Obj? && "location" !in r.items[0].fields
    ensures forall i :: 0 < i < |terms| ==> r.items[i].Obj? && ("location" in r.items[i].fields <==> terms[i].location.Some?)
  {
    if |terms| == 0 then Arr([]) else Arr(PathTerms(terms, 0))
  }

  /** A base-64 digit of the standard alphabet. */
  function Base64Digit(n: nat): char
    requires n < 64
  {
    if n < 26 then ('A' as int + n) as char
    else if n < 52 then ('a' as int + n - 26) as char
    else if n < 62 then ('0' as int + n - 52) as char
    else if n == 62 then '+' else '/'
  }

  /** base64.StdEncoding.EncodeToString: four digits per three bytes, padded with '='. */
  function Base64(b: seq<Byte>): (r: string)
    ensures |r| == 4 * ((|b| + 2) / 3)
  {
    if |b| == 0 then ""
    else if |b| == 1 then [Base64Digit(b[0] / 4), Base64Digit((b[0] % 4) * 16)] + "=="
    else if |b| == 2 then
      [Base64Digit(b[0] / 4), Base64Digit((b[0] % 4) * 16 + b[1] / 16), Base64Digit((b[1] % 16) * 4)] + "="
    else
      [Base64Digit(b[0] / 4), Base64Digit((b[0] % 4) * 16 + b[1] / 16),
       Base64Digit((b[1] % 16) * 4 + b[2] / 64), Base64Digit(b[2] % 64)] + Base64(b[3..])
  }

  /** The fields of an annotation block that this model keeps, each only when set. */
  function AnnotationObject(a: Annotation): (r: Value)
    ensures r.Obj?
    ensures "scope" in r.fields <==> |a.scope| > 0
    ensures "title" in r.fields <==> |a.title| > 0
    ensures "entrypoint" in r.fields <==> a.entrypoint
  {
    var o := ObjectWithLocation(a.location);
    var o := if |a.scope| > 0 then o["scope" := Str(a.scope)] else o;
    var o := if |a.title| > 0 then o["title" := Str(a.title)] else o;
    var o := if a.entrypoint then o["entrypoint" := Bool(true)] else o;
    var o := if |a.description| > 0 then o["description" := Str(a.description)] else o;
    var o := if |a.organizations| > 0 then o["organizations" := Arr(Strs(a.organizations))] else o;
    Obj(o)
  }

  function Strs(ss: seq<string>): (r: seq<Value>)
    ensures |r| == |ss|
  {
    if |ss| == 0 then [] else [Str(ss[0])] + Strs(ss[1..])
  }

  /** The package annotations kept on the package: every one not scoped to the document or a rule. */
  function PackageAnnotations(annotations: seq<Annotation>): (r: seq<Value>)
    ensures |r| <= |annotations|
    ensures forall a :: a in annotations && a.scope != "document" && a.scope != "rule" ==> AnnotationObject(a) in r
    ensures forall v :: v in r ==> exists a :: a in annotations && a.scope != "document" && a.scope != "rule" && v == AnnotationObject(a)
  {
    if |annotations| == 0 then []
    else
      var rest := PackageAnnotations(annotations[1..]);
      var a := annotations[0];
      assert forall x :: x in annotations <==> x == a || x in annotations[1..];
      if a.scope != "document" && a.scope != "rule" then [AnnotationObject(a)] + rest else rest
  }

  /** packageToValue: location, the path when there is one, and the kept annotations when there are any. */
  function PackageValue(pkg: Package, annotations: seq<Annotation>): (r: Value)
    requires pkg.path.Some? ==> Valued(pkg.path.value)
    ensures r.Obj?
    ensures "path" in r.fields <==> pkg.path.Some?
    ensures "annotations" in r.fields <==> |PackageAnnotations(annotations)| > 0
    ensures "location" in r.fields <==> pkg.location.Some?
  {
    var o := ObjectWithLocation(pkg.location);
    var o := if pkg.path.Some? then o["path" := PathArray(pkg.path.value)] else o;
    var kept := PackageAnnotations(annotations);
    Obj(if |kept| > 0 then o["annotations" := Arr(kept)] else o)
  }

  /** An import's object: location, path and, when set, the alias. */
  function ImportValue(imp: Import): (r: Value)
    requires imp.path.value.Some?
    ensures r.Obj? && "path" in r.fields && ("alias" in r.fields <==> imp.alias != "")
  {
    var o := ObjectWithLocation(imp.location)["path" := TermObject(imp.path, true)];
    Obj(if imp.alias != "" then o["alias" := Str(imp.alias)] else o)
  }

  /** A comment's object: its text in base 64, and its location. */
  function CommentValue(c: Comment): Value {
    var (tk, tv) := Item("text", Some(Str(Base64(c.text))));
    var (lk, lv) := LocationItem(c.location);
    Obj(map[tk := tv, lk := lv])
  }

  /** The terms a module's parts hold have values, as the parser gives them. */
  predicate WellFormed<R>(mod: Module<R>) {
    && (mod.package.Some? && mod.package.value.path.Some? ==> Valued(mod.package.value.path.value))
    && forall i :: 0 <= i < |mod.imports| ==> mod.imports[i].path.value.Some?
  }

  function ImportValues(imports: seq<Import>): (r: seq<Value>)
    requires forall i :: 0 <= i < |imports| ==> imports[i].path.value.Some?
    ensures |r| == |imports|
    ensures forall i :: 0 <= i < |imports| ==> r[i] == ImportValue(imports[i])
  {
    if |imports| == 0 then [] else [ImportValue(imports[0])] + ImportValues(imports[1..])
  }

  function CommentValues(comments: seq<Comment>): (r: seq<Value>)
    ensures |r| == |comments|
    ensures forall i :: 0 <= i < |comments| ==> r[i] == CommentValue(comments[i])
  {
    if |comments| == 0 then [] else [CommentValue(comments[0])] + CommentValues(comments[1..])
  }

  function RuleValues<R>(rules: seq<R>, ruleToObject: R -> Value): (r: seq<Value>)
    ensures |r| == |rules|
    ensures forall i :: 0 <= i < |rules| ==> r[i] == ruleToObject(rules[i])
  {
    if |rules| == 0 then [] else [ruleToObject(rules[0])] + RuleValues(rules[1..], ruleToObject)
  }

  /**
   * The RoAST value of a module: "package" when it has one, and "imports",
   * "rules" and "comments" only when there are any, each in the module's order.
   */
  function ModuleValue<R>(mod: Module<R>, ruleToObject: R -> Value): (r: Value)
    requires WellFormed(mod)
    ensures r.Obj? && r.fields.Keys <= {"package", "imports", "rules", "comments"}
    ensures "package" in r.fields <==> mod.package.Some?
    ensures "imports" in r.fields <==> |mod.imports| > 0
    ensures "rules" in r.fields <==> |mod.rules| > 0
    ensures "comments" in r.fields <==> |mod.comments| > 0
    ensures "imports" in r.fields ==> r.fields["imports"] == Arr(ImportValues(mod.imports))
    ensures "rules" in r.fields ==> r.fields["rules"] == Arr(RuleValues(mod.rules, ruleToObject))
    ensures "comments" in r.fields ==> r.fields["comments"] == Arr(CommentValues(mod.comments))
  {
    var o: map<string, Value> := map[];
    var o := if mod.package.Some? then o["package" := PackageValue(mod.package.value, mod.annotations)] else o;
    var o := if |mod.imports| > 0 then o["imports" := Arr(ImportValues(mod.imports))] else o;
    var o := if |mod.rules| > 0 then o["rules" := Arr(RuleValues(mod.rules, ruleToObject))] else o;
    var o := if |mod.comments| > 0 then o["comments" := Arr(CommentValues(mod.comments))] else o;
    Obj(o)
  }

  /** ToValue: inserts each part of the module that is present, the imports and comments built slot by slot. */
  method ToValue<R>(mod: Module<R>, ruleToObject: R -> Value) returns (r: Value)
    requires WellFormed(mod)
    ensures r == ModuleValue(mod, ruleToObject)
  {
    var value: map<string, Value> := map[];
    if mod.package.Some? {
      value := value["package" := PackageValue(mod.package.value, mod.annotations)];
    }
    if |mod.imports| > 0 {
      var imports := ImportsArray(mod.imports);
      value := value["imports" := Arr(imports)];
    }
    if |mod.rules| > 0 {
      value := value["rules" := Arr(RuleValues(mod.rules, ruleToObject))];
    }
    if |mod.comments| > 0 {
      var comments := CommentsArray(mod.comments);
      value := value["comments" := Arr(comments)];
    }
    r := Obj(value);
  }

  /** The imports array of ToValue, one object per import in order. */
  method ImportsArray(imports: seq<Import>) returns (r: seq<Value>)
    requires forall i :: 0 <= i < |imports| ==> imports[i].path.value.Some?
    ensures r == ImportValues(imports)
  {
    var a := new Value[|imports|];
    for i := 0 to |imports|
      invariant forall j :: 0 <= j < i ==> a[j] == ImportValue(imports[j])
    {
      a[i] := ImportValue(imports[i]);
    }
    r := a[..];
  }

  /** The comments array of ToValue, one object per comment in order. */
  method CommentsArray(comments: seq<Comment>) returns (r: seq<Value>)
    ensures r == CommentValues(comments)
  {
    var a := new Value[|comments|];
    ghost var values := CommentValues(comments);
    for i := 0 to |comments|
      invariant a[..i] == values[..i]
    {
      a[i] := CommentValue(comments[i]);
      assert a[..i + 1] == a[..i] + [values[i]];
    }
    assert a[..] == a[..|comments|];
    r := a[..];
  }
}
