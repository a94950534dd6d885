/**
 * The directory-package-mismatch fix of
 * pkg/fixer/fixes/directorypackagemismatch.go: a policy file is moved to
 * the directory its package name calls for, below the base directory.
 * Parsing the module is the parser's business: the model is given the
 * parser's outcome, the rendered terms of the package path (its first term
 * being `data`), or the parser's error.
 */
module DirectoryPackageMismatch {
  import opened Wrappers
  import opened GoStrings
  import opened GoPath
  import opened RegalConfig
  import opened FixTypes

  const Name := "directory-package-mismatch"

  const IrregularNameMessage := "can only handle [a-zA-Z0-9_-] characters in package name, got: "

  predicate NameStart(c: char) {
    'a' <= c <= 'z' || 'A' <= c <= 'Z' || c == '_'
  }

  predicate NameChar(c: char) {
    NameStart(c) || IsDigit(c) || c == '-'
  }

  /** The regular expression `^[a-zA-Z_][a-zA-Z0-9_-]*$`. */
  predicate RegularName(s: string) {
    |s| > 0 && NameStart(s[0]) && forall i :: 1 <= i < |s| ==> NameChar(s[i])
  }

  /**
   * shouldExcludeTestSuffix: the boolean `exclude-test-suffix` attribute of
   * the rule's configuration; true without a configuration, without the
   * attribute, or when the attribute is not a boolean.
   */
  function ShouldExcludeTestSuffix(config: Option<Config>): (r: bool)
    ensures !r <==>
      && config.Some?
      && "idiomatic" in config.value.rules
      && Name in config.value.rules["idiomatic"]
      && "exclude-test-suffix" in config.value.rules["idiomatic"][Name].extra
      && config.value.rules["idiomatic"][Name].extra["exclude-test-suffix"] == Bool(false)
  {
    if config.None? then true
    else if "idiomatic" !in config.value.rules then true
    else if Name !in config.value.rules["idiomatic"] then true
    else
      var extra := config.value.rules["idiomatic"][Name].extra;
      if "exclude-test-suffix" in extra && extra["exclude-test-suffix"].Bool? then extra["exclude-test-suffix"].b
      else true
  }

  /** Each term's text with its surrounding double quotes trimmed. */
  function Unquoted(terms: seq<string>): (r: seq<string>)
    ensures |r| == |terms|
  {
    seq(|terms|, i requires 0 <= i < |terms| => TrimChar(terms[i], '"'))
  }

  /** The position of the first text that is not a regular name, or -1. */
  function FirstIrregular(texts: seq<string>): (r: int)
    ensures -1 <= r < |texts|
    ensures r >= 0 ==> !RegularName(texts[r])
    ensures forall j :: 0 <= j < |texts| && (r < 0 || j < r) ==> RegularName(texts[j])
  {
    if |texts| == 0 then -1
    else if !RegularName(texts[0]) then 0
    else
      var k := FirstIrregular(texts[1..]);
      assert forall j :: 1 <= j < |texts| ==> texts[j] == texts[1..][j - 1];
      if k < 0 then -1 else k + 1
  }

  /** The directory names: the texts, with "_test" cut from the last one when so configured. */
  function DirectoryParts(texts: seq<string>, excludeTestSuffix: bool): (r: seq<string>)
    ensures |r| == |texts|
  {
    if excludeTestSuffix && |texts| > 0 then texts[..|texts| - 1] + [TrimSuffix(texts[|texts| - 1], "_test")]
    else texts
  }

  /**
   * The package's directory relative to the root, or the error: the
   * parser's, or the first package-path part that is not a regular name.
   */
  function PackageDirectory(parsed: Result<seq<string>>, config: Option<Config>): (r: Result<string>)
    requires parsed.Ok? ==> |parsed.value| >= 1
    ensures parsed.Err? ==> r == Err(parsed.error)
    ensures parsed.Ok? ==>
      (r.Err? <==> exists i :: 1 <= i < |parsed.value| && !RegularName(TrimChar(parsed.value[i], '"')))
    ensures parsed.Ok? && r.Err? ==>
      exists i :: 1 <= i < |parsed.value| && r.error == IrregularNameMessage + TrimChar(parsed.value[i], '"')
  {
    if parsed.Err? then Err(parsed.error)
    else
      var texts := Unquoted(parsed.value[1..]);
      var k := FirstIrregular(texts);
      assert forall j :: 0 <= j < |texts| ==> texts[j] == TrimChar(parsed.value[j + 1], '"');
      if k >= 0 then Err(IrregularNameMessage + texts[k])
      else
        assert forall i :: 1 <= i < |parsed.value| ==> TrimChar(parsed.value[i], '"') == texts[i - 1];
        Ok(JoinPath(DirectoryParts(texts, ShouldExcludeTestSuffix(config))))
  }

  /** getPackagePathDirectory: the directory names are filled into an array, then joined. */
  method GetPackagePathDirectory(parsed: Result<seq<string>>, config: Option<Config>) returns (r: Result<string>)
    requires parsed.Ok? ==> |parsed.value| >= 1
    ensures r == PackageDirectory(parsed, config)
  {
    if parsed.Err? {
      return Err(parsed.error);
    }
    var path := parsed.value;
    var excludeTestSuffix := ShouldExcludeTestSuffix(config);
    var parts, bad := FillParts(path[1..], excludeTestSuffix);
    DirectoryAt(parsed, config, if bad < 0 then |path| - 1 else bad);
    if bad >= 0 {
      return Err(IrregularNameMessage + TrimChar(path[1..][bad], '"'));
    }
    return Ok(JoinPath(parts[..]));
  }

  /**
   * The loop of getPackagePathDirectory: each term, unquoted, must be a
   * regular name; its directory name goes into the array.  `bad` is the
   * position of the first irregular one, -1 when there is none.
   */
  method FillParts(pathWithoutData: seq<string>, excludeTestSuffix: bool) returns (parts: array<string>, bad: int)
    ensures var texts := Unquoted(pathWithoutData);
      && -1 <= bad < |texts|
      && (forall j :: 0 <= j < |texts| && (bad < 0 || j < bad) ==> RegularName(texts[j]))
      && (bad >= 0 ==> !RegularName(texts[bad]))
      && (bad < 0 ==> parts[..] == DirectoryParts(texts, excludeTestSuffix))
  {
    parts := new string[|pathWithoutData|];
    ghost var texts := Unquoted(pathWithoutData);
    ghost var wanted := DirectoryParts(texts, excludeTestSuffix);
    var i := 0;
    while i < |pathWithoutData|
      invariant 0 <= i <= |pathWithoutData|
      invariant forall j :: 0 <= j < i ==> RegularName(texts[j])
      invariant parts[..i] == wanted[..i]
    {
      var text := TrimChar(pathWithoutData[i], '"');
      assert text == texts[i];
      if !RegularName(text) {
        return parts, i;
      }
      if i == |pathWithoutData| - 1 && excludeTestSuffix {
        text := TrimSuffix(text, "_test");
      }
      parts[i] := text;
      assert parts[..i + 1] == parts[..i] + [text];
      i := i + 1;
    }
    assert parts[..] == wanted;
    return parts, -1;
  }

  /** The package directory once the texts have been checked up to `i`. */
  lemma DirectoryAt(parsed: Result<seq<string>>, config: Option<Config>, i: nat)
    requires parsed.Ok? && |parsed.value| >= 1
    requires i <= |parsed.value| - 1
    requires var texts := Unquoted(parsed.value[1..]);
      && (forall j :: 0 <= j < i ==> RegularName(texts[j]))
      && (i < |texts| ==> !RegularName(texts[i]))
    ensures var texts := Unquoted(parsed.value[1..]);
      PackageDirectory(parsed, config) ==
        if i < |texts| then Err(IrregularNameMessage + texts[i])
        else Ok(JoinPath(DirectoryParts(texts, ShouldExcludeTestSuffix(config))))
  {
    FirstIrregularAt(Unquoted(parsed.value[1..]), i);
  }

  /** The first irregular text is found where every earlier one is regular. */
  lemma FirstIrregularAt(texts: seq<string>, i: nat)
    requires i <= |texts|
    requires forall j :: 0 <= j < i ==> RegularName(texts[j])
    requires i < |texts| ==> !RegularName(texts[i])
    ensures FirstIrregular(texts) == if i < |texts| then i else -1
  {
  }

  /** The package directory of a well-formed path is its names joined by "/", as they are. */
  lemma PlainPackageDirectory(parsed: Result<seq<string>>, config: Option<Config>)
    requires parsed.Ok? && |parsed.value| >= 2
    requires forall i :: 1 <= i < |parsed.value| ==> RegularName(TrimChar(parsed.value[i], '"'))
    requires !HasSuffix(TrimChar(parsed.value[|parsed.value| - 1], '"'), "_test")
    ensures PackageDirectory(parsed, config) == Ok(Join(Unquoted(parsed.value[1..]), "/"))
  {
    var texts := Unquoted(parsed.value[1..]);
    assert forall j :: 0 <= j < |texts| ==> texts[j] == TrimChar(parsed.value[j + 1], '"');
    assert DirectoryParts(texts, ShouldExcludeTestSuffix(config)) == texts;
    forall j | 0 <= j < |texts| ensures PlainName(texts[j]) {
      RegularIsPlain(texts[j]);
    }
    CleanPlain(texts);
  }

  lemma RegularIsPlain(s: string)
    requires RegularName(s)
    ensures PlainName(s)
  {
    if '/' in s {
      var i :| 0 <= i < |s| && s[i] == '/';
    }
  }

  /**
   * A test package shares its directory with the package under test:
   * `foo_test` and `foo` end up in the same place unless the configuration
   * sets exclude-test-suffix to false.
   */
  lemma TestPackageSharesDirectory(init: seq<string>, name: string, config: Option<Config>)
    requires ShouldExcludeTestSuffix(config)
    requires RegularName(name) && !HasSuffix(name, "_test")
    ensures var withTest := Unquoted(init + ["\"" + name + "_test\""]);
      var plain := Unquoted(init + ["\"" + name + "\""]);
      DirectoryParts(withTest, ShouldExcludeTestSuffix(config)) == DirectoryParts(plain, ShouldExcludeTestSuffix(config))
  {
    var withTest := Unquoted(init + ["\"" + name + "_test\""]);
    var plain := Unquoted(init + ["\"" + name + "\""]);
    assert withTest[..|init|] == plain[..|init|];
    assert "\"" + name + "_test\"" == "\"" + (name + "_test") + "\"";
    TrimQuoted(name + "_test");
    TrimQuoted(name);
    assert withTest[|init|] == name + "_test";
    assert plain[|init|] == name;
    assert name + "_test" == (name + "_test")[..|name|] + "_test";
  }

  /** Trimming the quotes off a quoted text whose own ends are not quotes. */
  lemma TrimQuoted(x: string)
    requires |x| > 0 && x[0] != '"' && x[|x| - 1] != '"'
    ensures TrimChar("\"" + x + "\"", '"') == x
  {
    var s := "\"" + x + "\"";
    var t := x + "\"";
    assert s[0] == '"' && s[1..] == t;
    assert TrimChar(s, '"') == TrimChar(t, '"');
    assert t[0] == x[0] && t[|t| - 1] == '"' && t[..|t| - 1] == x;
    assert TrimChar(t, '"') == TrimChar(x, '"');
  }

  /** cmp.Or(BaseDir, filepath.Dir(Filename)), cleaned: the directory the package path is resolved against. */
  function Root(filename: string, baseDir: string): string {
    Clean(if baseDir != "" then baseDir else Dir(filename))
  }

  /** Where the file belongs: the root, then the package directory, then the file's own name. */
  function Target(filename: string, baseDir: string, directory: string): string {
    JoinPath([Root(filename, baseDir), directory, Base(filename)])
  }

  /**
   * DirectoryPackageMismatch.Fix: no result when the file is already where
   * its package says, otherwise one rename to that place with the contents
   * unchanged; the error of the package directory is passed on.
   */
  function Fix(fc: FixCandidate, parsed: Result<seq<string>>, opts: RuntimeOptions): (r: Result<seq<FixResult>>)
    requires parsed.Ok? ==> |parsed.value| >= 1
    ensures r.Err? <==> PackageDirectory(parsed, opts.config).Err?
    ensures r.Err? ==> r.error == PackageDirectory(parsed, opts.config).error
    ensures r.Ok? ==> |r.value| <= 1
    ensures r.Ok? ==> var target := Target(fc.filename, opts.baseDir, PackageDirectory(parsed, opts.config).value);
      && (|r.value| == 0 <==> target == fc.filename)
      && (|r.value| == 1 ==>
        r.value[0] == FixResult(Name, Root(fc.filename, opts.baseDir), fc.contents, Some(Rename(fc.filename, target))))
  {
    var pkgPath :- PackageDirectory(parsed, opts.config);
    var rootPath := Root(fc.filename, opts.baseDir);
    var newPath := JoinPath([rootPath, pkgPath, Base(fc.filename)]);
    if newPath == fc.filename then Ok([])
    else Ok([FixResult(Name, rootPath, fc.contents, Some(Rename(fc.filename, newPath)))])
  }

  /**
   * With a base directory and a package directory of plain names, the
   * target is their join followed by the file's name, and a file moved
   * there is left alone by a second run of the fix.
   */
  lemma FixSettles(fc: FixCandidate, parsed: Result<seq<string>>, opts: RuntimeOptions,
                   rootElems: seq<string>, dirElems: seq<string>, rooted: bool)
    requires parsed.Ok? && |parsed.value| >= 1
    requires |rootElems| > 0 && forall i :: 0 <= i < |rootElems| ==> PlainName(rootElems[i])
    requires |dirElems| > 0 && forall i :: 0 <= i < |dirElems| ==> PlainName(dirElems[i])
    requires opts.baseDir == (if rooted then "/" else "") + Join(rootElems, "/")
    requires PackageDirectory(parsed, opts.config) == Ok(Join(dirElems, "/"))
    requires PlainName(Base(fc.filename))
    ensures var target := (if rooted then "/" else "") + Join(rootElems + dirElems + [Base(fc.filename)], "/");
      && Target(fc.filename, opts.baseDir, Join(dirElems, "/")) == target
      && Fix(fc.(filename := target), parsed, opts) == Ok([])
  {
    var name := Base(fc.filename);
    var target := PlainTarget(opts.baseDir, rootElems, dirElems, name, rooted);
    assert Root(fc.filename, opts.baseDir) == opts.baseDir;
    assert Root(target, opts.baseDir) == opts.baseDir;
    BaseOfPlainTail(opts.baseDir + "/" + Join(dirElems, "/"), name);
  }

  /** The joined and cleaned path below a plain base directory. */
  lemma PlainTarget(baseDir: string, rootElems: seq<string>, dirElems: seq<string>, name: string, rooted: bool)
    returns (target: string)
    requires |rootElems| > 0 && forall i :: 0 <= i < |rootElems| ==> PlainName(rootElems[i])
    requires |dirElems| > 0 && forall i :: 0 <= i < |dirElems| ==> PlainName(dirElems[i])
    requires PlainName(name)
    requires baseDir == (if rooted then "/" else "") + Join(rootElems, "/")
    ensures target == (if rooted then "/" else "") + Join(rootElems + dirElems + [name], "/")
    ensures target == baseDir + "/" + Join(dirElems, "/") + "/" + name
    ensures Clean(baseDir) == baseDir
    ensures JoinPath([baseDir, Join(dirElems, "/"), name]) == target
  {
    var prefix := if rooted then "/" else "";
    var elems := rootElems + dirElems + [name];
    forall i | 0 <= i < |elems| ensures PlainName(elems[i]) {
      if i < |rootElems| {
        assert elems[i] == rootElems[i];
      } else if i < |rootElems| + |dirElems| {
        assert elems[i] == dirElems[i - |rootElems|];
      }
    }
    CleanBoth(rootElems, rooted);
    CleanBoth(elems, rooted);
    var a, b := Join(rootElems, "/"), Join(dirElems, "/");
    JoinAppend(rootElems, dirElems, "/");
    JoinAppend(rootElems + dirElems, [name], "/");
    assert Join(elems, "/") == a + "/" + b + "/" + name;
    target := prefix + Join(elems, "/");
    PathAssoc(prefix, a, b, name);
    JoinThree(baseDir, b, name);
  }

  lemma PathAssoc(prefix: string, a: string, b: string, name: string)
    ensures prefix + (a + "/" + b + "/" + name) == (prefix + a) + "/" + b + "/" + name
  {
  }

  lemma JoinThree(x: string, y: string, z: string)
    ensures Join([x, y, z], "/") == x + "/" + y + "/" + z
  {
    assert [x, y, z][1..] == [y, z];
    assert [y, z][1..] == [z];
    assert Join([y, z], "/") == y + "/" + z;
    assert Join([x, y, z], "/") == x + "/" + (y + "/" + z);
  }

  lemma CleanBoth(elems: seq<string>, rooted: bool)
    requires |elems| > 0 && forall i :: 0 <= i < |elems| ==> PlainName(elems[i])
    ensures Clean((if rooted then "/" else "") + Join(elems, "/")) == (if rooted then "/" else "") + Join(elems, "/")
  {
    if rooted {
      CleanPlainRooted(elems);
    } else {
      CleanPlain(elems);
      assert "" + Join(elems, "/") == Join(elems, "/");
    }
  }
}
