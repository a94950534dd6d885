/**
 * Ignore patterns (pkg/config/filter.go): a gitignore-style pattern is
 * expanded into glob patterns, and a path is dropped when any of them
 * matches it.  The globs are matched with '/' as the separator: `*` and `?`
 * stay within one path element, `**` crosses elements.
 */
module PathFilter {
  import opened Wrappers
  import opened GoStrings

  /**
   * Glob matching with '/' as the separator, for patterns made of literal
   * characters, `?`, `*` and `**`.
   */
  predicate Match(p: string, s: string)
    decreases |p| + |s|
  {
    if |p| == 0 then |s| == 0
    else if HasPrefix(p, "**") then Match(p[2..], s) || (|s| > 0 && Match(p, s[1..]))
    else if p[0] == '*' then Match(p[1..], s) || (|s| > 0 && s[0] != '/' && Match(p, s[1..]))
    else if p[0] == '?' then |s| > 0 && s[0] != '/' && Match(p[1..], s[1..])
    else |s| > 0 && s[0] == p[0] && Match(p[1..], s[1..])
  }

  /** A text with no glob metacharacter matches only itself. */
  predicate Literal(t: string) {
    '*' !in t && '?' !in t
  }

  /**
   * The first two steps of excludeFile: a pattern with no '/' before its
   * last character may match anywhere, so "**\/" goes in front; then a
   * leading '/' is dropped.
   */
  function Anchor(pattern: string): (r: string)
    requires |pattern| > 0
    ensures '/' !in pattern[..|pattern| - 1] ==> r == "**/" + pattern
    ensures '/' in pattern[..|pattern| - 1] ==> r == TrimPrefix(pattern, "/")
  {
    var p := if '/' !in pattern[..|pattern| - 1] then "**/" + pattern else pattern;
    assert HasPrefix(p, "/") ==> p == pattern by {
      if '/' !in pattern[..|pattern| - 1] {
        assert p[0] == '*';
      }
    }
    TrimPrefix(p, "/")
  }

  /** A pattern starting with "**\/" is also tried without it. */
  function Variants(p: string): seq<string> {
    if HasPrefix(p, "**/") then [p, TrimPrefix(p, "**/")] else [p]
  }

  /**
   * A pattern ending in '/' matches what lies below the directory; one
   * ending in neither '/' nor "**" matches the path itself or what lies
   * below it.
   */
  function Expansions(p: string): (r: seq<string>)
    ensures HasSuffix(p, "/") ==> r == [p + "**"]
    ensures !HasSuffix(p, "/") && !HasSuffix(p, "**") ==> r == [p, p + "/**"]
    ensures HasSuffix(p, "**") && !HasSuffix(p, "/") ==> r == [p]
  {
    if HasSuffix(p, "/") then [p + "**"]
    else if !HasSuffix(p, "/") && !HasSuffix(p, "**") then [p, p + "/**"]
    else [p]
  }

  function ExpandAll(ps: seq<string>): seq<string> {
    if |ps| == 0 then [] else ExpandAll(ps[..|ps| - 1]) + Expansions(ps[|ps| - 1])
  }

  /** The glob patterns a pattern stands for. */
  function Candidates(pattern: string): seq<string>
    requires |pattern| > 0
  {
    ExpandAll(Variants(Anchor(pattern)))
  }

  /** excludeFile's answer: some candidate matches the file name. */
  predicate Excludes(pattern: string, filename: string)
    requires |pattern| > 0
  {
    exists p :: p in Candidates(pattern) && Match(p, filename)
  }

  /** The loop over the variants, building the list of candidates. */
  method CandidatePatterns(pattern: string) returns (ps1: seq<string>)
    requires |pattern| > 0
    ensures ps1 == Candidates(pattern)
  {
    var ps := Variants(Anchor(pattern));
    ps1 := [];
    for i := 0 to |ps|
      invariant ps1 == ExpandAll(ps[..i])
    {
      assert ps[..i + 1][..i] == ps[..i];
      ps1 := ps1 + Expansions(ps[i]);
    }
    assert ps[..|ps|] == ps;
  }

  /**
   * excludeFile: whether the file is excluded by the pattern, trying the
   * candidates in turn.  The source never calls it with an empty pattern.
   */
  method ExcludeFile(pattern: string, filename: string) returns (excluded: bool)
    requires |pattern| > 0
    ensures excluded <==> Excludes(pattern, filename)
  {
    var ps1 := CandidatePatterns(pattern);
    for i := 0 to |ps1|
      invariant forall k :: 0 <= k < i ==> !Match(ps1[k], filename)
    {
      if Match(ps1[i], filename) {
        return true;
      }
    }
    return false;
  }

  /** A bare file name (no '/', no metacharacter) is tried anywhere below the root and at the root. */
  lemma BareNameCandidates(name: string)
    requires |name| > 0 && '/' !in name && !HasSuffix(name, "**")
    ensures Candidates(name) == ["**/" + name, "**/" + name + "/**", name, name + "/**"]
  {
    var p := "**/" + name;
    BareNameAnchored(name);
    assert HasPrefix(p, "**/") && TrimPrefix(p, "**/") == name by {
      assert p[..3] == "**/" && p[3..] == name;
    }
    assert Variants(p) == [p, name];
    assert !HasSuffix(name, "/") by {
      assert name[|name| - 1] in name;
    }
    BareNameSuffixes(name);
    assert Expansions(p) == [p, p + "/**"];
    assert Expansions(name) == [name, name + "/**"];
    assert ExpandAll([p]) == Expansions(p) by {
      assert [p][..0] == [];
    }
    assert ExpandAll([p, name]) == ExpandAll([p]) + Expansions(name) by {
      assert [p, name][..1] == [p];
    }
    assert p + "/**" == "**/" + name + "/**";
  }

  lemma BareNameAnchored(name: string)
    requires |name| > 0 && '/' !in name
    ensures Anchor(name) == "**/" + name
  {
    assert forall c :: c in name[..|name| - 1] ==> c in name;
  }

  lemma BareNameSuffixes(name: string)
    requires |name| > 0 && '/' !in name && !HasSuffix(name, "**")
    ensures !HasSuffix("**/" + name, "/") && !HasSuffix("**/" + name, "**")
  {
    var p := "**/" + name;
    assert p[|p| - 1] == name[|name| - 1];
    assert name[|name| - 1] in name;
    if |name| == 1 {
      assert p[|p| - 2] == '/';
      assert p[|p| - 2..][0] == p[|p| - 2];
    } else {
      assert p[|p| - 2..] == name[|name| - 2..];
    }
  }

  /** A directory pattern "d/" is tried below any directory and at the root, for what lies inside. */
  lemma DirectoryCandidates(d: string)
    requires |d| > 0 && '/' !in d
    ensures Candidates(d + "/") == ["**/" + d + "/**", d + "/**"]
  {
    var pattern := d + "/";
    assert pattern[..|pattern| - 1] == d;
    var p := "**/" + pattern;
    assert Anchor(pattern) == p;
    assert HasPrefix(p, "**/") && TrimPrefix(p, "**/") == pattern by {
      assert p[..3] == "**/" && p[3..] == pattern;
    }
    assert Variants(p) == [p, pattern];
    assert HasSuffix(p, "/") && HasSuffix(pattern, "/");
    assert Expansions(p) == [p + "**"] && Expansions(pattern) == [pattern + "**"];
    assert ExpandAll([p]) == Expansions(p) by {
      assert [p][..0] == [];
    }
    assert ExpandAll([p, pattern]) == ExpandAll([p]) + Expansions(pattern) by {
      assert [p, pattern][..1] == [p];
    }
    assert p + "**" == "**/" + d + "/**" && pattern + "**" == d + "/**";
  }

  /** A literal prefix is matched character by character. */
  lemma {:induction false} MatchLiteral(lit: string, p: string, s: string)
    requires Literal(lit)
    ensures Match(lit + p, lit + s) <==> Match(p, s)
    decreases |lit|
  {
    if |lit| == 0 {
      assert lit + p == p && lit + s == s;
    } else {
      assert (lit + p)[0] == lit[0] && (lit + p)[1..] == lit[1..] + p;
      assert (lit + s)[0] == lit[0] && (lit + s)[1..] == lit[1..] + s;
      assert lit[0] in lit;
      assert !HasPrefix(lit + p, "**");
      assert Literal(lit[1..]) by {
        assert forall c :: c in lit[1..] ==> c in lit;
      }
      MatchLiteral(lit[1..], p, s);
    }
  }

  /** "**" in front of a pattern skips any text, separators included. */
  lemma {:induction false} MatchSkip(p: string, a: string, s: string)
    requires Match(p, s)
    ensures Match("**" + p, a + s)
    decreases |a|
  {
    var q := "**" + p;
    assert HasPrefix(q, "**") && q[2..] == p;
    if |a| == 0 {
      assert a + s == s;
    } else {
      MatchSkip(p, a[1..], s);
      assert (a + s)[1..] == a[1..] + s;
    }
  }

  /** "**" alone matches every text. */
  lemma MatchAll(s: string)
    ensures Match("**", s)
  {
    assert Match("", "");
    MatchSkip("", s, "");
    assert "**" + "" == "**" && s + "" == s;
  }

  /** A directory pattern "d/" excludes everything inside a directory d at the root. */
  lemma DirectoryPatternExcludesAtRoot(d: string, inside: string)
    requires |d| > 0 && '/' !in d && Literal(d)
    ensures Excludes(d + "/", d + "/" + inside)
  {
    DirectoryCandidates(d);
    var lit := d + "/";
    assert Literal(lit);
    MatchAll(inside);
    MatchLiteral(lit, "**", inside);
    assert lit + "**" == d + "/**" && lit + inside == d + "/" + inside;
    assert (d + "/**") in Candidates(d + "/");
  }

  /** A directory pattern "d/" excludes everything inside a directory d below any other directory. */
  lemma DirectoryPatternExcludesBelow(d: string, above: string, inside: string)
    requires |d| > 0 && '/' !in d && Literal(d)
    ensures Excludes(d + "/", above + "/" + d + "/" + inside)
  {
    var lit := "/" + d + "/";
    assert Literal(lit) by {
      assert forall c :: c in lit ==> c == '/' || c in d;
    }
    assert Match(lit + "**", lit + inside) by {
      MatchAll(inside);
      MatchLiteral(lit, "**", inside);
    }
    assert Match("**" + (lit + "**"), above + (lit + inside)) by {
      MatchSkip(lit + "**", above, lit + inside);
    }
    assert "**" + (lit + "**") == "**/" + d + "/**";
    assert above + (lit + inside) == above + "/" + d + "/" + inside;
    assert "**/" + d + "/**" in Candidates(d + "/") by {
      DirectoryCandidates(d);
    }
  }

  /** A bare file name excludes the file of that name at the root. */
  lemma BareNameExcludesAtRoot(name: string)
    requires |name| > 0 && '/' !in name && Literal(name) && !HasSuffix(name, "**")
    ensures Excludes(name, name)
  {
    assert Match(name, name) by {
      MatchLiteral(name, "", "");
      assert name + "" == name;
    }
    assert name in Candidates(name) by {
      BareNameCandidates(name);
    }
  }

  /** A bare file name excludes the file of that name in any directory. */
  lemma BareNameExcludesBelow(name: string, above: string)
    requires |name| > 0 && '/' !in name && Literal(name) && !HasSuffix(name, "**")
    ensures Excludes(name, above + "/" + name)
  {
    var lit := "/" + name;
    assert Literal(lit) by {
      assert forall c :: c in lit ==> c == '/' || c in name;
    }
    assert Match(lit, lit) by {
      MatchLiteral(lit, "", "");
      assert lit + "" == lit;
    }
    assert Match("**" + lit, above + lit) by {
      MatchSkip(lit, above, lit);
    }
    assert "**" + lit == "**/" + name;
    assert above + lit == above + "/" + name;
    assert "**/" + name in Candidates(name) by {
      BareNameCandidates(name);
    }
  }

  /** A bare file name excludes that file at the root and in any directory. */
  lemma BareNameExcludes(name: string, above: string)
    requires |name| > 0 && '/' !in name && Literal(name)
    ensures Excludes(name, name)
    ensures Excludes(name, above + "/" + name)
  {
    assert name[|name| - 1] in name;
    assert !HasSuffix(name, "**") by {
      assert name[|name| - 1] != '*';
    }
    BareNameExcludesAtRoot(name);
    BareNameExcludesBelow(name, above);
  }

  /** A non-empty pattern that excludes the path. */
  predicate ExcludedBy(pattern: string, f: string) {
    |pattern| > 0 && Excludes(pattern, f)
  }

  /** One of the first `n` patterns is non-empty and excludes the path. */
  predicate IgnoredBy(f: string, ignore: seq<string>, n: nat)
    requires n <= |ignore|
  {
    n > 0 && (IgnoredBy(f, ignore, n - 1) || ExcludedBy(ignore[n - 1], f))
  }

  /** A path is dropped when some non-empty pattern excludes it. */
  predicate Ignored(f: string, ignore: seq<string>) {
    IgnoredBy(f, ignore, |ignore|)
  }

  /** IgnoredBy says what it is meant to: some non-empty pattern among the first `n` excludes the path. */
  lemma {:induction false} IgnoredBySome(f: string, ignore: seq<string>, n: nat)
    requires n <= |ignore|
    ensures IgnoredBy(f, ignore, n) <==> exists k :: 0 <= k < n && ExcludedBy(ignore[k], f)
  {
    if n > 0 {
      IgnoredBySome(f, ignore, n - 1);
      if IgnoredBy(f, ignore, n - 1) {
        var k :| 0 <= k < n - 1 && ExcludedBy(ignore[k], f);
        assert 0 <= k < n;
      } else if ExcludedBy(ignore[n - 1], f) {
        assert 0 <= n - 1 < n;
      } else {
        forall k | 0 <= k < n
          ensures !ExcludedBy(ignore[k], f)
        {
          if k < n - 1 {
            assert !(0 <= k < n - 1 && ExcludedBy(ignore[k], f));
          }
        }
      }
    }
  }

  /** Empty patterns exclude nothing. */
  lemma {:induction false} EmptyPatternsIgnoreNothing(f: string, ignore: seq<string>, n: nat)
    requires n <= |ignore|
    requires forall pattern :: pattern in ignore ==> pattern == ""
    ensures !IgnoredBy(f, ignore, n)
  {
    if n > 0 {
      assert ignore[n - 1] in ignore;
      EmptyPatternsIgnoreNothing(f, ignore, n - 1);
    }
  }

  lemma {:induction false} IgnoredByGrows(f: string, ignore: seq<string>, m: nat, n: nat)
    requires m <= n <= |ignore| && IgnoredBy(f, ignore, m)
    ensures IgnoredBy(f, ignore, n)
    decreases n - m
  {
    if m < n {
      IgnoredByGrows(f, ignore, m, n - 1);
    }
  }

  /** The paths among the first `n` that no pattern excludes, in their order. */
  function Kept(paths: seq<string>, ignore: seq<string>, n: nat): seq<string>
    requires n <= |paths|
  {
    if n == 0 then []
    else Kept(paths, ignore, n - 1) + if Ignored(paths[n - 1], ignore) then [] else [paths[n - 1]]
  }

  /** filterPaths keeps exactly the paths no pattern excludes. */
  lemma {:induction false} KeptMembers(paths: seq<string>, ignore: seq<string>, n: nat)
    requires n <= |paths|
    ensures forall f :: f in Kept(paths, ignore, n) <==> f in paths[..n] && !Ignored(f, ignore)
    ensures |Kept(paths, ignore, n)| <= n
  {
    if n > 0 {
      KeptMembers(paths, ignore, n - 1);
      assert paths[..n] == paths[..n - 1] + [paths[n - 1]];
    }
  }

  /** Without a non-empty pattern nothing is dropped. */
  lemma {:induction false} NoPatternKeepsAll(paths: seq<string>, ignore: seq<string>, n: nat)
    requires n <= |paths|
    requires forall pattern :: pattern in ignore ==> pattern == ""
    ensures Kept(paths, ignore, n) == paths[..n]
  {
    if n > 0 {
      NoPatternKeepsAll(paths, ignore, n - 1);
      EmptyPatternsIgnoreNothing(paths[n - 1], ignore, |ignore|);
      assert paths[..n] == paths[..n - 1] + [paths[n - 1]];
    }
  }

  /**
   * filterPaths: for each path, the patterns are tried in turn, skipping
   * empty ones; the first that excludes the path moves on to the next path.
   */
  method FilterPaths(policyPaths: seq<string>, ignore: seq<string>) returns (filtered: seq<string>)
    ensures filtered == Kept(policyPaths, ignore, |policyPaths|)
  {
    filtered := [];
    for i := 0 to |policyPaths|
      invariant filtered == Kept(policyPaths, ignore, i)
    {
      var excluded := IgnoredByAny(policyPaths[i], ignore);
      if !excluded {
        filtered := filtered + [policyPaths[i]];
      }
    }
  }

  /** The inner loop of filterPaths: the patterns are tried in turn, skipping empty ones. */
  method IgnoredByAny(f: string, ignore: seq<string>) returns (excludedByAny: bool)
    ensures excludedByAny <==> Ignored(f, ignore)
  {
    excludedByAny := false;
    var j := 0;
    while j < |ignore| && !excludedByAny
      invariant j <= |ignore|
      invariant excludedByAny == IgnoredBy(f, ignore, j)
    {
      var pattern := ignore[j];
      if pattern != "" {
        excludedByAny := ExcludeFile(pattern, f);
      }
      j := j + 1;
    }
    if excludedByAny {
      IgnoredByGrows(f, ignore, j, |ignore|);
    }
  }

  /** The Rego files among the paths the walk visited. */
  function RegoFiles(walked: seq<string>): (r: seq<string>)
    ensures forall f :: f in r <==> f in walked && HasSuffix(f, ".rego")
  {
    if |walked| == 0 then []
    else RegoFiles(walked[..|walked| - 1]) + if HasSuffix(walked[|walked| - 1], ".rego") then [walked[|walked| - 1]] else []
  }

  /**
   * FilterIgnoredPaths.  When file existence is checked, the files are those
   * found by walking the given paths (the walk is not part of this model and
   * is given as its outcome: the non-directory paths visited, or an error).
   * Otherwise the given paths are filtered, or returned as they are when
   * there are no patterns.
   */
  method FilterIgnoredPaths(paths: seq<string>, ignore: seq<string>, checkFileExists: bool, walked: Result<seq<string>>)
    returns (r: Result<seq<string>>)
    ensures checkFileExists && walked.Err? ==> r.Err?
    ensures checkFileExists && walked.Ok? ==> r == Ok(Kept(RegoFiles(walked.value), ignore, |RegoFiles(walked.value)|))
    ensures !checkFileExists ==> r == Ok(Kept(paths, ignore, |paths|))
  {
    if checkFileExists {
      if walked.Err? {
        return Err("failed to filter paths:\n" + walked.error);
      }
      var filtered := FilterPaths(RegoFiles(walked.value), ignore);
      return Ok(filtered);
    }
    if |ignore| == 0 {
      NoPatternKeepsAll(paths, ignore, |paths|);
      assert paths[..|paths|] == paths;
      return Ok(paths);
    }
    var filtered := FilterPaths(paths, ignore);
    return Ok(filtered);
  }
}
