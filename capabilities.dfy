/**
 * Where Regal finds an OPA capabilities document
 * (internal/capabilities/capabilities.go): the choice made from a URL's
 * scheme and path, and the ordering of capabilities versions, newest valid
 * semantic version first and the other names after them.
 *
 * Loading a document (HTTP, the file system, the embedded database) is
 * outside the model: a lookup ends in the `Source` it would load from.
 * The semantic-version library is modelled after its documented format
 * and after the precedence rules of section 11 of Semantic Versioning 2.0.0.
 */
module Capabilities {
  import opened Wrappers
  import opened GoStrings
  import GoPath
  import Sorting
  import SortSlice

  // ---------------------------------------------------------------------
  // Semantic versions
  // ---------------------------------------------------------------------

  const MaxInt64: int := 0x7FFF_FFFF_FFFF_FFFF

  /** A parsed semantic version; the build metadata plays no part in precedence and is not kept. */
  datatype Version = Version(major: nat, minor: nat, patch: nat, pre: string)

  /** The text before and after the first `delim`; the text itself and "" when there is none. */
  function SplitOff(s: string, delim: char): (r: (string, string))
    ensures delim !in s ==> r == (s, "")
    ensures delim in s ==> r.0 + [delim] + r.1 == s && delim !in r.0
  {
    if delim in s then
      var i := IndexChar(s, delim);
      assert s == s[..i] + [delim] + s[i + 1..];
      (s[..i], s[i + 1..])
    else (s, "")
  }

  /** A character allowed in a pre-release or build identifier. */
  predicate IdentChar(c: char) {
    ('0' <= c <= '9') || ('a' <= c <= 'z') || ('A' <= c <= 'Z') || c == '-'
  }

  /** Empty, or dot-separated non-empty identifiers of digits, letters and '-'. */
  predicate ValidIdentifiers(s: string) {
    s == "" || forall part :: part in Split(s, '.') ==> |part| > 0 && forall c :: c in part ==> IdentChar(c)
  }

  /** A version number: a non-empty run of decimal digits within the signed 64-bit range. */
  function ParseNumber(s: string): (r: Option<nat>)
    ensures r.Some? ==> |s| > 0 && AllDigits(s) && r.value <= MaxInt64
  {
    if |s| > 0 && AllDigits(s) && DigitsValue(s) <= MaxInt64 then Some(DigitsValue(s)) else None
  }

  /**
   * semver.NewVersion: the build metadata follows the first '+', the
   * pre-release the first '-' before it, and what remains must be three
   * dot-separated numbers (a fourth part would end up inside the third
   * number and fail to parse there).
   */
  function ParseVersion(s: string): (r: Option<Version>)
    ensures r.Some? ==> ValidIdentifiers(r.value.pre)
  {
    var (rest, metadata) := SplitOff(s, '+');
    var (core, pre) := SplitOff(rest, '-');
    var parts := Split(core, '.');
    if |parts| != 3 || !ValidIdentifiers(pre) || !ValidIdentifiers(metadata) then None
    else
      var major := ParseNumber(parts[0]);
      var minor := ParseNumber(parts[1]);
      var patch := ParseNumber(parts[2]);
      if major.None? || minor.None? || patch.None? then None
      else Some(Version(major.value, minor.value, patch.value, pre))
  }

  predicate Valid(s: string) {
    ParseVersion(s).Some?
  }

  /** strconv.Atoi on an identifier, within the 64-bit range: the identifier is numeric. */
  function NumericValue(s: string): Option<int> {
    var v := Atoi(s);
    if v.Some? && -MaxInt64 - 1 <= v.value <= MaxInt64 then v else None
  }

  /**
   * One pre-release identifier before another: numeric ones come first and
   * compare by value, then by text; the others compare by text.
   */
  predicate IdentLess(a: string, b: string) {
    var x := NumericValue(a);
    var y := NumericValue(b);
    if x.Some? != y.Some? then x.Some?
    else if x.Some? && x.value != y.value then x.value < y.value
    else Sorting.Less(a, b)
  }

  /** Pre-release identifiers compared left to right; a proper prefix comes first. */
  predicate IdentsLess(a: seq<string>, b: seq<string>)
    decreases |a|
  {
    if |a| == 0 then |b| > 0
    else if |b| == 0 then false
    else if a[0] != b[0] then IdentLess(a[0], b[0])
    else IdentsLess(a[1..], b[1..])
  }

  /** A version with a pre-release comes before the same version without one. */
  predicate PreReleaseLess(a: string, b: string) {
    if a == "" then false
    else if b == "" then true
    else IdentsLess(Split(a, '.'), Split(b, '.'))
  }

  /** Version.LessThan: major, minor and patch numbers in turn, then the pre-release. */
  predicate VersionLess(v: Version, w: Version) {
    if v.major != w.major then v.major < w.major
    else if v.minor != w.minor then v.minor < w.minor
    else if v.patch != w.patch then v.patch < w.patch
    else PreReleaseLess(v.pre, w.pre)
  }

  lemma IdentLessIrreflexive(a: string)
    ensures !IdentLess(a, a)
  {
    Sorting.LessIrreflexive(a);
  }

  lemma IdentLessTransitive(a: string, b: string, c: string)
    requires IdentLess(a, b) && IdentLess(b, c)
    ensures IdentLess(a, c)
  {
    var x, y, z := NumericValue(a), NumericValue(b), NumericValue(c);
    if x.Some? == y.Some? == z.Some? {
      if x.Some? {
        if x.value == y.value == z.value {
          Sorting.LessTransitive(a, b, c);
        }
      } else {
        Sorting.LessTransitive(a, b, c);
      }
    }
  }

  /** Distinct identifiers are always ordered one way or the other. */
  lemma IdentLessTotal(a: string, b: string)
    requires a != b
    ensures IdentLess(a, b) || IdentLess(b, a)
  {
    Sorting.LessTotal(a, b);
  }

  lemma {:induction false} IdentsLessIrreflexive(a: seq<string>)
    ensures !IdentsLess(a, a)
  {
    if |a| > 0 {
      IdentsLessIrreflexive(a[1..]);
    }
  }

  lemma {:induction false} IdentsLessTransitive(a: seq<string>, b: seq<string>, c: seq<string>)
    requires IdentsLess(a, b) && IdentsLess(b, c)
    ensures IdentsLess(a, c)
    decreases |a|
  {
    if |a| > 0 && |b| > 0 && |c| > 0 {
      if a[0] == b[0] && b[0] == c[0] {
        IdentsLessTransitive(a[1..], b[1..], c[1..]);
      } else if a[0] != b[0] && b[0] != c[0] {
        IdentLessTransitive(a[0], b[0], c[0]);
        if a[0] == c[0] {
          IdentLessIrreflexive(a[0]);
        }
      }
    }
  }

  lemma PreReleaseLessTransitive(a: string, b: string, c: string)
    requires PreReleaseLess(a, b) && PreReleaseLess(b, c)
    ensures PreReleaseLess(a, c)
  {
    if a != "" && b != "" && c != "" {
      IdentsLessTransitive(Split(a, '.'), Split(b, '.'), Split(c, '.'));
    }
  }

  lemma VersionLessIrreflexive(v: Version)
    ensures !VersionLess(v, v)
  {
    if v.pre != "" {
      IdentsLessIrreflexive(Split(v.pre, '.'));
    }
  }

  lemma VersionLessTransitive(u: Version, v: Version, w: Version)
    requires VersionLess(u, v) && VersionLess(v, w)
    ensures VersionLess(u, w)
  {
    if u.major == v.major == w.major && u.minor == v.minor == w.minor && u.patch == v.patch == w.patch {
      PreReleaseLessTransitive(u.pre, v.pre, w.pre);
    }
  }

  // ---------------------------------------------------------------------
  // semverSort
  // ---------------------------------------------------------------------

  /**
   * The comparison semverSort hands to sort.Slice: two valid versions by
   * precedence, a name that is not a valid version before any valid one,
   * and two such names by text.
   */
  predicate SortLess(a: string, b: string) {
    var v := ParseVersion(a);
    var w := ParseVersion(b);
    if v.Some? && w.Some? then VersionLess(v.value, w.value)
    else if v.Some? then false
    else if w.Some? then true
    else Sorting.Less(a, b)
  }

  lemma SortLessIrreflexive(a: string)
    ensures !SortLess(a, a)
  {
    if Valid(a) {
      VersionLessIrreflexive(ParseVersion(a).value);
    } else {
      Sorting.LessIrreflexive(a);
    }
  }

  lemma SortLessTransitive(a: string, b: string, c: string)
    requires SortLess(a, b) && SortLess(b, c)
    ensures SortLess(a, c)
  {
    if Valid(a) && Valid(b) && Valid(c) {
      VersionLessTransitive(ParseVersion(a).value, ParseVersion(b).value, ParseVersion(c).value);
    } else if !Valid(a) && !Valid(b) && !Valid(c) {
      Sorting.LessTransitive(a, b, c);
    }
  }

  /** SortLess is a strict order, as sort.Slice needs of its less function. */
  lemma SortLessStrict()
    ensures SortSlice.StrictOrder(SortLess)
  {
    forall a ensures !SortLess(a, a) {
      SortLessIrreflexive(a);
    }
    forall a, b, c | SortLess(a, b) && SortLess(b, c) ensures SortLess(a, c) {
      SortLessTransitive(a, b, c);
    }
  }

  /** semverSort's promise: no earlier name sorts before a later one. */
  predicate Descending(s: seq<string>) {
    forall i, j :: 0 <= i < j < |s| ==> !SortLess(s[i], s[j])
  }

  /**
   * semverSort: the versions sorted ascending under SortLess, then
   * reversed; the result holds the same names, in descending order.  The
   * memo of parsed versions only saves work and is not modelled.
   */
  method SemverSort(versions: seq<string>) returns (sorted: seq<string>)
    ensures multiset(sorted) == multiset(versions)
    ensures Descending(sorted)
  {
    SortLessStrict();
    var ascending := SortSlice.Sort(versions, SortLess);
    sorted := SortSlice.Reversed(ascending);
    SortSlice.ReversedAscending(ascending, SortLess);
    SortSlice.ReversedPermutes(ascending);
  }

  /**
   * What the descending order means: valid versions come before the other
   * names, valid versions newest first, the other names in descending
   * text order.
   */
  lemma DescendingMeans(s: seq<string>, i: nat, j: nat)
    requires Descending(s) && i < j < |s|
    ensures Valid(s[j]) ==> Valid(s[i])
    ensures Valid(s[i]) && Valid(s[j]) ==> !VersionLess(ParseVersion(s[i]).value, ParseVersion(s[j]).value)
    ensures !Valid(s[i]) && !Valid(s[j]) ==> Sorting.LessEq(s[j], s[i])
  {
    if !Valid(s[i]) && !Valid(s[j]) {
      Sorting.LessTotal(s[i], s[j]);
    }
  }

  /**
   * Without ties the descending order is unique: whatever the sorting
   * algorithm, semverSort's result is determined by its input's elements.
   */
  lemma DescendingDetermined(a: seq<string>, b: seq<string>)
    requires Descending(a) && Descending(b) && multiset(a) == multiset(b)
    requires SortSlice.NoTies(a, SortLess)
    ensures a == b
  {
    SortLessStrict();
    SortSlice.DescendingUnique(a, b, SortLess);
  }

  /** A chain of names each sorting after the next is the only descending order of those names. */
  lemma ChainDetermines(expected: seq<string>, sorted: seq<string>)
    requires forall i :: 0 <= i < |expected| - 1 ==> SortLess(expected[i + 1], expected[i])
    requires Descending(sorted) && multiset(sorted) == multiset(expected)
    ensures sorted == expected
  {
    SortLessStrict();
    SortSlice.StrictChain(expected, SortLess);
    SortSlice.DescendingUnique(expected, sorted, SortLess);
  }

  /** Three numbers joined by dots split back into them. */
  lemma SplitDotted(a: string, b: string, c: string)
    requires AllDigits(a) && AllDigits(b) && AllDigits(c)
    ensures Split(a + "." + b + "." + c, '.') == [a, b, c]
  {
    assert '.' !in a && '.' !in b && '.' !in c by {
      assert forall x :: x in a ==> IsDigit(x);
      assert forall x :: x in b ==> IsDigit(x);
      assert forall x :: x in c ==> IsDigit(x);
    }
    var parts := [a, b, c];
    assert Join(parts, ".") == a + "." + b + "." + c by {
      assert parts[1..] == [b, c] && [b, c][1..] == [c];
      assert Join([c], ".") == c;
      assert Join([b, c], ".") == b + "." + c;
    }
    SplitJoin(parts, '.');
  }

  /** A version written as three plain numbers parses to them, with no pre-release. */
  lemma ParsesPlain(s: string, a: string, b: string, c: string)
    requires |a| > 0 && |b| > 0 && |c| > 0 && AllDigits(a) && AllDigits(b) && AllDigits(c)
    requires DigitsValue(a) <= MaxInt64 && DigitsValue(b) <= MaxInt64 && DigitsValue(c) <= MaxInt64
    requires s == a + "." + b + "." + c
    ensures ParseVersion(s) == Some(Version(DigitsValue(a), DigitsValue(b), DigitsValue(c), ""))
  {
    assert '+' !in s && '-' !in s by {
      assert forall i :: 0 <= i < |s| ==> IsDigit(s[i]) || s[i] == '.';
    }
    assert SplitOff(s, '+') == (s, "");
    assert SplitOff(s, '-') == (s, "");
    SplitDotted(a, b, c);
  }

  /** A version of three one-digit numbers. */
  lemma ParsesDigits(s: string, x: char, y: char, z: char)
    requires IsDigit(x) && IsDigit(y) && IsDigit(z)
    requires s == [x, '.', y, '.', z]
    ensures ParseVersion(s) == Some(Version(DigitValue(x), DigitValue(y), DigitValue(z), ""))
  {
    assert DigitsValue([x]) == DigitValue(x) by {
      assert [x][..0] == [];
    }
    assert DigitsValue([y]) == DigitValue(y) by {
      assert [y][..0] == [];
    }
    assert DigitsValue([z]) == DigitValue(z) by {
      assert [z][..0] == [];
    }
    ParsesPlain(s, [x], [y], [z]);
  }

  /** Two valid versions sort by precedence. */
  lemma VersionsSort(a: string, b: string, v: Version, w: Version)
    requires ParseVersion(a) == Some(v) && ParseVersion(b) == Some(w) && VersionLess(v, w)
    ensures SortLess(a, b)
  {
  }

  /** A name that is not a version sorts before any valid one. */
  lemma InvalidBeforeValid(a: string, b: string, w: Version)
    requires ParseVersion(a).None? && ParseVersion(b) == Some(w)
    ensures SortLess(a, b)
  {
  }

  /** A one-letter name is not a version. */
  lemma LetterInvalid(a: string)
    requires |a| == 1 && a[0] != '.' && a[0] != '+' && a[0] != '-'
    ensures !Valid(a)
  {
    assert '+' !in a && '-' !in a;
    assert SplitOff(a, '+') == (a, "");
    assert SplitOff(a, '-') == (a, "");
    assert Split(a[1..], '.') == [""];
    assert |Split(a, '.')| == 1;
  }

  /** 1.2.3 sorts before 1.2.4, which sorts before 2.1.1 and so on. */
  lemma VersionExamplesOrdered()
    ensures SortLess("1.0.1", "1.2.3") && SortLess("1.2.3", "1.2.4")
    ensures SortLess("1.0.1", "2.1.1") && SortLess("2.1.1", "2.3.4") && SortLess("2.3.4", "4.0.7")
  {
    ParsesDigits("1.0.1", '1', '0', '1');
    ParsesDigits("1.2.3", '1', '2', '3');
    ParsesDigits("1.2.4", '1', '2', '4');
    ParsesDigits("2.1.1", '2', '1', '1');
    ParsesDigits("2.3.4", '2', '3', '4');
    ParsesDigits("4.0.7", '4', '0', '7');
  }

  /** The names a, b and c sort by text, and before any valid version. */
  lemma NameExamplesOrdered()
    ensures SortLess("a", "b") && SortLess("b", "c") && SortLess("c", "1.0.1")
  {
    LetterInvalid("a");
    LetterInvalid("b");
    LetterInvalid("c");
    ParsesDigits("1.0.1", '1', '0', '1');
  }

  /** Three names, each sorting after the next, have one descending order. */
  lemma ThreeDetermined(a: string, b: string, c: string, sorted: seq<string>)
    requires SortLess(b, a) && SortLess(c, b)
    requires Descending(sorted) && multiset(sorted) == multiset([a, b, c])
    ensures sorted == [a, b, c]
  {
    ChainDetermines([a, b, c], sorted);
  }

  /** Seven values, each below the one before under `less`, as a list linked pair by pair. */
  lemma LinksOfSeven<T>(less: (T, T) -> bool, a: T, b: T, c: T, d: T, e: T, f: T, g: T)
    requires less(b, a) && less(c, b) && less(d, c) && less(e, d) && less(f, e) && less(g, f)
    ensures var s := [a, b, c, d, e, f, g]; forall i :: 0 <= i < |s| - 1 ==> less(s[i + 1], s[i])
  {
    var s := [a, b, c, d, e, f, g];
    forall i | 0 <= i < |s| - 1
      ensures less(s[i + 1], s[i])
    {
      if i == 0 {
      } else if i == 1 {
      } else if i == 2 {
      } else if i == 3 {
      } else if i == 4 {
      } else {
        assert i == 5;
      }
    }
  }

  /** Seven names, each sorting after the next, have one descending order. */
  lemma SevenDetermined(a: string, b: string, c: string, d: string, e: string, f: string, g: string, sorted: seq<string>)
    requires SortLess(b, a) && SortLess(c, b) && SortLess(d, c) && SortLess(e, d) && SortLess(f, e) && SortLess(g, f)
    requires Descending(sorted) && multiset(sorted) == multiset([a, b, c, d, e, f, g])
    ensures sorted == [a, b, c, d, e, f, g]
  {
    LinksOfSeven(SortLess, a, b, c, d, e, f, g);
    ChainDetermines([a, b, c, d, e, f, g], sorted);
  }

  /** The worked example with valid versions only. */
  lemma SemverOnlyExample(sorted: seq<string>)
    requires multiset(sorted) == multiset(["1.2.3", "1.2.4", "1.0.1"])
    requires Descending(sorted)
    ensures sorted == ["1.2.4", "1.2.3", "1.0.1"]
  {
    VersionExamplesOrdered();
    assert multiset(["1.2.4", "1.2.3", "1.0.1"]) == multiset(["1.2.3", "1.2.4", "1.0.1"]);
    ThreeDetermined("1.2.4", "1.2.3", "1.0.1", sorted);
  }

  /** The worked example with names that are not versions only: descending text order. */
  lemma NamesOnlyExample(sorted: seq<string>)
    requires multiset(sorted) == multiset(["a", "b", "c"])
    requires Descending(sorted)
    ensures sorted == ["c", "b", "a"]
  {
    NameExamplesOrdered();
    assert multiset(["c", "b", "a"]) == multiset(["a", "b", "c"]);
    ThreeDetermined("c", "b", "a", sorted);
  }

  /** The worked example mixing both: the versions newest first, then the names. */
  lemma MixedExample(sorted: seq<string>)
    requires multiset(sorted) == multiset(["4.0.7", "2.3.4", "2.1.1", "1.0.1", "c", "b", "a"])
    requires Descending(sorted)
    ensures sorted == ["4.0.7", "2.3.4", "2.1.1", "1.0.1", "c", "b", "a"]
  {
    VersionExamplesOrdered();
    NameExamplesOrdered();
    SevenDetermined("4.0.7", "2.3.4", "2.1.1", "1.0.1", "c", "b", "a", sorted);
  }

  /**
   * List: the embedded database's version names for each engine, each list
   * put through semverSort; loading either list may fail.
   */
  method List(opaVersions: Result<seq<string>>, eopaVersions: Result<seq<string>>)
    returns (listed: Result<map<string, seq<string>>>)
    ensures opaVersions.Err? ==> listed == Err("failed to load capabilities due to error: " + opaVersions.error)
    ensures opaVersions.Ok? && eopaVersions.Err? ==> listed == Err("failed to load capabilities due to error: " + eopaVersions.error)
    ensures opaVersions.Ok? && eopaVersions.Ok? ==>
      && listed.Ok? && listed.value.Keys == {EngineOPA, EngineEOPA}
      && multiset(listed.value[EngineOPA]) == multiset(opaVersions.value)
      && multiset(listed.value[EngineEOPA]) == multiset(eopaVersions.value)
      && Descending(listed.value[EngineOPA]) && Descending(listed.value[EngineEOPA])
  {
    if opaVersions.Err? {
      return Err("failed to load capabilities due to error: " + opaVersions.error);
    }
    if eopaVersions.Err? {
      return Err("failed to load capabilities due to error: " + eopaVersions.error);
    }
    var opa := SemverSort(opaVersions.value);
    var eopa := SemverSort(eopaVersions.value);
    listed := Ok(map[EngineOPA := opa, EngineEOPA := eopa]);
  }

  /** The head of a descending list is a newest version: nothing in the list sorts after it. */
  lemma DescendingHeadNewest(s: seq<string>)
    requires Descending(s) && |s| > 0
    ensures forall x :: x in s ==> !SortLess(s[0], x)
  {
    SortLessStrict();
    SortSlice.DescendingHead(s, SortLess);
  }

  // ---------------------------------------------------------------------
  // Lookup
  // ---------------------------------------------------------------------

  const EngineOPA := "opa"
  const EngineEOPA := "eopa"

  /** A URL as url.Parse splits it: its scheme, its path and its text. */
  datatype Url = Url(scheme: string, path: string, text: string)

  /** Where the capabilities would be loaded from. */
  datatype Source =
    | Web(url: string)
    | File(path: string)
    | ThisVersion
    | Embedded(engine: string, version: string)

  /** LookupURL: the scheme picks the loader; any other scheme is an error. */
  function LookupURL(u: Url, listed: Result<map<string, seq<string>>>): (r: Result<Source>)
    ensures u.scheme == "http" || u.scheme == "https" ==> r == Ok(Web(u.text))
    ensures u.scheme == "file" ==> r.Ok? && r.value.File?
    ensures u.scheme !in {"http", "https", "file", "regal"} ==>
      r == Err("regal URL '" + u.text + "' has unsupported scheme '" + u.scheme + "'")
    ensures r.Ok? && r.value.Embedded? ==> u.scheme == "regal" && r.value.engine in {EngineOPA, EngineEOPA}
  {
    match u.scheme
    case "http" => Ok(Web(u.text))
    case "https" => Ok(Web(u.text))
    case "file" => Ok(File(FilePath(u.path)))
    case "regal" => LookupEmbeddedURL(u, PathElements(GoPath.Clean(u.path)), listed)
    case _ => Err("regal URL '" + u.text + "' has unsupported scheme '" + u.scheme + "'")
  }

  /** A path starting with '/', a drive letter and ':' is a Windows path: the '/' is dropped. */
  function FilePath(path: string): (r: string)
    ensures |path| >= 3 && path[0] == '/' && IsLetter(path[1]) && path[2] == ':' ==> r == path[1..]
    ensures !(|path| >= 3 && path[0] == '/' && IsLetter(path[1]) && path[2] == ':') ==> r == path
  {
    if |path| >= 3 && path[0] == '/' && IsLetter(path[1]) && path[2] == ':' then path[1..] else path
  }

  predicate IsLetter(c: char) {
    ('a' <= c <= 'z') || ('A' <= c <= 'Z')
  }

  /**
   * The elements of a path, as the loop of lookupEmbeddedURL finds them
   * from the end: trim the slashes, split off the last element, repeat
   * until nothing is left.
   */
  function PathElements(dir: string): (r: seq<string>)
    ensures dir != "" ==> |r| > 0
    decreases |dir|
  {
    if dir == "" then []
    else
      var t := TrimChar(dir, '/');
      var i := LastIndexChar(t, '/');
      PathElements(t[..i + 1]) + [t[i + 1..]]
  }

  /** The loop itself: it collects the elements last first, then reverses them. */
  method CollectPathElements(path: string) returns (elems: seq<string>)
    ensures elems == PathElements(path)
  {
    var collected: seq<string> := [];
    var dir := path;
    while dir != ""
      invariant PathElements(path) == PathElements(dir) + SortSlice.Reversed(collected)
      decreases |dir|
    {
      var t := TrimChar(dir, '/');
      var i := LastIndexChar(t, '/');
      assert PathElements(dir) == PathElements(t[..i + 1]) + [t[i + 1..]];
      SortSlice.ReversedSnoc(collected, t[i + 1..]);
      collected := collected + [t[i + 1..]];
      dir := t[..i + 1];
    }
    elems := SortSlice.Reversed(collected);
  }

  /** The slashes around a text that neither starts nor ends with one are trimmed away. */
  lemma TrimSlashes(x: string)
    requires |x| > 0 && x[0] != '/' && x[|x| - 1] != '/'
    ensures TrimChar(x, '/') == x
    ensures TrimChar("/" + x, '/') == x
    ensures TrimChar(x + "/", '/') == x
  {
    assert ("/" + x)[1..] == x;
    assert (x + "/")[..|x|] == x;
  }

  /** Plain names joined by '/' neither start nor end with one. */
  lemma {:induction false} PlainJoinEnds(names: seq<string>)
    requires |names| > 0 && forall e :: e in names ==> GoPath.PlainName(e)
    ensures |Join(names, "/")| > 0 && Join(names, "/")[0] != '/' && Join(names, "/")[|Join(names, "/")| - 1] != '/'
    decreases |names|
  {
    GoPath.JoinHead(names, "/");
    assert names[0] in names && names[0][0] in names[0];
    var last := names[|names| - 1];
    assert last in names && last[|last| - 1] in last;
    if |names| > 1 {
      JoinAppend(names[..|names| - 1], [last], "/");
      assert names == names[..|names| - 1] + [last];
    }
  }

  /** One more name at the end of a rooted path is one more element. */
  lemma PathElementsStep(j: string, last: string)
    requires |j| > 0 && j[0] != '/' && j[|j| - 1] != '/'
    requires GoPath.PlainName(last)
    ensures PathElements("/" + (j + "/" + last)) == PathElements("/" + j) + [last]
  {
    var x := j + "/" + last;
    assert TrimChar("/" + x, '/') == x by {
      assert x[0] == j[0];
      assert x[|x| - 1] == last[|last| - 1] && last[|last| - 1] in last;
      TrimSlashes(x);
    }
    assert LastIndexChar(x, '/') == |j| by {
      assert x == j + ['/'] + last;
      GoPath.LastIndexBeforeTail(j, '/', last);
    }
    assert x[..|j| + 1] == j + "/" && x[|j| + 1..] == last;
    PathElementsAt("/" + x, x, |j|);
    assert PathElements(j + "/") == PathElements("/" + j) by {
      TrimSlashes(j);
      PathElementsTrimmed(j + "/", "/" + j);
    }
  }

  /** One round of the loop: trim, cut at the last slash. */
  lemma PathElementsAt(dir: string, t: string, i: int)
    requires dir != "" && t == TrimChar(dir, '/') && i == LastIndexChar(t, '/')
    ensures -1 <= i < |t|
    ensures PathElements(dir) == PathElements(t[..i + 1]) + [t[i + 1..]]
  {
  }

  /** Paths that trim to the same text have the same elements. */
  lemma PathElementsTrimmed(p: string, q: string)
    requires p != "" && q != "" && TrimChar(p, '/') == TrimChar(q, '/')
    ensures PathElements(p) == PathElements(q)
  {
  }

  /** A single plain name after the root is a single element. */
  lemma SingleElement(last: string)
    requires GoPath.PlainName(last)
    ensures PathElements("/" + last) == [last]
  {
    assert last[0] in last && last[|last| - 1] in last;
    TrimSlashes(last);
    assert LastIndexChar(last, '/') == -1;
    assert last[..0] == "";
    assert PathElements("/" + last) == PathElements("") + [last];
  }

  /** One more plain name at the end of a rooted path of plain names is one more element. */
  lemma PlainPathStep(front: seq<string>, last: string)
    requires |front| > 0 && forall e :: e in front ==> GoPath.PlainName(e)
    requires GoPath.PlainName(last)
    ensures PathElements("/" + Join(front + [last], "/")) == PathElements("/" + Join(front, "/")) + [last]
  {
    var j := Join(front, "/");
    JoinSnoc(front, last, "/");
    PlainJoinEnds(front);
    PathElementsStep(j, last);
  }

  /** A rooted path of plain names splits into those names. */
  lemma {:induction false} PlainPathElements(names: seq<string>)
    requires |names| > 0 && forall e :: e in names ==> GoPath.PlainName(e)
    ensures PathElements("/" + Join(names, "/")) == names
    decreases |names|
  {
    var last := names[|names| - 1];
    if |names| == 1 {
      assert names == [last] && last in names;
      SingleElement(last);
    } else {
      var front := names[..|names| - 1];
      assert forall e :: e in front ==> e in names;
      assert PathElements("/" + Join(front + [last], "/")) == front + [last] by {
        PlainPathStep(front, last);
        PlainPathElements(front);
      }
      assert names == front + [last];
    }
  }

  /** Clean leaves a rooted path of plain names alone, so its elements are those names. */
  lemma ElementsOfPlainPath(names: seq<string>, path: string)
    requires |names| > 0 && forall i :: 0 <= i < |names| ==> GoPath.PlainName(names[i])
    requires path == "/" + Join(names, "/")
    ensures PathElements(GoPath.Clean(path)) == names
  {
    assert GoPath.Clean(path) == path by {
      GoPath.CleanPlainRooted(names);
    }
    assert PathElements(path) == names by {
      PlainPathElements(names);
    }
  }

  /**
   * lookupEmbeddedURL as written: the path must start with "capabilities"
   * and have at most three elements; a second element "default" means this
   * version's own capabilities; otherwise the engine is the second element
   * and the version the third, or the newest listed one for the engine.
   * The length guard lets a single element "capabilities" through to the
   * read of the second element: `None` stands for that run-time panic.
   */
  function LookupEmbeddedAsWritten(u: Url, elems: seq<string>, listed: Result<map<string, seq<string>>>): (r: Option<Result<Source>>)
    ensures r.None? <==> elems == ["capabilities"]
    ensures r.Some? ==> r.value == LookupEmbeddedURL(u, elems, listed)
  {
    if |elems| < 1 || elems[0] != "capabilities" || |elems| > 3 then Some(LookupEmbeddedURL(u, elems, listed))
    else if |elems| < 2 then None
    else Some(LookupEmbeddedURL(u, elems, listed))
  }

  /** regal:///capabilities, path "/capabilities", reaches the panic. */
  lemma BareCapabilitiesPanics(u: Url, listed: Result<map<string, seq<string>>>)
    requires u.path == "/capabilities"
    ensures LookupEmbeddedAsWritten(u, PathElements(GoPath.Clean(u.path)), listed).None?
  {
    ElementsOfPlainPath(["capabilities"], u.path);
  }

  /**
   * lookupEmbeddedURL with the missing guard: a path that names no engine
   * is malformed like one with too many elements.
   */
  function LookupEmbeddedURL(u: Url, elems: seq<string>, listed: Result<map<string, seq<string>>>): (r: Result<Source>)
    ensures |elems| >= 1 && elems[0] != "capabilities" ==> r.Err?
    ensures |elems| > 3 || |elems| == 1 ==> r.Err?
    ensures 2 <= |elems| <= 3 && elems[0] == "capabilities" && elems[1] == "default" ==> r == Ok(ThisVersion)
    ensures |elems| == 3 && elems[0] == "capabilities" && elems[1] in {EngineOPA, EngineEOPA} ==>
      r == Ok(Embedded(elems[1], elems[2]))
    ensures r.Ok? && r.value.Embedded? ==> r.value.engine in {EngineOPA, EngineEOPA}
    ensures r.Ok? && r.value.Embedded? && |elems| == 2 ==>
      listed.Ok? && r.value.engine in listed.value && |listed.value[r.value.engine]| > 0
      && r.value.version == listed.value[r.value.engine][0]
  {
    if |elems| < 1 then Err(EmptyPathMessage(u))
    else if elems[0] != "capabilities" then Err(NotCapabilitiesMessage(u))
    else if |elems| > 3 || |elems| < 2 then Err(MalformedMessage(u))
    else if elems[1] == "default" then Ok(ThisVersion)
    else EngineSource(u, elems[1], elems, listed)
  }

  /** The embedded capabilities of a named engine, at the version the path gives or the newest listed. */
  function EngineSource(u: Url, engine: string, elems: seq<string>, listed: Result<map<string, seq<string>>>): (r: Result<Source>)
    requires 2 <= |elems| <= 3
    ensures r.Ok? ==> r.value.Embedded? && r.value.engine == engine && engine in {EngineOPA, EngineEOPA}
    ensures |elems| == 3 && engine in {EngineOPA, EngineEOPA} ==> r == Ok(Embedded(engine, elems[2]))
    ensures r.Ok? && |elems| == 2 ==>
      listed.Ok? && engine in listed.value && |listed.value[engine]| > 0 && r.value.version == listed.value[engine][0]
  {
    var version := LatestOrGiven(u, engine, elems, listed);
    if version.Err? then Err(version.error)
    else if engine == EngineOPA || engine == EngineEOPA then Ok(Embedded(engine, version.value))
    else Err("engine '" + engine + "' not present in embedded capabilities database")
  }

  function EmptyPathMessage(u: Url): string {
    "regal URL '" + u.text + "' has an empty path"
  }

  function NotCapabilitiesMessage(u: Url): string {
    "regal URL '" + u.text + "' does not have 'capabilities' as it's first path element "
    + "- did you mean to try to load capabilities from this URL?"
  }

  function MalformedMessage(u: Url): string {
    "regal URL '" + u.text + "' is malformed (too many path elements), "
    + "expected regal://capabilities/{engine}[/{version}]"
  }

  function LatestVersionContext(u: Url, engine: string): string {
    "while processing regal URL '" + u.text + "', failed to determine the latest version for engine '" + engine + "'"
  }

  /** The version the path names, or else the first listed for the engine. */
  function LatestOrGiven(u: Url, engine: string, elems: seq<string>, listed: Result<map<string, seq<string>>>): (r: Result<string>)
    requires 2 <= |elems| <= 3
    ensures |elems| == 3 ==> r == Ok(elems[2])
    ensures |elems| == 2 && r.Ok? ==>
      listed.Ok? && engine in listed.value && |listed.value[engine]| > 0 && r.value == listed.value[engine][0]
  {
    if |elems| == 3 then Ok(elems[2])
    else
      var context := LatestVersionContext(u, engine);
      if listed.Err? then Err(context + ": " + listed.error)
      else if engine !in listed.value then Err(context + ": engine not found in embedded database")
      else if |listed.value[engine]| < 1 then Err(context + ": engine found in embedded database but has no versions associated with it")
      else Ok(listed.value[engine][0])
  }

  /**
   * regal:///capabilities/{engine} with the listing List makes picks a
   * newest version of that engine: a valid one whenever there is one, and
   * no listed name sorts after it.
   */
  lemma LatestVersionChosen(u: Url, engine: string, listed: map<string, seq<string>>)
    requires u.scheme == "regal" && u.path == "/capabilities/" + engine
    requires GoPath.PlainName(engine) && engine != "default"
    requires engine in listed && |listed[engine]| > 0 && Descending(listed[engine])
    requires engine in {EngineOPA, EngineEOPA}
    ensures LookupURL(u, Ok(listed)) == Ok(Embedded(engine, listed[engine][0]))
    ensures forall x :: x in listed[engine] ==> !SortLess(listed[engine][0], x)
    ensures (exists x :: x in listed[engine] && Valid(x)) ==> Valid(listed[engine][0])
  {
    var names := ["capabilities", engine];
    assert LookupURL(u, Ok(listed)) == LookupEmbeddedURL(u, names, Ok(listed)) by {
      assert Join(names, "/") == "capabilities/" + engine by {
        assert names[1..] == [engine];
      }
      RegalElements(u, names, Ok(listed));
    }
    assert LookupEmbeddedURL(u, names, Ok(listed)) == EngineSource(u, engine, names, Ok(listed));
    assert LatestOrGiven(u, engine, names, Ok(listed)) == Ok(listed[engine][0]);
    assert EngineSource(u, engine, names, Ok(listed)) == Ok(Embedded(engine, listed[engine][0]));
    DescendingHeadNewest(listed[engine]);
  }

  /** regal:///capabilities/default names this version's own capabilities. */
  lemma DefaultIsThisVersion(u: Url, listed: Result<map<string, seq<string>>>)
    requires u.scheme == "regal" && u.path == "/capabilities/default"
    ensures LookupURL(u, listed) == Ok(ThisVersion)
  {
    var names := ["capabilities", "default"];
    assert Join(names, "/") == "capabilities/default" by {
      assert names[1..] == ["default"];
    }
    RegalElements(u, names, listed);
  }

  /** Three plain names after "capabilities" join as the path spells them. */
  lemma JoinFour(a: string, b: string, c: string)
    ensures "/" + Join(["capabilities", a, b, c], "/") == "/capabilities/" + a + "/" + b + "/" + c
  {
    var two, three := ["capabilities", a], ["capabilities", a, b];
    assert "/" + Join(two, "/") == "/capabilities/" + a by {
      assert two[1..] == [a];
    }
    assert "/" + Join(three, "/") == "/capabilities/" + a + "/" + b by {
      assert three == two + [b];
      JoinSnoc(two, b, "/");
      RootedSnoc(Join(two, "/"), b);
    }
    assert ["capabilities", a, b, c] == three + [c];
    JoinSnoc(three, c, "/");
    RootedSnoc(Join(three, "/"), c);
  }

  /** A rooted join regrouped: the root, the join, a separator and one more part. */
  lemma RootedSnoc(j: string, x: string)
    ensures "/" + (j + "/" + x) == "/" + j + "/" + x
  {
    ConcatAssoc("/", j + "/", x);
    ConcatAssoc("/", j, "/");
  }

  /** A path with more than three elements is refused. */
  lemma TooManyElements(u: Url, a: string, b: string, c: string, listed: Result<map<string, seq<string>>>)
    requires u.scheme == "regal"
    requires GoPath.PlainName(a) && GoPath.PlainName(b) && GoPath.PlainName(c)
    requires u.path == "/capabilities/" + a + "/" + b + "/" + c
    ensures LookupURL(u, listed).Err?
  {
    var names := ["capabilities", a, b, c];
    JoinFour(a, b, c);
    RegalElements(u, names, listed);
  }

  /** On a regal URL whose path is plain names, the lookup sees exactly those names. */
  lemma RegalElements(u: Url, names: seq<string>, listed: Result<map<string, seq<string>>>)
    requires u.scheme == "regal"
    requires |names| > 0 && forall i :: 0 <= i < |names| ==> GoPath.PlainName(names[i])
    requires u.path == "/" + Join(names, "/")
    ensures LookupURL(u, listed) == LookupEmbeddedURL(u, names, listed)
  {
    RegalDispatch(u, listed);
    ElementsOfPlainPath(names, u.path);
  }

  lemma RegalDispatch(u: Url, listed: Result<map<string, seq<string>>>)
    requires u.scheme == "regal"
    ensures LookupURL(u, listed) == LookupEmbeddedURL(u, PathElements(GoPath.Clean(u.path)), listed)
  {
  }
}
