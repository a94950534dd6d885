/**
 * The lexical path functions of Go's `path/filepath` package on a Unix
 * system: `/` is the only separator and there are no volume names.
 */
module GoPath {
  import opened GoStrings

  /**
   * The elements Clean keeps, processed left to right: empty elements and
   * "." vanish, ".." removes the name before it, and a ".." with nothing to
   * remove is kept in a relative path and dropped in a rooted one.
   */
  function Resolve(acc: seq<string>, elems: seq<string>, rooted: bool): seq<string>
    decreases |elems|
  {
    if |elems| == 0 then acc
    else
      var e := elems[0];
      if e == "" || e == "." then Resolve(acc, elems[1..], rooted)
      else if e == ".." then
        if |acc| > 0 && acc[|acc| - 1] != ".." then Resolve(acc[..|acc| - 1], elems[1..], rooted)
        else if rooted then Resolve(acc, elems[1..], rooted)
        else Resolve(acc + [".."], elems[1..], rooted)
      else Resolve(acc + [e], elems[1..], rooted)
  }

  /** filepath.Clean: the shortest lexically equivalent path. */
  function Clean(p: string): (r: string)
    ensures |r| > 0
  {
    var rooted := |p| > 0 && p[0] == '/';
    var rest := Join(Resolve([], Split(p, '/'), rooted), "/");
    if rooted then "/" + rest
    else if rest == "" then "."
    else rest
  }

  /** filepath.Dir: everything before the last separator, cleaned. */
  function Dir(p: string): string {
    Clean(p[..LastIndexChar(p, '/') + 1])
  }

  /** The path without its trailing separators. */
  function TrimTrailingSlashes(p: string): (r: string)
    ensures |r| <= |p| && p[..|r|] == r
    ensures |r| > 0 ==> r[|r| - 1] != '/'
  {
    if |p| > 0 && p[|p| - 1] == '/' then TrimTrailingSlashes(p[..|p| - 1]) else p
  }

  /** filepath.Base: the last element, ignoring trailing separators. */
  function Base(p: string): (r: string)
    ensures |r| > 0
  {
    if p == "" then "."
    else
      var q := TrimTrailingSlashes(p);
      if q == "" then "/"
      else q[LastIndexChar(q, '/') + 1..]
  }

  /** filepath.Join: the non-empty tail of the elements, joined and cleaned; "" when all are empty. */
  function JoinPath(elems: seq<string>): string
    decreases |elems|
  {
    if |elems| == 0 then ""
    else if elems[0] != "" then Clean(Join(elems, "/"))
    else JoinPath(elems[1..])
  }

  /** A name that Clean keeps as it is: non-empty, not "." or "..", and free of separators. */
  predicate PlainName(e: string) {
    e != "" && e != "." && e != ".." && '/' !in e
  }

  lemma {:induction false} ResolvePlain(acc: seq<string>, elems: seq<string>, rooted: bool)
    requires forall i :: 0 <= i < |elems| ==> PlainName(elems[i])
    ensures Resolve(acc, elems, rooted) == acc + elems
    decreases |elems|
  {
    if |elems| > 0 {
      ResolvePlain(acc + [elems[0]], elems[1..], rooted);
      assert acc + [elems[0]] + elems[1..] == acc + elems;
    }
  }

  /** Clean leaves a relative path of plain names unchanged. */
  lemma CleanPlain(elems: seq<string>)
    requires |elems| > 0
    requires forall i :: 0 <= i < |elems| ==> PlainName(elems[i])
    ensures Clean(Join(elems, "/")) == Join(elems, "/")
  {
    var p := Join(elems, "/");
    SplitJoin(elems, '/');
    ResolvePlain([], elems, false);
    assert [] + elems == elems;
    assert |elems[0]| > 0;
    JoinHead(elems, "/");
    assert p[0] == elems[0][0];
  }

  lemma {:induction false} JoinHead(parts: seq<string>, sep: string)
    requires |parts| > 0
    ensures HasPrefix(Join(parts, sep), parts[0])
  {
  }

  /** Clean also leaves a rooted path of plain names unchanged. */
  lemma CleanPlainRooted(elems: seq<string>)
    requires |elems| > 0
    requires forall i :: 0 <= i < |elems| ==> PlainName(elems[i])
    ensures Clean("/" + Join(elems, "/")) == "/" + Join(elems, "/")
  {
    var p := "/" + Join(elems, "/");
    SplitJoin(elems, '/');
    assert p[1..] == Join(elems, "/");
    assert Split(p, '/') == [""] + elems;
    ResolvePlain([], elems, true);
    assert [] + elems == elems;
  }

  /** The last position of a character that the tail does not hold is the one before the tail. */
  lemma {:induction false} LastIndexBeforeTail(s: string, c: char, t: string)
    requires c !in t
    ensures LastIndexChar(s + [c] + t, c) == |s|
    decreases |t|
  {
    if |t| > 0 {
      assert (s + [c] + t)[..|s + [c] + t| - 1] == s + [c] + t[..|t| - 1];
      LastIndexBeforeTail(s, c, t[..|t| - 1]);
    } else {
      assert s + [c] + t == s + [c];
    }
  }

  /** The base of a path that ends in a plain name is that name. */
  lemma BaseOfPlainTail(prefix: string, name: string)
    requires PlainName(name)
    ensures Base(prefix + "/" + name) == name
  {
    var p := prefix + "/" + name;
    assert p[|p| - 1] == name[|name| - 1];
    assert p[|p| - 1] != '/' by { assert name[|name| - 1] in name; }
    assert TrimTrailingSlashes(p) == p;
    LastIndexBeforeTail(prefix, '/', name);
    assert p[|prefix| + 1..] == name;
  }
}
