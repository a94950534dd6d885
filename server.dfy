/**
 * Pieces of the language server's request handling
 * (internal/lsp/server.go): which requests are routed and which are
 * refused, the byte offset of a position handed to the definition finder,
 * and the package header written into a new, empty file.
 *
 * Handlers themselves, the connection, the cache lookups, the file system
 * and the search for workspace roots are outside the model; their answers
 * are parameters.
 */
module Server {
  import opened Wrappers
  import opened GoStrings
  import opened GoPath
  import opened LspTypes
  import opened LspRego
  import InlayHint
  import Utf8

  // ---------------------------------------------------------------------
  // Routing (LanguageServer.Handle)
  // ---------------------------------------------------------------------

  /** JSON-RPC 2.0 error codes (section 5.1 of the JSON-RPC 2.0 specification). */
  const InvalidParamsCode: int := -32602
  const MethodNotFoundCode: int := -32601

  /** The methods a handler of their own answers. */
  const HandledMethods: set<string> := {
    "initialize", "initialized",
    "textDocument/codeAction", "textDocument/definition", "textDocument/diagnostic",
    "textDocument/didOpen", "textDocument/didClose", "textDocument/didSave",
    "textDocument/documentSymbol", "textDocument/didChange", "textDocument/foldingRange",
    "textDocument/formatting", "textDocument/hover", "textDocument/inlayHint",
    "textDocument/codeLens", "textDocument/completion",
    "workspace/didChangeWatchedFiles", "workspace/diagnostic", "workspace/didRenameFiles",
    "workspace/didDeleteFiles", "workspace/didCreateFiles", "workspace/executeCommand",
    "workspace/symbol"
  }

  /** The methods answered with an empty object. */
  const EmptyMethods: set<string> := {"shutdown", "exit", "$/cancelRequest"}

  /**
   * How a request is answered: by its handler, with an empty object, with a
   * JSON-RPC error, or with a plain error from the server itself.
   */
  datatype Reply =
    | Dispatched(methodName: string)
    | EmptyObject
    | RpcError(code: int, message: string)
    | ServerError(message: string)

  /**
   * Handle: a request without params is refused as invalid unless it is a
   * shutdown or an exit; a known method goes to its handler; shutdown,
   * exit and cancellation get an empty object, except that an exit whose
   * closing of the connection fails (`closeError`, the error Close
   * returns) answers with that error wrapped; anything else is not found.
   */
  function Route(methodName: string, hasParams: bool, closeError: Option<string>): (r: Reply)
    ensures r == RpcError(InvalidParamsCode, "") <==> !hasParams && methodName != "shutdown" && methodName != "exit"
    ensures r.Dispatched? <==> (hasParams && methodName in HandledMethods)
    ensures r.Dispatched? ==> r.methodName == methodName
    ensures r.EmptyObject? <==>
      methodName in EmptyMethods && (hasParams || methodName != "$/cancelRequest")
      && !(methodName == "exit" && closeError.Some?)
    ensures r.ServerError? <==> methodName == "exit" && closeError.Some?
    ensures r.ServerError? ==> r.message == "failed to close connection: " + closeError.value
    ensures r.RpcError? && r.code == MethodNotFoundCode <==> hasParams && methodName !in HandledMethods + EmptyMethods
    ensures r.RpcError? && r.code == MethodNotFoundCode ==> r.message == "method not supported: " + methodName
  {
    if !hasParams && methodName != "shutdown" && methodName != "exit" then RpcError(InvalidParamsCode, "")
    else if methodName in HandledMethods then Dispatched(methodName)
    else if methodName == "exit" && closeError.Some? then ServerError("failed to close connection: " + closeError.value)
    else if methodName in EmptyMethods then EmptyObject
    else RpcError(MethodNotFoundCode, "method not supported: " + methodName)
  }

  // ---------------------------------------------------------------------
  // positionToOffset
  // ---------------------------------------------------------------------

  /**
   * The byte offset at which line `n` starts: the length in bytes of each
   * line before it, as Go's `len` counts, and one for its line break.
   */
  function LineStart(lines: seq<string>, n: nat): nat
    requires n <= |lines|
  {
    if n == 0 then 0 else LineStart(lines, n - 1) + Utf8.ByteLen(lines[n - 1]) + 1
  }

  /**
   * positionToOffset as written: after reading line `i` it answers when
   * `i` is the position's line minus one, so only lines 1 to the line
   * count are found, and line 0 never is.
   */
  function OffsetAsWritten(text: string, p: Position): int
    requires ValidPosition(p)
  {
    var lines := Split(text, '\n');
    var line := Int64(p.line);
    if 1 <= line <= |lines| then LineStart(lines, line) + Int64(p.character) else -1
  }

  /** The loop of positionToOffset. */
  method PositionToOffset(text: string, p: Position) returns (offset: int)
    requires ValidPosition(p)
    ensures offset == OffsetAsWritten(text, p)
  {
    var bytesRead := 0;
    var lines := Split(text, '\n');
    var target := Int64(p.line) - 1;
    for i := 0 to |lines|
      invariant bytesRead == LineStart(lines, i)
      invariant !(0 <= target < i)
    {
      if lines[i] == "" {
        bytesRead := bytesRead + 1;
      } else {
        bytesRead := bytesRead + Utf8.ByteLen(lines[i]) + 1;
      }
      if i == target {
        return bytesRead + Int64(p.character);
      }
    }
    return -1;
  }

  /** The offset of a position as evidently intended: the start of its line plus its character, on every line of the text. */
  function Offset(text: string, p: Position): (r: int)
    requires ValidPosition(p)
  {
    var lines := Split(text, '\n');
    var line := Int64(p.line);
    if 0 <= line < |lines| then LineStart(lines, line) + Int64(p.character) else -1
  }

  /** The start of line `n` is just past the bytes of the lines before it and the line break after them. */
  lemma {:induction false} LineStartJoin(lines: seq<string>, n: nat)
    requires 1 <= n <= |lines|
    ensures LineStart(lines, n) == Utf8.ByteLen(Join(lines[..n], "\n")) + 1
  {
    if n > 1 {
      LineStartJoin(lines, n - 1);
      assert lines[..n] == lines[..n - 1] + [lines[n - 1]];
      JoinAppend(lines[..n - 1], [lines[n - 1]], "\n");
      var front := Join(lines[..n - 1], "\n");
      assert Join(lines[..n], "\n") == (front + "\n") + lines[n - 1];
      Utf8.EncodeAppend(front + "\n", lines[n - 1]);
      Utf8.EncodeAppend(front, "\n");
    }
  }

  /**
   * Line `n` of the text starts just past its `n`th line break: the
   * offset Offset gives for character 0 of a line is the length in bytes
   * of the text up to and including that break.
   */
  lemma LineStartAfterBreak(text: string, n: nat)
    requires 1 <= n < |Split(text, '\n')|
    ensures HasPrefix(text, InlayHint.LinesBefore(text, n) + "\n")
    ensures var head := text[..|InlayHint.LinesBefore(text, n)| + 1];
      && head[|head| - 1] == '\n'
      && CountChar(head, '\n') == n
      && LineStart(Split(text, '\n'), n) == Utf8.ByteLen(head)
  {
    var before := InlayHint.LinesBefore(text, n);
    InlayHint.LinesBeforeArePrefix(text, n);
    LineStartJoin(Split(text, '\n'), n);
    assert text[..|before| + 1] == before + "\n";
    CountCharAppend(before, "\n", '\n');
    Utf8.EncodeAppend(before, "\n");
  }

  /** Offsets count bytes: after a line holding the two-byte `ä`, the next line starts at byte 3. */
  lemma ByteOffsetExample()
    ensures OffsetAsWritten("ä\nx", Position(1, 0)) == 3
  {
    var text := "ä\nx";
    assert Split(text, '\n') == ["ä", "x"] by {
      SplitNoSeparator("x", '\n');
      assert text[1..] == "\nx" && text[1..][1..] == "x";
      assert Split("\nx", '\n') == [""] + ["x"];
      assert ['ä'] + "" == "ä";
    }
    assert Utf8.ByteLen("ä") == 2 by {
      assert Utf8.Encode("ä") == Utf8.EncodeRune('ä') + Utf8.Encode("");
    }
  }

  /** Where the text has a line 0 the evidently intended offset is the character; as written it is -1. */
  lemma FirstLineOffset(text: string, c: nat)
    requires c <= MaxInt64
    ensures OffsetAsWritten(text, Position(0, c)) == -1
    ensures Offset(text, Position(0, c)) == c
  {
  }

  /** On every line but the first the two agree, and a line past the last gives -1 in both. */
  lemma OffsetAgrees(text: string, p: Position)
    requires ValidPosition(p) && 1 <= p.line <= MaxInt64
    ensures p.line < |Split(text, '\n')| ==> OffsetAsWritten(text, p) == Offset(text, p)
    ensures p.line > |Split(text, '\n')| ==> OffsetAsWritten(text, p) == Offset(text, p) == -1
  {
  }

  // ---------------------------------------------------------------------
  // templateContentsForFile
  // ---------------------------------------------------------------------

  /** A character of the regexp class `\w`. */
  predicate WordChar(c: char) {
    'a' <= c <= 'z' || 'A' <= c <= 'Z' || '0' <= c <= '9' || c == '_'
  }

  /** A path component matching `^\w+[\w\-]*\w+$`: two or more characters, word characters at both ends, dashes allowed between. */
  predicate ValidPathComponent(part: string) {
    && |part| >= 2
    && WordChar(part[0])
    && WordChar(part[|part| - 1])
    && forall k :: 0 < k < |part| - 1 ==> WordChar(part[k]) || part[k] == '-'
  }

  /** The best root among the first `n`: the first of the longest that prefix `dir`, "" when none is longer than "". */
  function LongestRoot(dir: string, roots: seq<string>, n: nat): string
    requires n <= |roots|
  {
    if n == 0 then ""
    else
      var best := LongestRoot(dir, roots, n - 1);
      if HasPrefix(dir, roots[n - 1]) && |roots[n - 1]| > |best| then roots[n - 1] else best
  }

  /**
   * The chosen root prefixes the directory and no root prefixing it is
   * longer; "" when no non-empty root prefixes it. Since two prefixes of
   * the same length are equal, the longest one is unique.
   */
  lemma {:induction false} LongestRootIsLongest(dir: string, roots: seq<string>, n: nat)
    requires n <= |roots|
    ensures var best := LongestRoot(dir, roots, n);
      && HasPrefix(dir, best)
      && (best == "" || best in roots[..n])
      && (forall i :: 0 <= i < n && HasPrefix(dir, roots[i]) ==> |roots[i]| <= |best|)
      && (forall i :: 0 <= i < n && HasPrefix(dir, roots[i]) && |roots[i]| == |best| ==> roots[i] == best)
  {
    if n > 0 {
      LongestRootIsLongest(dir, roots, n - 1);
      assert roots[..n] == roots[..n - 1] + [roots[n - 1]];
    }
  }

  /** The loop choosing the longest root that prefixes the directory. */
  method LongestPrefixRoot(dir: string, roots: seq<string>) returns (root: string)
    ensures root == LongestRoot(dir, roots, |roots|)
  {
    root := "";
    for i := 0 to |roots|
      invariant root == LongestRoot(dir, roots, i)
    {
      if HasPrefix(dir, roots[i]) && |roots[i]| > |root| {
        root := roots[i];
      }
    }
  }

  /** slices.Compact: runs of equal neighbouring elements replaced by one. */
  function Compact(parts: seq<string>): (r: seq<string>)
    ensures |r| <= |parts|
    ensures forall x :: x in r <==> x in parts
    ensures forall k :: 0 <= k < |r| - 1 ==> r[k] != r[k + 1]
    ensures |parts| > 0 ==> |r| > 0 && r[0] == parts[0]
  {
    if |parts| <= 1 then parts
    else if parts[0] == parts[1] then Compact(parts[1..])
    else [parts[0]] + Compact(parts[1..])
  }

  /** `n` copies of `x`. */
  function Copies(x: string, n: nat): (r: seq<string>)
    ensures |r| == n && forall k :: 0 <= k < n ==> r[k] == x
  {
    if n == 0 then [] else [x] + Copies(x, n - 1)
  }

  /** Each `r[k]` repeated `counts[k]` times, in order. */
  function Repeat(r: seq<string>, counts: seq<nat>): seq<string>
    requires |counts| == |r|
  {
    if r == [] then [] else Copies(r[0], counts[0]) + Repeat(r[1..], counts[1..])
  }

  /** The length of each run of equal neighbours, one per element of Compact(parts). */
  function RunLengths(parts: seq<string>): (c: seq<nat>)
    ensures |c| == |Compact(parts)|
    ensures forall k :: 0 <= k < |c| ==> c[k] > 0
  {
    if |parts| == 0 then []
    else if |parts| == 1 then [1]
    else if parts[0] == parts[1] then
      var c := RunLengths(parts[1..]);
      [c[0] + 1] + c[1..]
    else [1] + RunLengths(parts[1..])
  }

  /**
   * Compact only collapses runs of equal neighbours and keeps their order:
   * the input is every element of the result repeated a positive number of
   * times, in order. With the ensures of Compact (no equal neighbours in the
   * result) this determines the result, so `["a", "b", "a"]` is kept whole.
   */
  lemma {:induction false} CompactRuns(parts: seq<string>)
    ensures var r := Compact(parts);
      exists counts: seq<nat> :: |counts| == |r| && (forall k :: 0 <= k < |counts| ==> counts[k] > 0)
        && parts == Repeat(r, counts)
  {
    RunsRepeat(parts);
  }

  lemma {:induction false} RunsRepeat(parts: seq<string>)
    ensures parts == Repeat(Compact(parts), RunLengths(parts))
    decreases |parts|
  {
    if |parts| == 1 {
      assert Repeat(parts, [1]) == Copies(parts[0], 1) + Repeat([], []);
    } else if |parts| > 1 {
      var rest := parts[1..];
      RunsRepeat(rest);
      var r, c := Compact(rest), RunLengths(rest);
      if parts[0] == parts[1] {
        assert r[0] == parts[0];
        calc {
          Repeat(r, [c[0] + 1] + c[1..]);
          Copies(r[0], c[0] + 1) + Repeat(r[1..], c[1..]);
          [parts[0]] + (Copies(r[0], c[0]) + Repeat(r[1..], c[1..]));
          [parts[0]] + rest;
        }
      } else {
        assert ([parts[0]] + r)[1..] == r;
        calc {
          Repeat([parts[0]] + r, [1] + c);
          Copies(parts[0], 1) + Repeat(r, c);
          [parts[0]] + rest;
        }
      }
      assert [parts[0]] + rest == parts;
    }
  }

  /** Equal elements that are not neighbours are both kept, as slices.Compact does. */
  lemma CompactKeepsApart()
    ensures Compact(["a", "b", "a"]) == ["a", "b", "a"]
  {
    assert Compact(["a"]) == ["a"];
    assert Compact(["b", "a"]) == ["b"] + Compact(["a"]);
  }

  /** How building a package path ends: with the path, or at the first invalid part. */
  datatype Built = Built(pkg: string) | InvalidPart(part: string)

  /** One part added to the package path: `["part"]` when it has a dash, otherwise dot-joined. */
  function Extend(pkg: string, part: string): string {
    if '-' in part then pkg + "[\"" + part + "\"]"
    else if pkg == "" then part
    else pkg + "." + part
  }

  /** The package path built from `pkg` on, skipping empty parts and stopping at an invalid one. */
  function BuildFrom(pkg: string, parts: seq<string>): Built
    decreases |parts|
  {
    if parts == [] then Built(pkg)
    else if parts[0] == "" then BuildFrom(pkg, parts[1..])
    else if !ValidPathComponent(parts[0]) then InvalidPart(parts[0])
    else BuildFrom(Extend(pkg, parts[0]), parts[1..])
  }

  /** The loop building the package path from the directory's parts. */
  method PackageFromParts(parts: seq<string>) returns (r: Built)
    ensures r == BuildFrom("", parts)
  {
    var pkg := "";
    for i := 0 to |parts|
      invariant BuildFrom("", parts) == BuildFrom(pkg, parts[i..])
    {
      assert parts[i..][1..] == parts[i + 1..];
      var part := parts[i];
      if part == "" {
        continue;
      }
      if !ValidPathComponent(part) {
        return InvalidPart(part);
      }
      pkg := Extend(pkg, part);
    }
    assert parts[|parts|..] == [];
    return Built(pkg);
  }

  /**
   * The build fails exactly when some non-empty part is invalid, and then
   * names the first such part.
   */
  lemma {:induction false} InvalidPartIsFirst(pkg: string, parts: seq<string>)
    ensures BuildFrom(pkg, parts).InvalidPart? <==>
      exists i :: 0 <= i < |parts| && parts[i] != "" && !ValidPathComponent(parts[i])
    ensures BuildFrom(pkg, parts).InvalidPart? ==>
      exists i :: (0 <= i < |parts| && parts[i] == BuildFrom(pkg, parts).part && !ValidPathComponent(parts[i]) && parts[i] != ""
        && forall k :: 0 <= k < i ==> parts[k] == "" || ValidPathComponent(parts[k]))
    decreases |parts|
  {
    if parts != [] {
      var rest := parts[1..];
      var next := if parts[0] == "" || !ValidPathComponent(parts[0]) then pkg else Extend(pkg, parts[0]);
      InvalidPartIsFirst(next, rest);
      assert forall i :: 0 < i < |parts| ==> parts[i] == rest[i - 1];
      if BuildFrom(pkg, parts).InvalidPart? && (parts[0] == "" || ValidPathComponent(parts[0])) {
        var i :| (0 <= i < |rest| && rest[i] == BuildFrom(next, rest).part && !ValidPathComponent(rest[i]) && rest[i] != ""
          && forall k :: 0 <= k < i ==> rest[k] == "" || ValidPathComponent(rest[k]));
        assert parts[i + 1] == rest[i];
      }
    }
  }

  /** Valid dash-free parts after a non-empty path are dot-joined to it. */
  lemma {:induction false} PlainPartsJoined(pkg: string, parts: seq<string>)
    requires pkg != "" && |parts| >= 1
    requires forall i :: 0 <= i < |parts| ==> ValidPathComponent(parts[i]) && '-' !in parts[i]
    ensures BuildFrom(pkg, parts) == Built(pkg + "." + Join(parts, "."))
    decreases |parts|
  {
    if |parts| > 1 {
      PlainPartsJoined(pkg + "." + parts[0], parts[1..]);
      assert pkg + "." + parts[0] + "." + Join(parts[1..], ".") == pkg + "." + Join(parts, ".");
    }
  }

  /** Directories whose names are valid and dash-free give their names dot-joined, as in `foo/bar/baz` to `foo.bar.baz`. */
  lemma PlainPackage(parts: seq<string>)
    requires |parts| >= 1
    requires forall i :: 0 <= i < |parts| ==> ValidPathComponent(parts[i]) && '-' !in parts[i]
    ensures BuildFrom("", parts) == Built(Join(parts, "."))
  {
    if |parts| > 1 {
      PlainPartsJoined(parts[0], parts[1..]);
    }
  }

  /** A directory with a one-character name cannot be templated. */
  lemma OneCharacterPartRejected(pkg: string, parts: seq<string>, i: nat)
    requires i < |parts| && |parts[i]| == 1
    ensures BuildFrom(pkg, parts).InvalidPart?
  {
    InvalidPartIsFirst(pkg, parts);
  }

  /** The header written into a new file. */
  function Header(pkg: string, fileURI: string): (r: string)
    ensures HasPrefix(r, PackageKeyword) && HasSuffix(r, Preamble)
    ensures r == PackageKeyword + PackageName(pkg, fileURI) + Preamble
  {
    PackageKeyword + PackageName(pkg, fileURI) + Preamble
  }

  const PackageKeyword: string := "package "
  const Preamble: string := "\n\nimport rego.v1\n"
  const TestSuffix: string := "_test"

  /** The package of a new file: the path built, or `main`, with `_test` added for a test file. */
  function PackageName(pkg: string, fileURI: string): (r: string)
    ensures pkg != "" ==> HasPrefix(r, pkg)
    ensures pkg == "" ==> HasPrefix(r, "main")
    ensures HasSuffix(fileURI, "_test.rego") <==> |r| == |if pkg == "" then "main" else pkg| + |TestSuffix|
    ensures HasSuffix(fileURI, "_test.rego") ==> HasSuffix(r, TestSuffix)
    ensures !HasSuffix(fileURI, "_test.rego") ==> r == (if pkg == "" then "main" else pkg)
  {
    var name := if pkg == "" then "main" else pkg;
    if HasSuffix(fileURI, "_test.rego") then name + TestSuffix else name
  }

  /**
   * The parts of the directory below the root, neighbouring duplicates
   * collapsed; the separator is `/`, os.PathSeparator on the systems the
   * model covers.
   */
  function DirectoryParts(dir: string, root: string): seq<string> {
    Compact(Split(TrimPrefix(dir, root), '/'))
  }

  /** A directory repeated directly below itself adds its name once: `a/a` makes package `a`. */
  lemma RepeatedDirectoryCollapses(root: string, a: string)
    requires ValidPathComponent(a) && '/' !in a && '-' !in a
    ensures BuildFrom("", DirectoryParts(root + "/" + a + "/" + a, root)) == Built(a)
  {
    RepeatedDirectoryParts(root, a);
    assert ["", a][1..] == [a];
    assert [a][1..] == [];
    assert BuildFrom("", ["", a]) == BuildFrom("", [a]);
    assert BuildFrom("", [a]) == BuildFrom(Extend("", a), []);
  }

  lemma RepeatedDirectoryParts(root: string, a: string)
    requires '/' !in a && a != ""
    ensures DirectoryParts(root + "/" + a + "/" + a, root) == ["", a]
  {
    assert root + "/" + a + "/" + a == root + ("/" + a + "/" + a);
    assert TrimPrefix(root + "/" + a + "/" + a, root) == "/" + a + "/" + a;
    SplitOfSlashes(a);
    assert ["", a, a][1..] == [a, a];
    assert [a, a][1..] == [a];
    assert Compact([a, a]) == [a];
    assert Compact(["", a, a]) == [""] + Compact([a, a]);
  }

  /** `/a/a` splits at its two slashes. */
  lemma SplitOfSlashes(a: string)
    requires '/' !in a
    ensures Split("/" + a + "/" + a, '/') == ["", a, a]
  {
    var s := "/" + a + "/" + a;
    assert s[0] == '/' && s[1..] == a + ("/" + a);
    assert Split(s, '/') == [""] + Split(s[1..], '/');
    SplitWord(a, "/" + a);
    assert ("/" + a)[1..] == a;
    SplitWord(a, "");
    assert a + "" == a;
  }

  /** Splitting a separator-free word followed by the separator and more text. */
  lemma {:induction false} SplitWord(a: string, rest: string)
    requires '/' !in a
    ensures |rest| > 0 && rest[0] == '/' ==> Split(a + rest, '/') == [a] + Split(rest[1..], '/')
    ensures rest == "" ==> Split(a, '/') == [a]
    decreases |a|
  {
    if |a| > 0 {
      SplitWord(a[1..], rest);
      assert (a + rest)[0] == a[0] && a[0] != '/';
      assert (a + rest)[1..] == a[1..] + rest;
      assert [a[0]] + a[1..] == a;
    } else {
      assert a + rest == rest;
      if |rest| > 0 && rest[0] == '/' {
        assert Split(rest, '/') == [""] + Split(rest[1..], '/');
      }
    }
  }

  /** Why templating a file fails. */
  datatype TemplateError =
    | NoCachedContents(fileURI: string)
    | HasContents
    | DiskHasContents
    | NoRoots(err: string)
    | NoPrefixRoot(path: string)
    | InvalidPathPart(part: string)

  /** The error message for each failure. */
  function Message(e: TemplateError): string {
    match e
    case NoCachedContents(fileURI) => "failed to get file contents for URI " + fileURI
    case HasContents => "file already has contents, templating not allowed"
    case DiskHasContents => "file on disk already has contents, templating not allowed"
    case NoRoots(err) => "failed to get potential roots during templating of new file: " + err
    case NoPrefixRoot(path) => "failed to find longest prefix root for templating of new file: " + path
    case InvalidPathPart(part) => "failed to template new file as package path contained invalid part: " + part
  }

  /**
   * templateContentsForFile: a file unknown to the cache, or with contents
   * in the cache or on disk, is not templated; nor is one no root
   * prefixes, or whose directory below the root has an invalid part;
   * otherwise the header of the package its directories make.
   */
  method TemplateContents(cached: Option<string>, disk: Option<string>, fileURI: string, path: string,
                          roots: Result<seq<string>>)
    returns (r: Result<string>, ghost err: Option<TemplateError>)
    ensures r.Ok? <==> err.None?
    ensures r.Err? ==> r.error == Message(err.value)
    ensures cached.None? ==> err == Some(NoCachedContents(fileURI))
    ensures cached.Some? && cached.value != "" ==> err == Some(HasContents)
    ensures cached == Some("") && disk.Some? && disk.value != "" ==> err == Some(DiskHasContents)
    ensures cached == Some("") && (disk.None? || disk == Some("")) ==>
      match roots
      case Err(e) => err == Some(NoRoots(e))
      case Ok(rs) => PackageOutcome(fileURI, path, rs, r, err)
  {
    var e: TemplateError;
    if cached.None? {
      e := NoCachedContents(fileURI);
      return Err(Message(e)), Some(e);
    }
    if cached.value != "" {
      e := HasContents;
      return Err(Message(e)), Some(e);
    }
    if disk.Some? && disk.value != "" {
      e := DiskHasContents;
      return Err(Message(e)), Some(e);
    }
    if roots.Err? {
      e := NoRoots(roots.error);
      return Err(Message(e)), Some(e);
    }
    r, err := TemplateBelowRoot(fileURI, path, roots.value);
  }

  /**
   * How templating ends once the roots are known: no non-empty root
   * prefixes the directory, a part below the root is invalid, or the
   * header of the package the parts make.
   */
  ghost predicate PackageOutcome(fileURI: string, path: string, roots: seq<string>,
                                 r: Result<string>, err: Option<TemplateError>) {
    var root := LongestRoot(Dir(path), roots, |roots|);
    if root == "" then err == Some(NoPrefixRoot(path))
    else match BuildFrom("", DirectoryParts(Dir(path), root))
      case InvalidPart(part) => err == Some(InvalidPathPart(part))
      case Built(pkg) => r == Ok(Header(pkg, fileURI)) && err.None?
  }

  /** The part of templateContentsForFile after the roots are found. */
  method TemplateBelowRoot(fileURI: string, path: string, roots: seq<string>)
    returns (r: Result<string>, ghost err: Option<TemplateError>)
    ensures r.Ok? <==> err.None?
    ensures r.Err? ==> r.error == Message(err.value)
    ensures PackageOutcome(fileURI, path, roots, r, err)
  {
    var e: TemplateError;
    var dir := Dir(path);
    var root := LongestPrefixRoot(dir, roots);
    if root == "" {
      e := NoPrefixRoot(path);
      return Err(Message(e)), Some(e);
    }
    var parts := Compact(Split(TrimPrefix(dir, root), '/'));
    var built := PackageFromParts(parts);
    if built.InvalidPart? {
      e := InvalidPathPart(built.part);
      return Err(Message(e)), Some(e);
    }
    return Ok(Header(built.pkg, fileURI)), None;
  }
}
