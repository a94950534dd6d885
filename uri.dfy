/**
 * Conversion between file paths and `file://` URIs for a language client
 * (internal/lsp/uri/uri.go).  Each path segment is escaped as a URL query
 * component (RFC 3986 section 2.1 percent-encoding of the UTF-8 bytes, with
 * a space written "%20"); a Windows drive letter is kept, and VS Code
 * additionally expects its colon escaped.  Paths use "/" as on Unix, where
 * filepath.ToSlash and filepath.FromSlash change nothing.
 */
module Uri {
  import opened Wrappers
  import opened GoStrings
  import opened Utf8

  /** The client identifier, as far as the conversion tells clients apart. */
  datatype Client = VSCode | OtherClient

  const FilePrefix := "file://"

  /** The characters url.QueryEscape leaves as they are. */
  predicate Unreserved(c: char) {
    'a' <= c <= 'z' || 'A' <= c <= 'Z' || '0' <= c <= '9' || c == '-' || c == '_' || c == '.' || c == '~'
  }

  predicate Letter(c: char) {
    'a' <= c <= 'z' || 'A' <= c <= 'Z'
  }

  /** An upper-case hexadecimal digit. */
  function HexDigit(d: nat): (c: char)
    requires d < 16
    ensures '0' <= c <= '9' || 'A' <= c <= 'F'
  {
    if d < 10 then ('0' as int + d) as char else ('A' as int + d - 10) as char
  }

  predicate IsHex(c: char) {
    '0' <= c <= '9' || 'a' <= c <= 'f' || 'A' <= c <= 'F'
  }

  function Unhex(c: char): (d: nat)
    requires IsHex(c)
    ensures d < 16
  {
    if '0' <= c <= '9' then c as int - '0' as int
    else if 'a' <= c <= 'f' then c as int - 'a' as int + 10
    else c as int - 'A' as int + 10
  }

  lemma UnhexHexDigit(d: nat)
    requires d < 16
    ensures IsHex(HexDigit(d)) && Unhex(HexDigit(d)) == d
  {
  }

  /** "%XY" for each byte, with upper-case hexadecimal digits. */
  function PercentBytes(bytes: seq<Byte>): (r: string)
    ensures '+' !in r && '/' !in r
  {
    if |bytes| == 0 then ""
    else ['%', HexDigit(bytes[0] / 16), HexDigit(bytes[0] % 16)] + PercentBytes(bytes[1..])
  }

  /** url.QueryEscape of one character. */
  function QueryEscapeChar(c: char): string {
    if Unreserved(c) then [c]
    else if c == ' ' then "+"
    else PercentBytes(EncodeRune(c))
  }

  /** url.QueryEscape */
  function QueryEscape(s: string): string {
    if |s| == 0 then "" else QueryEscapeChar(s[0]) + QueryEscape(s[1..])
  }

  /** A segment's escape as FromPath writes it: query-escaped, then "+" rewritten to "%20". */
  function EscapeSegment(part: string): string {
    ReplaceAll(QueryEscape(part), "+", "%20")
  }

  /** One character of a segment as it ends up in the URI: a space is "%20". */
  function PathEscapeChar(c: char): (r: string)
    ensures '/' !in r
  {
    if c == ' ' then "%20" else QueryEscapeChar(c)
  }

  /** A path with each character but "/" escaped. */
  function PathEscape(s: string): string {
    if |s| == 0 then ""
    else (if s[0] == '/' then "/" else PathEscapeChar(s[0])) + PathEscape(s[1..])
  }

  /** A drive specification "X:" at the start of a path, or "". */
  function DriveOf(path: string): (r: string)
    ensures r == "" || (|r| == 2 && HasPrefix(path, r) && Letter(r[0]) && r[1] == ':')
  {
    if |path| >= 2 && Letter(path[0]) && path[1] == ':' then path[..2] else ""
  }

  /** The segments of a path after its drive, escaped and joined. */
  function EscapedSegments(rest: string): string {
    var parts := Split(rest, '/');
    Join(seq(|parts|, i requires 0 <= i < |parts| => EscapeSegment(parts[i])), "/")
  }

  /**
   * The URI FromPath gives for a path: any "file://" and one leading "/"
   * are dropped, a drive is kept (escaped for VS Code), the segments are
   * escaped, and the whole is prefixed with "file:///".
   */
  function UriOf(client: Client, path: string): (r: string)
    ensures HasPrefix(r, "file:///")
  {
    var p := TrimPrefix(TrimPrefix(path, FilePrefix), "/");
    var drive := DriveOf(p);
    var escaped := EscapedSegments(p[|drive|..]);
    if client == VSCode && drive != "" then "file:///" + QueryEscape(drive) + escaped
    else "file:///" + drive + escaped
  }

  /** FromPath: the segments are rewritten in place in a loop. */
  method FromPath(client: Client, path: string) returns (r: string)
    ensures r == UriOf(client, path)
  {
    var p := TrimPrefix(path, FilePrefix);
    p := TrimPrefix(p, "/");
    var driveLetter := DriveOf(p);
    if driveLetter != "" {
      p := TrimPrefix(p, driveLetter);
    }
    var parts := Split(p, '/');
    ghost var original := parts;
    var i := 0;
    while i < |parts|
      invariant 0 <= i <= |parts| == |original|
      invariant forall j :: 0 <= j < |parts| ==> parts[j] == if j < i then EscapeSegment(original[j]) else original[j]
    {
      parts := parts[i := QueryEscape(parts[i])];
      parts := parts[i := ReplaceAll(parts[i], "+", "%20")];
      i := i + 1;
    }
    assert parts == seq(|original|, j requires 0 <= j < |original| => EscapeSegment(original[j]));
    if client == VSCode {
      if driveLetter != "" {
        return "file:///" + QueryEscape(driveLetter) + Join(parts, "/");
      }
      return "file:///" + Join(parts, "/");
    }
    if driveLetter != "" {
      return "file:///" + driveLetter + Join(parts, "/");
    }
    return "file:///" + Join(parts, "/");
  }

  /**
   * url.QueryUnescape: the bytes a query component stands for, or None
   * when a "%" is not followed by two hexadecimal digits.
   */
  function QueryUnescape(s: string): (r: Option<seq<Byte>>)
    decreases |s|
  {
    if |s| == 0 then Some([])
    else if s[0] == '%' then
      if |s| >= 3 && IsHex(s[1]) && IsHex(s[2]) then
        var rest :- QueryUnescape(s[3..]);
        Some([Unhex(s[1]) * 16 + Unhex(s[2])] + rest)
      else None
    else if s[0] == '+' then
      var rest :- QueryUnescape(s[1..]);
      Some([0x20] + rest)
    else
      var rest :- QueryUnescape(s[1..]);
      Some(EncodeRune(s[0]) + rest)
  }

  /** The drive pattern `^([A-Za-z])(%3[aA]|:)` that ToPath looks for on VS Code: the length it matches, or 0. */
  function EncodedDriveLength(path: string): (n: nat)
    ensures n == 0 || n == 2 || n == 4
    ensures n > 0 ==> |path| >= n && Letter(path[0])
  {
    if |path| >= 2 && Letter(path[0]) && path[1] == ':' then 2
    else if |path| >= 4 && Letter(path[0]) && path[1] == '%' && path[2] == '3' && (path[3] == 'a' || path[3] == 'A') then 4
    else 0
  }

  /**
   * ToPath: a "file://" prefix is cut and the rest percent-decoded when it
   * decodes; for VS Code a leading "/" is dropped and a drive letter
   * restored, or a leading "/" put back when there is none.
   */
  function ToPath(client: Client, uri: string): (r: string)
    ensures client == VSCode && EncodedDriveLength(TrimPrefix(Decoded(uri), "/")) == 0 ==> HasPrefix(r, "/")
  {
    var path := Decoded(uri);
    if client == VSCode then
      var trimmed := TrimPrefix(path, "/");
      var n := EncodedDriveLength(trimmed);
      if n > 0 then [trimmed[0]] + ":" + trimmed[n..]
      else "/" + trimmed
    else path
  }

  /** The URI with its "file://" prefix cut and decoded; unchanged without the prefix or when it does not decode. */
  function Decoded(uri: string): string {
    if HasPrefix(uri, FilePrefix) then
      var path := uri[|FilePrefix|..];
      match QueryUnescape(path)
      case Some(bytes) => Decode(bytes)
      case None => path
    else uri
  }

  function PercentByte(b: Byte): string {
    ['%', HexDigit(b / 16), HexDigit(b % 16)]
  }

  lemma UnescapeOneByte(b: Byte, t: string)
    requires QueryUnescape(t).Some?
    ensures QueryUnescape(PercentByte(b) + t) == Some([b] + QueryUnescape(t).value)
  {
    var s := PercentByte(b) + t;
    UnhexHexDigit(b / 16);
    UnhexHexDigit(b % 16);
    assert s[0] == '%' && s[1] == HexDigit(b / 16) && s[2] == HexDigit(b % 16) && s[3..] == t;
  }

  lemma {:induction false} UnescapePercentBytes(bytes: seq<Byte>, t: string)
    requires QueryUnescape(t).Some?
    ensures QueryUnescape(PercentBytes(bytes) + t) == Some(bytes + QueryUnescape(t).value)
    decreases |bytes|
  {
    if |bytes| == 0 {
      assert PercentBytes(bytes) + t == t;
      assert bytes + QueryUnescape(t).value == QueryUnescape(t).value;
    } else {
      UnescapePercentBytes(bytes[1..], t);
      UnescapePercentStep(bytes, t, QueryUnescape(t).value);
    }
  }

  lemma UnescapePercentStep(bytes: seq<Byte>, t: string, v: seq<Byte>)
    requires |bytes| > 0
    requires QueryUnescape(PercentBytes(bytes[1..]) + t) == Some(bytes[1..] + v)
    ensures QueryUnescape(PercentBytes(bytes) + t) == Some(bytes + v)
  {
    var tail := PercentBytes(bytes[1..]) + t;
    assert PercentBytes(bytes) + t == PercentByte(bytes[0]) + tail;
    UnescapeOneByte(bytes[0], tail);
    HeadTail(bytes, v);
  }

  lemma HeadTail(bytes: seq<Byte>, v: seq<Byte>)
    requires |bytes| > 0
    ensures [bytes[0]] + (bytes[1..] + v) == bytes + v
  {
    assert bytes == [bytes[0]] + bytes[1..];
  }

  /** The escape of one character followed by more text decodes to the character's bytes first. */
  lemma UnescapeChar(c: char, t: string)
    requires c != '/' && QueryUnescape(t).Some?
    ensures QueryUnescape(PathEscapeChar(c) + t) == Some(EncodeRune(c) + QueryUnescape(t).value)
  {
    var s := PathEscapeChar(c) + t;
    if c == ' ' {
      assert s[0] == '%' && s[1] == '2' && s[2] == '0' && s[3..] == t;
    } else if Unreserved(c) {
      assert s[0] == c && s[1..] == t;
    } else {
      UnescapePercentBytes(EncodeRune(c), t);
    }
  }

  /** Percent-decoding an escaped path gives the bytes of the path. */
  lemma {:induction false} UnescapePath(s: string)
    ensures QueryUnescape(PathEscape(s)) == Some(Encode(s))
  {
    if |s| > 0 {
      UnescapePath(s[1..]);
      if s[0] == '/' {
        var e := PathEscape(s);
        assert e[0] == '/' && e[1..] == PathEscape(s[1..]);
      } else {
        UnescapeChar(s[0], PathEscape(s[1..]));
      }
    }
  }

  /** QueryEscape followed by the "+" rewrite escapes character by character. */
  lemma {:induction false} EscapeSegmentChars(part: string)
    requires '/' !in part
    ensures EscapeSegment(part) == PathEscape(part)
  {
    if |part| > 0 {
      var c := part[0];
      EscapeSegmentChars(part[1..]);
      assert QueryEscape(part) == QueryEscapeChar(c) + QueryEscape(part[1..]);
      if c == ' ' {
        var q := "+" + QueryEscape(part[1..]);
        assert HasPrefix(q, "+") && q[1..] == QueryEscape(part[1..]);
      } else {
        ReplaceAllFreePrefix(QueryEscapeChar(c), QueryEscape(part[1..]), '+', "%20");
      }
    }
  }

  lemma {:induction false} PathEscapeAppend(s: string, t: string)
    ensures PathEscape(s + t) == PathEscape(s) + PathEscape(t)
  {
    if |s| == 0 {
      assert s + t == t;
    } else {
      assert (s + t)[1..] == s[1..] + t;
      PathEscapeAppend(s[1..], t);
    }
  }

  /** Escaping the segments and joining them with "/" escapes the path around its separators. */
  lemma EscapedSegmentsPath(rest: string)
    ensures EscapedSegments(rest) == PathEscape(rest)
  {
    var parts := Split(rest, '/');
    SplitPieces(rest, '/');
    JoinSplit(rest, '/');
    EscapedJoin(parts);
  }

  lemma {:induction false} EscapedJoin(parts: seq<string>)
    requires forall i :: 0 <= i < |parts| ==> '/' !in parts[i]
    ensures Join(seq(|parts|, i requires 0 <= i < |parts| => EscapeSegment(parts[i])), "/") == PathEscape(Join(parts, "/"))
    decreases |parts|
  {
    var escaped := seq(|parts|, i requires 0 <= i < |parts| => EscapeSegment(parts[i]));
    if |parts| == 1 {
      EscapeSegmentChars(parts[0]);
    } else if |parts| > 1 {
      var j := Join(parts[1..], "/");
      var head := PathEscape(parts[0]);
      assert escaped[0] == head by {
        EscapeSegmentChars(parts[0]);
      }
      assert Join(escaped[1..], "/") == PathEscape(j) by {
        EscapedJoin(parts[1..]);
        assert escaped[1..] == seq(|parts[1..]|, i requires 0 <= i < |parts[1..]| => EscapeSegment(parts[1..][i]));
      }
      assert Join(escaped, "/") == head + "/" + PathEscape(j);
      assert PathEscape(Join(parts, "/")) == head + ("/" + PathEscape(j)) by {
        ConcatAssoc(parts[0], "/", j);
        PathEscapeAppend(parts[0], "/" + j);
        PathEscapeAppend("/", j);
      }
      ConcatAssoc(head, "/", PathEscape(j));
    }
  }

  /** Every URI FromPath gives starts with "file:///". */
  lemma FromPathScheme(client: Client, path: string)
    ensures HasPrefix(UriOf(client, path), "file:///")
  {
  }

  /** A path already given as a "file://" URI converts as the path itself. */
  lemma FromPathStripsScheme(client: Client, path: string)
    requires !HasPrefix(path, FilePrefix)
    ensures UriOf(client, FilePrefix + path) == UriOf(client, path)
  {
    assert (FilePrefix + path)[|FilePrefix|..] == path;
  }

  /**
   * An absolute Unix path survives the round trip through its URI, for
   * VS Code and for other clients, whatever its characters (spaces and
   * colons included), as long as it does not start like a drive.
   */
  lemma PathRoundTrip(client: Client, path: string)
    requires |path| > 0 && path[0] == '/'
    requires EncodedDriveLength(path[1..]) == 0
    ensures ToPath(client, UriOf(client, path)) == path
  {
    var rest := path[1..];
    assert !HasPrefix(path, FilePrefix);
    assert TrimPrefix(path, "/") == rest;
    assert DriveOf(rest) == "";
    assert rest[0..] == rest;
    var uri := UriOf(client, path);
    EscapedSegmentsPath(rest);
    assert uri == "file:///" + PathEscape(rest);
    assert uri[|FilePrefix|..] == PathEscape("/" + rest) by {
      PathEscapeAppend("/", rest);
    }
    assert "/" + rest == path;
    UnescapePath(path);
    DecodeEncode(path);
    assert Decoded(uri) == path;
  }

  /** A Windows path with a drive letter survives the round trip through its VS Code URI. */
  lemma DrivePathRoundTrip(path: string)
    requires |path| >= 2 && Letter(path[0]) && path[1] == ':'
    ensures ToPath(VSCode, UriOf(VSCode, path)) == path
  {
    var uri := UriOf(VSCode, path);
    var decodedText := "/" + path;
    DriveUri(path);
    assert uri[|FilePrefix|..] == PathEscape(decodedText);
    UnescapePath(decodedText);
    DecodeEncode(decodedText);
    assert Decoded(uri) == decodedText;
    assert TrimPrefix(decodedText, "/") == path;
    assert EncodedDriveLength(path) == 2;
    assert [path[0]] + ":" + path[2..] == path;
  }

  /** The VS Code URI of a path with a drive is the escape of the path behind "file://". */
  lemma DriveUri(path: string)
    requires |path| >= 2 && Letter(path[0]) && path[1] == ':'
    ensures UriOf(VSCode, path) == FilePrefix + PathEscape("/" + path)
  {
    var x := [path[0]] + "%3A";
    var y := PathEscape(path[2..]);
    DriveUriParts(path);
    DrivePathEscape(path);
    assert "file:///" == FilePrefix + "/";
    ConcatAssoc(FilePrefix, "/", x);
    ConcatAssoc(FilePrefix, "/" + x, y);
  }

  lemma DriveUriParts(path: string)
    requires |path| >= 2 && Letter(path[0]) && path[1] == ':'
    ensures UriOf(VSCode, path) == "file:///" + ([path[0]] + "%3A") + PathEscape(path[2..])
  {
    var drive := path[..2];
    assert !HasPrefix(path, FilePrefix) by { assert path[0] != 'f' || path[1] != 'i'; }
    assert DriveOf(path) == drive;
    EscapedSegmentsPath(path[2..]);
    ColonEscape();
    assert QueryEscape(drive) == [path[0]] + "%3A" by {
      assert drive[1..] == ":" && ":"[1..] == "";
    }
  }

  lemma DrivePathEscape(path: string)
    requires |path| >= 2 && Letter(path[0]) && path[1] == ':'
    ensures PathEscape("/" + path) == "/" + ([path[0]] + "%3A") + PathEscape(path[2..])
  {
    var drive := path[..2];
    var e := PathEscape(path[2..]);
    var d := [path[0]] + "%3A";
    assert PathEscape("/" + path) == "/" + PathEscape(path) by {
      PathEscapeAppend("/", path);
    }
    assert PathEscape(path) == PathEscape(drive) + e by {
      assert path == drive + path[2..];
      PathEscapeAppend(drive, path[2..]);
    }
    assert PathEscape(drive) == d by {
      assert drive == [path[0]] + ":";
      PathEscapeAppend([path[0]], ":");
      ColonEscape();
      assert PathEscape([path[0]]) == [path[0]];
    }
    ConcatAssoc("/", d, e);
  }

  lemma ColonEscape()
    ensures QueryEscapeChar(':') == "%3A" && PathEscape(":") == "%3A"
  {
    assert EncodeRune(':') == [0x3A];
    assert PercentBytes([0x3A]) == "%3A";
  }

  predicate PlainPath(path: string) {
    forall i :: 0 <= i < |path| ==> Unreserved(path[i]) || path[i] == '/'
  }

  /** A path of unreserved characters and separators converts to the same URI twice over. */
  lemma FromPathIdempotentOnPlainPaths(client: Client, path: string)
    requires PlainPath(path)
    ensures UriOf(client, UriOf(client, path)) == UriOf(client, path)
  {
    var p := PlainUri(client, path);
    var u := UriOf(client, path);
    assert u == FilePrefix + ("/" + p) by {
      ConcatAssoc(FilePrefix, "/", p);
    }
    assert UriOf(client, u) == UriOf(client, "/" + p) by {
      FromPathStripsScheme(client, "/" + p);
    }
    assert UriOf(client, "/" + p) == u by {
      var q := PlainUri(client, "/" + p);
      assert q == p by {
        assert HasPrefix("/" + p, "/");
        assert ("/" + p)[1..] == p;
      }
    }
  }

  /** The URI of a plain path is the path without its leading "/", behind "file:///". */
  lemma PlainUri(client: Client, path: string) returns (p: string)
    requires PlainPath(path)
    ensures p == TrimPrefix(path, "/") && PlainPath(p)
    ensures UriOf(client, path) == "file:///" + p
    ensures !HasPrefix(path, FilePrefix) && !HasPrefix("/" + p, FilePrefix)
  {
    assert FilePrefix[4] == ':';
    assert !HasPrefix(path, FilePrefix) by {
      if |path| >= |FilePrefix| {
        assert path[4] != ':';
      }
    }
    p := TrimPrefix(path, "/");
    assert forall i :: 0 <= i < |p| ==> p[i] == path[i + |path| - |p|];
    assert !HasPrefix("/" + p, FilePrefix);
    assert DriveOf(p) == "";
    assert p[0..] == p;
    EscapedSegmentsPath(p);
    PlainPathEscape(p);
  }

  lemma {:induction false} PlainPathEscape(s: string)
    requires PlainPath(s)
    ensures PathEscape(s) == s
  {
    if |s| > 0 {
      PlainPathEscape(s[1..]);
    }
  }
}
