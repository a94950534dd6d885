/**
 * The location encoding of the RoAST format: an ast.Location (start row and
 * column, and the text it covers) written as "row:col:endRow:endCol".  Two
 * implementations compute the end: the JSON codec of
 * internal/roast/encoding/location.go splits the text into lines, and the
 * value transform of internal/roast/transforms/module/module.go counts
 * newlines and finds the last one.  Rows are 1-based; columns count bytes.
 */
module RoastLocation {
  import opened Wrappers
  import opened GoStrings
  import opened Utf8

  /** ast.Location: the text is absent (Go's nil) or a byte string. */
  datatype Location = Location(row: int, col: int, text: Option<seq<Byte>>)

  /** The end of a location: its last row and the column just past its last byte. */
  datatype End = End(row: int, col: int)

  /** A byte string with one character per byte, so that the strings functions count bytes. */
  function Chars(b: seq<Byte>): (r: string)
    ensures |r| == |b|
    ensures forall i :: 0 <= i < |b| ==> r[i] as int == b[i]
  {
    if |b| == 0 then "" else [b[0] as char] + Chars(b[1..])
  }

  /** The lines of a text: one more than its newlines, the last one what follows the last newline. */
  lemma LinesOf(s: string)
    ensures |Split(s, '\n')| == CountChar(s, '\n') + 1
    ensures LastIndexChar(s, '\n') >= 0 <==> CountChar(s, '\n') > 0
    ensures LastIndexChar(s, '\n') < 0 ==> Split(s, '\n') == [s]
    ensures LastIndexChar(s, '\n') >= 0 ==> Split(s, '\n')[|Split(s, '\n')| - 1] == s[LastIndexChar(s, '\n') + 1..]
  {
    SplitPieces(s, '\n');
    CountZeroIffAbsent(s, '\n');
    var k := LastIndexChar(s, '\n');
    if k >= 0 {
      SplitLastPiece(s, '\n', k);
    } else {
      SplitNoSeparator(s, '\n');
    }
  }

  /**
   * locationCodec.Encode's end: the start for a location without text; for
   * one line, the start column plus the text's length; otherwise the row
   * after as many newlines as the text holds, and the column just past the
   * bytes that follow the last newline.
   */
  function CodecEnd(loc: Location): (r: End)
    ensures loc.text.None? ==> r == End(loc.row, loc.col)
    ensures loc.text.Some? ==> r.row == loc.row + CountChar(Chars(loc.text.value), '\n')
    ensures loc.text.Some? && LastIndexChar(Chars(loc.text.value), '\n') < 0 ==> r.col == loc.col + |loc.text.value|
    ensures loc.text.Some? && LastIndexChar(Chars(loc.text.value), '\n') >= 0 ==>
      r.col == |loc.text.value| - LastIndexChar(Chars(loc.text.value), '\n')
  {
    match loc.text
    case None => End(loc.row, loc.col)
    case Some(text) =>
      var lines := Split(Chars(text), '\n');
      var numLines := |lines|;
      LinesOf(Chars(text));
      End(loc.row + numLines - 1, if numLines == 1 then loc.col + |text| else |lines[numLines - 1]| + 1)
  }

  /** locationItem's end: bytes.Count of newlines and bytes.LastIndexByte instead of splitting. */
  function ItemEnd(loc: Location): End {
    match loc.text
    case None => End(loc.row, loc.col)
    case Some(text) =>
      var numLines := CountChar(Chars(text), '\n') + 1;
      End(loc.row + numLines - 1, if numLines < 2 then loc.col + |text| else |text| - LastIndexChar(Chars(text), '\n'))
  }

  /** The two implementations compute the same end for every location. */
  lemma ItemEndAgrees(loc: Location)
    ensures ItemEnd(loc) == CodecEnd(loc)
  {
    if loc.text.Some? {
      CountZeroIffAbsent(Chars(loc.text.value), '\n');
    }
  }

  /** The "row:col:endRow:endCol" string. */
  function LocationString(row: int, col: int, end: End): string {
    Join([Itoa(row), Itoa(col), Itoa(end.row), Itoa(end.col)], ":")
  }

  /** The location as locationCodec.Encode writes it (without the JSON quotes). */
  function Encode(loc: Location): string {
    LocationString(loc.row, loc.col, CodecEnd(loc))
  }

  /** Reads a "row:col:endRow:endCol" string back into its four numbers. */
  function ParseLocationString(s: string): (r: Option<(int, int, int, int)>)
    ensures r.Some? ==> |Split(s, ':')| == 4
  {
    var parts := Split(s, ':');
    if |parts| != 4 then None
    else
      match (Atoi(parts[0]), Atoi(parts[1]), Atoi(parts[2]), Atoi(parts[3]))
      case (Some(a), Some(b), Some(c), Some(d)) => Some((a, b, c, d))
      case _ => None
  }

  lemma ItoaNoColon(i: int)
    ensures ':' !in Itoa(i)
  {
    var digits := NatToString(if i < 0 then -i else i);
    assert forall k :: 0 <= k < |digits| ==> digits[k] != ':';
    if i < 0 {
      assert Itoa(i) == "-" + digits;
      assert forall k :: 0 <= k < |Itoa(i)| ==> Itoa(i)[k] != ':' by {
        forall k | 0 <= k < |Itoa(i)| ensures Itoa(i)[k] != ':' {
          if k > 0 {
            assert Itoa(i)[k] == digits[k - 1];
          }
        }
      }
    }
  }

  /** The location string reads back as the start and the end it was written from. */
  lemma LocationStringRoundTrip(row: int, col: int, end: End)
    ensures ParseLocationString(LocationString(row, col, end)) == Some((row, col, end.row, end.col))
  {
    var parts := [Itoa(row), Itoa(col), Itoa(end.row), Itoa(end.col)];
    ItoaNoColon(row);
    ItoaNoColon(col);
    ItoaNoColon(end.row);
    ItoaNoColon(end.col);
    SplitJoin(parts, ':');
    AtoiItoa(row);
    AtoiItoa(col);
    AtoiItoa(end.row);
    AtoiItoa(end.col);
  }

  /** An ASCII text as bytes. */
  function AsciiBytes(s: string): (r: seq<Byte>)
    requires forall i :: 0 <= i < |s| ==> s[i] as int < 0x80
    ensures |r| == |s|
    ensures Chars(r) == s
  {
    if |s| == 0 then [] else [s[0] as int] + AsciiBytes(s[1..])
  }

  /** A rule over three lines starting at 5:2 ends at 7:2. */
  lemma MultiLineExample(t: seq<Byte>)
    requires Chars(t) == "allow if {" + "\n" + "\tinput.foo == true" + "\n" + "}"
    ensures CodecEnd(Location(5, 2, Some(t))) == End(7, 2)
    ensures Encode(Location(5, 2, Some(t))) == "5:2:7:2"
  {
    ExampleLastNewline(Chars(t));
    ExampleNewlines(Chars(t));
  }

  lemma ExampleLastNewline(s: string)
    requires s == "allow if {" + "\n" + "\tinput.foo == true" + "\n" + "}"
    ensures LastIndexChar(s, '\n') == 29
  {
    assert s[|s| - 1] != '\n' && s[..|s| - 1][29] == '\n';
  }

  lemma ExampleNewlines(s: string)
    requires s == "allow if {" + "\n" + "\tinput.foo == true" + "\n" + "}"
    ensures CountChar(s, '\n') == 2
  {
    CountTwoLines("allow if {", "\tinput.foo == true", "}");
  }

  lemma CountTwoLines(a: string, b: string, c: string)
    requires '\n' !in a && '\n' !in b && '\n' !in c
    ensures CountChar(a + "\n" + b + "\n" + c, '\n') == 2
  {
    CountCharAppend(a, "\n", '\n');
    CountCharAppend(a + "\n", b, '\n');
    CountCharAppend(a + "\n" + b, "\n", '\n');
    CountCharAppend(a + "\n" + b + "\n", c, '\n');
    CountZeroIffAbsent(a, '\n');
    CountZeroIffAbsent(b, '\n');
    CountZeroIffAbsent(c, '\n');
  }

  /** A one-line package clause at 1:1 ends at 1:16. */
  lemma OneLineExample(t: seq<Byte>)
    requires Chars(t) == "package example"
    ensures CodecEnd(Location(1, 1, Some(t))) == End(1, 16)
    ensures Encode(Location(1, 1, Some(t))) == "1:1:1:16"
  {
    var loc := Location(1, 1, Some(t));
    assert CodecEnd(loc) == End(1, 16) by {
      var s := Chars(t);
      assert |t| == 15;
      assert '\n' !in s;
      CountZeroIffAbsent(s, '\n');
    }
    assert Encode(loc) == LocationString(1, 1, End(1, 16));
    OneLineString();
  }

  lemma OneLineString()
    ensures LocationString(1, 1, End(1, 16)) == "1:1:1:16"
  {
    assert Itoa(1) == "1" && Itoa(16) == "16";
  }
}
