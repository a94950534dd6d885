/**
 * UTF-8, the byte encoding of Go strings: a text (a sequence of code
 * points) and the bytes that hold it.  Decoding is Go's conversion of bytes
 * to code points, where a byte that does not start a well-formed sequence
 * reads as U+FFFD and is skipped alone.
 */
module Utf8 {

  /** A byte, as a number. */
  type Byte = b: int | 0 <= b < 256

  predicate Continuation(b: Byte) {
    0x80 <= b < 0xC0
  }

  /** The bytes of one code point: one to four, shortest form. */
  function EncodeRune(c: char): (r: seq<Byte>)
    ensures 1 <= |r| <= 4
    ensures (|r| == 1) <==> (c as int < 0x80)
    ensures |r| == 1 ==> r[0] == c as int
    ensures forall i :: 1 <= i < |r| ==> Continuation(r[i])
  {
    var n := c as int;
    if n < 0x80 then [n]
    else if n < 0x800 then [0xC0 + n / 64, 0x80 + n % 64]
    else if n < 0x10000 then [0xE0 + n / 4096, 0x80 + (n / 64) % 64, 0x80 + n % 64]
    else [0xF0 + n / 262144, 0x80 + (n / 4096) % 64, 0x80 + (n / 64) % 64, 0x80 + n % 64]
  }

  /** The bytes of a text. */
  function Encode(s: string): (r: seq<Byte>)
    ensures |r| >= |s|
  {
    if |s| == 0 then [] else EncodeRune(s[0]) + Encode(s[1..])
  }

  /** Go's `len` of a string: its number of bytes. */
  function ByteLen(s: string): nat {
    |Encode(s)|
  }

  predicate ScalarValue(n: int) {
    0 <= n < 0xD800 || 0xE000 <= n < 0x110000
  }

  const Replacement: char := '�'

  /**
   * The first code point of `bytes` and the number of bytes it takes; an
   * ill-formed start gives U+FFFD and one byte.
   */
  function DecodeRune(bytes: seq<Byte>): (r: (char, nat))
    requires |bytes| > 0
    ensures 1 <= r.1 <= |bytes|
  {
    var b0: int, b1: int := bytes[0], if |bytes| > 1 then bytes[1] else 0;
    var b2: int, b3: int := if |bytes| > 2 then bytes[2] else 0, if |bytes| > 3 then bytes[3] else 0;
    if b0 < 0x80 then (b0 as char, 1)
    else if 0xC2 <= b0 < 0xE0 && |bytes| >= 2 && Continuation(bytes[1]) then
      var n := (b0 - 0xC0) * 64 + (b1 - 0x80);
      ((n as char), 2)
    else if 0xE0 <= b0 < 0xF0 && |bytes| >= 3 && Continuation(bytes[1]) && Continuation(bytes[2]) then
      var n := (b0 - 0xE0) * 4096 + (b1 - 0x80) * 64 + (b2 - 0x80);
      if 0x800 <= n && ScalarValue(n) then (n as char, 3) else (Replacement, 1)
    else if 0xF0 <= b0 < 0xF5 && |bytes| >= 4 && Continuation(bytes[1]) && Continuation(bytes[2]) && Continuation(bytes[3]) then
      var n := (b0 - 0xF0) * 262144 + (b1 - 0x80) * 4096 + (b2 - 0x80) * 64 + (b3 - 0x80);
      if 0x10000 <= n < 0x110000 then (n as char, 4) else (Replacement, 1)
    else (Replacement, 1)
  }

  /** The code points of a byte string. */
  function Decode(bytes: seq<Byte>): string
    decreases |bytes|
  {
    if |bytes| == 0 then ""
    else
      var (c, width) := DecodeRune(bytes);
      [c] + Decode(bytes[width..])
  }

  /** A code point's bytes decode back to it, whatever follows them. */
  lemma DecodeEncodeRune(c: char, rest: seq<Byte>)
    ensures DecodeRune(EncodeRune(c) + rest) == (c, |EncodeRune(c)|)
  {
    var n := c as int;
    if n < 0x80 {
    } else if n < 0x800 {
      DecodeTwo(c, rest);
    } else if n < 0x10000 {
      DecodeThree(c, rest);
    } else {
      DecodeFour(c, rest);
    }
  }

  lemma DecodeTwo(c: char, rest: seq<Byte>)
    requires 0x80 <= c as int < 0x800
    ensures DecodeRune(EncodeRune(c) + rest) == (c, 2)
  {
    var n := c as int;
    var bytes := EncodeRune(c) + rest;
    assert bytes[0] == 0xC0 + n / 64 && bytes[1] == 0x80 + n % 64;
  }

  lemma DecodeThree(c: char, rest: seq<Byte>)
    requires 0x800 <= c as int < 0x10000
    ensures DecodeRune(EncodeRune(c) + rest) == (c, 3)
  {
    var n := c as int;
    var bytes := EncodeRune(c) + rest;
    assert bytes[0] == 0xE0 + n / 4096 && bytes[1] == 0x80 + (n / 64) % 64 && bytes[2] == 0x80 + n % 64;
    assert (n / 4096) * 4096 + ((n / 64) % 64) * 64 + n % 64 == n;
  }

  lemma DecodeFour(c: char, rest: seq<Byte>)
    requires 0x10000 <= c as int
    ensures DecodeRune(EncodeRune(c) + rest) == (c, 4)
  {
    var n := c as int;
    var bytes := EncodeRune(c) + rest;
    assert bytes[0] == 0xF0 + n / 262144 && bytes[1] == 0x80 + (n / 4096) % 64;
    assert bytes[2] == 0x80 + (n / 64) % 64 && bytes[3] == 0x80 + n % 64;
    Digits64(n);
  }

  /** The base-64 digits of a number recombine to it. */
  lemma Digits64(n: nat)
    ensures n == (n / 262144) * 262144 + ((n / 4096) % 64) * 4096 + ((n / 64) % 64) * 64 + n % 64
  {
    var m, k := n / 64, n / 4096;
    assert n == m * 64 + n % 64;
    assert m / 64 == k;
    assert m == k * 64 + m % 64;
    assert k / 64 == n / 262144;
    assert k == (k / 64) * 64 + k % 64;
  }

  /** Decoding the bytes of a text gives the text back. */
  lemma {:induction false} DecodeEncode(s: string)
    ensures Decode(Encode(s)) == s
  {
    if |s| > 0 {
      var bytes := Encode(s);
      DecodeEncodeRune(s[0], Encode(s[1..]));
      assert bytes[|EncodeRune(s[0])|..] == Encode(s[1..]);
      DecodeEncode(s[1..]);
    }
  }

  lemma {:induction false} EncodeAppend(s: string, t: string)
    ensures Encode(s + t) == Encode(s) + Encode(t)
  {
    if |s| == 0 {
      assert s + t == t;
    } else {
      assert (s + t)[1..] == s[1..] + t;
      EncodeAppend(s[1..], t);
    }
  }

  /** A text of characters below 0x80 takes one byte per character. */
  lemma {:induction false} AsciiByteLen(s: string)
    requires forall i :: 0 <= i < |s| ==> s[i] as int < 0x80
    ensures ByteLen(s) == |s|
  {
    if |s| > 0 {
      AsciiByteLen(s[1..]);
    }
  }
}
