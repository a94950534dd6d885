/**
 * The parts of Go's `strings` and `strconv` packages that the modelled code
 * relies on, defined on `string` (a sequence of code points). Separators that
 * the code passes as one-character strings are taken as a `char`.
 */
module GoStrings {
  import opened Wrappers

  /** strings.HasPrefix */
  predicate HasPrefix(s: string, prefix: string) {
    |prefix| <= |s| && s[..|prefix|] == prefix
  }

  /** strings.HasSuffix */
  predicate HasSuffix(s: string, suffix: string) {
    |suffix| <= |s| && s[|s| - |suffix|..] == suffix
  }

  /** strings.TrimPrefix: drops one leading `prefix`, if present. */
  function TrimPrefix(s: string, prefix: string): (r: string)
    ensures HasPrefix(s, prefix) ==> s == prefix + r
    ensures !HasPrefix(s, prefix) ==> r == s
  {
    if HasPrefix(s, prefix) then s[|prefix|..] else s
  }

  /** strings.TrimSuffix: drops one trailing `suffix`, if present. */
  function TrimSuffix(s: string, suffix: string): (r: string)
    ensures HasSuffix(s, suffix) ==> s == r + suffix
    ensures !HasSuffix(s, suffix) ==> r == s
  {
    if HasSuffix(s, suffix) then s[..|s| - |suffix|] else s
  }

  /** strings.Contains, as "`sub` is a prefix of some suffix of `s`". */
  predicate Contains(s: string, sub: string)
    decreases |s|
  {
    HasPrefix(s, sub) || (|s| > 0 && Contains(s[1..], sub))
  }

  /** strings.Index: the first position of `sub` in `s`, or -1. */
  function Index(s: string, sub: string): (r: int)
    decreases |s|
  {
    if HasPrefix(s, sub) then 0
    else if |s| == 0 then -1
    else var i := Index(s[1..], sub); if i < 0 then -1 else i + 1
  }

  lemma {:induction false} IndexSpec(s: string, sub: string)
    ensures -1 <= Index(s, sub) <= |s|
    ensures Index(s, sub) >= 0 <==> Contains(s, sub)
    ensures Index(s, sub) >= 0 ==> Index(s, sub) + |sub| <= |s| && HasPrefix(s[Index(s, sub)..], sub)
    ensures forall j :: 0 <= j < Index(s, sub) ==> !HasPrefix(s[j..], sub)
    ensures Index(s, sub) < 0 ==> forall j :: 0 <= j <= |s| ==> !HasPrefix(s[j..], sub)
    decreases |s|
  {
    if HasPrefix(s, sub) {
    } else if |s| == 0 {
    } else {
      IndexSpec(s[1..], sub);
      var i := Index(s[1..], sub);
      forall j | 0 < j <= |s| ensures s[j..] == s[1..][j - 1..] { }
    }
  }

  /** strings.IndexByte / IndexRune for one character, or -1. */
  function IndexChar(s: string, c: char): (r: int)
    ensures -1 <= r < |s|
    ensures r >= 0 ==> s[r] == c && c !in s[..r]
    ensures r < 0 ==> c !in s
  {
    if |s| == 0 then -1
    else if s[0] == c then 0
    else var i := IndexChar(s[1..], c); if i < 0 then -1 else i + 1
  }

  /** A `c` at `k` with none before it is the one IndexChar finds. */
  lemma IndexCharAt(s: string, c: char, k: nat)
    requires k < |s| && s[k] == c && c !in s[..k]
    ensures IndexChar(s, c) == k
  {
    var r := IndexChar(s, c);
    assert r >= 0 by {
      assert s[k] in s;
    }
    assert forall j :: 0 <= j < k ==> s[..k][j] == s[j];
    assert forall j :: 0 <= j < r ==> s[..r][j] == s[j];
  }

  /** strings.LastIndexByte: the last position of `c` in `s`, or -1. */
  function LastIndexChar(s: string, c: char): (r: int)
    ensures -1 <= r < |s|
    ensures r >= 0 ==> s[r] == c && c !in s[r + 1..]
    ensures r < 0 ==> c !in s
  {
    if |s| == 0 then -1
    else if s[|s| - 1] == c then |s| - 1
    else LastIndexChar(s[..|s| - 1], c)
  }

  /** strings.Count for a one-character separator. */
  function CountChar(s: string, c: char): nat {
    if |s| == 0 then 0 else (if s[0] == c then 1 else 0) + CountChar(s[1..], c)
  }

  lemma {:induction false} CountCharAppend(s: string, t: string, c: char)
    ensures CountChar(s + t, c) == CountChar(s, c) + CountChar(t, c)
  {
    if |s| == 0 {
      assert s + t == t;
    } else {
      assert (s + t)[1..] == s[1..] + t;
      CountCharAppend(s[1..], t, c);
    }
  }

  /** strings.Split with a one-character separator: the pieces between separators. */
  function Split(s: string, sep: char): (r: seq<string>)
    ensures |r| >= 1
  {
    if |s| == 0 then [""]
    else
      var rest := Split(s[1..], sep);
      if s[0] == sep then [""] + rest else [[s[0]] + rest[0]] + rest[1..]
  }

  /** strings.Join */
  function Join(parts: seq<string>, sep: string): string {
    if |parts| == 0 then ""
    else if |parts| == 1 then parts[0]
    else parts[0] + sep + Join(parts[1..], sep)
  }

  /** Concatenation regrouped. */
  lemma ConcatAssoc<T>(a: seq<T>, b: seq<T>, c: seq<T>)
    ensures a + (b + c) == a + b + c
  {
  }

  /** A prefix one longer is the prefix and the next element. */
  lemma TakeSnoc<T>(s: seq<T>, i: nat)
    requires i < |s|
    ensures s[..i + 1] == s[..i] + [s[i]]
  {
  }

  /** One more part at the end of a join: the join so far, the separator, the part. */
  lemma JoinSnoc(a: seq<string>, x: string, sep: string)
    requires |a| > 0
    ensures Join(a + [x], sep) == Join(a, sep) + sep + x
  {
    JoinAppend(a, [x], sep);
  }

  /** Joining two non-empty lists of pieces puts the separator between their joins. */
  lemma {:induction false} JoinAppend(a: seq<string>, b: seq<string>, sep: string)
    requires |a| > 0 && |b| > 0
    ensures Join(a + b, sep) == Join(a, sep) + sep + Join(b, sep)
    decreases |a|
  {
    if |a| > 1 {
      JoinAppend(a[1..], b, sep);
      assert (a + b)[1..] == a[1..] + b;
    } else {
      assert (a + b)[1..] == b;
    }
  }

  /** Concatenation of all pieces (Join with the empty separator). */
  function Concat(parts: seq<string>): string {
    if |parts| == 0 then "" else parts[0] + Concat(parts[1..])
  }

  lemma {:induction false} ConcatAppend(p: seq<string>, q: seq<string>)
    ensures Concat(p + q) == Concat(p) + Concat(q)
  {
    if |p| == 0 {
      assert p + q == q;
    } else {
      assert (p + q)[1..] == p[1..] + q;
      ConcatAppend(p[1..], q);
    }
  }

  lemma {:induction false} JoinEmptyIsConcat(parts: seq<string>)
    ensures Join(parts, "") == Concat(parts)
  {
    if |parts| > 1 {
      JoinEmptyIsConcat(parts[1..]);
    } else if |parts| == 1 {
      assert Concat(parts[1..]) == "";
    }
  }

  /** Splitting and re-joining with the same separator restores the text. */
  lemma {:induction false} JoinSplit(s: string, sep: char)
    ensures Join(Split(s, sep), [sep]) == s
  {
    if |s| > 0 {
      var rest := Split(s[1..], sep);
      JoinSplit(s[1..], sep);
      if s[0] == sep {
        assert Split(s, sep) == [""] + rest;
        assert ([""] + rest)[1..] == rest;
      } else {
        var r := Split(s, sep);
        assert r == [[s[0]] + rest[0]] + rest[1..];
        if |rest| == 1 {
          assert r == [[s[0]] + rest[0]];
        } else {
          assert r[1..] == rest[1..];
          assert Join(rest, [sep]) == rest[0] + [sep] + Join(rest[1..], [sep]);
        }
      }
    }
  }

  /** Joining pieces free of `sep` with `sep` puts one fewer `sep` in the text than there are pieces. */
  lemma {:induction false} JoinCount(parts: seq<string>, sep: char)
    requires |parts| >= 1 && forall i :: 0 <= i < |parts| ==> sep !in parts[i]
    ensures CountChar(Join(parts, [sep]), sep) == |parts| - 1
    decreases |parts|
  {
    CountZeroIffAbsent(parts[0], sep);
    if |parts| > 1 {
      JoinCount(parts[1..], sep);
      var rest := Join(parts[1..], [sep]);
      assert Join(parts, [sep]) == parts[0] + ([sep] + rest);
      CountCharAppend(parts[0], [sep] + rest, sep);
      CountCharAppend([sep], rest, sep);
    }
  }

  /** No piece of a split contains the separator, and there is one more piece than separators. */
  lemma {:induction false} SplitPieces(s: string, sep: char)
    ensures |Split(s, sep)| == CountChar(s, sep) + 1
    ensures forall i :: 0 <= i < |Split(s, sep)| ==> sep !in Split(s, sep)[i]
  {
    if |s| > 0 {
      SplitPieces(s[1..], sep);
      var rest := Split(s[1..], sep);
      var r := Split(s, sep);
      if s[0] != sep {
        assert r[0] == [s[0]] + rest[0];
        forall i | 0 < i < |r| ensures sep !in r[i] {
          assert r[i] == rest[i];
        }
      } else {
        forall i | 0 < i < |r| ensures sep !in r[i] {
          assert r[i] == rest[i - 1];
        }
      }
    }
  }

  /** Splitting a join of separator-free pieces gives the pieces back. */
  lemma {:induction false} SplitJoin(parts: seq<string>, sep: char)
    requires |parts| >= 1
    requires forall i :: 0 <= i < |parts| ==> sep !in parts[i]
    ensures Split(Join(parts, [sep]), sep) == parts
    decreases |parts|, |parts[0]|
  {
    var p0 := parts[0];
    if |p0| == 0 {
      if |parts| == 1 {
      } else {
        SplitJoin(parts[1..], sep);
        var j := Join(parts, [sep]);
        assert j == [sep] + Join(parts[1..], [sep]);
        assert j[1..] == Join(parts[1..], [sep]);
        assert parts == [""] + parts[1..];
      }
    } else {
      var shorter := [p0[1..]] + parts[1..];
      forall i | 0 <= i < |shorter| ensures sep !in shorter[i] {
        if i == 0 {
          assert forall c :: c in p0[1..] ==> c in p0;
        } else {
          assert shorter[i] == parts[i];
        }
      }
      SplitJoin(shorter, sep);
      var j := Join(parts, [sep]);
      assert j == [p0[0]] + Join(shorter, [sep]) by {
        if |parts| == 1 {
        } else {
          assert shorter[1..] == parts[1..];
        }
      }
      assert j[0] == p0[0] && j[1..] == Join(shorter, [sep]);
      assert p0[0] != sep by { assert p0[0] in p0; }
      var rest := Split(j[1..], sep);
      assert rest == shorter;
      assert [p0[0]] + rest[0] == p0;
      assert [[p0[0]] + rest[0]] + rest[1..] == parts;
    }
  }

  /** Splitting text that holds no separator gives the text back as the only piece. */
  lemma {:induction false} SplitNoSeparator(s: string, sep: char)
    requires sep !in s
    ensures Split(s, sep) == [s]
  {
    if |s| > 0 {
      SplitNoSeparator(s[1..], sep);
      assert [s[0]] + s[1..] == s;
    }
  }

  /** The last piece of a split is what follows the last separator. */
  lemma {:induction false} SplitLastPiece(s: string, sep: char, k: nat)
    requires k < |s| && s[k] == sep && sep !in s[k + 1..]
    ensures |Split(s, sep)| >= 2
    ensures Split(s, sep)[|Split(s, sep)| - 1] == s[k + 1..]
  {
    var rest := Split(s[1..], sep);
    if k == 0 {
      SplitNoSeparator(s[1..], sep);
    } else {
      assert s[1..][k - 1] == sep && s[1..][k..] == s[k + 1..];
      SplitLastPiece(s[1..], sep, k - 1);
    }
  }

  /** A character is absent exactly when it is counted zero times. */
  lemma {:induction false} CountZeroIffAbsent(s: string, c: char)
    ensures CountChar(s, c) == 0 <==> c !in s
  {
    if |s| > 0 {
      CountZeroIffAbsent(s[1..], c);
      assert s == [s[0]] + s[1..];
    }
  }

  /** strings.SplitAfter with a one-character separator: pieces keep their separator. */
  function SplitAfter(s: string, sep: char): (r: seq<string>)
    ensures |r| >= 1
  {
    if |s| == 0 then [""]
    else
      var rest := SplitAfter(s[1..], sep);
      if s[0] == sep then [[sep]] + rest else [[s[0]] + rest[0]] + rest[1..]
  }

  lemma {:induction false} SplitAfterConcat(s: string, sep: char)
    ensures Concat(SplitAfter(s, sep)) == s
  {
    if |s| > 0 {
      SplitAfterConcat(s[1..], sep);
      var rest := SplitAfter(s[1..], sep);
      var r := SplitAfter(s, sep);
      if s[0] != sep {
        assert Concat(r) == r[0] + Concat(r[1..]);
        assert r[1..] == rest[1..];
        assert Concat(rest) == rest[0] + Concat(rest[1..]);
      }
    }
  }

  /** A piece of SplitAfter other than the last: it ends with the separator and holds no other one. */
  predicate EndsAtSeparator(p: string, sep: char) {
    |p| > 0 && p[|p| - 1] == sep && sep !in p[..|p| - 1]
  }

  /** Every piece but the last ends with the separator and holds no other one; the last holds none. */
  lemma {:induction false} SplitAfterPieces(s: string, sep: char)
    ensures var r := SplitAfter(s, sep);
      && (forall i :: 0 <= i < |r| - 1 ==> EndsAtSeparator(r[i], sep))
      && sep !in r[|r| - 1]
  {
    if |s| > 0 {
      SplitAfterPieces(s[1..], sep);
      var rest := SplitAfter(s[1..], sep);
      var r := SplitAfter(s, sep);
      if s[0] == sep {
        assert r == [[sep]] + rest;
        assert EndsAtSeparator(r[0], sep) by { assert r[0][..0] == []; }
        forall i | 0 < i < |r| - 1 ensures EndsAtSeparator(r[i], sep) {
          assert r[i] == rest[i - 1];
        }
        assert r[|r| - 1] == rest[|rest| - 1];
      } else {
        assert r == [[s[0]] + rest[0]] + rest[1..];
        if |r| > 1 {
          assert EndsAtSeparator(r[0], sep) by {
            assert EndsAtSeparator(rest[0], sep);
            assert r[0][..|r[0]| - 1] == [s[0]] + rest[0][..|rest[0]| - 1];
          }
          forall i | 0 < i < |r| - 1 ensures EndsAtSeparator(r[i], sep) {
            assert r[i] == rest[i];
          }
          assert r[|r| - 1] == rest[|rest| - 1];
        } else {
          assert r[0] == [s[0]] + rest[0];
        }
      }
    }
  }

  /** strings.ReplaceAll for a non-empty pattern: non-overlapping, left to right. */
  function ReplaceAll(s: string, pattern: string, repl: string): string
    requires |pattern| > 0
    decreases |s|
  {
    if |s| == 0 then ""
    else if HasPrefix(s, pattern) then repl + ReplaceAll(s[|pattern|..], pattern, repl)
    else [s[0]] + ReplaceAll(s[1..], pattern, repl)
  }

  /** A replacement no longer than its pattern never lengthens the text. */
  lemma {:induction false} ReplaceAllShrinks(s: string, pattern: string, repl: string)
    requires |pattern| > 0 && |repl| <= |pattern|
    ensures |ReplaceAll(s, pattern, repl)| <= |s|
    decreases |s|
  {
    if |s| > 0 {
      if HasPrefix(s, pattern) {
        ReplaceAllShrinks(s[|pattern|..], pattern, repl);
      } else {
        ReplaceAllShrinks(s[1..], pattern, repl);
      }
    }
  }

  /** A character in neither the text nor the replacement is not in the result. */
  lemma {:induction false} ReplaceAllAbsent(s: string, pattern: string, repl: string, c: char)
    requires |pattern| > 0 && c !in s && c !in repl
    ensures c !in ReplaceAll(s, pattern, repl)
    decreases |s|
  {
    if |s| > 0 {
      if HasPrefix(s, pattern) {
        ReplaceAllAbsent(s[|pattern|..], pattern, repl, c);
      } else {
        ReplaceAllAbsent(s[1..], pattern, repl, c);
      }
    }
  }

  /** A replacement that starts like its pattern keeps the first character. */
  lemma ReplaceAllHead(s: string, pattern: string, repl: string)
    requires |pattern| > 0 && |repl| > 0 && repl[0] == pattern[0] && |s| > 0
    ensures |ReplaceAll(s, pattern, repl)| > 0 && ReplaceAll(s, pattern, repl)[0] == s[0]
  {
  }

  /** A prefix free of a one-character pattern passes through ReplaceAll unchanged. */
  lemma {:induction false} ReplaceAllFreePrefix(x: string, t: string, p: char, repl: string)
    requires p !in x
    ensures ReplaceAll(x + t, [p], repl) == x + ReplaceAll(t, [p], repl)
    decreases |x|
  {
    if |x| > 0 {
      assert (x + t)[0] == x[0] && (x + t)[1..] == x[1..] + t;
      assert !HasPrefix(x + t, [p]);
      ReplaceAllFreePrefix(x[1..], t, p, repl);
    } else {
      assert x + t == t;
    }
  }

  /** Replacing one character by another leaves no occurrence of the first and keeps the length. */
  lemma {:induction false} ReplaceCharSpec(s: string, a: char, b: char)
    requires a != b
    ensures |ReplaceAll(s, [a], [b])| == |s|
    ensures a !in ReplaceAll(s, [a], [b])
    ensures forall i :: 0 <= i < |s| ==> ReplaceAll(s, [a], [b])[i] == if s[i] == a then b else s[i]
  {
    if |s| > 0 {
      ReplaceCharSpec(s[1..], a, b);
      var r := ReplaceAll(s, [a], [b]);
      var t := ReplaceAll(s[1..], [a], [b]);
      assert HasPrefix(s, [a]) <==> s[0] == a;
      assert r == [if s[0] == a then b else s[0]] + t;
    }
  }

  /** strings.Trim with a one-character cutset: drops every leading and trailing `c`. */
  function TrimChar(s: string, c: char): (r: string)
    ensures |r| <= |s|
    ensures |r| > 0 ==> r[0] != c && r[|r| - 1] != c
    decreases |s|
  {
    if |s| > 0 && s[0] == c then TrimChar(s[1..], c)
    else if |s| > 0 && s[|s| - 1] == c then TrimChar(s[..|s| - 1], c)
    else s
  }

  lemma {:induction false} TrimCharNoop(s: string, c: char)
    requires c !in s
    ensures TrimChar(s, c) == s
  {
  }

  /** unicode.IsSpace: the Unicode White_Space property. */
  predicate IsSpace(c: char) {
    c == ' ' || c == '\t' || c == '\n' || c == '\U{000B}' || c == '\U{000C}' || c == '\r'
    || c == '\U{0085}' || c == '\U{00A0}' || c == '\U{1680}' || ('\U{2000}' <= c <= '\U{200A}')
    || c == '\U{2028}' || c == '\U{2029}' || c == '\U{202F}' || c == '\U{205F}' || c == '\U{3000}'
  }

  /** The class `\s` of Go's regexp package (RE2): tab, newline, form feed, carriage return, space. */
  predicate IsRegexpSpace(c: char) {
    c == ' ' || c == '\t' || c == '\n' || c == '\U{000C}' || c == '\r'
  }

  function TrimLeftSpace(s: string): (r: string)
    ensures |r| <= |s| && s[|s| - |r|..] == r
    ensures |r| > 0 ==> !IsSpace(r[0])
    ensures forall i :: 0 <= i < |s| - |r| ==> IsSpace(s[i])
  {
    if |s| > 0 && IsSpace(s[0]) then TrimLeftSpace(s[1..]) else s
  }

  function TrimRightSpace(s: string): (r: string)
    ensures |r| <= |s| && s[..|r|] == r
    ensures |r| > 0 ==> !IsSpace(r[|r| - 1])
    ensures forall i :: |r| <= i < |s| ==> IsSpace(s[i])
  {
    if |s| > 0 && IsSpace(s[|s| - 1]) then TrimRightSpace(s[..|s| - 1]) else s
  }

  /** strings.TrimSpace */
  function TrimSpace(s: string): (r: string)
    ensures |r| <= |s|
    ensures |r| > 0 ==> !IsSpace(r[0]) && !IsSpace(r[|r| - 1])
    ensures (forall i :: 0 <= i < |s| ==> IsSpace(s[i])) <==> r == ""
  {
    TrimRightSpace(TrimLeftSpace(s))
  }

  /** Text that neither starts nor ends with white space is its own trim. */
  lemma TrimSpaceNoop(s: string)
    requires |s| > 0 ==> !IsSpace(s[0]) && !IsSpace(s[|s| - 1])
    ensures TrimSpace(s) == s
  {
  }

  predicate IsDigit(c: char) { '0' <= c <= '9' }

  function DigitChar(d: nat): char
    requires d < 10
  {
    ['0', '1', '2', '3', '4', '5', '6', '7', '8', '9'][d]
  }

  function DigitValue(c: char): nat
    requires IsDigit(c)
  {
    c as int - '0' as int
  }

  /** The decimal digits of `n`, with no leading zero. */
  function NatToString(n: nat): (r: string)
    ensures |r| > 0 && forall i :: 0 <= i < |r| ==> IsDigit(r[i])
    ensures |r| > 1 ==> r[0] != '0'
  {
    if n < 10 then [DigitChar(n)] else NatToString(n / 10) + [DigitChar(n % 10)]
  }

  /** strconv.Itoa */
  function Itoa(i: int): string {
    if i < 0 then "-" + NatToString(-i) else NatToString(i)
  }

  /** The value of a run of decimal digits (leading zeros allowed). */
  function DigitsValue(s: string): nat
    requires forall i :: 0 <= i < |s| ==> IsDigit(s[i])
  {
    if |s| == 0 then 0 else DigitsValue(s[..|s| - 1]) * 10 + DigitValue(s[|s| - 1])
  }

  predicate AllDigits(s: string) {
    forall i :: 0 <= i < |s| ==> IsDigit(s[i])
  }

  /** strconv.Atoi: an optional sign followed by at least one decimal digit. */
  function Atoi(s: string): (r: Option<int>)
    ensures r.Some? ==> |s| > 0
  {
    if |s| > 0 && (s[0] == '+' || s[0] == '-') then
      var digits := s[1..];
      if |digits| > 0 && AllDigits(digits) then
        var v: int := DigitsValue(digits);
        Some(if s[0] == '-' then -v else v)
      else None
    else if |s| > 0 && AllDigits(s) then Some(DigitsValue(s))
    else None
  }

  lemma {:induction false} DigitsOfNat(n: nat)
    ensures DigitsValue(NatToString(n)) == n
  {
    if n >= 10 {
      DigitsOfNat(n / 10);
      var s := NatToString(n);
      assert s[..|s| - 1] == NatToString(n / 10);
    }
  }

  /** Atoi reads back the digits of a natural. */
  lemma AtoiNatToString(n: nat)
    ensures Atoi(NatToString(n)) == Some(n)
  {
    var s := NatToString(n);
    DigitsOfNat(n);
    assert IsDigit(s[0]);
  }

  /** Atoi reads back a minus sign followed by the digits of a natural. */
  lemma AtoiNegative(n: nat)
    ensures Atoi("-" + NatToString(n)) == Some(-(n as int))
  {
    var digits := NatToString(n);
    var s := "-" + digits;
    DigitsOfNat(n);
    assert s[0] == '-' && s[1..] == digits;
  }

  /** Itoa and Atoi are inverse on every integer. */
  lemma AtoiItoa(i: int)
    ensures Atoi(Itoa(i)) == Some(i)
  {
    if i < 0 {
      var n: nat := -i;
      AtoiNegative(n);
      assert Itoa(i) == "-" + NatToString(n);
    } else {
      AtoiNatToString(i);
      assert Itoa(i) == NatToString(i);
    }
  }

  /** Distinct naturals print differently. */
  lemma NatToStringInjective(m: nat, n: nat)
    requires NatToString(m) == NatToString(n)
    ensures m == n
  {
    DigitsOfNat(m);
    DigitsOfNat(n);
  }
}
