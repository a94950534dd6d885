/**
 * Go's ordering of strings (byte-wise, which on code points is the
 * lexicographic order of the characters) and `slices.Sort` on a slice of
 * strings, modelled on sequence values.
 */
module Sorting {

  /** Go's `a < b` on strings. */
  predicate Less(a: string, b: string)
    decreases |a|
  {
    if |a| == 0 then |b| > 0
    else if |b| == 0 then false
    else if a[0] != b[0] then a[0] < b[0]
    else Less(a[1..], b[1..])
  }

  predicate LessEq(a: string, b: string) {
    a == b || Less(a, b)
  }

  lemma {:induction false} LessIrreflexive(a: string)
    ensures !Less(a, a)
    decreases |a|
  {
    if |a| > 0 {
      LessIrreflexive(a[1..]);
    }
  }

  lemma {:induction false} LessTransitive(a: string, b: string, c: string)
    requires Less(a, b) && Less(b, c)
    ensures Less(a, c)
    decreases |a|
  {
    if |a| > 0 && |b| > 0 && |c| > 0 && a[0] == b[0] && b[0] == c[0] {
      LessTransitive(a[1..], b[1..], c[1..]);
    }
  }

  lemma {:induction false} LessTotal(a: string, b: string)
    ensures a == b || Less(a, b) || Less(b, a)
    decreases |a|
  {
    if |a| > 0 && |b| > 0 && a[0] == b[0] {
      LessTotal(a[1..], b[1..]);
      if a[1..] == b[1..] {
        assert a == [a[0]] + a[1..] && b == [b[0]] + b[1..];
      }
    }
  }

  lemma {:induction false} LessAsymmetric(a: string, b: string)
    requires Less(a, b)
    ensures !Less(b, a)
  {
    if Less(b, a) {
      LessTransitive(a, b, a);
      LessIrreflexive(a);
    }
  }

  lemma LessEqTransitive(a: string, b: string, c: string)
    requires LessEq(a, b) && LessEq(b, c)
    ensures LessEq(a, c)
  {
    if a != b && b != c {
      LessTransitive(a, b, c);
    }
  }

  predicate Sorted(s: seq<string>) {
    forall i, j :: 0 <= i < j < |s| ==> LessEq(s[i], s[j])
  }

  /** Inserts `x` into a sorted sequence after every element not above it. */
  method InsertSorted(r: seq<string>, x: string) returns (t: seq<string>)
    requires Sorted(r)
    ensures Sorted(t)
    ensures multiset(t) == multiset(r) + multiset{x}
  {
    var i := 0;
    while i < |r| && LessEq(r[i], x)
      invariant 0 <= i <= |r|
      invariant forall k :: 0 <= k < i ==> LessEq(r[k], x)
    {
      i := i + 1;
    }
    forall k | i <= k < |r|
      ensures LessEq(x, r[k])
    {
      LessTotal(r[i], x);
      LessEqTransitive(x, r[i], r[k]);
    }
    t := r[..i] + [x] + r[i..];
    InsertedSorted(r, i, x, t);
  }

  lemma InsertedSorted(r: seq<string>, i: nat, x: string, t: seq<string>)
    requires Sorted(r) && i <= |r|
    requires forall k :: 0 <= k < i ==> LessEq(r[k], x)
    requires forall k :: i <= k < |r| ==> LessEq(x, r[k])
    requires t == r[..i] + [x] + r[i..]
    ensures Sorted(t)
    ensures multiset(t) == multiset(r) + multiset{x}
  {
    assert |t| == |r| + 1;
    assert forall k :: 0 <= k < |t| ==> t[k] == if k < i then r[k] else if k == i then x else r[k - 1];
    forall a, b | 0 <= a < b < |t|
      ensures LessEq(t[a], t[b])
    {
      if a < i && b > i {
        LessEqTransitive(r[a], x, r[b - 1]);
      }
    }
    assert r == r[..i] + r[i..];
  }

  /** slices.Sort: the same strings in ascending order. */
  method SortStrings(s: seq<string>) returns (r: seq<string>)
    ensures Sorted(r)
    ensures multiset(r) == multiset(s)
  {
    r := [];
    var i := 0;
    while i < |s|
      invariant 0 <= i <= |s|
      invariant Sorted(r)
      invariant multiset(r) == multiset(s[..i])
    {
      r := InsertSorted(r, s[i]);
      assert s[..i + 1] == s[..i] + [s[i]];
      i := i + 1;
    }
    assert s[..i] == s;
  }

  /**
   * The elements of a set in ascending order: the keys of a Go map
   * collected in its unspecified iteration order, then sorted.
   */
  method SortedElements(s: set<string>) returns (r: seq<string>)
    ensures Sorted(r)
    ensures forall x :: x in r <==> x in s
    ensures |r| == |s|
  {
    var items := [];
    var remaining := s;
    while remaining != {}
      invariant remaining <= s
      invariant forall x :: x in multiset(items) <==> x in s - remaining
      invariant forall x :: x in multiset(items) ==> multiset(items)[x] == 1
      invariant |items| + |remaining| == |s|
      decreases remaining
    {
      var x :| x in remaining;
      items := items + [x];
      remaining := remaining - {x};
    }
    r := SortStrings(items);
    assert forall x :: x in r <==> x in multiset(r);
  }

  /**
   * A sorted sequence is determined by its elements: whatever order the
   * input came in, sorting gives the same output.
   */
  /** Two sorted sequences with the same elements start with the same one. */
  lemma SortedHeads(a: seq<string>, b: seq<string>)
    requires Sorted(a) && Sorted(b) && multiset(a) == multiset(b) && |a| > 0
    ensures |b| > 0 && a[0] == b[0]
  {
    assert a[0] in multiset(b);
    assert b[0] in multiset(a);
    var ia :| 0 <= ia < |a| && a[ia] == b[0];
    var ib :| 0 <= ib < |b| && b[ib] == a[0];
    assert LessEq(a[0], b[0]) && LessEq(b[0], a[0]);
    if a[0] != b[0] {
      LessAsymmetric(a[0], b[0]);
    }
  }

  /**
   * A sorted sequence is determined by its elements: whatever order the
   * input came in, sorting gives the same output.
   */
  lemma {:induction false} SortedUnique(a: seq<string>, b: seq<string>)
    requires Sorted(a) && Sorted(b) && multiset(a) == multiset(b)
    ensures a == b
    decreases |a|
  {
    if |a| == 0 {
      assert |multiset(b)| == 0;
    } else {
      SortedHeads(a, b);
      TailMultisets(a, b);
      SortedUnique(a[1..], b[1..]);
    }
  }

  lemma TailMultisets(a: seq<string>, b: seq<string>)
    requires |a| > 0 && |b| > 0 && a[0] == b[0] && multiset(a) == multiset(b)
    ensures multiset(a[1..]) == multiset(b[1..])
  {
    assert a == [a[0]] + a[1..] && b == [b[0]] + b[1..];
    assert multiset(a[1..]) == multiset(a) - multiset{a[0]};
    assert multiset(b[1..]) == multiset(b) - multiset{b[0]};
  }
}
