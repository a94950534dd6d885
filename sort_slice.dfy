/**
 * Go's `sort.Slice` with a caller's less function, and `slices.Reverse`,
 * modelled on sequence values.  The library's sorting algorithm is not
 * part of the model: an insertion sort stands for it, and what is stated
 * is the outcome every correct algorithm shares (the same elements, no
 * later one less than an earlier one).
 */
module SortSlice {

  /** A less function sort.Slice can rely on: irreflexive and transitive. */
  ghost predicate StrictOrder<T(!new)>(less: (T, T) -> bool) {
    && (forall a :: !less(a, a))
    && (forall a, b, c :: less(a, b) && less(b, c) ==> less(a, c))
  }

  /** No later element is less than an earlier one. */
  predicate Ascending<T>(s: seq<T>, less: (T, T) -> bool) {
    forall i, j :: 0 <= i < j < |s| ==> !less(s[j], s[i])
  }

  /** No earlier element is less than a later one. */
  predicate Descending<T>(s: seq<T>, less: (T, T) -> bool) {
    forall i, j :: 0 <= i < j < |s| ==> !less(s[i], s[j])
  }

  /** Any two different elements are ordered one way or the other. */
  predicate NoTies<T(==)>(s: seq<T>, less: (T, T) -> bool) {
    forall i, j :: 0 <= i < |s| && 0 <= j < |s| && s[i] != s[j] ==> less(s[i], s[j]) || less(s[j], s[i])
  }

  /** slices.Reverse */
  function Reversed<T>(s: seq<T>): (r: seq<T>)
    ensures |r| == |s|
    ensures forall i :: 0 <= i < |s| ==> r[i] == s[|s| - 1 - i]
  {
    if |s| == 0 then [] else Reversed(s[1..]) + [s[0]]
  }

  /** The reversal holds the same elements. */
  lemma {:induction false} ReversedPermutes<T>(s: seq<T>)
    ensures multiset(Reversed(s)) == multiset(s)
  {
    if |s| > 0 {
      ReversedPermutes(s[1..]);
      assert s == [s[0]] + s[1..];
    }
  }

  /** Appending to a sequence puts the new element at the head of its reversal. */
  lemma ReversedSnoc<T>(s: seq<T>, x: T)
    ensures Reversed(s + [x]) == [x] + Reversed(s)
  {
    var t := s + [x];
    var r := Reversed(t);
    var q := [x] + Reversed(s);
    assert |r| == |q|;
    forall i | 0 <= i < |r|
      ensures r[i] == q[i]
    {
      assert r[i] == t[|t| - 1 - i];
      if i > 0 {
        assert q[i] == Reversed(s)[i - 1] == s[|s| - i];
      }
    }
    assert r == q;
  }

  /** Reversing an ascending sequence gives a descending one. */
  lemma ReversedAscending<T>(s: seq<T>, less: (T, T) -> bool)
    requires Ascending(s, less)
    ensures Descending(Reversed(s), less)
  {
    var r := Reversed(s);
    forall i, j | 0 <= i < j < |r|
      ensures !less(r[i], r[j])
    {
      assert r[i] == s[|s| - 1 - i] && r[j] == s[|s| - 1 - j];
    }
  }

  /** Inserts `x` before the first element it is less than. */
  method InsertAscending<T(!new)>(r: seq<T>, x: T, less: (T, T) -> bool) returns (t: seq<T>)
    requires StrictOrder(less) && Ascending(r, less)
    ensures Ascending(t, less)
    ensures multiset(t) == multiset(r) + multiset{x}
  {
    var k := 0;
    while k < |r| && !less(x, r[k])
      invariant 0 <= k <= |r|
      invariant forall i :: 0 <= i < k ==> !less(x, r[i])
    {
      k := k + 1;
    }
    forall j | k <= j < |r|
      ensures !less(r[j], x)
    {
      assert less(x, r[k]);
      assert j == k || !less(r[j], r[k]);
    }
    t := r[..k] + [x] + r[k..];
    InsertedAscending(r, k, x, t, less);
  }

  lemma InsertedAscending<T>(r: seq<T>, k: nat, x: T, t: seq<T>, less: (T, T) -> bool)
    requires Ascending(r, less) && k <= |r|
    requires forall i :: 0 <= i < k ==> !less(x, r[i])
    requires forall j :: k <= j < |r| ==> !less(r[j], x)
    requires t == r[..k] + [x] + r[k..]
    ensures Ascending(t, less)
    ensures multiset(t) == multiset(r) + multiset{x}
  {
    assert forall i :: 0 <= i < |t| ==> t[i] == if i < k then r[i] else if i == k then x else r[i - 1];
    assert r == r[..k] + r[k..];
  }

  /** sort.Slice: the same elements, ascending under `less`. */
  method Sort<T(!new)>(s: seq<T>, less: (T, T) -> bool) returns (r: seq<T>)
    requires StrictOrder(less)
    ensures Ascending(r, less)
    ensures multiset(r) == multiset(s)
  {
    r := [];
    for i := 0 to |s|
      invariant Ascending(r, less)
      invariant multiset(r) == multiset(s[..i])
    {
      r := InsertAscending(r, s[i], less);
      assert s[..i + 1] == s[..i] + [s[i]];
    }
    assert s[..|s|] == s;
  }

  /** Two descending sequences with the same elements and no ties start with the same element. */
  lemma DescendingHeads<T>(a: seq<T>, b: seq<T>, less: (T, T) -> bool)
    requires Descending(a, less) && Descending(b, less) && multiset(a) == multiset(b) && NoTies(a, less)
    requires |a| > 0
    ensures |b| > 0 && a[0] == b[0]
  {
    assert a[0] in multiset(b);
    assert b[0] in multiset(a);
    var ia :| 0 <= ia < |a| && a[ia] == b[0];
    var ib :| 0 <= ib < |b| && b[ib] == a[0];
    assert ia == 0 || !less(a[0], a[ia]);
    assert ib == 0 || !less(b[0], b[ib]);
  }

  lemma TailOfNoTies<T>(a: seq<T>, less: (T, T) -> bool)
    requires NoTies(a, less) && |a| > 0
    ensures NoTies(a[1..], less)
  {
    forall i, j | 0 <= i < |a| - 1 && 0 <= j < |a| - 1 && a[1..][i] != a[1..][j]
      ensures less(a[1..][i], a[1..][j]) || less(a[1..][j], a[1..][i])
    {
      assert a[1..][i] == a[i + 1] && a[1..][j] == a[j + 1];
    }
  }

  lemma TailMultisets<T>(a: seq<T>, b: seq<T>)
    requires |a| > 0 && |b| > 0 && a[0] == b[0] && multiset(a) == multiset(b)
    ensures multiset(a[1..]) == multiset(b[1..])
  {
    assert a == [a[0]] + a[1..] && b == [b[0]] + b[1..];
    assert multiset(a[1..]) == multiset(a) - multiset{a[0]};
    assert multiset(b[1..]) == multiset(b) - multiset{b[0]};
  }

  /** Two sequences with the same elements in descending order and without ties are equal. */
  lemma {:induction false} DescendingUnique<T>(a: seq<T>, b: seq<T>, less: (T, T) -> bool)
    requires Descending(a, less) && Descending(b, less) && multiset(a) == multiset(b) && NoTies(a, less)
    ensures a == b
    decreases |a|
  {
    if |a| == 0 {
      assert |multiset(b)| == 0;
    } else {
      DescendingHeads(a, b, less);
      TailMultisets(a, b);
      TailOfNoTies(a, less);
      assert Descending(a[1..], less) && Descending(b[1..], less);
      DescendingUnique(a[1..], b[1..], less);
      assert a == [a[0]] + a[1..] && b == [b[0]] + b[1..];
    }
  }

  /** Each element greater than the one that follows it makes a tie-free descending sequence. */
  lemma {:induction false} StrictChain<T(!new)>(s: seq<T>, less: (T, T) -> bool)
    requires StrictOrder(less)
    requires forall i :: 0 <= i < |s| - 1 ==> less(s[i + 1], s[i])
    ensures forall i, j :: 0 <= i < j < |s| ==> less(s[j], s[i])
    ensures Descending(s, less) && NoTies(s, less)
    decreases |s|
  {
    if |s| > 1 {
      var t := s[1..];
      assert forall i :: 0 <= i < |t| - 1 ==> less(t[i + 1], t[i]) by {
        forall i | 0 <= i < |t| - 1 ensures less(t[i + 1], t[i]) {
          assert t[i + 1] == s[i + 2] && t[i] == s[i + 1];
        }
      }
      StrictChain(t, less);
      forall i, j | 0 <= i < j < |s|
        ensures less(s[j], s[i])
      {
        if i > 0 {
          assert s[j] == t[j - 1] && s[i] == t[i - 1];
        } else if j > 1 {
          assert s[j] == t[j - 1] && s[1] == t[0];
          assert less(s[j], s[1]) && less(s[1], s[0]);
        }
      }
    }
    forall i, j | 0 <= i < j < |s|
      ensures !less(s[i], s[j])
    {
      assert less(s[j], s[i]);
    }
  }

  /** The head of a descending sequence is less than no element. */
  lemma DescendingHead<T(!new)>(s: seq<T>, less: (T, T) -> bool)
    requires StrictOrder(less) && Descending(s, less) && |s| > 0
    ensures forall x :: x in s ==> !less(s[0], x)
  {
    forall x | x in s ensures !less(s[0], x) {
      var k :| 0 <= k < |s| && s[k] == x;
    }
  }
}
