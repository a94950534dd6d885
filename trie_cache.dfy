/**
 * The ref-keyed trie cache of internal/cache/cache.go.  A ref is a
 * sequence of keys; each trie node may hold a value and has one child per
 * key.  A lookup stops at the first node on the path that holds a value and
 * resolves the rest of the ref inside that value.
 *
 * Values are modelled as scalars and string-keyed objects (the part of the
 * policy language's value type that `Find` descends into), and ref terms by
 * their string keys.
 */
module TrieCache {
  import opened Wrappers

  datatype Value = Scalar(s: string) | Object(fields: map<string, Value>)

  predicate IsScalar(v: Value) {
    v.Scalar?
  }

  /**
   * Value.Find: the value at `path` inside `v`; an empty path gives `v`
   * itself, a missing key or a path into a scalar gives None (Go's error).
   */
  function Find(v: Value, path: seq<string>): (r: Option<Value>)
    decreases |path|
    ensures |path| == 0 ==> r == Some(v)
    ensures |path| > 0 && IsScalar(v) ==> r == None
  {
    if |path| == 0 then Some(v)
    else match v
      case Scalar(_) => None
      case Object(fields) =>
        if path[0] in fields then Find(fields[path[0]], path[1..]) else None
  }

  /** A trie node: an optional value and the children by key. */
  datatype Elem = Elem(value: Option<Value>, children: map<string, Elem>)

  function Empty(): Elem {
    Elem(None, map[])
  }

  /**
   * What Get answers for `ref` below `node`: walk the children key by key
   * and, at the first node holding a value, find the rest of the ref in it.
   */
  function Lookup(node: Elem, ref: seq<string>): Option<Value>
    decreases |ref|
  {
    if |ref| == 0 || ref[0] !in node.children then None
    else
      var child := node.children[ref[0]];
      if child.value.Some? then Find(child.value.value, ref[1..])
      else Lookup(child, ref[1..])
  }

  /**
   * The trie after Put: the nodes on the path are created where missing,
   * and the node at the end of the path gets the value and loses its
   * children.
   */
  function PutAt(node: Elem, ref: seq<string>, v: Value): Elem
    decreases |ref|
  {
    if |ref| == 0 then Elem(Some(v), map[])
    else
      var child := if ref[0] in node.children then node.children[ref[0]] else Empty();
      node.(children := node.children[ref[0] := PutAt(child, ref[1..], v)])
  }

  /** No node strictly above the end of `ref` holds a value. */
  predicate Unshadowed(node: Elem, ref: seq<string>)
    decreases |ref|
  {
    |ref| <= 1 || ref[0] !in node.children ||
    (node.children[ref[0]].value.None? && Unshadowed(node.children[ref[0]], ref[1..]))
  }

  class BaseCache {
    var root: Elem

    constructor ()
      ensures root == Empty()
    {
      root := Empty();
    }

    /** Get: the walk of Lookup, with a shortcut for one-key refs to scalars. */
    method Get(ref: seq<string>) returns (r: Option<Value>)
      ensures r == Lookup(root, ref)
      ensures |ref| == 0 ==> r == None
    {
      var node := root;
      var i := 0;
      while i < |ref|
        invariant 0 <= i <= |ref|
        invariant Lookup(root, ref) == Lookup(node, ref[i..])
        decreases |ref| - i
      {
        if ref[i] !in node.children {
          return None;
        }
        node := node.children[ref[i]];
        if node.value.Some? {
          if |ref| == 1 && IsScalar(node.value.value) {
            ScalarShortcut(node.value.value, ref[i + 1..]);
            return node.value;
          }
          return Find(node.value.value, ref[i + 1..]);
        }
        i := i + 1;
      }
      return None;
    }

    /** Put: stores `v` at `ref`, dropping whatever was stored beneath it. */
    method Put(ref: seq<string>, v: Value)
      modifies this
      ensures root == PutAt(old(root), ref, v)
    {
      root := PutAt(root, ref, v);
    }
  }

  /** The scalar shortcut of Get answers what Find would. */
  lemma ScalarShortcut(v: Value, rest: seq<string>)
    requires IsScalar(v) && |rest| == 0
    ensures Find(v, rest) == Some(v)
  {
  }

  /** A Put is read back by a Get of the same ref unless a node above it holds a value. */
  lemma {:induction false} PutThenGet(node: Elem, ref: seq<string>, v: Value)
    requires |ref| > 0 && Unshadowed(node, ref)
    ensures Lookup(PutAt(node, ref, v), ref) == Some(v)
    decreases |ref|
  {
    if |ref| > 1 {
      var child := if ref[0] in node.children then node.children[ref[0]] else Empty();
      PutThenGet(child, ref[1..], v);
    }
  }

  /**
   * Longer refs stored beneath `ref` are dropped by Put: they now resolve
   * inside the new value.
   */
  lemma {:induction false} PutClearsBelow(node: Elem, ref: seq<string>, rest: seq<string>, v: Value)
    requires |ref| > 0 && Unshadowed(node, ref)
    ensures Lookup(PutAt(node, ref, v), ref + rest) == Find(v, rest)
    decreases |ref|
  {
    var child := if ref[0] in node.children then node.children[ref[0]] else Empty();
    assert (ref + rest)[0] == ref[0];
    if |ref| > 1 {
      assert (ref + rest)[1..] == ref[1..] + rest;
      PutClearsBelow(child, ref[1..], rest, v);
    } else {
      assert (ref + rest)[1..] == rest;
    }
  }

  /** Refs that leave the path of a Put before its end read what they read before. */
  lemma {:induction false} PutLeavesOtherBranches(node: Elem, ref: seq<string>, other: seq<string>, v: Value)
    requires exists i :: 0 <= i < |ref| && i < |other| && ref[i] != other[i]
    ensures Lookup(PutAt(node, ref, v), other) == Lookup(node, other)
    decreases |ref|
  {
    if ref[0] != other[0] {
    } else {
      var i :| 0 <= i < |ref| && i < |other| && ref[i] != other[i];
      assert i > 0;
      assert ref[1..][i - 1] != other[1..][i - 1];
      var child := if ref[0] in node.children then node.children[ref[0]] else Empty();
      PutLeavesOtherBranches(child, ref[1..], other[1..], v);
      if ref[0] !in node.children {
        EmptyLookup(other[1..]);
      }
    }
  }

  /** An empty node answers nothing. */
  lemma EmptyLookup(ref: seq<string>)
    ensures Lookup(Empty(), ref) == None
  {
  }

  /**
   * A value stored at a ref shadows a later Put beneath it: after storing
   * an object at ["a"] and then a scalar at ["a", "b"], Get(["a", "b"])
   * finds "b" in the object, not the scalar.
   */
  lemma ShadowedPut()
    ensures
      var first := PutAt(Empty(), ["a"], Object(map["b" := Scalar("x")]));
      Lookup(PutAt(first, ["a", "b"], Scalar("y")), ["a", "b"]) == Some(Scalar("x"))
  {
    var first := PutAt(Empty(), ["a"], Object(map["b" := Scalar("x")]));
    var second := PutAt(first, ["a", "b"], Scalar("y"));
    assert second.children["a"].value == Some(Object(map["b" := Scalar("x")]));
    assert ["a", "b"][1..] == ["b"];
  }

  /** A Put at the empty ref empties the whole trie. */
  lemma PutEmptyRef(node: Elem, v: Value, ref: seq<string>)
    ensures Lookup(PutAt(node, [], v), ref) == None
  {
  }
}
