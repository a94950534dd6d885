/**
 * The generic set of pkg/roast/util/set.go: a map from elements to the
 * empty struct, updated in place by Add and Remove.  The map's key set is
 * the field `elements`; the variadic arguments are sequences.
 */
module RoastSet {

  /** The elements that a variadic argument list names. */
  ghost function Members<T>(items: seq<T>): set<T> {
    set x | x in items
  }

  class Set<T(==)> {
    var elements: set<T>

    /** NewSet: a set holding exactly the supplied items. */
    constructor (items: seq<T>)
      ensures elements == Members(items)
    {
      elements := {};
      new;
      Add(items);
    }

    /** Adds each item; items already present change nothing. */
    method Add(items: seq<T>)
      modifies this
      ensures elements == old(elements) + Members(items)
      ensures Members(items) <= old(elements) ==> Size() == old(Size())
    {
      var i := 0;
      while i < |items|
        invariant 0 <= i <= |items|
        invariant elements == old(elements) + Members(items[..i])
      {
        assert Members(items[..i + 1]) == Members(items[..i]) + {items[i]} by {
          assert items[..i + 1] == items[..i] + [items[i]];
        }
        elements := elements + {items[i]};
        i := i + 1;
      }
      assert items[..i] == items;
      if Members(items) <= old(elements) {
        assert elements == old(elements);
      }
    }

    /** Removes each item; an absent item is a no-op. */
    method Remove(items: seq<T>)
      modifies this
      ensures elements == old(elements) - Members(items)
      ensures Members(items) !! old(elements) ==> elements == old(elements)
    {
      var i := 0;
      while i < |items|
        invariant 0 <= i <= |items|
        invariant elements == old(elements) - Members(items[..i])
      {
        assert Members(items[..i + 1]) == Members(items[..i]) + {items[i]} by {
          assert items[..i + 1] == items[..i] + [items[i]];
        }
        elements := elements - {items[i]};
        i := i + 1;
      }
      assert items[..i] == items;
    }

    /** Whether every given item is present; true for no items at all. */
    method Contains(items: seq<T>) returns (r: bool)
      ensures r <==> forall x :: x in items ==> x in elements
      ensures |items| == 0 ==> r
    {
      var i := 0;
      while i < |items|
        invariant 0 <= i <= |items|
        invariant forall j :: 0 <= j < i ==> items[j] in elements
      {
        if items[i] !in elements {
          return false;
        }
        i := i + 1;
      }
      return true;
    }

    /** The number of distinct elements. */
    function Size(): (n: nat)
      reads this
      ensures n == |elements|
      ensures n == 0 <==> elements == {}
    {
      |elements|
    }

    /**
     * Every element once, in the unspecified order in which Go ranges
     * over a map.
     */
    method Items() returns (items: seq<T>)
      ensures forall x :: x in items <==> x in elements
      ensures forall i, j :: 0 <= i < j < |items| ==> items[i] != items[j]
      ensures |items| == Size()
    {
      items := [];
      var remaining := elements;
      while remaining != {}
        invariant remaining <= elements
        invariant forall x :: x in items <==> x in elements - remaining
        invariant forall i, j :: 0 <= i < j < |items| ==> items[i] != items[j]
        invariant |items| + |remaining| == |elements|
        decreases remaining
      {
        var item :| item in remaining;
        assert item !in items;
        assert forall k :: 0 <= k < |items| ==> items[k] != item;
        items := items + [item];
        remaining := remaining - {item};
      }
    }

    /** A new set of the elements of this set that are not in `b`. */
    method Diff(b: Set<T>) returns (d: Set<T>)
      ensures fresh(d)
      ensures d.elements == elements - b.elements
    {
      d := new Set([]);
      var remaining := elements;
      while remaining != {}
        invariant fresh(d)
        invariant remaining <= elements
        invariant d.elements == (elements - remaining) - b.elements
        decreases remaining
      {
        var item :| item in remaining;
        var present := b.Contains([item]);
        if !present {
          d.Add([item]);
        }
        remaining := remaining - {item};
      }
    }
  }
}
