/**
 * The fix report of pkg/fixer/report.go: for every file, the set of
 * violations fixed in it, and a counter of distinct (file, violation)
 * pairs.
 */
module FixerReport {
  import opened Sorting

  /** The distinct (file, violation) pairs that a map of fixed violations records. */
  ghost function PairsOf(m: map<string, set<string>>): set<(string, string)> {
    set f, v | f in m && v in m[f] :: (f, v)
  }

  lemma InPairsOf(m: map<string, set<string>>, f: string, v: string)
    ensures (f, v) in PairsOf(m) <==> f in m && v in m[f]
  {
  }

  /** Adding a violation to a file's set adds exactly that pair. */
  lemma PairsOfInsert(m: map<string, set<string>>, file: string, violation: string, current: set<string>)
    requires current == if file in m then m[file] else {}
    ensures PairsOf(m[file := current + {violation}]) == PairsOf(m) + {(file, violation)}
    ensures (file, violation) in PairsOf(m) <==> violation in current
  {
    var m' := m[file := current + {violation}];
    forall p: (string, string)
      ensures p in PairsOf(m') <==> p in PairsOf(m) + {(file, violation)}
    {
      InPairsOf(m', p.0, p.1);
      InPairsOf(m, p.0, p.1);
    }
    InPairsOf(m, file, violation);
  }

  /** `total` counts the pairs that `m` records. */
  ghost predicate Counted(total: nat, m: map<string, set<string>>) {
    total == |PairsOf(m)|
  }

  /** Every file in `m` has at least one fixed violation. */
  ghost predicate NoEmptyFiles(m: map<string, set<string>>) {
    forall f :: f in m ==> m[f] != {}
  }

  /** Recording a pair keeps the count exact: it grows by one for a new pair only. */
  lemma CountedInsert(total: nat, m: map<string, set<string>>, file: string, violation: string, current: set<string>)
    requires current == if file in m then m[file] else {}
    requires Counted(total, m) && NoEmptyFiles(m)
    ensures Counted(total + if violation in current then 0 else 1, m[file := current + {violation}])
    ensures NoEmptyFiles(m[file := current + {violation}])
  {
    var m' := m[file := current + {violation}];
    PairsOfInsert(m, file, violation, current);
    if violation in current {
      assert PairsOf(m') == PairsOf(m);
    } else {
      assert (file, violation) !in PairsOf(m);
      assert |PairsOf(m) + {(file, violation)}| == |PairsOf(m)| + 1;
    }
    forall f | f in m'
      ensures m'[f] != {}
    {
      if f == file {
        assert violation in m'[f];
      }
    }
  }

  class Report {
    var totalFixes: nat
    var fileFixedViolations: map<string, set<string>>

    /** The distinct (file, violation) pairs recorded. */
    ghost function Pairs(): set<(string, string)>
      reads this
    {
      PairsOf(fileFixedViolations)
    }

    /** The counter counts the recorded pairs, and a file is only filed with a fix. */
    ghost predicate Valid()
      reads this
    {
      Counted(totalFixes, fileFixedViolations) && NoEmptyFiles(fileFixedViolations)
    }

    /** NewReport */
    constructor ()
      ensures Valid()
      ensures totalFixes == 0 && fileFixedViolations == map[]
    {
      totalFixes := 0;
      fileFixedViolations := map[];
      new;
      assert Pairs() == {};
    }

    /** Records a fixed violation; a pair recorded before is not counted again. */
    method SetFileFixedViolation(file: string, violation: string)
      requires Valid()
      modifies this
      ensures Valid()
      ensures Pairs() == old(Pairs()) + {(file, violation)}
      ensures totalFixes == old(totalFixes) + if (file, violation) in old(Pairs()) then 0 else 1
      ensures fileFixedViolations == old(fileFixedViolations)[file :=
        (if file in old(fileFixedViolations) then old(fileFixedViolations)[file] else {}) + {violation}]
    {
      var current := if file in fileFixedViolations then fileFixedViolations[file] else {};
      var known := violation in current;
      PairsOfInsert(fileFixedViolations, file, violation, current);
      CountedInsert(totalFixes, fileFixedViolations, file, violation, current);
      fileFixedViolations := fileFixedViolations[file := current + {violation}];
      if !known {
        totalFixes := totalFixes + 1;
      }
    }

    /** The violations fixed in a file, sorted; none for an unknown file. */
    method FixedViolationsForFile(file: string) returns (r: seq<string>)
      ensures Sorted(r)
      ensures forall v :: v in r <==> (file, v) in Pairs()
      ensures file !in fileFixedViolations ==> r == []
      ensures file in fileFixedViolations ==> |r| == |fileFixedViolations[file]|
    {
      var fixed := if file in fileFixedViolations then fileFixedViolations[file] else {};
      r := SortedElements(fixed);
    }

    /** The files with a recorded fix, sorted. */
    method FixedFiles() returns (r: seq<string>)
      requires Valid()
      ensures Sorted(r)
      ensures forall f :: f in r <==> exists v :: (f, v) in Pairs()
      ensures |r| == |fileFixedViolations|
    {
      r := SortedElements(fileFixedViolations.Keys);
      forall f | f in fileFixedViolations
        ensures exists v :: (f, v) in Pairs()
      {
        var v :| v in fileFixedViolations[f];
        assert (f, v) in Pairs();
      }
    }

    /** The number of distinct (file, violation) pairs fixed. */
    function TotalFixes(): (n: nat)
      reads this
      requires Valid()
      ensures n == |Pairs()|
    {
      totalFixes
    }
  }
}
