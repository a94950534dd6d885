/**
 * The language server's per-file store (internal/lsp/cache/cache.go): maps
 * from file URI to contents, parsed modules, aggregates, diagnostics and
 * positions, each updated in place. The source guards every map with its
 * own mutex; the model is sequential.
 */
module LspCache {
  import opened Wrappers
  import opened LspTypes

  /** The two accessors of an aggregate the cache uses: the file it came from and its index key. */
  datatype Aggregate = Aggregate(sourceFile: string, indexKey: string, data: string)

  /** Some file's list in `data` holds aggregate a. */
  ghost predicate InData(data: map<string, seq<Aggregate>>, a: Aggregate) {
    exists k :: k in data && a in data[k]
  }

  /** Aggregate a is stored under one of the files asked for, or under any file when none are. */
  ghost predicate Selected(aggregateData: map<string, seq<Aggregate>>, uris: seq<string>, a: Aggregate) {
    exists f :: f in aggregateData && (|uris| == 0 || f in uris) && a in aggregateData[f]
  }

  /** Aggregate a is listed under one of the keys of `data` already visited. */
  ghost predicate Visited(data: map<string, seq<Aggregate>>, remaining: set<string>, a: Aggregate) {
    exists k :: k in data && k !in remaining && a in data[k]
  }

  /** Visiting one more key of `data` adds exactly that key's aggregates. */
  lemma VisitedStep(data: map<string, seq<Aggregate>>, remaining: set<string>, k: string)
    requires k in remaining
    ensures forall a :: Visited(data, remaining - {k}, a) <==> Visited(data, remaining, a) || (k in data && a in data[k])
  {
    forall a | k in data && a in data[k]
      ensures Visited(data, remaining - {k}, a)
    {
      assert k !in remaining - {k};
    }
  }

  /** Filing one more key's aggregates under their source files keeps the files those of the visited aggregates. */
  lemma FiledStep(data: map<string, seq<Aggregate>>, remaining: set<string>, k: string,
                  before: map<string, seq<Aggregate>>, after: map<string, seq<Aggregate>>)
    requires k in remaining && k in data
    requires forall f, a :: f in before && a in before[f] <==> Visited(data, remaining, a) && a.sourceFile == f
    requires forall f, a :: f in after && a in after[f] <==> (f in before && a in before[f]) || (a in data[k] && KeyOf(a, BySourceFile) == f)
    ensures forall f, a :: f in after && a in after[f] <==> Visited(data, remaining - {k}, a) && a.sourceFile == f
  {
    VisitedStep(data, remaining, k);
    forall f, a
      ensures f in after && a in after[f] <==> Visited(data, remaining - {k}, a) && a.sourceFile == f
    {
      assert KeyOf(a, BySourceFile) == a.sourceFile;
    }
  }

  /** Once every key is visited, the visited aggregates are all of them. */
  lemma VisitedAll(data: map<string, seq<Aggregate>>)
    ensures forall a :: Visited(data, {}, a) <==> InData(data, a)
  {
  }

  /** A list holding each aggregate of uri as often as `data` lists it holds exactly the aggregates of uri in `data`. */
  lemma FiledMembers(data: map<string, seq<Aggregate>>, uri: string, filed: seq<Aggregate>)
    requires forall a :: multiset(filed)[a] == if a.sourceFile == uri then Listed(data)[a] else 0
    ensures forall a :: a in filed <==> a.sourceFile == uri && InData(data, a)
  {
    forall a
      ensures a in filed <==> a.sourceFile == uri && InData(data, a)
    {
      BagIn(data, data.Keys, a);
      assert a in filed <==> multiset(filed)[a] > 0;
    }
  }

  /** Each group holds every aggregate of its key listed under the given keys of `data`, as often as listed, and nothing else. */
  ghost predicate Counts(groups: map<string, seq<Aggregate>>, data: map<string, seq<Aggregate>>, keys: set<string>, grouping: Grouping)
    requires keys <= data.Keys
  {
    forall key, a :: multiset(GroupOf(groups, key))[a] == if KeyOf(a, grouping) == key then Bag(data, keys)[a] else 0
  }

  /** No groups count the aggregates of no keys. */
  lemma CountsEmpty(data: map<string, seq<Aggregate>>, grouping: Grouping)
    ensures Counts(map[], data, {}, grouping)
  {
  }

  /** Grouping one more key's list adds that list to the bag each group counts. */
  lemma BagGroupStep(data: map<string, seq<Aggregate>>, visited: set<string>, k: string,
                     before: map<string, seq<Aggregate>>, after: map<string, seq<Aggregate>>, grouping: Grouping)
    requires visited <= data.Keys && k in data && k !in visited
    requires Counts(before, data, visited, grouping)
    requires forall f :: GroupOf(after, f) == GroupOf(before, f) + Keyed(data[k], f, grouping)
    ensures Counts(after, data, visited + {k}, grouping)
  {
    GroupCount(before, data[k], grouping, after);
    BagStep(data, visited, k);
  }

  /** Groups counting every aggregate of `data` by source file hold each under its own file as often as it is listed. */
  lemma FiledCounts(data: map<string, seq<Aggregate>>, groups: map<string, seq<Aggregate>>)
    requires Counts(groups, data, data.Keys, BySourceFile)
    ensures forall f, a :: multiset(GroupOf(groups, f))[a] == if a.sourceFile == f then Listed(data)[a] else 0
  {
    forall f, a
      ensures multiset(GroupOf(groups, f))[a] == if a.sourceFile == f then Listed(data)[a] else 0
    {
      assert KeyOf(a, BySourceFile) == a.sourceFile;
    }
  }

  /** Groups holding each aggregate of `data` under its index key, as often as listed, hold exactly those aggregates. */
  lemma IndexedMembers(data: map<string, seq<Aggregate>>, r: map<string, seq<Aggregate>>)
    requires Counts(r, data, data.Keys, ByIndexKey)
    ensures forall key, a :: multiset(GroupOf(r, key))[a] == if a.indexKey == key then Listed(data)[a] else 0
    ensures forall key, a :: key in r && a in r[key] <==> a.indexKey == key && InData(data, a)
  {
    forall key, a
      ensures key in r && a in r[key] <==> a.indexKey == key && InData(data, a)
    {
      assert KeyOf(a, ByIndexKey) == a.indexKey;
      BagIn(data, data.Keys, a);
      assert a in GroupOf(r, key) <==> multiset(GroupOf(r, key))[a] > 0;
    }
  }

  /** The files of the cache that a query for `uris` reads. */
  ghost function Chosen(aggregateData: map<string, seq<Aggregate>>, uris: seq<string>): map<string, seq<Aggregate>> {
    map f | f in aggregateData && (|uris| == 0 || f in uris) :: aggregateData[f]
  }

  /** Visiting one more file of the cache adds it to the visited files a query reads exactly when the query reads it. */
  lemma ChosenVisit(aggregateData: map<string, seq<Aggregate>>, uris: seq<string>, remaining: set<string>, f: string)
    requires f in remaining
    ensures (|uris| == 0 || f in uris) && f in aggregateData ==>
      && f in Chosen(aggregateData, uris) && f !in Chosen(aggregateData, uris).Keys - remaining
      && Chosen(aggregateData, uris)[f] == aggregateData[f]
      && Chosen(aggregateData, uris).Keys - (remaining - {f}) == Chosen(aggregateData, uris).Keys - remaining + {f}
    ensures !(|uris| == 0 || f in uris) ==>
      Chosen(aggregateData, uris).Keys - (remaining - {f}) == Chosen(aggregateData, uris).Keys - remaining
  {
  }

  lemma ChosenSelected(aggregateData: map<string, seq<Aggregate>>, uris: seq<string>)
    ensures forall a :: InData(Chosen(aggregateData, uris), a) <==> Selected(aggregateData, uris, a)
  {
    var c := Chosen(aggregateData, uris);
    forall a | Selected(aggregateData, uris, a)
      ensures InData(c, a)
    {
      var f :| f in aggregateData && (|uris| == 0 || f in uris) && a in aggregateData[f];
      assert f in c && a in c[f];
    }
  }

  /** The two ways the cache groups aggregates. */
  datatype Grouping = BySourceFile | ByIndexKey

  function KeyOf(a: Aggregate, grouping: Grouping): string {
    match grouping
    case BySourceFile => a.sourceFile
    case ByIndexKey => a.indexKey
  }

  /** The group a map holds under key k, empty when k is absent, as a Go map lookup reads it. */
  function GroupOf(groups: map<string, seq<Aggregate>>, k: string): seq<Aggregate> {
    if k in groups then groups[k] else []
  }

  /** The aggregates whose key is k, in their order and with repeats kept. */
  function Keyed(aggregates: seq<Aggregate>, k: string, grouping: Grouping): seq<Aggregate>
    decreases |aggregates|
  {
    if |aggregates| == 0 then []
    else
      var last := aggregates[|aggregates| - 1];
      Keyed(aggregates[..|aggregates| - 1], k, grouping) + (if KeyOf(last, grouping) == k then [last] else [])
  }

  /** Keyed keeps every copy of an aggregate of key k and drops all others. */
  lemma {:induction false} KeyedCount(aggregates: seq<Aggregate>, k: string, grouping: Grouping)
    ensures forall a :: multiset(Keyed(aggregates, k, grouping))[a] == if KeyOf(a, grouping) == k then multiset(aggregates)[a] else 0
    decreases |aggregates|
  {
    if |aggregates| > 0 {
      var init := aggregates[..|aggregates| - 1];
      var last := aggregates[|aggregates| - 1];
      KeyedCount(init, k, grouping);
      assert aggregates == init + [last];
    }
  }

  /** Filtering one more aggregate by key appends it exactly when its key is k. */
  lemma KeyedSnoc(aggregates: seq<Aggregate>, a: Aggregate, k: string, grouping: Grouping)
    ensures Keyed(aggregates + [a], k, grouping) == Keyed(aggregates, k, grouping) + (if KeyOf(a, grouping) == k then [a] else [])
  {
    assert (aggregates + [a])[..|aggregates|] == aggregates;
  }

  /** Appending an aggregate to the group of its own key extends that group's filter by it. */
  lemma GroupAppend(groups: map<string, seq<Aggregate>>, r: map<string, seq<Aggregate>>,
                    prefix: seq<Aggregate>, a: Aggregate, grouping: Grouping)
    requires GroupOf(r, KeyOf(a, grouping)) == GroupOf(groups, KeyOf(a, grouping)) + Keyed(prefix, KeyOf(a, grouping), grouping)
    ensures GroupOf(r, KeyOf(a, grouping)) + [a] == GroupOf(groups, KeyOf(a, grouping)) + Keyed(prefix + [a], KeyOf(a, grouping), grouping)
  {
    var k := KeyOf(a, grouping);
    KeyedSnoc(prefix, a, k, grouping);
    var g, p := GroupOf(groups, k), Keyed(prefix, k, grouping);
    assert (g + p) + [a] == g + (p + [a]);
  }

  /** Appending one aggregate to the group of its key extends, under any key k, the grouping of a prefix by that aggregate. */
  lemma GroupStepAt(groups: map<string, seq<Aggregate>>, r: map<string, seq<Aggregate>>,
                    prefix: seq<Aggregate>, a: Aggregate, grouping: Grouping, k: string)
    requires GroupOf(r, k) == GroupOf(groups, k) + Keyed(prefix, k, grouping)
    requires GroupOf(r, KeyOf(a, grouping)) == GroupOf(groups, KeyOf(a, grouping)) + Keyed(prefix, KeyOf(a, grouping), grouping)
    ensures GroupOf(r[KeyOf(a, grouping) := GroupOf(r, KeyOf(a, grouping)) + [a]], k)
            == GroupOf(groups, k) + Keyed(prefix + [a], k, grouping)
  {
    if k == KeyOf(a, grouping) {
      GroupAppend(groups, r, prefix, a, grouping);
    } else {
      KeyedSnoc(prefix, a, k, grouping);
    }
  }

  /** The groups after appending each aggregate, in order, to the group of its key. */
  function Grouped(groups: map<string, seq<Aggregate>>, aggregates: seq<Aggregate>, grouping: Grouping): map<string, seq<Aggregate>>
    decreases |aggregates|
  {
    if |aggregates| == 0 then groups
    else
      var m := Grouped(groups, aggregates[..|aggregates| - 1], grouping);
      var key := KeyOf(aggregates[|aggregates| - 1], grouping);
      m[key := GroupOf(m, key) + [aggregates[|aggregates| - 1]]]
  }

  /** Each group becomes the old group followed by the aggregates of its key, in order and with repeats. */
  lemma {:induction false} GroupedExact(groups: map<string, seq<Aggregate>>, aggregates: seq<Aggregate>, grouping: Grouping)
    ensures forall k :: GroupOf(Grouped(groups, aggregates, grouping), k) == GroupOf(groups, k) + Keyed(aggregates, k, grouping)
    decreases |aggregates|
  {
    if |aggregates| > 0 {
      var init, last := aggregates[..|aggregates| - 1], aggregates[|aggregates| - 1];
      GroupedExact(groups, init, grouping);
      assert aggregates == init + [last];
      forall k
        ensures GroupOf(Grouped(groups, aggregates, grouping), k) == GroupOf(groups, k) + Keyed(aggregates, k, grouping)
      {
        GroupStepAt(groups, Grouped(groups, init, grouping), init, last, grouping, k);
      }
    }
  }

  /** Grouping never drops a key, nor empties a group. */
  lemma {:induction false} GroupedKeys(groups: map<string, seq<Aggregate>>, aggregates: seq<Aggregate>, grouping: Grouping)
    ensures forall k :: k in groups ==> k in Grouped(groups, aggregates, grouping)
    ensures (forall k :: k in groups ==> |groups[k]| > 0) ==>
      forall k :: k in Grouped(groups, aggregates, grouping) ==> |Grouped(groups, aggregates, grouping)[k]| > 0
    decreases |aggregates|
  {
    if |aggregates| > 0 {
      GroupedKeys(groups, aggregates[..|aggregates| - 1], grouping);
    }
  }

  /**
   * Appends each aggregate to the group of its key, as
   * `m[key] = append(m[key], a)` does in a loop.
   */
  method GroupBy(groups: map<string, seq<Aggregate>>, aggregates: seq<Aggregate>, grouping: Grouping)
    returns (r: map<string, seq<Aggregate>>)
    ensures forall k :: k in groups ==> k in r
    ensures (forall k :: k in groups ==> |groups[k]| > 0) ==> forall k :: k in r ==> |r[k]| > 0
    ensures forall k, a :: k in r && a in r[k] <==> (k in groups && a in groups[k]) || (a in aggregates && KeyOf(a, grouping) == k)
    ensures forall k :: GroupOf(r, k) == GroupOf(groups, k) + Keyed(aggregates, k, grouping)
  {
    r := groups;
    var j := 0;
    while j < |aggregates|
      invariant 0 <= j <= |aggregates|
      invariant r == Grouped(groups, aggregates[..j], grouping)
    {
      var a := aggregates[j];
      var key := KeyOf(a, grouping);
      var current := GroupOf(r, key);
      r := r[key := current + [a]];
      assert aggregates[..j + 1][..j] == aggregates[..j];
      j := j + 1;
    }
    assert aggregates[..j] == aggregates;
    GroupedExact(groups, aggregates, grouping);
    GroupedKeys(groups, aggregates, grouping);
    GroupMembers(groups, aggregates, grouping, r);
  }

  /** A group holds an aggregate exactly when the old group did or it is a new aggregate of that key. */
  lemma GroupMembers(groups: map<string, seq<Aggregate>>, aggregates: seq<Aggregate>, grouping: Grouping,
                     r: map<string, seq<Aggregate>>)
    requires forall k :: GroupOf(r, k) == GroupOf(groups, k) + Keyed(aggregates, k, grouping)
    ensures forall k, a :: k in r && a in r[k] <==> (k in groups && a in groups[k]) || (a in aggregates && KeyOf(a, grouping) == k)
  {
    forall k, a
      ensures k in r && a in r[k] <==> (k in groups && a in groups[k]) || (a in aggregates && KeyOf(a, grouping) == k)
    {
      KeyedCount(aggregates, k, grouping);
      assert a in GroupOf(r, k) <==> a in GroupOf(groups, k) || a in Keyed(aggregates, k, grouping);
    }
  }

  /** Grouping adds, under each key, every copy of the new aggregates of that key to what the group held. */
  lemma GroupCount(groups: map<string, seq<Aggregate>>, aggregates: seq<Aggregate>, grouping: Grouping,
                   r: map<string, seq<Aggregate>>)
    requires forall k :: GroupOf(r, k) == GroupOf(groups, k) + Keyed(aggregates, k, grouping)
    ensures forall k, a ::
      multiset(GroupOf(r, k))[a] == multiset(GroupOf(groups, k))[a] + (if KeyOf(a, grouping) == k then multiset(aggregates)[a] else 0)
  {
    forall k, a
      ensures multiset(GroupOf(r, k))[a] ==
        multiset(GroupOf(groups, k))[a] + (if KeyOf(a, grouping) == k then multiset(aggregates)[a] else 0)
    {
      KeyedCount(aggregates, k, grouping);
    }
  }

  /** A key of a non-empty set, fixed once so that every use picks the same one. */
  ghost function Pick(keys: set<string>): (k: string)
    requires keys != {}
    ensures k in keys
  {
    var k :| k in keys; k
  }

  /** Every aggregate listed under the given keys of `data`, as often as it is listed. */
  ghost function Bag(data: map<string, seq<Aggregate>>, keys: set<string>): multiset<Aggregate>
    requires keys <= data.Keys
    decreases keys
  {
    if keys == {} then multiset{}
    else multiset(data[Pick(keys)]) + Bag(data, keys - {Pick(keys)})
  }

  /** The bag of keys does not depend on which key is taken out first. */
  lemma {:induction false} BagPick(data: map<string, seq<Aggregate>>, keys: set<string>, k: string)
    requires keys <= data.Keys && k in keys
    ensures Bag(data, keys) == multiset(data[k]) + Bag(data, keys - {k})
    decreases keys
  {
    var j := Pick(keys);
    if j != k {
      BagPick(data, keys - {j}, k);
      BagPick(data, keys - {k}, j);
      assert keys - {j} - {k} == keys - {k} - {j};
    }
  }

  /** Visiting one more key adds its list to the bag of the visited keys. */
  lemma BagStep(data: map<string, seq<Aggregate>>, visited: set<string>, k: string)
    requires visited <= data.Keys && k in data && k !in visited
    ensures Bag(data, visited + {k}) == Bag(data, visited) + multiset(data[k])
  {
    BagPick(data, visited + {k}, k);
    assert visited + {k} - {k} == visited;
  }

  /** Every aggregate of every list of `data`, as often as it is listed. */
  ghost function Listed(data: map<string, seq<Aggregate>>): multiset<Aggregate> {
    Bag(data, data.Keys)
  }

  /** An aggregate is listed in `data` exactly when some list holds it. */
  lemma {:induction false} BagIn(data: map<string, seq<Aggregate>>, keys: set<string>, a: Aggregate)
    requires keys <= data.Keys
    ensures a in Bag(data, keys) <==> exists k :: k in keys && a in data[k]
    decreases keys
  {
    if keys != {} {
      var j := Pick(keys);
      BagIn(data, keys - {j}, a);
      if a in data[j] {
        assert j in keys;
      }
    }
  }

  /** The diagnostics a partial update keeps: those whose code is not among the rules re-evaluated, in order. */
  function Preserved(diags: seq<Diagnostic>, rules: set<string>): (r: seq<Diagnostic>)
    decreases |diags|
  {
    if |diags| == 0 then []
    else if diags[0].code in rules then Preserved(diags[1..], rules)
    else [diags[0]] + Preserved(diags[1..], rules)
  }

  /** The rule names of a partial update, as the set the source builds for lookups. */
  function RuleSet(rules: seq<string>): set<string> {
    set r | r in rules
  }

  /** The preserved diagnostics are exactly those of the old list whose code was not re-evaluated, and never more. */
  lemma {:induction false} PreservedSpec(diags: seq<Diagnostic>, rules: set<string>)
    ensures |Preserved(diags, rules)| <= |diags|
    ensures forall d :: d in Preserved(diags, rules) <==> d in diags && d.code !in rules
    decreases |diags|
  {
    if |diags| > 0 {
      PreservedSpec(diags[1..], rules);
      assert forall d :: d in diags <==> d == diags[0] || d in diags[1..];
    }
  }

  /** Preserving twice with the same rules changes nothing: the update is idempotent on old diagnostics. */
  lemma {:induction false} PreservedIdempotent(diags: seq<Diagnostic>, rules: set<string>)
    ensures Preserved(Preserved(diags, rules), rules) == Preserved(diags, rules)
    decreases |diags|
  {
    if |diags| > 0 {
      PreservedIdempotent(diags[1..], rules);
      if diags[0].code !in rules {
        var r := [diags[0]] + Preserved(diags[1..], rules);
        assert r[0] == diags[0] && r[1..] == Preserved(diags[1..], rules);
      }
    }
  }

  /**
   * Module, builtin-position, keyword-location and ref values are kept as
   * the type parameters M, B, K and R: the cache only stores them.
   */
  class Cache<M, B, K, R> {
    var fileContents: map<string, string>
    var ignoredFileContents: map<string, string>
    var modules: map<string, M>
    var aggregateData: map<string, seq<Aggregate>>
    var diagnosticsFile: map<string, seq<Diagnostic>>
    var diagnosticsParseErrors: map<string, seq<Diagnostic>>
    var builtinPositionsFile: map<string, map<nat, seq<B>>>
    var keywordLocationsFile: map<string, map<nat, seq<K>>>
    var fileRefs: map<string, map<string, R>>

    /** Aggregates are filed under the file they came from. */
    ghost predicate Valid()
      reads this
    {
      forall f, a :: f in aggregateData && a in aggregateData[f] ==> a.sourceFile == f
    }

    constructor ()
      ensures Valid()
      ensures fileContents == map[] && ignoredFileContents == map[] && modules == map[]
      ensures aggregateData == map[] && diagnosticsFile == map[] && diagnosticsParseErrors == map[]
      ensures builtinPositionsFile == map[] && keywordLocationsFile == map[] && fileRefs == map[]
    {
      fileContents := map[];
      ignoredFileContents := map[];
      modules := map[];
      aggregateData := map[];
      diagnosticsFile := map[];
      diagnosticsParseErrors := map[];
      builtinPositionsFile := map[];
      keywordLocationsFile := map[];
      fileRefs := map[];
    }

    /** A copy of every file's contents; maps are values, so later changes to either side stay apart. */
    function GetAllFiles(): (r: map<string, string>)
      reads this
      ensures r.Keys == fileContents.Keys
      ensures forall u :: u in r ==> r[u] == fileContents[u]
    {
      fileContents
    }

    /** The contents cached for uri, and whether there are any ("" when absent). */
    function GetFileContents(uri: string): (r: (string, bool))
      reads this
      ensures r.1 <==> uri in fileContents
      ensures r.0 == if uri in fileContents then fileContents[uri] else ""
    {
      if uri in fileContents then (fileContents[uri], true) else ("", false)
    }

    method SetFileContents(uri: string, content: string)
      modifies this`fileContents
      ensures fileContents == old(fileContents)[uri := content]
      ensures GetFileContents(uri) == (content, true)
      ensures forall u :: u != uri ==> GetFileContents(u) == old(GetFileContents(u))
    {
      fileContents := fileContents[uri := content];
    }

    function GetIgnoredFileContents(uri: string): (r: (string, bool))
      reads this
      ensures r.1 <==> uri in ignoredFileContents
      ensures r.0 == if uri in ignoredFileContents then ignoredFileContents[uri] else ""
    {
      if uri in ignoredFileContents then (ignoredFileContents[uri], true) else ("", false)
    }

    method SetIgnoredFileContents(uri: string, content: string)
      modifies this`ignoredFileContents
      ensures ignoredFileContents == old(ignoredFileContents)[uri := content]
    {
      ignoredFileContents := ignoredFileContents[uri := content];
    }

    method ClearIgnoredFileContents(uri: string)
      modifies this`ignoredFileContents
      ensures ignoredFileContents == old(ignoredFileContents) - {uri}
    {
      ignoredFileContents := ignoredFileContents - {uri};
    }

    function GetModule(uri: string): (r: Option<M>)
      reads this
      ensures r.Some? <==> uri in modules
      ensures r.Some? ==> r.value == modules[uri]
    {
      if uri in modules then Some(modules[uri]) else None
    }

    method SetModule(uri: string, m: M)
      modifies this`modules
      ensures modules == old(modules)[uri := m]
    {
      modules := modules[uri := m];
    }

    /**
     * Replaces uri's aggregates by those in `data`, under whichever file
     * they are listed, that came from uri; every other file keeps its own.
     * Go visits `data` in no fixed order, so the order of the stored list
     * is left open; each aggregate appears in it as often as `data` lists it.
     */
    method SetFileAggregates(uri: string, data: map<string, seq<Aggregate>>)
      requires Valid()
      modifies this`aggregateData
      ensures Valid()
      ensures aggregateData.Keys == old(aggregateData).Keys + {uri}
      ensures forall f :: f in aggregateData && f != uri ==> aggregateData[f] == old(aggregateData)[f]
      ensures forall a :: a in aggregateData[uri] <==> a.sourceFile == uri && InData(data, a)
      ensures forall a :: multiset(aggregateData[uri])[a] == if a.sourceFile == uri then Listed(data)[a] else 0
    {
      var flattened: seq<Aggregate> := [];
      var remaining := data.Keys;
      while remaining != {}
        invariant remaining <= data.Keys
        invariant aggregateData == old(aggregateData)
        invariant forall a :: multiset(flattened)[a] == if a.sourceFile == uri then Bag(data, data.Keys - remaining)[a] else 0
        decreases remaining
      {
        var k :| k in remaining;
        var aggregates := data[k];
        ghost var visited := data.Keys - remaining;
        var j := 0;
        while j < |aggregates|
          invariant 0 <= j <= |aggregates|
          invariant forall a :: multiset(flattened)[a] == if a.sourceFile == uri then Bag(data, visited)[a] + multiset(aggregates[..j])[a] else 0
        {
          assert aggregates[..j + 1] == aggregates[..j] + [aggregates[j]];
          if aggregates[j].sourceFile == uri {
            flattened := flattened + [aggregates[j]];
          }
          j := j + 1;
        }
        assert aggregates[..j] == aggregates;
        BagStep(data, visited, k);
        remaining := remaining - {k};
        assert data.Keys - remaining == visited + {k};
      }
      assert data.Keys - remaining == data.Keys;
      FiledMembers(data, uri, flattened);
      aggregateData := aggregateData[uri := flattened];
    }

    /**
     * Throws away all aggregate state and files every aggregate in `data`
     * under its own source file.
     */
    method SetAggregates(data: map<string, seq<Aggregate>>)
      modifies this`aggregateData
      ensures Valid()
      ensures forall f :: f in aggregateData <==> exists a :: InData(data, a) && a.sourceFile == f
      ensures forall f, a :: f in aggregateData && a in aggregateData[f] <==> InData(data, a) && a.sourceFile == f
      ensures forall f, a :: multiset(GroupOf(aggregateData, f))[a] == if a.sourceFile == f then Listed(data)[a] else 0
    {
      aggregateData := map[];
      var remaining := data.Keys;
      CountsEmpty(data, BySourceFile);
      assert data.Keys - remaining == {};
      while remaining != {}
        invariant remaining <= data.Keys
        invariant forall f :: f in aggregateData ==> |aggregateData[f]| > 0
        invariant forall f, a :: f in aggregateData && a in aggregateData[f] <==> Visited(data, remaining, a) && a.sourceFile == f
        invariant Counts(aggregateData, data, data.Keys - remaining, BySourceFile)
        decreases remaining
      {
        var k :| k in remaining;
        ghost var before := aggregateData;
        ghost var visited := data.Keys - remaining;
        aggregateData := GroupBy(aggregateData, data[k], BySourceFile);
        FiledStep(data, remaining, k, before, aggregateData);
        BagGroupStep(data, visited, k, before, aggregateData, BySourceFile);
        remaining := remaining - {k};
        assert data.Keys - remaining == visited + {k};
      }
      assert data.Keys - remaining == data.Keys;
      FiledCounts(data, aggregateData);
      VisitedAll(data);
      forall f | f in aggregateData
        ensures exists a :: InData(data, a) && a.sourceFile == f
      {
        var a := aggregateData[f][0];
        assert a in aggregateData[f];
        assert InData(data, a);
      }
    }

    /**
     * The aggregates of the given files (of every file when none are
     * given), regrouped by index key.
     */
    method GetFileAggregates(uris: seq<string>) returns (r: map<string, seq<Aggregate>>)
      ensures forall key, a :: key in r && a in r[key] <==> a.indexKey == key && Selected(aggregateData, uris, a)
      ensures forall key, a :: multiset(GroupOf(r, key))[a] == if a.indexKey == key then Listed(Chosen(aggregateData, uris))[a] else 0
    {
      r := map[];
      var getAll := |uris| == 0;
      ghost var chosen := Chosen(aggregateData, uris);
      var remaining := aggregateData.Keys;
      CountsEmpty(chosen, ByIndexKey);
      assert chosen.Keys - remaining == {};
      while remaining != {}
        invariant remaining <= aggregateData.Keys
        invariant Counts(r, chosen, chosen.Keys - remaining, ByIndexKey)
        decreases remaining
      {
        var sourceFile :| sourceFile in remaining;
        ghost var visited := chosen.Keys - remaining;
        ChosenVisit(aggregateData, uris, remaining, sourceFile);
        remaining := remaining - {sourceFile};
        if !(sourceFile in uris) && !getAll {
          continue;
        }
        ghost var r0 := r;
        var batch := aggregateData[sourceFile];
        r := GroupBy(r, batch, ByIndexKey);
        BagGroupStep(chosen, visited, sourceFile, r0, r, ByIndexKey);
      }
      assert chosen.Keys - remaining == chosen.Keys;
      IndexedMembers(chosen, r);
      ChosenSelected(aggregateData, uris);
    }

    function GetFileDiagnostics(uri: string): (r: (seq<Diagnostic>, bool))
      reads this
      ensures r.1 <==> uri in diagnosticsFile
      ensures r.0 == if uri in diagnosticsFile then diagnosticsFile[uri] else []
    {
      if uri in diagnosticsFile then (diagnosticsFile[uri], true) else ([], false)
    }

    method SetFileDiagnostics(uri: string, diags: seq<Diagnostic>)
      modifies this`diagnosticsFile
      ensures diagnosticsFile == old(diagnosticsFile)[uri := diags]
    {
      diagnosticsFile := diagnosticsFile[uri := diags];
    }

    /**
     * A partial update after re-evaluating `rules` on uri: the old
     * diagnostics of other rules are kept in order, then the new ones
     * follow; other files are untouched.
     */
    method SetFileDiagnosticsForRules(uri: string, rules: seq<string>, diags: seq<Diagnostic>)
      modifies this`diagnosticsFile
      ensures diagnosticsFile == old(diagnosticsFile)[uri := Preserved(old(GetFileDiagnostics(uri)).0, RuleSet(rules)) + diags]
    {
      var ruleKeys: set<string> := {};
      var k := 0;
      while k < |rules|
        invariant 0 <= k <= |rules|
        invariant ruleKeys == RuleSet(rules[..k])
      {
        assert rules[..k + 1] == rules[..k] + [rules[k]];
        ruleKeys := ruleKeys + {rules[k]};
        k := k + 1;
      }
      assert rules[..k] == rules;
      var current := if uri in diagnosticsFile then diagnosticsFile[uri] else [];
      var preserved: seq<Diagnostic> := [];
      var j := 0;
      while j < |current|
        invariant 0 <= j <= |current|
        invariant preserved + Preserved(current[j..], ruleKeys) == Preserved(current, ruleKeys)
      {
        assert current[j..][1..] == current[j + 1..];
        if !(current[j].code in ruleKeys) {
          preserved := preserved + [current[j]];
        }
        j := j + 1;
      }
      assert current[j..] == [];
      assert preserved == Preserved(current, ruleKeys);
      assert ruleKeys == RuleSet(rules);
      diagnosticsFile := diagnosticsFile[uri := preserved + diags];
    }

    method ClearFileDiagnostics()
      modifies this`diagnosticsFile
      ensures diagnosticsFile == map[]
    {
      diagnosticsFile := map[];
    }

    function GetParseErrors(uri: string): (r: (seq<Diagnostic>, bool))
      reads this
      ensures r.1 <==> uri in diagnosticsParseErrors
      ensures r.0 == if uri in diagnosticsParseErrors then diagnosticsParseErrors[uri] else []
    {
      if uri in diagnosticsParseErrors then (diagnosticsParseErrors[uri], true) else ([], false)
    }

    method SetParseErrors(uri: string, diags: seq<Diagnostic>)
      modifies this`diagnosticsParseErrors
      ensures diagnosticsParseErrors == old(diagnosticsParseErrors)[uri := diags]
    {
      diagnosticsParseErrors := diagnosticsParseErrors[uri := diags];
    }

    function GetBuiltinPositions(uri: string): (r: Option<map<nat, seq<B>>>)
      reads this
      ensures r.Some? <==> uri in builtinPositionsFile
      ensures r.Some? ==> r.value == builtinPositionsFile[uri]
    {
      if uri in builtinPositionsFile then Some(builtinPositionsFile[uri]) else None
    }

    method SetBuiltinPositions(uri: string, positions: map<nat, seq<B>>)
      modifies this`builtinPositionsFile
      ensures builtinPositionsFile == old(builtinPositionsFile)[uri := positions]
    {
      builtinPositionsFile := builtinPositionsFile[uri := positions];
    }

    function GetKeywordLocations(uri: string): (r: Option<map<nat, seq<K>>>)
      reads this
      ensures r.Some? <==> uri in keywordLocationsFile
      ensures r.Some? ==> r.value == keywordLocationsFile[uri]
    {
      if uri in keywordLocationsFile then Some(keywordLocationsFile[uri]) else None
    }

    method SetKeywordLocations(uri: string, keywords: map<nat, seq<K>>)
      modifies this`keywordLocationsFile
      ensures keywordLocationsFile == old(keywordLocationsFile)[uri := keywords]
    {
      keywordLocationsFile := keywordLocationsFile[uri := keywords];
    }

    /** The refs defined in uri; a file never parsed has none (Go's nil map). */
    function GetFileRefs(uri: string): (r: map<string, R>)
      reads this
      ensures uri in fileRefs ==> r == fileRefs[uri]
      ensures uri !in fileRefs ==> r == map[]
    {
      if uri in fileRefs then fileRefs[uri] else map[]
    }

    method SetFileRefs(uri: string, items: map<string, R>)
      modifies this`fileRefs
      ensures fileRefs == old(fileRefs)[uri := items]
    {
      fileRefs := fileRefs[uri := items];
    }

    /**
     * Forgets uri everywhere, ignored contents included; keyword locations
     * are the one map Delete leaves alone.
     */
    method Delete(uri: string)
      requires Valid()
      modifies this`fileContents, this`modules, this`aggregateData, this`diagnosticsFile
      modifies this`diagnosticsParseErrors, this`builtinPositionsFile, this`fileRefs, this`ignoredFileContents
      ensures Valid()
      ensures fileContents == old(fileContents) - {uri}
      ensures modules == old(modules) - {uri}
      ensures aggregateData == old(aggregateData) - {uri}
      ensures diagnosticsFile == old(diagnosticsFile) - {uri}
      ensures diagnosticsParseErrors == old(diagnosticsParseErrors) - {uri}
      ensures builtinPositionsFile == old(builtinPositionsFile) - {uri}
      ensures fileRefs == old(fileRefs) - {uri}
      ensures ignoredFileContents == old(ignoredFileContents) - {uri}
      ensures keywordLocationsFile == old(keywordLocationsFile)
    {
      fileContents := fileContents - {uri};
      modules := modules - {uri};
      aggregateData := aggregateData - {uri};
      diagnosticsFile := diagnosticsFile - {uri};
      diagnosticsParseErrors := diagnosticsParseErrors - {uri};
      builtinPositionsFile := builtinPositionsFile - {uri};
      fileRefs := fileRefs - {uri};
      ignoredFileContents := ignoredFileContents - {uri};
    }
  }

  /**
   * Refreshes uri's contents from what is on disk (`disk`: the file read,
   * or the read error). Reports whether the contents changed; when the
   * cache already holds exactly the disk contents nothing is written.
   */
  method UpdateCacheForURIFromDisk<M, B, K, R>(cache: Cache<M, B, K, R>, uri: string, disk: Result<string>)
    returns (r: Result<(bool, string)>)
    modifies cache`fileContents
    ensures disk.Err? ==> r.Err? && cache.fileContents == old(cache.fileContents)
    ensures disk.Ok? ==> r.Ok? && r.value.1 == disk.value
    ensures disk.Ok? ==> cache.GetFileContents(uri) == (disk.value, true)
    ensures disk.Ok? ==> (r.value.0 <==> old(cache.GetFileContents(uri)) != (disk.value, true))
    ensures disk.Ok? && !r.value.0 ==> cache.fileContents == old(cache.fileContents)
    ensures forall u :: u != uri ==> cache.GetFileContents(u) == old(cache.GetFileContents(u))
  {
    if disk.Err? {
      return Err("failed to read file: " + disk.error);
    }
    var current := disk.value;
    var cached := cache.GetFileContents(uri);
    if cached.1 && cached.0 == current {
      return Ok((false, cached.0));
    }
    cache.SetFileContents(uri, current);
    return Ok((true, current));
  }
}
