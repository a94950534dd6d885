/**
 * The completion provider that suggests packages on an `import` line
 * (internal/lsp/completions/providers/packagerefs.go): the packages other
 * files define and this one does not, those the typed word starts, with
 * the shorter packages above them added, offered shallowest first until
 * more than ten have been offered.
 */
module PackageRefs {
  import opened Wrappers
  import opened GoStrings
  import opened LspTypes
  import opened CompletionUtils
  import Utf8

  /** The description of a package added because longer ones lie below it. */
  const SubPackagesDescription: string := "See sub packages for more information"

  /**
   * A package ref worth suggesting: a package, not defined in this file,
   * and started by the last word unless that word is blank.
   */
  predicate Suggestable(ref: Ref, key: string, thisFile: set<string>, lastWord: string) {
    ref.kind == PackageRef && key !in thisFile && (TrimSpace(lastWord) == "" || HasPrefix(ref.labelText, lastWord))
  }

  /** The key made of the first `i + 1` dot-separated parts of `key`. */
  function PartialKey(key: string, i: nat): string
    requires i < |Split(key, '.')|
  {
    Join(Split(key, '.')[..i + 1], ".")
  }

  /** `p` is one of the shorter packages above `key`, from two parts on (the first part is `data`). */
  ghost predicate IsPartialOf(p: string, key: string) {
    exists i :: 1 <= i < |Split(key, '.')| - 1 && p == PartialKey(key, i)
  }

  /** The ref added for a package that only has packages below it. */
  function PartialRef(p: string): Ref {
    Ref(p, SubPackagesDescription, PackageRef)
  }

  /**
   * A partial key is a proper prefix of its key, followed there by a dot,
   * and lies between the top package and the key in depth.
   */
  lemma PartialIsAncestor(key: string, i: nat)
    requires 1 <= i < |Split(key, '.')| - 1
    ensures HasPrefix(key, PartialKey(key, i) + ".")
    ensures Depth(PartialKey(key, i)) == i
    ensures i < Depth(key)
  {
    var parts := Split(key, '.');
    SplitPieces(key, '.');
    JoinSplit(key, '.');
    assert parts == parts[..i + 1] + parts[i + 1..];
    JoinAppend(parts[..i + 1], parts[i + 1..], ".");
    var p := PartialKey(key, i);
    assert key == p + "." + Join(parts[i + 1..], ".");
    assert (p + ".") + Join(parts[i + 1..], ".") == key;
    JoinCount(parts[..i + 1], '.');
  }

  /** `m` with the partial keys of `key` it lacks added. */
  method AddPartialsOf(m: map<string, Ref>, key: string) returns (m': map<string, Ref>)
    ensures forall p :: p in m ==> p in m' && m'[p] == m[p]
    ensures forall p :: p in m' && p !in m ==> m'[p] == PartialRef(p) && IsPartialOf(p, key)
    ensures forall p :: IsPartialOf(p, key) ==> p in m'
  {
    var parts := Split(key, '.');
    m' := m;
    var i := 1;
    while i < |parts| - 1
      invariant 1 <= i
      invariant forall p :: p in m ==> p in m' && m'[p] == m[p]
      invariant forall p :: p in m' && p !in m ==> m'[p] == PartialRef(p) && IsPartialOf(p, key)
      invariant forall j :: 1 <= j < i && j < |parts| - 1 ==> PartialKey(key, j) in m'
    {
      var p := PartialKey(key, i);
      if p !in m' {
        m' := m'[p := PartialRef(p)];
      }
      i := i + 1;
    }
  }

  /**
   * The refs with every partial key of every ref added, unless already
   * there: packages above the found ones can be imported too.
   */
  method AddPartialKeys(refs: map<string, Ref>) returns (m: map<string, Ref>)
    ensures forall k :: k in refs ==> k in m && m[k] == refs[k]
    ensures forall p :: p in m && p !in refs ==> m[p] == PartialRef(p) && exists k :: k in refs && IsPartialOf(p, k)
    ensures forall k, p :: k in refs && IsPartialOf(p, k) ==> p in m
  {
    m := refs;
    var left := refs.Keys;
    while left != {}
      invariant left <= refs.Keys
      invariant forall k :: k in refs ==> k in m && m[k] == refs[k]
      invariant forall p :: p in m && p !in refs ==> m[p] == PartialRef(p) && exists k :: k in refs && IsPartialOf(p, k)
      invariant forall k, p :: k in refs && k !in left && IsPartialOf(p, k) ==> p in m
      decreases |left|
    {
      var key :| key in left;
      m := AddPartialsOf(m, key);
      left := left - {key};
    }
  }

  /** The item for a package ref: it replaces everything after `import ` with the label. */
  function PackageItem(ref: Ref, line: nat, lineLength: nat): (r: CompletionItem)
    ensures r.labelText == ref.labelText && r.kind == ModuleKind && r.documentation == Some(ref.description)
    ensures r.textEdit.Some? && r.textEdit.value.range.start == Position(line, 7)
  {
    CompletionItem(ref.labelText, ModuleKind, "Rego package", Some(ref.description),
      Some(TextEdit(Range(Position(line, 7), Position(line, lineLength)), ref.labelText)), false, None)
  }

  /** The number of refs in the groups of depths `ds`. */
  function GroupTotal(byDepth: map<nat, map<string, Ref>>, ds: seq<nat>): nat
    requires forall d :: d in ds ==> d in byDepth
  {
    if |ds| == 0 then 0 else GroupTotal(byDepth, ds[..|ds| - 1]) + |byDepth[ds[|ds| - 1]]|
  }

  lemma GroupTotalStep(byDepth: map<nat, map<string, Ref>>, ds: seq<nat>, j: nat)
    requires j < |ds| && forall d :: d in ds ==> d in byDepth
    ensures GroupTotal(byDepth, ds[..j + 1]) == GroupTotal(byDepth, ds[..j]) + |byDepth[ds[j]]|
  {
    assert ds[..j + 1][..j] == ds[..j];
  }

  /** Groups by depth as groupKeyedRefsByDepth returns them. */
  predicate Grouped(depths: seq<nat>, byDepth: map<nat, map<string, Ref>>) {
    && Increasing(depths)
    && (forall d :: d in depths ==> d in byDepth)
    && (forall d, key :: d in byDepth && key in byDepth[d] ==> Depth(key) == d)
  }

  /** Before each of the first `taken` groups, at most ten items had been gathered. */
  ghost predicate UnderLimit(depths: seq<nat>, byDepth: map<nat, map<string, Ref>>, taken: nat)
    requires taken <= |depths| && forall d :: d in depths ==> d in byDepth
  {
    forall g :: 0 <= g < taken ==> GroupTotal(byDepth, depths[..g]) <= 10
  }

  lemma UnderLimitStep(depths: seq<nat>, byDepth: map<nat, map<string, Ref>>, taken: nat)
    requires taken < |depths| && forall d :: d in depths ==> d in byDepth
    requires UnderLimit(depths, byDepth, taken) && GroupTotal(byDepth, depths[..taken]) <= 10
    ensures UnderLimit(depths, byDepth, taken + 1)
  {
  }

  /**
   * What the first `taken` groups contribute: their refs' keys, each once,
   * shallower before deeper, each with the item made from its ref.
   */
  ghost predicate Gathered(depths: seq<nat>, byDepth: map<nat, map<string, Ref>>, taken: nat,
                           keys: seq<string>, items: seq<CompletionItem>, line: nat, lineLength: nat)
    requires Grouped(depths, byDepth) && taken <= |depths|
  {
    && |items| == |keys| == GroupTotal(byDepth, depths[..taken])
    && (forall k :: k in keys <==> exists g :: 0 <= g < taken && k in byDepth[depths[g]])
    && (forall i, i' :: 0 <= i < i' < |keys| ==> keys[i] != keys[i'] && Depth(keys[i]) <= Depth(keys[i']))
    && (taken < |depths| ==> forall i :: 0 <= i < |keys| ==> Depth(keys[i]) < depths[taken])
    && (forall i :: 0 <= i < |keys| ==>
          (Depth(keys[i]) in byDepth && keys[i] in byDepth[Depth(keys[i])]
           && items[i] == PackageItem(byDepth[Depth(keys[i])][keys[i]], line, lineLength)))
  }

  /** Every depth group begins among the first eleven keys: a group is only started while at most ten are gathered. */
  predicate StartsEarly(keys: seq<string>) {
    forall i :: 0 < i < |keys| && Depth(keys[i - 1]) < Depth(keys[i]) ==> i <= 10
  }

  lemma StartsEarlyStep(keys: seq<string>, order: seq<string>, d: nat)
    requires StartsEarly(keys) && |keys| <= 10
    requires forall i :: 0 <= i < |order| ==> Depth(order[i]) == d
    ensures StartsEarly(keys + order)
  {
    var all := keys + order;
    forall i | 0 < i < |all|
      ensures Depth(all[i - 1]) < Depth(all[i]) ==> i <= 10
    {
      if i < |keys| {
        assert all[i - 1] == keys[i - 1] && all[i] == keys[i];
      } else if i > |keys| {
        assert all[i - 1] == order[i - 1 - |keys|] && all[i] == order[i - |keys|];
        assert Depth(all[i - 1]) == Depth(all[i]);
      }
    }
  }

  /**
   * The depth loop: whole groups in increasing depth, each in map order,
   * the first `taken` of them; a group is left out once more than ten items
   * have been gathered, and so is every later one.
   */
  method ItemsByDepth(depths: seq<nat>, byDepth: map<nat, map<string, Ref>>, line: nat, lineLength: nat)
    returns (items: seq<CompletionItem>, ghost keys: seq<string>, ghost taken: nat)
    requires Grouped(depths, byDepth)
    ensures taken <= |depths|
    ensures UnderLimit(depths, byDepth, taken)
    ensures taken < |depths| ==> GroupTotal(byDepth, depths[..taken]) > 10
    ensures Gathered(depths, byDepth, taken, keys, items, line, lineLength)
    ensures StartsEarly(keys)
  {
    items := [];
    keys := [];
    taken := 0;
    for j := 0 to |depths|
      invariant taken <= j
      invariant UnderLimit(depths, byDepth, taken)
      invariant taken < j ==> |items| > 10
      invariant Gathered(depths, byDepth, taken, keys, items, line, lineLength)
      invariant StartsEarly(keys)
    {
      if |items| > 10 {
        continue;
      }
      var group := byDepth[depths[j]];
      var order := RangeOrder(group.Keys);
      var added := seq(|order|, i requires 0 <= i < |order| => PackageItem(group[order[i]], line, lineLength));
      AppendGroup(depths, byDepth, j, keys, items, order, added, line, lineLength);
      UnderLimitStep(depths, byDepth, taken);
      StartsEarlyStep(keys, order, depths[j]);
      items := items + added;
      keys := keys + order;
      taken := taken + 1;
    }
  }

  /** Appending the group of `depths[j]`, in some order, to what the groups before it gathered. */
  lemma AppendGroup(depths: seq<nat>, byDepth: map<nat, map<string, Ref>>, j: nat,
                    keys: seq<string>, items: seq<CompletionItem>, order: seq<string>, added: seq<CompletionItem>,
                    line: nat, lineLength: nat)
    requires Grouped(depths, byDepth) && j < |depths|
    requires Gathered(depths, byDepth, j, keys, items, line, lineLength)
    requires |order| == |byDepth[depths[j]]|
    requires forall k :: k in order <==> k in byDepth[depths[j]]
    requires forall i, i' :: 0 <= i < i' < |order| ==> order[i] != order[i']
    requires |added| == |order| && forall i :: 0 <= i < |order| ==> added[i] == PackageItem(byDepth[depths[j]][order[i]], line, lineLength)
    ensures Gathered(depths, byDepth, j + 1, keys + order, items + added, line, lineLength)
  {
    var d := depths[j];
    assert forall i :: 0 <= i < |order| ==> Depth(order[i]) == d && order[i] in byDepth[d] by {
      forall i | 0 <= i < |order| ensures Depth(order[i]) == d && order[i] in byDepth[d] {
        assert order[i] in order;
      }
    }
    AppendGroupKeys(depths, byDepth, j, keys, order);
    var nk, ni := keys + order, items + added;
    assert |ni| == |nk|;
    assert forall i :: 0 <= i < |nk| ==>
      (Depth(nk[i]) in byDepth && nk[i] in byDepth[Depth(nk[i])]
       && ni[i] == PackageItem(byDepth[Depth(nk[i])][nk[i]], line, lineLength)) by {
      AppendItems(byDepth, d, keys, items, order, added, line, lineLength);
    }
  }

  /** The keys side of AppendGroup: count, membership, order and depth bound. */
  lemma AppendGroupKeys(depths: seq<nat>, byDepth: map<nat, map<string, Ref>>, j: nat, keys: seq<string>, order: seq<string>)
    requires Grouped(depths, byDepth) && j < |depths|
    requires |keys| == GroupTotal(byDepth, depths[..j])
    requires forall k :: k in keys <==> exists g :: 0 <= g < j && k in byDepth[depths[g]]
    requires forall i, i' :: 0 <= i < i' < |keys| ==> keys[i] != keys[i'] && Depth(keys[i]) <= Depth(keys[i'])
    requires forall i :: 0 <= i < |keys| ==> Depth(keys[i]) < depths[j]
    requires |order| == |byDepth[depths[j]]|
    requires forall k :: k in order <==> k in byDepth[depths[j]]
    requires forall i, i' :: 0 <= i < i' < |order| ==> order[i] != order[i']
    requires forall i :: 0 <= i < |order| ==> Depth(order[i]) == depths[j]
    ensures var nk := keys + order;
      && |nk| == GroupTotal(byDepth, depths[..j + 1])
      && (forall k :: k in nk <==> exists g :: 0 <= g < j + 1 && k in byDepth[depths[g]])
      && (forall i, i' :: 0 <= i < i' < |nk| ==> nk[i] != nk[i'] && Depth(nk[i]) <= Depth(nk[i']))
      && (j + 1 < |depths| ==> forall i :: 0 <= i < |nk| ==> Depth(nk[i]) < depths[j + 1])
  {
    var d := depths[j];
    GroupTotalStep(byDepth, depths, j);
    AppendMembers(depths, byDepth, j, keys, order);
    AppendOrdered(keys, order, d);
    if j + 1 < |depths| {
      assert d < depths[j + 1];
      AppendBelow(keys, order, d, depths[j + 1]);
    }
  }

  /** Keys shallower than `d` followed by distinct keys of depth `d` stay distinct and ordered by depth. */
  lemma AppendOrdered(keys: seq<string>, order: seq<string>, d: nat)
    requires forall i, i' :: 0 <= i < i' < |keys| ==> keys[i] != keys[i'] && Depth(keys[i]) <= Depth(keys[i'])
    requires forall i :: 0 <= i < |keys| ==> Depth(keys[i]) < d
    requires forall i :: 0 <= i < |order| ==> Depth(order[i]) == d
    requires forall i, i' :: 0 <= i < i' < |order| ==> order[i] != order[i']
    ensures forall i, i' :: 0 <= i < i' < |keys + order| ==>
      (keys + order)[i] != (keys + order)[i'] && Depth((keys + order)[i]) <= Depth((keys + order)[i'])
  {
    var all := keys + order;
    forall i, i' | 0 <= i < i' < |all|
      ensures all[i] != all[i'] && Depth(all[i]) <= Depth(all[i'])
    {
      if i' < |keys| {
        assert all[i] == keys[i] && all[i'] == keys[i'];
      } else if i < |keys| {
        assert all[i] == keys[i] && all[i'] == order[i' - |keys|];
      } else {
        assert all[i] == order[i - |keys|] && all[i'] == order[i' - |keys|];
      }
    }
  }

  lemma AppendMembers(depths: seq<nat>, byDepth: map<nat, map<string, Ref>>, j: nat, keys: seq<string>, order: seq<string>)
    requires Grouped(depths, byDepth) && j < |depths|
    requires forall k :: k in keys <==> exists g :: 0 <= g < j && k in byDepth[depths[g]]
    requires forall k :: k in order <==> k in byDepth[depths[j]]
    ensures forall k :: k in keys + order <==> exists g :: 0 <= g < j + 1 && k in byDepth[depths[g]]
  {
    forall k
      ensures k in keys + order <==> exists g :: 0 <= g < j + 1 && k in byDepth[depths[g]]
    {
      if k in byDepth[depths[j]] {
        assert k in order;
      }
    }
  }

  lemma AppendBelow(keys: seq<string>, order: seq<string>, d: nat, next: nat)
    requires d < next
    requires forall i :: 0 <= i < |keys| ==> Depth(keys[i]) < d
    requires forall i :: 0 <= i < |order| ==> Depth(order[i]) == d
    ensures forall i :: 0 <= i < |keys + order| ==> Depth((keys + order)[i]) < next
  {
    var all := keys + order;
    forall i | 0 <= i < |all| ensures Depth(all[i]) < next {
      if i < |keys| {
        assert all[i] == keys[i];
      } else {
        assert all[i] == order[i - |keys|];
      }
    }
  }

  lemma AppendItems(byDepth: map<nat, map<string, Ref>>, d: nat, keys: seq<string>, items: seq<CompletionItem>,
                    order: seq<string>, added: seq<CompletionItem>, line: nat, lineLength: nat)
    requires d in byDepth && |items| == |keys| && |added| == |order|
    requires forall i :: 0 <= i < |keys| ==>
      (Depth(keys[i]) in byDepth && keys[i] in byDepth[Depth(keys[i])]
       && items[i] == PackageItem(byDepth[Depth(keys[i])][keys[i]], line, lineLength))
    requires forall i :: 0 <= i < |order| ==> Depth(order[i]) == d && order[i] in byDepth[d]
    requires forall i :: 0 <= i < |order| ==> added[i] == PackageItem(byDepth[d][order[i]], line, lineLength)
    ensures forall i :: 0 <= i < |keys + order| ==>
      (Depth((keys + order)[i]) in byDepth && (keys + order)[i] in byDepth[Depth((keys + order)[i])]
       && (items + added)[i] == PackageItem(byDepth[Depth((keys + order)[i])][(keys + order)[i]], line, lineLength))
  {
    var all := keys + order;
    var its := items + added;
    forall i | 0 <= i < |all|
      ensures Depth(all[i]) in byDepth && all[i] in byDepth[Depth(all[i])]
        && its[i] == PackageItem(byDepth[Depth(all[i])][all[i]], line, lineLength)
    {
      if i < |keys| {
        assert all[i] == keys[i] && its[i] == items[i];
      } else {
        assert all[i] == order[i - |keys|] && its[i] == added[i - |keys|];
      }
    }
  }

  /** The keys this file defines refs for. */
  function ThisFileKeys(allRefs: map<string, map<string, Ref>>, uri: string): set<string> {
    if uri in allRefs then allRefs[uri].Keys else {}
  }

  /** Another file defines a suggestable ref under `key`. */
  ghost predicate FromOtherFile(key: string, allRefs: map<string, map<string, Ref>>, uri: string, thisFile: set<string>, lastWord: string) {
    exists file :: file in allRefs && file != uri && key in allRefs[file] && Suggestable(allRefs[file][key], key, thisFile, lastWord)
  }

  /** A key the provider may offer: suggestable from another file, or a package above one that is. */
  ghost predicate Offered(key: string, allRefs: map<string, map<string, Ref>>, uri: string, thisFile: set<string>, lastWord: string) {
    || FromOtherFile(key, allRefs, uri, thisFile, lastWord)
    || exists k :: IsPartialOf(key, k) && FromOtherFile(k, allRefs, uri, thisFile, lastWord)
  }

  /**
   * `item` is what the provider offers for `key`: the item of a ref another
   * file defines under it when there is one, and otherwise the item of the
   * generated ref of a package that only has suggestable packages below it.
   */
  ghost predicate PackageOffer(key: string, item: CompletionItem, allRefs: map<string, map<string, Ref>>, uri: string,
                               thisFile: set<string>, lastWord: string, line: nat, lineLength: nat) {
    if FromOtherFile(key, allRefs, uri, thisFile, lastWord) then
      exists file :: (file in allRefs && file != uri && key in allRefs[file]
        && Suggestable(allRefs[file][key], key, thisFile, lastWord)
        && item == PackageItem(allRefs[file][key], line, lineLength))
    else
      && (exists k :: IsPartialOf(key, k) && FromOtherFile(k, allRefs, uri, thisFile, lastWord))
      && item == PackageItem(PartialRef(key), line, lineLength)
  }

  /**
   * `found` holds the suggestable refs of the other files, one per key, and
   * `withPartials` adds the generated refs of the packages above them.
   */
  ghost predicate Sourced(found: map<string, Ref>, withPartials: map<string, Ref>,
                          allRefs: map<string, map<string, Ref>>, uri: string, thisFile: set<string>, lastWord: string) {
    && (forall key :: key in found ==> Suggestable(found[key], key, thisFile, lastWord))
    && (forall key :: key in found ==>
          exists file :: file in allRefs && file != uri && key in allRefs[file] && allRefs[file][key] == found[key])
    && (forall file, key ::
          (file in allRefs && file != uri && key in allRefs[file] && Suggestable(allRefs[file][key], key, thisFile, lastWord)) ==> key in found)
    && (forall k :: k in found ==> k in withPartials && withPartials[k] == found[k])
    && (forall p :: p in withPartials && p !in found ==> withPartials[p] == PartialRef(p) && exists k :: k in found && IsPartialOf(p, k))
    && (forall k, p :: k in found && IsPartialOf(p, k) ==> p in withPartials)
  }

  /** The item made from a key's ref in `withPartials` is the one the provider offers for it. */
  lemma SourcedOffer(found: map<string, Ref>, withPartials: map<string, Ref>, allRefs: map<string, map<string, Ref>>,
                     uri: string, thisFile: set<string>, lastWord: string, key: string, line: nat, lineLength: nat)
    requires Sourced(found, withPartials, allRefs, uri, thisFile, lastWord) && key in withPartials
    ensures PackageOffer(key, PackageItem(withPartials[key], line, lineLength), allRefs, uri, thisFile, lastWord, line, lineLength)
  {
    if key in found {
      var file :| file in allRefs && file != uri && key in allRefs[file] && allRefs[file][key] == found[key];
      assert Suggestable(allRefs[file][key], key, thisFile, lastWord);
    } else {
      assert !FromOtherFile(key, allRefs, uri, thisFile, lastWord);
      var k :| k in found && IsPartialOf(key, k);
      var file :| file in allRefs && file != uri && k in allRefs[file] && allRefs[file][k] == found[k];
      assert FromOtherFile(k, allRefs, uri, thisFile, lastWord);
    }
  }

  /** Every key the provider may offer has a ref in `withPartials`. */
  lemma SourcedComplete(found: map<string, Ref>, withPartials: map<string, Ref>, allRefs: map<string, map<string, Ref>>,
                        uri: string, thisFile: set<string>, lastWord: string, key: string)
    requires Sourced(found, withPartials, allRefs, uri, thisFile, lastWord)
    requires Offered(key, allRefs, uri, thisFile, lastWord)
    ensures key in withPartials
  {
    if !FromOtherFile(key, allRefs, uri, thisFile, lastWord) {
      var k :| IsPartialOf(key, k) && FromOtherFile(k, allRefs, uri, thisFile, lastWord);
      assert k in found;
    }
  }

  /**
   * A key of a bucket is taken unless the groups before its own gathered
   * more than ten items, all of them shallower.
   */
  lemma GroupedComplete(depths: seq<nat>, byDepth: map<nat, map<string, Ref>>, taken: nat,
                        keys: seq<string>, items: seq<CompletionItem>, line: nat, lineLength: nat, k: string)
    requires Grouped(depths, byDepth) && taken <= |depths|
    requires Gathered(depths, byDepth, taken, keys, items, line, lineLength)
    requires taken < |depths| ==> GroupTotal(byDepth, depths[..taken]) > 10
    requires Depth(k) in depths && k in byDepth[Depth(k)]
    ensures k in keys || (|keys| > 10 && forall i :: 0 <= i < |keys| ==> Depth(keys[i]) < Depth(k))
  {
    var g :| 0 <= g < |depths| && depths[g] == Depth(k);
    if g >= taken {
      assert taken == g || depths[taken] < depths[g];
    }
  }

  /**
   * The body of PackageRefs.Run past its checks: the suggestable refs of the
   * other files and the packages above them, grouped by depth and taken
   * whole groups at a time until more than ten items have been gathered.
   */
  method Suggest(allRefs: map<string, map<string, Ref>>, uri: string, thisFile: set<string>, lastWord: string,
                 line: nat, lineLength: nat)
    returns (items: seq<CompletionItem>, ghost keys: seq<string>)
    ensures |items| == |keys|
    ensures forall i, j :: 0 <= i < j < |keys| ==> keys[i] != keys[j] && Depth(keys[i]) <= Depth(keys[j])
    ensures forall i :: 0 <= i < |keys| ==> PackageOffer(keys[i], items[i], allRefs, uri, thisFile, lastWord, line, lineLength)
    ensures forall k :: Offered(k, allRefs, uri, thisFile, lastWord) && k !in keys ==>
      |keys| > 10 && forall i :: 0 <= i < |keys| ==> Depth(keys[i]) < Depth(k)
    ensures StartsEarly(keys)
  {
    var found := FilterOtherFiles(allRefs, uri, (key, ref) => Suggestable(ref, key, thisFile, lastWord));
    var withPartials := AddPartialKeys(found);
    var depths, byDepth := GroupKeyedRefsByDepth(withPartials);
    ghost var taken;
    items, keys, taken := ItemsByDepth(depths, byDepth, line, lineLength);
    assert Sourced(found, withPartials, allRefs, uri, thisFile, lastWord);
    forall i | 0 <= i < |keys|
      ensures PackageOffer(keys[i], items[i], allRefs, uri, thisFile, lastWord, line, lineLength)
    {
      assert keys[i] in byDepth[Depth(keys[i])];
      SourcedOffer(found, withPartials, allRefs, uri, thisFile, lastWord, keys[i], line, lineLength);
    }
    forall k | Offered(k, allRefs, uri, thisFile, lastWord) && k !in keys
      ensures |keys| > 10 && forall i :: 0 <= i < |keys| ==> Depth(keys[i]) < Depth(k)
    {
      SourcedComplete(found, withPartials, allRefs, uri, thisFile, lastWord, k);
      GroupedComplete(depths, byDepth, taken, keys, items, line, lineLength, k);
    }
  }

  /**
   * PackageRefs.Run: nothing on an empty line or past the end of the file;
   * no answer (nil) on a line that does not start with `import `; otherwise
   * the package items, shallowest first, whole depth groups at a time until
   * more than ten have been gathered: every key suggestable from another
   * file, or a package above one that is, is offered unless the shallower
   * groups already filled the list.  The edit runs from column 7 to the
   * line's length in bytes.
   */
  method Run(files: map<string, string>, allRefs: map<string, map<string, Ref>>, uri: string, pos: Position)
    returns (r: Option<seq<CompletionItem>>, ghost keys: seq<string>)
    ensures var (lines, line) := CompletionLineHelper(files, uri, pos.line);
      && (|lines| < 1 || line == "" ==> r == Some([]))
      && (|lines| >= 1 && line != "" && !HasPrefix(line, "import ") ==> r == None)
    ensures r.Some? ==> |r.value| == |keys|
    ensures r.Some? ==> forall i, j :: 0 <= i < j < |keys| ==> keys[i] != keys[j] && Depth(keys[i]) <= Depth(keys[j])
    ensures var (lines, line) := CompletionLineHelper(files, uri, pos.line);
      var lastWord := LastSpaceWord(line);
      var thisFile := ThisFileKeys(allRefs, uri);
      |lines| >= 1 && line != "" && HasPrefix(line, "import ") ==>
        && r.Some?
        && (forall i :: 0 <= i < |keys| ==>
              PackageOffer(keys[i], r.value[i], allRefs, uri, thisFile, lastWord, pos.line, Utf8.ByteLen(line)))
        && (forall k :: Offered(k, allRefs, uri, thisFile, lastWord) && k !in keys ==>
              |keys| > 10 && forall i :: 0 <= i < |keys| ==> Depth(keys[i]) < Depth(k))
        && StartsEarly(keys)
  {
    var (lines, line) := CompletionLineHelper(files, uri, pos.line);
    keys := [];
    if |lines| < 1 || line == "" {
      return Some([]), keys;
    }
    if !HasPrefix(line, "import ") {
      return None, keys;
    }
    var items;
    items, keys := Suggest(allRefs, uri, ThisFileKeys(allRefs, uri), LastSpaceWord(line), pos.line, Utf8.ByteLen(line));
    r := Some(items);
  }
}
