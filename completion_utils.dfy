/**
 * What the completion providers share (internal/lsp/completions/providers/utils.go):
 * the completion item and ref types they exchange, the split of a line into
 * words at runs of white space, the lookup of the line under the cursor,
 * the grouping of refs by depth, and the start of the word before the
 * cursor.
 */
module CompletionUtils {
  import opened Wrappers
  import opened GoStrings
  import opened LspTypes
  import Utf8

  /** The kinds of ref the providers tell apart. */
  datatype RefKind = PackageRef | RuleRef | ConstantRuleRef | FunctionRef

  /** A ref the cache knows about: its label, its description and its kind. */
  datatype Ref = Ref(labelText: string, description: string, kind: RefKind)

  /** The completion item kinds the providers use (CompletionItemKind of the Language Server Protocol 3.17). */
  datatype ItemKind = FunctionKind | VariableKind | ModuleKind | KeywordKind | ConstantKind

  /**
   * A completion item. `mandatory` asks that the item be offered alone,
   * `regal` is metadata for the manager only; neither is sent to the client.
   */
  datatype CompletionItem = CompletionItem(
    labelText: string,
    kind: ItemKind,
    detail: string,
    documentation: Option<string>,
    textEdit: Option<TextEdit>,
    mandatory: bool,
    regal: Option<string>)

  /** The regexp `^\s+` matches: the line starts with white space. */
  predicate StartsWithSpace(line: string) {
    |line| > 0 && IsRegexpSpace(line[0])
  }

  /** The index of the first white-space character, or the length when there is none. */
  function FirstSpace(s: string): (i: nat)
    ensures i <= |s|
    ensures forall k :: 0 <= k < i ==> !IsRegexpSpace(s[k])
    ensures i < |s| ==> IsRegexpSpace(s[i])
  {
    if |s| == 0 || IsRegexpSpace(s[0]) then 0 else 1 + FirstSpace(s[1..])
  }

  /** `s` without its leading run of white space. */
  function SkipSpaces(s: string): (r: string)
    ensures |r| <= |s| && r == s[|s| - |r|..]
    ensures |r| > 0 ==> !IsRegexpSpace(r[0])
    ensures forall k :: 0 <= k < |s| - |r| ==> IsRegexpSpace(s[k])
  {
    if |s| > 0 && IsRegexpSpace(s[0]) then SkipSpaces(s[1..]) else s
  }

  /**
   * Split(s, -1) of the regexp `\s+`: the pieces between maximal runs of
   * white space, with an empty first piece when `s` starts with white
   * space and an empty last one when it ends with it.
   */
  function SplitWhiteSpace(s: string): (r: seq<string>)
    ensures |r| >= 1
    decreases |s|
  {
    var i := FirstSpace(s);
    if i == |s| then [s]
    else [s[..i]] + SplitWhiteSpace(SkipSpaces(s[i..]))
  }

  /** Text without white space is one word. */
  predicate IsWord(w: string) {
    forall k :: 0 <= k < |w| ==> !IsRegexpSpace(w[k])
  }

  /** A word followed by white space: the word, then the words after the white space. */
  lemma SplitWordThen(w: string, rest: string)
    requires IsWord(w) && |rest| > 0 && IsRegexpSpace(rest[0])
    ensures SplitWhiteSpace(w + rest) == [w] + SplitWhiteSpace(SkipSpaces(rest))
  {
    var s := w + rest;
    var i := FirstSpace(s);
    assert s[|w|] == rest[0];
    assert forall k :: 0 <= k < |w| ==> !IsRegexpSpace(s[k]) by {
      assert forall k :: 0 <= k < |w| ==> s[k] == w[k];
    }
    assert i == |w|;
    assert s[..i] == w;
    assert s[i..] == rest;
  }

  /** Text without white space splits into itself alone. */
  lemma SplitWord(w: string)
    requires IsWord(w)
    ensures SplitWhiteSpace(w) == [w]
  {
  }

  /** A word, white space, and a second word split into the two words. */
  lemma SplitTwoWords(w: string, p: string)
    requires IsWord(w) && IsWord(p)
    ensures SplitWhiteSpace(w + " " + p) == [w, p]
  {
    SplitWordSpace(w, p);
    SplitWord(p);
  }

  /** A word, one space, and text that does not start with white space: the word, then the words of that text. */
  lemma SplitWordSpace(w: string, j: string)
    requires IsWord(w) && (j == "" || !IsRegexpSpace(j[0]))
    ensures SplitWhiteSpace(w + " " + j) == [w] + SplitWhiteSpace(j)
  {
    assert (" " + j)[1..] == j;
    assert SkipSpaces(" " + j) == j;
    assert w + " " + j == w + (" " + j);
    SplitWordThen(w, " " + j);
  }

  /** Joined words start with the first word's first character. */
  lemma JoinHead(words: seq<string>)
    requires |words| >= 2 && words[0] != ""
    ensures Join(words, " ")[0] == words[0][0]
  {
  }

  /**
   * Words joined with single spaces split back into the same words, as long
   * as no word but the first and the last is empty.
   */
  lemma {:induction false} SplitJoinedWords(words: seq<string>)
    requires |words| >= 1
    requires forall i :: 0 <= i < |words| ==> IsWord(words[i])
    requires forall i :: 0 < i < |words| - 1 ==> words[i] != ""
    ensures SplitWhiteSpace(Join(words, " ")) == words
    decreases |words|
  {
    var w0 := words[0];
    assert IsWord(w0);
    if |words| == 1 {
      SplitWord(w0);
    } else {
      var rest := words[1..];
      var j := Join(rest, " ");
      var sr := SplitWhiteSpace(j);
      assert sr == rest by {
        SplitJoinedWords(rest);
      }
      assert j == "" || !IsRegexpSpace(j[0]) by {
        if |rest| >= 2 {
          JoinHead(rest);
          assert IsWord(words[1]) && words[1] != "";
        } else {
          assert j == words[1] && IsWord(words[1]);
        }
      }
      assert Join(words, " ") == w0 + " " + j;
      SplitWordSpace(w0, j);
      assert [w0] + rest == words;
    }
  }

  /** `s` with its white space dropped. */
  function NonSpace(s: string): string {
    if |s| == 0 then ""
    else (if IsRegexpSpace(s[0]) then "" else [s[0]]) + NonSpace(s[1..])
  }

  lemma {:induction false} NonSpaceAppend(s: string, t: string)
    ensures NonSpace(s + t) == NonSpace(s) + NonSpace(t)
    decreases |s|
  {
    if |s| > 0 {
      assert (s + t)[1..] == s[1..] + t;
      NonSpaceAppend(s[1..], t);
    } else {
      assert s + t == t;
    }
  }

  lemma {:induction false} NonSpaceOfSpaces(s: string, n: nat)
    requires n <= |s| && forall k :: 0 <= k < n ==> IsRegexpSpace(s[k])
    ensures NonSpace(s) == NonSpace(s[n..])
    decreases n
  {
    if n > 0 {
      NonSpaceOfSpaces(s[1..], n - 1);
      assert s[1..][n - 1..] == s[n..];
    }
  }

  lemma {:induction false} NonSpaceOfWord(s: string)
    requires forall k :: 0 <= k < |s| ==> !IsRegexpSpace(s[k])
    ensures NonSpace(s) == s
    decreases |s|
  {
    if |s| > 0 {
      NonSpaceOfWord(s[1..]);
      assert s == [s[0]] + s[1..];
    }
  }

  /** A first stretch without white space is kept whole. */
  lemma {:induction false} NonSpaceFirstWord(s: string, i: nat)
    requires i <= |s| && forall k :: 0 <= k < i ==> !IsRegexpSpace(s[k])
    ensures NonSpace(s) == s[..i] + NonSpace(s[i..])
    decreases i
  {
    if i == 0 {
      assert s[..0] == "" && s[0..] == s;
    } else {
      NonSpaceFirstWord(s[1..], i - 1);
      assert s[..i] == [s[0]] + s[1..][..i - 1];
      assert s[1..][i - 1..] == s[i..];
    }
  }

  /** The words hold every character but the white space, in order: splitting loses only the separators. */
  lemma {:induction false} WordsKeepText(s: string)
    ensures Concat(SplitWhiteSpace(s)) == NonSpace(s)
    decreases |s|
  {
    var i := FirstSpace(s);
    if i == |s| {
      NonSpaceOfWord(s);
      assert Concat([s]) == s + Concat([]);
    } else {
      var rest := SkipSpaces(s[i..]);
      var words := SplitWhiteSpace(rest);
      WordsKeepText(rest);
      NonSpaceFirstWord(s, i);
      NonSpaceOfSpaces(s[i..], |s[i..]| - |rest|);
      assert Concat([s[..i]] + words) == s[..i] + Concat(words) by {
        ConcatAppend([s[..i]], words);
        assert Concat([s[..i]]) == s[..i] + Concat([]);
      }
    }
  }

  /** No word holds white space. */
  lemma {:induction false} WordsHaveNoSpace(s: string)
    ensures forall w, k :: w in SplitWhiteSpace(s) && 0 <= k < |w| ==> !IsRegexpSpace(w[k])
    decreases |s|
  {
    var i := FirstSpace(s);
    if i < |s| {
      WordsHaveNoSpace(SkipSpaces(s[i..]));
    }
  }

  /** The first word is empty exactly when the text is empty or starts with white space. */
  lemma FirstWordEmpty(s: string)
    ensures SplitWhiteSpace(s)[0] == "" <==> s == "" || IsRegexpSpace(s[0])
  {
  }

  /** The words of text with white space in it: the first word, then the words after the run of white space. */
  lemma SplitStep(s: string)
    requires FirstSpace(s) < |s|
    ensures SplitWhiteSpace(s) == [s[..FirstSpace(s)]] + SplitWhiteSpace(SkipSpaces(s[FirstSpace(s)..]))
  {
  }

  /** The last of some words. */
  function LastWord(r: seq<string>): string
    requires |r| > 0
  {
    r[|r| - 1]
  }

  /**
   * Text that starts with white space ends with it exactly when what is
   * left after its leading run of white space is empty or ends with it.
   */
  lemma EndsWithSpaceAfterRun(t: string, rest: string)
    requires |t| > 0 && IsRegexpSpace(t[0])
    requires |rest| <= |t| && rest == t[|t| - |rest|..]
    requires forall k :: 0 <= k < |t| - |rest| ==> IsRegexpSpace(t[k])
    ensures (rest == "" || IsRegexpSpace(rest[|rest| - 1])) <==> IsRegexpSpace(t[|t| - 1])
  {
    if rest != "" {
      assert rest[|rest| - 1] == t[|t| - 1];
    }
  }

  /** A word put in front does not change the last word. */
  lemma LastOfCons(x: string, words: seq<string>)
    requires |words| > 0
    ensures LastWord([x] + words) == LastWord(words)
  {
  }

  /** The last word is empty exactly when the text is empty or ends with white space. */
  lemma {:induction false} LastWordEmpty(s: string)
    ensures LastWord(SplitWhiteSpace(s)) == "" <==> s == "" || IsRegexpSpace(s[|s| - 1])
    decreases |s|
  {
    var i := FirstSpace(s);
    if i < |s| {
      var t := s[i..];
      var rest := SkipSpaces(t);
      var words := SplitWhiteSpace(rest);
      LastWordEmpty(rest);
      assert LastWord(SplitWhiteSpace(s)) == LastWord(words) by {
        SplitStep(s);
        LastOfCons(s[..i], words);
      }
      EndsWithSpaceAfterRun(t, rest);
      assert s[|s| - 1] == t[|t| - 1];
    } else {
      assert SplitWhiteSpace(s) == [s];
      assert s != "" ==> !IsRegexpSpace(s[|s| - 1]);
    }
  }


  /** There are at least two words exactly when the text holds white space. */
  lemma SeveralWords(s: string)
    ensures |SplitWhiteSpace(s)| >= 2 <==> exists k :: 0 <= k < |s| && IsRegexpSpace(s[k])
  {
    var i := FirstSpace(s);
    if i < |s| {
      assert IsRegexpSpace(s[i]);
    }
  }

  /**
   * completionLineHelper: the lines of the file as the cache holds it and
   * the line under the cursor, which is "" past the end of the file; a file
   * the cache does not hold has no lines.
   */
  function CompletionLineHelper(files: map<string, string>, uri: string, line: nat): (r: (seq<string>, string))
    ensures uri !in files ==> r == ([], "")
    ensures uri in files ==> |r.0| >= 1 && Join(r.0, "\n") == files[uri]
    ensures uri in files && line < |r.0| ==> r.1 == r.0[line]
    ensures line >= |r.0| ==> r.1 == ""
    ensures '\n' !in r.1
  {
    if uri !in files then ([], "")
    else
      var lines := Split(files[uri], '\n');
      JoinSplit(files[uri], '\n');
      SplitPieces(files[uri], '\n');
      (lines, if line < |lines| then lines[line] else "")
  }

  /**
   * The keys of a Go map in the order a `range` loop visits them: each key
   * once, in an order the model leaves open.
   */
  method RangeOrder<K>(keys: set<K>) returns (order: seq<K>)
    ensures |order| == |keys|
    ensures forall k :: k in order <==> k in keys
    ensures forall i, j :: 0 <= i < j < |order| ==> order[i] != order[j]
  {
    order := [];
    var left := keys;
    while left != {}
      invariant left <= keys
      invariant |order| + |left| == |keys|
      invariant forall k :: k in order <==> k in keys && k !in left
      invariant forall i, j :: 0 <= i < j < |order| ==> order[i] != order[j]
      decreases |left|
    {
      var k :| k in left;
      order := order + [k];
      left := left - {k};
    }
  }

  /** What follows the last space of the line: the last piece of strings.Split(line, " "). */
  function LastSpaceWord(line: string): (r: string)
    ensures ' ' !in r
  {
    var words := Split(line, ' ');
    SplitPieces(line, ' ');
    words[|words| - 1]
  }

  /** The refs of one file merged into `m`: those `keep` accepts overwrite, the rest leave `m` alone. */
  method MergeFile(m: map<string, Ref>, refs: map<string, Ref>, keep: (string, Ref) -> bool)
    returns (m': map<string, Ref>)
    ensures forall key :: key in m' <==> key in m || (key in refs && keep(key, refs[key]))
    ensures forall key :: key in refs && keep(key, refs[key]) ==> m'[key] == refs[key]
    ensures forall key :: key in m && !(key in refs && keep(key, refs[key])) ==> m'[key] == m[key]
  {
    m' := m;
    var left := refs.Keys;
    while left != {}
      invariant left <= refs.Keys
      invariant forall key :: key in m' <==> key in m || (key in refs && key !in left && keep(key, refs[key]))
      invariant forall key :: key in refs && key !in left && keep(key, refs[key]) ==> m'[key] == refs[key]
      invariant forall key :: key in m && !(key in refs && key !in left && keep(key, refs[key])) ==> m'[key] == m[key]
      decreases |left|
    {
      var key :| key in left;
      if keep(key, refs[key]) {
        m' := m'[key := refs[key]];
      }
      left := left - {key};
    }
  }

  /**
   * The refs of every file but `uri` that `keep` accepts, keyed by ref key
   * (the nested range over the cache's refs of all files); when two files
   * define the same key, which one wins is left open, as Go's map order
   * leaves it.
   */
  method FilterOtherFiles(allRefs: map<string, map<string, Ref>>, uri: string, keep: (string, Ref) -> bool)
    returns (m: map<string, Ref>)
    ensures forall key :: key in m ==> keep(key, m[key])
    ensures forall key :: key in m ==> exists file :: file in allRefs && file != uri && key in allRefs[file] && allRefs[file][key] == m[key]
    ensures forall file, key ::
      (file in allRefs && file != uri && key in allRefs[file] && keep(key, allRefs[file][key])) ==> key in m
  {
    m := map[];
    var files := allRefs.Keys;
    while files != {}
      invariant files <= allRefs.Keys
      invariant forall key :: key in m ==> keep(key, m[key])
      invariant forall key :: key in m ==> exists file :: file in allRefs && file != uri && key in allRefs[file] && allRefs[file][key] == m[key]
      invariant forall file, key ::
        (file in allRefs && file !in files && file != uri && key in allRefs[file] && keep(key, allRefs[file][key])) ==> key in m
      decreases |files|
    {
      var file :| file in files;
      if file != uri {
        var before := m;
        m := MergeFile(m, allRefs[file], keep);
        forall key | key in m
          ensures exists f :: f in allRefs && f != uri && key in allRefs[f] && allRefs[f][key] == m[key]
        {
          if key in allRefs[file] && keep(key, allRefs[file][key]) {
            assert allRefs[file][key] == m[key];
          } else {
            assert m[key] == before[key];
          }
        }
      }
      files := files - {file};
    }
  }

  /** A ref's depth: the number of dots in its key. */
  function Depth(key: string): nat {
    CountChar(key, '.')
  }

  predicate Increasing(s: seq<nat>) {
    forall i, j :: 0 <= i < j < |s| ==> s[i] < s[j]
  }

  /** `d` put between the smaller and the larger elements keeps the sequence increasing. */
  lemma InsertedIncreasing(s: seq<nat>, k: nat, d: nat)
    requires Increasing(s) && k <= |s|
    requires forall i :: 0 <= i < k ==> s[i] < d
    requires forall i :: k <= i < |s| ==> d < s[i]
    ensures Increasing(s[..k] + [d] + s[k..])
    ensures forall x :: x in s[..k] + [d] + s[k..] <==> x in s || x == d
  {
    var r := s[..k] + [d] + s[k..];
    assert forall i :: 0 <= i < |r| ==> r[i] == if i < k then s[i] else if i == k then d else s[i - 1];
    assert s == s[..k] + s[k..];
  }

  /** Puts `d` into an increasing sequence that does not hold it yet. */
  method InsertIncreasing(s: seq<nat>, d: nat) returns (r: seq<nat>)
    requires Increasing(s) && d !in s
    ensures Increasing(r)
    ensures forall x :: x in r <==> x in s || x == d
  {
    var k := 0;
    while k < |s| && s[k] < d
      invariant 0 <= k <= |s|
      invariant forall i :: 0 <= i < k ==> s[i] < d
    {
      k := k + 1;
    }
    assert forall i :: k <= i < |s| ==> d < s[i] by {
      forall i | k <= i < |s| ensures d < s[i] {
        assert s[k] != d && !(s[k] < d);
        assert i == k || s[k] < s[i];
      }
    }
    InsertedIncreasing(s, k, d);
    r := s[..k] + [d] + s[k..];
  }

  /** Every ref outside `remaining` sits in the bucket of its depth, the buckets hold nothing else and none is empty. */
  predicate Bucketed(refs: map<string, Ref>, byDepth: map<nat, map<string, Ref>>, remaining: set<string>) {
    && (forall key :: key in refs && key !in remaining ==>
          Depth(key) in byDepth && key in byDepth[Depth(key)] && byDepth[Depth(key)][key] == refs[key])
    && (forall d, key :: d in byDepth && key in byDepth[d] ==> key in refs && key !in remaining && Depth(key) == d)
    && (forall d :: d in byDepth ==> |byDepth[d]| > 0)
  }

  /** Putting one more ref into the bucket of its depth keeps the buckets right. */
  lemma BucketOne(refs: map<string, Ref>, byDepth: map<nat, map<string, Ref>>, remaining: set<string>, key: string)
    requires remaining <= refs.Keys && key in remaining && Bucketed(refs, byDepth, remaining)
    ensures var d := Depth(key);
            var bucket := if d in byDepth then byDepth[d] else map[];
            Bucketed(refs, byDepth[d := bucket[key := refs[key]]], remaining - {key})
  {
    var d := Depth(key);
    var bucket := if d in byDepth then byDepth[d] else map[];
    var b := byDepth[d := bucket[key := refs[key]]];
    var r := remaining - {key};
    forall k | k in refs && k !in r
      ensures Depth(k) in b && k in b[Depth(k)] && b[Depth(k)][k] == refs[k]
    {
      if k != key {
        assert Depth(k) in byDepth && k in byDepth[Depth(k)];
      }
    }
    forall e, k | e in b && k in b[e]
      ensures k in refs && k !in r && Depth(k) == e
    {
      if e == d && k in bucket {
        assert k in byDepth[d];
      }
    }
    assert key in b[d];
  }

  /** The depths of the refs, each ref in the bucket of its depth, in map order. */
  method BucketByDepth(refs: map<string, Ref>) returns (byDepth: map<nat, map<string, Ref>>)
    ensures forall key :: key in refs ==> Depth(key) in byDepth && key in byDepth[Depth(key)] && byDepth[Depth(key)][key] == refs[key]
    ensures forall d, key :: d in byDepth && key in byDepth[d] ==> key in refs && Depth(key) == d
    ensures forall d :: d in byDepth ==> |byDepth[d]| > 0
  {
    byDepth := map[];
    var remaining := refs.Keys;
    while remaining != {}
      invariant remaining <= refs.Keys
      invariant Bucketed(refs, byDepth, remaining)
      decreases |remaining|
    {
      var key :| key in remaining;
      var d := Depth(key);
      var bucket := if d in byDepth then byDepth[d] else map[];
      BucketOne(refs, byDepth, remaining, key);
      byDepth := byDepth[d := bucket[key := refs[key]]];
      remaining := remaining - {key};
    }
  }

  /** The elements of a finite set of depths, increasing (slices.Sort on distinct keys). */
  method SortedDepths(keys: set<nat>) returns (depths: seq<nat>)
    ensures Increasing(depths) && forall d :: d in depths <==> d in keys
  {
    depths := [];
    var left := keys;
    while left != {}
      invariant left <= keys
      invariant Increasing(depths)
      invariant forall d :: d in depths <==> d in keys && d !in left
      decreases |left|
    {
      var d :| d in left;
      depths := InsertIncreasing(depths, d);
      left := left - {d};
    }
  }

  /**
   * groupKeyedRefsByDepth: every ref lands in the bucket of its depth, the
   * buckets hold nothing else and none is empty, and the depths come back
   * in increasing order, each once.
   */
  method GroupKeyedRefsByDepth(refs: map<string, Ref>) returns (depths: seq<nat>, byDepth: map<nat, map<string, Ref>>)
    ensures forall key :: key in refs ==> Depth(key) in byDepth && key in byDepth[Depth(key)] && byDepth[Depth(key)][key] == refs[key]
    ensures forall d, key :: d in byDepth && key in byDepth[d] ==> key in refs && Depth(key) == d
    ensures forall d :: d in byDepth ==> |byDepth[d]| > 0
    ensures Increasing(depths) && forall d :: d in depths <==> d in byDepth
  {
    byDepth := BucketByDepth(refs);
    depths := SortedDepths(byDepth.Keys);
  }

  /**
   * The start of the word before the cursor as the providers compute it:
   * `character - uint(len(word))`, the word's length in bytes, which wraps
   * when the word is longer than the cursor's offset.
   */
  function EditStartAsWritten(character: nat, word: string): nat {
    Uint(character - Utf8.ByteLen(word))
  }

  /** The start of the word before the cursor, `len(word)` bytes back, never before the line's start. */
  function EditStart(character: nat, word: string): (r: nat)
    ensures r <= character
    ensures Utf8.ByteLen(word) <= character ==> r + Utf8.ByteLen(word) == character
    ensures Utf8.ByteLen(word) > character ==> r == 0
  {
    if Utf8.ByteLen(word) <= character then character - Utf8.ByteLen(word) else 0
  }

  /** The two agree whenever the word fits before the cursor. */
  lemma EditStartAgrees(character: nat, word: string)
    requires Utf8.ByteLen(word) <= character < MaxUint
    ensures EditStartAsWritten(character, word) == EditStart(character, word)
  {
  }

  /** A word longer than the cursor's offset makes the computed start wrap to just below 2^64. */
  lemma EditStartWraps(character: nat, word: string)
    requires character < Utf8.ByteLen(word) < MaxUint
    ensures EditStartAsWritten(character, word) == MaxUint - (Utf8.ByteLen(word) - character)
    ensures EditStartAsWritten(character, word) > character
  {
  }
}
