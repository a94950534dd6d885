/**
 * The fixer of pkg/fixer/fixer.go: fixes registered by name, either as
 * regular fixes (run when the linter reports their violation) or as
 * mandatory ones (run on every file), and the mandatory pass that repeats
 * until it changes nothing.  A fix's behaviour is the function `apply`,
 * given the registered implementation, the candidate file and the roots.
 */
module Fixer {
  import opened Wrappers
  import opened Utf8
  import opened FixTypes
  import opened FixerReport
  import opened InMemoryProvider

  /** A fix: its name and its implementation. */
  datatype Fix<T> = Fix(name: string, impl: T)

  /** The names of the first `i` fixes. */
  ghost function NamesBefore<T>(fixes: seq<Fix<T>>, i: nat): set<string>
    requires i <= |fixes|
  {
    set k | 0 <= k < i :: fixes[k].name
  }

  ghost function Names<T>(fixes: seq<Fix<T>>): set<string> {
    NamesBefore(fixes, |fixes|)
  }

  lemma NamesStep<T>(fixes: seq<Fix<T>>, i: nat)
    requires i < |fixes|
    ensures NamesBefore(fixes, i + 1) == NamesBefore(fixes, i) + {fixes[i].name}
  {
  }

  /** fixes[k] is the last of the first `i` fixes registered under its name. */
  ghost predicate LastBefore<T>(fixes: seq<Fix<T>>, k: nat, i: nat)
    requires k < i <= |fixes|
  {
    forall j :: k < j < i ==> fixes[j].name != fixes[k].name
  }

  /**
   * `m` is `m0` after registering the first `i` fixes by name, the last of
   * a name winning, except those whose name is excluded: exactly their
   * names are added, each holds the last fix of its name, and the other
   * entries keep their values.
   */
  ghost predicate RegisteredUpTo<T>(m0: map<string, T>, m: map<string, T>, fixes: seq<Fix<T>>, i: nat, excluded: set<string>)
    requires i <= |fixes|
  {
    && m.Keys == m0.Keys + (NamesBefore(fixes, i) - excluded)
    && (forall k: nat :: k < i && fixes[k].name !in excluded && LastBefore(fixes, k, i) ==> m[fixes[k].name] == fixes[k].impl)
    && (forall n :: n in m0 && n !in NamesBefore(fixes, i) ==> m[n] == m0[n])
  }

  /** RegisteredUpTo for all the fixes. */
  ghost predicate Registered<T>(m0: map<string, T>, m: map<string, T>, fixes: seq<Fix<T>>, excluded: set<string>) {
    RegisteredUpTo(m0, m, fixes, |fixes|, excluded)
  }

  /** Registering one more fix extends RegisteredUpTo by one. */
  lemma RegisterStep<T>(m0: map<string, T>, m: map<string, T>, m': map<string, T>, fixes: seq<Fix<T>>, i: nat, excluded: set<string>)
    requires i < |fixes|
    requires RegisteredUpTo(m0, m, fixes, i, excluded)
    requires m' == if fixes[i].name in excluded then m else m[fixes[i].name := fixes[i].impl]
    ensures RegisteredUpTo(m0, m', fixes, i + 1, excluded)
  {
    NamesStep(fixes, i);
    forall k: nat | k < i + 1 && fixes[k].name !in excluded && LastBefore(fixes, k, i + 1)
      ensures m'[fixes[k].name] == fixes[k].impl
    {
      if k < i {
        assert LastBefore(fixes, k, i);
        assert fixes[k].name != fixes[i].name;
      }
    }
  }

  /** A fix leaves a file as it is: it succeeds and every result holds the file's own contents. */
  ghost predicate Unchanged(results: Result<seq<FixResult>>, contents: seq<Byte>) {
    results.Ok? && forall k :: 0 <= k < |results.value| ==> Encode(results.value[k].contents) == contents
  }

  /** Every mandatory fix leaves every file as it is. */
  ghost predicate Settled<T>(
    apply: (T, FixCandidate, seq<string>) -> Result<seq<FixResult>>,
    mandatory: map<string, T>, files: map<string, seq<Byte>>, roots: seq<string>)
  {
    forall file, name :: file in files && name in mandatory ==>
      Unchanged(apply(mandatory[name], FixCandidate(file, Decode(files[file])), roots), files[file])
  }

  /** The elements among the first `i` of `s` that `keep` holds of, in order. */
  function KeptBefore<T>(s: seq<T>, keep: T -> bool, i: nat): seq<T>
    requires i <= |s|
  {
    if i == 0 then []
    else KeptBefore(s, keep, i - 1) + if keep(s[i - 1]) then [s[i - 1]] else []
  }

  /** What KeptBefore keeps: exactly the elements `keep` holds of, none when it holds of none. */
  lemma {:induction false} KeptBeforeMeaning<T>(s: seq<T>, keep: T -> bool, i: nat)
    requires i <= |s|
    ensures |KeptBefore(s, keep, i)| <= i
    ensures forall x :: x in KeptBefore(s, keep, i) <==> x in s[..i] && keep(x)
    ensures |KeptBefore(s, keep, i)| == 0 <==> forall k :: 0 <= k < i ==> !keep(s[k])
  {
    if i > 0 {
      KeptBeforeMeaning(s, keep, i - 1);
      assert s[..i] == s[..i - 1] + [s[i - 1]];
    }
  }

  /** Whether a result's contents differ from the file's contents `fc`. */
  function Differs(fc: seq<Byte>): FixResult -> bool {
    (x: FixResult) => Encode(x.contents) != fc
  }

  /** The first `i` results of one fix, kept where their contents differ from the file's contents `fc`. */
  function DifferingBefore(fc: seq<Byte>, results: seq<FixResult>, i: nat): seq<FixResult>
    requires i <= |results|
  {
    KeptBefore(results, Differs(fc), i)
  }

  /** The results of one fix whose contents differ from the file's contents `fc`, in order. */
  function Differing(fc: seq<Byte>, results: seq<FixResult>): (r: seq<FixResult>)
    ensures |r| <= |results|
    ensures forall x :: x in r <==> x in results && Encode(x.contents) != fc
    ensures |r| == 0 <==> forall k :: 0 <= k < |results| ==> Encode(results[k].contents) == fc
  {
    KeptBeforeMeaning(results, Differs(fc), |results|);
    assert results[..|results|] == results;
    DifferingBefore(fc, results, |results|)
  }

  /** What a file holding `fc` holds after the results `written` are written to it in order. */
  function Holds(fc: seq<Byte>, written: seq<FixResult>): seq<Byte> {
    if |written| == 0 then fc else Encode(written[|written| - 1].contents)
  }

  /**
   * Writes, in order, the results of one fix that differ from the file's
   * contents `fc`; the last one written is what the file then holds.
   */
  method ApplyResults(p: InMemoryFileProvider, file: string, fc: seq<Byte>, results: seq<FixResult>)
    returns (written: seq<FixResult>)
    requires p.Valid() && file in p.files && p.files[file] == fc
    modifies p
    ensures p.Valid()
    ensures written == Differing(fc, results)
    ensures p.files == old(p.files)[file := Holds(fc, written)]
    ensures |written| == 0 ==> p.files == old(p.files)
  {
    written := [];
    var i := 0;
    while i < |results|
      invariant 0 <= i <= |results|
      invariant p.Valid()
      invariant written == DifferingBefore(fc, results, i)
      invariant p.files == old(p.files)[file := Holds(fc, written)]
    {
      written := WriteResult(p, file, fc, results, i, written);
      i := i + 1;
    }
    if |written| == 0 {
      assert old(p.files)[file := fc] == old(p.files);
    }
  }

  /** The body of ApplyResults' loop: the i-th result is written if it differs from `fc`. */
  method WriteResult(p: InMemoryFileProvider, file: string, fc: seq<Byte>, results: seq<FixResult>, i: nat,
                     written: seq<FixResult>)
    returns (written': seq<FixResult>)
    requires i < |results| && p.Valid() && file in p.files
    requires written == DifferingBefore(fc, results, i) && p.files[file] == Holds(fc, written)
    modifies p
    ensures p.Valid()
    ensures written' == DifferingBefore(fc, results, i + 1)
    ensures p.files == old(p.files)[file := Holds(fc, written')]
  {
    written' := written;
    var contents := Encode(results[i].contents);
    if fc != contents {
      p.PutFile(file, contents);
      written' := written + [results[i]];
    }
  }

  /** The (file, title) pairs of the first `i` written results. */
  ghost function Titled(file: string, written: seq<FixResult>, i: nat): set<(string, string)>
    requires i <= |written|
  {
    if i == 0 then {} else Titled(file, written, i - 1) + {(file, written[i - 1].title)}
  }

  /** Records each written result in the report, as a fixed violation of the file named by its title. */
  method RecordFixes(report: Report, file: string, written: seq<FixResult>)
    requires report.Valid()
    modifies report
    ensures report.Valid()
    ensures report.Pairs() == old(report.Pairs()) + Titled(file, written, |written|)
  {
    ghost var pairs0 := report.Pairs();
    var i := 0;
    while i < |written|
      invariant 0 <= i <= |written|
      invariant report.Valid()
      invariant report.Pairs() == pairs0 + Titled(file, written, i)
    {
      RecordFix(report, file, written, i, pairs0);
      i := i + 1;
    }
  }

  /** The body of RecordFixes' loop. */
  method RecordFix(report: Report, file: string, written: seq<FixResult>, i: nat, ghost pairs0: set<(string, string)>)
    requires i < |written| && report.Valid()
    requires report.Pairs() == pairs0 + Titled(file, written, i)
    modifies report
    ensures report.Valid()
    ensures report.Pairs() == pairs0 + Titled(file, written, i + 1)
  {
    report.SetFileFixedViolation(file, written[i].title);
  }

  class Fixer<T> {
    var registeredFixes: map<string, T>
    var registeredMandatoryFixes: map<string, T>
    var registeredRoots: seq<string>

    /** No name is both a regular and a mandatory fix. */
    ghost predicate Valid()
      reads this
    {
      registeredFixes.Keys !! registeredMandatoryFixes.Keys
    }

    /** NewFixer: nothing registered. */
    constructor ()
      ensures Valid()
      ensures registeredFixes == map[] && registeredMandatoryFixes == map[] && registeredRoots == []
    {
      registeredFixes := map[];
      registeredMandatoryFixes := map[];
      registeredRoots := [];
    }

    /**
     * Registers regular fixes by name, the last of a name winning; a name
     * already registered as mandatory is ignored.
     */
    method RegisterFixes(fixes: seq<Fix<T>>)
      requires Valid()
      modifies this`registeredFixes
      ensures Valid()
      ensures Registered(old(registeredFixes), registeredFixes, fixes, registeredMandatoryFixes.Keys)
    {
      var i := 0;
      while i < |fixes|
        invariant 0 <= i <= |fixes|
        invariant Valid()
        invariant RegisteredUpTo(old(registeredFixes), registeredFixes, fixes, i, registeredMandatoryFixes.Keys)
      {
        ghost var before := registeredFixes;
        if fixes[i].name !in registeredMandatoryFixes {
          registeredFixes := registeredFixes[fixes[i].name := fixes[i].impl];
        }
        RegisterStep(old(registeredFixes), before, registeredFixes, fixes, i, registeredMandatoryFixes.Keys);
        i := i + 1;
      }
    }

    /**
     * Registers mandatory fixes by name, the last of a name winning, and
     * drops each name from the regular fixes.
     */
    method RegisterMandatoryFixes(fixes: seq<Fix<T>>)
      requires Valid()
      modifies this`registeredFixes, this`registeredMandatoryFixes
      ensures Valid()
      ensures Registered(old(registeredMandatoryFixes), registeredMandatoryFixes, fixes, {})
      ensures registeredFixes == old(registeredFixes) - Names(fixes)
    {
      var i := 0;
      while i < |fixes|
        invariant 0 <= i <= |fixes|
        invariant Valid()
        invariant RegisteredUpTo(old(registeredMandatoryFixes), registeredMandatoryFixes, fixes, i, {})
        invariant registeredFixes == old(registeredFixes) - NamesBefore(fixes, i)
      {
        ghost var before := registeredMandatoryFixes;
        RegisterMandatoryFix(fixes[i]);
        RegisterStep(old(registeredMandatoryFixes), before, registeredMandatoryFixes, fixes, i, {});
        i := i + 1;
      }
    }

    /** The body of RegisterMandatoryFixes' loop: one fix. */
    method RegisterMandatoryFix(fix: Fix<T>)
      requires Valid()
      modifies this`registeredFixes, this`registeredMandatoryFixes
      ensures Valid()
      ensures registeredMandatoryFixes == old(registeredMandatoryFixes)[fix.name := fix.impl]
      ensures registeredFixes == old(registeredFixes) - {fix.name}
    {
      registeredMandatoryFixes := registeredMandatoryFixes[fix.name := fix.impl];
      registeredFixes := registeredFixes - {fix.name};
    }

    /** Appends roots, in order, to those already registered. */
    method RegisterRoots(roots: seq<string>)
      modifies this`registeredRoots
      ensures registeredRoots == old(registeredRoots) + roots
    {
      registeredRoots := registeredRoots + roots;
    }

    /** The regular fix registered under a name, if any. */
    function GetFixForName(name: string): (r: Option<T>)
      reads this
      ensures r.Some? <==> name in registeredFixes
      ensures r.Some? ==> r.value == registeredFixes[name]
    {
      if name in registeredFixes then Some(registeredFixes[name]) else None
    }

    /** The mandatory fix registered under a name, if any. */
    function GetMandatoryFixForName(name: string): (r: Option<T>)
      reads this
      ensures r.Some? <==> name in registeredMandatoryFixes
      ensures r.Some? ==> r.value == registeredMandatoryFixes[name]
    {
      if name in registeredMandatoryFixes then Some(registeredMandatoryFixes[name]) else None
    }

    /**
     * Runs every mandatory fix on one file, in the map's unspecified
     * order; reports whether any result was written.
     */
    method FixFile(p: InMemoryFileProvider, report: Report, file: string,
                   apply: (T, FixCandidate, seq<string>) -> Result<seq<FixResult>>)
      returns (r: Result<bool>)
      requires p.Valid() && report.Valid() && file in p.files
      modifies p, report
      ensures p.Valid() && report.Valid()
      ensures p.files.Keys == old(p.files.Keys)
      ensures r.Ok? && !r.value ==> p.files == old(p.files)
      ensures r.Ok? && !r.value ==> forall name :: name in registeredMandatoryFixes ==>
        Unchanged(apply(registeredMandatoryFixes[name], FixCandidate(file, Decode(p.files[file])), registeredRoots), p.files[file])
    {
      var changed := false;
      var remaining := registeredMandatoryFixes.Keys;
      while remaining != {}
        invariant remaining <= registeredMandatoryFixes.Keys
        invariant p.Valid() && report.Valid()
        invariant p.files.Keys == old(p.files.Keys)
        invariant !changed ==> p.files == old(p.files)
        invariant !changed ==> forall name :: name in registeredMandatoryFixes && name !in remaining ==>
          Unchanged(apply(registeredMandatoryFixes[name], FixCandidate(file, Decode(p.files[file])), registeredRoots), p.files[file])
        decreases remaining
      {
        var name :| name in remaining;
        remaining := remaining - {name};
        var fix := GetMandatoryFixForName(name);
        var fc := p.files[file];
        var results := apply(fix.value, FixCandidate(file, Decode(fc)), registeredRoots);
        if results.Err? {
          return Err("failed to fix " + file + ": " + results.error);
        }
        var written := ApplyResults(p, file, fc, results.value);
        RecordFixes(report, file, written);
        changed := changed || |written| > 0;
      }
      return Ok(changed);
    }

    /** One pass of the mandatory fixes over every file; reports whether anything was written. */
    method Pass(p: InMemoryFileProvider, report: Report, apply: (T, FixCandidate, seq<string>) -> Result<seq<FixResult>>)
      returns (r: Result<bool>)
      requires p.Valid() && report.Valid()
      modifies p, report
      ensures p.Valid() && report.Valid()
      ensures p.files.Keys == old(p.files.Keys)
      ensures r.Ok? && !r.value ==> p.files == old(p.files)
      ensures r.Ok? && !r.value ==> Settled(apply, registeredMandatoryFixes, p.files, registeredRoots)
    {
      var files := p.ListFiles();
      var changed := false;
      var i := 0;
      while i < |files|
        invariant 0 <= i <= |files|
        invariant p.Valid() && report.Valid()
        invariant p.files.Keys == old(p.files.Keys)
        invariant !changed ==> p.files == old(p.files)
        invariant !changed ==> forall file, name :: file in files[..i] && name in registeredMandatoryFixes ==>
          Unchanged(apply(registeredMandatoryFixes[name], FixCandidate(file, Decode(p.files[file])), registeredRoots), p.files[file])
      {
        var fileResult := FixFile(p, report, files[i], apply);
        if fileResult.Err? {
          return Err(fileResult.error);
        }
        changed := changed || fileResult.value;
        i := i + 1;
      }
      assert files[..i] == files;
      return Ok(changed);
    }

    /**
     * applyMandatoryFixes: passes over all files until one writes nothing,
     * after which every mandatory fix leaves every file as it is.  The
     * source loops without bound; here at most `maxPasses` passes run.
     */
    method ApplyMandatoryFixes(p: InMemoryFileProvider, report: Report,
                               apply: (T, FixCandidate, seq<string>) -> Result<seq<FixResult>>, maxPasses: nat)
      returns (r: Result<()>)
      requires p.Valid() && report.Valid()
      modifies p, report
      ensures p.Valid() && report.Valid()
      ensures p.files.Keys == old(p.files.Keys)
      ensures |registeredMandatoryFixes| == 0 ==> r.Ok? && p.files == old(p.files)
      ensures r.Ok? ==> Settled(apply, registeredMandatoryFixes, p.files, registeredRoots)
    {
      if |registeredMandatoryFixes| == 0 {
        return Ok(());
      }
      var passes := 0;
      while passes < maxPasses
        invariant p.Valid() && report.Valid()
        invariant p.files.Keys == old(p.files.Keys)
      {
        var pass := Pass(p, report, apply);
        if pass.Err? {
          return Err(pass.error);
        }
        if !pass.value {
          return Ok(());
        }
        passes := passes + 1;
      }
      return Err("mandatory fixes did not settle");
    }

    /**
     * Fix: a fresh report; with nothing registered it is returned at once.
     * Otherwise the mandatory fixes run first; `lintPending` says that
     * regular fixes are registered, whose linter-driven pass would follow.
     */
    method Fix(p: InMemoryFileProvider, apply: (T, FixCandidate, seq<string>) -> Result<seq<FixResult>>, maxPasses: nat)
      returns (r: Result<Report>, lintPending: bool)
      requires Valid() && p.Valid()
      modifies p
      ensures p.Valid() && p.files.Keys == old(p.files.Keys)
      ensures |registeredFixes| == 0 && |registeredMandatoryFixes| == 0 ==>
        r.Ok? && r.value.Valid() && r.value.TotalFixes() == 0 && p.files == old(p.files) && !lintPending
      ensures r.Ok? ==> fresh(r.value) && r.value.Valid() && Settled(apply, registeredMandatoryFixes, p.files, registeredRoots)
      ensures lintPending <==> r.Ok? && |registeredFixes| > 0
    {
      var report := new Report();
      if |registeredMandatoryFixes| == 0 && |registeredFixes| == 0 {
        assert report.Pairs() == {};
        return Ok(report), false;
      }
      var mandatory := ApplyMandatoryFixes(p, report, apply, maxPasses);
      if mandatory.Err? {
        return Err(mandatory.error), false;
      }
      return Ok(report), |registeredFixes| > 0;
    }
  }
}
