/**
 * The completion manager (internal/lsp/completions/manager.go) and the
 * language server's completion handler that wraps it
 * (internal/lsp/server.go): providers are asked in the order they were
 * registered, the first mandatory item wins alone, a provider error aborts,
 * and nothing is offered with the cursor on or after a comment.
 *
 * A provider is known by its name; what it answers for the request at hand
 * is the parameter `run`, so a provider's own logic (modelled in the
 * provider modules) is not repeated here.
 */
module CompletionsManager {
  import opened Wrappers
  import opened LspTypes
  import opened LspRego
  import opened CompletionUtils

  /** The prefix of the error a failing provider aborts the run with. */
  const ProviderError: string := "error running completion provider: "

  /** The first mandatory item of a provider's answer, if any. */
  function FirstMandatory(items: seq<CompletionItem>): (r: Option<CompletionItem>)
    ensures r.Some? ==> r.value in items && r.value.mandatory
    ensures r.None? <==> forall k :: 0 <= k < |items| ==> !items[k].mandatory
  {
    if items == [] then None
    else if items[0].mandatory then Some(items[0])
    else FirstMandatory(items[1..])
  }

  /** A mandatory item after only optional ones is the first mandatory one. */
  lemma {:induction false} FirstMandatoryAt(items: seq<CompletionItem>, j: nat)
    requires j < |items| && items[j].mandatory
    requires forall k :: 0 <= k < j ==> !items[k].mandatory
    ensures FirstMandatory(items) == Some(items[j])
  {
    if j > 0 {
      FirstMandatoryAt(items[1..], j - 1);
    }
  }

  /** The items with their Regal data dropped. */
  function Cleared(items: seq<CompletionItem>): seq<CompletionItem> {
    seq(|items|, k requires 0 <= k < |items| => items[k].(regal := None))
  }

  /** How asking a list of providers ends: with an error, with one mandatory item, or with all their items. */
  datatype Gathered = Aborted(err: string) | Mandatory(item: CompletionItem) | Collected(items: seq<CompletionItem>)

  /** Items gathered before `g` come first in a collection and are dropped otherwise. */
  function Prepend(acc: seq<CompletionItem>, g: Gathered): Gathered {
    if g.Collected? then Collected(acc + g.items) else g
  }

  /** What asking the providers in order yields. */
  function Gather(providers: seq<string>, run: string -> Result<seq<CompletionItem>>): Gathered
    decreases |providers|
  {
    if providers == [] then Collected([])
    else match run(providers[0])
      case Err(e) => Aborted(e)
      case Ok(items) =>
        if FirstMandatory(items).Some? then Mandatory(FirstMandatory(items).value)
        else Prepend(Cleared(items), Gather(providers[1..], run))
  }

  /** One step of Gather, from the provider at `i` on. */
  lemma GatherStep(providers: seq<string>, i: nat, run: string -> Result<seq<CompletionItem>>)
    requires i < |providers| && run(providers[i]).Ok?
    ensures var items := run(providers[i]).value;
      Gather(providers[i..], run) ==
        if FirstMandatory(items).Some? then Mandatory(FirstMandatory(items).value)
        else Prepend(Cleared(items), Gather(providers[i + 1..], run))
  {
    assert providers[i..][1..] == providers[i + 1..];
  }

  /** Gathering in two steps is gathering the two parts in order. */
  lemma PrependTwice(a: seq<CompletionItem>, b: seq<CompletionItem>, g: Gathered)
    ensures Prepend(a, Prepend(b, g)) == Prepend(a + b, g)
  {
    if g.Collected? {
      assert a + (b + g.items) == (a + b) + g.items;
    }
  }

  /** The first `n` providers answered without error and without a mandatory item. */
  ghost predicate RanCleanly(providers: seq<string>, run: string -> Result<seq<CompletionItem>>, n: nat)
    requires n <= |providers|
  {
    forall i :: 0 <= i < n ==> run(providers[i]).Ok? && FirstMandatory(run(providers[i]).value).None?
  }

  /**
   * The run collects everything exactly when every provider answers
   * cleanly; it aborts on the error of the first failing provider, and
   * stops at the first mandatory item, of the first provider that has one.
   */
  lemma {:induction false} GatherStops(providers: seq<string>, run: string -> Result<seq<CompletionItem>>)
    ensures Gather(providers, run).Collected? <==> RanCleanly(providers, run, |providers|)
    ensures Gather(providers, run).Aborted? ==>
      exists i :: 0 <= i < |providers| && RanCleanly(providers, run, i) && run(providers[i]) == Err(Gather(providers, run).err)
    ensures Gather(providers, run).Mandatory? ==>
      exists i :: (0 <= i < |providers| && RanCleanly(providers, run, i) && run(providers[i]).Ok?
        && FirstMandatory(run(providers[i]).value) == Some(Gather(providers, run).item))
  {
    if providers != [] {
      var rest := providers[1..];
      GatherStops(rest, run);
      var g := Gather(providers, run);
      match run(providers[0])
      case Err(e) =>
        assert RanCleanly(providers, run, 0);
      case Ok(items) =>
        if FirstMandatory(items).Some? {
          assert RanCleanly(providers, run, 0);
        } else {
          assert RanCleanly(providers, run, |providers|) <==> RanCleanly(rest, run, |rest|) by {
            assert forall i :: 0 < i < |providers| ==> providers[i] == rest[i - 1];
          }
          if g.Aborted? {
            var i :| 0 <= i < |rest| && RanCleanly(rest, run, i) && run(rest[i]) == Err(g.err);
            assert RanCleanly(providers, run, i + 1) by {
              assert forall k :: 0 < k < i + 1 ==> providers[k] == rest[k - 1];
            }
            assert providers[i + 1] == rest[i];
          }
          if g.Mandatory? {
            var i :| (0 <= i < |rest| && RanCleanly(rest, run, i) && run(rest[i]).Ok?
              && FirstMandatory(run(rest[i]).value) == Some(g.item));
            assert RanCleanly(providers, run, i + 1) by {
              assert forall k :: 0 < k < i + 1 ==> providers[k] == rest[k - 1];
            }
            assert providers[i + 1] == rest[i];
          }
        }
    }
  }

  /**
   * A collected list holds every item of every provider, with its Regal
   * data cleared, and nothing else; none of its items is mandatory.
   */
  lemma {:induction false} CollectedItems(providers: seq<string>, run: string -> Result<seq<CompletionItem>>)
    requires Gather(providers, run).Collected?
    ensures var items := Gather(providers, run).items;
      && (forall k :: 0 <= k < |items| ==> !items[k].mandatory && items[k].regal.None?)
      && (forall i, c :: 0 <= i < |providers| && run(providers[i]).Ok? && c in run(providers[i]).value ==>
            c.(regal := None) in items)
      && (forall x :: x in items ==>
            exists i :: 0 <= i < |providers| && run(providers[i]).Ok? && x in Cleared(run(providers[i]).value))
  {
    if providers != [] {
      var rest := providers[1..];
      var first := run(providers[0]).value;
      CollectedItems(rest, run);
      var items := Gather(providers, run).items;
      assert items == Cleared(first) + Gather(rest, run).items;
      forall i, c | 0 <= i < |providers| && run(providers[i]).Ok? && c in run(providers[i]).value
        ensures c.(regal := None) in items
      {
        if i == 0 {
          var k :| 0 <= k < |first| && first[k] == c;
          assert Cleared(first)[k] == c.(regal := None);
        } else {
          assert providers[i] == rest[i - 1];
        }
      }
      forall x | x in items
        ensures exists i :: 0 <= i < |providers| && run(providers[i]).Ok? && x in Cleared(run(providers[i]).value)
      {
        if x !in Cleared(first) {
          var i :| 0 <= i < |rest| && run(rest[i]).Ok? && x in Cleared(run(rest[i]).value);
          assert providers[i + 1] == rest[i];
        }
      }
    }
  }

  /** Registering one more provider that answers cleanly appends its items, cleared, after the others'. */
  lemma {:induction false} GatherAppend(providers: seq<string>, p: string, run: string -> Result<seq<CompletionItem>>)
    requires Gather(providers, run).Collected?
    requires run(p).Ok? && FirstMandatory(run(p).value).None?
    ensures Gather(providers + [p], run) == Collected(Gather(providers, run).items + Cleared(run(p).value))
  {
    if providers == [] {
      assert [p][1..] == [];
    } else {
      assert (providers + [p])[1..] == providers[1..] + [p];
      GatherAppend(providers[1..], p, run);
    }
  }

  /** The manager's answer for a run that ends as `g`: a nil list when nothing was collected. */
  function Answer(g: Gathered): Result<Option<seq<CompletionItem>>> {
    match g
    case Aborted(e) => Err(ProviderError + e)
    case Mandatory(c) => Ok(Some([c]))
    case Collected(items) => if items == [] then Ok(None) else Ok(Some(items))
  }

  /** A comment starts on the cursor's line at or before the cursor. */
  ghost predicate CommentBeforeCursor(comments: seq<AstLocation>, pos: Position) {
    exists k :: (0 <= k < |comments| && PositionFromLocation(comments[k]).line == pos.line
      && PositionFromLocation(comments[k]).character <= pos.character)
  }

  /** A comment that starts where the cursor is, or before it on the same line, puts the cursor inside it. */
  lemma CommentAtCursor(comments: seq<AstLocation>, k: nat, pos: Position)
    requires k < |comments| && pos.line < MaxInt64 && pos.character < MaxInt64
    requires comments[k].row == pos.line + 1 && 1 <= comments[k].col <= pos.character + 1
    ensures CommentBeforeCursor(comments, pos)
  {
  }

  /** The manager: the providers it asks, by name, in registration order. */
  class Manager {
    var providers: seq<string>

    /** NewManager: no providers yet. */
    constructor ()
      ensures providers == []
    {
      providers := [];
    }

    /** RegisterProvider appends the provider. */
    method RegisterProvider(name: string)
      modifies this
      ensures providers == old(providers) + [name]
    {
      providers := providers + [name];
    }

    /**
     * isInsideOfComment: some comment of the parsed module (none when the
     * file has no parsed module) starts on the cursor's line at or before
     * the cursor.
     */
    method IsInsideOfComment(comments: Option<seq<AstLocation>>, pos: Position) returns (inside: bool)
      ensures inside <==> comments.Some? && CommentBeforeCursor(comments.value, pos)
    {
      if comments.None? {
        return false;
      }
      var cs := comments.value;
      for k := 0 to |cs|
        invariant forall k' :: 0 <= k' < k ==>
          !(PositionFromLocation(cs[k']).line == pos.line && PositionFromLocation(cs[k']).character <= pos.character)
      {
        var cp := PositionFromLocation(cs[k]);
        if cp.line == pos.line {
          if cp.character <= pos.character {
            return true;
          }
        }
      }
      return false;
    }

    /**
     * Manager.Run: an empty (non-nil) list with the cursor in a comment;
     * otherwise the providers in registration order, as Gather describes,
     * with a nil list when no provider offered anything.
     */
    method Run(comments: Option<seq<AstLocation>>, pos: Position, run: string -> Result<seq<CompletionItem>>)
      returns (r: Result<Option<seq<CompletionItem>>>)
      ensures comments.Some? && CommentBeforeCursor(comments.value, pos) ==> r == Ok(Some([]))
      ensures !(comments.Some? && CommentBeforeCursor(comments.value, pos)) ==> r == Answer(Gather(providers, run))
    {
      var inside := IsInsideOfComment(comments, pos);
      if inside {
        return Ok(Some([]));
      }
      var acc: seq<CompletionItem> := [];
      for i := 0 to |providers|
        invariant Gather(providers, run) == Prepend(acc, Gather(providers[i..], run))
      {
        var answer := run(providers[i]);
        if answer.Err? {
          return Err(ProviderError + answer.error);
        }
        var items := answer.value;
        ghost var before := acc;
        for j := 0 to |items|
          invariant forall k :: 0 <= k < j ==> !items[k].mandatory
          invariant acc == before + Cleared(items[..j])
        {
          if items[j].mandatory {
            FirstMandatoryAt(items, j);
            GatherStep(providers, i, run);
            return Ok(Some([items[j]]));
          }
          assert Cleared(items[..j + 1]) == Cleared(items[..j]) + [items[j].(regal := None)];
          acc := acc + [items[j].(regal := None)];
        }
        assert items[..|items|] == items;
        GatherStep(providers, i, run);
        PrependTwice(before, Cleared(items), Gather(providers[i + 1..], run));
      }
      assert providers[|providers|..] == [];
      assert acc + [] == acc;
      assert Gather(providers, run) == Collected(acc);
      if acc == [] {
        return Ok(None);
      }
      return Ok(Some(acc));
    }
  }

  /** NewDefaultManager: the built-in, package, rule-head, rule-head keyword, input and policy providers, in that order. */
  method NewDefaultManager() returns (m: Manager)
    ensures fresh(m)
    ensures m.providers == ["builtins", "packagerefs", "rulehead", "ruleheadkeyword", "input", "policy"]
  {
    m := new Manager();
    m.RegisterProvider("builtins");
    m.RegisterProvider("packagerefs");
    m.RegisterProvider("rulehead");
    m.RegisterProvider("ruleheadkeyword");
    m.RegisterProvider("input");
    m.RegisterProvider("policy");
  }

  /** The completion list the server answers with. */
  datatype CompletionList = CompletionList(isIncomplete: bool, items: seq<CompletionItem>)

  /** The prefix of the error the server reports when the manager fails. */
  const CompletionsError: string := "failed to find completions: "

  /**
   * handleTextDocumentCompletion: an ignored file gets an empty, complete
   * list; a manager error is reported; a nil list becomes an empty,
   * complete list; any other list is sent as incomplete.
   */
  function CompletionResponse(ignored: bool, outcome: Result<Option<seq<CompletionItem>>>): (r: Result<CompletionList>)
    ensures r.Err? <==> !ignored && outcome.Err?
    ensures r.Err? ==> r.error == CompletionsError + outcome.error
    ensures r.Ok? && r.value.isIncomplete <==> !ignored && outcome.Ok? && outcome.value.Some?
    ensures r.Ok? && r.value.isIncomplete ==> r.value.items == outcome.value.value
    ensures r.Ok? && !r.value.isIncomplete ==> r.value.items == []
  {
    if ignored then Ok(CompletionList(false, []))
    else match outcome
      case Err(e) => Err(CompletionsError + e)
      case Ok(None) => Ok(CompletionList(false, []))
      case Ok(Some(items)) => Ok(CompletionList(true, items))
  }

  /**
   * Providers that all answer cleanly with nothing give a complete empty
   * list; with the cursor in a comment the list is empty but marked
   * incomplete.
   */
  lemma NothingOffered(providers: seq<string>, run: string -> Result<seq<CompletionItem>>)
    requires forall i :: 0 <= i < |providers| ==> run(providers[i]) == Ok([])
    ensures CompletionResponse(false, Answer(Gather(providers, run))) == Ok(CompletionList(false, []))
    ensures CompletionResponse(false, Ok(Some([]))) == Ok(CompletionList(true, []))
  {
    GatherNothing(providers, run);
  }

  /** Providers that all answer cleanly with nothing collect nothing. */
  lemma {:induction false} GatherNothing(providers: seq<string>, run: string -> Result<seq<CompletionItem>>)
    requires forall i :: 0 <= i < |providers| ==> run(providers[i]) == Ok([])
    ensures Gather(providers, run) == Collected([])
  {
    if providers != [] {
      assert forall i :: 0 <= i < |providers| - 1 ==> providers[1..][i] == providers[i + 1];
      GatherNothing(providers[1..], run);
      assert Cleared([]) == [];
    }
  }
}
