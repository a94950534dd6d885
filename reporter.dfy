/**
 * The lint reporters (pkg/reporter/reporter.go): the footer the pretty
 * reporter prints under its table, the empty list the JSON reporter puts in
 * place of a missing violation list, and the documentation link of a
 * violation that the GitHub reporter's annotations end with.
 *
 * The table itself (column layout and colours) and the JSON encoding are
 * left out: the rendered table rows are given as text.
 */
module Reporter {
  import opened Wrappers
  import opened GoStrings
  import opened ReportTypes

  /** The violations of a report; a nil list ranges like an empty one. */
  function Violations(r: Report): seq<Violation> {
    match r.violations
    case None => []
    case Some(vs) => vs
  }

  /** The plural ending: "s" for more than one, and for none when `zeroPlural`. */
  function Plural(n: int, zeroPlural: bool): string {
    if n > 1 || (zeroPlural && n == 0) then "s" else ""
  }

  /** `n` followed by the noun, in the plural when Plural says so. */
  function Counted(n: int, noun: string, zeroPlural: bool): string {
    Itoa(n) + " " + noun + Plural(n, zeroPlural)
  }

  /** The decimal text of an integer holds no space. */
  lemma ItoaHasNoSpace(n: int)
    ensures ' ' !in Itoa(n)
  {
    if n < 0 {
      var digits := NatToString(-n);
      assert Itoa(n) == ['-'] + digits;
      assert ' ' !in digits;
    }
  }

  /**
   * A count reads back: its first word is the number, its second the noun,
   * with the plural "s" exactly for more than one (and for none when
   * `zeroPlural`).
   */
  lemma CountedReadsBack(n: int, noun: string, zeroPlural: bool)
    requires ' ' !in noun
    ensures var words := Split(Counted(n, noun, zeroPlural), ' ');
      && |words| == 2 && Atoi(words[0]) == Some(n)
      && (words[1] == noun + "s" <==> n > 1 || (zeroPlural && n == 0))
      && (words[1] == noun <==> !(n > 1 || (zeroPlural && n == 0)))
  {
    var word := noun + Plural(n, zeroPlural);
    ItoaHasNoSpace(n);
    assert ' ' !in word;
    assert Join([Itoa(n), word], [' ']) == Counted(n, noun, zeroPlural);
    SplitJoin([Itoa(n), word], ' ');
    AtoiItoa(n);
  }

  /** The words of an outcome without failed files, joined by spaces. */
  lemma JoinFoundWords(nv: string, v: string)
    ensures Join(["", nv, v, "found."], [' ']) == " " + nv + " " + v + " found" + "."
  {
    var head := ["", nv];
    assert Join(head, [' ']) == " " + nv by { assert head[1..] == [nv]; }
    JoinSnoc(head, v, [' ']);
    assert head + [v] + ["found."] == ["", nv, v, "found."];
    JoinSnoc(head + [v], "found.", [' ']);
  }

  /** The words of an outcome naming the failed files, joined by spaces. */
  lemma JoinFailedWords(nv: string, v: string, nf: string, f: string)
    ensures Join(["", nv, v, "found", "in", nf, f + "."], [' ']) == " " + nv + " " + v + " found" + " in " + nf + " " + f + "."
  {
    var head := ["", nv];
    var w3, w4, w5, w6 := head + [v], head + [v, "found"], head + [v, "found", "in"], head + [v, "found", "in", nf];
    var r3 := " " + nv + " " + v;
    var r4 := r3 + " found";
    var r5 := r4 + " in " + nf;
    assert Join(w3, [' ']) == r3 by {
      assert Join(head, [' ']) == " " + nv by { assert head[1..] == [nv]; }
      JoinSnoc(head, v, [' ']);
    }
    assert Join(w4, [' ']) == r4 by {
      assert w4 == w3 + ["found"];
      JoinSnoc(w3, "found", [' ']);
      ConcatAssoc(r3, " ", "found");
    }
    assert Join(w5, [' ']) == r4 + " in" by {
      assert w5 == w4 + ["in"];
      JoinSnoc(w4, "in", [' ']);
      ConcatAssoc(r4, " ", "in");
    }
    assert Join(w6, [' ']) == r5 by {
      assert w6 == w5 + [nf];
      JoinSnoc(w5, nf, [' ']);
      ConcatAssoc(r4, " in", " ");
    }
    assert w6 + [f + "."] == ["", nv, v, "found", "in", nf, f + "."];
    JoinSnoc(w6, f + ".", [' ']);
    ConcatAssoc(r5 + " ", f, ".");
  }

  /** How many files were linted: "files" for none and for several. */
  function LintedPart(s: Summary): string {
    Counted(s.filesScanned, "file", true) + " linted."
  }

  /**
   * What was found: " No violations found." when nothing was; otherwise the
   * number of violations, and the number of files they are in only when
   * more than one file was linted and some failed.
   */
  function OutcomePart(s: Summary): string {
    if s.numViolations == 0 then " No violations found."
    else
      var found := " " + Counted(s.numViolations, "violation", false) + " found";
      if s.filesScanned > 1 && s.filesFailed > 0 then found + " in " + Counted(s.filesFailed, "file", false) + "."
      else found + "."
  }

  /** The words of the outcome when violations were found. */
  function OutcomeWords(s: Summary): seq<string> {
    var head := ["", Itoa(s.numViolations), "violation" + Plural(s.numViolations, false)];
    if s.filesScanned > 1 && s.filesFailed > 0 then head + ["found", "in", Itoa(s.filesFailed), "file" + Plural(s.filesFailed, false) + "."]
    else head + ["found."]
  }

  /** No word of the outcome holds a space. */
  lemma OutcomeWordsHaveNoSpace(s: Summary)
    ensures forall i :: 0 <= i < |OutcomeWords(s)| ==> ' ' !in OutcomeWords(s)[i]
  {
    ItoaHasNoSpace(s.numViolations);
    ItoaHasNoSpace(s.filesFailed);
    var words := OutcomeWords(s);
    var v := "violation" + Plural(s.numViolations, false);
    assert ' ' !in v;
    if |words| == 7 {
      var f := "file" + Plural(s.filesFailed, false) + ".";
      assert ' ' !in f;
      assert words == ["", Itoa(s.numViolations), v, "found", "in", Itoa(s.filesFailed), f];
    } else {
      assert words == ["", Itoa(s.numViolations), v, "found."];
    }
  }

  /** The outcome is its words joined by spaces. */
  lemma OutcomeJoin(s: Summary)
    requires s.numViolations != 0
    ensures Join(OutcomeWords(s), [' ']) == OutcomePart(s)
  {
    var nv, v := Itoa(s.numViolations), "violation" + Plural(s.numViolations, false);
    var counted := Counted(s.numViolations, "violation", false);
    assert counted == nv + " " + v;
    var found := " " + counted + " found";
    assert found == " " + nv + " " + v + " found";
    if s.filesScanned > 1 && s.filesFailed > 0 {
      var nf, f := Itoa(s.filesFailed), "file" + Plural(s.filesFailed, false);
      assert OutcomeWords(s) == ["", nv, v, "found", "in", nf, f + "."];
      assert Counted(s.filesFailed, "file", false) == nf + " " + f;
      assert OutcomePart(s) == found + " in " + (nf + " " + f) + ".";
      JoinFailedWords(nv, v, nf, f);
    } else {
      assert OutcomeWords(s) == ["", nv, v, "found."];
      assert OutcomePart(s) == found + ".";
      JoinFoundWords(nv, v);
    }
  }

  /**
   * The outcome reads back: " No violations found." exactly when there are
   * none; otherwise its second word is the number of violations, and it
   * names a number of failed files (as its sixth word) exactly when more
   * than one file was linted and some failed.
   */
  lemma OutcomeReadsBack(s: Summary)
    ensures s.numViolations == 0 <==> OutcomePart(s) == " No violations found."
    ensures s.numViolations != 0 ==> Split(OutcomePart(s), ' ') == OutcomeWords(s)
    ensures s.numViolations != 0 ==> Atoi(OutcomeWords(s)[1]) == Some(s.numViolations)
    ensures |OutcomeWords(s)| == 7 <==> s.filesScanned > 1 && s.filesFailed > 0
    ensures |OutcomeWords(s)| == 7 ==> Atoi(OutcomeWords(s)[5]) == Some(s.filesFailed)
  {
    AtoiItoa(s.numViolations);
    AtoiItoa(s.filesFailed);
    if s.numViolations != 0 {
      var words := OutcomeWords(s);
      var found := " " + Counted(s.numViolations, "violation", false) + " found";
      assert OutcomePart(s)[1] == Itoa(s.numViolations)[0];
      assert Itoa(s.numViolations)[0] == '-' || IsDigit(Itoa(s.numViolations)[0]);
      OutcomeWordsHaveNoSpace(s);
      OutcomeJoin(s);
      assert Join(words, [' ']) == OutcomePart(s);
      SplitJoin(words, ' ');
    }
  }

  /** The notices listed under the skipped rules: all but those of severity "none", in order. */
  function Listed(notices: seq<Notice>): seq<Notice> {
    if notices == [] then []
    else
      var last := notices[|notices| - 1];
      var rest := Listed(notices[..|notices| - 1]);
      if last.severity != "none" then rest + [last] else rest
  }

  /** The listed notices are exactly those whose severity is not "none", and no more of them than there are notices. */
  lemma {:induction false} ListedIsFilter(notices: seq<Notice>)
    ensures |Listed(notices)| <= |notices|
    ensures forall n :: n in Listed(notices) <==> n in notices && n.severity != "none"
    decreases |notices|
  {
    if notices != [] {
      var last := notices[|notices| - 1];
      ListedIsFilter(notices[..|notices| - 1]);
      assert notices == notices[..|notices| - 1] + [last];
    }
  }

  /** The line of a listed notice: "- title: description". */
  function NoticeLine(n: Notice): string {
    "- " + n.title + ": " + n.description + "\n"
  }

  /** One line per notice. */
  function NoticeLines(notices: seq<Notice>): string {
    if notices == [] then ""
    else
      var last := notices[|notices| - 1];
      NoticeLines(notices[..|notices| - 1]) + NoticeLine(last)
  }

  /** One more notice adds its line to the listing unless its severity is "none". */
  lemma ListedStep(notices: seq<Notice>, i: nat)
    requires i < |notices|
    ensures notices[i].severity != "none" ==>
      NoticeLines(Listed(notices[..i + 1])) == NoticeLines(Listed(notices[..i])) + NoticeLine(notices[i])
    ensures notices[i].severity == "none" ==> NoticeLines(Listed(notices[..i + 1])) == NoticeLines(Listed(notices[..i]))
  {
    assert notices[..i + 1][..i] == notices[..i];
    if notices[i].severity != "none" {
      NoticeLinesStep(Listed(notices[..i]), notices[i]);
    }
  }

  /** Listing one more notice appends its line. */
  lemma NoticeLinesStep(notices: seq<Notice>, n: Notice)
    ensures NoticeLines(notices + [n]) == NoticeLines(notices) + NoticeLine(n)
  {
    assert (notices + [n])[..|notices|] == notices;
  }

  /** The skipped rules: nothing when none were skipped, otherwise their number and the listed notices. */
  function SkippedPart(s: Summary, notices: seq<Notice>): (r: string)
    ensures s.rulesSkipped <= 0 <==> r == ""
  {
    if s.rulesSkipped > 0 then " " + Counted(s.rulesSkipped, "rule", false) + " skipped:\n" + NoticeLines(Listed(notices))
    else ""
  }

  /** The footer of the pretty report. */
  function Footer(s: Summary, notices: seq<Notice>): string {
    LintedPart(s) + OutcomePart(s) + SkippedPart(s, notices)
  }

  /** The footer as Publish builds it: the counts, then one line per notice that is not of severity "none". */
  method BuildFooter(s: Summary, notices: seq<Notice>) returns (footer: string)
    ensures footer == Footer(s, notices)
  {
    footer := LintedPart(s) + OutcomePart(s);
    if s.rulesSkipped > 0 {
      ghost var before := footer;
      var count := " " + Counted(s.rulesSkipped, "rule", false) + " skipped:\n";
      footer := AppendNoticeLines(footer + count, notices);
      ghost var lines := NoticeLines(Listed(notices));
      assert SkippedPart(s, notices) == count + lines;
      ConcatAssoc(before, count, lines);
    } else {
      assert SkippedPart(s, notices) == "";
    }
  }

  /** One line per listed notice, after `start`. */
  method AppendNoticeLines(start: string, notices: seq<Notice>) returns (footer: string)
    ensures footer == start + NoticeLines(Listed(notices))
  {
    footer := start;
    for i := 0 to |notices|
      invariant footer == start + NoticeLines(Listed(notices[..i]))
    {
      var notice := notices[i];
      ListedStep(notices, i);
      if notice.severity != "none" {
        footer := footer + NoticeLine(notice);
      }
    }
    assert notices[..|notices|] == notices;
  }

  /** PrettyReporter.Publish: the table (followed by a blank line when it has rows), the footer and a line break. */
  function PrettyOutput(r: Report, renderedRows: string): (out: string)
    ensures HasPrefix(out, renderedRows)
    ensures HasSuffix(out, Footer(r.summary, r.notices) + "\n")
    ensures |Violations(r)| > 0 <==> |out| == |renderedRows| + 2 + |Footer(r.summary, r.notices)| + 1
    ensures |Violations(r)| > 0 ==> out[|renderedRows|..|renderedRows| + 2] == "\n\n"
  {
    var table := renderedRows + (if |Violations(r)| > 0 then "\n\n" else "");
    table + Footer(r.summary, r.notices) + "\n"
  }

  /** The text of a one-digit number is its digit. */
  lemma ItoaDigit(n: int)
    requires 0 <= n < 10
    ensures Itoa(n) == [DigitChar(n)]
  {
  }

  /** An empty report prints one line: no files, no violations. */
  lemma EmptyReportLine()
    ensures PrettyOutput(Report(None, [], Summary(0, 0, 0, 0)), "") == "0 files linted. No violations found.\n"
  {
    var s := Summary(0, 0, 0, 0);
    ItoaDigit(0);
    assert Itoa(0) == "0";
    var linted := LintedPart(s);
    assert linted == "0" + " " + "file" + "s" + " linted.";
    assert linted == "0 files linted.";
    var footer := Footer(s, []);
    assert footer == linted + " No violations found." + "";
    assert footer == "0 files linted. No violations found.";
    assert PrettyOutput(Report(None, [], s), "") == footer + "\n";
  }

  /** Text free of the separator, then the separator: the text is the first piece of the split. */
  lemma {:induction false} SplitAtFirst(a: string, b: string, sep: char)
    requires sep !in a
    ensures Split(a + [sep] + b, sep) == [a] + Split(b, sep)
    decreases |a|
  {
    if a == [] {
      assert a + [sep] + b == [sep] + b;
      assert ([sep] + b)[1..] == b;
    } else {
      SplitAtFirst(a[1..], b, sep);
      assert (a + [sep] + b)[1..] == a[1..] + [sep] + b;
      assert [a[0]] + a[1..] == a;
    }
  }

  /** Splitting text whose first two words are free of spaces gives those words first. */
  lemma SplitTwoWords(w0: string, w1: string, rest: string)
    requires ' ' !in w0 && ' ' !in w1
    ensures var words := Split(w0 + [' '] + (w1 + [' '] + rest), ' ');
      |words| >= 2 && words[0] == w0 && words[1] == w1
  {
    SplitAtFirst(w0, w1 + [' '] + rest, ' ');
    SplitAtFirst(w1, rest, ' ');
  }

  /** The footer starts with the number of files linted, then "file" or "files". */
  lemma FooterCountsFiles(s: Summary, notices: seq<Notice>)
    ensures var words := Split(Footer(s, notices), ' ');
      && |words| >= 2 && Atoi(words[0]) == Some(s.filesScanned)
      && (words[1] == "files" <==> s.filesScanned == 0 || s.filesScanned > 1)
      && (words[1] == "file" <==> !(s.filesScanned == 0 || s.filesScanned > 1))
  {
    var n := Itoa(s.filesScanned);
    var noun := "file" + Plural(s.filesScanned, true);
    FooterShape(s, notices);
    ItoaHasNoSpace(s.filesScanned);
    assert ' ' !in noun;
    SplitTwoWords(n, noun, "linted." + OutcomePart(s) + SkippedPart(s, notices));
    AtoiItoa(s.filesScanned);
  }

  /** The footer as words: the number, the noun, and the rest after another space. */
  lemma FooterShape(s: Summary, notices: seq<Notice>)
    ensures Footer(s, notices) == Itoa(s.filesScanned) + [' '] + ("file" + Plural(s.filesScanned, true) + [' ']
      + ("linted." + OutcomePart(s) + SkippedPart(s, notices)))
  {
    var n := Itoa(s.filesScanned);
    var noun := "file" + Plural(s.filesScanned, true);
    var linted := "linted.";
    assert LintedPart(s) == n + [' '] + noun + [' '] + linted by {
      assert " linted." == [' '] + linted;
    }
    WordsRegroup(n, noun, linted, OutcomePart(s), SkippedPart(s, notices));
  }

  /** Words joined by spaces and followed by more text, regrouped. */
  lemma WordsRegroup(n: string, noun: string, linted: string, o: string, k: string)
    ensures n + [' '] + noun + [' '] + linted + o + k == n + [' '] + (noun + [' '] + (linted + o + k))
  {
  }

  /** When rules were skipped the footer ends with one line for each notice listed. */
  lemma FooterEndsWithNotices(s: Summary, notices: seq<Notice>)
    requires s.rulesSkipped > 0
    ensures HasSuffix(Footer(s, notices), NoticeLines(Listed(notices)))
  {
    var count := " " + Counted(s.rulesSkipped, "rule", false) + " skipped:\n";
    var lines := NoticeLines(Listed(notices));
    var head := LintedPart(s) + OutcomePart(s);
    assert Footer(s, notices) == head + (count + lines);
    assert Footer(s, notices) == (head + count) + lines;
  }

  /** JSONReporter.Publish: a nil violation list is written as an empty one; nothing else changes. */
  function ForJson(r: Report): (out: Report)
    ensures out.violations == Some(Violations(r))
    ensures out.notices == r.notices && out.summary == r.summary
    ensures r.violations.Some? ==> out == r
  {
    if r.violations.None? then r.(violations := Some([])) else r
  }

  /** Preparing a report for JSON twice changes nothing more. */
  lemma ForJsonIdempotent(r: Report)
    ensures ForJson(ForJson(r)) == ForJson(r)
    ensures Violations(ForJson(r)) == Violations(r)
  {
  }

  /**
   * getDocumentationURL: the reference of the first related resource
   * described as "documentation", or "" when there is none.
   */
  function DocumentationURL(resources: seq<RelatedResource>): (r: string)
    ensures (forall i :: 0 <= i < |resources| ==> resources[i].description != "documentation") ==> r == ""
    ensures forall i :: (0 <= i < |resources| && resources[i].description == "documentation"
      && (forall j :: 0 <= j < i ==> resources[j].description != "documentation")) ==> r == resources[i].reference
  {
    if resources == [] then ""
    else if resources[0].description == "documentation" then resources[0].reference
    else
      assert forall i :: 1 <= i < |resources| ==> resources[i] == resources[1..][i - 1];
      DocumentationURL(resources[1..])
  }

  /**
   * getUniqueViolationURLs: for each description, the documentation link
   * of the last violation with it.
   */
  function UniqueViolationURLs(vs: seq<Violation>): (m: map<string, string>)
    ensures forall d :: d in m ==> exists i :: 0 <= i < |vs| && vs[i].description == d
    decreases |vs|
  {
    if vs == [] then map[]
    else
      var last := vs[|vs| - 1];
      UniqueViolationURLs(vs[..|vs| - 1])[last.description := DocumentationURL(last.relatedResources)]
  }

  /** There is one entry per description that some violation has, and no other. */
  lemma {:induction false} UniqueURLKeys(vs: seq<Violation>)
    ensures forall d :: d in UniqueViolationURLs(vs) <==> exists i :: 0 <= i < |vs| && vs[i].description == d
    decreases |vs|
  {
    if vs != [] {
      var init := vs[..|vs| - 1];
      UniqueURLKeys(init);
      assert forall i :: 0 <= i < |init| ==> init[i] == vs[i];
      forall d | exists i :: 0 <= i < |vs| && vs[i].description == d
        ensures d in UniqueViolationURLs(vs)
      {
        var i :| 0 <= i < |vs| && vs[i].description == d;
        if i < |init| {
          assert init[i].description == d;
        }
      }
    }
  }

  /** Each description maps to the link of the last violation that has it. */
  lemma {:induction false} UniqueURLIsLast(vs: seq<Violation>, i: nat)
    requires i < |vs|
    requires forall j :: i < j < |vs| ==> vs[j].description != vs[i].description
    ensures vs[i].description in UniqueViolationURLs(vs)
    ensures UniqueViolationURLs(vs)[vs[i].description] == DocumentationURL(vs[i].relatedResources)
    decreases |vs|
  {
    if i < |vs| - 1 {
      var init := vs[..|vs| - 1];
      assert init[i] == vs[i];
      UniqueURLIsLast(init, i);
    }
  }
}
