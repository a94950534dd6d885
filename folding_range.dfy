/**
 * Folding ranges (internal/lsp/foldingrange.go): runs of comments on
 * consecutive lines, the block of imports, and every matched pair of
 * braces, brackets or parentheses in the token stream.  The scanner is not
 * part of this model: its output is given as the sequence of tokens it
 * returns, each with its position and whether it reported errors.
 */
module FoldingRange {
  import opened LspTypes

  /** The tokens the range computation tells apart; every other token is OtherToken. */
  datatype Token = LBrace | RBrace | LBrack | RBrack | LParen | RParen | EOF | OtherToken

  /** A scanner position: 1-based row, 0-based column. */
  datatype ScanPos = ScanPos(row: int, col: int)

  /** One call of the scanner: the token, where it is, and whether errors came with it. */
  datatype Scanned = Scanned(token: Token, pos: ScanPos, failed: bool)

  /** types.FoldingRange; the start character is always set by the modelled code. */
  datatype FoldingRange = FoldingRange(startLine: nat, startCharacter: nat, endLine: nat, kind: string)

  /** The three stacks of open positions, and the ranges closed so far. */
  datatype ScanState = ScanState(curly: seq<ScanPos>, brack: seq<ScanPos>, parens: seq<ScanPos>, ranges: seq<FoldingRange>)

  /** max(x, 0) */
  function Clamp(x: int): nat {
    if x < 0 then 0 else x
  }

  /**
   * The end line of a range closed on `row`, as written: the line before the
   * closer's, converted to `uint`, which wraps for a closer on the first row.
   */
  function EndLineAsWritten(row: int): nat {
    Uint(row - 2)
  }

  /** A closer on the first row ends its range on line 2^64 - 1, past any text. */
  lemma EndLineWrapsOnFirstRow()
    ensures EndLineAsWritten(1) == MaxUint - 1
  {
  }

  /** The end line of a range closed on `row`: the line before the closer's, but never below line 0. */
  function EndLine(row: int): nat {
    Clamp(row - 2)
  }

  /**
   * The corrected end line never lies past the closer's own line, and it is
   * the one the source computes whenever the closer is not on the first row.
   */
  lemma EndLineWithinText(row: int)
    requires 1 <= row < MaxUint
    ensures EndLine(row) <= row - 1
    ensures row >= 2 ==> EndLine(row) == EndLineAsWritten(row)
  {
  }

  /**
   * The range of a matched pair: from the opener's line, at its column, to
   * the line before the closer's.
   */
  function RegionRange(open: ScanPos, close: ScanPos): FoldingRange {
    FoldingRange(Uint(open.row - 1), Uint(open.col), EndLine(close.row), "region")
  }

  /** One scanned token: an opener is pushed on its kind's stack, a closer pops its own kind's stack. */
  function Step(s: ScanState, t: Scanned): ScanState {
    match t.token
    case LBrace => s.(curly := s.curly + [t.pos])
    case LBrack => s.(brack := s.brack + [t.pos])
    case LParen => s.(parens := s.parens + [t.pos])
    case RBrace =>
      if |s.curly| > 0 then s.(curly := s.curly[..|s.curly| - 1], ranges := s.ranges + [RegionRange(s.curly[|s.curly| - 1], t.pos)])
      else s
    case RBrack =>
      if |s.brack| > 0 then s.(brack := s.brack[..|s.brack| - 1], ranges := s.ranges + [RegionRange(s.brack[|s.brack| - 1], t.pos)])
      else s
    case RParen =>
      if |s.parens| > 0 then s.(parens := s.parens[..|s.parens| - 1], ranges := s.ranges + [RegionRange(s.parens[|s.parens| - 1], t.pos)])
      else s
    case _ => s
  }

  /** The state after the first `n` tokens. */
  function RunTo(tokens: seq<Scanned>, n: nat): ScanState
    requires n <= |tokens|
  {
    if n == 0 then ScanState([], [], [], []) else Step(RunTo(tokens, n - 1), tokens[n - 1])
  }

  /** Scanning stops at the end of the input or at the first token that came with errors. */
  predicate Stops(t: Scanned) {
    t.token == EOF || t.failed
  }

  /** The number of tokens before scanning stops. */
  function StopIndex(tokens: seq<Scanned>): (k: nat)
    ensures k <= |tokens|
    ensures forall j :: 0 <= j < k ==> !Stops(tokens[j])
    ensures k < |tokens| ==> Stops(tokens[k])
  {
    if |tokens| == 0 || Stops(tokens[0]) then 0 else 1 + StopIndex(tokens[1..])
  }

  /** The folding ranges of the matched pairs, in the order their closers come. */
  function TokenRanges(tokens: seq<Scanned>): seq<FoldingRange> {
    RunTo(tokens, StopIndex(tokens)).ranges
  }

  /**
   * TokenFoldingRanges: the scanner loop with one stack per kind of bracket;
   * a closer whose stack is empty is ignored.
   */
  method TokenFoldingRanges(tokens: seq<Scanned>) returns (foldingRanges: seq<FoldingRange>)
    ensures foldingRanges == TokenRanges(tokens)
  {
    var curlyBraceStack: seq<ScanPos> := [];
    var bracketStack: seq<ScanPos> := [];
    var parensStack: seq<ScanPos> := [];
    foldingRanges := [];
    var i := 0;
    while i < |tokens| && !(tokens[i].token == EOF || tokens[i].failed)
      invariant i <= StopIndex(tokens)
      invariant ScanState(curlyBraceStack, bracketStack, parensStack, foldingRanges) == RunTo(tokens, i)
    {
      curlyBraceStack, bracketStack, parensStack, foldingRanges :=
        ScanToken(curlyBraceStack, bracketStack, parensStack, foldingRanges, tokens[i].token, tokens[i].pos);
      i := i + 1;
    }
  }

  /** The switch of the scanner loop, for one token. */
  method ScanToken(curly: seq<ScanPos>, brack: seq<ScanPos>, parens: seq<ScanPos>, ranges: seq<FoldingRange>, token: Token, position: ScanPos)
    returns (curly': seq<ScanPos>, brack': seq<ScanPos>, parens': seq<ScanPos>, ranges': seq<FoldingRange>)
    ensures ScanState(curly', brack', parens', ranges') == Step(ScanState(curly, brack, parens, ranges), Scanned(token, position, false))
  {
    curly', brack', parens', ranges' := curly, brack, parens, ranges;
    if token == LBrace {
      curly' := curly + [position];
    } else if token == RBrace && |curly| > 0 {
      var lastPosition := curly[|curly| - 1];
      curly' := curly[..|curly| - 1];
      ranges' := ranges + [FoldingRange(Uint(lastPosition.row - 1), Uint(lastPosition.col), EndLine(position.row), "region")];
    } else if token == LBrack {
      brack' := brack + [position];
    } else if token == RBrack && |brack| > 0 {
      var lastPosition := brack[|brack| - 1];
      brack' := brack[..|brack| - 1];
      ranges' := ranges + [FoldingRange(Uint(lastPosition.row - 1), Uint(lastPosition.col), EndLine(position.row), "region")];
    } else if token == LParen {
      parens' := parens + [position];
    } else if token == RParen && |parens| > 0 {
      var lastPosition := parens[|parens| - 1];
      parens' := parens[..|parens| - 1];
      ranges' := ranges + [FoldingRange(Uint(lastPosition.row - 1), Uint(lastPosition.col), EndLine(position.row), "region")];
    }
  }

  predicate IsOpener(t: Token) {
    t == LBrace || t == LBrack || t == LParen
  }

  /** The number of openers among the first `n` tokens. */
  function Openers(tokens: seq<Scanned>, n: nat): nat
    requires n <= |tokens|
  {
    if n == 0 then 0 else Openers(tokens, n - 1) + if IsOpener(tokens[n - 1].token) then 1 else 0
  }

  /** The number of closers among the first `n` tokens. */
  function Closers(tokens: seq<Scanned>, n: nat): nat
    requires n <= |tokens|
  {
    if n == 0 then 0
    else Closers(tokens, n - 1) + if tokens[n - 1].token in {RBrace, RBrack, RParen} then 1 else 0
  }

  /**
   * Every range closes an opener, and every opener is either closed or
   * still open; no closer makes more than one range.
   */
  lemma {:induction false} RangesCountPairs(tokens: seq<Scanned>, n: nat)
    requires n <= |tokens|
    ensures var s := RunTo(tokens, n);
      |s.ranges| + |s.curly| + |s.brack| + |s.parens| == Openers(tokens, n)
    ensures |RunTo(tokens, n).ranges| <= Closers(tokens, n)
  {
    if n > 0 {
      RangesCountPairs(tokens, n - 1);
      StepCounts(RunTo(tokens, n - 1), tokens[n - 1]);
    }
  }

  /** One token adds an open position for an opener, and turns at most one into a range for a closer. */
  lemma StepCounts(s: ScanState, t: Scanned)
    ensures var s' := Step(s, t);
      |s'.ranges| + |s'.curly| + |s'.brack| + |s'.parens|
      == |s.ranges| + |s.curly| + |s.brack| + |s.parens| + if IsOpener(t.token) then 1 else 0
    ensures |Step(s, t).ranges| <= |s.ranges| + if t.token in {RBrace, RBrack, RParen} then 1 else 0
  {
  }

  /** The state after `n` tokens depends on those tokens only. */
  lemma {:induction false} RunToPrefix(a: seq<Scanned>, b: seq<Scanned>, n: nat)
    requires n <= |a| && n <= |b| && a[..n] == b[..n]
    ensures RunTo(a, n) == RunTo(b, n)
  {
    if n > 0 {
      assert a[..n - 1] == b[..n - 1] && a[n - 1] == b[n - 1] by {
        assert a[..n - 1] == a[..n][..n - 1] && b[..n - 1] == b[..n][..n - 1];
        assert a[n - 1] == a[..n][n - 1] && b[n - 1] == b[..n][n - 1];
      }
      RunToPrefix(a, b, n - 1);
    }
  }

  /** Nothing after the end of input or the first scan error changes the ranges. */
  lemma StopsAtFirstError(tokens: seq<Scanned>, more: seq<Scanned>)
    requires exists k :: 0 <= k < |tokens| && Stops(tokens[k])
    ensures TokenRanges(tokens + more) == TokenRanges(tokens)
  {
    var k := StopIndex(tokens);
    StopIndexOfExtension(tokens, more);
    assert (tokens + more)[..k] == tokens[..k];
    RunToPrefix(tokens + more, tokens, k);
  }

  lemma {:induction false} StopIndexOfExtension(tokens: seq<Scanned>, more: seq<Scanned>)
    requires exists k :: 0 <= k < |tokens| && Stops(tokens[k])
    ensures StopIndex(tokens + more) == StopIndex(tokens)
    decreases |tokens|
  {
    if !Stops(tokens[0]) {
      var k :| 0 <= k < |tokens| && Stops(tokens[k]);
      assert k > 0 && Stops(tokens[1..][k - 1]);
      StopIndexOfExtension(tokens[1..], more);
      assert (tokens + more)[1..] == tokens[1..] + more;
    }
  }

  /** A closer whose stack is empty is ignored, whatever the other stacks hold. */
  lemma UnmatchedCloserIgnored(s: ScanState, t: Scanned)
    requires (t.token == RBrace && |s.curly| == 0) || (t.token == RBrack && |s.brack| == 0) || (t.token == RParen && |s.parens| == 0)
    ensures Step(s, t) == s
  {
  }

  /**
   * Each kind of bracket has its own stack: in "{ [ } ]" the brace closes
   * the brace and the bracket the bracket, though they are not nested.
   */
  lemma KindsKeptApart(p1: ScanPos, p2: ScanPos, p3: ScanPos, p4: ScanPos)
    ensures TokenRanges([Scanned(LBrace, p1, false), Scanned(LBrack, p2, false), Scanned(RBrace, p3, false),
                         Scanned(RBrack, p4, false), Scanned(EOF, p4, false)])
      == [RegionRange(p1, p3), RegionRange(p2, p4)]
  {
    var tokens := [Scanned(LBrace, p1, false), Scanned(LBrack, p2, false), Scanned(RBrace, p3, false),
                   Scanned(RBrack, p4, false), Scanned(EOF, p4, false)];
    assert StopIndex(tokens) == 4 by {
      var t4 := tokens[1..][1..][1..][1..];
      assert Stops(t4[0]) && StopIndex(t4) == 0;
    }
    assert RunTo(tokens, 1) == ScanState([], [], [], []).(curly := [p1]);
    assert RunTo(tokens, 2) == ScanState([p1], [p2], [], []);
    assert RunTo(tokens, 3) == ScanState([], [p2], [], [RegionRange(p1, p3)]);
  }

  /** A closer before any opener ("} {") gives no range. */
  lemma CloserFirstIgnored(p1: ScanPos, p2: ScanPos)
    ensures TokenRanges([Scanned(RBrace, p1, false), Scanned(LBrace, p2, false)]) == []
  {
    var tokens := [Scanned(RBrace, p1, false), Scanned(LBrace, p2, false)];
    assert StopIndex(tokens) == 2 by {
      assert tokens[1..][1..] == [];
    }
    assert RunTo(tokens, 1) == ScanState([], [], [], []);
  }

  /** A comment on row `rows[i]` follows the one before on the next row. */
  predicate FollowsPrevious(rows: seq<int>, i: nat)
    requires i < |rows|
  {
    i > 0 && rows[i] == rows[i - 1] + 1
  }

  /** The index of the first comment of the run of consecutive-row comments that `i` belongs to. */
  function RunStart(rows: seq<int>, i: nat): (r: nat)
    requires i < |rows|
    ensures r <= i
    ensures !FollowsPrevious(rows, r)
    ensures forall k :: r < k <= i ==> FollowsPrevious(rows, k)
  {
    if FollowsPrevious(rows, i) then RunStart(rows, i - 1) else i
  }

  /** Comment `i` ends a run of at least two comments on consecutive rows. */
  predicate EndsBlock(rows: seq<int>, i: nat)
    requires i < |rows|
  {
    FollowsPrevious(rows, i) && (i + 1 == |rows| || !FollowsPrevious(rows, i + 1))
  }

  /** The comment range of the block ending at comment `i`: from its first comment's line to its last one's. */
  function BlockRange(rows: seq<int>, i: nat): FoldingRange
    requires i < |rows|
  {
    FoldingRange(Uint(rows[RunStart(rows, i)] - 1), 0, Uint(rows[i] - 1), "comment")
  }

  /** The comment ranges of the blocks ending among the first `n` comments. */
  function CommentBlocks(rows: seq<int>, n: nat): seq<FoldingRange>
    requires n <= |rows|
  {
    if n == 0 then []
    else CommentBlocks(rows, n - 1) + if EndsBlock(rows, n - 1) then [BlockRange(rows, n - 1)] else []
  }

  /**
   * The comment loop of findFoldingRanges over the comments' rows, in order:
   * `isBlock` says the comment follows the one before, and `startLine`
   * remembers the line of the run's first comment.
   */
  method CommentFoldingRanges(rows: seq<int>) returns (ranges: seq<FoldingRange>)
    ensures ranges == CommentBlocks(rows, |rows|)
  {
    ranges := [];
    var numComments := |rows|;
    var isBlock := false;
    var startLine: nat := 0;
    for i := 0 to numComments
      invariant ranges == CommentBlocks(rows, i)
      invariant isBlock <==> 0 < i < |rows| && FollowsPrevious(rows, i)
      invariant isBlock ==> startLine == Uint(rows[RunStart(rows, i - 1)] - 1)
    {
      if i + 1 < numComments && rows[i + 1] == rows[i] + 1 {
        isBlock := true;
        if i == 0 || rows[i - 1] != rows[i] - 1 {
          startLine := Uint(rows[i] - 1);
        }
      } else if isBlock {
        ranges := ranges + [FoldingRange(startLine, 0, Uint(rows[i] - 1), "comment")];
        isBlock := false;
      }
    }
  }

  /** Comments on rows that are never consecutive give no comment range. */
  lemma {:induction false} ScatteredCommentsNoRanges(rows: seq<int>, n: nat)
    requires n <= |rows|
    requires forall k :: 0 < k < |rows| ==> rows[k] != rows[k - 1] + 1
    ensures CommentBlocks(rows, n) == []
  {
    if n > 0 {
      ScatteredCommentsNoRanges(rows, n - 1);
    }
  }

  /** Comments on consecutive rows, two or more, fold into one range over all their lines. */
  lemma OneRunOneRange(rows: seq<int>)
    requires |rows| >= 2
    requires forall k :: 0 < k < |rows| ==> rows[k] == rows[k - 1] + 1
    ensures CommentBlocks(rows, |rows|) == [FoldingRange(Uint(rows[0] - 1), 0, Uint(rows[|rows| - 1] - 1), "comment")]
  {
    NoBlockBeforeEnd(rows, |rows| - 1);
    assert RunStart(rows, |rows| - 1) == 0;
  }

  lemma {:induction false} NoBlockBeforeEnd(rows: seq<int>, n: nat)
    requires n < |rows|
    requires forall k :: 0 < k < |rows| ==> rows[k] == rows[k - 1] + 1
    ensures CommentBlocks(rows, n) == []
  {
    if n > 0 {
      NoBlockBeforeEnd(rows, n - 1);
    }
  }

  /** More than two imports fold into one range from the first import's line to the last one's. */
  function ImportRanges(importRows: seq<int>): (r: seq<FoldingRange>)
    ensures |r| == 1 <==> |importRows| > 2
    ensures |r| == 0 <==> |importRows| <= 2
    ensures |r| == 1 ==> r[0].startLine == Uint(importRows[0] - 1) && r[0].endLine == Uint(importRows[|importRows| - 1] - 1)
  {
    if |importRows| > 2 then
      [FoldingRange(Uint(importRows[0] - 1), 0, Uint(importRows[|importRows| - 1] - 1), "imports")]
    else []
  }

  /**
   * findFoldingRanges: the comment blocks, then the imports, then the
   * matched pairs of the token stream.
   */
  method FindFoldingRanges(tokens: seq<Scanned>, commentRows: seq<int>, importRows: seq<int>) returns (ranges: seq<FoldingRange>)
    ensures ranges == CommentBlocks(commentRows, |commentRows|) + ImportRanges(importRows) + TokenRanges(tokens)
  {
    ranges := CommentFoldingRanges(commentRows);
    ranges := ranges + ImportRanges(importRows);
    var tokenRanges := TokenFoldingRanges(tokens);
    ranges := ranges + tokenRanges;
  }
}
