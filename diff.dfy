/**
 * Myers' O(ND) line diff used by the language server's formatter
 * (internal/lsp/diff.go): a greedy forward search over the edit graph that
 * records the furthest-reaching x on every diagonal after each round, a walk
 * back through that trace collecting one "snake" end point per round, and a
 * pass over the snakes that emits Delete and Insert operations.
 */
module Diff {
  import opened Wrappers
  import opened GoStrings

  datatype OpKind = Delete | Insert | Equal

  /**
   * An edit: lines a[i1..i2] are replaced by `content`, which was taken from
   * b starting at line j1. A Delete carries no content; an Insert has i1 == i2.
   */
  datatype Operation<L> = Operation(kind: OpKind, content: seq<L>, i1: nat, i2: nat, j1: nat)

  /** A point of the edit graph: x lines of a and y lines of b consumed. */
  datatype Point = Point(x: int, y: int)

  // ---------------------------------------------------------------------------
  // What an edit script means

  /** Edits lie within a[..upto], each replaces a non-inverted range, and they run left to right. */
  predicate Ordered<L>(ops: seq<Operation<L>>, upto: int)
    decreases |ops|
  {
    |ops| == 0 ||
    var o := ops[|ops| - 1];
    o.i1 <= o.i2 <= upto && Ordered(ops[..|ops| - 1], o.i1)
  }

  /** Ordered scripts have non-overlapping edits with non-decreasing start lines. */
  lemma {:induction false} OrderedSorted<L>(ops: seq<Operation<L>>, upto: int)
    requires Ordered(ops, upto)
    ensures forall j :: 0 <= j < |ops| ==> ops[j].i1 <= ops[j].i2 <= upto
    ensures forall j, l :: 0 <= j < l < |ops| ==> ops[j].i2 <= ops[l].i1
    decreases |ops|
  {
    if |ops| > 0 {
      var n := |ops| - 1;
      OrderedSorted(ops[..n], ops[n].i1);
      assert forall j :: 0 <= j < n ==> ops[..n][j] == ops[j];
    }
  }

  /** The lines a[..upto] with every edit applied: each replaces a[i1..i2] by its content. */
  function Render<L>(a: seq<L>, ops: seq<Operation<L>>, upto: nat): seq<L>
    requires upto <= |a| && Ordered(ops, upto)
    decreases |ops|
  {
    if |ops| == 0 then a[..upto]
    else
      var o := ops[|ops| - 1];
      Render(a, ops[..|ops| - 1], o.i1) + o.content + a[o.i2..upto]
  }

  /** Rendering further to the right only appends the untouched lines. */
  lemma RenderExtend<L>(a: seq<L>, ops: seq<Operation<L>>, u: nat, v: nat)
    requires u <= v <= |a| && Ordered(ops, u)
    ensures Ordered(ops, v)
    ensures Render(a, ops, v) == Render(a, ops, u) + a[u..v]
  {
    if |ops| == 0 {
      assert a[..v] == a[..u] + a[u..v];
    } else {
      var o := ops[|ops| - 1];
      assert a[o.i2..v] == a[o.i2..u] + a[u..v];
    }
  }

  /** Appending an edit to the script. */
  lemma RenderAppend<L>(a: seq<L>, ops: seq<Operation<L>>, o: Operation<L>, upto: nat)
    requires o.i1 <= o.i2 <= upto <= |a| && Ordered(ops, o.i1)
    ensures Ordered(ops + [o], upto)
    ensures Render(a, ops + [o], upto) == Render(a, ops, o.i1) + o.content + a[o.i2..upto]
  {
    assert (ops + [o])[..|ops|] == ops;
  }

  /** A single edit as Operations emits it: a non-empty deletion, or a non-empty run of b inserted in place. */
  predicate OpOK<L(==)>(b: seq<L>, o: Operation<L>) {
    match o.kind
    case Delete => o.i1 < o.i2 && o.content == []
    case Insert =>
      && o.i1 == o.i2 && 0 < |o.content| && o.j1 + |o.content| <= |b|
      && o.content == b[o.j1..o.j1 + |o.content|]
    case Equal => false
  }

  /** The properties every script produced by Operations has. */
  predicate ScriptOK<L(==)>(b: seq<L>, ops: seq<Operation<L>>, upto: int) {
    Ordered(ops, upto) && forall j :: 0 <= j < |ops| ==> OpOK(b, ops[j])
  }

  // ---------------------------------------------------------------------------
  // The edit graph

  /** The end of the diagonal run of equal lines that starts at (x, y). */
  function Slide<L(==)>(a: seq<L>, b: seq<L>, x: nat, y: nat): (r: nat)
    ensures r >= x
    decreases |a| - x
  {
    if x < |a| && y < |b| && a[x] == b[y] then Slide(a, b, x + 1, y + 1) else x
  }

  /** The run really is made of equal lines. */
  lemma {:induction false} SlideEqual<L>(a: seq<L>, b: seq<L>, x: nat, y: nat)
    ensures var r := Slide(a, b, x, y);
      r == x || (r <= |a| && y + (r - x) <= |b| && a[x..r] == b[y..y + (r - x)])
    decreases |a| - x
  {
    if x < |a| && y < |b| && a[x] == b[y] {
      SlideEqual(a, b, x + 1, y + 1);
      var r := Slide(a, b, x, y);
      if r > x + 1 {
        assert a[x..r] == [a[x]] + a[x + 1..r];
        assert b[y..y + (r - x)] == [b[y]] + b[y + 1..y + (r - x)];
      }
    }
  }

  /** Identical sequences slide all the way to the end. */
  lemma {:induction false} SlideSame<L>(a: seq<L>, x: nat)
    requires x <= |a|
    ensures Slide(a, a, x, x) == |a|
    decreases |a| - x
  {
    if x < |a| {
      SlideSame(a, x + 1);
    }
  }

  /** n is even; recursive, so the solver unfolds it one step at a time. */
  predicate Even(n: int)
    decreases if n < 0 then 0 else n
  {
    if n < 2 then n == 0 else Even(n - 2)
  }

  lemma {:induction false} EvenIsMod2(n: int)
    ensures Even(n) <==> n >= 0 && n % 2 == 0
    decreases if n < 0 then 0 else n
  {
    if n >= 2 {
      EvenIsMod2(n - 2);
    }
  }

  /** The diagonals round d visits: -d, -d + 2, ..., d. */
  predicate InDiags(k: int, d: int) {
    -d <= k <= d && Even(k + d)
  }

  /** Neighbouring diagonals belong to the neighbouring rounds. */
  lemma DiagNeighbours(k: int, d: int)
    requires InDiags(k, d)
    ensures !InDiags(k - 1, d) && !InDiags(k + 1, d) && !InDiags(k, d + 1) && (d > 0 ==> !InDiags(k, d - 1))
    ensures k != -d ==> k >= 2 - d && InDiags(k - 1, d - 1)
    ensures k != d ==> k <= d - 2 && InDiags(k + 1, d - 1)
  {
    EvenIsMod2(k + d);
    EvenIsMod2(k + d - 2);
    EvenIsMod2(k + d - 1);
    EvenIsMod2(k + d + 1);
  }

  /** Whether round d reaches diagonal k by a step down (from k + 1) rather than right (from k - 1). */
  predicate GoesDown(V: seq<int>, k: int, d: int, O: int)
    requires 1 <= O && 0 <= d <= O && |V| == 2 * O + 1 && InDiags(k, d)
  {
    k == -d || (k != d && V[k - 1 + O] < V[k + 1 + O])
  }

  /** Where round d starts on diagonal k: below the previous end on k + 1, or right of the one on k - 1. */
  function StartX(V: seq<int>, k: int, d: int, O: int): int
    requires 1 <= O && 0 <= d <= O && |V| == 2 * O + 1 && InDiags(k, d)
  {
    if GoesDown(V, k, d, O) then V[k + 1 + O] else V[k - 1 + O] + 1
  }

  /** The recorded x on diagonal k is the end of the run from round d's start point. */
  predicate EndpointOK<L(==)>(a: seq<L>, b: seq<L>, V: seq<int>, k: int, d: int, O: int)
    requires 1 <= O && 0 <= d <= O && |V| == 2 * O + 1 && InDiags(k, d)
  {
    var s := StartX(V, k, d, O);
    s >= 0 && s - k >= 0 && V[k + O] == Slide(a, b, s, s - k)
  }


  /** The state V after round d, P the state after round d - 1, diagonals up to kMax done. */
  ghost predicate RoundOK<L>(a: seq<L>, b: seq<L>, V: seq<int>, P: seq<int>, d: int, O: int, kMax: int)
    requires 1 <= O && 0 <= d <= O
  {
    && |V| == 2 * O + 1
    && (forall k {:trigger EndpointOK(a, b, V, k, d, O)} ::
          InDiags(k, d) && k <= kMax ==> EndpointOK(a, b, V, k, d, O))
    && (d > 0 ==> |P| == 2 * O + 1 && forall j {:trigger Agree(V, P, j)} :: 0 <= j < |V| && InDiags(j - O, d - 1) ==> Agree(V, P, j))
    && (d == 0 ==> V[1 + O] == 0)
  }

  /** Entry j is the same in both states. */
  predicate Agree(V: seq<int>, P: seq<int>, j: int) {
    0 <= j < |V| && j < |P| && V[j] == P[j]
  }

  function Before(T: seq<seq<int>>, e: int): seq<int> {
    if 0 < e <= |T| then T[e - 1] else []
  }

  /** Round e of the trace is complete and consistent with round e - 1. */
  ghost predicate RoundDone<L>(a: seq<L>, b: seq<L>, T: seq<seq<int>>, e: int, O: int) {
    0 <= e < |T| && 1 <= O && e <= O && RoundOK(a, b, T[e], Before(T, e), e, O, e)
  }

  /** Round e of the trace is complete; the last round D only up to the diagonal of (|a|, |b|). */
  ghost predicate RoundAt<L>(a: seq<L>, b: seq<L>, T: seq<seq<int>>, O: int, D: int, e: int) {
    && 0 <= e <= D < |T| && 1 <= O && D <= O
    && RoundOK(a, b, T[e], Before(T, e), e, O, if e == D then |a| - |b| else e)
  }

  /** What the forward search leaves behind when it reaches (|a|, |b|) in round D. */
  ghost predicate TraceOK<L>(a: seq<L>, b: seq<L>, T: seq<seq<int>>, O: int, D: int)
  {
    && O == |a| + |b| && 1 <= O && |T| == O + 1 && 0 <= D <= O
    && (forall e {:trigger RoundAt(a, b, T, O, D, e)} :: 0 <= e <= D ==> RoundAt(a, b, T, O, D, e))
    && InDiags(|a| - |b|, D) && |T[D]| == 2 * O + 1 && T[D][|a| - |b| + O] == |a|
    && (forall e {:trigger T[e]} :: D < e <= O ==> T[e] == [])
  }

  /** The rounds before D done, round D done up to the diagonal of (|a|, |b|), which it reaches: a finished search. */
  lemma TraceFound<L>(a: seq<L>, b: seq<L>, T: seq<seq<int>>, O: int, D: int)
    requires O == |a| + |b| && 1 <= O && |T| == O + 1 && 0 <= D <= O
    requires forall e {:trigger RoundDone(a, b, T, e, O)} :: 0 <= e < D ==> RoundDone(a, b, T, e, O)
    requires RoundOK(a, b, T[D], Before(T, D), D, O, |a| - |b|)
    requires InDiags(|a| - |b|, D) && T[D][|a| - |b| + O] == |a|
    requires forall e {:trigger T[e]} :: D < e <= O ==> T[e] == []
    ensures TraceOK(a, b, T, O, D)
  {
    forall e | 0 <= e <= D ensures RoundAt(a, b, T, O, D, e) {
      if e < D {
        assert RoundDone(a, b, T, e, O);
      }
    }
  }

  lemma StartFrame(V: seq<int>, W: seq<int>, k: int, d: int, O: int)
    requires 1 <= O && 0 <= d <= O && |V| == |W| == 2 * O + 1 && InDiags(k, d)
    requires forall j :: 0 <= j < |V| && (j == k - 1 + O || j == k + 1 + O) ==> V[j] == W[j]
    ensures GoesDown(V, k, d, O) == GoesDown(W, k, d, O)
    ensures StartX(V, k, d, O) == StartX(W, k, d, O)
  {
  }

  lemma EndpointFrame<L>(a: seq<L>, b: seq<L>, V: seq<int>, W: seq<int>, k: int, d: int, O: int)
    requires 1 <= O && 0 <= d <= O && |V| == |W| == 2 * O + 1 && InDiags(k, d)
    requires forall j :: 0 <= j < |V| && (j == k - 1 + O || j == k + 1 + O) ==> V[j] == W[j]
    requires V[k + O] == W[k + O]
    ensures EndpointOK(a, b, V, k, d, O) == EndpointOK(a, b, W, k, d, O)
  {
    StartFrame(V, W, k, d, O);
  }

  /** An end point recorded in a finished round lies in the quadrant x >= 0, y >= 0. */
  lemma EndpointNonNegative<L>(a: seq<L>, b: seq<L>, V: seq<int>, k: int, d: int, O: int)
    requires 1 <= O && 0 <= d <= O && |V| == 2 * O + 1 && InDiags(k, d)
    requires EndpointOK(a, b, V, k, d, O)
    ensures V[k + O] >= 0 && V[k + O] - k >= 0
  {
  }

  // ---------------------------------------------------------------------------
  // shortestEditSequence

  /**
   * Round d in progress, at diagonal k: entries of diagonals of round d below
   * k are done, every other entry still holds its value from round d - 1.
   */
  ghost predicate Partial<L>(a: seq<L>, b: seq<L>, V: seq<int>, prev: seq<int>, d: int, O: int, k: int)
    requires 1 <= O && 0 <= d <= O
  {
    && |V| == |prev| == 2 * O + 1
    && (forall j {:trigger V[j]} :: 0 <= j < |V| && !(InDiags(j - O, d) && j - O < k) ==> V[j] == prev[j])
    && (forall k' {:trigger EndpointOK(a, b, V, k', d, O)} :: InDiags(k', d) && k' < k ==> EndpointOK(a, b, V, k', d, O))
  }

  /** Round d starts from the state left by round d - 1 (all zero before round 0). */
  ghost predicate RoundStart<L>(a: seq<L>, b: seq<L>, prev: seq<int>, P: seq<int>, d: int, O: int)
    requires 1 <= O && 0 <= d <= O
  {
    && |prev| == 2 * O + 1
    && (d == 0 ==> forall j :: 0 <= j < |prev| ==> prev[j] == 0)
    && (d > 0 ==> RoundOK(a, b, prev, P, d - 1, O, d - 1))
  }

  /** The start point of a round's step lies in the quadrant x >= 0, y >= 0. */
  lemma StartIsInQuadrant<L>(a: seq<L>, b: seq<L>, prev: seq<int>, P: seq<int>, V: seq<int>, k: int, d: int, O: int)
    requires 1 <= O && 0 <= d <= O && InDiags(k, d)
    requires RoundStart(a, b, prev, P, d, O) && Partial(a, b, V, prev, d, O, k)
    ensures StartX(V, k, d, O) >= 0 && StartX(V, k, d, O) - k >= 0
  {
    DiagNeighbours(k, d);
    if d > 0 {
      if GoesDown(V, k, d, O) {
        assert !InDiags(k + 1, d) && V[k + 1 + O] == prev[k + 1 + O];
        assert EndpointOK(a, b, prev, k + 1, d - 1, O);
      } else {
        assert !InDiags(k - 1, d) && V[k - 1 + O] == prev[k - 1 + O];
        assert EndpointOK(a, b, prev, k - 1, d - 1, O);
      }
    } else {
      assert !InDiags(1, 0) && V[1 + O] == prev[1 + O];
    }
  }

  /** Recording the end of the run on diagonal k moves round d on to diagonal k + 2. */
  lemma DiagonalDone<L>(a: seq<L>, b: seq<L>, V: seq<int>, prev: seq<int>, d: int, O: int, k: int, x: int)
    requires 1 <= O && 0 <= d <= O && InDiags(k, d) && Partial(a, b, V, prev, d, O, k)
    requires StartX(V, k, d, O) >= 0 && StartX(V, k, d, O) - k >= 0
    requires x == Slide(a, b, StartX(V, k, d, O), StartX(V, k, d, O) - k)
    ensures Partial(a, b, V[k + O := x], prev, d, O, k + 2)
  {
    var W := V[k + O := x];
    forall k' | InDiags(k', d) && k' < k + 2
      ensures EndpointOK(a, b, W, k', d, O)
    {
      if k' == k {
        StartFrame(V, W, k, d, O);
      } else {
        DiagNeighbours(k', d);
        EndpointFrame(a, b, V, W, k', d, O);
      }
    }
    forall j | 0 <= j < |W| && !(InDiags(j - O, d) && j - O < k + 2)
      ensures W[j] == prev[j]
    {
      assert j != k + O;
    }
  }

  /** A round that is done up to diagonal kMax is consistent with the one before. */
  lemma RoundClosed<L>(a: seq<L>, b: seq<L>, V: seq<int>, prev: seq<int>, P0: seq<int>, P: seq<int>, d: int, O: int, kMax: int, kEnd: int)
    requires 1 <= O && 0 <= d <= O
    requires kMax < kEnd && RoundStart(a, b, prev, P0, d, O) && Partial(a, b, V, prev, d, O, kEnd)
    requires d > 0 ==> P == prev
    ensures RoundOK(a, b, V, P, d, O, kMax)
  {
    forall k | InDiags(k, d) && k <= kMax ensures EndpointOK(a, b, V, k, d, O) {
      assert k < kEnd;
    }
    if d > 0 {
      forall j | 0 <= j < |V| && InDiags(j - O, d - 1) ensures Agree(V, P, j) {
        DiagNeighbours(j - O, d - 1);
      }
    } else {
      assert !InDiags(1, 0) && V[1 + O] == prev[1 + O];
    }
  }

  /** Replacing round d of a trace leaves the earlier rounds as they were. */
  lemma EarlierRoundsKept<L>(a: seq<L>, b: seq<L>, T: seq<seq<int>>, T': seq<seq<int>>, d: int, O: int)
    requires 0 <= d < |T| == |T'| && forall e :: 0 <= e < d ==> T'[e] == T[e]
    requires forall e {:trigger RoundDone(a, b, T, e, O)} :: 0 <= e < d ==> RoundDone(a, b, T, e, O)
    ensures forall e {:trigger RoundDone(a, b, T', e, O)} :: 0 <= e < d ==> RoundDone(a, b, T', e, O)
  {
    forall e | 0 <= e < d ensures RoundDone(a, b, T', e, O) {
      assert RoundDone(a, b, T, e, O);
      assert Before(T', e) == Before(T, e);
    }
  }

  /** The diagonal moves from (x0, x0 - k) while the lines agree. */
  method FollowSnake<L(==)>(a: seq<L>, b: seq<L>, x0: int, k: int) returns (x: int, y: int)
    requires x0 >= 0 && x0 - k >= 0
    ensures x == Slide(a, b, x0, x0 - k) && y == x - k
  {
    x, y := x0, x0 - k;
    while x < |a| && y < |b| && a[x] == b[y]
      invariant x0 <= x && y == x - k
      invariant Slide(a, b, x, y) == Slide(a, b, x0, x0 - k)
      decreases |a| - x
    {
      x := x + 1;
      y := y + 1;
    }
  }

  /**
   * Round d of the forward search: for k = -d, -d + 2, ..., d, step down or
   * right from round d - 1's end points, slide along the diagonal, and record
   * the x reached in V. Stops as soon as (|a|, |b|) is reached.
   */
  method SearchRound<L(==)>(a: seq<L>, b: seq<L>, V: array<int>, d: int, offset: int,
                            ghost prev: seq<int>, ghost P: seq<int>) returns (hit: bool)
    modifies V
    requires offset == |a| + |b| && 1 <= offset && 0 <= d <= offset && V.Length == 2 * offset + 1
    requires V[..] == prev && RoundStart(a, b, prev, P, d, offset)
    ensures hit ==> InDiags(|a| - |b|, d) && V[|a| - |b| + offset] == |a|
    ensures hit ==> RoundOK(a, b, V[..], prev, d, offset, |a| - |b|)
    ensures !hit ==> RoundOK(a, b, V[..], prev, d, offset, d)
    ensures a == b && d == 0 ==> hit
  {
    var M, N := |a|, |b|;
    var k := -d;
    while k <= d
      invariant -d <= k <= d + 2 && Even(k + d)
      invariant Partial(a, b, V[..], prev, d, offset, k)
      invariant a == b && d == 0 ==> k == 0
    {
      ghost var before := V[..];
      var x: int;
      if k == -d || (k != d && V[k - 1 + offset] < V[k + 1 + offset]) {
        x := V[k + 1 + offset];
      } else {
        x := V[k - 1 + offset] + 1;
      }
      ghost var start := x;
      assert start == StartX(before, k, d, offset);
      StartIsInQuadrant(a, b, prev, P, before, k, d, offset);
      var y;
      x, y := FollowSnake(a, b, x, k);
      V[k + offset] := x;
      DiagonalDone(a, b, before, prev, d, offset, k, x);
      assert V[..] == before[k + offset := x];
      assert a == b && d == 0 ==> x == M && y == N by {
        if a == b && d == 0 {
          SlideSame(a, 0);
        }
      }
      if x == M && y == N {
        RoundClosed(a, b, V[..], prev, P, prev, d, offset, k, k + 2);
        return true;
      }
      k := k + 2;
    }
    RoundClosed(a, b, V[..], prev, P, prev, d, offset, d, k);
    return false;
  }

  /**
   * The forward search. When it reaches (|a|, |b|) in round `rounds`, the
   * trace records every round up to that one; otherwise it gives up after
   * |a| + |b| rounds with an empty trace, as the source returns nil.
   * Every access to V stays within 0 .. 2(|a| + |b|).
   */
  method ShortestEditSequence<L(==)>(a: seq<L>, b: seq<L>)
    returns (trace: seq<seq<int>>, offset: int, found: bool, ghost rounds: nat)
    requires |a| + |b| > 0
    ensures found ==> TraceOK(a, b, trace, offset, rounds)
    ensures !found ==> trace == [] && offset == 0
    ensures a == b ==> found && rounds == 0
  {
    var M, N := |a|, |b|;
    var V := new int[2 * (N + M) + 1](_ => 0);
    offset := N + M;
    trace := seq(N + M + 1, _ => []);
    rounds := 0;
    var d := 0;
    while d <= N + M
      invariant 0 <= d <= offset + 1
      invariant |trace| == offset + 1 && V.Length == 2 * offset + 1
      invariant forall e {:trigger RoundDone(a, b, trace, e, offset)} :: 0 <= e < d ==> RoundDone(a, b, trace, e, offset)
      invariant forall e {:trigger trace[e]} :: d <= e <= offset ==> trace[e] == []
      invariant d <= offset ==> RoundStart(a, b, V[..], Before(trace, d - 1), d, offset)
      invariant d > 0 ==> V[..] == trace[d - 1]
      invariant a == b ==> d == 0
    {
      ghost var prev := V[..];
      var hit := SearchRound(a, b, V, d, offset, prev, Before(trace, d - 1));
      ghost var old_trace := trace;
      trace := trace[d := V[..]];
      EarlierRoundsKept(a, b, old_trace, trace, d, offset);
      assert Before(trace, d) == prev || d == 0;
      if hit {
        rounds := d;
        found := true;
        TraceFound(a, b, trace, offset, d);
        return;
      }
      assert RoundDone(a, b, trace, d, offset);
      d := d + 1;
    }
    trace, offset, found := [], 0, false;
  }

  // ---------------------------------------------------------------------------
  // backtrack

  /**
   * One snake of a path: from p, the single deletes (or inserts) that bring it
   * onto c's diagonal, then equal lines up to c.
   */
  predicate Step<L(==)>(a: seq<L>, b: seq<L>, p: Point, c: Point) {
    var kp, kc := p.x - p.y, c.x - c.y;
    var s := if kc > kp then Point(p.x + (kc - kp), p.y) else Point(p.x, p.y + (kp - kc));
    && 0 <= p.x && 0 <= p.y && s.x <= c.x && c.x <= |a| && c.y <= |b|
    && a[s.x..c.x] == b[s.y..c.y]
  }

  /** The snakes that are present, taken in order from p, form a path that ends at (|a|, |b|). */
  predicate ChainOK<L(==)>(a: seq<L>, b: seq<L>, snakes: seq<Option<Point>>, p: Point)
    decreases |snakes|
  {
    if |snakes| == 0 then p == Point(|a|, |b|)
    else match snakes[0]
      case None => ChainOK(a, b, snakes[1..], p)
      case Some(c) => Step(a, b, p, c) && ChainOK(a, b, snakes[1..], c)
  }

  lemma {:induction false} ChainSkipsNone<L>(a: seq<L>, b: seq<L>, snakes: seq<Option<Point>>, n: nat, p: Point)
    requires n <= |snakes| && forall e :: 0 <= e < n ==> snakes[e] == None
    ensures ChainOK(a, b, snakes, p) == ChainOK(a, b, snakes[n..], p)
  {
    if n > 0 {
      ChainSkipsNone(a, b, snakes[1..], n - 1, p);
      assert snakes[1..][n - 1..] == snakes[n..];
    }
  }

  /** A missing snake adds nothing to the path. */
  lemma ChainNone<L>(a: seq<L>, b: seq<L>, snakes: seq<Option<Point>>, d: int, p: Point)
    requires 0 <= d < |snakes| && snakes[d] == None
    ensures ChainOK(a, b, snakes[d..], p) == ChainOK(a, b, snakes[d + 1..], p)
  {
    assert snakes[d..][1..] == snakes[d + 1..];
  }

  /** Recording the snake from p to c in front of a path from c gives a path from p. */
  lemma ChainSome<L>(a: seq<L>, b: seq<L>, old_snakes: seq<Option<Point>>, snakes: seq<Option<Point>>, d: int, p: Point, c: Point)
    requires 0 <= d < |old_snakes| && snakes == old_snakes[d := Some(c)]
    requires Step(a, b, p, c) && ChainOK(a, b, old_snakes[d + 1..], c)
    ensures ChainOK(a, b, snakes[d..], p)
  {
    assert snakes[d..][1..] == old_snakes[d + 1..];
  }

  /** The diagonal that round d's end point on diagonal k was reached from. */
  function PrevDiag(V: seq<int>, k: int, d: int, O: int): int
    requires 1 <= O && 0 <= d <= O && |V| == 2 * O + 1 && InDiags(k, d)
  {
    if GoesDown(V, k, d, O) then k + 1 else k - 1
  }

  /** (x, y) is the end point recorded for its diagonal in round d. */
  ghost predicate OnTrace<L>(a: seq<L>, b: seq<L>, T: seq<seq<int>>, O: int, D: int, d: int, x: int, y: int) {
    && 1 <= O && |T| == O + 1 && 0 <= d <= D <= O && |T[d]| == 2 * O + 1
    && 0 <= x <= |a| && 0 <= y <= |b|
    && InDiags(x - y, d) && x - y <= (if d == D then |a| - |b| else d) && T[d][x - y + O] == x
  }

  /** A snake of the search, seen from the end point it started after. */
  lemma SnakeIsStep<L>(a: seq<L>, b: seq<L>, px: int, py: int, s: int, k: int, x: int, y: int)
    requires 0 <= px && 0 <= py && x <= |a| && y <= |b| && y == x - k
    requires (px - py == k + 1 && s == px) || (px - py == k - 1 && s == px + 1)
    requires s >= 0 && s - k >= 0 && x == Slide(a, b, s, s - k)
    ensures px <= x && py <= y
    ensures Step(a, b, Point(px, py), Point(x, y))
  {
    SlideEqual(a, b, s, s - k);
  }

  /** The end point recorded for (x, y) in round d satisfies the round's invariant. */
  lemma EndpointOnTrace<L>(a: seq<L>, b: seq<L>, T: seq<seq<int>>, O: int, D: int, d: int, x: int, y: int)
    requires TraceOK(a, b, T, O, D) && OnTrace(a, b, T, O, D, d, x, y)
    ensures EndpointOK(a, b, T[d], x - y, d, O)
  {
    assert RoundAt(a, b, T, O, D, d);
  }

  /** The diagonal round d stepped from holds, in round d, the end point of round d - 1. */
  lemma PrevOnTrace<L>(a: seq<L>, b: seq<L>, T: seq<seq<int>>, O: int, D: int, d: int, k: int)
    requires TraceOK(a, b, T, O, D) && 0 < d <= D && InDiags(k, d) && |T[d]| == |T[d - 1]| == 2 * O + 1
    ensures var kPrev := PrevDiag(T[d], k, d, O);
      InDiags(kPrev, d - 1) && T[d][kPrev + O] == T[d - 1][kPrev + O] && EndpointOK(a, b, T[d - 1], kPrev, d - 1, O)
  {
    assert RoundAt(a, b, T, O, D, d);
    DiagNeighbours(k, d);
    var kPrev := PrevDiag(T[d], k, d, O);
    assert Agree(T[d], Before(T, d), kPrev + O);
    assert RoundAt(a, b, T, O, D, d - 1);
  }

  /**
   * One step back, stated on two consecutive rounds V (round d) and P
   * (round d - 1) alone: the end point (x, y) of round d was reached by a
   * snake from the end point of round d - 1 on the diagonal it stepped from.
   */
  lemma SnakeBack<L>(a: seq<L>, b: seq<L>, V: seq<int>, P: seq<int>, O: int, d: int, x: int, y: int)
    returns (kPrev: int, px: int)
    requires 1 <= O && 0 < d <= O && |V| == |P| == 2 * O + 1
    requires 0 <= x <= |a| && 0 <= y <= |b| && InDiags(x - y, d)
    requires EndpointOK(a, b, V, x - y, d, O) && V[x - y + O] == x
    requires InDiags(PrevDiag(V, x - y, d, O), d - 1) && V[PrevDiag(V, x - y, d, O) + O] == P[PrevDiag(V, x - y, d, O) + O]
    requires EndpointOK(a, b, P, PrevDiag(V, x - y, d, O), d - 1, O)
    ensures kPrev == PrevDiag(V, x - y, d, O) && px == V[kPrev + O]
    ensures 0 <= px <= x && 0 <= px - kPrev <= y && P[kPrev + O] == px
    ensures Step(a, b, Point(px, px - kPrev), Point(x, y))
  {
    var k := x - y;
    kPrev := PrevDiag(V, k, d, O);
    EndpointNonNegative(a, b, P, kPrev, d - 1, O);
    px := V[kPrev + O];
    var s := StartX(V, k, d, O);
    SnakeIsStep(a, b, px, px - kPrev, s, k, x, y);
  }

  /** Going back one round from a recorded end point lands on the end point of round d - 1 it was reached from. */
  lemma BackStep<L>(a: seq<L>, b: seq<L>, T: seq<seq<int>>, O: int, D: int, d: int, x: int, y: int)
    returns (kPrev: int, px: int)
    requires TraceOK(a, b, T, O, D) && 0 < d && OnTrace(a, b, T, O, D, d, x, y)
    ensures kPrev == PrevDiag(T[d], x - y, d, O) && px == T[d][kPrev + O]
    ensures OnTrace(a, b, T, O, D, d - 1, px, px - kPrev)
    ensures Step(a, b, Point(px, px - kPrev), Point(x, y))
  {
    EndpointOnTrace(a, b, T, O, D, d, x, y);
    assert RoundAt(a, b, T, O, D, d - 1);
    PrevOnTrace(a, b, T, O, D, d, x - y);
    kPrev, px := SnakeBack(a, b, T[d], T[d - 1], O, d, x, y);
  }

  /** The walk back starts from (|a|, |b|), the end point of the last round. */
  lemma LastOnTrace<L>(a: seq<L>, b: seq<L>, T: seq<seq<int>>, O: int, D: int)
    requires TraceOK(a, b, T, O, D)
    ensures OnTrace(a, b, T, O, D, D, |a|, |b|)
  {
  }

  /** Rounds without saved state lie above the last round; skipping one keeps the walk at (|a|, |b|). */
  lemma SkipRound<L>(a: seq<L>, b: seq<L>, T: seq<seq<int>>, O: int, D: int, d: int, x: int, y: int)
    requires TraceOK(a, b, T, O, D) && 0 < d < |T| && |T[d]| == 0
    requires d > D ==> x == |a| && y == |b|
    requires d <= D ==> OnTrace(a, b, T, O, D, d, x, y)
    ensures d > D
    ensures d - 1 <= D ==> OnTrace(a, b, T, O, D, d - 1, x, y)
  {
    LastOnTrace(a, b, T, O, D);
  }

  /** Whatever point the walk back stops at is reached from (0, 0) by one snake. */
  lemma FirstStep<L>(a: seq<L>, b: seq<L>, T: seq<seq<int>>, O: int, D: int, d: int, x: int, y: int)
    requires TraceOK(a, b, T, O, D) && 0 <= d
    requires d <= D ==> OnTrace(a, b, T, O, D, d, x, y)
    requires d > D ==> x == |a| && y == |b|
    requires x == 0 || y == 0 || d == 0
    ensures Step(a, b, Point(0, 0), Point(x, y))
  {
    if x != 0 && y != 0 {
      assert d == 0 && x == y;
      assert RoundAt(a, b, T, O, D, 0);
      assert EndpointOK(a, b, T[0], 0, 0, O);
      SlideEqual(a, b, 0, 0);
    }
  }

  /**
   * The walk back is at (x, y) with round d next: (x, y) is round d's end
   * point on its diagonal (or still (|a|, |b|) above the last round), no
   * snake is recorded for rounds up to d, and the snakes recorded above d
   * form a path from (x, y) to (|a|, |b|).
   */
  ghost predicate Walk<L>(a: seq<L>, b: seq<L>, T: seq<seq<int>>, O: int, D: int, snakes: seq<Option<Point>>, d: int, x: int, y: int) {
    && 0 <= d < |T| && |snakes| == |T|
    && (d > D ==> x == |a| && y == |b|)
    && (d <= D ==> OnTrace(a, b, T, O, D, d, x, y))
    && (forall e :: 0 <= e <= d ==> snakes[e] == None)
    && ChainOK(a, b, snakes[d + 1..], Point(x, y))
  }

  /** A round with no recorded state is skipped. */
  lemma WalkSkip<L>(a: seq<L>, b: seq<L>, T: seq<seq<int>>, O: int, D: int, snakes: seq<Option<Point>>, d: int, x: int, y: int)
    requires TraceOK(a, b, T, O, D) && Walk(a, b, T, O, D, snakes, d, x, y) && 0 < d && |T[d]| == 0
    ensures Walk(a, b, T, O, D, snakes, d - 1, x, y)
  {
    LastOnTrace(a, b, T, O, D);
    ChainNone(a, b, snakes, d, Point(x, y));
  }

  /** Recording (x, y) for round d and stepping back to the end point of round d - 1 it came from. */
  lemma WalkStep<L>(a: seq<L>, b: seq<L>, T: seq<seq<int>>, O: int, D: int, snakes: seq<Option<Point>>, d: int, x: int, y: int)
    returns (kPrev: int, px: int)
    requires TraceOK(a, b, T, O, D) && Walk(a, b, T, O, D, snakes, d, x, y) && 0 < d && |T[d]| != 0
    ensures d <= O && |T[d]| == 2 * O + 1 && InDiags(x - y, d)
    ensures kPrev == PrevDiag(T[d], x - y, d, O) && px == T[d][kPrev + O]
    ensures Walk(a, b, T, O, D, snakes[d := Some(Point(x, y))], d - 1, px, px - kPrev)
  {
    kPrev, px := BackStep(a, b, T, O, D, d, x, y);
    ChainSome(a, b, snakes, snakes[d := Some(Point(x, y))], d, Point(px, px - kPrev), Point(x, y));
  }

  /** The snakes array before the walk back: nothing recorded for any round. */
  function NoSnakes(n: nat): (r: seq<Option<Point>>)
    ensures |r| == n && forall e :: 0 <= e < n ==> r[e] == None
  {
    seq(n, _ => None)
  }

  /** The walk back starts at (|a|, |b|) above every round, with nothing recorded. */
  lemma WalkStart<L>(a: seq<L>, b: seq<L>, T: seq<seq<int>>, O: int, D: int)
    requires TraceOK(a, b, T, O, D)
    ensures Walk(a, b, T, O, D, NoSnakes(|T|), |T| - 1, |a|, |b|)
  {
    LastOnTrace(a, b, T, O, D);
    var none := NoSnakes(|T|);
    assert none[|T|..] == [];
  }

  /**
   * The loop of backtrack as a recursive function: what the walk back from
   * (x, y) in round d returns, given the snakes recorded so far. Rounds with
   * no saved state are skipped. A point off round d's diagonals, which the
   * search never records, ends the walk.
   */
  function BackFrom(T: seq<seq<int>>, O: int, snakes: seq<Option<Point>>, d: int, x: int, y: int): (r: seq<Option<Point>>)
    requires 0 <= d < |T| == |snakes|
    ensures |r| == |snakes|
    decreases d
  {
    if x > 0 && y > 0 && d > 0 then
      var V := T[d];
      if |V| == 0 then BackFrom(T, O, snakes, d - 1, x, y)
      else if !(1 <= O && d <= O && |V| == 2 * O + 1 && InDiags(x - y, d)) then snakes
      else
        var kPrev := PrevDiag(V, x - y, d, O);
        var px := V[kPrev + O];
        BackFrom(T, O, snakes[d := Some(Point(x, y))], d - 1, px, px - kPrev)
    else if x < 0 || y < 0 then snakes
    else snakes[d := Some(Point(x, y))]
  }

  /** On a trace of a finished search, the walk back records a path from (0, 0) to (|a|, |b|). */
  lemma {:induction false} BackFromChain<L>(a: seq<L>, b: seq<L>, T: seq<seq<int>>, O: int, D: int,
                                            snakes: seq<Option<Point>>, d: int, x: int, y: int)
    requires TraceOK(a, b, T, O, D) && Walk(a, b, T, O, D, snakes, d, x, y)
    ensures ChainOK(a, b, BackFrom(T, O, snakes, d, x, y), Point(0, 0))
    decreases d
  {
    if x > 0 && y > 0 && d > 0 {
      if |T[d]| == 0 {
        WalkSkip(a, b, T, O, D, snakes, d, x, y);
        BackFromSkip(T, O, snakes, d, x, y);
        BackFromChain(a, b, T, O, D, snakes, d - 1, x, y);
      } else {
        var kPrev, px := WalkStep(a, b, T, O, D, snakes, d, x, y);
        BackFromStep(T, O, snakes, d, x, y, px, px - kPrev);
        BackFromChain(a, b, T, O, D, snakes[d := Some(Point(x, y))], d - 1, px, px - kPrev);
      }
    } else {
      BackFromChainEnd(a, b, T, O, D, snakes, d, x, y);
    }
  }

  /** Where the walk back stops, recording its last point closes the path at (0, 0). */
  lemma BackFromChainEnd<L>(a: seq<L>, b: seq<L>, T: seq<seq<int>>, O: int, D: int,
                            snakes: seq<Option<Point>>, d: int, x: int, y: int)
    requires TraceOK(a, b, T, O, D) && Walk(a, b, T, O, D, snakes, d, x, y) && !(x > 0 && y > 0 && d > 0)
    ensures ChainOK(a, b, BackFrom(T, O, snakes, d, x, y), Point(0, 0))
  {
    BackFromEnd(T, O, snakes, d, x, y);
    FirstStep(a, b, T, O, D, d, x, y);
    var r := snakes[d := Some(Point(x, y))];
    ChainSome(a, b, snakes, r, d, Point(0, 0), Point(x, y));
    ChainSkipsNone(a, b, r, d, Point(0, 0));
  }

  /** When the search ends in round 0, every round above it is empty and the only snake recorded is (|a|, |b|). */
  lemma {:induction false} BackFromRoundZero(T: seq<seq<int>>, O: int, snakes: seq<Option<Point>>, d: int, p: Point)
    requires 0 <= d < |T| == |snakes| && forall e :: 0 < e <= d ==> T[e] == []
    requires forall e :: 0 <= e < |snakes| && snakes[e].Some? ==> snakes[e].value == p
    ensures var r := BackFrom(T, O, snakes, d, p.x, p.y);
      forall e :: 0 <= e < |r| && r[e].Some? ==> r[e].value == p
    decreases d
  {
    if p.x > 0 && p.y > 0 && d > 0 {
      BackFromSkip(T, O, snakes, d, p.x, p.y);
      BackFromRoundZero(T, O, snakes, d - 1, p);
    }
  }

  /** The diagonal that round d's end point (x, y) was reached from, and that diagonal's entry. */
  method StepBack(V: seq<int>, offset: int, d: int, x: int, y: int) returns (px: int, py: int)
    requires 1 <= offset && 0 < d <= offset && |V| == 2 * offset + 1 && InDiags(x - y, d)
    ensures var kPrev := PrevDiag(V, x - y, d, offset);
      px == V[kPrev + offset] && py == px - kPrev
  {
    var k := x - y;
    var kPrev: int;
    if k == -d || (k != d && V[k - 1 + offset] < V[k + 1 + offset]) {
      kPrev := k + 1;
    } else {
      kPrev := k - 1;
    }
    px := V[kPrev + offset];
    py := px - kPrev;
  }

  /**
   * One pass of backtrack's loop at round d > 0 with x, y > 0: an empty
   * round is skipped, otherwise (x, y) is recorded for round d and the walk
   * moves to the end point of round d - 1 it came from.
   */
  method BackRound<L>(trace: seq<seq<int>>, offset: int, snakes: seq<Option<Point>>, d: int, x: int, y: int,
                      ghost a: seq<L>, ghost b: seq<L>, ghost rounds: nat)
    returns (snakes': seq<Option<Point>>, x': int, y': int)
    requires TraceOK(a, b, trace, offset, rounds) && 0 < d < |trace| == |snakes| && x > 0 && y > 0
    requires d > rounds ==> x == |a| && y == |b|
    requires d <= rounds ==> OnTrace(a, b, trace, offset, rounds, d, x, y)
    ensures |snakes'| == |trace|
    ensures d - 1 > rounds ==> x' == |a| && y' == |b|
    ensures d - 1 <= rounds ==> OnTrace(a, b, trace, offset, rounds, d - 1, x', y')
    ensures BackFrom(trace, offset, snakes', d - 1, x', y') == BackFrom(trace, offset, snakes, d, x, y)
  {
    var V := trace[d];
    if |V| == 0 {
      SkipRound(a, b, trace, offset, rounds, d, x, y);
      BackFromSkip(trace, offset, snakes, d, x, y);
      return snakes, x, y;
    }
    ghost var kp, px := BackStep(a, b, trace, offset, rounds, d, x, y);
    snakes' := snakes[d := Some(Point(x, y))];
    x', y' := StepBack(V, offset, d, x, y);
    BackFromStep(trace, offset, snakes, d, x, y, x', y');
    assert x' == px && y' == px - kp;
  }

  lemma BackFromEnd(T: seq<seq<int>>, O: int, snakes: seq<Option<Point>>, d: int, x: int, y: int)
    requires 0 <= d < |T| == |snakes| && !(x > 0 && y > 0 && d > 0)
    ensures BackFrom(T, O, snakes, d, x, y) == if x < 0 || y < 0 then snakes else snakes[d := Some(Point(x, y))]
  {
  }

  lemma BackFromSkip(T: seq<seq<int>>, O: int, snakes: seq<Option<Point>>, d: int, x: int, y: int)
    requires 0 < d < |T| == |snakes| && x > 0 && y > 0 && |T[d]| == 0
    ensures BackFrom(T, O, snakes, d - 1, x, y) == BackFrom(T, O, snakes, d, x, y)
  {
  }

  lemma BackFromStep(T: seq<seq<int>>, O: int, snakes: seq<Option<Point>>, d: int, x: int, y: int, px: int, py: int)
    requires 0 < d < |T| == |snakes| && x > 0 && y > 0
    requires 1 <= O && d <= O && |T[d]| == 2 * O + 1 && InDiags(x - y, d)
    requires var kPrev := PrevDiag(T[d], x - y, d, O);
      px == T[d][kPrev + O] && py == px - kPrev
    ensures BackFrom(T, O, snakes[d := Some(Point(x, y))], d - 1, px, py) == BackFrom(T, O, snakes, d, x, y)
  {
  }

  /**
   * Walks the trace back from (x0, y0) = (|a|, |b|), recording in snakes[d]
   * the end point reached in round d; the recorded points form a path from
   * (0, 0) to (|a|, |b|).
   */
  method Backtrack<L(==)>(trace: seq<seq<int>>, x0: int, y0: int, offset: int,
                   ghost a: seq<L>, ghost b: seq<L>, ghost rounds: nat)
    returns (snakes: seq<Option<Point>>)
    requires x0 == |a| && y0 == |b| && TraceOK(a, b, trace, offset, rounds)
    ensures snakes == BackFrom(trace, offset, NoSnakes(|trace|), |trace| - 1, x0, y0)
    ensures |snakes| == |trace|
    ensures ChainOK(a, b, snakes, Point(0, 0))
    ensures rounds == 0 ==> x0 == y0
    ensures rounds == 0 ==> forall e :: 0 <= e < |snakes| && snakes[e].Some? ==> snakes[e].value == Point(x0, y0)
  {
    snakes := NoSnakes(|trace|);
    ghost var start := snakes;
    ghost var result := BackFrom(trace, offset, snakes, |trace| - 1, x0, y0);
    var x, y := x0, y0;
    var d := |trace| - 1;
    LastOnTrace(a, b, trace, offset, rounds);
    while x > 0 && y > 0 && d > 0
      invariant 0 <= d < |trace| && |snakes| == |trace|
      invariant d > rounds ==> x == x0 && y == y0
      invariant d <= rounds ==> OnTrace(a, b, trace, offset, rounds, d, x, y)
      invariant BackFrom(trace, offset, snakes, d, x, y) == result
      decreases d
    {
      snakes, x, y := BackRound(trace, offset, snakes, d, x, y, a, b, rounds);
      d := d - 1;
    }
    BackFromEnd(trace, offset, snakes, d, x, y);
    if x >= 0 && y >= 0 {
      snakes := snakes[d := Some(Point(x, y))];
    }
    assert snakes == result;
    WalkStart(a, b, trace, offset, rounds);
    BackFromChain(a, b, trace, offset, rounds, start, |trace| - 1, x0, y0);
    if rounds == 0 {
      BackFromRoundZero(trace, offset, start, |trace| - 1, Point(x0, y0));
    }
  }

  /**
   * The first two steps of `operations`: the forward search, then the walk
   * back through its trace. None when the search gives up.
   */
  method ShortestPath<L(==)>(a: seq<L>, b: seq<L>) returns (path: Option<seq<Option<Point>>>, ghost rounds: nat)
    requires |a| + |b| > 0
    ensures path.Some? ==> ChainOK(a, b, path.value, Point(0, 0))
    ensures a == b ==> path.Some? && rounds == 0
    ensures path.Some? && rounds == 0 ==> |a| == |b|
    ensures path.Some? && rounds == 0 ==>
      forall e :: 0 <= e < |path.value| && path.value[e].Some? ==> path.value[e].value == Point(|a|, |b|)
  {
    var trace, offset, found;
    trace, offset, found, rounds := ShortestEditSequence(a, b);
    if !found {
      return None, rounds;
    }
    var snakes := Backtrack(trace, |a|, |b|, offset, a, b, rounds);
    return Some(snakes), rounds;
  }

  // ---------------------------------------------------------------------------
  // operations

  /** The `add` closure: completes an edit at (i2, j2), taking an Insert's lines from b. */
  function Complete<L(==)>(op: Operation<L>, i2: nat, j2: nat, b: seq<L>): (r: Operation<L>)
    requires op.j1 <= j2 <= |b|
    ensures r.kind == op.kind && r.i1 == op.i1 && r.j1 == op.j1 && r.i2 == i2
    ensures r.content == if op.kind == Insert then b[op.j1..j2] else op.content
  {
    op.(i2 := i2, content := if op.kind == Insert then b[op.j1..j2] else op.content)
  }

  /** The script so far turns a[..x] into b[..y]. */
  ghost predicate Progress<L>(a: seq<L>, b: seq<L>, ops: seq<Operation<L>>, x: int, y: int) {
    0 <= x <= |a| && 0 <= y <= |b| && ScriptOK(b, ops, x) && Render(a, ops, x) == b[..y]
  }

  lemma AddDelete<L>(a: seq<L>, b: seq<L>, ops: seq<Operation<L>>, x0: nat, x: nat, y: nat)
    requires Progress(a, b, ops, x0, y) && x0 < x <= |a|
    ensures Progress(a, b, ops + [Operation(Delete, [], x0, x, y)], x, y)
  {
    var o := Operation(Delete, [], x0, x, y);
    RenderAppend(a, ops, o, x);
    assert forall j :: 0 <= j < |ops| ==> (ops + [o])[j] == ops[j];
  }

  lemma AddInsert<L>(a: seq<L>, b: seq<L>, ops: seq<Operation<L>>, x: nat, y0: nat, y: nat)
    requires Progress(a, b, ops, x, y0) && y0 < y <= |b|
    ensures Progress(a, b, ops + [Operation(Insert, b[y0..y], x, x, y0)], x, y)
  {
    var o := Operation(Insert, b[y0..y], x, x, y0);
    RenderAppend(a, ops, o, x);
    assert forall j :: 0 <= j < |ops| ==> (ops + [o])[j] == ops[j];
    assert b[..y] == b[..y0] + b[y0..y];
  }

  lemma AddEqual<L>(a: seq<L>, b: seq<L>, ops: seq<Operation<L>>, x0: nat, y0: nat, x: nat, y: nat)
    requires Progress(a, b, ops, x0, y0) && x0 <= x <= |a| && y0 <= y <= |b| && a[x0..x] == b[y0..y]
    ensures Progress(a, b, ops, x, y)
  {
    RenderExtend(a, ops, x0, x);
    assert b[..y] == b[..y0] + b[y0..y];
  }

  /** Moves right (deleting lines of a) until the walk is on diagonal kc, stopping at M. */
  method DeleteRun<L>(kc: int, x0: int, y: int, M: int) returns (x: int, op: Option<Operation<L>>)
    requires 0 <= x0 && 0 <= y && (x0 - y < kc ==> y + kc <= M)
    ensures x == if x0 - y < kc then y + kc else x0
    ensures op == if x == x0 then None else Some(Operation(Delete, [], x0, 0, y))
  {
    x, op := x0, None;
    while kc > x - y
      invariant x0 <= x && (x0 - y < kc ==> x <= y + kc) && (x0 - y >= kc ==> x == x0)
      invariant op == if x == x0 then None else Some(Operation(Delete, [], x0, 0, y))
      decreases kc - (x - y)
    {
      if op.None? {
        op := Some(Operation(Delete, [], x, 0, y));
      }
      x := x + 1;
      if x == M {
        break;
      }
    }
  }

  /** Moves down (inserting lines of b) until the walk is on diagonal kc. */
  method InsertRun<L>(kc: int, x: int, y0: int) returns (y: int, op: Option<Operation<L>>)
    requires 0 <= x && 0 <= y0
    ensures y == if kc < x - y0 then x - kc else y0
    ensures op == if y == y0 then None else Some(Operation(Insert, [], x, 0, y0))
  {
    y, op := y0, None;
    while kc < x - y
      invariant y0 <= y && (kc < x - y0 ==> y <= x - kc) && (kc >= x - y0 ==> y == y0)
      invariant op == if y == y0 then None else Some(Operation(Insert, [], x, 0, y0))
      decreases (x - y) - kc
    {
      if op.None? {
        op := Some(Operation(Insert, [], x, 0, y));
      }
      y := y + 1;
    }
  }

  /** Moves diagonally over equal lines up to column cx. */
  method EqualRun(cx: int, x0: int, y0: int) returns (x: int, y: int)
    ensures x == if x0 < cx then cx else x0
    ensures y == y0 + (x - x0)
  {
    x, y := x0, y0;
    while x < cx
      invariant x0 <= x && (x0 < cx ==> x <= cx) && (x0 >= cx ==> x == x0) && y == y0 + (x - x0)
    {
      x := x + 1;
      y := y + 1;
    }
  }

  /**
   * The `add` closure: completes a pending run at (i2, j2) and stores it at
   * solution[i]; nothing happens when no run is pending. A pending run is a
   * deletion started at (x0, y0) that moved right to i2, or an insertion
   * started there that moved down to j2.
   */
  method Add<L(==)>(a: seq<L>, b: seq<L>, solution: seq<Operation<L>>, i: int, op: Option<Operation<L>>,
                    x0: int, y0: int, i2: int, j2: int)
    returns (sol: seq<Operation<L>>, j: int)
    requires 0 <= i <= x0 + y0 <= i2 + j2 <= |solution|
    requires Progress(a, b, solution[..i], x0, y0)
    requires op.None? ==> i2 == x0 && j2 == y0
    requires op.Some? ==>
      || (op.value == Operation(Delete, [], x0, 0, y0) && x0 < i2 <= |a| && j2 == y0)
      || (op.value == Operation(Insert, [], x0, 0, y0) && i2 == x0 && y0 < j2 <= |b|)
    ensures |sol| == |solution| && j == (if op.Some? then i + 1 else i) && j <= i2 + j2
    ensures Progress(a, b, sol[..j], i2, j2)
  {
    sol, j := solution, i;
    if op.Some? {
      var done := Complete(op.value, i2, j2, b);
      if done.kind == Delete {
        AddDelete(a, b, sol[..j], x0, i2, y0);
      } else {
        AddInsert(a, b, sol[..j], x0, y0, j2);
      }
      assert sol[j := done][..j + 1] == sol[..j] + [done];
      sol := sol[j := done];
      j := j + 1;
    }
  }

  /**
   * One snake, from (x0, y0) to c: the deletions (moving right) or insertions
   * (moving down) that bring the walk onto c's diagonal, each run added to the
   * solution as one operation, then the equal lines up to c.
   */
  method ApplySnake<L(==)>(a: seq<L>, b: seq<L>, solution: seq<Operation<L>>, i: int, x0: int, y0: int, c: Point)
    returns (sol: seq<Operation<L>>, j: int, x: int, y: int)
    requires 0 <= x0 <= |a| && 0 <= y0 <= |b| && |solution| == |a| + |b| && 0 <= i <= x0 + y0
    requires Progress(a, b, solution[..i], x0, y0) && Step(a, b, Point(x0, y0), c)
    ensures |sol| == |solution| && x == c.x && y == c.y && i <= j <= x + y
    ensures Progress(a, b, sol[..j], x, y)
    ensures c.x - c.y == x0 - y0 ==> j == i
  {
    var op: Option<Operation<L>>;
    x, op := DeleteRun(c.x - c.y, x0, y0, |a|);
    sol, j := Add(a, b, solution, i, op, x0, y0, x, y0);
    ghost var j1 := j;
    y, op := InsertRun(c.x - c.y, x, y0);
    sol, j := Add(a, b, sol, j, op, x, y0, x, y);
    ghost var sx, sy := x, y;
    x, y := EqualRun(c.x, x, y);
    AddEqual(a, b, sol[..j], sx, sy, x, y);
  }

  /**
   * The edit script turning a into b. None stands for the case where the
   * search gives up without reaching (|a|, |b|); the source would then index
   * an empty trace.
   */
  method Operations<L(==)>(a: seq<L>, b: seq<L>) returns (r: Option<seq<Operation<L>>>)
    ensures |a| == 0 && |b| == 0 ==> r == Some([])
    ensures r.Some? ==> |r.value| <= |a| + |b| && ScriptOK(b, r.value, |a|)
    ensures r.Some? ==> Render(a, r.value, |a|) == b
    ensures a == b ==> r == Some([])
  {
    if |a| == 0 && |b| == 0 {
      return Some([]);
    }
    var path, rounds := ShortestPath(a, b);
    if path.None? {
      return None;
    }
    var snakes := path.value;
    var M, N := |a|, |b|;
    var i := 0;
    var solution: seq<Operation<L>> := seq(M + N, _ => Operation(Equal, [], 0, 0, 0));
    var x, y := 0, 0;
    var idx := 0;
    assert Progress(a, b, solution[..0], 0, 0);
    while idx < |snakes|
      invariant 0 <= idx <= |snakes| && |solution| == M + N
      invariant ChainOK(a, b, snakes[idx..], Point(x, y))
      invariant 0 <= x <= M && 0 <= y <= N && 0 <= i <= x + y
      invariant Progress(a, b, solution[..i], x, y)
      invariant rounds == 0 ==> i == 0 && x == 0 && y == 0
    {
      var snake := snakes[idx];
      assert snakes[idx..][1..] == snakes[idx + 1..];
      if snake.None? {
        idx := idx + 1;
        continue;
      }
      solution, i, x, y := ApplySnake(a, b, solution, i, x, y, snake.value);
      idx := idx + 1;
      if x >= M && y >= N {
        break;
      }
    }
    assert x == M && y == N;
    assert b[..y] == b;
    r := Some(solution[..i]);
  }


  // ---------------------------------------------------------------------------
  // splitLines

  /** The text cut after every newline, without a trailing empty piece. */
  function SplitLines(text: string): (r: seq<string>)
    ensures Concat(r) == text
    ensures forall i :: 0 <= i < |r| ==> |r[i]| > 0
    ensures forall i :: 0 <= i < |r| - 1 ==> r[i][|r[i]| - 1] == '\n'
    ensures forall i :: 0 <= i < |r| ==> '\n' !in r[i][..|r[i]| - 1]
  {
    var lines := SplitAfter(text, '\n');
    SplitAfterConcat(text, '\n');
    SplitAfterPieces(text, '\n');
    if lines[|lines| - 1] == "" then
      assert Concat(lines) == Concat(lines[..|lines| - 1]) + Concat([lines[|lines| - 1]]) by {
        ConcatAppend(lines[..|lines| - 1], [lines[|lines| - 1]]);
        assert lines == lines[..|lines| - 1] + [lines[|lines| - 1]];
      }
      lines[..|lines| - 1]
    else
      lines
  }
}
