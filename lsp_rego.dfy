/**
 * The conversions between Rego's one-based AST locations and the
 * language server's zero-based positions, and the check that an evaluation
 * produced exactly one result with exactly one expression
 * (internal/lsp/rego/rego.go).
 */
module LspRego {
  import opened Wrappers
  import opened LspTypes

  /** 2^63: Go's `int` is a signed 64-bit integer. */
  const MinInt64: int := -0x8000_0000_0000_0000
  const MaxInt64: int := 0x7fff_ffff_ffff_ffff

  predicate IsInt64(x: int) {
    MinInt64 <= x <= MaxInt64
  }

  /** Go's conversion of a `uint` to `int`: the top half of the range turns negative. */
  function Int64(v: nat): (r: int)
    requires v < MaxUint
    ensures IsInt64(r)
    ensures v <= MaxInt64 ==> r == v
    ensures (r - v) % MaxUint == 0
  {
    if v <= MaxInt64 then v else v - MaxUint
  }

  /** The row and column of an ast.Location, both one-based. */
  datatype AstLocation = AstLocation(row: int, col: int)

  /** A position whose fields fit Go's `uint`. */
  predicate ValidPosition(p: Position) {
    p.line < MaxUint && p.character < MaxUint
  }

  /** PositionFromLocation: one less in each coordinate, converted to `uint`. */
  function PositionFromLocation(loc: AstLocation): (r: Position)
    ensures ValidPosition(r)
    ensures 1 <= loc.row <= MaxInt64 ==> r.line == loc.row - 1
    ensures 1 <= loc.col <= MaxInt64 ==> r.character == loc.col - 1
  {
    Position(Uint(loc.row - 1), Uint(loc.col - 1))
  }

  /** LocationFromPosition: one more in each coordinate, in `uint`, converted to `int`. */
  function LocationFromPosition(pos: Position): (r: AstLocation)
    ensures IsInt64(r.row) && IsInt64(r.col)
    ensures pos.line < MaxInt64 ==> r.row == pos.line + 1
    ensures pos.character < MaxInt64 ==> r.col == pos.character + 1
  {
    AstLocation(Int64(Uint(pos.line + 1)), Int64(Uint(pos.character + 1)))
  }

  /** One step there and back through `uint` and `int` is the identity on a 64-bit integer. */
  lemma IntThereAndBack(x: int)
    requires IsInt64(x)
    ensures Int64(Uint(Uint(x - 1) + 1)) == x
  {
    if x >= 1 {
      assert Uint(x - 1) == x - 1;
    } else if x == 0 {
      assert Uint(x - 1) == MaxUint - 1;
    } else {
      assert Uint(x - 1) == MaxUint + x - 1;
      assert Uint(MaxUint + x) == MaxUint + x;
    }
  }

  /** One step there and back through `int` and `uint` is the identity on a `uint`. */
  lemma UintThereAndBack(v: nat)
    requires v < MaxUint
    ensures Uint(Int64(Uint(v + 1)) - 1) == v
  {
    if v + 1 < MaxUint {
      assert Uint(v + 1) == v + 1;
      if v + 1 > MaxInt64 {
        assert Int64(v + 1) == v + 1 - MaxUint;
      }
    } else {
      assert Uint(v + 1) == 0;
    }
  }

  /** Every position the server can hold survives the trip to a location and back. */
  lemma PositionRoundTrip(pos: Position)
    requires ValidPosition(pos)
    ensures PositionFromLocation(LocationFromPosition(pos)) == pos
  {
    UintThereAndBack(pos.line);
    UintThereAndBack(pos.character);
  }

  /** Every location with 64-bit coordinates survives the trip to a position and back. */
  lemma LocationRoundTrip(loc: AstLocation)
    requires IsInt64(loc.row) && IsInt64(loc.col)
    ensures LocationFromPosition(PositionFromLocation(loc)) == loc
  {
    IntThereAndBack(loc.row);
    IntThereAndBack(loc.col);
  }

  /** One result of an evaluation: the values of its expressions, as text. */
  datatype EvalResult = EvalResult(expressions: seq<string>)

  /**
   * toValidResult: an evaluation error, no result, several results or a
   * result without exactly one expression are errors, checked in that
   * order; otherwise the single result.
   */
  function ToValidResult(rs: seq<EvalResult>, err: Option<string>): (r: Result<EvalResult>)
    ensures r.Ok? <==> err.None? && |rs| == 1 && |rs[0].expressions| == 1
    ensures r.Ok? ==> r.value == rs[0]
    ensures err.Some? ==> r == Err("evaluation failed: " + err.value)
    ensures err.None? && |rs| == 0 ==> r == Err("no results returned from evaluation")
    ensures err.None? && |rs| > 1 ==> r == Err("expected exactly one result from evaluation")
    ensures err.None? && |rs| == 1 && |rs[0].expressions| != 1 ==> r == Err("expected exactly one expression in result")
  {
    if err.Some? then Err("evaluation failed: " + err.value)
    else if |rs| == 0 then Err("no results returned from evaluation")
    else if |rs| != 1 then Err("expected exactly one result from evaluation")
    else if |rs[0].expressions| != 1 then Err("expected exactly one expression in result")
    else Ok(rs[0])
  }
}
