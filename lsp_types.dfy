/**
 * The Language Server Protocol basic structures the modelled code builds
 * (internal/lsp/types/types.go): zero-based line/character positions,
 * ranges and text edits.
 */
module LspTypes {
  import opened Wrappers

  /** 2^64: Go's `uint`, the type of the position fields, is 64 bits wide. */
  const MaxUint: nat := 0x1_0000_0000_0000_0000

  /** Go's conversion of an int to `uint`: wraps modulo 2^64. */
  function Uint(x: int): (r: nat)
    ensures 0 <= x < MaxUint ==> r == x
    ensures r < MaxUint
  {
    x % MaxUint
  }

  /** A zero-based position; both fields are unsigned in the source. */
  datatype Position = Position(line: nat, character: nat)

  datatype Range = Range(start: Position, end: Position)

  /** Replace the text in `range` by `newText`. */
  datatype TextEdit = TextEdit(range: Range, newText: string)

  /**
   * A diagnostic as the server publishes it. The source keeps `source`,
   * the code description's href and `severity` behind pointers that may be
   * nil; here they are options.
   */
  datatype Diagnostic = Diagnostic(
    code: string,
    message: string,
    source: Option<string>,
    href: Option<string>,
    range: Range,
    severity: Option<nat>)
}
