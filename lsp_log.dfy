/**
 * The language server's logger (internal/lsp/log/logger.go): three levels
 * ordered Off < Messages < Debug, matching the trace values of the Language
 * Server Protocol, and a logger that writes a line only for messages at or
 * below its own level.
 */
module LspLog {
  import opened Wrappers

  /** The logging levels, in the order of their numbering. */
  datatype Level = LevelOff | LevelMessage | LevelDebug

  /** The number Go gives each level. */
  function Ord(l: Level): (r: nat)
    ensures r <= 2
    ensures l == LevelOff <==> r == 0
    ensures l == LevelDebug <==> r == 2
  {
    match l
    case LevelOff => 0
    case LevelMessage => 1
    case LevelDebug => 2
  }

  /** Level.String: the name each level is shown with. */
  function LevelName(l: Level): (r: string)
    ensures r in {"Off", "Messages", "Debug"}
  {
    match l
    case LevelOff => "Off"
    case LevelMessage => "Messages"
    case LevelDebug => "Debug"
  }

  /** No two levels share a name. */
  lemma LevelNameInjective(a: Level, b: Level)
    ensures LevelName(a) == LevelName(b) <==> a == b
  {
  }

  /** Level.ShouldLog: a logger at level `l` logs what comes at `incoming` when `l` is at least as high. */
  predicate ShouldLog(l: Level, incoming: Level) {
    Ord(l) >= Ord(incoming)
  }

  /**
   * ShouldLog is an order: every level logs itself and everything below,
   * raising the level never silences a message, Off logs nothing but Off
   * and Debug logs everything.
   */
  lemma ShouldLogOrder(l: Level, m: Level, incoming: Level)
    ensures ShouldLog(l, l)
    ensures ShouldLog(l, m) && ShouldLog(m, incoming) ==> ShouldLog(l, incoming)
    ensures ShouldLog(l, m) && ShouldLog(m, l) ==> l == m
    ensures ShouldLog(LevelOff, incoming) <==> incoming == LevelOff
    ensures ShouldLog(LevelDebug, incoming)
  {
  }

  /** The error message for a trace value that names no level. */
  function TraceValueError(value: string): string {
    "trace value must be one of 'off', 'messages', 'verbose', got: " + value + ","
  }

  /** TraceValueToLevel: "off", "messages" and "verbose" name the three levels; anything else is an error. */
  function TraceValueToLevel(value: string): (r: Result<Level>)
    ensures r.Ok? <==> value in {"off", "messages", "verbose"}
    ensures r.Err? ==> r.error == TraceValueError(value)
  {
    match value
    case "off" => Ok(LevelOff)
    case "messages" => Ok(LevelMessage)
    case "verbose" => Ok(LevelDebug)
    case _ => Err(TraceValueError(value))
  }

  /** The trace value that names a level. */
  function TraceValue(l: Level): string {
    match l
    case LevelOff => "off"
    case LevelMessage => "messages"
    case LevelDebug => "verbose"
  }

  /** Every level has exactly one trace value, and reading it back gives the level. */
  lemma TraceValueRoundTrip(l: Level, value: string)
    ensures TraceValueToLevel(TraceValue(l)) == Ok(l)
    ensures TraceValueToLevel(value) == Ok(l) ==> value == TraceValue(l)
  {
  }

  /** Where a logger writes: nowhere (a nil writer), into a discarding writer, or into an output. */
  datatype Writer = NilWriter | Discard | Output

  /** The lines a logger at `level` writing to `writer` has in its output after logging `message` at `lvl`. */
  function AfterLog(level: Level, writer: Writer, lines: seq<string>, lvl: Level, message: string): (r: seq<string>)
    ensures r == lines || r == lines + [message]
    ensures r != lines <==> ShouldLog(level, lvl) && writer == Output
  {
    if ShouldLog(level, lvl) && writer == Output then lines + [message] else lines
  }

  /**
   * A logger; `lines` holds what has been written to its output, one
   * message per line. The lock guarding the level is left out.
   */
  class Logger {
    var level: Level
    var writer: Writer
    var lines: seq<string>

    /** NewLogger: a logger at `level` writing to `writer`. */
    constructor (level: Level, writer: Writer)
      ensures this.level == level && this.writer == writer && lines == []
    {
      this.level := level;
      this.writer := writer;
      lines := [];
    }

    /** NoOpLogger: a logger that is off and discards what it is given. */
    constructor NoOp()
      ensures level == LevelOff && writer == Discard && lines == []
    {
      level := LevelOff;
      writer := Discard;
      lines := [];
    }

    /** SetLevel: the level changes, nothing else. */
    method SetLevel(level: Level)
      modifies this`level
      ensures this.level == level
    {
      this.level := level;
    }

    /** logf: the message goes to the output when the level admits it and there is a writer. */
    method Log(lvl: Level, message: string)
      modifies this`lines
      ensures lines == AfterLog(level, writer, old(lines), lvl, message)
    {
      if ShouldLog(level, lvl) && writer != NilWriter {
        if writer == Output {
          lines := lines + [message];
        }
      }
    }

    /** Message: logs at the Messages level. */
    method Message(message: string)
      modifies this`lines
      ensures lines == AfterLog(level, writer, old(lines), LevelMessage, message)
    {
      Log(LevelMessage, message);
    }

    /** Debug: logs at the Debug level. */
    method Debug(message: string)
      modifies this`lines
      ensures lines == AfterLog(level, writer, old(lines), LevelDebug, message)
    {
      Log(LevelDebug, message);
    }
  }

  /** A logger that is off writes nothing, whatever it is given. */
  lemma OffWritesNothing(writer: Writer, lines: seq<string>, lvl: Level, message: string)
    ensures lvl != LevelOff ==> AfterLog(LevelOff, writer, lines, lvl, message) == lines
  {
  }

  /** Debug messages reach the output only at the Debug level; Messages reach it at Messages and Debug. */
  lemma DebugNeedsDebug(level: Level, lines: seq<string>, message: string)
    ensures AfterLog(level, Output, lines, LevelDebug, message) != lines <==> level == LevelDebug
    ensures AfterLog(level, Output, lines, LevelMessage, message) != lines <==> level != LevelOff
  {
  }
}
