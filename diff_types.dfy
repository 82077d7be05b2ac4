/**
 * The data shapes of the diff result (`lib/diff/types.ts`) and of the runs
 * that the line aligner hands to the parser.
 */
module DiffTypes {
  import opened Optional

  /**
   * One run of the aligner's output: a value holding newline-terminated
   * lines and two flags. A run with neither flag is unchanged text.
   */
  datatype Change = Change(value: string, added: bool, removed: bool)

  /** The three classifications of a line. */
  datatype LineType = Added | Removed | Unchanged

  /**
   * One addressed line. The shape of the position pair is tied to the
   * classification: an added line has only a right number, a removed line
   * only a left number, an unchanged line both.
   */
  datatype DiffLine =
    | AddedLine(content: string, right: nat)
    | RemovedLine(content: string, left: nat)
    | UnchangedLine(content: string, left: nat, right: nat)
  {
    function Type(): LineType
    {
      match this
      case AddedLine(_, _) => Added
      case RemovedLine(_, _) => Removed
      case UnchangedLine(_, _, _) => Unchanged
    }

    /** `lineNumber.left`, null for an added line. */
    function Left(): Option<nat>
    {
      if AddedLine? then None else Some(left)
    }

    /** `lineNumber.right`, null for a removed line. */
    function Right(): Option<nat>
    {
      if RemovedLine? then None else Some(right)
    }
  }

  /** A contiguous group of lines from one run. */
  datatype DiffChunk = DiffChunk(lines: seq<DiffLine>, isUnchanged: bool)

  datatype DiffStats = DiffStats(added: nat, removed: nat, unchangedCount: nat, total: nat)

  datatype DiffResult = DiffResult(
    chunks: seq<DiffChunk>,
    stats: DiffStats,
    originalLineCount: nat,
    modifiedLineCount: nat)
}
