/** The length cap the family-cabin server puts on each logged API request
    line (the request logger in `server/index.ts`). */
module RequestLog {

  /** The longest line that is logged as it is. */
  const MaxLogLine: nat := 80

  /** `'…'`, the horizontal ellipsis that marks a cut line. */
  const Ellipsis: char := '\U{2026}'

  /** A line over 80 characters keeps its first 79 and ends in an ellipsis. */
  function TruncateLogLine(line: string): (r: string)
    ensures |r| <= MaxLogLine
    ensures r == line <==> |line| <= MaxLogLine
    ensures |line| > MaxLogLine ==> |r| == MaxLogLine && r[..MaxLogLine - 1] <= line && r[MaxLogLine - 1] == Ellipsis
  {
    if |line| > MaxLogLine then line[..MaxLogLine - 1] + [Ellipsis] else line
  }

  /** Cutting a cut line again changes nothing. */
  lemma TruncateIdempotent(line: string)
    ensures TruncateLogLine(TruncateLogLine(line)) == TruncateLogLine(line)
  {
  }
}
