/**
 What the two checks receive from running an external tool, and what they
 hand back. Spawning the process (with its ten-second timeout) is not part
 of this model: its outcome arrives as a `CommandResult`, the timeout and
 other-exception cases being ordinary non-zero exit codes (124 and 1).
 */
module Command {

  /** The `(exit code, stdout, stderr)` triple of one tool invocation. */
  datatype CommandResult = CommandResult(exitCode: int, stdout: string, stderr: string)
  {
    predicate Failed() { exitCode != 0 }
  }

  const ErrorPrefix: string := "Error: "

  /** The text both checks return when the tool exits non-zero. */
  function ErrorReport(stderr: string): (r: string)
    ensures |r| == |ErrorPrefix| + |stderr|
    ensures r[..|ErrorPrefix|] == ErrorPrefix && r[|ErrorPrefix|..] == stderr
  {
    ErrorPrefix + stderr
  }

  predicate StartsWith(s: string, prefix: string) {
    |prefix| <= |s| && s[..|prefix|] == prefix
  }

  /** What a check call ends in: a returned string, or the IndexError that
      escapes when a share line has no token. */
  datatype Outcome = Returned(text: string) | RaisedIndexError
}
