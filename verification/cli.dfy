/** The script's entry point: it takes exactly one argument, the path of
    the article to review. Reading the file and printing the review are
    not modelled. */
module Cli {
  import opened JsString

  /** What `main` does with its command line: fail with the usage message,
      or go on to review the file at `path`. */
  datatype Invocation = UsageError(message: string) | ReviewFile(path: JsStr)

  const UsageMessage: string := "Usage: node claude_review.mjs <file-path>"

  /** `process.argv.slice(2)`: the arguments after the runtime and the
      script. */
  function Args(argv: seq<JsStr>): (r: seq<JsStr>)
    ensures |argv| >= 2 ==> |r| == |argv| - 2
    ensures |argv| < 2 ==> r == []
    ensures forall i :: 0 <= i < |r| ==> r[i] == argv[i + 2]
  {
    Slice(argv, 2)
  }

  /** The argument check at the top of `main`. */
  function Invoke(argv: seq<JsStr>): (r: Invocation)
    ensures r.UsageError? <==> |argv| != 3
    ensures r.UsageError? ==> r.message == UsageMessage
    ensures r.ReviewFile? ==> r.path == argv[2]
  {
    var args := Args(argv);
    if |args| != 1 then UsageError(UsageMessage) else ReviewFile(args[0])
  }

  /** The command lines that get past the check are exactly
      `<runtime> <script> <path>`, and the path reviewed is the one given. */
  lemma ProceedsExactly(argv: seq<JsStr>, path: JsStr)
    ensures Invoke(argv) == ReviewFile(path) <==> |argv| == 3 && argv[2] == path
  {
  }

  /** Any other argument count, none or several, is a usage error. */
  lemma UsageOtherwise(runtime: JsStr, script: JsStr, extra: seq<JsStr>)
    requires |extra| != 1
    ensures Invoke([runtime, script] + extra) == UsageError(UsageMessage)
  {
  }
}
