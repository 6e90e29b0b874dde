/** The argument dispatch of the `readme-format` command, as a pure decision
    from the argument list to the action taken. Printing, reading the
    version, the file-existence check and the exit codes are not part of
    it. */
module Cli {
  /** What the command does with its arguments. */
  datatype Action = ShowHelp | ShowVersion | FormatFile(input: string, output: string)

  /** `args.indexOf(flag)`: the first position holding `flag`, or -1. */
  function IndexOf(args: seq<string>, flag: string): (r: int)
    ensures -1 <= r < |args|
    ensures r >= 0 ==> args[r] == flag && forall j :: 0 <= j < r ==> args[j] != flag
    ensures r == -1 <==> flag !in args
    decreases |args|
  {
    if |args| == 0 then -1
    else if args[0] == flag then 0
    else
      var r := IndexOf(args[1..], flag);
      if r == -1 then -1 else r + 1
  }

  /** `args[i]` is truthy: the element exists and is not the empty string. */
  predicate Present(args: seq<string>, i: int) {
    0 <= i < |args| && args[i] != ""
  }

  predicate StartsWithDash(s: string) {
    |s| > 0 && s[0] == '-'
  }

  predicate WantsHelp(args: seq<string>) {
    |args| == 0 || "-h" in args || "--help" in args
  }

  predicate WantsVersion(args: seq<string>) {
    "-v" in args || "--version" in args
  }

  /** `args.indexOf('-o') || args.indexOf('--output')`: JavaScript's `||`
      falls through only when the left side is falsy, and among the values
      `indexOf` returns only 0 is; -1 is truthy. */
  function OutputIndex(args: seq<string>): (r: int)
    ensures -1 <= r < |args|
    ensures r == -1 <==> "-o" !in args || (args[0] == "-o" && "--output" !in args)
    ensures r >= 0 ==> args[r] == "-o" || (args[r] == "--output" && args[0] == "-o")
  {
    var o := IndexOf(args, "-o");
    if o != 0 then o else IndexOf(args, "--output")
  }

  /** The output file once the flag position `k` is known: the element after
      the flag, else a second positional argument, else the input. */
  function ChooseOutput(args: seq<string>, k: int): (r: string)
    requires |args| > 0
    ensures r in args
    ensures r == args[0] || r != ""
  {
    if k != -1 && Present(args, k + 1) then args[k + 1]
    else if Present(args, 1) && !StartsWithDash(args[1]) then args[1]
    else args[0]
  }

  /** `main` as written. */
  function Dispatch(args: seq<string>): (r: Action)
    ensures r.FormatFile? ==> |args| > 0 && r.input == args[0] && r.output in args
    ensures r.FormatFile? ==> !WantsHelp(args) && !WantsVersion(args)
  {
    if WantsHelp(args) then ShowHelp
    else if WantsVersion(args) then ShowVersion
    else FormatFile(args[0], ChooseOutput(args, OutputIndex(args)))
  }

  /** The flag position the help text describes: `-o` if given, else
      `--output`. */
  function IntendedOutputIndex(args: seq<string>): (r: int)
    ensures -1 <= r < |args|
    ensures r == -1 <==> "-o" !in args && "--output" !in args
    ensures "-o" in args ==> r >= 0 && args[r] == "-o"
    ensures "-o" !in args && r >= 0 ==> args[r] == "--output"
  {
    var o := IndexOf(args, "-o");
    if o != -1 then o else IndexOf(args, "--output")
  }

  /** `main` with the flag lookup the help text describes. */
  function DispatchIntended(args: seq<string>): (r: Action)
    ensures r.FormatFile? ==> |args| > 0 && r.input == args[0] && r.output in args
    ensures r.FormatFile? ==> !WantsHelp(args) && !WantsVersion(args)
  {
    if WantsHelp(args) then ShowHelp
    else if WantsVersion(args) then ShowVersion
    else FormatFile(args[0], ChooseOutput(args, IntendedOutputIndex(args)))
  }
}
