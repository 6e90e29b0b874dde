/** Properties of the argument dispatch, and the `--output` flag that the
    dispatch as written never honours. */
module CliProofs {
  import opened Cli

  /** Help is shown exactly for an empty argument list or when `-h` or
      `--help` occurs anywhere; it wins over `-v`. */
  lemma HelpIff(args: seq<string>)
    ensures Dispatch(args) == ShowHelp <==> |args| == 0 || "-h" in args || "--help" in args
  {
  }

  /** Otherwise the version is shown exactly when `-v` or `--version`
      occurs. */
  lemma VersionIff(args: seq<string>)
    ensures Dispatch(args) == ShowVersion
        <==> !WantsHelp(args) && ("-v" in args || "--version" in args)
  {
  }

  /** Every other argument list formats its first element. */
  lemma InputIsFirst(args: seq<string>)
    ensures Dispatch(args).FormatFile? <==> !WantsHelp(args) && !WantsVersion(args)
    ensures Dispatch(args).FormatFile? ==> |args| > 0 && Dispatch(args).input == args[0]
  {
  }

  /** `-o` at position one or later, followed by a non-empty element, names
      the output file. */
  lemma DashOFollowed(args: seq<string>, i: nat)
    requires !WantsHelp(args) && !WantsVersion(args)
    requires i >= 1 && IndexOf(args, "-o") == i && Present(args, i + 1)
    ensures Dispatch(args) == FormatFile(args[0], args[i + 1])
  {
  }

  /** Without `-o` the output is the second argument when it is present and
      not an option, else the input; `--output` plays no part. */
  lemma WithoutDashO(args: seq<string>)
    requires !WantsHelp(args) && !WantsVersion(args) && "-o" !in args
    ensures Dispatch(args).output
         == if Present(args, 1) && !StartsWithDash(args[1]) then args[1] else args[0]
  {
    assert IndexOf(args, "-o") == -1;
  }

  /** `-o` at position one or later with nothing after it is ignored: the
      output falls back to a second positional argument, else the input. */
  lemma DashOUnfollowed(args: seq<string>, i: nat)
    requires !WantsHelp(args) && !WantsVersion(args)
    requires i >= 1 && IndexOf(args, "-o") == i && !Present(args, i + 1)
    ensures Dispatch(args).output
         == if Present(args, 1) && !StartsWithDash(args[1]) then args[1] else args[0]
  {
  }

  /** `-o` as the first argument is read as the input file, and only then is
      `--output` looked up: its successor, when present, names the output. */
  lemma DashOFirst(args: seq<string>)
    requires !WantsHelp(args) && !WantsVersion(args) && IndexOf(args, "-o") == 0
    ensures Dispatch(args).input == "-o"
    ensures var j := IndexOf(args, "--output");
      Dispatch(args).output
        == if j != -1 && Present(args, j + 1) then args[j + 1]
           else if Present(args, 1) && !StartsWithDash(args[1]) then args[1]
           else "-o"
  {
  }

  /** `readme-format in.md out.md -o` writes `out.md`. */
  lemma DanglingDashOExample()
    ensures Dispatch(["in.md", "out.md", "-o"]) == FormatFile("in.md", "out.md")
  {
    var args := ["in.md", "out.md", "-o"];
    assert args[0] != "-h" && args[1] != "-h" && args[2] != "-h";
    assert args[0] != "--help" && args[1] != "--help" && args[2] != "--help";
    assert args[0] != "-v" && args[1] != "-v" && args[2] != "-v";
    assert args[0] != "--version" && args[1] != "--version" && args[2] != "--version";
    assert args[0] != "-o" && args[1] != "-o" && args[2] == "-o";
    assert IndexOf(args, "-o") == 2;
    DashOUnfollowed(args, 2);
    assert !StartsWithDash(args[1]);
  }

  /** `readme-format -o in.md --output out.md` formats a file named `-o`
      into `out.md`. */
  lemma LeadingDashOExample()
    ensures Dispatch(["-o", "in.md", "--output", "out.md"]) == FormatFile("-o", "out.md")
  {
    var args := ["-o", "in.md", "--output", "out.md"];
    assert args[0] != "-h" && args[1] != "-h" && args[2] != "-h" && args[3] != "-h";
    assert args[0] != "--help" && args[1] != "--help" && args[2] != "--help" && args[3] != "--help";
    assert args[0] != "-v" && args[1] != "-v" && args[2] != "-v" && args[3] != "-v";
    assert args[0] != "--version" && args[1] != "--version" && args[2] != "--version"
        && args[3] != "--version";
    assert args[0] == "-o";
    assert args[0] != "--output" && args[1] != "--output" && args[2] == "--output";
    assert IndexOf(args, "--output") == 2;
    DashOFirst(args);
  }

  /** `readme-format in.md --output out.md` overwrites `in.md`. */
  lemma OutputFlagIgnored()
    ensures Dispatch(["in.md", "--output", "out.md"]) == FormatFile("in.md", "in.md")
  {
    var args := ["in.md", "--output", "out.md"];
    assert args[0] != "-h" && args[1] != "-h" && args[2] != "-h";
    assert args[0] != "--help" && args[1] != "--help" && args[2] != "--help";
    assert args[0] != "-v" && args[1] != "-v" && args[2] != "-v";
    assert args[0] != "--version" && args[1] != "--version" && args[2] != "--version";
    assert args[0] != "-o" && args[1] != "-o" && args[2] != "-o";
    assert "-o" !in args;
    WithoutDashO(args);
    assert StartsWithDash(args[1]);
  }

  /** With the intended lookup, `--output` followed by a non-empty element
      names the output file when `-o` is absent. */
  lemma OutputFlagHonoured(args: seq<string>, i: nat)
    requires !WantsHelp(args) && !WantsVersion(args) && "-o" !in args
    requires IndexOf(args, "--output") == i && Present(args, i + 1)
    ensures DispatchIntended(args) == FormatFile(args[0], args[i + 1])
  {
    assert IndexOf(args, "-o") == -1;
  }

  /** The intended lookup changes nothing when `-o` is absent and
      `--output` is too, or when `-o` is given after the input. */
  lemma IntendedAgrees(args: seq<string>)
    requires ("-o" !in args && "--output" !in args) || IndexOf(args, "-o") >= 1
    ensures DispatchIntended(args) == Dispatch(args)
  {
  }

  /** `readme-format in.md --output out.md` writes `out.md` under the
      intended lookup. */
  lemma OutputFlagExample()
    ensures DispatchIntended(["in.md", "--output", "out.md"]) == FormatFile("in.md", "out.md")
  {
    var args := ["in.md", "--output", "out.md"];
    assert args[0] != "-h" && args[1] != "-h" && args[2] != "-h";
    assert args[0] != "--help" && args[1] != "--help" && args[2] != "--help";
    assert args[0] != "-v" && args[1] != "-v" && args[2] != "-v";
    assert args[0] != "--version" && args[1] != "--version" && args[2] != "--version";
    assert args[0] != "-o" && args[1] != "-o" && args[2] != "-o";
    assert args[0] != "--output" && args[1] == "--output";
    assert IndexOf(args, "--output") == 1;
    OutputFlagHonoured(args, 1);
  }
}
