/**
 * The earliest revision, where `main` scans its arguments itself.
 *
 * It knows `-o FILE`, `-oFILE` and `--help`. Any option that merely STARTS
 * with `--help` ends the program with 0; the usage banner is written only
 * when the option is exactly `--help`. `-o` without operand and a missing
 * input name end it with 1 and an error; otherwise it writes the input and
 * output names (the output defaulting to the input name plus ".ppc") and
 * returns 0.
 */
module PreprocessorMacro {
  import opened ArgumentSyntax

  /** What `main` writes before it returns. */
  datatype Report =
    | Printed(message: Message)
    | Echo(input: string, output: string)  // the `Input: "…"` / `Output: "…"` lines

  /** The value `main` returns and what it wrote. */
  datatype Exit = Exit(code: int, report: Report)

  /** What the scan does with one argument: go on at `next` with the two names, or end the program. */
  datatype Action = Continue(next: nat, input: string, output: string) | Stop(exit: Exit)

  /** The branches of the loop body for the argument at `idx`, in the source's order. */
  function Step(argv: seq<string>, idx: nat, input: string, output: string): (r: Action)
    requires 1 <= idx < |argv|
    ensures r.Continue? ==> (r.next == idx + 1 || r.next == idx + 2) && r.next <= |argv|
  {
    var arg := argv[idx];
    if IsDashOption(arg) then
      if arg[1] == 'o' && |arg| == 2 then
        if idx + 1 == |argv| then Stop(Exit(1, Printed(MissingOutputName)))
        else Continue(idx + 2, input, argv[idx + 1])
      else if arg[1] == 'o' then Continue(idx + 1, input, arg[2..])
      else if StartsWith(arg, "--help") then
        Stop(Exit(0, Printed(if |arg| == 6 then Usage else Silent)))
      else Continue(idx + 1, input, output)
    else Continue(idx + 1, arg, output)
  }

  /** After the last argument: no input name is an error; otherwise both names are written. */
  function Finish(input: string, output: string): Exit {
    if |input| == 0 then Exit(1, Printed(NoInputFiles))
    else Exit(0, Echo(input, if |output| == 0 then input + ".ppc" else output))
  }

  /** The scan from argument `idx` on, with the names read so far. */
  function Scan(argv: seq<string>, idx: nat, input: string, output: string): Exit
    requires 1 <= idx <= |argv|
    decreases |argv| - idx
  {
    if idx == |argv| then Finish(input, output)
    else match Step(argv, idx, input, output)
      case Stop(exit) => exit
      case Continue(next, input', output') => Scan(argv, next, input', output')
  }

  /** The whole program on `argv`, whose entry 0 is the program name. */
  function Program(argv: seq<string>): Exit
    requires |argv| >= 1
  {
    Scan(argv, 1, "", "")
  }

  /** `main`: scans `argv` and returns the exit value with what it wrote. */
  method Run(argv: seq<string>) returns (exit: Exit)
    requires |argv| >= 1
    ensures exit == Program(argv)
  {
    var input, output := "", "";
    var idx := 1;
    while idx < |argv|
      invariant 1 <= idx <= |argv|
      invariant Scan(argv, idx, input, output) == Program(argv)
      decreases |argv| - idx
    {
      var arg := argv[idx];
      if IsDashOption(arg) {
        if arg[1] == 'o' && |arg| == 2 {
          idx := idx + 1;
          if idx == |argv| {
            return Exit(1, Printed(MissingOutputName));
          }
          output := argv[idx];
        } else if arg[1] == 'o' {
          output := arg[2..];
        } else if StartsWith(arg, "--help") {
          if |arg| == 6 {
            return Exit(0, Printed(Usage));
          }
          return Exit(0, Printed(Silent));
        }
      } else {
        input := arg;
      }
      idx := idx + 1;
    }
    if |input| == 0 {
      return Exit(1, Printed(NoInputFiles));
    }
    if |output| == 0 {
      output := input + ".ppc";
    }
    return Exit(0, Echo(input, output));
  }

  // ---------------------------------------------------------------------
  // Properties of the program

  /** The first argument among `ts` that starts with `--help`, if any. */
  function FirstHelp(ts: seq<Token>): (r: Option<string>)
    ensures r.Some? ==> Arg(r.value) in ts && StartsWith(r.value, "--help")
    ensures r.None? ==> forall t :: t in ts && t.Arg? ==> !StartsWith(t.text, "--help")
  {
    if ts == [] then None
    else if ts[0].Arg? && StartsWith(ts[0].text, "--help") then Some(ts[0].text)
    else FirstHelp(ts[1..])
  }

  /** `FirstHelp` finds the FIRST option starting with `--help`: no earlier option does. */
  lemma {:induction false} FirstHelpIsFirst(ts: seq<Token>)
    ensures FirstHelp(ts).Some? ==>
      exists i :: 0 <= i < |ts| && ts[i] == Arg(FirstHelp(ts).value)
        && forall j :: 0 <= j < i ==> !(ts[j].Arg? && StartsWith(ts[j].text, "--help"))
  {
    if ts != [] && !(ts[0].Arg? && StartsWith(ts[0].text, "--help")) {
      FirstHelpIsFirst(ts[1..]);
      if FirstHelp(ts).Some? {
        var i :| 0 <= i < |ts[1..]| && ts[1..][i] == Arg(FirstHelp(ts).value)
          && forall j :: 0 <= j < i ==> !(ts[1..][j].Arg? && StartsWith(ts[1..][j].text, "--help"));
        assert ts[i + 1] == Arg(FirstHelp(ts).value);
      }
    } else if ts != [] {
      assert ts[0] == Arg(FirstHelp(ts).value);
    }
  }

  /**
   * The program's behaviour read off its option list: the first option
   * starting with `--help` ends it with 0 (with the banner only when it is
   * exactly `--help`); else `-o` without operand gives 1 and its error; else
   * no input name gives 1 and its error; else 0 and the last input name with
   * the last output name, or the input name plus ".ppc".
   */
  function Expected(ts: seq<Token>, input: string, output: string): Exit {
    match FirstHelp(ts)
    case Some(h) => Exit(0, Printed(if h == "--help" then Usage else Silent))
    case None =>
      var input' := LastInput(ts, input);
      var output' := LastOutput(ts, output);
      if MissingOutput in ts then Exit(1, Printed(MissingOutputName))
      else if input' == "" then Exit(1, Printed(NoInputFiles))
      else Exit(0, Echo(input', if output' == "" then input' + ".ppc" else output'))
  }

  /**
   * One argument against the option list: a stop is what the list
   * prescribes; otherwise the head of the list is neither help nor `-o`
   * without operand, and only the names it gives change.
   */
  lemma StepAgainstTokens(argv: seq<string>, idx: nat, input: string, output: string)
    requires 1 <= idx < |argv|
    ensures var ts := Tokens(argv, idx);
      && ts != []
      && match Step(argv, idx, input, output)
         case Stop(exit) => exit == Expected(ts, input, output)
         case Continue(next, input', output') =>
           && ts == [ts[0]] + Tokens(argv, next)
           && !(ts[0].Arg? && StartsWith(ts[0].text, "--help")) && !ts[0].MissingOutput?
           && input' == (if ts[0].Arg? && IsInputName(ts[0].text) then ts[0].text else input)
           && output' == (if ts[0].OutputTo? then ts[0].file else output)
  {
    var arg := argv[idx];
    if IsDashOption(arg) && arg[1] == 'o' {
      if |arg| == 2 && idx + 1 < |argv| {
        assert Tokens(argv, idx) == [OutputTo(argv[idx + 1])] + Tokens(argv, idx + 2);
      }
    } else {
      assert Tokens(argv, idx) == [Arg(arg)] + Tokens(argv, idx + 1);
      if IsDashOption(arg) && StartsWith(arg, "--help") {
        assert FirstHelp(Tokens(argv, idx)) == Some(arg);
      }
    }
  }

  /** An option that is neither help nor `-o` without operand only feeds the names into the rest of the list. */
  lemma ExpectedCons(t: Token, rest: seq<Token>, input: string, output: string)
    requires !(t.Arg? && StartsWith(t.text, "--help")) && !t.MissingOutput?
    ensures Expected([t] + rest, input, output)
         == Expected(rest, if t.Arg? && IsInputName(t.text) then t.text else input,
                           if t.OutputTo? then t.file else output)
  {
    assert ([t] + rest)[1..] == rest;
    assert MissingOutput in [t] + rest <==> MissingOutput in rest;
    LastInputCons(t, rest, input);
    LastOutputCons(t, rest, output);
  }

  /** The scan from `idx` does what its option list prescribes. */
  lemma {:induction false} ScanAgainstTokens(argv: seq<string>, idx: nat, input: string, output: string)
    requires 1 <= idx <= |argv|
    ensures Scan(argv, idx, input, output) == Expected(Tokens(argv, idx), input, output)
    decreases |argv| - idx
  {
    if idx < |argv| {
      StepAgainstTokens(argv, idx, input, output);
      match Step(argv, idx, input, output)
      case Stop(exit) =>
      case Continue(next, input', output') =>
        var ts := Tokens(argv, idx);
        ScanAgainstTokens(argv, next, input', output');
        ExpectedCons(ts[0], Tokens(argv, next), input, output);
    }
  }

  /** `main` does what its option list prescribes, starting from two empty names. */
  lemma ProgramAgainstTokens(argv: seq<string>)
    requires |argv| >= 1
    ensures Program(argv) == Expected(Tokens(argv, 1), "", "")
  {
    ScanAgainstTokens(argv, 1, "", "");
  }

  /**
   * Exit values: 1 exactly for the two errors, 0 otherwise; the names
   * written are never empty, and the banner appears only for an exact
   * `--help` among the options.
   */
  lemma ExitProperties(argv: seq<string>)
    requires |argv| >= 1
    ensures var e := Program(argv);
      && (e.code == 1 <==> e.report == Printed(NoInputFiles) || e.report == Printed(MissingOutputName))
      && (e.code == 0 || e.code == 1)
      && (e.report.Echo? ==> e.report.input != "" && e.report.output != "")
      && (e.report == Printed(Usage) ==> Arg("--help") in Tokens(argv, 1))
  {
    ProgramAgainstTokens(argv);
  }
}
