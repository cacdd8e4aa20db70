/**
 * The older argument parser, `process_args` and `process_error`.
 *
 * It knows only `-o FILE`, `-oFILE` and `--help`; it fills the input and
 * output names of a `preprocessor_data` record and returns 0 when an input
 * file was named, 1 when none was, 2 when `-o` has no operand and 3 when
 * help was asked for. Unlike the newer revision it leaves the program name
 * alone.
 */
module LegacyArgumentProcessor {
  import opened ArgumentSyntax
  import opened Predata

  const NoInputStatus := 1
  const MissingOutputStatus := 2
  const HelpStatus := 3

  datatype Outcome = Outcome(status: int, data: Fields)

  /** What the scan does with one argument: go on at `next` with record `data`, or return `status`. */
  datatype Action = Continue(next: nat, data: Fields) | Stop(status: int)

  /** The branches of the loop body for the argument at `idx`, in the source's order. */
  function Step(argv: seq<string>, idx: nat, data: Fields): (r: Action)
    requires 1 <= idx < |argv|
    ensures r.Continue? ==> (r.next == idx + 1 || r.next == idx + 2) && r.next <= |argv|
  {
    var arg := argv[idx];
    if IsDashOption(arg) then
      if arg[1] == 'o' && |arg| == 2 then
        if idx + 1 == |argv| then Stop(MissingOutputStatus)
        else Continue(idx + 2, data.(outputFilename := argv[idx + 1]))
      else if arg[1] == 'o' then Continue(idx + 1, data.(outputFilename := arg[2..]))
      else if StartsWith(arg, "--help") then
        if |arg| == 6 then Stop(HelpStatus) else Continue(idx + 1, data)
      else Continue(idx + 1, data)
    else Continue(idx + 1, data.(inputFilename := arg))
  }

  /** After the last argument: no input name gives 1; otherwise an unset output name becomes the input name plus ".ppc". */
  function Finish(data: Fields): Outcome {
    if |data.inputFilename| == 0 then Outcome(NoInputStatus, data)
    else if |data.outputFilename| == 0 then Outcome(0, data.(outputFilename := data.inputFilename + ".ppc"))
    else Outcome(0, data)
  }

  /** The scan from argument `idx` on, starting with record `data`. */
  function Scan(argv: seq<string>, idx: nat, data: Fields): Outcome
    requires 1 <= idx <= |argv|
    decreases |argv| - idx
  {
    if idx == |argv| then Finish(data)
    else match Step(argv, idx, data)
      case Stop(status) => Outcome(status, data)
      case Continue(next, data') => Scan(argv, next, data')
  }

  /** `process_args` on a record holding `data`. */
  function Parse(argv: seq<string>, data: Fields): Outcome
    requires |argv| >= 1
  {
    if |argv| == 1 then Outcome(NoInputStatus, data) else Scan(argv, 1, data)
  }

  /** `process_args`: fills the input and output names of `predata` from `argv` and returns the status code. */
  method ProcessArgs(argv: seq<string>, predata: PreprocessorData) returns (status: int)
    requires |argv| >= 1
    modifies predata
    ensures Outcome(status, predata.View()) == Parse(argv, old(predata.View()))
  {
    if |argv| == 1 {
      return NoInputStatus;
    }
    var idx := 1;
    while idx < |argv|
      invariant 1 <= idx <= |argv|
      invariant Scan(argv, idx, predata.View()) == Parse(argv, old(predata.View()))
      decreases |argv| - idx
    {
      var arg := argv[idx];
      if IsDashOption(arg) {
        if arg[1] == 'o' && |arg| == 2 {
          idx := idx + 1;
          if idx == |argv| {
            return MissingOutputStatus;
          }
          predata.outputFilename := argv[idx];
        } else if arg[1] == 'o' {
          predata.outputFilename := arg[2..];
        } else if StartsWith(arg, "--help") {
          if |arg| == 6 {
            return HelpStatus;
          }
        }
      } else {
        predata.inputFilename := arg;
      }
      idx := idx + 1;
    }
    if |predata.inputFilename| == 0 {
      return NoInputStatus;
    }
    if |predata.outputFilename| == 0 {
      predata.outputFilename := predata.inputFilename + ".ppc";
    }
    return 0;
  }

  /** `process_error`: the value the program returns for a status code, and what it writes. */
  function ProcessError(errc: int): (r: (int, Message))
    ensures r.0 == -1 <==> errc !in {1, 2, 3}
    ensures r.0 == -1 <==> r.1 == Silent
    ensures r.0 == 0 <==> r.1 == Usage
  {
    match errc
    case 1 => (1, NoInputFiles)
    case 2 => (1, MissingOutputName)
    case 3 => (0, Usage)
    case _ => (-1, Silent)
  }

  // ---------------------------------------------------------------------
  // Properties of the scan

  /**
   * One argument against the option list: `--help` stops with 3, `-o`
   * without operand with 2; any other option is the head of the list, and
   * only the input and output names it gives change.
   */
  lemma StepAgainstTokens(argv: seq<string>, idx: nat, data: Fields)
    requires 1 <= idx < |argv|
    ensures var ts := Tokens(argv, idx);
      && ts != []
      && match Step(argv, idx, data)
         case Stop(status) =>
           || (status == HelpStatus && ts[0] == Arg("--help"))
           || (status == MissingOutputStatus && ts == [MissingOutput])
         case Continue(next, data') =>
           && ts == [ts[0]] + Tokens(argv, next)
           && ts[0] != Arg("--help") && !ts[0].MissingOutput?
           && data'.programName == data.programName
           && data'.systemDirectories == data.systemDirectories
           && data'.inputFilename
              == (if ts[0].Arg? && IsInputName(ts[0].text) then ts[0].text else data.inputFilename)
           && data'.outputFilename == (if ts[0].OutputTo? then ts[0].file else data.outputFilename)
  {
  }

  /**
   * The status and record of a scan, read off its option list: 3 when it
   * holds exactly `--help`, else 2 when `-o` lacks its operand, else 1 when
   * no input name was given, else 0. On 0 and 1 the input name is the last
   * one given; the output name is the last `-o` operand, and on 0 an empty
   * one becomes the input name plus ".ppc". The program name and the system
   * directories never change.
   */
  lemma {:induction false} ScanAgainstTokens(argv: seq<string>, idx: nat, data: Fields)
    requires 1 <= idx <= |argv|
    ensures var o := Scan(argv, idx, data);
            var ts := Tokens(argv, idx);
            var input := LastInput(ts, data.inputFilename);
            var output := LastOutput(ts, data.outputFilename);
      && (o.status == HelpStatus <==> Arg("--help") in ts)
      && (o.status == MissingOutputStatus <==> Arg("--help") !in ts && MissingOutput in ts)
      && (o.status == NoInputStatus <==> Arg("--help") !in ts && MissingOutput !in ts && input == "")
      && (o.status == 0 <==> Arg("--help") !in ts && MissingOutput !in ts && input != "")
      && (o.status == 0 || o.status == NoInputStatus ==>
            && o.data.inputFilename == input
            && o.data.outputFilename == if o.status == 0 && output == "" then input + ".ppc" else output)
      && o.data.programName == data.programName
      && o.data.systemDirectories == data.systemDirectories
    decreases |argv| - idx
  {
    if idx < |argv| {
      StepAgainstTokens(argv, idx, data);
      match Step(argv, idx, data)
      case Stop(status) =>
      case Continue(next, data') =>
        var ts := Tokens(argv, idx);
        ScanAgainstTokens(argv, next, data');
        LastInputCons(ts[0], Tokens(argv, next), data.inputFilename);
        LastOutputCons(ts[0], Tokens(argv, next), data.outputFilename);
    }
  }

  /**
   * `process_args` as a whole: with nothing after the program name it
   * returns 1 and touches nothing; it never changes the program name or the
   * system directories, and returns one of 0, 1, 2, 3 as the option list
   * decides.
   */
  lemma ParseProperties(argv: seq<string>, data: Fields)
    requires |argv| >= 1
    ensures var o := Parse(argv, data);
            var ts := Tokens(argv, 1);
      && (|argv| == 1 ==> o == Outcome(NoInputStatus, data))
      && (|argv| > 1 ==> (o.status == HelpStatus <==> Arg("--help") in ts))
      && (|argv| > 1 ==> (o.status == MissingOutputStatus <==> Arg("--help") !in ts && MissingOutput in ts))
      && 0 <= o.status <= 3
      && o.data.programName == data.programName
      && o.data.systemDirectories == data.systemDirectories
  {
    if |argv| > 1 {
      ScanAgainstTokens(argv, 1, data);
    }
  }

  /**
   * What the program returns after a failed `process_args`: 0 when help was
   * asked for, 1 for each of the two errors with its own message, and never
   * the -1 reserved for unknown codes.
   */
  lemma ExitValue(argv: seq<string>, data: Fields)
    requires |argv| >= 1
    ensures var status := Parse(argv, data).status;
      status != 0 ==>
        && ProcessError(status).0 != -1
        && ProcessError(status).0 == (if status == HelpStatus then 0 else 1)
        && (ProcessError(status).1 == NoInputFiles <==> status == NoInputStatus)
        && (ProcessError(status).1 == MissingOutputName <==> status == MissingOutputStatus)
  {
    ParseProperties(argv, data);
  }
}
