/**
 * What the three revisions of the argument parser have in common.
 *
 * `argv` is a sequence of strings whose entry 0 is the program name; every
 * entry stands for a NUL-terminated C string, given here WITHOUT its
 * terminator, so the C test `arg[1] != 0` reads `|arg| >= 2` and a pointer
 * `arg + 2` reads `arg[2..]`.
 *
 * All three revisions scan `argv` from index 1 with the same first branches:
 * an argument that starts with `-` and has a second character is an option;
 * of those, `-o` alone takes the next argument as the output file name and
 * `-oFILE` names it inline. Everything else is handed to the revision's own
 * branches. `Tokens` gives the list of options a scan sees once the operand
 * of a separate `-o` has been consumed: it is the reference the revisions'
 * scans are proved against.
 */
module ArgumentSyntax {

  datatype Option<T> = None | Some(value: T)

  /** What the parsers write to the terminal, recorded as events. */
  datatype Message =
    | Silent             // nothing is written
    | NoInputFiles       // "fatal error: no input files"
    | MissingOutputName  // "error: missing filename after '-o'"
    | Usage              // the usage banner

  predicate StartsWith(s: string, prefix: string) {
    |prefix| <= |s| && s[..|prefix|] == prefix
  }

  /** `*arg == '-' && arg[1]`: the argument is an option. */
  predicate IsDashOption(arg: string) {
    |arg| >= 2 && arg[0] == '-'
  }

  /** An argument that names the input file: not an option, which includes `-` alone and the empty string. */
  predicate IsInputName(arg: string) {
    !IsDashOption(arg)
  }

  /** `strchr(s, c)`: the first position of `c` in `s`, if any. */
  function Find(s: string, c: char): (r: Option<nat>)
    ensures r.Some? ==> r.value < |s| && s[r.value] == c && forall i :: 0 <= i < r.value ==> s[i] != c
    ensures r.None? ==> c !in s
  {
    if s == [] then None
    else if s[0] == c then Some(0)
    else match Find(s[1..], c)
      case None => None
      case Some(k) => Some(k + 1)
  }

  /** One option as a scan sees it. */
  datatype Token =
    | OutputTo(file: string)  // `-o FILE` or `-oFILE`
    | MissingOutput           // `-o` as the last argument
    | Arg(text: string)       // any other argument, examined by the revision's own branches

  /** The options the scan of `argv` examines from position `idx` on, in order. */
  function Tokens(argv: seq<string>, idx: nat): seq<Token>
    decreases |argv| - idx
  {
    if idx >= |argv| then []
    else
      var arg := argv[idx];
      if IsDashOption(arg) && arg[1] == 'o' then
        if |arg| > 2 then [OutputTo(arg[2..])] + Tokens(argv, idx + 1)
        else if idx + 1 < |argv| then [OutputTo(argv[idx + 1])] + Tokens(argv, idx + 2)
        else [MissingOutput]
      else [Arg(arg)] + Tokens(argv, idx + 1)
  }

  /** The last input name among `ts`, or `fallback` when there is none. */
  function LastInput(ts: seq<Token>, fallback: string): string {
    if ts == [] then fallback
    else
      var t := ts[|ts| - 1];
      if t.Arg? && IsInputName(t.text) then t.text else LastInput(ts[..|ts| - 1], fallback)
  }

  /** The file named by the last `-o` among `ts`, or `fallback` when there is none. */
  function LastOutput(ts: seq<Token>, fallback: string): string {
    if ts == [] then fallback
    else
      var t := ts[|ts| - 1];
      if t.OutputTo? then t.file else LastOutput(ts[..|ts| - 1], fallback)
  }

  /** `-o` missing its operand can only be the last option a scan sees. */
  lemma {:induction false} MissingOutputIsLast(argv: seq<string>, idx: nat)
    ensures forall i :: 0 <= i < |Tokens(argv, idx)| - 1 ==> !Tokens(argv, idx)[i].MissingOutput?
    decreases |argv| - idx
  {
    if idx < |argv| {
      var arg := argv[idx];
      if IsDashOption(arg) && arg[1] == 'o' {
        if |arg| > 2 {
          MissingOutputIsLast(argv, idx + 1);
        } else if idx + 1 < |argv| {
          MissingOutputIsLast(argv, idx + 2);
        }
      } else {
        MissingOutputIsLast(argv, idx + 1);
      }
    }
  }

  /** Reading the options left to right: an input name seen first is overridden by any later one. */
  lemma {:induction false} LastInputCons(t: Token, ts: seq<Token>, fallback: string)
    ensures LastInput([t] + ts, fallback)
         == LastInput(ts, if t.Arg? && IsInputName(t.text) then t.text else fallback)
    decreases |ts|
  {
    var s := [t] + ts;
    if ts != [] {
      assert s[|s| - 1] == ts[|ts| - 1];
      assert s[..|s| - 1] == [t] + ts[..|ts| - 1];
      LastInputCons(t, ts[..|ts| - 1], fallback);
    } else {
      assert s[..|s| - 1] == [];
    }
  }

  /** Reading the options left to right: an output name seen first is overridden by any later one. */
  lemma {:induction false} LastOutputCons(t: Token, ts: seq<Token>, fallback: string)
    ensures LastOutput([t] + ts, fallback) == LastOutput(ts, if t.OutputTo? then t.file else fallback)
    decreases |ts|
  {
    var s := [t] + ts;
    if ts != [] {
      assert s[|s| - 1] == ts[|ts| - 1];
      assert s[..|s| - 1] == [t] + ts[..|ts| - 1];
      LastOutputCons(t, ts[..|ts| - 1], fallback);
    } else {
      assert s[..|s| - 1] == [];
    }
  }

  /** The last input name is an input argument of `ts` or the fallback. */
  lemma {:induction false} LastInputIsAnInput(ts: seq<Token>, fallback: string)
    ensures LastInput(ts, fallback) == fallback
         || (Arg(LastInput(ts, fallback)) in ts && IsInputName(LastInput(ts, fallback)))
    decreases |ts|
  {
    if ts != [] && !(ts[|ts| - 1].Arg? && IsInputName(ts[|ts| - 1].text)) {
      LastInputIsAnInput(ts[..|ts| - 1], fallback);
    }
  }
}
