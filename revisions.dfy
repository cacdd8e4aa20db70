/**
 * How the three revisions of the argument parser relate.
 *
 * The newest `process_args` adds `-D` and `--sysroots=` to the older one
 * without changing how the status code and the file names come about; the
 * older `process_args` with `process_error` reproduces what `main` of the
 * earliest revision did, except for an option that starts with `--help`
 * without being exactly `--help`, which the earliest revision stops at.
 */
module Revisions {
  import opened ArgumentSyntax
  import opened Predata
  import Newest = ArgumentProcessor
  import Legacy = LegacyArgumentProcessor
  import Earliest = PreprocessorMacro

  /** The newest parser returns the same status and, on 0 and 1, the same file names as the older one. */
  lemma NewestAgreesWithLegacy(argv: seq<string>, data: Fields, defines: map<string, string>)
    requires |argv| >= 1
    ensures var n := Newest.Parse(argv, data, defines);
            var l := Legacy.Parse(argv, data);
      && n.status == l.status
      && (n.status == 0 || n.status == Newest.NoInputStatus ==>
            && n.state.data.inputFilename == l.data.inputFilename
            && n.state.data.outputFilename == l.data.outputFilename)
  {
    if |argv| > 1 {
      var st := Newest.State(data.(programName := argv[0]), defines, []);
      Newest.ScanAgainstTokens(argv, 1, st);
      Legacy.ScanAgainstTokens(argv, 1, data);
    }
  }

  /**
   * Unless the first option starting with `--help` is something longer,
   * `main` of the earliest revision ends as the older `process_args` on an
   * empty record followed by `process_error` does: the same return value,
   * the same kind of message (the wording of "no input files" differs between
   * the two), and on success the same two file names.
   */
  lemma EarliestAgreesWithLegacy(argv: seq<string>)
    requires |argv| >= 1
    requires var h := Earliest.FirstHelp(Tokens(argv, 1)); h.None? || h.value == "--help"
    ensures var l := Legacy.Parse(argv, Fields("", "", "", []));
            var e := Earliest.Program(argv);
      if l.status == 0 then e == Earliest.Exit(0, Earliest.Echo(l.data.inputFilename, l.data.outputFilename))
      else e == Earliest.Exit(Legacy.ProcessError(l.status).0, Earliest.Printed(Legacy.ProcessError(l.status).1))
  {
    Earliest.ProgramAgainstTokens(argv);
    if |argv| > 1 {
      Legacy.ScanAgainstTokens(argv, 1, Fields("", "", "", []));
    }
  }

  /** A first option that only starts with `--help` ends `main` silently with 0, whatever the other options are. */
  lemma EarliestStopsAtHelpPrefix(argv: seq<string>)
    requires |argv| >= 1
    requires var h := Earliest.FirstHelp(Tokens(argv, 1)); h.Some? && h.value != "--help"
    ensures Earliest.Program(argv) == Earliest.Exit(0, Earliest.Printed(Silent))
  {
    Earliest.ProgramAgainstTokens(argv);
  }
}
