/**
 * The newest argument parser, `process_args` and `process_args_error`.
 *
 * `process_args` scans `argv` left to right, filling a `preprocessor_data`
 * record and a caller-owned table of command-line macro definitions, and
 * returns a status code: 0 when an input file was named, 1 when none was,
 * 2 when `-o` has no operand and 3 when help was asked for. Besides `-o`
 * and `--help` it knows `-Dname[=value]` and `--sysroots=a;b;...`.
 *
 * `Scan` is the scan as a function, one argument per step; the method
 * `ProcessArgs` is proved to compute it, and the lemmas relate it to the
 * option list `Tokens` of the shared syntax module.
 */
module ArgumentProcessor {
  import opened ArgumentSyntax
  import opened Predata

  const NoInputStatus := 1
  const MissingOutputStatus := 2
  const HelpStatus := 3

  /** What `process_args` reports on the error stream without stopping. */
  datatype Diagnostic =
    | Redefined(name: string)  // a `-D` for a name already defined
    | UnterminatedSysroots     // "please end your sysroots with ';'"

  /** The record, the definitions table and the diagnostics written so far. */
  datatype State = State(data: Fields, defines: map<string, string>, diagnostics: seq<Diagnostic>)

  datatype Outcome = Outcome(status: int, state: State)

  // ---------------------------------------------------------------------
  // -Dname[=value]

  /** `unordered_map::emplace`: binds `name` only when it is not bound yet. */
  function InsertIfAbsent(m: map<string, string>, name: string, value: string): (r: map<string, string>)
    ensures r.Keys == m.Keys + {name}
    ensures forall k :: k in m ==> r[k] == m[k]
    ensures name !in m ==> r[name] == value
  {
    if name in m then m else m[name := value]
  }

  /** The text after `-D` split at its first `=` into a name and a value; without `=` the value is empty. */
  function SplitDefine(body: string): (string, string) {
    match Find(body, '=')
    case None => (body, "")
    case Some(k) => (body[..k], body[k + 1..])
  }

  lemma SplitDefineSpec(body: string)
    ensures '=' !in SplitDefine(body).0
    ensures '=' in body ==> SplitDefine(body).0 + "=" + SplitDefine(body).1 == body
    ensures '=' !in body ==> SplitDefine(body) == (body, "")
  {
    match Find(body, '=')
    case None =>
    case Some(k) =>
      assert body == body[..k] + "=" + body[k + 1..];
  }

  /** One `-D` option, with `body` the text after `-D`: warns when the name is bound and keeps its value. */
  function Define(st: State, body: string): State {
    var (name, value) := SplitDefine(body);
    st.(defines := InsertIfAbsent(st.defines, name, value),
        diagnostics := st.diagnostics + if name in st.defines then [Redefined(name)] else [])
  }

  /**
   * One `-D`: exactly the one name is added when it was unbound, with its
   * value and without a warning; a bound name keeps its value and earns one
   * redefinition warning. The record is untouched.
   */
  lemma DefineSpec(st: State, body: string)
    ensures var (name, value) := SplitDefine(body);
            var st' := Define(st, body);
      && st'.data == st.data
      && st'.defines.Keys == st.defines.Keys + {name}
      && (forall k :: k in st.defines ==> st'.defines[k] == st.defines[k])
      && (name !in st.defines ==> st'.defines[name] == value && st'.diagnostics == st.diagnostics)
      && (name in st.defines ==> st'.diagnostics == st.diagnostics + [Redefined(name)])
  {
  }

  /** `-D` followed by a definition; a bare `-D` is passed over. */
  predicate IsDefineOption(a: string) {
    StartsWith(a, "-D") && |a| > 2
  }

  /** The argument `a` is a `-D` option that binds `name`, when nothing bound it before. */
  predicate DefinesName(a: string, name: string) {
    IsDefineOption(a) && SplitDefine(a[2..]).0 == name
  }

  // ---------------------------------------------------------------------
  // --sysroots=a;b;...

  predicate IsSysrootsOption(a: string) {
    |a| > 11 && StartsWith(a, "--sysroots=")
  }

  /**
   * The `;`-separated segments of `list`, in order. A last segment without a
   * closing `;` is a segment too; the empty text after a closing `;` is not.
   */
  function Segments(list: string): seq<string>
    decreases |list|
  {
    if list == [] then []
    else match Find(list, ';')
      case None => [list]
      case Some(k) => [list[..k]] + Segments(list[k + 1..])
  }

  /** The segments written back with a `;` after each. */
  function Terminated(segments: seq<string>): string {
    if segments == [] then "" else segments[0] + ";" + Terminated(segments[1..])
  }

  predicate EndsTerminated(list: string) {
    list == [] || list[|list| - 1] == ';'
  }

  /** No segment holds a `;`. */
  lemma {:induction false} SegmentsHaveNoSeparator(list: string)
    ensures forall i :: 0 <= i < |Segments(list)| ==> ';' !in Segments(list)[i]
    decreases |list|
  {
    if list != [] {
      match Find(list, ';')
      case None =>
      case Some(k) =>
        SegmentsHaveNoSeparator(list[k + 1..]);
    }
  }

  /** A text is what comes before its separator at `k`, the separator, and what follows. */
  lemma SplitAtSeparator(list: string, k: nat)
    requires k < |list| && list[k] == ';'
    ensures list == list[..k] + ";" + list[k + 1..]
  {
    assert list[..k] + [list[k]] + list[k + 1..] == list;
  }

  /** Written back with a `;` after each, the segments give `list`, with a `;` added when it lacked a final one. */
  lemma {:induction false} SegmentsRoundTrip(list: string)
    ensures Terminated(Segments(list)) == if EndsTerminated(list) then list else list + ";"
    decreases |list|
  {
    if list != [] {
      match Find(list, ';')
      case None =>
        assert Segments(list) == [list];
        assert Terminated([list]) == list + ";" + Terminated([]);
      case Some(k) =>
        var rest := list[k + 1..];
        var segs := Segments(list);
        assert segs == [list[..k]] + Segments(rest);
        assert segs[1..] == Segments(rest);
        assert Terminated(segs) == list[..k] + ";" + Terminated(Segments(rest));
        SegmentsRoundTrip(rest);
        SplitAtSeparator(list, k);
        if rest != [] {
          assert list[|list| - 1] == rest[|rest| - 1];
          assert EndsTerminated(list) == EndsTerminated(rest);
        } else {
          assert list[|list| - 1] == ';';
        }
    }
  }

  /** When the source's scan runs off a last segment that has no closing `;`, it writes an info notice. */
  predicate UnterminatedNotice(list: string) {
    ';' in list && !EndsTerminated(list)
  }

  function Reverse<T>(s: seq<T>): seq<T> {
    if s == [] then [] else Reverse(s[1..]) + [s[0]]
  }

  /** Every segment is pushed to the front of the directory list, so the list starts with them in reverse order. */
  function AddSysroots(st: State, list: string): State {
    st.(data := st.data.(systemDirectories := Reverse(Segments(list)) + st.data.systemDirectories),
        diagnostics := st.diagnostics + if UnterminatedNotice(list) then [UnterminatedSysroots] else [])
  }

  // ---------------------------------------------------------------------
  // The scan

  function SetInput(st: State, name: string): State {
    st.(data := st.data.(inputFilename := name))
  }

  function SetOutput(st: State, name: string): State {
    st.(data := st.data.(outputFilename := name))
  }

  /** After the last argument: no input name gives 1; otherwise an unset output name becomes the input name plus ".ppc". */
  function Finish(st: State): Outcome {
    if |st.data.inputFilename| == 0 then Outcome(NoInputStatus, st)
    else if |st.data.outputFilename| == 0 then Outcome(0, SetOutput(st, st.data.inputFilename + ".ppc"))
    else Outcome(0, st)
  }

  /** What the scan does with one argument: go on at `next` in state `st`, or return `status`. */
  datatype Action = Continue(next: nat, st: State) | Stop(status: int)

  /** The branches of the loop body for the argument at `idx`, in the source's order. */
  function Step(argv: seq<string>, idx: nat, st: State): (r: Action)
    requires 1 <= idx < |argv|
    ensures r.Continue? ==> (r.next == idx + 1 || r.next == idx + 2) && r.next <= |argv|
  {
    var arg := argv[idx];
    if IsDashOption(arg) then
      if arg[1] == 'o' && |arg| == 2 then
        if idx + 1 == |argv| then Stop(MissingOutputStatus)
        else Continue(idx + 2, SetOutput(st, argv[idx + 1]))
      else if arg[1] == 'o' then Continue(idx + 1, SetOutput(st, arg[2..]))
      else if StartsWith(arg, "--help") then
        if |arg| == 6 then Stop(HelpStatus) else Continue(idx + 1, st)
      else if StartsWith(arg, "-D") then
        if |arg| == 2 then Continue(idx + 1, st) else Continue(idx + 1, Define(st, arg[2..]))
      else if IsSysrootsOption(arg) then Continue(idx + 1, AddSysroots(st, arg[11..]))
      else Continue(idx + 1, st)
    else Continue(idx + 1, SetInput(st, arg))
  }

  /** The scan from argument `idx` on, starting in state `st`. */
  function Scan(argv: seq<string>, idx: nat, st: State): Outcome
    requires 1 <= idx <= |argv|
    decreases |argv| - idx
  {
    if idx == |argv| then Finish(st)
    else match Step(argv, idx, st)
      case Stop(status) => Outcome(status, st)
      case Continue(next, st') => Scan(argv, next, st')
  }

  /** `process_args` on a record holding `data` and a definitions table `defines`. */
  function Parse(argv: seq<string>, data: Fields, defines: map<string, string>): Outcome
    requires |argv| >= 1
  {
    if |argv| == 1 then Outcome(NoInputStatus, State(data, defines, []))
    else Scan(argv, 1, State(data.(programName := argv[0]), defines, []))
  }

  // ---------------------------------------------------------------------
  // The imperative parser

  /** The caller-owned `unordered_map<string, string>` of command-line definitions. */
  class DefineTable {
    var entries: map<string, string>

    constructor (initial: map<string, string>)
      ensures entries == initial
    {
      entries := initial;
    }

    /** `emplace`: binds `name` to `value` unless it is bound already; says whether it bound it. */
    method Emplace(name: string, value: string) returns (inserted: bool)
      modifies this
      ensures inserted == (name !in old(entries))
      ensures entries == InsertIfAbsent(old(entries), name, value)
    {
      inserted := name !in entries;
      if inserted {
        entries := entries[name := value];
      }
    }
  }

  /**
   * The `--sysroots=` branch: pushes every segment of `list` to the front of
   * the directory list, in the order the segments appear, and reports whether
   * the info notice about a missing final `;` was written.
   */
  method PushSysroots(predata: PreprocessorData, list: string) returns (notice: bool)
    requires |list| > 0
    modifies predata`systemDirectories
    ensures predata.systemDirectories == Reverse(Segments(list)) + old(predata.systemDirectories)
    ensures notice == UnterminatedNotice(list)
  {
    if Find(list, ';').None? {
      predata.systemDirectories := [list] + predata.systemDirectories;
      return false;
    }
    ghost var target := Reverse(Segments(list)) + predata.systemDirectories;
    // `rest` is the text from `semi_pointer` on
    var rest := list;
    while rest != []
      invariant ';' in list
      invariant rest == [] ==> EndsTerminated(list)
      invariant rest != [] ==> rest[|rest| - 1] == list[|list| - 1]
      invariant Reverse(Segments(rest)) + predata.systemDirectories == target
      decreases |rest|
    {
      match Find(rest, ';')
      case Some(k) =>
        PushedSegment(rest, k, predata.systemDirectories, target);
        predata.systemDirectories := [rest[..k]] + predata.systemDirectories;
        rest := rest[k + 1..];
      case None =>
        // the text after the last `;` has no closing `;`: the notice, then the segment
        PushedLastSegment(rest, predata.systemDirectories, target);
        predata.systemDirectories := [rest] + predata.systemDirectories;
        return true;
    }
    return false;
  }

  /** Pushing the first segment of `rest` leaves the others to push. */
  lemma PushedSegment(rest: string, k: nat, dirs: seq<string>, target: seq<string>)
    requires Find(rest, ';') == Some(k)
    requires Reverse(Segments(rest)) + dirs == target
    ensures Reverse(Segments(rest[k + 1..])) + ([rest[..k]] + dirs) == target
    ensures rest[k + 1..] == [] ==> EndsTerminated(rest)
    ensures rest[k + 1..] != [] ==> rest[k + 1..][|rest[k + 1..]| - 1] == rest[|rest| - 1]
  {
    var after := Segments(rest[k + 1..]);
    assert Segments(rest) == [rest[..k]] + after;
    assert ([rest[..k]] + after)[1..] == after;
    assert Reverse(Segments(rest)) == Reverse(after) + [rest[..k]];
    assert (Reverse(after) + [rest[..k]]) + dirs == Reverse(after) + ([rest[..k]] + dirs);
  }

  /** A last segment without a closing `;` is pushed whole. */
  lemma PushedLastSegment(rest: string, dirs: seq<string>, target: seq<string>)
    requires rest != [] && Find(rest, ';') == None
    requires Reverse(Segments(rest)) + dirs == target
    ensures [rest] + dirs == target
    ensures !EndsTerminated(rest)
  {
    assert Segments(rest) == [rest];
    assert Reverse([rest]) == [rest];
  }

  /**
   * `process_args`: fills `predata` and `defines` from `argv` and returns the
   * status code and the diagnostics written to the error stream.
   */
  method ProcessArgs(argv: seq<string>, predata: PreprocessorData, defines: DefineTable)
    returns (status: int, diagnostics: seq<Diagnostic>)
    requires |argv| >= 1
    modifies predata, defines
    ensures Outcome(status, State(predata.View(), defines.entries, diagnostics))
         == Parse(argv, old(predata.View()), old(defines.entries))
  {
    if |argv| == 1 {
      return NoInputStatus, [];
    }
    predata.programName := argv[0];
    diagnostics := [];
    var idx := 1;
    while idx < |argv|
      invariant 1 <= idx <= |argv|
      invariant Scan(argv, idx, State(predata.View(), defines.entries, diagnostics))
             == Parse(argv, old(predata.View()), old(defines.entries))
      decreases |argv| - idx
    {
      var arg := argv[idx];
      ghost var before := State(predata.View(), defines.entries, diagnostics);
      if IsDashOption(arg) {
        if arg[1] == 'o' && |arg| == 2 {
          idx := idx + 1;
          if idx == |argv| {
            return MissingOutputStatus, diagnostics;
          }
          predata.outputFilename := argv[idx];
        } else if arg[1] == 'o' {
          predata.outputFilename := arg[2..];
        } else if StartsWith(arg, "--help") {
          if |arg| == 6 {
            return HelpStatus, diagnostics;
          }
        } else if StartsWith(arg, "-D") {
          if |arg| > 2 {
            var (name, value) := SplitDefine(arg[2..]);
            if name in defines.entries {
              diagnostics := diagnostics + [Redefined(name)];
            }
            var _ := defines.Emplace(name, value);
            assert State(predata.View(), defines.entries, diagnostics) == Define(before, arg[2..]);
          }
        } else if IsSysrootsOption(arg) {
          var notice := PushSysroots(predata, arg[11..]);
          if notice {
            diagnostics := diagnostics + [UnterminatedSysroots];
          }
          assert State(predata.View(), defines.entries, diagnostics) == AddSysroots(before, arg[11..]);
        }
      } else {
        predata.inputFilename := arg;
      }
      idx := idx + 1;
    }
    if |predata.inputFilename| == 0 {
      return NoInputStatus, diagnostics;
    }
    if |predata.outputFilename| == 0 {
      predata.outputFilename := predata.inputFilename + ".ppc";
    }
    return 0, diagnostics;
  }

  /** `process_args_error`: the value the program returns for a status code, and what it writes. */
  function ProcessArgsError(errc: int): (r: (int, Message))
    ensures r.0 == -1 <==> errc !in {1, 2, 3}
    ensures r.0 == -1 <==> r.1 == Silent
    ensures r.0 == 0 <==> r.1 == Usage
  {
    match errc
    case 1 => (1, NoInputFiles)
    case 2 => (1, MissingOutputName)
    case 3 => (0, Usage)
    case _ => (-1, Silent)
  }

  // ---------------------------------------------------------------------
  // Properties of the scan

  predicate EndsWith(s: seq<string>, suffix: seq<string>) {
    |suffix| <= |s| && s[|s| - |suffix|..] == suffix
  }

  lemma EndsWithTransitive(a: seq<string>, b: seq<string>, c: seq<string>)
    requires EndsWith(a, b) && EndsWith(b, c)
    ensures EndsWith(a, c)
  {
    assert a[|a| - |c|..] == a[|a| - |b|..][|b| - |c|..];
  }

  lemma {:induction false} ReverseAt<T>(s: seq<T>, i: nat)
    requires i < |s|
    ensures |Reverse(s)| == |s| && Reverse(s)[i] == s[|s| - 1 - i]
    decreases |s|
  {
    if i < |s| - 1 {
      ReverseAt(s[1..], i);
    } else {
      ReverseLength(s[1..]);
    }
  }

  lemma {:induction false} ReverseLength<T>(s: seq<T>)
    ensures |Reverse(s)| == |s|
    decreases |s|
  {
    if s != [] {
      ReverseLength(s[1..]);
    }
  }

  /** An argument the scan goes past is the head of the option list. */
  lemma TokensAfterStep(argv: seq<string>, idx: nat, st: State)
    requires 1 <= idx < |argv|
    ensures Step(argv, idx, st).Continue? ==>
      Tokens(argv, idx) == [Tokens(argv, idx)[0]] + Tokens(argv, Step(argv, idx, st).next)
  {
  }

  /**
   * One argument against the option list: `--help` stops with 3, `-o`
   * without operand with 2; any other option is the head of the list, and
   * the input and output names afterwards are those it names, if any.
   */
  lemma StepAgainstTokens(argv: seq<string>, idx: nat, st: State)
    requires 1 <= idx < |argv|
    ensures var ts := Tokens(argv, idx);
      && ts != []
      && match Step(argv, idx, st)
         case Stop(status) =>
           || (status == HelpStatus && ts[0] == Arg("--help"))
           || (status == MissingOutputStatus && ts == [MissingOutput])
         case Continue(next, st') =>
           && ts == [ts[0]] + Tokens(argv, next)
           && ts[0] != Arg("--help") && !ts[0].MissingOutput?
           && st'.data.inputFilename
              == (if ts[0].Arg? && IsInputName(ts[0].text) then ts[0].text else st.data.inputFilename)
           && st'.data.outputFilename == (if ts[0].OutputTo? then ts[0].file else st.data.outputFilename)
  {
    var arg := argv[idx];
    if StartsWith(arg, "-D") || IsSysrootsOption(arg) {
      assert arg[1] != '-' || arg[2] != 'h';
    }
  }

  /**
   * The status and file names of a scan, read off its option list: 3 when
   * it holds exactly `--help`, else 2 when `-o` lacks its operand, else 1
   * when no input name was given (the last one given is empty, or none was
   * and the record had none), else 0. On 0 and 1 the input name is the last
   * one given; the output name is the last `-o` operand, and on 0 an empty
   * one becomes the input name plus ".ppc".
   */
  lemma {:induction false} ScanAgainstTokens(argv: seq<string>, idx: nat, st: State)
    requires 1 <= idx <= |argv|
    ensures var o := Scan(argv, idx, st);
            var ts := Tokens(argv, idx);
            var input := LastInput(ts, st.data.inputFilename);
            var output := LastOutput(ts, st.data.outputFilename);
      && (o.status == HelpStatus <==> Arg("--help") in ts)
      && (o.status == MissingOutputStatus <==> Arg("--help") !in ts && MissingOutput in ts)
      && (o.status == NoInputStatus <==> Arg("--help") !in ts && MissingOutput !in ts && input == "")
      && (o.status == 0 <==> Arg("--help") !in ts && MissingOutput !in ts && input != "")
      && (o.status == 0 || o.status == NoInputStatus ==>
            && o.state.data.inputFilename == input
            && o.state.data.outputFilename == if o.status == 0 && output == "" then input + ".ppc" else output)
    decreases |argv| - idx
  {
    if idx < |argv| {
      StepAgainstTokens(argv, idx, st);
      match Step(argv, idx, st)
      case Stop(status) =>
      case Continue(next, st') =>
        var ts := Tokens(argv, idx);
        ScanAgainstTokens(argv, next, st');
        LastInputCons(ts[0], Tokens(argv, next), st.data.inputFilename);
        LastOutputCons(ts[0], Tokens(argv, next), st.data.outputFilename);
    }
  }

  /**
   * `later` keeps what `earlier` had: the same program name, every
   * definition with its value, the directories at the end of the list and
   * the diagnostics as a prefix.
   */
  predicate Extends(later: State, earlier: State) {
    && later.data.programName == earlier.data.programName
    && EndsWith(later.data.systemDirectories, earlier.data.systemDirectories)
    && (forall k :: k in earlier.defines ==> k in later.defines && later.defines[k] == earlier.defines[k])
    && earlier.diagnostics <= later.diagnostics
  }

  lemma ExtendsTransitive(a: State, b: State, c: State)
    requires Extends(a, b) && Extends(b, c)
    ensures Extends(a, c)
  {
    EndsWithTransitive(a.data.systemDirectories, b.data.systemDirectories, c.data.systemDirectories);
  }

  lemma ExtendsReflexive(st: State)
    ensures Extends(st, st)
  {
    assert st.data.systemDirectories[0..] == st.data.systemDirectories;
  }

  /** What one argument leaves alone: the program name, the definitions already made, the directories already listed. */
  lemma StepFrame(argv: seq<string>, idx: nat, st: State)
    requires 1 <= idx < |argv|
    ensures Step(argv, idx, st).Continue? ==> Extends(Step(argv, idx, st).st, st)
  {
    ExtendsReflexive(st);
    match Step(argv, idx, st)
    case Stop(_) =>
    case Continue(_, st') =>
      var dirs := st.data.systemDirectories;
      if st'.data.systemDirectories != dirs {
        var arg := argv[idx];
        var added := Reverse(Segments(arg[11..]));
        assert st'.data.systemDirectories == added + dirs;
        assert (added + dirs)[|added|..] == dirs;
      }
  }

  /**
   * A scan never changes the program name, never rebinds or removes a
   * definition, only adds directories in front of those listed and only
   * appends diagnostics.
   */
  lemma {:induction false} ScanFrame(argv: seq<string>, idx: nat, st: State)
    requires 1 <= idx <= |argv|
    ensures Extends(Scan(argv, idx, st).state, st)
    decreases |argv| - idx
  {
    if idx < |argv| {
      StepFrame(argv, idx, st);
      match Step(argv, idx, st)
      case Stop(status) =>
        ExtendsReflexive(st);
      case Continue(next, st') =>
        ScanFrame(argv, next, st');
        ExtendsTransitive(Scan(argv, next, st').state, st', st);
    } else {
      ExtendsReflexive(st);
    }
  }

  /** Each name one argument binds is bound by that argument, a `-D` option. */
  lemma StepDefines(argv: seq<string>, idx: nat, st: State)
    requires 1 <= idx < |argv|
    ensures Step(argv, idx, st).Continue? ==>
      var st' := Step(argv, idx, st).st;
      var t := Tokens(argv, idx)[0];
      forall k :: k in st'.defines && k !in st.defines ==> t.Arg? && DefinesName(t.text, k)
  {
    StepAgainstTokens(argv, idx, st);
  }

  /** Every name a scan binds is the name of a `-D` option among the options it examined. */
  lemma {:induction false} ScanDefinesFromArguments(argv: seq<string>, idx: nat, st: State)
    requires 1 <= idx <= |argv|
    ensures var o := Scan(argv, idx, st).state;
      forall k :: k in o.defines && k !in st.defines ==>
        exists a :: Arg(a) in Tokens(argv, idx) && DefinesName(a, k)
    decreases |argv| - idx
  {
    if idx < |argv| {
      TokensAfterStep(argv, idx, st);
      StepDefines(argv, idx, st);
      match Step(argv, idx, st)
      case Stop(status) =>
      case Continue(next, st') =>
        ScanDefinesFromArguments(argv, next, st');
        var o := Scan(argv, next, st').state;
        var ts := Tokens(argv, idx);
        forall k | k in o.defines && k !in st.defines
          ensures exists a :: Arg(a) in ts && DefinesName(a, k)
        {
          if k in st'.defines {
            assert Arg(ts[0].text) in ts;
          } else {
            var a :| Arg(a) in Tokens(argv, next) && DefinesName(a, k);
            assert Arg(a) in ts;
          }
        }
    }
  }

  /** `dir` is a segment of a `--sysroots=` option among `ts`. */
  ghost predicate FromSysroots(dir: string, ts: seq<Token>) {
    exists a :: Arg(a) in ts && IsSysrootsOption(a) && dir in Segments(a[11..])
  }

  lemma FromSysrootsCons(dir: string, t: Token, ts: seq<Token>)
    requires FromSysroots(dir, ts) || (t.Arg? && IsSysrootsOption(t.text) && dir in Segments(t.text[11..]))
    ensures FromSysroots(dir, [t] + ts)
  {
    if !(t.Arg? && IsSysrootsOption(t.text) && dir in Segments(t.text[11..])) {
      var a :| Arg(a) in ts && IsSysrootsOption(a) && dir in Segments(a[11..]);
      assert Arg(a) in [t] + ts;
    } else {
      assert Arg(t.text) in [t] + ts;
    }
  }

  /** Every directory a scan adds is a segment of a `--sysroots=` option among the options it examined. */
  lemma ScanDirectoriesFromArguments(argv: seq<string>, idx: nat, st: State)
    requires 1 <= idx <= |argv|
    ensures var dirs := Scan(argv, idx, st).state.data.systemDirectories;
      forall i :: 0 <= i < |dirs| - |st.data.systemDirectories| ==> FromSysroots(dirs[i], Tokens(argv, idx))
  {
    var ts := Tokens(argv, idx);
    ScanAdded(argv, idx, st);
    AddedFromSysroots(ts);
    var dirs := Scan(argv, idx, st).state.data.systemDirectories;
    forall i | 0 <= i < |dirs| - |st.data.systemDirectories|
      ensures FromSysroots(dirs[i], ts)
    {
      assert dirs[i] == Added(ts)[i];
    }
  }

  /** Every directory a run of options adds is a segment of one of its `--sysroots=` options. */
  lemma {:induction false} AddedFromSysroots(ts: seq<Token>)
    ensures forall i :: 0 <= i < |Added(ts)| ==> FromSysroots(Added(ts)[i], ts)
    decreases |ts|
  {
    if ts != [] && !Stops(ts[0]) {
      var rest := ts[1..];
      var own := SysrootsOf(ts[0]);
      AddedFromSysroots(rest);
      assert ts == [ts[0]] + rest;
      assert Added(ts) == Added(rest) + own;
      forall i | 0 <= i < |Added(ts)|
        ensures FromSysroots(Added(ts)[i], ts)
      {
        var dir := Added(ts)[i];
        if i < |Added(rest)| {
          assert dir == Added(rest)[i];
        } else {
          var j := i - |Added(rest)|;
          assert dir == own[j];
          var segments := Segments(ts[0].text[11..]);
          ReverseLength(segments);
          ReverseAt(segments, j);
        }
        FromSysrootsCons(dir, ts[0], rest);
      }
    }
  }

  /** The directories `process_args` adds hold no `;`, and each is a segment of a `--sysroots=` option. */
  lemma ParseDirectories(argv: seq<string>, data: Fields, defines: map<string, string>)
    requires |argv| >= 1
    ensures var dirs := Parse(argv, data, defines).state.data.systemDirectories;
      forall i :: 0 <= i < |dirs| - |data.systemDirectories| ==>
        ';' !in dirs[i] && FromSysroots(dirs[i], Tokens(argv, 1))
  {
    if |argv| > 1 {
      var st := State(data.(programName := argv[0]), defines, []);
      ScanDirectoriesFromArguments(argv, 1, st);
      var dirs := Scan(argv, 1, st).state.data.systemDirectories;
      forall i | 0 <= i < |dirs| - |data.systemDirectories|
        ensures ';' !in dirs[i]
      {
        assert 0 <= i < |Scan(argv, 1, st).state.data.systemDirectories| - |st.data.systemDirectories|;
        assert FromSysroots(dirs[i], Tokens(argv, 1));
        var a :| Arg(a) in Tokens(argv, 1) && IsSysrootsOption(a) && dirs[i] in Segments(a[11..]);
        SegmentsHaveNoSeparator(a[11..]);
      }
    }
  }

  // ---------------------------------------------------------------------
  // The effects of a scan, option by option

  /** The scan stops at this option: exact `--help`, or `-o` without operand. */
  predicate Stops(t: Token) {
    t == Arg("--help") || t.MissingOutput?
  }

  /** The name and value a `-D` option gives, if `t` is one. */
  function DefinitionOf(t: Token): Option<(string, string)> {
    if t.Arg? && IsDefineOption(t.text) then Some(SplitDefine(t.text[2..])) else None
  }

  /** The definitions table after one option. */
  function BindOne(m: map<string, string>, t: Token): map<string, string> {
    match DefinitionOf(t)
    case None => m
    case Some((name, value)) => InsertIfAbsent(m, name, value)
  }

  /** The directories one option pushes to the front of the list, nearest first. */
  function SysrootsOf(t: Token): seq<string> {
    if t.Arg? && IsSysrootsOption(t.text) then Reverse(Segments(t.text[11..])) else []
  }

  /** The diagnostics one option writes when the names in `bound` are already defined. */
  function NoteOf(t: Token, bound: set<string>): seq<Diagnostic> {
    match DefinitionOf(t)
    case Some((name, _)) => if name in bound then [Redefined(name)] else []
    case None =>
      if t.Arg? && IsSysrootsOption(t.text) && UnterminatedNotice(t.text[11..]) then [UnterminatedSysroots] else []
  }

  /** The name a `-D` option binds, as a set; empty for any other option. */
  function NamesOf(t: Token): set<string> {
    match DefinitionOf(t)
    case None => {}
    case Some((name, _)) => {name}
  }

  /** The names the `-D` options of `ts` bind, up to where the scan stops. */
  function DefinedNames(ts: seq<Token>): set<string> {
    if ts == [] || Stops(ts[0]) then {}
    else NamesOf(ts[0]) + DefinedNames(ts[1..])
  }

  /** The value the first `-D` option of `ts` naming `name` gives, up to where the scan stops. */
  function FirstValue(ts: seq<Token>, name: string): Option<string> {
    if ts == [] || Stops(ts[0]) then None
    else match DefinitionOf(ts[0])
      case Some((n, value)) => if n == name then Some(value) else FirstValue(ts[1..], name)
      case None => FirstValue(ts[1..], name)
  }

  /** How many `-D` options of `ts` name `name`, up to where the scan stops. */
  function DefineCount(ts: seq<Token>, name: string): nat {
    if ts == [] || Stops(ts[0]) then 0
    else (if DefinitionOf(ts[0]).Some? && DefinitionOf(ts[0]).value.0 == name then 1 else 0)
         + DefineCount(ts[1..], name)
  }

  /** The definitions table after the options of `ts`, up to where the scan stops. */
  function BindAll(m: map<string, string>, ts: seq<Token>): map<string, string>
    decreases |ts|
  {
    if ts == [] || Stops(ts[0]) then m else BindAll(BindOne(m, ts[0]), ts[1..])
  }

  /** The directories the options of `ts` add, up to where the scan stops: the last option's segments first. */
  function Added(ts: seq<Token>): seq<string> {
    if ts == [] || Stops(ts[0]) then [] else Added(ts[1..]) + SysrootsOf(ts[0])
  }

  /** The diagnostics the options of `ts` write, in order, up to where the scan stops. */
  function Notes(ts: seq<Token>, bound: set<string>): seq<Diagnostic> {
    if ts == [] || Stops(ts[0]) then []
    else NoteOf(ts[0], bound) + Notes(ts[1..], bound + NamesOf(ts[0]))
  }

  /**
   * The definitions table after a run of options: every name a `-D` option
   * binds is bound; a name bound before keeps its value; a new name has the
   * value of the first `-D` option that names it.
   */
  lemma {:induction false} BindAllSpec(m: map<string, string>, ts: seq<Token>)
    ensures BindAll(m, ts).Keys == m.Keys + DefinedNames(ts)
    ensures forall k :: k in m ==> BindAll(m, ts)[k] == m[k]
    ensures forall k :: k in BindAll(m, ts) && k !in m ==> FirstValue(ts, k) == Some(BindAll(m, ts)[k])
    decreases |ts|
  {
    if ts != [] && !Stops(ts[0]) {
      var m' := BindOne(m, ts[0]);
      var r := BindAll(m, ts);
      BindAllSpec(m', ts[1..]);
      assert r == BindAll(m', ts[1..]);
      forall k | k in r && k !in m
        ensures FirstValue(ts, k) == Some(r[k])
      {
        match DefinitionOf(ts[0])
        case None =>
        case Some((n, value)) =>
          if k == n {
            assert m'[k] == value;
          }
      }
    }
  }

  /**
   * Every attempt to redefine a name writes one warning: of the `-D` options
   * naming `name`, all but the first warn when the name was unbound, and all
   * of them warn when it was bound.
   */
  lemma {:induction false} NotesCountRedefinitions(ts: seq<Token>, bound: set<string>, name: string)
    ensures multiset(Notes(ts, bound))[Redefined(name)]
         == if name in bound || DefineCount(ts, name) == 0 then DefineCount(ts, name) else DefineCount(ts, name) - 1
    decreases |ts|
  {
    if ts != [] && !Stops(ts[0]) {
      NotesCountRedefinitions(ts[1..], bound + NamesOf(ts[0]), name);
      assert Notes(ts, bound) == NoteOf(ts[0], bound) + Notes(ts[1..], bound + NamesOf(ts[0]));
    }
  }

  /** The scan stops at an argument exactly when its option is one the scan stops at. */
  lemma StepStops(argv: seq<string>, idx: nat, st: State)
    requires 1 <= idx < |argv|
    ensures var ts := Tokens(argv, idx);
      && ts != []
      && match Step(argv, idx, st)
         case Stop(_) => Stops(ts[0])
         case Continue(next, _) => !Stops(ts[0]) && ts[1..] == Tokens(argv, next)
  {
    StepAgainstTokens(argv, idx, st);
  }

  /** `st'` is `st` after option `t`, as far as the table, the directories and the diagnostics go. */
  predicate Effects(st: State, st': State, t: Token) {
    && st'.defines == BindOne(st.defines, t)
    && st'.data.systemDirectories == SysrootsOf(t) + st.data.systemDirectories
    && st'.diagnostics == st.diagnostics + NoteOf(t, st.defines.Keys)
  }

  /** An argument the scan goes past is a `-D` option, a `--sysroots=` option, or leaves the three alone. */
  lemma StepShape(argv: seq<string>, idx: nat, st: State)
    requires 1 <= idx < |argv|
    ensures Step(argv, idx, st).Continue? ==>
      var st' := Step(argv, idx, st).st;
      var t := Tokens(argv, idx)[0];
      if t.Arg? && IsDefineOption(t.text) then st' == Define(st, t.text[2..])
      else if t.Arg? && IsSysrootsOption(t.text) then st' == AddSysroots(st, t.text[11..])
      else st'.defines == st.defines && st'.diagnostics == st.diagnostics
           && st'.data.systemDirectories == st.data.systemDirectories
  {
    var arg := argv[idx];
    if IsDefineOption(arg) {
      assert arg[1] == 'D';
      assert Tokens(argv, idx)[0] == Arg(arg);
    } else if IsSysrootsOption(arg) {
      assert arg[1] == '-' && arg[2] == 's';
      assert !StartsWith(arg, "--help") && !StartsWith(arg, "-D");
      assert Tokens(argv, idx)[0] == Arg(arg);
    }
  }

  /** The three cases of `StepShape` are the effects `BindOne`, `SysrootsOf` and `NoteOf` give. */
  lemma ShapeEffects(st: State, st': State, t: Token)
    requires if t.Arg? && IsDefineOption(t.text) then st' == Define(st, t.text[2..])
             else if t.Arg? && IsSysrootsOption(t.text) then st' == AddSysroots(st, t.text[11..])
             else st'.defines == st.defines && st'.diagnostics == st.diagnostics
                  && st'.data.systemDirectories == st.data.systemDirectories
    ensures Effects(st, st', t)
  {
    if t.Arg? && IsSysrootsOption(t.text) {
      assert t.text[1] == '-';
      assert !IsDefineOption(t.text);
    }
  }

  /** One argument the scan goes past has the effects its option gives. */
  lemma StepEffects(argv: seq<string>, idx: nat, st: State)
    requires 1 <= idx < |argv|
    ensures Step(argv, idx, st).Continue? ==> Effects(st, Step(argv, idx, st).st, Tokens(argv, idx)[0])
  {
    StepShape(argv, idx, st);
    if Step(argv, idx, st).Continue? {
      ShapeEffects(st, Step(argv, idx, st).st, Tokens(argv, idx)[0]);
    }
  }

  /** A scan's definitions table is `BindAll` of its options, up to where it stops. */
  lemma {:induction false} ScanTable(argv: seq<string>, idx: nat, st: State)
    requires 1 <= idx <= |argv|
    ensures Scan(argv, idx, st).state.defines == BindAll(st.defines, Tokens(argv, idx))
    decreases |argv| - idx
  {
    if idx < |argv| {
      StepStops(argv, idx, st);
      StepEffects(argv, idx, st);
      match Step(argv, idx, st)
      case Stop(_) =>
      case Continue(next, st') =>
        ScanTable(argv, next, st');
    }
  }

  /**
   * A scan adds, in front of the directory list, the reversed segments of
   * each `--sysroots=` option, the last option's first, up to where it stops.
   */
  lemma {:induction false} ScanAdded(argv: seq<string>, idx: nat, st: State)
    requires 1 <= idx <= |argv|
    ensures Scan(argv, idx, st).state.data.systemDirectories == Added(Tokens(argv, idx)) + st.data.systemDirectories
    decreases |argv| - idx
  {
    if idx < |argv| {
      StepStops(argv, idx, st);
      StepEffects(argv, idx, st);
      match Step(argv, idx, st)
      case Stop(_) =>
      case Continue(next, st') =>
        var ts := Tokens(argv, idx);
        ScanAdded(argv, next, st');
        assert Added(ts) == Added(ts[1..]) + SysrootsOf(ts[0]);
    }
  }

  /** One option adds its own name, if any, to the names the table binds. */
  lemma BindOneKeys(m: map<string, string>, t: Token)
    ensures BindOne(m, t).Keys == m.Keys + NamesOf(t)
  {
  }

  /**
   * The diagnostics of a run of options are those of the first, then those
   * of the rest with its name bound: written after `before`, the first
   * option's give `middle`, and the rest's then give `after`.
   */
  lemma NotesStep(ts: seq<Token>, bound: set<string>, bound': set<string>,
                  before: seq<Diagnostic>, middle: seq<Diagnostic>, after: seq<Diagnostic>)
    requires ts != [] && !Stops(ts[0]) && bound' == bound + NamesOf(ts[0])
    requires middle == before + NoteOf(ts[0], bound)
    requires after == middle + Notes(ts[1..], bound')
    ensures after == before + Notes(ts, bound)
  {
    assert Notes(ts, bound) == NoteOf(ts[0], bound) + Notes(ts[1..], bound');
  }

  /** A scan writes the diagnostics of its options in order, up to where it stops. */
  lemma {:induction false} ScanNotes(argv: seq<string>, idx: nat, st: State)
    requires 1 <= idx <= |argv|
    ensures Scan(argv, idx, st).state.diagnostics == st.diagnostics + Notes(Tokens(argv, idx), st.defines.Keys)
    decreases |argv| - idx
  {
    if idx < |argv| {
      StepStops(argv, idx, st);
      StepEffects(argv, idx, st);
      match Step(argv, idx, st)
      case Stop(_) =>
      case Continue(next, st') =>
        var ts := Tokens(argv, idx);
        ScanNotes(argv, next, st');
        BindOneKeys(st.defines, ts[0]);
        NotesStep(ts, st.defines.Keys, st'.defines.Keys,
                  st.diagnostics, st'.diagnostics, Scan(argv, next, st').state.diagnostics);
    }
  }

  /**
   * The table, diagnostics and directories `process_args` leaves are the
   * folds of its options up to where it stops, starting from what it was given.
   */
  lemma ParseByOptions(argv: seq<string>, data: Fields, defines: map<string, string>)
    requires |argv| >= 1
    ensures var o := Parse(argv, data, defines).state;
            var ts := Tokens(argv, 1);
      && o.defines == BindAll(defines, ts)
      && o.diagnostics == Notes(ts, defines.Keys)
      && o.data.systemDirectories == Added(ts) + data.systemDirectories
  {
    if |argv| > 1 {
      var st := State(data.(programName := argv[0]), defines, []);
      ScanTable(argv, 1, st);
      ScanAdded(argv, 1, st);
      ScanNotes(argv, 1, st);
    }
  }

  /**
   * The definitions, diagnostics and directories `process_args` leaves,
   * read off its options up to where it stops (all of them when it returns
   * 0 or 1): every `-D` option binds its name, a name defined before keeps
   * its value, a new name has the value of the first `-D` naming it, every
   * attempt to redefine a name warns once, and the directory list gains
   * exactly the reversed segments of each `--sysroots=` option, the last
   * option's first.
   */
  lemma ParseEffects(argv: seq<string>, data: Fields, defines: map<string, string>)
    requires |argv| >= 1
    ensures var o := Parse(argv, data, defines).state;
            var ts := Tokens(argv, 1);
      && o.defines.Keys == defines.Keys + DefinedNames(ts)
      && (forall k :: k in defines ==> o.defines[k] == defines[k])
      && (forall k :: k in o.defines && k !in defines ==> FirstValue(ts, k) == Some(o.defines[k]))
      && (forall n :: multiset(o.diagnostics)[Redefined(n)]
                      == if n in defines || DefineCount(ts, n) == 0 then DefineCount(ts, n) else DefineCount(ts, n) - 1)
      && o.data.systemDirectories == Added(ts) + data.systemDirectories
  {
    var o := Parse(argv, data, defines).state;
    var ts := Tokens(argv, 1);
    ParseByOptions(argv, data, defines);
    BindAllSpec(defines, ts);
    forall n ensures multiset(o.diagnostics)[Redefined(n)]
        == if n in defines || DefineCount(ts, n) == 0 then DefineCount(ts, n) else DefineCount(ts, n) - 1
    {
      NotesCountRedefinitions(ts, defines.Keys, n);
    }
  }

  /**
   * `process_args` as a whole: with nothing after the program name it
   * returns 1 and touches nothing; otherwise it stores the program name,
   * keeps every definition it was given, adds directories only in front and
   * returns one of 0, 1, 2, 3 as the option list decides.
   */
  lemma ParseProperties(argv: seq<string>, data: Fields, defines: map<string, string>)
    requires |argv| >= 1
    ensures var o := Parse(argv, data, defines);
            var ts := Tokens(argv, 1);
      && (|argv| == 1 ==> o == Outcome(NoInputStatus, State(data, defines, [])))
      && (|argv| > 1 ==> o.state.data.programName == argv[0])
      && (|argv| > 1 ==> (o.status == HelpStatus <==> Arg("--help") in ts))
      && (|argv| > 1 ==> (o.status == MissingOutputStatus <==> Arg("--help") !in ts && MissingOutput in ts))
      && 0 <= o.status <= 3
      && (forall k :: k in defines ==> k in o.state.defines && o.state.defines[k] == defines[k])
      && EndsWith(o.state.data.systemDirectories, data.systemDirectories)
  {
    if |argv| > 1 {
      var st := State(data.(programName := argv[0]), defines, []);
      ScanFrame(argv, 1, st);
      ScanAgainstTokens(argv, 1, st);
    } else {
      ExtendsReflexive(State(data, defines, []));
    }
  }

  /**
   * What the program returns after a failed `process_args`: 0 when help was
   * asked for, 1 for each of the two errors with its own message, and never
   * the -1 reserved for unknown codes.
   */
  lemma ExitValue(argv: seq<string>, data: Fields, defines: map<string, string>)
    requires |argv| >= 1
    ensures var status := Parse(argv, data, defines).status;
      status != 0 ==>
        && ProcessArgsError(status).0 != -1
        && ProcessArgsError(status).0 == (if status == HelpStatus then 0 else 1)
        && (ProcessArgsError(status).1 == NoInputFiles <==> status == NoInputStatus)
        && (ProcessArgsError(status).1 == MissingOutputName <==> status == MissingOutputStatus)
  {
    ParseProperties(argv, data, defines);
  }
}
