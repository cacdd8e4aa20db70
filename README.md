# PreproCppessor argument parsing, modelled in Dafny

PreproCppessor is a small C++ text preprocessor. This project models its
command-line argument parser in the three successive forms it took:

- `main` in `preprocessor_macro.cpp`, the earliest form, where the scan is
  written inline. It knows `-o FILE`, `-oFILE` and `--help`. It returns 1
  with an error when `-o` has no operand or when no input file was named.
  Any option that merely starts with `--help` ends it with 0, and the usage
  banner is written only for exactly `--help`. Otherwise it writes the
  input and output names and returns 0.
- `process_args` / `process_error` in `argument_processor.cpp`. The same
  scan fills the input and output names of a `preprocessor_data` record and
  returns a status code. The codes are 0 (success), 1 (no input file),
  2 (`-o` without operand) and 3 (exact `--help`). `process_error` turns a
  code into the program's return value.
- `process_args` / `process_args_error` in `src/argument_processor.cpp`, the
  newest form. It also stores the program name. `-Dname[=value]` adds a
  definition to a caller-owned table: insert-if-absent, with a warning when
  the name is already bound. `--sysroots=a;b;...` pushes each `;`-separated
  segment to the front of the record's system directory list.

Every argument is a C string, written here without its terminating NUL.
The test `arg[1] != 0` becomes `|arg| >= 2`, and the pointer `arg + 2`
becomes `arg[2..]`.

Each form is modelled the same way:

- `Step` is the loop body for one argument, with the source's branches in
  the source's order.
- `Scan` is the loop as a recursive function.
- An imperative method keeps the source's index loop and is proved to
  compute `Scan`. The newest `ProcessArgs` updates a `PreprocessorData`
  object and a `DefineTable` object in place; the older `ProcessArgs`
  updates a `PreprocessorData` object only; `Run` updates two local names.
- The lemmas compare `Scan` with an independent reference, `Tokens`. This
  is the list of options the scan sees once a separate `-o` has taken its
  operand. The lemmas read the status, the file names, the definitions and
  the directories off that list.
- The `Revisions` module proves how the three forms relate.

Modules:

- `ArgumentSyntax` (`argument_syntax.dfy`): the shared `-o` syntax,
  `Tokens`, `strchr` as `Find`, and the last input and output names of an
  option list.
- `Predata` (`preprocessor_data.dfy`): the four fields of the record that
  the parsers touch.
- `ArgumentProcessor` (`src_argument_processor.dfy`): the newest form.
- `LegacyArgumentProcessor` (`argument_processor.dfy`): the older form.
- `PreprocessorMacro` (`preprocessor_macro.dfy`): the earliest form.
- `Revisions` (`revisions.dfy`): how the three forms agree and differ.

## Model

| member | source | states |
|---|---|---|
| ArgumentSyntax.Find | src/argument_processor.cpp:48 | `strchr`: a found position holds the character and no earlier position does; nothing found means the character does not occur |
| ArgumentSyntax.MissingOutputIsLast | src/argument_processor.cpp:35-37 | `-o` without an operand can only be the last option the scan sees |
| ArgumentSyntax.LastInputCons | src/argument_processor.cpp:77-78 | reading the options left to right, a later input name overrides an earlier one, so the last one wins |
| ArgumentSyntax.LastOutputCons | src/argument_processor.cpp:35-40 | a later `-o` operand overrides an earlier one, so the last one wins |
| ArgumentSyntax.LastInputIsAnInput | src/argument_processor.cpp:77-78 | the final input name is one of the non-option arguments given, or the one the record already held |
| ArgumentProcessor.InsertIfAbsent | src/argument_processor.cpp:57 | `emplace`: the keys afterwards are the old ones plus the name; every old binding keeps its value; an unbound name gets the value |
| ArgumentProcessor.SplitDefineSpec | src/argument_processor.cpp:47-54 | `-D` text splits at its first `=`: the name holds no `=`, and name, `=` and value give back the text; without `=` the whole text is the name and the value is empty |
| ArgumentProcessor.DefineSpec | src/argument_processor.cpp:44-57 | one `-D` adds exactly its name; an unbound name gets its value and no warning; a bound name keeps its value and earns one redefinition warning; the record is untouched |
| ArgumentProcessor.DefineTable.Emplace | src/argument_processor.cpp:57 | the table method binds the name only when it was unbound, and says whether it did |
| ArgumentProcessor.SegmentsHaveNoSeparator | src/argument_processor.cpp:63-71 | no `--sysroots=` segment contains a `;` |
| ArgumentProcessor.SegmentsRoundTrip | src/argument_processor.cpp:58-75 | writing the segments back with a `;` after each gives the list: a last segment without `;` is kept, and the empty text after a final `;` is not a segment |
| ArgumentProcessor.PushSysroots | src/argument_processor.cpp:58-75 | the directory list afterwards starts with the segments in reverse order, followed by the old list; the info notice is written exactly when the list has a `;` but does not end with one |
| ArgumentProcessor.Step | src/argument_processor.cpp:31-79 | each argument that does not stop the scan moves the index forward by one or two, never past the end |
| ArgumentProcessor.ProcessArgs | src/argument_processor.cpp:27-87 | the status, record, definitions and diagnostics the imperative parser leaves are those of the scan `Parse` |
| ArgumentProcessor.ProcessArgsError | src/argument_processor.cpp:89-113 | the return value is -1 exactly for a code other than 1, 2 and 3, and exactly when nothing is written; it is 0 exactly when the usage banner is written |
| ArgumentProcessor.StepAgainstTokens | src/argument_processor.cpp:31-79 | one argument against the option list: exact `--help` stops with 3, `-o` without operand with 2; otherwise the option is the head of the list and sets the input or output name it gives |
| ArgumentProcessor.ScanAgainstTokens | src/argument_processor.cpp:31-86 | status 3 iff `--help` is among the options; else 2 iff `-o` lacks its operand; else 1 iff no input name; else 0. On 0 and 1 the input is the last input name, and the output is the last `-o` operand, defaulting to input + ".ppc" on 0 |
| ArgumentProcessor.StepFrame | src/argument_processor.cpp:31-79 | one argument keeps the program name, every definition, the existing directories at the end of the list, and the diagnostics already written |
| ArgumentProcessor.ScanFrame | src/argument_processor.cpp:31-86 | the whole scan keeps the same things |
| ArgumentProcessor.StepDefines | src/argument_processor.cpp:44-57 | a name newly bound by one argument is bound by that argument, a `-D` option naming it |
| ArgumentProcessor.ScanDefinesFromArguments | src/argument_processor.cpp:31-79 | every name the scan newly binds is named by a `-D` option among the arguments |
| ArgumentProcessor.ScanDirectoriesFromArguments | src/argument_processor.cpp:31-79 | every directory the scan adds is a segment of a `--sysroots=` option among the arguments |
| ArgumentProcessor.ParseDirectories | src/argument_processor.cpp:58-75 | every directory `process_args` adds holds no `;` and comes from a `--sysroots=` option |
| ArgumentProcessor.AddedFromSysroots | src/argument_processor.cpp:58-75 | every directory a run of options adds is a segment of one of its `--sysroots=` options |
| ArgumentProcessor.BindAllSpec | src/argument_processor.cpp:44-57 | after a run of `-D` options the table binds the old names plus every name an option gives; old names keep their values; a new name has the value of the first option naming it |
| ArgumentProcessor.NotesCountRedefinitions | src/argument_processor.cpp:55-57 | one redefinition warning per `-D` naming a bound name: all of them when the name was bound before, all but the first otherwise |
| ArgumentProcessor.StepStops | src/argument_processor.cpp:35-43 | the scan stops at an argument exactly when its option is exact `--help` or `-o` without operand; otherwise the rest of the option list is what the scan goes on with |
| ArgumentProcessor.StepShape | src/argument_processor.cpp:31-79 | an argument the scan goes past is a `-D` option (its definition), a `--sysroots=` option (its segments and notice), or leaves the table, directories and diagnostics alone |
| ArgumentProcessor.ShapeEffects | src/argument_processor.cpp:44-75 | those three cases are exactly the per-option table change, directories and diagnostics |
| ArgumentProcessor.StepEffects | src/argument_processor.cpp:31-79 | one argument the scan goes past changes the table, the directories and the diagnostics exactly as its option gives |
| ArgumentProcessor.ScanTable | src/argument_processor.cpp:31-79 | the scan's definitions table is the per-option insert-if-absent of its options, in order, up to where it stops |
| ArgumentProcessor.ScanAdded | src/argument_processor.cpp:31-79 | the scan's directory list is exactly the reversed segments of each `--sysroots=` option, the last option's first, in front of the old list |
| ArgumentProcessor.ScanNotes | src/argument_processor.cpp:31-79 | the scan writes the diagnostics of its options in order: a warning per `-D` of a bound name, a notice per unterminated `--sysroots=` list |
| ArgumentProcessor.ParseByOptions | src/argument_processor.cpp:27-87 | the whole call leaves the table, diagnostics and directories that the per-option folds give, from what it was given, up to where it stops |
| ArgumentProcessor.ParseEffects | src/argument_processor.cpp:27-87 | whole call, up to where it stops: definition keys are the old ones plus every `-D` name; old values kept; a new name has its first `-D` value; one warning per redefinition attempt; directories gain exactly the reversed segments of each `--sysroots=` option, the last first |
| ArgumentProcessor.ParseProperties | src/argument_processor.cpp:27-87 | nothing after the program name: 1 and nothing touched. Otherwise the program name is `argv[0]`; the help and missing-operand iff's hold; the status is 0..3; given definitions and directories are kept |
| ArgumentProcessor.ExitValue | src/argument_processor.cpp:89-113 | after a failed parse the program returns 0 for help and 1 for each of the two errors, never -1; it writes "no input files" exactly for status 1 and the missing-operand error exactly for status 2 |
| LegacyArgumentProcessor.Step | argument_processor.cpp:29-45 | each argument that does not stop the scan moves the index forward by one or two, never past the end |
| LegacyArgumentProcessor.ProcessArgs | argument_processor.cpp:26-53 | the status and record the imperative parser leaves are those of the scan `Parse` |
| LegacyArgumentProcessor.ProcessError | argument_processor.cpp:55-78 | the return value is -1 exactly for a code other than 1, 2 and 3, and exactly when nothing is written; it is 0 exactly when the usage banner is written |
| LegacyArgumentProcessor.StepAgainstTokens | argument_processor.cpp:29-45 | one argument against the option list: exact `--help` stops with 3, `-o` without operand with 2; otherwise only the input or output name it gives changes |
| LegacyArgumentProcessor.ScanAgainstTokens | argument_processor.cpp:29-52 | the status iff's and the names on completion, as in the newest form; the program name and directories never change |
| LegacyArgumentProcessor.ParseProperties | argument_processor.cpp:26-53 | nothing after the program name: 1 and the record untouched. Otherwise the help and missing-operand iff's hold; the status is 0..3; program name and directories are unchanged |
| LegacyArgumentProcessor.ExitValue | argument_processor.cpp:55-78 | after a failed parse the program returns 0 for help and 1 for each of the two errors, never -1; it writes "no input files" exactly for status 1 and the missing-operand error exactly for status 2 |
| PreprocessorMacro.Step | preprocessor_macro.cpp:30-55 | each argument that does not end the program moves the index forward by one or two, never past the end |
| PreprocessorMacro.Run | preprocessor_macro.cpp:27-67 | `main`'s loop returns the exit value and report of the scan `Program` |
| PreprocessorMacro.FirstHelp | preprocessor_macro.cpp:42-52 | the first option starting with `--help`, if any, is among the options; if there is none, no option starts with `--help` |
| PreprocessorMacro.FirstHelpIsFirst | preprocessor_macro.cpp:30-52 | the option `FirstHelp` finds is the first one starting with `--help`: every earlier option does not, so `--helpx --help` ends silently and `--help --helpx` with the banner |
| PreprocessorMacro.StepAgainstTokens | preprocessor_macro.cpp:30-55 | an argument that ends the program ends it as the option list prescribes; otherwise it is neither help nor `-o` without operand, and sets only the names it gives |
| PreprocessorMacro.ExpectedCons | preprocessor_macro.cpp:30-55 | an option that does not end the program only feeds its names into the rest of the list |
| PreprocessorMacro.ScanAgainstTokens | preprocessor_macro.cpp:30-66 | the scan ends as the list prescribes. The first help-prefixed option gives 0, with the banner only for exact `--help`. Else `-o` without operand gives 1. Else no input gives 1. Else 0, writing the last input and the last output or input + ".ppc" |
| PreprocessorMacro.ProgramAgainstTokens | preprocessor_macro.cpp:27-67 | `main` as a whole, starting with two empty names, does what its option list prescribes |
| PreprocessorMacro.ExitProperties | preprocessor_macro.cpp:27-67 | `main` returns 0 or 1; 1 exactly with one of the two errors; the written names are never empty; the banner only for an exact `--help` |
| Revisions.NewestAgreesWithLegacy | src/argument_processor.cpp:27-87 | the newest `process_args` returns the same status as the older one, and on 0 and 1 the same input and output names |
| Revisions.EarliestAgreesWithLegacy | preprocessor_macro.cpp:27-67 | unless the first help-prefixed option is longer than `--help`, `main` returns what the older `process_args` + `process_error` return, with the same kind of message (the "no input files" wording differs) or the same names |
| Revisions.EarliestStopsAtHelpPrefix | preprocessor_macro.cpp:42-52 | a first help-prefixed option longer than `--help` ends `main` silently with 0, whatever the other options are |

## Left out

- The text written to the terminal. The usage banner, the two errors, the
  redefinition warning, the sysroots notice and the `Input:`/`Output:` lines
  are recorded as events (`Message`, `Diagnostic`, `Report`). Their wording,
  the program-name prefix and the choice of stream are not modelled.
- The `string(semi_pointer, nullptr)` construction and the `catch(length_error)`
  handler at src/argument_processor.cpp:67-75. They rely on undefined
  behaviour to leave the loop. The model gives their intended effect: a
  last segment without a closing `;` is still added, and the info notice is
  written.
- `unsigned int` indices and lengths: sequences here are unbounded, so an
  argument longer than 2^32 - 1 characters is not modelled.
- C strings cannot contain NUL, and `strlen` stops at the first one. The
  model's strings may hold `'\0'`, and such a character is treated as an
  ordinary one.
- `argc` is unused by the source and absent here. `argv` must hold at
  least the program name (`requires |argv| >= 1`), as every form reads
  `argv[0]` or `argv[1]`.
- The rest of `preprocessor_data` (its header is not part of this model):
  only the four fields the parsers touch are modelled, and the constructor
  gives them empty values.
- The directive dispatcher, include resolution, once-guards and macro
  substitution are not part of this model.
- ArgumentProcessor.ScanAgainstTokens: on status 2 and 3 the input and
  output names left in the record are given only by `Scan` itself. The
  option-list characterisation does not describe them, since the caller
  stops using the record then.
- LegacyArgumentProcessor.ScanAgainstTokens: the same as for the newest
  form on status 2 and 3.
