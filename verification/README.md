# GatorGradle core, modelled in Dafny

GatorGradle is a Gradle plugin that runs GatorGrader checks on a student's
project and reports the results. This project models four parts of its core
and proves properties about them.

- **The result parser and report (`CheckResult`).** Escaped quotes are
  normalised and the text is trimmed. The `check`, `outcome` and
  `diagnostic` fields are then found by three `.*"key":\s*…` patterns,
  where the greedy `.*` means the last occurrence of a key wins. Finally,
  the one-line text report is rendered.
- **The command output summary (`CommandOutputSummary`).**
  - Finished commands are recorded, with duplicates ignored.
  - Each finished command's report line is printed. Under fast-break the
    first failure stops the build.
  - The fallback ladder for GatorGrader output that is not a result record.
  - The diagnostics built from the free-text output of other commands.
  - The final summary: the failures again with their diagnostics, then the
    `Passed p/t (n%)` banner, then the optional build failure.
- **Dependency management (`DependencyManager`).**
  - Version probes for git, Python 3 and Pipenv, with the advice printed on
    failure.
  - The GatorGrader installation: fetch or clone, check out the revision,
    pull (forgiven on a detached checkout), `pipenv sync`. On failure,
    everything under the home directory is deleted, deepest path first.
  - The memoised lookup of the virtual environment's Python interpreter.
- **The plugin's static initializer (`GatorGradlePlugin`).** It classifies
  the operating system from `os.name`, then derives the GatorGrader home
  directory and the configuration file location.

The environment is made explicit. Processes, the file system and system
properties become parameters:
- an `Oracle` maps each command invocation to its exit value and output;
- a `World` holds whether the home directory exists, whether `mkdirs`
  succeeds, what `Files.walk` lists and which deletions succeed;
- the OS name, the user's home and the file separator are strings.

Logging becomes a sequence of events or notes that each operation returns.
Exceptions become an abort reason or a `Result` failure.

Modules:
- `Results`: `Option` and `Result`.
- `Texts`: `String.trim`, searching, ASCII lower-casing, and splitting text
  into lines.
- `CheckResults`: the parser and the report.
- `ResultRecords`: a result record written out in any field order, with
  white space and surrounding noise, parses back to what was written.
- `OutputSummary`: the command output summary.
- `Platform`: the static initializer.
- `PathOrder`: the reverse path order used for deletion.
- `Dependencies`: dependency management.

Details of the code that the model keeps:
- With zero checks the percentage is 0. `Math.round` of the NaN that
  `0 * 100 / 0f` gives is 0.
- Boolean literals are accepted only as `true`, `True`, `false` or `False`,
  as the pattern `([Tt]rue|[Ff]alse)` allows.
- The fallback check names are `Unrecognized GatorGrader check` and
  `Unknown GatorGrader check`, with the diagnostic
  `The check failed with an unknown error`.
- `Math.round` rounds half up. So with 200 or more checks and exactly one
  failure, the banner can still say 100% (`PercentEnds`,
  `PercentExamples`).
- The complaint for a path that could not be deleted names the home
  directory, not the path (`UndeletedComplaints`).
- The message for a failed pull says "could update", which is the code's
  own wording.
- The `Scanner` loop stops once no token is left, so trailing lines made
  only of Java white space are never read. Such a line is skipped even
  when `String.trim` would keep it, as for U+2003 EM SPACE
  (`TrailingEmSpace`).
- `Files.walk` failing before the stream exists is caught and reported as
  "Failed to delete"; "Deleting" is logged first in every rollback.

## Model

| member | source | states |
|---|---|---|
| CheckResults.Unescape | src/main/java/org/gatorgradle/display/CheckResult.java:64-65 | After replacement no backslash-quote pair is left. Text that had none is unchanged. The result is empty, or starts with a quote, exactly when the input is or does. |
| CheckResults.UnescapeQuote | src/main/java/org/gatorgradle/display/CheckResult.java:64 | Every `\"` becomes one `'`, wherever it stands: replacing in `a + \" + b` gives the replaced `a`, then `'`, then the replaced `b`. |
| CheckResults.UnescapeAppend | src/main/java/org/gatorgradle/display/CheckResult.java:64 | Replacement works piece by piece: replacing in `a + b` is replacing in `a` and in `b`, unless `a` ends with a backslash and `b` starts with a double quote. |
| CheckResults.UnescapeKeeps | src/main/java/org/gatorgradle/display/CheckResult.java:64 | Any character that does not open an escaped quote is copied unchanged, and replacement carries on after it. |
| CheckResults.Normalize | src/main/java/org/gatorgradle/display/CheckResult.java:64-65 | The text that gets parsed is `String.trim` of the input with its escaped quotes replaced. It has no escaped quote left and begins and ends with a visible character (or is empty). |
| CheckResults.NormalizeEscapeFree | src/main/java/org/gatorgradle/display/CheckResult.java:64-65 | Text without a backslash has nothing to unescape, so normalising it is just `String.trim`. |
| Texts.Trim | src/main/java/org/gatorgradle/display/CheckResult.java:65 | `String.trim` gives a text that is empty exactly when the input is blank, and otherwise starts and ends with a character above U+0020. |
| Texts.TrimAround | src/main/java/org/gatorgradle/display/CheckResult.java:65 | Trimming text whose middle starts and ends visibly trims only the leading and trailing parts. |
| CheckResults.LastMatchIs | src/main/java/org/gatorgradle/display/CheckResult.java:25-30 | The match a `.*`-led pattern reports is pinned down uniquely: the last position where the pattern succeeds, or none when it succeeds nowhere. |
| CheckResults.LastFieldWins | src/main/java/org/gatorgradle/display/CheckResult.java:53-54 | When a key occurs more than once the later occurrence overwrites: putting any text in front of a field that is found never changes its value. |
| CheckResults.QuotedField | src/main/java/org/gatorgradle/display/CheckResult.java:25-26 | A captured `check` or `diagnostic` value holds no double quote and is a piece of the searched text (the reluctant `(.*?)` stops at the next quote). |
| CheckResults.FlagField | src/main/java/org/gatorgradle/display/CheckResult.java:27-28 | A captured outcome is one of `true`, `True`, `false`, `False`. |
| CheckResults.FlagMeaning | src/main/java/org/gatorgradle/display/CheckResult.java:79 | `Boolean.parseBoolean` of a captured literal is true exactly for `true` and `True`. |
| CheckResults.Parse | src/main/java/org/gatorgradle/display/CheckResult.java:60-88 | A null input fails with the null reason. Any other input parses exactly when all three fields are found in its normalised text, and a failure carries that normalised text. |
| CheckResults.ParseSuccess | src/main/java/org/gatorgradle/display/CheckResult.java:67-87 | A parsed result's check and diagnostic are the captured values, and its outcome is true exactly for the literals `true` and `True`. |
| CheckResults.ParseFailure | src/main/java/org/gatorgradle/display/CheckResult.java:67-86 | A failure names the first of `check`, `outcome`, `diagnostic` that is missing: each reason appears if and only if the earlier keys were found and that key was not. |
| CheckResults.ParseNull | src/main/java/org/gatorgradle/display/CheckResult.java:19-21 | Parsing null fails, and the message has no JSON part. |
| CheckResults.TextReport | src/main/java/org/gatorgradle/display/CheckResult.java:103-113 | The report line is the pass or fail symbol and two spaces, then the check name, then the arrow lead and diagnostic only for a failed check with a diagnostic requested. |
| CheckResults.ReportRoundTrip | src/main/java/org/gatorgradle/display/CheckResult.java:103-113 | Reading a rendered report line back gives the outcome and the check name. It gives the diagnostic exactly when the check failed and a diagnostic was requested. |
| CheckResults.ReportPrefix | src/main/java/org/gatorgradle/display/CheckResult.java:103-113 | The report without diagnostic is a prefix of the report with it, and for a passing check the two are equal. |
| ResultRecords.NormalizedRecord | src/main/java/org/gatorgradle/display/CheckResult.java:64-65 | Normalising a written record removes exactly the noise before and after its fields. |
| ResultRecords.RecordField | src/main/java/org/gatorgradle/display/CheckResult.java:25-30 | Each of the three patterns finds, in a normalised record, exactly the value written for its key. |
| ResultRecords.RecordParses | src/main/java/org/gatorgradle/display/CheckResult.java:60-88 | Round trip: a record with its fields in any order, any white space after the colons and plain surrounding text parses to the entries that were written. The separators between fields and the trailing text must not begin with a colon or with `c`, `o` or `d`, the initials of the keys. |
| ResultRecords.OrderIrrelevant | src/main/java/org/gatorgradle/display/CheckResult.java:53-55 | The order in which the fields are written does not change the parse. |
| OutputSummary.GatorGraderResult | src/main/java/org/gatorgradle/display/CommandOutputSummary.java:127-159 | A parsed record is shown as parsed. Otherwise the check fails: as unrecognised when the output has the argument-parser marker, else as unknown. The parse error is logged exactly on the pass without diagnostics. |
| OutputSummary.UnrecognizedNamesFirstMarker | src/main/java/org/gatorgradle/display/CommandOutputSummary.java:134-144 | The unsupported check named in the fallback is the trimmed text after the first occurrence of the marker. |
| Texts.LinesJoin | src/main/java/org/gatorgradle/display/CommandOutputSummary.java:165-172 | Lines without line feeds are recovered exactly when their join is split into lines again. |
| Texts.JoinLines | src/main/java/org/gatorgradle/display/CommandOutputSummary.java:165-172 | Joining the lines of a text gives back the text. |
| OutputSummary.BlankOutput | src/main/java/org/gatorgradle/display/CommandOutputSummary.java:164-172 | Output is blank (`output.trim().isEmpty()`) exactly when none of its lines survives trimming. |
| OutputSummary.FreeTextDiagnostic | src/main/java/org/gatorgradle/display/CommandOutputSummary.java:162-179 | Without a request, or for blank output, the diagnostic is "No diagnostic available". Otherwise it starts with the title. |
| OutputSummary.Scanned | src/main/java/org/gatorgradle/display/CommandOutputSummary.java:165-172 | The scanner reads a prefix of the lines: everything up to the last line holding a non-white-space character, and every line after it is Java white space only. |
| OutputSummary.ScannedNonBlank | src/main/java/org/gatorgradle/display/CommandOutputSummary.java:167-171 | When every Java-blank line also trims to nothing, stopping early drops no kept line. |
| OutputSummary.TrailingJavaSpace | src/main/java/org/gatorgradle/display/CommandOutputSummary.java:164-172 | A last line of Java white space that `String.trim` would not empty is still left out of the diagnostic. |
| OutputSummary.TrailingEmSpace | src/main/java/org/gatorgradle/display/CommandOutputSummary.java:164-172 | Example: output `abc`, line feed, U+2003 gives the diagnostic `t:`, line feed, `abc`. |
| OutputSummary.DiagnosticLines | src/main/java/org/gatorgradle/display/CommandOutputSummary.java:161-181 | With a diagnostic requested, visible output and a title with visible ends, the diagnostic's lines are the title followed by the trimmed, non-blank lines the scanner reads, in order. |
| OutputSummary.DiagnosticText | src/main/java/org/gatorgradle/display/CommandOutputSummary.java:183-203 | The final trim removes only the line feed after the last kept line, so the diagnostic is the title and the kept lines the scanner reads, joined by line feeds. |
| OutputSummary.NoDiagnosticPlaceholder | src/main/java/org/gatorgradle/display/CommandOutputSummary.java:173-175 | Without a request, or for output with no visible line, the diagnostic is the placeholder. |
| OutputSummary.LineExecutableResult | src/main/java/org/gatorgradle/display/CommandOutputSummary.java:176-180 | A command-line executable's check passes exactly when the command exited successfully. |
| OutputSummary.PlainResult | src/main/java/org/gatorgradle/display/CommandOutputSummary.java:198-202 | Any other command's check passes exactly when the command exited successfully. |
| OutputSummary.ResultFor | src/main/java/org/gatorgradle/display/CommandOutputSummary.java:205-216 | GatorGrader commands, configured command-line executables and other commands each go to their own parser. |
| OutputSummary.Print | src/main/java/org/gatorgradle/display/CommandOutputSummary.java:76-93 | A command counts as failed exactly when its exit value is not success, whatever its report says. Only basic commands print a report line. |
| OutputSummary.InProgress | src/main/java/org/gatorgradle/display/CommandOutputSummary.java:64-74 | Nothing is printed once reporting has stopped. The build is aborted exactly when a command fails under fast-break, and reporting stops exactly then. |
| OutputSummary.FastBreakStops | src/main/java/org/gatorgradle/display/CommandOutputSummary.java:68-72 | Under fast-break a failed command's report is followed by the failure banner, reporting stops and the build aborts with "Check failed!". |
| OutputSummary.ExitValueDecides | src/main/java/org/gatorgradle/display/CommandOutputSummary.java:68-90 | A GatorGrader command that exits with failure aborts the build even when its record says it passed, and the line shown is the passing report. |
| OutputSummary.AddCompleted | src/main/java/org/gatorgradle/display/CommandOutputSummary.java:44-50 | A command whose invocation is new is appended and reported. One with the invocation of a recorded command is only logged as a duplicate, and nothing else changes. |
| OutputSummary.RecordedOnce | src/main/java/org/gatorgradle/display/CommandOutputSummary.java:44-50 | A second command with the same executable, arguments and working directory, whatever its output, is logged as "Duplicate command" and changes nothing. |
| OutputSummary.AddKeepsDistinct | src/main/java/org/gatorgradle/display/CommandOutputSummary.java:44-47 | Recording keeps the list of completed commands free of duplicates. |
| OutputSummary.FeedInvariants | src/main/java/org/gatorgradle/display/CommandOutputSummary.java:44-74 | Over any sequence of finished commands, the completed list stays free of repeated invocations, holds the invocation of every command fed, and only grows. The build is aborted at most once, and never after reporting has stopped. |
| OutputSummary.FailedOnes | src/main/java/org/gatorgradle/display/CommandOutputSummary.java:101-103 | The failed list holds exactly the failed commands of the completed list. |
| OutputSummary.Partition | src/main/java/org/gatorgradle/display/CommandOutputSummary.java:100-113 | Failed and passed commands together are exactly the completed ones (as multisets), so `passedChecks` counts the passed commands. |
| OutputSummary.Percent | src/main/java/org/gatorgradle/display/CommandOutputSummary.java:115-116 | The shown percentage is the ratio passed/total rounded half up, at most 100, and 0 when no checks ran. |
| OutputSummary.PercentEnds | src/main/java/org/gatorgradle/display/CommandOutputSummary.java:115-116 | All passing gives 100%. 100% is shown exactly when at least 99.5% passed, and 0% exactly when under 0.5% passed. |
| OutputSummary.PercentExamples | src/main/java/org/gatorgradle/display/CommandOutputSummary.java:116 | Examples: 2/3 gives 67%, 1/8 gives 13%, 0/0 gives 0%, and 199/200 gives 100%. |
| OutputSummary.PassedLine | src/main/java/org/gatorgradle/display/CommandOutputSummary.java:115-117 | The banner text reads back as `Passed p/t (n%) of checks for` the assignment, with the given counts, the rounded percentage and the assignment's name. |
| OutputSummary.BannerReadsBack | src/main/java/org/gatorgradle/display/CommandOutputSummary.java:115-117 | Any counts, percentage and assignment name rendered into the banner are read back unchanged. |
| Texts.CountRoundTrip | src/main/java/org/gatorgradle/display/CommandOutputSummary.java:115-116 | A count written in decimal reads back as the same number, with the text after it left over. |
| OutputSummary.Reprint | src/main/java/org/gatorgradle/display/CommandOutputSummary.java:108-110 | The failures are re-reported in order: one report line with its diagnostic for each basic command among them, and nothing else. |
| OutputSummary.ShowOutputSummary | src/main/java/org/gatorgradle/display/CommandOutputSummary.java:100-124 | Failures come first: the `-~-  FAILURES  -~-` header and the re-reports, only when some command failed. The last event is the banner with passed = total minus failed. The build fails exactly when some check failed and breaking the build is configured. |
| OutputSummary.SummaryShape | src/main/java/org/gatorgradle/display/CommandOutputSummary.java:104-119 | The summary ends with the banner, coloured as failed exactly when some command failed, and reading back the passed and total counts and the percentage. It starts with the failures header exactly when some command failed. |
| Platform.Classify | src/main/java/org/gatorgradle/GatorGradlePlugin.java:36-45 | The system is Linux exactly when the lower-cased name contains "linux". It is Windows when it contains "windows" but not "linux", and Mac when it contains "mac" and neither of the others. |
| Platform.ClassifyIgnoresCase | src/main/java/org/gatorgradle/GatorGradlePlugin.java:36 | Names that agree once lower-cased are classified alike. |
| Platform.TagRoundTrip | src/main/java/org/gatorgradle/GatorGradlePlugin.java:22-24 | Each `OS` constant is lower case and is classified as the system it names. |
| Platform.ClassifyExamples | src/main/java/org/gatorgradle/GatorGradlePlugin.java:37-42 | "Linux", "Windows 10" and "Mac OS X" are classified as their families. |
| Platform.ClassifyEdges | src/main/java/org/gatorgradle/GatorGradlePlugin.java:37-45 | A name mentioning no family is unsupported, and "linux" wins over "mac". |
| Platform.Home | src/main/java/org/gatorgradle/GatorGradlePlugin.java:48-52 | The GatorGrader home is under the user's home: `.local/share/gatorgrader` on Linux and macOS, `.gatorgrader` elsewhere. |
| Platform.HomeFamilies | src/main/java/org/gatorgradle/GatorGradlePlugin.java:48-52 | Windows and unsupported systems share a home, Linux and macOS share another, and the two differ for every user home and separator. |
| Platform.Initialize | src/main/java/org/gatorgradle/GatorGradlePlugin.java:32-55 | The constants agree with each other: `OS` is the tag of the classified system, the home follows from it, and the configuration is `config<sep>gatorgrader.yml`. |
| PathOrder.LexTotal | src/main/java/org/gatorgradle/internal/DependencyManager.java:132 | The path order relates every two paths. |
| PathOrder.LexTransitive | src/main/java/org/gatorgradle/internal/DependencyManager.java:132 | The path order is transitive. |
| PathOrder.LexAntisymmetric | src/main/java/org/gatorgradle/internal/DependencyManager.java:132 | Paths ordered both ways are equal. |
| PathOrder.SortDescending | src/main/java/org/gatorgradle/internal/DependencyManager.java:131-132 | Sorting in reverse order gives a permutation of the walked paths in descending order. |
| PathOrder.DescendantsFirst | src/main/java/org/gatorgradle/internal/DependencyManager.java:131-134 | In descending order, a path below a directory comes before the directory. |
| Dependencies.GetPython | src/main/java/org/gatorgradle/internal/DependencyManager.java:38-57 | A cached path is returned without running anything. Otherwise `pipenv --venv` runs once. The lookup fails (and caches nothing) exactly when that command fails, and a successful lookup caches its result. |
| Dependencies.PythonMemoised | src/main/java/org/gatorgradle/internal/DependencyManager.java:38-39 | After a successful lookup, asking again runs nothing and returns the same path, whatever the processes would now answer. |
| Dependencies.PythonPath | src/main/java/org/gatorgradle/internal/DependencyManager.java:48-54 | The interpreter path is the trimmed virtual-environment directory followed by `Scripts/python` on Windows and `bin/python` elsewhere. |
| Dependencies.InstallOrUpdate | src/main/java/org/gatorgradle/internal/DependencyManager.java:65-79 | Each dependency goes to its own handler. |
| Dependencies.OnlyGatorGraderInstalls | src/main/java/org/gatorgradle/internal/DependencyManager.java:81-123 | For git, Python and Pipenv, exactly one version probe runs, with no working directory. Nothing is written, and the only notes are advice. |
| Dependencies.DoGit | src/main/java/org/gatorgradle/internal/DependencyManager.java:81-100 | Git is available exactly when `git --version` succeeds. Otherwise the advice for the system is printed. |
| Dependencies.GitAdvice | src/main/java/org/gatorgradle/internal/DependencyManager.java:87-98 | Every system gets at least one line of advice. |
| Dependencies.DoPython | src/main/java/org/gatorgradle/internal/DependencyManager.java:102-112 | Python is available exactly when `python3 -V` succeeds and prints " 3.". Otherwise both advice lines are printed. |
| Dependencies.DoPipenv | src/main/java/org/gatorgradle/internal/DependencyManager.java:114-123 | Pipenv is available exactly when `pipenv --version` succeeds. Otherwise its advice is printed. |
| Dependencies.FirstRejected | src/main/java/org/gatorgradle/internal/DependencyManager.java:170-204 | The first step whose result is not accepted, with every earlier step accepted. None exactly when all are accepted. |
| Dependencies.IssuedUpToRejected | src/main/java/org/gatorgradle/internal/DependencyManager.java:170-204 | The commands issued are those up to and including the first rejected step, or all of them. |
| Dependencies.RunPlanOk | src/main/java/org/gatorgradle/internal/DependencyManager.java:170-206 | The steps succeed exactly when none is rejected. |
| Dependencies.RunPlanIssues | src/main/java/org/gatorgradle/internal/DependencyManager.java:170-204 | Exactly the commands of the issued steps are run, in order. |
| Dependencies.InstallSucceeds | src/main/java/org/gatorgradle/internal/DependencyManager.java:147-207 | Installation succeeds exactly when fetch (or clone), checkout and sync succeed, and the pull succeeds or reports a detached checkout. |
| Dependencies.InstallIssues | src/main/java/org/gatorgradle/internal/DependencyManager.java:147-204 | The actions are the directory creation for a missing home, followed by the commands up to the first failure. |
| Dependencies.InstallStarts | src/main/java/org/gatorgradle/internal/DependencyManager.java:153-170 | An existing home is fetched into and never cloned. A missing one is first created, then cloned into, and never fetched. |
| Dependencies.OnlyPullExcused | src/main/java/org/gatorgradle/internal/DependencyManager.java:171-204 | Only the pull may fail and still be accepted, and only when its output reports a detached checkout. |
| Dependencies.InstallMain | src/main/java/org/gatorgradle/internal/DependencyManager.java:147-207 | Installation succeeds exactly when no step of the plan is rejected. A failed `mkdirs` of a missing home is complained about but not fatal. Between one and five actions are taken. |
| Dependencies.NoDeletesInMain | src/main/java/org/gatorgradle/internal/DependencyManager.java:147-207 | Installing deletes nothing. |
| Dependencies.DoGatorGrader | src/main/java/org/gatorgradle/internal/DependencyManager.java:125-145 | The installation's result is returned unchanged. On success nothing more happens. On failure "Deleting" is logged and the walked paths are deleted in reverse order, followed by their complaints. When the walk fails nothing is deleted and "Failed to delete" is reported. |
| Dependencies.UndeletedComplaints | src/main/java/org/gatorgradle/internal/DependencyManager.java:134-139 | One "Did not delete" complaint per path whose deletion fails, each naming the home directory. There are none exactly when every deletion succeeds. |
| Dependencies.RollbackDeepestFirst | src/main/java/org/gatorgradle/internal/DependencyManager.java:128-139 | After a failed installation every walked path is deleted, and anything below a directory is deleted before the directory itself. |

## Left out

- Running processes, the file system, clocks and system properties are not modelled as effects. Their answers are parameters (`Oracle`, `World`, the OS name, user home and separator). The model records the commands issued and the directories made and deleted.
- Gradle logging levels, ANSI colours and `StringUtil.border` are left out. Symbols are bare glyphs, a banner is an abstract event carrying its text and whether it is coloured as failed, and console output is a list of notes.
- The debug `log.info` lines of `printCommandResult` (command, exit value, output, "Check failed!") are left out. They carry no information beyond the command itself.
- `Texts.Lines`: `Scanner.nextLine` is modelled as splitting on line feeds only. `\r\n`, `\r`, U+0085, U+2028 and U+2029 are not modelled as line separators.
- `Texts.Lower`: `toLowerCase(Locale.ENGLISH)` is modelled on ASCII letters only.
- `CheckResults.Parse`: the one-argument `MalformedJsonException` constructor is never used by the parser and is not modelled.
- `OutputSummary.GatorGraderResult`: a null `getOutput()` is not modelled (output is a string). `BasicCommand` itself is not part of this model, so whether its output can be null is not visible.
- `OutputSummary.Percent`: rounding is computed exactly. Java's single-precision division and the `int` overflow of `passedChecks * 100` beyond 21,474,836 checks are not modelled.
- `ResultRecords.RecordParses`: the round trip is stated for values without a double quote or a backslash. Such a value cannot come back unchanged: an escaped quote is rewritten to `'`, and a capture stops at the first quote.
- `CheckResults.ReportRoundTrip`: stated for check names without a line feed. In a failed report with a diagnostic, a line feed in the name cannot be told apart from the one before the arrow.
- `Dependencies.InstallOrUpdate`: the `default` branch ("Unsupported Dependency") cannot be reached from the four-valued enum and is not modelled.
- `PathOrder.SortDescending`: paths are ordered by code point, as `Path.compareTo` does on Unix-like systems. Windows compares paths case-insensitively, which is not modelled.
- `Dependencies.DoGatorGrader`: "Deleting " + path prints the home string as given, not as `Path.toString` would normalise it. A failure in the middle of the walk is left out. `Files.walk` then throws an `UncheckedIOException`, which the `catch (IOException ex)` does not catch, so the rollback stops and the exception escapes. The model has only a walk that fails before any deletion, or one that succeeds.
- `OutputSummary.AddCompleted`: `Command.equals` is not part of this model. Two commands are taken to be the same when their executable, arguments and working directory agree (`Identity`); their output and exit value play no part.
- `Dependencies.Reported`: the three lines of `error()` are one note carrying the description, the invocation (for `cmd.toString()`) and the trimmed output.
- The plugin's `apply` method, the task, the configuration reader and the command classes are not part of this model.
