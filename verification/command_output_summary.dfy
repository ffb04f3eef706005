/** `CommandOutputSummary`: the running log of completed checks. Each new
    command is recorded once and reported on a single line as soon as it
    finishes; a failure under fast-break stops all further reporting and
    aborts the build. At the end the failures are reported again, with
    diagnostics, followed by the pass count and percentage.

    Logging is modelled as a list of events and `GradleException` as an
    abort reason returned next to the new state. */
module OutputSummary {
  import opened Results
  import opened Texts
  import opened CheckResults

  /** `Command.SUCCESS`: the exit value of a process that succeeded. */
  const SuccessExit := 0

  /** What kind of command finished: a GatorGrader check (its output is a
      result record), any other `BasicCommand` (free-text output), or a
      command that is not a `BasicCommand` at all (nothing to parse). */
  datatype Kind = GatorGrader | Basic | Opaque

  /** What tells commands apart in the log: the executable, its arguments
      and the directory it runs in. Two runs of the same command line are
      the same command, whatever they printed or returned. */
  datatype Identity = Identity(executable: string, arguments: seq<string>, workingDir: Option<string>)

  /** A finished command: its kind, its identity, the `last()` argument,
      `toString()`, `exitValue()` and `getOutput()`. */
  datatype Command = Command(kind: Kind, id: Identity, last: string, shown: string,
                             exitValue: int, output: string)

  /** The configuration flags the summary consults. */
  datatype Config = Config(fastBreak: bool, breakBuild: bool, assignment: string,
                           lineExecutables: set<string>)

  /** What is written to the build log. A banner is a bordered line whose
      colour tells whether checks failed. */
  datatype Event =
    | Lifecycle(text: string)
    | Info(text: string)
    | Error(text: string)
    | Banner(text: string, failed: bool)

  /** The completed commands, in order, and whether reporting has stopped. */
  datatype Summary = Summary(completed: seq<Command>, nomore: bool)

  /** The state after an operation, what it logged, and the reason it
      aborted the build, if it did. */
  datatype Outcome = Outcome(summary: Summary, events: seq<Event>, abort: Option<string>)

  /** A result to render and the events logged while producing it. */
  datatype Rendered = Rendered(result: CheckResult, events: seq<Event>)

  predicate Failed(c: Command) {
    c.exitValue != SuccessExit
  }

  /** The identities of the commands, in order. */
  function Ids(cs: seq<Command>): (r: seq<Identity>)
    ensures |r| == |cs|
    ensures forall i :: 0 <= i < |cs| ==> r[i] == cs[i].id
  {
    seq(|cs|, i requires 0 <= i < |cs| => cs[i].id)
  }

  /** No identity occurs twice. */
  predicate NoDuplicates(cs: seq<Command>) {
    forall i, j :: 0 <= i < j < |cs| ==> cs[i].id != cs[j].id
  }

  const ChecksFailedBanner := "\n  -~-  CHECKS FAILED  -~-\n"
  const CheckFailedReason := "Check failed!"
  const FailuresHeader := "\n\n-~-  FAILURES  -~-\n"
  const GradingFailedReason := "Grading checks failed -- scroll up for failures"
  const NoDiagnostic := "No diagnostic available"
  const UnrecognizedMarker := "gatorgrader.py: error: unrecognized arguments:"
  const UnrecognizedCheck := "Unrecognized GatorGrader check"
  const UnknownCheck := "Unknown GatorGrader check"
  const UnknownError := "The check failed with an unknown error"

  // ---------------------------------------------------------------------
  // Turning a command into a result

  /** `parseGatorGraderCommand`: the parsed record, or the fallback ladder
      when the output is not one. */
  function GatorGraderResult(c: Command, includeDiagnostic: bool): (r: Rendered)
    ensures Parse(Some(c.output)).Success? ==> r == Rendered(Parse(Some(c.output)).value, [])
    ensures Parse(Some(c.output)).Failure? ==> !r.result.outcome
    ensures Parse(Some(c.output)).Failure? && Contains(c.output, UnrecognizedMarker) ==>
              r.result.check == UnrecognizedCheck && r.events == []
    ensures Parse(Some(c.output)).Failure? && !Contains(c.output, UnrecognizedMarker) ==>
              r.result == CheckResult(UnknownCheck, false, UnknownError)
              && (r.events != [] <==> !includeDiagnostic)
  {
    match Parse(Some(c.output))
    case Success(result) => Rendered(result, [])
    case Failure(e) =>
      match IndexOf(c.output, UnrecognizedMarker)
      case Some(i) =>
        var rest := Trim(c.output[i + |UnrecognizedMarker|..]);
        Rendered(CheckResult(UnrecognizedCheck, false, "The " + rest + " check is not supported"), [])
      case None =>
        var logged := if includeDiagnostic then []
                      else [Error(c.shown + " errored: '" + Message(e) + "'")];
        Rendered(CheckResult(UnknownCheck, false, UnknownError), logged)
  }

  /** The trimmed, non-empty lines. */
  function NonBlank(ls: seq<string>): (r: seq<string>)
    ensures forall i :: 0 <= i < |r| ==> r[i] != []
  {
    if ls == [] then []
    else (if Trim(ls[0]) == [] then [] else [Trim(ls[0])]) + NonBlank(ls[1..])
  }

  /** Each line followed by a line feed, all in order. */
  function Terminated(ts: seq<string>): string {
    if ts == [] then [] else ts[0] + "\n" + Terminated(ts[1..])
  }

  /** `Character.isWhitespace`: the Unicode space, line and paragraph
      separators other than the no-break spaces (U+00A0, U+2007, U+202F),
      and the controls U+0009 to U+000D and U+001C to U+001F. */
  predicate IsJavaWhitespace(c: char) {
    || '\t' <= c <= '\r' || '\U{1C}' <= c <= ' ' || c == '\U{1680}'
    || ('\U{2000}' <= c <= '\U{200A}' && c != '\U{2007}')
    || c == '\U{2028}' || c == '\U{2029}' || c == '\U{205F}' || c == '\U{3000}'
  }

  /** A line holding nothing a `Scanner` would read as a token. */
  predicate JavaBlank(line: string) {
    forall i :: 0 <= i < |line| ==> IsJavaWhitespace(line[i])
  }

  /** The lines the `while (scan.hasNext())` loop reads. `hasNext` looks for
      a token anywhere in the rest of the input, so the loop stops after the
      last line holding a character that is not white space to Java. */
  function Scanned(ls: seq<string>): (r: seq<string>)
    ensures r <= ls
    ensures r == [] || !JavaBlank(r[|r| - 1])
    ensures forall i :: |r| <= i < |ls| ==> JavaBlank(ls[i])
    decreases |ls|
  {
    if ls == [] || !JavaBlank(ls[|ls| - 1]) then ls else Scanned(ls[..|ls| - 1])
  }

  /** The trimmed, non-empty lines the `Scanner` loop reads, each followed
      by a line feed, as the loop appends them. */
  function Kept(ls: seq<string>): string {
    Terminated(NonBlank(Scanned(ls)))
  }

  /** The diagnostic of a free-text command: a title line followed by the
      non-blank output lines, trimmed as a whole; or a placeholder when no
      diagnostic was requested or the output is blank. */
  function FreeTextDiagnostic(title: string, output: string, includeDiagnostic: bool): (r: string)
    ensures !includeDiagnostic || IsBlank(output) ==> r == NoDiagnostic
    ensures includeDiagnostic && !IsBlank(output) && VisibleEnds(title) ==> StartsWith(r, title)
  {
    if includeDiagnostic && !IsBlank(output) then
      var rest := "\n" + Kept(Lines(output));
      TitleLeads(title, rest);
      Trim(title + rest)
    else NoDiagnostic
  }

  /** Trimming keeps a title whose ends are visible at the front. */
  lemma TitleLeads(title: string, rest: string)
    ensures VisibleEnds(title) ==> StartsWith(Trim(title + rest), title)
  {
    if VisibleEnds(title) {
      TrimAround([], title, rest);
      assert [] + title + rest == title + rest;
    }
  }

  /** `parseCommandLineExecutable` */
  function LineExecutableResult(c: Command, includeDiagnostic: bool): (r: CheckResult)
    ensures r.outcome <==> !Failed(c)
  {
    CheckResult("The file " + c.last + " passes " + c.id.executable, c.exitValue == SuccessExit,
                FreeTextDiagnostic(c.id.executable + " diagnostics:", c.output, includeDiagnostic))
  }

  /** `parsePureCommandOutput` */
  function PlainResult(c: Command, includeDiagnostic: bool): (r: CheckResult)
    ensures r.outcome <==> !Failed(c)
  {
    CheckResult(c.shown + " executes", c.exitValue == SuccessExit,
                FreeTextDiagnostic(c.shown + " printed:", c.output, includeDiagnostic))
  }

  /** `parseCommandOutput` before rendering: GatorGrader checks first, then
      the configured command-line executables, then everything else. */
  function ResultFor(c: Command, cfg: Config, includeDiagnostic: bool): (r: Rendered)
    requires c.kind != Opaque
    ensures c.kind == GatorGrader ==> r == GatorGraderResult(c, includeDiagnostic)
    ensures c.kind == Basic && c.id.executable in cfg.lineExecutables ==>
              r == Rendered(LineExecutableResult(c, includeDiagnostic), [])
    ensures c.kind == Basic && c.id.executable !in cfg.lineExecutables ==>
              r == Rendered(PlainResult(c, includeDiagnostic), [])
  {
    if c.kind == GatorGrader then GatorGraderResult(c, includeDiagnostic)
    else if c.id.executable in cfg.lineExecutables then Rendered(LineExecutableResult(c, includeDiagnostic), [])
    else Rendered(PlainResult(c, includeDiagnostic), [])
  }

  /** `printCommandResult`: the report line of a parsable command, and
      whether the command failed, which is decided by its exit value alone. */
  function Print(c: Command, cfg: Config, includeDiagnostic: bool): (r: (seq<Event>, bool))
    ensures r.1 <==> Failed(c)
    ensures c.kind == Opaque ==> r.0 == []
    ensures c.kind != Opaque ==>
              var x := ResultFor(c, cfg, includeDiagnostic);
              r.0 == x.events + [Lifecycle(TextReport(x.result, includeDiagnostic))]
  {
    var shown :=
      if c.kind == Opaque then []
      else
        var x := ResultFor(c, cfg, includeDiagnostic);
        x.events + [Lifecycle(TextReport(x.result, includeDiagnostic))];
    (shown, c.exitValue != SuccessExit)
  }

  // ---------------------------------------------------------------------
  // Recording commands as they finish

  /** `showInProgressSummary` */
  function InProgress(s: Summary, c: Command, cfg: Config): (r: Outcome)
    ensures r.summary.completed == s.completed
    ensures s.nomore ==> r == Outcome(s, [], None)
    ensures r.abort.Some? <==> !s.nomore && Failed(c) && cfg.fastBreak
    ensures r.summary.nomore <==> s.nomore || r.abort.Some?
  {
    if s.nomore then Outcome(s, [], None)
    else
      var (events, fail) := Print(c, cfg, false);
      if fail && cfg.fastBreak then
        Outcome(Summary(s.completed, true), events + [Lifecycle(ChecksFailedBanner)], Some(CheckFailedReason))
      else Outcome(s, events, None)
  }

  /** `addCompletedCommand` */
  function AddCompleted(s: Summary, c: Command, cfg: Config): (r: Outcome)
    ensures c.id in Ids(s.completed) ==> r == Outcome(s, [Info("Duplicate command: " + c.shown)], None)
    ensures c.id !in Ids(s.completed) ==> r.summary.completed == s.completed + [c]
    ensures c.id !in Ids(s.completed) ==> r == InProgress(Summary(s.completed + [c], s.nomore), c, cfg)
  {
    if c.id in Ids(s.completed) then Outcome(s, [Info("Duplicate command: " + c.shown)], None)
    else InProgress(Summary(s.completed + [c], s.nomore), c, cfg)
  }

  // ---------------------------------------------------------------------
  // The final summary

  /** The commands that failed, in the order they completed. */
  function FailedOnes(cs: seq<Command>): (r: seq<Command>)
    ensures |r| <= |cs|
    ensures forall i :: 0 <= i < |r| ==> Failed(r[i]) && r[i] in cs
    ensures forall c :: c in cs && Failed(c) ==> c in r
  {
    if cs == [] then []
    else (if Failed(cs[0]) then [cs[0]] else []) + FailedOnes(cs[1..])
  }

  /** `Math.round(passed * 100 / (float) total)`: the nearest whole
      percentage, halves rounded up; a run without checks divides zero by
      zero, and `Math.round` turns the resulting NaN into 0. */
  function Percent(passed: nat, total: nat): (r: nat)
    requires passed <= total
    ensures r <= 100
    ensures total > 0 ==> 2 * total * r <= 200 * passed + total < 2 * total * (r + 1)
    ensures total == 0 ==> r == 0
  {
    if total == 0 then 0
    else
      var n, d := 200 * passed + total, 2 * total;
      Quotient(n, d);
      assert n / d <= 100 by {
        if n / d > 100 {
          MulMono(101, n / d, d);
        }
      }
      n / d
  }

  /** The quotient of Euclidean division is the whole number of divisors
      that fit. */
  lemma Quotient(n: nat, d: nat)
    requires d > 0
    ensures d * (n / d) <= n < d * (n / d + 1)
  {
  }

  const PercentTail := "%) of checks for "

  /** The text of the closing banner. */
  function PassedLine(passed: nat, total: nat, assignment: string): (r: string)
    requires passed <= total
    ensures ReadBanner(r) == Some(BannerView(passed, total, Percent(passed, total), assignment))
  {
    var percent := Percent(passed, total);
    BannerReadsBack(passed, total, percent, assignment);
    BannerText(passed, total, percent, assignment)
  }

  /** "Passed p/t (c%) of checks for a!" */
  function BannerText(passed: nat, total: nat, percent: nat, assignment: string): string {
    "Passed " + (NatToString(passed) + ("/" + (NatToString(total) + (" ("
    + (NatToString(percent) + (PercentTail + (assignment + "!")))))))
  }

  /** What a reader of the closing banner can tell. */
  datatype BannerView = BannerView(passed: nat, total: nat, percent: nat, assignment: string)

  /** Reads a closing banner back: the number passed, the total and the
      percentage, each a run of digits, and the assignment's name. */
  function ReadBanner(s: string): Option<BannerView> {
    if !StartsWith(s, "Passed ") then None
    else
      match ReadCount(s[7..])
      case None => None
      case Some((passed, r1)) =>
        if r1 == [] || r1[0] != '/' then None
        else
          match ReadCount(r1[1..])
          case None => None
          case Some((total, r2)) =>
            if !StartsWith(r2, " (") then None
            else
              match ReadCount(r2[2..])
              case None => None
              case Some((percent, r3)) =>
                if !StartsWith(r3, PercentTail) || |r3| == |PercentTail| || r3[|r3| - 1] != '!' then None
                else Some(BannerView(passed, total, percent, r3[|PercentTail|..|r3| - 1]))
  }

  /** The banner's three counts and the assignment's name read back. */
  lemma BannerReadsBack(passed: nat, total: nat, percent: nat, assignment: string)
    ensures ReadBanner(BannerText(passed, total, percent, assignment))
            == Some(BannerView(passed, total, percent, assignment))
  {
    var sp, st, sc := NatToString(passed), NatToString(total), NatToString(percent);
    var q3 := PercentTail + (assignment + "!");
    var q2 := " (" + (sc + q3);
    var q1 := "/" + (st + q2);
    var s := BannerText(passed, total, percent, assignment);
    assert StartsWith(s, "Passed ") && s[7..] == sp + q1;
    CountRoundTrip(passed, q1);
    assert q1[1..] == st + q2;
    CountRoundTrip(total, q2);
    assert StartsWith(q2, " (") && q2[2..] == sc + q3;
    CountRoundTrip(percent, q3);
    assert StartsWith(q3, PercentTail);
    assert q3[|PercentTail|..|q3| - 1] == assignment by {
      var t := assignment + "!";
      assert q3[|PercentTail|..|q3| - 1] == q3[|PercentTail|..][..|t| - 1];
      assert q3[|PercentTail|..] == t && t[..|t| - 1] == assignment;
    }
  }

  /** The commands whose output is parsed and reported: the
      `BasicCommand`s, in order. */
  function Parsed(cs: seq<Command>): (r: seq<Command>)
    ensures |r| <= |cs|
    ensures forall i :: 0 <= i < |r| ==> r[i].kind != Opaque && r[i] in cs
    ensures forall c :: c in cs && c.kind != Opaque ==> c in r
  {
    if cs == [] then []
    else (if cs[0].kind == Opaque then [] else [cs[0]]) + Parsed(cs[1..])
  }

  /** A pass that asks for diagnostics logs nothing besides the report. */
  lemma DiagnosticPassQuiet(c: Command, cfg: Config)
    requires c.kind != Opaque
    ensures ResultFor(c, cfg, true).events == []
  {
  }

  /** The report line of a command, with its diagnostic. */
  function ReportLine(c: Command, cfg: Config): Event
    requires c.kind != Opaque
  {
    Lifecycle(TextReport(ResultFor(c, cfg, true).result, true))
  }

  /** `r` holds one report line per command of `cs`, in the same order. */
  predicate ReportsOf(r: seq<Event>, cs: seq<Command>, cfg: Config) {
    |r| == |cs| && forall i :: 0 <= i < |r| ==> cs[i].kind != Opaque && r[i] == ReportLine(cs[i], cfg)
  }

  lemma ReportsAppend(a: seq<Event>, ca: seq<Command>, b: seq<Event>, cb: seq<Command>, cfg: Config)
    requires ReportsOf(a, ca, cfg) && ReportsOf(b, cb, cfg)
    ensures ReportsOf(a + b, ca + cb, cfg)
  {
  }

  /** The failed commands reported again: one report line with its
      diagnostic for each `BasicCommand` among them, in order. */
  function Reprint(failed: seq<Command>, cfg: Config): (r: seq<Event>)
    ensures ReportsOf(r, Parsed(failed), cfg)
  {
    if failed == [] then []
    else
      var c := failed[0];
      var head := if c.kind == Opaque then [] else [c];
      var shown := Print(c, cfg, true).0;
      var rest := Reprint(failed[1..], cfg);
      assert ReportsOf(shown, head, cfg) by {
        if c.kind != Opaque {
          DiagnosticPassQuiet(c, cfg);
        }
      }
      ReportsAppend(shown, head, rest, Parsed(failed[1..]), cfg);
      assert Parsed(failed) == head + Parsed(failed[1..]);
      shown + rest
  }

  /** `showOutputSummary`: the events it logs and the reason it aborts the
      build, if it does. */
  function ShowOutputSummary(s: Summary, cfg: Config): (r: (seq<Event>, Option<string>))
    ensures r.1.Some? <==> FailedOnes(s.completed) != [] && cfg.breakBuild
    ensures r.0 != []
    ensures r.0[|r.0| - 1]
            == Banner(PassedLine(|PassedOnes(s.completed)|, |s.completed|, cfg.assignment),
                      FailedOnes(s.completed) != [])
    ensures FailedOnes(s.completed) == [] ==> |r.0| == 1
    ensures FailedOnes(s.completed) != [] ==>
              r.0[0] == Lifecycle(FailuresHeader) && r.0[1..|r.0| - 1] == Reprint(FailedOnes(s.completed), cfg)
  {
    var total := |s.completed|;
    var failed := FailedOnes(s.completed);
    Partition(s.completed);
    var passed := total - |failed|;
    var header := if failed != [] then [Lifecycle(FailuresHeader)] + Reprint(failed, cfg) else [];
    var banner := Banner(PassedLine(passed, total, cfg.assignment), failed != []);
    assert (header + [banner])[..|header|] == header;
    (header + [banner], if failed != [] && cfg.breakBuild then Some(GradingFailedReason) else None)
  }

  // ---------------------------------------------------------------------
  // Properties

  /** The unsupported check named by GatorGrader's argument parser is the
      trimmed text after the FIRST occurrence of its error marker. */
  lemma UnrecognizedNamesFirstMarker(c: Command, includeDiagnostic: bool)
    requires Parse(Some(c.output)).Failure? && Contains(c.output, UnrecognizedMarker)
    ensures exists i: nat :: && OccursAt(c.output, UnrecognizedMarker, i)
                             && (forall j: nat :: j < i ==> !OccursAt(c.output, UnrecognizedMarker, j))
                             && GatorGraderResult(c, includeDiagnostic).result.diagnostic
                                == "The " + Trim(c.output[i + |UnrecognizedMarker|..]) + " check is not supported"
  {
    var i := IndexOf(c.output, UnrecognizedMarker).value;
    assert OccursAt(c.output, UnrecognizedMarker, i);
  }

  /** A GatorGrader check that reports success but exits with an error
      still counts as failed: under fast-break it aborts the build even
      though its report line shows a pass. */
  lemma ExitValueDecides(s: Summary, c: Command, cfg: Config)
    requires !s.nomore && c.kind == GatorGrader && Failed(c) && cfg.fastBreak
    requires Parse(Some(c.output)).Success? && Parse(Some(c.output)).value.outcome
    ensures var r := InProgress(s, c, cfg);
            && r.abort == Some(CheckFailedReason) && r.summary.nomore
            && r.events[0] == Lifecycle(TextReport(Parse(Some(c.output)).value, false))
            && StartsWith(r.events[0].text, PassSymbol)
  {
    var x := Parse(Some(c.output)).value;
    assert ResultFor(c, cfg, false) == Rendered(x, []);
    PassingReportStops(s, c, cfg, x);
  }

  /** A failed command whose report says it passed still stops the run. */
  lemma PassingReportStops(s: Summary, c: Command, cfg: Config, x: CheckResult)
    requires !s.nomore && c.kind != Opaque && Failed(c) && cfg.fastBreak
    requires ResultFor(c, cfg, false) == Rendered(x, []) && x.outcome
    ensures var r := InProgress(s, c, cfg);
            && r.abort == Some(CheckFailedReason) && r.summary.nomore
            && r.events[0] == Lifecycle(TextReport(x, false))
            && StartsWith(r.events[0].text, PassSymbol)
  {
    var line := TextReport(x, false);
    assert InProgress(s, c, cfg).events == [Lifecycle(line), Lifecycle(ChecksFailedBanner)] by {
      FastBreakStops(s, c, cfg);
      assert [] + [Lifecycle(line), Lifecycle(ChecksFailedBanner)] == [Lifecycle(line), Lifecycle(ChecksFailedBanner)];
    }
    assert StartsWith(line, PassSymbol) by {
      assert line[..3] == PassSymbol + "  ";
      assert line[..|PassSymbol|] == line[..3][..|PassSymbol|];
    }
  }

  /** Under fast-break, a failed command is reported, followed by the
      failure banner, and reporting stops. */
  lemma FastBreakStops(s: Summary, c: Command, cfg: Config)
    requires !s.nomore && c.kind != Opaque && Failed(c) && cfg.fastBreak
    ensures var x := ResultFor(c, cfg, false);
            InProgress(s, c, cfg)
            == Outcome(Summary(s.completed, true),
                       x.events + [Lifecycle(TextReport(x.result, false)), Lifecycle(ChecksFailedBanner)],
                       Some(CheckFailedReason))
  {
    var x := ResultFor(c, cfg, false);
    var shown := [Lifecycle(TextReport(x.result, false))];
    assert Print(c, cfg, false) == (x.events + shown, true);
    assert x.events + shown + [Lifecycle(ChecksFailedBanner)]
           == x.events + [Lifecycle(TextReport(x.result, false)), Lifecycle(ChecksFailedBanner)];
  }

  lemma {:induction false} NonBlankNone(ls: seq<string>)
    ensures NonBlank(ls) == [] <==> forall i :: 0 <= i < |ls| ==> IsBlank(ls[i])
    decreases |ls|
  {
    if ls != [] {
      NonBlankNone(ls[1..]);
      assert forall i :: 1 <= i < |ls| ==> ls[i] == ls[1..][i - 1];
    }
  }

  /** Output is blank exactly when none of its lines survives trimming. */
  lemma BlankOutput(output: string)
    ensures IsBlank(output) <==> NonBlank(Lines(output)) == []
  {
    JoinLines(output);
    BlankJoin(Lines(output));
    NonBlankNone(Lines(output));
  }

  /** What the `Scanner` loop appends is the kept lines joined by line
      feeds, with one more line feed at the end. */
  lemma {:induction false} TerminatedJoin(ts: seq<string>)
    requires ts != []
    ensures Terminated(ts) == Join(ts) + "\n"
    decreases |ts|
  {
    if |ts| > 1 {
      TerminatedJoin(ts[1..]);
    }
  }

  lemma {:induction false} NonBlankLines(ls: seq<string>)
    requires forall i :: 0 <= i < |ls| ==> '\n' !in ls[i]
    ensures forall i :: 0 <= i < |NonBlank(ls)| ==> '\n' !in NonBlank(ls)[i]
    ensures forall i :: 0 <= i < |NonBlank(ls)| ==> !IsTrimmable(NonBlank(ls)[i][|NonBlank(ls)[i]| - 1])
    decreases |ls|
  {
    if ls != [] {
      NonBlankLines(ls[1..]);
      TrimKeepsOut('\n', ls[0]);
    }
  }

  /** A requested diagnostic of non-blank output reads, line by line, as
      the title followed by exactly the trimmed non-empty lines the
      scanner reads. */
  lemma DiagnosticLines(title: string, output: string)
    requires !IsBlank(output)
    requires VisibleEnds(title) && '\n' !in title
    ensures Lines(FreeTextDiagnostic(title, output, true)) == [title] + NonBlank(Scanned(Lines(output)))
  {
    var kept := NonBlank(Scanned(Lines(output)));
    var titled := [title] + kept;
    DiagnosticText(title, output);
    assert forall i :: 0 <= i < |titled| ==> '\n' !in titled[i] by {
      ScannedLines(output);
      NonBlankLines(Scanned(Lines(output)));
      TitledLines(title, kept);
    }
    LinesJoin(titled);
  }

  lemma TitledLines(title: string, ls: seq<string>)
    requires '\n' !in title
    requires forall i :: 0 <= i < |ls| ==> '\n' !in ls[i]
    ensures forall i :: 0 <= i < |[title] + ls| ==> '\n' !in ([title] + ls)[i]
  {
  }

  /** The lines the scanner reads hold no line feed. */
  lemma ScannedLines(output: string)
    ensures forall i :: 0 <= i < |Scanned(Lines(output))| ==> '\n' !in Scanned(Lines(output))[i]
  {
    var ls := Lines(output);
    var r := Scanned(ls);
    assert forall i :: 0 <= i < |r| ==> r[i] == ls[i];
  }

  /** A requested diagnostic of non-blank output is the title and the
      kept lines joined by line feeds; it is the title alone when the
      scanner finds no line to keep. */
  lemma DiagnosticText(title: string, output: string)
    requires !IsBlank(output)
    requires VisibleEnds(title) && '\n' !in title
    ensures NonBlank(Lines(output)) != []
    ensures FreeTextDiagnostic(title, output, true) == Join([title] + NonBlank(Scanned(Lines(output))))
  {
    assert NonBlank(Lines(output)) != [] by {
      BlankOutput(output);
    }
    var ls := Scanned(Lines(output));
    var kept := NonBlank(ls);
    DiagnosticUnfold(title, output);
    assert forall i :: 0 <= i < |kept| ==> kept[i] != [] && !IsTrimmable(kept[i][|kept[i]| - 1]) by {
      ScannedLines(output);
      NonBlankLines(ls);
    }
    TitledTrim(title, kept);
  }

  lemma DiagnosticUnfold(title: string, output: string)
    requires !IsBlank(output)
    ensures FreeTextDiagnostic(title, output, true)
            == Trim(title + ("\n" + Terminated(NonBlank(Scanned(Lines(output))))))
  {
  }

  /** The title, a line feed and the kept lines, each ending in a line
      feed, trim to the title and the kept lines joined. */
  lemma TitledTrim(title: string, kept: seq<string>)
    requires VisibleEnds(title)
    requires forall i :: 0 <= i < |kept| ==> kept[i] != [] && !IsTrimmable(kept[i][|kept[i]| - 1])
    ensures Trim(title + ("\n" + Terminated(kept))) == Join([title] + kept)
  {
    if kept == [] {
      assert title + ("\n" + Terminated(kept)) == title + "\n";
      TrimLine(title);
      assert Join([title] + kept) == title;
    } else {
      var m := Join([title] + kept);
      TitledJoin(title, kept);
      assert title + ("\n" + Terminated(kept)) == m + "\n";
      TrimLine(m);
    }
  }

  lemma {:induction false} NonBlankAppend(a: seq<string>, b: seq<string>)
    ensures NonBlank(a + b) == NonBlank(a) + NonBlank(b)
    decreases |a|
  {
    if a == [] {
      assert a + b == b;
    } else {
      assert (a + b)[1..] == a[1..] + b;
      NonBlankAppend(a[1..], b);
    }
  }

  /** What the scanner reads, then what it skips, is all of the text. */
  lemma ScannedSplit(ls: seq<string>)
    ensures ls == Scanned(ls) + ls[|Scanned(ls)|..]
  {
    var r := Scanned(ls);
    assert r == ls[..|r|];
    assert ls == ls[..|r|] + ls[|r|..];
  }

  /** The scanner skips only lines of Java white space, so it keeps what
      splitting keeps unless such a line survives `trim`: one holding a
      Unicode space above U+0020. */
  lemma ScannedNonBlank(ls: seq<string>)
    requires forall i :: 0 <= i < |ls| && JavaBlank(ls[i]) ==> IsBlank(ls[i])
    ensures NonBlank(Scanned(ls)) == NonBlank(ls)
  {
    var r := Scanned(ls);
    var rest := ls[|r|..];
    ScannedSplit(ls);
    NonBlankAppend(r, rest);
    assert forall i :: 0 <= i < |rest| ==> IsBlank(rest[i]) by {
      forall i | 0 <= i < |rest| ensures IsBlank(rest[i]) {
        assert rest[i] == ls[|r| + i] && JavaBlank(ls[|r| + i]);
      }
    }
    NonBlankNone(rest);
  }

  /** A last line of Java white space is never read, even when `trim`
      would keep it: the diagnostic of a visible line followed by such a
      line shows the visible line alone. */
  lemma TrailingJavaSpace(title: string, a: string, w: string)
    requires VisibleEnds(title) && '\n' !in title
    requires VisibleEnds(a) && '\n' !in a && !JavaBlank(a)
    requires JavaBlank(w) && '\n' !in w
    ensures FreeTextDiagnostic(title, a + "\n" + w, true) == title + "\n" + a
  {
    var out := a + "\n" + w;
    assert Lines(out) == [a, w] by {
      FindAfter(a, w);
      assert Find(w, '\n').None?;
    }
    assert Scanned([a, w]) == [a] by {
      assert [a, w][..1] == [a];
    }
    assert NonBlank([a]) == [a] by {
      TrimVisible(a);
      assert [a][1..] == [];
    }
    assert !IsBlank(out) by {
      assert out[0] == a[0];
    }
    DiagnosticText(title, out);
    assert Join([title] + [a]) == title + "\n" + a by {
      assert ([title] + [a])[1..] == [a];
    }
  }

  /** An em space (U+2003) is white space to Java but above what `trim`
      removes: a last line holding one is dropped from the diagnostic. */
  lemma TrailingEmSpace()
    ensures FreeTextDiagnostic("t:", "abc\n\U{2003}", true) == "t:\nabc"
  {
    assert "abc" + "\n" + "\U{2003}" == "abc\n\U{2003}";
    assert "t:" + "\n" + "abc" == "t:\nabc";
    assert !IsJavaWhitespace("abc"[0]);
    TrailingJavaSpace("t:", "abc", "\U{2003}");
  }

  /** The title and the kept lines, each followed by a line feed, are their
      join plus a final line feed; that join starts and ends visibly. */
  lemma TitledJoin(title: string, kept: seq<string>)
    requires title != [] && !IsTrimmable(title[0])
    requires kept != []
    requires forall i :: 0 <= i < |kept| ==> kept[i] != [] && !IsTrimmable(kept[i][|kept[i]| - 1])
    ensures title + "\n" + Terminated(kept) == Join([title] + kept) + "\n"
    ensures VisibleEnds(Join([title] + kept))
  {
    var m := Join([title] + kept);
    assert m == title + "\n" + Join(kept) by {
      assert ([title] + kept)[1..] == kept;
    }
    TerminatedJoin(kept);
    JoinLast([title] + kept);
    assert ([title] + kept)[|kept|] == kept[|kept| - 1];
  }

  /** Text that neither starts nor ends with a trimmable character. */
  predicate VisibleEnds(m: string) {
    m != [] && !IsTrimmable(m[0]) && !IsTrimmable(m[|m| - 1])
  }

  /** A line with visible ends survives trimming of its line feed. */
  lemma TrimLine(m: string)
    requires VisibleEnds(m)
    ensures Trim(m + "\n") == m
  {
    var x := m + "\n";
    assert x[0] == m[0] && x[|m| - 1] == m[|m| - 1] && x[|m|] == '\n';
    LeadUnique(x, 0);
    EndUnique(x, |m|);
    assert x[..|m|] == m;
  }

  /** Without a request, or for blank output, the placeholder is shown. */
  lemma NoDiagnosticPlaceholder(title: string, output: string, includeDiagnostic: bool)
    requires !includeDiagnostic || NonBlank(Lines(output)) == []
    ensures FreeTextDiagnostic(title, output, includeDiagnostic) == NoDiagnostic
  {
    BlankOutput(output);
  }

  /** Recording a command keeps the log free of duplicates. */
  lemma AddKeepsDistinct(s: Summary, c: Command, cfg: Config)
    requires NoDuplicates(s.completed)
    ensures NoDuplicates(AddCompleted(s, c, cfg).summary.completed)
  {
    if c.id !in Ids(s.completed) {
      var cs := s.completed + [c];
      forall i, j | 0 <= i < j < |cs| ensures cs[i].id != cs[j].id {
        if j == |s.completed| {
          assert Ids(s.completed)[i] == cs[i].id;
        }
      }
    }
  }

  /** Submitting the same command line a second time, whatever it printed
      or returned that time, leaves the log as it was and only logs the
      duplicate. */
  lemma RecordedOnce(s: Summary, c: Command, d: Command, cfg: Config)
    requires d.id == c.id
    ensures var first := AddCompleted(s, c, cfg);
            AddCompleted(first.summary, d, cfg)
            == Outcome(first.summary, [Info("Duplicate command: " + d.shown)], None)
  {
    var first := AddCompleted(s, c, cfg);
    if c.id !in Ids(s.completed) {
      assert Ids(first.summary.completed)[|s.completed|] == c.id;
    }
  }

  /** Commands recorded one after another, with the number of times the
      build was aborted on the way. */
  function Feed(s: Summary, cs: seq<Command>, cfg: Config): (Summary, nat)
    decreases |cs|
  {
    if cs == [] then (s, 0)
    else
      var r := AddCompleted(s, cs[0], cfg);
      var (t, n) := Feed(r.summary, cs[1..], cfg);
      (t, n + (if r.abort.Some? then 1 else 0))
  }

  /** Over any run, the log stays free of duplicates, holds every command
      that was fed, only grows, and the build is aborted at most once:
      never again after reporting has stopped. */
  lemma {:induction false} FeedInvariants(s: Summary, cs: seq<Command>, cfg: Config)
    requires NoDuplicates(s.completed)
    ensures var (t, n) := Feed(s, cs, cfg);
            && NoDuplicates(t.completed)
            && (forall c :: c in cs ==> c.id in Ids(t.completed))
            && s.completed <= t.completed
            && n <= (if s.nomore then 0 else 1)
            && (s.nomore ==> t.nomore)
            && (n == 1 ==> t.nomore)
    decreases |cs|
  {
    if cs != [] {
      var r := AddCompleted(s, cs[0], cfg);
      AddKeepsDistinct(s, cs[0], cfg);
      FeedInvariants(r.summary, cs[1..], cfg);
      var (t, n) := Feed(r.summary, cs[1..], cfg);
      assert cs[0].id in Ids(r.summary.completed) by {
        if cs[0].id !in Ids(s.completed) {
          assert Ids(r.summary.completed)[|s.completed|] == cs[0].id;
        }
      }
      IdsGrow(r.summary.completed, t.completed);
      assert forall c :: c in cs ==> c == cs[0] || c in cs[1..];
      assert s.nomore ==> r.summary.nomore;
    }
  }

  /** A log that grows keeps every identity it held. */
  lemma IdsGrow(a: seq<Command>, b: seq<Command>)
    requires a <= b
    ensures forall x :: x in Ids(a) ==> x in Ids(b)
  {
    forall x | x in Ids(a) ensures x in Ids(b) {
      var k :| 0 <= k < |a| && Ids(a)[k] == x;
      assert Ids(b)[k] == x;
    }
  }

  /** The commands that passed, in the order they completed. */
  function PassedOnes(cs: seq<Command>): (r: seq<Command>)
    ensures |r| <= |cs|
    ensures forall i :: 0 <= i < |r| ==> !Failed(r[i]) && r[i] in cs
    ensures forall c :: c in cs && !Failed(c) ==> c in r
  {
    if cs == [] then []
    else (if Failed(cs[0]) then [] else [cs[0]]) + PassedOnes(cs[1..])
  }

  /** Every completed command is either failed or passed, never both: the
      two lists split the log, and "passed = total - failed" counts
      exactly the commands that exited successfully. */
  lemma {:induction false} Partition(cs: seq<Command>)
    ensures multiset(FailedOnes(cs)) + multiset(PassedOnes(cs)) == multiset(cs)
    ensures |cs| - |FailedOnes(cs)| == |PassedOnes(cs)|
    decreases |cs|
  {
    if cs != [] {
      Partition(cs[1..]);
      var f := FailedOnes(cs[1..]);
      var p := PassedOnes(cs[1..]);
      assert cs == [cs[0]] + cs[1..];
      ConsSplit(cs[0], f, p, cs[1..]);
      if Failed(cs[0]) {
        assert FailedOnes(cs) == [cs[0]] + f && PassedOnes(cs) == p;
      } else {
        assert FailedOnes(cs) == f && PassedOnes(cs) == [cs[0]] + p;
      }
    }
  }

  /** Putting one more element in front of either part keeps the split. */
  lemma ConsSplit<T>(x: T, a: seq<T>, b: seq<T>, rest: seq<T>)
    requires multiset(a) + multiset(b) == multiset(rest)
    ensures multiset([x] + a) + multiset(b) == multiset([x] + rest)
    ensures multiset(a) + multiset([x] + b) == multiset([x] + rest)
  {
  }

  /** The closing summary: a failures section exactly when some check
      failed, and a banner coloured as failed exactly then, whose text
      reads back as the number of commands that passed, the number
      completed and the rounded percentage. */
  lemma SummaryShape(s: Summary, cfg: Config)
    ensures var (events, _) := ShowOutputSummary(s, cfg);
            var failed := exists c :: c in s.completed && Failed(c);
            var passed, total := |PassedOnes(s.completed)|, |s.completed|;
            && events != []
            && events[|events| - 1] == Banner(PassedLine(passed, total, cfg.assignment), failed)
            && ReadBanner(events[|events| - 1].text)
               == Some(BannerView(passed, total, Percent(passed, total), cfg.assignment))
            && (failed <==> events[0] == Lifecycle(FailuresHeader))
  {
    var f := FailedOnes(s.completed);
    if f != [] {
      assert f[0] in s.completed;
    }
  }

  lemma MulMono(a: nat, b: nat, c: nat)
    requires a <= b
    ensures c * a <= c * b
  {
  }

  /** The percentage at its ends: all checks passing gives 100, but so
      does any run that misses by less than half a percent; 0 is shown
      exactly when less than half a percent passed. */
  lemma PercentEnds(passed: nat, total: nat)
    requires 0 < total && passed <= total
    ensures passed == total ==> Percent(passed, total) == 100
    ensures Percent(passed, total) == 100 <==> 199 * total <= 200 * passed
    ensures Percent(passed, total) == 0 <==> 200 * passed < total
  {
    var r := Percent(passed, total);
    if r < 100 {
      MulMono(r + 1, 100, 2 * total);
    }
    if r >= 1 {
      MulMono(1, r, 2 * total);
    }
  }

  /** Two of three checks passing is reported as 67%, one of eight as 13%
      (the half rounds up), an empty run as 0%, and 199 of 200 as 100%. */
  lemma PercentExamples()
    ensures Percent(2, 3) == 67
    ensures Percent(1, 8) == 13
    ensures Percent(0, 0) == 0
    ensures Percent(199, 200) == 100
  {
  }
}
