/** `DependencyManager`: probing for git, Python 3 and Pipenv, installing or
    updating GatorGrader from its repository (rolling the installation
    back when that fails), and finding the interpreter of GatorGrader's
    virtual environment.

    External commands are not run: an oracle gives the exit value and
    output of each invocation. The file system is reduced to what the code
    asks of it: whether the home directory exists, whether `mkdirs`
    succeeds, the paths `Files.walk` lists and whether each deletion
    succeeds. Each operation returns what it did (the commands it issued
    and the files it touched, in order) and what it logged. */
module Dependencies {
  import opened Results
  import opened Texts
  import opened Platform
  import opened PathOrder
  import OutputSummary

  const GatorGraderRepo := "https://github.com/GatorEducator/gatorgrader.git"

  /** The output by which `git pull` in a detached checkout (a tag or a
      commit rather than a branch) is recognised and forgiven. */
  const DetachedMarker := "You are not currently on a branch"

  /** A command line and the directory it runs in, if one is set. */
  datatype Invocation = Invocation(argv: seq<string>, workingDir: Option<string>)

  /** What a finished process reports. */
  datatype Ran = Ran(exitValue: int, output: string)

  /** The outcome of running each command. */
  type Oracle = Invocation -> Ran

  function Succeeded(ran: Ran): bool {
    ran.exitValue == OutputSummary.SuccessExit
  }

  /** Something done to the outside world. */
  datatype Action = Run(invocation: Invocation) | MakeDirs(path: string) | Delete(path: string)

  /** A console line: `Console.log`, `Console.error`, or the three lines
      `error(desc, cmd)` writes about a failed command (its description,
      the command, and its trimmed output). */
  datatype Note =
    | Info(text: string)
    | Complaint(text: string)
    | CommandFailed(description: string, invocation: Invocation, output: string)

  /** Whether an operation succeeded, what it did, and what it logged. */
  datatype Effect = Effect(ok: bool, actions: seq<Action>, notes: seq<Note>)

  /** What the file system answers during installation and rollback. */
  datatype World = World(run: Oracle, homeExists: bool, mkdirsSucceeds: bool,
                         walk: Option<seq<string>>, deletes: string -> bool)

  // ---------------------------------------------------------------------
  // The probes

  const GitProbe := Invocation(["git", "--version"], None)
  const PythonProbe := Invocation(["python3", "-V"], None)
  const PipenvProbe := Invocation(["pipenv", "--version"], None)

  const GitDownloads := "https://git-scm.com/downloads"

  /** The remediation `doGit` prints on each system. */
  function GitAdvice(os: Os): (r: seq<Note>)
    ensures r != [] && forall k :: 0 <= k < |r| ==> r[k].Info?
  {
    if os == Mac then
      [Info("You must install Git! An Xcode installation window should open to help you."),
       Info("If a window did not open, please visit " + GitDownloads + " to get started!")]
    else if os == Linux then
      [Info("You must install Git! Please issue the following command or visit " + GitDownloads + "."),
       Info("sudo apt-get install git")]
    else
      [Info("You must install Git! Please visit " + GitDownloads + " to get started!")]
  }

  const PythonAdvice := [
    Info("You must install Python 3! We recommend using Pyenv, available at https://github.com/pyenv/pyenv."),
    Info("You can also visit https://www.python.org/ to download installers for Windows.")]

  const PipenvAdvice := [
    Info("You must install Pipenv! Please visit https://pipenv.readthedocs.io to get started!")]

  /** A probe: run one command; on failure print the remediation. */
  function Probe(probe: Invocation, passed: bool, advice: seq<Note>): (r: Effect)
    requires advice != []
    ensures r.actions == [Run(probe)]
    ensures r.ok == passed
    ensures r.ok <==> r.notes == []
  {
    Effect(passed, [Run(probe)], if passed then [] else advice)
  }

  /** `doGit` */
  function DoGit(os: Os, run: Oracle): (r: Effect)
    ensures r.actions == [Run(GitProbe)]
    ensures r.ok <==> Succeeded(run(GitProbe))
    ensures !r.ok ==> r.notes == GitAdvice(os)
  {
    Probe(GitProbe, Succeeded(run(GitProbe)), GitAdvice(os))
  }

  /** `doPython`: the version banner must name a 3.x release. */
  function DoPython(run: Oracle): (r: Effect)
    ensures r.actions == [Run(PythonProbe)]
    ensures r.ok <==> Succeeded(run(PythonProbe)) && Contains(run(PythonProbe).output, " 3.")
    ensures !r.ok ==> r.notes == PythonAdvice
  {
    var ran := run(PythonProbe);
    Probe(PythonProbe, Succeeded(ran) && Contains(ran.output, " 3."), PythonAdvice)
  }

  /** `doPipenv` */
  function DoPipenv(run: Oracle): (r: Effect)
    ensures r.actions == [Run(PipenvProbe)]
    ensures r.ok <==> Succeeded(run(PipenvProbe))
    ensures !r.ok ==> r.notes == PipenvAdvice
  {
    Probe(PipenvProbe, Succeeded(run(PipenvProbe)), PipenvAdvice)
  }

  // ---------------------------------------------------------------------
  // Installing or updating GatorGrader

  function Fetch(home: string): Invocation {
    Invocation(["git", "fetch", "--all"], Some(home))
  }

  function Clone(home: string): Invocation {
    Invocation(["git", "clone", GatorGraderRepo, home], Some(home))
  }

  function Checkout(home: string, revision: string): Invocation {
    Invocation(["git", "checkout", revision], Some(home))
  }

  function Pull(home: string): Invocation {
    Invocation(["git", "pull"], Some(home))
  }

  function Sync(home: string): Invocation {
    Invocation(["pipenv", "sync", "--bare"], Some(home))
  }

  const Updating := "Updating GatorGrader..."
  const Installing := "Installing GatorGrader..."
  const Managing := "Managing GatorGrader's Python dependencies..."
  const Finished := "Finished!"
  const NoCode := "GatorGrader management failed, could not get updated code!"
  const NoDependencies := "GatorGrader management failed, could not install dependencies!"

  function CheckingOut(revision: string): string {
    "Checking out to '" + revision + "'"
  }

  function NoCheckout(revision: string): string {
    "GatorGrader management failed, could not checkout to '" + revision + "'!"
  }

  /** The message of a failed pull, with the source's wording. */
  function NoUpdate(revision: string): string {
    "GatorGrader management failed, could update '" + revision + "'!"
  }

  function Reported(description: string, inv: Invocation, ran: Ran): Note {
    CommandFailed(description, inv, Trim(ran.output))
  }

  /** The directories made before cloning into a home that is missing. */
  function Made(home: string, homeExists: bool): seq<Action> {
    if homeExists then [] else [MakeDirs(home)]
  }

  /** The complaint about a failed `mkdirs`, which is not fatal. */
  function Complained(home: string, w: World): seq<Note> {
    if w.homeExists || w.mkdirsSucceeds then [] else [Complaint("Failed to make directories: " + home)]
  }

  // ---------------------------------------------------------------------
  // The same flow as a plan: a list of steps run until one is rejected

  /** A step: what it logs first, the command, output that excuses a
      failing exit value, and how its failure is described. */
  datatype Step = Step(announce: seq<Note>, invocation: Invocation, excuse: Option<string>,
                       failure: string)

  predicate Accepts(s: Step, ran: Ran) {
    Succeeded(ran) || (s.excuse.Some? && Contains(ran.output, s.excuse.value))
  }

  /** The four steps of an installation or update, in order. */
  function Plan(home: string, revision: string, homeExists: bool): (p: seq<Step>)
    ensures |p| == 4
  {
    [Step([Info(if homeExists then Updating else Installing)],
          if homeExists then Fetch(home) else Clone(home), None, NoCode),
     Step([Info(CheckingOut(revision))], Checkout(home, revision), None, NoCheckout(revision)),
     Step([], Pull(home), Some(DetachedMarker), NoUpdate(revision)),
     Step([Info(Managing)], Sync(home), None, NoDependencies)]
  }

  /** Runs the steps in order and stops at the first one rejected. */
  function RunPlan(steps: seq<Step>, run: Oracle): (r: Effect)
    decreases |steps|
  {
    if steps == [] then Effect(true, [], [Info(Finished)])
    else
      var s := steps[0];
      var ran := run(s.invocation);
      if !Accepts(s, ran) then
        Effect(false, [Run(s.invocation)], s.announce + [Reported(s.failure, s.invocation, ran)])
      else
        var rest := RunPlan(steps[1..], run);
        Effect(rest.ok, [Run(s.invocation)] + rest.actions, s.announce + rest.notes)
  }

  /** The position of the first rejected step, if any. */
  function FirstRejected(steps: seq<Step>, run: Oracle): (r: Option<nat>)
    ensures r.Some? ==> r.value < |steps| && !Accepts(steps[r.value], run(steps[r.value].invocation))
    ensures r.Some? ==> forall i :: 0 <= i < r.value ==> Accepts(steps[i], run(steps[i].invocation))
    ensures r.None? <==> forall i :: 0 <= i < |steps| ==> Accepts(steps[i], run(steps[i].invocation))
    decreases |steps|
  {
    if steps == [] then None
    else if !Accepts(steps[0], run(steps[0].invocation)) then Some(0)
    else
      match FirstRejected(steps[1..], run)
      case None =>
        assert forall i :: 1 <= i < |steps| ==> steps[i] == steps[1..][i - 1];
        None
      case Some(k) =>
        assert forall i :: 1 <= i < k + 1 ==> steps[i] == steps[1..][i - 1];
        Some(k + 1)
  }

  /** How many steps are run: up to and including the first rejected one,
      or all of them. */
  function Issued(steps: seq<Step>, run: Oracle): (n: nat)
    ensures n <= |steps|
    ensures steps != [] ==> n >= 1
    decreases |steps|
  {
    if steps == [] then 0
    else if !Accepts(steps[0], run(steps[0].invocation)) then 1
    else Issued(steps[1..], run) + 1
  }

  /** The steps issued are those up to and including the first rejected
      one, or all of them when none is rejected. */
  lemma {:induction false} IssuedUpToRejected(steps: seq<Step>, run: Oracle)
    ensures Issued(steps, run) == match FirstRejected(steps, run) {
                                    case Some(k) => k + 1
                                    case None => |steps| }
    decreases |steps|
  {
    if steps != [] && Accepts(steps[0], run(steps[0].invocation)) {
      IssuedUpToRejected(steps[1..], run);
    }
  }

  /** The commands of the given steps. */
  function Runs(steps: seq<Step>): (r: seq<Action>)
    ensures |r| == |steps|
    ensures forall i :: 0 <= i < |steps| ==> r[i] == Run(steps[i].invocation)
  {
    seq(|steps|, i requires 0 <= i < |steps| => Run(steps[i].invocation))
  }

  /** Running a plan succeeds exactly when no step is rejected. */
  lemma {:induction false} RunPlanOk(steps: seq<Step>, run: Oracle)
    ensures RunPlan(steps, run).ok <==> FirstRejected(steps, run).None?
    decreases |steps|
  {
    if steps != [] && Accepts(steps[0], run(steps[0].invocation)) {
      RunPlanOk(steps[1..], run);
    }
  }

  /** Running a plan issues the commands of the steps up to and including
      the first rejected one, and none after it. */
  /** The commands of a prefix are the first command followed by those of
      the rest of the prefix. */
  lemma RunsCons(steps: seq<Step>, n: nat)
    requires n < |steps|
    ensures Runs(steps[..n + 1]) == [Run(steps[0].invocation)] + Runs(steps[1..][..n])
  {
    assert steps[1..][..n] == steps[1..n + 1];
  }

  lemma {:induction false} RunPlanIssues(steps: seq<Step>, run: Oracle)
    ensures RunPlan(steps, run).actions == Runs(steps[..Issued(steps, run)])
    decreases |steps|
  {
    if steps != [] {
      var first := Run(steps[0].invocation);
      if Accepts(steps[0], run(steps[0].invocation)) {
        var n := Issued(steps[1..], run);
        assert RunPlan(steps, run).actions == [first] + RunPlan(steps[1..], run).actions;
        assert RunPlan(steps[1..], run).actions == Runs(steps[1..][..n]) by {
          RunPlanIssues(steps[1..], run);
        }
        assert [first] + Runs(steps[1..][..n]) == Runs(steps[..n + 1]) by {
          RunsCons(steps, n);
        }
      } else {
        assert Runs(steps[..1]) == [first];
      }
    }
  }

  /** `doGatorGraderMain`: get the code (fetch into an existing home, or
      make the directories and clone), check out the revision, pull, then
      sync the Python dependencies; the first step that fails ends the
      run. A failed `mkdirs` is only logged. */
  function InstallMain(home: string, revision: string, w: World): (r: Effect)
    ensures r.ok <==> FirstRejected(Plan(home, revision, w.homeExists), w.run).None?
    ensures !w.homeExists && !w.mkdirsSucceeds ==> [Complaint("Failed to make directories: " + home)] <= r.notes
    ensures 1 <= |r.actions| <= 5
  {
    var plan := Plan(home, revision, w.homeExists);
    var p := RunPlan(plan, w.run);
    RunPlanOk(plan, w.run);
    RunPlanIssues(plan, w.run);
    Effect(p.ok, Made(home, w.homeExists) + p.actions, Complained(home, w) + p.notes)
  }

  /** The installation succeeds exactly when getting the code, the
      checkout and the sync exit successfully and the pull either does or
      reports a detached checkout. */
  lemma InstallSucceeds(home: string, revision: string, w: World)
    ensures var get := if w.homeExists then Fetch(home) else Clone(home);
            InstallMain(home, revision, w).ok
            <==> && Succeeded(w.run(get))
                 && Succeeded(w.run(Checkout(home, revision)))
                 && (Succeeded(w.run(Pull(home))) || Contains(w.run(Pull(home)).output, DetachedMarker))
                 && Succeeded(w.run(Sync(home)))
  {
    var plan := Plan(home, revision, w.homeExists);
    RunPlanOk(plan, w.run);
    assert (forall i :: 0 <= i < 4 ==> Accepts(plan[i], w.run(plan[i].invocation)))
           <==> && Accepts(plan[0], w.run(plan[0].invocation)) && Accepts(plan[1], w.run(plan[1].invocation))
                && Accepts(plan[2], w.run(plan[2].invocation)) && Accepts(plan[3], w.run(plan[3].invocation));
  }

  /** The commands issued are those of the steps up to the first that
      fails, and no later one. */
  lemma InstallIssues(home: string, revision: string, w: World)
    ensures var plan := Plan(home, revision, w.homeExists);
            InstallMain(home, revision, w).actions == Made(home, w.homeExists) + Runs(plan[..Issued(plan, w.run)])
  {
    var plan := Plan(home, revision, w.homeExists);
    RunPlanIssues(plan, w.run);
  }

  /** An existing home is fetched into, a missing one is made and cloned
      into; the other command is never issued. */
  lemma InstallStarts(home: string, revision: string, w: World)
    ensures var r := InstallMain(home, revision, w);
            && (w.homeExists ==> r.actions[0] == Run(Fetch(home)) && Run(Clone(home)) !in r.actions)
            && (!w.homeExists ==> && |r.actions| >= 2 && r.actions[..2] == [MakeDirs(home), Run(Clone(home))]
                                  && Run(Fetch(home)) !in r.actions)
  {
    var plan := Plan(home, revision, w.homeExists);
    var steps := plan[..Issued(plan, w.run)];
    var made := Made(home, w.homeExists);
    InstallIssues(home, revision, w);
    var other := if w.homeExists then Clone(home) else Fetch(home);
    assert forall k :: 0 <= k < |steps| ==> steps[k].invocation != other by {
      PlanAvoids(home, revision, w.homeExists);
    }
    RunsFirst(made, steps, other);
  }

  /** No step of the plan is the way of getting the code that was not
      chosen. */
  lemma PlanAvoids(home: string, revision: string, homeExists: bool)
    ensures var other := if homeExists then Clone(home) else Fetch(home);
            forall k :: 0 <= k < 4 ==> Plan(home, revision, homeExists)[k].invocation != other
  {
    var plan := Plan(home, revision, homeExists);
    assert plan[0].invocation.argv[1] != (if homeExists then Clone(home) else Fetch(home)).argv[1];
    assert |Checkout(home, revision).argv| == 3 && Checkout(home, revision).argv[1][0] == 'c';
    assert |Fetch(home).argv| == 3 && Fetch(home).argv[1][0] == 'f';
  }

  /** What runs after directories are made starts with the first step's
      command, and a command no step issues is not among them. */
  lemma RunsFirst(made: seq<Action>, steps: seq<Step>, other: Invocation)
    requires forall a :: a in made ==> a.MakeDirs?
    requires forall k :: 0 <= k < |steps| ==> steps[k].invocation != other
    ensures steps != [] ==> (made + Runs(steps))[|made|] == Run(steps[0].invocation)
    ensures Run(other) !in made + Runs(steps)
  {
  }

  /** Installing runs commands and makes directories; it deletes nothing. */
  lemma NoDeletesInMain(home: string, revision: string, w: World)
    ensures forall a :: a in InstallMain(home, revision, w).actions ==> !a.Delete?
  {
    var plan := Plan(home, revision, w.homeExists);
    InstallIssues(home, revision, w);
    OnlyMadeAndRun(Made(home, w.homeExists), plan[..Issued(plan, w.run)]);
  }

  lemma OnlyMadeAndRun(made: seq<Action>, steps: seq<Step>)
    requires forall a :: a in made ==> a.MakeDirs?
    ensures forall a :: a in made + Runs(steps) ==> !a.Delete?
  {
    assert forall a :: a in Runs(steps) ==> a.Run?;
  }

  /** The pull is the one step whose failure is forgiven, and only when
      the output shows a detached checkout. */
  lemma OnlyPullExcused(home: string, revision: string, homeExists: bool, ran: Ran)
    ensures var p := Plan(home, revision, homeExists);
            && (forall i :: 0 <= i < 4 && i != 2 ==> (Accepts(p[i], ran) <==> Succeeded(ran)))
            && (Accepts(p[2], ran) <==> Succeeded(ran) || Contains(ran.output, DetachedMarker))
  {
  }

  // ---------------------------------------------------------------------
  // Rolling back a failed installation

  function Deletions(paths: seq<string>): (r: seq<Action>)
    ensures |r| == |paths|
    ensures forall i :: 0 <= i < |paths| ==> r[i] == Delete(paths[i])
  {
    seq(|paths|, i requires 0 <= i < |paths| => Delete(paths[i]))
  }

  /** A complaint for every path that could not be deleted; it names the
      installation directory, not the path that survived. */
  function Undeleted(paths: seq<string>, deletes: string -> bool, home: string): seq<Note> {
    if paths == [] then []
    else (if deletes(paths[0]) then [] else [Complaint("Did not delete " + home + "!")])
         + Undeleted(paths[1..], deletes, home)
  }

  /** A failed deletion is reported once per path that survived, always
      naming the home directory, and the rollback complains of nothing
      exactly when every path is deleted. */
  lemma {:induction false} UndeletedComplaints(paths: seq<string>, deletes: string -> bool, home: string)
    ensures var u := Undeleted(paths, deletes, home);
            && |u| <= |paths|
            && |u| == |set i | 0 <= i < |paths| && !deletes(paths[i])|
            && (u == [] <==> forall i :: 0 <= i < |paths| ==> deletes(paths[i]))
            && forall k :: 0 <= k < |u| ==> u[k] == Complaint("Did not delete " + home + "!")
    decreases |paths|
  {
    UndeletedCount(paths, deletes, home);
    if paths != [] {
      UndeletedComplaints(paths[1..], deletes, home);
      assert forall i :: 1 <= i < |paths| ==> paths[i] == paths[1..][i - 1];
    }
  }

  lemma {:induction false} UndeletedAppend(a: seq<string>, b: seq<string>, deletes: string -> bool, home: string)
    ensures Undeleted(a + b, deletes, home) == Undeleted(a, deletes, home) + Undeleted(b, deletes, home)
    decreases |a|
  {
    if a == [] {
      assert a + b == b;
    } else {
      assert (a + b)[1..] == a[1..] + b;
      UndeletedAppend(a[1..], b, deletes, home);
    }
  }

  /** One complaint for each position whose path survived. */
  lemma {:induction false} UndeletedCount(paths: seq<string>, deletes: string -> bool, home: string)
    ensures |Undeleted(paths, deletes, home)| == |set i | 0 <= i < |paths| && !deletes(paths[i])|
    decreases |paths|
  {
    if paths != [] {
      var n := |paths| - 1;
      var init := paths[..n];
      UndeletedCount(init, deletes, home);
      assert paths == init + [paths[n]];
      UndeletedAppend(init, [paths[n]], deletes, home);
      var a := set i | 0 <= i < |init| && !deletes(init[i]);
      var b := set i | 0 <= i < |paths| && !deletes(paths[i]);
      assert forall i :: 0 <= i < n ==> init[i] == paths[i];
      if deletes(paths[n]) {
        assert b == a;
      } else {
        assert b == a + {n};
        assert n !in a;
      }
    }
  }

  /** `doGatorGrader`: the main flow, and when it fails, the deletion of
      every path under the home directory, deepest first. The result of
      the main flow is returned unchanged. */
  function DoGatorGrader(home: string, revision: string, sep: string, w: World): (r: Effect)
    ensures r.ok == InstallMain(home, revision, w).ok
    ensures r.ok ==> r == InstallMain(home, revision, w)
    ensures !r.ok && w.walk.Some? ==>
              r.actions == InstallMain(home, revision, w).actions + Deletions(SortDescending(w.walk.value))
    ensures !r.ok && w.walk.None? ==> r.actions == InstallMain(home, revision, w).actions
    ensures !r.ok && w.walk.None? ==>
              r.notes == InstallMain(home, revision, w).notes
                         + [Info("Deleting " + home), Complaint("Failed to delete " + home + "!")]
    ensures !r.ok && w.walk.Some? ==>
              r.notes == InstallMain(home, revision, w).notes + [Info("Deleting " + home)]
                         + Undeleted(SortDescending(w.walk.value), w.deletes, home)
  {
    var main := InstallMain(home, revision, w);
    if main.ok then main
    else
      var deleting := [Info("Deleting " + home)];
      match w.walk
      case None =>
        Effect(false, main.actions, main.notes + deleting + [Complaint("Failed to delete " + home + "!")])
      case Some(paths) =>
        var order := SortDescending(paths);
        Effect(false, main.actions + Deletions(order), main.notes + deleting + Undeleted(order, w.deletes, home))
  }

  /** After a failed installation every walked path is deleted, and
      everything below a directory is deleted before it. */
  lemma RollbackDeepestFirst(home: string, revision: string, sep: string, w: World, p: string, q: string)
    requires sep != [] && w.walk.Some? && !InstallMain(home, revision, w).ok
    requires p in w.walk.value && q in w.walk.value && StartsWith(q, p + sep)
    ensures var r := DoGatorGrader(home, revision, sep, w);
            && Delete(p) in r.actions && Delete(q) in r.actions
            && forall i, j ::
                 (0 <= i < |r.actions| && 0 <= j < |r.actions| && r.actions[i] == Delete(q) && r.actions[j] == Delete(p))
                 ==> i < j
  {
    var order := SortDescending(w.walk.value);
    assert p in multiset(order) && q in multiset(order);
    NoDeletesInMain(home, revision, w);
    DeletedInOrder(InstallMain(home, revision, w).actions, order, sep, p, q);
  }

  /** Deleting a descending list after actions that delete nothing removes
      each listed path, those below a directory first. */
  lemma DeletedInOrder(before: seq<Action>, order: seq<string>, sep: string, p: string, q: string)
    requires sep != [] && Descending(order) && p in order && q in order && StartsWith(q, p + sep)
    requires forall a :: a in before ==> !a.Delete?
    ensures var all := before + Deletions(order);
            && Delete(p) in all && Delete(q) in all
            && forall i, j ::
                 (0 <= i < |all| && 0 <= j < |all| && all[i] == Delete(q) && all[j] == Delete(p))
                 ==> i < j
  {
    var all := before + Deletions(order);
    var n := |before|;
    var a :| 0 <= a < |order| && order[a] == p;
    var b :| 0 <= b < |order| && order[b] == q;
    assert all[n + a] == Delete(p) && all[n + b] == Delete(q);
    forall i, j | 0 <= i < |all| && 0 <= j < |all| && all[i] == Delete(q) && all[j] == Delete(p)
      ensures i < j
    {
      assert i >= n && j >= n by {
        assert forall k :: 0 <= k < n ==> all[k] in before;
      }
      assert order[i - n] == q && order[j - n] == p;
      DescendantsFirst(order, sep, i - n, j - n);
    }
  }

  // ---------------------------------------------------------------------
  // The interpreter of GatorGrader's virtual environment

  function VenvQuery(home: string): Invocation {
    Invocation(["pipenv", "--venv"], Some(home))
  }

  const VenvQueryFailed := "Query for the Python executable failed! Try to reinstall GatorGrader"
  const VenvMissing := "Failed to run 'pipenv --venv'! Was GatorGrader installed?"

  /** The result of `getPython`, the cached path afterwards, and what the
      lookup did and logged. */
  datatype Lookup = Lookup(result: Result<string, string>, cache: Option<string>,
                           actions: seq<Action>, notes: seq<Note>)

  /** Where a virtual environment keeps its interpreter on each system. */
  function ScriptsDir(os: Os): string {
    if os == Windows then "Scripts" else "bin"
  }

  /** `getPython`: the cached path if there is one; otherwise the path
      built from the virtual environment that `pipenv --venv` reports,
      which is then cached. A failed query throws and caches nothing. */
  function GetPython(cache: Option<string>, setting: Setting, run: Oracle): (r: Lookup)
    ensures cache.Some? ==> r == Lookup(Success(cache.value), cache, [], [])
    ensures cache.None? ==> r.actions == [Run(VenvQuery(setting.home))]
    ensures r.result.Failure? <==> cache.None? && !Succeeded(run(VenvQuery(setting.home)))
    ensures r.result.Failure? ==> r.cache == cache && r.result.error == VenvMissing
    ensures r.result.Success? ==> r.cache == Some(r.result.value)
  {
    match cache
    case Some(path) => Lookup(Success(path), cache, [], [])
    case None =>
      var query := VenvQuery(setting.home);
      var ran := run(query);
      if !Succeeded(ran) then
        Lookup(Failure(VenvMissing), None, [Run(query)], [CommandFailed(VenvQueryFailed, query, Trim(ran.output))])
      else
        var path := Trim(ran.output) + setting.sep + ScriptsDir(setting.os) + setting.sep + "python";
        Lookup(Success(path), Some(path), [Run(query)], [])
  }

  /** Once found, the path is remembered: asking again runs nothing and
      gives the same answer, whatever the commands would now report. */
  lemma PythonMemoised(cache: Option<string>, setting: Setting, run: Oracle, later: Oracle)
    requires GetPython(cache, setting, run).result.Success?
    ensures var first := GetPython(cache, setting, run);
            var again := GetPython(first.cache, setting, later);
            again.actions == [] && again.result == first.result && again.cache == first.cache
  {
  }

  /** A fresh lookup's path is the trimmed environment directory, then the
      scripts directory of the system, then `python`, joined by the
      separator; the environment directory can be read back from it. */
  lemma PythonPath(setting: Setting, run: Oracle)
    requires Succeeded(run(VenvQuery(setting.home)))
    ensures var path := GetPython(None, setting, run).result.value;
            var venv := Trim(run(VenvQuery(setting.home)).output);
            var tail := setting.sep + ScriptsDir(setting.os) + setting.sep + "python";
            && |tail| <= |path|
            && path[..|path| - |tail|] == venv
            && path[|path| - |tail|..] == tail
            && (setting.os == Windows <==> ScriptsDir(setting.os) == "Scripts")
  {
    var venv := Trim(run(VenvQuery(setting.home)).output);
    var tail := setting.sep + ScriptsDir(setting.os) + setting.sep + "python";
    var path := GetPython(None, setting, run).result.value;
    assert path == venv + tail by {
      assert venv + setting.sep + ScriptsDir(setting.os) + setting.sep + "python" == venv + tail;
    }
    assert path[..|venv|] == venv && path[|venv|..] == tail;
  }

  // ---------------------------------------------------------------------
  // Dispatch

  datatype Dependency = GatorGrader | Python | Pipenv | Git

  /** `installOrUpdate`: each dependency to its own handler. */
  function InstallOrUpdate(dep: Dependency, setting: Setting, revision: string, w: World): (r: Effect)
    ensures dep == Git ==> r == DoGit(setting.os, w.run)
    ensures dep == Python ==> r == DoPython(w.run)
    ensures dep == Pipenv ==> r == DoPipenv(w.run)
    ensures dep == GatorGrader ==> r == DoGatorGrader(setting.home, revision, setting.sep, w)
  {
    match dep
    case GatorGrader => DoGatorGrader(setting.home, revision, setting.sep, w)
    case Python => DoPython(w.run)
    case Pipenv => DoPipenv(w.run)
    case Git => DoGit(setting.os, w.run)
  }

  /** Only GatorGrader is ever installed: for the other dependencies one
      version probe is run, nothing is written, and failure only advises. */
  lemma OnlyGatorGraderInstalls(dep: Dependency, setting: Setting, revision: string, w: World)
    requires dep != GatorGrader
    ensures var r := InstallOrUpdate(dep, setting, revision, w);
            && |r.actions| == 1 && r.actions[0].Run?
            && r.actions[0].invocation.argv[1] in {"--version", "-V"}
            && r.actions[0].invocation.workingDir.None?
            && (forall k :: 0 <= k < |r.notes| ==> r.notes[k].Info?)
  {
    var r := InstallOrUpdate(dep, setting, revision, w);
    if dep == Python {
      assert r.notes == [] || r.notes == PythonAdvice;
      assert PythonAdvice[0].Info? && PythonAdvice[1].Info?;
    }
  }
}
