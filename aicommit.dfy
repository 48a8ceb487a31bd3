/** The command-line entry point (aicommit/src/aicommit.py): the merge-conflict
    guard, then one interactive run that proposes commit messages, commits
    the chosen one and writes the pull-request description and the impact
    report. */
module Aicommit {
  import opened PyStr
  import opened Wrappers
  import opened Effects
  import opened Utils
  import opened PrDescription
  import opened CommitImpactReport

  /** The language `main` asks the commit messages in. */
  const CommitLanguage := "en"

  /** `[f.strip() for f in parts if f.strip()]`. */
  function NonBlankStripped(parts: seq<string>): (files: seq<string>)
    ensures forall k :: 0 <= k < |files| ==> files[k] != "" && IsStripped(files[k])
    decreases |parts|
  {
    if parts == [] then []
    else
      var rest := NonBlankStripped(parts[1..]);
      var f := Strip(parts[0]);
      if f == "" then rest
      else
        assert forall k :: 1 <= k <= |rest| ==> ([f] + rest)[k] == rest[k - 1];
        [f] + rest
  }

  /** A single line contributes nothing when blank and its stripped form
      otherwise; with `NonBlankStrippedAppend`, the files are the stripped
      non-blank lines in order. */
  lemma NonBlankStrippedOne(p: string)
    ensures NonBlankStripped([p]) == if AllSpace(p) then [] else [Strip(p)]
  {
    assert [p][1..] == [];
  }

  /** Only blank lines are filtered out: nothing is left exactly when every
      line is blank. */
  lemma {:induction false} NonBlankStrippedEmpty(parts: seq<string>)
    ensures NonBlankStripped(parts) == [] <==> forall k :: 0 <= k < |parts| ==> AllSpace(parts[k])
    decreases |parts|
  {
    if parts != [] {
      NonBlankStrippedEmpty(parts[1..]);
      assert forall j :: 1 <= j < |parts| ==> parts[j] == parts[1..][j - 1];
    }
  }

  /** A character none of the lines holds is in none of the files. */
  lemma {:induction false} NonBlankStrippedWithout(parts: seq<string>, c: char)
    requires forall k :: 0 <= k < |parts| ==> c !in parts[k]
    ensures forall k :: 0 <= k < |NonBlankStripped(parts)| ==> c !in NonBlankStripped(parts)[k]
    decreases |parts|
  {
    if parts != [] {
      var tail := parts[1..];
      forall k | 0 <= k < |tail| ensures c !in tail[k] {
        assert tail[k] == parts[k + 1];
      }
      NonBlankStrippedWithout(tail, c);
      StripWithout(parts[0], c);
      var rest := NonBlankStripped(tail);
      var f := Strip(parts[0]);
      if f != "" {
        forall k | 0 <= k < |[f] + rest| ensures c !in ([f] + rest)[k] {
          if k > 0 {
            assert ([f] + rest)[k] == rest[k - 1];
          }
        }
      }
    }
  }

  /** Filtering two lists one after the other. */
  lemma {:induction false} NonBlankStrippedAppend(a: seq<string>, b: seq<string>)
    ensures NonBlankStripped(a + b) == NonBlankStripped(a) + NonBlankStripped(b)
    decreases |a|
  {
    if a == [] {
      assert a + b == b;
    } else {
      assert (a + b)[1..] == a[1..] + b;
      assert (a + b)[0] == a[0];
      NonBlankStrippedAppend(a[1..], b);
    }
  }

  /** The conflicting files listed in the output of
      `git diff --name-only --diff-filter=U`: its lines, stripped, without the
      blank ones. */
  function ConflictingFiles(out: string): (files: seq<string>)
    ensures forall k :: 0 <= k < |files| ==> files[k] != "" && IsStripped(files[k]) && '\n' !in files[k]
    ensures files == [] <==> AllSpace(out)
  {
    var parts := Split(out, '\n');
    var files := NonBlankStripped(parts);
    JoinSplit(out, '\n');
    AllSpaceJoin(parts, '\n');
    NonBlankStrippedEmpty(parts);
    NonBlankStrippedWithout(parts, '\n');
    files
  }

  /** Listing the conflicting files one per line and reading the listing back
      gives the files themselves. */
  lemma ConflictingFilesOfListing(files: seq<string>)
    requires forall k :: 0 <= k < |files| ==> files[k] != "" && IsStripped(files[k]) && '\n' !in files[k]
    ensures ConflictingFiles(Terminated(files)) == files
  {
    var pieces := files + [""];
    TerminatedIsJoin(files);
    forall k | 0 <= k < |pieces| ensures '\n' !in pieces[k] {
      if k < |files| { assert pieces[k] == files[k]; }
    }
    SplitJoin(pieces, '\n');
    StrippedKeptBeforeBlank(files);
  }

  /** The empty piece after the last line break is filtered out. */
  lemma StrippedKeptBeforeBlank(files: seq<string>)
    requires forall k :: 0 <= k < |files| ==> files[k] != "" && IsStripped(files[k])
    ensures NonBlankStripped(files + [""]) == files
  {
    NonBlankStrippedAppend(files, [""]);
    assert NonBlankStripped([""]) == [] by {
      assert AllSpace("");
    }
    StrippedKept(files);
    assert files + [] == files;
  }

  /** Each file name followed by a line break is the join of the names and a
      final empty piece. */
  lemma {:induction false} TerminatedIsJoin(files: seq<string>)
    ensures Terminated(files) == Join(files + [""], '\n')
    decreases |files|
  {
    if files == [] {
      assert files + [""] == [""];
    } else {
      TerminatedIsJoin(files[1..]);
      assert (files + [""])[1..] == files[1..] + [""];
      assert (files + [""])[0] == files[0];
    }
  }

  /** Names that are already non-empty and stripped pass the filter
      unchanged. */
  lemma {:induction false} StrippedKept(files: seq<string>)
    requires forall k :: 0 <= k < |files| ==> files[k] != "" && IsStripped(files[k])
    ensures NonBlankStripped(files) == files
    decreases |files|
  {
    if files != [] {
      StrippedKept(files[1..]);
      StripOfPadded([], files[0], []);
      assert [] + files[0] + [] == files[0];
    }
  }

  /** What git returns to the conflict check. */
  datatype ConflictProbe = ConflictProbe(
    fetchOk: bool,                       // git fetch
    unmerged: Result<string>,            // git diff --name-only --diff-filter=U
    pullOk: bool)                        // git pull origin master

  datatype ConflictCheck = ConflictCheck(conflicts: bool, files: seq<string>, trace: seq<Effect>)

  /** Whether git lists conflicting files, the condition under which the
      check tries to pull them away. */
  predicate ConflictsListed(probe: ConflictProbe) {
    probe.fetchOk && probe.unmerged.Ok? && !AllSpace(probe.unmerged.value)
  }

  /** `check_for_merge_conflicts()`: fetches, lists the unmerged files and,
      when there are any, pulls master; it answers `(True, files)` only when
      that pull succeeds, and `(False, [])` when there are no conflicts or any
      of the git commands fails. */
  function CheckForMergeConflicts(probe: ConflictProbe): (check: ConflictCheck)
    ensures check.conflicts <==> ConflictsListed(probe) && probe.pullOk
    ensures check.conflicts ==> check.files == ConflictingFiles(probe.unmerged.value) && check.files != []
    ensures !check.conflicts ==> check.files == []
    ensures ConflictsListed(probe) ==> check.trace == [GitFetch, GitListUnmerged, GitPullMaster]
  {
    if !probe.fetchOk then ConflictCheck(false, [], [GitFetch])
    else
      match probe.unmerged
      case Err => ConflictCheck(false, [], [GitFetch, GitListUnmerged])
      case Ok(out) =>
        var files := ConflictingFiles(out);
        if files == [] then ConflictCheck(false, [], [GitFetch, GitListUnmerged])
        else if !probe.pullOk then ConflictCheck(false, [], [GitFetch, GitListUnmerged, GitPullMaster])
        else ConflictCheck(true, files, [GitFetch, GitListUnmerged, GitPullMaster])
  }

  /** The git commands of the check run in order, each only when the one
      before succeeded, and master is pulled exactly when conflicts are
      listed. */
  lemma ConflictCheckTrace(probe: ConflictProbe)
    ensures var t := CheckForMergeConflicts(probe).trace;
      && 1 <= |t| <= 3
      && t == [GitFetch, GitListUnmerged, GitPullMaster][..|t|]
      && (|t| >= 2 <==> probe.fetchOk)
      && (GitPullMaster in t <==> ConflictsListed(probe))
      && NoCommit(t)
  {
  }

  /** Everything one run of `main` reads: the environment, what git and the
      services return and what the user types. */
  datatype Environment = Environment(
    apiKey: Option<string>,              // OPENAI_API_KEY
    probe: ConflictProbe,
    stagedDiff: Result<string>,          // git diff --cached .
    completion: Result<seq<string>>,     // the choices' contents, or a raise
    selection: Option<int>,              // int(input(...)); None on ValueError
    confirmation: string,                // the second input()
    pr: PrInputs,
    report: ReportInputs)

  /** What the functions `main` calls return: the conflict check,
      `generate_commit_messages`, `generate_description()` and
      `impact_report()`. */
  datatype Calls = Calls(
    check: ConflictCheck,
    messages: Result<seq<string>>,
    desc: DescriptionRun,
    report: ReportRun)

  /** The calls of a run of `main` in `env`. */
  function CallsIn(env: Environment): Calls {
    Calls(CheckForMergeConflicts(env.probe), GenerateCommitMessages(env.completion),
          GenerateDescription(env.apiKey, env.pr), ImpactReport(env.apiKey, env.report))
  }

  /** How a run of `main` ends. */
  datatype Outcome =
    | ConflictStop                       // conflicts were pulled: stop
    | NoStagedChanges                    // empty staged diff
    | NoMessages                         // the service returned no choices
    | InvalidInput                       // the selection is not a number
    | InvalidChoice                      // the selection is out of range
    | NotUsed                            // the confirmation is not "y"
    | Completed(report: ReportStatus)    // impact_report() returned with this status
    | Exited(code: int)                  // SystemExit from the description
    | Crashed                            // an exception escaped main

  datatype Run = Run(outcome: Outcome, trace: seq<Effect>)

  /** How `main` ends once `impact_report()` ends: a raise escapes `main`,
      anything else returns normally. */
  function AfterReport(status: ReportStatus): (outcome: Outcome)
    ensures outcome.Crashed? <==> status.Raised?
    ensures outcome.Completed? ==> outcome.report == status
    ensures !status.Raised? ==> outcome == Completed(status)
  {
    if status.Raised? then Crashed else Completed(status)
  }

  /** `main()`. */
  function Main(env: Environment): (run: Run)
    ensures CheckForMergeConflicts(env.probe).trace <= run.trace
  {
    Workflow(env, CallsIn(env))
  }

  /** The control flow of `main()` over what its calls return: each call's
      effects appear in the run only where `main` makes that call. The
      conflict check comes first; unless it pulled master, the rest of the
      run follows. */
  function Workflow(env: Environment, calls: Calls): (run: Run)
    ensures calls.check.trace <= run.trace
  {
    if calls.check.conflicts then Run(ConflictStop, calls.check.trace)
    else
      var rest := FromDiff(env, calls);
      Run(rest.outcome, calls.check.trace + rest.trace)
  }

  /** `main` from `get_diff(diff_per_file=False)` on: a failing git command
      raises out of `main`, an empty staged diff stops the run, and otherwise
      the service is asked for messages in English. */
  function FromDiff(env: Environment, calls: Calls): (run: Run)
    ensures |run.trace| >= 1 && run.trace[0] == GitStagedDiff
    ensures env.stagedDiff.Err? ==> run.outcome.Crashed? && |run.trace| == 1
    ensures env.stagedDiff == Ok("") ==> run.outcome.NoStagedChanges? && |run.trace| == 1
    ensures env.stagedDiff.Ok? && env.stagedDiff.value != "" ==>
              |run.trace| >= 2 && run.trace[1] == CommitMessageRequest(env.stagedDiff.value, CommitLanguage)
  {
    match env.stagedDiff
    case Err => Run(Crashed, [GitStagedDiff])
    case Ok(diff) =>
      if diff == "" then Run(NoStagedChanges, [GitStagedDiff])
      else
        var rest := FromMessages(env, calls);
        Run(rest.outcome, [GitStagedDiff, CommitMessageRequest(diff, CommitLanguage)] + rest.trace)
  }

  /** `main` after the service call: a raise escapes `main`, no choices stop
      the run, and the choice is read as a 1-based number, checked against
      the list and confirmed before anything is committed. */
  function FromMessages(env: Environment, calls: Calls): (run: Run)
    ensures calls.messages.Err? ==> run.outcome.Crashed? && run.trace == []
    ensures run.outcome.NoMessages? <==> calls.messages.Ok? && calls.messages.value == []
    ensures run.outcome.InvalidInput? <==>
              calls.messages.Ok? && calls.messages.value != [] && env.selection.None?
  {
    match calls.messages
    case Err => Run(Crashed, [])
    case Ok(choices) =>
      if |choices| == 0 then Run(NoMessages, [])
      else
        match env.selection
        case None => Run(InvalidInput, [])
        case Some(number) =>
          var choice := number - 1;
          if choice < 0 || choice >= |choices| then Run(InvalidChoice, [])
          else if Lower(env.confirmation) != "y" then Run(NotUsed, [])
          else FromCommit(choices[choice], calls)
  }

  /** `main` from `git commit` on: the description is generated, and the
      impact report only when that returns; a failing commit goes
      unnoticed. */
  function FromCommit(message: string, calls: Calls): (run: Run)
    ensures |run.trace| >= 1 && run.trace[0] == GitCommit(message)
  {
    var committed := [GitCommit(message)] + calls.desc.trace;
    match calls.desc.end
    case Exit(code) => Run(Exited(code), committed)
    case Raise => Run(Crashed, committed)
    case Returned => Run(AfterReport(calls.report.status), committed + calls.report.trace)
  }

  /** The user has picked one of the returned messages by its 1-based number
      and confirmed it with "y" or "Y". `Confirmed`, `Reached` and `Picked`
      speak of any `Calls`, so that the lemmas about `Workflow` stay small;
      `CommitReached` and `SelectedMessage` below say the same of the calls
      `main` makes in an environment, for the lemmas about `Main`. */
  predicate Confirmed(env: Environment, messages: Result<seq<string>>) {
    && messages.Ok? && |messages.value| > 0
    && env.selection.Some? && 1 <= env.selection.value <= |messages.value|
    && (env.confirmation == "y" || env.confirmation == "Y")
  }

  /** The run reaches `git commit`: no conflicts were pulled, the staged diff
      is not empty and the user confirmed a message. */
  predicate Reached(env: Environment, calls: Calls) {
    && !calls.check.conflicts
    && env.stagedDiff.Ok? && env.stagedDiff.value != ""
    && Confirmed(env, calls.messages)
  }

  /** The message the user picked. */
  function Picked(env: Environment, messages: Result<seq<string>>): string
    requires Confirmed(env, messages)
  {
    messages.value[env.selection.value - 1]
  }

  /** `main` commits at most once, exactly when the commit is reached, and
      with the message the user picked, provided the calls it makes commit
      nothing themselves. */
  lemma {:induction false} WorkflowCommits(env: Environment, calls: Calls)
    requires NoCommit(calls.check.trace) && NoCommit(calls.desc.trace) && NoCommit(calls.report.trace)
    ensures Commits(Workflow(env, calls).trace) ==
              if Reached(env, calls) then [Picked(env, calls.messages)] else []
  {
    var check := calls.check;
    NoCommitCommits(check.trace);
    if !check.conflicts {
      var rest := FromDiff(env, calls);
      CommitsAppend(check.trace, rest.trace);
      if env.stagedDiff.Ok? && env.stagedDiff.value != "" {
        var head := [GitStagedDiff, CommitMessageRequest(env.stagedDiff.value, CommitLanguage)];
        NoCommitCommits(head);
        CommitsAppend(head, FromMessages(env, calls).trace);
        FromMessagesCommits(env, calls);
      } else {
        NoCommitCommits(rest.trace);
      }
    }
  }

  /** After the service call, the only commit is that of the confirmed
      message. */
  lemma FromMessagesCommits(env: Environment, calls: Calls)
    requires NoCommit(calls.desc.trace) && NoCommit(calls.report.trace)
    ensures Commits(FromMessages(env, calls).trace) ==
              if Confirmed(env, calls.messages) then [Picked(env, calls.messages)] else []
  {
    LowerIsY(env.confirmation);
    if Confirmed(env, calls.messages) {
      FromCommitCommits(Picked(env, calls.messages), calls);
    } else {
      assert FromMessages(env, calls).trace == [];
    }
  }

  /** What follows the commit commits nothing further. */
  lemma FromCommitCommits(message: string, calls: Calls)
    requires NoCommit(calls.desc.trace) && NoCommit(calls.report.trace)
    ensures Commits(FromCommit(message, calls).trace) == [message]
  {
    NoCommitCommits(calls.desc.trace);
    CommitsAppend([GitCommit(message)], calls.desc.trace);
    assert Commits([GitCommit(message)]) == [message] by {
      assert [GitCommit(message)][..0] == [];
    }
    if calls.desc.end.Returned? {
      NoCommitCommits(calls.report.trace);
      CommitsAppend([GitCommit(message)] + calls.desc.trace, calls.report.trace);
    }
  }

  /** Once the commit is reached, the run is the conflict check, the diff,
      the request for messages and the commit of the picked message; then
      the description and, only when the description returned normally, the
      impact report. An exit or a raise out of the description ends the
      run. */
  lemma WorkflowAfterCommit(env: Environment, calls: Calls)
    requires Reached(env, calls)
    ensures var committed := calls.check.trace +
              [GitStagedDiff, CommitMessageRequest(env.stagedDiff.value, CommitLanguage),
               GitCommit(Picked(env, calls.messages))] + calls.desc.trace;
      var run := Workflow(env, calls);
      && (calls.desc.end.Returned? ==>
            run.outcome == AfterReport(calls.report.status) && run.trace == committed + calls.report.trace)
      && (calls.desc.end.Exit? ==> run.outcome == Exited(calls.desc.end.code) && run.trace == committed)
      && (calls.desc.end.Raise? ==> run.outcome.Crashed? && run.trace == committed)
  {
    LowerIsY(env.confirmation);
    var t := calls.check.trace;
    var head := [GitStagedDiff, CommitMessageRequest(env.stagedDiff.value, CommitLanguage)];
    var c := [GitCommit(Picked(env, calls.messages))];
    var tail := FromCommit(Picked(env, calls.messages), calls);
    assert FromMessages(env, calls) == tail;
    assert Workflow(env, calls).trace == t + (head + tail.trace);
    var d := calls.desc.trace;
    if calls.desc.end.Returned? {
      var r := calls.report.trace;
      assert tail.trace == c + d + r;
      assert t + (head + (c + d + r)) == t + (head + c) + d + r;
    } else {
      assert tail.trace == c + d;
      assert t + (head + (c + d)) == t + (head + c) + d;
    }
  }

  /** When the conflict check pulled master, `main` stops before it reads
      the staged diff, so nothing is committed. */
  lemma ConflictStopsRun(env: Environment)
    requires CheckForMergeConflicts(env.probe).conflicts
    ensures Main(env).outcome.ConflictStop?
    ensures Main(env).trace == [GitFetch, GitListUnmerged, GitPullMaster]
  {
  }

  /** When the conflict check finds nothing, or any of its git commands
      fails (a failing pull included), the run goes on to the staged diff. */
  lemma NoConflictProceeds(env: Environment)
    requires !CheckForMergeConflicts(env.probe).conflicts
    ensures var t := CheckForMergeConflicts(env.probe).trace;
      && |Main(env).trace| > |t|
      && Main(env).trace[|t|] == GitStagedDiff
  {
    var calls := CallsIn(env);
    var t := calls.check.trace;
    var rest := FromDiff(env, calls);
    assert (t + rest.trace)[|t|] == rest.trace[0];
  }

  /** A failed pull after conflicts were listed is reported as "no
      conflicts": the run reads the staged diff right after the pull. */
  lemma FailedPullProceeds(env: Environment)
    requires ConflictsListed(env.probe) && !env.probe.pullOk
    ensures |Main(env).trace| >= 4
    ensures Main(env).trace[..4] == [GitFetch, GitListUnmerged, GitPullMaster, GitStagedDiff]
  {
    NoConflictProceeds(env);
  }

  /** An empty staged diff ends the run before the service is asked for
      messages, so nothing is committed. */
  lemma EmptyDiffStops(env: Environment)
    requires !CheckForMergeConflicts(env.probe).conflicts && env.stagedDiff == Ok("")
    ensures Main(env).outcome.NoStagedChanges?
    ensures Main(env).trace == CheckForMergeConflicts(env.probe).trace + [GitStagedDiff]
    ensures forall e :: e in Main(env).trace ==> !e.RequestCommitMessages? && !e.GitCommit?
  {
    ConflictCheckTrace(env.probe);
  }

  /** The service is asked once the diff is read, with the staged diff, in
      English and for the default five messages. */
  lemma MessagesRequested(env: Environment)
    requires !CheckForMergeConflicts(env.probe).conflicts
    requires env.stagedDiff.Ok? && env.stagedDiff.value != ""
    ensures var n := |CheckForMergeConflicts(env.probe).trace|;
      && |Main(env).trace| >= n + 2
      && Main(env).trace[n + 1] == RequestCommitMessages(env.stagedDiff.value, "en", 5)
  {
    var calls := CallsIn(env);
    var t := calls.check.trace;
    var rest := FromDiff(env, calls);
    assert (t + rest.trace)[|t| + 1] == rest.trace[1];
  }

  /** The run reaches `git commit`: no conflicts were pulled, the staged diff
      is not empty, the service returned choices, and the user picked one by
      its 1-based number and confirmed it with "y" or "Y". */
  predicate CommitReached(env: Environment) {
    && !CheckForMergeConflicts(env.probe).conflicts
    && env.stagedDiff.Ok? && env.stagedDiff.value != ""
    && env.completion.Ok? && |env.completion.value| > 0
    && env.selection.Some? && 1 <= env.selection.value <= |env.completion.value|
    && (env.confirmation == "y" || env.confirmation == "Y")
  }

  /** The message the user picked, cleaned as `generate_commit_messages`
      returns it. */
  function SelectedMessage(env: Environment): (m: string)
    requires CommitReached(env)
    ensures '\n' !in m && IsStripped(m)
  {
    CleanMessage(env.completion.value[env.selection.value - 1])
  }

  /** `main` commits at most once, exactly when the commit is reached, and
      with the message the user picked. */
  lemma CommitsExactlyOnce(env: Environment)
    ensures Commits(Main(env).trace) == if CommitReached(env) then [SelectedMessage(env)] else []
  {
    var calls := CallsIn(env);
    ConflictCheckTrace(env.probe);
    DescriptionNoCommit(env.apiKey, env.pr);
    WorkflowCommits(env, calls);
    assert Reached(env, calls) <==> CommitReached(env);
  }

  /** A run that does not reach the commit ends right after the conflict
      check, the staged diff or the request for messages: nothing is
      committed and no description or report is generated. */
  lemma NotReachedStopsEarly(env: Environment)
    requires !CommitReached(env)
    ensures var t := CheckForMergeConflicts(env.probe).trace;
      || Main(env).trace == t
      || Main(env).trace == t + [GitStagedDiff]
      || (env.stagedDiff.Ok? &&
          Main(env).trace == t + [GitStagedDiff, CommitMessageRequest(env.stagedDiff.value, CommitLanguage)])
  {
    var calls := CallsIn(env);
    LowerIsY(env.confirmation);
    assert !Reached(env, calls);
    if !calls.check.conflicts && env.stagedDiff.Ok? && env.stagedDiff.value != "" {
      assert FromMessages(env, calls).trace == [];
      var head := [GitStagedDiff, CommitMessageRequest(env.stagedDiff.value, CommitLanguage)];
      assert FromDiff(env, calls).trace == head + [];
    }
  }

  /** Once the commit is reached, the description follows the commit of the
      selected message, and the impact report follows the description only
      when it returned. This is `WorkflowAfterCommit` for the calls `main`
      makes in `env`. */
  lemma AfterCommit(env: Environment)
    requires CommitReached(env)
    ensures var desc := GenerateDescription(env.apiKey, env.pr);
      var report := ImpactReport(env.apiKey, env.report);
      var committed := CheckForMergeConflicts(env.probe).trace +
        [GitStagedDiff, CommitMessageRequest(env.stagedDiff.value, CommitLanguage), GitCommit(SelectedMessage(env))] +
        desc.trace;
      && (desc.end.Returned? ==> Main(env) == Run(AfterReport(report.status), committed + report.trace))
      && (!desc.end.Returned? ==> Main(env).trace == committed)
  {
    var calls := CallsIn(env);
    assert Reached(env, calls);
    WorkflowAfterCommit(env, calls);
  }

  /** A run that reaches the commit, gets a description and an impact report
      that does not raise completes with the report's status. */
  lemma ReportedRunCompletes(env: Environment)
    requires CommitReached(env)
    requires GenerateDescription(env.apiKey, env.pr).end.Returned?
    requires !ImpactReport(env.apiKey, env.report).status.Raised?
    ensures Main(env).outcome == Completed(ImpactReport(env.apiKey, env.report).status)
  {
    AfterCommit(env);
  }

  /** Without an API key the description exits with status 1, so `main`
      never reaches the impact report and its own missing-key return. */
  lemma MissingKeyExitsBeforeReport(env: Environment)
    requires CommitReached(env) && KeyMissing(env.apiKey)
    ensures Main(env).outcome == Exited(1)
    ensures Main(env).trace == CheckForMergeConflicts(env.probe).trace +
      [GitStagedDiff, CommitMessageRequest(env.stagedDiff.value, CommitLanguage), GitCommit(SelectedMessage(env))]
  {
    var calls := CallsIn(env);
    assert Reached(env, calls);
    WorkflowAfterCommit(env, calls);
  }

  /** A run only completes through `impact_report()`, which `main` calls
      only after the description returned. */
  lemma WorkflowCompleted(env: Environment, calls: Calls)
    requires Workflow(env, calls).outcome.Completed?
    ensures calls.desc.end.Returned?
    ensures Workflow(env, calls).outcome.report == calls.report.status
    ensures !calls.report.status.Raised?
  {
    var rest := FromDiff(env, calls);
    assert rest.outcome == Workflow(env, calls).outcome;
    var next := FromMessages(env, calls);
    assert next.outcome == rest.outcome;
    var number := env.selection.value;
    var choices := calls.messages.value;
    assert next == FromCommit(choices[number - 1], calls);
  }

  /** The impact report's missing-key branch is dead code under `main`. */
  lemma ReportMissingKeyUnreachable(env: Environment)
    ensures Main(env).outcome != Completed(MissingKey)
  {
    var calls := CallsIn(env);
    if Main(env).outcome.Completed? {
      WorkflowCompleted(env, calls);
    }
  }

  /** An empty branch diff makes the description exit with status 0 after
      the commit, so no description file and no impact report are written. */
  lemma EmptyBranchDiffExits(env: Environment)
    requires CommitReached(env) && !KeyMissing(env.apiKey)
    requires BranchDiff(env.pr.branchDiff) == ""
    ensures Main(env).outcome == Exited(0)
    ensures Main(env).trace == CheckForMergeConflicts(env.probe).trace +
      [GitStagedDiff, CommitMessageRequest(env.stagedDiff.value, CommitLanguage), GitCommit(SelectedMessage(env)),
       GitBranchDiff]
  {
    var calls := CallsIn(env);
    assert Reached(env, calls);
    WorkflowAfterCommit(env, calls);
  }
}
