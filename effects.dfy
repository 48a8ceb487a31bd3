/** What the commit tool exchanges with the outside world: the results that
    git, the chat-completion service and the environment hand back, and the
    effects (external calls, file writes) that a run performs, in order. */
module Effects {
  import opened PyStr
  import opened Wrappers

  /** An HTTP reply of the chat-completion endpoint; `content` is
      `choices[0].message.content` of its JSON body. */
  datatype HttpResponse = HttpResponse(status: int, content: string)

  /** One row of the report spreadsheet. */
  type Row = seq<string>

  datatype Effect =
    | GitFetch                                   // git fetch
    | GitListUnmerged                            // git diff --name-only --diff-filter=U
    | GitPullMaster                              // git pull origin master
    | GitStagedDiff                              // git diff --cached .
    | RequestCommitMessages(diff: string, language: string, count: int)
    | GitCommit(message: string)                 // git commit -m <message>
    | GitBranchDiff                              // git diff origin/master...HEAD --name-status
    | RequestPrDescription(diff: string)
    | WritePrDescription(text: string)           // .github/PR_description.md
    | GitCommitDiff                              // git diff master..HEAD
    | RequestImpactReport(diff: string)
    | WriteImpactReport(text: string)            // .github/IMPACT_REPORT.md
    | GitUserName                                // git config user.name
    | GitLastMessage                             // git log -1 --pretty=%B
    | SaveReportSheet(rows: seq<Row>)            // .github/PR_Report.csv

  /** No commit is among the effects of `trace`. */
  predicate NoCommit(trace: seq<Effect>) {
    forall i :: 0 <= i < |trace| ==> !trace[i].GitCommit?
  }

  /** The messages of the commits among the effects of `trace`, in order. */
  function Commits(trace: seq<Effect>): seq<string>
    decreases |trace|
  {
    if trace == [] then []
    else
      var last := trace[|trace| - 1];
      Commits(trace[..|trace| - 1]) + (if last.GitCommit? then [last.message] else [])
  }

  /** The commits of two traces run one after the other. */
  lemma {:induction false} CommitsAppend(a: seq<Effect>, b: seq<Effect>)
    ensures Commits(a + b) == Commits(a) + Commits(b)
    decreases |b|
  {
    if b == [] {
      assert a + b == a;
    } else {
      var init := b[..|b| - 1];
      assert (a + b)[..|a + b| - 1] == a + init;
      assert (a + b)[|a + b| - 1] == b[|b| - 1];
      CommitsAppend(a, init);
    }
  }

  /** A trace without a commit effect commits nothing. */
  lemma {:induction false} NoCommitCommits(trace: seq<Effect>)
    requires NoCommit(trace)
    ensures Commits(trace) == []
    decreases |trace|
  {
    if trace != [] {
      var init := trace[..|trace| - 1];
      assert forall i :: 0 <= i < |init| ==> init[i] == trace[i];
      NoCommitCommits(init);
    }
  }

  /** `not OPENAI_API_KEY`: the variable is unset or empty. */
  predicate KeyMissing(key: Option<string>) {
    key.None? || key.value == ""
  }

  /** A git helper that returns the stripped output of its command, or
      `fallback` when the command exits non-zero. */
  function StrippedOutput(out: Result<string>, fallback: string): (r: string)
    ensures out.Err? ==> r == fallback
    ensures out.Ok? ==> IsStripped(r) && |r| <= |out.value|
    ensures out.Ok? ==> (r == "" <==> AllSpace(out.value))
    ensures out.Ok? ==> r == Strip(out.value)
  {
    match out
    case Ok(text) => Strip(text)
    case Err => fallback
  }

  /** The text a chat-completion reply yields: the stripped message content of
      a 200 reply, and "" for any other status. */
  function CompletionText(resp: HttpResponse): (r: string)
    ensures resp.status != 200 ==> r == ""
    ensures IsStripped(r) && |r| <= |resp.content|
    ensures resp.status == 200 && !AllSpace(resp.content) ==> r != ""
    ensures resp.status == 200 ==> r == Strip(resp.content)
  {
    if resp.status == 200 then Strip(resp.content) else ""
  }
}
