/** The pull-request description written after a commit
    (aicommit/src/pr_description_gen.py). */
module PrDescription {
  import opened PyStr
  import opened Wrappers
  import opened Effects

  /** What the collaborators of one `generate_description` call return. */
  datatype PrInputs = PrInputs(
    branchDiff: Result<string>,          // git diff origin/master...HEAD --name-status
    reply: Result<HttpResponse>)         // the completion request

  /** How a call ends: it returns, it calls `exit(code)` (which raises
      `SystemExit` out of every caller), or an exception escapes it. */
  datatype Termination = Returned | Exit(code: int) | Raise

  datatype DescriptionRun = DescriptionRun(end: Termination, trace: seq<Effect>)

  /** `get_branch_diff_against_master`: the stripped diff, or "" when git
      fails. */
  function BranchDiff(out: Result<string>): (diff: string)
    ensures out.Err? ==> diff == ""
    ensures out.Ok? ==> (diff == "" <==> AllSpace(out.value))
    ensures IsStripped(diff)
    ensures out.Ok? ==> diff == Strip(out.value)
  {
    StrippedOutput(out, "")
  }

  /** `generate_pr_description` given the service's reply: the stripped
      content of a 200 reply, "" for any other status; a request that raises
      raises out of the call. */
  function GeneratePrDescription(reply: Result<HttpResponse>): (r: Result<string>)
    ensures r.Err? <==> reply.Err?
    ensures r.Ok? && reply.value.status != 200 ==> r.value == ""
    ensures r.Ok? && reply.value.status == 200 ==>
              (r.value == "" <==> AllSpace(reply.value.content))
    ensures r.Ok? && reply.value.status == 200 ==> r.value == Strip(reply.value.content)
  {
    match reply
    case Err => Err
    case Ok(resp) => Ok(CompletionText(resp))
  }

  /** `generate_description()` under the API key `apiKey`: without a key it
      exits with 1 before doing anything, with an empty branch diff it exits
      with 0, and otherwise it writes whatever description came back, even
      an empty one. */
  function GenerateDescription(apiKey: Option<string>, inputs: PrInputs): (run: DescriptionRun)
    ensures KeyMissing(apiKey) ==> run.end.Exit? && run.end.code == 1 && run.trace == []
    ensures !KeyMissing(apiKey) && BranchDiff(inputs.branchDiff) == "" ==>
              run.end.Exit? && run.end.code == 0 && run.trace == [GitBranchDiff]
    ensures !KeyMissing(apiKey) && BranchDiff(inputs.branchDiff) != "" ==>
              |run.trace| >= 2 && run.trace[0] == GitBranchDiff && run.trace[1] == RequestPrDescription(BranchDiff(inputs.branchDiff))
    ensures run.end.Raise? <==>
              !KeyMissing(apiKey) && BranchDiff(inputs.branchDiff) != "" && inputs.reply.Err?
    ensures run.end.Returned? <==>
              !KeyMissing(apiKey) && BranchDiff(inputs.branchDiff) != "" && inputs.reply.Ok?
    ensures run.end.Returned? ==>
              |run.trace| == 3 && run.trace[2] == WritePrDescription(GeneratePrDescription(inputs.reply).value)
    ensures !run.end.Returned? ==> |run.trace| <= 2
  {
    if KeyMissing(apiKey) then DescriptionRun(Exit(1), [])
    else
      var diff := BranchDiff(inputs.branchDiff);
      if diff == "" then DescriptionRun(Exit(0), [GitBranchDiff])
      else
        var asked := [GitBranchDiff, RequestPrDescription(diff)];
        match GeneratePrDescription(inputs.reply)
        case Err => DescriptionRun(Raise, asked)
        case Ok(description) => DescriptionRun(Returned, asked + [WritePrDescription(description)])
  }

  /** `generate_description()` never commits. */
  lemma DescriptionNoCommit(apiKey: Option<string>, inputs: PrInputs)
    ensures NoCommit(GenerateDescription(apiKey, inputs).trace)
  {
  }

  /** A description is only written after a non-empty branch diff was sent
      to the service, and it is exactly what the service's reply yields. */
  lemma {:induction false} DescriptionWrittenOnlyAfterRequest(apiKey: Option<string>, inputs: PrInputs, i: int)
    requires 0 <= i < |GenerateDescription(apiKey, inputs).trace|
    requires GenerateDescription(apiKey, inputs).trace[i].WritePrDescription?
    ensures i == 2 && inputs.reply.Ok?
    ensures GenerateDescription(apiKey, inputs).trace[1] == RequestPrDescription(BranchDiff(inputs.branchDiff))
    ensures BranchDiff(inputs.branchDiff) != "" && !KeyMissing(apiKey)
    ensures GenerateDescription(apiKey, inputs).trace[i].text == CompletionText(inputs.reply.value)
  {
    var run := GenerateDescription(apiKey, inputs);
    assert run.end.Returned?;
  }
}
