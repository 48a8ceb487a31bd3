/** The change-impact report written after a commit
    (aicommit/src/commit_impact_report.py). */
module CommitImpactReport {
  import opened PyStr
  import opened Wrappers
  import opened Effects

  /** The first row of a newly created report sheet. */
  const Header: Row := ["Date", "GitHub Username", "Commit Message", "Impacted Modules Summary"]

  /** Longest report kept whole in the sheet's summary column. */
  const SummaryLimit := 1000

  /** The active sheet of a workbook, as the list of its rows. */
  class Workbook {
    var rows: seq<Row>

    /** `Workbook()`: a new workbook whose sheet is empty. */
    constructor ()
      ensures rows == []
    {
      rows := [];
    }

    /** `load_workbook(path)`: the sheet as it was saved. */
    constructor Load(saved: seq<Row>)
      ensures rows == saved
    {
      rows := saved;
    }

    /** `sheet.append(row)`. */
    method Append(row: Row)
      modifies this
      ensures rows == old(rows) + [row]
    {
      rows := rows + [row];
    }
  }

  /** The sheet saved by one append: a missing sheet starts with the header
      row, an existing one keeps all its rows, and the new row goes last. */
  function AppendedRows(existing: Option<seq<Row>>, row: Row): (rows: seq<Row>)
    ensures existing.None? ==> rows == [Header, row]
    ensures existing.Some? ==> |rows| == |existing.value| + 1 && rows[..|existing.value|] == existing.value
    ensures rows[|rows| - 1] == row
  {
    match existing
    case None => [Header, row]
    case Some(saved) =>
      assert (saved + [row])[..|saved|] == saved;
      saved + [row]
  }

  /** `append_to_excel_onedrive` in its local-file form: loads the sheet when
      the file exists (otherwise starts one with the header row), appends
      `(date, username, commit_message, summary)` and returns what is saved. */
  method AppendToExcel(existing: Option<seq<Row>>, date: string, username: string,
                       commitMessage: string, summary: string)
    returns (saved: seq<Row>)
    ensures saved == AppendedRows(existing, [date, username, commitMessage, summary])
  {
    var workbook: Workbook;
    if existing.Some? {
      workbook := new Workbook.Load(existing.value);
    } else {
      workbook := new Workbook();
      workbook.Append(Header);
    }
    workbook.Append([date, username, commitMessage, summary]);
    saved := workbook.rows;
  }

  /** The report as it goes into the sheet: the first 1000 characters and
      "..." when it is longer than that, otherwise the report itself. */
  function Summary(report: string): (s: string)
    ensures |s| <= SummaryLimit + 3
    ensures |report| <= SummaryLimit ==> s == report
    ensures |report| > SummaryLimit ==> |s| == SummaryLimit + 3 && s[SummaryLimit..] == "..."
    ensures |report| > SummaryLimit ==> s[..SummaryLimit] == report[..SummaryLimit]
  {
    if |report| > SummaryLimit then report[..SummaryLimit] + "..." else report
  }

  /** Summarising a summary changes nothing. */
  lemma SummaryIdempotent(report: string)
    ensures Summary(Summary(report)) == Summary(report)
  {
    if |report| > SummaryLimit {
      var s := Summary(report);
      assert s[..SummaryLimit] + "..." == s;
    }
  }

  /** What the collaborators of one `impact_report` call return. */
  datatype ReportInputs = ReportInputs(
    commitDiff: Result<string>,          // git diff master..HEAD --no-color
    reply: Result<HttpResponse>,         // the completion request
    date: string,                        // datetime.now() formatted
    userName: Result<string>,            // git config user.name
    lastMessage: Result<string>,         // git log -1 --pretty=%B
    sheet: Option<seq<Row>>)             // .github/PR_Report.csv, if it exists

  datatype ReportStatus =
    | MissingKey                         // no API key: returned at once
    | NoChanges                          // empty diff: returned
    | NoReport                           // "" from the service: failure printed
    | Appended(row: Row)                 // report written and row appended
    | Raised                             // the request raised out of the call

  datatype ReportRun = ReportRun(status: ReportStatus, trace: seq<Effect>)

  /** `impact_report()` under the API key `apiKey`. */
  function ImpactReport(apiKey: Option<string>, inputs: ReportInputs): (run: ReportRun)
    ensures run.status.MissingKey? <==> KeyMissing(apiKey)
    ensures run.status.MissingKey? ==> run.trace == []
    ensures run.status.NoChanges? <==>
              !KeyMissing(apiKey) && StrippedOutput(inputs.commitDiff, "") == ""
    ensures run.status.NoChanges? ==> run.trace == [GitCommitDiff]
    ensures !KeyMissing(apiKey) && inputs.commitDiff.Err? ==> run.status.NoChanges?
    ensures !KeyMissing(apiKey) && StrippedOutput(inputs.commitDiff, "") != "" ==>
              run == ReportFromReply(inputs, StrippedOutput(inputs.commitDiff, ""))
    ensures !run.status.Appended? ==>
              forall e :: e in run.trace ==> !e.WriteImpactReport? && !e.SaveReportSheet?
    ensures NoCommit(run.trace)
  {
    if KeyMissing(apiKey) then ReportRun(MissingKey, [])
    else
      var diff := StrippedOutput(inputs.commitDiff, "");
      if diff == "" then ReportRun(NoChanges, [GitCommitDiff])
      else ReportFromReply(inputs, diff)
  }

  /** The part of `impact_report()` from the request for the report on: the
      report is written and one row appended only for a 200 reply with a
      non-blank content; a failing request raises out of the call. */
  function ReportFromReply(inputs: ReportInputs, diff: string): (run: ReportRun)
    ensures |run.trace| >= 2 && run.trace[0] == GitCommitDiff && run.trace[1] == RequestImpactReport(diff)
    ensures run.status.Raised? <==> inputs.reply.Err?
    ensures run.status.Appended? <==>
              inputs.reply.Ok? && inputs.reply.value.status == 200 && !AllSpace(inputs.reply.value.content)
    ensures !run.status.Appended? ==> |run.trace| == 2
    ensures NoCommit(run.trace)
  {
    var asked := [GitCommitDiff, RequestImpactReport(diff)];
    match inputs.reply
    case Err => ReportRun(Raised, asked)
    case Ok(resp) =>
      var report := CompletionText(resp);
      if report == "" then ReportRun(NoReport, asked)
      else
        var row := ReportRow(inputs, report);
        ReportRun(Appended(row), asked + ReportWritten(report, AppendedRows(inputs.sheet, row)))
  }

  /** The row appended for `report`: the date, the git user name and the last
      commit message (each "N/A" when its command fails) and the summary. */
  function ReportRow(inputs: ReportInputs, report: string): (row: Row)
    ensures |row| == 4 && row[0] == inputs.date && row[3] == Summary(report)
    ensures row[1] == StrippedOutput(inputs.userName, "N/A")
    ensures row[2] == StrippedOutput(inputs.lastMessage, "N/A")
  {
    [inputs.date, StrippedOutput(inputs.userName, "N/A"),
     StrippedOutput(inputs.lastMessage, "N/A"), Summary(report)]
  }

  /** What follows a non-empty report: the report file is written, the user
      name and last commit message are read and the sheet is saved. */
  function ReportWritten(report: string, saved: seq<Row>): (t: seq<Effect>)
    ensures |t| == 4 && NoCommit(t)
  {
    [WriteImpactReport(report), GitUserName, GitLastMessage, SaveReportSheet(saved)]
  }

  /** A report that is written is followed by exactly one appended row
      `(date, username, commit message, summary)`, the username and commit
      message falling back to "N/A" when their git command fails. */
  lemma ReportAppendsOneRow(inputs: ReportInputs, diff: string)
    requires inputs.reply.Ok? && inputs.reply.value.status == 200
    requires !AllSpace(inputs.reply.value.content)
    ensures var run := ReportFromReply(inputs, diff);
      && run.status.Appended?
      && run.status.row == ReportRow(inputs, CompletionText(inputs.reply.value))
      && |run.status.row[3]| <= SummaryLimit + 3
      && |run.trace| == 6
      && run.trace[2] == WriteImpactReport(CompletionText(inputs.reply.value))
      && run.status.row[3] == Summary(run.trace[2].text)
      && run.trace[3..5] == [GitUserName, GitLastMessage]
      && run.trace[5] == SaveReportSheet(AppendedRows(inputs.sheet, run.status.row))
  {
  }
}
