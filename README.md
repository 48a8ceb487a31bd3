# ai-git-commit-tool, modelled in Dafny

The `aicommit` command proposes commit messages for the staged changes. The
developer picks one by number and confirms it, and the tool commits it. After
the commit it writes a pull-request description and a change-impact report,
and appends one row per report to a spreadsheet. Before all of this, a
merge-conflict guard fetches from the remote and lists the unmerged files. If
there are any, it pulls `master`. The repository also holds two small
algorithms: binary search and Pascal's triangle.

The project models these parts:

- `wrappers.dfy`: `Option` and `Result`. `Err` stands for a git command that
  exits non-zero (`CalledProcessError`) or a call that raises.
- `pystr.dfy`: the Python string operations the tool relies on:
  - `strip()` and its whitespace set
  - `split("\n")`, specified through `Join`, the join that undoes it
  - `replace("\n", "")`
  - `lower()`
- `effects.dfy`: the effects of a run, such as git commands, service requests,
  file writes and the saved sheet. Each run yields an ordered trace of these
  effects. The file also holds the fallback conventions of the git helpers.
- `utils.dfy`: `generate_commit_messages` after its service call, and
  `get_diff`. Per-file mode accumulates the diffs in a loop.
- `commit_impact_report.dfy`: `impact_report`, summary truncation and the
  "N/A"/"" fallbacks. It also models `append_to_excel_onedrive` as a
  `Workbook` object whose active sheet is a list of rows that `Append`
  extends in place.
- `pr_description.dfy`: `generate_description` and its two helpers. The two
  `exit` calls are modelled as terminations that end the caller too.
- `aicommit.dfy`: `check_for_merge_conflicts` and `main`. Each is a function
  from what git, the services and the user return to an outcome and an effect
  trace.
- `binary_search.dfy` and `pascal.dfy`: the two algorithms, as loops. Pascal
  rows are arrays filled in place, starting from `None`.

Three behaviours of the code are easy to misread. The model follows the
code in each:

- When conflicts are listed and `git pull origin master` succeeds,
  `check_for_merge_conflicts` answers `(True, files)`. At
  aicommit/src/aicommit.py:44 it prints "Merge conflicts resolved.
  Proceeding with commit generation.". Even so, `main` treats `True` as
  "conflicts still exist after auto-resolving" (the comment at line 64) and
  stops at line 66 (`ConflictStopsRun`).
- When the pull fails after conflicts were listed, the `CalledProcessError`
  is caught at lines 50-53 and the answer is `(False, [])`. The comment
  there says "assume no conflicts". The run then goes on to the staged diff
  (`FailedPullProceeds`), with the conflicts still in place.
- `git commit` at line 113 runs without `check=True`. Line 114 prints
  "Changes committed!" whatever the exit status, and the description and
  report follow either way (`AfterCommit`).

## Model

| member | source | states |
|---|---|---|
| PyStr.Strip | aicommit/src/utils.py:32 | `strip()` leaves no whitespace at either end, returns "" exactly when the input is all whitespace, and never grows the text |
| PyStr.StripShape | aicommit/src/utils.py:32 | `strip()` cuts its input into a whitespace prefix, the result and a whitespace suffix; with StripOfPadded this determines the result on every input |
| PyStr.StripWithout | aicommit/src/aicommit.py:33 | `strip()` only removes characters: one absent from the input is absent from the result |
| PyStr.StripOfPadded | aicommit/src/aicommit.py:33 | a stripped text padded with whitespace on either side strips back to itself |
| PyStr.StripIdempotent | aicommit/src/utils.py:32 | stripping twice is stripping once |
| PyStr.JoinSplit | aicommit/src/aicommit.py:33 | joining the pieces of `split(sep)` with `sep` gives back the text |
| PyStr.SplitJoin | aicommit/src/aicommit.py:33 | splitting the join of pieces that do not contain `sep` gives back the pieces |
| PyStr.Split | aicommit/src/aicommit.py:33 | `split(sep)` gives at least one piece, and no piece holds `sep` |
| PyStr.Join | aicommit/src/utils.py:47 | the reference inverse of `split(sep)` used to specify the splits: the join starts with the first piece, followed by `sep` when there is a second piece |
| PyStr.RemoveAll | aicommit/src/utils.py:32 | `replace(c, "")` never grows the text |
| PyStr.RemoveAllWithout | aicommit/src/utils.py:32 | no `c` is left, and a text without `c` is returned unchanged |
| PyStr.RemoveAllEnds | aicommit/src/utils.py:32 | a first or last character other than `c` stays first or last |
| PyStr.RemoveAllAppend | aicommit/src/utils.py:32 | removing from two texts one after the other is removing from each and concatenating |
| PyStr.RemoveAllOne | aicommit/src/utils.py:32 | a single character is dropped when it is `c` and kept otherwise, so with RemoveAllAppend every other character survives in order |
| PyStr.Lower | aicommit/src/aicommit.py:110 | the model's A-Z lower-casing keeps the length of the text |
| PyStr.LowerPointwise | aicommit/src/aicommit.py:110 | the model's lower-casing maps every character on its own, A-Z to a-z and every other character to itself |
| PyStr.LowerIsY | aicommit/src/aicommit.py:110-111 | the replies that lower-case to "y" are exactly "y" and "Y" |
| Effects.CommitsAppend | aicommit/src/aicommit.py:113 | the commits of two traces run one after the other are the commits of the first, then those of the second |
| Effects.NoCommitCommits | aicommit/src/aicommit.py:113 | a trace without a commit effect commits no message |
| Effects.StrippedOutput | aicommit/src/commit_impact_report.py:93-99 | a git helper returns exactly `Strip` of the command's output (so "" exactly when the output is blank), or the fallback when the command fails |
| Effects.CompletionText | aicommit/src/commit_impact_report.py:124-129 | a non-200 reply gives ""; a 200 reply gives exactly `Strip` of its content, which is non-empty when the content is not blank |
| Utils.CommitMessageRequestDefaults | aicommit/src/utils.py:5-29 | called with the diff and the language only, as `main` calls it, the request asks for the default 5 completions, and the default language is "english" |
| Utils.CleanMessage | aicommit/src/utils.py:32 | a cleaned message has no line break and no surrounding whitespace, is empty exactly when the choice was all whitespace, and is exactly `Strip` of a choice that has no line break |
| Utils.CleanMessageIdempotent | aicommit/src/utils.py:32 | cleaning a cleaned message changes nothing |
| Utils.CleanMessages | aicommit/src/utils.py:32 | one cleaned message per choice, in the reply's order |
| Utils.GenerateCommitMessages | aicommit/src/utils.py:5-37 | a raise is re-raised and never turned into a partial list; otherwise message `i` is the cleaned choice `i` |
| Utils.ChangedFiles | aicommit/src/utils.py:41-47 | the files are the `\n`-separated lines of the name-only output, without the piece after the last line break |
| Utils.JoinIsTerminated | aicommit/src/utils.py:47 | the line-break join that undoes `split("\n")` is each of the first pieces followed by a line break, then the last piece, so dropping the last piece of a split keeps exactly the terminated lines |
| Utils.PerFileDiff | aicommit/src/utils.py:48-54 | the per-file diff fails exactly when some file's diff fails, and an empty file list gives "" |
| Utils.PerFileDiffOne | aicommit/src/utils.py:49-54 | the per-file diff of one file is that file's diff; with the empty case and PerFileDiffAppend, a list's diff is its files' diffs concatenated in list order |
| Utils.PerFileDiffAppend | aicommit/src/utils.py:49-54 | the diffs of two file lists in a row are the concatenation of their diffs, in list order |
| Utils.GetDiff | aicommit/src/utils.py:39-62 | whole-tree mode returns the command's output unchanged; per-file mode fails when the name listing fails and otherwise returns the accumulated per-file diff of the changed files |
| CommitImpactReport.Workbook.constructor | aicommit/src/commit_impact_report.py:84-85 | a new workbook's sheet has no rows |
| CommitImpactReport.Workbook.Load | aicommit/src/commit_impact_report.py:82-83 | a loaded workbook's sheet holds the saved rows |
| CommitImpactReport.Workbook.Append | aicommit/src/commit_impact_report.py:89 | `sheet.append` adds the row after all earlier rows |
| CommitImpactReport.AppendedRows | aicommit/src/commit_impact_report.py:82-89 | a missing sheet becomes the header row then the new row; an existing sheet keeps all its rows and gains exactly one, last |
| CommitImpactReport.AppendToExcel | aicommit/src/commit_impact_report.py:81-90 | what is saved is the loaded or new header-only sheet with the row `(date, username, commit_message, summary)` appended |
| CommitImpactReport.Summary | aicommit/src/commit_impact_report.py:171 | a report of at most 1000 characters is kept whole; a longer one becomes its first 1000 characters and "...", so a summary is at most 1003 characters |
| CommitImpactReport.SummaryIdempotent | aicommit/src/commit_impact_report.py:171 | summarising a summary changes nothing |
| CommitImpactReport.ImpactReport | aicommit/src/commit_impact_report.py:146-174 | a missing key returns before any effect; a blank or failing diff returns after the diff alone; anything else goes on to the request; nothing is written unless a row is appended; no commit is made |
| CommitImpactReport.ReportFromReply | aicommit/src/commit_impact_report.py:157-174 | the report is requested with the diff; a raise escapes; the report is written and a row appended exactly for a 200 reply with non-blank content, and otherwise nothing follows the request |
| CommitImpactReport.ReportRow | aicommit/src/commit_impact_report.py:132-143 | the row is the date, the user name and the last commit message (each "N/A" when its git command fails), then the summary |
| CommitImpactReport.ReportWritten | aicommit/src/commit_impact_report.py:163-172 | what follows a non-empty report is four effects, none of them a commit (ReportAppendsOneRow names each of them) |
| CommitImpactReport.ReportAppendsOneRow | aicommit/src/commit_impact_report.py:160-172 | a non-blank 200 reply writes the report, then reads the user name and last message, then saves the sheet with exactly one new row that ends with the report's summary |
| PrDescription.BranchDiff | aicommit/src/pr_description_gen.py:25-36 | the branch diff is exactly `Strip` of git's output, and "" when git fails |
| PrDescription.GeneratePrDescription | aicommit/src/pr_description_gen.py:89-101 | a raise escapes; a non-200 reply gives ""; a 200 reply gives exactly `Strip` of its content |
| PrDescription.GenerateDescription | aicommit/src/pr_description_gen.py:103-132 | a missing key exits with 1 before any effect; an empty branch diff exits with 0 before any request or write; otherwise the description is requested and written, even when empty, unless the request raises |
| PrDescription.DescriptionNoCommit | aicommit/src/pr_description_gen.py:103-132 | generating the description commits nothing |
| PrDescription.DescriptionWrittenOnlyAfterRequest | aicommit/src/pr_description_gen.py:111-130 | the description file is written only third, after the non-empty branch diff was sent, and it holds what the reply yields |
| Aicommit.NonBlankStripped | aicommit/src/aicommit.py:33 | every file the comprehension keeps is non-empty and stripped |
| Aicommit.NonBlankStrippedOne | aicommit/src/aicommit.py:33 | one line contributes nothing when blank and exactly its stripped form otherwise; with NonBlankStrippedAppend this fixes the whole list |
| Aicommit.NonBlankStrippedEmpty | aicommit/src/aicommit.py:33 | the comprehension leaves nothing exactly when every line is blank |
| Aicommit.NonBlankStrippedWithout | aicommit/src/aicommit.py:33 | a character that no line holds is in no listed file |
| Aicommit.NonBlankStrippedAppend | aicommit/src/aicommit.py:33 | filtering two lists of lines one after the other gives the files of each in order |
| Aicommit.ConflictingFiles | aicommit/src/aicommit.py:33 | every listed file is non-empty, stripped and a single line, and the list is empty exactly when the output is blank |
| Aicommit.ConflictingFilesOfListing | aicommit/src/aicommit.py:33 | reading back a listing of file names, one per line, gives exactly those names in order |
| Aicommit.StrippedKeptBeforeBlank | aicommit/src/aicommit.py:33 | the empty piece after a listing's last line break is dropped and the names are kept |
| Aicommit.TerminatedIsJoin | aicommit/src/aicommit.py:33 | names each followed by a line break split into the names and one final empty piece |
| Aicommit.StrippedKept | aicommit/src/aicommit.py:33 | names that are already non-empty and stripped pass the filter unchanged |
| Aicommit.CheckForMergeConflicts | aicommit/src/aicommit.py:13-53 | `(True, files)` exactly when conflicts are listed and the pull succeeds; otherwise `(False, [])`, a failed pull included; master is pulled whenever conflicts are listed |
| Aicommit.ConflictCheckTrace | aicommit/src/aicommit.py:22-53 | fetch, listing and pull run in that order, each only after the one before succeeded; the pull happens exactly when conflicts are listed; the check never commits |
| Aicommit.Main | aicommit/src/aicommit.py:56-124 | every run of `main` begins with the effects of the conflict check |
| Aicommit.Workflow | aicommit/src/aicommit.py:56-66 | a run always begins with the conflict check's effects |
| Aicommit.FromDiff | aicommit/src/aicommit.py:69-80 | the staged diff is read first; a failure raises and an empty diff stops the run at once; otherwise messages are requested for the diff in "en" |
| Aicommit.FromMessages | aicommit/src/aicommit.py:80-98 | a raise from the generator ends the run without effects; no choices, or a selection that is not a number, stops the run |
| Aicommit.FromCommit | aicommit/src/aicommit.py:113 | what follows the message choice starts with committing that message |
| Aicommit.AfterReport | aicommit/src/aicommit.py:120 | a raise out of `impact_report()` ends `main` as a crash; any other status completes the run with exactly that status |
| Aicommit.WorkflowCommits | aicommit/src/aicommit.py:100-113 | when the calls commit nothing themselves, the run commits the picked message exactly when the commit is reached, and nothing otherwise |
| Aicommit.FromMessagesCommits | aicommit/src/aicommit.py:93-113 | after the request, the only commit is that of a confirmed, in-range choice |
| Aicommit.FromCommitCommits | aicommit/src/aicommit.py:113-120 | description and report add no commit after the one of the picked message |
| Aicommit.WorkflowAfterCommit | aicommit/src/aicommit.py:113-120 | after the commit the description always runs; the impact report follows only when the description returned, and an exit or raise ends the run |
| Aicommit.ConflictStopsRun | aicommit/src/aicommit.py:63-66 | when master was pulled over listed conflicts, the run stops after fetch, listing and pull |
| Aicommit.NoConflictProceeds | aicommit/src/aicommit.py:63-69 | without a conflict answer, the staged diff is read right after the check |
| Aicommit.FailedPullProceeds | aicommit/src/aicommit.py:43-53 | a failed pull after listed conflicts is followed by reading the staged diff |
| Aicommit.EmptyDiffStops | aicommit/src/aicommit.py:69-74 | an empty staged diff ends the run with no request for messages and no commit |
| Aicommit.MessagesRequested | aicommit/src/aicommit.py:77-80 | the request for messages carries the staged diff, "en" and the default five completions |
| Aicommit.SelectedMessage | aicommit/src/aicommit.py:106 | the picked message is a cleaned message: one line, stripped |
| Aicommit.CommitsExactlyOnce | aicommit/src/aicommit.py:93-113 | `main` commits exactly once, with the cleaned choice `k - 1` for the entered number `k`, when the number is in range and the reply lower-cases to "y", and never otherwise |
| Aicommit.NotReachedStopsEarly | aicommit/src/aicommit.py:82-124 | a run that does not commit ends right after the check, the diff or the request for messages, so no description or report is made |
| Aicommit.AfterCommit | aicommit/src/aicommit.py:113-120 | after the commit comes the description; the impact report follows only when the description returned, and a raise out of the report ends the run as a crash |
| Aicommit.ReportedRunCompletes | aicommit/src/aicommit.py:113-120 | a run that commits, gets a description and an impact report that does not raise ends completed with the report's status |
| Aicommit.MissingKeyExitsBeforeReport | aicommit/src/aicommit.py:118-120 | without an API key the description exits with 1 right after the commit and the impact report never runs |
| Aicommit.WorkflowCompleted | aicommit/src/aicommit.py:118-120 | a run completes only when the description returned and the impact report returned without raising, and it carries the report's status |
| Aicommit.ReportMissingKeyUnreachable | aicommit/src/commit_impact_report.py:147-149 | under `main` the impact report's missing-key return is never the outcome |
| Aicommit.EmptyBranchDiffExits | aicommit/src/pr_description_gen.py:111-116 | an empty branch diff exits with 0 right after reading it, so neither the description file nor the impact report is written |
| BinarySearch.BinarySearch | src/binary_search.py:1-20 | the result is -1 or an index holding the target; an absent target gives -1; a sorted list holding the target never gives -1 |
| Pascal.GeneratePascalsTriangle | src/main.py:1-9 | `max(n, 0)` rows; row `r` has `r + 1` entries, all filled, entry `c` being "r choose c" |
| Pascal.TriangleInterior | src/main.py:6-7 | each inner entry is the sum of the two entries above it |
| Pascal.BinomialSymmetric | src/main.py:5-7 | entry `c` of row `r` equals entry `r - c` |
| Pascal.BinomialFactorial | src/main.py:5-7 | the entries computed by the additive rule equal n! / (k! (n - k)!) |
| Pascal.TriangleRowSymmetric | src/main.py:5-7 | every row of the triangle reads the same from both ends and starts and ends with 1 |

## Left out

- The HTTP calls to the chat-completion service are parameters: a reply
  (status and `choices[0].message.content`) or a raise. The same goes for the
  Microsoft Graph calls, token acquisition and the OneDrive download and
  upload. Prompt text, request parameters and credentials are not modelled.
- `.env` loading and `os.getenv` are reduced to one optional API key, shared
  by the three modules. An empty key counts as missing.
- A missing key inside `generate_commit_messages` is handed to the client
  like any other key. Whether the client or the request then raises, the
  function re-raises it (aicommit/src/utils.py:33-36). The model covers this
  with a raising reply parameter: the call raises either way, and the trace
  records the attempted request.
- The spreadsheet file format and the `.csv`-named workbook path are not
  modelled. openpyxl documents that `load_workbook` accepts only
  .xlsx/.xlsm/.xltx/.xltm files, so loading `.github/PR_Report.csv` would
  raise once the file exists. The model treats an existing sheet as loaded. The sheet is a list of rows, and the file's existence is whether
  a saved sheet is present. `os.makedirs` is not modelled.
- Console output is not modelled. The outcome of a run says which message
  the run ended on.
- `datetime.now()` is a parameter of the impact report (the `date` field).
- `input()` is a parameter. The first reply is given already parsed by
  `int()` (`None` for a `ValueError`). An end of input (`EOFError`) is not
  modelled.
- PyStr.Lower: lower-cases only A-Z, unlike Python's `lower()`, which follows
  Unicode: it can change the length (U+0130 becomes two characters) and
  depends on context (a final capital sigma). Its result is used only to
  compare with "y", and no other character lower-cases to "y", so the answer
  to the confirmation is the same.
- Bytes are not modelled: `decode("utf-8")` is taken to succeed, and text is
  a sequence of characters.
- Exceptions other than a failing git command or a raising service call are
  not modelled. Examples: a missing git binary, a malformed JSON reply or a
  missing key in it, a failing file write.
- Utils.GetDiff: `main` calls it only in whole-tree mode. The per-file mode
  is modelled on its own, with each file's diff as a parameter.
- Aicommit.Main: the exit status of `git commit` is not an input, because
  the code never reads it.
- The `__main__` blocks of `src/binary_search.py` and `src/main.py` (reading
  `n` and printing rows) are not modelled. Nor are the wrapper scripts under
  `.github/`, the packaging files or `aicommit/src/test.py`.
- BinarySearch.BinarySearch: works on integers, where the source accepts any
  list of mutually comparable elements.
