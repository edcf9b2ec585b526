# E-Learning quiz: a Dafny model of its logic

The application is a Streamlit page that runs a ransomware-awareness quiz. A person picks their
name from the user directory, answers the questions of the question bank and gets a pass/fail
verdict (full marks only). Their result goes to a results worksheet. A notification goes to
administrators chosen through a department × role matrix. All three tables live in one Google
spreadsheet.

This project models the plain logic inside `app.py`. The spreadsheet rows and the directory are
parameters here instead of worksheet fetches.

- `sheet.dfy`, module `Sheet`: worksheet rows (`seq<string>`), cell access that reads a missing
  column as `''`, and the "first cell present and non-empty" row guard that both loaders use.
- `text.dfy`, module `Text`: Python's `str.strip()` (over the exact `str.isspace()` character
  set, as the slice between the first and the last non-whitespace character), `str.upper()`
  (ASCII letters), `str.split(',')` and its inverse `join`.
- `directory.dfy`, module `Directory`: `get_users`. The directory is a map from name to
  (email, department string, department list, role). It is filled by the row-by-row
  dictionary update `KeyedUpTo`, whose key and last-row-wins lemmas hold for any row parser.
- `questions.dfy`, module `QuestionBank`: `get_questions`. It gives one record per kept row, in
  row order, with five options and the trimmed comma pieces of the answer column.
- `targeting.dfy`, module `Targeting`: `get_notify_targets`. It applies the privacy gate, then
  the scan of the matrix for active roles, then the directory filter, then de-duplication. This
  module also holds per-department matching (see Findings).
- `grading.dfy`, module `Grading`: the grading loop of the exam page. Python's `sorted()` on
  strings is modelled as an insertion sort under code-point order; the sort is proved correct
  for any total order and then applied to string order. Two answer lists compare
  equal after sorting exactly when they hold the same elements with the same multiplicities.
- `flow.dfy`, module `Flow`: the session state (`page`, the chosen person, `answers`, `score`,
  `passed`, `total`) as a class. The transitions are home → exam (start), exam → home (back),
  exam → result (submit) and result → home (finish).

Behaviour of the code worth knowing:
- The department passed to targeting is the raw department cell (`dept_str`, app.py:246). It is
  compared by exact equality with matrix row keys (app.py:114) and with department-list entries
  (app.py:137). There is no union over the departments it lists.
- The privacy gate is "role non-empty" (app.py:97).
- "Back" only changes the page (app.py:293-295). The answers stay until the next start clears
  them (app.py:249).
- The targeting result is a list without duplicates (app.py:141), not a set.
- With an empty question bank the exam page divides by zero at app.py:262, before the back
  (app.py:293) and submit (app.py:298) buttons are drawn. Submitting therefore requires a
  non-empty bank (`Flow.Session.Submit`, `Flow.Round`).

## Model

| member | source | states |
|---|---|---|
| Text.SkipSpaceSkipsSpace | app.py:53 | the scan for the start of the kept text passes over whitespace only and stops at a non-whitespace character |
| Text.BackSpaceSkipsSpace | app.py:53 | the scan for the end of the kept text passes over whitespace only and stops after a non-whitespace character |
| Text.StripDropsSpace | app.py:53 | `strip()` removes only whitespace, from both ends, and the kept text neither starts nor ends with whitespace |
| Text.StripIsStripped | app.py:53 | a stripped cell has no whitespace at either end |
| Text.StripStripped | app.py:53 | a cell without whitespace at its ends is left unchanged by `strip()` |
| Text.StripIdempotent | app.py:53 | stripping an already stripped cell changes nothing |
| Text.StripKeepsOnly | app.py:54 | `strip()` adds no character; in particular it introduces no comma |
| Text.SplitNoSep | app.py:54 | no piece of `split(',')` contains a comma |
| Text.JoinSplit | app.py:54 | joining the pieces of `split(',')` with commas gives back the cell |
| Text.SplitJoin | app.py:54 | splitting a comma-join of comma-free pieces gives back the pieces (split and join are inverse) |
| Directory.KeepNonEmptyMembers | app.py:54 | the kept pieces are exactly the non-empty trimmed pieces |
| Directory.DeptListMembers | app.py:53-54 | a department is in the list exactly when it is a non-empty trimmed comma piece of the department cell |
| Directory.DeptListEntries | app.py:53-54 | every department-list entry is non-empty, trimmed and comma-free |
| Directory.ParseUser | app.py:53-59 | missing email, department and role columns read as `''` (and an empty department list); the list is the one derived from the stored department string |
| Directory.ParseUserStripped | app.py:53-59 | email, department string and role are trimmed |
| Directory.KeyedKeys | app.py:49-55 | the dictionary built row by row has as keys exactly the non-empty first cells of the data rows |
| Directory.KeyedLatestRow | app.py:55 | a key's value is built from the last data row with that key |
| Directory.GetUsers | app.py:48-61 | the loop builds the directory that the rows after the header define |
| Directory.UsersKeys | app.py:49-55 | a name is a key exactly when some data row has it as its non-empty first cell |
| Directory.NamesNonEmpty | app.py:51 | rows with a missing or empty first cell add no entry |
| Directory.UsersLatestRow | app.py:55 | when a name repeats, the last row with it decides the record |
| QuestionBank.CorrectAnswers | app.py:72 | an absent answer column gives `[]`; a present one gives one answer per comma piece, so never none |
| QuestionBank.CorrectAnswersEntries | app.py:72 | every correct answer is trimmed and comma-free |
| QuestionBank.BlankAnswerColumn | app.py:72 | a present but blank answer column gives `['']` |
| QuestionBank.ParseQuestion | app.py:73-79 | the id is the first cell and the question text the second (`''` when absent); there are exactly five options, missing ones `''`; multiple-choice exactly when column 8 exists and is `複数選択` |
| QuestionBank.KeptUpTo | app.py:69-71 | the kept row indices are ascending, skip the header, all pass the guard, and none is missed |
| QuestionBank.QuestionsFromKeptRows | app.py:68-79 | the k-th question is parsed from the k-th kept row |
| QuestionBank.GetQuestions | app.py:63-80 | the loop returns one question per kept row, parsed from that row, in row order |
| QuestionBank.QuestionOrder | app.py:68-73 | of two kept rows, the earlier one's question comes first |
| Targeting.IsOnSpellings | app.py:117 | a cell counts as ON exactly when it trims to `ON`, `On`, `oN` or `on` |
| Targeting.OnIsOn | app.py:117 | the cell `ON` counts as ON |
| Targeting.ScanRow | app.py:115-118 | for one matching row, it adds exactly the header names of the columns that row holds and switches on |
| Targeting.CollectActiveRoles | app.py:107-118 | a role is active exactly when some data row keyed by the department or `全部署` is long enough to hold its column and that cell is ON; short rows add nothing |
| Targeting.CollectRecipients | app.py:125-139 | it returns exactly the addresses of entries with an active role, a non-empty address different from the test-taker's, and `全部署` or the department string in their list |
| Targeting.Dedupe | app.py:141 | the result holds the same addresses with no duplicates |
| Targeting.GetNotifyTargets | app.py:82-141 | empty for a test-taker with a role, for a matrix without data rows and when no role is active; otherwise every eligible address exactly once and nothing else (never empty, never the test-taker's own) |
| Targeting.MultiDepartmentReachesWildcardOnly | app.py:137 | a test-taker whose department cell contains a comma reaches only `全部署` entries |
| Targeting.SalesDepartmentLists | app.py:54 | the department lists of `営業` and of `営業,修理室` (the counterexample's inputs) |
| Targeting.CounterexampleAsWritten | app.py:114-137 | as written, a sales manager is not notified for a `営業,修理室` test-taker |
| Targeting.CounterexampleAnyDept | app.py:90-93 | under per-department matching, that manager is notified |
| Targeting.MultiDepartmentCounterexample | app.py:114-137 | the concrete input on which the code as written and per-department matching differ |
| Targeting.AnyDeptExtendsAsWritten | app.py:90-93 | per-department matching notifies everyone the code as written notifies |
| Targeting.AnyDeptCoversEachDepartment | app.py:90-93 | per-department matching notifies everyone whom any one listed department, taken alone, would notify |
| Targeting.AnyDeptSingleDepartment | app.py:90-93 | for a one-department cell, both matchings agree |
| Grading.StrLeReflexive | app.py:303-304 | string order is reflexive |
| Grading.StrLeTotal | app.py:303-304 | string order is total |
| Grading.StrLeAntisymmetric | app.py:303-304 | string order is antisymmetric |
| Grading.StrLeTransitive | app.py:303-304 | string order is transitive |
| Grading.StrLeTotalOrder | app.py:303-304 | string order is a total order, the law `sorted()` relies on |
| Grading.InsertAdds | app.py:303-304 | an insertion step adds exactly one copy of the inserted string |
| Grading.InsertSorted | app.py:303-304 | an insertion step keeps a list sorted |
| Grading.SortBySorts | app.py:303-304 | insertion sort under a total order returns a sorted rearrangement of its input |
| Grading.SortedUnique | app.py:303-305 | two sorted lists holding the same elements are equal |
| Grading.SortSorts | app.py:303-304 | `sorted()` returns a list in ascending string order with the input's elements |
| Grading.SortEqualIffSameElements | app.py:303-305 | sorted lists are equal exactly when the inputs hold the same elements with the same multiplicities |
| Grading.IsCorrectIffSameElements | app.py:303-305 | a question scores exactly when the answer holds the correct answers with the same multiplicities, whatever their order |
| Grading.PartialSelectionIsWrong | app.py:305 | a selection that is a proper sub- or super-collection of the correct answers scores nothing |
| Grading.UnansweredIsCorrectIffNoKey | app.py:303 | a missing answer (`[]`) scores exactly when the answer column was absent |
| Grading.BlankKeyUnreachable | app.py:303-305 | a blank answer column (`['']`) is never matched by answers drawn from A to E |
| Grading.CountCorrect | app.py:301-306 | the count never exceeds the number of questions looked at |
| Grading.CountCorrectByVerdict | app.py:301-306 | the running count is the number of questions whose verdict is correct |
| Grading.CountIsNumberCorrect | app.py:301-306 | the count equals the number of indices whose sorted answer equals the sorted key |
| Grading.FullMarksIffAllCorrect | app.py:308 | full marks exactly when every question is correct |
| Grading.ScoreIgnoresAnswerOrder | app.py:303-306 | reordering the options inside any answer leaves the score unchanged |
| Grading.Grade | app.py:299-308 | `total` is the number of questions; `score` counts the correct ones; `passed` holds exactly when `score == total`, that is when every question is correct |
| Flow.Session.constructor | app.py:213-225 | a fresh session is on the home page with no test-taker, no answers, score 0, not passed and total 0 |
| Flow.Session.StartExam | app.py:242-250 | start stores the chosen person's name, email, department cell and role, clears `answers` and moves home → exam, with score, passed and total unchanged |
| Flow.Session.RecordAnswer | app.py:283 | a widget stores its selection under the question's index; nothing else changes |
| Flow.Session.Back | app.py:293-295 | back moves exam → home and leaves everything else as it was |
| Flow.Session.Submit | app.py:298-331 | reachable only with a non-empty question bank (app.py:262); submit moves exam → result and sets `score`, `passed` and `total` from grading; it returns the notification list for the stored raw department cell, role and email |
| Flow.Session.Finish | app.py:361-363 | finish moves result → home, keeping the rest |
| Flow.Round | app.py:242-331 | for a non-empty question bank, start, one answer per question, submit and finish give the score of those answers and the pass verdict of full marks |

## Findings

| source | as written | input that shows it | evidently intended | confidence | as-written member | corrected member |
|---|---|---|---|---|---|---|
| app.py:114, app.py:137 | the test-taker's whole department cell is compared with matrix row keys and with department-list entries | test-taker `営業,修理室` without a role; matrix `[["部署","部長"],["営業","ON"]]`; directory entry with email `b@x`, department `営業`, role `部長`; that entry is not notified | each department listed in the cell matches, as the comment at app.py:93 says | not executed; medium | Targeting.MultiDepartmentCounterexample | Targeting.AnyDeptCoversEachDepartment |

Department-list entries never contain a comma. So, as written, a test-taker with several
departments reaches only `全部署` entries (`Targeting.MultiDepartmentReachesWildcardOnly`).
Per-department matching (`Targeting.EligibleAnyDept`) is a superset of the code's behaviour. It
agrees with the code for one-department cells. The session (`Flow.Session.Submit`) keeps the
code's behaviour, since that is what the application does.

## Left out

- Spreadsheet and Gmail client setup (`get_spreadsheet`, `get_gmail_service`): credential files and foreign library calls. The loaders take the worksheet rows as parameters.
- `send_email` (app.py:150-210): message text, MIME/base64 encoding, the Gmail API call and its error swallowing are I/O. The model computes the recipient list that it sends to (`Flow.Session.Submit`) but sends nothing.
- `save_result` (app.py:143-148): a worksheet append stamped with the wall clock. The row layout, with `一般職` for an empty role and `合格`/`不合格`, is not modelled.
- Streamlit rendering and widgets, the sorted name list of the home page and the progress bar (float division; its only effect on the flow is the failure on an empty question bank, described above). A widget is modelled only by the selection it stores (`Flow.Session.RecordAnswer`).
- The result page's fallback `total` of 5 (app.py:337) is never used: `total` is always set in the session.
- Re-runs of the script and concurrent sessions: each session is modelled as one sequential object.
- Text.Upper: upper-cases only ASCII letters, not Python's full Unicode case mapping. The only use is the comparison with `"ON"`, and `Targeting.IsOnSpellings` is stated for this model.
- Targeting.CollectRecipients: visits directory entries in an arbitrary order, not in dict insertion order. The result is only stated as a collection.
- Targeting.Dedupe: keeps first occurrences in order, while `list(set(...))` has no specified order. The contract states only which addresses are present and that none repeats.
- Flow.Session.StartExam: requires the selected name to be in the directory. The select box only offers directory names, and with an empty directory the source fails on `users[None]`.
- Flow.Session.Back: does not see the question bank, so it does not capture that the back button is never drawn when the bank is empty (the exam page fails first, app.py:262).
