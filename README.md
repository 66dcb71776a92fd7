# Contract cancellation survey: a Dafny model of its table rules

The system is a small Streamlit application for a survey of cancelled
contracts. An administrator uploads the survey targets. Staff at the branch
offices then register a cancellation reason for each target, and both sides
follow the progress on summary pages. Each page loads the tables it needs:
the register page, the dashboard and the admin home load the targets and
the registered results; the monitor page loads only the results. The pages
then reconcile them with a few pandas operations.

This project models those reconciliation rules and proves their properties:

- **Register page** (`pages/user_register.py`):
  - which contracts are done;
  - which targets are still pending;
  - the progress ratio;
  - the branch key and the sidebar filters;
  - the record that saving the form writes.
- **Dashboard** (`pages/user_dashboard.py`):
  - the totals for the selected branches;
  - the per-branch table of targets, completed results and their share.
- **Monitor page** (`pages/admin_monitor.py`):
  - cleanup of the contract ids;
  - the newest-first sort;
  - today's count and the latest update;
  - the most frequent branch and the value counts;
  - the search box.
- **Admin home** (`admin_home.py`): the row counts, the progress with its
  zero guard, and the five most recent results.
- **Storage helpers** (`storage.py`): the event and action tables, appending
  an action, and the contact map with its department and owner lookups.

How the model represents the data:

- **Tables.** A DataFrame is `Table(columns, rows)`, and a row maps column
  names to `Option<string>` cells. NaN, and a cell the row lacks, are
  `None`. `DataFrame.empty` holds when there are no rows or no columns.
- **Dicts.** A Python dict is a `Dict` of keys in insertion order with their
  values.
- **Exceptions.** The exceptions a page can hit (`KeyError`, `ValueError`,
  `TypeError`) are `Failure` results, not preconditions.
- **Pages.** The register page, the dashboard and the monitor page are
  methods that follow the script's steps in order, returning early where the
  script stops or raises. The admin home page has no such steps and is the
  function `AdminHome.Home`. Each page's postcondition ties every shown
  value to the functions that specify it.

Files:

- `Columns.dfy`: the column names shared by the pages.
- `Tables.dfy`: tables, selection, `unique()`, `dropna()`, counting and dicts.
- `Strings.dfy`: `strip`, `lower`, `replace` and `in` on strings, and
  Python's string order with `sorted(set(...))`.
- `Branches.dfy`: the branch key and the sorted option lists.
- `UserRegister.dfy`, `UserDashboard.dfy`, `AdminMonitor.dfy` and
  `AdminHome.dfy`: one module per page.
- `Storage.dfy`: the storage helpers.

Two points where the code's behaviour is easy to misread, and which the
model follows as written:

- **What "done" means.** A contract counts as done when its result row has a
  reason cell that is present (`notna`). A present but empty string would
  count as well, so the rule is "a reason cell exists", not "a non-empty
  reason was entered". The two agree only because reading a CSV turns an
  empty field into NaN.
- **Three notions of done.** The admin home page uses every result row. The
  dashboard uses every result row whose contract is among the selected
  targets. The register page uses only the rows with a reason.
  `AdminHome.CompletionRulesDiffer` contrasts the home page with the
  register page. `UserDashboard.DashboardCountsReasonless` contrasts the
  dashboard with the register page. `UserRegister.ProgressCanExceedOne`
  shows that results outside the targets still count on the register page.

## Model

| member | source | states |
|---|---|---|
| Tables.Filter | pages/user_register.py:31 | boolean-mask selection keeps exactly the rows that satisfy the mask and never adds rows |
| Tables.FilterAtPositions | pages/user_register.py:31 | the selected rows are the rows at the selected positions, in their original order |
| Tables.Unique | pages/user_register.py:30 | `unique()` lists each value of the column exactly once and nothing else |
| Tables.UniqueFirstAppearance | pages/user_register.py:30 | `unique()` lists values in the order of their first occurrence |
| Tables.Present | pages/user_register.py:53 | `dropna()` keeps exactly the present values and never adds any |
| Tables.PresentInOrder | pages/user_register.py:53 | `dropna()` keeps every present cell, as often as it occurs and in order: its k-th value is the cell at the k-th non-NaN position |
| Tables.Percent | pages/user_dashboard.py:41 | the share is 0 without a total; otherwise share × total = 100 × part; it is never negative and is at most 100 when part ≤ total |
| Tables.Update | pages/user_register.py:94-98 | `dict.update`: the new values win, the existing keys keep their places, and the new keys follow in the update's own order |
| Tables.FromRow | pages/user_register.py:93 | `row.to_dict()` has one key per distinct column, in column order, each with the row's cell |
| Strings.Strip | pages/user_register.py:45 | `strip()` yields the slice between the first and last non-whitespace characters |
| Strings.StripIdempotent | pages/user_register.py:45 | stripping twice equals stripping once |
| Strings.Lower | pages/admin_monitor.py:63 | `lower()` keeps the length; LowerLetters states what becomes of each character |
| Strings.LowerLetters | pages/admin_monitor.py:63 | `lower()` maps each ASCII capital to its small letter and leaves every other character alone, so no ASCII capital remains |
| Strings.RemoveAll | pages/user_register.py:45 | `replace(pat, "")` never lengthens the string and leaves it alone for an empty pattern; RemoveAllAbsent and RemoveAllFirst state how occurrences go |
| Strings.Contains | pages/admin_monitor.py:63 | substring search holds iff the query occurs at some position |
| Strings.RemoveAllAbsent | pages/user_register.py:45 | `replace` leaves a string alone when the pattern does not occur |
| Strings.RemoveAllFirst | pages/user_register.py:45 | `replace` removes the first occurrence and resumes scanning right after it |
| Strings.SortedDistinct | pages/user_register.py:53 | `sorted(set(...))` is strictly ascending in Python's string order and holds exactly the input's strings |
| Strings.StrictlySortedUnique | pages/user_register.py:53 | that ascending list is the only one with these elements |
| Branches.BranchKey | pages/user_dashboard.py:26 | the branch key is NaN exactly for a NaN managing branch, is never longer than the name, and starts and ends with a non-space; BranchKeyOfSuffixed, BranchKeyOfPlain and BranchKeyOneScan state its values |
| Branches.BranchKeyOfSuffixed | pages/user_register.py:45 | a name ending in "지사" gets the trimmed place name before it as its key |
| Branches.BranchKeyOfPlain | pages/user_register.py:45 | a name without "지사" is only trimmed |
| Branches.BranchKeyOneScan | pages/user_register.py:45 | a single left-to-right removal pass can leave "지사" in the key ("지지사사" gives "지사") |
| Branches.WithBranchKey | pages/user_register.py:45-46 | the key column is assigned in every row: the cleaned managing branch, or "미지정" when the table has no such column; nothing else changes |
| Branches.SortedOptions | pages/user_register.py:50 | mixing NaN with names fails, exactly then, and the failure is a TypeError; otherwise the options are exactly the column's values, ascending and distinct |
| UserRegister.DoneIds | pages/user_register.py:30 | no results give no done ids; a missing reason or id column is a KeyError; otherwise the done ids are distinct, and an id is listed iff some result row with a present reason has it |
| UserRegister.DoneIgnoresReasonless | pages/user_register.py:30 | adding a result row without a reason changes no done id |
| UserRegister.Pending | pages/user_register.py:31 | a target is pending iff its id is not done; a missing id column is a KeyError |
| UserRegister.PendingInOrder | pages/user_register.py:31 | pending rows keep the targets' order |
| UserRegister.PendingPartition | pages/user_register.py:31 | pending and done targets together account for every target |
| UserRegister.Progress | pages/user_register.py:36 | progress is never negative and progress × targets = done ids |
| UserRegister.ProgressAtMostOne | pages/user_register.py:36 | progress is at most 1 when every done id belongs to some target |
| UserRegister.ProgressCanExceedOne | pages/user_register.py:36 | results for contracts outside the targets push progress to 2 in a concrete case |
| UserRegister.ByBranch | pages/user_register.py:51 | "전체" keeps every row; any other choice keeps exactly the rows with that key, each as often as it occurs and in order |
| UserRegister.ByOwner | pages/user_register.py:54 | "전체" keeps every row; any other choice keeps exactly that owner's rows, each as often as it occurs and in order |
| UserRegister.Narrow | pages/user_register.py:50-54 | the sidebar keeps the columns and only rows of the table; every kept row has the chosen key and, when there is an owner column, the chosen owner; "전체" for both keeps the table; NarrowIsOneSelection states that every passing row is kept, in order |
| UserRegister.NarrowIsOneSelection | pages/user_register.py:50-54 | whichever of the two filters are active (a "전체" or a missing owner column switches one off), the sidebar keeps exactly the rows that pass the active ones, each as often as it occurs and in order |
| UserRegister.NarrowComposes | pages/user_register.py:50-54 | the two filters in a row equal one selection by both conditions |
| UserRegister.ChoicesArePendingTargets | pages/user_register.py:45-57 | every row offered for choice is a not-done target with its key added, and it matches both selections |
| UserRegister.RegisterPage | pages/user_register.py:22-58 | NoTargets iff the targets are empty; the done-id and id-column errors; the progress; AllDone iff every target id is done; otherwise the remaining count, the option lists with "전체" first and the narrowed choices; past the pending step an option TypeError, an empty choice list (KeyError "None") and a missing 상호 column (KeyError) each fail exactly in their case, and every other input reaches the target picker |
| UserRegister.ShownDate | pages/user_register.py:62-64 | the shown date is NaN iff the row's cell is NaN; a present cell shows its parsed date when it parses and its own text otherwise; without the column it is "-", or its parse if "-" parses |
| UserRegister.FormKeysDistinct | pages/user_register.py:94-98 | the seven form keys are pairwise different |
| UserRegister.FormFields | pages/user_register.py:94-98 | the update dict holds exactly the seven form keys with the form's values |
| UserRegister.SavedRecord | pages/user_register.py:93-98 | the saved record keeps each non-form cell of the row, takes the form's seven values, and keeps the row's key order first |
| UserRegister.SavedRecordKeepsId | pages/user_register.py:93-98 | the saved record has the chosen row's contract id and a present reason |
| UserRegister.SavedRowBecomesDone | pages/user_register.py:93-99 | once the saved record is among the results, its contract is done |
| UserDashboard.Selected | pages/user_dashboard.py:35 | no selection keeps every target; otherwise exactly the targets whose key is selected, each occurrence kept, in their original order |
| UserDashboard.Related | pages/user_dashboard.py:36 | a result is kept iff some selected target has its contract id, each as often as it occurs and in stored order: the k-th kept row is the result at the k-th matching position |
| UserDashboard.DashboardCountsReasonless | pages/user_dashboard.py:36-40 | a result without a reason for a selected target adds one to the dashboard's completed count while the register page's done ids stay unchanged |
| UserDashboard.KeyedResults | pages/user_dashboard.py:28 | the results get the branch key only when non-empty and holding the managing-branch column |
| UserDashboard.Stats | pages/user_dashboard.py:47-52 | one row per key, with its target count, result count and their share |
| UserDashboard.SumsOfStats | pages/user_dashboard.py:47-51 | the table's column sums are the summed occurrence counts |
| UserDashboard.BranchTable | pages/user_dashboard.py:47-51 | each row's `대상` and `완료` are the numbers of selected targets and related results with that branch key; BranchTableRows, BranchTableSums and BranchTableShare state the rest |
| UserDashboard.BranchTableRows | pages/user_dashboard.py:47 | one row per distinct present target key, strictly ascending |
| UserDashboard.BranchTableTargetsPositive | pages/user_dashboard.py:47-52 | every listed branch has at least one target, so its share never divides by zero |
| UserDashboard.BranchTableShare | pages/user_dashboard.py:52 | each branch's share is done / targets × 100 |
| UserDashboard.BranchTableSums | pages/user_dashboard.py:47-50 | targets sum to the selected targets with a key (all of them when none is NaN); done is at most the selected results |
| UserDashboard.DashboardPage | pages/user_dashboard.py:20-52 | NoTargets iff the targets are empty; it fails only with TypeError or KeyError: the option TypeError, a missing contract-id column when there are results (KeyError), or related results without a branch key (KeyError), and every other input shows the dashboard; the counts, share, remainder and per-branch table of the selection |
| AdminMonitor.CleanId | pages/admin_monitor.py:25 | a final ".0", or one just before a final newline, is removed; otherwise the id is unchanged |
| AdminMonitor.CleanIdRemovesOne | pages/admin_monitor.py:25 | "1.0.0" becomes "1.0" and "123.0" becomes "123" |
| AdminMonitor.CleanIds | pages/admin_monitor.py:25 | every id cell becomes the cleaned text of the cell ("nan" for NaN); other cells are untouched |
| AdminMonitor.Timed | pages/admin_monitor.py:28 | the processing time is the parse of the cell (NaT for NaN); other cells are unchanged |
| AdminMonitor.InsertByTime | pages/admin_monitor.py:29 | insertion keeps the newest-first order and adds exactly one row |
| AdminMonitor.SortByTime | pages/admin_monitor.py:29 | the sort is newest first, a permutation of its input, with NaT rows last |
| AdminMonitor.TodayCount | pages/admin_monitor.py:36 | without a processing-time column 0; otherwise the number of positions whose row was processed today |
| AdminMonitor.TodayPartition | pages/admin_monitor.py:36 | today's rows and the other rows together account for every row |
| AdminMonitor.LatestTime | pages/admin_monitor.py:41 | the latest time belongs to some row and is at least every row's time; it is absent iff every time is NaT |
| AdminMonitor.SortedHeadIsLatest | pages/admin_monitor.py:29-41 | after the sort the latest time is the first row's |
| AdminMonitor.ValueCounts | pages/admin_monitor.py:48-53 | every entry's count is the number of cells holding its value; ValueCountsCover states which values appear |
| AdminMonitor.ValueCountsCover | pages/admin_monitor.py:48-53 | one entry per distinct present value, each counted correctly and at least once; the counts sum to the present cells |
| AdminMonitor.Busiest | pages/admin_monitor.py:34 | `idxmax` returns a value with the largest count; empty counts raise ValueError |
| AdminMonitor.CellText | pages/admin_monitor.py:63 | `astype(str)` of a cell: NaN and a missing cell read "nan", NaT reads "NaT", a string reads as itself |
| AdminMonitor.Search | pages/admin_monitor.py:59-64 | an empty query keeps every row; otherwise a row is kept iff some column's lowercased text contains the lowercased query, and the kept rows are the matching rows in their original order |
| AdminMonitor.SearchFindsNaN | pages/admin_monitor.py:63 | a NaN cell reads "nan", so the query "na" matches its row |
| AdminMonitor.Prepared | pages/admin_monitor.py:24-29 | the prepared rows are a permutation of the cleaned and parsed rows, newest first when the column exists |
| AdminMonitor.MonitorPage | pages/admin_monitor.py:19-64 | NoResults iff the results are empty; the total, top branch, today's count, latest time, both value counts and the search result; a ValueError only when every branch or every time is missing |
| AdminMonitor.NoBranchNamed | pages/admin_monitor.py:34 | empty branch counts mean every branch cell is NaN |
| AdminHome.Recent | admin_home.py:29-31 | none for empty results; otherwise the last min(5, n) rows, as a suffix in stored order |
| AdminHome.Home | admin_home.py:17-25 | counts are the row counts; progress is 0 without targets, otherwise progress × targets = 100 × results; the bar is progress / 100 |
| AdminHome.BarInRange | admin_home.py:25 | the bar lies in [0, 1] when there are no more results than targets |
| AdminHome.BarCanExceedOne | admin_home.py:25 | one target with two results gives a bar of 2 |
| AdminHome.CompletionRulesDiffer | admin_home.py:18 | a result without a reason raises the home count by one and leaves the register page's done ids unchanged |
| AdminHome.RegisterCountAtMostHome | admin_home.py:18 | the register page's done count never exceeds the home page's |
| Storage.Store.LoadEvents | storage.py:22-37 | with no file, no events and exactly the six event columns |
| Storage.Store.LoadActions | storage.py:44-59 | with no file, no actions and exactly the six action columns |
| Storage.Store.SaveAction | storage.py:62-71 | the stored actions become the old ones plus one appended action; events are untouched |
| Storage.AppendAction | storage.py:67-70 | the old rows unchanged, then one row with the action's values (NaN elsewhere); old columns first, new keys after |
| Storage.AppendKnownKeys | storage.py:67-70 | an action whose keys all have columns adds no column |
| Storage.TwoSavesInOrder | storage.py:62-71 | two appends to the empty table leave the two actions in save order |
| Storage.NormColumns | storage.py:87 | each header becomes its stripped, lowercased name, in place |
| Storage.Renamed | storage.py:87 | a renamed row has exactly the normalised names, and each name holds the cell of the first column that normalises to it |
| Storage.ContactsFrom | storage.py:78-97 | no file gives an empty department/name table; headers are stripped and lowercased; ValueError iff either column is then missing |
| Storage.ContactHeadersNormalised | storage.py:87-93 | headers " Department " and "NAME" are accepted |
| Storage.Departments | storage.py:104-111 | the contact-file error propagates; no contacts give none; otherwise departments are strictly ascending and exactly those present |
| Storage.NamesIn | storage.py:122-123 | a name is listed iff some contact of the department has it |
| Storage.OwnersByDepartment | storage.py:114-126 | the contact-file error propagates; no contacts give none; otherwise names are distinct and exactly the department's present ones |
| Storage.OwnersInFirstAppearanceOrder | storage.py:121-126 | owners follow the order of their first appearance in the department's contacts |

## Left out

- Streamlit rendering: layout, styles, charts, the HTML table loop, metrics formatting, toasts, `st.stop`/`st.rerun` control flow beyond stopping the page model.
- `load_targets`, `load_results`, `save_result`, `save_targets`, `normalize_columns`, `load_logs`, `load_reason_map`, `check_admin_password`: these are not defined in `storage.py`, so the tables they return are inputs and `save_result` is assumed to append the record.
- `pages/admin_upload.py` and the older pages (`0_조사대상업로드.py`, `1_조치작성.py`, `1_사유등록대상.py`, `2_현황모니터링.py`, `2_등록결과모니터링.py`, `3_현황대시보드.py`): not part of this model.
- File I/O (`exists`, `read_csv`, `read_excel`, `to_csv`): a stored file is `None` or `Some(table)`; the CSV round trip's type conversions are not modelled.
- Storage.ContactsFrom: non-string header cells (which make `strip` fail) are not modelled, and two headers that normalise to the same name keep only the first column, where pandas keeps both.
- Date parsing and the clock: `pd.to_datetime`, `strftime` and `Timestamp.now` are parameters; `to_datetime`'s format inference across the whole column is not modelled.
- AdminMonitor.SortByTime: pandas' unstable default sort only guarantees order and permutation, which is what is stated; the exact order of equal times is not modelled.
- AdminMonitor.Busiest: `value_counts()` orders by descending count with its own tie-break; the model keeps values in first-appearance order and returns the first largest, so among tied branches the chosen one may differ.
- AdminMonitor.Search: `str.contains` is a regex search; the model is a plain substring search, which agrees for queries without regex metacharacters.
- Strings.Lower: `str.lower` is modelled for ASCII letters only; other characters are left as they are.
- Floating point: shares are exact reals, not the `:.1f` formatted floats.
- `st.progress` rejects values above 1; BarCanExceedOne and ProgressCanExceedOne show such inputs, but the resulting Streamlit error is not modelled.
- `.str` on a column without any string (all NaN, read as float) raises AttributeError; the model treats such a column as NaN cells.
- The reason/complaint choices of the form (`pages/user_register.py:77-88`): they come from the unseen `load_reason_map`; the chosen values are inputs of `Form`.
- UserRegister.SavedRecordKeepsId: `Form.reason` is a string, so a reason map whose reasons are all NaN (where `sorted(...unique())` offers NaN as the reason) is not modelled, and the saved record's present reason relies on that.
- Index labels: `pending.loc[idx]` picks the chosen row by its label; the model offers the narrowed rows and takes the chosen row as an input of `SavedRecord`, so duplicate labels (where `loc` returns several rows) are not modelled.
- The exception handler around saving (`pages/user_register.py:103-104`) is not modelled.
