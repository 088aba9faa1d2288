# Farm climate dashboard: the rules under the pages

A Dafny model of the small sequential rules inside a Tk desktop application for recording, charting and reporting farm climate data. That data covers temperature, rainfall and growing degree days. The model covers:

- the CSV and spreadsheet import rules and their row accounting;
- the user store behind login, registration, editing and the user-management list;
- the report page's template choice, its periodic report scheduler and its date guard;
- the UI-thread gate (`safe_ui_update`) that every page uses, with its shutdown flag;
- the debounced plot of the visualization page;
- the notification centre and the sidebar's counters;
- the dashboard's trend query, alerts and date filter;
- the prediction page's input checks and history growth;
- the application window's page factories, page cache, navigation highlight and logout.

Database tables are sequences of records and queries are their intended filters. Threads are interleaved atomic steps over explicit state: a shutdown flag, a queue of deferred calls, a list of workers and a list of subscribers. Python's `int()`, `float()`, `str.strip()`, `str.split()`, `str.lower()` and `datetime.strptime(s, "%Y-%m-%d")` are written out as Dafny functions over `seq<char>`. The SHA-256 password hash is a function parameter.

Modules, one per component:

- `Outcomes`, `Text`, `Seqs`, `Numbers`, `Dates`: the shared building blocks.
- `CsvRows`: rows as `csv.DictReader` produces them.
- `Farms`: the farm picker several pages share.
- `Upload`, `Db`, `FileImport`: CSV and spreadsheet import.
- `Accounts`, `UserAdmin`: users.
- `Dispatch`: the UI gate.
- `Scheduler`, `DateRange`, `Reports`: reports.
- `Visualization`, `Notifications`, `Sidebar`, `Dashboard`, `Prediction`: the other pages.
- `Pages`, `App`: the window.

## Model

| member | source | states |
|---|---|---|
| Upload.HeaderIsSubset | src/upload_page.py:187-189 | The header check holds exactly when the seven required columns are a subset of the header; adding extra columns never makes a valid header invalid. |
| Upload.Messages | src/upload_page.py:199-204 | One "Invalid <column>" message per column, in column order. |
| Upload.InvalidDistinct | src/upload_page.py:204 | Different columns give different error messages. |
| Upload.ErrorsOf | src/upload_page.py:199-204 | The numeric-column loop reports at most one message per column. |
| Upload.ErrorsOrdered | src/upload_page.py:199-204 | The loop's messages are a subsequence of all the column messages, so they come in column order. |
| Upload.ErrorsOmit | src/upload_page.py:199-204 | A column outside the checked list is never named. |
| Upload.ErrorsNames | src/upload_page.py:199-204 | With distinct columns, a column is named exactly when its value fails to parse. |
| Upload.ErrorsEmpty | src/upload_page.py:199-205 | The loop reports nothing exactly when every value parses. |
| Upload.ValidateRow | src/upload_page.py:191-205 | A row never gets more than seven messages. |
| Upload.ValidateRowSpec | src/upload_page.py:191-205 | The messages are ordered as "Invalid date" first, then the columns in `CSV_FIELDS` order. "Invalid date" appears exactly when the date does not parse as `%Y-%m-%d`. Each numeric column is named exactly when its value is not a float. The list is empty exactly when the row is valid. |
| Upload.NumericFieldsDistinct | src/upload_page.py:64 | The six numeric columns of `CSV_FIELDS` are distinct and none is "date". |
| Upload.ErrorsByColumn | src/upload_page.py:199-204 | Over `CSV_FIELDS[1:]`, each column is named exactly when its check fails, and no column message equals "Invalid date". |
| Upload.ValidateRowParts | src/upload_page.py:193-205 | The date part followed by the numeric part has the order, naming and emptiness properties above. |
| Upload.PartsOrdered | src/upload_page.py:193-204 | The date message followed by the column messages is a subsequence of all messages. |
| Upload.PartsNamed | src/upload_page.py:193-204 | "Invalid date" appears exactly when the date fails; each column message appears exactly when that column fails. |
| Upload.PartsEmpty | src/upload_page.py:193-205 | No message at all exactly when the date and every numeric column pass. |
| Upload.ImportData | src/upload_page.py:232-252 | No import starts without a truthy farm, without a file, when the file is unreadable, when the header lacks a required column, or when there are no rows. When an import starts, its total is the number of rows read. |
| Upload.ErrorRows | src/upload_page.py:264 | The row numbers of the error list, one per entry, in order. |
| Upload.ErrorRowsAppend | src/upload_page.py:264 | Appending an error appends its row number. |
| Upload.IncreasingAppend | src/upload_page.py:261-285 | Appending a row number above all earlier ones keeps the numbers strictly increasing and adds no smaller number. |
| Upload.ErrorsStep | src/upload_page.py:261-285 | One pass of the loop keeps the error list accurate. Each entry has a 1-based row number and the row's validation messages or its insert error. Entries are in row order, and exactly the rows not written are listed. |
| Upload.ProgressStep | src/upload_page.py:286-288 | One pass of the loop keeps the progress reports accurate: one report per row that reached it, numbered 1 to n. |
| Upload.ImportThread | src/upload_page.py:258-288 | Every row goes to exactly one of the count and the error list: `count + len(errors) == total`. Errors carry 1-based row numbers in order. Progress is reported for every validated row. |
| Upload.Summary | src/upload_page.py:294-296 | The final message starts with "Imported " and has a second line exactly when some rows were skipped. |
| Upload.SummaryCounts | src/upload_page.py:294-296 | The first line is "Imported <count> entries." and its number reads back as the count. With skipped rows, the second line starts with a number that reads back as the error count. |
| Upload.CellsOf | src/upload_page.py:179 | One preview cell per header column. |
| Upload.Texts | src/upload_page.py:179 | The texts of the present cells, one per cell. |
| Upload.PreviewLine | src/upload_page.py:179-181 | A preview line is the bare comma-joined cells exactly when the row has no messages; otherwise the messages follow a marker. |
| Upload.PreviewLoop | src/upload_page.py:176-183 | The preview keeps a prefix of the rows, never more than the budget. Once complete, it keeps all rows up to the budget and one line per kept row. |
| Upload.PreviewCsv | src/upload_page.py:164-185 | At most five data rows are kept, and they are the first ones. A header lacking a required column stops the preview. A complete preview shows the header line and one line per kept row. |
| Upload.PreviewLoopLines | src/upload_page.py:176-183 | Each preview line is the comma-joined cells of its row, with nothing appended exactly when the row has no validation messages. |
| Upload.PreviewMarksInvalidRows | src/upload_page.py:164-185 | Under a valid header, a data line of the preview is the bare comma-joined row exactly when `validate_row` finds nothing wrong with it. |
| CsvRows.DictRow | src/upload_page.py:241 | A record read by `csv.DictReader` has exactly the header's names as keys. |
| CsvRows.DictRowCell | src/upload_page.py:241 | Each header name maps to the cell under its last occurrence, or `None` past the record's end. |
| CsvRows.ReadDicts | src/upload_page.py:241 | The reader yields at most one row per record, each keyed by the header names. |
| CsvRows.ReadDictsCount | src/upload_page.py:241 | The reader yields exactly one row per non-blank record. |
| CsvRows.Get | src/upload_page.py:194-200 | `row.get(key, "")` gives the empty text for a key the header lacks, and the cell otherwise. |
| Db.MonthField | src/db_handler.py:104-107 | A date text without a second `-`-separated field has no month. |
| Db.SeasonOf | src/db_handler.py:108-116 | Months 12, 1 and 2 map to Winter; 3 to 5 to Spring; 6 to 8 to Summer; 9 to 11 to Fall. A missing or unparsable month, or one outside 1..12, gives Unknown. Each direction holds. |
| Db.SeasonOfIsoDate | src/db_handler.py:94-116 | Every real calendar day written as `YYYY-MM-DD` yields its month and a known season. |
| Db.Whitelist | src/db_handler.py:142-143 | An allowed value is kept; anything else becomes the default. |
| Db.GetUsersQuery | src/db_handler.py:141-150 | Sort is always one of username, role or id, defaulting to username. Direction is asc or desc, defaulting to asc. The filter and the two `%search%` patterns are present exactly when `search` is non-empty, and are followed by limit, then offset. |
| Db.WhitelistStable | src/db_handler.py:142-143 | Building the query again from its own whitelisted column and direction gives the same query. |
| Db.LikeAny | src/db_handler.py:146-148 | A `%` pattern matches every text. |
| Db.LikePrefix | src/db_handler.py:146-148 | A literal followed by `%` matches exactly the texts that begin with it, ignoring ASCII case. |
| Db.LikeSuffix | src/db_handler.py:146-148 | A leading `%` lets the rest of the pattern match any suffix. |
| Db.SearchMatches | src/db_handler.py:146-148 | For a search text without wildcards, the `%search%` pattern selects exactly the usernames or roles that contain it, ignoring ASCII case. |
| Db.Convert | src/db_handler.py:330-334 | With a type map, the empty text becomes `None`. A value that fails `int()` or `float()` fails the row, and the conversion succeeds exactly when the parse does. |
| Db.RowValues | src/db_handler.py:328-335 | A row yields one value per required field, exactly when every field is present and converts. |
| Db.ImportRows | src/db_handler.py:325-345 | Each row is either inserted or skipped. The inserted count equals the rows written, each written row has one value per field, and exactly the rows whose values fail are skipped. |
| Db.ImportCsv | src/db_handler.py:301-354 | Without headers, or with a required field missing, the result is 0 and nothing is written. Otherwise inserted plus skipped equals the rows read, and the count never exceeds the rows. |
| Db.ImportedRowKeys | src/db_handler.py:312-335 | Under an accepted header, a row read by the reader always has every required field, so only a failed conversion can skip it. |
| Db.DeleteFarm | src/db_handler.py:375-382 | No row of the deleted farm remains in `farms`, `climate_data` or `agri_metrics`, and every row of another farm remains. |
| Db.DeleteKeepsOthers | src/db_handler.py:375-382 | The rows of any other farm come through unchanged and in order. |
| Db.DeleteIdempotent | src/db_handler.py:375-382 | Deleting a farm twice equals deleting it once. |
| FileImport.RFind | src/import_utils.py:12 | The index of the last occurrence of the character, or -1 when it is absent. |
| FileImport.Ext | src/import_utils.py:12 | The extension is empty or starts with the only dot after the last separator. |
| FileImport.ExtOfName | src/import_utils.py:12 | A name ending in an extension yields that extension. |
| FileImport.Dispatch | src/import_utils.py:10-18 | A missing file fails with FileNotFound before any extension check. Otherwise `.csv` picks the CSV reader and `.xls` or `.xlsx` the Excel reader, compared after lower-casing. Any other extension fails as unsupported. |
| FileImport.DispatchIgnoresCase | src/import_utils.py:12-14 | Any case spelling of `.csv` picks the CSV reader. |
| FileImport.NormalizeName | src/import_utils.py:21 | A normalised column name is no longer than the original, has no whitespace at either end and holds no capital letter. |
| FileImport.NormalizeNameOfPadded | src/import_utils.py:21 | A name surrounded by blanks normalises to that name lower-cased, so `"  Farm_ID "` names the `farm_id` column. |
| FileImport.LowerKeepsEnds | src/import_utils.py:21 | Lower-casing neither creates nor removes whitespace at the ends. |
| FileImport.NormalizeColumns | src/import_utils.py:21 | Each column is normalised in place. |
| FileImport.NormalizeNameIdempotent | src/import_utils.py:21 | Normalising a normalised name changes nothing. |
| FileImport.NormalizeColumnsIdempotent | src/import_utils.py:21 | Normalising the column list twice equals normalising it once. |
| FileImport.Index | src/import_utils.py:31-35 | Gives the first position of a column, or -1 exactly when the column is absent. |
| FileImport.Get | src/import_utils.py:31 | `row.get` gives nothing exactly when the column is absent. |
| FileImport.RowFarm | src/import_utils.py:31 | A truthy `farm_id` argument is the farm of every row. |
| FileImport.Record | src/import_utils.py:36-44 | A written row is the farm id followed by one value per table column. |
| FileImport.ImportRows | src/import_utils.py:29-46 | The count is the number of rows with a kept farm id. The climate table gets one row per counted row exactly when all four climate columns exist, and likewise for the agri table. Every written row carries a kept farm id, and with a truthy argument every written row carries that id. |
| FileImport.FiledCons | src/import_utils.py:35-45 | Writing a counted row keeps every table row under a kept farm id. |
| FileImport.ImportFileToDb | src/import_utils.py:5-47 | As written: the run fails exactly when the path check or the extension dispatch fails; otherwise the count never exceeds the rows read. |
| FileImport.BlankFarmIdCounted | src/import_utils.py:29-46 | A blank `farm_id` cell reaches the loop as NaN. NaN is truthy, so as written the row is counted; the corrected filter skips it. |
| FileImport.ImportFileToDbFixed | src/import_utils.py:5-47 | Corrected: same failures and bound, and every written row carries a real farm id. |
| FileImport.ArgumentOverrides | src/import_utils.py:31 | With a truthy argument both versions agree and count every row. |
| FileImport.OverrideAgrees | src/import_utils.py:29-46 | With a truthy argument, the as-written and corrected loops give the same result and count every row. |
| Accounts.FindName | src/login_page.py:37 | The first record with the username, or -1 exactly when no record has it. |
| Accounts.NextId | src/db_handler.py:78 | One above the largest id in use, or 1 for an empty table: above every id in use, and the least such value. |
| Accounts.AutoIncrementId | src/db_handler.py:78 | The `AUTOINCREMENT` key's next id is above the largest id ever issued and above every id in use, and it is the least such id. So an id freed by deleting a user is never handed out again. |
| Accounts.TryLogin | src/login_page.py:34-44 | Both fields are stripped. `on_login` gets the stripped name exactly when a record with that name stores `hash(password)`. Otherwise the error text is shown, the password field is cleared and nobody logs in. |
| Accounts.LoginIffStored | src/login_page.py:34-41 | In a store with unique names, login succeeds exactly when some record has the stripped name and the hash of the stripped password. |
| Accounts.Register | src/login_page.py:79-93 | A blank name or password after stripping is refused, with the store unchanged. So is a name already in use. Otherwise exactly one record is appended, holding the stripped name, `hash(password)`, the role and the id `AUTOINCREMENT` hands out next. |
| Accounts.RegisterKeepsWellFormed | src/login_page.py:79-91 | Registration keeps ids and usernames unique. |
| Accounts.AppendKeepsWellFormed | src/login_page.py:91 | Appending a record with a fresh id and an unused name keeps the store well formed. |
| Accounts.RegisterThenLogin | src/login_page.py:34-91 | After a successful registration, the same credentials log in, whatever whitespace surrounds them. |
| Accounts.LoginAfterAppend | src/login_page.py:34-41 | A record appended under an unused name logs in with its own password. |
| Accounts.FindNameAppend | src/login_page.py:37 | An appended record with an unused name is the one the lookup finds. |
| Accounts.Update | src/edit_user_dialog.py:56-61 | Only records with the edited id change. They get the new name and role, and a new hash only when one is given. |
| Accounts.SaveUser | src/edit_user_dialog.py:43-63 | A blank name is refused, and so is a name held by another id; the store is unchanged in both cases. Keeping one's own name is allowed. A non-blank password updates name, role and hash together; a blank one updates only name and role. |
| Accounts.SaveKeepsWellFormed | src/edit_user_dialog.py:43-61 | An edit keeps ids and usernames unique. |
| Accounts.SaveThenLogin | src/edit_user_dialog.py:56-59 | After an edit that sets a password, the new name and password log in. |
| Accounts.Toggled | src/user_management.py:100-101 | "active" becomes "inactive"; any other status becomes "active". |
| Accounts.ToggleTwice | src/user_management.py:100-101 | On the two statuses in use, toggling twice restores the status. |
| Accounts.FindId | src/user_management.py:99 | The record with the id, or -1 exactly when there is none. |
| Accounts.SetStatus | src/db_handler.py:126-128 | Records with the id get the status and nothing else changes. |
| Accounts.ToggleOne | src/user_management.py:97-102 | A missing id fails the step; otherwise that user's status is toggled. |
| Accounts.ToggleSelected | src/user_management.py:89-104 | Users outside the selection are unchanged, and only the status of any user changes. |
| Accounts.ToggleSelectedToggles | src/user_management.py:94-102 | With existing, distinct ids selected, each selected user has its status toggled once and every other user is unchanged. |
| Accounts.ToggleStopsAtMissing | src/user_management.py:97-102 | A selected id with no user ends the loop there: the ids after it are not toggled. |
| Accounts.ToggleSelectedTwice | src/user_management.py:89-104 | Toggling one selected user twice restores the store. |
| UserAdmin.TotalPages | src/user_management.py:163-172 | `max(1, ceil(total / size))`: at least 1, and the smallest page count that holds every user. |
| UserAdmin.OffsetInRange | src/user_management.py:150 | On any page up to the last, the offset `(page - 1) * size` points at an existing row, and the next page's offset is one page further on. |
| UserAdmin.NextPage | src/user_management.py:171-176 | Moves forward exactly when a further page exists; otherwise nothing changes. |
| UserAdmin.PrevPage | src/user_management.py:177-181 | Moves back exactly when the page is after the first; otherwise nothing changes. |
| UserAdmin.ButtonStates | src/user_management.py:165-166 | Prev is enabled exactly when Prev would move, and Next exactly when Next would move. |
| UserAdmin.PagingKeepsInvariant | src/user_management.py:171-181 | Paging keeps the page at 1 or more, and paging forward never passes the last page. |
| UserAdmin.ParseLineId | src/user_management.py:65 | A line whose text before the first colon is blank gives no id. |
| UserAdmin.LineIdRoundTrip | src/user_management.py:161 | The id read back from a user's list line is that user's id. |
| UserAdmin.IdsFrom | src/user_management.py:65 | One id per selected line when all parse. |
| UserAdmin.SelectedIds | src/user_management.py:65 | One id per selected line when all parse. |
| UserAdmin.Listing | src/user_management.py:160-161 | One formatted line per user, in order. |
| UserAdmin.IdsAt | src/user_management.py:65 | The ids of the users at the selected positions, in selection order. |
| UserAdmin.SelectedIdsOfListing | src/user_management.py:160-161 | Selecting lines of the listing gives back exactly the listed users' ids. |
| UserAdmin.IdsFromRoundTrip | src/user_management.py:65 | With a parser that reads each line's id back, the selected lines give the selected users' ids. |
| Dispatch.SafeUiUpdate | src/report_page.py:225-244 | A shutting-down or vanished page drops the call unchanged. A live page gets exactly one more call, queued at the end, or run at once when `after` raises. |
| Dispatch.Pump | src/report_page.py:229-231 | The event loop runs the oldest queued call of a live widget, and does nothing otherwise. |
| Dispatch.Destroy | src/report_page.py:246-261 | The flag goes up, the widget goes, its queued calls go with it, and nothing that already ran is undone. |
| Dispatch.ReplayAppend | src/report_page.py:225-261 | Running two series of events equals running the first, then the second. |
| Dispatch.InertAfterDestroy | src/report_page.py:246-261 | A destroyed page stays unchanged whatever arrives later. |
| Dispatch.NothingRunsAfterDestroy | src/report_page.py:246-261 | The calls that ever run are those that ran before `destroy`. |
| Dispatch.StepLive | src/report_page.py:225-244 | One event on a live page keeps it live, loses no call and keeps FIFO order. |
| Dispatch.UpdateLive | src/report_page.py:225-244 | A live update adds exactly the submitted call to the calls run or pending. |
| Dispatch.LoopLive | src/report_page.py:229-231 | A loop step moves the oldest pending call to the calls run. |
| Dispatch.NothingLostWhileLive | src/report_page.py:225-244 | While the page lives, every submitted call has either run or is still pending. |
| Dispatch.InOrderWhileLive | src/report_page.py:225-244 | While the page lives and `after` works, calls run in exactly the order submitted. |
| Scheduler.Interval | src/report_page.py:279 | One interval lasts `max(1, minutes * 60)` one-second ticks. |
| Scheduler.StartSchedule | src/report_page.py:189-203 | While running, only an "already running" notice is shown. A non-integer or non-positive minute count is rejected without starting. Otherwise `sched_running` goes up and exactly one worker is added. |
| Scheduler.StopSchedule | src/report_page.py:263-265 | `sched_running` goes down and the workers are left as they are. |
| Scheduler.StopIdempotent | src/report_page.py:263-265 | Stopping twice leaves the flag, workers and run count as stopping once. |
| Scheduler.WorkerStep | src/report_page.py:270-282 | One worker step changes only that worker and the UI queue. |
| Scheduler.DispatchQueuesOne | src/report_page.py:270-275 | A dispatching step queues exactly one report request while the page is live; any other step leaves the UI alone. |
| Scheduler.StopEndsWorker | src/report_page.py:270-282 | After Stop, a worker exits within two of its own steps, wherever it was. |
| Scheduler.RunWorker | src/report_page.py:267-282 | A worker stopped after t ticks asks for exactly `ceil(t / interval)` reports. |
| Scheduler.TwoLiveWorkers | src/report_page.py:189-282 | As written: start, one step, stop and start again within one tick leaves two live workers that both keep generating reports. |
| Scheduler.OneCurrentInitial | src/report_page.py:189-202 | The corrected scheduler's invariant holds initially. |
| Scheduler.OneCurrentPreserved | src/report_page.py:189-282 | Start, stop and every corrected worker step keep that invariant. |
| Scheduler.OneLiveWorker | src/report_page.py:270-282 | Corrected: no two workers can both ask for reports. |
| DateRange.RangeParams | src/dashboard.py:389-395 | The farm id comes first, then the start date if given, then the end date if given. |
| DateRange.KeepsCalendarRange | src/dashboard.py:390-395 | For `YYYY-MM-DD` dates, the text filter keeps a day exactly when it lies in the calendar range. |
| Reports.BuiltinWithinStandard | src/report_page.py:175-186 | Without a custom list, every template's fields are a duplicate-free selection of the seven Standard fields, starting with the date. |
| Reports.StandardNoDup | src/report_page.py:186 | The Standard fields are distinct. |
| Reports.GddNoDup | src/report_page.py:179-184 | The Yield Focused and Anomaly Detection fields are distinct. |
| Reports.TrendNoDup | src/report_page.py:181-182 | The Climate Trends fields are distinct. |
| Reports.GddWithinStandard | src/report_page.py:179-186 | The Yield Focused fields are a subsequence of the Standard fields. |
| Reports.TrendWithinStandard | src/report_page.py:181-186 | The Climate Trends fields are a subsequence of the Standard fields. |
| Reports.ChooseTemplate | src/report_page.py:157-173 | For Customize, a non-empty answer gives its comma-split, stripped fields, and an empty or cancelled answer resets to Standard with no custom list. The other entries set their fixed lists or none. |
| Reports.FieldsAfterChoice | src/report_page.py:157-186 | After any choice, the fields used are those the choice set, or the template's fixed list. |
| Reports.Collect | src/report_page.py:328-352 | The loop raises only after adding some entries, and every entry carries the current user or "N/A". |
| Reports.ReportGuard | src/report_page.py:285-297 | A vanished widget, no farm, or two non-empty stripped dates with the start after the end as text each stop the report, and nothing else does. |
| Reports.GenerateReport | src/report_page.py:285-352 | A guard leaves `report_data` as it was. Otherwise the data is what the farm loop appended, the report raises exactly when the loop does, and there is no data exactly when the loop ends without entries. |
| Reports.RaisesAtFirstFarmWithRows | src/report_page.py:341-352 | When no farm's rows convert to floats, the report raises exactly when some farm has rows, and the data left is the first such farm's rows alone. |
| Reports.ReportWithDataRaises | src/report_page.py:285-352 | One farm with one non-numeric row, the Standard template and no dates: the report raises. |
| Reports.CollectAll | src/report_page.py:328-350 | Every entry of the intended loop carries the current user or "N/A". |
| Reports.GenerateReportFixed | src/report_page.py:285-350 | Never raises. The same guards apply; otherwise the data is every selected farm's entries and a report is built exactly when there are some. |
| Reports.CollectAllComplete | src/report_page.py:328-350 | Every row of every selected farm is in the intended data, under that farm's name and the current user. |
| Reports.CollectAllSound | src/report_page.py:328-350 | Every entry of the intended data is a row of some selected farm, under that farm's name. |
| Reports.AgreeWhenStatsOk | src/report_page.py:328-352 | Where the statistics never raise, the loop as written does not raise and gives exactly the intended data. |
| Reports.DateGuardIsCalendarOrder | src/report_page.py:292-297 | For `YYYY-MM-DD` dates, the guard reports a date error exactly when the end is an earlier day than the start. |
| Reports.Insert | src/report_page.py:130 | Inserting into a strictly sorted list keeps it strictly sorted and adds just that name. |
| Reports.SortedSet | src/report_page.py:130 | `sorted(set(names))` is strictly sorted and holds exactly the given names. |
| Reports.LoadUsers | src/report_page.py:127-132 | The user list is sorted and duplicate-free, holds the demo names and the current user's name (or "Guest"), and that name is selected. |
| Reports.LoadUsersStable | src/report_page.py:127-136 | Loading again after selecting a user from the box offers the same list. |
| Reports.SortedUnique | src/report_page.py:130 | Two strictly sorted lists of the same names are equal. |
| Visualization.SchedulePlot | src/visualization.py:219-239 | The timer last scheduled is cancelled and one new timer is scheduled and recorded. Should `after` raise, the plot is requested at once instead. |
| Visualization.Fire | src/visualization.py:234 | A pending timer leaves the queue and asks the gate for a plot; a cancelled one does nothing. |
| Visualization.Settle | src/visualization.py:234 | Running the recorded timer empties the queue and draws at most once. |
| Visualization.OnePendingKept | src/visualization.py:219-239 | Scheduling and firing keep at most one plot pending, and it is the recorded one. |
| Visualization.BurstLeavesOne | src/visualization.py:219-239 | A burst of calls draws nothing by itself and leaves exactly one timer pending. |
| Visualization.BurstDrawsOnce | tests/test_visualization_debounce.py:26-53 | Any number of rapid calls, twelve included, draw exactly one plot once the loop runs. |
| Visualization.FindChoice | src/visualization.py:383-387 | The first choice whose key or label equals the value, or none when none matches. |
| Visualization.ResolveMetric | src/visualization.py:381-391 | The matched choice's key, or the first choice's key (`temp_max`) when nothing matches. |
| Visualization.ResolveOverlay | src/visualization.py:393-400 | Nothing when the overlay is off or unmatched; otherwise the matched key. |
| Visualization.ResolveByKeyOrLabel | src/visualization.py:383-400 | In an unambiguous choice list, a key or a label resolves to its own entry. |
| Visualization.NextAngle | src/visualization.py:193 | The angle stays in [0, 360) and stays a multiple of 30. |
| Visualization.NextOnDial | src/visualization.py:193 | Each frame moves to the next of the twelve positions, wrapping at 330. |
| Visualization.SpinCycle | src/visualization.py:193 | After n frames from a dial position, the spinner is n positions on, mod twelve, and always on the dial. |
| Visualization.SpinFullTurns | src/visualization.py:193 | Every twelve frames, the spinner is back where it began. |
| Visualization.PlotRequest | src/visualization.py:418-437 | Without a truthy farm, the plot warns and runs no query; otherwise the query's first parameter is the farm. |
| Visualization.PlotNeedsFarm | src/visualization.py:418-437 | No farm means no query. With a farm, the parameters are the farm, then the stripped start and the stripped end, each only when not blank. |
| Visualization.PaddedDatesSameRequest | src/visualization.py:422-437 | Whitespace around the typed dates does not change the query. |
| Visualization.SameStrippedSameRequest | src/visualization.py:422-437 | Two pairs of typed dates that strip to the same texts give the same request. |
| Farms.LoadFarms | src/visualization.py:593-602 | Labels and ids run parallel to the farm list. The first farm is selected, or none when the list is empty. |
| Farms.OnFarmSelected | src/visualization.py:604-609 | The id at the index exactly when the index is in range; otherwise none. |
| Farms.SelectAfterLoad | src/prediction.py:104-182 | Choosing a label after loading selects that label's farm. |
| Notifications.Register | src/notifications.py:12-17 | The subscriber is present afterwards, it is appended only when absent, and the list stays duplicate-free. |
| Notifications.RemoveFirst | src/notifications.py:23 | `list.remove` drops one occurrence and nothing else. |
| Notifications.Unregister | src/notifications.py:20-25 | An absent subscriber is a no-op. A present one is removed and everyone else stays. |
| Notifications.RegisterIdempotent | src/notifications.py:12-25 | Registering twice equals registering once, and unregistering undoes a fresh registration. |
| Notifications.UnregisterLast | src/notifications.py:12-25 | Removing a freshly appended subscriber gives back the old list. |
| Notifications.DeliverTo | src/notifications.py:36-80 | A subscriber with the backend hook gets only that call, with type and message. One with only `add_notification` gets just the message. A failing or deaf subscriber gets nothing. |
| Notifications.Notify | src/notifications.py:28-80 | At most one delivery per subscriber, and only to subscribers. |
| Notifications.NotifyIsolated | src/notifications.py:35-80 | Each subscriber receives exactly what it alone would receive, whatever the others do. |
| Sidebar.NavItems | src/sidebar.py:113-122 | Non-admins get four entries. Admins get six, with Upload at index 1 and User Management last. |
| Sidebar.AdminNavExtends | src/sidebar.py:113-122 | Removing the two admin entries leaves the ordinary list. |
| Sidebar.Navigate | src/sidebar.py:151-154 | The action count rises by one and the page is shown. |
| Sidebar.NavigateCounts | src/sidebar.py:151-154 | After any clicks, the count rises by the number of clicks and the pages shown are the keys clicked, in order. |
| Sidebar.UpdateApiQuota | src/sidebar.py:270-272 | The quota becomes `max(0, quota - used)`, so it is never negative. |
| Sidebar.SpendAllIsOneSpend | src/sidebar.py:270-272 | Spending a series of amounts equals spending their total once. |
| Sidebar.AddNotification | src/sidebar.py:195-211 | While live, exactly one message is queued. When shut down, when gone, or when `after` raises, it is dropped. |
| Sidebar.BackendEvent | src/sidebar.py:264-267 | Adds `"[TYPE] message"` with the type upper-cased, only when notifications are on; the preference defaults to on. |
| Sidebar.EventArrives | src/sidebar.py:195-267 | A live sidebar whose user wants notifications shows the tagged event once the loop runs. With the preference off, or after shutdown, nothing changes. |
| Sidebar.ClearNotifications | src/sidebar.py:213-215 | The list is emptied; already queued additions stay queued. |
| Sidebar.ClearThenDrain | src/sidebar.py:213-215 | After a clear, the list ends up holding exactly the messages that were still queued. |
| Sidebar.DrainAll | src/sidebar.py:195-211 | Running the loop once per queued call runs them all, in order. |
| Sidebar.StopSocket | src/sidebar.py:39-59 | As written: the shutdown flag goes up, but without socket.io the subscriber list is untouched. |
| Sidebar.StaleSubscription | src/sidebar.py:39-59 | Without socket.io, a stopped sidebar is still subscribed and keeps being handed every event. |
| Sidebar.DeliveredWhenSubscribed | src/notifications.py:35-57 | A subscribed backend-hook subscriber that does not raise receives the event. |
| Sidebar.StopSocketFixed | src/sidebar.py:39-59 | Corrected: the flag goes up and the sidebar always leaves the subscriber list. |
| Sidebar.StoppedSidebarHearsNothing | src/sidebar.py:39-59 | After the corrected stop, no event reaches the sidebar, and every other subscriber receives what it did before. |
| Dashboard.MetricsFor | src/dashboard.py:384-386 | The metrics rows with the same farm and date, each as often as the table holds it; empty exactly when there is none. |
| Dashboard.Join | src/dashboard.py:382-386 | One row per matching metrics row, or one row with null metric columns when none matches; the climate columns are copied into each. |
| Dashboard.Select | src/dashboard.py:382-398 | Every returned row lies in the date range. |
| Dashboard.SelectSound | src/dashboard.py:382-398 | Every returned row is one of the joined rows of a selected climate row of the farm. |
| Dashboard.SelectComplete | src/dashboard.py:382-398 | Every joined row of every selected climate row of the farm is returned. |
| Dashboard.UniqueMetricsFor | src/db_handler.py:64-73 | With at most one metrics row per farm and date, a climate row matches at most one. |
| Dashboard.SelectCount | src/dashboard.py:382-398 | With at most one metrics row per farm and date, there is exactly one returned row per selected climate row. |
| Dashboard.DuplicateMetricsDoubleRows | src/db_handler.py:64-73 | `agri_metrics` has no key on farm and date, so two equal metrics rows make one climate day appear twice. |
| Dashboard.Columns | src/dashboard.py:400-408 | Seven lists of equal length, column by column, in row order. |
| Dashboard.Table | src/dashboard.py:400-409 | One table row per entry of the parallel lists. |
| Dashboard.TableIsQueryRows | src/dashboard.py:400-409 | Zipping the seven lists back together gives the query rows. |
| Dashboard.GetTrends | src/dashboard.py:379-409 | Seven empty lists without a farm; otherwise seven equal-length lists that zip back to the query rows. |
| Dashboard.TrendsExact | src/dashboard.py:379-409 | The dates shown include every selected climate day of the farm and lie in the range. With at most one metrics row per farm and date, there is one date per selected climate row. |
| Dashboard.SelectedShown | src/dashboard.py:400-408 | Every returned row's date appears in the date list. |
| Dashboard.Normalize | src/dashboard.py:686-689 | A blank or whitespace-only entry becomes None; otherwise the stripped text. |
| Dashboard.NormalizeStable | src/dashboard.py:686-689 | A normalised entry counts as given exactly when present, and normalising it again changes nothing. |
| Dashboard.BlankFilterIsNoFilter | src/dashboard.py:684-691 | Whitespace-only entries filter nothing. |
| Dashboard.StrippedDateSameRows | src/dashboard.py:684-691 | An entry with whitespace around a date selects the same rows as the bare date. |
| Dashboard.Latest | src/dashboard.py:533-537 | The first twenty rows as a prefix: all of them when there are at most twenty, otherwise exactly twenty. |
| Dashboard.Classify | src/dashboard.py:541-551 | A warning always names at least one alert and never more than the rows. |
| Dashboard.ShowAlerts | src/dashboard.py:526-551 | No farm gives the "No farm selected" warning. Otherwise a warning names at most twenty alerts of each kind. |
| Dashboard.ShowAlertsExact | src/dashboard.py:526-551 | For a selected farm, the page reports "No alerts" exactly when none of the alert query's rows is hot or dry. Otherwise a row is listed as hot (or dry) exactly when it is one of those rows and hot (or dry). |
| Dashboard.ClassifyExact | src/dashboard.py:541-551 | The page reports "No alerts" exactly when no row has non-null `temp_max > 35.0` or non-null effective rainfall `< 5.0`. Otherwise the hot and dry lists hold exactly those rows. |
| Dashboard.MissingMetricsNeverDry | src/dashboard.py:533-542 | A day without a metrics row joins to one row with null metrics, which never raises a rain alert. |
| Dashboard.NoFarmsNothingShown | src/dashboard.py:380-381 | With no farm in the database, the chart has empty lists and the alerts ask for a farm. |
| Prediction.ValidateInput | src/prediction.py:184-199 | A triple is returned exactly when all three texts parse as floats and `-50 <= temp <= 60`, `0 <= rain <= 1000` and `0 <= gdd <= 10000` hold inclusively. It holds the parsed values; otherwise None. |
| Prediction.ValidateWholeNumbers | src/prediction.py:184-199 | Whole numbers written in decimal pass exactly when within the three ranges. |
| Prediction.ValidateParsed | src/prediction.py:184-199 | For texts that parse to finite numbers, validation depends only on those numbers. |
| Prediction.PredictAll | src/prediction.py:367-376 | Without a model: the formula for every reading. With a model: one prediction per reading, failing exactly when some reading fails. |
| Prediction.Accepted | src/prediction.py:346-353 | One reading per record with at least three cells that validate, in file order. |
| Prediction.AcceptedAppend | src/prediction.py:346-353 | The readings of two runs of records are the readings of each, concatenated. |
| Prediction.SkippedRecord | src/prediction.py:349-353 | A short or invalid record adds nothing, wherever it stands. |
| Prediction.AcceptedSkips | src/prediction.py:349-353 | A single short or invalid record yields no reading. |
| Prediction.BatchPredictCsv | src/prediction.py:343-382 | "No valid rows" exactly when no record is acceptable. A model error only comes from a loaded model. On success, history keeps its old entries and grows by exactly the accepted rows, each under the farm name and its reading. |
| Prediction.BatchGrowth | src/prediction.py:343-382 | Without a model, the batch succeeds exactly when some record is acceptable, and history grows by the accepted count. |
| Prediction.PerFarmBatch | src/prediction.py:384-416 | No farms or invalid inputs leave the history unchanged. Otherwise exactly one entry per farm is appended, in farm order. |
| Prediction.AppendPerFarm | src/prediction.py:396-414 | The loop appends one entry per label, in order, and keeps the earlier history. |
| Prediction.Predict | src/prediction.py:399-405 | Without a model, the formula `0.8*temp + 0.5*rain + 0.03*gdd + 10`. |
| Prediction.BatchOfOneAgrees | src/prediction.py:367-405 | A batch of one reading and a per-farm prediction agree. |
| App.FactoryKind | src/main.py:462-491 | The user_management factory exists only for admins. "prediction" builds the Report page and "report" builds the Prediction page. Unknown keys have no factory. |
| App.FactoryInverse | src/main.py:478-491 | Each page class has exactly one key, and every reachable class is built by that key. |
| App.ShowPage | src/main.py:555-604 | A cached page is shown again without a factory call. A missing factory gives "Access Denied" with pages and current page unchanged. A raising factory gives an error with nothing cached and the current page unchanged. A factory returning None is cached as None and reported. A page is cached and becomes current. |
| App.BuiltAppend | src/main.py:562-564 | A call counts as a build exactly when it built this key's page. |
| App.ConsistentInitial | src/main.py:492 | The empty cache is consistent. |
| App.ShowPageConsistent | src/main.py:555-567 | `show_page` keeps the cache consistent: a key has a page cached exactly when its factory built one, at most once. |
| App.BuildConsistent | src/main.py:562-564 | A first successful build caches the page and counts one build. |
| App.FailConsistent | src/main.py:557-567 | A failed call builds nothing and caches no page. |
| App.EachPageBuiltOnce | src/main.py:555-567 | However the user navigates, each factory builds its page at most once. |
| App.NonAdminDenied | src/main.py:557-561 | A non-admin is always denied User Management, with nothing changed. |
| App.NavClick | src/main.py:213-221 | The clicked key's button gets the success style and every other button the secondary style, and the key becomes active. |
| App.HideTooltip | src/main.py:206-211 | Hiding the tooltip also forgets the active key. |
| App.OneHighlighted | src/main.py:213-221 | With distinct keys, exactly one button is highlighted when the key is on the bar. |
| App.Firsts | src/main.py:230 | The first character of each word. |
| App.InitialsOf | src/main.py:230 | At most two initials, upper-cased first characters of the first words. |
| App.Initials | src/main.py:230 | The upper-cased first characters of the first two whitespace-separated words; empty exactly for a blank name. |
| App.Avatar | src/main.py:230-231 | Never empty: the initials, or the placeholder for a blank name. |
| App.InitialsIgnoreLeadingBlanks | src/main.py:230 | Leading whitespace does not change the initials. |
| App.Logout | src/main.py:613-640 | Every non-None cached page is torn down and destroyed, and its `_shutdown` is set when it has the flag. None entries are skipped. |
| App.LogoutReportPage | src/main.py:613-640 | Logout leaves the report page stopped, flagged, destroyed and with nothing queued. |
| App.LogoutSilencesScheduler | src/main.py:613-640 | After logout, no scheduler worker asks for a report, and every worker exits within two steps. |
| Text.TrimLeft | src/login_page.py:35 | Drops exactly the leading whitespace. |
| Text.TrimRight | src/login_page.py:35 | Drops exactly the trailing whitespace. |
| Text.Strip | src/login_page.py:35-36 | No whitespace at either end, and empty exactly for an all-whitespace text. |
| Text.StripIdempotent | src/login_page.py:35-36 | Stripping twice equals stripping once. |
| Text.StripAround | src/dashboard.py:686-687 | Whitespace around a trimmed text strips away. |
| Text.Lower | src/import_utils.py:21 | Lower-cases character by character. |
| Text.Upper | src/sidebar.py:267 | Upper-cases character by character. |
| Text.LowerIdempotent | src/import_utils.py:21 | Lower-casing leaves no upper-case ASCII letter, and doing it twice equals doing it once. |
| Text.SplitOn | src/db_handler.py:105 | At least one part, none containing the separator, and joining them back gives the text. |
| Text.SplitWs | src/main.py:230 | Non-empty whitespace-free words; none exactly for a blank text. |
| Text.SplitWsCons | src/main.py:230 | Blanks, then a word, then a text that is empty or starts with a blank split into that word followed by the split of the rest; so the words are the maximal blank-free runs, in order. |
| Text.LexTrichotomy | src/report_page.py:297 | Text order is total. |
| Text.LexTransitive | src/report_page.py:297 | Text order is transitive. |
| Numbers.NatToString | src/user_management.py:161 | `str(n)`: digits without a superfluous leading zero, worth n. |
| Numbers.ParseInt | src/report_page.py:194 | `int()` rejects blank text and any text not ending in a digit after stripping. |
| Numbers.ParseIntOfNat | src/user_management.py:65 | `int(str(n)) == n`, also with whitespace around. |
| Numbers.ParseFloat | src/upload_page.py:202 | `float()` rejects blank text. |
| Numbers.ParseFloatOfNat | src/prediction.py:187-189 | `float(str(n)) == n`. |
| Dates.ParseIsoDate | src/upload_page.py:196 | Only real calendar days parse. |
| Dates.ParseFormat | src/upload_page.py:196 | Every real day written as `YYYY-MM-DD` parses back to itself. |
| Dates.IsoTextOrder | src/report_page.py:297 | `YYYY-MM-DD` texts compare as text exactly as their days compare in the calendar. |

## Left out

- Widget construction, layout, theming, tooltips, fades and matplotlib drawing: these are UI with no statable rule beyond the flags modelled.
- SQL text, cursors and commits: tables are record sequences and queries are their filters. `ORDER BY` is not modelled.
- Dashboard.Select: returns rows in table order instead of `ORDER BY c.date ASC`, because sorting is not modelled.
- Dashboard.ShowAlerts: scans the first twenty joined rows in the order given, while the source takes the twenty newest (`ORDER BY c.date DESC LIMIT 20`); which days are newest is not modelled.
- Dashboard.Join: duplicate metrics rows arise because `agri_metrics` has no unique key on farm and date; the model allows any number of them and the count lemmas assume at most one.
- FileImport.NormalizeColumns: column labels are modelled as text. `pd.read_excel` gives a numeric or date header cell a non-string label, and `c.strip()` then raises AttributeError; that raise is not modelled.
- FileImport.Get: a label occurring twice after normalisation is read at its first column, while pandas returns a Series whose truth test in `if not fid` raises; that raise is not modelled.
- Text.Strip: whitespace is the ASCII part only, so U+00A0 and other Unicode spaces are kept where Python strips them; this reaches Accounts.TryLogin, Reports.ChooseTemplate and Dashboard.Normalize.
- Text.TrimLeft: the same ASCII-only whitespace as Text.Strip.
- Text.TrimRight: the same ASCII-only whitespace as Text.Strip.
- Text.Upper: maps only `a`-`z`; `str.upper()` also maps other letters and can lengthen a text (`ß` becomes `SS`), so the length-preserving contract holds for ASCII text only.
- Text.SplitWs: splits on ASCII whitespace only, unlike `str.split()`.
- App.Initials: splits and upper-cases through Text.SplitWs and Text.Upper, so words separated by U+00A0 count as one and `ß` gives one initial here where Python gives `SS`.
- App.InitialsOf: upper-cases through Text.Upper, so its length bound of one character per word holds for ASCII only; Python's `upper()` can give two characters for one initial.
- Dashboard.Latest: takes the first twenty rows in the order given and assumes that input is already newest-first (`ORDER BY c.date DESC LIMIT 20`).
- Db.ImportCsv: counts a row as inserted even when the insert itself fails, because `execute_query` swallows SQL errors; the model follows that and says nothing about database errors.
- Db.GetUsersQuery: builds the query parts; running the query and its paging against the table are not modelled.
- Numbers.ParseInt: accepts ASCII digits and ASCII whitespace only, while Python also accepts other Unicode digits and spaces.
- Numbers.ParseFloat: values are exact decimals (`real`), not binary doubles, so rounding at the range limits of `validate_input` is not modelled. It also accepts ASCII digits and ASCII whitespace only: `float()` accepts other Unicode decimal digits (such as Arabic-Indic `١٢.٥`) and Unicode whitespace (such as U+00A0) around the number, and the model rejects them. This reaches Upload.ValidateRow, Prediction.ValidateInput and Db.Convert.
- Dates.ParseIsoDate: accepts ASCII digits only, while `strptime`'s `%Y`, `%m` and `%d` also match other Unicode decimal digits (such as Arabic-Indic ones); such dates are rejected here and accepted by Python. This reaches Upload.ValidateRow.
- Prediction.ValidateInput: compares exact decimal values, so a text that rounds onto a limit as a double but lies beyond it as a decimal is rejected here and accepted by Python.
- Text.Lower: case mapping is ASCII only; `str.lower()` also maps other letters.
- Password hashing: SHA-256 is the parameter `h`.
- The trained model in `prediction.py` (scikit-learn), the regression, RMSE, analytics, outlier detection and summary labels: these are floating-point numerics. A loaded model is a function parameter that may fail.
- `run_prediction` and the formula branch of `show_model_info` in `src/prediction.py`: the first is a stub and the second is unreachable.
- Network I/O: socket.io listeners and the `requests` cloud export and prediction calls. Only the `stop_socket` flag logic is modelled.
- File I/O: audit logs, PNG/PDF/CSV export and template download. Reading a file is a parameter holding its rows; `os.path.isfile` is a boolean parameter.
- Threads and timing: real threads, `Event().wait(1)` and Tk `after` delays. These are atomic steps; one worker step is one second.
- The Streamlit `app.py`, `animations.py`, `tk_diagnostics.py`, `featured_media.py`, `home_about.py`, `contact_page.py` and `ingest.py`: these are a separate web page script, animations, static pages and a command-line wrapper.
- The sidebar in `src/sidebar.py`: its widget-building code, the navigation list included, sits inside `stop_socket` after that method's `return`. The model treats the list as what the sidebar is evidently meant to show. The window itself uses the Sidebar class of `src/main.py`, whose own widget code sits inside `_on_nav_click`.

Four behaviours of the code a reader may not expect; the model keeps each as written:

- The prediction and report factories are swapped on purpose in the code, and the model keeps the swap.
- A call already queued on a page still runs when only the `_shutdown` flag is set. Only `destroy` removes queued calls. Logout sets the report page's flag before calling `stop_schedule`, so the "stopped" notice is dropped.
- When `after` raises, the gate runs the call at once on whichever thread asked, not only on the UI thread.
- The report scheduler can be started again while an old worker is still waiting; see Findings.

## Findings

| source | as written | input that shows it | evidently intended | confidence | as-written member | corrected member |
|---|---|---|---|---|---|---|
| src/import_utils.py:31-33,46 | `fid = farm_id or row.get('farm_id')`, then `if not fid: continue` | A CSV with a `farm_id` column and a blank cell in it, imported with no `farm_id` argument. pandas reads the blank as NaN, NaN is truthy, and the row is written and counted | Rows without a farm id are skipped and not counted | not executed | FileImport.BlankFarmIdCounted | FileImport.ImportFileToDbFixed |
| src/report_page.py:189-202,263-282 | `start_schedule` checks only `sched_running`, and the old worker re-checks that same flag | Start with 1 minute, Stop, then Start again within the same second. The first worker's next check sees `sched_running` up again and keeps going, so two workers generate reports | At most one worker generates reports after a restart | not executed | Scheduler.TwoLiveWorkers | Scheduler.OneLiveWorker |
| src/sidebar.py:39-59 | `stop_socket` returns before `unregister_notif` when socket.io is missing | Stop the sidebar on a machine without python-socketio. It stays in the notification centre's list and is handed every later event | Stopping always leaves the subscriber list | not executed | Sidebar.StaleSubscription | Sidebar.StoppedSidebarHearsNothing |
| src/report_page.py:341-352 | `np.array(rows, dtype=float)` on the rows of each farm, whose first column is the `YYYY-MM-DD` date text | One farm with one row dated 2024-01-01, the Standard template and no dates. The conversion raises ValueError after that farm's entries are added, so no report is built and later farms are never read | Every selected farm's rows are collected and the report is built | not executed | Reports.ReportWithDataRaises | Reports.GenerateReportFixed |
