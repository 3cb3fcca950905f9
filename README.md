# crawler_nuri in Dafny

This project models the logic core of crawler_nuri, a crawler for the bid notices on the Nuri marketplace (누리장터). The crawler searches the notice list for a date range and walks the result pages row by row. It opens each notice it has not seen, extracts the detail page's sections into a record, and saves that record. It keeps a ledger of the ids it has already visited, so that later runs skip them or stop at them.

The modules follow the program's structure:

- `Text`: `clean_text`, together with the Python `str.strip`, `str.replace` and `in` operations it is built from.
- `Dict`: a Python `dict` with string keys, kept as its entries in insertion order. Assigning an existing key overwrites it where it stands.
- `Json`: the values handed to `json.dumps`, and Python truthiness.
- `Storage`: the `DataStorage` class. It holds the visited-id set, the ledger file `visited_ids.txt` and the record log `nuri_data.jsonl`. A functional twin (`StoreState`, `AfterSave`) carries the properties over runs of saves and restarts.
- `Retry`: the `retry_action` decorator.
- `Dates`: the row date found by `re.search` and the `strptime(…, "%Y%m%d")` parse. It includes strptime's lenient handling of short inputs.
- `Extractor`:
  - `_get_element_value`, `_parse_table` and `_parse_grid`;
  - the section scan of `extract_detail_info`, over plain data in place of the DOM.
- `Callback`: the `save_callback` closure of `run_task`.
- `Traversal`: the page and row loop of `crawl_period_pages`, including the cutoff counter and the duplicate stop.
- `RunTask`: the mode to policy and dates choice, the history-mode argument check, and `run_task`.

Each loop of the source is a method with loop invariants, proved against a specification function. The properties are lemmas about those functions:

- `LoadVisitedIds` and `SaveData`;
- `RetryAction`;
- `ParseTable`, `FillRecord` and `ParseGrid`;
- `ExtractDetailInfo`;
- `ProcessRow` and `CrawlPeriodPages`;
- `SaveCallback` and `RunTask`.

## Model

| member | source | states |
|---|---|---|
| Text.CleanTextShape | src/utils.py:11-17 | the result has no `\n` and no `\r`, no whitespace at either end, is never longer than the input, and is `""` for `""` |
| Text.CleanTextIdempotent | src/utils.py:17 | cleaning twice gives the same as cleaning once |
| Text.CleanTextCounts | src/utils.py:17 | every character other than line breaks and spaces occurs as often as in `strip(s)`; the spaces are those of `strip(s)` plus one per `\n` |
| Text.CleanTextWithoutCarriageReturn | src/utils.py:17 | without `\r` the result is `strip(s)` position by position, with each `\n` read as a space |
| Text.CleanTextKeepsInnerRun | src/utils.py:17 | inner spaces and tabs are kept; whitespace is not collapsed |
| Text.CleanTextJoinsCrLf | src/utils.py:17 | a `\r\n` inside the text becomes a single space |
| Text.CleanTextOfBlank | src/utils.py:13-17 | whitespace-only text cleans to `""` |
| Text.StripCut | src/utils.py:17 | `strip` removes exactly the leading and the trailing whitespace run |
| Dict.PutPairsLastWins | src/crawler.py:229-230 | after a run of `d[key] = val` assignments, a key holds the value of its last assignment |
| Dict.PutPairsKeys | src/crawler.py:229-230 | the keys after the run are the old keys and every kept label of the run |
| Dict.PutPairsUnique | src/crawler.py:229-230 | the keys stay distinct |
| Dict.PutAll | src/crawler.py:226-230 | the assignment loop gives the dictionary of the run of assignments |
| Storage.LoadVisitedIds | src/storage.py:17-28 | the loaded set is exactly the non-empty stripped lines of the ledger text |
| Storage.LinesAppend | src/storage.py:21-22 | the lines of a text that ends a line, followed by more text, are the lines of each part |
| Storage.DataStorage.constructor | src/storage.py:5-15 | the id set is loaded from the ledger; a ledger that ends a line makes the state resumable |
| Storage.DataStorage.SaveData | src/storage.py:33-53 | falsy data changes nothing. Truthy data adds the id to the set. A new id appends one ledger line `id + "\n"`. The log gets the record even for a known id. A failing append stops the save there. The count grows by 0 or 1, and `is_new(id)` becomes false |
| Storage.SaveKeepsResumable | src/storage.py:17-42 | after a save whose ledger append succeeds, a restart reloads every well-formed id the process knows, including the saved one |
| Storage.LedgerFailureForgottenOnRestart | src/storage.py:39-42 | when the ledger append fails for a new id, the process treats it as known but a restart does not |
| Storage.KnownAfterSaves | src/storage.py:33-40 | after any run of saves, the known ids are the old ones plus the id of every save with truthy data, whatever the write faults; the count grows by the number of those ids that were not known |
| Storage.TruthyIdsMembers | src/storage.py:34-40 | an id is among those a run of saves adds exactly when one of its saves had truthy data |
| Storage.IsNewAfterSaves | src/storage.py:5-56 | after start-up from a ledger and any run of saves, `is_new(id)` holds exactly when the ledger did not hold the id and no save of it had truthy data; `get_stats()` is the number of ids loaded or saved |
| Storage.LedgerRecordsEachIdOnce | src/storage.py:39-42 | over any run of saves, the ledger gains a line for an id exactly when the id was not known before and its first save with truthy data did not fail to append. It gains the lines in order, never twice for the same id, and each such id is known afterwards |
| Storage.LogRecordsEverySave | src/storage.py:45-48 | without write failures, the log receives every truthy record in order, repeated ids included |
| Storage.RepeatedSaveDuplicatesRecord | src/storage.py:39-48 | saving the same record twice logs it twice and writes the ledger line at most once |
| Retry.RetryAction | src/crawler.py:8-22 | the loop's result, number of calls and number of pauses are those of the retry specification |
| Retry.RetryShape | src/crawler.py:8-22 | at most `max_retries` calls, with all calls before the last one failing. The first success is returned unchanged after one pause per earlier failure. Otherwise the last failure is re-raised after exactly `max_retries` calls and pauses |
| Retry.FirstSuccessWins | src/crawler.py:12-13 | if call `i` is the first that returns, the wrapper returns its value after `i + 1` calls |
| Retry.NonRaisingActionIsCalledOnce | src/crawler.py:123-167 | an action that catches its own errors, such as `search_period`, is called exactly once |
| Retry.ZeroRetriesRaiseNone | src/crawler.py:11-20 | with zero retries nothing is called and `None` is raised |
| Dates.FindDate | src/crawler.py:421 | the position given is the leftmost `dddd/dd/dd` in the row text, or there is none |
| Dates.ParseYmd | src/crawler.py:425 | a successful parse is a valid calendar date whose year is the first four digits |
| Dates.ParseCutoff | src/crawler.py:382-387 | no cutoff for `None` or `""`; a cutoff that is set is a valid date |
| Dates.EightDigitsParse | src/crawler.py:425 | on eight digits, the parse succeeds exactly when the year-month-day split names a valid date, and gives that date |
| Dates.RowDateIsLeftmost | src/crawler.py:421-425 | the row date is the leftmost match, and parses exactly when that match is a calendar date |
| Dates.SevenCharacterCutoff | src/crawler.py:385 | `"2024111"` parses as 1 November 2024 |
| Dates.SixCharacterCutoff | src/crawler.py:385 | `"202411"` parses as 1 January 2024 |
| Dates.InvalidCalendarDates | src/crawler.py:425 | month 13 and 30 February are rejected |
| Dates.BeforeStrictOrder | src/crawler.py:428 | the date comparison is a strict total order |
| Extractor.ElementValuePrecedence | src/crawler.py:186-211 | order of precedence: a failing select script gives `""`; then a non-empty option text without "선택"; then a non-empty input value; when none of these applies, the value is the cleaned inner text |
| Extractor.ElementValueClean | src/crawler.py:186-211 | the value is always clean text |
| Extractor.BlankChoiceHidesInput | src/crawler.py:195-196 | a whitespace-only option text wins over the input and yields `""` |
| Extractor.ParseTable | src/crawler.py:214-233 | the loops give the table of all rows' pairs, assigned in reading order |
| Extractor.TableKeys | src/crawler.py:224-230 | the keys are exactly the non-empty cleaned labels that have a `td` beside them (`j < min(#th, #td)`), each once |
| Extractor.TableLastWins | src/crawler.py:229-230 | a repeated label keeps the value of its last occurrence |
| Extractor.TableEntriesClean | src/crawler.py:227-228 | every stored label and value is clean text |
| Extractor.FillRecord | src/crawler.py:274-287 | the record holds the kept columns' assignments, and `has_data` is true exactly when some kept column's value is non-empty |
| Extractor.ParseGrid | src/crawler.py:236-293 | the loops give the grid specification: `[]` without headers or body, skipping "데이터가 없음" rows, one record per row with data |
| Extractor.GridRowsMembers | src/crawler.py:261-290 | a record is in the list exactly when some kept row yields it; there are never more records than rows |
| Extractor.GridRecordShape | src/crawler.py:278-285 | a record's labels are distinct, non-empty header labels outside `No`, `NO`, `선택` and `미리보기`, and its values are clean |
| Extractor.GridWithoutHeadersOrBody | src/crawler.py:252-258 | no header row, an empty header row or no body gives `[]` |
| Extractor.DuplicateHeaderKeepsEmptyRecord | src/crawler.py:281-287 | `has_data` looks at the values written: two columns both headed "A", with values "x" and "", give the record `{"A": ""}` |
| Extractor.RouteOfShape | src/crawler.py:315-369 | only visible, titled, visible-box grid or table sections that are neither calendar nor search form are stored. A grid is preferred over a table. A grid whose title has "파일" goes to `files`; any other section is stored under its cleaned title |
| Extractor.ExtractDetailInfo | src/crawler.py:313-374 | the loop collects the routes of the sections up to the first unreadable one |
| Extractor.CollectSnoc | src/crawler.py:359-369 | one more section assigns `sections[name]`, replaces `files`, or changes nothing |
| Extractor.DetailSectionNames | src/crawler.py:359-369 | the stored names are exactly the titles of the readable data sections that are not attachment grids, each once |
| Extractor.DetailLastSectionWins | src/crawler.py:364-369 | a title used twice keeps the later section's body |
| Extractor.DetailFiles | src/crawler.py:361-362 | `files` is the attachment grid of the last section that has one, or `[]` |
| Extractor.ScanStopsAtUnreadable | src/crawler.py:313-372 | nothing after a section whose queries raise reaches the result |
| Callback.SaveCallback | main.py:43-54 | the new storage state and the answer are those of the callback specification |
| Callback.CheckOnlyWritesNothing | main.py:45-49 | a check writes nothing and answers `is_new(id)`, whatever the data |
| Callback.SaveAnswersTruthiness | main.py:51-54 | a save answers whether the data was truthy; falsy data writes nothing |
| Callback.CheckThenSave | main.py:43-54 | a check answering "new" followed by a fault-free save adds one ledger line and one log record, and the id is then known |
| Callback.SaveOfKnownIdOnlyLogs | main.py:51-53 | saving a known id logs the record again and leaves the ledger alone |
| Traversal.ProcessRow | src/crawler.py:410-479 | the row body's counter, saved ids, storage and stop signal are those of the row specification |
| Traversal.CrawlPeriodPages | src/crawler.py:378-511 | the loops' storage, saved ids, end reason and `current_page` are those of the traversal specification |
| Traversal.RunRowsAfterStop | src/crawler.py:433-454 | rows after a stop signal are never looked at |
| Traversal.StampRecordShape | src/crawler.py:463-466 | the saved record is a non-empty object with keys sections, files, id, title, crawled_at in that order, carrying the cleaned id and title |
| Traversal.SavedIdsAreNew | src/crawler.py:447-468 | each id is saved at most once and only if it was unknown when the traversal started; afterwards the storage knows exactly the old ids and the saved ones |
| Traversal.RowStepCounter | src/crawler.py:419-441 | a listed row dated before the cutoff is not opened and adds one to the counter, and the third in a row stops. A dated row on or after the cutoff resets the counter. Undated, unlisted or unparsable rows leave it alone |
| Traversal.StaleRowsStop | src/crawler.py:428-438 | a run of stale rows counts up from where the counter stood and stops on the row that brings it to three |
| Traversal.PageBoundaryKeepsCounter | src/crawler.py:389-392 | the counter carries over from one page to the next |
| Traversal.StaleOpeningStops | src/crawler.py:428-438 | a page that opens with enough stale rows to bring the counter to three stops there with `CutoffReached`, whatever rows follow |
| Traversal.StaleRowsAcrossPages | src/crawler.py:389-441 | stale rows that fill one page and stale rows that open the next add up: the traversal stops on page 2 once the count reaches three |
| Traversal.RunRowsStopReason | src/crawler.py:433-454 | rows stop the traversal only through the cutoff when one is set, or a known id with `stop_on_duplicate` |
| Traversal.CrawlEnds | src/crawler.py:392-511 | every page passed had rows, did not stop and was left by a click. The walk ends on the first page without rows (exactly then), with no next control, with a pagination error, or with a stop from its rows. `current_page` is that page's number |
| Traversal.TraversalEnd | src/crawler.py:380-511 | from the start, `current_page - 1` clicks happened. With no cutoff, the cutoff never ends the walk. Without `stop_on_duplicate`, a known id never does |
| Traversal.KnownIdRow | src/crawler.py:447-458 | a known id stops the traversal with `stop_on_duplicate` and otherwise only skips its row |
| Traversal.HistoryPageSaves | src/crawler.py:409-468 | in history mode, a page never stops, and it saves the first occurrence of each opened row's id that was not known, in row order |
| Traversal.HistorySaves | src/crawler.py:392-511 | in history mode, the traversal saves the first occurrence of each unknown opened id over all pages it looked at, in order |
| Traversal.ScheduledRowStep | src/crawler.py:443-468 | in interval or cron mode, a listed row with a known id stops the traversal with `DuplicateFound` and changes nothing; any other row saves its id exactly when it is listed and opens |
| Traversal.ScheduledPageSaves | src/crawler.py:409-468 | in interval or cron mode, a page's rows stop the traversal exactly when a listed row carries a known id (held before or saved earlier on the page), only with `DuplicateFound`, and save the ids of the opened rows before that row, in row order |
| Traversal.ScheduledSaves | src/crawler.py:392-511 | in interval or cron mode, the traversal saves the ids of the opened rows before the first listed known-id row over the pages it looked at, in order. It ends with `DuplicateFound` exactly when there is such a row, and then on that row's page |
| RunTask.RunTask | main.py:11-60 | the plan is the corrected plan for the mode, with yesterday's date typed as the scheduled modes' end date. The search is run through the retry wrapper. The traversal runs without a cutoff, only after a successful search: it never ends at a cutoff and, in history mode, never at a known id |
| RunTask.ModePolicy | main.py:24-34 | history takes its dates from the arguments and does not stop on duplicates; interval and cron search today to yesterday and stop on the first known id |
| RunTask.PlansDifferOnlyInEndDate | main.py:24-34 | the plan as written and the corrected plan agree except for the scheduled modes' end date |
| RunTask.AsWrittenEndDateIsEmpty | main.py:32 | as written, a scheduled run types no end date where yesterday's date was meant |
| RunTask.HistoryNeedsBothDates | main.py:84-87 | history mode without a non-empty `--start` and `--end` exits with code 1; otherwise the run types exactly the dates given |
| RunTask.ScheduledModesStart | main.py:89-117 | interval and cron are never refused |

## Left out

- File I/O is modelled as sequences. The ledger is its appended chunks and the log is its sequence of records. `json.dumps` (RFC 8259) is not modelled.
- A failing read of the ledger at start-up (src/storage.py:26-27) is not modelled; a missing file reads as the empty text.
- Playwright and the DOM are replaced by data:
  - each `td` is a `Cell`, a table is its rows' `th` texts and cells, and a grid is its header texts and body rows;
  - a detail page is its sections, and a list page is its rows and the pagination control found after it.
- Waits, timeouts, scrolling, `_clear_overlays`, `_ensure_general_tab_active`, the browser lifecycle and the navigation inside `search_period` are not modelled. `search_period` is given as its answer: it catches every error itself.
- The `go_back` in a failing row's handler (src/crawler.py:475-479) is not modelled. In the model a failed row changes nothing, and later rows read as they were.
- An error inside one `_parse_table` or `_parse_grid` loop that cuts the loop short is not modelled. A section whose queries raise is modelled: it ends the section scan.
- The `retry_action` on `crawl_period_pages` is not modelled. The model's traversal never raises, so the wrapper would call it exactly once.
- Extraction as a whole is not modelled to fail mid-row; `opens` covers the click and the wait before it.
- Clocks (`datetime.now()`, `get_today_str`, `get_yesterday_str`) are not modelled. `crawled_at`, today and yesterday are parameters.
- Pauses are not modelled as time. `RetryAction` counts them; the time paused is the count times `delay`.
- Dates.FindDate: `\d` in a Python `str` pattern also matches non-ASCII decimal digits. The model matches ASCII digits only.
- The scheduler, `argparse`, `asyncio.run` and the error printing in `run_task` are not modelled.
- The dashboard and the data viewer only read files; they are not modelled.
- Text.CleanText: takes a string. `clean_text(None)` giving `""` (src/utils.py:15 tests `if not text`) is not modelled, since every caller passes a string.
- RunTask.RunTask: uses the corrected plan `PlanFor`, which types yesterday's date as the end date of a scheduled run. The source passes the function `get_yesterday_str` (main.py:32), so a scheduled run as written searches with an empty end date (see Findings and `RunTask.PlanAsWritten`).

## Findings

| source | as written | input that shows it | evidently intended | confidence | as-written member | corrected member |
|---|---|---|---|---|---|---|
| main.py:32 | `end_date = get_yesterday_str` passes the function, not its result, so typing it into the end-date box raises. `_input_date_field` swallows the error after clearing the box | any interval or cron run | type yesterday's date, `get_yesterday_str()` | not executed; typing a non-string is taken to raise | RunTask.AsWrittenEndDateIsEmpty | RunTask.ModePolicy |

`RunTask.PlanAsWritten` models the plan as written. `RunTask.PlanFor` is the corrected plan, and it is the one `RunTask.RunTask` uses.

Notes on what the code does, which the model keeps:

- `clean_text` does not collapse inner whitespace (`Text.CleanTextKeepsInnerRun`).
- One `try` guards the whole section scan of `extract_detail_info`, so an error in one section drops the sections after it (`Extractor.ScanStopsAtUnreadable`).
- A failing recovery after a bad row is swallowed.
- `save_data` adds the id to the in-memory set before it writes the ledger, so a failed ledger append is forgotten on restart (`Storage.LedgerFailureForgottenOnRestart`).
