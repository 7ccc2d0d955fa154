# Sheet-to-calendar reconciliation, modelled in Dafny

A model of the core of a small Python tool that keeps a Google Calendar in
step with a schedule kept in a Google Sheet. A run does five things:

1. It reads the schedule rows and turns each one into an event draft
   `{summary, due_date, description}` (`transform_sheet_data`). The summary
   is cell 3 with its whitespace removed. The due date is the end of the
   date range in cell 4, with `.` written as `-`. The description is a
   template over cells 0, 2, 6 and the note cell.
2. It keeps only the drafts whose due date is no more than 25 weeks before
   today (`limit_calendar_data_by_datetime`).
3. It turns the calendar items that have an `end` into records
   `{event_id, summary, dataTime}` (`transform_calendar_data`).
4. It finds the draft summaries that no calendar event carries yet. Empty
   summaries are dropped (`check_new_events`).
5. It inserts all-day events with two nested loops (`insert_events`): for
   each new summary, one insert for every draft carrying it. A summary that
   occurs k times among the new summaries and m times among the drafts gets
   k * m inserts (`CalendarManager.InsertsPerSummary`).

A separate sweep, `remove_duplicate_events`, deletes later copies of an
event. The older single-file script `google_scheduler.py` runs the same
pipeline with no window and no event ids.

Each module follows one source file:

| module | file | form |
|---|---|---|
| `Common` | — | `Option`, `Result`, the exceptions, the stable filter and the projection behind the list comprehensions, and a count by field |
| `Dates` | — | Python's `datetime.date`: day numbers, `+ timedelta`, `isoformat`, `strptime("%Y-%m-%d")` |
| `Utils` | `utils.py` | pure functions; the list difference is a loop method |
| `SheetManager` | `sheet_manager.py` | the row loop as a method, proved against a recursive function |
| `CalendarManager` | `calendar_manager.py` | the item loop, the nested insert and update loops, and the duplicate sweep, each a method proved against a function |
| `EventHandler` | `event_handler.py` (and its copy in `main.py`) | the comparison as functions; the window loop as a method |
| `Synchronizer` | `main.py` | `main()` as a method over the transforms |
| `GoogleScheduler` | `google_scheduler.py` | the older script, related to the current one by lemmas |

Calls to the Google services become **worklists**. A worklist holds the
requests a loop issues, in order. It also holds the exception that ended the
loop early, if there was one. An `HttpError` answer is caught inside the loop
and changes neither, so answers are not modelled.

An exception that escapes a transform or the window start becomes a
`Failure`. One raised inside a loop of service calls is the worklist's
`aborted` instead, because the requests issued before it were sent: a run
whose result is a `Success` with `aborted` set has raised too. Python's
`except IndexError` around the row loop becomes an early return of the
drafts built so far.

`datetime.now()` becomes a parameter `today`. The service responses (sheet
rows, calendar items) become parameters too.

Behaviour worth noting; the model follows the code:

- `transform_range_date_to_date` does not reject a string with more than
  two `~` parts. It takes part 1 and ignores the rest.
- An inverted range (the end compares below the start) does not yield a
  next-year date. It executes `current_year += 1` on a local that was never
  bound, so `UnboundLocalError` escapes `transform_sheet_data` and the run.
  The model gives `Failure(InvertedRange)`.
- A non-empty row shorter than seven cells is not skipped. Its
  `IndexError` is caught outside the loop, so it ends the batch.
- A calendar item whose end date cannot be read is not skipped. The parse
  error escapes `transform_calendar_data` and the run.
- `["A", "B", "A"]` against `["A"]` gives `["B"]`, not `["B", "A"]`. The
  membership test drops every copy of an existing summary
  (`EventHandler.NewSummariesExample`).
- `insert_events` catches only `HttpError`. A new summary's draft whose due
  date cannot be read, or is 9999-12-31, raises out of the insert loop and
  the run, after the inserts before it were sent
  (`CalendarManager.InsertsRaise`, `CalendarManager.LastDayAborts`).
- The inserts use the unfiltered drafts. A draft outside the window is
  inserted when its summary is new inside the window
  (`Synchronizer.OutOfWindowInserted`).

## Model

| member | source | states |
|---|---|---|
| Common.FilterMultiplicity | event_handler.py:44 | a comprehension filter keeps every copy of an element that passes the test and no copy of one that fails |
| Common.FilterIsSubsequence | calendar_manager.py:108-111 | a comprehension filter only removes elements; it never reorders the ones it keeps |
| Common.Project | event_handler.py:39-41 | a projecting comprehension (`[event.get(field) for event in events]`) has one element per input element, each the field of the element at the same position; the summary and id lists of `check_new_events` are its instances |
| Dates.OrdinalOrder | event_handler.py:72 | `due_date >= time_min` on dates agrees with comparing their day numbers, in both directions; equal dates are exactly those with equal day numbers |
| Dates.OrdinalStrictlyMonotone | event_handler.py:72 | a date earlier in (year, month, day) order has a strictly smaller day number |
| Dates.OrdinalRange | event_handler.py:62-64 | every date from 0001-01-01 to 9999-12-31 has a day number from 1 to 3652059 |
| Dates.NextDay | calendar_manager.py:145-147 | the day after a date has the next day number; there is none exactly after 9999-12-31, where Python raises OverflowError |
| Dates.AddDays | utils.py:17 | `+ timedelta(n)` lands exactly n day numbers later, and fails exactly when that passes 9999-12-31 |
| Dates.FromOrdinal | event_handler.py:62-64 | a day number from 1 to 3652059 names a valid date with that number; any other number raises |
| Dates.DaysBefore | event_handler.py:62-64 | `today - timedelta(weeks=w)` is the date 7w day numbers earlier, and raises exactly when that leaves the calendar |
| Dates.FormatIsoDate | utils.py:18 | `isoformat()` writes ten characters with `-` at positions 4 and 7 |
| Dates.ParseIsoDate | event_handler.py:68-70 | `strptime(s, "%Y-%m-%d")` accepts only text that is the `isoformat()` of the valid date it returns |
| Dates.ParseFormat | event_handler.py:68-70 | reading back what `isoformat()` wrote gives the same date |
| Utils.RemoveNonWords | utils.py:55-69 | the result contains no whitespace and only characters of the input |
| Utils.RemoveNonWordsKeeps | utils.py:65-67 | exactly the whitespace is deleted: every other character stays, as often as it occurs and in order |
| Utils.RemoveNonWordsFixed | utils.py:65-67 | a string without whitespace comes back unchanged |
| Utils.RemoveNonWordsIdempotent | utils.py:65-67 | cleaning twice is cleaning once |
| Utils.RemoveNonWordsAppend | utils.py:65-67 | cleaning a concatenation is concatenating the cleaned parts |
| Utils.Split | utils.py:35 | `split("~")` gives at least one part, and no part contains the separator |
| Utils.JoinSplit | utils.py:35 | splitting loses nothing: joining the parts with `~` gives the string back |
| Utils.SplitAfterPart | utils.py:35 | a part free of `~`, then `~`, is the first part of the split |
| Utils.SplitPartsFromString | utils.py:35 | the parts are made of the string's own characters |
| Utils.ReplaceChar | utils.py:40 | `replace(".", "-")` turns every `.` into `-` and leaves every other character at its position |
| Utils.LexLessIrreflexive | utils.py:46 | no string compares below itself |
| Utils.LexLessTransitive | utils.py:46 | `<` on strings is transitive |
| Utils.LexLessAsymmetric | utils.py:46 | two strings never compare below each other |
| Utils.LexLessTotal | utils.py:46 | of two different strings, one compares below the other |
| Utils.LexLessCommonPrefix | utils.py:46 | a shared prefix does not change how two strings compare |
| Utils.TransformRangeDateToDate | utils.py:22-52 | the only exception the reducer raises is the inverted-range one; a date it returns has no whitespace, no `.` and no `~` (what it returns for the sheet's dates: `Utils.DottedDate`, `Utils.DottedRange`) |
| Utils.Dotted | utils.py:26 | the sheet's `YYYY.MM.DD` text of a date is ten characters, free of whitespace and `~`, and writing its `.` as `-` gives the date's `isoformat()` |
| Utils.DottedDate | utils.py:22-40 | a single well-formed `YYYY.MM.DD` cell reduces to the ISO `YYYY-MM-DD` text of that date, as the docstring promises |
| Utils.DottedRange | utils.py:22-52 | a range of two well-formed dates reduces to the ISO text of its end date, and raises exactly when the end date is earlier than the start date |
| Utils.DottedLess | utils.py:46 | on `YYYY.MM.DD` strings, `end_date < start_date` compares the dates: it holds exactly when the end date is earlier |
| Utils.PaddedLess | utils.py:46 | two zero-padded digit fields of the same width compare as strings exactly as the numbers they write compare |
| Utils.RangeSingleDate | utils.py:38-40 | without `~`, the cleaned string is the date, with `.` written as `-` |
| Utils.RangeTakesEnd | utils.py:41-50 | `start~end`, with anything after a second `~` ignored, gives the end when it does not compare below the start, and raises otherwise |
| Utils.RangeIgnoresWhitespace | utils.py:32 | whitespace anywhere in the cell does not change the result: the reducer gives the same answer on the cleaned cell |
| Utils.SpacedRange | utils.py:32-35 | spaces around the `~` of a range are dropped: `start ~ end` reduces as `start~end` does |
| Utils.SpacedRangeExample | utils.py:32-50 | `2025.03.01 ~ 2025.03.31` gives `2025-03-31` |
| Utils.RangeExample | utils.py:26 | `2025.03.01~2025.03.31` gives `2025-03-31` |
| Utils.InvertedRangeExample | utils.py:46-47 | `2025.03.31~2025.03.01` raises |
| Utils.TransformDatetimeToDate | utils.py:7-19 | fails exactly when the text names no date or the shifted day leaves the calendar; otherwise the result reads back as the date `delta` days later |
| Utils.DatetimeNoShift | utils.py:17-18 | with no shift, a `YYYY-MM-DD` date comes back unchanged |
| Utils.DatetimeNextDay | utils.py:17-18 | with a shift of one, a `YYYY-MM-DD` date becomes the next calendar day, across month and year ends; 9999-12-31 raises |
| Utils.FindNonMatchedItems | utils.py:72-88 | the loop returns the list difference that `Utils.NonMatchedSpec` characterises |
| Utils.NonMatchedSpec | utils.py:84-86 | the difference keeps, in input order and as often as they occur, exactly the new items absent from the existing ones |
| Utils.NonMatchedAgainstNothing | utils.py:84-86 | against an empty list, every item is kept |
| SheetManager.TransformSheetData | sheet_manager.py:35-60 | the loop, with its early exits, returns what `TransformRows` specifies; the lemmas below say what that is |
| SheetManager.ProcessedRowsAreFull | sheet_manager.py:41-49 | every row that reaches the template has at least seven cells |
| SheetManager.TransformRowsFails | sheet_manager.py:39-57 | the transform raises exactly when some processed row has an inverted range |
| SheetManager.TransformRowsDrafts | sheet_manager.py:41-56 | otherwise there is one draft per processed row, in row order: the cleaned cell 3, the reduced cell 4, and the description template |
| SheetManager.TransformRowsLength | sheet_manager.py:40-56 | there are never more drafts than rows |
| SheetManager.ShortRowEndsBatch | sheet_manager.py:44-47 | rows after a short row never reach the result: the result is that of the rows before it |
| SheetManager.NoteColumns | sheet_manager.py:48 | a nine-cell row gets its note from cell 8 in the current layout, and "없음" in the older one, which reads cell 9 |
| CalendarManager.Convert | calendar_manager.py:61-68 | an item with an `end` raises exactly when neither `dateTime` nor `date` is there, or the text names no date; otherwise the record carries its id, its cleaned summary and that date |
| CalendarManager.TransformCalendarData | calendar_manager.py:55-70 | the loop returns what `TransformItems` specifies; the two lemmas below say what that is |
| CalendarManager.TransformItemsFails | calendar_manager.py:59-69 | the transform raises exactly when some item with an `end` cannot be converted |
| CalendarManager.TransformItemsEvents | calendar_manager.py:59-69 | otherwise there is one record per item with an `end`, in input order, and items without one are skipped |
| CalendarManager.CreateEventBody | calendar_manager.py:135-151 | the body is built exactly when the due date names a day before 9999-12-31; it carries the draft's summary and description, starts on the due date and ends one day later, both in Asia/Seoul |
| CalendarManager.BodySpansOneDay | calendar_manager.py:140-149 | for a `YYYY-MM-DD` due date, the end is the next calendar day written back as text |
| CalendarManager.IssueSpec | calendar_manager.py:92-103 | a loop of calls issues the request of every job, in order, up to the first job whose request cannot be built, and stops there with that job's exception |
| CalendarManager.IssueAborted | calendar_manager.py:92-103 | once the loop has raised, later jobs change nothing |
| CalendarManager.InsertEvents | calendar_manager.py:90-103 | the nested loops issue the insert bodies of the (new summary, matching draft) jobs in loop order |
| CalendarManager.MatchJobsMembers | calendar_manager.py:92-95 | a (key, draft) pair is a job exactly when the key is listed and the draft's summary is the key's summary |
| CalendarManager.InsertJobCount | calendar_manager.py:92-95 | a summary occurring k times among the new events and m times among the drafts gets k * m jobs |
| CalendarManager.InsertsRaise | calendar_manager.py:90-103 | the loops catch only HttpError: they raise exactly when some draft carrying a new summary has a due date that cannot be read or is 9999-12-31 |
| CalendarManager.LastDayBody | calendar_manager.py:145-147 | a draft due 9999-12-31 gets no body: shifting its due date by a day raises OverflowError |
| CalendarManager.LastDayAborts | calendar_manager.py:90-103 | a new summary whose one draft is due 9999-12-31 raises out of `insert_events` before any insert is issued |
| CalendarManager.InsertsPerSummary | calendar_manager.py:90-103 | when no due date raises, `insert_events` issues k * m inserts for such a summary |
| CalendarManager.Zip | calendar_manager.py:76 | `zip` pairs the two lists position by position, up to the shorter one's length |
| CalendarManager.UpdateEventDescription | calendar_manager.py:72-88 | the nested loops issue, in loop order, one update per (zipped summary and id, matching draft) job, carrying that id and the draft's body |
| CalendarManager.KeyLessTransitive | calendar_manager.py:112 | the `(id, created)` sort key order is transitive |
| CalendarManager.KeyLessAsymmetric | calendar_manager.py:112 | two items never have keys below each other |
| CalendarManager.InsertByKey | calendar_manager.py:112 | placing an item into a sorted list keeps it sorted and adds just that item |
| CalendarManager.SortByKey | calendar_manager.py:112 | `sort(key=...)` returns the items in key order, as a permutation of its input |
| CalendarManager.SortSorted | calendar_manager.py:112 | sorting a sorted list changes nothing |
| CalendarManager.Ordered | calendar_manager.py:107-112 | the sweep walks exactly the items with a start date, as a permutation, in key order |
| CalendarManager.RemoveDuplicateEvents | calendar_manager.py:105-133 | the loop issues the deletes that `Dedup` specifies, and `DedupSpec` says what they are |
| CalendarManager.FirstIndexUnique | calendar_manager.py:119-123 | the first item with a summary is the only position with no earlier item carrying that summary |
| CalendarManager.DedupSpec | calendar_manager.py:114-133 | `unique_events` maps exactly the summaries seen, each to the first item's start date and creation time, never overwritten; the deletes are those of the doomed items, in order |
| CalendarManager.DoomedIdsMembers | calendar_manager.py:124-131 | an id is deleted exactly when some item with that id is doomed: a later copy of its summary's first item, created at another time on the same start date |
| CalendarManager.DeletedIff | calendar_manager.py:115-133 | with unique ids, an item is deleted exactly when it is doomed, so an item on another start date always survives |
| CalendarManager.FirstNeverDeleted | calendar_manager.py:119-123 | with unique ids, the first item seen for a summary is never deleted |
| CalendarManager.DuplicateExample | calendar_manager.py:105-133 | of three events "X", ids 1 and 2 on 2025-01-01 and id 3 on 2025-02-01, only id 2 is deleted |
| EventHandler.CheckNewEvents | event_handler.py:25-46 | the second and third lists are the calendar summaries and ids, aligned with the records |
| EventHandler.NewSummariesSpec | event_handler.py:43-44 | the new summaries are, in sheet order and as often as they occur, exactly the non-empty sheet summaries the calendar does not have |
| EventHandler.NewEventsMembers | event_handler.py:39-44 | a summary is new exactly when it is not empty, some draft carries it, and no calendar record does |
| EventHandler.NewSummariesMembers | event_handler.py:43-44 | membership in the new summaries is membership in the sheet summaries plus newness |
| EventHandler.NothingExisting | event_handler.py:43-44 | against an empty calendar, every non-empty sheet summary is new |
| EventHandler.NewSummariesExample | event_handler.py:43-44 | `["A", "B", "A"]` against `["A"]` gives `["B"]` |
| EventHandler.KeepFrom | event_handler.py:66-76 | the loop keeps exactly the drafts `Limited` keeps for the window start, in order |
| EventHandler.LimitCalendarDataByDatetime | event_handler.py:49-78 | it raises exactly when the window start leaves the calendar; otherwise it returns the drafts kept by the window that starts `7 * min_week` days before today |
| EventHandler.LimitedSpec | event_handler.py:66-76 | the window keeps, in order and as often as they occur, exactly the drafts it admits |
| EventHandler.InLimited | event_handler.py:66-76 | a draft is kept exactly when it is among the drafts and its due date is in the window |
| EventHandler.LimitedIdempotent | event_handler.py:66-76 | limiting twice with the same window is limiting once |
| EventHandler.WindowInDays | event_handler.py:62-73 | a readable due date is kept exactly when it is at most `7 * min_week` days before today; the boundary day itself is kept |
| EventHandler.UnreadableDropped | event_handler.py:74-76 | a due date that `strptime` rejects is never kept |
| Synchronizer.Synchronize | main.py:66-99 | the result is a `Failure` exactly when the sheet transform, the window start or the calendar transform raises, and it carries the first such exception in step order; otherwise it is the worklist `Reconcile` gives for the window starting 25 weeks before today. The insert loop can still raise: that worklist then records the inserts issued before it and the exception in `aborted` (`Synchronizer.ReconcileRaises`) |
| Synchronizer.ReconcileRaises | main.py:97-99 | the insert step of a run raises exactly when a draft whose summary is new in the window has a due date that cannot be read or is 9999-12-31 |
| Synchronizer.NewInWindowMembers | main.py:78-89 | a summary is new in a run exactly when it is not empty, some draft in the window carries it, and no calendar record does |
| Synchronizer.NothingNewNoInsert | main.py:97 | when every draft in the window is empty or already in the calendar, no insert is issued |
| Synchronizer.InsertsAreNew | main.py:87-99 | every issued insert is the body of some draft whose summary is new: not empty and on no calendar record |
| Synchronizer.OutOfWindowInserted | main.py:97-99 | a draft whose summary is new is inserted even when its own due date lies outside the window |
| GoogleScheduler.LegacyTransformSheetData | google_scheduler.py:76-95 | the older row loop returns the current transform with the note read from cell 9 |
| GoogleScheduler.LegacyDraftsDiffer | google_scheduler.py:76-95 | both row loops raise on the same rows and otherwise agree on every summary and due date; only the note differs |
| GoogleScheduler.LegacyTransformCalendarData | google_scheduler.py:149-162 | the older item loop returns the current records without their ids, and raises where the current one raises |
| GoogleScheduler.LegacyCheckAgrees | google_scheduler.py:165-173 | on the same data, the older comparison finds the same new summaries as the current one |
| GoogleScheduler.NewSummariesNarrow | google_scheduler.py:165-173 | a summary new among some of the drafts is new among all of them |
| GoogleScheduler.LegacyRun | google_scheduler.py:176-228 | the result of an older run is a `Failure` exactly when one of the two transforms raises, with the first exception in step order; otherwise the worklist issues the inserts of every new summary's matching drafts, with no window. Its `insert_events` builds each body field for field as `_create_event_body` does, so it is `CalendarManager.InsertEvents`; like it, it catches only HttpError, so an exception of the insert loop is in the worklist's `aborted` (`GoogleScheduler.LegacyReconcileRaises`) |
| GoogleScheduler.LegacyReconcileRaises | google_scheduler.py:184-209 | the older insert step raises, leaving that exception in the worklist's `aborted`, exactly when a draft whose summary is new has a due date that cannot be read or is 9999-12-31 |
| GoogleScheduler.WindowOnlyNarrows | google_scheduler.py:214-228 | every summary the current run finds new in its window, the older run finds new too |

## Left out

- Fetching rows and items (`get_sheet_data`, `get_calendar_data`, their paging, their query window): these are service calls. Their answers are parameters of the model. The older script's paging loop re-requests the same page forever once a next-page token appears; this is not modelled.
- Credentials, service construction, environment variables, `load_dotenv` and every `print`: configuration and output only.
- HttpError answers: each is caught inside its loop, and the requests a loop issues do not depend on them. The worklists record the requests, not the answers.
- `main()`'s call to `update_event_description` is commented out in the source. The update loop is modelled (`CalendarManager.UpdateEventDescription`), but no run issues it.
- The `remove_duplicate_events` sweep gets its items from `get_calendar_data`; the model takes them as a parameter.
- Utils.TransformDatetimeToDate: `dateutil.parser.parse` accepts many formats. The model reads only `YYYY-MM-DD`, optionally followed by `T` and any text, and treats any other text as unreadable. It does not check that the text after `T` is a time, so it reads a date where `parse` would raise on such a suffix; the calendar service writes `dateTime` values as RFC 3339 date-times, whose suffix is always a time. Only non-negative shifts are modelled, because the core shifts by 0 and 1.
- Dates.ParseIsoDate: `strptime` also accepts unpadded month and day fields (`2025-3-1`). The model accepts only zero-padded ones, which is what the reducer's output holds when the sheet writes `YYYY.MM.DD`. `strptime`'s digit fields also accept non-ASCII Unicode decimal digits; the model accepts only `0`..`9`.
- `datetime.now()` becomes the parameter `today`. The window start uses today's date; the time of day is dropped because only the date is compared.
- CalendarManager.SortByKey: `list.sort` sorts in place; the model returns a sorted copy (a stable insertion sort on a sequence).
- A calendar item with no `summary` makes `remove_non_words(None)` raise TypeError; the model gives every item a summary string.
- Python's dicts become datatypes with the fields the core reads. The `.get` defaults that matter are modelled as options: an item's `start` and `end`, and the `dateTime` and `date` inside them (`CalendarItem`, `EventTime`). The others are not: an item's `summary`, `id` and `created`, and a draft's `summary`, `due_date` and `description`, are always present strings in the model.
- `get_calendar_data`'s `min_week=26` query window only bounds what the service returns, so it is part of the service answer.
