/** `main()`: one synchronisation run. The schedule rows and the calendar
    items are what the two services returned; `today` is the date of
    `datetime.now()`. */
module Synchronizer {
  import opened Common
  import opened Dates
  import opened Utils
  import opened SheetManager
  import opened CalendarManager
  import opened EventHandler

  /** Only drafts due in the last 25 weeks or later are compared. */
  const SheetWindowWeeks: int := 25

  /** The summaries of the drafts inside the window that the calendar does
      not have yet. */
  function NewInWindow(sheetData: seq<SheetEvent>, calendarData: seq<CalendarEvent>, timeMin: Date): seq<string> {
    CheckNewEvents(Limited(sheetData, timeMin), calendarData).newEvents
  }

  /** The inserts of a run: the new summaries are found among the drafts of
      the window, but their bodies are taken from every draft, in or out of
      it; with nothing new, nothing is called. */
  function Reconcile(sheetData: seq<SheetEvent>, calendarData: seq<CalendarEvent>, timeMin: Date): Worklist<EventBody> {
    var newEvents := NewInWindow(sheetData, calendarData, timeMin);
    if newEvents == [] then Worklist([], None)
    else Issue(MatchJobs(newEvents, Itself, sheetData), InsertRequest)
  }

  /** The exception a run raises, in the order the steps run: the sheet
      transform, the window start, then the calendar transform. */
  function RunError(rows: seq<Row>, items: seq<CalendarItem>, today: Date): Error
    requires ValidDate(today)
  {
    if TransformRows(rows, NoteColumn).Failure? then TransformRows(rows, NoteColumn).error
    else if !(1 <= WindowStartOrdinal(today, SheetWindowWeeks) <= MaxOrdinal) then DateOutOfRange
    else if TransformItems(items).Failure? then TransformItems(items).error
    else MissingEndDate
  }

  /** The run: transform the rows, keep those of the window, transform the
      calendar items, compare, and insert the new events from the unfiltered
      drafts. The update step is commented out in the source and is not run.
      A `Failure` is an exception raised before the inserts. The insert loop
      catches only HttpError, so it can raise too: the `Success` worklist
      then records the inserts issued before it and the exception in
      `aborted` (`ReconcileRaises`). */
  method Synchronize(rows: seq<Row>, items: seq<CalendarItem>, today: Date) returns (r: Result<Worklist<EventBody>>)
    requires ValidDate(today)
    ensures r.Success? <==>
      && TransformRows(rows, NoteColumn).Success?
      && 1 <= WindowStartOrdinal(today, SheetWindowWeeks) <= MaxOrdinal
      && TransformItems(items).Success?
    ensures r.Failure? ==> r.error == RunError(rows, items, today)
    ensures r.Success? ==> exists timeMin ::
      && ValidDate(timeMin) && Ordinal(timeMin) == WindowStartOrdinal(today, SheetWindowWeeks)
      && r.value == Reconcile(TransformRows(rows, NoteColumn).value, TransformItems(items).value, timeMin)
  {
    var sheetData := TransformSheetData(rows, NoteColumn);
    if sheetData.Failure? {
      return Failure(sheetData.error);
    }
    var filtered := LimitCalendarDataByDatetime(sheetData.value, SheetWindowWeeks, today);
    if filtered.Failure? {
      return Failure(filtered.error);
    }
    ghost var timeMin :| ValidDate(timeMin) && Ordinal(timeMin) == WindowStartOrdinal(today, SheetWindowWeeks)
                         && filtered.value == Limited(sheetData.value, timeMin);
    var calendarData := TransformCalendarData(items);
    if calendarData.Failure? {
      return Failure(calendarData.error);
    }
    var comparison := CheckNewEvents(filtered.value, calendarData.value);
    var inserts := Worklist([], None);
    if comparison.newEvents != [] {
      inserts := InsertEvents(comparison.newEvents, sheetData.value);
    }
    r := Success(inserts);
    assert r.value == Reconcile(sheetData.value, calendarData.value, timeMin);
  }

  /** The insert step of a run raises, after issuing the inserts before it,
      exactly when a draft whose summary is new has a due date that cannot be
      read or is 9999-12-31; the Success of `Synchronize` then carries that
      exception in `aborted`. */
  lemma ReconcileRaises(sheetData: seq<SheetEvent>, calendarData: seq<CalendarEvent>, timeMin: Date)
    ensures Reconcile(sheetData, calendarData, timeMin).aborted.Some? <==>
      exists draft :: draft in sheetData && draft.summary in NewInWindow(sheetData, calendarData, timeMin)
                      && CreateEventBody(draft).Failure?
  {
    InsertsRaise(NewInWindow(sheetData, calendarData, timeMin), sheetData);
  }

  /** A summary is new exactly when it is not empty, some draft inside the
      window carries it, and no calendar event does. */
  lemma NewInWindowMembers(sheetData: seq<SheetEvent>, calendarData: seq<CalendarEvent>, timeMin: Date, summary: string)
    ensures summary in NewInWindow(sheetData, calendarData, timeMin) <==>
      && summary != []
      && (exists draft :: draft in sheetData && InWindow(timeMin, draft) && draft.summary == summary)
      && (forall j :: 0 <= j < |calendarData| ==> calendarData[j].summary != summary)
  {
    NewEventsMembers(Limited(sheetData, timeMin), calendarData, summary);
    LimitedCarries(sheetData, timeMin, summary);
  }

  /** Some kept draft carries `summary` exactly when some draft of the window does. */
  lemma LimitedCarries(sheetData: seq<SheetEvent>, timeMin: Date, summary: string)
    ensures (exists i :: 0 <= i < |Limited(sheetData, timeMin)| && Limited(sheetData, timeMin)[i].summary == summary) <==>
            (exists draft :: draft in sheetData && InWindow(timeMin, draft) && draft.summary == summary)
  {
    var limited := Limited(sheetData, timeMin);
    if exists i :: 0 <= i < |limited| && limited[i].summary == summary {
      var i :| 0 <= i < |limited| && limited[i].summary == summary;
      KeptCarries(sheetData, timeMin, i);
    }
    if exists draft :: draft in sheetData && InWindow(timeMin, draft) && draft.summary == summary {
      var draft :| draft in sheetData && InWindow(timeMin, draft) && draft.summary == summary;
      WindowCarries(sheetData, timeMin, draft);
    }
  }

  lemma KeptCarries(sheetData: seq<SheetEvent>, timeMin: Date, i: int)
    requires 0 <= i < |Limited(sheetData, timeMin)|
    ensures Limited(sheetData, timeMin)[i] in sheetData && InWindow(timeMin, Limited(sheetData, timeMin)[i])
  {
    InLimited(sheetData, timeMin, Limited(sheetData, timeMin)[i]);
  }

  lemma WindowCarries(sheetData: seq<SheetEvent>, timeMin: Date, draft: SheetEvent)
    requires draft in sheetData && InWindow(timeMin, draft)
    ensures exists i :: 0 <= i < |Limited(sheetData, timeMin)| && Limited(sheetData, timeMin)[i] == draft
  {
    InLimited(sheetData, timeMin, draft);
  }

  /** Nothing new, no call. */
  lemma NothingNewNoInsert(sheetData: seq<SheetEvent>, calendarData: seq<CalendarEvent>, timeMin: Date)
    requires forall draft :: draft in sheetData && InWindow(timeMin, draft) ==>
               draft.summary == [] || exists j :: 0 <= j < |calendarData| && calendarData[j].summary == draft.summary
    ensures Reconcile(sheetData, calendarData, timeMin) == Worklist([], None)
  {
    var newEvents := NewInWindow(sheetData, calendarData, timeMin);
    if newEvents != [] {
      NewInWindowMembers(sheetData, calendarData, timeMin, newEvents[0]);
      assert false;
    }
  }

  /** Every issued insert is the body of some draft whose summary is new: not
      empty, on no calendar event, and carried by a draft of the window. */
  lemma InsertsAreNew(sheetData: seq<SheetEvent>, calendarData: seq<CalendarEvent>, timeMin: Date, i: int)
    requires 0 <= i < |Reconcile(sheetData, calendarData, timeMin).issued|
    ensures exists draft ::
      && draft in sheetData && draft.summary in NewInWindow(sheetData, calendarData, timeMin)
      && CreateEventBody(draft) == Success(Reconcile(sheetData, calendarData, timeMin).issued[i])
    ensures var summary := Reconcile(sheetData, calendarData, timeMin).issued[i].summary;
      && summary != []
      && (forall j :: 0 <= j < |calendarData| ==> calendarData[j].summary != summary)
  {
    var newEvents := NewInWindow(sheetData, calendarData, timeMin);
    var jobs := MatchJobs(newEvents, Itself, sheetData);
    IssueSpec(jobs, InsertRequest);
    var job := jobs[i];
    assert job in jobs;
    MatchJobsMembers(newEvents, Itself, sheetData, job.0, job.1);
    NewInWindowMembers(sheetData, calendarData, timeMin, job.1.summary);
  }

  /** A draft outside the window whose summary is new is inserted all the
      same, when the run does not raise. */
  lemma OutOfWindowInserted(sheetData: seq<SheetEvent>, calendarData: seq<CalendarEvent>, timeMin: Date, draft: SheetEvent)
    requires draft in sheetData && draft.summary in NewInWindow(sheetData, calendarData, timeMin)
    requires Reconcile(sheetData, calendarData, timeMin).aborted.None?
    ensures CreateEventBody(draft).Success?
    ensures CreateEventBody(draft).value in Reconcile(sheetData, calendarData, timeMin).issued
  {
    var newEvents := NewInWindow(sheetData, calendarData, timeMin);
    var jobs := MatchJobs(newEvents, Itself, sheetData);
    MatchJobsMembers(newEvents, Itself, sheetData, draft.summary, draft);
    var k :| 0 <= k < |jobs| && jobs[k] == (draft.summary, draft);
    IssueSpec(jobs, InsertRequest);
    assert InsertRequest(jobs[k]) == Success(Issue(jobs, InsertRequest).issued[k]);
  }
}
