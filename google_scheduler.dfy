/** The older single-file script: the same pipeline without the window
    filter and without event ids, the note read from cell 9. */
module GoogleScheduler {
  import opened Common
  import opened Dates
  import opened Utils
  import opened SheetManager
  import opened CalendarManager
  import opened EventHandler

  // ---- transform_sheet_data ----

  /** The older `transform_sheet_data`: the row loop of the current one, with
      the note in cell 9. */
  method LegacyTransformSheetData(rows: seq<Row>) returns (r: Result<seq<SheetEvent>>)
    ensures r == TransformRows(rows, LegacyNoteColumn)
  {
    r := TransformSheetData(rows, LegacyNoteColumn);
  }

  /** Position by position, the same summaries and due dates. */
  predicate SameDrafts(a: seq<SheetEvent>, b: seq<SheetEvent>) {
    && |a| == |b|
    && forall i :: 0 <= i < |a| ==> a[i].summary == b[i].summary && a[i].dueDate == b[i].dueDate
  }

  lemma SameDraftsCons(x: SheetEvent, y: SheetEvent, a: seq<SheetEvent>, b: seq<SheetEvent>)
    requires x.summary == y.summary && x.dueDate == y.dueDate && SameDrafts(a, b)
    ensures SameDrafts([x] + a, [y] + b)
  {
    var xa, yb := [x] + a, [y] + b;
    forall i | 0 <= i < |xa|
      ensures xa[i].summary == yb[i].summary && xa[i].dueDate == yb[i].dueDate
    {
      if i > 0 {
        assert xa[i] == a[i - 1] && yb[i] == b[i - 1];
      }
    }
  }

  /** Both scripts process the same rows and raise on the same ones; a draft
      differs between them only in its note. */
  lemma {:induction false} LegacyDraftsDiffer(rows: seq<Row>)
    ensures TransformRows(rows, LegacyNoteColumn).Failure? <==> TransformRows(rows, NoteColumn).Failure?
    ensures TransformRows(rows, NoteColumn).Success? ==>
              SameDrafts(TransformRows(rows, LegacyNoteColumn).value, TransformRows(rows, NoteColumn).value)
    decreases |rows|
  {
    if rows != [] {
      LegacyDraftsDiffer(rows[1..]);
      var row := rows[0];
      if row != [] && |row| >= MinRowLength && TransformRangeDateToDate(row[4]).Success? {
        var current, legacy := TransformRows(rows[1..], NoteColumn), TransformRows(rows[1..], LegacyNoteColumn);
        if current.Success? {
          SameDraftsCons(Record(row, LegacyNoteColumn), Record(row, NoteColumn), legacy.value, current.value);
        }
      }
    }
  }

  // ---- transform_calendar_data ----

  /** The older record: `{summary, dataTime}`, with no event id. */
  datatype DatedSummary = DatedSummary(summary: string, dataTime: string)

  function DropId(event: CalendarEvent): DatedSummary {
    DatedSummary(event.summary, event.dataTime)
  }

  function DropIds(events: seq<CalendarEvent>): (r: seq<DatedSummary>)
    ensures |r| == |events|
    ensures forall i :: 0 <= i < |events| ==> r[i] == DropId(events[i])
  {
    seq(|events|, i requires 0 <= i < |events| => DropId(events[i]))
  }

  /** A result of the current transform with the ids dropped. */
  function WithoutIds(r: Result<seq<CalendarEvent>>): Result<seq<DatedSummary>> {
    match r
    case Failure(e) => Failure(e)
    case Success(events) => Success(DropIds(events))
  }

  lemma WithoutIdsPrepend(event: CalendarEvent, r: Result<seq<CalendarEvent>>)
    ensures WithoutIds(Prepend([event], r)) == Prepend([DropId(event)], WithoutIds(r))
  {
    if r.Success? {
      assert DropIds([event] + r.value) == [DropId(event)] + DropIds(r.value);
    }
  }

  /** The older `transform_calendar_data`: the same loop as the current one,
      so it returns the current records without their ids, or raises where
      the current one raises. */
  method LegacyTransformCalendarData(items: seq<CalendarItem>) returns (r: Result<seq<DatedSummary>>)
    ensures r == WithoutIds(TransformItems(items))
  {
    var transformed: seq<DatedSummary> := [];
    assert items[0..] == items;
    PrependNothing(WithoutIds(TransformItems(items)));
    for i := 0 to |items|
      invariant WithoutIds(TransformItems(items)) == Prepend(transformed, WithoutIds(TransformItems(items[i..])))
    {
      var item := items[i];
      LegacyStep(items, i, transformed);
      if item.end.Some? {
        var event := Convert(item);
        if event.Failure? {
          return Failure(event.error);
        }
        transformed := transformed + [DatedSummary(event.value.summary, event.value.dataTime)];
      }
    }
    assert transformed + [] == transformed;
    r := Success(transformed);
  }

  /** One turn of the loop above. */
  lemma LegacyStep(items: seq<CalendarItem>, i: int, transformed: seq<DatedSummary>)
    requires 0 <= i < |items|
    ensures var rest, next := WithoutIds(TransformItems(items[i..])), WithoutIds(TransformItems(items[i + 1..]));
      if !HasEnd(items[i]) then Prepend(transformed, rest) == Prepend(transformed, next)
      else match Convert(items[i])
        case Failure(e) => Prepend(transformed, rest) == Failure(e)
        case Success(event) => Prepend(transformed, rest) == Prepend(transformed + [DropId(event)], next)
  {
    var rest, next := TransformItems(items[i..]), TransformItems(items[i + 1..]);
    assert items[i..][1..] == items[i + 1..];
    assert items[i..][0] == items[i];
    if !HasEnd(items[i]) {
      assert rest == next;
    } else if Convert(items[i]).Failure? {
      assert rest == Failure(Convert(items[i]).error);
    } else {
      var event := Convert(items[i]).value;
      assert rest == Prepend([event], next);
      WithoutIdsPrepend(event, next);
      var tail := WithoutIds(next);
      if tail.Success? {
        assert transformed + [DropId(event)] + tail.value == transformed + ([DropId(event)] + tail.value);
      }
    }
  }

  // ---- check_new_events ----

  function SummaryOfDated(event: DatedSummary): string {
    event.summary
  }

  function DatedSummaries(events: seq<DatedSummary>): seq<string> {
    Project(events, SummaryOfDated)
  }

  /** The older `check_new_events`: only the list of new summaries. */
  function LegacyCheckNewEvents(sheetNewEvents: seq<SheetEvent>, calendarEvents: seq<DatedSummary>): seq<string> {
    NewSummaries(SheetSummaries(sheetNewEvents), DatedSummaries(calendarEvents))
  }

  /** On the same data it finds what the current comparison finds. */
  lemma LegacyCheckAgrees(sheetEvents: seq<SheetEvent>, calendarEvents: seq<CalendarEvent>)
    ensures LegacyCheckNewEvents(sheetEvents, DropIds(calendarEvents)) == CheckNewEvents(sheetEvents, calendarEvents).newEvents
  {
    assert DatedSummaries(DropIds(calendarEvents)) == CalendarSummaries(calendarEvents);
  }

  /** Narrowing the drafts can only narrow the new summaries: a summary new
      among a sub-list of the drafts is new among all of them. */
  lemma NewSummariesNarrow(sheetEvents: seq<SheetEvent>, kept: seq<SheetEvent>, calendarEvents: seq<DatedSummary>, summary: string)
    requires forall draft :: draft in kept ==> draft in sheetEvents
    requires summary in LegacyCheckNewEvents(kept, calendarEvents)
    ensures summary in LegacyCheckNewEvents(sheetEvents, calendarEvents)
  {
    var existing := DatedSummaries(calendarEvents);
    NewSummariesMembers(SheetSummaries(kept), existing, summary);
    SummaryOccurs(kept, summary);
    var i :| 0 <= i < |kept| && kept[i].summary == summary;
    assert kept[i] in kept;
    var j :| 0 <= j < |sheetEvents| && sheetEvents[j] == kept[i];
    SummaryOccurs(sheetEvents, summary);
    NewSummariesMembers(SheetSummaries(sheetEvents), existing, summary);
  }

  // ---- main ----

  /** The inserts of an older run: no window, every draft compared. The
      request bodies of the older `insert_events` are built field for field
      as `_create_event_body` builds them, with the same nested loops. */
  function LegacyReconcile(sheetData: seq<SheetEvent>, calendarData: seq<DatedSummary>): Worklist<EventBody> {
    var newEvents := LegacyCheckNewEvents(sheetData, calendarData);
    if newEvents == [] then Worklist([], None)
    else Issue(MatchJobs(newEvents, Itself, sheetData), InsertRequest)
  }

  /** The exception an older run raises: the sheet transform first. */
  function LegacyRunError(rows: seq<Row>, items: seq<CalendarItem>): Error {
    if TransformRows(rows, LegacyNoteColumn).Failure? then TransformRows(rows, LegacyNoteColumn).error
    else if TransformItems(items).Failure? then TransformItems(items).error
    else MissingEndDate
  }

  /** The older `main()`: transform, compare, and insert the new events. A
      `Failure` is an exception of a transform; an exception of the insert
      loop is in the `Success` worklist's `aborted` (`LegacyReconcileRaises`). */
  method LegacyRun(rows: seq<Row>, items: seq<CalendarItem>) returns (r: Result<Worklist<EventBody>>)
    ensures r.Success? <==> TransformRows(rows, LegacyNoteColumn).Success? && TransformItems(items).Success?
    ensures r.Failure? ==> r.error == LegacyRunError(rows, items)
    ensures r.Success? ==>
      r.value == LegacyReconcile(TransformRows(rows, LegacyNoteColumn).value, DropIds(TransformItems(items).value))
  {
    var sheetExtractedData := LegacyTransformSheetData(rows);
    if sheetExtractedData.Failure? {
      return Failure(sheetExtractedData.error);
    }
    var calendarExtractedData := LegacyTransformCalendarData(items);
    if calendarExtractedData.Failure? {
      return Failure(calendarExtractedData.error);
    }
    var newEventList := LegacyCheckNewEvents(sheetExtractedData.value, calendarExtractedData.value);
    var inserts := Worklist([], None);
    if newEventList != [] {
      inserts := InsertEvents(newEventList, sheetExtractedData.value);
    }
    r := Success(inserts);
  }

  /** The older insert step raises exactly when a draft whose summary is new
      has a due date that cannot be read or is 9999-12-31. */
  lemma LegacyReconcileRaises(sheetData: seq<SheetEvent>, calendarData: seq<DatedSummary>)
    ensures LegacyReconcile(sheetData, calendarData).aborted.Some? <==>
      exists draft :: draft in sheetData && draft.summary in LegacyCheckNewEvents(sheetData, calendarData)
                      && CreateEventBody(draft).Failure?
  {
    InsertsRaise(LegacyCheckNewEvents(sheetData, calendarData), sheetData);
  }

  /** Every summary the current run finds new in its window, the older run
      finds new among the same drafts too. */
  lemma WindowOnlyNarrows(sheetData: seq<SheetEvent>, calendarData: seq<CalendarEvent>, timeMin: Date, summary: string)
    requires summary in CheckNewEvents(Limited(sheetData, timeMin), calendarData).newEvents
    ensures summary in LegacyCheckNewEvents(sheetData, DropIds(calendarData))
  {
    var kept := Limited(sheetData, timeMin);
    LegacyCheckAgrees(kept, calendarData);
    forall draft | draft in kept
      ensures draft in sheetData
    {
      InLimited(sheetData, timeMin, draft);
    }
    NewSummariesNarrow(sheetData, kept, DropIds(calendarData), summary);
  }
}
