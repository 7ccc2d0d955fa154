/** `EventSynchronizer`: which sheet drafts are new to the calendar, and
    which lie inside the time window of a run. */
module EventHandler {
  import opened Common
  import opened Dates
  import opened Utils
  import opened SheetManager
  import opened CalendarManager

  // ---- check_new_events ----

  function EventSummary(event: CalendarEvent): string {
    event.summary
  }

  function EventId(event: CalendarEvent): string {
    event.eventId
  }

  /** `[event.get("summary") for event in sheet_events]`. */
  function SheetSummaries(events: seq<SheetEvent>): seq<string> {
    Project(events, DraftSummary)
  }

  /** `[event.get("summary") for event in calendar_events]`. */
  function CalendarSummaries(events: seq<CalendarEvent>): seq<string> {
    Project(events, EventSummary)
  }

  /** `[event.get("event_id") for event in calendar_events]`. */
  function CalendarIds(events: seq<CalendarEvent>): seq<string> {
    Project(events, EventId)
  }

  /** The test of `filter(None, ...)` on a summary. */
  predicate IsTruthy(summary: string) {
    summary != []
  }

  /** The sheet summaries absent from the calendar, empty ones dropped. */
  function NewSummaries(summaries: seq<string>, existing: seq<string>): seq<string> {
    Filter(NonMatched(summaries, existing), IsTruthy)
  }

  /** The three lists `check_new_events` returns. */
  datatype Comparison = Comparison(newEvents: seq<string>, existingEvents: seq<string>, existingIds: seq<string>)

  function CheckNewEvents(sheetEvents: seq<SheetEvent>, calendarEvents: seq<CalendarEvent>): (r: Comparison)
    ensures |r.existingEvents| == |calendarEvents| && |r.existingIds| == |calendarEvents|
    ensures forall i :: 0 <= i < |calendarEvents| ==>
              r.existingEvents[i] == calendarEvents[i].summary && r.existingIds[i] == calendarEvents[i].eventId
  {
    var existing := CalendarSummaries(calendarEvents);
    Comparison(NewSummaries(SheetSummaries(sheetEvents), existing), existing, CalendarIds(calendarEvents))
  }

  /** A new summary: not empty and not among the existing ones. */
  predicate IsNew(existing: seq<string>, summary: string) {
    summary != [] && summary !in existing
  }

  function NewTo(existing: seq<string>): string -> bool {
    summary => IsNew(existing, summary)
  }

  /** The new summaries are, in sheet order and as often as they occur there,
      exactly the non-empty sheet summaries the calendar does not have. */
  lemma NewSummariesSpec(summaries: seq<string>, existing: seq<string>)
    ensures NewSummaries(summaries, existing) == Filter(summaries, NewTo(existing))
    ensures forall x :: multiset(NewSummaries(summaries, existing))[x] ==
              if IsNew(existing, x) then multiset(summaries)[x] else 0
    ensures IsSubsequence(NewSummaries(summaries, existing), summaries)
  {
    FilterFilter(summaries, NotIn(existing), IsTruthy, NewTo(existing));
    forall x
      ensures multiset(NewSummaries(summaries, existing))[x] ==
                if IsNew(existing, x) then multiset(summaries)[x] else 0
    {
      FilterMultiplicity(summaries, NewTo(existing), x);
    }
    FilterIsSubsequence(summaries, NewTo(existing));
  }

  /** A summary is reported new exactly when some sheet draft carries it, it
      is not empty and no calendar event carries it. */
  lemma NewEventsMembers(sheetEvents: seq<SheetEvent>, calendarEvents: seq<CalendarEvent>, summary: string)
    ensures summary in CheckNewEvents(sheetEvents, calendarEvents).newEvents <==>
      && summary != []
      && (exists i :: 0 <= i < |sheetEvents| && sheetEvents[i].summary == summary)
      && (forall j :: 0 <= j < |calendarEvents| ==> calendarEvents[j].summary != summary)
  {
    var summaries := SheetSummaries(sheetEvents);
    var existing := CalendarSummaries(calendarEvents);
    NewSummariesMembers(summaries, existing, summary);
    SummaryOccurs(sheetEvents, summary);
    ExistingOccurs(calendarEvents, summary);
  }

  lemma NewSummariesMembers(summaries: seq<string>, existing: seq<string>, summary: string)
    ensures summary in NewSummaries(summaries, existing) <==> IsNew(existing, summary) && summary in summaries
  {
    NewSummariesSpec(summaries, existing);
    assert summary in NewSummaries(summaries, existing) <==> multiset(NewSummaries(summaries, existing))[summary] > 0;
    assert summary in summaries <==> multiset(summaries)[summary] > 0;
  }

  lemma SummaryOccurs(sheetEvents: seq<SheetEvent>, summary: string)
    ensures summary in SheetSummaries(sheetEvents) <==>
              exists i :: 0 <= i < |sheetEvents| && sheetEvents[i].summary == summary
  {
    var summaries := SheetSummaries(sheetEvents);
    if summary in summaries {
      var i :| 0 <= i < |summaries| && summaries[i] == summary;
      assert sheetEvents[i].summary == summary;
    }
    if exists i :: 0 <= i < |sheetEvents| && sheetEvents[i].summary == summary {
      var i :| 0 <= i < |sheetEvents| && sheetEvents[i].summary == summary;
      assert summaries[i] == summary;
    }
  }

  lemma ExistingOccurs(calendarEvents: seq<CalendarEvent>, summary: string)
    ensures summary in CalendarSummaries(calendarEvents) <==>
              exists j :: 0 <= j < |calendarEvents| && calendarEvents[j].summary == summary
  {
    var existing := CalendarSummaries(calendarEvents);
    if summary in existing {
      var j :| 0 <= j < |existing| && existing[j] == summary;
      assert calendarEvents[j].summary == summary;
    }
  }

  /** Against an empty calendar every non-empty sheet summary is new. */
  lemma NothingExisting(summaries: seq<string>)
    ensures NewSummaries(summaries, []) == Filter(summaries, IsTruthy)
  {
    NonMatchedAgainstNothing(summaries);
  }

  lemma ExampleSummaries()
    ensures "A" != "B" && "A" != [] && "B" != []
  {
    assert "A"[0] != "B"[0];
  }

  /** `["A", "B", "A"]` against `["A"]`: every "A" is dropped, the "B" kept. */
  lemma NewSummariesExample()
    ensures NewSummaries(["A", "B", "A"], ["A"]) == ["B"]
  {
    ExampleSummaries();
    var s: seq<string> := ["A", "B", "A"];
    var p := NotIn(["A"]);
    assert s[..2] == ["A", "B"] && s[..2][..1] == ["A"] && s[..2][..1][..0] == [];
    assert !p("A") && p("B");
    assert Filter(s[..1], p) == [];
    assert Filter(s[..2], p) == ["B"];
    assert NonMatched(s, ["A"]) == ["B"];
    var b: seq<string> := ["B"];
    assert b[..0] == [];
  }

  // ---- limit_calendar_data_by_datetime ----

  /** The day number of `(now - timedelta(weeks=min_week)).date()`. */
  function WindowStartOrdinal(today: Date, minWeek: int): int
    requires ValidDate(today)
  {
    Ordinal(today) - 7 * minWeek
  }

  /** The test the loop applies: the due date parses as `%Y-%m-%d` and is on
      or after the window's start. */
  predicate InWindow(timeMin: Date, draft: SheetEvent) {
    ParseIsoDate(draft.dueDate).Some? && DateLessEq(timeMin, ParseIsoDate(draft.dueDate).value)
  }

  function Within(timeMin: Date): SheetEvent -> bool {
    draft => InWindow(timeMin, draft)
  }

  /** The drafts the loop keeps. */
  function Limited(drafts: seq<SheetEvent>, timeMin: Date): seq<SheetEvent> {
    Filter(drafts, Within(timeMin))
  }

  /** A window start outside the calendar raises; otherwise the source's
      loop keeps the drafts of the window. */
  method LimitCalendarDataByDatetime(transformedList: seq<SheetEvent>, minWeek: int, today: Date)
    returns (r: Result<seq<SheetEvent>>)
    requires ValidDate(today)
    ensures r.Failure? <==> !(1 <= WindowStartOrdinal(today, minWeek) <= MaxOrdinal)
    ensures r.Failure? ==> r.error == DateOutOfRange
    ensures r.Success? ==> exists timeMin :: ValidDate(timeMin) && Ordinal(timeMin) == WindowStartOrdinal(today, minWeek)
                                             && r.value == Limited(transformedList, timeMin)
  {
    var timeMin := DaysBefore(today, 7 * minWeek);
    assert timeMin.Some? <==> 1 <= WindowStartOrdinal(today, minWeek) <= MaxOrdinal;
    if timeMin.None? {
      return Failure(DateOutOfRange);
    }
    var limitedList := KeepFrom(transformedList, timeMin.value);
    r := Success(limitedList);
    assert ValidDate(timeMin.value) && Ordinal(timeMin.value) == WindowStartOrdinal(today, minWeek);
  }

  /** The loop of `limit_calendar_data_by_datetime`: an unparseable due date
      is skipped, a due date on or after `timeMin` is kept. */
  method KeepFrom(transformedList: seq<SheetEvent>, timeMin: Date) returns (limitedList: seq<SheetEvent>)
    ensures limitedList == Limited(transformedList, timeMin)
  {
    limitedList := [];
    for i := 0 to |transformedList|
      invariant limitedList == Limited(transformedList[..i], timeMin)
    {
      LimitedSnoc(transformedList, timeMin, i);
      var item := transformedList[i];
      var dueDate := ParseIsoDate(item.dueDate);
      var keep := dueDate.Some? && DateLessEq(timeMin, dueDate.value);
      assert keep == InWindow(timeMin, item);
      if keep {
        limitedList := limitedList + [item];
      }
    }
    assert transformedList[..|transformedList|] == transformedList;
  }

  lemma LimitedSnoc(drafts: seq<SheetEvent>, timeMin: Date, i: int)
    requires 0 <= i < |drafts|
    ensures Limited(drafts[..i + 1], timeMin) ==
              Limited(drafts[..i], timeMin) + if InWindow(timeMin, drafts[i]) then [drafts[i]] else []
  {
    assert drafts[..i + 1][..i] == drafts[..i];
  }

  /** The window keeps, in order and with multiplicity, exactly the drafts
      it admits, and nothing else. */
  lemma LimitedSpec(drafts: seq<SheetEvent>, timeMin: Date)
    ensures forall x :: multiset(Limited(drafts, timeMin))[x] == if InWindow(timeMin, x) then multiset(drafts)[x] else 0
    ensures IsSubsequence(Limited(drafts, timeMin), drafts)
  {
    forall x
      ensures multiset(Limited(drafts, timeMin))[x] == if InWindow(timeMin, x) then multiset(drafts)[x] else 0
    {
      FilterMultiplicity(drafts, Within(timeMin), x);
    }
    FilterIsSubsequence(drafts, Within(timeMin));
  }

  /** A draft is kept exactly when it is among the drafts and in the window. */
  lemma InLimited(drafts: seq<SheetEvent>, timeMin: Date, draft: SheetEvent)
    ensures draft in Limited(drafts, timeMin) <==> draft in drafts && InWindow(timeMin, draft)
  {
    FilterMultiplicity(drafts, Within(timeMin), draft);
  }

  /** Filtering twice with the same window is filtering once. */
  lemma LimitedIdempotent(drafts: seq<SheetEvent>, timeMin: Date)
    ensures Limited(Limited(drafts, timeMin), timeMin) == Limited(drafts, timeMin)
  {
    FilterIdempotent(drafts, Within(timeMin));
  }

  /** A draft with a readable due date is kept exactly when that date is no
      more than `7 * minWeek` days before today: the boundary day itself is
      kept, the day before it is not. */
  lemma WindowInDays(today: Date, minWeek: int, timeMin: Date, draft: SheetEvent)
    requires ValidDate(today) && ValidDate(timeMin) && Ordinal(timeMin) == WindowStartOrdinal(today, minWeek)
    requires ParseIsoDate(draft.dueDate).Some?
    ensures InWindow(timeMin, draft) <==> Ordinal(ParseIsoDate(draft.dueDate).value) >= Ordinal(today) - 7 * minWeek
  {
    OrdinalOrder(timeMin, ParseIsoDate(draft.dueDate).value);
  }

  /** A due date that does not parse is never kept. */
  lemma UnreadableDropped(drafts: seq<SheetEvent>, timeMin: Date, draft: SheetEvent)
    requires ParseIsoDate(draft.dueDate).None?
    ensures draft !in Limited(drafts, timeMin)
  {
  }
}
