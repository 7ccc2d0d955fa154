/** `GoogleCalendarManager`: calendar items become `{event_id, summary,
    dataTime}` records; the insert, update and delete calls it would make
    become worklists of requests. */
module CalendarManager {
  import opened Common
  import opened Dates
  import opened Utils
  import opened SheetManager

  /** A `start` or `end` object: `dateTime` for a timed event, `date` for an
      all-day one. */
  datatype EventTime = EventTime(dateTime: Option<string>, date: Option<string>)

  /** A calendar item as the service lists it, with the fields the core reads. */
  datatype CalendarItem = CalendarItem(
    id: string, summary: string, created: string,
    start: Option<EventTime>, end: Option<EventTime>)

  /** The `{event_id, summary, dataTime}` record. */
  datatype CalendarEvent = CalendarEvent(eventId: string, summary: string, dataTime: string)

  // ---- transform_calendar_data ----

  predicate HasEnd(item: CalendarItem) {
    item.end.Some?
  }

  /** `item["end"].get("dateTime", item["end"].get("date"))`. */
  function EndText(end: EventTime): Option<string> {
    if end.dateTime.Some? then end.dateTime else end.date
  }

  /** The record of one item that has an `end`, or the exception the date
      conversion raises: `parse(None)` when neither field is there, a date
      the parser rejects. */
  function Convert(item: CalendarItem): (r: Result<CalendarEvent>)
    requires HasEnd(item)
    ensures r.Failure? <==> EndText(item.end.value).None? || DateOf(EndText(item.end.value).value).None?
    ensures r.Success? ==>
      && r.value.eventId == item.id
      && r.value.summary == RemoveNonWords(item.summary)
      && ParseIsoDate(r.value.dataTime) == DateOf(EndText(item.end.value).value)
  {
    match EndText(item.end.value)
    case None => Failure(MissingEndDate)
    case Some(text) =>
      ConvertedDay(text);
      match TransformDatetimeToDate(text, 0)
      case Failure(e) => Failure(e)
      case Success(day) => Success(CalendarEvent(item.id, RemoveNonWords(item.summary), day))
  }

  /** The unshifted conversion fails only on text it cannot read, and names
      the same day as its input. */
  lemma ConvertedDay(text: string)
    ensures TransformDatetimeToDate(text, 0).Failure? <==> DateOf(text).None?
    ensures TransformDatetimeToDate(text, 0).Success? ==>
              ParseIsoDate(TransformDatetimeToDate(text, 0).value) == DateOf(text)
  {
    if DateOf(text).Some? {
      OrdinalRange(DateOf(text).value);
      OrdinalOrder(ParseIsoDate(TransformDatetimeToDate(text, 0).value).value, DateOf(text).value);
    }
  }

  /** What the transform returns, or the exception that escapes it: items
      without an `end` are skipped, the others converted in order. */
  function TransformItems(items: seq<CalendarItem>): Result<seq<CalendarEvent>>
    decreases |items|
  {
    if items == [] then Success([])
    else if !HasEnd(items[0]) then TransformItems(items[1..])
    else match Convert(items[0])
      case Failure(e) => Failure(e)
      case Success(event) => Prepend([event], TransformItems(items[1..]))
  }

  /** The source's loop. */
  method TransformCalendarData(items: seq<CalendarItem>) returns (r: Result<seq<CalendarEvent>>)
    ensures r == TransformItems(items)
  {
    var transformed: seq<CalendarEvent> := [];
    assert items[0..] == items;
    PrependNothing(TransformItems(items));
    for i := 0 to |items|
      invariant TransformItems(items) == Prepend(transformed, TransformItems(items[i..]))
    {
      var item := items[i];
      assert items[i..][1..] == items[i + 1..];
      if item.end.Some? {
        var event := Convert(item);
        if event.Failure? {
          return Failure(event.error);
        }
        var tail := TransformItems(items[i + 1..]);
        if tail.Success? {
          assert transformed + [event.value] + tail.value == transformed + ([event.value] + tail.value);
        }
        transformed := transformed + [event.value];
      }
    }
    assert transformed + [] == transformed;
    r := Success(transformed);
  }

  /** The transform raises exactly when some item with an `end` cannot be
      converted. */
  lemma {:induction false} TransformItemsFails(items: seq<CalendarItem>)
    ensures TransformItems(items).Failure? <==>
              exists item :: item in Filter(items, HasEnd) && Convert(item).Failure?
    decreases |items|
  {
    if items != [] {
      TransformItemsFails(items[1..]);
      assert items == [items[0]] + items[1..];
      FilterCons(items[0], items[1..], HasEnd);
    }
  }

  /** `events` holds, position by position, the record of each of `kept`. */
  predicate EventsOf(events: seq<CalendarEvent>, kept: seq<CalendarItem>) {
    && |events| == |kept|
    && forall i :: 0 <= i < |kept| ==> HasEnd(kept[i]) && Convert(kept[i]) == Success(events[i])
  }

  /** Otherwise it yields one record per item with an `end`, in input order. */
  lemma {:induction false} TransformItemsEvents(items: seq<CalendarItem>)
    requires TransformItems(items).Success?
    ensures EventsOf(TransformItems(items).value, Filter(items, HasEnd))
    decreases |items|
  {
    if items != [] {
      var x, rest := items[0], items[1..];
      assert items == [x] + rest;
      FilterCons(x, rest, HasEnd);
      TransformItemsEvents(rest);
      if HasEnd(x) {
        assert TransformItems(items).value == [Convert(x).value] + TransformItems(rest).value;
        EventsCons(x, TransformItems(rest).value, Filter(rest, HasEnd));
      } else {
        assert TransformItems(items) == TransformItems(rest);
        assert Filter(items, HasEnd) == Filter(rest, HasEnd);
      }
    } else {
      assert Filter(items, HasEnd) == [];
    }
  }

  lemma EventsCons(item: CalendarItem, events: seq<CalendarEvent>, kept: seq<CalendarItem>)
    requires HasEnd(item) && Convert(item).Success?
    requires EventsOf(events, kept)
    ensures EventsOf([Convert(item).value] + events, [item] + kept)
  {
    var e, k := [Convert(item).value] + events, [item] + kept;
    forall i | 0 <= i < |k|
      ensures HasEnd(k[i]) && Convert(k[i]) == Success(e[i])
    {
      if i > 0 {
        assert k[i] == kept[i - 1] && e[i] == events[i - 1];
      }
    }
  }

  // ---- _create_event_body ----

  const TimeZone: string := "Asia/Seoul"

  datatype EventDate = EventDate(date: string, timeZone: string)

  /** The request body of an insert or update. */
  datatype EventBody = EventBody(summary: string, start: EventDate, end: EventDate, description: string)

  /** An all-day event from the due date to the next day, both in Seoul time,
      or the exception the next-day conversion raises. */
  function CreateEventBody(draft: SheetEvent): (r: Result<EventBody>)
    ensures r.Success? <==> DateOf(draft.dueDate).Some? && Ordinal(DateOf(draft.dueDate).value) < MaxOrdinal
    ensures r.Success? ==>
      && r.value.summary == draft.summary && r.value.description == draft.description
      && r.value.start == EventDate(draft.dueDate, TimeZone) && r.value.end.timeZone == TimeZone
      && ParseIsoDate(r.value.end.date).Some?
      && Ordinal(ParseIsoDate(r.value.end.date).value) == Ordinal(DateOf(draft.dueDate).value) + 1
  {
    match TransformDatetimeToDate(draft.dueDate, 1)
    case Failure(e) => Failure(e)
    case Success(next) =>
      Success(EventBody(draft.summary, EventDate(draft.dueDate, TimeZone), EventDate(next, TimeZone), draft.description))
  }

  /** For a canonical due date the body ends on the following calendar day;
      only 9999-12-31 has none. */
  lemma BodySpansOneDay(draft: SheetEvent)
    requires ParseIsoDate(draft.dueDate).Some?
    ensures var d := ParseIsoDate(draft.dueDate).value;
      CreateEventBody(draft) == match NextDay(d)
        case Some(e) => Success(EventBody(draft.summary, EventDate(draft.dueDate, TimeZone),
                                          EventDate(FormatIsoDate(e), TimeZone), draft.description))
        case None => Failure(DateOutOfRange)
  {
    DatetimeNextDay(draft.dueDate);
  }

  // ---- insert_events and update_event_description ----

  /** The requests a loop of service calls issues, in order, and the exception
      that ended it early, if any. An HttpError answer to a call is caught
      inside the loop and changes neither. */
  datatype Worklist<T> = Worklist(issued: seq<T>, aborted: Option<Error>)

  /** Building one request per job, in order; the first job whose request
      cannot be built raises and ends the loop. */
  function Issue<J, T>(jobs: seq<J>, make: J -> Result<T>): Worklist<T>
    decreases |jobs|
  {
    if jobs == [] then Worklist([], None)
    else
      var w := Issue(jobs[..|jobs| - 1], make);
      if w.aborted.Some? then w
      else match make(jobs[|jobs| - 1])
        case Failure(e) => Worklist(w.issued, Some(e))
        case Success(request) => Worklist(w.issued + [request], None)
  }

  lemma IssueSnoc<J, T>(jobs: seq<J>, job: J, make: J -> Result<T>)
    ensures Issue(jobs + [job], make) ==
      var w := Issue(jobs, make);
      if w.aborted.Some? then w
      else match make(job)
        case Failure(e) => Worklist(w.issued, Some(e))
        case Success(request) => Worklist(w.issued + [request], None)
  {
    assert (jobs + [job])[..|jobs|] == jobs;
  }

  /** Once a loop has raised, later jobs change nothing. */
  lemma {:induction false} IssueAborted<J, T>(done: seq<J>, jobs: seq<J>, make: J -> Result<T>)
    requires done <= jobs && Issue(done, make).aborted.Some?
    ensures Issue(jobs, make) == Issue(done, make)
    decreases |jobs|
  {
    if |jobs| > |done| {
      assert done <= jobs[..|jobs| - 1];
      IssueAborted(done, jobs[..|jobs| - 1], make);
    } else {
      assert done == jobs;
    }
  }

  /** Position by position, `issued` holds the requests built from `jobs`. */
  ghost predicate BuiltFrom<J, T>(issued: seq<T>, jobs: seq<J>, make: J -> Result<T>) {
    && |issued| <= |jobs|
    && forall i :: 0 <= i < |issued| ==> make(jobs[i]) == Success(issued[i])
  }

  /** A loop of calls issues the request of every job up to the first whose
      request cannot be built, and stops there with that job's exception. */
  lemma {:induction false} IssueSpec<J, T>(jobs: seq<J>, make: J -> Result<T>)
    ensures var w := Issue(jobs, make);
      && BuiltFrom(w.issued, jobs, make)
      && (w.aborted.None? <==> forall i :: 0 <= i < |jobs| ==> make(jobs[i]).Success?)
      && (w.aborted.None? ==> |w.issued| == |jobs|)
      && (w.aborted.Some? ==> |w.issued| < |jobs| && make(jobs[|w.issued|]) == Failure(w.aborted.value))
    decreases |jobs|
  {
    if jobs != [] {
      var n := |jobs| - 1;
      IssueSpec(jobs[..n], make);
      var w := Issue(jobs[..n], make);
      if w.aborted.None? {
        forall i | 0 <= i < |Issue(jobs, make).issued|
          ensures make(jobs[i]) == Success(Issue(jobs, make).issued[i])
        {
          if i < n {
            assert jobs[..n][i] == jobs[i];
          }
        }
      } else {
        assert jobs[..n][|w.issued|] == jobs[|w.issued|];
        forall i | 0 <= i < |w.issued|
          ensures make(jobs[i]) == Success(w.issued[i])
        {
          assert jobs[..n][i] == jobs[i];
        }
      }
    }
  }

  /** For one key, in sheet order, every sheet draft whose summary is the
      key's summary: what the inner loop matches. */
  function Matches<K>(key: K, summary: string, sheet: seq<SheetEvent>): seq<(K, SheetEvent)>
    decreases |sheet|
  {
    if sheet == [] then []
    else
      var n := |sheet| - 1;
      Matches(key, summary, sheet[..n]) + (if sheet[n].summary == summary then [(key, sheet[n])] else [])
  }

  /** The jobs of the two nested loops: for each key in turn, its matches. */
  function MatchJobs<K>(keys: seq<K>, summaryOf: K -> string, sheet: seq<SheetEvent>): seq<(K, SheetEvent)>
    decreases |keys|
  {
    if keys == [] then []
    else
      var n := |keys| - 1;
      MatchJobs(keys[..n], summaryOf, sheet) + Matches(keys[n], summaryOf(keys[n]), sheet)
  }

  lemma {:induction false} MatchesPrefix<K>(key: K, summary: string, sheet: seq<SheetEvent>, j: nat)
    requires j <= |sheet|
    ensures Matches(key, summary, sheet[..j]) <= Matches(key, summary, sheet)
    decreases |sheet|
  {
    if j < |sheet| {
      var n := |sheet| - 1;
      assert sheet[..n][..j] == sheet[..j];
      MatchesPrefix(key, summary, sheet[..n], j);
    } else {
      assert sheet[..j] == sheet;
    }
  }

  lemma {:induction false} MatchJobsPrefix<K>(keys: seq<K>, summaryOf: K -> string, sheet: seq<SheetEvent>, i: nat)
    requires i <= |keys|
    ensures MatchJobs(keys[..i], summaryOf, sheet) <= MatchJobs(keys, summaryOf, sheet)
    decreases |keys|
  {
    if i < |keys| {
      var n := |keys| - 1;
      assert keys[..n][..i] == keys[..i];
      MatchJobsPrefix(keys[..n], summaryOf, sheet, i);
    } else {
      assert keys[..i] == keys;
    }
  }

  /** The jobs done when the outer loop is at key `i` and the inner one at
      draft `j` begin the full list of jobs. */
  lemma JobsSoFar<K>(keys: seq<K>, summaryOf: K -> string, sheet: seq<SheetEvent>, i: nat, j: nat)
    requires i < |keys| && j <= |sheet|
    ensures MatchJobs(keys[..i], summaryOf, sheet) + Matches(keys[i], summaryOf(keys[i]), sheet[..j])
              <= MatchJobs(keys, summaryOf, sheet)
  {
    var done := MatchJobs(keys[..i], summaryOf, sheet);
    MatchesPrefix(keys[i], summaryOf(keys[i]), sheet, j);
    assert keys[..i + 1][..i] == keys[..i];
    assert MatchJobs(keys[..i + 1], summaryOf, sheet) == done + Matches(keys[i], summaryOf(keys[i]), sheet);
    MatchJobsPrefix(keys, summaryOf, sheet, i + 1);
  }

  lemma MatchesSnoc<K>(key: K, summary: string, sheet: seq<SheetEvent>, j: nat)
    requires j < |sheet|
    ensures Matches(key, summary, sheet[..j + 1]) ==
              Matches(key, summary, sheet[..j]) + (if sheet[j].summary == summary then [(key, sheet[j])] else [])
  {
    assert sheet[..j + 1][..j] == sheet[..j];
  }

  lemma MatchJobsSnoc<K>(keys: seq<K>, summaryOf: K -> string, sheet: seq<SheetEvent>, i: nat)
    requires i < |keys|
    ensures MatchJobs(keys[..i + 1], summaryOf, sheet) ==
              MatchJobs(keys[..i], summaryOf, sheet) + Matches(keys[i], summaryOf(keys[i]), sheet)
  {
    assert keys[..i + 1][..i] == keys[..i];
  }

  /** A new event is its own summary. */
  function Itself(summary: string): string {
    summary
  }

  /** The insert body of a (new summary, matching draft) job. */
  function InsertRequest(job: (string, SheetEvent)): Result<EventBody> {
    CreateEventBody(job.1)
  }

  /** The source's nested loops: for each new summary, each sheet draft with
      that summary is inserted; a draft whose due date cannot be shifted
      raises out of the loops. */
  method InsertEvents(newEvents: seq<string>, sheetData: seq<SheetEvent>) returns (w: Worklist<EventBody>)
    ensures w == Issue(MatchJobs(newEvents, Itself, sheetData), InsertRequest)
  {
    var issued: seq<EventBody> := [];
    for i := 0 to |newEvents|
      invariant Issue(MatchJobs(newEvents[..i], Itself, sheetData), InsertRequest) == Worklist(issued, None)
    {
      var event := newEvents[i];
      ghost var done := MatchJobs(newEvents[..i], Itself, sheetData);
      assert sheetData[..0] == [];
      assert done + Matches(event, event, sheetData[..0]) == done;
      for j := 0 to |sheetData|
        invariant Issue(done + Matches(event, event, sheetData[..j]), InsertRequest) == Worklist(issued, None)
      {
        MatchesSnoc(event, event, sheetData, j);
        var sheetItem := sheetData[j];
        if event == sheetItem.summary {
          ghost var before := done + Matches(event, event, sheetData[..j]);
          assert done + Matches(event, event, sheetData[..j + 1]) == before + [(event, sheetItem)];
          IssueSnoc(before, (event, sheetItem), InsertRequest);
          var body := CreateEventBody(sheetItem);
          if body.Failure? {
            JobsSoFar(newEvents, Itself, sheetData, i, j + 1);
            IssueAborted(before + [(event, sheetItem)], MatchJobs(newEvents, Itself, sheetData), InsertRequest);
            return Worklist(issued, Some(body.error));
          }
          issued := issued + [body.value];
        } else {
          assert done + Matches(event, event, sheetData[..j + 1]) == done + Matches(event, event, sheetData[..j]);
        }
      }
      assert sheetData[..|sheetData|] == sheetData;
      MatchJobsSnoc(newEvents, Itself, sheetData, i);
    }
    assert newEvents[..|newEvents|] == newEvents;
    w := Worklist(issued, None);
  }

  /** The update of an existing event: its id and the new body. */
  datatype UpdateCall = UpdateCall(eventId: string, body: EventBody)

  /** `zip(a, b)`: the pairs up to the shorter list's length. */
  function Zip(a: seq<string>, b: seq<string>): (r: seq<(string, string)>)
    ensures |r| <= |a| && |r| <= |b|
    ensures |r| == |a| || |r| == |b|
    ensures forall i :: 0 <= i < |r| ==> r[i] == (a[i], b[i])
  {
    seq(if |a| < |b| then |a| else |b|, i requires 0 <= i < |a| && i < |b| => (a[i], b[i]))
  }

  /** An existing event is matched by its summary. */
  function SummaryOfPair(event: (string, string)): string {
    event.0
  }

  /** The update call of an ((summary, id), matching draft) job. */
  function UpdateRequest(job: ((string, string), SheetEvent)): Result<UpdateCall> {
    match CreateEventBody(job.1)
    case Failure(e) => Failure(e)
    case Success(body) => Success(UpdateCall(job.0.1, body))
  }

  /** The source's nested loops: for each (summary, id) pair of the zipped
      lists, each sheet draft with that summary is written over the event. */
  method UpdateEventDescription(existingEvents: seq<string>, existingIds: seq<string>, sheetData: seq<SheetEvent>)
    returns (w: Worklist<UpdateCall>)
    ensures w == Issue(MatchJobs(Zip(existingEvents, existingIds), SummaryOfPair, sheetData), UpdateRequest)
  {
    var pairs := Zip(existingEvents, existingIds);
    var issued: seq<UpdateCall> := [];
    for k := 0 to |pairs|
      invariant Issue(MatchJobs(pairs[..k], SummaryOfPair, sheetData), UpdateRequest) == Worklist(issued, None)
    {
      var event := (existingEvents[k], existingIds[k]);
      assert event == pairs[k];
      ghost var done := MatchJobs(pairs[..k], SummaryOfPair, sheetData);
      assert sheetData[..0] == [];
      assert done + Matches(event, event.0, sheetData[..0]) == done;
      for j := 0 to |sheetData|
        invariant Issue(done + Matches(event, event.0, sheetData[..j]), UpdateRequest) == Worklist(issued, None)
      {
        MatchesSnoc(event, event.0, sheetData, j);
        var sheetItem := sheetData[j];
        if event.0 == sheetItem.summary {
          ghost var before := done + Matches(event, event.0, sheetData[..j]);
          assert done + Matches(event, event.0, sheetData[..j + 1]) == before + [(event, sheetItem)];
          IssueSnoc(before, (event, sheetItem), UpdateRequest);
          var body := CreateEventBody(sheetItem);
          if body.Failure? {
            JobsSoFar(pairs, SummaryOfPair, sheetData, k, j + 1);
            IssueAborted(before + [(event, sheetItem)], MatchJobs(pairs, SummaryOfPair, sheetData), UpdateRequest);
            return Worklist(issued, Some(body.error));
          }
          issued := issued + [UpdateCall(event.1, body.value)];
        } else {
          assert done + Matches(event, event.0, sheetData[..j + 1]) == done + Matches(event, event.0, sheetData[..j]);
        }
      }
      assert sheetData[..|sheetData|] == sheetData;
      MatchJobsSnoc(pairs, SummaryOfPair, sheetData, k);
    }
    assert pairs[..|pairs|] == pairs;
    w := Worklist(issued, None);
  }

  // ---- what the matching loops pair up ----

  lemma {:induction false} MatchesMembers<K>(key: K, summary: string, sheet: seq<SheetEvent>, k: K, draft: SheetEvent)
    ensures (k, draft) in Matches(key, summary, sheet) <==> k == key && draft in sheet && draft.summary == summary
    decreases |sheet|
  {
    if sheet != [] {
      var n := |sheet| - 1;
      MatchesMembers(key, summary, sheet[..n], k, draft);
      assert sheet == sheet[..n] + [sheet[n]];
    }
  }

  /** A job pairs a key with a sheet draft exactly when the draft's summary
      is the key's: every such pair is issued, and no other. */
  lemma {:induction false} MatchJobsMembers<K>(keys: seq<K>, summaryOf: K -> string, sheet: seq<SheetEvent>, k: K, draft: SheetEvent)
    ensures (k, draft) in MatchJobs(keys, summaryOf, sheet) <==>
              k in keys && draft in sheet && draft.summary == summaryOf(k)
    decreases |keys|
  {
    if keys != [] {
      var n := |keys| - 1;
      MatchJobsMembers(keys[..n], summaryOf, sheet, k, draft);
      MatchesMembers(keys[n], summaryOf(keys[n]), sheet, k, draft);
      assert keys == keys[..n] + [keys[n]];
    }
  }

  function JobSummary<K>(job: (K, SheetEvent)): string {
    job.1.summary
  }

  function BodySummary(body: EventBody): string {
    body.summary
  }

  lemma {:induction false} CountMatches<K>(key: K, keySummary: string, sheet: seq<SheetEvent>, summary: string)
    ensures Count(Matches(key, keySummary, sheet), JobSummary, summary) ==
              if keySummary == summary then Count(sheet, DraftSummary, summary) else 0
    decreases |sheet|
  {
    if sheet != [] {
      var n := |sheet| - 1;
      CountMatches(key, keySummary, sheet[..n], summary);
      var tail := if sheet[n].summary == keySummary then [(key, sheet[n])] else [];
      CountAppend(Matches(key, keySummary, sheet[..n]), tail, JobSummary, summary);
      if tail != [] {
        assert tail[..0] == [];
      }
    }
  }

  /** A summary that occurs k times among the new events and m times among
      the drafts gets k * m insert jobs. */
  lemma {:induction false} InsertJobCount(newEvents: seq<string>, sheet: seq<SheetEvent>, summary: string)
    ensures Count(MatchJobs(newEvents, Itself, sheet), JobSummary, summary) ==
              multiset(newEvents)[summary] * Count(sheet, DraftSummary, summary)
    decreases |newEvents|
  {
    if newEvents != [] {
      var n := |newEvents| - 1;
      InsertJobCount(newEvents[..n], sheet, summary);
      InsertJobCountStep(newEvents, sheet, summary);
      var k, m := multiset(newEvents[..n])[summary], Count(sheet, DraftSummary, summary);
      if newEvents[n] == summary {
        MulSucc(k, m);
      }
    }
  }

  /** One more new event adds its matches to the count. */
  lemma InsertJobCountStep(newEvents: seq<string>, sheet: seq<SheetEvent>, summary: string)
    requires newEvents != []
    ensures var n, event := |newEvents| - 1, newEvents[|newEvents| - 1];
      && Count(MatchJobs(newEvents, Itself, sheet), JobSummary, summary) ==
           Count(MatchJobs(newEvents[..n], Itself, sheet), JobSummary, summary) + (if event == summary then Count(sheet, DraftSummary, summary) else 0)
      && multiset(newEvents)[summary] == multiset(newEvents[..n])[summary] + (if event == summary then 1 else 0)
  {
    var n := |newEvents| - 1;
    var event := newEvents[n];
    assert MatchJobs(newEvents, Itself, sheet) == MatchJobs(newEvents[..n], Itself, sheet) + Matches(event, event, sheet);
    CountAppend(MatchJobs(newEvents[..n], Itself, sheet), Matches(event, event, sheet), JobSummary, summary);
    CountMatches(event, event, sheet, summary);
    assert newEvents == newEvents[..n] + [event];
  }

  lemma MulSucc(k: nat, m: nat)
    ensures (k + 1) * m == k * m + m
  {
  }

  /** Each issued insert carries the summary of its job's draft. */
  lemma {:induction false} InsertedSummaries(jobs: seq<(string, SheetEvent)>, summary: string)
    requires Issue(jobs, InsertRequest).aborted.None?
    ensures Count(Issue(jobs, InsertRequest).issued, BodySummary, summary) == Count(jobs, JobSummary, summary)
    decreases |jobs|
  {
    if jobs != [] {
      var n := |jobs| - 1;
      var before := Issue(jobs[..n], InsertRequest);
      assert before.aborted.None?;
      InsertedSummaries(jobs[..n], summary);
      var body := InsertRequest(jobs[n]).value;
      var issued := before.issued + [body];
      assert Issue(jobs, InsertRequest).issued == issued;
      assert issued[..|issued| - 1] == before.issued;
      assert body.summary == jobs[n].1.summary;
    }
  }

  /** When no due date raises, `insert_events` issues k * m inserts for a
      summary occurring k times among the new events and m times among the
      drafts. */
  lemma InsertsPerSummary(newEvents: seq<string>, sheet: seq<SheetEvent>, summary: string)
    requires Issue(MatchJobs(newEvents, Itself, sheet), InsertRequest).aborted.None?
    ensures Count(Issue(MatchJobs(newEvents, Itself, sheet), InsertRequest).issued, BodySummary, summary) ==
              multiset(newEvents)[summary] * Count(sheet, DraftSummary, summary)
  {
    InsertJobCount(newEvents, sheet, summary);
    InsertedSummaries(MatchJobs(newEvents, Itself, sheet), summary);
  }

  /** `insert_events` catches only HttpError: it raises exactly when some
      draft it reaches, one whose summary is new, has a due date that cannot
      be read or is the last day of the calendar. */
  lemma InsertsRaise(newEvents: seq<string>, sheet: seq<SheetEvent>)
    ensures Issue(MatchJobs(newEvents, Itself, sheet), InsertRequest).aborted.Some? <==>
              exists draft :: draft in sheet && draft.summary in newEvents && CreateEventBody(draft).Failure?
  {
    if Issue(MatchJobs(newEvents, Itself, sheet), InsertRequest).aborted.Some? {
      RaiseHasDraft(newEvents, sheet);
    }
    if exists draft :: draft in sheet && draft.summary in newEvents && CreateEventBody(draft).Failure? {
      var draft :| draft in sheet && draft.summary in newEvents && CreateEventBody(draft).Failure?;
      DraftRaises(newEvents, sheet, draft);
    }
  }

  lemma RaiseHasDraft(newEvents: seq<string>, sheet: seq<SheetEvent>)
    requires Issue(MatchJobs(newEvents, Itself, sheet), InsertRequest).aborted.Some?
    ensures exists draft :: draft in sheet && draft.summary in newEvents && CreateEventBody(draft).Failure?
  {
    var jobs := MatchJobs(newEvents, Itself, sheet);
    IssueSpec(jobs, InsertRequest);
    var i :| 0 <= i < |jobs| && InsertRequest(jobs[i]).Failure?;
    FailingJob(newEvents, sheet, i);
  }

  lemma DraftRaises(newEvents: seq<string>, sheet: seq<SheetEvent>, draft: SheetEvent)
    requires draft in sheet && draft.summary in newEvents && CreateEventBody(draft).Failure?
    ensures Issue(MatchJobs(newEvents, Itself, sheet), InsertRequest).aborted.Some?
  {
    var jobs := MatchJobs(newEvents, Itself, sheet);
    var k := JobOf(newEvents, sheet, draft);
    IssueSpec(jobs, InsertRequest);
    assert InsertRequest(jobs[k]).Failure?;
  }

  lemma FailingJob(newEvents: seq<string>, sheet: seq<SheetEvent>, i: int)
    requires 0 <= i < |MatchJobs(newEvents, Itself, sheet)|
    ensures var draft := MatchJobs(newEvents, Itself, sheet)[i].1;
      draft in sheet && draft.summary in newEvents
  {
    var job := MatchJobs(newEvents, Itself, sheet)[i];
    MatchJobsMembers(newEvents, Itself, sheet, job.0, job.1);
  }

  lemma JobOf(newEvents: seq<string>, sheet: seq<SheetEvent>, draft: SheetEvent) returns (k: int)
    requires draft in sheet && draft.summary in newEvents
    ensures 0 <= k < |MatchJobs(newEvents, Itself, sheet)| && MatchJobs(newEvents, Itself, sheet)[k].1 == draft
  {
    MatchJobsMembers(newEvents, Itself, sheet, draft.summary, draft);
    k :| 0 <= k < |MatchJobs(newEvents, Itself, sheet)| && MatchJobs(newEvents, Itself, sheet)[k] == (draft.summary, draft);
  }

  /** A new draft due on 9999-12-31 raises OverflowError out of the loop
      before anything is inserted. */
  lemma LastDayAborts()
    ensures Issue(MatchJobs(["P"], Itself, [SheetEvent("P", "9999-12-31", "x")]), InsertRequest)
         == Worklist([], Some(DateOutOfRange))
  {
    var draft := SheetEvent("P", "9999-12-31", "x");
    var jobs := MatchJobs(["P"], Itself, [draft]);
    assert Matches("P", "P", [draft]) == [("P", draft)] by {
      assert [draft][..0] == [];
    }
    assert jobs == [("P", draft)] by {
      assert ["P"][..0] == [];
    }
    LastDayBody(draft);
    assert jobs[..0] == [];
  }

  /** No body can be built for a draft due on the last day of the calendar. */
  lemma LastDayBody(draft: SheetEvent)
    requires draft.dueDate == "9999-12-31"
    ensures CreateEventBody(draft) == Failure(DateOutOfRange)
  {
    LastDayText();
    LastOrdinal();
    BodySpansOneDay(draft);
  }

  lemma LastDayText()
    ensures ParseIsoDate("9999-12-31") == Some(Date(MaxYear, 12, 31))
  {
    var last := Date(MaxYear, 12, 31);
    assert Padded(9, 1) == "9" && Padded(99, 2) == "99";
    assert Padded(999, 3) == "999" && Padded(9999, 4) == "9999";
    assert Padded(1, 1) == "1" && Padded(12, 2) == "12";
    assert Padded(3, 1) == "3" && Padded(31, 2) == "31";
    assert FormatIsoDate(last) == "9999-12-31";
    ParseFormat(last);
  }

  // ---- remove_duplicate_events ----

  /** `item.get("start", {}).get("date")` when it is truthy. */
  function StartDate(item: CalendarItem): Option<string> {
    if item.start.Some? && item.start.value.date.Some? && item.start.value.date.value != [] then
      item.start.value.date
    else None
  }

  predicate HasStartDate(item: CalendarItem) {
    StartDate(item).Some?
  }

  /** Python's `<` on the `(id, created)` sort keys. */
  predicate KeyLess(a: CalendarItem, b: CalendarItem) {
    LexLess(a.id, b.id) || (a.id == b.id && LexLess(a.created, b.created))
  }

  lemma KeyLessTransitive(a: CalendarItem, b: CalendarItem, c: CalendarItem)
    requires KeyLess(a, b) && KeyLess(b, c)
    ensures KeyLess(a, c)
  {
    if LexLess(a.id, b.id) && LexLess(b.id, c.id) {
      LexLessTransitive(a.id, b.id, c.id);
    } else if a.id == b.id && b.id == c.id {
      LexLessTransitive(a.created, b.created, c.created);
    }
  }

  lemma KeyLessAsymmetric(a: CalendarItem, b: CalendarItem)
    requires KeyLess(a, b)
    ensures !KeyLess(b, a)
  {
    if KeyLess(b, a) {
      KeyLessTransitive(a, b, a);
      LexLessIrreflexive(a.id);
      LexLessIrreflexive(a.created);
    }
  }

  /** Ascending by key: no item's key is below an earlier one's. */
  predicate SortedByKey(s: seq<CalendarItem>) {
    forall i, j :: 0 <= i < j < |s| ==> !KeyLess(s[j], s[i])
  }

  /** `x` placed into a sorted list after every item whose key is not above
      its own. */
  function InsertByKey(x: CalendarItem, s: seq<CalendarItem>): (r: seq<CalendarItem>)
    requires SortedByKey(s)
    ensures SortedByKey(r)
    ensures multiset(r) == multiset(s) + multiset{x}
    decreases |s|
  {
    if s == [] then [x]
    else if KeyLess(x, s[0]) then
      InsertFrontSorted(x, s);
      [x] + s
    else
      var r := InsertByKey(x, s[1..]);
      assert s == [s[0]] + s[1..];
      InsertBehindSorted(x, s, r);
      [s[0]] + r
  }

  lemma InsertFrontSorted(x: CalendarItem, s: seq<CalendarItem>)
    requires SortedByKey(s) && s != [] && KeyLess(x, s[0])
    ensures SortedByKey([x] + s)
  {
    var r := [x] + s;
    forall i, j | 0 <= i < j < |r|
      ensures !KeyLess(r[j], r[i])
    {
      if i == 0 {
        if j == 1 {
          KeyLessAsymmetric(x, s[0]);
        } else {
          assert r[j] == s[j - 1];
          if KeyLess(r[j], x) {
            KeyLessTransitive(r[j], x, s[0]);
          }
        }
      } else {
        assert r[i] == s[i - 1] && r[j] == s[j - 1];
      }
    }
  }

  lemma InsertBehindSorted(x: CalendarItem, s: seq<CalendarItem>, r: seq<CalendarItem>)
    requires SortedByKey(s) && s != [] && !KeyLess(x, s[0])
    requires SortedByKey(r) && multiset(r) == multiset(s[1..]) + multiset{x}
    ensures SortedByKey([s[0]] + r)
  {
    var t := [s[0]] + r;
    forall i, j | 0 <= i < j < |t|
      ensures !KeyLess(t[j], t[i])
    {
      if i == 0 {
        var e := r[j - 1];
        assert e in multiset(r);
        if e != x {
          assert e in multiset(s[1..]);
          var k :| 0 <= k < |s[1..]| && s[1..][k] == e;
          assert s[k + 1] == e;
        }
      } else {
        assert t[i] == r[i - 1] && t[j] == r[j - 1];
      }
    }
  }

  /** `list.sort(key=...)`: an insertion sort that keeps equal keys in input
      order. */
  function SortByKey(s: seq<CalendarItem>): (r: seq<CalendarItem>)
    ensures SortedByKey(r)
    ensures multiset(r) == multiset(s)
    decreases |s|
  {
    if s == [] then []
    else
      var n := |s| - 1;
      assert s == s[..n] + [s[n]];
      InsertByKey(s[n], SortByKey(s[..n]))
  }

  lemma {:induction false} InsertAtEnd(x: CalendarItem, s: seq<CalendarItem>)
    requires SortedByKey(s)
    requires forall i :: 0 <= i < |s| ==> !KeyLess(x, s[i])
    ensures InsertByKey(x, s) == s + [x]
    decreases |s|
  {
    if s != [] {
      InsertAtEnd(x, s[1..]);
      assert s == [s[0]] + s[1..];
    }
  }

  /** Sorting an already sorted list changes nothing. */
  lemma {:induction false} SortSorted(s: seq<CalendarItem>)
    requires SortedByKey(s)
    ensures SortByKey(s) == s
    decreases |s|
  {
    if s != [] {
      var n := |s| - 1;
      SortSorted(s[..n]);
      InsertAtEnd(s[n], s[..n]);
      assert s[..n] + [s[n]] == s;
    }
  }

  predicate AllStarted(items: seq<CalendarItem>) {
    forall i :: 0 <= i < |items| ==> HasStartDate(items[i])
  }

  /** The items `remove_duplicate_events` walks: those with a start date,
      in key order. */
  function Ordered(calendarData: seq<CalendarItem>): (r: seq<CalendarItem>)
    ensures SortedByKey(r) && AllStarted(r)
    ensures multiset(r) == multiset(Filter(calendarData, HasStartDate))
  {
    var r := SortByKey(Filter(calendarData, HasStartDate));
    OrderedStarted(Filter(calendarData, HasStartDate), r);
    r
  }

  lemma OrderedStarted(kept: seq<CalendarItem>, r: seq<CalendarItem>)
    requires forall x :: x in kept ==> HasStartDate(x)
    requires multiset(r) == multiset(kept)
    ensures AllStarted(r)
  {
    forall i | 0 <= i < |r|
      ensures HasStartDate(r[i])
    {
      assert r[i] in multiset(r);
    }
  }

  /** What `unique_events` records for a summary. */
  datatype Entry = Entry(startDate: string, created: string)

  function EntryOf(item: CalendarItem): Entry
    requires HasStartDate(item)
  {
    Entry(StartDate(item).value, item.created)
  }

  /** The `unique_events` map and the ids whose delete has been issued. */
  datatype DedupState = DedupState(seen: map<string, Entry>, deletes: seq<string>)

  /** One pass of the loop body. */
  function Visit(st: DedupState, item: CalendarItem): DedupState
    requires HasStartDate(item)
  {
    var start := StartDate(item).value;
    if item.summary !in st.seen then
      DedupState(st.seen[item.summary := EntryOf(item)], st.deletes)
    else
      var first := st.seen[item.summary];
      if item.created != first.created && start == first.startDate then
        DedupState(st.seen, st.deletes + [item.id])
      else st
  }

  /** The loop's state after the given items. */
  function Dedup(items: seq<CalendarItem>): DedupState
    requires AllStarted(items)
    decreases |items|
  {
    if items == [] then DedupState(map[], [])
    else
      var n := |items| - 1;
      Visit(Dedup(items[..n]), items[n])
  }

  /** The source's loop over the ordered items. */
  method RemoveDuplicateEvents(calendarData: seq<CalendarItem>) returns (deletes: seq<string>)
    ensures deletes == Dedup(Ordered(calendarData)).deletes
  {
    var items := Ordered(calendarData);
    var uniqueEvents: map<string, Entry> := map[];
    deletes := [];
    for i := 0 to |items|
      invariant DedupState(uniqueEvents, deletes) == Dedup(items[..i])
    {
      assert items[..i + 1][..i] == items[..i];
      var item := items[i];
      var startDate := StartDate(item).value;
      var summary := item.summary;
      if summary !in uniqueEvents {
        uniqueEvents := uniqueEvents[summary := Entry(startDate, item.created)];
      } else if item.created != uniqueEvents[summary].created && startDate == uniqueEvents[summary].startDate {
        deletes := deletes + [item.id];
      }
    }
    assert items[..|items|] == items;
  }

  // ---- the resolver without its map ----

  /** Position of the first item carrying `summary`, or the length when none
      does. */
  function FirstIndex(items: seq<CalendarItem>, summary: string): (k: nat)
    ensures k <= |items|
    ensures k < |items| ==> items[k].summary == summary
    decreases |items|
  {
    if items == [] then 0
    else if items[0].summary == summary then 0
    else 1 + FirstIndex(items[1..], summary)
  }

  /** No item before that position carries the summary. */
  lemma {:induction false} FirstIndexFirst(items: seq<CalendarItem>, summary: string)
    ensures forall i :: 0 <= i < FirstIndex(items, summary) ==> items[i].summary != summary
    decreases |items|
  {
    if items != [] && items[0].summary != summary {
      FirstIndexFirst(items[1..], summary);
      forall i | 0 < i < FirstIndex(items, summary)
        ensures items[i].summary != summary
      {
        assert items[i] == items[1..][i - 1];
      }
    }
  }

  /** The position is the only one with those properties. */
  lemma {:induction false} FirstIndexUnique(items: seq<CalendarItem>, summary: string, k: nat)
    requires k <= |items|
    requires k < |items| ==> items[k].summary == summary
    requires forall i :: 0 <= i < k ==> items[i].summary != summary
    ensures FirstIndex(items, summary) == k
    decreases |items|
  {
    if items != [] && k > 0 {
      assert items[0].summary != summary;
      forall i | 0 <= i < k - 1
        ensures items[1..][i].summary != summary
      {
        assert items[1..][i] == items[i + 1];
      }
      FirstIndexUnique(items[1..], summary, k - 1);
    }
  }

  lemma FirstIndexSnoc(items: seq<CalendarItem>, x: CalendarItem, summary: string)
    ensures FirstIndex(items + [x], summary) ==
      if FirstIndex(items, summary) < |items| then FirstIndex(items, summary)
      else if x.summary == summary then |items| else |items| + 1
  {
    var k := FirstIndex(items, summary);
    var t := items + [x];
    var m := if k < |items| then k else if x.summary == summary then |items| else |items| + 1;
    FirstIndexFirst(items, summary);
    forall i | 0 <= i < m
      ensures t[i].summary != summary
    {
      assert i < |items| ==> t[i] == items[i];
    }
    FirstIndexUnique(t, summary, m);
  }

  /** An item the resolver deletes: an earlier item carries its summary, and
      the first such one was created at another time on the same start date. */
  predicate Doomed(items: seq<CalendarItem>, i: int)
    requires AllStarted(items) && 0 <= i < |items|
  {
    var f := FirstIndex(items, items[i].summary);
    f < i && items[i].created != items[f].created && StartDate(items[i]) == StartDate(items[f])
  }

  /** The ids of the doomed items, in order. */
  function DoomedIds(items: seq<CalendarItem>): seq<string>
    requires AllStarted(items)
    decreases |items|
  {
    if items == [] then []
    else
      var n := |items| - 1;
      DoomedIds(items[..n]) + (if Doomed(items, n) then [items[n].id] else [])
  }

  /** `seen` maps exactly the summaries that occur, each to the entry of its
      first item. */
  ghost predicate SeenFirst(items: seq<CalendarItem>, seen: map<string, Entry>)
    requires AllStarted(items)
  {
    && (forall summary :: summary in seen <==> FirstIndex(items, summary) < |items|)
    && (forall summary :: summary in seen ==>
          FirstIndex(items, summary) < |items| && seen[summary] == EntryOf(items[FirstIndex(items, summary)]))
  }

  /** The map keeps, for each summary, the first item's start date and
      creation time, never overwritten; the deletes are the doomed items. */
  lemma {:induction false} DedupSpec(items: seq<CalendarItem>)
    requires AllStarted(items)
    ensures SeenFirst(items, Dedup(items).seen)
    ensures Dedup(items).deletes == DoomedIds(items)
    decreases |items|
  {
    if items != [] {
      var n := |items| - 1;
      var done, x := items[..n], items[n];
      assert done + [x] == items;
      DedupSpec(done);
      VisitSpec(done, x, Dedup(done));
      assert Dedup(items) == Visit(Dedup(done), x);
    }
  }

  lemma VisitSpec(done: seq<CalendarItem>, x: CalendarItem, st: DedupState)
    requires AllStarted(done) && HasStartDate(x)
    requires SeenFirst(done, st.seen) && st.deletes == DoomedIds(done)
    ensures AllStarted(done + [x])
    ensures SeenFirst(done + [x], Visit(st, x).seen)
    ensures Visit(st, x).deletes == DoomedIds(done + [x])
  {
    AllStartedSnoc(done, x);
    VisitSeen(done, x, st);
    VisitDeletes(done, x, st);
  }

  lemma AllStartedSnoc(done: seq<CalendarItem>, x: CalendarItem)
    requires AllStarted(done) && HasStartDate(x)
    ensures AllStarted(done + [x])
  {
    var items := done + [x];
    forall k | 0 <= k < |items|
      ensures HasStartDate(items[k])
    {
      if k < |done| {
        assert items[k] == done[k];
      }
    }
  }

  lemma VisitSeen(done: seq<CalendarItem>, x: CalendarItem, st: DedupState)
    requires AllStarted(done) && HasStartDate(x)
    requires SeenFirst(done, st.seen)
    ensures AllStarted(done + [x])
    ensures SeenFirst(done + [x], Visit(st, x).seen)
  {
    AllStartedSnoc(done, x);
    var items := done + [x];
    var n := |done|;
    var seen := Visit(st, x).seen;
    forall summary
      ensures summary in seen <==> FirstIndex(items, summary) < |items|
      ensures summary in seen ==>
          FirstIndex(items, summary) < |items| && seen[summary] == EntryOf(items[FirstIndex(items, summary)])
    {
      FirstIndexSnoc(done, x, summary);
      var f := FirstIndex(done, summary);
      if f < n {
        assert items[f] == done[f];
      } else {
        assert items[n] == x;
      }
    }
  }

  lemma VisitDeletes(done: seq<CalendarItem>, x: CalendarItem, st: DedupState)
    requires AllStarted(done) && HasStartDate(x)
    requires SeenFirst(done, st.seen) && st.deletes == DoomedIds(done)
    ensures AllStarted(done + [x])
    ensures Visit(st, x).deletes == DoomedIds(done + [x])
  {
    AllStartedSnoc(done, x);
    var items := done + [x];
    var n := |done|;
    assert items[..n] == done;
    assert items[n] == x;
    FirstIndexSnoc(done, x, x.summary);
    var f := FirstIndex(items, x.summary);
    if x.summary in st.seen {
      assert f < n && items[f] == done[f];
    } else {
      assert f == n;
    }
  }

  lemma DoomedSnoc(done: seq<CalendarItem>, x: CalendarItem, i: int)
    requires AllStarted(done) && HasStartDate(x) && 0 <= i < |done|
    ensures AllStarted(done + [x])
    ensures Doomed(done + [x], i) == Doomed(done, i)
  {
    var items := done + [x];
    AllStartedSnoc(done, x);
    FirstIndexSnoc(done, x, done[i].summary);
    assert items[i] == done[i];
    var f := FirstIndex(done, done[i].summary);
    FirstIndexFirst(done, done[i].summary);
    assert f <= i;
    assert items[f] == done[f];
  }

  /** Whether an earlier item is doomed does not depend on the items after it. */
  lemma DoomedPrefix(items: seq<CalendarItem>, i: int)
    requires AllStarted(items) && 0 <= i < |items| - 1
    ensures AllStarted(items[..|items| - 1])
    ensures items[..|items| - 1][i] == items[i]
    ensures Doomed(items, i) == Doomed(items[..|items| - 1], i)
  {
    var n := |items| - 1;
    assert items[..n] + [items[n]] == items;
    DoomedSnoc(items[..n], items[n], i);
  }

  lemma DoomedIdsLast(items: seq<CalendarItem>)
    requires AllStarted(items) && items != []
    ensures AllStarted(items[..|items| - 1])
    ensures DoomedIds(items) == DoomedIds(items[..|items| - 1]) + if Doomed(items, |items| - 1) then [items[|items| - 1].id] else []
  {
  }

  /** An id is among the doomed ids exactly when some doomed item has it. */
  lemma DoomedIdsMembers(items: seq<CalendarItem>, id: string)
    requires AllStarted(items)
    ensures id in DoomedIds(items) <==> exists i :: 0 <= i < |items| && Doomed(items, i) && items[i].id == id
  {
    if id in DoomedIds(items) {
      DoomedIdsFound(items, id);
    }
    if exists i :: 0 <= i < |items| && Doomed(items, i) && items[i].id == id {
      var i :| 0 <= i < |items| && Doomed(items, i) && items[i].id == id;
      DoomedIdsListed(items, i);
    }
  }

  lemma {:induction false} DoomedIdsFound(items: seq<CalendarItem>, id: string)
    requires AllStarted(items) && id in DoomedIds(items)
    ensures exists i :: 0 <= i < |items| && Doomed(items, i) && items[i].id == id
    decreases |items|
  {
    var n := |items| - 1;
    var done := items[..n];
    DoomedIdsLast(items);
    if id in DoomedIds(done) {
      DoomedIdsFound(done, id);
      var i :| 0 <= i < n && Doomed(done, i) && done[i].id == id;
      DoomedPrefix(items, i);
    } else {
      assert Doomed(items, n) && items[n].id == id;
    }
  }

  lemma {:induction false} DoomedIdsListed(items: seq<CalendarItem>, i: int)
    requires AllStarted(items) && 0 <= i < |items| && Doomed(items, i)
    ensures items[i].id in DoomedIds(items)
    decreases |items|
  {
    var n := |items| - 1;
    var done := items[..n];
    DoomedIdsLast(items);
    if i < n {
      DoomedPrefix(items, i);
      DoomedIdsListed(done, i);
      assert items[i].id in DoomedIds(done);
    } else {
      assert DoomedIds(items) == DoomedIds(done) + [items[n].id];
    }
  }

  predicate DistinctIds(items: seq<CalendarItem>) {
    forall i, j :: 0 <= i < j < |items| ==> items[i].id != items[j].id
  }

  /** With event ids unique, an item is deleted exactly when a first item of
      its summary exists before it, created at another time, on the same start
      date; in particular an item on another start date always survives. */
  lemma DeletedIff(items: seq<CalendarItem>, i: int)
    requires AllStarted(items) && DistinctIds(items) && 0 <= i < |items|
    ensures items[i].id in Dedup(items).deletes <==> Doomed(items, i)
  {
    DedupSpec(items);
    DoomedIdsMembers(items, items[i].id);
    if items[i].id in Dedup(items).deletes {
      var k :| 0 <= k < |items| && Doomed(items, k) && items[k].id == items[i].id;
      assert k == i;
    }
  }

  /** The first item seen for a summary is never deleted. */
  lemma FirstNeverDeleted(items: seq<CalendarItem>, summary: string)
    requires AllStarted(items) && DistinctIds(items)
    requires FirstIndex(items, summary) < |items|
    ensures items[FirstIndex(items, summary)].id !in Dedup(items).deletes
  {
    DeletedIff(items, FirstIndex(items, summary));
  }

  function AllDay(date: string): Option<EventTime> {
    Some(EventTime(None, Some(date)))
  }

  /** Three events named "X": ids 1 and 2 start on 2025-01-01, id 3 on
      2025-02-01. */
  function ExampleData(): seq<CalendarItem> {
    [ CalendarItem("1", "X", "T1", AllDay("2025-01-01"), None),
      CalendarItem("2", "X", "T2", AllDay("2025-01-01"), None),
      CalendarItem("3", "X", "T3", AllDay("2025-02-01"), None) ]
  }

  lemma ExampleKeys()
    ensures !LexLess("2", "1") && !LexLess("3", "1") && !LexLess("3", "2")
    ensures "T1" != "T2" && "2025-01-01" != "2025-02-01"
  {
    assert "2"[0] != "1"[0] && "3"[0] != "1"[0] && "3"[0] != "2"[0];
    assert "T1"[1] != "T2"[1];
    assert "2025-01-01"[6] != "2025-02-01"[6];
  }

  lemma ExampleSorted()
    ensures SortedByKey(ExampleData())
  {
    ExampleKeys();
  }

  lemma ExampleOrdered()
    ensures Ordered(ExampleData()) == ExampleData()
  {
    var data := ExampleData();
    FilterAll(data, HasStartDate);
    ExampleSorted();
    SortSorted(data);
  }

  lemma ExampleFirst()
    ensures Dedup(ExampleData()[..1]) == DedupState(map["X" := EntryOf(ExampleData()[0])], [])
  {
    var data := ExampleData();
    assert data[..1][..0] == [];
  }

  lemma ExampleSecond()
    ensures Dedup(ExampleData()[..2]) == DedupState(map["X" := EntryOf(ExampleData()[0])], ["2"])
  {
    var data := ExampleData();
    ExampleFirst();
    ExampleKeys();
    assert data[..2][..1] == data[..1];
  }

  lemma ExampleThird()
    ensures Dedup(ExampleData()).deletes == ["2"]
  {
    var data := ExampleData();
    ExampleSecond();
    ExampleKeys();
    assert data[..2] == data[..|data| - 1];
  }

  /** On the three events only id 2 is deleted; id 3 survives because its
      start date differs from the first one's. */
  lemma DuplicateExample()
    ensures Dedup(Ordered(ExampleData())).deletes == ["2"]
  {
    ExampleOrdered();
    ExampleThird();
  }
}
