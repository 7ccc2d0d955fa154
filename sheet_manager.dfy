/** `GoogleSheetManager.transform_sheet_data`: schedule rows (lists of cell
    strings, as the spreadsheet returns them, trailing empty cells omitted)
    become event drafts. */
module SheetManager {
  import opened Common
  import opened Utils

  /** An event draft: the dict `{summary, due_date, description}`. */
  datatype SheetEvent = SheetEvent(summary: string, dueDate: string, description: string)

  function DraftSummary(draft: SheetEvent): string {
    draft.summary
  }

  type Row = seq<string>

  /** Where the note sits in the current layout and in the older script's. */
  const NoteColumn: nat := 8
  const LegacyNoteColumn: nat := 9

  /** Cells 0, 2, 3, 4 and 6 are read without a length check, so a shorter
      non-empty row raises IndexError. */
  const MinRowLength: nat := 7

  const NoNote: string := "없음"

  predicate IsNonEmpty(row: Row) {
    row != []
  }

  predicate IsShort(row: Row) {
    row != [] && |row| < MinRowLength
  }

  /** The description template: site, region, offer and note, the note
      falling back to "없음" when the row does not reach its column. */
  function Description(row: Row, noteColumn: nat): string
    requires |row| >= MinRowLength
  {
    "사이트: " + row[0] + "\n지역: " + row[2] + "\n제공내역: " + row[6]
      + "\n비고: " + (if |row| > noteColumn then row[noteColumn] else NoNote)
  }

  /** The draft one full-length row yields, once its date range reduced. */
  function Record(row: Row, noteColumn: nat): SheetEvent
    requires |row| >= MinRowLength && TransformRangeDateToDate(row[4]).Success?
  {
    SheetEvent(RemoveNonWords(row[3]), TransformRangeDateToDate(row[4]).value, Description(row, noteColumn))
  }

  /** What the transform returns, or the exception it lets escape: empty rows
      are skipped, the first short row ends the batch (the IndexError is caught
      outside the loop), an inverted range raises out of the function. */
  function TransformRows(rows: seq<Row>, noteColumn: nat): Result<seq<SheetEvent>>
    decreases |rows|
  {
    if rows == [] then Success([])
    else if rows[0] == [] then TransformRows(rows[1..], noteColumn)
    else if |rows[0]| < MinRowLength then Success([])
    else match TransformRangeDateToDate(rows[0][4])
      case Failure(e) => Failure(e)
      case Success(_) => Prepend([Record(rows[0], noteColumn)], TransformRows(rows[1..], noteColumn))
  }

  /** The source's loop, with the early exits it takes. */
  method TransformSheetData(rows: seq<Row>, noteColumn: nat) returns (r: Result<seq<SheetEvent>>)
    ensures r == TransformRows(rows, noteColumn)
  {
    var transformed: seq<SheetEvent> := [];
    var i := 0;
    assert rows[0..] == rows;
    PrependNothing(TransformRows(rows, noteColumn));
    while i < |rows|
      invariant 0 <= i <= |rows|
      invariant TransformRows(rows, noteColumn) == Prepend(transformed, TransformRows(rows[i..], noteColumn))
    {
      var item := rows[i];
      assert rows[i..][1..] == rows[i + 1..];
      if item != [] {
        if |item| < MinRowLength {
          assert transformed + [] == transformed;
          return Success(transformed);
        }
        var dueDate := TransformRangeDateToDate(item[4]);
        if dueDate.Failure? {
          return Failure(dueDate.error);
        }
        var event := SheetEvent(RemoveNonWords(item[3]), dueDate.value, Description(item, noteColumn));
        assert event == Record(item, noteColumn);
        var tail := TransformRows(rows[i + 1..], noteColumn);
        if tail.Success? {
          assert transformed + [event] + tail.value == transformed + ([event] + tail.value);
        }
        transformed := transformed + [event];
      }
      i := i + 1;
    }
    assert transformed + [] == transformed;
    r := Success(transformed);
  }

  // ---- an independent description of the result ----

  /** Index of the first short row, where IndexError ends the loop, or the
      number of rows when there is none. */
  function Cutoff(rows: seq<Row>): (k: nat)
    ensures k <= |rows|
    decreases |rows|
  {
    if rows == [] then 0 else if IsShort(rows[0]) then 0 else Cutoff(rows[1..]) + 1
  }

  /** The rows the loop turns into drafts: the non-empty rows before the
      first short one. */
  function Processed(rows: seq<Row>): seq<Row> {
    Filter(rows[..Cutoff(rows)], IsNonEmpty)
  }

  lemma {:induction false} ProcessedUnfold(rows: seq<Row>)
    requires rows != []
    ensures Processed(rows) == if IsShort(rows[0]) then []
                               else Filter([rows[0]], IsNonEmpty) + Processed(rows[1..])
  {
    if !IsShort(rows[0]) {
      var k := Cutoff(rows[1..]);
      assert rows[..k + 1] == [rows[0]] + rows[1..][..k];
      FilterAppend([rows[0]], rows[1..][..k], IsNonEmpty);
    }
  }

  lemma {:induction false} ProcessedRowsAreFull(rows: seq<Row>)
    ensures forall row :: row in Processed(rows) ==> |row| >= MinRowLength
    decreases |rows|
  {
    if rows != [] {
      ProcessedRowsAreFull(rows[1..]);
      ProcessedUnfold(rows);
    }
  }

  /** The transform raises exactly when some processed row holds an inverted
      date range. */
  lemma {:induction false} TransformRowsFails(rows: seq<Row>, noteColumn: nat)
    ensures forall row :: row in Processed(rows) ==> |row| >= MinRowLength
    ensures TransformRows(rows, noteColumn).Failure? <==>
              exists row :: row in Processed(rows) && TransformRangeDateToDate(row[4]).Failure?
    decreases |rows|
  {
    ProcessedRowsAreFull(rows);
    if rows != [] {
      var row, rest := rows[0], rows[1..];
      TransformRowsFails(rest, noteColumn);
      ProcessedUnfold(rows);
      if row == [] {
        assert Filter([row], IsNonEmpty) == [];
        assert Processed(rows) == Processed(rest);
        assert TransformRows(rows, noteColumn) == TransformRows(rest, noteColumn);
      } else if IsShort(row) {
        assert Processed(rows) == [];
      } else {
        assert Filter([row], IsNonEmpty) == [row];
        assert Processed(rows) == [row] + Processed(rest);
        InvertedCons(row, Processed(rest));
      }
    }
  }

  lemma InvertedCons(row: Row, rest: seq<Row>)
    requires |row| >= MinRowLength && forall r :: r in rest ==> |r| >= MinRowLength
    ensures (exists r :: r in [row] + rest && TransformRangeDateToDate(r[4]).Failure?) <==>
              TransformRangeDateToDate(row[4]).Failure? || exists r :: r in rest && TransformRangeDateToDate(r[4]).Failure?
  {
    if exists r :: r in [row] + rest && TransformRangeDateToDate(r[4]).Failure? {
      var r :| r in [row] + rest && TransformRangeDateToDate(r[4]).Failure?;
      assert r == row || r in rest;
    }
  }

  /** `drafts` holds, position by position, the draft of each of `processed`. */
  predicate DraftsOf(drafts: seq<SheetEvent>, processed: seq<Row>, noteColumn: nat) {
    && |drafts| == |processed|
    && forall i :: 0 <= i < |processed| ==>
         |processed[i]| >= MinRowLength && TransformRangeDateToDate(processed[i][4]).Success?
         && drafts[i] == Record(processed[i], noteColumn)
  }

  /** Otherwise it yields one draft per processed row, in row order. */
  lemma {:induction false} TransformRowsDrafts(rows: seq<Row>, noteColumn: nat)
    requires TransformRows(rows, noteColumn).Success?
    ensures DraftsOf(TransformRows(rows, noteColumn).value, Processed(rows), noteColumn)
    decreases |rows|
  {
    if rows != [] {
      ProcessedUnfold(rows);
      var row := rows[0];
      if row == [] {
        assert Filter([row], IsNonEmpty) == [];
        TransformRowsDrafts(rows[1..], noteColumn);
      } else if !IsShort(row) {
        TransformRowsDrafts(rows[1..], noteColumn);
        assert Filter([row], IsNonEmpty) == [row];
        DraftsCons(row, TransformRows(rows[1..], noteColumn).value, Processed(rows[1..]), noteColumn);
      }
    }
  }

  lemma DraftsCons(row: Row, drafts: seq<SheetEvent>, processed: seq<Row>, noteColumn: nat)
    requires |row| >= MinRowLength && TransformRangeDateToDate(row[4]).Success?
    requires DraftsOf(drafts, processed, noteColumn)
    ensures DraftsOf([Record(row, noteColumn)] + drafts, [row] + processed, noteColumn)
  {
    var d, p := [Record(row, noteColumn)] + drafts, [row] + processed;
    forall i | 0 <= i < |p|
      ensures |p[i]| >= MinRowLength && TransformRangeDateToDate(p[i][4]).Success? && d[i] == Record(p[i], noteColumn)
    {
      if i > 0 {
        assert p[i] == processed[i - 1] && d[i] == drafts[i - 1];
      }
    }
  }

  /** Never more drafts than rows. */
  lemma TransformRowsLength(rows: seq<Row>, noteColumn: nat)
    requires TransformRows(rows, noteColumn).Success?
    ensures |TransformRows(rows, noteColumn).value| <= |rows|
  {
    TransformRowsDrafts(rows, noteColumn);
  }

  /** Rows after a short row never reach the result: the result is that of
      the rows before it. */
  lemma {:induction false} ShortRowEndsBatch(before: seq<Row>, short: Row, after: seq<Row>, noteColumn: nat)
    requires IsShort(short)
    ensures TransformRows(before + [short] + after, noteColumn) == TransformRows(before, noteColumn)
    decreases |before|
  {
    var rows := before + [short] + after;
    if before == [] {
      assert rows[0] == short;
    } else {
      assert rows[0] == before[0];
      assert rows[1..] == before[1..] + [short] + after;
      ShortRowEndsBatch(before[1..], short, after, noteColumn);
    }
  }

  /** The older script reads the note from cell 9, the current one from cell 8:
      a nine-cell row has a note for the one and "없음" for the other. */
  lemma NoteColumns(row: Row)
    requires |row| == 9
    ensures Description(row, NoteColumn) == Description(row, LegacyNoteColumn)[..|Description(row, LegacyNoteColumn)| - |NoNote|] + row[8]
  {
    var prefix := "사이트: " + row[0] + "\n지역: " + row[2] + "\n제공내역: " + row[6] + "\n비고: ";
    assert Description(row, LegacyNoteColumn) == prefix + NoNote;
    assert (prefix + NoNote)[..|prefix + NoNote| - |NoNote|] == prefix;
  }
}
