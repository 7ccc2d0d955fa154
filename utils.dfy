/** The string helpers of `utils.py`: the whitespace normaliser, the
    date-range reducer, the date shifter and the list difference. */
module Utils {
  import opened Common
  import opened Dates

  // ---- remove_non_words ----

  /** The characters `\s` matches in a Python str pattern (those for which
      `str.isspace()` holds). */
  predicate IsWhitespace(c: char) {
    || c == ' '
    || ('\t' <= c <= '\r')
    || ('\U{1C}' <= c <= '\U{1F}')
    || c == '\U{85}' || c == '\U{A0}' || c == '\U{1680}'
    || ('\U{2000}' <= c <= '\U{200A}')
    || c == '\U{2028}' || c == '\U{2029}' || c == '\U{202F}' || c == '\U{205F}' || c == '\U{3000}'
  }

  predicate IsNotWhitespace(c: char) {
    !IsWhitespace(c)
  }

  /** `re.sub(r"\s+|\n", "", s)`: every whitespace character deleted. */
  function RemoveNonWords(s: string): (r: string)
    ensures |r| <= |s|
    ensures forall c :: c in r ==> c in s && !IsWhitespace(c)
  {
    Filter(s, IsNotWhitespace)
  }

  /** The normaliser deletes exactly the whitespace: every other character
      stays, as often as it occurs and in its order. */
  lemma RemoveNonWordsKeeps(s: string)
    ensures forall c :: multiset(RemoveNonWords(s))[c] == if IsWhitespace(c) then 0 else multiset(s)[c]
    ensures IsSubsequence(RemoveNonWords(s), s)
  {
    forall c ensures multiset(RemoveNonWords(s))[c] == if IsWhitespace(c) then 0 else multiset(s)[c] {
      FilterMultiplicity(s, IsNotWhitespace, c);
    }
    FilterIsSubsequence(s, IsNotWhitespace);
  }

  predicate NoWhitespace(s: string) {
    forall c :: c in s ==> !IsWhitespace(c)
  }

  lemma NoWhitespaceAppend(a: string, b: string)
    requires NoWhitespace(a) && NoWhitespace(b)
    ensures NoWhitespace(a + b)
  {
  }

  /** A string without whitespace comes back unchanged. */
  lemma RemoveNonWordsFixed(s: string)
    requires NoWhitespace(s)
    ensures RemoveNonWords(s) == s
  {
    FilterAll(s, IsNotWhitespace);
  }

  lemma RemoveNonWordsIdempotent(s: string)
    ensures RemoveNonWords(RemoveNonWords(s)) == RemoveNonWords(s)
  {
    FilterIdempotent(s, IsNotWhitespace);
  }

  lemma RemoveNonWordsAppend(a: string, b: string)
    ensures RemoveNonWords(a + b) == RemoveNonWords(a) + RemoveNonWords(b)
  {
    FilterAppend(a, b, IsNotWhitespace);
  }

  // ---- str.split, str.replace and str comparison ----

  /** Position of the first occurrence of `c` in `s`. */
  function IndexOf(s: string, c: char): (i: nat)
    requires c in s
    ensures i < |s| && s[i] == c && c !in s[..i]
  {
    if s[0] == c then 0 else IndexOf(s[1..], c) + 1
  }

  /** `s.split(sep)` for a one-character separator. */
  function Split(s: string, sep: char): (parts: seq<string>)
    ensures |parts| >= 1
    ensures forall p :: p in parts ==> sep !in p
    decreases |s|
  {
    if sep !in s then [s]
    else
      var i := IndexOf(s, sep);
      [s[..i]] + Split(s[i + 1..], sep)
  }

  /** `sep.join(parts)`. */
  function Join(parts: seq<string>, sep: char): string
    requires |parts| >= 1
    decreases |parts|
  {
    if |parts| == 1 then parts[0] else parts[0] + [sep] + Join(parts[1..], sep)
  }

  /** Splitting loses nothing: joining the parts with the separator gives
      the string back. */
  lemma {:induction false} JoinSplit(s: string, sep: char)
    ensures Join(Split(s, sep), sep) == s
    decreases |s|
  {
    if sep in s {
      var i := IndexOf(s, sep);
      JoinSplit(s[i + 1..], sep);
      JoinFirstPart(s[..i], Split(s[i + 1..], sep), sep);
      assert s == s[..i] + [sep] + s[i + 1..];
    }
  }

  lemma JoinFirstPart(first: string, rest: seq<string>, sep: char)
    requires |rest| >= 1
    ensures Join([first] + rest, sep) == first + [sep] + Join(rest, sep)
  {
    assert ([first] + rest)[1..] == rest;
  }

  /** The parts are made of the string's own characters. */
  lemma {:induction false} SplitPartsFromString(s: string, sep: char)
    ensures forall p, c :: p in Split(s, sep) && c in p ==> c in s
    decreases |s|
  {
    if sep in s {
      var i := IndexOf(s, sep);
      SplitPartsFromString(s[i + 1..], sep);
      forall p, c | p in Split(s, sep) && c in p ensures c in s {
        if p != s[..i] {
          assert p in Split(s[i + 1..], sep);
          assert c in s[i + 1..];
        }
      }
    }
  }

  /** A part without the separator, then the separator, starts a split. */
  lemma SplitAfterPart(part: string, sep: char, rest: string)
    requires sep !in part
    ensures Split(part + [sep] + rest, sep) == [part] + Split(rest, sep)
  {
    var s := part + [sep] + rest;
    assert s[..|part|] == part && s[|part|] == sep && s[|part| + 1..] == rest;
  }

  /** `s.replace(from, to)` for single characters. */
  function ReplaceChar(s: string, from: char, to: char): (r: string)
    ensures |r| == |s|
    ensures forall i :: 0 <= i < |s| ==> r[i] == if s[i] == from then to else s[i]
    ensures forall c :: c in r ==> (c in s && c != from) || c == to
  {
    seq(|s|, i requires 0 <= i < |s| => if s[i] == from then to else s[i])
  }

  /** Python's `a < b` on str: code point by code point, a proper prefix
      being smaller. */
  predicate LexLess(a: string, b: string)
    decreases |a|
  {
    if b == [] then false
    else if a == [] then true
    else if a[0] != b[0] then a[0] < b[0]
    else LexLess(a[1..], b[1..])
  }

  lemma {:induction false} LexLessIrreflexive(a: string)
    ensures !LexLess(a, a)
    decreases |a|
  {
    if a != [] {
      LexLessIrreflexive(a[1..]);
    }
  }

  lemma {:induction false} LexLessTransitive(a: string, b: string, c: string)
    requires LexLess(a, b) && LexLess(b, c)
    ensures LexLess(a, c)
    decreases |a|
  {
    if a != [] && a[0] == b[0] && b[0] == c[0] {
      LexLessTransitive(a[1..], b[1..], c[1..]);
    }
  }

  /** A common prefix does not change the comparison. */
  lemma {:induction false} LexLessCommonPrefix(p: string, a: string, b: string)
    ensures LexLess(p + a, p + b) == LexLess(a, b)
    decreases |p|
  {
    if p != [] {
      assert (p + a)[1..] == p[1..] + a && (p + b)[1..] == p[1..] + b;
      LexLessCommonPrefix(p[1..], a, b);
    } else {
      assert p + a == a && p + b == b;
    }
  }

  lemma LexLessAsymmetric(a: string, b: string)
    requires LexLess(a, b)
    ensures !LexLess(b, a)
  {
    if LexLess(b, a) {
      LexLessTransitive(a, b, a);
      LexLessIrreflexive(a);
    }
  }

  lemma {:induction false} LexLessTotal(a: string, b: string)
    ensures a == b || LexLess(a, b) || LexLess(b, a)
    decreases |a|
  {
    if a != [] && b != [] && a[0] == b[0] {
      LexLessTotal(a[1..], b[1..]);
      if a[1..] == b[1..] {
        assert a == [a[0]] + a[1..] && b == [b[0]] + b[1..];
      }
    }
  }

  // ---- transform_range_date_to_date ----

  /** The reducer: whitespace removed, split at '~'; a single part is the
      date, otherwise the second part (the end of the range) is, unless it
      compares below the first, where the source's `current_year += 1` on an
      unbound local raises. In either case '.' becomes '-'. */
  function TransformRangeDateToDate(dateRange: string): (r: Result<string>)
    ensures r.Failure? ==> r.error == InvertedRange
    ensures r.Success? ==> forall c :: c in r.value ==> !IsWhitespace(c) && c != '.' && c != '~'
  {
    var cleaned := RemoveNonWords(dateRange);
    var parts := Split(cleaned, '~');
    SplitPartsFromString(cleaned, '~');
    if |parts| == 1 then
      Success(ReplaceChar(parts[0], '.', '-'))
    else
      var start, end := parts[0], parts[1];
      if LexLess(end, start) then Failure(InvertedRange)
      else Success(ReplaceChar(end, '.', '-'))
  }

  /** No '~': the cleaned string itself, with '.' written as '-'. */
  lemma RangeSingleDate(dateRange: string)
    requires '~' !in RemoveNonWords(dateRange)
    ensures TransformRangeDateToDate(dateRange) == Success(ReplaceChar(RemoveNonWords(dateRange), '.', '-'))
  {
  }

  /** A range `start~end`, whatever follows a second '~' ignored, reduces
      to its end when the end does not compare below the start, and fails
      otherwise. */
  lemma RangeTakesEnd(start: string, end: string, rest: string)
    requires NoWhitespace(start) && NoWhitespace(end) && NoWhitespace(rest)
    requires '~' !in start && '~' !in end
    requires rest == [] || rest[0] == '~'
    ensures TransformRangeDateToDate(start + "~" + end + rest)
         == if LexLess(end, start) then Failure(InvertedRange) else Success(ReplaceChar(end, '.', '-'))
  {
    var s := start + "~" + end + rest;
    NoWhitespaceAppend(start, "~");
    NoWhitespaceAppend(start + "~", end);
    NoWhitespaceAppend(start + "~" + end, rest);
    RemoveNonWordsFixed(s);
    SplitRange(start, end, rest);
    RangeByParts(s);
  }

  /** Helper: the first two parts of `start~end~...`. */
  lemma SplitRange(start: string, end: string, rest: string)
    requires '~' !in start && '~' !in end
    requires rest == [] || rest[0] == '~'
    ensures var parts := Split(start + "~" + end + rest, '~');
      |parts| >= 2 && parts[0] == start && parts[1] == end
  {
    var s := start + "~" + end + rest;
    assert s == start + ['~'] + (end + rest);
    SplitAfterPart(start, '~', end + rest);
    if rest == [] {
      assert end + rest == end;
    } else {
      assert end + rest == end + ['~'] + rest[1..];
      SplitAfterPart(end, '~', rest[1..]);
    }
  }

  lemma RangeByParts(s: string)
    requires RemoveNonWords(s) == s
    requires |Split(s, '~')| >= 2
    ensures TransformRangeDateToDate(s) == var parts := Split(s, '~');
      if LexLess(parts[1], parts[0]) then Failure(InvertedRange) else Success(ReplaceChar(parts[1], '.', '-'))
  {
  }

  /** Whitespace anywhere in the cell, around the '~' included, does not
      change the result: the reducer sees only the cleaned string. */
  lemma RangeIgnoresWhitespace(dateRange: string)
    ensures TransformRangeDateToDate(dateRange) == TransformRangeDateToDate(RemoveNonWords(dateRange))
  {
    RemoveNonWordsIdempotent(dateRange);
  }

  /** Spaces around the '~' of a range are dropped before it is split. */
  lemma SpacedRange(start: string, end: string)
    requires NoWhitespace(start) && NoWhitespace(end)
    ensures TransformRangeDateToDate(start + " ~ " + end) == TransformRangeDateToDate(start + "~" + end)
  {
    CleanSpaced(start, end);
    RangeIgnoresWhitespace(start + " ~ " + end);
  }

  lemma CleanSpaced(start: string, end: string)
    requires NoWhitespace(start) && NoWhitespace(end)
    ensures RemoveNonWords(start + " ~ " + end) == start + "~" + end
  {
    assert start + " ~ " + end == start + (" " + ("~" + (" " + end)));
    ExampleSpace();
    RemoveNonWordsAppend(" ", end);
    RemoveNonWordsAppend("~", " " + end);
    RemoveNonWordsAppend(" ", "~" + (" " + end));
    RemoveNonWordsAppend(start, " " + ("~" + (" " + end)));
    RemoveNonWordsFixed(start);
    RemoveNonWordsFixed(end);
  }

  /** Helper: the cleaner's effect on the two one-character strings. */
  lemma ExampleSpace()
    ensures RemoveNonWords(" ") == [] && RemoveNonWords("~") == "~" && NoWhitespace("~")
  {
    assert " "[..0] == [] && "~"[..0] == [];
  }

  /** The range as a sheet cell often holds it, `2025.03.01 ~ 2025.03.31`,
      reduces to its end date too. */
  lemma SpacedRangeExample()
    ensures TransformRangeDateToDate("2025.03.01 ~ 2025.03.31") == Success("2025-03-31")
  {
    var start, end := "2025.03.01", "2025.03.31";
    ExampleSpacedText();
    ExampleNoWhitespace();
    SpacedRange(start, end);
    assert start + "~" + end + [] == start + "~" + end;
    ExampleRangeText();
    RangeExample();
  }

  lemma ExampleSpacedText()
    ensures "2025.03.01" + " ~ " + "2025.03.31" == "2025.03.01 ~ 2025.03.31"
  {
    var s := "2025.03.01 ~ 2025.03.31";
    assert s[..10] == "2025.03.01";
    assert s[10..13] == " ~ ";
    assert s[13..] == "2025.03.31";
    assert s == s[..10] + s[10..13] + s[13..];
  }

  /** The range `2025.03.01~2025.03.31` reduces to its end date. */
  lemma RangeExample()
    ensures TransformRangeDateToDate("2025.03.01~2025.03.31") == Success("2025-03-31")
  {
    var start, end := "2025.03.01", "2025.03.31";
    ExampleText();
    ExampleRangeText();
    LexLessAsymmetric(start, end);
    RangeTakesEnd(start, end, []);
  }

  /** The inverted range `2025.03.31~2025.03.01` fails. */
  lemma InvertedRangeExample()
    ensures TransformRangeDateToDate("2025.03.31~2025.03.01") == Failure(InvertedRange)
  {
    ExampleText();
    ExampleInvertedText();
    RangeTakesEnd("2025.03.31", "2025.03.01", []);
  }

  /** Helper: the literal facts the two examples rest on. */
  lemma ExampleText()
    ensures NoWhitespace("2025.03.01") && NoWhitespace("2025.03.31") && NoWhitespace([])
    ensures '~' !in "2025.03.01" && '~' !in "2025.03.31"
    ensures LexLess("2025.03.01", "2025.03.31")
    ensures ReplaceChar("2025.03.31", '.', '-') == "2025-03-31"
  {
    ExampleNoWhitespace();
    ExampleLess();
    ExampleReplace();
  }

  lemma ExampleRangeText()
    ensures "2025.03.01" + "~" + "2025.03.31" + [] == "2025.03.01~2025.03.31"
  {
    var s := "2025.03.01~2025.03.31";
    assert s[..10] == "2025.03.01";
    assert s[11..] == "2025.03.31";
    assert s == s[..10] + [s[10]] + s[11..];
  }

  lemma ExampleInvertedText()
    ensures "2025.03.31" + "~" + "2025.03.01" + [] == "2025.03.31~2025.03.01"
  {
    var s := "2025.03.31~2025.03.01";
    assert s[..10] == "2025.03.31";
    assert s[11..] == "2025.03.01";
    assert s == s[..10] + [s[10]] + s[11..];
  }

  lemma ExampleNoWhitespace()
    ensures NoWhitespace("2025.03.01") && NoWhitespace("2025.03.31")
    ensures '~' !in "2025.03.01" && '~' !in "2025.03.31"
  {
  }

  lemma ExampleLess()
    ensures LexLess("2025.03.01", "2025.03.31")
  {
    var p := "2025.03.";
    assert "2025.03.01" == p + "01" && "2025.03.31" == p + "31";
    LexLessCommonPrefix(p, "01", "31");
    assert "01"[0] < "31"[0];
  }

  lemma ExampleReplace()
    ensures ReplaceChar("2025.03.31", '.', '-') == "2025-03-31"
  {
    var r := ReplaceChar("2025.03.31", '.', '-');
    assert r[0] == '2' && r[4] == '-' && r[7] == '-';
  }

  // ---- the sheet's YYYY.MM.DD dates ----

  /** A date as the sheet writes it: `isoformat()` with '.' for '-'. */
  function Dotted(d: Date): (s: string)
    requires ValidDate(d)
    ensures |s| == 10 && s[4] == '.' && s[7] == '.'
    ensures ReplaceChar(s, '.', '-') == FormatIsoDate(d)
    ensures NoWhitespace(s) && '~' !in s
  {
    Padded(d.year, 4) + "." + Padded(d.month, 2) + "." + Padded(d.day, 2)
  }

  /** A single well-formed date reduces to its `YYYY-MM-DD` form. */
  lemma DottedDate(d: Date)
    requires ValidDate(d)
    ensures TransformRangeDateToDate(Dotted(d)) == Success(FormatIsoDate(d))
  {
    RemoveNonWordsFixed(Dotted(d));
    RangeSingleDate(Dotted(d));
  }

  /** A range of two well-formed dates reduces to the ISO form of its end,
      and raises exactly when the end date is earlier than the start date:
      on these fixed-width strings `<` is the order of the dates. */
  lemma DottedRange(a: Date, b: Date)
    requires ValidDate(a) && ValidDate(b)
    ensures TransformRangeDateToDate(Dotted(a) + "~" + Dotted(b))
         == if DateLess(b, a) then Failure(InvertedRange) else Success(FormatIsoDate(b))
  {
    assert Dotted(a) + "~" + Dotted(b) + [] == Dotted(a) + "~" + Dotted(b);
    RangeTakesEnd(Dotted(a), Dotted(b), []);
    DottedLess(b, a);
  }

  /** String order on dotted dates is date order. */
  lemma DottedLess(a: Date, b: Date)
    requires ValidDate(a) && ValidDate(b)
    ensures LexLess(Dotted(a), Dotted(b)) == DateLess(a, b)
  {
    assert Pow10(2) == 100 && Pow10(4) == 10000;
    PaddedLess(a.year, b.year, 4);
    PaddedLess(a.month, b.month, 2);
    PaddedLess(a.day, b.day, 2);
    PaddedInjective(a.year, b.year, 4);
    PaddedInjective(a.month, b.month, 2);
    DottedFields(a);
    DottedFields(b);
    FieldsLess(Padded(a.year, 4), Padded(b.year, 4), Padded(a.month, 2), Padded(b.month, 2),
               Padded(a.day, 2), Padded(b.day, 2));
  }

  lemma DottedFields(d: Date)
    requires ValidDate(d)
    ensures Dotted(d) == Padded(d.year, 4) + ("." + (Padded(d.month, 2) + ("." + Padded(d.day, 2))))
  {
  }

  /** `year.month.day` strings with equally wide fields compare field by field. */
  lemma FieldsLess(ya: string, yb: string, ma: string, mb: string, da: string, db: string)
    requires |ya| == |yb| && |ma| == |mb|
    ensures LexLess(ya + ("." + (ma + ("." + da))), yb + ("." + (mb + ("." + db))))
         == if ya != yb then LexLess(ya, yb) else if ma != mb then LexLess(ma, mb) else LexLess(da, db)
  {
    LexLessFields(ya, yb, "." + (ma + ("." + da)), "." + (mb + ("." + db)));
    LexLessCommonPrefix(".", ma + ("." + da), mb + ("." + db));
    LexLessFields(ma, mb, "." + da, "." + db);
    LexLessCommonPrefix(".", da, db);
  }

  /** Two equally wide digit fields compare as the numbers they write. */
  lemma {:induction false} PaddedLess(x: nat, y: nat, width: nat)
    requires x < Pow10(width) && y < Pow10(width)
    ensures LexLess(Padded(x, width), Padded(y, width)) == (x < y)
    decreases width
  {
    if width > 0 {
      var p, q := Padded(x / 10, width - 1), Padded(y / 10, width - 1);
      var dx, dy := DigitChar(x % 10), DigitChar(y % 10);
      assert Padded(x, width) == p + [dx] && Padded(y, width) == q + [dy];
      PaddedLess(x / 10, y / 10, width - 1);
      PaddedInjective(x / 10, y / 10, width - 1);
      LexLessFields(p, q, [dx], [dy]);
      assert LexLess([dx], [dy]) == (dx < dy) by {
        assert [dx][1..] == [] && [dy][1..] == [];
      }
    }
  }

  lemma PaddedInjective(x: nat, y: nat, width: nat)
    requires x < Pow10(width) && y < Pow10(width)
    ensures Padded(x, width) == Padded(y, width) <==> x == y
  {
    PaddedValue(x, width);
    PaddedValue(y, width);
  }

  /** Comparing field by field: two equally long leading fields decide the
      comparison unless they are equal. */
  lemma {:induction false} LexLessFields(p: string, q: string, x: string, y: string)
    requires |p| == |q|
    ensures LexLess(p + x, q + y) == if p == q then LexLess(x, y) else LexLess(p, q)
    decreases |p|
  {
    if p == q {
      LexLessCommonPrefix(p, x, y);
    } else {
      assert (p + x)[0] == p[0] && (q + y)[0] == q[0];
      if p[0] == q[0] {
        assert (p + x)[1..] == p[1..] + x && (q + y)[1..] == q[1..] + y;
        LexLessFields(p[1..], q[1..], x, y);
      }
    }
  }

  // ---- transform_datetime_to_date ----

  /** The calendar date named by a canonical `YYYY-MM-DD` date, or by the
      date part of a `YYYY-MM-DDThh:mm:ss...` date-time. */
  function DateOf(s: string): Option<Date> {
    if |s| == 10 then ParseIsoDate(s)
    else if |s| > 10 && s[10] == 'T' then ParseIsoDate(s[..10])
    else None
  }

  /** `(parse(s) + timedelta(delta)).date().isoformat()`. */
  function TransformDatetimeToDate(s: string, delta: nat): (r: Result<string>)
    ensures r.Failure? <==> DateOf(s).None? || Ordinal(DateOf(s).value) + delta > MaxOrdinal
    ensures r.Success? ==>
      ParseIsoDate(r.value).Some? && Ordinal(ParseIsoDate(r.value).value) == Ordinal(DateOf(s).value) + delta
  {
    match DateOf(s)
    case None => Failure(UnparseableDate)
    case Some(d) =>
      match AddDays(d, delta)
      case None => Failure(DateOutOfRange)
      case Some(e) =>
        ParseFormat(e);
        Success(FormatIsoDate(e))
  }

  /** With no shift a canonical date comes back unchanged. */
  lemma DatetimeNoShift(s: string)
    requires ParseIsoDate(s).Some?
    ensures TransformDatetimeToDate(s, 0) == Success(s)
  {
    assert s[..10] == s;
  }

  /** With a shift of one a canonical date becomes the next calendar day,
      rolling over month and year; only 9999-12-31 has none. */
  lemma DatetimeNextDay(s: string)
    requires ParseIsoDate(s).Some?
    ensures var d := ParseIsoDate(s).value;
      TransformDatetimeToDate(s, 1) == match NextDay(d)
        case Some(e) => Success(FormatIsoDate(e))
        case None => Failure(DateOutOfRange)
  {
    var d := ParseIsoDate(s).value;
    assert s[..10] == s;
    assert AddDays(d, 1) == NextDay(d);
  }

  // ---- find_non_matched_items ----

  /** The test `item not in existing`. */
  function NotIn(existing: seq<string>): string -> bool {
    item => item !in existing
  }

  /** The items of `newItems` that `existingItems` does not contain. */
  function NonMatched(newItems: seq<string>, existingItems: seq<string>): seq<string> {
    Filter(newItems, NotIn(existingItems))
  }

  /** The source's loop: each new item that is not among the existing items
      is appended, in turn. */
  method FindNonMatchedItems(newItems: seq<string>, existingItems: seq<string>)
    returns (nonMatched: seq<string>)
    ensures nonMatched == NonMatched(newItems, existingItems)
  {
    nonMatched := [];
    for i := 0 to |newItems|
      invariant nonMatched == NonMatched(newItems[..i], existingItems)
    {
      assert newItems[..i + 1][..i] == newItems[..i];
      if newItems[i] !in existingItems {
        nonMatched := nonMatched + [newItems[i]];
      }
    }
    assert newItems[..|newItems|] == newItems;
  }

  /** The difference keeps, in input order and as often as they occur, exactly
      the new items absent from the existing ones. */
  lemma NonMatchedSpec(newItems: seq<string>, existingItems: seq<string>)
    ensures forall x :: multiset(NonMatched(newItems, existingItems))[x]
                     == if x in existingItems then 0 else multiset(newItems)[x]
    ensures IsSubsequence(NonMatched(newItems, existingItems), newItems)
  {
    forall x ensures multiset(NonMatched(newItems, existingItems))[x]
                  == if x in existingItems then 0 else multiset(newItems)[x] {
      FilterMultiplicity(newItems, NotIn(existingItems), x);
    }
    FilterIsSubsequence(newItems, NotIn(existingItems));
  }

  /** Against nothing, every new item is new. */
  lemma NonMatchedAgainstNothing(newItems: seq<string>)
    ensures NonMatched(newItems, []) == newItems
  {
    FilterAll(newItems, NotIn([]));
  }
}
