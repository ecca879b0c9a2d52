/**
 * Epoch timestamps. The dataset writes each instant as
 * `YYYY-DDDTHH:MM:SS.fffZ` (year, day of year, time of day, UTC); the
 * tracker deletes every `Z`, parses the rest with the `strptime` format
 * `%Y-%jT%H:%M:%S.%f` and reads the result as UTC. Instants are modelled as
 * exact integer microseconds since 0001-001T00:00:00 UTC (the proleptic
 * Gregorian origin of Python's `datetime`).
 */
module Timestamps {
  import opened Options
  import opened Digits

  /** The fields `strptime` extracts: year, day of year (1 = 1 January), clock, microseconds. */
  datatype TimeFields = TimeFields(year: int, day: int, hour: int, minute: int, second: int, micro: int)

  const MicrosPerSecond := 1_000_000
  const MicrosPerDay := 86_400_000_000

  predicate IsLeapYear(y: int) {
    y % 4 == 0 && (y % 100 != 0 || y % 400 == 0)
  }

  function DaysInYear(y: int): int {
    if IsLeapYear(y) then 366 else 365
  }

  /** The field ranges `datetime` accepts: years 1 to 9999, the days of that year, a 24-hour clock. */
  predicate ValidFields(f: TimeFields) {
    && 1 <= f.year <= 9999
    && 1 <= f.day <= DaysInYear(f.year)
    && 0 <= f.hour < 24
    && 0 <= f.minute < 60
    && 0 <= f.second < 60
    && 0 <= f.micro < MicrosPerSecond
  }

  /** Days from 1 January of year 1 to 1 January of year `y`. */
  function DaysBeforeYear(y: int): int
    requires y >= 1
  {
    var p := y - 1;
    365 * p + p / 4 - p / 100 + p / 400
  }

  function DayNumber(f: TimeFields): int
    requires ValidFields(f)
  {
    DaysBeforeYear(f.year) + f.day - 1
  }

  function TimeOfDay(f: TimeFields): int
    requires ValidFields(f)
  {
    ((f.hour * 60 + f.minute) * 60 + f.second) * MicrosPerSecond + f.micro
  }

  /** The instant the fields denote, in microseconds since the origin. */
  function ToMicros(f: TimeFields): int
    requires ValidFields(f)
  {
    DayNumber(f) * MicrosPerDay + TimeOfDay(f)
  }

  /** Chronological order of field tuples: lexicographic, most significant field first. */
  predicate Precedes(a: TimeFields, b: TimeFields) {
    || a.year < b.year
    || (a.year == b.year && a.day < b.day)
    || (a.year == b.year && a.day == b.day && a.hour < b.hour)
    || (a.year == b.year && a.day == b.day && a.hour == b.hour && a.minute < b.minute)
    || (a.year == b.year && a.day == b.day && a.hour == b.hour && a.minute == b.minute && a.second < b.second)
    || (a.year == b.year && a.day == b.day && a.hour == b.hour && a.minute == b.minute && a.second == b.second && a.micro < b.micro)
  }

  /** A year contributes exactly its own length to the day count. */
  lemma DaysBeforeNextYear(y: int)
    requires y >= 1
    ensures DaysBeforeYear(y + 1) == DaysBeforeYear(y) + DaysInYear(y)
  {
    var p := y - 1;
    assert (p + 1) / 4 - p / 4 == if y % 4 == 0 then 1 else 0;
    assert (p + 1) / 100 - p / 100 == if y % 100 == 0 then 1 else 0;
    assert (p + 1) / 400 - p / 400 == if y % 400 == 0 then 1 else 0;
  }

  lemma {:induction false} DaysBeforeMonotone(y1: int, y2: int)
    requires 1 <= y1 <= y2
    ensures DaysBeforeYear(y1) + 365 * (y2 - y1) <= DaysBeforeYear(y2)
    decreases y2 - y1
  {
    if y1 < y2 {
      DaysBeforeNextYear(y1);
      DaysBeforeMonotone(y1 + 1, y2);
    }
  }

  lemma DayNumberOrder(a: TimeFields, b: TimeFields)
    requires ValidFields(a) && ValidFields(b)
    ensures (a.year < b.year || (a.year == b.year && a.day < b.day)) <==> DayNumber(a) < DayNumber(b)
    ensures DayNumber(a) == DayNumber(b) <==> (a.year == b.year && a.day == b.day)
  {
    if a.year < b.year {
      DaysBeforeNextYear(a.year);
      DaysBeforeMonotone(a.year + 1, b.year);
    } else if b.year < a.year {
      DaysBeforeNextYear(b.year);
      DaysBeforeMonotone(b.year + 1, a.year);
    }
  }

  lemma TimeOfDayOrder(a: TimeFields, b: TimeFields)
    requires ValidFields(a) && ValidFields(b)
    ensures 0 <= TimeOfDay(a) < MicrosPerDay
    ensures Precedes(a, b) && a.year == b.year && a.day == b.day ==> TimeOfDay(a) < TimeOfDay(b)
    ensures TimeOfDay(a) == TimeOfDay(b) ==> a.hour == b.hour && a.minute == b.minute && a.second == b.second && a.micro == b.micro
  {
  }

  /**
   * Converting to microseconds preserves and reflects the chronological
   * order of the fields, so a list sorted by its timestamp text is sorted
   * by instant and back.
   */
  lemma ToMicrosOrder(a: TimeFields, b: TimeFields)
    requires ValidFields(a) && ValidFields(b)
    ensures Precedes(a, b) <==> ToMicros(a) < ToMicros(b)
    ensures ToMicros(a) == ToMicros(b) <==> a == b
  {
    DayNumberOrder(a, b);
    TimeOfDayOrder(a, b);
    TimeOfDayOrder(b, a);
  }

  /** Python's `text.replace("Z", "")`: every `Z` deleted, wherever it stands. */
  function RemoveZ(s: string): (r: string)
    ensures 'Z' !in r && |r| <= |s|
  {
    if s == [] then []
    else if s[0] == 'Z' then RemoveZ(s[1..])
    else [s[0]] + RemoveZ(s[1..])
  }

  lemma {:induction false} RemoveZKeeps(s: string)
    requires 'Z' !in s
    ensures RemoveZ(s) == s
  {
    if s != [] {
      RemoveZKeeps(s[1..]);
    }
  }

  lemma {:induction false} RemoveZAppend(s: string, t: string)
    ensures RemoveZ(s + t) == RemoveZ(s) + RemoveZ(t)
  {
    if s != [] {
      assert (s + t)[1..] == s[1..] + t;
      RemoveZAppend(s[1..], t);
    } else {
      assert s + t == t;
    }
  }

  /** A text ending in its only `Z` loses exactly that `Z`. */
  lemma TrailingZRemoved(t: string)
    requires 'Z' !in t
    ensures RemoveZ(t + "Z") == t
  {
    RemoveZAppend(t, "Z");
    RemoveZKeeps(t);
  }

  /** The literal characters and digit runs of `%Y-%jT%H:%M:%S.%f`, fixed widths, 1 to 6 fraction digits. */
  predicate WellShaped(t: string) {
    && 19 <= |t| <= 24
    && AllDigits(t[0..4]) && t[4] == '-'
    && AllDigits(t[5..8]) && (t[8] == 'T' || t[8] == 't')
    && AllDigits(t[9..11]) && t[11] == ':'
    && AllDigits(t[12..14]) && t[14] == ':'
    && AllDigits(t[15..17]) && t[17] == '.'
    && AllDigits(t[18..])
  }

  /** The fields of a well-shaped text; the fraction is right-padded to six digits. */
  function FieldsOf(t: string): TimeFields
    requires WellShaped(t)
  {
    TimeFields(ValueOf(t[0..4]), ValueOf(t[5..8]), ValueOf(t[9..11]),
               ValueOf(t[12..14]), ValueOf(t[15..17]), PaddedValue(t[18..], 6))
  }

  /**
   * `datetime.strptime(t, "%Y-%jT%H:%M:%S.%f")`, restricted to fixed-width
   * fields; `None` where Python raises `ValueError`.
   */
  function Parse(t: string): (r: Option<TimeFields>)
    ensures r.Some? <==> WellShaped(t) && ValidFields(FieldsOf(t))
    ensures r.Some? ==> ValidFields(r.value)
  {
    if WellShaped(t) && ValidFields(FieldsOf(t)) then Some(FieldsOf(t)) else None
  }

  /**
   * Any run of one to six fraction digits, right-padded with zeros,
   * denotes fewer than a million microseconds: `.001` is 1000.
   */
  lemma FractionInRange(t: string)
    requires WellShaped(t)
    ensures 0 <= FieldsOf(t).micro < MicrosPerSecond
  {
    var frac := t[18..];
    ValueOfBound(frac);
    Pow10Add(|frac|, 24 - |t|);
    assert Pow10(6) == MicrosPerSecond;
    assert ValueOf(frac) * Pow10(24 - |t|) < Pow10(|frac|) * Pow10(24 - |t|) by {
      assert ValueOf(frac) + 1 <= Pow10(|frac|);
      assert (ValueOf(frac) + 1) * Pow10(24 - |t|) <= Pow10(|frac|) * Pow10(24 - |t|);
    }
  }

  /** The first fraction digit of the text is the tenths digit of the parsed microseconds. */
  lemma FirstFractionDigit(t: string)
    requires WellShaped(t)
    ensures IsDigit(t[18]) && DigitValue(t[18]) == FieldsOf(t).micro / 100000
  {
    var frac := t[18..];
    assert frac[0] == t[18];
    PaddedLeadingDigit(frac);
  }

  /** The format check `epoch_f` applies before searching: the text parses once its `Z`s are gone. */
  predicate ValidFormat(s: string) {
    Parse(RemoveZ(s)).Some?
  }

  /** Days from the origin to 1 January of year 10000, where `datetime`'s range ends. */
  const DaysInRange := 3_652_059

  /** Every valid field tuple lies inside `datetime`'s range of years 1 to 9999. */
  lemma ToMicrosRange(f: TimeFields)
    requires ValidFields(f)
    ensures 0 <= ToMicros(f) < DaysInRange * MicrosPerDay
  {
    TimeOfDayOrder(f, f);
    DaysBeforeNextYear(f.year);
    DaysBeforeMonotone(f.year + 1, 10000);
  }

  /** The UTC instant of a timestamp text, in microseconds since the origin. */
  function Instant(s: string): (t: int)
    requires ValidFormat(s)
    ensures 0 <= t < DaysInRange * MicrosPerDay
  {
    ToMicrosRange(Parse(RemoveZ(s)).value);
    ToMicros(Parse(RemoveZ(s)).value)
  }

  /** The canonical text of an instant's fields, with six fraction digits and the `Z` marker. */
  function Format(f: TimeFields): (s: string)
    requires ValidFields(f)
    ensures |s| == 25
  {
    FixedWidth(f.year, 4) + "-" + FixedWidth(f.day, 3) + "T" + FixedWidth(f.hour, 2) + ":"
    + FixedWidth(f.minute, 2) + ":" + FixedWidth(f.second, 2) + "." + FixedWidth(f.micro, 6) + "Z"
  }

  /** Where each field lands in the canonical text. */
  lemma FormatSlices(f: TimeFields)
    requires ValidFields(f)
    ensures var s := Format(f);
      && s[0..4] == FixedWidth(f.year, 4) && s[4] == '-'
      && s[5..8] == FixedWidth(f.day, 3) && s[8] == 'T'
      && s[9..11] == FixedWidth(f.hour, 2) && s[11] == ':'
      && s[12..14] == FixedWidth(f.minute, 2) && s[14] == ':'
      && s[15..17] == FixedWidth(f.second, 2) && s[17] == '.'
      && s[18..24] == FixedWidth(f.micro, 6) && s[24] == 'Z'
  {
    var s := Format(f);
    var s1 := FixedWidth(f.year, 4) + "-" + FixedWidth(f.day, 3) + "T";
    var s2 := FixedWidth(f.hour, 2) + ":" + FixedWidth(f.minute, 2) + ":" + FixedWidth(f.second, 2) + ".";
    var s3 := FixedWidth(f.micro, 6) + "Z";
    assert s == s1 + s2 + s3;
    assert s[0..9] == s1 && s[9..18] == s2 && s[18..] == s3;
  }

  /** Formatting then parsing gives back the fields, and hence the same instant. */
  lemma ParseFormat(f: TimeFields)
    requires ValidFields(f)
    ensures ValidFormat(Format(f))
    ensures Parse(RemoveZ(Format(f))) == Some(f)
    ensures Instant(Format(f)) == ToMicros(f)
  {
    var s := Format(f);
    var t := s[..24];
    FormatSlices(f);
    assert s == t + "Z";
    assert t[0..4] == s[0..4] && t[5..8] == s[5..8] && t[9..11] == s[9..11];
    assert t[12..14] == s[12..14] && t[15..17] == s[15..17] && t[18..] == s[18..24];
    assert forall i :: 0 <= i < |t| ==> t[i] != 'Z' by {
      forall i | 0 <= i < |t| ensures t[i] != 'Z' {
        if i < 4 { assert t[i] == t[0..4][i]; }
        else if 5 <= i < 8 { assert t[i] == t[5..8][i - 5]; }
        else if 9 <= i < 11 { assert t[i] == t[9..11][i - 9]; }
        else if 12 <= i < 14 { assert t[i] == t[12..14][i - 12]; }
        else if 15 <= i < 17 { assert t[i] == t[15..17][i - 15]; }
        else if 18 <= i { assert t[i] == t[18..][i - 18]; }
      }
    }
    TrailingZRemoved(t);
    ValueOfFixedWidth(f.year, 4);
    ValueOfFixedWidth(f.day, 3);
    ValueOfFixedWidth(f.hour, 2);
    ValueOfFixedWidth(f.minute, 2);
    ValueOfFixedWidth(f.second, 2);
    ValueOfFixedWidth(f.micro, 6);
    assert WellShaped(t);
    assert FieldsOf(t) == f;
  }

  /** A timestamp already in canonical form (six fraction digits, capital `T`) is the formatting of its fields. */
  lemma FormatParse(t: string, f: TimeFields)
    requires Parse(t) == Some(f) && |t| == 24 && t[8] == 'T'
    ensures Format(f) == t + "Z"
  {
    FixedWidthValueOf(t[0..4]);
    FixedWidthValueOf(t[5..8]);
    FixedWidthValueOf(t[9..11]);
    FixedWidthValueOf(t[12..14]);
    FixedWidthValueOf(t[15..17]);
    FixedWidthValueOf(t[18..]);
    assert t == t[0..4] + "-" + t[5..8] + "T" + t[9..11] + ":" + t[12..14] + ":" + t[15..17] + "." + t[18..];
  }

  /** `YYYY-001T00:00:00.001`, for any four-digit year text, parses to that year's first millisecond. */
  lemma FixtureFields(t: string, year: int)
    requires |t| == 21 && t[4] == '-' && t[8] == 'T' && t[11] == ':' && t[14] == ':' && t[17] == '.'
    requires AllDigits(t[0..4]) && ValueOf(t[0..4]) == year && 1 <= year
    requires t[5..8] == "001" && t[9..11] == "00"
    requires t[12..14] == "00" && t[15..17] == "00" && t[18..] == "001"
    ensures Parse(t) == Some(TimeFields(year, 1, 0, 0, 0, 1000))
  {
    ValueOfBound(t[0..4]);
    assert Pow10(4) == 10000;
    assert ValueOf("001") == 1 by {
      assert "001"[..2] == "00" && "00"[..1] == "0" && "0"[..0] == [];
    }
    assert ValueOf("00") == 0 by {
      assert "00"[..1] == "0" && "0"[..0] == [];
    }
    assert Pow10(3) == 1000;
    assert WellShaped(t);
    assert FieldsOf(t) == TimeFields(year, 1, 0, 0, 0, 1000);
  }

  /** The text `<yearText>-001T00:00:00.001Z` passes the format check of `epoch_f`. */
  lemma FixtureParses(s: string, yearText: string, year: int)
    requires |yearText| == 4 && AllDigits(yearText) && ValueOf(yearText) == year && 1 <= year
    requires s == yearText + "-001T00:00:00.001Z"
    ensures Parse(RemoveZ(s)) == Some(TimeFields(year, 1, 0, 0, 0, 1000))
  {
    var rest := "-001T00:00:00.001";
    var t := yearText + rest;
    assert t[0..4] == yearText;
    assert t[4..] == rest;
    assert t[5..8] == rest[1..4] == "001";
    assert t[9..11] == rest[5..7] == "00";
    assert t[12..14] == rest[8..10] == "00";
    assert t[15..17] == rest[11..13] == "00";
    assert t[18..] == rest[14..] == "001";
    FixtureFields(t, year);
    assert forall i :: 0 <= i < |t| ==> t[i] != 'Z';
    TrailingZRemoved(t);
    assert t + "Z" == s;
  }

  /** The two year texts the tests use. */
  lemma FixtureYears()
    ensures AllDigits("2025") && ValueOf("2025") == 2025
    ensures AllDigits("2000") && ValueOf("2000") == 2000
  {
    assert "2025"[..3] == "202" && "202"[..2] == "20" && "20"[..1] == "2" && "2"[..0] == [];
    assert "2000"[..3] == "200" && "200"[..2] == "20";
  }

  /**
   * The test fixture `2025-001T00:00:00.001Z` is 1 January 2025 at
   * 00:00:00.001000 UTC: 739251 whole days after the origin (Python's
   * `date(2025, 1, 1).toordinal()` is 739252, counting the origin as day 1)
   * plus 1000 microseconds, the fraction `.001` padded to six digits.
   */
  lemma FixtureInstant(s: string)
    requires s == "2025-001T00:00:00.001Z"
    ensures ValidFormat(s)
    ensures Parse(RemoveZ(s)) == Some(TimeFields(2025, 1, 0, 0, 0, 1000))
    ensures Instant(s) == 739251 * MicrosPerDay + 1000
  {
    FixtureYears();
    assert s[..4] == "2025";
    assert s[4..] == "-001T00:00:00.001Z";
    assert s == s[..4] + s[4..];
    FixtureParses(s, "2025", 2025);
  }
}
