/**
 * Calendar days as the application writes them, "YYYY-MM-DD", and the
 * proleptic Gregorian arithmetic behind JavaScript's `Date`: days in a month,
 * a day count from 1970-01-01, and the weekday (`getDay`, 0 = Sunday).
 */
module Dates {
  import opened Wrappers
  import opened Text

  datatype Date = Date(year: int, month: int, day: int)

  predicate IsLeapYear(y: int) {
    y % 4 == 0 && (y % 100 != 0 || y % 400 == 0)
  }

  /** Days in month `m` (1 = January) of year `y`; `new Date(y, m, 0).getDate()` with a 0-based `m`. */
  function DaysInMonth(y: int, m: int): (n: int)
    requires 1 <= m <= 12
    ensures 28 <= n <= 31
    ensures m == 2 ==> (n == 29 <==> IsLeapYear(y))
  {
    if m == 2 then (if IsLeapYear(y) then 29 else 28)
    else if m == 4 || m == 6 || m == 9 || m == 11 then 30
    else 31
  }

  /** A real calendar day whose year fits the four-digit "YYYY" field. */
  predicate Valid(d: Date) {
    0 <= d.year <= 9999 && 1 <= d.month <= 12 && 1 <= d.day <= DaysInMonth(d.year, d.month)
  }

  // ------------------------------------------------------------ text form

  /** The "YYYY-MM-DD" identifier of a day. */
  function Format(d: Date): (s: string)
    requires Valid(d)
    ensures |s| == 10 && s[4] == '-' && s[7] == '-'
  {
    PadDigits(d.year, 4) + "-" + PadDigits(d.month, 2) + "-" + PadDigits(d.day, 2)
  }

  predicate WellShaped(s: string) {
    |s| == 10 && s[4] == '-' && s[7] == '-'
    && AllDigits(s[..4]) && AllDigits(s[5..7]) && AllDigits(s[8..])
  }

  /**
   * Reads a "YYYY-MM-DD" identifier. Anything else, and a month or day out
   * of range, is `None`: the invalid `Date` whose `getDay()` is `NaN`.
   */
  function Parse(s: string): Option<Date> {
    if WellShaped(s) then
      var d := Date(DigitsToNat(s[..4]), DigitsToNat(s[5..7]), DigitsToNat(s[8..]));
      if Valid(d) then Some(d) else None
    else None
  }

  lemma FormatPieces(d: Date)
    requires Valid(d)
    ensures var s := Format(d);
      s[..4] == PadDigits(d.year, 4) && s[5..7] == PadDigits(d.month, 2) && s[8..] == PadDigits(d.day, 2)
  {
  }

  /** Reading a formatted day gives the day back. */
  lemma ParseFormat(d: Date)
    requires Valid(d)
    ensures Parse(Format(d)) == Some(d)
  {
    var s := Format(d);
    FormatPieces(d);
    assert Pow10(4) == 10000 && Pow10(2) == 100;
    DigitsOfPadded(d.year, 4);
    DigitsOfPadded(d.month, 2);
    DigitsOfPadded(d.day, 2);
  }

  /** A string that reads as a day is exactly that day's identifier. */
  lemma FormatParse(s: string)
    requires Parse(s).Some?
    ensures Format(Parse(s).value) == s
  {
    var d := Parse(s).value;
    PaddedOfDigits(s[..4]);
    PaddedOfDigits(s[5..7]);
    PaddedOfDigits(s[8..]);
    assert s == s[..4] + "-" + s[5..7] + "-" + s[8..];
  }

  /** Identifiers compare with JavaScript's string `<` in calendar order. */
  lemma FormatOrder(a: Date, b: Date)
    requires Valid(a) && Valid(b)
    ensures LexLess(Format(a), Format(b)) <==> Before(a, b)
  {
    assert Pow10(4) == 10000 && Pow10(2) == 100;
    FormatLex(a, b);
    PaddedCompare(a.year, b.year, 4);
    PaddedCompare(a.month, b.month, 2);
    PaddedCompare(a.day, b.day, 2);
  }

  /** Identifiers compare field by field: year, then month, then day. */
  lemma FormatLex(a: Date, b: Date)
    requires Valid(a) && Valid(b)
    ensures LexLess(Format(a), Format(b)) <==>
      || LexLess(PadDigits(a.year, 4), PadDigits(b.year, 4))
      || (PadDigits(a.year, 4) == PadDigits(b.year, 4)
          && (|| LexLess(PadDigits(a.month, 2), PadDigits(b.month, 2))
              || (PadDigits(a.month, 2) == PadDigits(b.month, 2) && LexLess(PadDigits(a.day, 2), PadDigits(b.day, 2)))))
  {
    var ya, yb := PadDigits(a.year, 4), PadDigits(b.year, 4);
    var ma, mb := PadDigits(a.month, 2), PadDigits(b.month, 2);
    var da, db := PadDigits(a.day, 2), PadDigits(b.day, 2);
    assert Format(a) == ya + ("-" + (ma + ("-" + da)));
    assert Format(b) == yb + ("-" + (mb + ("-" + db)));
    LexLessIrreflexive("-");
    LexLessConcat(ya, "-" + (ma + ("-" + da)), yb, "-" + (mb + ("-" + db)));
    LexLessConcat("-", ma + ("-" + da), "-", mb + ("-" + db));
    LexLessConcat(ma, "-" + da, mb, "-" + db);
    LexLessConcat("-", da, "-", db);
  }

  /** Padded fields of one width are equal exactly when their numbers are, and compare like them. */
  lemma PaddedCompare(m: nat, n: nat, w: nat)
    requires m < Pow10(w) && n < Pow10(w)
    ensures LexLess(PadDigits(m, w), PadDigits(n, w)) <==> m < n
    ensures PadDigits(m, w) == PadDigits(n, w) <==> m == n
  {
    LexLessPadded(m, n, w);
    DigitsOfPadded(m, w);
    DigitsOfPadded(n, w);
  }

  /** Calendar order on days. */
  predicate Before(a: Date, b: Date) {
    a.year < b.year
    || (a.year == b.year && a.month < b.month)
    || (a.year == b.year && a.month == b.month && a.day < b.day)
  }

  // ------------------------------------------------------------ day count

  /** Days in years 0 .. y-1 of the proleptic Gregorian calendar. */
  function DaysBeforeYear(y: nat): int {
    365 * y + (y + 3) / 4 - (y + 99) / 100 + (y + 399) / 400
  }

  function YearLength(y: int): int {
    if IsLeapYear(y) then 366 else 365
  }

  /** Days of year `y` before the first of month `m`. */
  function DaysBeforeMonth(y: int, m: int): int
    requires 1 <= m <= 12
  {
    var leap := if IsLeapYear(y) then 1 else 0;
    if m == 1 then 0
    else if m == 2 then 31
    else if m == 3 then 59 + leap
    else if m == 4 then 90 + leap
    else if m == 5 then 120 + leap
    else if m == 6 then 151 + leap
    else if m == 7 then 181 + leap
    else if m == 8 then 212 + leap
    else if m == 9 then 243 + leap
    else if m == 10 then 273 + leap
    else if m == 11 then 304 + leap
    else 334 + leap
  }

  /** Days from 1970-01-01 (day 0) to `d`; negative before 1970. */
  function DayNumber(d: Date): int
    requires Valid(d)
  {
    DaysBeforeYear(d.year) + DaysBeforeMonth(d.year, d.month) + d.day - 1 - DaysBeforeYear(1970)
  }

  /** The weekday, 0 = Sunday .. 6 = Saturday; 1970-01-01 was a Thursday. */
  function Weekday(d: Date): (w: int)
    requires Valid(d)
    ensures 0 <= w < 7
  {
    (DayNumber(d) + 4) % 7
  }

  /** The following calendar day. */
  function NextDay(d: Date): Date
    requires Valid(d)
  {
    if d.day < DaysInMonth(d.year, d.month) then Date(d.year, d.month, d.day + 1)
    else if d.month < 12 then Date(d.year, d.month + 1, 1)
    else Date(d.year + 1, 1, 1)
  }

  lemma LeapStep(y: nat)
    ensures DaysBeforeYear(y + 1) == DaysBeforeYear(y) + YearLength(y)
  {
    CeilStep4(y);
    CeilStep100(y);
    CeilStep400(y);
    if y % 400 == 0 {
      assert y == 100 * (4 * (y / 400));
      assert y == 4 * (100 * (y / 400));
    } else if y % 100 == 0 {
      assert y == 4 * (25 * (y / 100));
    }
  }

  lemma CeilStep4(y: nat)
    ensures (y + 4) / 4 - (y + 3) / 4 == if y % 4 == 0 then 1 else 0
  {
  }

  lemma CeilStep100(y: nat)
    ensures (y + 100) / 100 - (y + 99) / 100 == if y % 100 == 0 then 1 else 0
  {
  }

  lemma CeilStep400(y: nat)
    ensures (y + 400) / 400 - (y + 399) / 400 == if y % 400 == 0 then 1 else 0
  {
  }

  lemma MonthStep(y: int, m: int)
    requires 1 <= m < 12
    ensures DaysBeforeMonth(y, m + 1) == DaysBeforeMonth(y, m) + DaysInMonth(y, m)
  {
  }

  /** Consecutive days have consecutive day numbers: the count has no gaps or repeats. */
  lemma DayNumberNext(d: Date)
    requires Valid(d) && d != Date(9999, 12, 31)
    ensures Valid(NextDay(d))
    ensures DayNumber(NextDay(d)) == DayNumber(d) + 1
  {
    if d.day == DaysInMonth(d.year, d.month) {
      if d.month < 12 {
        MonthStep(d.year, d.month);
      } else {
        LeapStep(d.year);
      }
    }
  }

  /** The weekday advances by one, Saturday wrapping to Sunday, from each day to the next. */
  lemma WeekdayNext(d: Date)
    requires Valid(d) && d != Date(9999, 12, 31)
    ensures Valid(NextDay(d))
    ensures Weekday(NextDay(d)) == (Weekday(d) + 1) % 7
  {
    DayNumberNext(d);
    ModSevenStep(DayNumber(d) + 4);
  }

  lemma ModSevenStep(n: int)
    ensures (n + 1) % 7 == (n % 7 + 1) % 7
  {
    var q, r := n / 7, n % 7;
    assert n == 7 * q + r;
    if r < 6 {
      assert n + 1 == 7 * q + (r + 1);
    } else {
      assert n + 1 == 7 * (q + 1);
    }
  }

  /** Anchors: 1970-01-01 was a Thursday, 2000-01-01 a Saturday, 2024-01-15 a Monday. */
  lemma KnownWeekdays()
    ensures Weekday(Date(1970, 1, 1)) == 4
    ensures Weekday(Date(2000, 1, 1)) == 6
    ensures Weekday(Date(2024, 1, 15)) == 1
  {
  }
}
