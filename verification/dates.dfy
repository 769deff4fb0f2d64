/** Calendar dates in the `YYYY-MM-DD` layout (Go's "2006-01-02", the complete
    calendar-date representation of ISO 8601) and the instants they denote. */
module Dates {
  import opened Optional
  import opened Text

  /** A date of the proleptic Gregorian calendar. */
  datatype Date = Date(year: int, month: int, day: int)

  /** A point in time as Go's `time.Time` orders it: nanoseconds since
      1970-01-01T00:00:00Z. */
  type Instant = int

  predicate IsLeapYear(y: int) {
    y % 4 == 0 && (y % 100 != 0 || y % 400 == 0)
  }

  function DaysInMonth(y: int, m: int): (n: int)
    requires 1 <= m <= 12
    ensures 28 <= n <= 31
  {
    if m == 2 then (if IsLeapYear(y) then 29 else 28)
    else if m == 4 || m == 6 || m == 9 || m == 11 then 30
    else 31
  }

  predicate IsValidDate(d: Date) {
    1 <= d.month <= 12 && 1 <= d.day <= DaysInMonth(d.year, d.month)
  }

  /** The year fits the four digits of the layout. */
  predicate HasFourDigitYear(d: Date) {
    0 <= d.year <= 9999
  }

  /** Writes a date as `YYYY-MM-DD` with zero padding. */
  function FormatIsoDate(d: Date): (s: string)
    requires IsValidDate(d) && HasFourDigitYear(d)
    ensures |s| == 10 && s[4] == '-' && s[7] == '-'
  {
    [ DigitChar(d.year / 1000), DigitChar(d.year / 100 % 10), DigitChar(d.year / 10 % 10), DigitChar(d.year % 10),
      '-', DigitChar(d.month / 10), DigitChar(d.month % 10),
      '-', DigitChar(d.day / 10), DigitChar(d.day % 10) ]
  }

  /** The positions of a `YYYY-MM-DD` string that must hold digits. */
  predicate HasLayoutDigits(s: string)
    requires |s| == 10
  {
    && IsDigit(s[0]) && IsDigit(s[1]) && IsDigit(s[2]) && IsDigit(s[3])
    && IsDigit(s[5]) && IsDigit(s[6]) && IsDigit(s[8]) && IsDigit(s[9])
  }

  /** The numbers written in the year, month and day fields. */
  function YearField(s: string): nat
    requires |s| == 10 && HasLayoutDigits(s)
  {
    1000 * DigitValue(s[0]) + 100 * DigitValue(s[1]) + 10 * DigitValue(s[2]) + DigitValue(s[3])
  }

  function MonthField(s: string): nat
    requires |s| == 10 && HasLayoutDigits(s)
  {
    10 * DigitValue(s[5]) + DigitValue(s[6])
  }

  function DayField(s: string): nat
    requires |s| == 10 && HasLayoutDigits(s)
  {
    10 * DigitValue(s[8]) + DigitValue(s[9])
  }

  /** `time.Parse("2006-01-02", s)`: exactly four year digits, a dash, two
      month digits, a dash and two day digits with nothing after them; the
      month must lie in 1..12 and the day must exist in that month of that
      year. Any other input is a parse error. */
  function ParseIsoDate(s: string): (r: Option<Date>)
    ensures r.Some? ==> IsValidDate(r.value) && HasFourDigitYear(r.value)
    ensures r.Some? <==> |s| == 10 && s[4] == '-' && s[7] == '-' && HasLayoutDigits(s)
                         && 1 <= MonthField(s) <= 12 && 1 <= DayField(s) <= DaysInMonth(YearField(s), MonthField(s))
  {
    if |s| != 10 || s[4] != '-' || s[7] != '-' || !HasLayoutDigits(s) then None
    else
      var y, m, d := YearField(s), MonthField(s), DayField(s);
      if m < 1 || 12 < m then None
      else if d < 1 || DaysInMonth(y, m) < d then None
      else Some(Date(y, m, d))
  }

  lemma SplitFourDigits(y: int)
    requires 0 <= y <= 9999
    ensures 1000 * (y / 1000) + 100 * (y / 100 % 10) + 10 * (y / 10 % 10) + y % 10 == y
  {
  }

  lemma JoinFourDigits(a: nat, b: nat, c: nat, e: nat)
    requires a < 10 && b < 10 && c < 10 && e < 10
    ensures var y := 1000 * a + 100 * b + 10 * c + e;
      y / 1000 == a && y / 100 % 10 == b && y / 10 % 10 == c && y % 10 == e
  {
    var y := 1000 * a + 100 * b + 10 * c + e;
    assert y / 10 == 100 * a + 10 * b + c;
    assert y / 100 == 10 * a + b;
    assert (10 * a + b) % 10 == b;
    assert (100 * a + 10 * b + c) % 10 == c;
  }

  /** Every date the layout can express is read back from its own text. */
  lemma ParseFormatRoundTrip(d: Date)
    requires IsValidDate(d) && HasFourDigitYear(d)
    ensures ParseIsoDate(FormatIsoDate(d)) == Some(d)
  {
    var s := FormatIsoDate(d);
    assert HasLayoutDigits(s);
    SplitFourDigits(d.year);
    assert YearField(s) == d.year;
    assert MonthField(s) == d.month;
    assert DayField(s) == d.day;
  }

  /** The parser accepts only the canonical text of the date it returns, so
      two different accepted strings never denote the same date. */
  lemma FormatParseRoundTrip(s: string)
    requires ParseIsoDate(s).Some?
    ensures FormatIsoDate(ParseIsoDate(s).value) == s
  {
    var d := ParseIsoDate(s).value;
    var t := FormatIsoDate(d);
    JoinFourDigits(DigitValue(s[0]), DigitValue(s[1]), DigitValue(s[2]), DigitValue(s[3]));
    assert d.year == YearField(s);
    assert t[0] == s[0] && t[1] == s[1] && t[2] == s[2] && t[3] == s[3];
    assert t[5] == s[5] && t[6] == s[6] && t[8] == s[8] && t[9] == s[9];
    assert forall i | 0 <= i < 10 :: t[i] == s[i];
  }

  // ---------------------------------------------------------------------------
  // Day numbers and instants
  // ---------------------------------------------------------------------------

  function YearLength(y: int): int {
    if IsLeapYear(y) then 366 else 365
  }

  /** Days from 0000-01-01 to the first of January of year `y`. */
  function DaysBeforeYear(y: int): int {
    365 * y + (y + 3) / 4 - (y + 99) / 100 + (y + 399) / 400
  }

  /** Days from the first of January of `y` to the first day of month `m`. */
  function DaysBeforeMonth(y: int, m: int): (n: int)
    requires 1 <= m <= 12
    ensures 0 <= n && n + DaysInMonth(y, m) <= YearLength(y)
  {
    var leap := if m > 2 && IsLeapYear(y) then 1 else 0;
    leap +
      (if m == 1 then 0 else if m == 2 then 31 else if m == 3 then 59
       else if m == 4 then 90 else if m == 5 then 120 else if m == 6 then 151
       else if m == 7 then 181 else if m == 8 then 212 else if m == 9 then 243
       else if m == 10 then 273 else if m == 11 then 304 else 334)
  }

  function DayNumber(d: Date): int
    requires IsValidDate(d)
  {
    DaysBeforeYear(d.year) + DaysBeforeMonth(d.year, d.month) + d.day - 1
  }

  const UnixEpochDayNumber := 719528
  const NanosPerDay := 86_400_000_000_000

  /** The instant `time.Parse("2006-01-02", …)` yields: midnight UTC of the date. */
  function MidnightUtc(d: Date): Instant
    requires IsValidDate(d)
  {
    (DayNumber(d) - UnixEpochDayNumber) * NanosPerDay
  }

  /** The calendar order of dates. */
  predicate DateBefore(a: Date, b: Date) {
    a.year < b.year || (a.year == b.year && (a.month < b.month || (a.month == b.month && a.day < b.day)))
  }

  lemma YearStep(y: int)
    ensures DaysBeforeYear(y + 1) == DaysBeforeYear(y) + YearLength(y)
  {
    LeapCountStep4(y);
    LeapCountStep100(y);
    LeapCountStep400(y);
    MultiplesNest(y);
  }

  /** A multiple of 400 is one of 100, and a multiple of 100 one of 4. */
  lemma MultiplesNest(y: int)
    ensures y % 400 == 0 ==> y % 100 == 0
    ensures y % 100 == 0 ==> y % 4 == 0
  {
    if y % 400 == 0 {
      var k := y / 400;
      assert y == 100 * (4 * k);
    }
    if y % 100 == 0 {
      var k := y / 100;
      assert y == 4 * (25 * k);
    }
  }

  // The three rounded-up quotients of DaysBeforeYear each grow by one exactly
  // when the year is a multiple of the divisor.
  lemma LeapCountStep4(y: int)
    ensures (y + 4) / 4 == (y + 3) / 4 + (if y % 4 == 0 then 1 else 0)
  {
  }

  lemma LeapCountStep100(y: int)
    ensures (y + 100) / 100 == (y + 99) / 100 + (if y % 100 == 0 then 1 else 0)
  {
  }

  lemma LeapCountStep400(y: int)
    ensures (y + 400) / 400 == (y + 399) / 400 + (if y % 400 == 0 then 1 else 0)
  {
  }

  lemma {:induction false} DaysBeforeYearGrows(x: int, y: int)
    requires x <= y
    ensures DaysBeforeYear(x) + 365 * (y - x) <= DaysBeforeYear(y)
    decreases y - x
  {
    if x < y {
      YearStep(x);
      DaysBeforeYearGrows(x + 1, y);
    }
  }

  lemma MonthsGrow(y: int, m1: int, m2: int)
    requires 1 <= m1 < m2 <= 12
    ensures DaysBeforeMonth(y, m1) + DaysInMonth(y, m1) <= DaysBeforeMonth(y, m2)
  {
  }

  lemma DayNumberGrows(a: Date, b: Date)
    requires IsValidDate(a) && IsValidDate(b) && DateBefore(a, b)
    ensures DayNumber(a) < DayNumber(b)
  {
    if a.year < b.year {
      YearStep(a.year);
      DaysBeforeYearGrows(a.year + 1, b.year);
    } else if a.month < b.month {
      MonthsGrow(a.year, a.month, b.month);
    }
  }

  /** Calendar order and the order of the midnights agree, in both directions. */
  lemma MidnightUtcOrder(a: Date, b: Date)
    requires IsValidDate(a) && IsValidDate(b)
    ensures DateBefore(a, b) <==> MidnightUtc(a) < MidnightUtc(b)
  {
    if DateBefore(a, b) {
      DayNumberGrows(a, b);
    } else if a != b {
      DayNumberGrows(b, a);
    }
  }

  /** The day numbering is anchored at the Unix epoch and counts leap days:
      2000-03-01 is 951868800 seconds after it. */
  lemma EpochAnchors()
    ensures MidnightUtc(Date(1970, 1, 1)) == 0
    ensures MidnightUtc(Date(2000, 3, 1)) == 951_868_800 * 1_000_000_000
  {
  }
}
