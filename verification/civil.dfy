/**
 * Unix time to UTC calendar text, as
 * `datetime.fromtimestamp(t, UTC).strftime('%Y-%m-%dT%H:%M:%SZ')` renders a
 * non-negative whole-second timestamp: proleptic Gregorian calendar, no leap
 * seconds, every day 86400 seconds long.
 */
module Civil {
  import opened Common
  import Decimal

  const EpochYear: int := 1970
  const SecondsPerDay: nat := 86400

  predicate IsLeap(y: int) {
    y % 4 == 0 && (y % 100 != 0 || y % 400 == 0)
  }

  function DaysInYear(y: int): nat {
    if IsLeap(y) then 366 else 365
  }

  function DaysInMonth(y: int, m: int): (n: nat)
    requires 1 <= m <= 12
    ensures 28 <= n <= 31
  {
    if m == 2 then (if IsLeap(y) then 29 else 28)
    else if m == 4 || m == 6 || m == 9 || m == 11 then 30
    else 31
  }

  /** Days of the year `y` that precede the first of month `m`. */
  function DaysBeforeMonth(y: int, m: int): (n: nat)
    requires 1 <= m <= 12
    ensures m == 1 ==> n == 0
    ensures n + DaysInMonth(y, m) <= DaysInYear(y)
    ensures m == 12 ==> n + DaysInMonth(y, m) == DaysInYear(y)
  {
    var common := [0, 31, 59, 90, 120, 151, 181, 212, 243, 273, 304, 334][m - 1];
    if IsLeap(y) && m > 2 then common + 1 else common
  }

  lemma DaysBeforeMonthStep(y: int, m: int)
    requires 1 <= m < 12
    ensures DaysBeforeMonth(y, m + 1) == DaysBeforeMonth(y, m) + DaysInMonth(y, m)
  {
  }

  /** Days from 1970-01-01 to the first of January of `y`. */
  function DaysBeforeYear(y: int): nat
    requires y >= EpochYear
    decreases y - EpochYear
  {
    if y == EpochYear then 0 else DaysBeforeYear(y - 1) + DaysInYear(y - 1)
  }

  datatype Date = Date(year: int, month: int, day: int)

  predicate ValidDate(d: Date) {
    d.year >= EpochYear && 1 <= d.month <= 12 && 1 <= d.day <= DaysInMonth(d.year, d.month)
  }

  /** Days since 1970-01-01 of a calendar date: the reference numbering. */
  function DaysFromCivil(d: Date): nat
    requires ValidDate(d)
  {
    DaysBeforeYear(d.year) + DaysBeforeMonth(d.year, d.month) + d.day - 1
  }

  /** Steps whole years from the first of January of `y`; returns the year reached and the day within it. */
  function YearWalk(n: nat, y: int): (r: (int, nat))
    requires y >= EpochYear
    ensures r.0 >= y && r.1 < DaysInYear(r.0)
    ensures DaysBeforeYear(r.0) + r.1 == DaysBeforeYear(y) + n
    decreases n
  {
    if n < DaysInYear(y) then (y, n) else YearWalk(n - DaysInYear(y), y + 1)
  }

  /** Steps whole months from the first of month `m` of year `y`. */
  function MonthWalk(y: int, doy: nat, m: int): (r: (int, nat))
    requires 1 <= m <= 12
    requires DaysBeforeMonth(y, m) + doy < DaysInYear(y)
    ensures m <= r.0 <= 12 && r.1 < DaysInMonth(y, r.0)
    ensures DaysBeforeMonth(y, r.0) + r.1 == DaysBeforeMonth(y, m) + doy
    decreases 12 - m
  {
    if doy < DaysInMonth(y, m) then (m, doy)
    else
      DaysBeforeMonthStep(y, m);
      MonthWalk(y, doy - DaysInMonth(y, m), m + 1)
  }

  /** The calendar date `n` days after 1970-01-01. */
  function CivilFromDays(n: nat): Date {
    var (y, doy) := YearWalk(n, EpochYear);
    var (m, dom) := MonthWalk(y, doy, 1);
    Date(y, m, dom + 1)
  }

  /** Every day number names a valid date, and numbering that date gives the day back. */
  lemma CivilFromDaysRoundTrip(n: nat)
    ensures ValidDate(CivilFromDays(n))
    ensures DaysFromCivil(CivilFromDays(n)) == n
  {
  }

  lemma {:induction false} YearWalkFinds(y0: int, y: int, r: nat)
    requires EpochYear <= y0 <= y && r < DaysInYear(y)
    ensures DaysBeforeYear(y) >= DaysBeforeYear(y0)
    ensures YearWalk(DaysBeforeYear(y) - DaysBeforeYear(y0) + r, y0) == (y, r)
    decreases y - y0
  {
    if y0 < y {
      YearWalkFinds(y0 + 1, y, r);
    }
  }

  lemma {:induction false} MonthWalkFinds(y: int, m0: int, m: int, r: nat)
    requires 1 <= m0 <= m <= 12 && r < DaysInMonth(y, m)
    ensures DaysBeforeMonth(y, m) >= DaysBeforeMonth(y, m0)
    ensures DaysBeforeMonth(y, m0) + (DaysBeforeMonth(y, m) - DaysBeforeMonth(y, m0) + r) < DaysInYear(y)
    ensures MonthWalk(y, DaysBeforeMonth(y, m) - DaysBeforeMonth(y, m0) + r, m0) == (m, r)
    decreases m - m0
  {
    if m0 < m {
      DaysBeforeMonthStep(y, m0);
      MonthWalkFinds(y, m0 + 1, m, r);
    }
  }

  /** Every valid date from 1970 on is the date of its own day number. */
  lemma DaysFromCivilRoundTrip(d: Date)
    requires ValidDate(d)
    ensures CivilFromDays(DaysFromCivil(d)) == d
  {
    var doy := DaysBeforeMonth(d.year, d.month) + d.day - 1;
    YearWalkFinds(EpochYear, d.year, doy);
    MonthWalkFinds(d.year, 1, d.month, d.day - 1);
  }

  lemma {:induction false} DaysBeforeYearGrowth(y: int)
    requires y >= EpochYear
    ensures DaysBeforeYear(y) >= 365 * (y - EpochYear)
    decreases y - EpochYear
  {
    if y > EpochYear {
      DaysBeforeYearGrowth(y - 1);
    }
  }

  /** A broken-down UTC time. */
  datatype DateTime = DateTime(date: Date, hour: int, minute: int, second: int)

  predicate ValidDateTime(t: DateTime) {
    ValidDate(t.date) && 0 <= t.hour < 24 && 0 <= t.minute < 60 && 0 <= t.second < 60
  }

  /** The UTC time `e` seconds after the epoch. */
  function FromTimestamp(e: nat): (t: DateTime)
    ensures ValidDateTime(t)
  {
    var secs := e % SecondsPerDay;
    CivilFromDaysRoundTrip(e / SecondsPerDay);
    DateTime(CivilFromDays(e / SecondsPerDay), secs / 3600, secs % 3600 / 60, secs % 60)
  }

  /** Seconds since the epoch of a UTC time: the inverse numbering. */
  function ToTimestamp(t: DateTime): nat
    requires ValidDateTime(t)
  {
    DaysFromCivil(t.date) * SecondsPerDay + t.hour * 3600 + t.minute * 60 + t.second
  }

  lemma FromTimestampRoundTrip(e: nat)
    ensures ToTimestamp(FromTimestamp(e)) == e
  {
    var secs := e % SecondsPerDay;
    CivilFromDaysRoundTrip(e / SecondsPerDay);
    assert secs == secs / 3600 * 3600 + secs % 3600 / 60 * 60 + secs % 60;
  }

  lemma ToTimestampRoundTrip(t: DateTime)
    requires ValidDateTime(t)
    ensures FromTimestamp(ToTimestamp(t)) == t
  {
    SplitSeconds(DaysFromCivil(t.date), t.hour, t.minute, t.second);
    DaysFromCivilRoundTrip(t.date);
  }

  /** A day count and a time of day are recovered from the seconds they make up. */
  lemma SplitSeconds(days: nat, h: nat, m: nat, s: nat)
    requires h < 24 && m < 60 && s < 60
    ensures var e := days * SecondsPerDay + h * 3600 + m * 60 + s;
      && e / SecondsPerDay == days
      && e % SecondsPerDay / 3600 == h
      && e % SecondsPerDay % 3600 / 60 == m
      && e % SecondsPerDay % 60 == s
  {
    var e := days * SecondsPerDay + h * 3600 + m * 60 + s;
    var secs := h * 3600 + m * 60 + s;
    DivModUnique(e, days, secs, SecondsPerDay);
    DivModUnique(secs, h, m * 60 + s, 3600);
    DivModUnique(m * 60 + s, m, s, 60);
    DivModUnique(secs, h * 60 + m, s, 60);
  }

  lemma DivModUnique(a: int, q: int, r: int, d: int)
    requires d > 0 && 0 <= r < d && a == q * d + r
    ensures a / d == q && a % d == r
  {
    var q', r' := a / d, a % d;
    assert a == q' * d + r';
    assert (q - q') * d == r' - r;
    if q > q' {
      MulAtLeast(q - q', d);
    } else if q < q' {
      MulAtLeast(q' - q, d);
    }
  }

  lemma MulAtLeast(k: int, d: int)
    requires k >= 1 && d > 0
    ensures k * d >= d
  {
    assert k * d == d + (k - 1) * d;
  }

  /** A timestamp below 2^32 falls no later than the year 2106. */
  lemma YearOfUnsigned32(e: nat)
    requires e < Two32
    ensures EpochYear <= FromTimestamp(e).date.year <= 2106
  {
    var t := FromTimestamp(e);
    DaysBeforeYearGrowth(t.date.year);
  }

  /** `%Y-%m-%dT%H:%M:%SZ` of a broken-down time whose year has at most four digits. */
  function Render(t: DateTime): (s: string)
    requires ValidDateTime(t) && t.date.year < 10000
    ensures |s| == 20
  {
    Decimal.Pad4(t.date.year) + "-" + Decimal.Pad2(t.date.month) + "-" + Decimal.Pad2(t.date.day) + "T" +
    Decimal.Pad2(t.hour) + ":" + Decimal.Pad2(t.minute) + ":" + Decimal.Pad2(t.second) + "Z"
  }

  /** The UTC text of the timestamp `e` (always four year digits below 2^32). */
  function UtcText(e: nat): (s: string)
    requires e < Two32
    ensures |s| == 20
  {
    YearOfUnsigned32(e);
    Render(FromTimestamp(e))
  }

  /** True of the positions of `s` where `YYYY-MM-DDTHH:MM:SSZ` has a digit. */
  predicate DigitsAt(s: string)
    requires |s| == 20
  {
    forall i :: 0 <= i < 20 && i !in {4, 7, 10, 13, 16, 19} ==> Decimal.IsDigit(s[i])
  }

  /** Reads a `YYYY-MM-DDTHH:MM:SSZ` text back to seconds since the epoch. */
  function ParseUtc(s: string): Option<nat> {
    if |s| == 20 && s[4] == '-' && s[7] == '-' && s[10] == 'T' && s[13] == ':' && s[16] == ':' && s[19] == 'Z'
       && DigitsAt(s)
    then
      var t := DateTime(Date(Decimal.Value4(s[0], s[1], s[2], s[3]), Decimal.Value2(s[5], s[6]), Decimal.Value2(s[8], s[9])),
                        Decimal.Value2(s[11], s[12]), Decimal.Value2(s[14], s[15]), Decimal.Value2(s[17], s[18]));
      if ValidDateTime(t) then Some(ToTimestamp(t)) else None
    else None
  }

  lemma ParseRender(t: DateTime)
    requires ValidDateTime(t) && t.date.year < 10000
    ensures ParseUtc(Render(t)) == Some(ToTimestamp(t))
  {
    var s := Render(t);
    var y, mo, d := Decimal.Pad4(t.date.year), Decimal.Pad2(t.date.month), Decimal.Pad2(t.date.day);
    var h, mi, sc := Decimal.Pad2(t.hour), Decimal.Pad2(t.minute), Decimal.Pad2(t.second);
    assert s == [y[0], y[1], y[2], y[3], '-', mo[0], mo[1], '-', d[0], d[1], 'T',
                 h[0], h[1], ':', mi[0], mi[1], ':', sc[0], sc[1], 'Z'];
    Decimal.Pad4RoundTrip(t.date.year);
    Decimal.Pad2RoundTrip(t.date.month);
    Decimal.Pad2RoundTrip(t.date.day);
    Decimal.Pad2RoundTrip(t.hour);
    Decimal.Pad2RoundTrip(t.minute);
    Decimal.Pad2RoundTrip(t.second);
  }

  /** The text names the timestamp it was made from. */
  lemma UtcTextRoundTrip(e: nat)
    requires e < Two32
    ensures ParseUtc(UtcText(e)) == Some(e)
  {
    YearOfUnsigned32(e);
    ParseRender(FromTimestamp(e));
    FromTimestampRoundTrip(e);
  }

  /** The Unix epoch itself. */
  lemma UtcTextOfZero()
    ensures UtcText(0) == "1970-01-01T00:00:00Z"
  {
    var t := FromTimestamp(0);
    assert t == DateTime(Date(1970, 1, 1), 0, 0, 0);
    assert Decimal.Pad4(1970) == "1970";
    assert Decimal.Pad2(1) == "01";
    assert Decimal.Pad2(0) == "00";
  }
}
