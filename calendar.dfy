/** The proleptic Gregorian calendar as JavaScript's `Date` uses it in UTC:
    day numbers counted from 1970-01-01, instants in milliseconds, the
    `Date.UTC` year mapping, and the ISO 8601 text of `toISOString` together
    with the parse that `new Date(text)` applies to it. */
module Calendar {
  import opened Wrappers
  import opened Decimal


  datatype Civil = Civil(year: int, month: int, day: int)

  /** A time value: milliseconds since the epoch, or NaN (an "Invalid Date"). */
  datatype Time = At(ms: int) | InvalidTime

  predicate IsLeap(y: int) {
    y % 4 == 0 && (y % 100 != 0 || y % 400 == 0)
  }

  function YearLength(y: int): int {
    if IsLeap(y) then 366 else 365
  }

  function DaysInMonth(y: int, m: int): (n: int)
    requires 1 <= m <= 12
    ensures 28 <= n <= 31
  {
    if m == 2 then (if IsLeap(y) then 29 else 28)
    else if m == 4 || m == 6 || m == 9 || m == 11 then 30
    else 31
  }

  predicate ValidCivil(c: Civil) {
    1 <= c.month <= 12 && 1 <= c.day <= DaysInMonth(c.year, c.month)
  }

  /** Days from the first of January of `y` to the first of month `m` (13 is the next year). */
  function DaysBeforeMonth(y: int, m: int): int
    requires 1 <= m <= 13
  {
    [0, 31, 59, 90, 120, 151, 181, 212, 243, 273, 304, 334, 365][m - 1]
      + (if m > 2 && IsLeap(y) then 1 else 0)
  }

  lemma DaysBeforeMonthStep(y: int, m: int)
    requires 1 <= m <= 12
    ensures DaysBeforeMonth(y, m + 1) == DaysBeforeMonth(y, m) + DaysInMonth(y, m)
    ensures DaysBeforeMonth(y, 13) == YearLength(y)
  {
  }

  /** Days from 1970-01-01 to the first of January of `y`. */
  function DaysBeforeYear(y: int): int
    decreases if y < 1970 then 1970 - y else y - 1970
  {
    if y == 1970 then 0
    else if y > 1970 then DaysBeforeYear(y - 1) + YearLength(y - 1)
    else DaysBeforeYear(y + 1) - YearLength(y)
  }

  lemma DaysBeforeYearStep(y: int)
    ensures DaysBeforeYear(y + 1) == DaysBeforeYear(y) + YearLength(y)
  {
  }

  lemma {:induction false} DaysBeforeYearMonotone(a: int, b: int)
    requires a <= b
    ensures DaysBeforeYear(a) + 365 * (b - a) <= DaysBeforeYear(b)
    decreases b - a
  {
    if a < b {
      DaysBeforeYearMonotone(a, b - 1);
      DaysBeforeYearStep(b - 1);
    }
  }

  lemma {:induction false} DaysBeforeYearAtMost(a: int, b: int)
    requires a <= b
    ensures DaysBeforeYear(b) <= DaysBeforeYear(a) + 366 * (b - a)
    decreases b - a
  {
    if a < b {
      DaysBeforeYearAtMost(a, b - 1);
      DaysBeforeYearStep(b - 1);
    }
  }

  /** The day number of `d` `m` `y`; a day outside the month rolls over into
      the neighbouring months, as `Date.UTC` does. */
  function DayNumber(y: int, m: int, d: int): int
    requires 1 <= m <= 12
  {
    DaysBeforeYear(y) + DaysBeforeMonth(y, m) + d - 1
  }

  /** The year that day number `n` falls in, found by walking from year `y`. */
  function FindYear(y: int, n: int): (r: int)
    ensures DaysBeforeYear(r) <= n < DaysBeforeYear(r + 1)
    decreases if n < DaysBeforeYear(y) then DaysBeforeYear(y) - n + 366 else n - DaysBeforeYear(y)
  {
    DaysBeforeYearStep(y);
    DaysBeforeYearStep(y - 1);
    if n < DaysBeforeYear(y) then FindYear(y - 1, n)
    else if n >= DaysBeforeYear(y + 1) then FindYear(y + 1, n)
    else y
  }

  /** The month that day `off` (counted from 0) of year `y` falls in, searching down from `m`. */
  function FindMonth(y: int, off: int, m: int): (r: int)
    requires 1 <= m <= 12 && 0 <= off < DaysBeforeMonth(y, m + 1)
    ensures 1 <= r <= m
    ensures DaysBeforeMonth(y, r) <= off < DaysBeforeMonth(y, r + 1)
    decreases m
  {
    if DaysBeforeMonth(y, m) <= off || m == 1 then m else FindMonth(y, off, m - 1)
  }

  /** The calendar date of a day number. */
  function CivilFromDays(n: int): (c: Civil)
    ensures ValidCivil(c)
    ensures DayNumber(c.year, c.month, c.day) == n
  {
    var y := FindYear(1970, n);
    DaysBeforeYearStep(y);
    DaysBeforeMonthStep(y, 12);
    var off := n - DaysBeforeYear(y);
    var m := FindMonth(y, off, 12);
    DaysBeforeMonthStep(y, m);
    Civil(y, m, off - DaysBeforeMonth(y, m) + 1)
  }

  /** A valid date's day number lies inside its own year. */
  lemma DayNumberInYear(c: Civil)
    requires ValidCivil(c)
    ensures DaysBeforeYear(c.year) <= DayNumber(c.year, c.month, c.day) < DaysBeforeYear(c.year + 1)
  {
    DaysBeforeYearStep(c.year);
    DaysBeforeMonthStep(c.year, c.month);
    DaysBeforeMonthStep(c.year, 12);
    assert DaysBeforeMonth(c.year, c.month + 1) <= DaysBeforeMonth(c.year, 13) by {
      MonthsMonotone(c.year, c.month + 1, 13);
    }
  }

  lemma {:induction false} MonthsMonotone(y: int, a: int, b: int)
    requires 1 <= a <= b <= 13
    ensures DaysBeforeMonth(y, a) <= DaysBeforeMonth(y, b)
    decreases b - a
  {
    if a < b {
      DaysBeforeMonthStep(y, a);
      MonthsMonotone(y, a + 1, b);
    }
  }

  /** Distinct valid dates have distinct day numbers. */
  lemma DayNumberInjective(c1: Civil, c2: Civil)
    requires ValidCivil(c1) && ValidCivil(c2)
    requires DayNumber(c1.year, c1.month, c1.day) == DayNumber(c2.year, c2.month, c2.day)
    ensures c1 == c2
  {
    DayNumberInYear(c1);
    DayNumberInYear(c2);
    if c1.year < c2.year {
      DaysBeforeYearMonotone(c1.year + 1, c2.year);
    } else if c2.year < c1.year {
      DaysBeforeYearMonotone(c2.year + 1, c1.year);
    }
    var y := c1.year;
    DaysBeforeMonthStep(y, c1.month);
    DaysBeforeMonthStep(y, c2.month);
    if c1.month < c2.month {
      MonthsMonotone(y, c1.month + 1, c2.month);
    } else if c2.month < c1.month {
      MonthsMonotone(y, c2.month + 1, c1.month);
    }
  }

  /** Converting a valid date to its day number and back gives the same date. */
  lemma CivilRoundTrip(c: Civil)
    requires ValidCivil(c)
    ensures CivilFromDays(DayNumber(c.year, c.month, c.day)) == c
  {
    DayNumberInjective(CivilFromDays(DayNumber(c.year, c.month, c.day)), c);
  }

  /** `Date.UTC` reads a year from 0 to 99 as 1900 to 1999. */
  function UtcYear(y: int): (r: int)
    ensures 0 <= y <= 99 ==> r == 1900 + y
    ensures (y < 0 || y > 99) ==> r == y
  {
    if 0 <= y <= 99 then 1900 + y else y
  }

  /** `Date.UTC(y, m - 1, d)` for a one-based month `m`: midnight UTC, in
      milliseconds, of the date after the year mapping and after a month or a
      day outside its range has rolled over into the neighbouring ones. */
  function UtcMidnight(y: int, m: int, d: int): (t: int)
    ensures t % 86400000 == 0
  {
    var yr := UtcYear(y) + (m - 1) / 12;
    DayNumber(yr, (m - 1) % 12 + 1, d) * 86400000
  }

  predicate ValidTime(t: int) {
    -8640000000000000 <= t <= 8640000000000000
  }

  /** A date object holding a time value rather than an "Invalid Date". */
  predicate IsValidDate(t: Time) {
    t.At? && ValidTime(t.ms)
  }

  /** The UTC calendar date of a time value (`getUTCFullYear`, `getUTCMonth() + 1`, `getUTCDate`);
      a day is 86400000 milliseconds. */
  function UtcDate(t: int): Civil {
    CivilFromDays(t / 86400000)
  }

  /** Every time within day `n` reads as the date of day `n`. */
  lemma UtcDateOfDay(t: int, n: int, r: int, c: Civil)
    requires t == n * 86400000 + r && 0 <= r < 86400000
    requires CivilFromDays(n) == c
    ensures UtcDate(t) == c
  {
    assert t / 86400000 == n;
  }

  /** Every time within the day of a real date, day number `n`, reads as that date. */
  lemma UtcDateOfCivil(t: int, n: int, c: Civil, offset: int)
    requires ValidCivil(c) && n == DayNumber(c.year, c.month, c.day) && t == n * 86400000
    requires 0 <= offset < 86400000
    ensures UtcDate(t + offset) == c
  {
    CivilRoundTrip(c);
    UtcDateOfDay(t + offset, n, offset, c);
  }

  /** Midnight of a real date is its day number of days after the epoch. */
  lemma MidnightIsDayNumber(y: int, m: int, d: int)
    requires 1 <= m <= 12
    ensures UtcMidnight(y, m, d) == DayNumber(UtcYear(y), m, d) * 86400000
  {
    assert (m - 1) / 12 == 0 && (m - 1) % 12 + 1 == m;
  }

  /** The day before the first of a month is the last day of the month before. */
  lemma DayBeforeFirst(y: int, m: int)
    requires 1 <= m <= 12
    ensures m == 1 ==> DayNumber(y, m, 1) - 1 == DayNumber(y - 1, 12, 31)
    ensures m > 1 ==> DayNumber(y, m, 1) - 1 == DayNumber(y, m - 1, DaysInMonth(y, m - 1))
  {
    if m == 1 {
      DaysBeforeYearStep(y - 1);
      DaysBeforeMonthStep(y - 1, 12);
    } else {
      DaysBeforeMonthStep(y, m - 1);
    }
  }

  /** The last day of the month before month `m` of year `y`. */
  function LastOfMonthBefore(y: int, m: int): Civil
    requires 1 <= m <= 12
  {
    if m == 1 then Civil(y - 1, 12, 31) else Civil(y, m - 1, DaysInMonth(y, m - 1))
  }

  /** The day before the first of a month is the last day of the month before. */
  lemma CivilBeforeFirst(y: int, m: int)
    requires 1 <= m <= 12
    ensures CivilFromDays(DayNumber(y, m, 1) - 1) == LastOfMonthBefore(y, m)
  {
    DayBeforeFirst(y, m);
    CivilRoundTrip(LastOfMonthBefore(y, m));
  }

  /** Less than a day after midnight of the first of a month, the date is still that first. */
  lemma FirstAhead(t: int, yr: int, m: int, offset: int)
    requires 1 <= m <= 12 && t == DayNumber(yr, m, 1) * 86400000
    requires 0 <= offset < 86400000
    ensures UtcDate(t + offset) == Civil(yr, m, 1)
  {
    UtcDateOfCivil(t, DayNumber(yr, m, 1), Civil(yr, m, 1), offset);
  }

  /** Less than a day before the midnight starting day `n`, the date is that of day `n - 1`. */
  lemma DayBehind(t: int, n: int, offset: int)
    requires t == n * 86400000 && -86400000 <= offset < 0
    ensures UtcDate(t + offset) == CivilFromDays(n - 1)
  {
    UtcDateOfDay(t + offset, n - 1, offset + 86400000, CivilFromDays(n - 1));
  }

  /** Less than a day before midnight of the first of a month, the date is
      the last day of the month before. */
  lemma FirstBehind(t: int, yr: int, m: int, offset: int)
    requires 1 <= m <= 12 && t == DayNumber(yr, m, 1) * 86400000
    requires -86400000 <= offset < 0
    ensures UtcDate(t + offset) == LastOfMonthBefore(yr, m)
  {
    DayBehind(t, DayNumber(yr, m, 1), offset);
    CivilBeforeFirst(yr, m);
  }

  /** Midnight UTC of a real date reads back as that date. */
  lemma UtcDateOfMidnight(y: int, m: int, d: int)
    requires 1 <= m <= 12 && 1 <= d <= DaysInMonth(UtcYear(y), m)
    ensures UtcDate(UtcMidnight(y, m, d)) == Civil(UtcYear(y), m, d)
  {
    MidnightIsDayNumber(y, m, d);
    UtcDateOfCivil(UtcMidnight(y, m, d), DayNumber(UtcYear(y), m, d), Civil(UtcYear(y), m, d), 0);
  }

  /** Midnight of a date with a one-based month, a day of at most 31 and a
      mapped year within 200000 of the epoch is a valid time value. */
  lemma MidnightValid(y: int, m: int, d: int)
    requires -200000 <= UtcYear(y) <= 200000 && 1 <= m <= 12 && 1 <= d <= 31
    ensures ValidTime(UtcMidnight(y, m, d))
  {
    var yr := UtcYear(y);
    assert (m - 1) / 12 == 0 && (m - 1) % 12 + 1 == m;
    if yr >= 1970 {
      DaysBeforeYearAtMost(1970, yr);
      DaysBeforeYearMonotone(1970, yr);
    } else {
      DaysBeforeYearAtMost(yr, 1970);
      DaysBeforeYearMonotone(yr, 1970);
    }
    var n := DayNumber(yr, m, d);
    assert -100000000 <= n <= 100000000;
    assert 8640000000000000 == 100000000 * 86400000;
  }

  /** The years a valid time value can fall in (a loose bound: the exact
      range is -271821 to 275760). */
  lemma ValidTimeYears(t: int)
    requires ValidTime(t)
    ensures -300000 <= UtcDate(t).year <= 300000
  {
    var c := UtcDate(t);
    assert -100000000 <= t / 86400000 <= 100000000;
    DayNumberInYear(c);
    if c.year < -300000 {
      DaysBeforeYearMonotone(c.year + 1, 1970);
    } else if c.year > 300000 {
      DaysBeforeYearMonotone(1970, c.year);
    }
  }

  // ---------------------------------------------------------------------
  // ISO 8601 text: `toISOString` and the parse of `new Date(text)`

  /** The year as `toISOString` writes it: four digits for years 0 to 9999,
      otherwise a sign and six digits. */
  function YearText(y: int): (s: string)
    requires -999999 <= y <= 999999
    ensures |s| == 4 || |s| == 7
  {
    if 0 <= y <= 9999 then Pad(y, 4)
    else (if y < 0 then "-" else "+") + Pad(if y < 0 then -y else y, 6)
  }

  /** `YYYY-MM-DD`, the `full-date` of section 5.6 of RFC 3339. */
  function FullDateText(c: Civil): (s: string)
    requires ValidCivil(c) && -999999 <= c.year <= 999999
    ensures |s| == |YearText(c.year)| + 6
  {
    YearText(c.year) + "-" + Pad(c.month, 2) + "-" + Pad(c.day, 2)
  }

  /** `HH:mm:ss.sss` of a millisecond offset within a day. */
  function ClockText(ms: int): (s: string)
    requires 0 <= ms < 86400000
    ensures |s| == 12
  {
    var (h, mi, sec, milli) := ClockFields(ms);
    Pad(h, 2) + ":" + Pad(mi, 2) + ":" + Pad(sec, 2) + "." + Pad(milli, 3)
  }

  /** Hours, minutes, seconds and milliseconds of an offset within a day. */
  function ClockFields(ms: int): (r: (nat, nat, nat, nat))
    requires 0 <= ms < 86400000
    ensures r.0 < 24 && r.1 < 60 && r.2 < 60 && r.3 < 1000
    ensures r.0 * 3600000 + r.1 * 60000 + r.2 * 1000 + r.3 == ms
  {
    var secs := ms / 1000;
    var mins := secs / 60;
    (mins / 60, mins % 60, secs % 60, ms % 1000)
  }

  /** `toISOString()` of a valid time value. */
  function IsoText(t: int): (s: string)
    requires ValidTime(t)
  {
    ValidTimeYears(t);
    FullDateText(UtcDate(t)) + "T" + ClockText(t % 86400000) + "Z"
  }

  /** `text.split('T')[0]`: everything before the first 'T'. */
  function BeforeT(s: string): (r: string)
    ensures |r| <= |s| && r == s[..|r|]
    ensures 'T' !in r
    ensures |r| < |s| ==> s[|r|] == 'T'
  {
    if s == [] || s[0] == 'T' then [] else [s[0]] + BeforeT(s[1..])
  }

  lemma {:induction false} BeforeTOfPrefix(a: string, b: string)
    requires 'T' !in a && |b| > 0 && b[0] == 'T'
    ensures BeforeT(a + b) == a
  {
    if a != [] {
      assert (a + b)[1..] == a[1..] + b;
      BeforeTOfPrefix(a[1..], b);
    } else {
      assert a + b == b;
    }
  }

  /** The date part of the ISO text of an instant is the full-date of its UTC day. */
  lemma FullDateTextHasNoT(c: Civil)
    requires ValidCivil(c) && -999999 <= c.year <= 999999
    ensures 'T' !in FullDateText(c)
  {
    var y := YearText(c.year);
    assert 'T' !in y;
    assert 'T' !in Pad(c.month, 2) && 'T' !in Pad(c.day, 2);
  }

  lemma IsoTextDatePart(t: int)
    requires ValidTime(t)
    ensures ValidCivil(UtcDate(t)) && -999999 <= UtcDate(t).year <= 999999
    ensures BeforeT(IsoText(t)) == FullDateText(UtcDate(t))
  {
    ValidTimeYears(t);
    var d := FullDateText(UtcDate(t));
    FullDateTextHasNoT(UtcDate(t));
    BeforeTOfPrefix(d, "T" + ClockText(t % 86400000) + "Z");
    assert IsoText(t) == d + ("T" + ClockText(t % 86400000) + "Z");
  }

  // Parsing

  function Slice(s: string, i: int, j: int): string {
    if 0 <= i <= j <= |s| then s[i..j] else []
  }

  /** A fixed-width run of digits at `s[i..i+w]`, as a number. */
  function NumberAt(s: string, i: int, w: nat): Option<nat> {
    var p := Slice(s, i, i + w);
    if |p| == w && AllDigits(p) then Some(DigitsValue(p)) else None
  }

  /** The year field at the start of `s` and its width: four digits, or a sign and six digits. */
  function ParseYear(s: string): Option<(int, nat)> {
    if |s| >= 1 && (s[0] == '+' || s[0] == '-') then
      match NumberAt(s, 1, 6)
      case Some(v) =>
        var y: int := if s[0] == '-' then -(v as int) else v as int;
        if s[0] == '-' && v == 0 then None  // "-000000" is not a year
        else Some((y, 7))
      case None => None
    else
      match NumberAt(s, 0, 4)
      case Some(v) => Some((v, 4))
      case None => None
  }

  /** `YYYY-MM-DD` starting at position 0 and occupying exactly `w + 6` characters. */
  function ParseFullDate(s: string): Option<(Civil, nat)> {
    match ParseYear(s)
    case None => None
    case Some((y, w)) =>
      match (NumberAt(s, w + 1, 2), NumberAt(s, w + 4, 2))
      case (Some(m), Some(d)) =>
        if |s| >= w + 6 && s[w] == '-' && s[w + 3] == '-'
           && ValidCivil(Civil(y, m, d))
        then Some((Civil(y, m, d), w + 6))
        else None
      case _ => None
  }

  /** `HH:mm:ss.sss` at position `i`, as milliseconds in the day. */
  function ParseClock(s: string, i: int): Option<int> {
    match (NumberAt(s, i, 2), NumberAt(s, i + 3, 2), NumberAt(s, i + 6, 2), NumberAt(s, i + 9, 3))
    case (Some(h), Some(mi), Some(sec), Some(ms)) =>
      if |s| >= i + 12 && 0 <= i && s[i + 2] == ':' && s[i + 5] == ':' && s[i + 8] == '.'
         && h < 24 && mi < 60 && sec < 60
      then Some(h * 3600000 + mi * 60000 + sec * 1000 + ms)
      else None
    case _ => None
  }

  function Checked(t: int): (r: Time)
    ensures r.At? ==> ValidTime(r.ms) && r.ms == t
  {
    if ValidTime(t) then At(t) else InvalidTime
  }

  /** `new Date(text)` for the two forms this model recognises: a bare
      full-date, read as UTC midnight, and the full `toISOString` form ending
      in 'Z'. Every other text gives an invalid date. */
  function ParseDate(s: string): (r: Time)
    ensures r.At? ==> ValidTime(r.ms)
  {
    match ParseFullDate(s)
    case None => InvalidTime
    case Some((c, w)) =>
      if |s| == w then Checked(DayNumber(c.year, c.month, c.day) * 86400000)
      else if |s| == w + 14 && s[w] == 'T' && s[w + 13] == 'Z' then
        match ParseClock(s, w + 1)
        case Some(ms) => Checked(DayNumber(c.year, c.month, c.day) * 86400000 + ms)
        case None => InvalidTime
      else InvalidTime
  }

  lemma YearTextParses(y: int, rest: string)
    requires -999999 <= y <= 999999
    ensures ParseYear(YearText(y) + rest) == Some((y, |YearText(y)|))
  {
    var s := YearText(y) + rest;
    if 0 <= y <= 9999 {
      assert Slice(s, 0, 4) == Pad(y, 4);
      PadRoundTrip(y, 4);
      assert Pow10(4) == 10000;
    } else {
      var a := if y < 0 then -y else y;
      assert Pow10(6) == 1000000;
      assert Slice(s, 1, 7) == Pad(a, 6);
      PadRoundTrip(a, 6);
    }
  }

  lemma FullDateParses(c: Civil, rest: string)
    requires ValidCivil(c) && -999999 <= c.year <= 999999
    ensures ParseFullDate(FullDateText(c) + rest) == Some((c, |YearText(c.year)| + 6))
  {
    var yt := YearText(c.year);
    var w := |yt|;
    var s := FullDateText(c) + rest;
    assert s == yt + ("-" + Pad(c.month, 2) + "-" + Pad(c.day, 2) + rest);
    YearTextParses(c.year, "-" + Pad(c.month, 2) + "-" + Pad(c.day, 2) + rest);
    assert Pow10(2) == 100;
    assert Slice(s, w + 1, w + 3) == Pad(c.month, 2);
    assert Slice(s, w + 4, w + 6) == Pad(c.day, 2);
    PadRoundTrip(c.month, 2);
    PadRoundTrip(c.day, 2);
  }

  /** A slice of the middle part of a concatenation. */
  lemma MiddleSlice(pre: string, mid: string, post: string, a: int, b: int)
    requires 0 <= a <= b <= |mid|
    ensures (pre + mid + post)[|pre| + a..|pre| + b] == mid[a..b]
  {
  }

  /** A padded number found at position `k` reads back as that number. */
  lemma NumberAtSlice(s: string, k: int, n: nat, w: nat)
    requires n < Pow10(w) && 0 <= k && k + w <= |s| && s[k..k + w] == Pad(n, w)
    ensures NumberAt(s, k, w) == Some(n)
  {
    PadRoundTrip(n, w);
  }

  /** Where the fields and separators of a clock text sit inside a longer text. */
  lemma ClockLayout(ms: int, pre: string, post: string)
    requires 0 <= ms < 86400000
    ensures var s, i, f := pre + ClockText(ms) + post, |pre|, ClockFields(ms);
      && |s| >= i + 12
      && NumberAt(s, i, 2) == Some(f.0) && NumberAt(s, i + 3, 2) == Some(f.1)
      && NumberAt(s, i + 6, 2) == Some(f.2) && NumberAt(s, i + 9, 3) == Some(f.3)
      && s[i + 2] == ':' && s[i + 5] == ':' && s[i + 8] == '.'
  {
    var (h, mi, sec, milli) := ClockFields(ms);
    var ct := ClockText(ms);
    ClockTextFields(ms);
    FieldAt(pre, ct, post, 0, 2, h);
    FieldAt(pre, ct, post, 3, 2, mi);
    FieldAt(pre, ct, post, 6, 2, sec);
    FieldAt(pre, ct, post, 9, 3, milli);
    var s := pre + ct + post;
    assert s[|pre| + 2] == ct[2] && s[|pre| + 5] == ct[5] && s[|pre| + 8] == ct[8];
  }

  /** The padded fields and the separators of a clock text. */
  lemma ClockTextFields(ms: int)
    requires 0 <= ms < 86400000
    ensures var ct, f := ClockText(ms), ClockFields(ms);
      && f.0 < Pow10(2) && f.1 < Pow10(2) && f.2 < Pow10(2) && f.3 < Pow10(3)
      && ct[0..2] == Pad(f.0, 2) && ct[3..5] == Pad(f.1, 2) && ct[6..8] == Pad(f.2, 2) && ct[9..12] == Pad(f.3, 3)
      && ct[2] == ':' && ct[5] == ':' && ct[8] == '.'
  {
    assert Pow10(2) == 100 && Pow10(3) == 1000;
  }

  /** A padded field of the middle text reads back from the whole text. */
  lemma FieldAt(pre: string, mid: string, post: string, a: nat, w: nat, n: nat)
    requires a + w <= |mid| && n < Pow10(w) && mid[a..a + w] == Pad(n, w)
    ensures NumberAt(pre + mid + post, |pre| + a, w) == Some(n)
  {
    var s, k := pre + mid + post, |pre| + a;
    MiddleSlice(pre, mid, post, a, a + w);
    assert s[k..k + w] == Pad(n, w);
    NumberAtSlice(s, k, n, w);
  }

  lemma ClockParses(ms: int, pre: string, post: string)
    requires 0 <= ms < 86400000
    ensures ParseClock(pre + ClockText(ms) + post, |pre|) == Some(ms)
  {
    ClockLayout(ms, pre, post);
  }

  /** The pieces `new Date` finds in the ISO text of a valid time value. */
  lemma IsoLayout(t: int)
    requires ValidTime(t)
    ensures ValidCivil(UtcDate(t)) && -999999 <= UtcDate(t).year <= 999999
    ensures var s, w := IsoText(t), |FullDateText(UtcDate(t))|;
      && ParseFullDate(s) == Some((UtcDate(t), w))
      && |s| == w + 14 && s[w] == 'T' && s[w + 13] == 'Z'
      && ParseClock(s, w + 1) == Some(t % 86400000)
  {
    ValidTimeYears(t);
    var c := UtcDate(t);
    var ms := t % 86400000;
    var s := IsoText(t);
    var fd := FullDateText(c);
    FullDateParses(c, "T" + ClockText(ms) + "Z");
    assert s == fd + ("T" + ClockText(ms) + "Z");
    ClockParses(ms, fd + "T", "Z");
    assert s == (fd + "T") + ClockText(ms) + "Z";
  }

  /** `new Date` of a bare full-date: midnight UTC of that date. */
  lemma ParseDateOfFullDate(s: string, c: Civil, w: nat)
    requires ParseFullDate(s) == Some((c, w)) && |s| == w
    ensures ParseDate(s) == Checked(DayNumber(c.year, c.month, c.day) * 86400000)
  {
  }

  /** `new Date` of a full-date, a 'T', a clock and a 'Z'. */
  lemma ParseDateOfLayout(s: string, c: Civil, w: nat, ms: int)
    requires ParseFullDate(s) == Some((c, w))
    requires |s| == w + 14 && s[w] == 'T' && s[w + 13] == 'Z'
    requires ParseClock(s, w + 1) == Some(ms)
    ensures ParseDate(s) == Checked(DayNumber(c.year, c.month, c.day) * 86400000 + ms)
  {
  }

  /** Reading back the ISO text of a valid time value gives that time value:
      a date stored as text is rehydrated to the same instant. */
  lemma IsoTextRoundTrip(t: int)
    requires ValidTime(t)
    ensures ParseDate(IsoText(t)) == At(t)
  {
    IsoLayout(t);
    ParseTimeOfLayout(IsoText(t), t, |FullDateText(UtcDate(t))|);
  }

  /** A text laid out as the date and the clock of a valid time value parses to it. */
  lemma ParseTimeOfLayout(s: string, t: int, w: nat)
    requires ValidTime(t)
    requires ParseFullDate(s) == Some((UtcDate(t), w))
    requires |s| == w + 14 && s[w] == 'T' && s[w + 13] == 'Z'
    requires ParseClock(s, w + 1) == Some(t % 86400000)
    ensures ParseDate(s) == At(t)
  {
    ParseDateOfLayout(s, UtcDate(t), w, t % 86400000);
    DayAndOffset(t);
  }

  /** A time value is its day's number of days plus its offset within that day. */
  lemma DayAndOffset(t: int)
    ensures var c := UtcDate(t);
      DayNumber(c.year, c.month, c.day) * 86400000 + t % 86400000 == t
  {
    var c := UtcDate(t);
    assert DayNumber(c.year, c.month, c.day) == t / 86400000;
  }
}
