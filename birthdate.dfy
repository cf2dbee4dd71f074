/** The birthdate picker: three selects for year, month and day held as
    strings, the cascade that clears later parts when an earlier pick leaves
    the allowed range, the options each select offers, and the date written
    into the form store. The current year and the local time zone offset
    are inputs. */
module Birthdate {
  import opened Wrappers
  import opened Decimal
  import opened Calendar
  import opened Types
  import opened FormValues
  import opened Wizard

  /** The three select values; "" is an empty select. */
  datatype Selection = Selection(year: string, month: string, day: string)

  datatype PickedPart = YearPart | MonthPart | DayPart

  /** The optional `minDate` and `maxDate` of the field. */
  datatype Bounds = Bounds(minDate: Option<Time>, maxDate: Option<Time>)

  // ---------------------------------------------------------------------
  // parseInt

  /** The length of the run of digits at the start of `s`. */
  function DigitRun(s: string): (n: nat)
    ensures n <= |s| && AllDigits(s[..n])
    ensures n < |s| ==> !IsDigit(s[n])
    ensures AllDigits(s) ==> n == |s|
  {
    if s == [] || !IsDigit(s[0]) then 0
    else
      var n := 1 + DigitRun(s[1..]);
      assert s[..n] == [s[0]] + s[1..][..n - 1];
      n
  }

  /** `parseInt` on a text without leading white space or a `0x` prefix:
      an optional sign, then the longest run of decimal digits, anything
      after it ignored; None stands for NaN (no digit at all). */
  function ParseInt(s: string): (r: Option<int>)
    ensures r.None? <==> DigitRun(Unsigned(s)) == 0
    ensures r.Some? && (|s| == 0 || s[0] != '-') ==> r.value >= 0
  {
    var rest := Unsigned(s);
    var n := DigitRun(rest);
    if n == 0 then None
    else if s[0] == '-' then Some(-(DigitsValue(rest[..n]) as int))
    else Some(DigitsValue(rest[..n]))
  }

  /** `s` without a leading sign. */
  function Unsigned(s: string): (r: string)
    ensures |r| <= |s| && r == s[|s| - |r|..]
    ensures |r| < |s| ==> s[0] == '-' || s[0] == '+'
  {
    if |s| > 0 && (s[0] == '-' || s[0] == '+') then s[1..] else s
  }

  /** The decimal text of an integer parses back to that integer. */
  lemma {:induction false} ParseIntText(i: int)
    ensures ParseInt(IntText(i)) == Some(i)
  {
    var s := IntText(i);
    if i >= 0 {
      NatTextRoundTrip(i);
      assert s[0..] == s && s[..|s|] == s;
    } else {
      NatTextRoundTrip(-i);
      var rest := s[1..];
      assert rest[..|rest|] == rest;
    }
  }

  /** Distinct integers have distinct decimal texts. */
  lemma {:induction false} IntTextInjective(a: int, b: int)
    requires IntText(a) == IntText(b)
    ensures a == b
  {
    ParseIntText(a);
    ParseIntText(b);
  }

  /** `s || fallback`. */
  function Or(s: string, fallback: string): (r: string)
    ensures r == "" <==> s == "" && fallback == ""
    ensures s != "" ==> r == s
  {
    if s == "" then fallback else s
  }

  // ---------------------------------------------------------------------
  // Dates of the picker

  /** `new Date(Date.UTC(y, m - 1, d))`: an Invalid Date when any argument
      is NaN or the instant is outside the time range. */
  function DateUtc(y: Option<int>, m: Option<int>, d: Option<int>): (t: Time)
    ensures (y.None? || m.None? || d.None?) ==> t == InvalidTime
    ensures t.At? ==> ValidTime(t.ms) && t.ms % 86400000 == 0
  {
    if y.Some? && m.Some? && d.Some? then Checked(UtcMidnight(y.value, m.value, d.value))
    else InvalidTime
  }

  /** A real date in a year near the epoch is a valid instant whose UTC
      calendar date is that date, after the 0-99 year mapping. */
  lemma {:induction false} DateUtcOfRealDate(y: int, m: int, d: int)
    requires -200000 <= UtcYear(y) <= 200000 && 1 <= m <= 12 && 1 <= d <= DaysInMonth(UtcYear(y), m)
    ensures DateUtc(Some(y), Some(m), Some(d)) == At(UtcMidnight(y, m, d))
    ensures UtcDate(UtcMidnight(y, m, d)) == Civil(UtcYear(y), m, d)
  {
    MidnightValid(y, m, d);
    UtcDateOfMidnight(y, m, d);
  }

  /** date-fns `isBefore`: false when either date is invalid. */
  predicate IsBefore(a: Time, b: Time) {
    IsValidDate(a) && IsValidDate(b) && a.ms < b.ms
  }

  /** date-fns `isAfter`: false when either date is invalid. */
  predicate IsAfter(a: Time, b: Time) {
    IsValidDate(a) && IsValidDate(b) && a.ms > b.ms
  }

  /** `isDateInRange` on a date. */
  predicate Admits(b: Bounds, t: Time) {
    !(b.minDate.Some? && IsBefore(t, b.minDate.value)) && !(b.maxDate.Some? && IsAfter(t, b.maxDate.value))
  }

  /** `isDateInRange(year, month, day)`. */
  predicate DateInRange(b: Bounds, y: Option<int>, m: Option<int>, d: Option<int>) {
    Admits(b, DateUtc(y, m, d))
  }

  /** The range check is inclusive at both ends; an invalid date, and an
      invalid bound, never exclude anything. */
  lemma {:induction false} AdmitsInclusive(b: Bounds, t: Time)
    ensures IsValidDate(t) ==>
      (Admits(b, t) <==>
        (b.minDate.Some? && IsValidDate(b.minDate.value) ==> b.minDate.value.ms <= t.ms)
        && (b.maxDate.Some? && IsValidDate(b.maxDate.value) ==> t.ms <= b.maxDate.value.ms))
    ensures !IsValidDate(t) ==> Admits(b, t)
    ensures b.minDate.Some? && IsValidDate(t) && t == b.minDate.value ==> Admits(b, t) || IsAfter(t, b.maxDate.value)
  {
  }

  // ---------------------------------------------------------------------
  // Options

  /** The UTC year of a date, None for an Invalid Date (NaN). */
  function YearOf(t: Time): (r: Option<int>)
    ensures r.Some? <==> IsValidDate(t)
  {
    if IsValidDate(t) then Some(UtcDate(t.ms).year) else None
  }

  /** `minYear` and `maxYear`: the bounds' UTC years, or a hundred years
      back and the current year when a bound is absent. */
  function YearSpan(currentYear: int, b: Bounds): (Option<int>, Option<int>) {
    (if b.minDate.Some? then YearOf(b.minDate.value) else Some(currentYear - 100),
     if b.maxDate.Some? then YearOf(b.maxDate.value) else Some(currentYear))
  }

  /** The year select's options: `maxYear` down to `minYear`; none when the
      span is empty or a bound is an Invalid Date (NaN). */
  function YearOptions(currentYear: int, b: Bounds): seq<string> {
    var (lo, hi) := YearSpan(currentYear, b);
    if lo.Some? && hi.Some? then YearsDown(lo.value, hi.value) else []
  }

  /** `Array.from({length: hi - lo + 1}, (_, i) => (hi - i).toString())`. */
  function YearsDown(lo: int, hi: int): (r: seq<string>)
    ensures |r| == if lo <= hi then hi - lo + 1 else 0
  {
    if lo <= hi then seq(hi - lo + 1, i requires 0 <= i <= hi - lo => IntText(hi - i)) else []
  }

  /** The options are the texts of the years of the span, newest first. */
  lemma {:induction false} YearsDownParse(lo: int, hi: int)
    ensures forall i :: 0 <= i < |YearsDown(lo, hi)| ==> ParseInt(YearsDown(lo, hi)[i]) == Some(hi - i)
  {
    var r := YearsDown(lo, hi);
    forall i | 0 <= i < |r| ensures ParseInt(r[i]) == Some(hi - i) {
      ParseIntText(hi - i);
    }
  }

  /** A year is offered exactly when it lies in the span. */
  lemma {:induction false} YearsDownSpan(lo: int, hi: int, y: int)
    ensures IntText(y) in YearsDown(lo, hi) <==> lo <= y <= hi
  {
    var r := YearsDown(lo, hi);
    if IntText(y) in r {
      var i :| 0 <= i < |r| && r[i] == IntText(y);
      IntTextInjective(y, hi - i);
    }
    if lo <= y <= hi {
      assert r[hi - y] == IntText(y);
    }
  }

  /** Without bounds the select offers the current year and the hundred before it. */
  lemma {:induction false} YearOptionsDefault(currentYear: int)
    ensures |YearOptions(currentYear, Bounds(None, None))| == 101
    ensures YearOptions(currentYear, Bounds(None, None))[0] == IntText(currentYear)
    ensures YearOptions(currentYear, Bounds(None, None))[100] == IntText(currentYear - 100)
  {
  }

  /** The month select's values, "1" to "12". */
  function MonthOptions(): (r: seq<string>)
    ensures |r| == 12
    ensures forall i :: 0 <= i < 12 ==> ParseInt(r[i]) == Some(i + 1)
  {
    var r := seq(12, i requires 0 <= i < 12 => NatText(i + 1));
    forall i | 0 <= i < 12 ensures ParseInt(r[i]) == Some(i + 1) {
      ParseIntText(i + 1);
    }
    r
  }

  /** date-fns `getDaysInMonth`, which reads the date in the local time zone,
      `offset` milliseconds ahead of UTC; None (NaN) for an Invalid Date. */
  function LocalDaysInMonth(t: Time, offset: int): (r: Option<int>)
    ensures r.Some? ==> 28 <= r.value <= 31
  {
    if IsValidDate(t) then
      var c := UtcDate(t.ms + offset);
      Some(DaysInMonth(c.year, c.month))
    else None
  }

  /** The number of day options for `year` and `month`: the days of the month
      holding `Date.UTC(year, month - 1)` read at `offset`; 0 for NaN. */
  function DayCountAt(offset: int, year: string, month: string): (n: int)
    ensures 0 <= n <= 31
  {
    match LocalDaysInMonth(DateUtc(ParseInt(year), ParseInt(month), Some(1)), offset)
    case None => 0
    case Some(k) => k
  }

  /** The day select's options as written: "1" to the local day count, and
      none before a year and a month are picked. */
  function DayOptionsAt(offset: int, year: string, month: string): (r: seq<string>)
    ensures year == "" || month == "" ==> r == []
    ensures year != "" && month != "" ==> |r| == DayCountAt(offset, year, month)
    ensures forall i :: 0 <= i < |r| ==> r[i] == NatText(i + 1)
  {
    if year != "" && month != "" then
      seq(DayCountAt(offset, year, month), i requires 0 <= i => NatText(i + 1))
    else []
  }

  /** The day count with the month read in UTC, as the rest of the picker reads it. */
  function DayCount(year: string, month: string): int {
    DayCountAt(0, year, month)
  }

  /** The day options with the month read in UTC. */
  function DayOptions(year: string, month: string): seq<string> {
    DayOptionsAt(0, year, month)
  }

  /** Read in UTC, the options for a picked year and month are exactly the
      days of that month, with the 0-99 year mapping applied. */
  lemma {:induction false} DayOptionsUtc(y: int, m: int)
    requires -200000 <= UtcYear(y) <= 200000 && 1 <= m <= 12
    ensures DayCount(IntText(y), NatText(m)) == DaysInMonth(UtcYear(y), m)
    ensures |DayOptions(IntText(y), NatText(m))| == DaysInMonth(UtcYear(y), m)
    ensures forall i :: 0 <= i < DaysInMonth(UtcYear(y), m) ==> ParseInt(DayOptions(IntText(y), NatText(m))[i]) == Some(i + 1)
  {
    ParseIntText(y);
    ParseIntText(m);
    LocalDayCountAhead(IntText(y), NatText(m), y, m, 0);
    forall i | 0 <= i < DaysInMonth(UtcYear(y), m)
      ensures ParseInt(DayOptions(IntText(y), NatText(m))[i]) == Some(i + 1)
    {
      ParseIntText(i + 1);
    }
  }

  /** Read at an offset less than a day ahead of UTC, midnight UTC of the
      first of a month is still in that month, so the day count is the
      month's own. */
  lemma {:induction false} LocalDayCountAhead(year: string, month: string, y: int, m: int, offset: int)
    requires ParseInt(year) == Some(y) && ParseInt(month) == Some(m)
    requires -200000 <= UtcYear(y) <= 200000 && 1 <= m <= 12
    requires 0 <= offset < 86400000
    ensures DayCountAt(offset, year, month) == DaysInMonth(UtcYear(y), m)
  {
    MidnightIsDayNumber(y, m, 1);
    FirstAhead(UtcMidnight(y, m, 1), UtcYear(y), m, offset);
    DayCountOfFirst(offset, year, month, y, m, Civil(UtcYear(y), m, 1));
  }

  /** Read at an offset less than a day behind UTC, midnight UTC of the
      first of a month is still in the previous month, so the day count is
      that of the previous month. */
  lemma {:induction false} LocalDayCountBehind(year: string, month: string, y: int, m: int, offset: int)
    requires ParseInt(year) == Some(y) && ParseInt(month) == Some(m)
    requires -200000 <= UtcYear(y) <= 200000 && 1 <= m <= 12
    requires -86400000 <= offset < 0
    ensures var p := LastOfMonthBefore(UtcYear(y), m);
      DayCountAt(offset, year, month) == DaysInMonth(p.year, p.month)
  {
    MidnightIsDayNumber(y, m, 1);
    FirstBehind(UtcMidnight(y, m, 1), UtcYear(y), m, offset);
    DayCountOfFirst(offset, year, month, y, m, LastOfMonthBefore(UtcYear(y), m));
  }

  /** The day count of a parsed year and month whose first, at midnight
      UTC, reads locally as the date `c`. */
  lemma {:induction false} DayCountOfFirst(offset: int, year: string, month: string, y: int, m: int, c: Civil)
    requires ParseInt(year) == Some(y) && ParseInt(month) == Some(m)
    requires -200000 <= UtcYear(y) <= 200000 && 1 <= m <= 12
    requires UtcDate(UtcMidnight(y, m, 1) + offset) == c
    ensures DayCountAt(offset, year, month) == DaysInMonth(c.year, c.month)
  {
    DateUtcOfParsed(year, month, y, m, 1);
    DayCountOfDate(offset, year, month, UtcMidnight(y, m, 1), c);
  }

  /** Selects reading as a year and a month near the epoch, with a day of
      at most 31, give the UTC midnight of that date. */
  lemma {:induction false} DateUtcOfParsed(year: string, month: string, y: int, m: int, d: int)
    requires ParseInt(year) == Some(y) && ParseInt(month) == Some(m)
    requires -200000 <= UtcYear(y) <= 200000 && 1 <= m <= 12 && 1 <= d <= 31
    ensures DateUtc(ParseInt(year), ParseInt(month), Some(d)) == At(UtcMidnight(y, m, d))
  {
    MidnightValid(y, m, d);
  }

  /** The day count of a year and month whose first is a valid instant
      that reads locally as the date `c`. */
  lemma {:induction false} DayCountOfDate(offset: int, year: string, month: string, t: int, c: Civil)
    requires DateUtc(ParseInt(year), ParseInt(month), Some(1)) == At(t)
    requires UtcDate(t + offset) == c
    ensures DayCountAt(offset, year, month) == DaysInMonth(c.year, c.month)
  {
    LocalDaysOfValidTime(t, offset);
  }

  /** `getDaysInMonth` of a valid date is the length of the month it falls in locally. */
  lemma {:induction false} LocalDaysOfValidTime(t: int, offset: int)
    requires ValidTime(t)
    ensures var c := UtcDate(t + offset);
      LocalDaysInMonth(At(t), offset) == Some(DaysInMonth(c.year, c.month))
  {
  }

  /** Five hours behind UTC (as in New York in winter) the day select offers
      at most 29 days for March, which has 31, in every year (2023 included). */
  lemma {:induction false} LocalDayOptionsMissDays(y: int)
    requires -200000 <= y <= 200000 && !(0 <= y <= 99)
    ensures |DayOptionsAt(-18000000, IntText(y), NatText(3))| <= 29
    ensures DaysInMonth(UtcYear(y), 3) == 31
  {
    ParseIntText(y);
    ParseIntText(3);
    LocalDayCountBehind(IntText(y), NatText(3), y, 3, -18000000);
  }

  /** `isMonthSelectable(month, year)` with the day count read in UTC:
      whether some day from 1 to the day count of that month is in range.
      For a picked year and month those are exactly the month's real days. */
  method IsMonthSelectable(b: Bounds, month: string, year: string) returns (selectable: bool)
    ensures selectable <==>
      exists d :: 1 <= d <= DayCount(year, month) && DateInRange(b, ParseInt(year), ParseInt(month), Some(d))
    ensures (ParseInt(year).Some? && ParseInt(month).Some? && 1 <= ParseInt(month).value <= 12
             && -200000 <= UtcYear(ParseInt(year).value) <= 200000) ==>
      (selectable <==> exists d :: 1 <= d <= DaysInMonth(UtcYear(ParseInt(year).value), ParseInt(month).value)
                                   && DateInRange(b, ParseInt(year), ParseInt(month), Some(d)))
  {
    selectable := AnyDayInRange(b, ParseInt(year), ParseInt(month), DayCount(year, month));
    if ParseInt(year).Some? && ParseInt(month).Some? && 1 <= ParseInt(month).value <= 12
      && -200000 <= UtcYear(ParseInt(year).value) <= 200000 {
      LocalDayCountAhead(year, month, ParseInt(year).value, ParseInt(month).value, 0);
    }
  }

  /** The loop of `isMonthSelectable`: the days 1 to `n` are tried in turn
      and the first one in range answers true. */
  method AnyDayInRange(b: Bounds, y: Option<int>, m: Option<int>, n: int) returns (selectable: bool)
    ensures selectable <==> exists d :: 1 <= d <= n && DateInRange(b, y, m, Some(d))
  {
    var day := 1;
    while day <= n
      invariant 1 <= day
      invariant forall d :: 1 <= d < day ==> !DateInRange(b, y, m, Some(d))
    {
      if DateInRange(b, y, m, Some(day)) {
        return true;
      }
      day := day + 1;
    }
    return false;
  }

  /** `isDaySelectable(day, year, month)`: the date is rebuilt from its own
      UTC year, month and day and checked; an Invalid Date is selectable. */
  predicate IsDaySelectable(b: Bounds, day: string, year: string, month: string) {
    var t := DateUtc(ParseInt(year), ParseInt(month), ParseInt(day));
    if IsValidDate(t) then
      var c := UtcDate(t.ms);
      DateInRange(b, Some(c.year), Some(c.month), Some(c.day))
    else DateInRange(b, None, None, None)
  }

  /** A day of a picked month is selectable exactly when its date is in range. */
  lemma {:induction false} DaySelectableIffInRange(b: Bounds, y: int, m: int, d: int)
    requires -200000 <= UtcYear(y) <= 200000 && 1 <= m <= 12 && 1 <= d <= DaysInMonth(UtcYear(y), m)
    ensures IsDaySelectable(b, NatText(d), IntText(y), NatText(m)) <==> DateInRange(b, Some(y), Some(m), Some(d))
  {
    ParseIntText(y);
    ParseIntText(m);
    ParseIntText(d);
    DaySelectableOfParsed(b, NatText(d), IntText(y), NatText(m), y, m, d);
  }

  /** The same for any selects that read as a real date. */
  lemma {:induction false} DaySelectableOfParsed(b: Bounds, day: string, year: string, month: string, y: int, m: int, d: int)
    requires ParseInt(year) == Some(y) && ParseInt(month) == Some(m) && ParseInt(day) == Some(d)
    requires -200000 <= UtcYear(y) <= 200000 && 1 <= m <= 12 && 1 <= d <= DaysInMonth(UtcYear(y), m)
    ensures IsDaySelectable(b, day, year, month) <==> DateInRange(b, Some(y), Some(m), Some(d))
  {
    DateUtcOfRealDate(y, m, d);
    MidnightOfMappedYear(y, m, d);
    assert DateUtc(Some(UtcYear(y)), Some(m), Some(d)) == DateUtc(Some(y), Some(m), Some(d));
  }

  /** Mapping a year twice is mapping it once, so `Date.UTC` of the year it
      reads back as is the same instant. */
  lemma {:induction false} MidnightOfMappedYear(y: int, m: int, d: int)
    requires 1 <= m <= 12
    ensures UtcMidnight(UtcYear(y), m, d) == UtcMidnight(y, m, d)
  {
    MidnightIsDayNumber(y, m, d);
    MidnightIsDayNumber(UtcYear(y), m, d);
    assert UtcYear(UtcYear(y)) == UtcYear(y);
  }

  // ---------------------------------------------------------------------
  // The cascade and the stored value

  /** `handleDateChange` as written: a picked year clears month and day when
      `(year, month || 1, day || 1)` is out of range; a picked month clears the
      day when `(year || 0, month, day || 1)` is; a picked day touches only the day. */
  function CascadeAsWritten(b: Bounds, sel: Selection, part: PickedPart, value: string): Selection {
    match part
    case YearPart =>
      if DateInRange(b, ParseInt(value), ParseInt(Or(sel.month, "1")), ParseInt(Or(sel.day, "1")))
      then sel.(year := value)
      else Selection(value, "", "")
    case MonthPart =>
      if DateInRange(b, ParseInt(Or(sel.year, "0")), ParseInt(value), ParseInt(Or(sel.day, "1")))
      then sel.(month := value)
      else sel.(month := value, day := "")
    case DayPart => sel.(day := value)
  }

  predicate Complete(sel: Selection) {
    sel.year != "" && sel.month != "" && sel.day != ""
  }

  /** The three parts name a real calendar date (after the 0-99 year mapping). */
  predicate DayFits(sel: Selection) {
    var y, m, d := ParseInt(sel.year), ParseInt(sel.month), ParseInt(sel.day);
    y.Some? && m.Some? && d.Some? && 1 <= m.value <= 12 && 1 <= d.value <= DaysInMonth(UtcYear(y.value), m.value)
  }

  /** The day emptied when a complete selection does not name a real date. */
  function ClearUnfitDay(sel: Selection): (r: Selection)
    ensures r.year == sel.year && r.month == sel.month
    ensures r.day == sel.day || r.day == ""
  {
    if Complete(sel) && !DayFits(sel) then sel.(day := "") else sel
  }

  /** The cascade with a kept day that no longer fits the picked year and
      month cleared as well. */
  function Cascade(b: Bounds, sel: Selection, part: PickedPart, value: string): Selection {
    var w := CascadeAsWritten(b, sel, part, value);
    if part.DayPart? then w else ClearUnfitDay(w)
  }

  /** The stored value: UTC midnight of the picked date when all three parts
      are picked, otherwise null. */
  function Assemble(sel: Selection): (v: Value)
    ensures v.Null? <==> !Complete(sel)
    ensures v.DateV? ==> v.time == DateUtc(ParseInt(sel.year), ParseInt(sel.month), ParseInt(sel.day))
  {
    if Complete(sel) then DateV(DateUtc(ParseInt(sel.year), ParseInt(sel.month), ParseInt(sel.day)))
    else Null
  }

  /** What each pick changes: the picked part takes the new value; a year
      keeps month and day exactly when the date with the missing parts read as
      1 is in range, and clears both otherwise; a month keeps the year and
      keeps the day exactly when the date with a missing year read as 0 is in
      range; a day changes nothing else. */
  lemma {:induction false} CascadeAsWrittenEffect(b: Bounds, sel: Selection, part: PickedPart, value: string)
    ensures var r := CascadeAsWritten(b, sel, part, value);
      && (part.YearPart? ==>
            (r.year == value
             && ((r.month, r.day) == (sel.month, sel.day)
                 <==> DateInRange(b, ParseInt(value), ParseInt(Or(sel.month, "1")), ParseInt(Or(sel.day, "1")))
                      || (sel.month == "" && sel.day == ""))
             && (r.month == "" || r.month == sel.month) && (r.day == "" || r.day == sel.day)))
      && (part.MonthPart? ==>
            (r.year == sel.year && r.month == value
             && (r.day == sel.day
                 <==> DateInRange(b, ParseInt(Or(sel.year, "0")), ParseInt(value), ParseInt(Or(sel.day, "1"))) || sel.day == "")
             && (r.day == "" || r.day == sel.day)))
      && (part.DayPart? ==> r == sel.(day := value))
  {
  }

  /** Picking January 31st and then February keeps day "31", which
      `Date.UTC` rolls over: the stored date falls in March (the third of
      March 2001, for instance), and the effect that re-seeds the selects
      from the stored value then shows that March date. */
  lemma {:induction false} CascadeKeepsOverflowDay(y: int)
    requires -200000 <= UtcYear(y) <= 200000
    ensures var sel := Selection(IntText(y), NatText(1), NatText(31));
      var r := CascadeAsWritten(Bounds(None, None), sel, MonthPart, NatText(2));
      var d := 31 - DaysInMonth(UtcYear(y), 2);
      && r == Selection(IntText(y), NatText(2), NatText(31))
      && !DayFits(r)
      && Assemble(r) == DateV(At(UtcMidnight(y, 3, d)))
      && UtcDate(UtcMidnight(y, 3, d)) == Civil(UtcYear(y), 3, d)
      && InitialSelection(Assemble(r)) == Selection(IntText(UtcYear(y)), NatText(3), NatText(d))
  {
    UnboundedPickKeeps(Selection(IntText(y), NatText(1), NatText(31)), NatText(2));
    ParseIntText(y);
    ParseIntText(2);
    ParseIntText(31);
    FebruaryThirtyFirst(IntText(y), NatText(2), NatText(31), y);
    InitialOfMidnight(y, 3, 31 - DaysInMonth(UtcYear(y), 2));
  }

  /** Without bounds every date is in range, so a picked month clears nothing. */
  lemma {:induction false} UnboundedPickKeeps(sel: Selection, value: string)
    ensures CascadeAsWritten(Bounds(None, None), sel, MonthPart, value) == sel.(month := value)
  {
  }

  /** February 31st is stored as the day as far into March as 31 is past
      the end of February. */
  lemma {:induction false} FebruaryThirtyFirst(year: string, month: string, day: string, y: int)
    requires ParseInt(year) == Some(y) && ParseInt(month) == Some(2) && ParseInt(day) == Some(31)
    requires -200000 <= UtcYear(y) <= 200000
    ensures !DayFits(Selection(year, month, day))
    ensures var d := 31 - DaysInMonth(UtcYear(y), 2);
      && (year != "" && month != "" && day != "" ==> Assemble(Selection(year, month, day)) == DateV(At(UtcMidnight(y, 3, d))))
      && UtcDate(UtcMidnight(y, 3, d)) == Civil(UtcYear(y), 3, d)
  {
    var d := 31 - DaysInMonth(UtcYear(y), 2);
    FebruaryRollsOver(y);
    DateUtcOfRealDate(y, 3, d);
  }

  /** `Date.UTC` of February 31st is the same instant as March 2nd, or March
      3rd outside a leap year. */
  lemma {:induction false} FebruaryRollsOver(y: int)
    ensures UtcMidnight(y, 2, 31) == UtcMidnight(y, 3, 31 - DaysInMonth(UtcYear(y), 2))
  {
    MidnightIsDayNumber(y, 2, 31);
    MidnightIsDayNumber(y, 3, 31 - DaysInMonth(UtcYear(y), 2));
    DaysBeforeMonthStep(UtcYear(y), 2);
  }

  /** After the corrected cascade picks a year or a month, a complete
      selection always names a real date, and the stored value then is an
      instant whose UTC calendar date is exactly that date. */
  lemma {:induction false} CascadeKeepsRealDates(b: Bounds, sel: Selection, part: PickedPart, value: string)
    requires !part.DayPart?
    ensures Complete(Cascade(b, sel, part, value)) ==> DayFits(Cascade(b, sel, part, value))
    ensures Cascade(b, sel, part, value) == CascadeAsWritten(b, sel, part, value)
      <==> !Complete(CascadeAsWritten(b, sel, part, value)) || DayFits(CascadeAsWritten(b, sel, part, value))
  {
  }

  /** The stored date of a selection naming a real date falls on that date. */
  lemma {:induction false} AssembleFallsOnPickedDate(sel: Selection, t: int)
    requires Complete(sel) && DayFits(sel)
    requires Assemble(sel) == DateV(At(t))
    ensures UtcDate(t) == Civil(UtcYear(ParseInt(sel.year).value), ParseInt(sel.month).value, ParseInt(sel.day).value)
  {
    UtcDateOfMidnight(ParseInt(sel.year).value, ParseInt(sel.month).value, ParseInt(sel.day).value);
  }

  /** Picking one of the offered days of a picked year and month gives a
      selection naming a real date. */
  lemma {:induction false} OfferedDayFits(b: Bounds, sel: Selection, y: int, m: int, i: nat)
    requires -200000 <= UtcYear(y) <= 200000 && 1 <= m <= 12
    requires sel.year == IntText(y) && sel.month == NatText(m)
    requires i < |DayOptions(sel.year, sel.month)|
    ensures DayFits(Cascade(b, sel, DayPart, DayOptions(sel.year, sel.month)[i]))
  {
    DayOptionsUtc(y, m);
    ParseIntText(y);
    ParseIntText(m);
  }

  /** `new Date(value)` of a truthy stored value; None for a falsy one. A
      list of files or of strings is not read as a date. */
  function StoredDate(v: Value): Option<Time> {
    match v
    case Undefined => None
    case Null => None
    case Str(s) => if s == "" then None else Some(ParseDate(s))
    case Num(n) => if n == 0 then None else Some(Checked(n))
    case Bool(b) => if b then Some(Checked(1)) else None
    case DateV(t) => Some(t)
    case Files(_) => Some(InvalidTime)
    case Strings(_) => Some(InvalidTime)
  }

  /** The initial selects: the UTC year, one-based month and day of the
      stored date; empty for a falsy value; "NaN" in each for an Invalid Date. */
  function InitialSelection(v: Value): Selection {
    SelectionOf(StoredDate(v))
  }

  /** The three selects seeded from a date, or from no date. */
  function SelectionOf(date: Option<Time>): Selection {
    match date
    case None => Selection("", "", "")
    case Some(t) =>
      if IsValidDate(t) then
        var c := UtcDate(t.ms);
        Selection(IntText(c.year), NatText(c.month), NatText(c.day))
      else Selection("NaN", "NaN", "NaN")
  }

  /** Storing a picked real date and mounting the picker again shows the
      same three selects (for a year outside 0-99, which the mapping moves). */
  lemma {:induction false} AssembleThenInitial(y: int, m: int, d: int)
    requires -200000 <= y <= 200000 && !(0 <= y <= 99)
    requires 1 <= m <= 12 && 1 <= d <= DaysInMonth(y, m)
    ensures var sel := Selection(IntText(y), NatText(m), NatText(d));
      InitialSelection(Assemble(sel)) == sel
  {
    var sel := Selection(IntText(y), NatText(m), NatText(d));
    assert UtcYear(y) == y;
    AssembleOfText(y, m, d);
    InitialOfMidnight(y, m, d);
  }

  /** The stored value of a selection naming a real date is its UTC midnight. */
  lemma {:induction false} AssembleOfText(y: int, m: int, d: int)
    requires -200000 <= UtcYear(y) <= 200000 && 1 <= m <= 12 && 1 <= d <= DaysInMonth(UtcYear(y), m)
    ensures Assemble(Selection(IntText(y), NatText(m), NatText(d))) == DateV(At(UtcMidnight(y, m, d)))
  {
    ParseIntText(y);
    ParseIntText(m);
    ParseIntText(d);
    DateUtcOfRealDate(y, m, d);
  }

  /** Mounting on the UTC midnight of a real date shows that date. */
  lemma {:induction false} InitialOfMidnight(y: int, m: int, d: int)
    requires -200000 <= UtcYear(y) <= 200000 && 1 <= m <= 12 && 1 <= d <= DaysInMonth(UtcYear(y), m)
    ensures InitialSelection(DateV(At(UtcMidnight(y, m, d)))) == Selection(IntText(UtcYear(y)), NatText(m), NatText(d))
  {
    DateUtcOfRealDate(y, m, d);
    MidnightValid(y, m, d);
  }

  /** A stored text that parses to a date seeds the same selects as that
      date, so a birthdate restored from its ISO text shows what was picked. */
  lemma {:induction false} StoredTextSelection(s: string, t: int)
    requires s != "" && ParseDate(s) == At(t)
    ensures InitialSelection(Str(s)) == SelectionOf(Some(At(t)))
  {
    StoredText(s, t);
  }

  lemma {:induction false} StoredText(s: string, t: int)
    requires s != "" && ParseDate(s) == At(t)
    ensures StoredDate(Str(s)) == Some(At(t))
  {
  }

  /** The three select values after a pick, computed step by step as the
      handler does. */
  method NextSelection(b: Bounds, sel: Selection, part: PickedPart, value: string) returns (next: Selection)
    ensures next == CascadeAsWritten(b, sel, part, value)
  {
    var newYear, newMonth, newDay := sel.year, sel.month, sel.day;
    if part == YearPart {
      newYear := value;
      if !DateInRange(b, ParseInt(newYear), ParseInt(Or(newMonth, "1")), ParseInt(Or(newDay, "1"))) {
        newMonth := "";
        newDay := "";
      }
    } else if part == MonthPart {
      newMonth := value;
      if !DateInRange(b, ParseInt(Or(newYear, "0")), ParseInt(newMonth), ParseInt(Or(newDay, "1"))) {
        newDay := "";
      }
    } else {
      newDay := value;
    }
    next := Selection(newYear, newMonth, newDay);
  }

  /** The picker: its three selects and the bounds it was given. */
  class BirthdatePicker {
    const name: string
    const bounds: Bounds
    var year: string
    var month: string
    var day: string

    function Selected(): Selection
      reads this
    {
      Selection(year, month, day)
    }

    /** Mounting seeds the selects from the stored value. */
    constructor(name: string, bounds: Bounds, stored: Value)
      ensures this.name == name && this.bounds == bounds
      ensures Selected() == InitialSelection(stored)
    {
      this.name := name;
      this.bounds := bounds;
      var sel := InitialSelection(stored);
      year := sel.year;
      month := sel.month;
      day := sel.day;
    }

    /** The effect that re-seeds the selects when the stored value changes. */
    method Resync(stored: Value)
      modifies this
      ensures Selected() == InitialSelection(stored)
    {
      var sel := InitialSelection(stored);
      year, month, day := sel.year, sel.month, sel.day;
    }

    /** The effect that turns a truthy stored value that is not a date into one. */
    method Rehydrate(w: Wizard)
      modifies w
      ensures var v := Lookup(old(w.values), name);
        w.Snapshot() == if StoredDate(v).Some? && !v.DateV?
          then old(w.Snapshot()).(values := old(w.values)[name := DateV(StoredDate(v).value)])
          else old(w.Snapshot())
    {
      var v := Lookup(w.values, name);
      var parsed := StoredDate(v);
      if parsed.Some? && !v.DateV? {
        w.SetValue(name, DateV(parsed.value));
      }
    }

    /** `handleDateChange`: updates the selects and writes the date, or
      null, into the form store. A kept day past the end of the picked month
      is written as it stands (see `CascadeKeepsOverflowDay`). */
    method HandleDateChange(w: Wizard, part: PickedPart, value: string)
      modifies this, w
      ensures Selected() == CascadeAsWritten(bounds, old(Selected()), part, value)
      ensures w.Snapshot() == old(w.Snapshot()).(values := old(w.values)[name := Assemble(Selected())])
    {
      ghost var picked := CascadeAsWritten(bounds, Selected(), part, value);
      Pick(part, value);
      assert Selected() == picked;
      w.SetValue(name, Assemble(Selected()));
    }

    /** The select updates of the handler. */
    method Pick(part: PickedPart, value: string)
      modifies this
      ensures Selected() == CascadeAsWritten(bounds, old(Selected()), part, value)
    {
      var next := NextSelection(bounds, Selected(), part, value);
      SetSelects(next);
    }

    /** `setYear`, `setMonth` and `setDay`. */
    method SetSelects(sel: Selection)
      modifies this
      ensures Selected() == sel
    {
      year, month, day := sel.year, sel.month, sel.day;
    }
  }
}
