/**
 HTTP-date to Unix seconds (section 5.6.7 of RFC 9110): the closed-form day count of the source
 against a calendar that is stepped one day at a time.
 */
module HttpDate {
  import opened Common

  datatype Date = Date(year: nat, month: nat, day: nat)

  predicate Leap(year: nat) {
    year % 4 == 0 && (year % 100 != 0 || year % 400 == 0)
  }

  function DaysInMonth(year: nat, month: nat): nat {
    if month == 2 then if Leap(year) then 29 else 28
    else if month in {4, 6, 9, 11} then 30
    else 31
  }

  predicate ValidDate(d: Date) {
    d.year >= 1970 && 1 <= d.month <= 12 && 1 <= d.day <= DaysInMonth(d.year, d.month)
  }

  // ---------------------------------------------------------------------
  // Counting day by day, month by month and year by year
  // ---------------------------------------------------------------------

  const EPOCH := Date(1970, 1, 1)

  function NextDay(d: Date): Date {
    if d.day < DaysInMonth(d.year, d.month) then d.(day := d.day + 1)
    else if d.month < 12 then Date(d.year, d.month + 1, 1)
    else Date(d.year + 1, 1, 1)
  }

  /** The calendar date `n` days after the epoch. */
  function DateAfter(n: nat): Date {
    if n == 0 then EPOCH else NextDay(DateAfter(n - 1))
  }

  function DaysBeforeYear(year: nat): nat
    requires year >= 1970
  {
    if year == 1970 then 0
    else DaysBeforeYear(year - 1) + (if Leap(year - 1) then 366 else 365)
  }

  function DaysBeforeMonth(year: nat, month: nat): nat
    requires 1 <= month
  {
    if month == 1 then 0 else DaysBeforeMonth(year, month - 1) + DaysInMonth(year, month - 1)
  }

  function DayNumber(d: Date): int
    requires d.year >= 1970 && 1 <= d.month
  {
    DaysBeforeYear(d.year) + DaysBeforeMonth(d.year, d.month) + d.day - 1
  }

  // ---------------------------------------------------------------------
  // The source's arithmetic
  // ---------------------------------------------------------------------

  function ClosedForm(year: nat): int {
    (year - 1970) * 365 + ((year - 1) / 4 - 492) - ((year - 1) / 100 - 19) + ((year - 1) / 400 - 4)
  }

  lemma LeapDaysStep(year: nat)
    requires year >= 1970
    ensures ClosedForm(year + 1) == ClosedForm(year) + (if Leap(year) then 366 else 365)
  {
    assert year / 4 - (year - 1) / 4 == if year % 4 == 0 then 1 else 0;
    assert year / 100 - (year - 1) / 100 == if year % 100 == 0 then 1 else 0;
    assert year / 400 - (year - 1) / 400 == if year % 400 == 0 then 1 else 0;
  }

  lemma {:induction false} ClosedFormCountsYears(year: nat)
    requires year >= 1970
    ensures ClosedForm(year) == DaysBeforeYear(year)
  {
    if year > 1970 {
      ClosedFormCountsYears(year - 1);
      LeapDaysStep(year - 1);
    }
  }

  const DAYS_BEFORE_MONTH: seq<nat> := [0, 31, 59, 90, 120, 151, 181, 212, 243, 273, 304, 334]

  lemma MonthTable(year: nat, month: nat)
    requires 1 <= month <= 12
    ensures DaysBeforeMonth(year, month) ==
            DAYS_BEFORE_MONTH[month - 1] + (if month > 2 && Leap(year) then 1 else 0)
  {
    MonthTableFrom(year, 12);
  }

  /** The table is right up to `upTo`. */
  lemma {:induction false} MonthTableFrom(year: nat, upTo: nat)
    requires 1 <= upTo <= 12
    ensures forall month | 1 <= month <= upTo ::
              DaysBeforeMonth(year, month) ==
              DAYS_BEFORE_MONTH[month - 1] + (if month > 2 && Leap(year) then 1 else 0)
  {
    if upTo > 1 {
      MonthTableFrom(year, upTo - 1);
    }
  }

  datatype Instant = Instant(date: Date, hour: nat, minute: nat, second: nat)

  /** Fields the source goes on to compute with: it checks neither the day's upper bound nor the time. */
  predicate Accepted(t: Instant) {
    t.date.year >= 1970 && 1 <= t.date.month <= 12 && t.date.day >= 1
  }

  function Seconds(t: Instant): int
    requires Accepted(t)
  {
    DayNumber(t.date) * 86400 + t.hour * 3600 + t.minute * 60 + t.second
  }

  // ---------------------------------------------------------------------
  // The source's arithmetic in 64 bits
  // ---------------------------------------------------------------------

  /** A Unix `SystemTime` counts seconds in an `i64`. */
  const LAST_SECOND := 0x7FFF_FFFF_FFFF_FFFF

  /**
   `Overflow` is a `u64` step past 64 bits, which panics or wraps depending on the build, or a sum
   past the last second, which panics.
   */
  datatype Parsed = Rejected | At(seconds: nat) | Overflow

  /** The day count before and after each of the corrections for a year. */
  function YearSteps(year: nat): seq<int> {
    var plain := (year - 1970) * 365;
    var fourth := plain + ((year - 1) / 4 - 492);
    var hundredth := fourth - ((year - 1) / 100 - 19);
    [plain, fourth, hundredth, hundredth + ((year - 1) / 400 - 4)]
  }

  /** The day count after the month table and after the leap day. */
  function MonthSteps(year: nat, month: nat): seq<int>
    requires 1 <= month <= 12
  {
    var tabled := ClosedForm(year) + DAYS_BEFORE_MONTH[month - 1];
    [tabled, tabled + if month > 2 && Leap(year) then 1 else 0]
  }

  /** The day count, and every product and sum up to the result. */
  function TimeSteps(t: Instant): seq<int>
    requires Accepted(t)
  {
    var days := DayNumber(t.date);
    [days, days * 86400, t.hour * 3600, days * 86400 + t.hour * 3600, t.minute * 60,
     days * 86400 + t.hour * 3600 + t.minute * 60, Seconds(t)]
  }

  ghost predicate Fit(steps: seq<int>) {
    forall i | 0 <= i < |steps| :: 0 <= steps[i] < U64_LIMIT
  }

  /** The largest of the steps for a year, before the correction for centuries. */
  predicate YearOverflows(year: nat) {
    (year - 1970) * 365 + ((year - 1) / 4 - 492) >= U64_LIMIT
  }

  /** Up to the leap day, no step overflows exactly when the largest of them does not. */
  lemma DateStepsFit(year: nat, month: nat)
    requires year >= 1970 && 1 <= month <= 12
    ensures Fit(YearSteps(year)) && Fit(MonthSteps(year, month)) <==> !YearOverflows(year)
  {
    var steps := YearSteps(year);
    assert steps[1] >= U64_LIMIT <==> YearOverflows(year);
    assert 0 <= (year - 1) / 400 - 4 <= (year - 1) / 100 - 19;
    assert 0 <= (year - 1) / 100 - 19 <= (year - 1970) * 365;
    assert DAYS_BEFORE_MONTH[month - 1] <= 334;
    if !YearOverflows(year) && year > 100000 {
      assert (year - 1) / 400 + 335 <= (year - 1) / 100 - 15;
    }
  }

  /** Every step of the source fits in 64 bits exactly when the last one does. */
  lemma IntermediatesFit(t: Instant)
    requires Accepted(t)
    ensures Fit(YearSteps(t.date.year)) && Fit(MonthSteps(t.date.year, t.date.month)) && Fit(TimeSteps(t)) <==>
            Seconds(t) < U64_LIMIT
  {
    var d := t.date;
    ClosedFormCountsYears(d.year);
    MonthTable(d.year, d.month);
    DateStepsFit(d.year, d.month);
    assert TimeSteps(t)[6] == Seconds(t);
    if Seconds(t) < U64_LIMIT {
      assert 0 <= ClosedForm(d.year) <= DayNumber(d) && DayNumber(d) * 86400 <= Seconds(t);
      assert (d.year - 1970) * 365 <= ClosedForm(d.year);
    }
  }

  /** Some fields that parse name instants past the last second: every year of this family does. */
  lemma FarYearsOverflow(t: Instant)
    requires Accepted(t) && t.date.year >= 300_000_000_000
    ensures Seconds(t) > LAST_SECOND
  {
    ClosedFormCountsYears(t.date.year);
  }

  /** `parse_http_date` from its parsed fields on; the month is a number or absent. */
  method UnixSeconds(year: nat, month: Option<nat>, day: nat, hour: nat, minute: nat, second: nat)
    returns (r: Parsed)
    ensures month.Some? && Accepted(Instant(Date(year, month.value, day), hour, minute, second)) ==>
              var seconds := Seconds(Instant(Date(year, month.value, day), hour, minute, second));
              r == if seconds <= LAST_SECOND then At(seconds) else Overflow
    ensures month.Some? && 1 <= month.value <= 12 && year >= 1970 && day == 0 ==>
              r == if YearOverflows(year) then Overflow else Rejected
    ensures month.None? || !(1 <= month.value <= 12) || year < 1970 ==> r == Rejected
  {
    if month.None? || month.value < 1 {
      return Rejected;
    }
    var m := month.value - 1;
    if m >= 12 {
      return Rejected;
    }
    if year < 1970 {
      return Rejected;
    }
    ClosedFormCountsYears(year);
    MonthTable(year, month.value);
    DateStepsFit(year, month.value);
    if day >= 1 {
      IntermediatesFit(Instant(Date(year, month.value, day), hour, minute, second));
    }
    var days := CountDays(year, month.value);
    if days.None? {
      return Overflow;
    }
    if day < 1 {
      return Rejected;
    }
    r := CountSeconds(days.value + (day - 1), hour, minute, second);
  }

  /** The days before the month, unless a step overflows. */
  method CountDays(year: nat, month: nat) returns (days: Option<nat>)
    requires year >= 1970 && 1 <= month <= 12
    ensures days.Some? <==> Fit(YearSteps(year)) && Fit(MonthSteps(year, month))
    ensures days.Some? ==> days.value == DaysBeforeYear(year) + DaysBeforeMonth(year, month)
  {
    ClosedFormCountsYears(year);
    MonthTable(year, month);
    ghost var years, months := YearSteps(year), MonthSteps(year, month);
    var count := (year - 1970) * 365;
    assert years[0] == count;
    if count >= U64_LIMIT {
      return None;
    }
    if year > 1970 {
      count := count + ((year - 1) / 4 - 1969 / 4);
      assert years[1] == count;
      if count >= U64_LIMIT {
        return None;
      }
      count := count - ((year - 1) / 100 - 1969 / 100);
      count := count + ((year - 1) / 400 - 1969 / 400);
      assert years[3] == count;
      if count >= U64_LIMIT {
        return None;
      }
    }
    count := count + DAYS_BEFORE_MONTH[month - 1];
    assert months[0] == count;
    if count >= U64_LIMIT {
      return None;
    }
    if month > 2 && year % 4 == 0 && (year % 100 != 0 || year % 400 == 0) {
      count := count + 1;
      assert months[1] == count;
      if count >= U64_LIMIT {
        return None;
      }
    }
    return Some(count);
  }

  /** The seconds of a day and a time of day, unless a step or the instant overflows. */
  method CountSeconds(days: nat, hour: nat, minute: nat, second: nat) returns (r: Parsed)
    ensures var seconds := days * 86400 + hour * 3600 + minute * 60 + second;
            r == if seconds <= LAST_SECOND then At(seconds) else Overflow
  {
    if days >= U64_LIMIT || days * 86400 >= U64_LIMIT || hour * 3600 >= U64_LIMIT {
      return Overflow;
    }
    var seconds := days * 86400 + hour * 3600;
    if seconds >= U64_LIMIT || minute * 60 >= U64_LIMIT {
      return Overflow;
    }
    seconds := seconds + minute * 60;
    if seconds >= U64_LIMIT || seconds + second >= U64_LIMIT {
      return Overflow;
    }
    seconds := seconds + second;
    return if seconds <= LAST_SECOND then At(seconds) else Overflow;
  }

  // ---------------------------------------------------------------------
  // The count is the calendar
  // ---------------------------------------------------------------------

  lemma YearLength(year: nat)
    ensures DaysBeforeMonth(year, 12) + 31 == if Leap(year) then 366 else 365
  {
    MonthTable(year, 12);
  }

  /** Stepping the calendar adds one to the day number. */
  lemma NextDayAddsOne(d: Date)
    requires ValidDate(d)
    ensures ValidDate(NextDay(d)) && DayNumber(NextDay(d)) == DayNumber(d) + 1
  {
    YearLength(d.year);
  }

  lemma {:induction false} DayNumberOfDateAfter(n: nat)
    ensures ValidDate(DateAfter(n)) && DayNumber(DateAfter(n)) == n
  {
    if n > 0 {
      DayNumberOfDateAfter(n - 1);
      NextDayAddsOne(DateAfter(n - 1));
    }
  }

  ghost predicate Earlier(a: Date, b: Date) {
    || a.year < b.year
    || (a.year == b.year && a.month < b.month)
    || (a.year == b.year && a.month == b.month && a.day < b.day)
  }

  lemma {:induction false} YearsAddUp(a: nat, b: nat)
    requires 1970 <= a < b
    ensures DaysBeforeYear(a) + (if Leap(a) then 366 else 365) <= DaysBeforeYear(b)
  {
    if a + 1 < b {
      YearsAddUp(a, b - 1);
    }
  }

  lemma {:induction false} MonthsAddUp(year: nat, a: nat, b: nat)
    requires 1 <= a < b
    ensures DaysBeforeMonth(year, a) + DaysInMonth(year, a) <= DaysBeforeMonth(year, b)
  {
    if a + 1 < b {
      MonthsAddUp(year, a, b - 1);
    }
  }

  lemma DayWithinYear(d: Date)
    requires ValidDate(d)
    ensures DaysBeforeMonth(d.year, d.month) + d.day <= if Leap(d.year) then 366 else 365
  {
    YearLength(d.year);
    if d.month < 12 {
      MonthsAddUp(d.year, d.month, 12);
    }
  }

  lemma EarlierIsSmaller(a: Date, b: Date)
    requires ValidDate(a) && ValidDate(b) && Earlier(a, b)
    ensures DayNumber(a) < DayNumber(b)
  {
    if a.year < b.year {
      YearsAddUp(a.year, b.year);
      DayWithinYear(a);
    } else if a.month < b.month {
      MonthsAddUp(a.year, a.month, b.month);
    }
  }

  /** The day number is a bijection between valid dates and natural numbers, and inverts the calendar. */
  lemma DateOfDayNumber(d: Date)
    requires ValidDate(d)
    ensures DayNumber(d) >= 0 && DateAfter(DayNumber(d)) == d
  {
    var e := DateAfter(DayNumber(d));
    DayNumberOfDateAfter(DayNumber(d));
    if Earlier(d, e) {
      EarlierIsSmaller(d, e);
    } else if Earlier(e, d) {
      EarlierIsSmaller(e, d);
    }
  }

  predicate ValidInstant(t: Instant) {
    ValidDate(t.date) && t.hour < 24 && t.minute < 60 && t.second < 60
  }

  ghost predicate Before(a: Instant, b: Instant) {
    || Earlier(a.date, b.date)
    || (a.date == b.date && a.hour < b.hour)
    || (a.date == b.date && a.hour == b.hour && a.minute < b.minute)
    || (a.date == b.date && a.hour == b.hour && a.minute == b.minute && a.second < b.second)
  }

  /** Unix seconds order instants exactly as their fields do. */
  lemma SecondsAreMonotone(a: Instant, b: Instant)
    requires ValidInstant(a) && ValidInstant(b)
    ensures Before(a, b) <==> Seconds(a) < Seconds(b)
  {
    if Earlier(a.date, b.date) {
      EarlierIsSmaller(a.date, b.date);
    } else if Earlier(b.date, a.date) {
      EarlierIsSmaller(b.date, a.date);
    }
  }
}
