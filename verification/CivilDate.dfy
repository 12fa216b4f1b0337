/**
 The closed-form conversion from a day count to a calendar date used for the
 upload's modification time.

 The reference is the plain Gregorian calendar: month lengths (section 5.7 of
 RFC 3339), the leap-year rule (Appendix C of RFC 3339), and "tomorrow".
 */
module CivilDate {
  datatype Date = Date(year: int, month: int, day: int)

  // ----- The reference calendar ---------------------------------------------

  predicate IsLeapYear(y: int) {
    y % 4 == 0 && (y % 100 != 0 || y % 400 == 0)
  }

  function YearLength(y: int): int {
    if IsLeapYear(y) then 366 else 365
  }

  function DaysInMonth(y: int, m: int): int {
    if m == 2 then (if IsLeapYear(y) then 29 else 28)
    else if m == 4 || m == 6 || m == 9 || m == 11 then 30
    else 31
  }

  predicate IsDate(d: Date) {
    && 1 <= d.month <= 12
    && 1 <= d.day <= DaysInMonth(d.year, d.month)
  }

  function NextDay(d: Date): Date {
    if d.day < DaysInMonth(d.year, d.month) then d.(day := d.day + 1)
    else if d.month < 12 then Date(d.year, d.month + 1, 1)
    else Date(d.year + 1, 1, 1)
  }

  /** The date `n` days after 1 January 1970, one day at a time. */
  function DateAfter(n: nat): Date {
    if n == 0 then Date(1970, 1, 1) else NextDay(DateAfter(n - 1))
  }

  /** Days in the whole years 1970 .. y-1. */
  function DaysInYearsBefore(y: int): int
    decreases y
  {
    if y <= 1970 then 0 else DaysInYearsBefore(y - 1) + YearLength(y - 1)
  }

  /** Days in the whole months 1 .. m-1 of year `y`. */
  function DaysInMonthsBefore(y: int, m: int): int
    decreases m
  {
    if m <= 1 then 0 else DaysInMonthsBefore(y, m - 1) + DaysInMonth(y, m - 1)
  }

  /** How many days `d` lies after 1 January 1970, counted off the calendar. */
  function DayNumber(d: Date): int {
    DaysInYearsBefore(d.year) + DaysInMonthsBefore(d.year, d.month) + d.day - 1
  }

  predicate Before(a: Date, b: Date) {
    || a.year < b.year
    || (a.year == b.year && a.month < b.month)
    || (a.year == b.year && a.month == b.month && a.day < b.day)
  }

  // ----- The conversion under study ------------------------------------------

  function CivilFromDays(days: nat): Date {
    var z := days + 719_468;
    var era := z / 146_097;
    EraDate(era, z - era * 146_097)
  }

  /** Day `doe` (from 0) of the 400-year cycle number `era`. */
  function EraDate(era: int, doe: int): Date {
    var yoe := YearOfEra(doe);
    var doy := doe - (365 * yoe + yoe / 4 - yoe / 100);
    MarchDate(yoe + era * 400, doy)
  }

  function YearOfEra(doe: int): int {
    (doe - doe / 1_460 + doe / 36_524 - doe / 146_096) / 365
  }

  /** Day `doy` (from 0) of the year that starts on 1 March of `yearCivil`. */
  function MarchDate(yearCivil: int, doy: int): Date {
    var mp := (5 * doy + 2) / 153;
    var day := doy - (153 * mp + 2) / 5 + 1;
    var month := if mp < 10 then mp + 3 else mp - 9;
    Date(if month <= 2 then yearCivil + 1 else yearCivil, month, day)
  }

  // ----- Correctness of the magic divisions ------------------------------------

  /** Days before 1 March of year `y`, counted from 1 March of year 0. */
  function MarchStart(y: nat): int {
    365 * y + y / 4 - y / 100 + y / 400
  }

  function MarchYearLength(y: nat): int {
    YearLength(y + 1)
  }

  /** The quotients in `MarchStart`, for a year written in base 400, 100, 4. */
  lemma CyclesOfYear(e: nat, c: nat, q: nat, k: nat)
    requires c <= 3 && q <= 24 && k <= 3
    ensures
      var y := 400 * e + 100 * c + 4 * q + k;
      && y / 4 == 100 * e + 25 * c + q
      && y / 100 == 4 * e + c
      && y / 400 == e
      && MarchStart(y) == 146_097 * e + 36_524 * c + 1_461 * q + 365 * k
  {
  }

  lemma LeapYearsByCycle(e: nat, c: nat, q: nat, k: nat)
    requires c <= 3 && q <= 24 && k <= 3
    ensures IsLeapYear(400 * e + 100 * c + 4 * q + k + 1) <==> k == 3 && (q < 24 || c == 3)
  {
    var y := 400 * e + 100 * c + 4 * q + k + 1;
    if k < 3 {
      RemainderBy4(y, 100 * e + 25 * c + q, k + 1);
    } else {
      RemainderBy4(y, 100 * e + 25 * c + q + 1, 0);
      if q < 24 {
        RemainderBy100(y, 4 * e + c, 4 * q + 4);
      } else {
        RemainderBy100(y, 4 * e + c + 1, 0);
        if c < 3 {
          RemainderBy400(y, e, 100 * c + 100);
        } else {
          RemainderBy400(y, e + 1, 0);
        }
      }
    }
  }

  lemma RemainderBy4(y: int, quotient: int, remainder: int)
    requires y == 4 * quotient + remainder && 0 <= remainder < 4
    ensures y % 4 == remainder
  {
  }

  lemma RemainderBy100(y: int, quotient: int, remainder: int)
    requires y == 100 * quotient + remainder && 0 <= remainder < 100
    ensures y % 100 == remainder
  {
  }

  lemma RemainderBy400(y: int, quotient: int, remainder: int)
    requires y == 400 * quotient + remainder && 0 <= remainder < 400
    ensures y % 400 == remainder
  {
  }

  lemma SplitYear(y: nat) returns (e: nat, c: nat, q: nat, k: nat)
    ensures c <= 3 && q <= 24 && k <= 3
    ensures y == 400 * e + 100 * c + 4 * q + k
  {
    e := y / 400;
    var r := y % 400;
    c, r := r / 100, r % 100;
    q, k := r / 4, r % 4;
  }

  lemma MarchYearsAreContiguous(y: nat)
    ensures MarchStart(y + 1) == MarchStart(y) + MarchYearLength(y)
  {
    var e, c, q, k := SplitYear(y);
    CyclesOfYear(e, c, q, k);
    LeapYearsByCycle(e, c, q, k);
    if k < 3 {
      CyclesOfYear(e, c, q, k + 1);
    } else if q < 24 {
      CyclesOfYear(e, c, q + 1, 0);
    } else if c < 3 {
      CyclesOfYear(e, c + 1, 0, 0);
    } else {
      CyclesOfYear(e + 1, 0, 0, 0);
    }
  }

  /** Inside one 400-year era the division formula recovers the year. */
  lemma YearOfEraIsExact(c: int, q: int, k: int, d: int)
    requires 0 <= c <= 3 && 0 <= q <= 24 && 0 <= k <= 3 && 0 <= d <= 365
    requires d == 365 ==> k == 3 && (q < 24 || c == 3)
    ensures
      var doe := 36_524 * c + 1_461 * q + 365 * k + d;
      && 0 <= doe < 146_097
      && YearOfEra(doe) == 100 * c + 4 * q + k
  {
    var doe := 36_524 * c + 1_461 * q + 365 * k + d;
    var rem := 24 * c + q + 365 * k + d;
    assert doe == 1_460 * (25 * c + q) + rem;
    var last := if c == 3 && q == 24 && k == 3 && d == 365 then 1 else 0;
    var carry := if rem >= 1_460 then 1 else 0;
    assert doe / 1_460 == 25 * c + q + carry;
    assert doe / 36_524 == c + last;
    assert doe / 146_096 == last;
    var y := 100 * c + 4 * q + k;
    assert doe - doe / 1_460 + doe / 36_524 - doe / 146_096 == 365 * y + (d - carry);
    assert 0 <= d - carry <= 364;
  }

  /** The conversion finds the March year and the day in it. */
  lemma MarchYearFound(days: nat, y: nat, d: int)
    requires days + 719_468 == MarchStart(y) + d
    requires 0 <= d < MarchYearLength(y)
    ensures CivilFromDays(days) == MarchDate(y, d)
  {
    var e, c, q, k := SplitYear(y);
    CyclesOfYear(e, c, q, k);
    LeapYearsByCycle(e, c, q, k);
    YearOfEraIsExact(c, q, k, d);
    EraFound(days, e, c, q, k, d);
  }

  lemma EraFound(days: nat, e: nat, c: nat, q: nat, k: nat, d: nat)
    requires c <= 3 && q <= 24 && k <= 3
    requires var doe := 36_524 * c + 1_461 * q + 365 * k + d;
      && doe < 146_097
      && YearOfEra(doe) == 100 * c + 4 * q + k
      && days + 719_468 == 146_097 * e + doe
    ensures CivilFromDays(days) == MarchDate(400 * e + 100 * c + 4 * q + k, d)
  {
    var doe := 36_524 * c + 1_461 * q + 365 * k + d;
    EraDateFound(e, doe, 100 * c + 4 * q + k, c, q, k, d);
    EraOfDay(days, e, doe);
  }

  lemma EraOfDay(days: nat, e: nat, doe: nat)
    requires doe < 146_097 && days + 719_468 == 146_097 * e + doe
    ensures CivilFromDays(days) == EraDate(e, doe)
  {
    assert (days + 719_468) / 146_097 == e;
  }

  lemma EraDateFound(e: nat, doe: nat, yoe: nat, c: nat, q: nat, k: nat, d: nat)
    requires c <= 3 && q <= 24 && k <= 3 && yoe == 100 * c + 4 * q + k
    requires doe == 36_524 * c + 1_461 * q + 365 * k + d && YearOfEra(doe) == yoe
    ensures EraDate(e, doe) == MarchDate(400 * e + yoe, d)
  {
    CyclesOfYear(0, c, q, k);
    assert yoe / 4 == 25 * c + q && yoe / 100 == c;
    assert doe - (365 * yoe + yoe / 4 - yoe / 100) == d;
  }

  lemma MarchDateSteps(y: nat, d: int)
    requires 0 <= d < MarchYearLength(y)
    ensures IsDate(MarchDate(y, d))
    ensures d + 1 < MarchYearLength(y) ==> MarchDate(y, d + 1) == NextDay(MarchDate(y, d))
    ensures d + 1 == MarchYearLength(y) ==> MarchDate(y + 1, 0) == NextDay(MarchDate(y, d))
  {
    var mp := (5 * d + 2) / 153;
    assert 0 <= mp <= 11;
    var mp' := (5 * (d + 1) + 2) / 153;
    assert mp' == mp || mp' == mp + 1;
  }

  /** The next day of the March years. */
  lemma Tomorrow(y: nat, d: int) returns (y': nat, d': int)
    requires 0 <= d < MarchYearLength(y)
    ensures MarchStart(y') + d' == MarchStart(y) + d + 1 && 0 <= d' < MarchYearLength(y')
    ensures MarchDate(y', d') == NextDay(MarchDate(y, d))
  {
    MarchDateSteps(y, d);
    if d + 1 < MarchYearLength(y) {
      y', d' := y, d + 1;
    } else {
      MarchYearsAreContiguous(y);
      y', d' := y + 1, 0;
    }
  }

  lemma {:induction false} CivilTracksCalendar(n: nat) returns (y: nat, d: int)
    ensures n + 719_468 == MarchStart(y) + d && 0 <= d < MarchYearLength(y)
    ensures CivilFromDays(n) == DateAfter(n) == MarchDate(y, d)
  {
    if n == 0 {
      y, d := 1969, 306;
      assert MarchDate(1969, 306) == Date(1970, 1, 1);
      MarchYearFound(0, 1969, 306);
    } else {
      y, d := CivilTracksCalendar(n - 1);
      y, d := Tomorrow(y, d);
      MarchYearFound(n, y, d);
    }
  }

  lemma CivilIsCalendar(n: nat)
    ensures CivilFromDays(n) == DateAfter(n)
  {
    var _, _ := CivilTracksCalendar(n);
  }

  /** The closed form is the calendar: stepping day by day from the epoch gives
      the same, always valid, date for every day count. */
  lemma CivilFromDaysIsTheCalendar(n: nat)
    ensures CivilFromDays(n) == DateAfter(n)
    ensures IsDate(CivilFromDays(n)) && CivilFromDays(n).year >= 1970
    ensures CivilFromDays(n + 1) == NextDay(CivilFromDays(n))
  {
    CivilIsCalendar(n);
    CivilIsCalendar(n + 1);
    DateAfterIsSane(n);
  }

  lemma {:induction false} DateAfterIsSane(n: nat)
    ensures IsDate(DateAfter(n)) && DateAfter(n).year >= 1970
    ensures DayNumber(DateAfter(n)) == n
  {
    if n == 0 {
      assert DayNumber(Date(1970, 1, 1)) == 0;
    } else {
      DateAfterIsSane(n - 1);
      NextDayIsADate(DateAfter(n - 1));
      DayNumberOfNextDay(DateAfter(n - 1));
    }
  }

  lemma NextDayIsADate(d: Date)
    requires IsDate(d)
    ensures IsDate(NextDay(d)) && NextDay(d).year >= d.year
  {
  }

  lemma MonthsFillTheYear(y: int)
    ensures DaysInMonthsBefore(y, 12) + DaysInMonth(y, 12) == YearLength(y)
  {
    assert DaysInMonthsBefore(y, 4) == DaysInMonth(y, 1) + DaysInMonth(y, 2) + DaysInMonth(y, 3);
    assert DaysInMonthsBefore(y, 7) == DaysInMonthsBefore(y, 4) + 91;
    assert DaysInMonthsBefore(y, 10) == DaysInMonthsBefore(y, 7) + 92;
  }

  lemma DayNumberOfNextDay(d: Date)
    requires IsDate(d) && d.year >= 1970
    ensures DayNumber(NextDay(d)) == DayNumber(d) + 1
  {
    MonthsFillTheYear(d.year);
  }

  lemma {:induction false} MonthsAreOrdered(y: int, m: int, m': int)
    requires 1 <= m < m'
    ensures DaysInMonthsBefore(y, m) + DaysInMonth(y, m) <= DaysInMonthsBefore(y, m')
    decreases m'
  {
    if m + 1 < m' {
      MonthsAreOrdered(y, m, m' - 1);
    }
  }

  lemma {:induction false} YearsAreOrdered(y: int, y': int)
    requires 1970 <= y < y'
    ensures DaysInYearsBefore(y) + YearLength(y) <= DaysInYearsBefore(y')
    decreases y'
  {
    if y + 1 < y' {
      YearsAreOrdered(y, y' - 1);
    }
  }

  lemma DayOfYearIsBounded(d: Date)
    requires IsDate(d)
    ensures 0 <= DaysInMonthsBefore(d.year, d.month) + d.day - 1 < YearLength(d.year)
  {
    MonthsFillTheYear(d.year);
    if d.month < 12 {
      MonthsAreOrdered(d.year, d.month, 12);
    }
    if 1 < d.month {
      MonthsAreOrdered(d.year, 1, d.month);
    }
  }

  /** Earlier dates have smaller day numbers, so no two dates share one. */
  lemma DayNumberIsStrictlyMonotone(a: Date, b: Date)
    requires IsDate(a) && IsDate(b) && a.year >= 1970 && b.year >= 1970
    requires Before(a, b)
    ensures DayNumber(a) < DayNumber(b)
  {
    DayOfYearIsBounded(a);
    DayOfYearIsBounded(b);
    if a.year < b.year {
      YearsAreOrdered(a.year, b.year);
    } else if a.month < b.month {
      MonthsAreOrdered(a.year, a.month, b.month);
    }
  }

  /** Day counts and dates from 1970 on are in one-to-one correspondence. */
  lemma CivilFromDaysIsABijection(n: nat, d: Date)
    requires IsDate(d) && d.year >= 1970
    ensures DayNumber(CivilFromDays(n)) == n
    ensures DayNumber(d) >= 0 && CivilFromDays(DayNumber(d)) == d
  {
    CivilFromDaysIsTheCalendar(n);
    DateAfterIsSane(n);
    DayOfYearIsBounded(d);
    if d.year > 1970 {
      YearsAreOrdered(1970, d.year);
    }
    var m := DayNumber(d);
    CivilFromDaysIsTheCalendar(m);
    DateAfterIsSane(m);
    var d' := CivilFromDays(m);
    if Before(d, d') {
      DayNumberIsStrictlyMonotone(d, d');
    } else if Before(d', d) {
      DayNumberIsStrictlyMonotone(d', d);
    }
  }
}
