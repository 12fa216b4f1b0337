/**
 The ISO-8601 text written for a file's modification time. A system time is a
 number of nanoseconds relative to the Unix epoch; negative times have no text.
 */
module IsoTimestamp {
  import opened Results
  import opened CivilDate

  const NANOS_PER_SEC := 1_000_000_000
  const NANOS_PER_MILLI := 1_000_000

  /** 1 January 10000, as days and nanoseconds after the epoch. */
  const DAYS_TO_10000 := 2_932_897
  const YEAR_10000 := DAYS_TO_10000 * 86_400 * NANOS_PER_SEC

  datatype Stamp = Stamp(date: Date, hour: nat, minute: nat, second: nat, milli: nat)

  function StampOf(nanos: nat): Stamp {
    StampAt(nanos / NANOS_PER_SEC, nanos % NANOS_PER_SEC / NANOS_PER_MILLI)
  }

  function StampAt(secs: nat, millis: nat): Stamp {
    var days := secs / 86_400;
    var secsOfDay := secs % 86_400;
    Stamp(CivilFromDays(days),
          secsOfDay / 3_600, secsOfDay % 3_600 / 60, secsOfDay % 60, millis)
  }

  function Digit(n: nat): char
    requires n < 10
  {
    '0' + n as char
  }

  /** Decimal digits of `n`, padded on the left with zeros to at least `width`. */
  function ZeroPad(n: nat, width: nat): string
    decreases n, width
  {
    if n < 10 && width <= 1 then [Digit(n)]
    else ZeroPad(n / 10, if width == 0 then 0 else width - 1) + [Digit(n % 10)]
  }

  function StampText(s: Stamp): string
    requires s.date.year >= 0 && s.date.month >= 0 && s.date.day >= 0
  {
    ZeroPad(s.date.year, 4) + ("-" + DayText(s))
  }

  function DayText(s: Stamp): string
    requires s.date.month >= 0 && s.date.day >= 0
  {
    ZeroPad(s.date.month, 2) + ("-" + (ZeroPad(s.date.day, 2) + ("T" + ClockText(s))))
  }

  function ClockText(s: Stamp): string {
    ZeroPad(s.hour, 2) + (":" + (ZeroPad(s.minute, 2) + (":" + (ZeroPad(s.second, 2) +
    ("." + (ZeroPad(s.milli, 3) + "Z"))))))
  }

  function SystemTimeToIso8601(nanos: int): (r: Option<string>)
    ensures r.None? <==> nanos < 0
  {
    if nanos < 0 then None
    else
      CivilFromDaysIsTheCalendar(nanos / NANOS_PER_SEC / 86_400);
      Some(StampText(StampOf(nanos)))
  }

  // ----- Lexicographic order of strings ----------------------------------------

  predicate LexLess(a: string, b: string) {
    if b == [] then false
    else if a == [] then true
    else a[0] < b[0] || (a[0] == b[0] && LexLess(a[1..], b[1..]))
  }

  lemma {:induction false} LexLessConcat(p: string, q: string, x: string, y: string)
    requires |p| == |q|
    ensures LexLess(p + x, q + y) <==> LexLess(p, q) || (p == q && LexLess(x, y))
  {
    if p == [] {
      assert p + x == x && q + y == y;
    } else {
      assert (p + x)[1..] == p[1..] + x && (q + y)[1..] == q[1..] + y;
      LexLessConcat(p[1..], q[1..], x, y);
      assert p == [p[0]] + p[1..] && q == [q[0]] + q[1..];
    }
  }

  function Pow10(w: nat): nat {
    if w == 0 then 1 else 10 * Pow10(w - 1)
  }

  lemma {:induction false} ZeroPadLength(n: nat, w: nat)
    requires w >= 1
    ensures |ZeroPad(n, w)| >= w
    ensures |ZeroPad(n, w)| == w <==> n < Pow10(w)
    decreases w, n
  {
    if w > 1 {
      ZeroPadLength(n / 10, w - 1);
    } else if n >= 10 {
      ZeroPadIsNonEmpty(n / 10);
    }
  }

  lemma ZeroPadIsNonEmpty(n: nat)
    ensures |ZeroPad(n, 0)| >= 1
  {
  }

  lemma {:induction false} ZeroPadOrder(a: nat, b: nat, w: nat)
    requires w >= 1 && a < Pow10(w) && b < Pow10(w)
    ensures LexLess(ZeroPad(a, w), ZeroPad(b, w)) <==> a < b
    ensures ZeroPad(a, w) == ZeroPad(b, w) <==> a == b
  {
    if w > 1 {
      ZeroPadOrder(a / 10, b / 10, w - 1);
      ZeroPadLength(a / 10, w - 1);
      ZeroPadLength(b / 10, w - 1);
      var p, q := ZeroPad(a / 10, w - 1), ZeroPad(b / 10, w - 1);
      var x, y := [Digit(a % 10)], [Digit(b % 10)];
      LexLessConcat(p, q, x, y);
      assert p + x == q + y ==> p == (p + x)[..w - 1] == (q + y)[..w - 1] == q;
      assert p + x == q + y ==> x[0] == (p + x)[w - 1] == (q + y)[w - 1] == y[0];
    }
  }

  /** A padded field decides the order unless the fields are equal. */
  lemma FieldOrder(a: nat, b: nat, w: nat, sep: char, x: string, y: string)
    requires w >= 1 && a < Pow10(w) && b < Pow10(w)
    ensures LexLess(ZeroPad(a, w) + ([sep] + x), ZeroPad(b, w) + ([sep] + y))
        <==> a < b || (a == b && LexLess(x, y))
  {
    ZeroPadOrder(a, b, w);
    ZeroPadLength(a, w);
    ZeroPadLength(b, w);
    LexLessConcat(ZeroPad(a, w), ZeroPad(b, w), [sep] + x, [sep] + y);
    LexLessConcat([sep], [sep], x, y);
  }

  // ----- The text orders as the instants do ------------------------------------

  predicate StampBefore(a: Stamp, b: Stamp) {
    || Before(a.date, b.date)
    || (a.date == b.date && ClockBefore(a, b))
  }

  predicate ClockBefore(a: Stamp, b: Stamp) {
    || a.hour < b.hour
    || (a.hour == b.hour && a.minute < b.minute)
    || (a.hour == b.hour && a.minute == b.minute && a.second < b.second)
    || (a.hour == b.hour && a.minute == b.minute && a.second == b.second && a.milli < b.milli)
  }

  predicate ValidStamp(s: Stamp) {
    && IsDate(s.date) && 0 <= s.date.year
    && s.hour < 24 && s.minute < 60 && s.second < 60 && s.milli < 1000
  }

  lemma ClockTextOrder(a: Stamp, b: Stamp)
    requires ValidStamp(a) && ValidStamp(b)
    ensures LexLess(ClockText(a), ClockText(b)) <==> ClockBefore(a, b)
  {
    assert Pow10(2) == 100 && Pow10(3) == 1000;
    var a3, b3 := ZeroPad(a.milli, 3) + "Z", ZeroPad(b.milli, 3) + "Z";
    var a2, b2 := ZeroPad(a.second, 2) + ("." + a3), ZeroPad(b.second, 2) + ("." + b3);
    var a1, b1 := ZeroPad(a.minute, 2) + (":" + a2), ZeroPad(b.minute, 2) + (":" + b2);
    FieldOrder(a.hour, b.hour, 2, ':', a1, b1);
    FieldOrder(a.minute, b.minute, 2, ':', a2, b2);
    FieldOrder(a.second, b.second, 2, '.', a3, b3);
    FieldOrder(a.milli, b.milli, 3, 'Z', "", "");
    assert "Z" + "" == "Z";
  }

  lemma {:induction false} ZeroPadDigits(n: nat, w: nat)
    ensures ZeroPad(n, w) != "" && forall i :: 0 <= i < |ZeroPad(n, w)| ==> '0' <= ZeroPad(n, w)[i] <= '9'
    decreases n, w
  {
    if !(n < 10 && w <= 1) {
      ZeroPadDigits(n / 10, if w == 0 then 0 else w - 1);
    }
  }

  /** A number that outgrows its width is padded to the width it has. */
  lemma {:induction false} ZeroPadWidens(n: nat, w: nat)
    ensures |ZeroPad(n, w)| >= w
    ensures ZeroPad(n, |ZeroPad(n, w)|) == ZeroPad(n, w)
    decreases n, w
  {
    if !(n < 10 && w <= 1) {
      ZeroPadWidens(n / 10, if w == 0 then 0 else w - 1);
      ZeroPadDigits(n / 10, if w == 0 then 0 else w - 1);
    }
  }

  lemma DayTextLength(s: Stamp)
    requires ValidStamp(s)
    ensures |DayText(s)| == 19
  {
    assert Pow10(2) == 100 && Pow10(3) == 1000;
    ZeroPadLength(s.date.month, 2);
    ZeroPadLength(s.date.day, 2);
    ZeroPadLength(s.hour, 2);
    ZeroPadLength(s.minute, 2);
    ZeroPadLength(s.second, 2);
    ZeroPadLength(s.milli, 3);
  }

  lemma DayTextOrder(a: Stamp, b: Stamp)
    requires ValidStamp(a) && ValidStamp(b)
    ensures LexLess(DayText(a), DayText(b)) <==>
      a.date.month < b.date.month
      || (a.date.month == b.date.month && a.date.day < b.date.day)
      || (a.date.month == b.date.month && a.date.day == b.date.day && ClockBefore(a, b))
  {
    assert Pow10(2) == 100;
    ClockTextOrder(a, b);
    var a1, b1 := ZeroPad(a.date.day, 2) + ("T" + ClockText(a)), ZeroPad(b.date.day, 2) + ("T" + ClockText(b));
    FieldOrder(a.date.month, b.date.month, 2, '-', a1, b1);
    FieldOrder(a.date.day, b.date.day, 2, 'T', ClockText(a), ClockText(b));
  }

  /** Texts whose years have equally many digits sort as the stamps do. */
  lemma StampTextOrder(a: Stamp, b: Stamp)
    requires ValidStamp(a) && ValidStamp(b) && |ZeroPad(a.date.year, 4)| == |ZeroPad(b.date.year, 4)|
    ensures LexLess(StampText(a), StampText(b)) <==> StampBefore(a, b)
  {
    var w := |ZeroPad(a.date.year, 4)|;
    DayTextOrder(a, b);
    ZeroPadWidens(a.date.year, 4);
    ZeroPadWidens(b.date.year, 4);
    ZeroPadLength(a.date.year, w);
    ZeroPadLength(b.date.year, w);
    FieldOrder(a.date.year, b.date.year, w, '-', DayText(a), DayText(b));
  }

  /** Of two digit strings of different lengths, followed by a hyphen, what comes after
      the hyphen does not matter. */
  lemma {:induction false} HyphenDecides(p: string, q: string, x: string, y: string)
    requires |p| != |q| && (forall i :: 0 <= i < |p| ==> p[i] >= '0') && (forall i :: 0 <= i < |q| ==> q[i] >= '0')
    ensures LexLess(p + ("-" + x), q + ("-" + y)) <==> LexLess(p + "-", q + "-")
  {
    if p != "" && q != "" {
      HyphenDecides(p[1..], q[1..], x, y);
      assert (p + ("-" + x))[1..] == p[1..] + ("-" + x) && (q + ("-" + y))[1..] == q[1..] + ("-" + y);
      assert (p + "-")[1..] == p[1..] + "-" && (q + "-")[1..] == q[1..] + "-";
    } else if p == "" {
      assert (p + ("-" + x))[0] == '-' && (p + "-")[0] == '-';
      assert (q + ("-" + y))[0] == q[0] && (q + "-")[0] == q[0];
    } else {
      assert (q + ("-" + y))[0] == '-' && (q + "-")[0] == '-';
      assert (p + ("-" + x))[0] == p[0] && (p + "-")[0] == p[0];
    }
  }

  lemma StampOfIsOrdered(t: nat, u: nat)
    requires t / NANOS_PER_MILLI < u / NANOS_PER_MILLI
    ensures StampBefore(StampOf(t), StampOf(u))
  {
    var s, v := t / NANOS_PER_SEC, u / NANOS_PER_SEC;
    MillisSplit(t);
    MillisSplit(u);
    var d, e := s / 86_400, v / 86_400;
    if d < e {
      DaysAreOrdered(d, e);
    } else {
      assert d == e;
      if s < v {
        ClockIsOrdered(s % 86_400, v % 86_400);
      }
    }
  }

  lemma MillisSplit(t: nat)
    ensures t / NANOS_PER_MILLI == t / NANOS_PER_SEC * 1000 + t % NANOS_PER_SEC / NANOS_PER_MILLI
    ensures t % NANOS_PER_SEC / NANOS_PER_MILLI < 1000
  {
  }

  lemma ClockIsOrdered(s: nat, v: nat)
    requires s < v < 86_400
    ensures
      || s / 3_600 < v / 3_600
      || (s / 3_600 == v / 3_600 && s % 3_600 / 60 < v % 3_600 / 60)
      || (s / 3_600 == v / 3_600 && s % 3_600 / 60 == v % 3_600 / 60 && s % 60 < v % 60)
  {
    assert s == s / 3_600 * 3_600 + s % 3_600 / 60 * 60 + s % 60;
    assert v == v / 3_600 * 3_600 + v % 3_600 / 60 * 60 + v % 60;
  }

  lemma DaysAreOrdered(d: nat, e: nat)
    requires d < e
    ensures Before(CivilFromDays(d), CivilFromDays(e))
  {
    CivilFromDaysIsTheCalendar(d);
    CivilFromDaysIsTheCalendar(e);
    var a, b := CivilFromDays(d), CivilFromDays(e);
    CivilFromDaysIsABijection(d, a);
    CivilFromDaysIsABijection(e, b);
    if Before(b, a) {
      DayNumberIsStrictlyMonotone(b, a);
    }
  }

  lemma StampOfIsValid(t: nat)
    ensures ValidStamp(StampOf(t))
  {
    CivilFromDaysIsTheCalendar(t / NANOS_PER_SEC / 86_400);
    MillisSplit(t);
  }

  lemma YearHasFourDigits(t: nat)
    ensures StampOf(t).date.year <= 9999 <==> t < YEAR_10000
  {
    var d := t / NANOS_PER_SEC / 86_400;
    EndOf9999();
    if t < YEAR_10000 {
      assert d <= 2_932_896;
      if d < 2_932_896 {
        DaysAreOrdered(d, 2_932_896);
      }
    } else {
      assert d >= 2_932_897;
      if d > 2_932_897 {
        DaysAreOrdered(2_932_897, d);
      }
    }
  }

  function YearText(t: nat): string {
    StampOfIsValid(t);
    ZeroPad(StampOf(t).date.year, 4)
  }

  lemma TextIsYearAndDay(t: nat)
    ensures SystemTimeToIso8601(t).Some? && StampOf(t).date.month >= 0 && StampOf(t).date.day >= 0
    ensures SystemTimeToIso8601(t).value == YearText(t) + ("-" + DayText(StampOf(t)))
    ensures |SystemTimeToIso8601(t).value| == |YearText(t)| + 20
  {
    StampOfIsValid(t);
    DayTextLength(StampOf(t));
  }

  lemma EqualWidthsSort(t: nat, u: nat)
    requires |YearText(t)| == |YearText(u)|
    ensures LexLess(SystemTimeToIso8601(t).value, SystemTimeToIso8601(u).value) <==>
      t / NANOS_PER_MILLI < u / NANOS_PER_MILLI
  {
    StampOfIsValid(t);
    StampOfIsValid(u);
    StampTextOrder(StampOf(t), StampOf(u));
    StampOrder(t, u);
  }

  lemma StampOrder(t: nat, u: nat)
    ensures StampBefore(StampOf(t), StampOf(u)) <==> t / NANOS_PER_MILLI < u / NANOS_PER_MILLI
  {
    if t / NANOS_PER_MILLI < u / NANOS_PER_MILLI {
      StampOfIsOrdered(t, u);
    } else if u / NANOS_PER_MILLI < t / NANOS_PER_MILLI {
      StampOfIsOrdered(u, t);
      NotBothBefore(StampOf(t), StampOf(u));
    } else {
      SameMillisSameStamp(t, u);
      NotBothBefore(StampOf(t), StampOf(u));
    }
  }

  lemma NotBothBefore(a: Stamp, b: Stamp)
    ensures !(StampBefore(a, b) && StampBefore(b, a))
  {
  }

  /** For all instants from the epoch on: texts of equal length sort exactly as the
      instants do, at the millisecond resolution the text keeps; of texts of different
      lengths the years alone decide, as texts; and a text names its millisecond. */
  lemma IsoTextOrder(t: nat, u: nat)
    ensures
      var a, b := SystemTimeToIso8601(t).value, SystemTimeToIso8601(u).value;
      && (|a| == |b| ==> (LexLess(a, b) <==> t / NANOS_PER_MILLI < u / NANOS_PER_MILLI))
      && (|a| != |b| ==> (LexLess(a, b) <==> LexLess(YearText(t) + "-", YearText(u) + "-")))
      && (a == b <==> t / NANOS_PER_MILLI == u / NANOS_PER_MILLI)
  {
    var a, b := SystemTimeToIso8601(t).value, SystemTimeToIso8601(u).value;
    TextIsYearAndDay(t);
    TextIsYearAndDay(u);
    if |a| == |b| {
      EqualWidthsSort(t, u);
      EqualWidthsSort(u, t);
      LexLessIsIrreflexive(a);
    } else {
      StampOfIsValid(t);
      StampOfIsValid(u);
      ZeroPadDigits(StampOf(t).date.year, 4);
      ZeroPadDigits(StampOf(u).date.year, 4);
      HyphenDecides(YearText(t), YearText(u), DayText(StampOf(t)), DayText(StampOf(u)));
    }
    if t / NANOS_PER_MILLI == u / NANOS_PER_MILLI {
      SameMillisSameStamp(t, u);
    }
  }

  predicate SortRight(t: nat, u: nat) {
    LexLess(SystemTimeToIso8601(t).value, SystemTimeToIso8601(u).value) <==> t / NANOS_PER_MILLI < u / NANOS_PER_MILLI
  }

  lemma YearTextWidth(t: nat)
    ensures |YearText(t)| >= 4 && (|YearText(t)| == 4 <==> t < YEAR_10000)
  {
    YearHasFourDigits(t);
    StampOfIsValid(t);
    assert Pow10(4) == 10000;
    ZeroPadLength(StampOf(t).date.year, 4);
  }

  /** All texts of instants before `limit` sort as the instants do if and only if `limit`
      is not after the beginning of the year 10000. */
  lemma IsoTextsSortExactlyUpTo(limit: nat)
    ensures limit <= YEAR_10000 <==> forall t: nat, u: nat | t < limit && u < limit :: SortRight(t, u)
  {
    if limit <= YEAR_10000 {
      forall t: nat, u: nat | t < limit && u < limit ensures SortRight(t, u) {
        YearTextWidth(t);
        YearTextWidth(u);
        EqualWidthsSort(t, u);
      }
    } else {
      var u := YEAR_10000;
      var t := u - NANOS_PER_MILLI;
      IsoTextOrderEndsWith9999();
      LexLessIsAsymmetric(SystemTimeToIso8601(u).value, SystemTimeToIso8601(t).value);
      assert !SortRight(t, u);
    }
  }

  lemma {:induction false} LexLessIsAsymmetric(a: string, b: string)
    requires LexLess(a, b)
    ensures !LexLess(b, a)
  {
    if a != "" && b != "" && a[0] == b[0] {
      LexLessIsAsymmetric(a[1..], b[1..]);
    }
  }

  lemma SameMillisSameStamp(t: nat, u: nat)
    requires t / NANOS_PER_MILLI == u / NANOS_PER_MILLI
    ensures StampOf(t) == StampOf(u)
  {
    MillisSplit(t);
    MillisSplit(u);
    SplitIsUnique(t / NANOS_PER_SEC, t % NANOS_PER_SEC / NANOS_PER_MILLI,
                  u / NANOS_PER_SEC, u % NANOS_PER_SEC / NANOS_PER_MILLI);
  }

  lemma SplitIsUnique(secs: nat, millis: nat, secs': nat, millis': nat)
    requires secs * 1000 + millis == secs' * 1000 + millis' && millis < 1000 && millis' < 1000
    ensures secs == secs' && millis == millis'
  {
  }

  lemma LexLessIsIrreflexive(a: string)
    ensures !LexLess(a, a)
  {
  }

  /** The text is 24 characters long exactly while the year has four digits. */
  lemma IsoTextWidth(t: nat)
    ensures |SystemTimeToIso8601(t).value| == 24 <==> t < YEAR_10000
  {
    TextIsYearAndDay(t);
    YearTextWidth(t);
  }

  /** Across the turn of the year 10000 the order is wrong: its first instant sorts
      before the last millisecond of 9999. */
  lemma IsoTextOrderEndsWith9999()
    ensures
      var u := YEAR_10000;
      var t := u - NANOS_PER_MILLI;
      && StampOf(t).date.year == 9999 && StampOf(u).date.year == 10_000
      && LexLess(SystemTimeToIso8601(u).value, SystemTimeToIso8601(t).value)
  {
    var u := YEAR_10000;
    var t := u - NANOS_PER_MILLI;
    LastDay(t);
    FirstDay(u);
    NinesAndTens(SystemTimeToIso8601(t).value, SystemTimeToIso8601(u).value);
  }

  lemma LastDay(t: nat)
    requires t / NANOS_PER_SEC / 86_400 == 2_932_896
    ensures StampOf(t).date.year == 9999 && SystemTimeToIso8601(t).value[0] == '9'
  {
    EndOf9999();
    LeadingDigit(9999, 4);
    LeadingDigit(999, 3);
    LeadingDigit(99, 2);
    TextStartsWithYear(t);
  }

  lemma FirstDay(u: nat)
    requires u / NANOS_PER_SEC / 86_400 == 2_932_897
    ensures StampOf(u).date.year == 10_000 && SystemTimeToIso8601(u).value[0] == '1'
  {
    EndOf9999();
    FiveDigits();
    TextStartsWithYear(u);
  }

  lemma FiveDigits()
    ensures ZeroPad(10_000, 4) != "" && ZeroPad(10_000, 4)[0] == '1'
  {
    LeadingDigit(10_000, 4);
    LeadingDigit(1000, 3);
    LeadingDigit(100, 2);
    LeadingDigit(10, 1);
  }

  lemma EndOf9999()
    ensures CivilFromDays(2_932_896) == Date(9999, 12, 31) && CivilFromDays(2_932_897) == Date(10_000, 1, 1)
  {
    assert MarchStart(9999) == 3_652_059;
    MarchYearFound(2_932_896, 9999, 305);
    MarchYearFound(2_932_897, 9999, 306);
  }

  lemma LeadingDigit(n: nat, w: nat)
    requires w > 1 || n >= 10
    ensures ZeroPad(n / 10, if w == 0 then 0 else w - 1) != ""
    ensures ZeroPad(n, w) != "" && ZeroPad(n, w)[0] == ZeroPad(n / 10, if w == 0 then 0 else w - 1)[0]
  {
    var rest := ZeroPad(n / 10, if w == 0 then 0 else w - 1);
    assert rest != "";
  }

  lemma TextStartsWithYear(t: nat)
    ensures var year := StampOf(t).date.year;
      year >= 0 && ZeroPad(year, 4) != "" && SystemTimeToIso8601(t).value != ""
      && SystemTimeToIso8601(t).value[0] == ZeroPad(year, 4)[0]
  {
    CivilFromDaysIsTheCalendar(t / NANOS_PER_SEC / 86_400);
    ZeroPadLength(StampOf(t).date.year, 4);
  }

  lemma NinesAndTens(nines: string, tens: string)
    requires nines != "" && tens != "" && nines[0] == '9' && tens[0] == '1'
    ensures LexLess(tens, nines)
  {
  }

  // ----- Reading the text back ---------------------------------------------------------

  /** The number that a row of decimal digits stands for. */
  function NumberOf(s: string): int {
    if s == "" then 0 else NumberOf(s[..|s| - 1]) * 10 + (s[|s| - 1] as int - '0' as int)
  }

  lemma {:induction false} NumberOfZeroPad(n: nat, w: nat)
    ensures NumberOf(ZeroPad(n, w)) == n
    decreases n, w
  {
    if n < 10 && w <= 1 {
      assert [Digit(n)][..0] == "";
    } else {
      var w' := if w == 0 then 0 else w - 1;
      NumberOfZeroPad(n / 10, w');
      assert (ZeroPad(n / 10, w') + [Digit(n % 10)])[..|ZeroPad(n / 10, w')|] == ZeroPad(n / 10, w');
    }
  }

  /** At position `k` of `s` stands the field, then the separator, then the rest. */
  lemma FieldAt(s: string, k: nat, field: string, sep: char, rest: string)
    requires k <= |s| && s[k..] == field + ([sep] + rest)
    ensures k + |field| < |s|
    ensures s[k..k + |field|] == field && s[k + |field|] == sep && s[k + |field| + 1..] == rest
  {
    assert s[k..][..|field|] == s[k..k + |field|];
    assert s[k..][|field|] == s[k + |field|];
    assert s[k..][|field| + 1..] == s[k + |field| + 1..];
  }

  lemma TwoDigits(n: nat)
    requires n < 100
    ensures |ZeroPad(n, 2)| == 2 && NumberOf(ZeroPad(n, 2)) == n
  {
    assert Pow10(2) == 100;
    ZeroPadLength(n, 2);
    NumberOfZeroPad(n, 2);
  }

  lemma ClockFields(s: string, k: nat, stamp: Stamp)
    requires ValidStamp(stamp) && k <= |s| && s[k..] == ClockText(stamp)
    ensures |s| == k + 13 && s[k + 2] == s[k + 5] == ':' && s[k + 8] == '.' && s[k + 12] == 'Z'
    ensures NumberOf(s[k..k + 2]) == stamp.hour && NumberOf(s[k + 3..k + 5]) == stamp.minute
    ensures NumberOf(s[k + 6..k + 8]) == stamp.second && NumberOf(s[k + 9..k + 12]) == stamp.milli
  {
    assert Pow10(3) == 1000;
    var a3 := ZeroPad(stamp.milli, 3) + "Z";
    var a2 := ZeroPad(stamp.second, 2) + ("." + a3);
    var a1 := ZeroPad(stamp.minute, 2) + (":" + a2);
    TwoDigits(stamp.hour);
    TwoDigits(stamp.minute);
    TwoDigits(stamp.second);
    ZeroPadLength(stamp.milli, 3);
    NumberOfZeroPad(stamp.milli, 3);
    FieldAt(s, k, ZeroPad(stamp.hour, 2), ':', a1);
    FieldAt(s, k + 3, ZeroPad(stamp.minute, 2), ':', a2);
    FieldAt(s, k + 6, ZeroPad(stamp.second, 2), '.', a3);
    assert "Z" + "" == "Z";
    FieldAt(s, k + 9, ZeroPad(stamp.milli, 3), 'Z', "");
  }

  lemma StampFields(s: string, stamp: Stamp) returns (w: nat)
    requires ValidStamp(stamp) && s == StampText(stamp)
    ensures w == |ZeroPad(stamp.date.year, 4)| && |s| == w + 20
    ensures s[w] == s[w + 3] == '-' && s[w + 6] == 'T'
    ensures NumberOf(s[..w]) == stamp.date.year
    ensures NumberOf(s[w + 1..w + 3]) == stamp.date.month && NumberOf(s[w + 4..w + 6]) == stamp.date.day
    ensures s[w + 7..] == ClockText(stamp)
  {
    w := |ZeroPad(stamp.date.year, 4)|;
    var day := ZeroPad(stamp.date.day, 2) + ("T" + ClockText(stamp));
    assert s[0..] == s;
    FieldAt(s, 0, ZeroPad(stamp.date.year, 4), '-', DayText(stamp));
    NumberOfZeroPad(stamp.date.year, 4);
    TwoDigits(stamp.date.month);
    TwoDigits(stamp.date.day);
    FieldAt(s, w + 1, ZeroPad(stamp.date.month, 2), '-', day);
    FieldAt(s, w + 4, ZeroPad(stamp.date.day, 2), 'T', ClockText(stamp));
    DayTextLength(stamp);
    assert s[0..w] == s[..w];
  }

  /** The text can be read back: around the separators of ISO 8601 stand the numbers of a
      date and a time of day, and together they are the instant, to the millisecond. */
  lemma IsoTextReadsBack(t: nat)
    ensures
      var s := SystemTimeToIso8601(t).value;
      var w := |s| - 20;
      && w >= 4
      && s[w] == s[w + 3] == '-' && s[w + 6] == 'T' && s[w + 9] == s[w + 12] == ':' && s[w + 15] == '.'
      && s[w + 19] == 'Z'
      && var date := Date(NumberOf(s[..w]), NumberOf(s[w + 1..w + 3]), NumberOf(s[w + 4..w + 6]));
         var hour, minute := NumberOf(s[w + 7..w + 9]), NumberOf(s[w + 10..w + 12]);
         var second, milli := NumberOf(s[w + 13..w + 15]), NumberOf(s[w + 16..w + 19]);
         && IsDate(date) && 0 <= hour < 24 && 0 <= minute < 60 && 0 <= second < 60 && 0 <= milli < 1000
         && (((DayNumber(date) * 24 + hour) * 60 + minute) * 60 + second) * 1000 + milli == t / NANOS_PER_MILLI
  {
    var s, stamp := SystemTimeToIso8601(t).value, StampOf(t);
    StampOfIsValid(t);
    var w := StampFields(s, stamp);
    ClockFields(s, w + 7, stamp);
    ZeroPadWidens(stamp.date.year, 4);
    StampIsTheInstant(t);
  }

  lemma StampIsTheInstant(t: nat)
    ensures var s := StampOf(t);
      (((DayNumber(s.date) * 24 + s.hour) * 60 + s.minute) * 60 + s.second) * 1000 + s.milli == t / NANOS_PER_MILLI
  {
    var secs := t / NANOS_PER_SEC;
    StampIsTheSecond(secs, t % NANOS_PER_SEC / NANOS_PER_MILLI);
    MillisSplit(t);
  }

  lemma StampIsTheSecond(secs: nat, millis: nat)
    ensures var s := StampAt(secs, millis);
      ((DayNumber(s.date) * 24 + s.hour) * 60 + s.minute) * 60 + s.second == secs && s.milli == millis
  {
    CivilFromDaysIsTheCalendar(secs / 86_400);
    CivilFromDaysIsABijection(secs / 86_400, CivilFromDays(secs / 86_400));
    SecondsOfDay(secs);
  }

  lemma SecondsOfDay(secs: nat)
    ensures var rest := secs % 86_400;
      ((secs / 86_400 * 24 + rest / 3_600) * 60 + rest % 3_600 / 60) * 60 + rest % 60 == secs
  {
    var rest := secs % 86_400;
    assert rest == rest / 3_600 * 3_600 + rest % 3_600 / 60 * 60 + rest % 60;
  }
}
