/** Proleptic Gregorian day numbers, as section 21.4.1 of ECMA-262 defines them:
    day 0 is 1970-01-01. */
module Calendar {
  import opened Common

  predicate Leap(y: int) { y % 4 == 0 && (y % 100 != 0 || y % 400 == 0) }

  function DaysInYear(y: int): int { if Leap(y) then 366 else 365 }

  /** First day number of year y, counted year by year from 1970. */
  function DayFromYear(y: int): int
    decreases if y < 1970 then 1970 - y else y - 1970
  {
    if y == 1970 then 0
    else if y > 1970 then DayFromYear(y - 1) + DaysInYear(y - 1)
    else DayFromYear(y + 1) - DaysInYear(y)
  }

  function DaysInMonth(y: int, m: int): int
    requires 1 <= m <= 12
  {
    if m == 2 then (if Leap(y) then 29 else 28)
    else if m == 4 || m == 6 || m == 9 || m == 11 then 30 else 31
  }

  /** Days of the year before the first of month m. */
  function DaysBefore(y: int, m: int): int
    requires 1 <= m <= 12
  {
    (if m == 1 then 0 else if m == 2 then 31 else if m == 3 then 59 else if m == 4 then 90
     else if m == 5 then 120 else if m == 6 then 151 else if m == 7 then 181 else if m == 8 then 212
     else if m == 9 then 243 else if m == 10 then 273 else if m == 11 then 304 else 334)
    + if m > 2 && Leap(y) then 1 else 0
  }

  datatype Civil = Civil(y: int, m: int, d: int) {
    predicate Valid() { 1 <= m <= 12 && 1 <= d <= DaysInMonth(y, m) }
  }

  /** The day number of a date, which may overflow its month. */
  function DayAt(y: int, m: int, d: int): int
    requires 1 <= m <= 12
  {
    DayFromYear(y) + DaysBefore(y, m) + d - 1
  }

  /** MakeDay: a zero-based month beyond the year carries over, as Date.UTC allows. */
  function MakeDay(year: int, month: int, date: int): int {
    DayAt(year + month / 12, month % 12 + 1, date)
  }

  /** The year whose days include `day`, searching from year y. */
  function YearFrom(day: int, y: int): (r: int)
    ensures DayFromYear(r) <= day < DayFromYear(r + 1)
    decreases if day < DayFromYear(y) then DayFromYear(y) - day else day - DayFromYear(y)
  {
    YearLength(y);
    YearLength(y - 1);
    if day < DayFromYear(y) then
      if day < DayFromYear(y - 1) then YearFrom(day, y - 1) else y - 1
    else if day < DayFromYear(y + 1) then y
    else YearFrom(day, y + 1)
  }

  /** The month holding day `n` (from 0) of year y, searching from month m. */
  function MonthFrom(y: int, n: int, m: int): (r: int)
    requires 1 <= m <= 12 && DaysBefore(y, m) <= n < DaysInYear(y)
    ensures 1 <= r <= 12 && DaysBefore(y, r) <= n < DaysBefore(y, r) + DaysInMonth(y, r)
    decreases 12 - m
  {
    if n < DaysBefore(y, m) + DaysInMonth(y, m) then m else MonthFrom(y, n, m + 1)
  }

  /** Year, month and date of a day number. */
  function CivilOf(day: int): (c: Civil)
    ensures c.Valid() && DayAt(c.y, c.m, c.d) == day
  {
    var y := YearFrom(day, 1970);
    YearLength(y);
    var n := day - DayFromYear(y);
    var m := MonthFrom(y, n, 1);
    Civil(y, m, n - DaysBefore(y, m) + 1)
  }

  lemma YearLength(y: int)
    ensures DayFromYear(y + 1) == DayFromYear(y) + DaysInYear(y)
  {}

  /** The closed form of DayFromYear that section 21.4.1.3 of ECMA-262 gives. */
  lemma {:induction false} EcmaDayFromYear(y: int)
    ensures DayFromYear(y) == 365 * (y - 1970) + (y - 1969) / 4 - (y - 1901) / 100 + (y - 1601) / 400
    decreases if y < 1970 then 1970 - y else y - 1970
  {
    if y > 1970 {
      EcmaDayFromYear(y - 1);
      ClosedFormStep(y - 1);
    } else if y < 1970 {
      EcmaDayFromYear(y + 1);
      ClosedFormStep(y);
    }
  }

  lemma ClosedFormStep(y: int)
    ensures (y - 1968) / 4 - (y - 1969) / 4 == if y % 4 == 0 then 1 else 0
    ensures (y - 1900) / 100 - (y - 1901) / 100 == if y % 100 == 0 then 1 else 0
    ensures (y - 1600) / 400 - (y - 1601) / 400 == if y % 400 == 0 then 1 else 0
    ensures y % 400 == 0 ==> y % 100 == 0
    ensures y % 100 == 0 ==> y % 4 == 0
  {
    QuotientStep(y - 1969, 4);
    QuotientStep(y - 1901, 100);
    QuotientStep(y - 1601, 400);
    assert (y - 1968) % 4 == 0 <==> y % 4 == 0;
    assert (y - 1900) % 100 == 0 <==> y % 100 == 0;
    assert (y - 1600) % 400 == 0 <==> y % 400 == 0;
  }

  /** A quotient steps up exactly at the multiples. */
  lemma QuotientStep(n: int, d: int)
    requires d > 0
    ensures (n + 1) / d - n / d == if (n + 1) % d == 0 then 1 else 0
  {
    var q, r := n / d, n % d;
    assert n == q * d + r;
    if r == d - 1 {
      assert n + 1 == (q + 1) * d;
      QuotientIs(n + 1, d, q + 1, 0);
    } else {
      QuotientIs(n + 1, d, q, r + 1);
    }
  }

  lemma QuotientIs(n: int, d: int, q: int, r: int)
    requires d > 0 && 0 <= r < d && n == q * d + r
    ensures n / d == q && n % d == r
  {
    var p, s := n / d, n % d;
    assert n == p * d + s;
    if p < q { MulLess(p, q, d); }
    if q < p { MulLess(q, p, d); }
  }

  lemma {:induction false} YearsOrdered(y: int, z: int)
    requires y <= z
    ensures DayFromYear(y) <= DayFromYear(z)
    decreases z - y
  {
    if y < z {
      YearLength(y);
      YearsOrdered(y + 1, z);
    }
  }

  lemma MonthsOrdered(y: int, m: int, n: int)
    requires 1 <= m < n <= 12
    ensures DaysBefore(y, m) + DaysInMonth(y, m) <= DaysBefore(y, n)
  {}

  lemma WithinYear(c: Civil)
    requires c.Valid()
    ensures DayFromYear(c.y) <= DayAt(c.y, c.m, c.d) < DayFromYear(c.y + 1)
  {
    YearLength(c.y);
  }

  /** Days are ordered as years are. */
  lemma YearsOfDays(day: int, y: int, e: int, z: int)
    requires DayFromYear(y) <= day < DayFromYear(y + 1)
    requires DayFromYear(z) <= e < DayFromYear(z + 1)
    requires day <= e
    ensures y <= z
  {
    if z < y { YearsOrdered(z + 1, y); }
  }

  lemma SameYearUnique(y: int, m: int, d: int, n: int, e: int)
    requires Civil(y, m, d).Valid() && Civil(y, n, e).Valid()
    requires DaysBefore(y, m) + d == DaysBefore(y, n) + e
    ensures m == n && d == e
  {
    if m < n { MonthsOrdered(y, m, n); }
    if n < m { MonthsOrdered(y, n, m); }
  }

  /** Two valid civil dates with one day number are the same date. */
  lemma CivilUnique(a: Civil, b: Civil)
    requires a.Valid() && b.Valid() && DayAt(a.y, a.m, a.d) == DayAt(b.y, b.m, b.d)
    ensures a == b
  {
    WithinYear(a);
    WithinYear(b);
    var day := DayAt(a.y, a.m, a.d);
    YearsOfDays(day, a.y, day, b.y);
    YearsOfDays(day, b.y, day, a.y);
    SameYearUnique(a.y, a.m, a.d, b.m, b.d);
  }
}

/** Business-day arithmetic (src/portal/analytics/scope/business-day.ts). Instants are
    milliseconds since the epoch; a function that throws returns None. */
module BusinessDay {
  import opened Common
  import opened Calendar
  import opened Decimal

  const MANILA_OFFSET_MINUTES := 480
  const MINUTE_MS := 60000
  const DAY_MS := 86400000

  /** /^(\d{4})-(\d{2})-(\d{2})$/ */
  predicate DateShaped(s: string) {
    && |s| == 10 && s[4] == '-' && s[7] == '-'
    && AllDigits(s[..4]) && AllDigits(s[5..7]) && AllDigits(s[8..])
  }

  function ParseDate(s: string): Option<Civil> {
    if DateShaped(s) then Some(Civil(Value(s[..4]), Value(s[5..7]), Value(s[8..]))) else None
  }

  /** Date.UTC reads a year 0..99 as 19xx. */
  function UtcYear(y: int): int { if 0 <= y <= 99 then 1900 + y else y }

  function DayNumber(c: Civil): int { MakeDay(UtcYear(c.y), c.m - 1, c.d) }

  function ShiftMs(dayStart: int): int { (MANILA_OFFSET_MINUTES - dayStart) * MINUTE_MS }

  function DayStartUtc(date: string, dayStart: int): Option<int> {
    var c := ParseDate(date);
    if c.None? then None else Some(DayNumber(c.value) * DAY_MS - ShiftMs(dayStart))
  }

  /** toISOString().slice(0, 10): six signed year digits outside 0..9999. */
  function DateText(day: int): (s: string)
    ensures |s| == 10
  {
    CivilText(CivilOf(day))
  }

  function CivilText(c: Civil): (s: string)
    requires c.Valid()
    ensures |s| == 10
  {
    if 0 <= c.y <= 9999 then Pad(c.y, 4) + "-" + Pad(c.m, 2) + "-" + Pad(c.d, 2)
    else (if c.y < 0 then "-" else "+") + Pad(Abs(c.y), 6) + "-" + Pad(c.m, 2)
  }

  /** The business day number an instant falls on. */
  function DayIndex(instant: int, dayStart: int): int { (instant + ShiftMs(dayStart)) / DAY_MS }

  function BusinessDayOf(instant: int, dayStart: int): string { DateText(DayIndex(instant, dayStart)) }

  /** n consecutive names from day number `first`. */
  function Names(name: int -> string, first: int, n: nat): seq<string> {
    seq(n, i requires 0 <= i < n => name(first + i))
  }

  method BusinessDaySeries(from: string, to: string) returns (days: Option<seq<string>>)
    ensures days == SeriesOf(from, to)
  {
    var start, end := DayStartUtc(from, 0), DayStartUtc(to, 0);
    if start.None? || end.None? || end.value < start.value {
      return None;
    }
    ghost var first, last := DayNumber(ParseDate(from).value), DayNumber(ParseDate(to).value);
    var out := NamesBetween(start.value, end.value, first, last);
    days := Some(out);
  }

  /** The loop of the series: one name per day start. */
  method NamesBetween(start: int, end: int, ghost first: int, ghost last: int) returns (out: seq<string>)
    requires start == first * DAY_MS - ShiftMs(0) && end == last * DAY_MS - ShiftMs(0) && start <= end
    ensures out == Names(DateText, first, last - first + 1)
  {
    out := [];
    var t := start;
    while t <= end
      invariant t == start + |out| * DAY_MS
      invariant t <= end + DAY_MS
      invariant out == Names(DateText, first, |out|)
      decreases end - t
    {
      DayIndexIs(t, first + |out|, 0);
      out := out + [BusinessDayOf(t, 0)];
      t := t + DAY_MS;
    }
  }

  /** The series as one expression: the names of the days from `from` to `to`. */
  function SeriesOf(from: string, to: string): Option<seq<string>> {
    var a, b := ParseDate(from), ParseDate(to);
    if a.None? || b.None? || DayNumber(b.value) < DayNumber(a.value) then None
    else Some(Names(DateText, DayNumber(a.value), DayNumber(b.value) - DayNumber(a.value) + 1))
  }

  datatype Window = Window(fromUtc: int, toUtc: int) {
    predicate Contains(instant: int) { fromUtc <= instant < toUtc }
  }

  function RangeUtc(from: string, to: string, dayStart: int): Option<Window> {
    var a, b := DayStartUtc(from, dayStart), DayStartUtc(to, dayStart);
    if a.None? || b.None? || b.value < a.value then None
    else Some(Window(a.value, b.value + DAY_MS))
  }

  function PreviousPeriod(w: Window): Window {
    Window(w.fromUtc - (w.toUtc - w.fromUtc), w.fromUtc)
  }

  function AddDays(date: string, days: int): Option<string> {
    var a := DayStartUtc(date, 0);
    if a.None? then None else Some(BusinessDayOf(a.value + days * DAY_MS, 0))
  }

  /** Day n runs from its start for 24 hours, whatever the day start. */
  lemma DayIndexIs(instant: int, n: int, dayStart: int)
    ensures DayIndex(instant, dayStart) >= n <==> instant >= n * DAY_MS - ShiftMs(dayStart)
    ensures DayIndex(instant, dayStart) == n <==> 0 <= instant - (n * DAY_MS - ShiftMs(dayStart)) < DAY_MS
    ensures DayIndex(instant, dayStart) <= n <==> instant < n * DAY_MS - ShiftMs(dayStart) + DAY_MS
  {}

  // ----- Dates and their names -----

  /** A real calendar date, of the years Date.UTC takes at face value. */
  ghost predicate ValidDate(s: string) {
    DateShaped(s) && ParseDate(s).value.Valid() && 100 <= ParseDate(s).value.y
  }

  ghost function DayOfDate(s: string): int
    requires ValidDate(s)
  {
    var c := ParseDate(s).value; DayAt(c.y, c.m, c.d)
  }

  lemma StartOf(s: string, dayStart: int)
    requires ValidDate(s)
    ensures DayNumber(ParseDate(s).value) == DayOfDate(s)
    ensures DayStartUtc(s, dayStart) == Some(DayOfDate(s) * DAY_MS - ShiftMs(dayStart))
  {
    var m := ParseDate(s).value.m;
    assert (m - 1) / 12 == 0 && (m - 1) % 12 == m - 1;
  }

  /** Dates of four-digit years are read back from their text. */
  lemma TextParses(c: Civil)
    requires c.Valid() && 0 <= c.y <= 9999
    ensures ParseDate(CivilText(c)) == Some(c)
  {
    var s, y, m, d := CivilText(c), Pad(c.y, 4), Pad(c.m, 2), Pad(c.d, 2);
    assert s[..4] == y && s[5..7] == m && s[8..] == d;
    Pow10Values();
    PadValue(c.y, 4);
    PadValue(c.m, 2);
    PadValue(c.d, 2);
  }

  lemma Pow10Values()
    ensures Pow10(2) == 100 && Pow10(4) == 10000
  {
    assert Pow10(3) == 1000;
  }

  lemma ParsedText(s: string)
    requires DateShaped(s) && ParseDate(s).value.Valid()
    ensures var c := ParseDate(s).value; c.y <= 9999 && CivilText(c) == s
  {
    ValuePad(s[..4]);
    ValuePad(s[5..7]);
    ValuePad(s[8..]);
    Pow10Values();
    assert s == s[..4] + "-" + s[5..7] + "-" + s[8..];
  }

  lemma NameOfDate(s: string)
    requires ValidDate(s)
    ensures DateText(DayOfDate(s)) == s
  {
    ParsedText(s);
    CivilUnique(CivilOf(DayOfDate(s)), ParseDate(s).value);
  }

  /** No other day, in any year, is written the same way. */
  lemma NameIdentifiesDay(day: int, s: string)
    requires ValidDate(s) && DateText(day) == s
    ensures day == DayOfDate(s)
  {
    var c := CivilOf(day);
    assert IsDigit(s[..4][0]);
    assert IsDigit(s[0]);
    assert 0 <= c.y <= 9999;
    TextParses(c);
  }

  ghost predicate NamesItself(day: int) {
    ValidDate(DateText(day)) && DayOfDate(DateText(day)) == day
  }

  lemma YearBetween(c: Civil, lo: Civil, hi: Civil)
    requires c.Valid() && lo.Valid() && hi.Valid()
    requires DayAt(lo.y, lo.m, lo.d) <= DayAt(c.y, c.m, c.d) <= DayAt(hi.y, hi.m, hi.d)
    ensures lo.y <= c.y <= hi.y
  {
    WithinYear(c);
    WithinYear(lo);
    WithinYear(hi);
    YearsOfDays(DayAt(lo.y, lo.m, lo.d), lo.y, DayAt(c.y, c.m, c.d), c.y);
    YearsOfDays(DayAt(c.y, c.m, c.d), c.y, DayAt(hi.y, hi.m, hi.d), hi.y);
  }

  lemma BetweenNamesItself(day: int, from: string, to: string)
    requires ValidDate(from) && ValidDate(to) && DayOfDate(from) <= day <= DayOfDate(to)
    ensures NamesItself(day)
  {
    var c := CivilOf(day);
    ParsedText(to);
    YearBetween(c, ParseDate(from).value, ParseDate(to).value);
    TextParses(c);
  }

  /** `day` is the only day with its name. */
  ghost predicate OnlyNamesake(name: int -> string, day: int) {
    forall e :: name(e) == name(day) ==> e == day
  }

  lemma BetweenOnlyNamesake(day: int, from: string, to: string)
    requires ValidDate(from) && ValidDate(to) && DayOfDate(from) <= day <= DayOfDate(to)
    ensures OnlyNamesake(DateText, day)
  {
    BetweenNamesItself(day, from, to);
    forall e | DateText(e) == DateText(day) ensures e == day {
      NameIdentifiesDay(e, DateText(day));
    }
  }

  lemma InNames(name: int -> string, x: int, first: int, n: nat)
    requires forall d | first <= d < first + n :: OnlyNamesake(name, d)
    ensures name(x) in Names(name, first, n) <==> first <= x < first + n
  {
    var names := Names(name, first, n);
    if first <= x < first + n {
      assert names[x - first] == name(x);
    }
    if name(x) in names {
      var i :| 0 <= i < n && names[i] == name(x);
      assert OnlyNamesake(name, first + i);
    }
  }

  lemma NamesDistinct(name: int -> string, first: int, n: nat)
    requires forall d | first <= d < first + n :: OnlyNamesake(name, d)
    ensures var s := Names(name, first, n); forall i, j | 0 <= i < j < n :: s[i] != s[j]
  {
    var s := Names(name, first, n);
    forall i, j | 0 <= i < j < n ensures s[i] != s[j] {
      assert OnlyNamesake(name, first + i);
    }
  }

  // ----- Main results -----

  /** A business day starts on itself. */
  lemma StartThenDayOf(date: string, dayStart: int)
    requires ValidDate(date)
    ensures BusinessDayOf(DayStartUtc(date, dayStart).value, dayStart) == date
  {
    NameOfDate(date);
    StartOf(date, dayStart);
    DayIndexIs(DayStartUtc(date, dayStart).value, DayOfDate(date), dayStart);
  }

  /** An instant is on a business day exactly from that day's start for 24 hours. */
  lemma DayIsItsWindow(date: string, instant: int, dayStart: int)
    requires ValidDate(date)
    ensures BusinessDayOf(instant, dayStart) == date
       <==> var start := DayStartUtc(date, dayStart).value; start <= instant < start + DAY_MS
  {
    NameOfDate(date);
    StartOf(date, dayStart);
    DayIndexIs(instant, DayOfDate(date), dayStart);
    if BusinessDayOf(instant, dayStart) == date {
      NameIdentifiesDay(DayIndex(instant, dayStart), date);
    }
  }

  lemma AddDaysShifts(date: string, days: int)
    requires ValidDate(date)
    ensures AddDays(date, days) == Some(DateText(DayOfDate(date) + days))
  {
    StartOf(date, 0);
    DayIndexShifts(DayOfDate(date), days);
  }

  lemma DayIndexShifts(n: int, days: int)
    ensures DayIndex(n * DAY_MS - ShiftMs(0) + days * DAY_MS, 0) == n + days
  {
    DayIndexIs(n * DAY_MS - ShiftMs(0) + days * DAY_MS, n + days, 0);
  }

  /** Adding days names the day that many day numbers on, and no other. */
  lemma AddDaysIs(date: string, days: int, other: string)
    requires ValidDate(date) && ValidDate(other)
    ensures AddDays(date, days) == Some(other) <==> DayOfDate(other) == DayOfDate(date) + days
  {
    AddDaysShifts(date, days);
    NameOfDate(other);
    if DateText(DayOfDate(date) + days) == other {
      NameIdentifiesDay(DayOfDate(date) + days, other);
    }
  }

  /** Consecutive days abut: the day after starts exactly where the day ends. */
  lemma DaysAbut(date: string, next: string, dayStart: int)
    requires ValidDate(date) && ValidDate(next)
    ensures AddDays(date, 1) == Some(next)
       <==> DayStartUtc(next, dayStart).value == DayStartUtc(date, dayStart).value + DAY_MS
  {
    AddDaysIs(date, 1, next);
    StartOf(date, dayStart);
    StartOf(next, dayStart);
  }

  lemma SeriesIs(from: string, to: string)
    requires ValidDate(from) && ValidDate(to)
    ensures var a, b := DayOfDate(from), DayOfDate(to);
            SeriesOf(from, to) == if b < a then None else Some(Names(DateText, a, b - a + 1))
  {
    StartOf(from, 0);
    StartOf(to, 0);
  }

  lemma RangeIs(from: string, to: string, dayStart: int)
    requires ValidDate(from) && ValidDate(to)
    ensures var a, b := DayOfDate(from), DayOfDate(to);
            RangeUtc(from, to, dayStart) == if b < a then None else Some(DayWindow(a, b, dayStart))
  {
    StartOf(from, dayStart);
    StartOf(to, dayStart);
  }

  /** From the start of day a to the end of day b. */
  function DayWindow(a: int, b: int, dayStart: int): Window {
    Window(a * DAY_MS - ShiftMs(dayStart), b * DAY_MS - ShiftMs(dayStart) + DAY_MS)
  }

  lemma WindowHas(a: int, b: int, instant: int, dayStart: int)
    ensures DayWindow(a, b, dayStart).Contains(instant) <==> a <= DayIndex(instant, dayStart) <= b
  {
    DayIndexIs(instant, a, dayStart);
    DayIndexIs(instant, b, dayStart);
  }

  /** Between two dates the names of the series are told apart from every other day's. */
  lemma SeriesHas(from: string, to: string, day: int)
    requires ValidDate(from) && ValidDate(to) && DayOfDate(from) <= DayOfDate(to)
    ensures var a, b := DayOfDate(from), DayOfDate(to);
            DateText(day) in Names(DateText, a, b - a + 1) <==> a <= day <= b
  {
    var a, b := DayOfDate(from), DayOfDate(to);
    forall d | a <= d < a + (b - a + 1) ensures OnlyNamesake(DateText, d) { BetweenOnlyNamesake(d, from, to); }
    InNames(DateText, day, a, b - a + 1);
  }

  /** The window and the series describe the same days, for every instant. */
  lemma RangeMatchesSeries(from: string, to: string, instant: int, dayStart: int)
    requires ValidDate(from) && ValidDate(to)
    ensures RangeUtc(from, to, dayStart).Some? <==> SeriesOf(from, to).Some?
    ensures SeriesOf(from, to).Some? ==>
              (RangeUtc(from, to, dayStart).value.Contains(instant)
               <==> BusinessDayOf(instant, dayStart) in SeriesOf(from, to).value)
  {
    SeriesIs(from, to);
    RangeIs(from, to, dayStart);
    if DayOfDate(from) <= DayOfDate(to) {
      WindowHas(DayOfDate(from), DayOfDate(to), instant, dayStart);
      SeriesHas(from, to, DayIndex(instant, dayStart));
    }
  }

  /** `next` is the business day after `date`. */
  ghost predicate NextDay(date: string, next: string) {
    ValidDate(date) && AddDays(date, 1) == Some(next)
  }

  lemma NextDayNamed(day: int, from: string, to: string)
    requires ValidDate(from) && ValidDate(to) && DayOfDate(from) <= day <= DayOfDate(to)
    ensures NextDay(DateText(day), DateText(day + 1))
  {
    BetweenNamesItself(day, from, to);
    AddDaysShifts(DateText(day), 1);
  }

  lemma NamesAdjacent(name: int -> string, rel: (string, string) -> bool, first: int, n: nat)
    requires forall d | first <= d < first + n - 1 :: rel(name(d), name(d + 1))
    ensures var s := Names(name, first, n); forall i | 0 <= i < n - 1 :: rel(s[i], s[i + 1])
  {
    var s := Names(name, first, n);
    forall i | 0 <= i < n - 1 ensures rel(s[i], s[i + 1]) {
      assert s[i] == name(first + i) && s[i + 1] == name(first + i + 1);
    }
  }

  lemma NamesEnds(name: int -> string, first: int, last: int)
    requires first <= last
    ensures var s := Names(name, first, last - first + 1);
            |s| >= 1 && s[0] == name(first) && s[|s| - 1] == name(last)
  {}

  /** The series starts at `from` and ends at `to`. */
  lemma SeriesEnds(from: string, to: string)
    requires ValidDate(from) && ValidDate(to) && SeriesOf(from, to).Some?
    ensures var s := SeriesOf(from, to).value; |s| >= 1 && s[0] == from && s[|s| - 1] == to
  {
    SeriesIs(from, to);
    NamesEnds(DateText, DayOfDate(from), DayOfDate(to));
    NameOfDate(from);
    NameOfDate(to);
  }

  /** The series repeats nothing. */
  lemma SeriesDistinct(from: string, to: string)
    requires ValidDate(from) && ValidDate(to) && SeriesOf(from, to).Some?
    ensures var s := SeriesOf(from, to).value; forall i, j | 0 <= i < j < |s| :: s[i] != s[j]
  {
    SeriesIs(from, to);
    var a, b := DayOfDate(from), DayOfDate(to);
    forall d | a <= d < a + (b - a + 1) ensures OnlyNamesake(DateText, d) {
      BetweenOnlyNamesake(d, from, to);
    }
    NamesDistinct(DateText, a, b - a + 1);
  }

  /** The series steps by exactly one business day: it has no gap. */
  lemma SeriesGapFree(from: string, to: string)
    requires ValidDate(from) && ValidDate(to) && SeriesOf(from, to).Some?
    ensures var s := SeriesOf(from, to).value; forall i | 0 <= i < |s| - 1 :: NextDay(s[i], s[i + 1])
  {
    SeriesIs(from, to);
    var a, b := DayOfDate(from), DayOfDate(to);
    forall d | a <= d < b ensures NextDay(DateText(d), DateText(d + 1)) {
      NextDayNamed(d, from, to);
    }
    NamesAdjacent(DateText, NextDay, a, b - a + 1);
  }

  /** The comparison period is the same number of whole business days, just before. */
  lemma PreviousPeriodIsRange(from: string, to: string, before: string, last: string, dayStart: int)
    requires ValidDate(from) && ValidDate(to) && ValidDate(before) && ValidDate(last)
    requires DayOfDate(from) <= DayOfDate(to)
    requires DayOfDate(last) == DayOfDate(from) - 1
    requires DayOfDate(to) - DayOfDate(from) == DayOfDate(last) - DayOfDate(before)
    ensures RangeUtc(from, to, dayStart).Some?
    ensures RangeUtc(before, last, dayStart) == Some(PreviousPeriod(RangeUtc(from, to, dayStart).value))
  {
    RangeIs(from, to, dayStart);
    RangeIs(before, last, dayStart);
  }
}
