/** Business days in plain numbers: milliseconds, digits and the closed forms of ECMA-262. */
module DaySpec {
  import opened Common
  import opened Calendar
  import opened BusinessDay
  import opened Decimal

  /** Days before year y, by the closed form of section 21.4.1.3 of ECMA-262. */
  function YearDays(y: int): int { 365 * (y - 1970) + (y - 1969) / 4 - (y - 1901) / 100 + (y - 1601) / 400 }

  /** Days before month m of year y: 30 and 31 alternate but for February's shortfall. */
  function MonthDays(y: int, m: int): int
    requires 1 <= m <= 12
  {
    (367 * m - 362) / 12 - if m <= 2 then 0 else if YearDays(y + 1) - YearDays(y) == 366 then 1 else 2
  }

  /** A month ends where the next begins. */
  lemma MonthsAre(y: int, m: int)
    requires 1 <= m <= 12
    ensures DaysBefore(y, m) == MonthDays(y, m)
    ensures DaysInMonth(y, m) == if m == 12 then YearDays(y + 1) - YearDays(y) - MonthDays(y, 12)
                                 else MonthDays(y, m + 1) - MonthDays(y, m)
  {
    EcmaDayFromYear(y);
    EcmaDayFromYear(y + 1);
    YearLength(y);
  }

  predicate DigitAt(s: string, i: nat)
    requires i < |s|
  {
    '0' <= s[i] <= '9'
  }

  function At(s: string, i: nat): int
    requires i < |s|
  {
    s[i] as int - 48
  }

  /** Four digits, a dash, two digits, a dash, two digits. */
  predicate Dashed(s: string) {
    && |s| == 10 && s[4] == '-' && s[7] == '-'
    && DigitAt(s, 0) && DigitAt(s, 1) && DigitAt(s, 2) && DigitAt(s, 3)
    && DigitAt(s, 5) && DigitAt(s, 6) && DigitAt(s, 8) && DigitAt(s, 9)
  }

  /** The day number of a date: a year below 100 is of the 1900s, and months (from 0) past the
      year's end carry over. */
  function DayOf(year: int, months: int, date: int): int {
    var y := (if 0 <= year < 100 then 1900 + year else year) + months / 12;
    YearDays(y) + MonthDays(y, months % 12 + 1) + date - 1
  }

  /** The same of a dash-separated date, digit by digit. */
  function DateDay(s: string): int
    requires Dashed(s)
  {
    DayOf(1000 * At(s, 0) + 100 * At(s, 1) + 10 * At(s, 2) + At(s, 3), 10 * At(s, 5) + At(s, 6) - 1,
          10 * At(s, 8) + At(s, 9))
  }

  /** When the business day `s` starts: Manila is 480 minutes ahead of UTC. */
  function StartMs(s: string, dayStart: int): int
    requires Dashed(s)
  {
    DateDay(s) * 86400000 + (dayStart - 480) * 60000
  }

  lemma TwoDigits(s: string)
    requires |s| == 2 && AllDigits(s)
    ensures Value(s) == 10 * At(s, 0) + At(s, 1)
  {
    ValueSnoc("", s[0]);
    ValueSnoc(s[..1], s[1]);
    assert s == s[..1] + [s[1]] && s[..1] == "" + [s[0]];
  }

  lemma FourDigits(s: string)
    requires |s| == 4 && AllDigits(s)
    ensures Value(s) == 1000 * At(s, 0) + 100 * At(s, 1) + 10 * At(s, 2) + At(s, 3)
  {
    TwoDigits(s[..2]);
    ValueSnoc(s[..2], s[2]);
    ValueSnoc(s[..3], s[3]);
    assert s == s[..3] + [s[3]] && s[..3] == s[..2] + [s[2]];
  }

  lemma ShapedIsDashed(s: string)
    requires DateShaped(s)
    ensures Dashed(s)
  {
    assert forall i | 0 <= i < 4 :: s[i] == s[..4][i] && s[..4][i] in s[..4];
    assert forall i | 0 <= i < 2 :: s[5 + i] == s[5..7][i] && s[5..7][i] in s[5..7];
    assert forall i | 0 <= i < 2 :: s[8 + i] == s[8..][i] && s[8..][i] in s[8..];
    assert s[5] == s[5 + 0] && s[6] == s[5 + 1] && s[8] == s[8 + 0] && s[9] == s[8 + 1];
  }

  lemma DashedIsShaped(s: string)
    requires Dashed(s)
    ensures DateShaped(s)
  {
    assert s[..4] == [s[0], s[1], s[2], s[3]] && s[5..7] == [s[5], s[6]] && s[8..] == [s[8], s[9]];
  }

  lemma ParsedIs(s: string)
    requires Dashed(s)
    ensures ParseDate(s) == Some(Civil(1000 * At(s, 0) + 100 * At(s, 1) + 10 * At(s, 2) + At(s, 3),
                                       10 * At(s, 5) + At(s, 6), 10 * At(s, 8) + At(s, 9)))
  {
    DashedIsShaped(s);
    FourDigits(s[..4]);
    TwoDigits(s[5..7]);
    TwoDigits(s[8..]);
  }

  lemma DayAtIs(y: int, m: int, d: int)
    requires 1 <= m <= 12
    ensures DayAt(y, m, d) == YearDays(y) + MonthDays(y, m) + d - 1
  {
    EcmaDayFromYear(y);
    MonthsAre(y, m);
  }

  lemma DayNumberIs(c: Civil)
    ensures DayNumber(c) == DayOf(c.y, c.m - 1, c.d)
  {
    DayAtIs(UtcYear(c.y) + (c.m - 1) / 12, (c.m - 1) % 12 + 1, c.d);
  }

  lemma DateDayIs(s: string)
    requires Dashed(s)
    ensures DateShaped(s) && DayNumber(ParseDate(s).value) == DateDay(s)
  {
    DashedIsShaped(s);
    ParsedIs(s);
    DayNumberIs(ParseDate(s).value);
  }

  /** The start of a business day, for every string and every day start. */
  lemma DayStartIs(s: string, dayStart: int)
    ensures DayStartUtc(s, dayStart) == if Dashed(s) then Some(StartMs(s, dayStart)) else None
  {
    if Dashed(s) {
      DateDayIs(s);
    } else if DateShaped(s) {
      ShapedIsDashed(s);
    }
  }

  /** A business day is the 24 hours from its start, and no other instant. */
  lemma DayOfInstant(date: string, instant: int, dayStart: int)
    requires ValidDate(date)
    ensures Dashed(date)
    ensures BusinessDayOf(instant, dayStart) == date
       <==> StartMs(date, dayStart) <= instant < StartMs(date, dayStart) + 86400000
  {
    DayStartIs(date, dayStart);
    DayIsItsWindow(date, instant, dayStart);
  }

  /** The text of a year outside four digits: its sign, six digits of it, the month. */
  lemma FarYears(c: Civil)
    requires c.Valid() && !(0 <= c.y <= 9999)
    ensures var s := CivilText(c);
            && s[0] == (if c.y < 0 then '-' else '+') && s[7] == '-'
            && s[1..7] == Pad(if c.y < 0 then -c.y else c.y, 6) && s[8..] == Pad(c.m, 2)
  {}
}

/** What each report holds, sale by sale: the completed sales of the scope, their columns, and
    the milliseconds that put them in a bucket. */
module ReportSpec {
  import opened Common
  import opened Money
  import opened Calendar
  import opened BusinessDay
  import opened DaySpec
  import opened Decimal
  import opened SaleRecords
  import opened Attribution
  import opened Grouping
  import opened SalesReports
  import opened Conservation

  /** A sale of one of the business's branches, made within its window. */
  predicate Made(b: Business, s: SaleRow) { s.branch in b.branches && b.window.fromUtc <= s.createdAt < b.window.toUtc }

  type Test = (Business, SaleRow) -> bool

  function Counted(b: Business, on: Test, weight: SaleRow -> int): SaleRow -> int {
    (s: SaleRow) => if Made(b, s) && on(b, s) then weight(s) else 0
  }

  /** A column summed over the sales of every business that pass a test. */
  function SumOver(rows: seq<SaleRow>, bs: seq<Business>, on: Test, weight: SaleRow -> int): int {
    if bs == [] then 0 else SumBy(rows, Counted(bs[0], on, weight)) + SumOver(rows, bs[1..], on, weight)
  }

  function Done(on: Test): Test { (b: Business, s: SaleRow) => s.status == Completed && on(b, s) }

  function Net(s: SaleRow): int { s.subtotalC - s.discountC - s.scPwdDiscountC }
  function One(s: SaleRow): int { 1 }

  // ----- The completed rows of a scope -----

  /** One business's amount under a key. */
  lemma KeyTotalIs<K>(rows: seq<SaleRow>, b: Business, key: SaleRow -> K, weight: SaleRow -> int, k: K, on: Test,
                      column: SaleRow -> int)
    requires forall s <- rows :: Made(b, s) && s.status == Completed ==> (key(s) == k <==> on(b, s))
    requires forall s <- rows :: weight(s) == column(s)
    ensures KeyTotal(CompletedIn(rows, b), key, weight, k) == SumBy(rows, Counted(b, Done(on), column))
  {
    var p := (s: SaleRow) => InScope(s, b) && s.status.Completed?;
    SumFilter(rows, p, OnKey(key, weight, k), Counted(b, Done(on), column));
  }

  /** What every business files under a key is the column summed over the sales that belong there. */
  lemma {:induction false} FiledIs<K>(rows: seq<SaleRow>, bs: seq<Business>, key: Business -> SaleRow -> K,
                                      weight: SaleRow -> int, k: K, on: Test, column: SaleRow -> int)
    requires forall b <- bs, s <- rows :: Made(b, s) && s.status == Completed ==> (key(b)(s) == k <==> on(b, s))
    requires forall s <- rows :: weight(s) == column(s)
    ensures FiledUnder(rows, bs, key, weight, k) == SumOver(rows, bs, Done(on), column)
  {
    if bs == [] {
    } else {
      KeyTotalIs(rows, bs[0], key(bs[0]), weight, k, on, column);
      FiledIs(rows, bs[1..], key, weight, k, on, column);
    }
  }

  /** A merged bucket: the net sales and the number of the sales that belong in it. */
  ghost predicate Holds(acc: Acc, rows: seq<SaleRow>, bs: seq<Business>, on: Test) {
    acc == Acc(SumOver(rows, bs, Done(on), Net), SumOver(rows, bs, Done(on), One))
  }

  lemma BucketHolds<K>(results: seq<seq<Group<K>>>, rows: seq<SaleRow>, bs: seq<Business>,
                       key: Business -> SaleRow -> K, k: K, on: Test)
    requires Queried(results, rows, bs, key)
    requires forall b <- bs, s <- rows :: Made(b, s) && s.status == Completed ==> (key(b)(s) == k <==> on(b, s))
    ensures Holds(Carried(Concat(results), k), rows, bs, on)
  {
    BucketExact(results, rows, bs, key, k);
    FiledIs(rows, bs, key, NetSalesC, k, on, Net);
    FiledIs(rows, bs, key, Each, k, on, One);
  }

  // ----- Days, hours, weekdays -----

  /** Made within `days` days of the start of `date`, whatever hour the business's day starts. */
  predicate MadeWithin(date: string, days: int, b: Business, s: SaleRow)
    requires Dashed(date)
  {
    StartMs(date, b.dayStart) <= s.createdAt < StartMs(date, b.dayStart) + days * 86400000
  }

  function Within(date: string, days: int): Test
    requires Dashed(date)
  {
    (b: Business, s: SaleRow) => MadeWithin(date, days, b, s)
  }

  /** Heatmap: each date holds the sales made in its 24 hours. */
  lemma HeatmapDay(results: seq<seq<Group<string>>>, rows: seq<SaleRow>, bs: seq<Business>, date: string)
    requires Queried(results, rows, bs, DayKey) && ValidDate(date)
    ensures Dashed(date) && Holds(Carried(Concat(results), date), rows, bs, Within(date, 1))
  {
    DayStartIs(date, 0);
    forall b <- bs, s <- rows ensures DayKey(b)(s) == date <==> Within(date, 1)(b, s) {
      DayOfInstant(date, s.createdAt, b.dayStart);
    }
    BucketHolds(results, rows, bs, DayKey, date, Within(date, 1));
  }

  /** The hour on Manila's clocks, eight hours ahead of UTC. */
  function AtHour(h: int): Test { (b: Business, s: SaleRow) => (s.createdAt + 28800000) % 86400000 / 3600000 == h }

  lemma HourOfDay(ms: int)
    ensures ms / 3600000 % 24 == ms % 86400000 / 3600000
  {}

  /** Patterns by hour: each slot holds the sales made in that hour of Manila's day, for any
      day start. */
  lemma HourSlot(results: seq<seq<Group<int>>>, rows: seq<SaleRow>, bs: seq<Business>, h: int)
    requires Queried(results, rows, bs, HourKey)
    ensures Holds(Carried(Concat(results), h), rows, bs, AtHour(h))
  {
    forall b <- bs, s <- rows ensures HourKey(b)(s) == h <==> AtHour(h)(b, s) {
      HourOfDay(s.createdAt + 28800000);
    }
    BucketHolds(results, rows, bs, HourKey, h, AtHour(h));
  }

  /** The hour counts from the midnight of the sale's calendar day. */
  lemma HourFromMidnight(s: SaleRow)
    requires ValidDate(BusinessDayOf(s.createdAt, 0))
    ensures var d := DayStartUtc(BusinessDayOf(s.createdAt, 0), 0).value;
            0 <= HourOf(s) < 24 && d + 3600000 * HourOf(s) <= s.createdAt < d + 3600000 * (HourOf(s) + 1)
  {
    var day := BusinessDayOf(s.createdAt, 0);
    DayIsItsWindow(day, s.createdAt, 0);
    StartOf(day, 0);
    HoursInto(s.createdAt + 28800000, DayOfDate(day));
  }

  lemma HoursInto(ms: int, day: int)
    requires 0 <= ms - day * 86400000 < 86400000
    ensures ms / 3600000 == day * 24 + (ms - day * 86400000) / 3600000
    ensures ms / 3600000 % 24 == (ms - day * 86400000) / 3600000
  {}

  /** Manila's midnight of 2023-01-01, a Sunday. */
  const SUNDAY_MS := 1672502400000

  lemma SundayMs(s: string)
    requires s == "2023-01-01"
    ensures DayStartUtc(s, 0) == Some(SUNDAY_MS)
  {
    assert At(s, 0) == 2 && At(s, 1) == 0 && At(s, 2) == 2 && At(s, 3) == 3;
    assert At(s, 5) == 0 && At(s, 6) == 1 && At(s, 8) == 0 && At(s, 9) == 1;
    ParsedIs(s);
    DayNumberIs(ParseDate(s).value);
    SundayNumber(2023, 0);
  }

  lemma SundayNumber(y: int, months: int)
    requires y == 2023 && months == 0
    ensures DayOf(y, months, 1) == 19358
  {}

  function OnWeekday(w: int): Test {
    (b: Business, s: SaleRow) => (s.createdAt - (SUNDAY_MS + b.dayStart * 60000)) / 86400000 % 7 == w
  }

  lemma DaysSince(ms: int, day: int)
    ensures (ms - day * 86400000) / 86400000 == ms / 86400000 - day
  {}

  /** Patterns by weekday: slot 0 is Sunday, and a sale counts on its business day's weekday. */
  lemma WeekdaySlot(results: seq<seq<Group<int>>>, rows: seq<SaleRow>, bs: seq<Business>, w: int)
    requires Queried(results, rows, bs, DowKey)
    ensures Holds(Carried(Concat(results), w), rows, bs, OnWeekday(w))
  {
    forall b <- bs, s <- rows ensures DowKey(b)(s) == w <==> OnWeekday(w)(b, s) {
      DaysSince(s.createdAt + (480 - b.dayStart) * 60000, 19358);
      WeekdayStep(DayIndex(s.createdAt, b.dayStart));
    }
    BucketHolds(results, rows, bs, DowKey, w, OnWeekday(w));
  }

  lemma WeekdayStep(day: int)
    ensures (day - 19358) % 7 == (day + 4) % 7
  {}

  // ----- Weeks and months -----

  /** A trend bucket by day holds that day's sales. */
  lemma TrendDay(results: seq<seq<Group<string>>>, rows: seq<SaleRow>, bs: seq<Business>, bucket: string)
    requires Queried(results, rows, bs, TrendKey(Day)) && ValidDate(bucket)
    ensures Dashed(bucket) && Holds(Carried(Concat(results), bucket), rows, bs, Within(bucket, 1))
  {
    DayStartIs(bucket, 0);
    forall b <- bs, s <- rows ensures TrendKey(Day)(b)(s) == bucket <==> Within(bucket, 1)(b, s) {
      DayOfInstant(bucket, s.createdAt, b.dayStart);
    }
    BucketHolds(results, rows, bs, TrendKey(Day), bucket, Within(bucket, 1));
  }

  predicate IsMonday(date: string)
    requires Dashed(date)
  {
    (StartMs(date, 0) - SUNDAY_MS) / 86400000 % 7 == 1
  }

  lemma StartOfDay(date: string, dayStart: int)
    requires ValidDate(date)
    ensures Dashed(date) && StartMs(date, dayStart) == DayOfDate(date) * 86400000 + (dayStart - 480) * 60000
  {
    DayStartIs(date, dayStart);
    StartOf(date, dayStart);
  }

  lemma MondayIs(date: string)
    requires ValidDate(date)
    ensures Dashed(date) && (IsMonday(date) <==> (DayOfDate(date) + 3) % 7 == 0)
  {
    StartOfDay(date, 0);
    MondayStep(DayOfDate(date));
  }

  lemma MondayStep(day: int)
    ensures (day * 86400000 - 19358 * 86400000) / 86400000 % 7 == 1 <==> (day + 3) % 7 == 0
  {
    DaysSince(day * 86400000, 19358);
  }

  lemma WeekHolds(monday: int, day: int)
    ensures WeekStart(day) == monday <==> (monday + 3) % 7 == 0 && monday <= day < monday + 7
  {}

  lemma NamedDay(day: int, bucket: string)
    requires ValidDate(bucket)
    ensures DateText(day) == bucket <==> day == DayOfDate(bucket)
  {
    NameOfDate(bucket);
    if DateText(day) == bucket { NameIdentifiesDay(day, bucket); }
  }

  function InWeek(bucket: string): Test
    requires Dashed(bucket)
  {
    (b: Business, s: SaleRow) => IsMonday(bucket) && MadeWithin(bucket, 7, b, s)
  }

  lemma DaySpan(ms: int, day: int)
    ensures day <= ms / 86400000 < day + 7 <==> day * 86400000 <= ms < day * 86400000 + 7 * 86400000
  {}

  lemma WeekHas(bucket: string, b: Business, s: SaleRow)
    requires ValidDate(bucket)
    ensures Dashed(bucket) && (TrendKey(Week)(b)(s) == bucket <==> InWeek(bucket)(b, s))
  {
    WeekNamed(bucket, b, s);
    InWeekIs(bucket, b, s);
  }

  lemma InWeekIs(bucket: string, b: Business, s: SaleRow)
    requires ValidDate(bucket)
    ensures Dashed(bucket)
    ensures InWeek(bucket)(b, s) <==> WeekStart(DayIndex(s.createdAt, b.dayStart)) == DayOfDate(bucket)
  {
    MondayIs(bucket);
    WeekSpan(bucket, b, s);
    WeekHolds(DayOfDate(bucket), DayIndex(s.createdAt, b.dayStart));
    assert InWeek(bucket)(b, s) == (IsMonday(bucket) && MadeWithin(bucket, 7, b, s));
  }

  lemma WeekNamed(bucket: string, b: Business, s: SaleRow)
    requires ValidDate(bucket)
    ensures TrendKey(Week)(b)(s) == bucket <==> WeekStart(DayIndex(s.createdAt, b.dayStart)) == DayOfDate(bucket)
  {
    NamedDay(WeekStart(DayIndex(s.createdAt, b.dayStart)), bucket);
  }

  lemma WeekSpan(bucket: string, b: Business, s: SaleRow)
    requires ValidDate(bucket)
    ensures Dashed(bucket)
    ensures var (monday, day) := (DayOfDate(bucket), DayIndex(s.createdAt, b.dayStart));
            MadeWithin(bucket, 7, b, s) <==> monday <= day < monday + 7
  {
    StartOfDay(bucket, b.dayStart);
    DaySpan(s.createdAt + (480 - b.dayStart) * 60000, DayOfDate(bucket));
  }

  /** A trend bucket by week is named by a Monday and holds the seven days from its start. */
  lemma TrendWeek(results: seq<seq<Group<string>>>, rows: seq<SaleRow>, bs: seq<Business>, bucket: string)
    requires Queried(results, rows, bs, TrendKey(Week)) && ValidDate(bucket)
    ensures Dashed(bucket) && Holds(Carried(Concat(results), bucket), rows, bs, InWeek(bucket))
  {
    StartOfDay(bucket, 0);
    forall b <- bs, s <- rows ensures TrendKey(Week)(b)(s) == bucket <==> InWeek(bucket)(b, s) {
      WeekHas(bucket, b, s);
    }
    BucketHolds(results, rows, bs, TrendKey(Week), bucket, InWeek(bucket));
  }

  /** A sale whose business day is written with the bucket's year and month. */
  function InMonth(bucket: string): Test
    requires |bucket| == 10
  {
    (b: Business, s: SaleRow) => bucket[8..] == "01" && BusinessDayOf(s.createdAt, b.dayStart)[..7] == bucket[..7]
  }

  lemma FirstText(c: Civil, bucket: string)
    requires c.Valid() && ValidDate(bucket)
    ensures CivilText(c.(d := 1)) == bucket <==> bucket[8..] == "01" && CivilText(c)[..7] == bucket[..7]
  {
    var first := CivilText(c.(d := 1));
    if 0 <= c.y <= 9999 {
      assert first[..7] == CivilText(c)[..7] && first[8..] == Pad(1, 2);
      assert first == first[..7] + "-" + first[8..] && bucket == bucket[..7] + "-" + bucket[8..];
    } else {
      assert bucket[0] == bucket[..4][0] && bucket[0] == bucket[..7][0] && CivilText(c)[..7][0] == CivilText(c)[0];
      assert IsDigit(bucket[0]) && !IsDigit(CivilText(c)[0]) && !IsDigit(first[0]);
    }
  }

  /** A trend bucket by month is named by the month's first and holds that month's days. */
  lemma TrendMonth(results: seq<seq<Group<string>>>, rows: seq<SaleRow>, bs: seq<Business>, bucket: string)
    requires Queried(results, rows, bs, TrendKey(Month)) && ValidDate(bucket)
    ensures Holds(Carried(Concat(results), bucket), rows, bs, InMonth(bucket))
  {
    forall b <- bs, s <- rows ensures TrendKey(Month)(b)(s) == bucket <==> InMonth(bucket)(b, s) {
      var day := DayIndex(s.createdAt, b.dayStart);
      FirstBefore(day);
      FirstText(CivilOf(day), bucket);
    }
    BucketHolds(results, rows, bs, TrendKey(Month), bucket, InMonth(bucket));
  }

  // ----- The overview -----

  function With(status: Status): Test { (b: Business, s: SaleRow) => s.status == status }

  /** A measure of the sales read for a scope, as the column summed over them. */
  lemma {:induction false} AcrossSum(rows: seq<SaleRow>, bs: seq<Business>, weight: SaleRow -> int,
                                     column: SaleRow -> int)
    requires forall s <- rows :: weight(s) == column(s)
    ensures SumBy(Across(rows, bs), weight) == SumOver(rows, bs, With(Completed), column)
  {
    if bs == [] {
    } else {
      var p := (s: SaleRow) => InScope(s, bs[0]) && s.status.Completed?;
      SumFilter(rows, p, weight, Counted(bs[0], With(Completed), column));
      AcrossSum(rows, bs[1..], weight, column);
      SumByAppend(CompletedIn(rows, bs[0]), Across(rows, bs[1..]), weight);
    }
  }

  lemma CountWith(rows: seq<SaleRow>, b: Business, status: Status)
    ensures |WithStatus(rows, b, status)| == SumBy(rows, Counted(b, With(status), One))
  {
    var p := (s: SaleRow) => InScope(s, b) && s.status == status;
    CountItems(Filter(rows, p));
    forall s <- rows ensures Counted(b, With(status), One)(s) == if p(s) then Each(s) else 0 {
      assert Each(s) == One(s) && (Made(b, s) <==> InScope(s, b)) && (With(status)(b, s) <==> s.status == status);
    }
    SumFilter(rows, p, Each, Counted(b, With(status), One));
  }

  lemma {:induction false} SumOverLast(rows: seq<SaleRow>, bs: seq<Business>, on: Test, weight: SaleRow -> int)
    requires bs != []
    ensures SumOver(rows, bs, on, weight)
         == SumOver(rows, bs[..|bs| - 1], on, weight) + SumBy(rows, Counted(bs[|bs| - 1], on, weight))
  {
    if |bs| == 1 {
    } else {
      SumOverLast(rows, bs[1..], on, weight);
      assert bs[1..][..|bs| - 2] == bs[..|bs| - 1][1..];
    }
  }

  lemma {:induction false} CountAcrossIs(rows: seq<SaleRow>, bs: seq<Business>, status: Status)
    ensures CountAcross(rows, bs, status) == SumOver(rows, bs, With(status), One)
  {
    if bs == [] {
    } else {
      CountAcrossIs(rows, bs[..|bs| - 1], status);
      CountWith(rows, bs[|bs| - 1], status);
      SumOverLast(rows, bs, With(status), One);
    }
  }

  /** What the overview adds up, as columns of the sales made in scope: money and transactions
      of the completed ones, and how many were voided or refunded. */
  lemma OverviewIs(rows: seq<SaleRow>, bs: seq<Business>)
    ensures SumBy(Across(rows, bs), SubtotalC) == SumOver(rows, bs, With(Completed), (s: SaleRow) => s.subtotalC)
    ensures SumBy(Across(rows, bs), NetSalesC) == SumOver(rows, bs, With(Completed), Net)
    ensures SumBy(Across(rows, bs), ServiceC) == SumOver(rows, bs, With(Completed), (s: SaleRow) => s.serviceChargeC)
    ensures |Across(rows, bs)| == SumOver(rows, bs, With(Completed), One)
    ensures CountAcross(rows, bs, Voided) == SumOver(rows, bs, With(Voided), One)
    ensures CountAcross(rows, bs, Refunded) == SumOver(rows, bs, With(Refunded), One)
  {
    AcrossSum(rows, bs, SubtotalC, (s: SaleRow) => s.subtotalC);
    AcrossSum(rows, bs, NetSalesC, Net);
    AcrossSum(rows, bs, ServiceC, (s: SaleRow) => s.serviceChargeC);
    AcrossSum(rows, bs, Each, One);
    CountItems(Across(rows, bs));
    CountAcrossIs(rows, bs, Voided);
    CountAcrossIs(rows, bs, Refunded);
  }

  // ----- Lines -----

  /** The sum of a measure over the lines of a sale that pass a test. */
  function Lines(on: Item -> bool, weight: Item -> int): SaleRow -> int {
    (s: SaleRow) => SumBy(s.items, (i: Item) => if on(i) then weight(i) else 0)
  }

  /** A line's revenue and cost, with round(numeric) pinned by what it is nearest to. */
  ghost predicate LineMoney(net: Item -> int, cost: Item -> int) {
    && (forall i: Item ::
          Nearest(i.qtyMilli * (i.unitPriceC + SumBy(i.modifierDeltasC, (d: int) => d)), 1000, net(i) + i.discountC))
    && (forall i: Item :: i.costC.Some? ==> Nearest(i.qtyMilli * i.costC.value, 1000, cost(i)))
  }

  lemma LinesAcross(rows: seq<SaleRow>, bs: seq<Business>, f: Item -> int, on: Item -> bool, weight: Item -> int)
    requires forall i: Item :: f(i) == if on(i) then weight(i) else 0
    ensures SumBy(ItemsOf(Across(rows, bs)), f) == SumOver(rows, bs, With(Completed), Lines(on, weight))
  {
    var per := (s: SaleRow) => SumBy(s.items, f);
    ItemsPerSale(Across(rows, bs), f, per);
    forall s <- rows ensures per(s) == Lines(on, weight)(s) {
      SumByEqual(s.items, f, (i: Item) => if on(i) then weight(i) else 0);
    }
    AcrossSum(rows, bs, per, Lines(on, weight));
  }

  /** The overview's lines, those with a cost apart from those without: how many, their revenue
      and their cost. */
  lemma OverviewLines(rows: seq<SaleRow>, bs: seq<Business>) returns (net: Item -> int, cost: Item -> int)
    ensures LineMoney(net, cost)
    ensures var (costed, uncosted) := ((i: Item) => i.costC.Some?, (i: Item) => i.costC.None?);
            LinesMatch(SumOver(rows, bs, With(Completed), Lines(costed, (i: Item) => 1)),
                       SumOver(rows, bs, With(Completed), Lines(costed, net)),
                       SumOver(rows, bs, With(Completed), Lines(costed, cost)),
                       SumOver(rows, bs, With(Completed), Lines(uncosted, net)),
                       ItemsOf(Across(rows, bs)))
  {
    net, cost := SqlLineNetC, SqlLineCostC;
    var (costed, uncosted) := ((i: Item) => i.costC.Some?, (i: Item) => i.costC.None?);
    forall i: Item
      ensures Nearest(i.qtyMilli * (i.unitPriceC + SumBy(i.modifierDeltasC, (d: int) => d)), 1000, net(i) + i.discountC)
      ensures i.costC.Some? ==> Nearest(i.qtyMilli * i.costC.value, 1000, cost(i))
    {
    }
    LinesAcross(rows, bs, Costed(Each), costed, (i: Item) => 1);
    LinesAcross(rows, bs, Costed(SqlLineNetC), costed, net);
    LinesAcross(rows, bs, Costed(SqlLineCostC), costed, cost);
    LinesAcross(rows, bs, Uncosted(SqlLineNetC), uncosted, net);
  }

  // ----- Payments -----

  function AmountBy(m: Method): Payment -> int { (p: Payment) => if p.means == m then p.amountC else 0 }
  function CountBy(m: Method): Payment -> int { (p: Payment) => if p.means == m then 1 else 0 }

  function Paid(m: Method): SaleRow -> int { (s: SaleRow) => SumBy(s.payments, AmountBy(m)) }
  function TimesPaid(m: Method): SaleRow -> int { (s: SaleRow) => SumBy(s.payments, CountBy(m)) }

  /** A posted sale counts once, under the method of its one payment. */
  lemma CountedOnce(s: SaleRow, m: Method)
    requires Posted(s)
    ensures |s.payments| == 1 && TimesPaid(m)(s) == if s.payments[0].means == m then 1 else 0
  {
    PaymentCoversSale(s);
    assert s.payments[1..] == [];
    assert SumBy(s.payments, CountBy(m)) == CountBy(m)(s.payments[0]) + SumBy(s.payments[1..], CountBy(m));
  }

  lemma {:induction false} PaymentsPerSale(rows: seq<SaleRow>, f: Payment -> int, per: SaleRow -> int)
    requires forall s <- rows :: per(s) == SumBy(s.payments, f)
    ensures SumBy(PaymentsOf(rows), f) == SumBy(rows, per)
  {
    if rows == [] {
    } else {
      PaymentsPerSale(rows[1..], f, per);
      SumByAppend(rows[0].payments, PaymentsOf(rows[1..]), f);
    }
  }

  /** The payment split: a method's amount is what the completed sales of the scope were paid by
      it. */
  lemma {:induction false} PaymentSplit(results: seq<seq<Group<Method>>>, rows: seq<SaleRow>, bs: seq<Business>,
                                        m: Method)
    requires PaymentsQueried(results, rows, bs)
    ensures Carried(Concat(results), m)
         == Acc(SumOver(rows, bs, With(Completed), Paid(m)), SumOver(rows, bs, With(Completed), TimesPaid(m)))
  {
    if bs == [] {
    } else {
      assert IsGrouping(results[0], PaymentsOf(CompletedIn(rows, bs[0])), Means, Amount);
      OnePaymentSplit(results[0], rows, bs[0], m);
      PaymentSplit(results[1..], rows, bs[1..], m);
      SumByAppend(results[0], Concat(results[1..]), SalesOn(m));
      SumByAppend(results[0], Concat(results[1..]), CountOn(m));
    }
  }

  lemma OnePaymentSplit(groups: seq<Group<Method>>, rows: seq<SaleRow>, b: Business, m: Method)
    requires IsGrouping(groups, PaymentsOf(CompletedIn(rows, b)), Means, Amount)
    ensures SumBy(groups, SalesOn(m)) == SumBy(rows, Counted(b, With(Completed), Paid(m)))
    ensures SumBy(groups, CountOn(m)) == SumBy(rows, Counted(b, With(Completed), TimesPaid(m)))
  {
    var payments := PaymentsOf(CompletedIn(rows, b));
    GroupingExact(groups, payments, Means, Amount, m);
    PaymentsBy(payments, m);
    PaymentsPerSale(CompletedIn(rows, b), AmountBy(m), Paid(m));
    PaymentsPerSale(CompletedIn(rows, b), CountBy(m), TimesPaid(m));
    CompletedSum(rows, b, Paid(m));
    CompletedSum(rows, b, TimesPaid(m));
  }

  lemma PaymentsBy(payments: seq<Payment>, m: Method)
    ensures KeyTotal(payments, Means, Amount, m) == SumBy(payments, AmountBy(m))
    ensures KeyTotal(payments, Means, Each, m) == SumBy(payments, CountBy(m))
  {
    forall p <- payments
      ensures OnKey(Means, Amount, m)(p) == AmountBy(m)(p) && OnKey(Means, Each, m)(p) == CountBy(m)(p)
    {
      assert Means(p) == p.means && Amount(p) == p.amountC && Each(p) == 1;
    }
    SumByEqual(payments, OnKey(Means, Amount, m), AmountBy(m));
    SumByEqual(payments, OnKey(Means, Each, m), CountBy(m));
  }

  lemma CompletedSum(rows: seq<SaleRow>, b: Business, weight: SaleRow -> int)
    ensures SumBy(CompletedIn(rows, b), weight) == SumBy(rows, Counted(b, With(Completed), weight))
  {
    var p := (s: SaleRow) => InScope(s, b) && s.status.Completed?;
    SumFilter(rows, p, weight, Counted(b, With(Completed), weight));
  }
}
