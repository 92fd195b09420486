/** Bucketed sales reports and the overview they must agree with
    (src/portal/analytics/sales, reports/sales-series.sql.ts, reports/sales-aggregate.sql.ts,
    overview/overview.math.ts). A query is read as a filter and a grouped sum over sale rows. */
module Grouping {
  import opened Common

  function Concat<T>(ss: seq<seq<T>>): seq<T> {
    if ss == [] then [] else ss[0] + Concat(ss[1..])
  }

  lemma {:induction false} ConcatStep<T>(ss: seq<seq<T>>, i: nat)
    requires i < |ss|
    ensures Concat(ss[..i + 1]) == Concat(ss[..i]) + ss[i]
  {
    if i == 0 {
      assert ss[..1] == [ss[0]] && ss[..0] == [];
      assert Concat([ss[0]]) == ss[0] + Concat([ss[0]][1..]);
    } else {
      assert ss[..i + 1][1..] == ss[1..][..i] && ss[..i][1..] == ss[1..][..i - 1];
      ConcatStep(ss[1..], i - 1);
    }
  }

  ghost predicate Distinct<K>(keys: seq<K>) {
    forall i, j | 0 <= i < j < |keys| :: keys[i] != keys[j]
  }

  /** The weight of the items filed under one key. */
  function OnKey<T, K(==)>(key: T -> K, weight: T -> int, k: K): T -> int {
    (x: T) => if key(x) == k then weight(x) else 0
  }

  function KeyTotal<T, K(==)>(items: seq<T>, key: T -> K, weight: T -> int, k: K): int {
    SumBy(items, OnKey(key, weight, k))
  }

  function PerKey<T, K(==)>(items: seq<T>, key: T -> K, weight: T -> int): K -> int {
    k => KeyTotal(items, key, weight, k)
  }

  lemma {:induction false} OneKeyHolds<K>(keys: seq<K>, k: K, w: int)
    requires Distinct(keys)
    ensures SumBy(keys, (x: K) => if k == x then w else 0) == if k in keys then w else 0
  {
    if keys == [] {
    } else {
      assert forall j | 0 < j < |keys| :: keys[0] != keys[j];
      assert k == keys[0] ==> k !in keys[1..];
      assert Distinct(keys[1..]);
      OneKeyHolds(keys[1..], k, w);
    }
  }

  /** Summing per key over distinct keys that cover every item counts each item once. */
  lemma {:induction false} KeysPartition<T, K>(items: seq<T>, key: T -> K, weight: T -> int, keys: seq<K>)
    requires Distinct(keys) && forall x <- items :: key(x) in keys
    ensures SumBy(keys, PerKey(items, key, weight)) == SumBy(items, weight)
  {
    if items == [] {
      AllZero(keys, PerKey(items, key, weight));
    } else {
      var x, rest := items[0], items[1..];
      KeysPartition(rest, key, weight, keys);
      OneKeyHolds(keys, key(x), weight(x));
      var here := (k: K) => if key(x) == k then weight(x) else 0;
      assert forall k: K <- keys :: PerKey(items, key, weight)(k) == 1 * here(k) + 1 * PerKey(rest, key, weight)(k);
      SumByLinear(keys, here, PerKey(rest, key, weight), PerKey(items, key, weight), 1, 1);
    }
  }

  function Coarsen<T, K, L>(key: T -> K, coarse: K -> L): T -> L { (x: T) => coarse(key(x)) }

  /** A key's total if the key belongs to the coarser key l. */
  function Within<T, K(==), L(==)>(items: seq<T>, key: T -> K, weight: T -> int, coarse: K -> L, l: L): K -> int {
    (k: K) => if coarse(k) == l then KeyTotal(items, key, weight, k) else 0
  }

  /** A coarser bucket is the sum of the finer ones it contains. */
  lemma {:induction false} CoarserBuckets<T, K, L>(items: seq<T>, key: T -> K, weight: T -> int, coarse: K -> L,
      keys: seq<K>, l: L)
    requires Distinct(keys) && forall x <- items :: key(x) in keys
    ensures KeyTotal(items, Coarsen(key, coarse), weight, l) == SumBy(keys, Within(items, key, weight, coarse, l))
  {
    if items == [] {
      AllZero(keys, Within(items, key, weight, coarse, l));
    } else {
      var x, rest := items[0], items[1..];
      var w := if coarse(key(x)) == l then weight(x) else 0;
      CoarserBuckets(rest, key, weight, coarse, keys, l);
      OneKeyHolds(keys, key(x), w);
      var here := (k: K) => if key(x) == k then w else 0;
      var now, before := Within(items, key, weight, coarse, l), Within(rest, key, weight, coarse, l);
      assert forall k: K <- keys :: now(k) == 1 * here(k) + 1 * before(k);
      SumByLinear(keys, here, before, now, 1, 1);
    }
  }

  lemma {:induction false} AllZero<K>(keys: seq<K>, f: K -> int)
    requires forall k <- keys :: f(k) == 0
    ensures SumBy(keys, f) == 0
  {
    if keys == [] {
    } else {
      AllZero(keys[1..], f);
    }
  }

  // ----- GROUP BY results -----

  datatype Group<K> = Group(key: K, salesC: int, transactions: int)

  /** COUNT(*) as a measure. */
  function Each<T>(x: T): int { 1 }

  function SalesC<K>(g: Group<K>): int { g.salesC }
  function Transactions<K>(g: Group<K>): int { g.transactions }

  function SalesOn<K(==)>(k: K): Group<K> -> int { (g: Group<K>) => if g.key == k then g.salesC else 0 }
  function CountOn<K(==)>(k: K): Group<K> -> int { (g: Group<K>) => if g.key == k then g.transactions else 0 }

  /** A result of `SELECT key, SUM(weight), COUNT(*) ... GROUP BY 1`, in any row order: one
      group per key that occurs, none without a row. */
  ghost predicate IsGrouping<T, K>(groups: seq<Group<K>>, items: seq<T>, key: T -> K, weight: T -> int) {
    && Distinct(KeysOf(groups))
    && (forall x <- items :: key(x) in KeysOf(groups))
    && (forall g <- groups :: g.transactions != 0
                              && g.salesC == KeyTotal(items, key, weight, g.key)
                              && g.transactions == KeyTotal(items, key, Each, g.key))
  }

  function KeysOf<K>(groups: seq<Group<K>>): (keys: seq<K>)
    ensures |keys| == |groups| && forall i | 0 <= i < |keys| :: keys[i] == groups[i].key
  {
    seq(|groups|, i requires 0 <= i < |groups| => groups[i].key)
  }

  /** The groups of a query add up to the rows it read. */
  lemma GroupingConserves<T, K>(groups: seq<Group<K>>, items: seq<T>, key: T -> K, weight: T -> int)
    requires IsGrouping(groups, items, key, weight)
    ensures SumBy(groups, SalesC) == SumBy(items, weight)
    ensures SumBy(groups, Transactions) == |items|
  {
    var keys := KeysOf(groups);
    KeysPartition(items, key, weight, keys);
    KeysPartition(items, key, Each, keys);
    SumByMapped(groups, keys, PerKey(items, key, weight), SalesC);
    SumByMapped(groups, keys, PerKey(items, key, Each), Transactions);
    CountItems(items);
  }

  lemma {:induction false} CountItems<T>(items: seq<T>)
    ensures SumBy(items, Each) == |items|
  {
    if items == [] {
    } else {
      CountItems(items[1..]);
    }
  }

  /** A key's amount in a query's result is the key's amount in the rows, listed or not. */
  lemma GroupingExact<T, K>(groups: seq<Group<K>>, items: seq<T>, key: T -> K, weight: T -> int, k: K)
    requires IsGrouping(groups, items, key, weight)
    ensures SumBy(groups, SalesOn(k)) == KeyTotal(items, key, weight, k)
    ensures SumBy(groups, CountOn(k)) == KeyTotal(items, key, Each, k)
  {
    var keys := KeysOf(groups);
    if k in keys {
      OneKeyHolds(keys, k, KeyTotal(items, key, weight, k));
      OneKeyHolds(keys, k, KeyTotal(items, key, Each, k));
      SumByMapped(groups, keys, (x: K) => if k == x then KeyTotal(items, key, weight, k) else 0, SalesOn(k));
      SumByMapped(groups, keys, (x: K) => if k == x then KeyTotal(items, key, Each, k) else 0, CountOn(k));
    } else {
      forall g <- groups ensures g.key != k {
        var i :| 0 <= i < |groups| && groups[i] == g;
        assert keys[i] == g.key;
      }
      AllZero(groups, SalesOn(k));
      AllZero(groups, CountOn(k));
      AllZero(items, OnKey(key, weight, k));
      AllZero(items, OnKey(key, Each, k));
    }
  }
}

/** Scope, the grouped queries' keys, and the accumulation loops of the services. */
module SalesReports {
  import opened Common
  import opened Calendar
  import opened BusinessDay
  import opened SaleRecords
  import opened Attribution
  import opened Grouping

  /** One business of a resolved scope: its branches, day start and UTC window. */
  datatype Business = Business(branches: seq<Id>, dayStart: int, window: Window)

  predicate InScope(s: SaleRow, b: Business) { s.branch in b.branches && b.window.Contains(s.createdAt) }

  /** completedInWindow: the rows every bucketed query reads for a business. */
  function CompletedIn(rows: seq<SaleRow>, b: Business): seq<SaleRow> {
    Filter(rows, (s: SaleRow) => InScope(s, b) && s.status.Completed?)
  }

  /** The rows of a whole scope: one query per business. */
  function Across(rows: seq<SaleRow>, bs: seq<Business>): seq<SaleRow> {
    if bs == [] then [] else CompletedIn(rows, bs[0]) + Across(rows, bs[1..])
  }

  // ----- Bucket keys -----

  datatype Granularity = Day | Week | Month

  /** Monday of a day's week, as date_trunc('week') gives it. */
  function WeekStart(day: int): int { day - (day + 3) % 7 }

  function MonthStart(day: int): int { var c := CivilOf(day); DayAt(c.y, c.m, 1) }

  function Trunc(day: int, g: Granularity): int {
    match g case Day => day case Week => WeekStart(day) case Month => MonthStart(day)
  }

  function DayBucket(dayStart: int): SaleRow -> string { (s: SaleRow) => BusinessDayOf(s.createdAt, dayStart) }

  function TrendBucket(dayStart: int, g: Granularity): SaleRow -> string {
    (s: SaleRow) => DateText(Trunc(DayIndex(s.createdAt, dayStart), g))
  }

  /** EXTRACT(HOUR) of the Manila wall clock, whatever the day start. */
  function HourOf(s: SaleRow): int { (s.createdAt + MANILA_OFFSET_MINUTES * MINUTE_MS) / 3600000 % 24 }

  /** EXTRACT(DOW) of the business day: 0 is Sunday, and day 0 was a Thursday. */
  function DowBucket(dayStart: int): SaleRow -> int { (s: SaleRow) => (DayIndex(s.createdAt, dayStart) + 4) % 7 }

  // ----- Accumulation -----

  datatype Acc = Acc(salesC: int, transactions: int)

  function AccOf<K(==)>(m: map<K, Acc>, k: K): Acc { if k in m then m[k] else Acc(0, 0) }

  /** What a list of groups carries for one key. */
  function Carried<K(==)>(groups: seq<Group<K>>, k: K): Acc {
    Acc(SumBy(groups, SalesOn(k)), SumBy(groups, CountOn(k)))
  }

  lemma CarriedStep<K>(groups: seq<Group<K>>, g: Group<K>, k: K)
    ensures Carried(groups + [g], k)
         == if g.key == k
            then Acc(Carried(groups, k).salesC + g.salesC, Carried(groups, k).transactions + g.transactions)
            else Carried(groups, k)
  {
    SumByAppend(groups, [g], SalesOn(k));
    SumByAppend(groups, [g], CountOn(k));
    assert SumBy([g], SalesOn(k)) == SalesOn(k)(g) + SumBy([g][1..], SalesOn(k));
    assert SumBy([g], CountOn(k)) == CountOn(k)(g) + SumBy([g][1..], CountOn(k));
  }

  /** `acc.salesC += row.sales_c` per row, business after business. */
  method MergeGroups<K(==)>(results: seq<seq<Group<K>>>) returns (acc: map<K, Acc>)
    ensures forall k :: AccOf(acc, k) == Carried(Concat(results), k)
    ensures acc.Keys == set g | g in Concat(results) :: g.key
  {
    acc := map[];
    ghost var done: seq<Group<K>> := [];
    for i := 0 to |results|
      invariant done == Concat(results[..i])
      invariant forall k :: AccOf(acc, k) == Carried(done, k)
      invariant acc.Keys == set g | g in done :: g.key
    {
      for j := 0 to |results[i]|
        invariant done == Concat(results[..i]) + results[i][..j]
        invariant forall k :: AccOf(acc, k) == Carried(done, k)
        invariant acc.Keys == set g | g in done :: g.key
      {
        var g := results[i][j];
        forall k ensures Carried(done + [g], k)
          == if g.key == k then Acc(Carried(done, k).salesC + g.salesC, Carried(done, k).transactions + g.transactions)
             else Carried(done, k)
        {
          CarriedStep(done, g, k);
        }
        var row := AccOf(acc, g.key);
        acc := acc[g.key := Acc(row.salesC + g.salesC, row.transactions + g.transactions)];
        assert results[i][..j + 1] == results[i][..j] + [g];
        done := done + [g];
      }
      assert results[i][..|results[i]|] == results[i];
      ConcatStep(results, i);
    }
    assert results[..|results|] == results;
  }

  datatype HeatmapDay = HeatmapDay(date: string, salesC: int, transactions: int)

  /** heatmap: merge, then zero-fill along the series. */
  method Heatmap(from: string, to: string, results: seq<seq<Group<string>>>) returns (out: seq<HeatmapDay>)
    requires SeriesOf(from, to).Some?
    ensures |out| == |SeriesOf(from, to).value|
    ensures forall i | 0 <= i < |out| ::
              var date := SeriesOf(from, to).value[i];
              var merged := Carried(Concat(results), date);
              out[i] == HeatmapDay(date, merged.salesC, merged.transactions)
  {
    var sales := MergeGroups(results);
    var days := BusinessDaySeries(from, to);
    out := [];
    for i := 0 to |days.value|
      invariant |out| == i
      invariant forall j | 0 <= j < i ::
                  var date := days.value[j];
                  var merged := Carried(Concat(results), date);
                  out[j] == HeatmapDay(date, merged.salesC, merged.transactions)
    {
      var date := days.value[i];
      out := out + [HeatmapDay(date, AccOf(sales, date).salesC, AccOf(sales, date).transactions)];
    }
  }

  /** patterns: fixed slots, hours (24) and days of the week (7). */
  method FillSlots(n: nat, results: seq<seq<Group<int>>>) returns (slots: array<Acc>)
    requires forall g <- Concat(results) :: 0 <= g.key < n
    ensures fresh(slots) && slots.Length == n
    ensures forall k | 0 <= k < n :: slots[k] == Carried(Concat(results), k)
  {
    slots := new Acc[n](_ => Acc(0, 0));
    ghost var done: seq<Group<int>> := [];
    for i := 0 to |results|
      invariant done == Concat(results[..i])
      invariant forall k | 0 <= k < n :: slots[k] == Carried(done, k)
    {
      InConcat(results, i);
      for j := 0 to |results[i]|
        invariant done == Concat(results[..i]) + results[i][..j]
        invariant forall k | 0 <= k < n :: slots[k] == Carried(done, k)
      {
        var g := results[i][j];
        forall k ensures Carried(done + [g], k)
          == if g.key == k then Acc(Carried(done, k).salesC + g.salesC, Carried(done, k).transactions + g.transactions)
             else Carried(done, k)
        {
          CarriedStep(done, g, k);
        }
        slots[g.key] := Acc(slots[g.key].salesC + g.salesC, slots[g.key].transactions + g.transactions);
        assert results[i][..j + 1] == results[i][..j] + [g];
        done := done + [g];
      }
      assert results[i][..|results[i]|] == results[i];
      ConcatStep(results, i);
    }
    assert results[..|results|] == results;
  }

  lemma {:induction false} InConcat<T>(ss: seq<seq<T>>, i: nat)
    requires i < |ss|
    ensures forall x <- ss[i] :: x in Concat(ss)
  {
    if i == 0 {
    } else {
      InConcat(ss[1..], i - 1);
    }
  }

  // ----- The overview -----

  datatype SalesAggregate = SalesAggregate(
    grossC: int, discountsC: int, serviceC: int, transactions: int, voids: int, refunds: int)

  /** `SUM(...) FILTER (WHERE status = ...)`, as the measure summed. */
  function SumIf(status: Status, f: SaleRow -> int): SaleRow -> int {
    (s: SaleRow) => if s.status == status then f(s) else 0
  }

  /** salesAggregateSql: conditional aggregates over every status in one pass. */
  function AggregateOf(rows: seq<SaleRow>, b: Business): SalesAggregate {
    var w := Filter(rows, (s: SaleRow) => InScope(s, b));
    SalesAggregate(
      SumBy(w, SumIf(Completed, SubtotalC)),
      SumBy(w, SumIf(Completed, GivenAwayC)),
      SumBy(w, SumIf(Completed, ServiceC)),
      SumBy(w, SumIf(Completed, Each)),
      SumBy(w, SumIf(Voided, Each)),
      SumBy(w, SumIf(Refunded, Each)))
  }

  datatype LineAggregate = LineAggregate(costedLines: int, costedRevenueC: int, costedCostC: int, uncostedRevenueC: int)

  function ItemsOf(rows: seq<SaleRow>): seq<Item> { if rows == [] then [] else rows[0].items + ItemsOf(rows[1..]) }

  function Costed(weight: Item -> int): Item -> int { (i: Item) => if i.costC.Some? then weight(i) else 0 }

  function Uncosted(weight: Item -> int): Item -> int { (i: Item) => if i.costC.None? then weight(i) else 0 }

  /** lineAggregateSql: the lines of the completed sales, those with a cost apart from those without. */
  function LineAggregateOf(rows: seq<SaleRow>, b: Business): LineAggregate {
    var items := ItemsOf(CompletedIn(rows, b));
    LineAggregate(
      SumBy(items, Costed(Each)), SumBy(items, Costed(SqlLineNetC)), SumBy(items, Costed(SqlLineCostC)),
      SumBy(items, Uncosted(SqlLineNetC)))
  }

  /** The overview's running totals, updated in place by addRows. */
  class Totals {
    var grossSalesC: int
    var discountsC: int
    var serviceChargeC: int
    var transactions: int
    var voidCount: int
    var refundCount: int
    var costedLines: int
    var costedRevenueC: int
    var costedCostC: int
    var uncostedRevenueC: int

    constructor ()
      ensures grossSalesC == discountsC == serviceChargeC == transactions == voidCount == refundCount == 0
      ensures costedLines == costedRevenueC == costedCostC == uncostedRevenueC == 0
    {
      grossSalesC, discountsC, serviceChargeC, transactions, voidCount, refundCount := 0, 0, 0, 0, 0, 0;
      costedLines, costedRevenueC, costedCostC, uncostedRevenueC := 0, 0, 0, 0;
    }

    method AddRows(sales: SalesAggregate, lines: LineAggregate)
      modifies this
      ensures grossSalesC == old(grossSalesC) + sales.grossC && discountsC == old(discountsC) + sales.discountsC
      ensures serviceChargeC == old(serviceChargeC) + sales.serviceC
      ensures transactions == old(transactions) + sales.transactions
      ensures voidCount == old(voidCount) + sales.voids && refundCount == old(refundCount) + sales.refunds
      ensures costedLines == old(costedLines) + lines.costedLines
      ensures costedRevenueC == old(costedRevenueC) + lines.costedRevenueC
      ensures costedCostC == old(costedCostC) + lines.costedCostC
      ensures uncostedRevenueC == old(uncostedRevenueC) + lines.uncostedRevenueC
    {
      grossSalesC := grossSalesC + sales.grossC;
      discountsC := discountsC + sales.discountsC;
      serviceChargeC := serviceChargeC + sales.serviceC;
      transactions := transactions + sales.transactions;
      voidCount := voidCount + sales.voids;
      refundCount := refundCount + sales.refunds;
      costedLines := costedLines + lines.costedLines;
      costedRevenueC := costedRevenueC + lines.costedRevenueC;
      costedCostC := costedCostC + lines.costedCostC;
      uncostedRevenueC := uncostedRevenueC + lines.uncostedRevenueC;
    }

    function NetSales(): int
      reads this
    {
      grossSalesC - discountsC
    }
  }

  lemma {:induction false} ItemsAppend(a: seq<SaleRow>, b: seq<SaleRow>)
    ensures ItemsOf(a + b) == ItemsOf(a) + ItemsOf(b)
    decreases |a|
  {
    if a == [] {
      assert a + b == b;
    } else {
      assert (a + b)[0] == a[0] && (a + b)[1..] == a[1..] + b;
      ItemsAppend(a[1..], b);
    }
  }

  /** A measure of the lines, summed sale by sale. */
  lemma {:induction false} ItemsPerSale(rows: seq<SaleRow>, f: Item -> int, g: SaleRow -> int)
    requires forall r <- rows :: g(r) == SumBy(r.items, f)
    ensures SumBy(ItemsOf(rows), f) == SumBy(rows, g)
  {
    if rows == [] {
    } else {
      ItemsPerSale(rows[1..], f, g);
      SumByAppend(rows[0].items, ItemsOf(rows[1..]), f);
    }
  }

  /** Costed and uncosted revenue partition the line revenue. */
  lemma {:induction false} CostSplitsRevenue(items: seq<Item>, weight: Item -> int)
    ensures SumBy(items, Costed(weight)) + SumBy(items, Uncosted(weight)) == SumBy(items, weight)
  {
    if items == [] {
    } else {
      CostSplitsRevenue(items[1..], weight);
    }
  }

  /** A conditional sum is the sum over the rows that meet the condition. */
  lemma {:induction false} ConditionalSum(w: seq<SaleRow>, status: Status, f: SaleRow -> int)
    ensures SumBy(w, SumIf(status, f)) == SumBy(Filter(w, HasStatus(status)), f)
  {
    if w == [] {
    } else {
      ConditionalSum(w[1..], status, f);
      var head := if w[0].status == status then [w[0]] else [];
      SumByAppend(head, Filter(w[1..], HasStatus(status)), f);
      assert head != [] ==> SumBy(head, f) == f(head[0]) + SumBy(head[1..], f);
    }
  }

  function HasStatus(status: Status): SaleRow -> bool { (s: SaleRow) => s.status == status }

  function SubtotalC(s: SaleRow): int { s.subtotalC }
  function GivenAwayC(s: SaleRow): int { s.discountC + s.scPwdDiscountC }

  lemma {:induction false} CountRows(w: seq<SaleRow>)
    ensures SumBy(w, Each) == |w|
    ensures SumBy(w, NetSalesC) == SumBy(w, SubtotalC) - SumBy(w, GivenAwayC)
  {
    if w == [] {
    } else {
      CountRows(w[1..]);
    }
  }

  /** The rows of a business with one status. */
  function WithStatus(rows: seq<SaleRow>, b: Business, status: Status): seq<SaleRow> {
    Filter(rows, (s: SaleRow) => InScope(s, b) && s.status == status)
  }

  function ServiceC(s: SaleRow): int { s.serviceChargeC }

  lemma StatusRows(rows: seq<SaleRow>, b: Business, status: Status)
    ensures Filter(Filter(rows, (s: SaleRow) => InScope(s, b)), HasStatus(status)) == WithStatus(rows, b, status)
  {
    FilterBoth(rows, (s: SaleRow) => InScope(s, b), HasStatus(status),
        (s: SaleRow) => InScope(s, b) && s.status == status);
  }

  lemma CompletedRows(rows: seq<SaleRow>, b: Business)
    ensures WithStatus(rows, b, Completed) == CompletedIn(rows, b)
  {
    FilterBoth(rows, (s: SaleRow) => InScope(s, b), HasStatus(Completed),
        (s: SaleRow) => InScope(s, b) && s.status.Completed?);
    StatusRows(rows, b, Completed);
  }

  /** Every field of the one-pass aggregate is a sum or a count over the rows of one status. */
  lemma AggregateOfCompleted(rows: seq<SaleRow>, b: Business)
    ensures var a, done := AggregateOf(rows, b), CompletedIn(rows, b);
            && a.grossC == SumBy(done, SubtotalC) && a.discountsC == SumBy(done, GivenAwayC)
            && a.grossC - a.discountsC == SumBy(done, NetSalesC)
            && a.serviceC == SumBy(done, ServiceC) && a.transactions == |done|
            && a.voids == |WithStatus(rows, b, Voided)| && a.refunds == |WithStatus(rows, b, Refunded)|
  {
    var w, done := Filter(rows, (s: SaleRow) => InScope(s, b)), CompletedIn(rows, b);
    CompletedRows(rows, b);
    StatusRows(rows, b, Completed);
    ConditionalSum(w, Completed, SubtotalC);
    ConditionalSum(w, Completed, GivenAwayC);
    ConditionalSum(w, Completed, ServiceC);
    ConditionalSum(w, Completed, Each);
    CountRows(done);
    CountStatus(rows, b, Voided);
    CountStatus(rows, b, Refunded);
  }

  lemma CountStatus(rows: seq<SaleRow>, b: Business, status: Status)
    ensures SumBy(Filter(rows, (s: SaleRow) => InScope(s, b)), SumIf(status, Each)) == |WithStatus(rows, b, status)|
  {
    var w := Filter(rows, (s: SaleRow) => InScope(s, b));
    StatusRows(rows, b, status);
    ConditionalSum(w, status, Each);
    CountRows(WithStatus(rows, b, status));
  }

  function CountAcross(rows: seq<SaleRow>, bs: seq<Business>, status: Status): nat {
    if bs == [] then 0 else CountAcross(rows, bs[..|bs| - 1], status) + |WithStatus(rows, bs[|bs| - 1], status)|
  }

  method Overview(rows: seq<SaleRow>, bs: seq<Business>) returns (t: Totals)
    ensures fresh(t)
    ensures t.grossSalesC == SumBy(Across(rows, bs), SubtotalC)
    ensures t.NetSales() == SumBy(Across(rows, bs), NetSalesC)
    ensures t.serviceChargeC == SumBy(Across(rows, bs), ServiceC)
    ensures t.transactions == |Across(rows, bs)|
    ensures t.voidCount == CountAcross(rows, bs, Voided) && t.refundCount == CountAcross(rows, bs, Refunded)
    ensures LinesMatch(t.costedLines, t.costedRevenueC, t.costedCostC, t.uncostedRevenueC, ItemsOf(Across(rows, bs)))
  {
    t := new Totals();
    for i := 0 to |bs|
      invariant fresh(t)
      invariant t.grossSalesC == SumBy(Across(rows, bs[..i]), SubtotalC)
      invariant t.NetSales() == SumBy(Across(rows, bs[..i]), NetSalesC)
      invariant t.serviceChargeC == SumBy(Across(rows, bs[..i]), ServiceC)
      invariant t.transactions == |Across(rows, bs[..i])|
      invariant t.voidCount == CountAcross(rows, bs[..i], Voided)
      invariant t.refundCount == CountAcross(rows, bs[..i], Refunded)
      invariant LinesMatch(t.costedLines, t.costedRevenueC, t.costedCostC, t.uncostedRevenueC,
                           ItemsOf(Across(rows, bs[..i])))
    {
      SalesStep(rows, bs, i);
      LinesStep(rows, bs, i);
      t.AddRows(AggregateOf(rows, bs[i]), LineAggregateOf(rows, bs[i]));
    }
    assert bs[..|bs|] == bs;
  }

  /** Four running totals against the lines they cover. */
  ghost predicate LinesMatch(lines: int, revenueC: int, costC: int, uncostedC: int, items: seq<Item>) {
    && lines == SumBy(items, Costed(Each)) && revenueC == SumBy(items, Costed(SqlLineNetC))
    && costC == SumBy(items, Costed(SqlLineCostC)) && uncostedC == SumBy(items, Uncosted(SqlLineNetC))
  }

  /** One more business's sales. */
  lemma SalesStep(rows: seq<SaleRow>, bs: seq<Business>, i: nat)
    requires i < |bs|
    ensures var (a, before, after) := (AggregateOf(rows, bs[i]), Across(rows, bs[..i]), Across(rows, bs[..i + 1]));
            && SumBy(after, SubtotalC) == SumBy(before, SubtotalC) + a.grossC
            && SumBy(after, NetSalesC) == SumBy(before, NetSalesC) + a.grossC - a.discountsC
            && SumBy(after, ServiceC) == SumBy(before, ServiceC) + a.serviceC
            && |after| == |before| + a.transactions
            && CountAcross(rows, bs[..i + 1], Voided) == CountAcross(rows, bs[..i], Voided) + a.voids
            && CountAcross(rows, bs[..i + 1], Refunded) == CountAcross(rows, bs[..i], Refunded) + a.refunds
  {
    AggregateOfCompleted(rows, bs[i]);
    AcrossStep(rows, bs, i);
    SumByAppend(Across(rows, bs[..i]), CompletedIn(rows, bs[i]), SubtotalC);
    SumByAppend(Across(rows, bs[..i]), CompletedIn(rows, bs[i]), NetSalesC);
    SumByAppend(Across(rows, bs[..i]), CompletedIn(rows, bs[i]), ServiceC);
    assert bs[..i + 1][..i] == bs[..i];
  }

  /** And its lines. */
  lemma LinesStep(rows: seq<SaleRow>, bs: seq<Business>, i: nat)
    requires i < |bs|
    ensures var (l, before, after) :=
              (LineAggregateOf(rows, bs[i]), ItemsOf(Across(rows, bs[..i])), ItemsOf(Across(rows, bs[..i + 1])));
            && SumBy(after, Costed(Each)) == SumBy(before, Costed(Each)) + l.costedLines
            && SumBy(after, Costed(SqlLineNetC)) == SumBy(before, Costed(SqlLineNetC)) + l.costedRevenueC
            && SumBy(after, Costed(SqlLineCostC)) == SumBy(before, Costed(SqlLineCostC)) + l.costedCostC
            && SumBy(after, Uncosted(SqlLineNetC)) == SumBy(before, Uncosted(SqlLineNetC)) + l.uncostedRevenueC
  {
    AcrossStep(rows, bs, i);
    ItemsAppend(Across(rows, bs[..i]), CompletedIn(rows, bs[i]));
    LinesAppend(ItemsOf(Across(rows, bs[..i])), ItemsOf(CompletedIn(rows, bs[i])));
  }

  lemma LinesAppend(a: seq<Item>, b: seq<Item>)
    ensures SumBy(a + b, Costed(Each)) == SumBy(a, Costed(Each)) + SumBy(b, Costed(Each))
    ensures SumBy(a + b, Costed(SqlLineNetC)) == SumBy(a, Costed(SqlLineNetC)) + SumBy(b, Costed(SqlLineNetC))
    ensures SumBy(a + b, Costed(SqlLineCostC)) == SumBy(a, Costed(SqlLineCostC)) + SumBy(b, Costed(SqlLineCostC))
    ensures SumBy(a + b, Uncosted(SqlLineNetC)) == SumBy(a, Uncosted(SqlLineNetC)) + SumBy(b, Uncosted(SqlLineNetC))
  {
    SumByAppend(a, b, Costed(Each));
    SumByAppend(a, b, Costed(SqlLineNetC));
    SumByAppend(a, b, Costed(SqlLineCostC));
    SumByAppend(a, b, Uncosted(SqlLineNetC));
  }

  lemma {:induction false} AcrossStep(rows: seq<SaleRow>, bs: seq<Business>, i: nat)
    requires i < |bs|
    ensures Across(rows, bs[..i + 1]) == Across(rows, bs[..i]) + CompletedIn(rows, bs[i])
  {
    if i == 0 {
      assert bs[..1] == [bs[0]] && bs[..0] == [];
      assert Across(rows, [bs[0]]) == CompletedIn(rows, bs[0]) + Across(rows, [bs[0]][1..]);
    } else {
      assert bs[..i + 1][1..] == bs[1..][..i] && bs[..i][1..] == bs[1..][..i - 1];
      AcrossStep(rows, bs[1..], i - 1);
    }
  }
}

/** Every report adds up to the overview. */
module Conservation {
  import opened Common
  import opened Calendar
  import opened BusinessDay
  import opened SaleRecords
  import opened Attribution
  import opened Grouping
  import opened SalesReports

  /** Each business's query result groups that business's completed rows by its own key. */
  ghost predicate Queried<K>(results: seq<seq<Group<K>>>, rows: seq<SaleRow>, bs: seq<Business>,
      key: Business -> SaleRow -> K) {
    && |results| == |bs|
    && forall i | 0 <= i < |bs| :: IsGrouping(results[i], CompletedIn(rows, bs[i]), key(bs[i]), NetSalesC)
  }

  /** All groups of all businesses, listed without merging (as branches are), add up to the
      overview's net sales and count. */
  lemma {:induction false} GroupsConserve<K>(results: seq<seq<Group<K>>>, rows: seq<SaleRow>, bs: seq<Business>,
                                             key: Business -> SaleRow -> K)
    requires Queried(results, rows, bs, key)
    ensures SumBy(Concat(results), SalesC) == SumBy(Across(rows, bs), NetSalesC)
    ensures SumBy(Concat(results), Transactions) == |Across(rows, bs)|
  {
    if bs == [] {
    } else {
      assert IsGrouping(results[0], CompletedIn(rows, bs[0]), key(bs[0]), NetSalesC);
      GroupingConserves(results[0], CompletedIn(rows, bs[0]), key(bs[0]), NetSalesC);
      GroupsConserve(results[1..], rows, bs[1..], key);
      SumByAppend(results[0], Concat(results[1..]), SalesC);
      SumByAppend(results[0], Concat(results[1..]), Transactions);
      SumByAppend(CompletedIn(rows, bs[0]), Across(rows, bs[1..]), NetSalesC);
    }
  }

  /** A report listing distinct keys that cover every group adds up to the overview. */
  lemma ListedConserves<K>(results: seq<seq<Group<K>>>, rows: seq<SaleRow>, bs: seq<Business>,
                           key: Business -> SaleRow -> K, keys: seq<K>)
    requires Queried(results, rows, bs, key)
    requires Distinct(keys) && forall g <- Concat(results) :: g.key in keys
    ensures SumBy(keys, (k: K) => Carried(Concat(results), k).salesC) == SumBy(Across(rows, bs), NetSalesC)
    ensures SumBy(keys, (k: K) => Carried(Concat(results), k).transactions) == |Across(rows, bs)|
  {
    GroupsConserve(results, rows, bs, key);
    MergeConserves(Concat(results), keys);
  }

  /** Merging groups key by key, over distinct keys that cover them, keeps their sums. */
  lemma MergeConserves<K>(all: seq<Group<K>>, keys: seq<K>)
    requires Distinct(keys) && forall g <- all :: g.key in keys
    ensures SumBy(keys, (k: K) => Carried(all, k).salesC) == SumBy(all, SalesC)
    ensures SumBy(keys, (k: K) => Carried(all, k).transactions) == SumBy(all, Transactions)
  {
    var keyOf := (g: Group<K>) => g.key;
    KeysPartition(all, keyOf, SalesC, keys);
    KeysPartition(all, keyOf, Transactions, keys);
    forall k: K <- keys
      ensures PerKey(all, keyOf, SalesC)(k) == Carried(all, k).salesC
           && PerKey(all, keyOf, Transactions)(k) == Carried(all, k).transactions
    {
      SumByEqual(all, OnKey(keyOf, SalesC, k), SalesOn(k));
      SumByEqual(all, OnKey(keyOf, Transactions, k), CountOn(k));
    }
    SumByEqual(keys, PerKey(all, keyOf, SalesC), (k: K) => Carried(all, k).salesC);
    SumByEqual(keys, PerKey(all, keyOf, Transactions), (k: K) => Carried(all, k).transactions);
  }

  lemma {:induction false} GroupKeysFrom<K>(results: seq<seq<Group<K>>>, rows: seq<SaleRow>, bs: seq<Business>,
                                            key: Business -> SaleRow -> K, g: Group<K>)
    returns (b: Business, s: SaleRow)
    requires Queried(results, rows, bs, key) && g in Concat(results)
    ensures b in bs && s in CompletedIn(rows, b) && key(b)(s) == g.key
  {
    if g in results[0] {
      b := bs[0];
      assert IsGrouping(results[0], CompletedIn(rows, b), key(b), NetSalesC);
      s := SomeItem(CompletedIn(rows, b), key(b), g.key);
    } else {
      b, s := GroupKeysFrom(results[1..], rows, bs[1..], key, g);
    }
  }

  lemma {:induction false} SomeItem<T, K>(items: seq<T>, key: T -> K, k: K) returns (x: T)
    requires KeyTotal(items, key, Each, k) != 0
    ensures x in items && key(x) == k
  {
    if key(items[0]) == k { x := items[0]; } else { x := SomeItem(items[1..], key, k); }
  }

  // ----- The reports -----

  /** Every business's window is the queried dates under its own day start. */
  ghost predicate Windowed(bs: seq<Business>, from: string, to: string) {
    && ValidDate(from) && ValidDate(to) && SeriesOf(from, to).Some?
    && forall b <- bs :: RangeUtc(from, to, b.dayStart) == Some(b.window)
  }

  function DayKey(b: Business): SaleRow -> string { DayBucket(b.dayStart) }
  function DowKey(b: Business): SaleRow -> int { DowBucket(b.dayStart) }
  function HourKey(b: Business): SaleRow -> int { HourOf }

  lemma {:induction false} InCompleted(rows: seq<SaleRow>, b: Business, s: SaleRow)
    requires s in CompletedIn(rows, b)
    ensures InScope(s, b) && s.status.Completed?
  {}

  /** Heatmap: the zero-filled days, whatever each business's day start, add up to the
      overview's net sales and transaction count. */
  lemma HeatmapConserves(rows: seq<SaleRow>, bs: seq<Business>, from: string, to: string,
      results: seq<seq<Group<string>>>)
    requires Windowed(bs, from, to) && Queried(results, rows, bs, DayKey)
    ensures var days := SeriesOf(from, to).value;
            && SumBy(days, (d: string) => Carried(Concat(results), d).salesC) == SumBy(Across(rows, bs), NetSalesC)
            && SumBy(days, (d: string) => Carried(Concat(results), d).transactions) == |Across(rows, bs)|
  {
    var days := SeriesOf(from, to).value;
    SeriesDistinct(from, to);
    forall g <- Concat(results) ensures g.key in days {
      var b, s := GroupKeysFrom(results, rows, bs, DayKey, g);
      InCompleted(rows, b, s);
      RangeMatchesSeries(from, to, s.createdAt, b.dayStart);
    }
    ListedConserves(results, rows, bs, DayKey, days);
  }

  /** Hour of day: 24 slots. */
  lemma HoursConserve(rows: seq<SaleRow>, bs: seq<Business>, results: seq<seq<Group<int>>>)
    requires Queried(results, rows, bs, HourKey)
    ensures SumBy(seq(24, i => i), (h: int) => Carried(Concat(results), h).salesC) == SumBy(Across(rows, bs), NetSalesC)
    ensures SumBy(seq(24, i => i), (h: int) => Carried(Concat(results), h).transactions) == |Across(rows, bs)|
  {
    forall g <- Concat(results) ensures g.key in seq(24, i => i) {
      var b, s := GroupKeysFrom(results, rows, bs, HourKey, g);
      assert seq(24, i => i)[g.key] == g.key;
    }
    ListedConserves(results, rows, bs, HourKey, seq(24, i => i));
  }

  /** Day of the week: 7 slots. */
  lemma WeekdaysConserve(rows: seq<SaleRow>, bs: seq<Business>, results: seq<seq<Group<int>>>)
    requires Queried(results, rows, bs, DowKey)
    ensures SumBy(seq(7, i => i), (d: int) => Carried(Concat(results), d).salesC) == SumBy(Across(rows, bs), NetSalesC)
    ensures SumBy(seq(7, i => i), (d: int) => Carried(Concat(results), d).transactions) == |Across(rows, bs)|
  {
    forall g <- Concat(results) ensures g.key in seq(7, i => i) {
      var b, s := GroupKeysFrom(results, rows, bs, DowKey, g);
      assert seq(7, i => i)[g.key] == g.key;
    }
    ListedConserves(results, rows, bs, DowKey, seq(7, i => i));
  }

  /** Trend (day, week or month) and order types list exactly the merged keys, in
      any order: whatever the bucket, the buckets add up to the overview. */
  lemma MergedMapConserves<K>(rows: seq<SaleRow>, bs: seq<Business>, key: Business -> SaleRow -> K,
                              results: seq<seq<Group<K>>>, acc: map<K, Acc>, entries: seq<K>)
    requires Queried(results, rows, bs, key)
    requires forall k :: AccOf(acc, k) == Carried(Concat(results), k)
    requires acc.Keys == set g | g in Concat(results) :: g.key
    requires Distinct(entries) && forall k :: k in entries <==> k in acc
    ensures SumBy(entries, (k: K) => AccOf(acc, k).salesC) == SumBy(Across(rows, bs), NetSalesC)
    ensures SumBy(entries, (k: K) => AccOf(acc, k).transactions) == |Across(rows, bs)|
  {
    forall g <- Concat(results) ensures g.key in entries { assert g.key in acc.Keys; }
    ListedConserves(results, rows, bs, key, entries);
    SumByEqual(entries, (k: K) => Carried(Concat(results), k).salesC, (k: K) => AccOf(acc, k).salesC);
    SumByEqual(entries, (k: K) => Carried(Concat(results), k).transactions, (k: K) => AccOf(acc, k).transactions);
  }

  /** What the completed rows weigh that each business files under a key. */
  function FiledUnder<K(==)>(rows: seq<SaleRow>, bs: seq<Business>, key: Business -> SaleRow -> K,
                             weight: SaleRow -> int, k: K): int {
    if bs == [] then 0
    else KeyTotal(CompletedIn(rows, bs[0]), key(bs[0]), weight, k) + FiledUnder(rows, bs[1..], key, weight, k)
  }

  /** Each bucket holds exactly its own sales: what the merged result carries for a key is the
      net, and the number, of the completed rows each business files under it. */
  lemma {:induction false} BucketExact<K>(results: seq<seq<Group<K>>>, rows: seq<SaleRow>, bs: seq<Business>,
                                          key: Business -> SaleRow -> K, k: K)
    requires Queried(results, rows, bs, key)
    ensures Carried(Concat(results), k).salesC == FiledUnder(rows, bs, key, NetSalesC, k)
    ensures Carried(Concat(results), k).transactions == FiledUnder(rows, bs, key, Each, k)
  {
    if bs == [] {
    } else {
      assert IsGrouping(results[0], CompletedIn(rows, bs[0]), key(bs[0]), NetSalesC);
      GroupingExact(results[0], CompletedIn(rows, bs[0]), key(bs[0]), NetSalesC, k);
      BucketExact(results[1..], rows, bs[1..], key, k);
      SumByAppend(results[0], Concat(results[1..]), SalesOn(k));
      SumByAppend(results[0], Concat(results[1..]), CountOn(k));
    }
  }

  // ----- Trend against heatmap -----

  function TrendKey(g: Granularity): Business -> SaleRow -> string { (b: Business) => TrendBucket(b.dayStart, g) }

  /** The trend bucket a calendar day belongs to. */
  function BucketOfDay(g: Granularity): string -> string {
    (d: string) => if ParseDate(d).Some? then DateText(Trunc(DayNumber(ParseDate(d).value), g)) else d
  }

  /** A sale's trend bucket is the bucket of its business day. */
  lemma TrendIsDayBucket(b: Business, s: SaleRow, from: string, to: string, g: Granularity)
    requires ValidDate(from) && ValidDate(to)
    requires RangeUtc(from, to, b.dayStart) == Some(b.window) && b.window.Contains(s.createdAt)
    ensures TrendBucket(b.dayStart, g)(s) == Coarsen(DayKey(b), BucketOfDay(g))(s)
  {
    var day := DayIndex(s.createdAt, b.dayStart);
    RangeIs(from, to, b.dayStart);
    WindowHas(DayOfDate(from), DayOfDate(to), s.createdAt, b.dayStart);
    BetweenNamesItself(day, from, to);
    StartOf(DateText(day), 0);
  }

  /** The heatmap's days that make up one trend bucket. */
  function DaysWithin(rows: seq<SaleRow>, bs: seq<Business>, g: Granularity, weight: SaleRow -> int, bucket: string)
    : string -> int
  {
    (d: string) => if BucketOfDay(g)(d) == bucket then FiledUnder(rows, bs, DayKey, weight, d) else 0
  }

  lemma OneBusinessTrend(rows: seq<SaleRow>, b: Business, from: string, to: string, g: Granularity,
                         weight: SaleRow -> int, bucket: string)
    requires Windowed([b], from, to)
    ensures KeyTotal(CompletedIn(rows, b), TrendKey(g)(b), weight, bucket)
         == SumBy(SeriesOf(from, to).value, Within(CompletedIn(rows, b), DayKey(b), weight, BucketOfDay(g), bucket))
  {
    var done, days := CompletedIn(rows, b), SeriesOf(from, to).value;
    assert b in [b];
    SeriesDistinct(from, to);
    forall s <- done ensures DayKey(b)(s) in days && TrendKey(g)(b)(s) == Coarsen(DayKey(b), BucketOfDay(g))(s) {
      SaleInSeries(rows, b, s, from, to, g);
    }
    SameTotals(done, TrendKey(g)(b), Coarsen(DayKey(b), BucketOfDay(g)), weight, bucket);
    CoarserBuckets(done, DayKey(b), weight, BucketOfDay(g), days, bucket);
  }

  lemma SaleInSeries(rows: seq<SaleRow>, b: Business, s: SaleRow, from: string, to: string, g: Granularity)
    requires Windowed([b], from, to) && s in CompletedIn(rows, b)
    ensures DayKey(b)(s) in SeriesOf(from, to).value
    ensures TrendKey(g)(b)(s) == Coarsen(DayKey(b), BucketOfDay(g))(s)
  {
    assert b in [b];
    InCompleted(rows, b, s);
    RangeMatchesSeries(from, to, s.createdAt, b.dayStart);
    TrendIsDayBucket(b, s, from, to, g);
  }

  lemma SameTotals<T, K>(items: seq<T>, a: T -> K, b: T -> K, weight: T -> int, k: K)
    requires forall x <- items :: a(x) == b(x)
    ensures KeyTotal(items, a, weight, k) == KeyTotal(items, b, weight, k)
  {
    SumByEqual(items, OnKey(a, weight, k), OnKey(b, weight, k));
  }

  lemma {:induction false} FiledTrend(rows: seq<SaleRow>, bs: seq<Business>, from: string, to: string, g: Granularity,
                                      weight: SaleRow -> int, bucket: string)
    requires Windowed(bs, from, to)
    ensures FiledUnder(rows, bs, TrendKey(g), weight, bucket)
         == SumBy(SeriesOf(from, to).value, DaysWithin(rows, bs, g, weight, bucket))
  {
    var days := SeriesOf(from, to).value;
    if bs == [] {
      forall d <- days ensures DaysWithin(rows, bs, g, weight, bucket)(d) == 0 {
        assert FiledUnder(rows, bs, DayKey, weight, d) == 0;
      }
      AllZero(days, DaysWithin(rows, bs, g, weight, bucket));
    } else {
      var b, rest := bs[0], bs[1..];
      var mine := Within(CompletedIn(rows, b), DayKey(b), weight, BucketOfDay(g), bucket);
      OneBusinessTrend(rows, b, from, to, g, weight, bucket);
      FiledTrend(rows, rest, from, to, g, weight, bucket);
      SumByLinear(days, mine, DaysWithin(rows, rest, g, weight, bucket), DaysWithin(rows, bs, g, weight, bucket), 1, 1);
    }
  }

  /** One heatmap day's share of a trend bucket. */
  function DaySales(daily: seq<Group<string>>, g: Granularity, bucket: string): string -> int {
    (d: string) => if BucketOfDay(g)(d) == bucket then Carried(daily, d).salesC else 0
  }

  function DayCount(daily: seq<Group<string>>, g: Granularity, bucket: string): string -> int {
    (d: string) => if BucketOfDay(g)(d) == bucket then Carried(daily, d).transactions else 0
  }

  /** Each trend bucket is the sum of the heatmap's days that fall in it, sales and counts,
      whatever each business's day start: the two reports agree about what a week or a month is. */
  lemma TrendSumsHeatmap(rows: seq<SaleRow>, bs: seq<Business>, from: string, to: string, g: Granularity,
                         daily: seq<seq<Group<string>>>, trend: seq<seq<Group<string>>>, bucket: string)
    requires Windowed(bs, from, to) && Queried(daily, rows, bs, DayKey) && Queried(trend, rows, bs, TrendKey(g))
    ensures Carried(Concat(trend), bucket).salesC
         == SumBy(SeriesOf(from, to).value, DaySales(Concat(daily), g, bucket))
    ensures Carried(Concat(trend), bucket).transactions
         == SumBy(SeriesOf(from, to).value, DayCount(Concat(daily), g, bucket))
  {
    var days := SeriesOf(from, to).value;
    BucketExact(trend, rows, bs, TrendKey(g), bucket);
    FiledTrend(rows, bs, from, to, g, NetSalesC, bucket);
    FiledTrend(rows, bs, from, to, g, Each, bucket);
    forall d <- days
      ensures DaySales(Concat(daily), g, bucket)(d) == DaysWithin(rows, bs, g, NetSalesC, bucket)(d)
      ensures DayCount(Concat(daily), g, bucket)(d) == DaysWithin(rows, bs, g, Each, bucket)(d)
    {
      BucketExact(daily, rows, bs, DayKey, d);
    }
    SumByEqual(days, DaysWithin(rows, bs, g, NetSalesC, bucket), DaySales(Concat(daily), g, bucket));
    SumByEqual(days, DaysWithin(rows, bs, g, Each, bucket), DayCount(Concat(daily), g, bucket));
  }

  /** date_trunc: the week starts on the Monday of the last seven days, the month on its first. */
  lemma TruncStarts(day: int)
    ensures Trunc(day, Week) <= day < Trunc(day, Week) + 7 && (Trunc(day, Week) + 3) % 7 == 0
    ensures CivilOf(Trunc(day, Month)) == CivilOf(day).(d := 1) && Trunc(day, Month) <= day
  {
    MondayBefore(day);
    FirstBefore(day);
  }

  lemma FirstBefore(day: int)
    ensures CivilOf(MonthStart(day)) == CivilOf(day).(d := 1) && MonthStart(day) <= day
  {
    var c, start := CivilOf(day), MonthStart(day);
    FirstOfMonth(c, CivilOf(start));
  }

  lemma MondayBefore(day: int)
    ensures WeekStart(day) <= day < WeekStart(day) + 7 && (WeekStart(day) + 3) % 7 == 0
  {}

  lemma FirstOfMonth(c: Civil, first: Civil)
    requires c.Valid() && first.Valid() && DayAt(first.y, first.m, first.d) == DayAt(c.y, c.m, 1)
    ensures first == c.(d := 1) && DayAt(c.y, c.m, 1) <= DayAt(c.y, c.m, c.d)
  {
    CivilUnique(first, c.(d := 1));
  }

  // ----- The payment split -----

  function PaymentsOf(rows: seq<SaleRow>): seq<Payment> {
    if rows == [] then [] else rows[0].payments + PaymentsOf(rows[1..])
  }

  function Amount(p: Payment): int { p.amountC }
  function Means(p: Payment): Method { p.means }

  lemma {:induction false} PaymentsCover(rows: seq<SaleRow>)
    requires forall r <- rows :: Posted(r)
    ensures SumBy(PaymentsOf(rows), Amount) == SumBy(rows, NetSalesC) + SumBy(rows, ServiceC)
  {
    if rows == [] {
    } else {
      PaymentCoversSale(rows[0]);
      PaymentsCover(rows[1..]);
      SumByAppend(rows[0].payments, PaymentsOf(rows[1..]), Amount);
      SumByEqual(rows[0].payments, Amount, (p: Payment) => p.amountC);
    }
  }

  /** Each business's payment query groups the payments of its completed sales by method. */
  ghost predicate PaymentsQueried(results: seq<seq<Group<Method>>>, rows: seq<SaleRow>, bs: seq<Business>) {
    && |results| == |bs|
    && forall i | 0 <= i < |bs| :: IsGrouping(results[i], PaymentsOf(CompletedIn(rows, bs[i])), Means, Amount)
  }

  lemma {:induction false} PaymentGroupsConserve(results: seq<seq<Group<Method>>>, rows: seq<SaleRow>,
      bs: seq<Business>)
    requires forall r <- rows :: Posted(r)
    requires PaymentsQueried(results, rows, bs)
    ensures SumBy(Concat(results), SalesC) == SumBy(Across(rows, bs), NetSalesC) + SumBy(Across(rows, bs), ServiceC)
  {
    if bs == [] {
    } else {
      var done := CompletedIn(rows, bs[0]);
      assert IsGrouping(results[0], PaymentsOf(done), Means, Amount);
      GroupingConserves(results[0], PaymentsOf(done), Means, Amount);
      PaymentsCover(done);
      PaymentGroupsConserve(results[1..], rows, bs[1..]);
      SumByAppend(results[0], Concat(results[1..]), SalesC);
      SumByAppend(done, Across(rows, bs[1..]), NetSalesC);
      SumByAppend(done, Across(rows, bs[1..]), ServiceC);
    }
  }

  /** The payment split, merged over businesses, sums to net sales plus service charge. */
  lemma PaymentSplitConserves(results: seq<seq<Group<Method>>>, rows: seq<SaleRow>, bs: seq<Business>,
      methods: seq<Method>)
    requires forall r <- rows :: Posted(r)
    requires PaymentsQueried(results, rows, bs)
    requires Distinct(methods) && forall g <- Concat(results) :: g.key in methods
    ensures SumBy(methods, (m: Method) => Carried(Concat(results), m).salesC)
         == SumBy(Across(rows, bs), NetSalesC) + SumBy(Across(rows, bs), ServiceC)
  {
    PaymentGroupsConserve(results, rows, bs);
    MergeConserves(Concat(results), methods);
  }

  // ----- Line revenue -----

  /** The overview's costed and uncosted revenue, over all businesses, are its net sales plus
      the order discounts the engine computed: no line is counted twice or dropped. */
  lemma RevenueSplitConserves(rows: seq<SaleRow>, bs: seq<Business>)
    requires forall r <- rows :: Posted(r)
    ensures var items, all := ItemsOf(Across(rows, bs)), Across(rows, bs);
            SumBy(items, Costed(SqlLineNetC)) + SumBy(items, Uncosted(SqlLineNetC))
              == SumBy(all, NetSalesC) + SumBy(all, EngineOrderDiscountC)
  {
    var all := Across(rows, bs);
    AcrossPosted(rows, bs);
    CostSplitsRevenue(ItemsOf(all), SqlLineNetC);
    ItemsPerSale(all, SqlLineNetC, LineNetsC);
    AttributionRecovered(all);
  }

  lemma {:induction false} AcrossPosted(rows: seq<SaleRow>, bs: seq<Business>)
    requires forall r <- rows :: Posted(r)
    ensures forall r <- Across(rows, bs) :: Posted(r)
  {
    if bs == [] {
    } else {
      AcrossPosted(rows, bs[1..]);
    }
  }

  // ----- The leaks report -----

  datatype DiscountTotals = DiscountTotals(saleDiscountC: int, lineDiscountC: int, scPwdDiscountC: int, netSalesC: int)

  function LineDiscountsC(s: SaleRow): int { SumBy(s.items, ItemDiscount) }

  /** discountTotalsSql. */
  function DiscountTotalsOf(rows: seq<SaleRow>, b: Business): DiscountTotals {
    var done := CompletedIn(rows, b);
    DiscountTotals(
      SumBy(done, (s: SaleRow) => s.discountC),
      SumBy(done, LineDiscountsC),
      SumBy(done, (s: SaleRow) => s.scPwdDiscountC),
      SumBy(done, NetSalesC))
  }

  lemma {:induction false} RemainderOfTotals(done: seq<SaleRow>)
    ensures SumBy(done, (s: SaleRow) => s.discountC)
            - (SumBy(done, LineDiscountsC) - SumBy(done, (s: SaleRow) => s.scPwdDiscountC))
         == SumBy(done, OrderLevelC)
  {
    if done == [] {
    } else {
      RemainderOfTotals(done[1..]);
    }
  }

  /** run: the remainder accumulated over businesses is the order discounts the engine
      computed, though no column stores them. */
  method OrderLevelDiscount(rows: seq<SaleRow>, bs: seq<Business>) returns (orderLevelC: int, netSalesC: int)
    requires forall r <- rows :: Posted(r)
    ensures orderLevelC == SumBy(Across(rows, bs), EngineOrderDiscountC)
    ensures netSalesC == SumBy(Across(rows, bs), NetSalesC)
    ensures SumBy(Across(rows, bs), LineNetsC) == netSalesC + orderLevelC
  {
    orderLevelC, netSalesC := 0, 0;
    for i := 0 to |bs|
      invariant orderLevelC == SumBy(Across(rows, bs[..i]), EngineOrderDiscountC)
      invariant netSalesC == SumBy(Across(rows, bs[..i]), NetSalesC)
      invariant forall r <- Across(rows, bs[..i]) :: Posted(r)
    {
      var done, totals := CompletedIn(rows, bs[i]), DiscountTotalsOf(rows, bs[i]);
      var linePromos := totals.lineDiscountC - totals.scPwdDiscountC;
      orderLevelC := orderLevelC + (totals.saleDiscountC - linePromos);
      netSalesC := netSalesC + totals.netSalesC;
      RemainderOfTotals(done);
      AttributionRecovered(done);
      AcrossStep(rows, bs, i);
      SumByAppend(Across(rows, bs[..i]), done, EngineOrderDiscountC);
      SumByAppend(Across(rows, bs[..i]), done, NetSalesC);
    }
    assert bs[..|bs|] == bs;
    AttributionRecovered(Across(rows, bs));
  }
}
