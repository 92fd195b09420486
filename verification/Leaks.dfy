/** Named discounts in the leaks report (src/portal/analytics/reports/leaks.sql.ts,
    src/portal/analytics/profit/leaks-report.service.ts): what is reported under a discount's id
    is what the engine took off because of it. */
module NamedDiscounts {
  import opened Common
  import opened Totals
  import opened SaleRecords
  import opened Attribution
  import opened Grouping
  import opened SalesReports

  // ----- The two queries -----

  predicate Named(i: Item) { i.discountId.Some? }

  predicate OrderNamed(s: SaleRow) { s.discountId.Some? }

  function ItemDiscountId(i: Item): Id { if i.discountId.Some? then i.discountId.value else 0 }

  function SaleDiscountId(s: SaleRow): Id { if s.discountId.Some? then s.discountId.value else 0 }

  /** lineDiscountsSql: completed sales' lines that carry a discount id, grouped by it. */
  ghost predicate LineQuery(groups: seq<Group<Id>>, done: seq<SaleRow>) {
    IsGrouping(groups, Filter(ItemsOf(done), Named), ItemDiscountId, ItemDiscount)
  }

  /** orderDiscountsSql: completed sales that carry a discount id, grouped by it, with the
      derived order-level remainder as the amount. */
  ghost predicate OrderQuery(groups: seq<Group<Id>>, done: seq<SaleRow>) {
    IsGrouping(groups, Filter(done, OrderNamed), SaleDiscountId, OrderLevelC)
  }

  /** `run` reads both queries of each business in turn. */
  ghost predicate BothQueried(results: seq<seq<Group<Id>>>, rows: seq<SaleRow>, bs: seq<Business>) {
    && |results| == 2 * |bs|
    && forall i | 0 <= i < |bs| :: LineQuery(results[2 * i], CompletedIn(rows, bs[i]))
                                && OrderQuery(results[2 * i + 1], CompletedIn(rows, bs[i]))
  }

  // ----- What the engine took off because of one discount -----

  /** A cart line with the totals computed for it. */
  datatype Priced = Priced(line: CartLine, totals: LineTotals) {
    /** The line's promo is applied, and is the named discount d's. */
    predicate PromoFrom(d: Id) { totals.applied.Promo? && NamedId(line.discount) == Some(d) }
  }

  function Zip(lines: seq<CartLine>, totals: seq<LineTotals>): (r: seq<Priced>)
    requires |lines| == |totals|
    ensures |r| == |lines|
    ensures forall i | 0 <= i < |r| :: r[i] == Priced(lines[i], totals[i])
  {
    seq(|lines|, i requires 0 <= i < |lines| => Priced(lines[i], totals[i]))
  }

  function PromoOf(d: Id): Priced -> int { (x: Priced) => if x.PromoFrom(d) then x.totals.promoDiscountC else 0 }

  function PromoUse(d: Id): Priced -> int { (x: Priced) => if x.PromoFrom(d) then 1 else 0 }

  /** A posted sale's cart lines, each with the totals computed for it. */
  function Computed(s: SaleRow): seq<Priced> {
    if |s.draft.cart.lines| == |s.draft.totals.lines| then Zip(s.draft.cart.lines, s.draft.totals.lines) else []
  }

  /** Promos applied from the discount on the sale's lines, plus the order discount computed
      from it. */
  function TakenOff(d: Id): SaleRow -> int {
    (s: SaleRow) => SumBy(Computed(s), PromoOf(d))
                    + if NamedId(s.draft.cart.orderDiscount) == Some(d) then EngineOrderDiscountC(s) else 0
  }

  function Uses(d: Id): SaleRow -> int {
    (s: SaleRow) => SumBy(Computed(s), PromoUse(d)) + if NamedId(s.draft.cart.orderDiscount) == Some(d) then 1 else 0
  }

  // ----- One sale -----

  function OnItem(d: Id, weight: Item -> int): Item -> int {
    (i: Item) => if i.discountId == Some(d) then weight(i) else 0
  }

  function ItemsOn(d: Id, weight: Item -> int): SaleRow -> int { (s: SaleRow) => SumBy(s.items, OnItem(d, weight)) }

  function OnSale(d: Id, weight: SaleRow -> int): SaleRow -> int {
    (s: SaleRow) => if s.discountId == Some(d) then weight(s) else 0
  }

  lemma PromoIsTaken(line: CartLine, scPwd: bool, tax: nat)
    ensures var l := LineTotal(line, scPwd, tax); l.applied.Promo? ==> l.grossC - l.netC == l.promoDiscountC
  {}

  /** A stored line carries a discount's id, and the promo's amount, exactly when the engine
      applied that discount's promo to it. */
  lemma ItemCarriesPromo(line: CartLine, totals: seq<LineTotals>, lt: LineTotals, d: Id)
    requires FindLine(totals, line.id) == Some(lt)
    requires lt.applied.Promo? ==> lt.grossC - lt.netC == lt.promoDiscountC
    ensures OnItem(d, ItemDiscount)(BuildItem(line, totals)) == PromoOf(d)(Priced(line, lt))
    ensures OnItem(d, Each)(BuildItem(line, totals)) == PromoUse(d)(Priced(line, lt))
  {
    var item := BuildItem(line, totals);
    assert item.discountId == if lt.applied.Promo? then NamedId(line.discount) else None;
    assert Priced(line, lt).PromoFrom(d) <==> item.discountId == Some(d);
    assert Each(item) == 1 && ItemDiscount(item) == lt.grossC - lt.netC;
  }

  lemma ItemsCarryPromos(lines: seq<CartLine>, totals: seq<LineTotals>, scPwd: bool, tax: nat, d: Id)
    requires DistinctLineIds(lines) && totals == LineTotalsOf(lines, scPwd, tax)
    ensures SumBy(BuildItems(lines, totals), OnItem(d, ItemDiscount)) == SumBy(Zip(lines, totals), PromoOf(d))
    ensures SumBy(BuildItems(lines, totals), OnItem(d, Each)) == SumBy(Zip(lines, totals), PromoUse(d))
  {
    var items, zipped := BuildItems(lines, totals), Zip(lines, totals);
    forall i | 0 <= i < |items|
      ensures OnItem(d, ItemDiscount)(items[i]) == PromoOf(d)(zipped[i])
      ensures OnItem(d, Each)(items[i]) == PromoUse(d)(zipped[i])
    {
      FindLineAt(lines, totals, i);
      PromoIsTaken(lines[i], scPwd, tax);
      ItemCarriesPromo(lines[i], totals, totals[i], d);
    }
    SumByMapped(items, zipped, PromoOf(d), OnItem(d, ItemDiscount));
    SumByMapped(items, zipped, PromoUse(d), OnItem(d, Each));
  }

  lemma StoredItems(s: SaleRow) returns (tax: nat)
    requires Posted(s)
    ensures var cart := s.draft.cart;
            && DistinctLineIds(cart.lines) && s.draft.totals.lines == LineTotalsOf(cart.lines, cart.scPwd, tax)
            && s.items == BuildItems(cart.lines, s.draft.totals.lines)
            && s.discountId == NamedId(cart.orderDiscount)
  {
    var rates :| s.draft.totals == ComputeTotals(s.draft.cart, rates);
    tax := rates.tax;
  }

  lemma SaleCarries(s: SaleRow, d: Id)
    requires Posted(s)
    ensures ItemsOn(d, ItemDiscount)(s) + OnSale(d, OrderLevelC)(s) == TakenOff(d)(s)
    ensures ItemsOn(d, Each)(s) + OnSale(d, Each)(s) == Uses(d)(s)
  {
    var cart, totals := s.draft.cart, s.draft.totals.lines;
    var tax := StoredItems(s);
    SaleAttribution(s);
    ItemsCarryPromos(cart.lines, totals, cart.scPwd, tax, d);
    assert Computed(s) == Zip(cart.lines, totals);
    assert Each(s) == 1;
  }

  // ----- One business -----

  /** Grouping the rows that carry an id is grouping them all by whether they carry it. */
  lemma {:induction false} CarriedBy<T>(items: seq<T>, has: T -> bool, key: T -> Id, weight: T -> int, on: T -> int,
      d: Id)
    requires forall x <- items :: on(x) == if has(x) && key(x) == d then weight(x) else 0
    ensures KeyTotal(Filter(items, has), key, weight, d) == SumBy(items, on)
  {
    if items == [] {
    } else {
      CarriedBy(items[1..], has, key, weight, on, d);
      var head := if has(items[0]) then [items[0]] else [];
      SumByAppend(head, Filter(items[1..], has), OnKey(key, weight, d));
      if head != [] {
        assert SumBy(head, OnKey(key, weight, d)) == OnKey(key, weight, d)(head[0]) + SumBy([], OnKey(key, weight, d));
      }
    }
  }

  lemma LineGroups(groups: seq<Group<Id>>, done: seq<SaleRow>, d: Id)
    requires LineQuery(groups, done)
    ensures SumBy(groups, SalesOn(d)) == SumBy(done, ItemsOn(d, ItemDiscount))
    ensures SumBy(groups, CountOn(d)) == SumBy(done, ItemsOn(d, Each))
  {
    var items := ItemsOf(done);
    GroupingExact(groups, Filter(items, Named), ItemDiscountId, ItemDiscount, d);
    CarriedBy(items, Named, ItemDiscountId, ItemDiscount, OnItem(d, ItemDiscount), d);
    CarriedBy(items, Named, ItemDiscountId, Each, OnItem(d, Each), d);
    ItemsPerSale(done, OnItem(d, ItemDiscount), ItemsOn(d, ItemDiscount));
    ItemsPerSale(done, OnItem(d, Each), ItemsOn(d, Each));
  }

  lemma OrderGroups(groups: seq<Group<Id>>, done: seq<SaleRow>, d: Id)
    requires OrderQuery(groups, done)
    ensures SumBy(groups, SalesOn(d)) == SumBy(done, OnSale(d, OrderLevelC))
    ensures SumBy(groups, CountOn(d)) == SumBy(done, OnSale(d, Each))
  {
    GroupingExact(groups, Filter(done, OrderNamed), SaleDiscountId, OrderLevelC, d);
    CarriedBy(done, OrderNamed, SaleDiscountId, OrderLevelC, OnSale(d, OrderLevelC), d);
    CarriedBy(done, OrderNamed, SaleDiscountId, Each, OnSale(d, Each), d);
  }

  lemma BusinessNamed(lineGroups: seq<Group<Id>>, orderGroups: seq<Group<Id>>, done: seq<SaleRow>, d: Id)
    requires LineQuery(lineGroups, done) && OrderQuery(orderGroups, done)
    requires forall s <- done :: Posted(s)
    ensures SumBy(lineGroups, SalesOn(d)) + SumBy(orderGroups, SalesOn(d)) == SumBy(done, TakenOff(d))
    ensures SumBy(lineGroups, CountOn(d)) + SumBy(orderGroups, CountOn(d)) == SumBy(done, Uses(d))
  {
    LineGroups(lineGroups, done, d);
    OrderGroups(orderGroups, done, d);
    forall s <- done
      ensures TakenOff(d)(s) == 1 * ItemsOn(d, ItemDiscount)(s) + 1 * OnSale(d, OrderLevelC)(s)
      ensures Uses(d)(s) == 1 * ItemsOn(d, Each)(s) + 1 * OnSale(d, Each)(s)
    {
      SaleCarries(s, d);
    }
    SumByLinear(done, ItemsOn(d, ItemDiscount), OnSale(d, OrderLevelC), TakenOff(d), 1, 1);
    SumByLinear(done, ItemsOn(d, Each), OnSale(d, Each), Uses(d), 1, 1);
  }

  // ----- All businesses, merged by id -----

  /** The first business's two queries, and the others'. */
  lemma BothQueriedTail(results: seq<seq<Group<Id>>>, rows: seq<SaleRow>, bs: seq<Business>)
    requires BothQueried(results, rows, bs) && bs != []
    ensures LineQuery(results[0], CompletedIn(rows, bs[0])) && OrderQuery(results[1], CompletedIn(rows, bs[0]))
    ensures BothQueried(results[2..], rows, bs[1..])
  {
    var later := results[2..];
    assert results[2 * 0] == results[0] && results[2 * 0 + 1] == results[1];
    forall i | 0 <= i < |bs[1..]|
      ensures LineQuery(later[2 * i], CompletedIn(rows, bs[1..][i]))
           && OrderQuery(later[2 * i + 1], CompletedIn(rows, bs[1..][i]))
    {
      assert later[2 * i] == results[2 * (i + 1)] && later[2 * i + 1] == results[2 * (i + 1) + 1];
    }
  }

  /** For each discount, the merged amount is what the engine took off because of it, on lines
      and on orders, in the completed sales of the scope, and the merged count how often. */
  lemma {:induction false} NamedDiscountExact(results: seq<seq<Group<Id>>>, rows: seq<SaleRow>, bs: seq<Business>,
      d: Id)
    requires BothQueried(results, rows, bs) && forall s <- rows :: Posted(s)
    ensures Carried(Concat(results), d).salesC == SumBy(Across(rows, bs), TakenOff(d))
    ensures Carried(Concat(results), d).transactions == SumBy(Across(rows, bs), Uses(d))
    decreases |bs|
  {
    if bs == [] {
    } else {
      var done, rest := CompletedIn(rows, bs[0]), Across(rows, bs[1..]);
      BothQueriedTail(results, rows, bs);
      BusinessNamed(results[0], results[1], done, d);
      NamedDiscountExact(results[2..], rows, bs[1..], d);
      FirstTwo(results, d);
      SumByAppend(done, rest, TakenOff(d));
      SumByAppend(done, rest, Uses(d));
    }
  }

  lemma FirstTwo(results: seq<seq<Group<Id>>>, d: Id)
    requires |results| >= 2
    ensures Carried(Concat(results), d).salesC
         == SumBy(results[0], SalesOn(d)) + SumBy(results[1], SalesOn(d)) + Carried(Concat(results[2..]), d).salesC
    ensures Carried(Concat(results), d).transactions
         == SumBy(results[0], CountOn(d)) + SumBy(results[1], CountOn(d))
              + Carried(Concat(results[2..]), d).transactions
  {
    assert results[1..][1..] == results[2..];
    SumByAppend(results[0], Concat(results[1..]), SalesOn(d));
    SumByAppend(results[1], Concat(results[2..]), SalesOn(d));
    SumByAppend(results[0], Concat(results[1..]), CountOn(d));
    SumByAppend(results[1], Concat(results[2..]), CountOn(d));
  }

  /** The report's merge of all the queries, discount by discount. */
  method NamedDiscountTotals(results: seq<seq<Group<Id>>>, ghost rows: seq<SaleRow>, ghost bs: seq<Business>)
    returns (named: map<Id, Acc>)
    requires BothQueried(results, rows, bs) && forall s <- rows :: Posted(s)
    ensures forall d :: AccOf(named, d) == Acc(SumBy(Across(rows, bs), TakenOff(d)), SumBy(Across(rows, bs), Uses(d)))
  {
    named := MergeGroups(results);
    forall d ensures AccOf(named, d) == Acc(SumBy(Across(rows, bs), TakenOff(d)), SumBy(Across(rows, bs), Uses(d))) {
      NamedDiscountExact(results, rows, bs, d);
    }
  }
}
