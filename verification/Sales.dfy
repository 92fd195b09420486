/** The sale a terminal submits, and the row completeSale writes for it
    (src/pos/sales/sales.service.ts). */
module SaleRecords {
  import opened Common
  import opened Money
  import opened Totals
  import opened TotalsProofs

  datatype Method = Cash | Card | Gcash | Maya | Other

  datatype Payment = Payment(id: Id, means: Method, amountC: int, tenderedC: int, changeC: int)

  datatype Draft = Draft(id: Id, receiptNo: string, shiftId: Id, cart: Cart, totals: CartTotals, payment: Payment)

  datatype Item = Item(
    product: Option<Id>,
    variant: Option<Id>,
    qtyMilli: int,
    unitPriceC: int,
    modifierDeltasC: seq<int>,
    costC: Option<int>,
    discountC: int,
    discountId: Option<Id>)

  datatype Status = Completed | Voided | Refunded

  datatype SaleRow = SaleRow(
    id: Id,
    branch: Id,
    terminal: Id,
    shift: Id,
    receiptNo: string,
    orderType: OrderType,
    status: Status,
    subtotalC: int,
    discountC: int,
    discountId: Option<Id>,
    serviceChargeC: int,
    scPwd: bool,
    scPwdDiscountC: int,
    vatExemptC: int,
    taxC: int,
    totalC: int,
    createdAt: int,
    items: seq<Item>,
    payments: seq<Payment>,
    refundShift: Option<Id>,
    draft: Draft)

  datatype Rejection =
    | ShiftNotOpen | BusinessNotFound | BadReference | TotalsMismatch
    | AmountMismatch | TenderedShort | ChangeMismatch

  function AssertPayment(p: Payment, totalC: int): Option<Rejection> {
    if p.amountC != totalC then Some(AmountMismatch)
    else if p.means.Cash? && p.tenderedC < totalC then Some(TenderedShort)
    else if p.means.Cash? && p.changeC != p.tenderedC - totalC then Some(ChangeMismatch)
    else None
  }

  /** Steps 2 to 6 of completeSale. `openShift` is the terminal's open shift and
      `refsOk` the outcome of the product and discount lookups. */
  function CheckDraft(d: Draft, openShift: Option<Id>, rates: Option<Rates>, refsOk: bool): Option<Rejection> {
    if openShift != Some(d.shiftId) then Some(ShiftNotOpen)
    else if rates.None? then Some(BusinessNotFound)
    else if !refsOk then Some(BadReference)
    else if ComputeTotals(d.cart, rates.value) != d.totals then Some(TotalsMismatch)
    else AssertPayment(d.payment, d.totals.totalC)
  }

  /** First line total with the given id. */
  function FindLine(lines: seq<LineTotals>, id: Id): Option<LineTotals> {
    if lines == [] then None
    else if lines[0].lineId == id then Some(lines[0])
    else FindLine(lines[1..], id)
  }

  function NamedId(d: Option<DiscountSpec>): Option<Id> {
    if d.Some? && d.value.Named? then Some(d.value.discountId) else None
  }

  function BuildItem(line: CartLine, lines: seq<LineTotals>): Item {
    var lt := FindLine(lines, line.id);
    Item(line.product, line.variant, line.qtyMilli, line.unitPriceC, line.modifierDeltasC, line.costC,
         if lt.Some? then lt.value.grossC - lt.value.netC else 0,
         if lt.Some? && lt.value.applied.Promo? then NamedId(line.discount) else None)
  }

  function BuildItems(lines: seq<CartLine>, totals: seq<LineTotals>): (r: seq<Item>)
    ensures |r| == |lines|
  {
    seq(|lines|, i requires 0 <= i < |lines| => BuildItem(lines[i], totals))
  }

  function BuildSaleData(d: Draft, branch: Id, terminal: Id, now: int): SaleRow {
    var t := d.totals;
    SaleRow(d.id, branch, terminal, d.shiftId, d.receiptNo, d.cart.orderType, Completed,
            t.subtotalC, t.promoDiscountC, NamedId(d.cart.orderDiscount), t.serviceChargeC,
            d.cart.scPwd, t.scPwdDiscountC, t.vatExemptSalesC, t.vatC, t.totalC, now,
            BuildItems(d.cart.lines, t.lines), [d.payment], None, d)
  }

  /** The row a void leaves, when voidSale accepts it: the sale's own shift must be the
      terminal's open one. */
  function VoidRow(row: SaleRow, branch: Id, reasonGiven: bool, openShift: Option<Id>): Option<SaleRow> {
    if !reasonGiven || row.branch != branch || !row.status.Completed? || openShift != Some(row.shift) then None
    else Some(row.(status := Voided))
  }

  /** The row a refund leaves: the refund shift is set only inside the sale's own open shift. */
  function RefundRow(row: SaleRow, branch: Id, reasonGiven: bool, openShift: Option<Id>): Option<SaleRow> {
    if !reasonGiven || row.branch != branch || !row.status.Completed? then None
    else Some(row.(status := Refunded, refundShift := if openShift == Some(row.shift) then openShift else None))
  }

  /** Two states of one sale: they differ at most in the void/refund columns. */
  predicate SameSale(a: SaleRow, b: SaleRow) {
    a == b.(status := a.status, refundShift := a.refundShift)
  }

  predicate DistinctLineIds(lines: seq<CartLine>) {
    forall i, j | 0 <= i < j < |lines| :: lines[i].id != lines[j].id
  }

  /** A row as completeSale leaves it, whatever happened to its status since. */
  ghost predicate Posted(row: SaleRow) {
    && SameSale(row, BuildSaleData(row.draft, row.branch, row.terminal, row.createdAt))
    && DistinctLineIds(row.draft.cart.lines)
    && (exists rates :: row.draft.totals == ComputeTotals(row.draft.cart, rates))
    && AssertPayment(row.draft.payment, row.draft.totals.totalC).None?
  }

  lemma CheckedDraftIsPosted(d: Draft, openShift: Option<Id>, rates: Option<Rates>, refsOk: bool,
                             branch: Id, terminal: Id, now: int)
    requires CheckDraft(d, openShift, rates, refsOk).None? && DistinctLineIds(d.cart.lines)
    ensures Posted(BuildSaleData(d, branch, terminal, now))
    ensures openShift == Some(BuildSaleData(d, branch, terminal, now).shift)
  {
    assert d.totals == ComputeTotals(d.cart, rates.value);
  }

  function NetSalesC(row: SaleRow): int { row.subtotalC - row.discountC - row.scPwdDiscountC }

  function PaidC(row: SaleRow): int { SumBy(row.payments, (p: Payment) => p.amountC) }

  /** The stored VAT columns are the engine's split of what was sold with VAT in it. */
  lemma StoredVatSplits(row: SaleRow) returns (tax: nat)
    requires Posted(row)
    ensures row.taxC == VatIncluded(row.totalC - row.vatExemptC, tax)
    ensures tax < RATE_SCALE && row.totalC >= row.vatExemptC ==> 0 <= row.taxC <= row.totalC - row.vatExemptC
  {
    var rates :| row.draft.totals == ComputeTotals(row.draft.cart, rates);
    tax := rates.tax;
    if tax < RATE_SCALE { Partition(row.draft.cart, rates); }
  }

  /** What a posted sale was paid is its net sales plus its service charge. */
  lemma PaymentCoversSale(row: SaleRow)
    requires Posted(row)
    ensures row.totalC == NetSalesC(row) + row.serviceChargeC
    ensures |row.payments| == 1 && PaidC(row) == row.totalC
  {
    var rates :| row.draft.totals == ComputeTotals(row.draft.cart, rates);
    var f := (p: Payment) => p.amountC;
    assert SumBy(row.payments, f) == f(row.payments[0]) + SumBy(row.payments[1..], f);
  }
}

/** Discount attribution: what the reports derive from stored columns is what the
    engine computed and never stored. */
module Attribution {
  import opened Common
  import opened Money
  import opened Totals
  import opened TotalsProofs
  import opened SaleRecords

  function ItemDiscount(i: Item): int { i.discountC }

  /** `round(qty * (unit_price + mods)) - discount`, with round(numeric) half away from zero. */
  function SqlLineNetC(i: Item): int {
    MulQtyPriceC(i.qtyMilli, i.unitPriceC + SumBy(i.modifierDeltasC, (d: int) => d)) - i.discountC
  }

  /** `round(qty * cost_snapshot)`; a line without a cost has none. */
  function SqlLineCostC(i: Item): int { if i.costC.Some? then MulQtyPriceC(i.qtyMilli, i.costC.value) else 0 }

  /** `s.discount - (line_discounts - s.sc_pwd_discount)`. */
  function OrderLevelC(row: SaleRow): int {
    row.discountC - (SumBy(row.items, ItemDiscount) - row.scPwdDiscountC)
  }

  /** The order discount the engine computed for the draft. */
  function EngineOrderDiscountC(row: SaleRow): int {
    OrderDiscountC(row.draft.totals.lines, row.draft.cart.orderDiscount)
  }

  function LineNetsC(row: SaleRow): int { SumBy(row.items, SqlLineNetC) }

  lemma {:induction false} FindLineAt(lines: seq<CartLine>, totals: seq<LineTotals>, i: nat)
    requires |totals| == |lines| && i < |lines| && DistinctLineIds(lines)
    requires forall j | 0 <= j < |lines| :: totals[j].lineId == lines[j].id
    ensures FindLine(totals, lines[i].id) == Some(totals[i])
  {
    if i == 0 {
    } else {
      assert lines[0].id != lines[i].id;
      assert lines[1..][i - 1] == lines[i] && totals[1..][i - 1] == totals[i];
      assert forall j | 0 <= j < |lines[1..]| :: totals[1..][j].lineId == lines[1..][j].id;
      FindLineAt(lines[1..], totals[1..], i - 1);
    }
  }

  lemma ItemOf(cart: Cart, s: Rates, i: nat)
    requires DistinctLineIds(cart.lines) && i < |cart.lines|
    ensures var totals := ComputeTotals(cart, s).lines;
            var item := BuildItems(cart.lines, totals)[i];
            && ItemDiscount(item) == LinePromo(totals[i]) + LineScPwd(totals[i])
            && SqlLineNetC(item) == totals[i].netC
  {
    FindLineAt(cart.lines, ComputeTotals(cart, s).lines, i);
  }

  function BothDiscounts(l: LineTotals): int { LinePromo(l) + LineScPwd(l) }
  function Net(l: LineTotals): int { l.netC }

  lemma ItemSums(cart: Cart, s: Rates)
    requires DistinctLineIds(cart.lines)
    ensures var totals := ComputeTotals(cart, s).lines;
            var items := BuildItems(cart.lines, totals);
            && SumBy(items, ItemDiscount) == SumBy(totals, LinePromo) + SumBy(totals, LineScPwd)
            && SumBy(items, SqlLineNetC) == SumBy(totals, Exempt) + SumBy(totals, OrderEligible)
  {
    var totals := ComputeTotals(cart, s).lines;
    var items := BuildItems(cart.lines, totals);
    forall i | 0 <= i < |items|
      ensures ItemDiscount(items[i]) == BothDiscounts(totals[i]) && SqlLineNetC(items[i]) == Net(totals[i])
    {
      ItemOf(cart, s, i);
    }
    SumByMapped(items, totals, BothDiscounts, ItemDiscount);
    SumByMapped(items, totals, Net, SqlLineNetC);
    SumByLinear(totals, LinePromo, LineScPwd, BothDiscounts, 1, 1);
    SumByLinear(totals, Exempt, OrderEligible, Net, 1, 1);
  }

  /** One sale: the derived remainder is the engine's order discount, and the line
      nets exceed net sales by exactly that discount. */
  lemma SaleAttribution(row: SaleRow)
    requires Posted(row)
    ensures OrderLevelC(row) == EngineOrderDiscountC(row)
    ensures LineNetsC(row) == NetSalesC(row) + EngineOrderDiscountC(row)
  {
    var cart := row.draft.cart;
    var s :| row.draft.totals == ComputeTotals(cart, s);
    ItemSums(cart, s);
    DiscountedSplit(cart, s);
  }

  /** Any set of posted sales. */
  lemma {:induction false} AttributionRecovered(rows: seq<SaleRow>)
    requires forall r <- rows :: Posted(r)
    ensures SumBy(rows, OrderLevelC) == SumBy(rows, EngineOrderDiscountC)
    ensures SumBy(rows, LineNetsC) == SumBy(rows, NetSalesC) + SumBy(rows, EngineOrderDiscountC)
  {
    if rows == [] {
    } else {
      SaleAttribution(rows[0]);
      AttributionRecovered(rows[1..]);
    }
  }
}
