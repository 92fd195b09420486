/** What a shift's totals are, from the columns of the sale rows and cash movements
    (computeTotals in src/pos/shifts/shifts.service.ts). */
module ShiftSpec {
  import opened Common
  import opened SaleRecords
  import opened Shifts

  function SoldIn(shift: Id): SaleRow -> bool { (s: SaleRow) => s.shift == shift && s.status != Voided }

  function VoidedFrom(shift: Id): SaleRow -> bool { (s: SaleRow) => s.shift == shift && s.status == Voided }

  function RefundedFrom(shift: Id): SaleRow -> bool {
    (s: SaleRow) => s.status == Refunded && s.refundShift == Some(shift)
  }

  function PaidWith(m: Method): SaleRow -> bool { (s: SaleRow) => s.payments != [] && s.payments[0].means == m }

  function RowTotal(s: SaleRow): int { s.totalC }
  function RowSenior(s: SaleRow): int { s.scPwdDiscountC }
  function RowService(s: SaleRow): int { s.serviceChargeC }
  function MovedIn(m: CashMove): bool { m.inward }
  function MovedOut(m: CashMove): bool { !m.inward }
  function MovedC(m: CashMove): int { m.amountC }

  /** Sold is what the shift rang and did not void; a refund counts where it was given. */
  ghost predicate TotalsAre(t: ShiftTotals, sales: seq<SaleRow>, shift: Shift) {
    && SoldTotals(t, Filter(sales, SoldIn(shift.id)))
    && UndoneTotals(t, Filter(sales, VoidedFrom(shift.id)), Filter(sales, RefundedFrom(shift.id)))
    && CashTotals(t, shift)
  }

  ghost predicate SoldTotals(t: ShiftTotals, sold: seq<SaleRow>) {
    && t.grossC == SumBy(sold, RowTotal) && t.saleCount == |sold|
    && t.byMethod.Keys == {Cash, Card, Gcash, Maya, Other}
    && (forall m <- t.byMethod :: t.byMethod[m] == SumBy(Filter(sold, PaidWith(m)), RowTotal))
    && t.scPwdDiscountC == SumBy(sold, RowSenior) && t.serviceChargeC == SumBy(sold, RowService)
    && t.cashSalesC == SumBy(Filter(sold, PaidWith(Cash)), RowTotal)
  }

  ghost predicate UndoneTotals(t: ShiftTotals, voided: seq<SaleRow>, refunded: seq<SaleRow>) {
    && t.voidCount == |voided| && t.voidAmountC == SumBy(voided, RowTotal)
    && t.refundCount == |refunded| && t.refundAmountC == SumBy(refunded, RowTotal)
    && t.cashRefundsC == SumBy(Filter(refunded, PaidWith(Cash)), RowTotal)
  }

  ghost predicate CashTotals(t: ShiftTotals, shift: Shift) {
    && t.cashInC == SumBy(Filter(shift.moves, MovedIn), MovedC)
    && t.cashOutC == SumBy(Filter(shift.moves, MovedOut), MovedC)
    && t.expectedCashC == shift.openingC + t.cashSalesC - t.cashRefundsC + t.cashInC - t.cashOutC
  }

  lemma FilteredShare(sales: seq<SaleRow>, p: SaleRow -> bool, f: SaleRow -> int, shift: Id, facet: Facet)
    requires forall s <- sales :: Share(facet, shift)(s) == if p(s) then f(s) else 0
    ensures SumBy(Filter(sales, p), f) == FacetOf(sales, shift, facet)
  {
    SumFilter(sales, p, f, Share(facet, shift));
  }

  function IfPaid(m: Method): SaleRow -> int { (s: SaleRow) => if PaidWith(m)(s) then s.totalC else 0 }

  lemma PaidShare(sales: seq<SaleRow>, p: SaleRow -> bool, m: Method, shift: Id, facet: Facet)
    requires forall s <- sales :: Share(facet, shift)(s) == if p(s) then IfPaid(m)(s) else 0
    ensures SumBy(Filter(Filter(sales, p), PaidWith(m)), RowTotal) == FacetOf(sales, shift, facet)
  {
    SumFilter(Filter(sales, p), PaidWith(m), RowTotal, IfPaid(m));
    FilteredShare(sales, p, IfPaid(m), shift, facet);
  }

  lemma CountedShare(sales: seq<SaleRow>, p: SaleRow -> bool, shift: Id, facet: Facet)
    requires forall s <- sales :: Share(facet, shift)(s) == if p(s) then 1 else 0
    ensures |Filter(sales, p)| == FacetOf(sales, shift, facet)
  {
    CountFilter(sales, p, Share(facet, shift));
  }

  lemma SoldAre(sales: seq<SaleRow>, shift: Id)
    ensures var sold := Filter(sales, SoldIn(shift));
            && SumBy(sold, RowTotal) == FacetOf(sales, shift, Gross) && |sold| == FacetOf(sales, shift, SaleCount)
            && SumBy(sold, RowSenior) == FacetOf(sales, shift, ScPwdDiscount)
            && SumBy(sold, RowService) == FacetOf(sales, shift, Service)
            && SumBy(Filter(sold, PaidWith(Cash)), RowTotal) == FacetOf(sales, shift, CashSales)
            && forall m :: SumBy(Filter(sold, PaidWith(m)), RowTotal) == FacetOf(sales, shift, ByMethod(m))
  {
    FilteredShare(sales, SoldIn(shift), RowTotal, shift, Gross);
    CountedShare(sales, SoldIn(shift), shift, SaleCount);
    FilteredShare(sales, SoldIn(shift), RowSenior, shift, ScPwdDiscount);
    FilteredShare(sales, SoldIn(shift), RowService, shift, Service);
    PaidShare(sales, SoldIn(shift), Cash, shift, CashSales);
    forall m ensures SumBy(Filter(Filter(sales, SoldIn(shift)), PaidWith(m)), RowTotal)
                  == FacetOf(sales, shift, ByMethod(m))
    {
      PaidShare(sales, SoldIn(shift), m, shift, ByMethod(m));
    }
  }

  lemma UndoneAre(sales: seq<SaleRow>, shift: Id)
    ensures var voided, refunded := Filter(sales, VoidedFrom(shift)), Filter(sales, RefundedFrom(shift));
            && |voided| == FacetOf(sales, shift, VoidCount)
            && SumBy(voided, RowTotal) == FacetOf(sales, shift, VoidAmount)
            && |refunded| == FacetOf(sales, shift, RefundCount)
            && SumBy(refunded, RowTotal) == FacetOf(sales, shift, RefundAmount)
            && SumBy(Filter(refunded, PaidWith(Cash)), RowTotal) == FacetOf(sales, shift, CashRefunds)
  {
    CountedShare(sales, VoidedFrom(shift), shift, VoidCount);
    FilteredShare(sales, VoidedFrom(shift), RowTotal, shift, VoidAmount);
    CountedShare(sales, RefundedFrom(shift), shift, RefundCount);
    FilteredShare(sales, RefundedFrom(shift), RowTotal, shift, RefundAmount);
    PaidShare(sales, RefundedFrom(shift), Cash, shift, CashRefunds);
  }

  /** The totals recomputed for a shift are those, over any rows. */
  lemma TotalsOfAre(sales: seq<SaleRow>, shift: Shift)
    ensures TotalsAre(TotalsOf(sales, shift), sales, shift)
  {
    SoldTotalsAre(sales, shift);
    UndoneAre(sales, shift.id);
    CashTotalsAre(sales, shift);
  }

  lemma SoldTotalsAre(sales: seq<SaleRow>, shift: Shift)
    ensures SoldTotals(TotalsOf(sales, shift), Filter(sales, SoldIn(shift.id)))
  {
    SoldAre(sales, shift.id);
    MethodsAre(sales, shift);
  }

  lemma MethodsAre(sales: seq<SaleRow>, shift: Shift)
    ensures var methods := TotalsOf(sales, shift).byMethod;
            && methods.Keys == {Cash, Card, Gcash, Maya, Other}
            && forall m <- methods :: methods[m] == FacetOf(sales, shift.id, ByMethod(m))
  {}

  lemma CashTotalsAre(sales: seq<SaleRow>, shift: Shift)
    ensures CashTotals(TotalsOf(sales, shift), shift)
  {
    SumFilter(shift.moves, MovedIn, MovedC, MoveIn);
    SumFilter(shift.moves, MovedOut, MovedC, MoveOut);
  }
}

/** What each request to the till does, from its own fields. */
module ShiftAnswers {
  import opened Common
  import opened Totals
  import opened SaleRecords
  import opened SaleSpec
  import opened Shifts
  import opened ShiftSpec
  import opened ShiftTheorems

  /** Shift i is the one this terminal of this branch has open. */
  predicate OpenAt(t: Till, ctx: Ctx, i: nat) {
    i < |t.shifts| && t.shifts[i].ctx.terminal == ctx.terminal && t.shifts[i].ctx.branch == ctx.branch
    && !t.shifts[i].closed
  }

  /** The sale of that id is row i. */
  predicate SaleAt(t: Till, id: Id, i: nat) {
    i < |t.sales| && t.sales[i].id == id && forall j | 0 <= j < i :: t.sales[j].id != id
  }

  ghost predicate NoneOpen(t: Till, ctx: Ctx) { forall i: nat :: !OpenAt(t, ctx, i) }

  ghost predicate NoSale(t: Till, id: Id) { forall s <- t.sales :: s.id != id }

  lemma FoundOpen(t: Till, ctx: Ctx)
    ensures if FindOpen(t.shifts, ctx).None? then NoneOpen(t, ctx) else OpenAt(t, ctx, FindOpen(t.shifts, ctx).value)
  {
    if FindOpen(t.shifts, ctx).None? {
      forall i: nat ensures !OpenAt(t, ctx, i) {
        if i < |t.shifts| { assert t.shifts[i] in t.shifts && !OpenFor(t.shifts[i], ctx); }
      }
    }
  }

  lemma {:induction false} FoundSale(sales: seq<SaleRow>, id: Id)
    ensures if FindSale(sales, id).None? then forall s <- sales :: s.id != id
            else var i := FindSale(sales, id).value; i < |sales| && forall j | 0 <= j < i :: sales[j].id != id
  {
    if sales == [] {
    } else if sales[0].id != id {
      FoundSale(sales[1..], id);
      var r := FindSale(sales[1..], id);
      if r.Some? {
        forall j | 0 <= j < r.value + 1 ensures sales[j].id != id {
          if j > 0 { assert sales[1..][j - 1] == sales[j]; }
        }
      }
    }
  }

  /** A terminal opens a shift, with its opening cash, unless it has one open. */
  ghost predicate Opened(t: Till, u: Till, ctx: Ctx, id: Id, openingC: int) {
    u.sales == t.sales &&
    if NoneOpen(t, ctx) && forall s <- t.shifts :: s.id != id
    then u.shifts == t.shifts + [Shift(id, ctx, openingC, [], false, 0, 0)] else u == t
  }

  /** A cash movement joins the open shift's, if a reason is given. */
  ghost predicate CashMoved(t: Till, u: Till, ctx: Ctx, reasonGiven: bool, move: CashMove) {
    if !reasonGiven || NoneOpen(t, ctx) then u == t
    else exists i: nat :: OpenAt(t, ctx, i) &&
           u == t.(shifts := t.shifts[i := t.shifts[i].(moves := t.shifts[i].moves + [move])])
  }

  /** A draft is stored if its id is new, it passes its checks against the open shift, and the stock
      and key checks pass. */
  ghost predicate RungUp(t: Till, u: Till, a: Action)
    requires a.Ring?
  {
    if && NoSale(t, a.draft.id) && a.persisted && a.rates.Some? && a.refsOk
       && (exists i: nat :: OpenAt(t, a.ctx, i) && t.shifts[i].id == a.draft.shiftId)
       && a.draft.totals == ComputeTotals(a.draft.cart, a.rates.value)
       && PaysFor(a.draft.payment, a.draft.totals.totalC)
    then && u.shifts == t.shifts && |u.sales| == |t.sales| + 1 && u.sales[..|t.sales|] == t.sales
         && StoredAs(u.sales[|t.sales|], a.draft, a.ctx.branch, a.ctx.terminal, a.now)
    else u == t
  }

  /** A completed sale of the branch is voided while its shift is the terminal's open one. */
  ghost predicate VoidedBy(t: Till, u: Till, a: Action)
    requires a.Void?
  {
    (u == t || exists i: nat :: Voids(t, u, a, i))
    && ((exists i: nat :: Voidable(t, a, i)) ==> exists i: nat :: Voids(t, u, a, i))
  }

  ghost predicate Voidable(t: Till, a: Action, i: nat)
    requires a.Void?
  {
    SaleAt(t, a.saleId, i) && a.reasonGiven && t.sales[i].branch == a.ctx.branch && t.sales[i].status.Completed?
    && exists k: nat :: OpenAt(t, a.ctx, k) && t.shifts[k].id == t.sales[i].shift
  }

  ghost predicate Voids(t: Till, u: Till, a: Action, i: nat)
    requires a.Void?
  {
    Voidable(t, a, i) && u == t.(sales := t.sales[i := t.sales[i].(status := Voided)])
  }

  /** A completed sale of the branch is refunded, against its own shift if that is the open one. */
  ghost predicate RefundedBy(t: Till, u: Till, a: Action)
    requires a.Refund?
  {
    (u == t || exists i: nat :: Refunds(t, u, a, i))
    && ((exists i: nat :: Refundable(t, a, i)) ==> exists i: nat :: Refunds(t, u, a, i))
  }

  ghost predicate Refundable(t: Till, a: Action, i: nat)
    requires a.Refund?
  {
    SaleAt(t, a.saleId, i) && a.reasonGiven && t.sales[i].branch == a.ctx.branch && t.sales[i].status.Completed?
  }

  ghost predicate Refunds(t: Till, u: Till, a: Action, i: nat)
    requires a.Refund?
  {
    Refundable(t, a, i) &&
    var row := t.sales[i];
    var home := exists k: nat :: OpenAt(t, a.ctx, k) && t.shifts[k].id == row.shift;
    u == t.(sales := t.sales[i := row.(status := Refunded, refundShift := if home then Some(row.shift) else None)])
  }

  /** The open shift is closed with what was counted and what the totals expect. */
  ghost predicate ClosedBy(t: Till, u: Till, ctx: Ctx, countedC: int) {
    if NoneOpen(t, ctx) then u == t
    else exists i: nat, z: ShiftTotals :: OpenAt(t, ctx, i) && ClosedWith(t, u, i, countedC, z)
  }

  ghost predicate ClosedWith(t: Till, u: Till, i: nat, countedC: int, z: ShiftTotals)
    requires i < |t.shifts|
  {
    && TotalsAre(z, t.sales, t.shifts[i])
    && u.sales == t.sales
    && u.shifts == t.shifts[i := t.shifts[i].(closed := true, closingC := countedC, expectedC := z.expectedCashC)]
  }

  ghost predicate Requested(t: Till, u: Till, a: Action) {
    match a
    case Open(ctx, id, openingC) => Opened(t, u, ctx, id, openingC)
    case MoveCash(ctx, reasonGiven, move) => CashMoved(t, u, ctx, reasonGiven, move)
    case Ring(_, _, _, _, _, _) => RungUp(t, u, a)
    case Void(_, _, _) => VoidedBy(t, u, a)
    case Refund(_, _, _) => RefundedBy(t, u, a)
    case Close(ctx, countedC) => ClosedBy(t, u, ctx, countedC)
  }

  lemma OnlyOneOpen(t: Till, ctx: Ctx, i: nat, k: nat)
    requires Inv(t) && OpenAt(t, ctx, i) && OpenAt(t, ctx, k)
    ensures i == k
  {
    assert t.shifts[i].ctx == ctx && t.shifts[k].ctx == ctx;
  }

  /** The id found open is the open shift's. */
  lemma OpenIdIs(t: Till, ctx: Ctx, id: Id)
    requires Inv(t)
    ensures OpenId(t.shifts, ctx) == Some(id) <==> exists i: nat :: OpenAt(t, ctx, i) && t.shifts[i].id == id
  {
    FoundOpen(t, ctx);
    if i: nat :| OpenAt(t, ctx, i) && t.shifts[i].id == id { OnlyOneOpen(t, ctx, i, FindOpen(t.shifts, ctx).value); }
  }

  /** Each request does that, in every state the till can be in. */
  lemma RequestIs(t: Till, a: Action)
    requires Inv(t)
    ensures Requested(t, Do(t, a), a)
  {
    match a {
      case Open(ctx, _, _) => FoundOpen(t, ctx);
      case MoveCash(ctx, _, _) => FoundOpen(t, ctx);
      case Ring(_, _, _, _, _, _) => RingIs(t, a);
      case Void(_, _, _) => VoidIs(t, a);
      case Refund(_, _, _) => RefundIs(t, a);
      case Close(ctx, countedC) => CloseIs(t, ctx, countedC);
    }
  }

  lemma RingIs(t: Till, a: Action)
    requires Inv(t) && a.Ring?
    ensures RungUp(t, Do(t, a), a)
  {
    FoundSale(t.sales, a.draft.id);
    OpenIdIs(t, a.ctx, a.draft.shiftId);
    DraftAcceptedExactly(a.draft, OpenId(t.shifts, a.ctx), a.rates, a.refsOk);
    SaleIsStored(a.draft, a.ctx.branch, a.ctx.terminal, a.now);
    if FindSale(t.sales, a.draft.id).Some? {
      assert t.sales[FindSale(t.sales, a.draft.id).value] in t.sales;
    }
  }

  lemma OnlySaleAt(t: Till, id: Id, i: nat)
    requires SaleAt(t, id, i)
    ensures FindSale(t.sales, id) == Some(i)
  {
    FoundSale(t.sales, id);
    assert t.sales[i] in t.sales;
  }

  lemma VoidIs(t: Till, a: Action)
    requires Inv(t) && a.Void?
    ensures VoidedBy(t, Do(t, a), a)
  {
    FoundSale(t.sales, a.saleId);
    var found := FindSale(t.sales, a.saleId);
    if found.Some? {
      var row := t.sales[found.value];
      OpenIdIs(t, a.ctx, row.shift);
      VoidedExactly(row, a.ctx.branch, a.reasonGiven, OpenId(t.shifts, a.ctx));
      if Undone(t, a).Some? { assert Voids(t, Do(t, a), a, found.value); }
    }
    if i: nat :| Voidable(t, a, i) { OnlySaleAt(t, a.saleId, i); }
  }

  lemma RefundIs(t: Till, a: Action)
    requires Inv(t) && a.Refund?
    ensures RefundedBy(t, Do(t, a), a)
  {
    FoundSale(t.sales, a.saleId);
    var found := FindSale(t.sales, a.saleId);
    if found.Some? {
      var row := t.sales[found.value];
      OpenIdIs(t, a.ctx, row.shift);
      RefundedExactly(row, a.ctx.branch, a.reasonGiven, OpenId(t.shifts, a.ctx));
      if Undone(t, a).Some? { assert Refunds(t, Do(t, a), a, found.value); }
    }
    if i: nat :| Refundable(t, a, i) { OnlySaleAt(t, a.saleId, i); }
  }

  lemma CloseIs(t: Till, ctx: Ctx, countedC: int)
    ensures ClosedBy(t, Do(t, Close(ctx, countedC)), ctx, countedC)
  {
    FoundOpen(t, ctx);
    if FindOpen(t.shifts, ctx).Some? {
      var i := FindOpen(t.shifts, ctx).value;
      var z := TotalsOf(t.sales, t.shifts[i]);
      TotalsOfAre(t.sales, t.shifts[i]);
      ExpectedIs(t.sales, t.shifts[i]);
      CloseRow(t, ctx, countedC, i, z);
      ClosedAt(t, Do(t, Close(ctx, countedC)), ctx, i, countedC, z);
    }
  }

  lemma CloseRow(t: Till, ctx: Ctx, countedC: int, i: nat, z: ShiftTotals)
    requires FindOpen(t.shifts, ctx) == Some(i) && z.expectedCashC == ExpectedCash(t.sales, t.shifts[i])
    ensures var u := Do(t, Close(ctx, countedC));
            && u.sales == t.sales
            && u.shifts
                 == t.shifts[i := t.shifts[i].(closed := true, closingC := countedC, expectedC := z.expectedCashC)]
  {}

  lemma ClosedAt(t: Till, u: Till, ctx: Ctx, i: nat, countedC: int, z: ShiftTotals)
    requires OpenAt(t, ctx, i) && ClosedWith(t, u, i, countedC, z)
    ensures ClosedBy(t, u, ctx, countedC)
  {}

  lemma ExpectedIs(sales: seq<SaleRow>, shift: Shift)
    ensures TotalsOf(sales, shift).expectedCashC == ExpectedCash(sales, shift)
  {}
}
