/** Terminal shifts, cash movements and the X/Z totals (src/pos/shifts/shifts.service.ts),
    run serially together with the sale, void and refund requests that feed them. */
module Shifts {
  import opened Common
  import opened Totals
  import opened SaleRecords

  datatype CashMove = CashMove(inward: bool, amountC: int)

  /** `branch` and `terminal` of the request. */
  datatype Ctx = Ctx(terminal: Id, branch: Id)

  datatype Shift = Shift(
    id: Id,
    ctx: Ctx,
    openingC: int,
    moves: seq<CashMove>,
    closed: bool,
    closingC: int,
    expectedC: int)

  datatype Till = Till(shifts: seq<Shift>, sales: seq<SaleRow>)

  datatype ShiftTotals = ShiftTotals(
    grossC: int,
    saleCount: int,
    byMethod: map<Method, int>,
    voidCount: int,
    voidAmountC: int,
    refundCount: int,
    refundAmountC: int,
    scPwdDiscountC: int,
    serviceChargeC: int,
    cashSalesC: int,
    cashRefundsC: int,
    cashInC: int,
    cashOutC: int,
    expectedCashC: int)

  /** The single payment's method; undefined without payments. */
  function MethodOf(s: SaleRow): Option<Method> {
    if s.payments == [] then None else Some(s.payments[0].means)
  }

  predicate Sold(s: SaleRow, shift: Id) { s.shift == shift && !s.status.Voided? }
  predicate VoidedIn(s: SaleRow, shift: Id) { s.shift == shift && s.status.Voided? }
  predicate RefundedIn(s: SaleRow, shift: Id) { s.status.Refunded? && s.refundShift == Some(shift) }

  function CashTotal(s: SaleRow): int { if MethodOf(s) == Some(Cash) then s.totalC else 0 }
  function TotalC(s: SaleRow): int { s.totalC }

  function MoveIn(m: CashMove): int { if m.inward then m.amountC else 0 }
  function MoveOut(m: CashMove): int { if m.inward then 0 else m.amountC }

  // ----- The totals, one measure of a sale row at a time -----

  datatype Facet =
    | Gross | SaleCount | ByMethod(means: Method) | VoidCount | VoidAmount | RefundCount | RefundAmount
    | ScPwdDiscount | Service | CashSales | CashRefunds

  /** What one sale row contributes to one total of one shift. */
  function Share(f: Facet, shift: Id): SaleRow -> int {
    (s: SaleRow) =>
      match f
      case Gross => if Sold(s, shift) then s.totalC else 0
      case SaleCount => if Sold(s, shift) then 1 else 0
      case ByMethod(m) => if Sold(s, shift) && MethodOf(s) == Some(m) then s.totalC else 0
      case VoidCount => if VoidedIn(s, shift) then 1 else 0
      case VoidAmount => if VoidedIn(s, shift) then s.totalC else 0
      case RefundCount => if RefundedIn(s, shift) then 1 else 0
      case RefundAmount => if RefundedIn(s, shift) then s.totalC else 0
      case ScPwdDiscount => if Sold(s, shift) then s.scPwdDiscountC else 0
      case Service => if Sold(s, shift) then s.serviceChargeC else 0
      case CashSales => if Sold(s, shift) then CashTotal(s) else 0
      case CashRefunds => if RefundedIn(s, shift) then CashTotal(s) else 0
  }

  function FacetOf(sales: seq<SaleRow>, shift: Id, f: Facet): int { SumBy(sales, Share(f, shift)) }

  function ExpectedCash(sales: seq<SaleRow>, shift: Shift): int {
    shift.openingC + FacetOf(sales, shift.id, CashSales) - FacetOf(sales, shift.id, CashRefunds)
    + SumBy(shift.moves, MoveIn) - SumBy(shift.moves, MoveOut)
  }

  function TotalsOf(sales: seq<SaleRow>, shift: Shift): ShiftTotals {
    var id := shift.id;
    ShiftTotals(
      FacetOf(sales, id, Gross), FacetOf(sales, id, SaleCount),
      map[Cash := FacetOf(sales, id, ByMethod(Cash)), Card := FacetOf(sales, id, ByMethod(Card)),
          Gcash := FacetOf(sales, id, ByMethod(Gcash)), Maya := FacetOf(sales, id, ByMethod(Maya)),
          Other := FacetOf(sales, id, ByMethod(Other))],
      FacetOf(sales, id, VoidCount), FacetOf(sales, id, VoidAmount),
      FacetOf(sales, id, RefundCount), FacetOf(sales, id, RefundAmount),
      FacetOf(sales, id, ScPwdDiscount), FacetOf(sales, id, Service),
      FacetOf(sales, id, CashSales), FacetOf(sales, id, CashRefunds),
      SumBy(shift.moves, MoveIn), SumBy(shift.moves, MoveOut),
      ExpectedCash(sales, shift))
  }

  // ----- Lookups -----

  predicate OpenFor(s: Shift, ctx: Ctx) { s.ctx == ctx && !s.closed }

  /** findFirst({ terminalId, closedAt: null }) in the terminal's branch. */
  function FindOpen(shifts: seq<Shift>, ctx: Ctx): (r: Option<nat>)
    ensures r.Some? ==> r.value < |shifts| && OpenFor(shifts[r.value], ctx)
    ensures r.None? ==> forall s <- shifts :: !OpenFor(s, ctx)
  {
    if shifts == [] then None
    else if OpenFor(shifts[0], ctx) then Some(0)
    else
      var r := FindOpen(shifts[1..], ctx);
      if r.None? then None else Some(r.value + 1)
  }

  function OpenId(shifts: seq<Shift>, ctx: Ctx): Option<Id> {
    var i := FindOpen(shifts, ctx);
    if i.None? then None else Some(shifts[i.value].id)
  }

  function FindSale(sales: seq<SaleRow>, id: Id): (r: Option<nat>)
    ensures r.Some? ==> r.value < |sales| && sales[r.value].id == id
  {
    if sales == [] then None
    else if sales[0].id == id then Some(0)
    else
      var r := FindSale(sales[1..], id);
      if r.None? then None else Some(r.value + 1)
  }

  // ----- Requests -----

  datatype Action =
    | Open(ctx: Ctx, shiftId: Id, openingC: int)
    | MoveCash(ctx: Ctx, reasonGiven: bool, move: CashMove)
    | Ring(ctx: Ctx, draft: Draft, now: int, rates: Option<Rates>, refsOk: bool, persisted: bool)
    | Void(ctx: Ctx, saleId: Id, reasonGiven: bool)
    | Refund(ctx: Ctx, saleId: Id, reasonGiven: bool)
    | Close(ctx: Ctx, countedC: int)

  /** The sale row a request appends, if it appends one. `persisted` is the outcome of
      the stock and receipt checks inside the transaction. */
  function Rung(t: Till, a: Action): Option<SaleRow>
    requires a.Ring?
  {
    if FindSale(t.sales, a.draft.id).Some? || !a.persisted
       || CheckDraft(a.draft, OpenId(t.shifts, a.ctx), a.rates, a.refsOk).Some? then None
    else Some(BuildSaleData(a.draft, a.ctx.branch, a.ctx.terminal, a.now))
  }

  /** The sale row index and new row of a void or refund that is accepted. */
  function Undone(t: Till, a: Action): Option<(nat, SaleRow)>
    requires a.Void? || a.Refund?
  {
    var i := FindSale(t.sales, a.saleId);
    if i.None? then None
    else
      var row, open := t.sales[i.value], OpenId(t.shifts, a.ctx);
      var r := if a.Void? then VoidRow(row, a.ctx.branch, a.reasonGiven, open)
               else RefundRow(row, a.ctx.branch, a.reasonGiven, open);
      if r.None? then None else Some((i.value, r.value))
  }

  function OpenShift(shifts: seq<Shift>, ctx: Ctx, id: Id, openingC: int): seq<Shift> {
    if FindOpen(shifts, ctx).Some? || exists s <- shifts :: s.id == id then shifts
    else shifts + [Shift(id, ctx, openingC, [], false, 0, 0)]
  }

  function AddCash(shifts: seq<Shift>, ctx: Ctx, reasonGiven: bool, move: CashMove): seq<Shift> {
    var i := FindOpen(shifts, ctx);
    if !reasonGiven || i.None? then shifts
    else shifts[i.value := shifts[i.value].(moves := shifts[i.value].moves + [move])]
  }

  function CloseShift(t: Till, ctx: Ctx, countedC: int): seq<Shift> {
    var i := FindOpen(t.shifts, ctx);
    if i.None? then t.shifts
    else t.shifts[i.value := t.shifts[i.value].(closed := true, closingC := countedC,
                                                 expectedC := ExpectedCash(t.sales, t.shifts[i.value]))]
  }

  function Do(t: Till, a: Action): Till {
    match a
    case Open(ctx, id, openingC) => t.(shifts := OpenShift(t.shifts, ctx, id, openingC))
    case MoveCash(ctx, reasonGiven, move) => t.(shifts := AddCash(t.shifts, ctx, reasonGiven, move))
    case Ring(_, _, _, _, _, _) => var r := Rung(t, a); if r.None? then t else t.(sales := t.sales + [r.value])
    case Void(_, _, _) => var u := Undone(t, a); if u.None? then t else t.(sales := t.sales[u.value.0 := u.value.1])
    case Refund(_, _, _) => var u := Undone(t, a); if u.None? then t else t.(sales := t.sales[u.value.0 := u.value.1])
    case Close(ctx, countedC) => t.(shifts := CloseShift(t, ctx, countedC))
  }

  function Run(t: Till, actions: seq<Action>): Till
    decreases |actions|
  {
    if actions == [] then t else Run(Do(t, actions[0]), actions[1..])
  }
}

/** The service's own methods, over the rows they update. */
module ShiftDesk {
  import opened Common
  import opened SaleRecords
  import opened Shifts
  import opened ShiftSpec

  datatype ZReport = ZReport(totals: ShiftTotals, shiftId: Id, countedC: int, overShortC: int)

  lemma AllMethods(m: Method)
    ensures m in {Cash, Card, Gcash, Maya, Other}
  {}

  function PaidBy(m: Method): SaleRow -> int { (s: SaleRow) => if MethodOf(s) == Some(m) then s.totalC else 0 }

  function ScPwdDiscountC(s: SaleRow): int { s.scPwdDiscountC }
  function ServiceChargeC(s: SaleRow): int { s.serviceChargeC }

  lemma SoldFacets(sales: seq<SaleRow>, shift: Id, sold: seq<SaleRow>)
    requires sold == Filter(sales, (s: SaleRow) => Sold(s, shift))
    ensures SumBy(sold, TotalC) == FacetOf(sales, shift, Gross)
    ensures |sold| == FacetOf(sales, shift, SaleCount)
    ensures SumBy(sold, ScPwdDiscountC) == FacetOf(sales, shift, ScPwdDiscount)
    ensures SumBy(sold, ServiceChargeC) == FacetOf(sales, shift, Service)
    ensures SumBy(sold, CashTotal) == FacetOf(sales, shift, CashSales)
  {
    var isSold := (s: SaleRow) => Sold(s, shift);
    SumFilter(sales, isSold, TotalC, Share(Gross, shift));
    CountFilter(sales, isSold, Share(SaleCount, shift));
    SumFilter(sales, isSold, ScPwdDiscountC, Share(ScPwdDiscount, shift));
    SumFilter(sales, isSold, ServiceChargeC, Share(Service, shift));
    SumFilter(sales, isSold, CashTotal, Share(CashSales, shift));
  }

  lemma MethodFacets(sales: seq<SaleRow>, shift: Id, sold: seq<SaleRow>)
    requires sold == Filter(sales, (s: SaleRow) => Sold(s, shift))
    ensures forall m: Method :: SumBy(sold, PaidBy(m)) == FacetOf(sales, shift, ByMethod(m))
  {
    forall m: Method ensures SumBy(sold, PaidBy(m)) == FacetOf(sales, shift, ByMethod(m)) {
      SumFilter(sales, (s: SaleRow) => Sold(s, shift), PaidBy(m), Share(ByMethod(m), shift));
    }
  }

  lemma UndoneFacets(sales: seq<SaleRow>, shift: Id, voided: seq<SaleRow>, refunds: seq<SaleRow>)
    requires voided == Filter(sales, (s: SaleRow) => VoidedIn(s, shift))
    requires refunds == Filter(sales, (s: SaleRow) => RefundedIn(s, shift))
    ensures |voided| == FacetOf(sales, shift, VoidCount) && SumBy(voided, TotalC) == FacetOf(sales, shift, VoidAmount)
    ensures |refunds| == FacetOf(sales, shift, RefundCount)
    ensures SumBy(refunds, TotalC) == FacetOf(sales, shift, RefundAmount)
    ensures SumBy(refunds, CashTotal) == FacetOf(sales, shift, CashRefunds)
  {
    var isVoided, isRefund := (s: SaleRow) => VoidedIn(s, shift), (s: SaleRow) => RefundedIn(s, shift);
    CountFilter(sales, isVoided, Share(VoidCount, shift));
    SumFilter(sales, isVoided, TotalC, Share(VoidAmount, shift));
    CountFilter(sales, isRefund, Share(RefundCount, shift));
    SumFilter(sales, isRefund, TotalC, Share(RefundAmount, shift));
    SumFilter(sales, isRefund, CashTotal, Share(CashRefunds, shift));
  }

  /** The result object, from the filtered rows. */
  function Assembled(shift: Shift, sold: seq<SaleRow>, voided: seq<SaleRow>, refunds: seq<SaleRow>,
      byMethod: map<Method, int>): ShiftTotals {
    var cashSalesC, cashRefundsC := SumBy(sold, CashTotal), SumBy(refunds, CashTotal);
    var cashInC, cashOutC := SumBy(shift.moves, MoveIn), SumBy(shift.moves, MoveOut);
    ShiftTotals(
      SumBy(sold, TotalC), |sold|, byMethod, |voided|, SumBy(voided, TotalC), |refunds|, SumBy(refunds, TotalC),
      SumBy(sold, ScPwdDiscountC), SumBy(sold, ServiceChargeC),
      cashSalesC, cashRefundsC, cashInC, cashOutC,
      shift.openingC + cashSalesC - cashRefundsC + cashInC - cashOutC)
  }

  lemma AssembledIs(sales: seq<SaleRow>, shift: Shift, sold: seq<SaleRow>, voided: seq<SaleRow>, refunds: seq<SaleRow>,
      byMethod: map<Method, int>)
    requires sold == Filter(sales, (s: SaleRow) => Sold(s, shift.id))
    requires voided == Filter(sales, (s: SaleRow) => VoidedIn(s, shift.id))
    requires refunds == Filter(sales, (s: SaleRow) => RefundedIn(s, shift.id))
    requires byMethod.Keys == {Cash, Card, Gcash, Maya, Other}
    requires forall m <- byMethod :: byMethod[m] == SumBy(sold, PaidBy(m))
    ensures Assembled(shift, sold, voided, refunds, byMethod) == TotalsOf(sales, shift)
  {
    SoldFacets(sales, shift.id, sold);
    MethodFacets(sales, shift.id, sold);
    UndoneFacets(sales, shift.id, voided, refunds);
    assert byMethod == TotalsOf(sales, shift).byMethod;
  }

  class Desk {
    var shifts: seq<Shift>
    var sales: seq<SaleRow>

    function Snapshot(): Till
      reads this
    {
      Till(shifts, sales)
    }

    method OpenShiftCall(ctx: Ctx, freshId: Id, openingC: int) returns (ok: bool)
      requires forall s <- shifts :: s.id != freshId
      modifies this`shifts
      ensures ok <==> forall s <- old(shifts) ::
                        s.ctx.terminal != ctx.terminal || s.ctx.branch != ctx.branch || s.closed
      ensures shifts == OpenShift(old(shifts), ctx, freshId, openingC)
      ensures shifts == old(shifts) + if ok then [Shift(freshId, ctx, openingC, [], false, 0, 0)] else []
    {
      var existing := FindOpen(shifts, ctx);
      if existing.Some? { return false; }
      shifts := shifts + [Shift(freshId, ctx, openingC, [], false, 0, 0)];
      return true;
    }

    method AddCashMovement(ctx: Ctx, reasonGiven: bool, move: CashMove) returns (added: bool)
      modifies this`shifts
      ensures shifts == AddCash(old(shifts), ctx, reasonGiven, move)
      ensures added <==> reasonGiven && FindOpen(old(shifts), ctx).Some?
      ensures if added
              then var i := FindOpen(old(shifts), ctx).value;
                   shifts == old(shifts)[i := old(shifts)[i].(moves := old(shifts)[i].moves + [move])]
              else shifts == old(shifts)
    {
      if !reasonGiven { return false; }
      var i := FindOpen(shifts, ctx);
      if i.None? { return false; }
      shifts := shifts[i.value := shifts[i.value].(moves := shifts[i.value].moves + [move])];
      return true;
    }

    /** `byMethod[method] += total` over the sold rows. */
    method SumByMethod(sold: seq<SaleRow>) returns (byMethod: map<Method, int>)
      ensures byMethod.Keys == {Cash, Card, Gcash, Maya, Other}
      ensures forall m <- byMethod :: byMethod[m] == SumBy(sold, PaidBy(m))
    {
      byMethod := map[Cash := 0, Card := 0, Gcash := 0, Maya := 0, Other := 0];
      for i := 0 to |sold|
        invariant byMethod.Keys == {Cash, Card, Gcash, Maya, Other}
        invariant forall m <- byMethod :: byMethod[m] == SumBy(sold[..i], PaidBy(m))
      {
        var s := sold[i];
        forall m: Method ensures SumBy(sold[..i + 1], PaidBy(m)) == SumBy(sold[..i], PaidBy(m)) + PaidBy(m)(s) {
          SumByStep(sold, i, PaidBy(m));
        }
        var paid := MethodOf(s);
        if paid.Some? {
          AllMethods(paid.value);
          byMethod := byMethod[paid.value := byMethod[paid.value] + s.totalC];
        }
      }
      assert sold[..|sold|] == sold;
    }

    /** Recomputed from the rows: filters, sums and the byMethod loop. */
    method ComputeTotals(shift: Shift) returns (t: ShiftTotals)
      ensures t == TotalsOf(sales, shift) && TotalsAre(t, sales, shift)
    {
      TotalsOfAre(sales, shift);
      var sold := Filter(sales, (s: SaleRow) => Sold(s, shift.id));
      var voided := Filter(sales, (s: SaleRow) => VoidedIn(s, shift.id));
      var refunds := Filter(sales, (s: SaleRow) => RefundedIn(s, shift.id));
      var byMethod := SumByMethod(sold);
      t := Assembled(shift, sold, voided, refunds, byMethod);
      AssembledIs(sales, shift, sold, voided, refunds, byMethod);
    }

    method CloseCall(ctx: Ctx, countedC: int) returns (z: Option<ZReport>)
      modifies this`shifts
      ensures shifts == CloseShift(old(Snapshot()), ctx, countedC)
      ensures z.Some? <==> FindOpen(old(shifts), ctx).Some?
      ensures z.Some? ==>
                var shift := old(shifts)[FindOpen(old(shifts), ctx).value];
                z.value == ZReport(TotalsOf(sales, shift), shift.id, countedC, countedC - ExpectedCash(sales, shift))
                && TotalsAre(z.value.totals, sales, shift)
                && z.value.overShortC == countedC - z.value.totals.expectedCashC
      ensures z.Some? ==>
                var i := FindOpen(old(shifts), ctx).value;
                shifts == old(shifts)[i := old(shifts)[i].(closed := true, closingC := countedC,
                                                           expectedC := z.value.totals.expectedCashC)]
    {
      var i := FindOpen(shifts, ctx);
      if i.None? { return None; }
      var shift := shifts[i.value];
      var totals := ComputeTotals(shift);
      shifts := shifts[i.value := shift.(closed := true, closingC := countedC, expectedC := totals.expectedCashC)];
      return Some(ZReport(totals, shift.id, countedC, countedC - totals.expectedCashC));
    }
  }
}

/** What every serial run of the till keeps. */
module ShiftTheorems {
  import opened Common
  import opened SaleRecords
  import opened Shifts

  ghost predicate DistinctShifts(shifts: seq<Shift>) {
    forall i, j | 0 <= i < j < |shifts| :: shifts[i].id != shifts[j].id
  }

  ghost predicate OneOpen(shifts: seq<Shift>) {
    forall i, j | 0 <= i < j < |shifts| :: shifts[i].ctx == shifts[j].ctx ==> shifts[i].closed || shifts[j].closed
  }

  /** A sale belongs to a shift of the terminal that rang it, and is paid. */
  ghost predicate Rooted(t: Till, s: SaleRow) {
    && |s.payments| == 1
    && exists i | 0 <= i < |t.shifts| :: t.shifts[i].id == s.shift && t.shifts[i].ctx == Ctx(s.terminal, s.branch)
  }

  ghost predicate Inv(t: Till) {
    && DistinctShifts(t.shifts) && OneOpen(t.shifts)
    && forall s <- t.sales :: Rooted(t, s)
  }

  /** Shifts keep their place, identity and owner; a closed one does not change at all. */
  ghost predicate ShiftsAdvance(a: seq<Shift>, b: seq<Shift>) {
    && |a| <= |b|
    && forall i | 0 <= i < |a| ::
         && a[i].id == b[i].id && a[i].ctx == b[i].ctx && a[i].openingC == b[i].openingC
         && (a[i].closed ==> b[i] == a[i])
  }

  lemma StepAdvances(t: Till, a: Action)
    ensures ShiftsAdvance(t.shifts, Do(t, a).shifts)
  {}

  lemma StaysRooted(t: Till, u: Till, s: SaleRow)
    requires Rooted(t, s) && ShiftsAdvance(t.shifts, u.shifts)
    ensures Rooted(u, s)
  {
    var i :| 0 <= i < |t.shifts| && t.shifts[i].id == s.shift && t.shifts[i].ctx == Ctx(s.terminal, s.branch);
    assert u.shifts[i].id == s.shift;
  }

  lemma OpenKeepsApart(shifts: seq<Shift>, ctx: Ctx, id: Id, openingC: int)
    requires DistinctShifts(shifts) && OneOpen(shifts)
    ensures DistinctShifts(OpenShift(shifts, ctx, id, openingC)) && OneOpen(OpenShift(shifts, ctx, id, openingC))
  {
    var all := OpenShift(shifts, ctx, id, openingC);
    if |all| > |shifts| {
      forall i | 0 <= i < |shifts| ensures all[i].id != id && (all[i].ctx == ctx ==> all[i].closed) {
        assert all[i] == shifts[i] && shifts[i] in shifts && !OpenFor(shifts[i], ctx);
      }
    }
  }

  lemma UpdateKeepsApart(shifts: seq<Shift>, i: nat, s: Shift)
    requires DistinctShifts(shifts) && OneOpen(shifts) && i < |shifts|
    requires s.id == shifts[i].id && s.ctx == shifts[i].ctx && (shifts[i].closed ==> s.closed)
    ensures DistinctShifts(shifts[i := s]) && OneOpen(shifts[i := s])
  {}

  lemma StepKeepsApart(t: Till, a: Action)
    requires DistinctShifts(t.shifts) && OneOpen(t.shifts)
    ensures DistinctShifts(Do(t, a).shifts) && OneOpen(Do(t, a).shifts)
  {
    match a {
      case Open(ctx, id, openingC) => OpenKeepsApart(t.shifts, ctx, id, openingC);
      case MoveCash(ctx, _, _) =>
        var i := FindOpen(t.shifts, ctx);
        if i.Some? && Do(t, a).shifts != t.shifts { UpdateKeepsApart(t.shifts, i.value, Do(t, a).shifts[i.value]); }
      case Close(ctx, _) =>
        var i := FindOpen(t.shifts, ctx);
        if i.Some? { UpdateKeepsApart(t.shifts, i.value, Do(t, a).shifts[i.value]); }
      case _ =>
    }
  }

  lemma StepKeepsInv(t: Till, a: Action)
    requires Inv(t)
    ensures Inv(Do(t, a))
  {
    var u := Do(t, a);
    StepAdvances(t, a);
    StepKeepsApart(t, a);
    forall s <- t.sales ensures Rooted(u, s) { StaysRooted(t, u, s); }
    forall s <- u.sales ensures Rooted(u, s) { NewRowRooted(t, a, s); }
  }

  lemma NewRowRooted(t: Till, a: Action, s: SaleRow)
    requires Inv(t) && s in Do(t, a).sales
    ensures Rooted(Do(t, a), s)
  {
    StepAdvances(t, a);
    if s in t.sales {
      StaysRooted(t, Do(t, a), s);
    } else {
      match a {
        case Ring(ctx, draft, _, _, _, _) =>
          var i := FindOpen(t.shifts, ctx);
          assert t.shifts[i.value].id == draft.shiftId;
        case Void(_, _, _) => assert Rooted(t, t.sales[Undone(t, a).value.0]);
        case Refund(_, _, _) => assert Rooted(t, t.sales[Undone(t, a).value.0]);
      }
    }
  }

  // ----- The Z-report is frozen -----

  lemma {:induction false} SumReplaced(s: seq<SaleRow>, i: nat, x: SaleRow, f: SaleRow -> int)
    requires i < |s|
    ensures SumBy(s[i := x], f) == SumBy(s, f) - f(s[i]) + f(x)
  {
    SumByWithout(s, i, f);
    SumByWithout(s[i := x], i, f);
    assert s[i := x][..i] + s[i := x][i + 1..] == s[..i] + s[i + 1..];
  }

  lemma SumExtended(s: seq<SaleRow>, x: SaleRow, f: SaleRow -> int)
    ensures SumBy(s + [x], f) == SumBy(s, f) + f(x)
  {
    SumByAppend(s, [x], f);
    assert SumBy([x], f) == f(x) + SumBy([x][1..], f);
  }

  /** A shift that is open for some terminal is not this closed one. */
  lemma OpenIsNotClosed(t: Till, ctx: Ctx, i: nat)
    requires Inv(t) && i < |t.shifts| && t.shifts[i].closed
    ensures OpenId(t.shifts, ctx) != Some(t.shifts[i].id)
  {}

  /** How one request changes one total of one shift. */
  function Change(t: Till, a: Action, shift: Id, f: Facet): int {
    match a
    case Ring(_, _, _, _, _, _) => var r := Rung(t, a); if r.None? then 0 else Share(f, shift)(r.value)
    case Void(_, _, _) =>
      var u := Undone(t, a); if u.None? then 0 else Share(f, shift)(u.value.1) - Share(f, shift)(t.sales[u.value.0])
    case Refund(_, _, _) =>
      var u := Undone(t, a); if u.None? then 0 else Share(f, shift)(u.value.1) - Share(f, shift)(t.sales[u.value.0])
    case _ => 0
  }

  lemma FacetChange(t: Till, a: Action, shift: Id, f: Facet)
    ensures FacetOf(Do(t, a).sales, shift, f) == FacetOf(t.sales, shift, f) + Change(t, a, shift, f)
  {
    match a {
      case Ring(_, _, _, _, _, _) =>
        if Rung(t, a).Some? { SumExtended(t.sales, Rung(t, a).value, Share(f, shift)); }
      case Void(_, _, _) =>
        if Undone(t, a).Some? { SumReplaced(t.sales, Undone(t, a).value.0, Undone(t, a).value.1, Share(f, shift)); }
      case Refund(_, _, _) =>
        if Undone(t, a).Some? { SumReplaced(t.sales, Undone(t, a).value.0, Undone(t, a).value.1, Share(f, shift)); }
      case _ =>
    }
  }

  lemma ClosedUnchanged(t: Till, a: Action, i: nat, f: Facet)
    requires Inv(t) && i < |t.shifts| && t.shifts[i].closed
    ensures Change(t, a, t.shifts[i].id, f) == 0
  {
    OpenIsNotClosed(t, a.ctx, i);
  }

  lemma StepKeepsTotals(t: Till, a: Action, i: nat)
    requires Inv(t) && i < |t.shifts| && t.shifts[i].closed
    ensures TotalsOf(Do(t, a).sales, t.shifts[i]) == TotalsOf(t.sales, t.shifts[i])
  {
    var id := t.shifts[i].id;
    forall f: Facet ensures FacetOf(Do(t, a).sales, id, f) == FacetOf(t.sales, id, f) {
      FacetChange(t, a, id, f);
      ClosedUnchanged(t, a, i, f);
    }
  }

  /** Once a shift is closed, no later request of any terminal changes its row or any
      figure its totals would report. */
  lemma {:induction false} ZReportFrozen(t: Till, actions: seq<Action>, i: nat)
    requires Inv(t) && i < |t.shifts| && t.shifts[i].closed
    ensures var u := Run(t, actions);
            && i < |u.shifts| && u.shifts[i] == t.shifts[i]
            && TotalsOf(u.sales, u.shifts[i]) == TotalsOf(t.sales, t.shifts[i])
    decreases |actions|
  {
    if actions == [] {
    } else {
      StepKeepsInv(t, actions[0]);
      StepAdvances(t, actions[0]);
      StepKeepsTotals(t, actions[0], i);
      ZReportFrozen(Do(t, actions[0]), actions[1..], i);
    }
  }

  lemma {:induction false} ReachableInv(actions: seq<Action>, t: Till)
    requires Inv(t)
    ensures Inv(Run(t, actions))
    decreases |actions|
  {
    if actions == [] {
    } else {
      StepKeepsInv(t, actions[0]);
      ReachableInv(actions[1..], Do(t, actions[0]));
    }
  }

  /** The expected cash stored at close stays what the totals report, for ever. */
  lemma StoredExpectedHolds(before: seq<Action>, ctx: Ctx, countedC: int, after: seq<Action>)
    requires FindOpen(Run(Till([], []), before).shifts, ctx).Some?
    ensures var t := Run(Till([], []), before);
            var i := FindOpen(t.shifts, ctx).value;
            var u := Run(Do(t, Close(ctx, countedC)), after);
            && i < |u.shifts| && u.shifts[i].closed && u.shifts[i].closingC == countedC
            && u.shifts[i].expectedC == TotalsOf(u.sales, u.shifts[i]).expectedCashC
  {
    var t := Run(Till([], []), before);
    ReachableInv(before, Till([], []));
    var i := FindOpen(t.shifts, ctx).value;
    StepKeepsInv(t, Close(ctx, countedC));
    ZReportFrozen(Do(t, Close(ctx, countedC)), after, i);
  }

  // ----- The drawer -----

  /** Counting the drawer as things happen, instead of recomputing it from the rows. */
  function Count(t: Till, a: Action, drawer: map<Id, int>): map<Id, int> {
    match a
    case Open(ctx, id, openingC) =>
      if OpenShift(t.shifts, ctx, id, openingC) == t.shifts then drawer else drawer[id := openingC]
    case MoveCash(ctx, reasonGiven, move) =>
      if OpenId(t.shifts, ctx).None? || !reasonGiven then drawer
      else Put(drawer, OpenId(t.shifts, ctx).value, if move.inward then move.amountC else -move.amountC)
    case Ring(_, _, _, _, _, _) => if Rung(t, a).None? then drawer else Put(drawer, a.draft.shiftId, InCash(a.draft))
    case Void(_, _, _) =>
      var u := Undone(t, a);
      if u.None? then drawer else Put(drawer, t.sales[u.value.0].draft.shiftId, -InCash(t.sales[u.value.0].draft))
    case Refund(_, _, _) =>
      var u := Undone(t, a);
      if u.None? || u.value.1.refundShift.None? then drawer
      else Put(drawer, t.sales[u.value.0].draft.shiftId, -InCash(t.sales[u.value.0].draft))
    case Close(_, _) => drawer
  }

  /** What a submitted draft puts into the drawer: its total, if it is paid in cash. */
  function InCash(d: Draft): int { if d.payment.means.Cash? then d.totals.totalC else 0 }

  /** Rows keep the shift, total and payment they were submitted with. */
  ghost predicate AsSubmitted(t: Till) {
    forall s <- t.sales :: s.payments == [s.draft.payment] && s.totalC == s.draft.totals.totalC
                           && s.shift == s.draft.shiftId
  }

  lemma StepKeepsSubmitted(t: Till, a: Action)
    requires AsSubmitted(t)
    ensures AsSubmitted(Do(t, a))
  {}

  function Put(drawer: map<Id, int>, shift: Id, amount: int): map<Id, int> {
    drawer[shift := (if shift in drawer then drawer[shift] else 0) + amount]
  }

  function CountRun(t: Till, actions: seq<Action>, drawer: map<Id, int>): map<Id, int>
    decreases |actions|
  {
    if actions == [] then drawer else CountRun(Do(t, actions[0]), actions[1..], Count(t, actions[0], drawer))
  }

  ghost predicate Agrees(t: Till, drawer: map<Id, int>) {
    forall i | 0 <= i < |t.shifts| ::
      t.shifts[i].id in drawer && drawer[t.shifts[i].id] == ExpectedCash(t.sales, t.shifts[i])
  }

  lemma {:induction false} NoSalesYet(sales: seq<SaleRow>, shift: Id, f: Facet)
    requires forall s <- sales :: s.shift != shift && s.refundShift != Some(shift)
    ensures FacetOf(sales, shift, f) == 0
  {
    if sales == [] {
    } else {
      NoSalesYet(sales[1..], shift, f);
    }
  }

  /** A refund shift is always the sale's own shift. */
  ghost predicate RefundsAtHome(t: Till) {
    forall s <- t.sales :: s.refundShift.Some? ==> s.refundShift.value == s.shift
  }

  lemma StepKeepsRefundsAtHome(t: Till, a: Action)
    requires RefundsAtHome(t)
    ensures RefundsAtHome(Do(t, a))
  {}

  lemma CashFacets(t: Till, a: Action, shift: Id)
    ensures var u := Do(t, a);
            FacetOf(u.sales, shift, CashSales) - FacetOf(u.sales, shift, CashRefunds)
            == FacetOf(t.sales, shift, CashSales) - FacetOf(t.sales, shift, CashRefunds)
               + Change(t, a, shift, CashSales) - Change(t, a, shift, CashRefunds)
  {
    FacetChange(t, a, shift, CashSales);
    FacetChange(t, a, shift, CashRefunds);
  }

  lemma MoveSums(moves: seq<CashMove>, m: CashMove)
    ensures SumBy(moves + [m], MoveIn) - SumBy(moves + [m], MoveOut)
         == SumBy(moves, MoveIn) - SumBy(moves, MoveOut) + if m.inward then m.amountC else -m.amountC
  {
    SumByAppend(moves, [m], MoveIn);
    SumByAppend(moves, [m], MoveOut);
    assert SumBy([m], MoveIn) == MoveIn(m) + SumBy([m][1..], MoveIn);
    assert SumBy([m], MoveOut) == MoveOut(m) + SumBy([m][1..], MoveOut);
  }

  lemma OpenAgrees(t: Till, a: Action, drawer: map<Id, int>)
    requires Inv(t) && RefundsAtHome(t) && Agrees(t, drawer) && a.Open?
    ensures Agrees(Do(t, a), Count(t, a, drawer))
  {
    if OpenShift(t.shifts, a.ctx, a.shiftId, a.openingC) != t.shifts {
      forall s <- t.sales ensures s.shift != a.shiftId && s.refundShift != Some(a.shiftId) {
        assert Rooted(t, s);
      }
      NoSalesYet(t.sales, a.shiftId, CashSales);
      NoSalesYet(t.sales, a.shiftId, CashRefunds);
    }
  }

  lemma CashAgrees(t: Till, a: Action, drawer: map<Id, int>)
    requires Inv(t) && Agrees(t, drawer) && a.MoveCash?
    ensures Agrees(Do(t, a), Count(t, a, drawer))
  {
    var i := FindOpen(t.shifts, a.ctx);
    if a.reasonGiven && i.Some? { MoveSums(t.shifts[i.value].moves, a.move); }
  }

  /** The counted drawer moves by what the recomputed figures move by. */
  lemma DrawerChange(t: Till, a: Action, drawer: map<Id, int>, shift: Id)
    requires RefundsAtHome(t) && AsSubmitted(t) && shift in drawer && (a.Ring? || a.Void? || a.Refund?)
    ensures var after := Count(t, a, drawer);
            && shift in after
            && after[shift] == drawer[shift] + Change(t, a, shift, CashSales) - Change(t, a, shift, CashRefunds)
  {
    match a {
      case Ring(_, _, _, _, _, _) =>
      case Void(_, _, _) =>
        if Undone(t, a).Some? { assert t.sales[Undone(t, a).value.0] in t.sales; }
      case Refund(_, _, _) =>
        if Undone(t, a).Some? { assert t.sales[Undone(t, a).value.0] in t.sales; }
    }
  }

  lemma SaleAgrees(t: Till, a: Action, drawer: map<Id, int>)
    requires RefundsAtHome(t) && AsSubmitted(t) && Agrees(t, drawer) && (a.Ring? || a.Void? || a.Refund?)
    ensures Agrees(Do(t, a), Count(t, a, drawer))
  {
    var u, after := Do(t, a), Count(t, a, drawer);
    forall i | 0 <= i < |t.shifts|
      ensures t.shifts[i].id in after && after[t.shifts[i].id] == ExpectedCash(u.sales, t.shifts[i])
    {
      CashFacets(t, a, t.shifts[i].id);
      DrawerChange(t, a, drawer, t.shifts[i].id);
    }
    assert u.shifts == t.shifts;
  }

  lemma StepAgrees(t: Till, a: Action, drawer: map<Id, int>)
    requires Inv(t) && RefundsAtHome(t) && AsSubmitted(t) && Agrees(t, drawer)
    ensures Agrees(Do(t, a), Count(t, a, drawer))
  {
    match a {
      case Open(_, _, _) => OpenAgrees(t, a, drawer);
      case MoveCash(_, _, _) => CashAgrees(t, a, drawer);
      case Close(_, _) =>
      case _ => SaleAgrees(t, a, drawer);
    }
  }

  lemma {:induction false} RunAgrees(t: Till, actions: seq<Action>, drawer: map<Id, int>)
    requires Inv(t) && RefundsAtHome(t) && AsSubmitted(t) && Agrees(t, drawer)
    ensures Agrees(Run(t, actions), CountRun(t, actions, drawer))
    decreases |actions|
  {
    if actions == [] {
    } else {
      StepKeepsInv(t, actions[0]);
      StepKeepsRefundsAtHome(t, actions[0]);
      StepKeepsSubmitted(t, actions[0]);
      StepAgrees(t, actions[0], drawer);
      RunAgrees(Do(t, actions[0]), actions[1..], Count(t, actions[0], drawer));
    }
  }

  /** In every run, the recomputed expected cash of every shift is the drawer counted along the way. */
  lemma ExpectedCashIsTheDrawer(actions: seq<Action>, i: nat)
    requires i < |Run(Till([], []), actions).shifts|
    ensures var t := Run(Till([], []), actions);
            var drawer := CountRun(Till([], []), actions, map[]);
            t.shifts[i].id in drawer && TotalsOf(t.sales, t.shifts[i]).expectedCashC == drawer[t.shifts[i].id]
  {
    RunAgrees(Till([], []), actions, map[]);
  }

  // ----- Methods, terminals -----

  function MethodSum(sales: seq<SaleRow>, shift: Id): int {
    FacetOf(sales, shift, ByMethod(Cash)) + FacetOf(sales, shift, ByMethod(Card))
    + FacetOf(sales, shift, ByMethod(Gcash)) + FacetOf(sales, shift, ByMethod(Maya))
    + FacetOf(sales, shift, ByMethod(Other))
  }

  lemma {:induction false} MethodsSumToGross(sales: seq<SaleRow>, shift: Id)
    requires forall s <- sales :: |s.payments| == 1
    ensures MethodSum(sales, shift) == FacetOf(sales, shift, Gross)
  {
    if sales == [] {
    } else {
      MethodsSumToGross(sales[1..], shift);
      MethodShares(sales[0], shift) by { assert sales[0] in sales; }
    }
  }

  lemma MethodShares(s: SaleRow, shift: Id)
    requires |s.payments| == 1
    ensures Share(ByMethod(Cash), shift)(s) + Share(ByMethod(Card), shift)(s) + Share(ByMethod(Gcash), shift)(s)
            + Share(ByMethod(Maya), shift)(s) + Share(ByMethod(Other), shift)(s) == Share(Gross, shift)(s)
  {
    match s.payments[0].means {
      case Cash =>
      case Card =>
      case Gcash =>
      case Maya =>
      case Other =>
    }
  }

  /** The by-method totals partition the gross, in every run. */
  lemma ByMethodPartitionsGross(actions: seq<Action>, i: nat)
    requires i < |Run(Till([], []), actions).shifts|
    ensures var t := Run(Till([], []), actions);
            var z := TotalsOf(t.sales, t.shifts[i]);
            z.byMethod[Cash] + z.byMethod[Card] + z.byMethod[Gcash] + z.byMethod[Maya] + z.byMethod[Other] == z.grossC
  {
    var t := Run(Till([], []), actions);
    ReachableInv(actions, Till([], []));
    forall s <- t.sales ensures |s.payments| == 1 { assert Rooted(t, s); }
    MethodsSumToGross(t.sales, t.shifts[i].id);
  }

  /** A shift's sales are each counted once, as sold or as voided. */
  lemma {:induction false} SoldOrVoided(sales: seq<SaleRow>, shift: Id)
    ensures var own := Filter(sales, (s: SaleRow) => s.shift == shift);
            && FacetOf(sales, shift, SaleCount) + FacetOf(sales, shift, VoidCount) == |own|
            && FacetOf(sales, shift, Gross) + FacetOf(sales, shift, VoidAmount) == SumBy(own, TotalC)
  {
    if sales == [] {
    } else {
      SoldOrVoided(sales[1..], shift);
      var rest := Filter(sales[1..], (s: SaleRow) => s.shift == shift);
      var head := if sales[0].shift == shift then [sales[0]] else [];
      SumByAppend(head, rest, TotalC);
      assert head != [] ==> SumBy(head, TotalC) == TotalC(sales[0]) + SumBy(head[1..], TotalC);
      assert Share(Gross, shift)(sales[0]) + Share(VoidAmount, shift)(sales[0]) == SumBy(head, TotalC);
    }
  }

  /** A void is accepted only from the terminal that rang the sale, while its shift is open. */
  lemma OnlyTheRingingTerminalVoids(actions: seq<Action>, a: Action)
    requires a.Void?
    ensures var t := Run(Till([], []), actions);
            Undone(t, a).Some? ==>
              var row := t.sales[Undone(t, a).value.0];
              && a.ctx == Ctx(row.terminal, row.branch)
              && exists i | 0 <= i < |t.shifts| :: t.shifts[i].id == row.shift && !t.shifts[i].closed
  {
    var t := Run(Till([], []), actions);
    ReachableInv(actions, Till([], []));
    if Undone(t, a).Some? {
      var row := t.sales[Undone(t, a).value.0];
      assert Rooted(t, row);
      var i := FindOpen(t.shifts, a.ctx).value;
      assert t.shifts[i].id == row.shift;
    }
  }
}
