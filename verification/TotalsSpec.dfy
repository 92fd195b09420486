/** What the engine computes (src/common/totals/totals.ts), said without its functions: a relation
    between a cart and its totals, made of nearest rounding and sums over the cart's own fields. */
module TotalsSpec {
  import opened Common
  import opened Money
  import opened Totals
  import opened TotalsProofs

  // ----- Discounts -----

  /** What a discount takes off a base: nothing off one that is not positive, a percentage to the
      nearest centavo or a fixed amount, and never more than the base. */
  ghost predicate Takes(d: Option<DiscountSpec>, base: int, r: int) {
    if d.None? || base <= 0 then r == 0
    else if d.value.kind.Fixed? then r == if d.value.value <= base then d.value.value else base
    else if d.value.value <= 100 then Nearest(base * d.value.value, 100, r)
    else r == base
  }

  lemma DiscountTaken(d: Option<DiscountSpec>, base: int)
    ensures Takes(d, base, DiscountAmountC(d, base))
  {
    if d.Some? && base > 0 && d.value.kind.Percent? { PercentCapped(base, d.value.value); }
  }

  /** The cap bites exactly above 100%. */
  lemma PercentCapped(base: int, v: int)
    requires base > 0
    ensures if v <= 100 then Pct(base, v) <= base else Pct(base, v) >= base
  {
    if v <= 100 {
      MulOrder(v, 100, base);
      HalfUpMonotone(base * v, base * 100, 100);
      HalfUpUnique(base * 100, 100, base);
    } else {
      PercentAboveBase(base, v);
    }
  }

  lemma TakesOnce(d: Option<DiscountSpec>, base: int, r: int)
    requires Takes(d, base, r)
    ensures r == DiscountAmountC(d, base)
  {
    DiscountTaken(d, base);
    if d.Some? && base > 0 && d.value.kind.Percent? && d.value.value <= 100 {
      HalfUpUnique(base * d.value.value, 100, r);
      PercentCapped(base, d.value.value);
    }
  }

  /** What a senior citizen or PWD pays: the price without VAT to the nearest centavo, and of that
      80% to the nearest centavo. */
  ghost predicate SeniorPays(grossC: int, tax: nat, pay: int) {
    exists base :: Nearest(grossC * 10000, 10000 + tax, base) && Nearest(base * 80, 100, pay)
  }

  lemma SeniorPaysOnce(grossC: int, tax: nat, pay: int)
    ensures SeniorPays(grossC, tax, pay) <==> pay == ScPwdPayC(grossC, tax)
  {
    var base := HalfUp(grossC * RATE_SCALE, RATE_SCALE + tax);
    assert Nearest(grossC * 10000, 10000 + tax, base) && Nearest(base * 80, 100, ScPwdPayC(grossC, tax));
    if b :| Nearest(grossC * 10000, 10000 + tax, b) && Nearest(b * 80, 100, pay) {
      HalfUpUnique(grossC * RATE_SCALE, RATE_SCALE + tax, b);
      HalfUpUnique(base * 80, 100, pay);
    }
  }

  // ----- A line -----

  function Delta(d: int): int { d }

  ghost predicate PricedLine(line: CartLine, scPwd: bool, tax: nat, l: LineTotals) {
    && l.lineId == line.id
    && Nearest(line.qtyMilli * (line.unitPriceC + SumBy(line.modifierDeltasC, Delta)), 1000, l.grossC)
    && Takes(line.discount, l.grossC, l.promoDiscountC)
    && (if scPwd && line.scPwdMarked then SeniorPays(l.grossC, tax, l.grossC - l.scPwdDiscountC)
        else l.scPwdDiscountC == 0)
    // the higher of the two, a tie going to SC/PWD
    && (l.applied.Neither? <==> l.promoDiscountC <= 0 && l.scPwdDiscountC <= 0)
    && (l.applied.Promo? <==> l.promoDiscountC > 0 && l.promoDiscountC > l.scPwdDiscountC)
    && l.netC == l.grossC - (if l.applied.ScPwd? then l.scPwdDiscountC
                             else if l.applied.Promo? then l.promoDiscountC else 0)
  }

  lemma LinePriced(line: CartLine, scPwd: bool, tax: nat)
    ensures PricedLine(line, scPwd, tax, LineTotal(line, scPwd, tax))
  {
    var l := LineTotal(line, scPwd, tax);
    SumByEqual(line.modifierDeltasC, (d: int) => d, Delta);
    assert LineUnitWithModsC(line) == line.unitPriceC + SumBy(line.modifierDeltasC, Delta);
    DiscountTaken(line.discount, l.grossC);
    SeniorPaysOnce(l.grossC, tax, ScPwdPayC(l.grossC, tax));
  }

  lemma LinePricedOnce(line: CartLine, scPwd: bool, tax: nat, l: LineTotals)
    requires PricedLine(line, scPwd, tax, l)
    ensures l == LineTotal(line, scPwd, tax)
  {
    var r := LineTotal(line, scPwd, tax);
    SumByEqual(line.modifierDeltasC, (d: int) => d, Delta);
    assert LineUnitWithModsC(line) == line.unitPriceC + SumBy(line.modifierDeltasC, Delta);
    HalfUpUnique(line.qtyMilli * LineUnitWithModsC(line), 1000, l.grossC);
    TakesOnce(line.discount, l.grossC, l.promoDiscountC);
    SeniorPaysOnce(l.grossC, tax, l.grossC - l.scPwdDiscountC);
  }

  // ----- A cart -----

  function ByGross(l: LineTotals): int { l.grossC }
  function ByPromo(l: LineTotals): int { if l.applied.Promo? then l.promoDiscountC else 0 }
  function BySenior(l: LineTotals): int { if l.applied.ScPwd? then l.scPwdDiscountC else 0 }
  function ByOpenNet(l: LineTotals): int { if l.applied.ScPwd? then 0 else l.netC }
  function ByExemptNet(l: LineTotals): int { if l.applied.ScPwd? then l.netC else 0 }

  ghost predicate PricedCart(cart: Cart, s: Rates, t: CartTotals) {
    PricedLines(cart, s, t) && Summed(cart, t) && Settled(cart.orderType, s, t)
  }

  ghost predicate PricedLines(cart: Cart, s: Rates, t: CartTotals) {
    && |t.lines| == |cart.lines|
    && forall i | 0 <= i < |cart.lines| :: PricedLine(cart.lines[i], cart.scPwd, s.tax, t.lines[i])
  }

  ghost predicate Summed(cart: Cart, t: CartTotals) {
    && t.subtotalC == SumBy(t.lines, ByGross)
    && Takes(cart.orderDiscount, SumBy(t.lines, ByOpenNet), t.promoDiscountC - SumBy(t.lines, ByPromo))
    && t.scPwdDiscountC == SumBy(t.lines, BySenior)
    && t.vatExemptSalesC == SumBy(t.lines, ByExemptNet)
  }

  ghost predicate Settled(orderType: OrderType, s: Rates, t: CartTotals) {
    && t.discountedSubtotalC == t.subtotalC - t.promoDiscountC - t.scPwdDiscountC
    && (if orderType.DineIn? then Nearest(t.discountedSubtotalC * s.service, 10000, t.serviceChargeC)
        else t.serviceChargeC == 0)
    && t.totalC == t.discountedSubtotalC + t.serviceChargeC
    && (if s.tax == 0 then t.vatC == 0
        else Nearest((t.totalC - t.vatExemptSalesC) * s.tax, 10000 + s.tax, t.vatC))
    && t.vatableSalesC == t.totalC - t.vatExemptSalesC - t.vatC
  }

  /** The engine's sums over lines, in the relation's words. */
  lemma LineSums(lines: seq<LineTotals>)
    ensures SumBy(lines, Gross) == SumBy(lines, ByGross)
    ensures SumBy(lines, LinePromo) == SumBy(lines, ByPromo)
    ensures SumBy(lines, LineScPwd) == SumBy(lines, BySenior)
    ensures SumBy(lines, OrderEligible) == SumBy(lines, ByOpenNet)
    ensures SumBy(lines, Exempt) == SumBy(lines, ByExemptNet)
  {
    SumByEqual(lines, Gross, ByGross);
    SumByEqual(lines, LinePromo, ByPromo);
    SumByEqual(lines, LineScPwd, BySenior);
    SumByEqual(lines, OrderEligible, ByOpenNet);
    SumByEqual(lines, Exempt, ByExemptNet);
  }

  /** The engine computes totals the relation holds of, and no other totals are: for every cart,
      every discount and every pair of rates. */
  lemma EngineExactly(cart: Cart, s: Rates, t: CartTotals)
    ensures PricedCart(cart, s, t) <==> t == ComputeTotals(cart, s)
  {
    EnginePrices(cart, s);
    if PricedCart(cart, s, t) { PricedOnce(cart, s, t); }
  }

  lemma EnginePrices(cart: Cart, s: Rates)
    ensures PricedCart(cart, s, ComputeTotals(cart, s))
  {
    var t := ComputeTotals(cart, s);
    forall i | 0 <= i < |cart.lines| ensures PricedLine(cart.lines[i], cart.scPwd, s.tax, t.lines[i]) {
      LinePriced(cart.lines[i], cart.scPwd, s.tax);
    }
    LineSums(t.lines);
    DiscountTaken(cart.orderDiscount, SumBy(t.lines, OrderEligible));
    EngineSettles(cart, s);
  }

  lemma EngineSettles(cart: Cart, s: Rates)
    ensures Settled(cart.orderType, s, ComputeTotals(cart, s))
  {
    var t := ComputeTotals(cart, s);
    Rounded(t.discountedSubtotalC, t.totalC - t.vatExemptSalesC, s);
  }

  lemma Rounded(discountedC: int, withVatC: int, s: Rates)
    ensures Nearest(discountedC * s.service, 10000, MulRate(discountedC, s.service))
    ensures if s.tax == 0 then VatIncluded(withVatC, s.tax) == 0
            else Nearest(withVatC * s.tax, 10000 + s.tax, VatIncluded(withVatC, s.tax))
  {}

  lemma RoundedOnce(discountedC: int, withVatC: int, s: Rates, serviceC: int, vatC: int)
    ensures Nearest(discountedC * s.service, 10000, serviceC) ==> serviceC == MulRate(discountedC, s.service)
    ensures s.tax != 0 && Nearest(withVatC * s.tax, 10000 + s.tax, vatC) ==> vatC == VatIncluded(withVatC, s.tax)
  {
    if Nearest(discountedC * s.service, 10000, serviceC) {
      HalfUpUnique(discountedC * s.service, RATE_SCALE, serviceC);
    }
    if s.tax != 0 && Nearest(withVatC * s.tax, 10000 + s.tax, vatC) {
      HalfUpUnique(withVatC * s.tax, RATE_SCALE + s.tax, vatC);
    }
  }

  lemma PricedOnce(cart: Cart, s: Rates, t: CartTotals)
    requires PricedCart(cart, s, t)
    ensures t == ComputeTotals(cart, s)
  {
    var lines := LineTotalsOf(cart.lines, cart.scPwd, s.tax);
    LinesOnce(cart, s, t);
    SummedOnce(cart, t);
    SettledOnce(cart.orderType, s, t, SumBy(lines, LinePromo), OrderDiscountC(lines, cart.orderDiscount));
  }

  lemma LinesOnce(cart: Cart, s: Rates, t: CartTotals)
    requires PricedLines(cart, s, t)
    ensures t.lines == LineTotalsOf(cart.lines, cart.scPwd, s.tax)
  {
    forall i | 0 <= i < |cart.lines| ensures t.lines[i] == LineTotalsOf(cart.lines, cart.scPwd, s.tax)[i] {
      LinePricedOnce(cart.lines[i], cart.scPwd, s.tax, t.lines[i]);
    }
  }

  lemma SummedOnce(cart: Cart, t: CartTotals)
    requires Summed(cart, t)
    ensures t.subtotalC == SumBy(t.lines, Gross) && t.scPwdDiscountC == SumBy(t.lines, LineScPwd)
    ensures t.vatExemptSalesC == SumBy(t.lines, Exempt)
    ensures t.promoDiscountC == SumBy(t.lines, LinePromo) + OrderDiscountC(t.lines, cart.orderDiscount)
  {
    LineSums(t.lines);
    TakesOnce(cart.orderDiscount, SumBy(t.lines, OrderEligible), t.promoDiscountC - SumBy(t.lines, LinePromo));
  }

  lemma SettledOnce(orderType: OrderType, s: Rates, t: CartTotals, linePromo: int, orderDiscount: int)
    requires Settled(orderType, s, t) && t.promoDiscountC == linePromo + orderDiscount
    ensures t
         == Settle(t.lines, t.subtotalC, linePromo, t.scPwdDiscountC, orderDiscount, t.vatExemptSalesC, orderType, s)
  {
    RoundedOnce(t.discountedSubtotalC, t.totalC - t.vatExemptSalesC, s, t.serviceChargeC, t.vatC);
    SettledRounded(orderType, s, t, linePromo, orderDiscount);
  }

  lemma SettledRounded(orderType: OrderType, s: Rates, t: CartTotals, linePromo: int, orderDiscount: int)
    requires Settled(orderType, s, t) && t.promoDiscountC == linePromo + orderDiscount
    requires orderType.DineIn? ==> t.serviceChargeC == MulRate(t.discountedSubtotalC, s.service)
    requires t.vatC == VatIncluded(t.totalC - t.vatExemptSalesC, s.tax)
    ensures t
         == Settle(t.lines, t.subtotalC, linePromo, t.scPwdDiscountC, orderDiscount, t.vatExemptSalesC, orderType, s)
  {}
}
