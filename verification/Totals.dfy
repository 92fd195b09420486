/** Centavo arithmetic (src/common/totals/money.ts, qty.ts), over exact rationals n/d. */
module Money {
  import opened Common

  /** halfUp(n / d): round to nearest, ties away from zero. */
  function HalfUp(n: int, d: int): (q: int)
    requires d > 0
    ensures n >= 0 ==> -d <= 2 * (n - q * d) < d && q >= 0
    ensures n < 0 ==> -d < 2 * (n - q * d) <= d && q <= 0
  {
    if n >= 0 then RoundUpTies(n, d)
    else
      var m: int := RoundUpTies(-n, d);
      assert (-m) * d == -(m * d);
      -m
  }

  /** Math.round of a non-negative quotient. */
  function RoundUpTies(n: nat, d: int): (q: nat)
    requires d > 0
    ensures -d <= 2 * (n - q * d) < d
  {
    var q := (2 * n + d) / (2 * d);
    assert 2 * n + d == 2 * d * q + (2 * n + d) % (2 * d);
    assert 2 * d * q == 2 * (q * d);
    q
  }

  /** A rate is a count of ten-thousandths: DECIMAL(5,4) in the schema. */
  const RATE_SCALE := 10000

  function MulRate(c: int, rate: nat): int { HalfUp(c * rate, RATE_SCALE) }

  function Pct(c: int, percent: int): int { HalfUp(c * percent, 100) }

  function VatIncluded(totalC: int, rate: nat): int {
    if rate == 0 then 0 else HalfUp(totalC * rate, RATE_SCALE + rate)
  }

  function MulQtyPriceC(qtyMilli: int, unitC: int): int { HalfUp(qtyMilli * unitC, 1000) }

  /** q is a nearest integer to n / d, ties away from zero. */
  predicate Nearest(n: int, d: int, q: int) {
    if n >= 0 then -d <= 2 * (n - q * d) < d else -d < 2 * (n - q * d) <= d
  }

  lemma NearestOrdered(n: int, p: int, m: int, q: int, d: int)
    requires d > 0 && n <= m && Nearest(n, d, p) && Nearest(m, d, q)
    ensures p <= q
  {
    if p > q {
      MulLess(q, p, d);
      assert false;
    }
  }

  /** Rounding preserves order. */
  lemma HalfUpMonotone(n: int, m: int, d: int)
    requires d > 0 && n <= m
    ensures HalfUp(n, d) <= HalfUp(m, d)
  {
    NearestOrdered(n, HalfUp(n, d), m, HalfUp(m, d), d);
  }

  /** The nearest-with-ties-away condition pins the value down. */
  lemma HalfUpUnique(n: int, d: int, q: int)
    requires d > 0 && Nearest(n, d, q)
    ensures HalfUp(n, d) == q
  {
    NearestOrdered(n, HalfUp(n, d), n, q, d);
    NearestOrdered(n, q, n, HalfUp(n, d), d);
  }

  /** Adding whole units commutes with rounding on the non-negative side. */
  lemma HalfUpShift(n: int, d: int, k: nat)
    requires d > 0 && n >= 0
    ensures HalfUp(n + k * d, d) == HalfUp(n, d) + k
  {
    var q := HalfUp(n, d);
    assert (q + k) * d == q * d + k * d;
    assert k * d >= 0;
    HalfUpUnique(n + k * d, d, q + k);
  }
}

/** The totals engine (src/common/totals/cart.ts, totals.ts). */
module Totals {
  import opened Common
  import opened Money

  datatype DiscountKind = Percent | Fixed

  datatype DiscountSpec =
    | Named(discountId: Id, kind: DiscountKind, value: int)
    | Free(kind: DiscountKind, value: int)

  datatype OrderType = DineIn | Takeout | NoType

  /** `product` is None on a misc line. Quantities are integer milli-units. `costC` is the unit
      cost the catalog lookup finds for the line; the engine never reads it. */
  datatype CartLine = CartLine(
    id: Id,
    product: Option<Id>,
    variant: Option<Id>,
    qtyMilli: int,
    unitPriceC: int,
    modifierDeltasC: seq<int>,
    discount: Option<DiscountSpec>,
    scPwdMarked: bool,
    trackStock: bool,
    costC: Option<int>)

  datatype Cart = Cart(
    orderType: OrderType,
    lines: seq<CartLine>,
    orderDiscount: Option<DiscountSpec>,
    scPwd: bool)

  datatype Rates = Rates(tax: nat, service: nat)

  datatype Applied = Promo | ScPwd | Neither

  datatype LineTotals = LineTotals(
    lineId: Id,
    grossC: int,
    promoDiscountC: int,
    scPwdDiscountC: int,
    applied: Applied,
    netC: int)

  datatype CartTotals = CartTotals(
    lines: seq<LineTotals>,
    subtotalC: int,
    promoDiscountC: int,
    scPwdDiscountC: int,
    discountedSubtotalC: int,
    serviceChargeC: int,
    totalC: int,
    vatExemptSalesC: int,
    vatC: int,
    vatableSalesC: int)

  function LineUnitWithModsC(line: CartLine): int {
    line.unitPriceC + SumBy(line.modifierDeltasC, (d: int) => d)
  }

  function GrossC(line: CartLine): int {
    MulQtyPriceC(line.qtyMilli, LineUnitWithModsC(line))
  }

  function DiscountAmountC(d: Option<DiscountSpec>, baseC: int): int {
    if d.None? || baseC <= 0 then 0
    else
      var raw := if d.value.kind.Percent? then Pct(baseC, d.value.value) else d.value.value;
      Min(raw, baseC)
  }

  /** What a senior/PWD pays for a line: VAT off first, then 20% off. */
  function ScPwdPayC(grossC: int, tax: nat): int {
    Pct(HalfUp(grossC * RATE_SCALE, RATE_SCALE + tax), 80)
  }

  function LineTotal(line: CartLine, scPwd: bool, tax: nat): LineTotals {
    var gross := GrossC(line);
    var promo := DiscountAmountC(line.discount, gross);
    var sc := if scPwd && line.scPwdMarked then gross - ScPwdPayC(gross, tax) else 0;
    var applied := if promo > 0 || sc > 0 then (if sc >= promo then ScPwd else Promo) else Neither;
    var appliedC := match applied case ScPwd => sc case Promo => promo case Neither => 0;
    LineTotals(line.id, gross, promo, sc, applied, gross - appliedC)
  }

  function LineTotalsOf(lines: seq<CartLine>, scPwd: bool, tax: nat): (r: seq<LineTotals>)
    ensures |r| == |lines|
    ensures forall i | 0 <= i < |lines| :: r[i] == LineTotal(lines[i], scPwd, tax)
  {
    seq(|lines|, i requires 0 <= i < |lines| => LineTotal(lines[i], scPwd, tax))
  }

  function Gross(l: LineTotals): int { l.grossC }
  function LinePromo(l: LineTotals): int { if l.applied.Promo? then l.promoDiscountC else 0 }
  function LineScPwd(l: LineTotals): int { if l.applied.ScPwd? then l.scPwdDiscountC else 0 }
  function OrderEligible(l: LineTotals): int { if l.applied.ScPwd? then 0 else l.netC }
  function Exempt(l: LineTotals): int { if l.applied.ScPwd? then l.netC else 0 }

  function OrderDiscountC(lines: seq<LineTotals>, d: Option<DiscountSpec>): int {
    DiscountAmountC(d, SumBy(lines, OrderEligible))
  }

  function ComputeTotals(cart: Cart, s: Rates): CartTotals {
    var lines := LineTotalsOf(cart.lines, cart.scPwd, s.tax);
    Settle(lines, SumBy(lines, Gross), SumBy(lines, LinePromo), SumBy(lines, LineScPwd),
           OrderDiscountC(lines, cart.orderDiscount), SumBy(lines, Exempt), cart.orderType, s)
  }

  /** Everything after the per-line reduces. */
  function Settle(lines: seq<LineTotals>, subtotal: int, linePromo: int, scPwd: int, orderDiscount: int,
                  exempt: int, orderType: OrderType, s: Rates): CartTotals {
    var promo := linePromo + orderDiscount;
    var discounted := subtotal - promo - scPwd;
    var service := if orderType.DineIn? then MulRate(discounted, s.service) else 0;
    var total := discounted + service;
    var vat := VatIncluded(total - exempt, s.tax);
    CartTotals(lines, subtotal, promo, scPwd, discounted, service, total, exempt, vat, total - exempt - vat)
  }
}

/** What the engine promises, proved for every cart. */
module TotalsProofs {
  import opened Common
  import opened Money
  import opened Totals

  // ----- Lines -----

  /** Higher-of rule: a line loses exactly the better of its two discounts, never both. */
  lemma LineNetIsGrossLessBest(line: CartLine, scPwd: bool, tax: nat)
    ensures var l := LineTotal(line, scPwd, tax);
            l.netC == l.grossC - Max(0, Max(l.promoDiscountC, l.scPwdDiscountC))
  {}

  /** Discounts never push a line negative. */
  lemma NetNonNegative(line: CartLine, scPwd: bool, tax: nat)
    requires GrossC(line) >= 0
    ensures 0 <= LineTotal(line, scPwd, tax).netC
  {
    var gross := GrossC(line);
    assert gross * RATE_SCALE >= 0;
    assert ScPwdPayC(gross, tax) >= 0;
  }

  lemma DividedNegativeRises(g: int, tax: nat, base: int)
    requires g <= 0 && g * tax <= 0 && Nearest(g * RATE_SCALE, RATE_SCALE + tax, base)
    ensures g <= base
  {
    assert g * (RATE_SCALE + tax) == g * RATE_SCALE + g * tax;
    if base < g {
      MulLess(base, g, RATE_SCALE + tax);
      assert false;
    }
  }

  /** A line whose gross is not positive is never discounted. */
  lemma NegativeGrossUndiscounted(line: CartLine, scPwd: bool, tax: nat)
    requires GrossC(line) <= 0
    ensures LineTotal(line, scPwd, tax).applied == Neither
  {
    var gross := GrossC(line);
    var base := HalfUp(gross * RATE_SCALE, RATE_SCALE + tax);
    MulOrder(gross, 0, tax);
    DividedNegativeRises(gross, tax, base);
    EightyPercentRises(base);
  }

  lemma EightyPercentRises(base: int)
    requires base <= 0
    ensures base <= Pct(base, 80)
  {}

  /** SC/PWD bound: the net is within 9/10 centavo of 0.8 * gross / (1 + rate). */
  lemma ScPwdNetBound(line: CartLine, tax: nat)
    requires LineTotal(line, true, tax).applied == ScPwd
    ensures var l := LineTotal(line, true, tax);
            Abs(10 * l.netC * (RATE_SCALE + tax) - 8 * l.grossC * RATE_SCALE) <= 9 * (RATE_SCALE + tax)
  {
    var gross := GrossC(line);
    var base := HalfUp(gross * RATE_SCALE, RATE_SCALE + tax);
    TwoRoundings(gross * RATE_SCALE, RATE_SCALE + tax, base, Pct(base, 80));
  }

  /** Two nearest roundings in a row, the second of 80%: 0.4 + 0.5 off at most. */
  lemma TwoRoundings(n: int, d: int, base: int, pay: int)
    requires d > 0 && Nearest(n, d, base) && Nearest(base * 80, 100, pay)
    ensures Abs(10 * pay * d - 8 * n) <= 9 * d
  {
    var e1, e2 := n - base * d, base * 80 - pay * 100;
    Scaled(base, pay, e2, d);
    MulOrder(-50, e2, d);
    MulOrder(e2, 50, d);
    assert 10 * (10 * (pay * d) - 8 * n) == -80 * e1 - e2 * d;
    assert 10 * pay * d == 10 * (pay * d);
  }

  lemma Scaled(base: int, pay: int, e: int, d: int)
    requires e == base * 80 - pay * 100
    ensures 100 * (pay * d) == 80 * (base * d) - e * d
  {
    assert (pay * 100) * d == (base * 80 - e) * d;
  }

  lemma ScPwdPayMonotone(g: int, h: int, tax: nat)
    requires g <= h
    ensures ScPwdPayC(g, tax) <= ScPwdPayC(h, tax)
  {
    HalfUpMonotone(g * RATE_SCALE, h * RATE_SCALE, RATE_SCALE + tax);
    HalfUpMonotone(HalfUp(g * RATE_SCALE, RATE_SCALE + tax) * 80, HalfUp(h * RATE_SCALE, RATE_SCALE + tax) * 80, 100);
  }

  /** Among lines sold at the SC/PWD price, a larger gross never pays less. */
  lemma ScPwdNetMonotone(a: CartLine, b: CartLine, tax: nat)
    requires LineTotal(a, true, tax).applied == ScPwd && LineTotal(b, true, tax).applied == ScPwd
    requires GrossC(a) <= GrossC(b)
    ensures LineTotal(a, true, tax).netC <= LineTotal(b, true, tax).netC
  {
    ScPwdPayMonotone(GrossC(a), GrossC(b), tax);
  }

  // ----- The order discount -----

  /** What is left of a base after the capped order discount. */
  function Remainder(d: Option<DiscountSpec>, baseC: int): int {
    baseC - DiscountAmountC(d, baseC)
  }

  lemma RemainderNonNegative(d: Option<DiscountSpec>, baseC: int)
    ensures baseC >= 0 ==> Remainder(d, baseC) >= 0
  {}

  lemma PercentAboveBase(b: int, v: int)
    requires b >= 0 && v >= 100
    ensures Pct(b, v) >= b
  {
    HalfUpMonotone(b * 100, b * v, 100) by { assert b * 100 <= b * v; }
    HalfUpUnique(b * 100, 100, b);
  }

  /** Raising the base by k raises a percentage of at most 100 by at most k. */
  lemma PercentSlope(a: int, b: int, v: int)
    requires 0 <= a <= b && v <= 100
    ensures Pct(b, v) <= Pct(a, v) + (b - a)
  {
    var k := b - a;
    assert b * v == a * v + k * v;
    assert k * v <= k * 100;
    if v >= 0 {
      assert a * v >= 0;
      HalfUpMonotone(b * v, a * v + k * 100, 100);
      HalfUpShift(a * v, 100, k);
    } else {
      assert k * v <= 0;
      HalfUpMonotone(b * v, a * v, 100);
    }
  }

  /** A larger base never leaves a smaller remainder, capped percent or fixed. */
  lemma RemainderMonotone(d: Option<DiscountSpec>, a: int, b: int)
    requires a <= b
    ensures Remainder(d, a) <= Remainder(d, b)
  {
    if d.None? || b <= 0 || d.value.kind.Fixed? {
      return;
    }
    var v := d.value.value;
    if v >= 100 {
      PercentAboveBase(b, v);
      if a > 0 { PercentAboveBase(a, v); }
    } else if a > 0 {
      PercentSlope(a, b, v);
    } else {
      PercentSlope(0, b, v);
      assert Pct(0, v) == 0;
    }
  }

  // ----- The whole cart -----

  /** Subtotal less every discount = exempt nets + what the order discount leaves. */
  lemma DiscountedSplit(cart: Cart, s: Rates)
    ensures var t := ComputeTotals(cart, s);
            t.discountedSubtotalC == t.vatExemptSalesC + Remainder(cart.orderDiscount, SumBy(t.lines, OrderEligible))
  {
    NetSplit(LineTotalsOf(cart.lines, cart.scPwd, s.tax), cart.lines, cart.scPwd, s.tax);
  }

  lemma {:induction false} NetSplit(ls: seq<LineTotals>, lines: seq<CartLine>, scPwd: bool, tax: nat)
    requires ls == LineTotalsOf(lines, scPwd, tax)
    ensures SumBy(ls, Gross) - SumBy(ls, LinePromo) - SumBy(ls, LineScPwd)
         == SumBy(ls, Exempt) + SumBy(ls, OrderEligible)
  {
    if ls == [] {
    } else {
      assert ls[1..] == LineTotalsOf(lines[1..], scPwd, tax);
      NetSplit(ls[1..], lines[1..], scPwd, tax);
    }
  }

  ghost predicate NonNegativeLines(lines: seq<CartLine>) {
    forall l <- lines :: GrossC(l) >= 0
  }

  /** The VAT split of an amount: signs follow the amount, for every rate below 100%. */
  lemma VatSplit(t: int, r: nat)
    requires r < RATE_SCALE
    ensures var v := VatIncluded(t, r); (v >= 0 && t - v >= 0) <==> t >= 0
    ensures var v := VatIncluded(t, r); 2 * Abs(RATE_SCALE * v - r * (t - v)) <= RATE_SCALE + r
  {
    if r > 0 {
      assert t >= 0 ==> t * r >= 0 by { if t >= 0 { MulOrder(0, t, r); } }
      assert t < 0 ==> t * r < 0 by { if t < 0 { MulOrder(t, -1, r); } }
      VatSigns(t, r, VatIncluded(t, r));
    }
  }

  lemma VatSigns(t: int, r: nat, v: int)
    requires 0 < r < RATE_SCALE
    requires if t >= 0 then t * r >= 0 && v >= 0 else t * r < 0
    requires Nearest(t * r, RATE_SCALE + r, v)
    ensures (v >= 0 && t - v >= 0) <==> t >= 0
    ensures 2 * Abs(RATE_SCALE * v - r * (t - v)) <= RATE_SCALE + r
  {
    var d := RATE_SCALE + r;
    assert v * d == RATE_SCALE * v + r * v;
    assert r * (t - v) == t * r - r * v;
    assert t * d == RATE_SCALE * t + t * r;
    if t >= 0 && v > t {
      MulLess(t, v, d);
      assert false;
    }
    if t < 0 && v <= t {
      MulOrder(v, t, d);
      assert false;
    }
  }

  /** BIR partition: exact always; each part's sign is settled by one comparison. */
  lemma Partition(cart: Cart, s: Rates)
    requires s.tax < RATE_SCALE
    ensures var t := ComputeTotals(cart, s);
            && t.vatableSalesC + t.vatC + t.vatExemptSalesC == t.totalC
            && ((t.vatableSalesC >= 0 && t.vatC >= 0) <==> t.totalC >= t.vatExemptSalesC)
  {
    var t := ComputeTotals(cart, s);
    VatSplit(t.totalC - t.vatExemptSalesC, s.tax);
  }

  /** With no negative line every part is non-negative, under any order discount. */
  lemma PartitionNonNegative(cart: Cart, s: Rates)
    requires s.tax < RATE_SCALE
    requires NonNegativeLines(cart.lines)
    ensures var t := ComputeTotals(cart, s);
            && t.vatableSalesC >= 0 && t.vatC >= 0
            && 0 <= t.vatExemptSalesC <= t.discountedSubtotalC <= t.totalC
  {
    var t := ComputeTotals(cart, s);
    NetsNonNegative(cart.lines, cart.scPwd, s.tax);
    DiscountedSplit(cart, s);
    RemainderNonNegative(cart.orderDiscount, SumBy(t.lines, OrderEligible));
    ServiceNonNegative(t.discountedSubtotalC, cart.orderType, s.service);
    Partition(cart, s);
  }

  lemma NetsNonNegative(lines: seq<CartLine>, scPwd: bool, tax: nat)
    requires NonNegativeLines(lines)
    ensures var ls := LineTotalsOf(lines, scPwd, tax); SumBy(ls, Exempt) >= 0 && SumBy(ls, OrderEligible) >= 0
  {
    var ls := LineTotalsOf(lines, scPwd, tax);
    forall l <- ls ensures l.netC >= 0 {
      var i :| 0 <= i < |ls| && ls[i] == l;
      NetNonNegative(lines[i], scPwd, tax);
    }
    SumByNonNegative(ls, Exempt);
    SumByNonNegative(ls, OrderEligible);
  }

  /** A discounted subtotal with the dine-in service charge on top. */
  function WithService(d: int, orderType: OrderType, rate: nat): int {
    d + if orderType.DineIn? then MulRate(d, rate) else 0
  }

  lemma ServiceNonNegative(d: int, orderType: OrderType, rate: nat)
    ensures d >= 0 ==> WithService(d, orderType, rate) >= d
  {
    if d >= 0 { MulOrder(0, d, rate); }
  }

  lemma ServiceMonotone(d: int, e: int, orderType: OrderType, rate: nat)
    requires d <= e
    ensures WithService(d, orderType, rate) <= WithService(e, orderType, rate)
  {
    MulOrder(d, e, rate);
    HalfUpMonotone(d * rate, e * rate, RATE_SCALE);
  }

  /** What the exempt lines come to is never negative: a line sold at the SC/PWD price has a
      positive gross. */
  lemma ExemptNonNegative(lines: seq<CartLine>, scPwd: bool, tax: nat)
    ensures SumBy(LineTotalsOf(lines, scPwd, tax), Exempt) >= 0
  {
    var ls := LineTotalsOf(lines, scPwd, tax);
    forall l <- ls ensures Exempt(l) >= 0 {
      var i :| 0 <= i < |ls| && ls[i] == l;
      if GrossC(lines[i]) >= 0 {
        NetNonNegative(lines[i], scPwd, tax);
      } else {
        NegativeGrossUndiscounted(lines[i], scPwd, tax);
      }
    }
    SumByNonNegative(ls, Exempt);
  }

  /** The discounted subtotal covers the exempt sales, and every part of the VAT split is
      non-negative, exactly when the lines not sold at the SC/PWD price come to at least zero:
      for every cart, order discount, order type and tax rate below 100%. */
  lemma PartitionSignsExactly(cart: Cart, s: Rates)
    requires s.tax < RATE_SCALE
    ensures var t := ComputeTotals(cart, s);
            (t.vatableSalesC >= 0 && t.vatC >= 0 && 0 <= t.vatExemptSalesC <= t.discountedSubtotalC)
            <==> SumBy(LineTotalsOf(cart.lines, cart.scPwd, s.tax), OrderEligible) >= 0
  {
    var t := ComputeTotals(cart, s);
    var eligible := SumBy(t.lines, OrderEligible);
    ExemptNonNegative(cart.lines, cart.scPwd, s.tax);
    DiscountedSplit(cart, s);
    RemainderNonNegative(cart.orderDiscount, eligible);
    assert eligible < 0 ==> Remainder(cart.orderDiscount, eligible) == eligible;
    ServiceNonNegative(t.discountedSubtotalC, cart.orderType, s.service);
    Partition(cart, s);
  }

  /** One line sold below zero is enough to break it: negative vatable sales. */
  lemma NegativeGrossBreaksPartition() returns (cart: Cart, s: Rates)
    ensures s.tax < RATE_SCALE && ComputeTotals(cart, s).vatableSalesC < 0
  {
    var line := CartLine(1, None, None, 1000, 0, [-100], None, false, false, None);
    cart, s := Cart(NoType, [line], None, false), Rates(1200, 0);
    assert SumBy([-100], (d: int) => d) == -100 + SumBy([], (d: int) => d);
    assert GrossC(line) == -100;
    var t := ComputeTotals(cart, s);
    var l := LineTotal(line, false, 1200);
    assert t.lines == [l] && l.applied == Neither;
    SumByStep(t.lines, 0, Gross);
    SumByStep(t.lines, 0, LinePromo);
    SumByStep(t.lines, 0, LineScPwd);
    SumByStep(t.lines, 0, Exempt);
    assert t.lines[..1] == t.lines && t.lines[..0] == [];
    assert t.totalC == -100 && t.vatExemptSalesC == 0;
    Partition(cart, s);
    assert t.vatC <= 0 && t.vatableSalesC < 0;
  }

  /** vatC is within (1 + rate)/2 centavos of rate * vatableSalesC. */
  lemma VatBound(cart: Cart, s: Rates)
    requires s.tax < RATE_SCALE
    ensures var t := ComputeTotals(cart, s);
            2 * Abs(RATE_SCALE * t.vatC - s.tax * t.vatableSalesC) <= RATE_SCALE + s.tax
  {
    var t := ComputeTotals(cart, s);
    VatSplit(t.totalC - t.vatExemptSalesC, s.tax);
  }

  function ExactMilliC(line: CartLine): int { line.qtyMilli * LineUnitWithModsC(line) }

  /** An n-line subtotal is within n/2 centavos of the unrounded sum. */
  lemma {:induction false} SubtotalBound(lines: seq<CartLine>, scPwd: bool, tax: nat)
    ensures 2 * Abs(1000 * SumBy(LineTotalsOf(lines, scPwd, tax), Gross) - SumBy(lines, ExactMilliC)) <= 1000 * |lines|
  {
    if lines == [] {
    } else {
      var ls := LineTotalsOf(lines, scPwd, tax);
      assert ls[1..] == LineTotalsOf(lines[1..], scPwd, tax);
      SubtotalBound(lines[1..], scPwd, tax);
    }
  }

  lemma LineSumPermutation(a: seq<CartLine>, b: seq<CartLine>, scPwd: bool, tax: nat, f: LineTotals -> int)
    requires multiset(a) == multiset(b)
    ensures SumBy(LineTotalsOf(a, scPwd, tax), f) == SumBy(LineTotalsOf(b, scPwd, tax), f)
  {
    var g := (l: CartLine) => f(LineTotal(l, scPwd, tax));
    SumByMapped(a, LineTotalsOf(a, scPwd, tax), f, g);
    SumByMapped(b, LineTotalsOf(b, scPwd, tax), f, g);
    SumByPermutation(a, b, g);
  }

  lemma SettleIgnoresLines(la: seq<LineTotals>, lb: seq<LineTotals>, subtotal: int, promo: int, scPwd: int,
                           order: int, exempt: int, orderType: OrderType, s: Rates)
    ensures Settle(lb, subtotal, promo, scPwd, order, exempt, orderType, s)
         == Settle(la, subtotal, promo, scPwd, order, exempt, orderType, s).(lines := lb)
  {}

  /** Ringing the same lines up in another order changes no aggregate. */
  lemma OrderIndependent(a: Cart, lines: seq<CartLine>, s: Rates)
    requires multiset(a.lines) == multiset(lines)
    ensures var t := ComputeTotals(a.(lines := lines), s);
            t == ComputeTotals(a, s).(lines := t.lines)
  {
    var la, lb := LineTotalsOf(a.lines, a.scPwd, s.tax), LineTotalsOf(lines, a.scPwd, s.tax);
    LineSumPermutation(a.lines, lines, a.scPwd, s.tax, Gross);
    LineSumPermutation(a.lines, lines, a.scPwd, s.tax, LinePromo);
    LineSumPermutation(a.lines, lines, a.scPwd, s.tax, LineScPwd);
    LineSumPermutation(a.lines, lines, a.scPwd, s.tax, OrderEligible);
    LineSumPermutation(a.lines, lines, a.scPwd, s.tax, Exempt);
    SettleIgnoresLines(la, lb, SumBy(la, Gross), SumBy(la, LinePromo), SumBy(la, LineScPwd),
                       OrderDiscountC(la, a.orderDiscount), SumBy(la, Exempt), a.orderType, s);
  }

  /** What a cart comes to, from its two amounts. */
  function TotalOf(d: Option<DiscountSpec>, orderType: OrderType, service: nat, exempt: int, eligible: int): int {
    WithService(exempt + Remainder(d, eligible), orderType, service)
  }

  /** The total depends on the lines only through those two amounts. */
  lemma TotalFromSplit(cart: Cart, s: Rates, exempt: int, eligible: int)
    requires exempt == SumBy(LineTotalsOf(cart.lines, cart.scPwd, s.tax), Exempt)
    requires eligible == SumBy(LineTotalsOf(cart.lines, cart.scPwd, s.tax), OrderEligible)
    ensures ComputeTotals(cart, s).totalC == TotalOf(cart.orderDiscount, cart.orderType, s.service, exempt, eligible)
  {
    DiscountedSplit(cart, s);
  }

  /** Appending a line adds its net to one of the two amounts. */
  lemma AppendSplit(cart: Cart, line: CartLine, s: Rates)
    ensures var ls := LineTotalsOf(cart.lines, cart.scPwd, s.tax);
            var ms := LineTotalsOf(cart.lines + [line], cart.scPwd, s.tax);
            var l := LineTotal(line, cart.scPwd, s.tax);
            && SumBy(ms, Exempt) == SumBy(ls, Exempt) + Exempt(l)
            && SumBy(ms, OrderEligible) == SumBy(ls, OrderEligible) + OrderEligible(l)
  {
    var ls, l := LineTotalsOf(cart.lines, cart.scPwd, s.tax), LineTotal(line, cart.scPwd, s.tax);
    assert LineTotalsOf(cart.lines + [line], cart.scPwd, s.tax) == ls + [l];
    SumByAppend(ls, [l], Exempt);
    SumByAppend(ls, [l], OrderEligible);
  }

  /** The total grows with both amounts. */
  lemma SplitMonotone(d: Option<DiscountSpec>, e: int, o: int, e': int, o': int, orderType: OrderType, rate: nat)
    requires e <= e' && o <= o'
    ensures TotalOf(d, orderType, rate, e, o) <= TotalOf(d, orderType, rate, e', o')
  {
    RemainderMonotone(d, o, o');
    ServiceMonotone(e + Remainder(d, o), e' + Remainder(d, o'), orderType, rate);
  }

  /** A line adds to the two amounts in the direction of its gross. */
  lemma LineAmounts(line: CartLine, scPwd: bool, tax: nat)
    ensures var l := LineTotal(line, scPwd, tax);
            && (GrossC(line) >= 0 ==> Exempt(l) >= 0 && OrderEligible(l) >= 0)
            && (GrossC(line) <= 0 ==> Exempt(l) <= 0 && OrderEligible(l) <= 0)
  {
    if GrossC(line) >= 0 { NetNonNegative(line, scPwd, tax); }
    if GrossC(line) <= 0 { NegativeGrossUndiscounted(line, scPwd, tax); }
  }

  lemma AppendedAmounts(cart: Cart, line: CartLine, s: Rates) returns (e: int, o: int, x: int, y: int)
    ensures e == SumBy(LineTotalsOf(cart.lines, cart.scPwd, s.tax), Exempt)
    ensures o == SumBy(LineTotalsOf(cart.lines, cart.scPwd, s.tax), OrderEligible)
    ensures e + x == SumBy(LineTotalsOf(cart.lines + [line], cart.scPwd, s.tax), Exempt)
    ensures o + y == SumBy(LineTotalsOf(cart.lines + [line], cart.scPwd, s.tax), OrderEligible)
    ensures GrossC(line) >= 0 ==> x >= 0 && y >= 0
    ensures GrossC(line) <= 0 ==> x <= 0 && y <= 0
  {
    var ls, l := LineTotalsOf(cart.lines, cart.scPwd, s.tax), LineTotal(line, cart.scPwd, s.tax);
    e, o, x, y := SumBy(ls, Exempt), SumBy(ls, OrderEligible), Exempt(l), OrderEligible(l);
    LineAmounts(line, cart.scPwd, s.tax);
    AppendSplit(cart, line, s);
  }

  lemma AppendedTotal(cart: Cart, line: CartLine, s: Rates) returns (e: int, o: int, x: int, y: int)
    ensures GrossC(line) >= 0 ==> x >= 0 && y >= 0
    ensures GrossC(line) <= 0 ==> x <= 0 && y <= 0
    ensures ComputeTotals(cart, s).totalC == TotalOf(cart.orderDiscount, cart.orderType, s.service, e, o)
    ensures ComputeTotals(cart.(lines := cart.lines + [line]), s).totalC
         == TotalOf(cart.orderDiscount, cart.orderType, s.service, e + x, o + y)
  {
    e, o, x, y := AppendedAmounts(cart, line, s);
    TotalFromSplit(cart, s, e, o);
    TotalFromSplit(cart.(lines := cart.lines + [line]), s, e + x, o + y);
  }

  /** Appending a line of non-negative gross never lowers the total, whatever is
      already in the cart. */
  lemma AppendNeverLowers(cart: Cart, line: CartLine, s: Rates)
    requires GrossC(line) >= 0
    ensures ComputeTotals(cart, s).totalC <= ComputeTotals(cart.(lines := cart.lines + [line]), s).totalC
  {
    var e, o, x, y := AppendedTotal(cart, line, s);
    SplitMonotone(cart.orderDiscount, e, o, e + x, o + y, cart.orderType, s.service);
  }

  /** And a line of non-positive gross never raises it: the bound on gross is exact. */
  lemma AppendNeverRaises(cart: Cart, line: CartLine, s: Rates)
    requires GrossC(line) <= 0
    ensures ComputeTotals(cart.(lines := cart.lines + [line]), s).totalC <= ComputeTotals(cart, s).totalC
  {
    var e, o, x, y := AppendedTotal(cart, line, s);
    SplitMonotone(cart.orderDiscount, e + x, o + y, e, o, cart.orderType, s.service);
  }
}
