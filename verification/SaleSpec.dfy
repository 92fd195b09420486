/** What one sale, void or refund may do and leaves behind, in the words of the draft, the rows and
    the levels themselves (src/pos/sales/sales.service.ts). */
module SaleSpec {
  import opened Common
  import opened Totals
  import opened SaleRecords
  import opened Stock
  import opened Conflicts

  // ----- The draft's checks -----

  /** A payment of the total; in cash, with enough tendered and the right change. */
  predicate PaysFor(p: Payment, totalC: int) {
    p.amountC == totalC && (p.means.Cash? ==> p.tenderedC >= totalC && p.changeC == p.tenderedC - totalC)
  }

  lemma PaymentAcceptedExactly(p: Payment, totalC: int)
    ensures AssertPayment(p, totalC).None? <==> PaysFor(p, totalC)
    ensures AssertPayment(p, totalC) == Some(AmountMismatch) <==> p.amountC != totalC
    ensures AssertPayment(p, totalC) == Some(TenderedShort)
       <==> p.amountC == totalC && p.means.Cash? && p.tenderedC < totalC
  {}

  /** A draft passes exactly when it is for the terminal's open shift, the business and every
      reference are found, its totals are the recomputed ones and its payment pays them. */
  lemma DraftAcceptedExactly(d: Draft, openShift: Option<Id>, rates: Option<Rates>, refsOk: bool)
    ensures CheckDraft(d, openShift, rates, refsOk).None?
       <==> && openShift == Some(d.shiftId) && rates.Some? && refsOk
            && d.totals == ComputeTotals(d.cart, rates.value) && PaysFor(d.payment, d.totals.totalC)
  {
    if d.totals == ComputeTotals(d.cart, if rates.Some? then rates.value else Rates(0, 0)) {
      PaymentAcceptedExactly(d.payment, d.totals.totalC);
    }
  }

  /** The reason given: the first check that fails. */
  ghost predicate RejectedFor(d: Draft, openShift: Option<Id>, rates: Option<Rates>, refsOk: bool, why: Rejection) {
    var (shiftOk, found) := (openShift == Some(d.shiftId), rates.Some? && refsOk);
    var paid := shiftOk && found && d.totals == ComputeTotals(d.cart, rates.value);
    match why
    case ShiftNotOpen => !shiftOk
    case BusinessNotFound => shiftOk && rates.None?
    case BadReference => shiftOk && rates.Some? && !refsOk
    case TotalsMismatch => shiftOk && found && !paid
    case AmountMismatch => paid && d.payment.amountC != d.totals.totalC
    case TenderedShort =>
      && paid && d.payment.amountC == d.totals.totalC
      && d.payment.means.Cash? && d.payment.tenderedC < d.totals.totalC
    case ChangeMismatch =>
      && paid && d.payment.amountC == d.totals.totalC
      && d.payment.means.Cash? && d.payment.tenderedC >= d.totals.totalC
      && d.payment.changeC != d.payment.tenderedC - d.totals.totalC
  }

  lemma RejectedExactly(d: Draft, openShift: Option<Id>, rates: Option<Rates>, refsOk: bool, why: Rejection)
    ensures CheckDraft(d, openShift, rates, refsOk) == Some(why)
       <==> RejectedFor(d, openShift, rates, refsOk, why)
  {
    PaymentAcceptedExactly(d.payment, d.totals.totalC);
  }

  // ----- The stored row -----

  ghost function NamedOf(d: Option<DiscountSpec>): Option<Id> {
    match d case Some(Named(id, _, _)) => Some(id) case _ => None
  }

  /** A line's item: the line's own columns, and the discount of the first line total with its id. */
  ghost predicate ItemStored(line: CartLine, totals: seq<LineTotals>, item: Item) {
    && item.product == line.product && item.variant == line.variant
    && item.qtyMilli == line.qtyMilli && item.unitPriceC == line.unitPriceC
    && item.modifierDeltasC == line.modifierDeltasC && item.costC == line.costC
    && (forall j | 0 <= j < |totals| && totals[j].lineId == line.id && FirstAt(totals, line.id, j) ::
          && item.discountC == totals[j].grossC - totals[j].netC
          && item.discountId == if totals[j].applied.Promo? then NamedOf(line.discount) else None)
    && ((forall l <- totals :: l.lineId != line.id) ==> item.discountC == 0 && item.discountId.None?)
  }

  predicate FirstAt(totals: seq<LineTotals>, id: Id, j: nat)
    requires j < |totals|
  {
    forall k | 0 <= k < j :: totals[k].lineId != id
  }

  /** Every column of a newly posted sale. */
  ghost predicate StoredAs(row: SaleRow, d: Draft, branch: Id, terminal: Id, now: int) {
    && row.id == d.id && row.branch == branch && row.terminal == terminal && row.shift == d.shiftId
    && row.receiptNo == d.receiptNo && row.orderType == d.cart.orderType && row.createdAt == now
    && row.status.Completed? && row.refundShift.None?
    && row.subtotalC == d.totals.subtotalC && row.discountC == d.totals.promoDiscountC
    && row.discountId == NamedOf(d.cart.orderDiscount)
    && row.serviceChargeC == d.totals.serviceChargeC
    && row.scPwd == d.cart.scPwd && row.scPwdDiscountC == d.totals.scPwdDiscountC
    && row.vatExemptC == d.totals.vatExemptSalesC && row.taxC == d.totals.vatC && row.totalC == d.totals.totalC
    && row.payments == [d.payment] && row.draft == d
    && |row.items| == |d.cart.lines|
    && forall i | 0 <= i < |row.items| :: ItemStored(d.cart.lines[i], d.totals.lines, row.items[i])
  }

  lemma {:induction false} FirstFound(totals: seq<LineTotals>, id: Id, j: nat)
    requires j < |totals| && totals[j].lineId == id && FirstAt(totals, id, j)
    ensures FindLine(totals, id) == Some(totals[j])
  {
    if j == 0 {
    } else {
      assert totals[0].lineId != id;
      forall k | 0 <= k < j - 1 ensures totals[1..][k].lineId != id { assert totals[k + 1].lineId != id; }
      FirstFound(totals[1..], id, j - 1);
    }
  }

  lemma {:induction false} NoneFound(totals: seq<LineTotals>, id: Id)
    requires forall l <- totals :: l.lineId != id
    ensures FindLine(totals, id).None?
  {
    if totals == [] {
    } else {
      assert totals[0] in totals;
      NoneFound(totals[1..], id);
    }
  }

  lemma ItemIsStored(line: CartLine, totals: seq<LineTotals>)
    ensures ItemStored(line, totals, BuildItem(line, totals))
  {
    forall j | 0 <= j < |totals| && totals[j].lineId == line.id && FirstAt(totals, line.id, j)
      ensures FindLine(totals, line.id) == Some(totals[j])
    {
      FirstFound(totals, line.id, j);
    }
    if forall l <- totals :: l.lineId != line.id { NoneFound(totals, line.id); }
  }

  lemma SaleIsStored(d: Draft, branch: Id, terminal: Id, now: int)
    ensures StoredAs(BuildSaleData(d, branch, terminal, now), d, branch, terminal, now)
  {
    var row := BuildSaleData(d, branch, terminal, now);
    forall i | 0 <= i < |row.items| ensures ItemStored(d.cart.lines[i], d.totals.lines, row.items[i]) {
      ItemIsStored(d.cart.lines[i], d.totals.lines);
    }
  }

  /** A void: of a completed sale of the branch, for a reason, while its own shift is the open one;
      only its status changes. */
  lemma VoidedExactly(row: SaleRow, branch: Id, reasonGiven: bool, openShift: Option<Id>)
    ensures VoidRow(row, branch, reasonGiven, openShift).Some?
       <==> reasonGiven && row.branch == branch && row.status.Completed? && openShift == Some(row.shift)
    ensures VoidRow(row, branch, reasonGiven, openShift).Some? ==>
              VoidRow(row, branch, reasonGiven, openShift).value == row.(status := Voided)
  {}

  /** A refund: whatever shift is open; it counts against the sale's shift only if that is the one. */
  lemma RefundedExactly(row: SaleRow, branch: Id, reasonGiven: bool, openShift: Option<Id>)
    ensures RefundRow(row, branch, reasonGiven, openShift).Some?
       <==> reasonGiven && row.branch == branch && row.status.Completed?
    ensures RefundRow(row, branch, reasonGiven, openShift).Some? ==>
              RefundRow(row, branch, reasonGiven, openShift).value
                == row.(status := Refunded,
                        refundShift := if openShift == Some(row.shift) then Some(row.shift) else None)
  {}

  // ----- What the lines take -----

  /** A line's quantity, if it takes stock of this product and variant. */
  function Quantity(product: Id, variant: Option<Id>): CartLine -> int {
    (l: CartLine) => if l.product == Some(product) && l.variant == variant && l.trackStock then l.qtyMilli else 0
  }

  /** What the lines ask of a product's variant, or of the product itself. */
  function Asked(lines: seq<CartLine>, product: Id, variant: Option<Id>): int {
    SumBy(lines, Quantity(product, variant))
  }

  lemma WantedIsAsked(lines: seq<CartLine>, branch: Id, k: Key)
    ensures Wanted(lines, branch, k) == if k.branch == branch then Asked(lines, k.product, k.variant) else 0
  {
    if k.branch == branch {
      SumByEqual(lines, WantOn(branch, k), Quantity(k.product, k.variant));
    } else {
      SumByEqual(lines, WantOn(branch, k), (l: CartLine) => 0);
      NothingAsked(lines);
    }
  }

  lemma {:induction false} NothingAsked(lines: seq<CartLine>)
    ensures SumBy(lines, (l: CartLine) => 0) == 0
  {
    if lines == [] {
    } else {
      NothingAsked(lines[1..]);
      SumByEqual(lines[1..], (l: CartLine) => 0, (l: CartLine) => 0);
    }
  }

  /** The branch has as much of everything as the lines ask. */
  ghost predicate InStock(levels: Levels, lines: seq<CartLine>, branch: Id) {
    forall product, variant :: Asked(lines, product, variant) <= Level(levels, Key(branch, product, variant))
  }

  lemma CoveredIsInStock(levels: Levels, lines: seq<CartLine>, branch: Id)
    requires forall k <- levels :: levels[k] >= 0
    ensures Covered(levels, lines, branch) <==> InStock(levels, lines, branch)
  {
    forall k ensures Wanted(lines, branch, k) == if k.branch == branch then Asked(lines, k.product, k.variant) else 0 {
      WantedIsAsked(lines, branch, k);
    }
    if Covered(levels, lines, branch) {
      forall product, variant ensures Asked(lines, product, variant) <= Level(levels, Key(branch, product, variant)) {
        assert Wanted(lines, branch, Key(branch, product, variant)) <= Level(levels, Key(branch, product, variant));
      }
    }
    if InStock(levels, lines, branch) {
      forall k ensures Wanted(lines, branch, k) <= Level(levels, k) {
        assert Asked(lines, k.product, k.variant) <= Level(levels, Key(branch, k.product, k.variant));
      }
    }
  }

  predicate TakesStock(l: CartLine) { l.product.Some? && l.trackStock }

  /** One movement per line that takes stock, in order. */
  ghost predicate LinesLogged(lines: seq<CartLine>, branch: Id, id: Id, moves: seq<Movement>) {
    EachLogged(Filter(lines, TakesStock), branch, id, moves)
  }

  ghost predicate EachLogged(taking: seq<CartLine>, branch: Id, id: Id, moves: seq<Movement>) {
    && |moves| == |taking|
    && forall i | 0 <= i < |moves| ::
         && TakesStock(taking[i])
         && moves[i] == Movement(Key(branch, taking[i].product.value, taking[i].variant), SaleMove, id,
                                 -taking[i].qtyMilli)
  }

  lemma {:induction false} SaleMovesAre(lines: seq<CartLine>, branch: Id, id: Id)
    ensures LinesLogged(lines, branch, id, SaleMoves(lines, branch, id))
  {
    if lines == [] {
    } else {
      var taking, moves := Filter(lines[1..], TakesStock), SaleMoves(lines[1..], branch, id);
      SaleMovesAre(lines[1..], branch, id);
      if TakesStock(lines[0]) {
        FirstLogged(lines[0], taking, branch, id, moves);
      } else {
        assert Filter(lines, TakesStock) == [] + taking == taking;
        assert SaleMoves(lines, branch, id) == [] + moves == moves;
      }
    }
  }

  lemma FirstLogged(l: CartLine, taking: seq<CartLine>, branch: Id, id: Id, moves: seq<Movement>)
    requires TakesStock(l) && EachLogged(taking, branch, id, moves)
    ensures var own := Movement(Key(branch, l.product.value, l.variant), SaleMove, id, -l.qtyMilli);
            EachLogged([l] + taking, branch, id, [own] + moves)
  {}

  // ----- Conflicts -----

  /** Line i asks for more than the branch has, once the lines up to it have taken theirs. */
  ghost predicate Lacking(levels: Levels, lines: seq<CartLine>, branch: Id, i: nat)
    requires i < |lines|
  {
    && TakesStock(lines[i])
    && Asked(lines[..i + 1], lines[i].product.value, lines[i].variant)
         > Level(levels, Key(branch, lines[i].product.value, lines[i].variant))
  }

  ghost function Reported(levels: Levels, line: CartLine, branch: Id): Conflict
    requires TakesStock(line)
  {
    var k := Key(branch, line.product.value, line.variant);
    Conflict(line.id, k, if k in levels then levels[k] else 0)
  }

  /** Exactly the lacking lines are reported, in order, each with what the branch has of it. */
  ghost predicate LackingReported(levels: Levels, lines: seq<CartLine>, branch: Id, conflicts: seq<Conflict>) {
    exists at: seq<nat> :: LackingAt(levels, lines, branch, conflicts, at)
  }

  ghost predicate LackingAt(levels: Levels, lines: seq<CartLine>, branch: Id, conflicts: seq<Conflict>, at: seq<nat>) {
    && |at| == |conflicts|
    && (forall i, j | 0 <= i < j < |at| :: at[i] < at[j])
    && (forall i | 0 <= i < |lines| :: i in at <==> Lacking(levels, lines, branch, i))
    && (forall i | 0 <= i < |at| ::
          at[i] < |lines| && TakesStock(lines[at[i]]) && conflicts[i] == Reported(levels, lines[at[i]], branch))
  }

  /** The levels read give every line its own level in the database. */
  ghost predicate ReadsEnough(levels: Levels, avail: Levels, lines: seq<CartLine>, branch: Id) {
    forall l <- lines | TakesStock(l) ::
      var k := Key(branch, l.product.value, l.variant); Level(avail, k) == Level(levels, k)
  }

  lemma ShortIsLacking(levels: Levels, avail: Levels, lines: seq<CartLine>, branch: Id, i: nat)
    requires i < |lines| && ReadsEnough(levels, avail, lines, branch)
    ensures Short(lines, branch, avail, i) <==> Lacking(levels, lines, branch, i)
  {
    if TakesStock(lines[i]) {
      WantedIsAsked(lines[..i + 1], branch, Key(branch, lines[i].product.value, lines[i].variant));
    }
  }

  lemma {:induction false} ShortAreReported(levels: Levels, avail: Levels, lines: seq<CartLine>, branch: Id, n: nat)
      returns (at: seq<nat>)
    requires n <= |lines| && ReadsEnough(levels, avail, lines, branch)
    ensures var conflicts := ShortLines(lines, branch, avail, n);
            && |at| == |conflicts|
            && (forall i, j | 0 <= i < j < |at| :: at[i] < at[j])
            && (forall i | 0 <= i < n :: i in at <==> Lacking(levels, lines, branch, i))
            && (forall i | 0 <= i < |at| ::
                  at[i] < n && TakesStock(lines[at[i]]) && conflicts[i] == Reported(levels, lines[at[i]], branch))
  {
    if n == 0 {
      at := [];
    } else {
      at := ShortAreReported(levels, avail, lines, branch, n - 1);
      ShortIsLacking(levels, avail, lines, branch, n - 1);
      if Short(lines, branch, avail, n - 1) {
        assert lines[n - 1] in lines;
        at := at + [n - 1];
      }
    }
  }

  lemma ConflictsAreLacking(levels: Levels, avail: Levels, lines: seq<CartLine>, branch: Id)
    requires ReadsEnough(levels, avail, lines, branch)
    ensures LackingReported(levels, lines, branch, ShortLines(lines, branch, avail, |lines|))
  {
    var at := ShortAreReported(levels, avail, lines, branch, |lines|);
    var conflicts := ShortLines(lines, branch, avail, |lines|);
    forall i | 0 <= i < |at| ensures conflicts[i] == Reported(levels, lines[at[i]], branch) {}
    assert LackingAt(levels, lines, branch, conflicts, at);
  }

  // ----- What a void or refund gives back -----

  /** A sale's own movement on a level, given back. */
  function GivenBack(id: Id, k: Key): Movement -> int {
    (m: Movement) => if m.ref == id && m.kind.SaleMove? && m.key == k then -m.deltaMilli else 0
  }

  /** Its sale movements mirrored, each once and in order. */
  ghost predicate Mirrored(before: seq<Movement>, after: seq<Movement>, id: Id, kind: Kind) {
    var sold := Filter(before, (m: Movement) => m.ref == id && m.kind.SaleMove?);
    && |after| == |before| + |sold| && after[..|before|] == before
    && forall i | 0 <= i < |sold| ::
         after[|before| + i] == Movement(sold[i].key, kind, id, -sold[i].deltaMilli)
  }

  lemma {:induction false} SoldOnKey(log: seq<Movement>, id: Id, k: Key)
    ensures SumKey(SoldMoves(log, id), k) == -SumBy(log, GivenBack(id, k))
  {
    if log == [] {
    } else {
      SoldOnKey(log[1..], id, k);
      var head := if log[0].ref == id && log[0].kind.SaleMove? then [log[0]] else [];
      SumByAppend(head, SoldMoves(log[1..], id), DeltaOn(k));
      assert head != [] ==> SumBy(head, DeltaOn(k)) == DeltaOn(k)(log[0]) + SumBy(head[1..], DeltaOn(k));
    }
  }

  lemma RestoredIs(db: Db, id: Id, kind: Kind)
    ensures var after := PostMoves(db, Reversal(SoldMoves(db.log, id), kind));
            && after.sales == db.sales && Mirrored(db.log, after.log, id, kind)
            && forall k :: Level(after.levels, k) == Level(db.levels, k) + SumBy(db.log, GivenBack(id, k))
  {
    var sold := SoldMoves(db.log, id);
    forall k
      ensures Level(AddMoves(db.levels, Reversal(sold, kind)), k)
           == Level(db.levels, k) + SumBy(db.log, GivenBack(id, k))
    {
      AddMovesLevels(db.levels, Reversal(sold, kind), k);
      ReversalSums(sold, kind, k);
      SoldOnKey(db.log, id, k);
    }
    forall i | 0 <= i < |sold| ensures sold[i].ref == id { assert sold[i] in sold; }
    assert sold == Filter(db.log, (m: Movement) => m.ref == id && m.kind.SaleMove?);
  }
}
