/** How completeSale answers, from the database it finds: stated on the levels, rows and draft
    themselves, without the rows it locks and reads. */
module SaleOutcome {
  import opened Common
  import opened Totals
  import opened SaleRecords
  import opened Stock
  import opened Conflicts
  import opened SaleSpec
  import opened Ledger
  import opened LedgerTheorems

  datatype PostOutcome =
    | Replayed(row: SaleRow)
    | Rejected(why: Rejection)
    | StockConflict(conflicts: seq<Conflict>)
    | ReceiptInUse
    | Posted(row: SaleRow)

  /** A stored sale has the terminal's receipt number, or the payment's id. */
  ghost predicate KeyHeld(sales: map<Id, SaleRow>, sub: Submission) {
    exists id <- sales :: KeyHeldBy(sales[id], sub)
  }

  ghost predicate KeyHeldBy(row: SaleRow, sub: Submission) {
    || (row.terminal == sub.terminal && row.receiptNo == sub.draft.receiptNo)
    || exists p <- row.payments :: p.id == sub.draft.payment.id
  }

  /** The sale is stored, one movement per line that takes stock is logged, and each level of the
      branch is lower by what the lines ask of it; nothing else changes. */
  ghost predicate SalePosted(before: Db, after: Db, sub: Submission, row: SaleRow) {
    var lines, n := sub.draft.cart.lines, |before.log|;
    && StoredAs(row, sub.draft, sub.branch, sub.terminal, sub.now)
    && after.sales == before.sales[sub.draft.id := row]
    && n <= |after.log| && after.log[..n] == before.log
    && LinesLogged(lines, sub.branch, sub.draft.id, after.log[n..])
    && after.levels.Keys == before.levels.Keys
    && forall k <- before.levels :: after.levels[k]
         == before.levels[k] - if k.branch == sub.branch then Asked(lines, k.product, k.variant) else 0
  }

  /** The transaction: a stored id is replayed; lacking stock is reported line by line; a taken
      receipt number or payment id is refused; and otherwise the sale is posted. */
  ghost predicate Answered(before: Db, after: Db, sub: Submission, out: PostOutcome) {
    var lines := sub.draft.cart.lines;
    if sub.draft.id in before.sales then out == Replayed(before.sales[sub.draft.id]) && after == before
    else if !InStock(before.levels, lines, sub.branch) then
      && out.StockConflict? && after == before && out.conflicts != []
      && LackingReported(before.levels, lines, sub.branch, out.conflicts)
    else if KeyHeld(before.sales, sub) then out == ReceiptInUse && after == before
    else out.Posted? && SalePosted(before, after, sub, out.row)
  }

  lemma KeyHeldIsTaken(sales: map<Id, SaleRow>, sub: Submission)
    ensures KeyHeld(sales, sub) <==> KeyTaken(sales, sub)
  {
    forall row: SaleRow ensures KeyHeldBy(row, sub) <==> Collides(row, sub) {}
  }

  /** Every line that takes stock has its own level among the rows read. */
  lemma AvailableReads(db: Db, sub: Submission)
    ensures ReadsEnough(db.levels, Available(db, sub), LinesOf(sub), sub.branch)
  {
    forall l <- LinesOf(sub) | TakesStock(l)
      ensures var k := Key(sub.branch, l.product.value, l.variant);
              Level(Available(db, sub), k) == Level(db.levels, k)
    {
      var k := Key(sub.branch, l.product.value, l.variant);
      assert Tracked(l) && KeyOf(l, sub.branch) == k;
      assert k in db.levels ==> k in InvolvedRows(db.levels, sub);
    }
  }

  lemma {:induction false} AskedByALine(lines: seq<CartLine>, branch: Id, k: Key)
    requires Wanted(lines, branch, k) != 0
    ensures exists l <- lines :: TakesStock(l) && k == Key(branch, l.product.value, l.variant)
  {
    if lines == [] {
    } else if WantOn(branch, k)(lines[0]) != 0 {
      assert lines[0] in lines;
    } else {
      AskedByALine(lines[1..], branch, k);
    }
  }

  /** Enough was read: the rows read cover the lines exactly when the database does. */
  lemma ReadCovers(levels: Levels, avail: Levels, lines: seq<CartLine>, branch: Id)
    requires ReadsEnough(levels, avail, lines, branch)
    requires (forall k <- levels :: levels[k] >= 0) && forall k <- avail :: avail[k] >= 0
    ensures Covered(avail, lines, branch) <==> InStock(levels, lines, branch)
  {
    forall k ensures Wanted(lines, branch, k) <= Level(avail, k) <==> Wanted(lines, branch, k) <= Level(levels, k) {
      if Wanted(lines, branch, k) != 0 { AskedByALine(lines, branch, k); }
    }
    CoveredIsInStock(levels, lines, branch);
  }

  lemma PassIsGenuine(db: Db, sub: Submission)
    requires ValidLines(LinesOf(sub)) && forall k <- db.levels :: db.levels[k] >= 0
    ensures var conflicts := ShortLines(LinesOf(sub), sub.branch, Available(db, sub), |LinesOf(sub)|);
            && LackingReported(db.levels, sub.draft.cart.lines, sub.branch, conflicts)
            && (conflicts == [] <==> InStock(db.levels, sub.draft.cart.lines, sub.branch))
  {
    AvailableReads(db, sub);
    ConflictsAreLacking(db.levels, Available(db, sub), LinesOf(sub), sub.branch);
    PassIsPerKeyCheck(LinesOf(sub), sub.branch, Available(db, sub));
    ReadCovers(db.levels, Available(db, sub), LinesOf(sub), sub.branch);
  }

  lemma PostedIs(db: Db, sub: Submission)
    ensures SalePosted(db, PostSale(db, SaleOf(sub)), sub, SaleOf(sub))
  {
    var row, after := SaleOf(sub), PostSale(db, SaleOf(sub));
    SaleIsStored(sub.draft, sub.branch, sub.terminal, sub.now);
    SaleMovesAre(sub.draft.cart.lines, sub.branch, sub.draft.id);
    assert after.log[|db.log|..] == SaleMoves(sub.draft.cart.lines, sub.branch, sub.draft.id);
    forall k <- db.levels
      ensures after.levels[k]
           == db.levels[k] - if k.branch == sub.branch then Asked(sub.draft.cart.lines, k.product, k.variant) else 0
    {
      WantedIsAsked(sub.draft.cart.lines, sub.branch, k);
    }
  }

  /** The answer that the specification of the call gives. */
  lemma AnswerIs(db: Db, after: Db, sub: Submission, out: PostOutcome)
    requires ValidLines(LinesOf(sub)) && forall k <- db.levels :: db.levels[k] >= 0
    requires FindOwn(db, sub).None? && after == CompleteSale(db, sub).0
    requires match CompleteSale(db, sub).1
             case Returned(_, row, posted) => out == if posted then Posted(row) else Replayed(row)
             case _ => out.StockConflict? || out.ReceiptInUse?
    requires out.StockConflict? ==>
               out.conflicts == ShortLines(LinesOf(sub), sub.branch, Available(db, sub), |LinesOf(sub)|)
               && out.conflicts != []
    requires out.ReceiptInUse? ==> ShortLines(LinesOf(sub), sub.branch, Available(db, sub), |LinesOf(sub)|) == []
    ensures Answered(db, after, sub, out)
  {
    PassIsGenuine(db, sub);
    KeyHeldIsTaken(db.sales, sub);
    if out.Posted? { PostedIs(db, sub); }
  }
}
