/** What the concurrent requests answer, said of the database itself: who is refused, and that no
    two stored sales ever share a unique key. */
module LedgerAnswers {
  import opened Common
  import opened SaleRecords
  import opened Stock
  import opened Conflicts
  import opened SaleSpec
  import opened Ledger
  import opened LedgerSafety
  import opened LedgerTheorems
  import opened SaleOutcome

  // ----- Replays and restorations -----

  /** The fast path answers exactly the sales of the caller's own branch. */
  lemma FastPathExactly(s: State, t: TxId)
    requires Enabled(s, FastPath(t))
    ensures var sub, after := s.txs[t].sub, Do(s, FastPath(t)).txs[t];
            if sub.draft.id in s.db.sales && s.db.sales[sub.draft.id].branch == sub.branch
            then after == Returned(sub.draft.id, s.db.sales[sub.draft.id], false) else after == Admitted(sub)
  {}

  /** A void or refund starts exactly on a completed sale of the branch, and sets out to log the
      sale's movements reversed, as its own kind. */
  lemma RestoreStartsExactly(s: State, t: TxId, id: Id, branch: Id, status: Status, refundShift: Option<Id>)
    requires Enabled(s, StartRestore(t, id, branch, status, refundShift))
    ensures var after := Do(s, StartRestore(t, id, branch, status, refundShift)).txs[t];
            && (after.Moving? <==>
                  id in s.db.sales && s.db.sales[id].branch == branch && s.db.sales[id].status.Completed?)
            && (after.Moving? ==>
                  Mirrored(s.db.log, s.db.log + after.moves, id, if status == Voided then VoidMove else RefundMove))
            && (!after.Moving? ==> after.Failed?)
  {
    assert SoldMoves(s.db.log, id) == Filter(s.db.log, (m: Movement) => m.ref == id && m.kind.SaleMove?);
    forall m <- SoldMoves(s.db.log, id) ensures m.ref == id {}
  }

  /** What it commits: the movements it set out with, the sale's status and refund shift, and
      nothing of another sale. */
  lemma RestoreCommits(s: State, t: TxId)
    requires Enabled(s, CommitMoves(t)) && TxInv(s, t) && s.txs[t].purpose.Restore?
    ensures var (p, after) := (s.txs[t].purpose, Do(s, CommitMoves(t)).db);
            && after.log == s.db.log + s.txs[t].moves
            && after.sales
                 == s.db.sales[p.saleId := s.db.sales[p.saleId].(status := p.status, refundShift := p.refundShift)]
  {}

  /** The re-check under the locks returns the stored sale. */
  lemma RecheckExactly(s: State, t: TxId)
    requires Enabled(s, Recheck(t))
    ensures var (id, after) := (s.txs[t].sub.draft.id, Do(s, Recheck(t)).txs[t]);
            if id in s.db.sales then after == Returned(id, s.db.sales[id], false)
            else after == Rechecked(s.txs[t].sub, s.txs[t].avail)
  {}

  /** An insert loses exactly to a stored sale with its id, its terminal's receipt number or its
      payment's id. */
  lemma InsertExactly(s: State, t: TxId)
    requires Enabled(s, Insert(t))
    ensures var (sub, after) := (s.txs[t].sub, Do(s, Insert(t)).txs[t]);
            if sub.draft.id in s.db.sales || KeyHeld(s.db.sales, sub) then after == Collided(sub)
            else after == Inserted(sub, s.txs[t].avail)
  {
    KeyHeldIsTaken(s.db.sales, s.txs[t].sub);
  }

  /** And is then answered with the caller's own stored sale, if that is what it lost to. */
  lemma CollisionExactly(s: State, t: TxId)
    requires Enabled(s, AfterCollision(t))
    ensures var (sub, after) := (s.txs[t].sub, Do(s, AfterCollision(t)).txs[t]);
            if sub.draft.id in s.db.sales && s.db.sales[sub.draft.id].branch == sub.branch
            then after == Returned(sub.draft.id, s.db.sales[sub.draft.id], false) else after == Failed
  {}

  /** A sale commits as a whole, and is answered with the row it stored. */
  lemma CommitExactly(s: State, t: TxId)
    requires Enabled(s, CommitSale(t))
    ensures var (sub, after) := (s.txs[t].sub, Do(s, CommitSale(t)));
            && after.txs[t].Returned? && after.txs[t].posted && after.txs[t].id == sub.draft.id
            && SalePosted(s.db, after.db, sub, after.txs[t].row)
  {
    PostedIs(s.db, s.txs[t].sub);
  }

  /** A receipt commits the movements it started with; an adjustment sets one level and logs the
      difference under its own id. */
  lemma ReceiptCommits(s: State, t: TxId)
    requires Enabled(s, CommitMoves(t)) && s.txs[t].purpose.Receipt?
    ensures var after := Do(s, CommitMoves(t)).db;
            && after.sales == s.db.sales && after.log == s.db.log + s.txs[t].moves
            && forall k :: Level(after.levels, k) == Level(s.db.levels, k) + SumKey(s.txs[t].moves, k)
  {
    forall k ensures Level(AddMoves(s.db.levels, s.txs[t].moves), k)
                  == Level(s.db.levels, k) + SumKey(s.txs[t].moves, k)
    {
      AddMovesLevels(s.db.levels, s.txs[t].moves, k);
    }
  }

  lemma AdjustExactly(s: State, t: TxId, k: Key, newQty: int, movementId: Id)
    requires Enabled(s, Adjust(t, k, newQty, movementId))
    ensures var (before, after) := (s.db, Do(s, Adjust(t, k, newQty, movementId)).db);
            && after.sales == before.sales && after.levels == before.levels[k := newQty]
            && after.log == before.log + [Movement(k, AdjustMove, movementId, newQty - Level(before.levels, k))]
  {}

  // ----- Locks -----

  /** Between the first row lock and the commit or rollback. */
  predicate Working(x: Tx) { x.Locking? || x.Rechecked? || x.Cleared? || x.Inserted? || x.Moving? }

  ghost predicate RowsWorking(s: State) {
    forall k <- s.rowLocks :: s.rowLocks[k] in s.txs && Working(s.txs[s.rowLocks[k]])
  }

  ghost predicate SalesWorking(s: State) {
    forall id <- s.saleLocks :: s.saleLocks[id] in s.txs && Working(s.txs[s.saleLocks[id]])
  }

  predicate InSale(step: Step) {
    step.Begin? || step.LockRow? || step.Recheck? || step.ConflictPass? || step.Insert? || step.CommitSale?
  }

  lemma SaleKeepsRowLocks(s: State, step: Step)
    requires RowsWorking(s) && Enabled(s, step) && InSale(step)
    ensures RowsWorking(Do(s, step))
  {}

  lemma OthersKeepRowLocks(s: State, step: Step)
    requires RowsWorking(s) && Enabled(s, step) && !InSale(step)
    ensures RowsWorking(Do(s, step))
  {}

  lemma SaleKeepsSaleLocks(s: State, step: Step)
    requires SalesWorking(s) && Enabled(s, step) && InSale(step)
    ensures SalesWorking(Do(s, step))
  {}

  lemma OthersKeepSaleLocks(s: State, step: Step)
    requires SalesWorking(s) && Enabled(s, step) && !InSale(step)
    ensures SalesWorking(Do(s, step))
  {}

  lemma StepKeepsLocks(s: State, step: Step)
    requires RowsWorking(s) && SalesWorking(s) && Enabled(s, step)
    ensures RowsWorking(Do(s, step)) && SalesWorking(Do(s, step))
  {
    if InSale(step) {
      SaleKeepsRowLocks(s, step);
      SaleKeepsSaleLocks(s, step);
    } else {
      OthersKeepRowLocks(s, step);
      OthersKeepSaleLocks(s, step);
    }
  }

  lemma {:induction false} RunKeepsLocks(s: State, steps: seq<Step>)
    requires RowsWorking(s) && SalesWorking(s)
    ensures RowsWorking(Run(s, steps)) && SalesWorking(Run(s, steps))
    decreases |steps|
  {
    if steps == [] {
    } else {
      if Enabled(s, steps[0]) { StepKeepsLocks(s, steps[0]); }
      RunKeepsLocks(if Enabled(s, steps[0]) then Do(s, steps[0]) else s, steps[1..]);
    }
  }

  /** In every run a transaction that has answered, failed or been abandoned holds no lock. */
  lemma EndedHoldNothing(db: Db, steps: seq<Step>, t: TxId)
    ensures var s := Run(Start(db), steps);
            t in s.txs && (s.txs[t].Returned? || s.txs[t].Failed? || s.txs[t].Finished? || s.txs[t].Collided?) ==>
              (forall k <- s.rowLocks :: s.rowLocks[k] != t) && forall id <- s.saleLocks :: s.saleLocks[id] != t
  {
    RunKeepsLocks(Start(db), steps);
  }

  // ----- Stock conflicts -----

  /** Some line of the submission takes this level. */
  predicate Asks(sub: Submission, k: Key) {
    exists l <- sub.draft.cart.lines :: TakesStock(l) && k == Key(sub.branch, l.product.value, l.variant)
  }

  /** Since its lock query ran on `levels`, t has read, or is still to lock, each of them it asks for. */
  ghost predicate Reading(s: State, t: TxId, sub: Submission, levels: Levels) {
    t in s.txs &&
    match s.txs[t]
    case Submitted(_) => false
    case Admitted(_) => false
    case Locking(own, todo, avail) => own == sub && forall k <- levels | Asks(sub, k) :: k in todo || k in avail
    case Rechecked(own, avail) => own == sub && forall k <- levels | Asks(sub, k) :: k in avail
    case _ => true
  }

  lemma BeginReads(s: State, t: TxId)
    requires Enabled(s, Begin(t))
    ensures Reading(Do(s, Begin(t)), t, s.txs[t].sub, s.db.levels)
  {
    var sub := s.txs[t].sub;
    forall k <- s.db.levels | Asks(sub, k) ensures k in InvolvedRows(s.db.levels, sub) {
      var l :| l in sub.draft.cart.lines && TakesStock(l) && k == Key(sub.branch, l.product.value, l.variant);
      assert l in LinesOf(sub) && Tracked(l) && l.product.value == k.product;
    }
  }

  lemma StepReads(s: State, step: Step, t: TxId, sub: Submission, levels: Levels)
    requires Reading(s, t, sub, levels) && Enabled(s, step)
    ensures Reading(Do(s, step), t, sub, levels)
  {
    if step.t != t { assert Do(s, step).txs[t] == s.txs[t]; }
  }

  lemma {:induction false} RunReads(s: State, steps: seq<Step>, t: TxId, sub: Submission, levels: Levels)
    requires Reading(s, t, sub, levels)
    ensures Reading(Run(s, steps), t, sub, levels)
    decreases |steps|
  {
    if steps == [] {
    } else {
      if Enabled(s, steps[0]) { StepReads(s, steps[0], t, sub, levels); }
      RunReads(if Enabled(s, steps[0]) then Do(s, steps[0]) else s, steps[1..], t, sub, levels);
    }
  }

  /** In every run, a sale is refused for stock only when something it asks for is short in the
      database at that moment, or had no level when the lock query ran; and if it is let through,
      the branch has everything it asks for. */
  lemma RefusedForStock(db: Db, before: seq<Step>, t: TxId, after: seq<Step>)
    requires Opening(db) && Enabled(Run(Start(db), before), Begin(t))
    ensures var s, e := Run(Start(db), before), Run(Do(Run(Start(db), before), Begin(t)), after);
            t in e.txs && e.txs[t].Rechecked? ==>
              var sub := e.txs[t].sub;
              if Do(e, ConflictPass(t)).txs[t].Failed?
              then exists k | Asks(sub, k) :: Asked(sub.draft.cart.lines, k.product, k.variant) > Level(e.db.levels, k)
                                             || k !in s.db.levels
              else InStock(e.db.levels, sub.draft.cart.lines, sub.branch)
  {
    var s := Run(Start(db), before);
    var e := Run(Do(s, Begin(t)), after);
    RunOne(s, Begin(t));
    RunAppend(s, [Begin(t)], after);
    RunAppend(Start(db), before, [Begin(t)] + after);
    ReachableInv(db, before + ([Begin(t)] + after));
    BeginReads(s, t);
    RunReads(Do(s, Begin(t)), after, t, s.txs[t].sub, s.db.levels);
    if t in e.txs && e.txs[t].Rechecked? {
      assert TxInv(e, t);
      forall k <- e.db.levels ensures e.db.levels[k] >= 0 { assert LevelMatches(db.levels, e.db, k); }
      PassJudges(s.db.levels, e, t);
    }
  }

  lemma PassJudges(levels: Levels, e: State, t: TxId)
    requires t in e.txs && e.txs[t].Rechecked? && TxInv(e, t) && Reading(e, t, e.txs[t].sub, levels)
    requires forall k <- e.db.levels :: e.db.levels[k] >= 0
    ensures var sub := e.txs[t].sub;
            if Do(e, ConflictPass(t)).txs[t].Failed?
            then exists k | Asks(sub, k) :: Asked(sub.draft.cart.lines, k.product, k.variant) > Level(e.db.levels, k)
                                           || k !in levels
            else InStock(e.db.levels, sub.draft.cart.lines, sub.branch)
  {
    var x := e.txs[t];
    var lines, branch := LinesOf(x.sub), x.sub.branch;
    PassIsPerKeyCheck(lines, branch, x.avail);
    if Covered(x.avail, lines, branch) {
      forall k ensures Wanted(lines, branch, k) <= Level(e.db.levels, k) {
        assert Wanted(lines, branch, k) <= Level(x.avail, k);
      }
      CoveredIsInStock(e.db.levels, lines, branch);
    } else {
      var k :| Wanted(lines, branch, k) > Level(x.avail, k);
      assert Level(x.avail, k) >= 0;
      AskedByALine(lines, branch, k);
      WantedIsAsked(lines, branch, k);
      assert Asks(x.sub, k);
    }
  }

  // ----- Unique keys -----

  /** Two sales with one terminal's receipt number, or one payment id. */
  predicate SharesKey(a: SaleRow, b: SaleRow) {
    || (a.terminal == b.terminal && a.receiptNo == b.receiptNo)
    || exists p <- a.payments, q <- b.payments :: p.id == q.id
  }

  ghost predicate KeysUnique(sales: map<Id, SaleRow>) {
    forall i, j | i in sales && j in sales && i != j :: !SharesKey(sales[i], sales[j])
  }

  /** A sale about to be posted shares a key with no stored one, and with no other about to be. */
  ghost predicate KeysInv(s: State) {
    && KeysUnique(s.db.sales)
    && (forall t <- s.txs | s.txs[t].Inserted? :: KeyFree(s.db.sales, SaleOf(s.txs[t].sub)))
    && (forall t, u | t in s.txs && u in s.txs && t != u :: KeysApart(s.txs[t], s.txs[u]))
  }

  ghost predicate KeyFree(sales: map<Id, SaleRow>, row: SaleRow) {
    forall id <- sales :: !SharesKey(sales[id], row) && !SharesKey(row, sales[id])
  }

  ghost predicate KeysApart(x: Tx, y: Tx) {
    x.Inserted? && y.Inserted? ==> !SharesKey(SaleOf(x.sub), SaleOf(y.sub))
  }

  lemma OwnKeys(sub: Submission)
    ensures SaleOf(sub).terminal == sub.terminal && SaleOf(sub).receiptNo == sub.draft.receiptNo
    ensures SaleOf(sub).payments == [sub.draft.payment]
  {}

  lemma FreeUnlessTaken(sales: map<Id, SaleRow>, sub: Submission)
    requires !KeyTaken(sales, sub)
    ensures KeyFree(sales, SaleOf(sub))
  {
    OwnKeys(sub);
    forall id <- sales ensures !SharesKey(sales[id], SaleOf(sub)) && !SharesKey(SaleOf(sub), sales[id]) {
      assert !Collides(sales[id], sub);
    }
  }

  lemma ApartUnlessBlocked(a: Submission, b: Submission)
    requires !SameUniqueKey(a, b)
    ensures !SharesKey(SaleOf(a), SaleOf(b)) && !SharesKey(SaleOf(b), SaleOf(a))
  {
    OwnKeys(a);
    OwnKeys(b);
  }

  /** A step that posts no sale leaves every key as it was. */
  lemma KeysStay(a: map<Id, SaleRow>, b: map<Id, SaleRow>)
    requires a.Keys == b.Keys && forall id <- a :: SameSale(a[id], b[id])
    ensures KeysUnique(a) ==> KeysUnique(b)
    ensures forall row | KeyFree(a, row) :: KeyFree(b, row)
  {
    forall id <- a ensures a[id].terminal == b[id].terminal && a[id].receiptNo == b[id].receiptNo
                           && a[id].payments == b[id].payments {}
    forall i, j | i in a && j in a && i != j && !SharesKey(a[i], a[j]) ensures !SharesKey(b[i], b[j]) {}
    forall row | KeyFree(a, row) ensures KeyFree(b, row) {
      forall id <- b ensures !SharesKey(b[id], row) && !SharesKey(row, b[id]) {
        assert !SharesKey(a[id], row) && !SharesKey(row, a[id]);
      }
    }
  }

  lemma InsertKeepsKeys(s: State, t: TxId)
    requires KeysInv(s) && Enabled(s, Insert(t))
    ensures KeysInv(Do(s, Insert(t)))
  {
    var s', sub := Do(s, Insert(t)), s.txs[t].sub;
    if s'.txs[t].Inserted? {
      FreeUnlessTaken(s.db.sales, sub);
      forall u <- s.txs | u != t ensures KeysApart(s'.txs[t], s'.txs[u]) && KeysApart(s'.txs[u], s'.txs[t]) {
        if s.txs[u].Inserted? { ApartUnlessBlocked(s.txs[u].sub, sub); }
      }
    }
    forall u, v | u in s'.txs && v in s'.txs && u != v ensures KeysApart(s'.txs[u], s'.txs[v]) {
      if u != t && v != t { assert KeysApart(s.txs[u], s.txs[v]); }
    }
  }

  lemma PostingKeepsKeys(s: State, t: TxId)
    requires KeysInv(s) && Enabled(s, CommitSale(t))
    ensures KeysInv(Do(s, CommitSale(t)))
  {
    var s', row := Do(s, CommitSale(t)), SaleOf(s.txs[t].sub);
    assert KeyFree(s.db.sales, row);
    forall i, j | i in s'.db.sales && j in s'.db.sales && i != j
      ensures !SharesKey(s'.db.sales[i], s'.db.sales[j])
    {
      assert i in s.db.sales || i == row.id;
      assert j in s.db.sales || j == row.id;
    }
    forall u <- s'.txs | s'.txs[u].Inserted? ensures KeyFree(s'.db.sales, SaleOf(s'.txs[u].sub)) {
      assert u != t && KeysApart(s.txs[u], s.txs[t]) && KeysApart(s.txs[t], s.txs[u]);
      assert KeyFree(s.db.sales, SaleOf(s.txs[u].sub));
    }
    forall u, v | u in s'.txs && v in s'.txs && u != v ensures KeysApart(s'.txs[u], s'.txs[v]) {
      if u != t && v != t { assert KeysApart(s.txs[u], s.txs[v]); }
    }
  }

  lemma OtherStepsKeepKeys(s: State, step: Step)
    requires KeysInv(s) && Enabled(s, step) && !step.Insert? && !step.CommitSale?
    requires step.CommitMoves? ==> TxInv(s, step.t)
    ensures KeysInv(Do(s, step))
  {
    var s', t := Do(s, step), step.t;
    SalesStay(s, step);
    KeysStay(s.db.sales, s'.db.sales);
    NoneInserted(s, step);
    forall u, v | u in s'.txs && v in s'.txs && u != v ensures KeysApart(s'.txs[u], s'.txs[v]) {
      if s'.txs[u].Inserted? && s'.txs[v].Inserted? { assert KeysApart(s.txs[u], s.txs[v]); }
    }
  }

  lemma NoneInserted(s: State, step: Step)
    requires Enabled(s, step) && !step.Insert?
    ensures forall u <- Do(s, step).txs | Do(s, step).txs[u].Inserted? :: u in s.txs && Do(s, step).txs[u] == s.txs[u]
  {}

  lemma SalesStay(s: State, step: Step)
    requires Enabled(s, step) && !step.CommitSale? && (step.CommitMoves? ==> TxInv(s, step.t))
    ensures var a, b := s.db.sales, Do(s, step).db.sales;
            a.Keys == b.Keys && forall id <- a :: SameSale(a[id], b[id])
  {
    match step {
      case CommitMoves(t) => if s.txs[t].purpose.Restore? { RestoreCommits(s, t); }
      case Adjust(_, _, _, _) =>
      case _ => OtherStepsOnlyRead(s, step);
    }
  }

  lemma StepKeepsKeys(start: Levels, s: State, step: Step)
    requires Inv(start, s) && KeysInv(s) && Enabled(s, step)
    ensures KeysInv(Do(s, step))
  {
    if step.Insert? {
      InsertKeepsKeys(s, step.t);
    } else if step.CommitSale? {
      PostingKeepsKeys(s, step.t);
    } else {
      OtherStepsKeepKeys(s, step);
    }
  }

  lemma {:induction false} RunKeepsKeys(start: Levels, s: State, steps: seq<Step>)
    requires Inv(start, s) && KeysInv(s)
    ensures KeysInv(Run(s, steps))
    decreases |steps|
  {
    if steps == [] {
    } else {
      var next := if Enabled(s, steps[0]) then Do(s, steps[0]) else s;
      if Enabled(s, steps[0]) {
        StepKeepsInv(start, s, steps[0]);
        StepKeepsKeys(start, s, steps[0]);
      }
      RunKeepsKeys(start, next, steps[1..]);
    }
  }

  /** In every run no two stored sales share a terminal's receipt number or a payment id. */
  lemma UniqueKeysHold(db: Db, steps: seq<Step>, i: Id, j: Id)
    requires Opening(db)
    ensures var sales := Run(Start(db), steps).db.sales;
            i in sales && j in sales && i != j ==>
              && (sales[i].terminal != sales[j].terminal || sales[i].receiptNo != sales[j].receiptNo)
              && forall p <- sales[i].payments, q <- sales[j].payments :: p.id != q.id
  {
    OpeningInv(db);
    RunKeepsKeys(db.levels, Start(db), steps);
    var sales := Run(Start(db), steps).db.sales;
    if i in sales && j in sales && i != j { assert !SharesKey(sales[i], sales[j]); }
  }
}
