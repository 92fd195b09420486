/** Any number of concurrent sale, void, refund, receive and adjust requests against one
    database, interleaved at every read, row lock and commit. A transaction's writes become
    visible when it commits; the rows it has locked stay locked until then. */
module Ledger {
  import opened Common
  import opened Totals
  import opened SaleRecords
  import opened Stock
  import opened Conflicts

  type TxId = nat

  datatype Submission = Submission(draft: Draft, branch: Id, terminal: Id, now: int)

  function SaleOf(sub: Submission): SaleRow { BuildSaleData(sub.draft, sub.branch, sub.terminal, sub.now) }

  function LinesOf(sub: Submission): seq<CartLine> { sub.draft.cart.lines }

  datatype Purpose =
    | Restore(saleId: Id, status: Status, refundShift: Option<Id>)
    | Receipt(attempt: nat)

  datatype Tx =
    | Submitted(sub: Submission)                                // before the fast path
    | Admitted(sub: Submission)                                 // fast path missed, checks passed
    | Locking(sub: Submission, todo: set<Key>, avail: Levels)   // SELECT ... FOR UPDATE in progress
    | Rechecked(sub: Submission, avail: Levels)                 // the id was absent under the lock
    | Cleared(sub: Submission, avail: Levels)                   // the conflict pass found nothing
    | Inserted(sub: Submission, avail: Levels)                  // holds the ids and the receipt number
    | Collided(sub: Submission)                                 // unique violation, rolled back
    | Returned(id: Id, row: SaleRow, posted: bool)
    | Moving(purpose: Purpose, moves: seq<Movement>, next: nat, found: Option<bool>)
    | Failed
    | Finished

  datatype State = State(db: Db, rowLocks: map<Key, TxId>, saleLocks: map<Id, TxId>, txs: map<TxId, Tx>)

  datatype Step =
    | Submit(t: TxId, sub: Submission)
    | FastPath(t: TxId)
    | Begin(t: TxId)
    | LockRow(t: TxId, k: Key)
    | Recheck(t: TxId)
    | ConflictPass(t: TxId)
    | Insert(t: TxId)
    | CommitSale(t: TxId)
    | AfterCollision(t: TxId)
    | StartRestore(t: TxId, id: Id, branch: Id, status: Status, refundShift: Option<Id>)
    | StartReceive(t: TxId, moves: seq<Movement>)
    | FindLevel(t: TxId)
    | WriteLevel(t: TxId)
    | CommitMoves(t: TxId)
    | Adjust(t: TxId, k: Key, newQty: int, movementId: Id)
    | Abort(t: TxId)

  // ----- Locks -----

  function Release<K>(locks: map<K, TxId>, t: TxId): map<K, TxId> {
    map k | k in locks && locks[k] != t :: locks[k]
  }

  predicate Free<K>(locks: map<K, TxId>, k: K, t: TxId) { k in locks ==> locks[k] == t }

  function With(s: State, t: TxId, x: Tx): State { s.(txs := s.txs[t := x]) }

  /** End of a transaction: its locks go. */
  function Ending(s: State, t: TxId, x: Tx): State {
    s.(txs := s.txs[t := x], rowLocks := Release(s.rowLocks, t), saleLocks := Release(s.saleLocks, t))
  }

  predicate Busy(x: Tx) { !x.Returned? && !x.Failed? && !x.Finished? }

  // ----- Guards -----

  /** A stored sale has the terminal's receipt number, or a payment the submitted payment's id. */
  predicate KeyTaken(sales: map<Id, SaleRow>, sub: Submission) { exists id <- sales :: Collides(sales[id], sub) }

  predicate Collides(row: SaleRow, sub: Submission) {
    || (row.terminal == sub.terminal && row.receiptNo == sub.draft.receiptNo)
    || exists p <- row.payments :: p.id == sub.draft.payment.id
  }

  predicate SameUniqueKey(a: Submission, b: Submission) {
    || a.draft.id == b.draft.id || a.draft.payment.id == b.draft.payment.id
    || (a.terminal == b.terminal && a.draft.receiptNo == b.draft.receiptNo)
  }

  /** An uncommitted insert of the same key makes this one wait. */
  predicate InsertBlocked(s: State, t: TxId, sub: Submission) {
    exists u <- s.txs :: u != t && s.txs[u].Inserted? && SameUniqueKey(s.txs[u].sub, sub)
  }

  predicate DistinctKeys(moves: seq<Movement>) {
    forall i, j | 0 <= i < j < |moves| :: moves[i].key != moves[j].key
  }

  predicate ReceiveMoves(moves: seq<Movement>) {
    DistinctKeys(moves) && forall m <- moves :: m.kind.ReceiveMove? && m.deltaMilli > 0
  }

  predicate Enabled(s: State, step: Step) {
    match step
    case Submit(t, sub) => t !in s.txs && ValidLines(LinesOf(sub))
    case FastPath(t) => t in s.txs && s.txs[t].Submitted?
    case Begin(t) => t in s.txs && s.txs[t].Admitted?
    case LockRow(t, k) =>
      t in s.txs && s.txs[t].Locking? && k in s.txs[t].todo && k in s.db.levels && Free(s.rowLocks, k, t)
    case Recheck(t) => t in s.txs && s.txs[t].Locking? && s.txs[t].todo == {}
    case ConflictPass(t) => t in s.txs && s.txs[t].Rechecked?
    case Insert(t) => t in s.txs && s.txs[t].Cleared? && !InsertBlocked(s, t, s.txs[t].sub)
    case CommitSale(t) => t in s.txs && s.txs[t].Inserted?
    case AfterCollision(t) => t in s.txs && s.txs[t].Collided?
    case StartRestore(t, id, branch, status, refundShift) => t !in s.txs && !status.Completed? && id !in s.saleLocks
    case StartReceive(t, moves) => t !in s.txs && ReceiveMoves(moves)
    case FindLevel(t) =>
      t in s.txs && s.txs[t].Moving? && s.txs[t].next < |s.txs[t].moves| && s.txs[t].found.None?
    case WriteLevel(t) =>
      && t in s.txs && s.txs[t].Moving? && s.txs[t].next < |s.txs[t].moves| && s.txs[t].found.Some?
      && Free(s.rowLocks, s.txs[t].moves[s.txs[t].next].key, t)
    case CommitMoves(t) => t in s.txs && s.txs[t].Moving? && s.txs[t].next == |s.txs[t].moves|
    case Adjust(t, k, newQty, _) => t !in s.txs && newQty >= 0 && k !in s.rowLocks
    case Abort(t) => t in s.txs && Busy(s.txs[t])
  }

  // ----- Effects -----

  function InvolvedRows(levels: Levels, sub: Submission): set<Key> {
    set k | k in levels && k.branch == sub.branch
            && exists l <- LinesOf(sub) :: Tracked(l) && l.product.value == k.product
  }

  function FindOwn(db: Db, sub: Submission): Option<SaleRow> {
    var id := sub.draft.id;
    if id in db.sales && db.sales[id].branch == sub.branch then Some(db.sales[id]) else None
  }

  function StartRestoring(s: State, t: TxId, id: Id, branch: Id, status: Status, refundShift: Option<Id>): State {
    if id !in s.db.sales || s.db.sales[id].branch != branch || !s.db.sales[id].status.Completed? || status.Completed?
    then With(s, t, Failed)
    else
      var moves := Reversal(SoldMoves(s.db.log, id), KindOf(status));
      With(s, t, Moving(Restore(id, status, refundShift), moves, 0, None)).(saleLocks := s.saleLocks[id := t])
  }

  /** The update of an existing row, the create of a missing one, or the create that a
      concurrent create has beaten: only a receive retries that, and at most twice. */
  function Writing(s: State, t: TxId): State
    requires Enabled(s, WriteLevel(t))
  {
    var x := s.txs[t];
    var k := x.moves[x.next].key;
    if !x.found.value && k in s.db.levels then
      if x.purpose.Receipt? && x.purpose.attempt < 2
      then Ending(s, t, Moving(Receipt(x.purpose.attempt + 1), x.moves, 0, None))
      else Ending(s, t, Failed)
    else With(s, t, x.(next := x.next + 1, found := None)).(rowLocks := s.rowLocks[k := t])
  }

  function Do(s: State, step: Step): State
    requires Enabled(s, step)
  {
    match step
    case Submit(t, sub) => With(s, t, Submitted(sub))
    case FastPath(t) =>
      var sub := s.txs[t].sub;
      var own := FindOwn(s.db, sub);
      With(s, t, if own.Some? then Returned(sub.draft.id, own.value, false) else Admitted(sub))
    case Begin(t) => With(s, t, Locking(s.txs[t].sub, InvolvedRows(s.db.levels, s.txs[t].sub), map[]))
    case LockRow(t, k) =>
      var x := s.txs[t];
      With(s, t, Locking(x.sub, x.todo - {k}, x.avail[k := s.db.levels[k]])).(rowLocks := s.rowLocks[k := t])
    case Recheck(t) =>
      var x := s.txs[t];
      var id := x.sub.draft.id;
      if id in s.db.sales then Ending(s, t, Returned(id, s.db.sales[id], false))
      else With(s, t, Rechecked(x.sub, x.avail))
    case ConflictPass(t) =>
      var x := s.txs[t];
      if ShortLines(LinesOf(x.sub), x.sub.branch, x.avail, |LinesOf(x.sub)|) != [] then Ending(s, t, Failed)
      else With(s, t, Cleared(x.sub, x.avail))
    case Insert(t) =>
      var x := s.txs[t];
      if x.sub.draft.id in s.db.sales || KeyTaken(s.db.sales, x.sub) then Ending(s, t, Collided(x.sub))
      else With(s, t, Inserted(x.sub, x.avail))
    case CommitSale(t) =>
      var row := SaleOf(s.txs[t].sub);
      Ending(s, t, Returned(row.id, row, true)).(db := PostSale(s.db, row))
    case AfterCollision(t) =>
      var sub := s.txs[t].sub;
      var own := FindOwn(s.db, sub);
      With(s, t, if own.Some? then Returned(sub.draft.id, own.value, false) else Failed)
    case StartRestore(t, id, branch, status, refundShift) => StartRestoring(s, t, id, branch, status, refundShift)
    case StartReceive(t, moves) => With(s, t, Moving(Receipt(0), moves, 0, None))
    case FindLevel(t) =>
      var x := s.txs[t];
      With(s, t, x.(found := Some(x.moves[x.next].key in s.db.levels)))
    case WriteLevel(t) => Writing(s, t)
    case CommitMoves(t) =>
      var x := s.txs[t];
      Ending(s, t, Finished).(db :=
        match x.purpose
        case Receipt(_) => PostMoves(s.db, x.moves)
        case Restore(id, status, refundShift) =>
          if id in s.db.sales then Compensate(s.db, id, status, refundShift, x.moves) else s.db)
    case Adjust(t, k, newQty, movementId) => With(s, t, Finished).(db := AdjustLevel(s.db, k, newQty, movementId))
    case Abort(t) => Ending(s, t, Failed)
  }

  /** A run: steps that are not enabled when their turn comes are skipped. */
  function Run(s: State, steps: seq<Step>): State
    decreases |steps|
  {
    if steps == [] then s else Run(if Enabled(s, steps[0]) then Do(s, steps[0]) else s, steps[1..])
  }
}

/** What every interleaving keeps. */
module LedgerSafety {
  import opened Common
  import opened Totals
  import opened SaleRecords
  import opened Stock
  import opened Conflicts
  import opened Ledger

  // ----- The invariant -----

  /** t has these rows locked, and their levels are still what it read. */
  ghost predicate Holds(s: State, t: TxId, avail: Levels) {
    forall k <- avail :: k in s.rowLocks && s.rowLocks[k] == t && k in s.db.levels && s.db.levels[k] == avail[k]
  }

  /** If the id has been posted meanwhile, that sale took nothing t has read. */
  ghost predicate Unspent(s: State, id: Id, avail: Levels) {
    id in s.db.sales ==>
      forall k <- avail :: Wanted(s.db.sales[id].draft.cart.lines, s.db.sales[id].branch, k) == 0
  }

  ghost predicate HoldsMoved(s: State, t: TxId, moves: seq<Movement>, next: nat) {
    next <= |moves| && forall i | 0 <= i < next :: moves[i].key in s.rowLocks && s.rowLocks[moves[i].key] == t
  }

  ghost predicate PurposeInv(s: State, t: TxId, purpose: Purpose, moves: seq<Movement>) {
    match purpose
    case Receipt(_) => ReceiveMoves(moves)
    case Restore(id, status, _) =>
      && id in s.saleLocks && s.saleLocks[id] == t
      && id in s.db.sales && s.db.sales[id].status.Completed? && !status.Completed?
      && moves == Reversal(MovesOf(s.db.sales[id]), KindOf(status))
  }

  ghost predicate TxInv(s: State, t: TxId)
    requires t in s.txs
  {
    match s.txs[t]
    case Submitted(sub) => ValidLines(LinesOf(sub))
    case Admitted(sub) => ValidLines(LinesOf(sub))
    case Locking(sub, _, avail) => ValidLines(LinesOf(sub)) && Holds(s, t, avail)
    case Rechecked(sub, avail) => ValidLines(LinesOf(sub)) && Holds(s, t, avail) && Unspent(s, sub.draft.id, avail)
    case Cleared(sub, avail) =>
      ValidLines(LinesOf(sub)) && Holds(s, t, avail) && Covered(avail, LinesOf(sub), sub.branch)
    case Inserted(sub, avail) =>
      && ValidLines(LinesOf(sub)) && Holds(s, t, avail) && Covered(avail, LinesOf(sub), sub.branch)
      && sub.draft.id !in s.db.sales
    case Returned(id, row, _) => id in s.db.sales && SameSale(row, s.db.sales[id])
    case Moving(purpose, moves, next, found) => PurposeInv(s, t, purpose, moves) && HoldsMoved(s, t, moves, next)
    case _ => true
  }

  /** No two transactions are about to post, or have posted, one sale. */
  ghost predicate Exclusive(s: State, t: TxId, u: TxId)
    requires t in s.txs && u in s.txs
  {
    var x, y := s.txs[t], s.txs[u];
    && (x.Inserted? && y.Inserted? ==> x.sub.draft.id != y.sub.draft.id)
    && (x.Returned? && x.posted && y.Returned? && y.posted ==> x.id != y.id)
  }

  ghost predicate Inv(start: Levels, s: State) {
    && DbInv(start, s.db)
    && (forall t <- s.txs :: TxInv(s, t))
    && (forall t, u | t in s.txs && u in s.txs && t != u :: Exclusive(s, t, u))
  }

  // ----- What one transaction's step may change under the others -----

  ghost predicate LocksKept(s: State, s': State, t: TxId) {
    && (forall k <- s.rowLocks | s.rowLocks[k] != t :: k in s'.rowLocks && s'.rowLocks[k] == s.rowLocks[k])
    && (forall id <- s.saleLocks | s.saleLocks[id] != t :: id in s'.saleLocks && s'.saleLocks[id] == s.saleLocks[id])
  }

  ghost predicate LockedRowsKept(s: State, s': State, t: TxId) {
    forall k <- s.rowLocks | s.rowLocks[k] != t && k in s.db.levels ::
      k in s'.db.levels && s'.db.levels[k] == s.db.levels[k]
  }

  ghost predicate SalesKept(s: State, s': State, t: TxId) {
    && (forall id <- s.db.sales :: id in s'.db.sales && SameSale(s.db.sales[id], s'.db.sales[id]))
    && (forall id <- s.saleLocks | s.saleLocks[id] != t && id in s.db.sales :: s'.db.sales[id] == s.db.sales[id])
  }

  /** A sale that appears was t's own insert, and took only from rows t had locked. */
  ghost predicate NewSales(s: State, s': State, t: TxId) {
    forall id <- s'.db.sales | id !in s.db.sales ::
      && t in s.txs && s.txs[t].Inserted? && s.txs[t].sub.draft.id == id
      && forall k <- s.rowLocks | s.rowLocks[k] != t ::
           Wanted(s'.db.sales[id].draft.cart.lines, s'.db.sales[id].branch, k) == 0
  }

  ghost predicate Stable(s: State, s': State, t: TxId) {
    && LocksKept(s, s', t) && LockedRowsKept(s, s', t) && SalesKept(s, s', t) && NewSales(s, s', t)
    && s'.txs.Keys == s.txs.Keys + {t}
    && (forall u <- s.txs | u != t :: s'.txs[u] == s.txs[u])
  }

  lemma StableHolds(s: State, s': State, t: TxId, u: TxId, avail: Levels)
    requires Stable(s, s', t) && u != t && Holds(s, u, avail)
    ensures Holds(s', u, avail)
  {}

  lemma StableUnspent(s: State, s': State, t: TxId, u: TxId, id: Id, avail: Levels)
    requires Stable(s, s', t) && u != t && Holds(s, u, avail) && Unspent(s, id, avail)
    ensures Unspent(s', id, avail)
  {}

  lemma StableMoving(s: State, s': State, t: TxId, u: TxId, purpose: Purpose, moves: seq<Movement>, next: nat)
    requires Stable(s, s', t) && u != t && PurposeInv(s, u, purpose, moves) && HoldsMoved(s, u, moves, next)
    ensures PurposeInv(s', u, purpose, moves) && HoldsMoved(s', u, moves, next)
  {}

  lemma OthersKeepInv(start: Levels, s: State, s': State, t: TxId, u: TxId)
    requires Inv(start, s) && Stable(s, s', t) && u in s.txs && u != t
    ensures TxInv(s', u)
  {
    assert TxInv(s, u);
    match s.txs[u] {
      case Locking(_, _, avail) => StableHolds(s, s', t, u, avail);
      case Rechecked(sub, avail) =>
        StableHolds(s, s', t, u, avail);
        StableUnspent(s, s', t, u, sub.draft.id, avail);
      case Cleared(_, avail) => StableHolds(s, s', t, u, avail);
      case Inserted(sub, avail) =>
        StableHolds(s, s', t, u, avail);
        if t in s.txs { assert Exclusive(s, t, u); }
      case Moving(purpose, moves, next, _) => StableMoving(s, s', t, u, purpose, moves, next);
      case _ =>
    }
  }

  /** Everything but the stepping transaction follows from Stable. */
  lemma Framed(start: Levels, s: State, s': State, t: TxId)
    requires Inv(start, s) && Stable(s, s', t)
    requires DbInv(start, s'.db) && TxInv(s', t)
    requires forall u <- s.txs | u != t :: Exclusive(s', t, u) && Exclusive(s', u, t)
    ensures Inv(start, s')
  {
    forall u <- s'.txs ensures TxInv(s', u) {
      if u != t { OthersKeepInv(start, s, s', t, u); }
    }
    forall u, v | u in s'.txs && v in s'.txs && u != v ensures Exclusive(s', u, v) {
      if u != t && v != t { assert Exclusive(s, u, v); }
    }
  }

  // ----- Step by step -----

  lemma QuietStable(s: State, s': State, t: TxId)
    requires s'.db == s.db && LocksKept(s, s', t)
    requires t in s'.txs && s'.txs == s.txs[t := s'.txs[t]]
    ensures Stable(s, s', t)
  {}

  /** A step that leaves the database alone and neither reserves an id nor posts. */
  lemma QuietFrame(start: Levels, s: State, s': State, t: TxId)
    requires Inv(start, s) && s'.db == s.db && LocksKept(s, s', t)
    requires t in s'.txs && s'.txs == s.txs[t := s'.txs[t]] && TxInv(s', t)
    requires !s'.txs[t].Inserted? && (s'.txs[t].Returned? ==> !s'.txs[t].posted)
    ensures Inv(start, s')
  {
    QuietStable(s, s', t);
    Framed(start, s, s', t);
  }

  lemma RequestStep(start: Levels, s: State, step: Step)
    requires Inv(start, s) && Enabled(s, step)
    requires step.Submit? || step.FastPath? || step.Begin? || step.AfterCollision? || step.Abort?
    ensures Inv(start, Do(s, step))
  {
    assert step.t in s.txs ==> TxInv(s, step.t);
    QuietFrame(start, s, Do(s, step), step.t);
  }

  lemma LockingStep(start: Levels, s: State, step: Step)
    requires Inv(start, s) && Enabled(s, step) && (step.LockRow? || step.Recheck?)
    ensures Inv(start, Do(s, step))
  {
    assert TxInv(s, step.t);
    QuietFrame(start, s, Do(s, step), step.t);
  }

  lemma ConflictPassStep(start: Levels, s: State, t: TxId)
    requires Inv(start, s) && Enabled(s, ConflictPass(t))
    ensures Inv(start, Do(s, ConflictPass(t)))
  {
    var x := s.txs[t];
    assert TxInv(s, t);
    forall k <- x.avail ensures x.avail[k] >= 0 { assert LevelMatches(start, s.db, k); }
    PassIsPerKeyCheck(LinesOf(x.sub), x.sub.branch, x.avail);
    QuietFrame(start, s, Do(s, ConflictPass(t)), t);
  }

  lemma StartRestoreStep(start: Levels, s: State, t: TxId, id: Id, branch: Id, status: Status, refundShift: Option<Id>)
    requires Inv(start, s) && Enabled(s, StartRestore(t, id, branch, status, refundShift))
    ensures Inv(start, Do(s, StartRestore(t, id, branch, status, refundShift)))
  {
    var s' := StartRestoring(s, t, id, branch, status, refundShift);
    if id in s.db.sales && s.db.sales[id].status.Completed? {
      SoldMovesOf(start, s.db, id);
    }
    RestoreBegun(s, t, id, branch, status, refundShift);
    QuietFrame(start, s, s', t);
  }

  lemma RestoreBegun(s: State, t: TxId, id: Id, branch: Id, status: Status, refundShift: Option<Id>)
    requires Enabled(s, StartRestore(t, id, branch, status, refundShift))
    requires id in s.db.sales && s.db.sales[id].status.Completed? ==> SoldMoves(s.db.log, id) == MovesOf(s.db.sales[id])
    ensures TxInv(StartRestoring(s, t, id, branch, status, refundShift), t)
    ensures LocksKept(s, StartRestoring(s, t, id, branch, status, refundShift), t)
  {}

  lemma StartReceiveStep(start: Levels, s: State, step: Step)
    requires Inv(start, s) && Enabled(s, step) && step.StartReceive?
    ensures Inv(start, Do(s, step))
  {
    QuietFrame(start, s, Do(s, step), step.t);
  }

  lemma FindLevelStep(start: Levels, s: State, t: TxId)
    requires Inv(start, s) && Enabled(s, FindLevel(t))
    ensures Inv(start, Do(s, FindLevel(t)))
  {
    assert TxInv(s, t);
    QuietFrame(start, s, Do(s, FindLevel(t)), t);
  }

  lemma WriteLevelStep(start: Levels, s: State, t: TxId)
    requires Inv(start, s) && Enabled(s, WriteLevel(t))
    ensures Inv(start, Do(s, WriteLevel(t)))
  {
    var s', x := Writing(s, t), s.txs[t];
    assert TxInv(s, t);
    if s'.txs[t].Moving? && s'.txs[t].next > 0 {
      forall i | 0 <= i < x.next + 1 ensures s'.rowLocks[x.moves[i].key] == t && x.moves[i].key in s'.rowLocks {
        assert i < x.next ==> s.rowLocks[x.moves[i].key] == t;
      }
    }
    QuietFrame(start, s, s', t);
  }

  lemma InsertStep(start: Levels, s: State, t: TxId)
    requires Inv(start, s) && Enabled(s, Insert(t))
    ensures Inv(start, Do(s, Insert(t)))
  {
    var s' := Do(s, Insert(t));
    assert TxInv(s, t);
    forall u <- s.txs | u != t ensures Exclusive(s', t, u) && Exclusive(s', u, t) {
      if s.txs[u].Inserted? { assert !SameUniqueKey(s.txs[u].sub, s.txs[t].sub); }
    }
    QuietStable(s, s', t);
    Framed(start, s, s', t);
  }

  lemma CoveredByHeld(s: State, t: TxId, avail: Levels, lines: seq<CartLine>, branch: Id)
    requires Holds(s, t, avail) && Covered(avail, lines, branch) && ValidLines(lines)
    requires forall k :: Level(s.db.levels, k) >= 0
    ensures Covered(s.db.levels, lines, branch)
    ensures forall k <- s.rowLocks | s.rowLocks[k] != t :: Wanted(lines, branch, k) == 0
  {
    forall k
      ensures Wanted(lines, branch, k) <= Level(s.db.levels, k) && (k !in avail ==> Wanted(lines, branch, k) == 0)
    {
      WantedNonNegative(lines, branch, k);
      assert Wanted(lines, branch, k) <= Level(avail, k);
    }
  }

  lemma CommitSaleStep(start: Levels, s: State, t: TxId)
    requires Inv(start, s) && Enabled(s, CommitSale(t))
    ensures Inv(start, Do(s, CommitSale(t)))
  {
    var s', sub, avail := Do(s, CommitSale(t)), s.txs[t].sub, s.txs[t].avail;
    var row := SaleOf(sub);
    assert TxInv(s, t);
    forall k ensures Level(s.db.levels, k) >= 0 { assert LevelMatches(start, s.db, k); }
    CoveredByHeld(s, t, avail, LinesOf(sub), sub.branch);
    PostSaleInv(start, s.db, row);
    PostSaleStable(s, t, row);
    forall u <- s.txs | u != t ensures Exclusive(s', t, u) && Exclusive(s', u, t) {
      assert TxInv(s, u);
    }
    Framed(start, s, s', t);
  }

  lemma PostSaleStable(s: State, t: TxId, row: SaleRow)
    requires t in s.txs && s.txs[t].Inserted? && row == SaleOf(s.txs[t].sub) && row.id !in s.db.sales
    requires forall k <- s.rowLocks | s.rowLocks[k] != t :: Wanted(row.draft.cart.lines, row.branch, k) == 0
    ensures Stable(s, Do(s, CommitSale(t)), t)
  {}

  lemma {:induction false} AddMovesElsewhere(levels: Levels, moves: seq<Movement>, k: Key)
    requires forall m <- moves :: m.key != k
    ensures k in AddMoves(levels, moves) <==> k in levels
    ensures k in levels ==> AddMoves(levels, moves)[k] == levels[k]
    decreases moves
  {
    if moves == [] {
    } else {
      AddMovesElsewhere(levels[moves[0].key := Level(levels, moves[0].key) + moves[0].deltaMilli], moves[1..], k);
    }
  }

  lemma CommitMovesStep(start: Levels, s: State, t: TxId)
    requires Inv(start, s) && Enabled(s, CommitMoves(t))
    ensures Inv(start, Do(s, CommitMoves(t)))
  {
    var s', x := Do(s, CommitMoves(t)), s.txs[t];
    assert TxInv(s, t);
    match x.purpose {
      case Receipt(_) => ReceiveInv(start, s.db, x.moves);
      case Restore(id, status, refundShift) => CompensateInv(start, s.db, id, status, refundShift);
    }
    MovesStable(s, t);
    Framed(start, s, s', t);
  }

  lemma MovesStable(s: State, t: TxId)
    requires Enabled(s, CommitMoves(t)) && TxInv(s, t)
    ensures Stable(s, Do(s, CommitMoves(t)), t)
  {
    var s', x := Do(s, CommitMoves(t)), s.txs[t];
    forall k <- s.rowLocks | s.rowLocks[k] != t && k in s.db.levels
      ensures k in s'.db.levels && s'.db.levels[k] == s.db.levels[k]
    {
      AddMovesElsewhere(s.db.levels, x.moves, k);
    }
  }

  lemma AdjustStep(start: Levels, s: State, step: Step)
    requires Inv(start, s) && Enabled(s, step) && step.Adjust?
    ensures Inv(start, Do(s, step))
  {
    AdjustInv(start, s.db, step.k, step.newQty, step.movementId);
    Framed(start, s, Do(s, step), step.t);
  }

  lemma StepKeepsInv(start: Levels, s: State, step: Step)
    requires Inv(start, s) && Enabled(s, step)
    ensures Inv(start, Do(s, step))
  {
    match step {
      case CommitSale(t) => CommitSaleStep(start, s, t);
      case CommitMoves(t) => CommitMovesStep(start, s, t);
      case Adjust(_, _, _, _) => AdjustStep(start, s, step);
      case Insert(t) => InsertStep(start, s, t);
      case ConflictPass(t) => ConflictPassStep(start, s, t);
      case LockRow(_, _) => LockingStep(start, s, step);
      case Recheck(_) => LockingStep(start, s, step);
      case StartRestore(t, id, b, status, shift) => StartRestoreStep(start, s, t, id, b, status, shift);
      case StartReceive(_, _) => StartReceiveStep(start, s, step);
      case FindLevel(t) => FindLevelStep(start, s, t);
      case WriteLevel(t) => WriteLevelStep(start, s, t);
      case _ => RequestStep(start, s, step);
    }
  }

  lemma {:induction false} RunKeepsInv(start: Levels, s: State, steps: seq<Step>)
    requires Inv(start, s)
    ensures Inv(start, Run(s, steps))
    decreases |steps|
  {
    if steps == [] {
    } else {
      if Enabled(s, steps[0]) { StepKeepsInv(start, s, steps[0]); }
      RunKeepsInv(start, if Enabled(s, steps[0]) then Do(s, steps[0]) else s, steps[1..]);
    }
  }
}
