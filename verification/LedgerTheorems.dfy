/** The ledger's guarantees, over whole runs from an opening database. */
module LedgerTheorems {
  import opened Common
  import opened SaleRecords
  import opened Stock
  import opened Conflicts
  import opened Ledger
  import opened LedgerSafety

  function Start(db: Db): State { State(db, map[], map[], map[]) }

  lemma ReachableInv(db: Db, steps: seq<Step>)
    requires Opening(db)
    ensures Inv(db.levels, Run(Start(db), steps))
  {
    OpeningInv(db);
    RunKeepsInv(db.levels, Start(db), steps);
  }

  /** Every level is its initial level plus its movements, and never negative. */
  lemma StockConserved(db: Db, steps: seq<Step>, k: Key)
    requires Opening(db)
    ensures var now := Run(Start(db), steps).db;
            Level(now.levels, k) == Level(db.levels, k) + SumKey(now.log, k) && Level(now.levels, k) >= 0
  {
    ReachableInv(db, steps);
    assert LevelMatches(db.levels, Run(Start(db), steps).db, k);
  }

  /** At most one submission posts a given id. */
  lemma PostedAtMostOnce(db: Db, steps: seq<Step>, t: TxId, u: TxId)
    requires Opening(db)
    ensures var s := Run(Start(db), steps);
            t in s.txs && u in s.txs && t != u
            && s.txs[t].Returned? && s.txs[t].posted && s.txs[u].Returned? && s.txs[u].posted
            ==> s.txs[t].id != s.txs[u].id
  {
    ReachableInv(db, steps);
    var s := Run(Start(db), steps);
    if t in s.txs && u in s.txs && t != u { assert Exclusive(s, t, u); }
  }

  /** The log carries each sale's own movements exactly once, whatever became of it. */
  lemma SoldExactlyOnce(db: Db, steps: seq<Step>, id: Id)
    requires Opening(db)
    ensures var now := Run(Start(db), steps).db;
            SoldMoves(now.log, id) == if id in now.sales then MovesOf(now.sales[id]) else []
  {
    ReachableInv(db, steps);
    var now := Run(Start(db), steps).db;
    var p, q := (m: Movement) => OfSale(m, id), (m: Movement) => m.ref == id && m.kind.SaleMove?;
    assert SaleMatches(now, id);
    FilterBoth(now.log, p, q, q);
    if id in now.sales {
      var row := now.sales[id];
      SaleMovesShape(row.draft.cart.lines, row.branch, row.id);
      FilterAll(MovesOf(row), q);
      var back := if row.status.Completed? then [] else Reversal(MovesOf(row), KindOf(row.status));
      FilterAppend(MovesOf(row), back, q);
      FilterNone(back, q);
    }
  }

  /** Every submission that is answered with a sale is answered with the stored one,
      through the fast path, the re-check under the lock, or the unique violation. */
  lemma AnswersAreTheStoredSale(db: Db, steps: seq<Step>, t: TxId)
    requires Opening(db)
    ensures var s := Run(Start(db), steps);
            t in s.txs && s.txs[t].Returned?
            ==> s.txs[t].id in s.db.sales && SameSale(s.txs[t].row, s.db.sales[s.txs[t].id])
  {
    ReachableInv(db, steps);
    var s := Run(Start(db), steps);
    if t in s.txs { assert TxInv(s, t); }
  }

  // ----- Status -----

  /** A later database: no sale lost or rewritten, and a compensated one never touched again. */
  ghost predicate SalesAdvance(a: Db, b: Db) {
    forall id <- a.sales ::
      && id in b.sales && SameSale(a.sales[id], b.sales[id])
      && (!a.sales[id].status.Completed? ==> b.sales[id] == a.sales[id])
  }

  lemma StepAdvances(start: Levels, s: State, step: Step)
    requires Inv(start, s) && Enabled(s, step)
    ensures SalesAdvance(s.db, Do(s, step).db)
  {
    match step {
      case CommitSale(t) => PostingAdvances(s, t) by { assert TxInv(s, t); }
      case CommitMoves(t) => RestoreAdvances(s, t) by { assert TxInv(s, t); }
      case Adjust(_, _, _, _) =>
      case _ => OtherStepsOnlyRead(s, step);
    }
  }

  lemma PostingAdvances(s: State, t: TxId)
    requires Enabled(s, CommitSale(t)) && TxInv(s, t)
    ensures SalesAdvance(s.db, Do(s, CommitSale(t)).db)
  {}

  lemma RestoreAdvances(s: State, t: TxId)
    requires Enabled(s, CommitMoves(t)) && TxInv(s, t)
    ensures SalesAdvance(s.db, Do(s, CommitMoves(t)).db)
  {}

  lemma OtherStepsOnlyRead(s: State, step: Step)
    requires Enabled(s, step) && !step.CommitSale? && !step.CommitMoves? && !step.Adjust?
    ensures Do(s, step).db == s.db
  {}

  /** completed to voided, or completed to refunded, once: in every continuation of every run. */
  lemma {:induction false} CompensatedAtMostOnce(start: Levels, s: State, steps: seq<Step>)
    requires Inv(start, s)
    ensures SalesAdvance(s.db, Run(s, steps).db)
    decreases |steps|
  {
    if steps == [] {
    } else {
      var next := if Enabled(s, steps[0]) then Do(s, steps[0]) else s;
      if Enabled(s, steps[0]) {
        StepKeepsInv(start, s, steps[0]);
        StepAdvances(start, s, steps[0]);
      }
      CompensatedAtMostOnce(start, next, steps[1..]);
      AdvanceTransitive(s.db, next.db, Run(s, steps).db);
    }
  }

  lemma AdvanceTransitive(a: Db, b: Db, c: Db)
    requires SalesAdvance(a, b) && SalesAdvance(b, c)
    ensures SalesAdvance(a, c)
  {}

  /** Per key, a sale's movements are minus what it sold while completed, zero afterwards. */
  lemma CompensationCancels(db: Db, steps: seq<Step>, id: Id, k: Key)
    requires Opening(db)
    ensures var now := Run(Start(db), steps).db;
            id in now.sales ==>
              var row := now.sales[id];
              SumKey(SaleLog(now.log, id), k)
              == if row.status.Completed? then -Wanted(row.draft.cart.lines, row.branch, k) else 0
  {
    ReachableInv(db, steps);
    var now := Run(Start(db), steps).db;
    if id in now.sales { SaleNetMovement(db.levels, now, id, k); }
  }

  // ----- Branches the code calls unreachable -----

  /** A stock conflict is genuine: some key is really short, and none of the stock the
      check looked at was taken by a concurrent posting of the same sale. */
  lemma ConflictIsGenuine(db: Db, steps: seq<Step>, t: TxId)
    requires Opening(db)
    ensures var s := Run(Start(db), steps);
            t in s.txs && s.txs[t].Rechecked? && Do(s, ConflictPass(t)).txs[t].Failed? ==>
              var x := s.txs[t];
              && !Covered(x.avail, LinesOf(x.sub), x.sub.branch)
              && forall k <- x.avail ::
                   x.avail[k] == Level(s.db.levels, k) && SumKey(SaleLog(s.db.log, x.sub.draft.id), k) == 0
  {
    ReachableInv(db, steps);
    var s := Run(Start(db), steps);
    if t in s.txs && s.txs[t].Rechecked? && Do(s, ConflictPass(t)).txs[t].Failed? {
      var x := s.txs[t];
      var id := x.sub.draft.id;
      assert TxInv(s, t);
      forall k <- x.avail
        ensures x.avail[k] >= 0 && x.avail[k] == Level(s.db.levels, k) && SumKey(SaleLog(s.db.log, id), k) == 0
      {
        assert LevelMatches(db.levels, s.db, k);
        if id in s.db.sales { SaleNetMovement(db.levels, s.db, id, k); } else { assert SaleMatches(s.db, id); }
      }
      PassIsPerKeyCheck(LinesOf(x.sub), x.sub.branch, x.avail);
    }
  }

  /** restoreStock never has to create a level: the rows it returns goods to exist. */
  lemma RestoreFindsEveryLevel(db: Db, steps: seq<Step>, t: TxId)
    requires Opening(db)
    ensures var s := Run(Start(db), steps);
            t in s.txs && s.txs[t].Moving? && s.txs[t].purpose.Restore? ==>
              forall m <- s.txs[t].moves :: m.key in s.db.levels
  {
    ReachableInv(db, steps);
    var s := Run(Start(db), steps);
    if t in s.txs && s.txs[t].Moving? && s.txs[t].purpose.Restore? {
      assert TxInv(s, t);
      var id := s.txs[t].purpose.saleId;
      SoldMovesOf(db.levels, s.db, id);
      forall m <- s.txs[t].moves ensures m.key in s.db.levels {
        var i :| 0 <= i < |s.txs[t].moves| && s.txs[t].moves[i] == m;
        assert m.key == SoldMoves(s.db.log, id)[i].key;
        assert SoldMoves(s.db.log, id)[i] in s.db.log;
      }
    }
  }

  // ----- One request at a time -----

  function Available(db: Db, sub: Submission): Levels {
    map k | k in InvolvedRows(db.levels, sub) :: db.levels[k]
  }

  /** What completeSale does when nothing runs beside it. */
  function CompleteSale(db: Db, sub: Submission): (Db, Tx) {
    var id := sub.draft.id;
    if FindOwn(db, sub).Some? then (db, Returned(id, db.sales[id], false))
    else if id in db.sales then (db, Returned(id, db.sales[id], false))
    else if ShortLines(LinesOf(sub), sub.branch, Available(db, sub), |LinesOf(sub)|) != [] then (db, Failed)
    else if KeyTaken(db.sales, sub) then (db, Failed)
    else (PostSale(db, SaleOf(sub)), Returned(id, SaleOf(sub), true))
  }

  lemma {:induction false} RunAppend(s: State, a: seq<Step>, b: seq<Step>)
    ensures Run(s, a + b) == Run(Run(s, a), b)
    decreases |a|
  {
    if a == [] {
      assert a + b == b;
    } else {
      assert (a + b)[0] == a[0] && (a + b)[1..] == a[1..] + b;
      RunAppend(if Enabled(s, a[0]) then Do(s, a[0]) else s, a[1..], b);
    }
  }

  lemma RunOne(s: State, step: Step)
    requires Enabled(s, step)
    ensures Run(s, [step]) == Do(s, step)
  {
    assert [step][1..] == [];
  }

  lemma ReadNone(levels: Levels, avail: Levels)
    ensures var none: set<Key> := {}; avail + (map k | k in none && k in levels :: levels[k]) == avail
  {}

  lemma ReadOne(levels: Levels, avail: Levels, todo: set<Key>, k: Key)
    requires todo <= levels.Keys && k in todo
    ensures avail[k := levels[k]] + (map k' | k' in todo - {k} :: levels[k'])
         == avail + map k' | k' in todo :: levels[k']
  {}

  /** Alone, the locking phase reads every involved row. */
  lemma LockAll(s: State, t: TxId, sub: Submission, todo: set<Key>, avail: Levels) returns (steps: seq<Step>)
    requires t in s.txs && s.txs[t] == Locking(sub, todo, avail) && todo <= s.db.levels.Keys
    requires forall k <- s.rowLocks :: s.rowLocks[k] == t
    ensures var e := Run(s, steps);
            && e.db == s.db && t in e.txs && e.txs == s.txs[t := e.txs[t]]
            && e.txs[t] == Locking(sub, {}, avail + map k | k in todo :: s.db.levels[k])
    decreases |todo|
  {
    if todo == {} {
      steps := [];
      ReadNone(s.db.levels, avail);
      assert s.txs == s.txs[t := s.txs[t]];
    } else {
      var k :| k in todo;
      var next := Do(s, LockRow(t, k));
      var rest := LockAll(next, t, sub, todo - {k}, avail[k := s.db.levels[k]]);
      steps := [LockRow(t, k)] + rest;
      RunAppend(s, [LockRow(t, k)], rest);
      RunOne(s, LockRow(t, k));
      ReadOne(s.db.levels, avail, todo, k);
    }
  }

  /** The step machine contains the plain call: run alone, its steps compute CompleteSale. */
  lemma SerialCallIsARun(s: State, t: TxId, sub: Submission) returns (steps: seq<Step>)
    requires t !in s.txs && s.rowLocks == map[] && ValidLines(LinesOf(sub))
    requires forall u <- s.txs :: !s.txs[u].Inserted?
    ensures Run(s, steps).db == CompleteSale(s.db, sub).0
    ensures t in Run(s, steps).txs && Run(s, steps).txs[t] == CompleteSale(s.db, sub).1
  {
    var s1 := Do(s, Submit(t, sub));
    var s2 := Do(s1, FastPath(t));
    steps := [Submit(t, sub)] + [FastPath(t)];
    RunOne(s, Submit(t, sub));
    RunOne(s1, FastPath(t));
    RunAppend(s, [Submit(t, sub)], [FastPath(t)]);
    if s2.txs[t].Admitted? {
      var s3 := Do(s2, Begin(t));
      var locks := LockAll(s3, t, sub, InvolvedRows(s.db.levels, sub), map[]);
      var s4 := Run(s3, locks);
      assert map[] + (map k | k in InvolvedRows(s.db.levels, sub) :: s.db.levels[k]) == Available(s.db, sub);
      var tail := AfterLocks(s4, t, sub, Available(s.db, sub));
      RunOne(s2, Begin(t));
      RunAppend(s2, [Begin(t)], locks);
      RunAppend(s2, [Begin(t)] + locks, tail);
      RunAppend(s, steps, [Begin(t)] + locks + tail);
      steps := steps + ([Begin(t)] + locks + tail);
    }
  }

  lemma AfterLocks(s: State, t: TxId, sub: Submission, avail: Levels) returns (steps: seq<Step>)
    requires t in s.txs && s.txs[t] == Locking(sub, {}, avail) && avail == Available(s.db, sub)
    requires forall u <- s.txs | u != t :: !s.txs[u].Inserted?
    requires FindOwn(s.db, sub).None?
    ensures Run(s, steps).db == CompleteSale(s.db, sub).0
    ensures t in Run(s, steps).txs && Run(s, steps).txs[t] == CompleteSale(s.db, sub).1
  {
    var s1 := Do(s, Recheck(t));
    RunOne(s, Recheck(t));
    steps := [Recheck(t)];
    if s1.txs[t].Rechecked? {
      var s2 := Do(s1, ConflictPass(t));
      RunOne(s1, ConflictPass(t));
      RunAppend(s, [Recheck(t)], [ConflictPass(t)]);
      steps := [Recheck(t)] + [ConflictPass(t)];
      if s2.txs[t].Cleared? {
        var tail := AfterClearing(s2, t, sub, avail);
        RunAppend(s, steps, tail);
        steps := steps + tail;
      }
    }
  }

  lemma AfterClearing(s: State, t: TxId, sub: Submission, avail: Levels) returns (steps: seq<Step>)
    requires t in s.txs && s.txs[t] == Cleared(sub, avail) && sub.draft.id !in s.db.sales
    requires forall u <- s.txs | u != t :: !s.txs[u].Inserted?
    ensures var taken := KeyTaken(s.db.sales, sub);
            && Run(s, steps).db == (if taken then s.db else PostSale(s.db, SaleOf(sub)))
            && t in Run(s, steps).txs
            && Run(s, steps).txs[t] == if taken then Failed else Returned(sub.draft.id, SaleOf(sub), true)
  {
    var s1 := Do(s, Insert(t));
    var last := if s1.txs[t].Inserted? then CommitSale(t) else AfterCollision(t);
    RunOne(s, Insert(t));
    RunOne(s1, last);
    RunAppend(s, [Insert(t)], [last]);
    steps := [Insert(t)] + [last];
  }
}

/** Creates lost to a concurrent create (withLevelCreateRetry in src/portal/stock/stock.service.ts). */
module LedgerRetries {
  import opened Common
  import opened Stock
  import opened Ledger
  import opened LedgerTheorems

  /** The levels a receipt still has to create. */
  function Missing(levels: Levels, moves: seq<Movement>): set<Key> { set m | m in moves && m.key !in levels :: m.key }

  /** The level was missing when looked up and has been created by someone else since. */
  predicate Losing(levels: Levels, x: Tx)
    requires x.Moving?
  {
    x.next < |x.moves| && x.found == Some(false) && x.moves[x.next].key in levels
  }

  /** Attempts made, the one being lost and the levels still missing: together at most the
      levels that were missing to begin with, and never more than two attempts after the first. */
  ghost predicate WithinBudget(s: State, t: TxId, budget: nat) {
    && t in s.txs
    && (s.txs[t].Moving? ==>
          && s.txs[t].purpose.Receipt? && s.txs[t].purpose.attempt <= 2
          && s.txs[t].purpose.attempt + (if Losing(s.db.levels, s.txs[t]) then 1 else 0)
             + |Missing(s.db.levels, s.txs[t].moves)| <= budget)
  }

  lemma {:induction false} AddedKeysStay(levels: Levels, moves: seq<Movement>)
    ensures levels.Keys <= AddMoves(levels, moves).Keys
    decreases moves
  {
    if moves == [] {
    } else {
      AddedKeysStay(levels[moves[0].key := Level(levels, moves[0].key) + moves[0].deltaMilli], moves[1..]);
    }
  }

  /** Once there, a level stays. */
  lemma LevelsStay(s: State, step: Step)
    requires Enabled(s, step)
    ensures s.db.levels.Keys <= Do(s, step).db.levels.Keys
  {
    if step.CommitMoves? { AddedKeysStay(s.db.levels, s.txs[step.t].moves); }
  }

  /** A level created meanwhile is one fewer to create, and at most one more create to lose. */
  lemma CreatedMeanwhile(a: Levels, b: Levels, x: Tx)
    requires x.Moving? && a.Keys <= b.Keys
    ensures (if Losing(b, x) then 1 else 0) + |Missing(b, x.moves)|
         <= (if Losing(a, x) then 1 else 0) + |Missing(a, x.moves)|
  {
    var before, after := Missing(a, x.moves), Missing(b, x.moves);
    if Losing(b, x) && !Losing(a, x) {
      var k := x.moves[x.next].key;
      assert x.moves[x.next] in x.moves && k in before && k !in after;
      Fewer(after, before - {k});
    } else {
      Fewer(after, before);
    }
  }

  lemma Fewer(a: set<Key>, b: set<Key>)
    requires a <= b
    ensures |a| <= |b|
  {
    assert b == a + (b - a);
  }

  lemma StepWithinBudget(s: State, step: Step, t: TxId, budget: nat)
    requires WithinBudget(s, t, budget) && Enabled(s, step)
    ensures WithinBudget(Do(s, step), t, budget)
  {
    var u := Do(s, step);
    LevelsStay(s, step);
    if step.t != t && s.txs[t].Moving? { CreatedMeanwhile(s.db.levels, u.db.levels, s.txs[t]); }
  }

  lemma {:induction false} RunWithinBudget(s: State, steps: seq<Step>, t: TxId, budget: nat)
    requires WithinBudget(s, t, budget)
    ensures WithinBudget(Run(s, steps), t, budget)
    decreases |steps|
  {
    if steps == [] {
    } else {
      if Enabled(s, steps[0]) { StepWithinBudget(s, steps[0], t, budget); }
      RunWithinBudget(if Enabled(s, steps[0]) then Do(s, steps[0]) else s, steps[1..], t, budget);
    }
  }

  /** In every run a receive retries at most twice, and at most once per level that was missing
      when it began; if no more than two were, it never fails for losing a create, however many
      requests create levels beside it. */
  lemma LostCreatesAreBounded(s: State, t: TxId, moves: seq<Movement>, steps: seq<Step>)
    requires Enabled(s, StartReceive(t, moves))
    ensures var e, missing := Run(Do(s, StartReceive(t, moves)), steps), |Missing(s.db.levels, moves)|;
            && t in e.txs
            && (e.txs[t].Moving? ==> e.txs[t].purpose.Receipt? && e.txs[t].purpose.attempt <= Min(2, missing))
            && (missing <= 2 && Enabled(e, WriteLevel(t)) ==> !Do(e, WriteLevel(t)).txs[t].Failed?)
  {
    RunWithinBudget(Do(s, StartReceive(t, moves)), steps, t, |Missing(s.db.levels, moves)|);
  }

  // ----- The third lost create fails -----

  /** Only t holds rows, all of them there. */
  ghost predicate Alone(s: State, t: TxId) {
    forall k <- s.rowLocks :: s.rowLocks[k] == t && k in s.db.levels
  }

  ghost predicate At(s: State, t: TxId, moves: seq<Movement>, attempt: nat, next: nat) {
    t in s.txs && s.txs[t] == Moving(Receipt(attempt), moves, next, None) && next <= |moves| && Alone(s, t)
  }

  lemma TwoSteps(s: State, a: Step, b: Step)
    requires Enabled(s, a) && Enabled(Do(s, a), b)
    ensures Run(s, [a, b]) == Do(Do(s, a), b)
  {
    assert [a, b][1..] == [b] && [b][1..] == [];
    RunOne(Do(s, a), b);
  }

  /** Past levels that exist. */
  lemma {:induction false} Walk(s: State, t: TxId, moves: seq<Movement>, attempt: nat, from: nat, to: nat)
      returns (steps: seq<Step>)
    requires At(s, t, moves, attempt, from) && from <= to <= |moves|
    requires forall i | from <= i < to :: moves[i].key in s.db.levels
    ensures At(Run(s, steps), t, moves, attempt, to) && Run(s, steps).db == s.db
    decreases |moves| - from
  {
    if from == to {
      steps := [];
    } else {
      var mid := Do(Do(s, FindLevel(t)), WriteLevel(t));
      TwoSteps(s, FindLevel(t), WriteLevel(t));
      var rest := Walk(mid, t, moves, attempt, from + 1, to);
      steps := [FindLevel(t), WriteLevel(t)] + rest;
      RunAppend(s, [FindLevel(t), WriteLevel(t)], rest);
    }
  }

  /** The first level that is missing. */
  lemma {:induction false} FirstMissing(levels: Levels, moves: seq<Movement>, from: nat) returns (i: nat)
    requires from <= |moves| && exists j :: from <= j < |moves| && moves[j].key !in levels
    ensures from <= i < |moves| && moves[i].key !in levels
    ensures forall j | from <= j < i :: moves[j].key in levels
    decreases |moves| - from
  {
    i := from;
    if moves[from].key in levels { i := FirstMissing(levels, moves, from + 1); }
  }

  lemma {:induction false} Unused(ids: set<TxId>) returns (u: TxId)
    ensures forall id <- ids :: id < u
    decreases |ids|
  {
    if ids == {} {
      u := 0;
    } else {
      var id :| id in ids;
      var above := Unused(ids - {id});
      u := Max(above, id + 1);
      forall x <- ids ensures x < u { if x != id { assert x in ids - {id}; } }
    }
  }

  /** Someone else creates the level that t has just found missing. */
  lemma Beaten(s: State, t: TxId, moves: seq<Movement>, attempt: nat, next: nat) returns (e: State, steps: seq<Step>)
    requires At(s, t, moves, attempt, next) && next < |moves| && moves[next].key !in s.db.levels
    ensures e == Run(s, steps) && Enabled(e, WriteLevel(t))
    ensures var after := Do(e, WriteLevel(t));
            && after.db.levels.Keys == s.db.levels.Keys + {moves[next].key}
            && if attempt < 2 then At(after, t, moves, attempt + 1, 0) else after.txs[t].Failed?
  {
    var u := Unused(s.txs.Keys);
    var k, found := moves[next].key, Do(s, FindLevel(t));
    steps := [FindLevel(t), Ledger.Adjust(u, k, 0, 0)];
    TwoSteps(s, FindLevel(t), Ledger.Adjust(u, k, 0, 0));
    e := Do(found, Ledger.Adjust(u, k, 0, 0));
    assert e.txs[t] == Moving(Receipt(attempt), moves, next, Some(false));
  }

  lemma OneFewer(levels: Levels, later: Levels, moves: seq<Movement>, k: Key)
    requires later.Keys == levels.Keys + {k} && k in Missing(levels, moves)
    ensures |Missing(later, moves)| == |Missing(levels, moves)| - 1
  {
    assert Missing(levels, moves) == Missing(later, moves) + {k};
  }

  lemma MissingSomewhere(levels: Levels, moves: seq<Movement>)
    requires Missing(levels, moves) != {}
    ensures exists j :: 0 <= j < |moves| && moves[j].key !in levels
  {
    var k :| k in Missing(levels, moves);
    var m :| m in moves && m.key == k;
  }

  lemma {:induction false} KeepsLosing(s: State, t: TxId, moves: seq<Movement>, attempt: nat)
      returns (e: State, steps: seq<Step>)
    requires At(s, t, moves, attempt, 0) && attempt <= 2 && |Missing(s.db.levels, moves)| >= 3 - attempt
    ensures e == Run(s, steps) && Enabled(e, WriteLevel(t)) && Do(e, WriteLevel(t)).txs[t].Failed?
    decreases 2 - attempt
  {
    MissingSomewhere(s.db.levels, moves);
    var i := FirstMissing(s.db.levels, moves, 0);
    var walk := Walk(s, t, moves, attempt, 0, i);
    var there := Run(s, walk);
    var beaten;
    e, beaten := Beaten(there, t, moves, attempt, i);
    RunAppend(s, walk, beaten);
    steps := walk + beaten;
    if attempt < 2 {
      var again := Do(e, WriteLevel(t));
      assert moves[i] in moves;
      OneFewer(s.db.levels, again.db.levels, moves, moves[i].key);
      RunOne(e, WriteLevel(t));
      RunAppend(s, steps, [WriteLevel(t)]);
      var rest;
      e, rest := KeepsLosing(again, t, moves, attempt + 1);
      RunAppend(s, steps + [WriteLevel(t)], rest);
      steps := steps + [WriteLevel(t)] + rest;
    }
  }

  /** The receive comes to fail for losing a create. */
  ghost predicate LosesOut(s: State, t: TxId, moves: seq<Movement>, steps: seq<Step>)
    requires Enabled(s, StartReceive(t, moves))
  {
    var e := Run(Do(s, StartReceive(t, moves)), steps);
    Enabled(e, WriteLevel(t)) && Do(e, WriteLevel(t)).txs[t].Failed?
  }

  /** Two is the exact number: while no row is locked, a receive can come to fail for losing
      creates if and only if more than two of its levels are missing. */
  lemma LosesOutExactly(s: State, t: TxId, moves: seq<Movement>)
    requires Enabled(s, StartReceive(t, moves)) && s.rowLocks == map[]
    ensures (exists steps :: LosesOut(s, t, moves, steps)) <==> |Missing(s.db.levels, moves)| > 2
  {
    if |Missing(s.db.levels, moves)| > 2 {
      var e, steps := KeepsLosing(Do(s, StartReceive(t, moves)), t, moves, 0);
      assert LosesOut(s, t, moves, steps);
    } else {
      forall steps ensures !LosesOut(s, t, moves, steps) { LostCreatesAreBounded(s, t, moves, steps); }
    }
  }
}
