/** The rewrite of src/prisma/scoped-prisma.ts moves deletes: a stamp runs where `update` or
    `updateMany` is written, or last. Which operations a delete may be moved across, and what
    the two tables have in common meanwhile. */
module SoftDeleteOrder {
  import opened Common
  import opened SoftDeleteColumns
  import opened SoftDeleteWrites
  import opened SoftDeleteFrames

  // ----- Columns against a condition -----

  /** Writing `columns` where `where` holds can make a row meet `w` that did not. */
  predicate BringsIn(where: Columns, columns: Columns, w: Columns) {
    && (forall k <- w | k in columns :: columns[k] == w[k])
    && (forall k <- w | k !in columns && k in where :: where[k] == w[k])
    && (exists k <- w :: k in columns && (k in where ==> where[k] != w[k]))
  }

  /** It can make a row that met `w` miss it, and leave it live. */
  predicate TakesOut(where: Columns, columns: Columns, w: Columns) {
    && (forall k <- w | k in where :: where[k] == w[k])
    && (exists k <- w :: k in columns && columns[k] != w[k])
    && (if DELETED_AT in columns then columns[DELETED_AT] == Null
        else NotRequired(w) && NotRequired(where))
  }

  /** The condition does not ask for deleted rows. */
  predicate NotRequired(w: Columns) { DELETED_AT in w ==> w[DELETED_AT] == Null }

  /** A row may be stamped for meeting `w` before these columns are written to it, instead of
      being deleted afterwards if it meets `w` then. */
  predicate SafeAfterStamp(columns: Columns, w: Columns) {
    if exists k <- w :: k in columns && columns[k] != w[k] then DELETED_AT in columns
    else (DELETED_AT in columns ==> columns[DELETED_AT] != Null)
         && ((exists k <- w :: k in columns) ==> DELETED_AT in columns || !NotRequired(w))
  }

  /** The three conditions say what they are meant to. */
  lemma BringsInExactly(where: Columns, columns: Columns, w: Columns)
    ensures BringsIn(where, columns, w)
       <==> exists r: Columns :: Meets(r, where) && !Meets(r, w) && Meets(r + columns, w)
  {
    if BringsIn(where, columns, w) {
      var k :| k in w && k in columns && (k in where ==> where[k] != w[k]);
      var r := (w + where)[k := if k in where then where[k] else Otherwise(w[k])];
      assert ValueOf(r, k) != w[k];
      assert Meets(r, where) && !Meets(r, w) && Meets(r + columns, w);
    }
    forall r: Columns | Meets(r, where) && !Meets(r, w) && Meets(r + columns, w) ensures BringsIn(where, columns, w) {
      var k :| k in w && ValueOf(r, k) != w[k];
      assert ValueOf(r + columns, k) == w[k];
      forall j <- w | j in columns ensures columns[j] == w[j] { assert ValueOf(r + columns, j) == w[j]; }
      forall j <- w | j !in columns && j in where ensures where[j] == w[j] { assert ValueOf(r + columns, j) == w[j]; }
    }
  }

  function Otherwise(v: Val): Val { if v == Null then At(0) else Null }

  lemma TakesOutExactly(where: Columns, columns: Columns, w: Columns)
    ensures TakesOut(where, columns, w)
       <==> exists r: Columns :: Meets(r, where) && Meets(r, w) && !Meets(r + columns, w) && Live(r + columns)
  {
    if TakesOut(where, columns, w) {
      var r := w + where;
      var k :| k in w && k in columns && columns[k] != w[k];
      assert ValueOf(r + columns, k) != w[k];
      assert Meets(r, where) && Meets(r, w) && !Meets(r + columns, w) && Live(r + columns);
    }
    forall r: Columns | Meets(r, where) && Meets(r, w) && !Meets(r + columns, w) && Live(r + columns)
      ensures TakesOut(where, columns, w)
    {
      var k :| k in w && ValueOf(r + columns, k) != w[k];
      assert ValueOf(r, k) == w[k];
      forall j <- w | j in where ensures where[j] == w[j] { assert ValueOf(r, j) == where[j]; }
      assert DELETED_AT in w ==> ValueOf(r, DELETED_AT) == w[DELETED_AT];
      assert DELETED_AT in where ==> ValueOf(r, DELETED_AT) == where[DELETED_AT];
    }
  }

  // ----- What the stamping tables owe, or have done already -----

  /** Deletes done on the deleting tables and not yet stamped, and stamps made before the
      deleting tables came to the delete. */
  datatype Lag = Lag(owed: seq<Id>, ahead: seq<Id>, owedWheres: seq<Columns>, aheadWheres: seq<Columns>)

  const EVEN := Lag([], [], [], [])

  /** When the first k operations have run. */
  function LagAt(n: Nested, k: nat): Lag
    requires k <= |n|
  {
    var ids, wheres := IdsDeleted(n), WheresDeleted(n);
    var deleted, updated := HasBefore(n, k, DeleteKey), HasBefore(n, k, UpdateKey);
    var deletedMany, updatedMany := HasBefore(n, k, DeleteManyKey), HasBefore(n, k, UpdateManyKey);
    Lag(if deleted && !updated then ids else [],
        if !deleted && updated then ids else [],
        if deletedMany && !updatedMany then wheres else [],
        if !deletedMany && updatedMany then wheres else [])
  }

  /** No delete is moved across an operation that it would affect, or that would affect it. */
  predicate InOrder(f: string, n: Nested) { forall k | 0 <= k < |n| :: Clear(f, n[k], LagAt(n, k)) }

  predicate Clear(f: string, o: Operation, lag: Lag) {
    match o
    case Creating(creates) => forall c <- creates :: ClearCreate(c, lag)
    case Updating(updates) => forall u <- updates :: ClearUpdate(f, u, lag)
    case UpdatingMany(bulk) => forall u <- bulk :: ClearUpdateMany(u, lag)
    case _ => true
  }

  /** A row created must not meet a deleteMany that came before it, must still be caught by one
      that comes after it, and must not be one that a delete after it names. */
  predicate ClearCreate(c: Columns, lag: Lag) {
    && lag.ahead == []
    && (forall w <- lag.owedWheres :: !Meets(c, w))
    && (forall w <- lag.aheadWheres :: Meets(c, w) ==> !Live(c))
  }

  predicate ClearUpdate(f: string, u: Update, lag: Lag) {
    && (lag != EVEN ==> Apart(f, u.data.rels))
    && (forall w <- lag.owedWheres :: !BringsIn(map[], u.data.columns, w))
    && (forall w <- lag.aheadWheres :: SafeAfterStamp(u.data.columns, w))
  }

  predicate ClearUpdateMany(u: UpdateMany, lag: Lag) {
    forall w <- lag.owedWheres :: !BringsIn(u.where, u.columns, w) && !TakesOut(u.where, u.columns, w)
  }

  /** No part of the tree writes to relation f, or goes up through a to-one relation. */
  predicate Apart(f: string, r: RelWrites)
    decreases r, 0
  {
    match r
    case NoRels => true
    case RelWrite(field, nested, rest) => field != f && ApartNested(f, nested) && Apart(f, rest)
    case ToOneUpdate(_, _, _, _) => false
    case ToOneDelete(_, _, _) => false
    case Refused => true
  }

  predicate ApartNested(f: string, n: Nested)
    decreases n, 0
  {
    n != [] ==> ApartOperation(f, n[0]) && ApartNested(f, n[1..])
  }

  predicate ApartOperation(f: string, o: Operation)
    decreases o, 0
  {
    match o
    case Updating(us) => forall u <- us :: Apart(f, u.data.rels)
    case Upserting(us) => forall u <- us :: Apart(f, u.data.rels)
    case _ => true
  }

  // ----- Two tables, one lagging behind the other -----

  /** `soft` is `hard` plus erased rows that are still there, stamped. */
  ghost predicate Sim(hard: Db, soft: Db) {
    && soft.Valid() && hard.next == soft.next
    && (forall id <- hard.rows :: id in soft.rows && soft.rows[id] == hard.rows[id])
    && (forall id <- soft.rows :: id !in hard.rows ==> !Live(soft.rows[id].columns))
  }

  predicate Owed(db: Db, p: Id, f: string, lag: Lag, id: Id) {
    db.IsChild(p, f, id) && (id in lag.owed || MatchesAny(db.rows[id], lag.owedWheres))
  }

  predicate Ahead(db: Db, p: Id, f: string, lag: Lag, id: Id) {
    db.IsChild(p, f, id) && (id in lag.ahead || MatchesAny(db.rows[id], lag.aheadWheres))
  }

  /** A row of both tables: stamped already if it is still to be deleted, and otherwise the same. */
  ghost predicate Paired(hard: Db, soft: Db, p: Id, f: string, lag: Lag, id: Id)
    requires id in hard.rows && id in soft.rows
  {
    var a, b := hard.rows[id], soft.rows[id];
    if !Ahead(hard, p, f, lag, id) then b == a
    else !Live(b.columns) && b.parent == a.parent && b.rel == a.rel && (id !in lag.ahead ==> SameButStamp(b, a))
  }

  /** Sim, but for the lag in relation f of row p. */
  ghost predicate Skew(hard: Db, soft: Db, p: Id, f: string, lag: Lag) {
    && soft.Valid() && hard.next == soft.next
    && (forall id <- hard.rows :: id in soft.rows && !Owed(hard, p, f, lag, id) && Paired(hard, soft, p, f, lag, id))
    && (forall id <- soft.rows :: id !in hard.rows ==> !Live(soft.rows[id].columns) || Owed(soft, p, f, lag, id))
    && (forall id <- lag.owed :: soft.IsChild(p, f, id))
  }

  lemma EvenIsSim(hard: Db, soft: Db, p: Id, f: string)
    ensures Skew(hard, soft, p, f, EVEN) <==> Sim(hard, soft)
  {
    forall id <- hard.rows | Sim(hard, soft) ensures Paired(hard, soft, p, f, EVEN, id) {}
    if Skew(hard, soft, p, f, EVEN) {
      forall id <- hard.rows ensures soft.rows[id] == hard.rows[id] { assert Paired(hard, soft, p, f, EVEN, id); }
    }
  }

  // ----- Creates -----

  lemma SkewCreate(hard: Db, soft: Db, p: Id, f: string, lag: Lag, c: Columns)
    requires Skew(hard, soft, p, f, lag) && ClearCreate(c, lag)
    ensures Skew(AddRow(hard, p, f, c), AddRow(soft, p, f, c), p, f, lag)
  {
    var a, b := AddRow(hard, p, f, c), AddRow(soft, p, f, c);
    assert !MatchesAny(Row(p, f, c), lag.owedWheres);
    forall id <- a.rows ensures id in b.rows && !Owed(a, p, f, lag, id) && Paired(a, b, p, f, lag, id) {
      if id != hard.next { assert Paired(hard, soft, p, f, lag, id) && !Owed(hard, p, f, lag, id); }
    }
    forall id <- b.rows | id !in a.rows ensures !Live(b.rows[id].columns) || Owed(b, p, f, lag, id) {
      assert !Live(soft.rows[id].columns) || Owed(soft, p, f, lag, id);
    }
  }

  lemma {:induction false} SkewCreates(hard: Db, soft: Db, p: Id, f: string, lag: Lag, creates: seq<Columns>)
    requires Skew(hard, soft, p, f, lag) && forall c <- creates :: ClearCreate(c, lag)
    ensures Skew(CreateAll(hard, p, f, creates), CreateAll(soft, p, f, creates), p, f, lag)
    decreases |creates|
  {
    if creates == [] {
    } else {
      SkewCreate(hard, soft, p, f, lag, creates[0]);
      SkewCreates(AddRow(hard, p, f, creates[0]), AddRow(soft, p, f, creates[0]), p, f, lag, creates[1..]);
    }
  }

  // ----- Updates -----

  /** Columns written to a row and to its stamped self. */
  lemma WrittenAfterStamp(a: Row, b: Row, columns: Columns, wheres: seq<Columns>)
    requires if MatchesAny(a, wheres) then SameButStamp(b, a) && !Live(b.columns) else b == a
    requires forall w <- wheres :: SafeAfterStamp(columns, w)
    ensures var a', b' := Write(a, columns), Write(b, columns);
            if MatchesAny(a', wheres) then SameButStamp(b', a') && !Live(b'.columns) else b' == a'
  {
    var a', b' := Write(a, columns), Write(b, columns);
    OverStamp(a, b, columns);
    if MatchesAny(a', wheres) {
      var w :| w in wheres && Matches(a', w);
      MatchedAfter(a, columns, w);
      assert DELETED_AT in columns ==> columns[DELETED_AT] != Null;
    } else if MatchesAny(a, wheres) {
      var w :| w in wheres && Matches(a, w) && !Matches(a', w);
      MissedAfter(a, columns, w);
    }
  }

  lemma OverStamp(a: Row, b: Row, columns: Columns)
    requires SameButStamp(b, a)
    ensures SameButStamp(Write(b, columns), Write(a, columns))
    ensures DELETED_AT in columns ==> Write(b, columns) == Write(a, columns)
  {
    var x, y := Write(b, columns).columns, Write(a, columns).columns;
    forall k | k != DELETED_AT ensures (k in x <==> k in y) && (k in x ==> x[k] == y[k]) {
      assert k in b.columns - {DELETED_AT} <==> k in b.columns;
      assert k in a.columns - {DELETED_AT} <==> k in a.columns;
      assert k in b.columns ==> (b.columns - {DELETED_AT})[k] == b.columns[k];
      assert k in a.columns ==> (a.columns - {DELETED_AT})[k] == a.columns[k];
    }
    assert x - {DELETED_AT} == y - {DELETED_AT};
    if DELETED_AT in columns { assert x == y; }
  }

  lemma MatchedAfter(a: Row, columns: Columns, w: Columns)
    requires Matches(Write(a, columns), w) && SafeAfterStamp(columns, w)
    ensures DELETED_AT in columns ==> columns[DELETED_AT] != Null
    ensures !Matches(a, w) ==> !Live(Write(a, columns).columns)
  {
    var c := Write(a, columns).columns;
    forall k <- w | k in columns ensures columns[k] == w[k] { assert ValueOf(c, k) == w[k]; }
    if !Matches(a, w) {
      var k :| k in w && ValueOf(a.columns, k) != w[k];
      assert ValueOf(c, k) == w[k];
      if DELETED_AT !in columns { assert ValueOf(c, DELETED_AT) == w[DELETED_AT]; }
    }
  }

  lemma MissedAfter(a: Row, columns: Columns, w: Columns)
    requires Matches(a, w) && !Matches(Write(a, columns), w) && SafeAfterStamp(columns, w)
    ensures DELETED_AT in columns
  {
    var c := Write(a, columns).columns;
    var k :| k in w && ValueOf(c, k) != w[k];
    assert ValueOf(a.columns, k) == w[k];
  }

  lemma SkewWrite(hard: Db, soft: Db, p: Id, f: string, lag: Lag, id: Id, columns: Columns)
    requires Skew(hard, soft, p, f, lag) && lag.ahead == [] && hard.IsChild(p, f, id)
    requires forall w <- lag.owedWheres :: !BringsIn(map[], columns, w)
    requires forall w <- lag.aheadWheres :: SafeAfterStamp(columns, w)
    ensures soft.IsChild(p, f, id)
    ensures Skew(WriteRow(hard, id, columns), WriteRow(soft, id, columns), p, f, lag)
  {
    assert Paired(hard, soft, p, f, lag, id) && !Owed(hard, p, f, lag, id);
    var a, b := WriteRow(hard, id, columns), WriteRow(soft, id, columns);
    WrittenAfterStamp(hard.rows[id], soft.rows[id], columns, lag.aheadWheres);
    forall w <- lag.owedWheres ensures !Matches(a.rows[id], w) {
      BringsInExactly(map[], columns, w);
      assert Meets(hard.rows[id].columns, map[]) && !Matches(hard.rows[id], w);
    }
    forall x <- a.rows ensures x in b.rows && !Owed(a, p, f, lag, x) && Paired(a, b, p, f, lag, x) {
      if x != id { assert Paired(hard, soft, p, f, lag, x) && !Owed(hard, p, f, lag, x); }
    }
    forall x <- b.rows | x !in a.rows ensures !Live(b.rows[x].columns) || Owed(b, p, f, lag, x) {
      assert !Live(soft.rows[x].columns) || Owed(soft, p, f, lag, x);
    }
  }

  // ----- Deletes, and the stamps for them -----

  /** Done here, still to be stamped there. */
  lemma SkewDeletes(hard: Db, soft: Db, p: Id, f: string, lag: Lag, ids: seq<Id>)
    requires Skew(hard, soft, p, f, lag) && lag.owed == lag.ahead == [] && DeleteAll(hard, p, f, ids).Some?
    ensures Skew(DeleteAll(hard, p, f, ids).value, soft, p, f, lag.(owed := ids))
  {
    OnwardDeletes(hard, p, f, ids);
    var a, later := DeleteAll(hard, p, f, ids).value, lag.(owed := ids);
    forall id <- ids ensures soft.IsChild(p, f, id) {
      assert hard.IsChild(p, f, id) && Paired(hard, soft, p, f, lag, id);
    }
    forall id <- a.rows ensures id in soft.rows && !Owed(a, p, f, later, id) && Paired(a, soft, p, f, later, id) {
      assert !Owed(hard, p, f, lag, id) && Paired(hard, soft, p, f, lag, id);
    }
    forall id <- soft.rows | id !in a.rows ensures !Live(soft.rows[id].columns) || Owed(soft, p, f, later, id) {
      if id !in hard.rows { assert !Live(soft.rows[id].columns) || Owed(soft, p, f, lag, id); }
    }
  }

  /** Stamped there already. */
  lemma SkewDeletesStamped(hard: Db, soft: Db, p: Id, f: string, lag: Lag)
    requires Skew(hard, soft, p, f, lag) && lag.owed == [] && DeleteAll(hard, p, f, lag.ahead).Some?
    ensures Skew(DeleteAll(hard, p, f, lag.ahead).value, soft, p, f, lag.(ahead := []))
  {
    OnwardDeletes(hard, p, f, lag.ahead);
    var a, later := DeleteAll(hard, p, f, lag.ahead).value, lag.(ahead := []);
    forall id <- a.rows ensures id in soft.rows && !Owed(a, p, f, later, id) && Paired(a, soft, p, f, later, id) {
      assert !Owed(hard, p, f, lag, id) && Paired(hard, soft, p, f, lag, id);
    }
    forall id <- soft.rows | id !in a.rows ensures !Live(soft.rows[id].columns) || Owed(soft, p, f, later, id) {
      if id in hard.rows {
        assert Paired(hard, soft, p, f, lag, id);
      } else {
        assert !Live(soft.rows[id].columns) || Owed(soft, p, f, lag, id);
      }
    }
  }

  lemma StampOwed(now: int, hard: Db, soft: Db, p: Id, f: string, lag: Lag)
    requires Skew(hard, soft, p, f, lag) && lag.ahead == []
    ensures ApplyUpdates(soft, p, f, Stamps(now, lag.owed)).Some?
    ensures Skew(hard, ApplyUpdates(soft, p, f, Stamps(now, lag.owed)).value, p, f, lag.(owed := []))
  {
    StampsStamp(now, soft, p, f, lag.owed);
    var b, later := ApplyUpdates(soft, p, f, Stamps(now, lag.owed)).value, lag.(owed := []);
    forall id <- hard.rows ensures id in b.rows && !Owed(hard, p, f, later, id) && Paired(hard, b, p, f, later, id) {
      assert !Owed(hard, p, f, lag, id) && Paired(hard, soft, p, f, lag, id);
      assert StampedIf(id in lag.owed, soft.rows[id], b.rows[id]);
    }
    forall id <- b.rows | id !in hard.rows ensures !Live(b.rows[id].columns) || Owed(b, p, f, later, id) {
      assert !Live(soft.rows[id].columns) || Owed(soft, p, f, lag, id);
      assert StampedIf(id in lag.owed, soft.rows[id], b.rows[id]);
    }
  }

  lemma StampAhead(now: int, hard: Db, soft: Db, p: Id, f: string, lag: Lag, ids: seq<Id>)
    requires Skew(hard, soft, p, f, lag) && lag.owed == lag.ahead == [] && forall id <- ids :: hard.IsChild(p, f, id)
    ensures ApplyUpdates(soft, p, f, Stamps(now, ids)).Some?
    ensures Skew(hard, ApplyUpdates(soft, p, f, Stamps(now, ids)).value, p, f, lag.(ahead := ids))
  {
    forall id <- ids ensures soft.IsChild(p, f, id) {
      assert hard.IsChild(p, f, id) && Paired(hard, soft, p, f, lag, id);
    }
    StampsStamp(now, soft, p, f, ids);
    var b, later := ApplyUpdates(soft, p, f, Stamps(now, ids)).value, lag.(ahead := ids);
    forall id <- hard.rows ensures id in b.rows && !Owed(hard, p, f, later, id) && Paired(hard, b, p, f, later, id) {
      assert !Owed(hard, p, f, lag, id) && Paired(hard, soft, p, f, lag, id);
      assert StampedIf(id in ids, soft.rows[id], b.rows[id]);
    }
    forall id <- b.rows | id !in hard.rows ensures !Live(b.rows[id].columns) || Owed(b, p, f, later, id) {
      assert !Live(soft.rows[id].columns) || Owed(soft, p, f, lag, id);
      assert StampedIf(id in ids, soft.rows[id], b.rows[id]);
    }
  }

  // ----- Bulk updates -----

  /** An updateMany that clears deletedAt must be confined to rows that are live already. */
  predicate Harmless(u: UpdateMany) {
    DELETED_AT in u.columns && u.columns[DELETED_AT] == Null ==> DELETED_AT in u.where && u.where[DELETED_AT] == Null
  }

  lemma StaysDead(r: Row, u: UpdateMany)
    requires Harmless(u) && !Live(r.columns) && Matches(r, u.where)
    ensures !Live(Write(r, u.columns).columns)
  {
    assert DELETED_AT in u.where ==> ValueOf(r.columns, DELETED_AT) == u.where[DELETED_AT];
  }

  lemma BulkLeavesOwed(r: Row, u: UpdateMany, lag: Lag)
    requires Matches(r, u.where) && ClearUpdateMany(u, lag) && Live(Write(r, u.columns).columns)
    ensures MatchesAny(Write(r, u.columns), lag.owedWheres) <==> MatchesAny(r, lag.owedWheres)
  {
    BulkBringsNone(r, u, lag);
    if MatchesAny(r, lag.owedWheres) {
      var w :| w in lag.owedWheres && Matches(r, w);
      TakesOutExactly(u.where, u.columns, w);
    }
  }

  lemma BulkBringsNone(r: Row, u: UpdateMany, lag: Lag)
    requires Matches(r, u.where) && ClearUpdateMany(u, lag)
    ensures MatchesAny(Write(r, u.columns), lag.owedWheres) ==> MatchesAny(r, lag.owedWheres)
  {
    if MatchesAny(Write(r, u.columns), lag.owedWheres) {
      var w :| w in lag.owedWheres && Matches(Write(r, u.columns), w);
      BringsInExactly(u.where, u.columns, w);
      assert Matches(r, w);
    }
  }

  lemma SkewUpdateMany(hard: Db, soft: Db, p: Id, f: string, lag: Lag, u: UpdateMany)
    requires Skew(hard, soft, p, f, lag) && lag.aheadWheres == [] && Harmless(u) && ClearUpdateMany(u, lag)
    ensures Skew(UpdateManyRows(hard, p, f, u), UpdateManyRows(soft, p, f, u), p, f, lag)
  {
    var a, b := UpdateManyRows(hard, p, f, u), UpdateManyRows(soft, p, f, u);
    forall id <- a.rows ensures id in b.rows && !Owed(a, p, f, lag, id) && Paired(a, b, p, f, lag, id) {
      assert !Owed(hard, p, f, lag, id) && Paired(hard, soft, p, f, lag, id);
      if Matches(hard.rows[id], u.where) { BulkBringsNone(hard.rows[id], u, lag); }
      if Matches(soft.rows[id], u.where) && !Live(soft.rows[id].columns) { StaysDead(soft.rows[id], u); }
    }
    forall id <- b.rows | id !in a.rows ensures !Live(b.rows[id].columns) || Owed(b, p, f, lag, id) {
      assert !Live(soft.rows[id].columns) || Owed(soft, p, f, lag, id);
      if Matches(soft.rows[id], u.where) {
        if !Live(soft.rows[id].columns) {
          StaysDead(soft.rows[id], u);
        } else if Live(Write(soft.rows[id], u.columns).columns) {
          BulkLeavesOwed(soft.rows[id], u, lag);
        }
      }
    }
  }

  lemma {:induction false} SkewUpdateManys(hard: Db, soft: Db, p: Id, f: string, lag: Lag, us: seq<UpdateMany>)
    requires Skew(hard, soft, p, f, lag) && lag.aheadWheres == []
    requires forall u <- us :: Harmless(u) && ClearUpdateMany(u, lag)
    ensures Skew(UpdateManyAll(hard, p, f, us), UpdateManyAll(soft, p, f, us), p, f, lag)
    decreases |us|
  {
    if us == [] {
    } else {
      SkewUpdateMany(hard, soft, p, f, lag, us[0]);
      SkewUpdateManys(UpdateManyRows(hard, p, f, us[0]), UpdateManyRows(soft, p, f, us[0]), p, f, lag, us[1..]);
    }
  }

  // ----- Bulk deletes, and the stamps for them -----

  lemma SkewDeleteManys(hard: Db, soft: Db, p: Id, f: string, lag: Lag, wheres: seq<Columns>)
    requires Skew(hard, soft, p, f, lag) && lag.owedWheres == lag.aheadWheres == []
    ensures Skew(DeleteManyAll(hard, p, f, wheres), soft, p, f, lag.(owedWheres := wheres))
  {
    DeleteManysLeave(hard, p, f, wheres);
    var a, later := DeleteManyAll(hard, p, f, wheres), lag.(owedWheres := wheres);
    forall id <- a.rows ensures id in soft.rows && !Owed(a, p, f, later, id) && Paired(a, soft, p, f, later, id) {
      assert !Owed(hard, p, f, lag, id) && Paired(hard, soft, p, f, lag, id);
    }
    forall id <- soft.rows | id !in a.rows ensures !Live(soft.rows[id].columns) || Owed(soft, p, f, later, id) {
      if id in hard.rows {
        assert Paired(hard, soft, p, f, lag, id);
      } else {
        assert !Live(soft.rows[id].columns) || Owed(soft, p, f, lag, id);
      }
    }
  }

  lemma SkewDeleteManysStamped(hard: Db, soft: Db, p: Id, f: string, lag: Lag)
    requires Skew(hard, soft, p, f, lag) && lag.owedWheres == []
    ensures Skew(DeleteManyAll(hard, p, f, lag.aheadWheres), soft, p, f, lag.(aheadWheres := []))
  {
    DeleteManysLeave(hard, p, f, lag.aheadWheres);
    var a, later := DeleteManyAll(hard, p, f, lag.aheadWheres), lag.(aheadWheres := []);
    forall id <- a.rows ensures id in soft.rows && !Owed(a, p, f, later, id) && Paired(a, soft, p, f, later, id) {
      assert !Owed(hard, p, f, lag, id) && Paired(hard, soft, p, f, lag, id);
    }
    forall id <- soft.rows | id !in a.rows ensures !Live(soft.rows[id].columns) || Owed(soft, p, f, later, id) {
      if id in hard.rows {
        assert Paired(hard, soft, p, f, lag, id);
      } else {
        assert !Live(soft.rows[id].columns) || Owed(soft, p, f, lag, id);
      }
    }
  }

  lemma StampManysOwed(now: int, hard: Db, soft: Db, p: Id, f: string, lag: Lag)
    requires Skew(hard, soft, p, f, lag) && lag.aheadWheres == []
    ensures Skew(hard, UpdateManyAll(soft, p, f, StampManys(now, lag.owedWheres)), p, f, lag.(owedWheres := []))
  {
    StampManysStamp(now, soft, p, f, lag.owedWheres);
    var b, later := UpdateManyAll(soft, p, f, StampManys(now, lag.owedWheres)), lag.(owedWheres := []);
    forall id <- hard.rows ensures id in b.rows && !Owed(hard, p, f, later, id) && Paired(hard, b, p, f, later, id) {
      assert !Owed(hard, p, f, lag, id) && Paired(hard, soft, p, f, lag, id);
      assert StampedIf(soft.IsChild(p, f, id) && MatchesAny(soft.rows[id], lag.owedWheres), soft.rows[id], b.rows[id]);
    }
    forall id <- b.rows | id !in hard.rows ensures !Live(b.rows[id].columns) || Owed(b, p, f, later, id) {
      assert !Live(soft.rows[id].columns) || Owed(soft, p, f, lag, id);
      assert StampedIf(soft.IsChild(p, f, id) && MatchesAny(soft.rows[id], lag.owedWheres), soft.rows[id], b.rows[id]);
    }
  }

  lemma StampManysAhead(now: int, hard: Db, soft: Db, p: Id, f: string, lag: Lag, wheres: seq<Columns>)
    requires Skew(hard, soft, p, f, lag) && lag.owedWheres == lag.aheadWheres == []
    ensures Skew(hard, UpdateManyAll(soft, p, f, StampManys(now, wheres)), p, f, lag.(aheadWheres := wheres))
  {
    StampManysStamp(now, soft, p, f, wheres);
    var b, later := UpdateManyAll(soft, p, f, StampManys(now, wheres)), lag.(aheadWheres := wheres);
    forall id <- hard.rows ensures id in b.rows && !Owed(hard, p, f, later, id) && Paired(hard, b, p, f, later, id) {
      assert !Owed(hard, p, f, lag, id) && Paired(hard, soft, p, f, lag, id);
      assert StampedIf(soft.IsChild(p, f, id) && MatchesAny(soft.rows[id], wheres), soft.rows[id], b.rows[id]);
    }
    forall id <- b.rows | id !in hard.rows ensures !Live(b.rows[id].columns) || Owed(b, p, f, later, id) {
      assert !Live(soft.rows[id].columns) || Owed(soft, p, f, lag, id);
      assert StampedIf(soft.IsChild(p, f, id) && MatchesAny(soft.rows[id], wheres), soft.rows[id], b.rows[id]);
    }
  }
}
