/** What writes through the tenancy client do to the columns of rows, in the request's own
    values. */
module WriteSpec {
  import opened Common
  import opened SoftDeleteColumns
  import opened SoftDeleteWrites

  // ----- One row -----

  predicate Holds(columns: Columns, name: string, v: Val) { if name in columns then columns[name] == v else v.Null? }

  predicate HoldsAll(columns: Columns, where: Columns) { forall c <- where :: Holds(columns, c, where[c]) }

  /** A row of the model, in scope, that the caller's where selects. */
  predicate Picked(r: Row, model: string, where: Columns, scope: Columns) {
    r.rel == model && HoldsAll(r.columns, where) && HoldsAll(r.columns, scope)
  }

  predicate Undeleted(r: Row) { Holds(r.columns, "deletedAt", Null) }

  /** The row with these columns written over its own. */
  ghost predicate Overwritten(a: Row, b: Row, columns: Columns) {
    && b.parent == a.parent && b.rel == a.rel
    && b.columns.Keys == a.columns.Keys + columns.Keys
    && forall c <- b.columns :: b.columns[c] == if c in columns then columns[c] else a.columns[c]
  }

  // ----- One operation on the tables, row by row -----

  /** A child of p through the relation that the filter selects. */
  predicate PickedChild(r: Row, p: Id, f: string, where: Columns) {
    r.parent == p && r.rel == f && HoldsAll(r.columns, where)
  }

  lemma PickedIs(db: Db, p: Id, f: string, id: Id, where: Columns)
    requires id in db.rows
    ensures PickedChild(db.rows[id], p, f, where) <==> db.IsChild(p, f, id) && Matches(db.rows[id], where)
  {}

  /** A bulk update writes to exactly the children its filter selects. */
  lemma UpdateManyIs(db: Db, p: Id, f: string, u: UpdateMany)
    ensures var after := UpdateManyRows(db, p, f, u);
            && after.next == db.next && after.rows.Keys == db.rows.Keys
            && forall id <- db.rows :: if PickedChild(db.rows[id], p, f, u.where)
                                       then Overwritten(db.rows[id], after.rows[id], u.columns)
                                       else after.rows[id] == db.rows[id]
  {
    forall id <- db.rows
      ensures PickedChild(db.rows[id], p, f, u.where) <==> db.IsChild(p, f, id) && Matches(db.rows[id], u.where)
    {
      PickedIs(db, p, f, id, u.where);
    }
  }

  /** A bulk delete removes exactly those. */
  lemma DeleteManyIs(db: Db, p: Id, f: string, where: Columns)
    ensures DeleteManyRows(db, p, f, where)
         == db.(rows := map id | id in db.rows && !PickedChild(db.rows[id], p, f, where) :: db.rows[id])
  {
    forall id <- db.rows
      ensures PickedChild(db.rows[id], p, f, where) <==> db.IsChild(p, f, id) && Matches(db.rows[id], where)
    {
      PickedIs(db, p, f, id, where);
    }
  }

  /** A to-one entry takes effect iff the row it reaches is there and meets its condition. */
  lemma ToOneIs(db: Db, p: Id, field: string, where: Option<Columns>, columns: Columns)
    ensures var after := ApplyRels(db, p, ToOneUpdate(field, where, Data(columns, NoRels), NoRels));
            && (after.Some? <==> && p in db.rows && db.rows[p].parent in db.rows
                                 && (where.Some? ==> HoldsAll(db.rows[db.rows[p].parent].columns, where.value)))
            && (after.Some? ==> OneWritten(db, after.value, db.rows[p].parent, columns))
  {
    if db.Reaches(p, where) {
      assert Apply(db, db.rows[p].parent, Data(columns, NoRels)) == Some(WriteRow(db, db.rows[p].parent, columns));
    }
  }

  /** Row `id` has these columns written over its own, and nothing else differs. */
  ghost predicate OneWritten(a: Db, b: Db, id: Id, columns: Columns) {
    && a.next == b.next && a.rows.Keys == b.rows.Keys && id in a.rows
    && Overwritten(a.rows[id], b.rows[id], columns)
    && forall other <- a.rows :: other != id ==> b.rows[other] == a.rows[other]
  }

  /** An upsert updates the child of that id, and creates one where there is none. */
  lemma UpsertChild(db: Db, p: Id, f: string, id: Id, columns: Columns, created: Columns)
    ensures var after := ApplyUpsert(db, p, f, Upsert(id, created, Data(columns, NoRels)));
            after.Some? && if id in db.rows && db.rows[id].parent == p && db.rows[id].rel == f
                           then OneWritten(db, after.value, id, columns)
                           else after.value == Db(db.rows[db.next := Row(p, f, created)], db.next + 1)
  {
    if db.IsChild(p, f, id) { assert Apply(db, id, Data(columns, NoRels)) == Some(WriteRow(db, id, columns)); }
  }

  // ----- A whole tree -----

  /** What a write tree says: columns to write, the condition of a to-one entry, the filter of a
      bulk operation, a row by id. */
  datatype Part =
    | Writes(columns: Columns)
    | OnlyIf(field: string, condition: Option<Columns>)
    | Where(filter: Columns)
    | Names(id: Id)

  /** Everything a tree says, at every depth. */
  function PartsIn(d: Data): set<Part>
    decreases d, 0
  {
    {Writes(d.columns)} + PartsInRels(d.rels)
  }

  function PartsInRels(r: RelWrites): set<Part>
    decreases r, 0
  {
    match r
    case NoRels => {}
    case RelWrite(_, nested, rest) => PartsInNested(nested) + PartsInRels(rest)
    case ToOneUpdate(field, where, data, rest) => {OnlyIf(field, where)} + PartsIn(data) + PartsInRels(rest)
    case ToOneDelete(field, where, rest) => {OnlyIf(field, where)} + PartsInRels(rest)
    case Refused => {}
  }

  function PartsInNested(n: Nested): set<Part>
    decreases n, 0
  {
    if n == [] then {} else PartsInOperation(n[0]) + PartsInNested(n[1..])
  }

  function PartsInOperation(o: Operation): set<Part>
    decreases o, 0
  {
    match o
    case Creating(creates) => set c <- creates :: Writes(c)
    case Upserting(upserts) => PartsInUpserts(upserts)
    case Updating(updates) => PartsInUpdates(updates)
    case Deleting(ids) => Named(ids)
    case UpdatingMany(bulk) => (set u <- bulk :: Where(u.where)) + (set u <- bulk :: Writes(u.columns))
    case DeletingMany(wheres) => Filters(wheres)
  }

  function Named(ids: seq<Id>): set<Part> { set id <- ids :: Names(id) }

  function Filters(wheres: seq<Columns>): set<Part> { set w <- wheres :: Where(w) }

  function PartsInUpserts(us: seq<Upsert>): set<Part>
    decreases us, 0
  {
    if us == [] then {} else PartsInUpsert(us[0]) + PartsInUpserts(us[1..])
  }

  function PartsInUpsert(u: Upsert): set<Part>
    decreases u, 0
  {
    {Names(u.id), Writes(u.columns)} + PartsIn(u.data)
  }

  function PartsInUpdates(us: seq<Update>): set<Part>
    decreases us, 0
  {
    if us == [] then {} else PartsInUpdate(us[0]) + PartsInUpdates(us[1..])
  }

  function PartsInUpdate(u: Update): set<Part>
    decreases u, 0
  {
    {Names(u.id)} + PartsIn(u.data)
  }

  /** What the walk may add: deletedAt, at the time of the request. */
  function StampOf(now: int): set<Part> { {Writes(map["deletedAt" := At(now)])} }

  /** The rewrite of a tree of any depth says nothing that was not sent, but that deletedAt be the
      time of the request: no row is named, no condition or filter used, no column written that
      the tree did not hold. */
  lemma {:induction false} RewriteAddsOnlyStamps(now: int, d: Data)
    ensures PartsIn(Rewrite(now, d)) <= PartsIn(d) + StampOf(now)
    decreases d, 0
  {
    RelsAddOnlyStamps(now, d.rels);
  }

  lemma {:induction false} RelsAddOnlyStamps(now: int, r: RelWrites)
    ensures PartsInRels(RewriteRels(now, r)) <= PartsInRels(r) + StampOf(now)
    decreases r, 1
  {
    match r {
      case NoRels =>
      case RelWrite(_, nested, rest) =>
        NestedAddsOnlyStamps(now, nested);
        RelsAddOnlyStamps(now, rest);
      case ToOneUpdate(_, where, data, rest) =>
        RewriteAddsOnlyStamps(now, data);
        RelsAddOnlyStamps(now, rest);
      case ToOneDelete(_, _, rest) =>
        RelsAddOnlyStamps(now, rest);
        assert PartsIn(Data(Stamp(now), NoRels)) == StampOf(now) + {};
      case Refused =>
    }
  }

  lemma {:induction false} NestedAddsOnlyStamps(now: int, n: Nested)
    ensures PartsInNested(RewriteNested(now, n)) <= PartsInNested(n) + StampOf(now)
    decreases n, 1
  {
    var ids, wheres := IdsDeleted(n), WheresDeleted(n);
    OperationsAddOnlyStamps(now, n, ids, wheres);
    AddedAreStamps(now, n);
    InBoth(RewriteOperations(now, n, ids, wheres), AddedKeys(now, n));
    DeletedAreSent(n);
  }

  lemma {:induction false} DeletedAreSent(n: Nested)
    ensures Named(IdsDeleted(n)) <= PartsInNested(n) && Filters(WheresDeleted(n)) <= PartsInNested(n)
  {
    if n == [] {
    } else {
      DeletedAreSent(n[1..]);
    }
  }

  lemma {:induction false} OperationsAddOnlyStamps(now: int, n: Nested, ids: seq<Id>, wheres: seq<Columns>)
    ensures PartsInNested(RewriteOperations(now, n, ids, wheres))
         <= PartsInNested(n) + Named(ids) + Filters(wheres) + StampOf(now)
    decreases n, 0
  {
    if n == [] {
    } else {
      OperationAddsOnlyStamps(now, n[0], ids, wheres);
      OperationsAddOnlyStamps(now, n[1..], ids, wheres);
      InBoth(RewriteOperation(now, n[0], ids, wheres), RewriteOperations(now, n[1..], ids, wheres));
    }
  }

  lemma {:induction false} OperationAddsOnlyStamps(now: int, o: Operation, ids: seq<Id>, wheres: seq<Columns>)
    ensures PartsInNested(RewriteOperation(now, o, ids, wheres))
         <= PartsInOperation(o) + Named(ids) + Filters(wheres) + StampOf(now)
    decreases o, 0
  {
    var sent := RewriteOperation(now, o, ids, wheres);
    assert sent != [] ==> sent[1..] == [] && PartsInNested(sent) == PartsInOperation(sent[0]) + {};
    match o {
      case Updating(updates) =>
        UpdatesAddOnlyStamps(now, updates);
        StampsAreStamps(now, ids);
        InBothUpdates(RewriteUpdates(now, updates), Stamps(now, ids));
      case UpdatingMany(bulk) => ManysAreStamps(now, wheres);
      case _ =>
    }
  }

  lemma {:induction false} UpdatesAddOnlyStamps(now: int, us: seq<Update>)
    ensures PartsInUpdates(RewriteUpdates(now, us)) <= PartsInUpdates(us) + StampOf(now)
    decreases us, 0
  {
    if us == [] {
    } else {
      UpdateAddsOnlyStamps(now, us[0]);
      UpdatesAddOnlyStamps(now, us[1..]);
      assert RewriteUpdates(now, us)[1..] == RewriteUpdates(now, us[1..]);
    }
  }

  lemma {:induction false} UpdateAddsOnlyStamps(now: int, u: Update)
    ensures PartsInUpdate(RewriteUpdate(now, u)) <= PartsInUpdate(u) + StampOf(now)
    decreases u, 0
  {
    RewriteAddsOnlyStamps(now, u.data);
  }

  lemma {:induction false} InBoth(a: Nested, b: Nested)
    ensures PartsInNested(a + b) == PartsInNested(a) + PartsInNested(b)
    decreases |a|
  {
    if a == [] {
      assert a + b == b;
    } else {
      assert (a + b)[0] == a[0] && (a + b)[1..] == a[1..] + b;
      InBoth(a[1..], b);
    }
  }

  lemma {:induction false} InBothUpdates(a: seq<Update>, b: seq<Update>)
    ensures PartsInUpdates(a + b) == PartsInUpdates(a) + PartsInUpdates(b)
    decreases |a|
  {
    if a == [] {
      assert a + b == b;
    } else {
      assert (a + b)[0] == a[0] && (a + b)[1..] == a[1..] + b;
      InBothUpdates(a[1..], b);
    }
  }

  lemma {:induction false} StampsAreStamps(now: int, ids: seq<Id>)
    ensures PartsInUpdates(Stamps(now, ids)) <= Named(ids) + StampOf(now)
  {
    if ids == [] {
    } else {
      StampsAreStamps(now, ids[1..]);
      assert Stamps(now, ids)[1..] == Stamps(now, ids[1..]);
      assert PartsIn(Data(Stamp(now), NoRels)) == StampOf(now) + {};
      assert Named(ids[1..]) <= Named(ids) && Names(ids[0]) in Named(ids);
    }
  }

  lemma {:induction false} ManysAreStamps(now: int, wheres: seq<Columns>)
    ensures PartsInOperation(UpdatingMany(StampManys(now, wheres))) <= Filters(wheres) + StampOf(now)
  {
    if wheres == [] {
    } else {
      ManysAreStamps(now, wheres[1..]);
    }
  }

  lemma AddedAreStamps(now: int, n: Nested)
    ensures PartsInNested(AddedKeys(now, n))
         <= Named(IdsDeleted(n)) + Filters(WheresDeleted(n)) + StampOf(now)
  {
    var ids, manys := [Updating(Stamps(now, IdsDeleted(n)))], [UpdatingMany(StampManys(now, WheresDeleted(n)))];
    StampsAreStamps(now, IdsDeleted(n));
    ManysAreStamps(now, WheresDeleted(n));
    assert ids[1..] == [] && manys[1..] == [];
    assert PartsInNested(ids) == PartsInOperation(ids[0]) + {};
    assert PartsInNested(manys) == PartsInOperation(manys[0]) + {};
    InBoth(if Has(n, DeleteKey) && !Has(n, UpdateKey) then ids else [],
           if Has(n, DeleteManyKey) && !Has(n, UpdateManyKey) then manys else []);
  }
}

/** Each request of the client, read off the rows it leaves. */
module ClientAnswers {
  import opened Common
  import opened SoftDeleteColumns
  import opened SoftDeleteWrites
  import opened SoftDeleteClient
  import opened WriteSpec

  // ----- Single rows -----

  /** The row is there and in scope. */
  predicate Reachable(db: Db, scope: Columns, id: Id) { id in db.rows && HoldsAll(db.rows[id].columns, scope) }

  ghost predicate OneAdded(a: Db, b: Db, row: Row) { b == Db(a.rows[a.next := row], a.next + 1) }

  lemma ReachableIs(db: Db, scope: Columns, id: Id)
    ensures Reachable(db, scope, id) <==> Found(db, scope, id)
    ensures id in db.rows ==> (Undeleted(db.rows[id]) <==> Live(db.rows[id].columns))
  {}

  /** A delete of a row in scope that is not deleted yet writes the time to its deletedAt. */
  lemma DeleteIs(db: Db, q: Request)
    requires q.op.Delete?
    ensures var ((after, out), id) := (Step(db, q), q.op.id);
            if Reachable(db, q.scope, id) && Undeleted(db.rows[id])
            then out == Done(id) && OneWritten(db, after, id, map["deletedAt" := At(q.now)])
            else out == NotFound && after == db
  {
    ReachableIs(db, q.scope, q.op.id);
  }

  /** An update of columns finds deleted rows as well. */
  lemma ChangeIs(db: Db, q: Request)
    requires q.op.Change? && q.op.data.rels == NoRels
    ensures var ((after, out), id) := (Step(db, q), q.op.id);
            if Reachable(db, q.scope, id) then out == Done(id) && OneWritten(db, after, id, q.op.data.columns)
            else out == NotFound && after == db
  {
    FlatSent(db, q.now, q.op.id, q.op.data);
    ReachableIs(db, q.scope, q.op.id);
  }

  lemma FlatSent(db: Db, now: int, id: Id, data: Data)
    requires data.rels == NoRels
    ensures id in db.rows ==>
              var (after, out) := Applied(db, id, Rewrite(now, data));
              out == Done(id) && OneWritten(db, after, id, data.columns)
  {
    assert Rewrite(now, data) == data;
    if id in db.rows { assert Apply(db, id, data) == Some(WriteRow(db, id, data.columns)); }
  }

  /** An upsert updates the row it finds in scope and not deleted, and otherwise adds one. */
  lemma UpsertIs(db: Db, q: Request)
    requires q.op.Upsert? && q.op.data.rels == NoRels
    ensures var ((after, out), id) := (Step(db, q), q.op.id);
            if Reachable(db, q.scope, id) && Undeleted(db.rows[id])
            then out == Done(id) && OneWritten(db, after, id, q.op.data.columns)
            else out == Done(db.next) && OneAdded(db, after, q.op.row)
  {
    FlatSent(db, q.now, q.op.id, q.op.data);
    ReachableIs(db, q.scope, q.op.id);
  }

  /** Created rows are numbered on from the last; no other row changes. */
  ghost predicate AllAdded(a: Db, b: Db, rows: seq<Row>) {
    && b.next == a.next + |rows|
    && (forall id: Id :: id in b.rows <==> id in a.rows || a.next <= id < b.next)
    && (forall id <- a.rows :: b.rows[id] == a.rows[id])
    && (forall k | 0 <= k < |rows| :: b.rows[a.next + k] == rows[k])
  }

  lemma CreatesAre(db: Db, q: Request)
    requires db.Valid() && (q.op.Create? || q.op.CreateMany?)
    ensures var (after, out) := Step(db, q);
            if q.op.Create? then out == Done(db.next) && OneAdded(db, after, q.op.row)
            else out == Count(|q.op.rows|) && AllAdded(db, after, q.op.rows)
  {
    if q.op.CreateMany? { AddedAllAre(db, q.op.rows); }
  }

  lemma {:induction false} AddedAllAre(db: Db, rows: seq<Row>)
    requires db.Valid()
    ensures AllAdded(db, AddedAll(db, rows), rows)
    decreases |rows|
  {
    if rows == [] {
    } else {
      var first, after := Added(db, rows[0]), AddedAll(db, rows);
      AddedAllAre(first, rows[1..]);
      forall k | 0 <= k < |rows| ensures after.rows[db.next + k] == rows[k] {
        if k > 0 { assert after.rows[first.next + (k - 1)] == rows[1..][k - 1]; }
      }
    }
  }
}

/** Each submission of a replace-set, read off the rows it leaves. */
module SubmissionAnswers {
  import opened Common
  import opened SoftDeleteColumns
  import opened SoftDeleteWrites
  import opened ReplaceSets
  import opened ReplaceSetProofs
  import opened UniqueColumns
  import opened UniqueProofs
  import opened WriteSpec


  /** How many of the first k have no id of their own. */
  function NewBefore(ids: seq<Option<Id>>, k: nat): nat
    requires k <= |ids|
  {
    if k == 0 then 0 else NewBefore(ids, k - 1) + if ids[k - 1].None? then 1 else 0
  }

  function IdsIn(submitted: seq<Submitted>): (ids: seq<Option<Id>>)
    ensures |ids| == |submitted| && forall i | 0 <= i < |ids| :: ids[i] == submitted[i].id
  {
    seq(|submitted|, i requires 0 <= i < |submitted| => submitted[i].id)
  }

  lemma {:induction false} NewAfterFirst(ids: seq<Option<Id>>, k: nat)
    requires 0 < k <= |ids|
    ensures NewBefore(ids, k) == (if ids[0].None? then 1 else 0) + NewBefore(ids[1..], k - 1)
  {
    if k == 1 {
    } else {
      NewAfterFirst(ids, k - 1);
      assert ids[1..][k - 2] == ids[k - 1];
    }
  }

  lemma {:induction false} NewColumnsAt(submitted: seq<Submitted>, k: nat)
    requires k <= |submitted|
    ensures NewBefore(IdsIn(submitted), |submitted|) == |NewColumns(submitted)|
    ensures k < |submitted| && submitted[k].id.None? ==>
              NewBefore(IdsIn(submitted), k) < |NewColumns(submitted)|
              && NewColumns(submitted)[NewBefore(IdsIn(submitted), k)] == submitted[k].columns
  {
    if submitted == [] {
    } else {
      var ids, rest := IdsIn(submitted), submitted[1..];
      assert ids[1..] == IdsIn(rest);
      NewAfterFirst(ids, |submitted|);
      if k > 0 {
        NewAfterFirst(ids, k);
        NewColumnsAt(rest, k - 1);
        assert k < |submitted| ==> submitted[k] == rest[k - 1];
      } else {
        NewColumnsAt(rest, 0);
      }
    }
  }

  /** The children the submission leaves: those it names keep their row and take its columns,
      the others get new rows in order, and the current rows it does not name are deleted at
      `now`. Nothing else is written. */
  ghost predicate SetStored(now: int, db: Db, after: Db, p: Id, f: string, current: seq<Id>, ids: seq<Option<Id>>,
      columns: seq<Columns>)
    requires |ids| == |columns|
  {
    && after.next == db.next + NewBefore(ids, |ids|)
    && (forall id: Id :: id in after.rows <==> id in db.rows || db.next <= id < after.next)
    && (forall k | 0 <= k < |ids| :: ChildStored(db, after, p, f, ids, columns[k], k))
    && (forall id <- db.rows :: Some(id) !in ids ==>
          if id in current then Overwritten(db.rows[id], after.rows[id], map["deletedAt" := At(now)])
          else after.rows[id] == db.rows[id])
    && (forall id <- after.rows :: after.rows[id].parent == p && after.rows[id].rel == f ==>
          (Undeleted(after.rows[id]) <==> Some(id) in ids || db.next <= id))
  }

  ghost predicate ChildStored(db: Db, after: Db, p: Id, f: string, ids: seq<Option<Id>>, columns: Columns, k: nat)
    requires k < |ids|
  {
    match ids[k]
    case Some(id) => id in db.rows && id in after.rows && Overwritten(db.rows[id], after.rows[id], columns)
    case None =>
      var id := db.next + NewBefore(ids, k);
      id in after.rows && after.rows[id] == Row(p, f, columns)
  }

  lemma StoredIs(now: int, db: Db, after: Db, p: Id, f: string, current: seq<Id>, submitted: seq<Submitted>)
    requires Replaced(now, db, after, p, f, current, submitted)
    requires db.Valid() && IdsOf(submitted) <= (set id <- current) && ListsLive(db, p, f, current)
    ensures var columns := Map(submitted, (s: Submitted) => s.columns);
            SetStored(now, db, after, p, f, current, IdsIn(submitted), columns)
  {
    var ids, columns := IdsIn(submitted), Map(submitted, (s: Submitted) => s.columns);
    NewColumnsAt(submitted, 0);
    forall id: Id ensures Some(id) in ids <==> id in IdsOf(submitted) {
      if id in IdsOf(submitted) { NamedAt(submitted, id); }
    }
    forall k | 0 <= k < |ids| ensures ChildStored(db, after, p, f, ids, columns[k], k) {
      ChildIs(now, db, after, p, f, current, submitted, k);
    }
    forall id <- db.rows | Some(id) !in ids
      ensures if id in current then Overwritten(db.rows[id], after.rows[id], map["deletedAt" := At(now)])
              else after.rows[id] == db.rows[id]
    {
      assert RowIs(after, id, if id in current then Write(db.rows[id], Stamp(now)) else db.rows[id]);
    }
    forall id <- after.rows | after.rows[id].parent == p && after.rows[id].rel == f
      ensures Undeleted(after.rows[id]) <==> Some(id) in ids || db.next <= id
    {
      assert LiveChild(after, p, f, id) <==> id in IdsOf(submitted) || db.next <= id < after.next;
    }
  }

  lemma ChildIs(now: int, db: Db, after: Db, p: Id, f: string, current: seq<Id>, submitted: seq<Submitted>, k: nat)
    requires k < |submitted| && RowsReplaced(now, db, after, p, f, current, submitted)
    requires IdsOf(submitted) <= (set id <- current) && ListsLive(db, p, f, current)
    ensures ChildStored(db, after, p, f, IdsIn(submitted), submitted[k].columns, k)
  {
    NewColumnsAt(submitted, k);
    assert submitted[k] in submitted;
    match submitted[k].id {
      case Some(id) =>
        assert id in IdsOf(submitted) && id in current && LiveChild(db, p, f, id);
        assert RowIs(after, id, Write(db.rows[id], submitted[k].columns));
      case None =>
        var id := db.next + NewBefore(IdsIn(submitted), k);
        assert RowIs(after, id, Row(p, f, submitted[k].columns));
    }
  }

  lemma NamedAt(submitted: seq<Submitted>, id: Id)
    requires id in IdsOf(submitted)
    ensures Some(id) in IdsIn(submitted)
  {
    var s :| s in submitted && s.id == Some(id);
    var k :| 0 <= k < |submitted| && submitted[k] == s;
    assert IdsIn(submitted)[k] == Some(id);
  }

  function TextColumn(s: Option<string>): Val { match s case Some(text) => Text(text) case None => Null }

  /** A variant's columns: a missing SKU, barcode or cost is null. */
  function VariantStored(v: VariantInput): Columns {
    map["name" := Text(v.name), "sku" := TextColumn(v.sku), "barcode" := TextColumn(v.barcode),
        "price" := Num(v.priceC), "cost" := match v.costC case Some(c) => Num(c) case None => Null]
  }

  function ModifierStored(m: ModifierInput): Columns {
    map["name" := Text(m.name), "priceDelta" := Num(m.priceDeltaC)]
  }

  function VariantId(v: VariantInput): Option<Id> { v.id }
  function ModifierId(m: ModifierInput): Option<Id> { m.id }

  lemma VariantColumnsAre(submitted: seq<VariantInput>)
    ensures IdsIn(Map(submitted, VariantColumns)) == Map(submitted, VariantId)
    ensures Map(Map(submitted, VariantColumns), (s: Submitted) => s.columns) == Map(submitted, VariantStored)
  {
    SameParts(submitted, VariantColumns, VariantId, VariantStored);
  }

  lemma ModifierColumnsAre(submitted: seq<ModifierInput>)
    ensures IdsIn(Map(submitted, ModifierColumns)) == Map(submitted, ModifierId)
    ensures Map(Map(submitted, ModifierColumns), (s: Submitted) => s.columns) == Map(submitted, ModifierStored)
  {
    SameParts(submitted, ModifierColumns, ModifierId, ModifierStored);
  }

  lemma SameParts<T>(inputs: seq<T>, whole: T -> Submitted, id: T -> Option<Id>, stored: T -> Columns)
    requires forall x: T <- inputs :: whole(x) == Submitted(id(x), stored(x))
    ensures IdsIn(Map(inputs, whole)) == Map(inputs, id)
    ensures Map(Map(inputs, whole), (s: Submitted) => s.columns) == Map(inputs, stored)
  {
    var all, columns := Map(inputs, whole), Map(Map(inputs, whole), (s: Submitted) => s.columns);
    forall i | 0 <= i < |inputs| ensures IdsIn(all)[i] == Map(inputs, id)[i] && columns[i] == Map(inputs, stored)[i] {
      assert all[i] == whole(inputs[i]);
    }
    assert |IdsIn(all)| == |Map(inputs, id)| && |columns| == |Map(inputs, stored)|;
  }

  /** What an accepted variant submission leaves, when the database takes it. */
  lemma VariantsStored(now: int, db: Db, product: Id, current: seq<Id>, submitted: seq<VariantInput>, after: Db)
    requires db.Valid() && ListsLive(db, product, "variants", current)
    requires BuildVariantReplaceSet(current, submitted).Accepted?
    requires var sent := RewriteNested(now, BuildVariantReplaceSet(current, submitted).value);
             OnlyWrites(sent) && ApplyChecked(db, product, "variants", IDENTIFIERS, sent) == Some(after)
    ensures SetStored(now, db, after, product, "variants", current,
                      Map(submitted, VariantId), Map(submitted, VariantStored))
  {
    VariantsReplaced(now, db, product, current, submitted);
    RefusedExactly(current, Map(submitted, VariantColumns));
    StoredIs(now, db, after, product, "variants", current, Map(submitted, VariantColumns));
    VariantColumnsAre(submitted);
  }

  /** What an accepted modifier submission leaves. */
  lemma ModifiersStored(now: int, db: Db, group: Id, current: seq<Id>, submitted: seq<ModifierInput>)
      returns (after: Db)
    requires db.Valid() && ListsLive(db, group, "modifiers", current)
    requires BuildModifierReplaceSet(current, submitted).Accepted?
    ensures var sent := RewriteNested(now, BuildModifierReplaceSet(current, submitted).value);
            ApplyNested(db, group, "modifiers", sent) == Some(after)
    ensures SetStored(now, db, after, group, "modifiers", current,
                      Map(submitted, ModifierId), Map(submitted, ModifierStored))
  {
    var sent := RewriteNested(now, BuildModifierReplaceSet(current, submitted).value);
    ModifiersReplaced(now, db, group, current, submitted);
    after := ApplyNested(db, group, "modifiers", sent).value;
    RefusedExactly(current, Map(submitted, ModifierColumns));
    StoredIs(now, db, after, group, "modifiers", current, Map(submitted, ModifierColumns));
    ModifierColumnsAre(submitted);
  }

  ghost predicate FirstUnknown(current: seq<Id>, ids: seq<Option<Id>>, k: nat)
    requires k < |ids|
  {
    && ids[k].Some? && ids[k].value !in current
    && forall j | 0 <= j < k :: ids[j].Some? ==> ids[j].value in current
  }

  /** Why a submission is refused: an id that is no current row's, the first of them reported, or
      an id given twice. */
  ghost predicate RefusalIs(out: Outcome<Nested>, current: seq<Id>, ids: seq<Option<Id>>) {
    var unknown := exists k | 0 <= k < |ids| :: ids[k].Some? && ids[k].value !in current;
    && (out.UnknownId? <==> unknown)
    && (out.UnknownId? ==> exists k | 0 <= k < |ids| :: FirstUnknown(current, ids, k) && ids[k] == Some(out.id))
    && (out.RepeatedId? <==> !unknown && !NoneTwice(ids))
  }

  lemma RefusedIs(current: seq<Id>, submitted: seq<Submitted>)
    ensures RefusalIs(BuildReplaceSet(current, submitted), current, IdsIn(submitted))
  {
    var ids, unknown := IdsIn(submitted), Filter(submitted, Unknown(current));
    RefusedExactly(current, submitted);
    RepeatsAre(submitted);
    UnknownAre(current, submitted);
    if unknown != [] {
      var k := FirstOf(submitted, Unknown(current));
      assert FirstUnknown(current, ids, k) && ids[k] == Some(unknown[0].id.value);
    }
  }

  lemma UnknownAre(current: seq<Id>, submitted: seq<Submitted>)
    ensures var ids := IdsIn(submitted);
            (exists k | 0 <= k < |ids| :: ids[k].Some? && ids[k].value !in current)
              <==> Filter(submitted, Unknown(current)) != []
  {
    var ids, unknown := IdsIn(submitted), Filter(submitted, Unknown(current));
    if unknown != [] {
      var k := FirstOf(submitted, Unknown(current));
      assert ids[k].Some?;
    }
    if k :| 0 <= k < |ids| && ids[k].Some? && ids[k].value !in current {
      FilterHas(submitted, Unknown(current), submitted[k]);
    }
  }

  lemma {:induction false} FirstOf<T>(s: seq<T>, p: T -> bool) returns (k: nat)
    requires Filter(s, p) != []
    ensures k < |s| && s[k] == Filter(s, p)[0] && p(s[k]) && forall j | 0 <= j < k :: !p(s[j])
  {
    if p(s[0]) {
      k := 0;
    } else {
      k := FirstOf(s[1..], p);
      k := k + 1;
    }
  }

  lemma {:induction false} RepeatsAre(submitted: seq<Submitted>)
    ensures DistinctTargets(LeavesOf(submitted)) <==> NoneTwice(IdsIn(submitted))
  {
    if submitted == [] {
    } else {
      var first, rest := submitted[0], submitted[1..];
      RepeatsAre(rest);
      assert IdsIn(submitted) == [first.id] + IdsIn(rest);
      NoneTwiceFirst(first.id, IdsIn(rest));
      if first.id.Some? {
        FirstDistinct(Leaf(first.id.value, first.columns), LeavesOf(rest));
        TargetsNamed(rest, first.id.value);
      }
    }
  }

  ghost predicate NoneTwice(ids: seq<Option<Id>>) {
    forall j, k | 0 <= j < k < |ids| :: ids[j].Some? ==> ids[j] != ids[k]
  }

  lemma NoneTwiceFirst(id: Option<Id>, ids: seq<Option<Id>>)
    ensures NoneTwice([id] + ids) <==> (id.Some? ==> id !in ids) && NoneTwice(ids)
  {
    var all := [id] + ids;
    if NoneTwice(all) {
      forall j, k | 0 <= j < k < |ids| ensures ids[j].Some? ==> ids[j] != ids[k] {
        assert all[j + 1] == ids[j] && all[k + 1] == ids[k];
      }
      if id in ids { var k :| 0 <= k < |ids| && ids[k] == id; assert all[0] == id && all[k + 1] == id; }
    }
  }

  lemma TargetsNamed(submitted: seq<Submitted>, id: Id)
    ensures Targets(LeavesOf(submitted), id) <==> Some(id) in IdsIn(submitted)
  {
    if Some(id) in IdsIn(submitted) {
      var k :| 0 <= k < |submitted| && IdsIn(submitted)[k] == Some(id);
      assert submitted[k] in submitted && Leaf(id, submitted[k].columns) in LeavesOf(submitted);
    }
    if Targets(LeavesOf(submitted), id) {
      var l :| l in LeavesOf(submitted) && l.id == id;
      assert Submitted(Some(l.id), l.columns) in submitted;
      NamedAt(submitted, id);
    }
  }

  lemma VariantsRefused(current: seq<Id>, submitted: seq<VariantInput>)
    ensures RefusalIs(BuildVariantReplaceSet(current, submitted), current, Map(submitted, VariantId))
  {
    RefusedIs(current, Map(submitted, VariantColumns));
    VariantColumnsAre(submitted);
  }

  lemma ModifiersRefused(current: seq<Id>, submitted: seq<ModifierInput>)
    ensures RefusalIs(BuildModifierReplaceSet(current, submitted), current, Map(submitted, ModifierId))
  {
    RefusedIs(current, Map(submitted, ModifierColumns));
    ModifierColumnsAre(submitted);
  }

  // ----- Links -----

  /** An undeleted row of the product's links that names the group. */
  ghost predicate LinksTo(db: Db, product: Id, g: Id) {
    exists id <- db.rows ::
      && db.rows[id].parent == product && db.rows[id].rel == "productModifierGroups" && Undeleted(db.rows[id])
      && Holds(db.rows[id].columns, "groupId", Num(g))
  }

  /** The groups linked after the diff, rewritten and applied or null, are the desired ones. */
  lemma LinksAre(now: int, db: Db, p: Id, links: seq<Link>, desired: seq<Id>) returns (after: Db)
    requires db.Valid() && ListsLinks(db, p, links) && OnePerGroup(db, p)
    ensures match LinkReplaceSet(links, desired)
            case None => after == db
            case Some(diff) => ApplyNested(db, p, "productModifierGroups", RewriteNested(now, diff)) == Some(after)
    ensures forall g: Id :: LinksTo(after, p, g) <==> g in desired
  {
    after := LinksSettle(now, db, p, links, desired);
    forall g: Id ensures LinksTo(after, p, g) <==> Linked(after, p, g) {
      LinksToIs(after, p, g);
    }
  }

  lemma LinksToIs(db: Db, p: Id, g: Id)
    ensures LinksTo(db, p, g) <==> Linked(db, p, g)
  {
    if LinksTo(db, p, g) {
      var id :| id in db.rows && db.rows[id].parent == p && db.rows[id].rel == "productModifierGroups"
                && Undeleted(db.rows[id]) && Holds(db.rows[id].columns, "groupId", Num(g));
      assert IsLink(db, p, id, g);
    }
  }
}
