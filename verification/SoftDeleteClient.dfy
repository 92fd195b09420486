/** The tenancy client's own mutations (the branches of runMutation in
    src/prisma/scoped-prisma.ts), against a store that really deletes. */
module SoftDeleteClient {
  import opened Common
  import opened SoftDeleteColumns
  import opened SoftDeleteWrites
  import opened WriteSpec

  /** `where` names one row by id in the single-row operations; a row's relation field stands
      for its model in the bulk ones. */
  datatype Op =
    | Create(row: Row)
    | CreateMany(rows: seq<Row>)
    | Change(id: Id, data: Data)
    | ChangeMany(model: string, where: Columns, columns: Columns)
    | Delete(id: Id)
    | DeleteMany(model: string, where: Columns)
    | Upsert(id: Id, data: Data, row: Row)

  datatype Outcome = Done(id: Id) | Count(n: nat) | NotFound | Failed

  /** A request, when it is made and the scope it runs in. */
  datatype Request = Request(now: int, scope: Columns, op: Op)

  /** The AND of the caller's where and the tenant scope. */
  predicate Target(r: Row, model: string, where: Columns, scope: Columns) {
    r.rel == model && Matches(r, where) && Matches(r, scope)
  }

  function Targets(db: Db, model: string, where: Columns, scope: Columns): set<Id> {
    set id | id in db.rows && Target(db.rows[id], model, where, scope)
  }

  function LiveTargets(db: Db, model: string, where: Columns, scope: Columns): set<Id> {
    set id | id in db.rows && Target(db.rows[id], model, where, scope) && Live(db.rows[id].columns)
  }

  predicate Found(db: Db, scope: Columns, id: Id) { id in db.rows && Matches(db.rows[id], scope) }

  function WriteAll(db: Db, ids: set<Id>, columns: Columns): Db {
    db.(rows := map id | id in db.rows :: if id in ids then Write(db.rows[id], columns) else db.rows[id])
  }

  function Added(db: Db, row: Row): Db { Db(db.rows[db.next := row], db.next + 1) }

  function AddedAll(db: Db, rows: seq<Row>): Db
    decreases |rows|
  {
    if rows == [] then db else AddedAll(Added(db, rows[0]), rows[1..])
  }

  function Applied(db: Db, id: Id, data: Data): (Db, Outcome) {
    var after := Apply(db, id, data);
    if after.None? then (db, Failed) else (after.value, Done(id))
  }

  /** One mutation of the client: deletes stamp, and delete and upsert look at live rows only. */
  function Step(db: Db, q: Request): (Db, Outcome) {
    match q.op
    case Create(row) => (Added(db, row), Done(db.next))
    case CreateMany(rows) => (AddedAll(db, rows), Count(|rows|))
    case Change(id, data) =>
      if !Found(db, q.scope, id) then (db, NotFound) else Applied(db, id, Rewrite(q.now, data))
    case ChangeMany(model, where, columns) =>
      var ids := Targets(db, model, where, q.scope);
      (WriteAll(db, ids, columns), Count(|ids|))
    case Delete(id) =>
      if !Found(db, q.scope, id) || !Live(db.rows[id].columns) then (db, NotFound)
      else (WriteAll(db, {id}, Stamp(q.now)), Done(id))
    case DeleteMany(model, where) =>
      var ids := LiveTargets(db, model, where, q.scope);
      (WriteAll(db, ids, Stamp(q.now)), Count(|ids|))
    case Upsert(id, data, row) =>
      if !Found(db, q.scope, id) || !Live(db.rows[id].columns) then (Added(db, row), Done(db.next))
      else Applied(db, id, Rewrite(q.now, data))
  }

  function Run(db: Db, qs: seq<Request>): Db
    decreases |qs|
  {
    if qs == [] then db else Run(Step(db, qs[0]).0, qs[1..])
  }

  function Outcomes(db: Db, qs: seq<Request>): seq<Outcome>
    decreases |qs|
  {
    if qs == [] then [] else [Step(db, qs[0]).1] + Outcomes(Step(db, qs[0]).0, qs[1..])
  }

  // ----- The reference: a store holding live rows only, which deletes them -----

  /** A row whose deletedAt is written by hand is gone as well. */
  function Plain(db: Db, q: Request): (Db, Outcome) {
    var (after, out) := match q.op
      case Create(row) => (Added(db, row), Done(db.next))
      case CreateMany(rows) => (AddedAll(db, rows), Count(|rows|))
      case Change(id, data) => if !Found(db, q.scope, id) then (db, NotFound) else Applied(db, id, data)
      case ChangeMany(model, where, columns) =>
        (WriteAll(db, Targets(db, model, where, q.scope), columns), Count(|Targets(db, model, where, q.scope)|))
      case Delete(id) => if !Found(db, q.scope, id) then (db, NotFound) else (db.(rows := db.rows - {id}), Done(id))
      case DeleteMany(model, where) =>
        var ids := Targets(db, model, where, q.scope);
        (db.(rows := db.rows - ids), Count(|ids|))
      case Upsert(id, data, row) =>
        if !Found(db, q.scope, id) then (Added(db, row), Done(db.next)) else Applied(db, id, data);
    (Visible(after), out)
  }

  function PlainRun(db: Db, qs: seq<Request>): Db
    decreases |qs|
  {
    if qs == [] then db else PlainRun(Plain(db, qs[0]).0, qs[1..])
  }

  function PlainOutcomes(db: Db, qs: seq<Request>): seq<Outcome>
    decreases |qs|
  {
    if qs == [] then [] else [Plain(db, qs[0]).1] + PlainOutcomes(Plain(db, qs[0]).0, qs[1..])
  }

  // ----- The client's loops -----

  class Client {
    var rows: map<Id, Row>
    var next: Id

    function Snapshot(): Db
      reads this
    {
      Db(rows, next)
    }

    method WriteEach(ids: set<Id>, columns: Columns)
      requires ids <= rows.Keys
      modifies this`rows
      ensures Snapshot() == WriteAll(old(Snapshot()), ids, columns)
    {
      var todo := ids;
      while todo != {}
        invariant todo <= ids && rows.Keys == old(rows).Keys
        invariant forall id <- rows ::
                    rows[id] == if id in ids && id !in todo then Write(old(rows)[id], columns) else old(rows)[id]
        decreases |todo|
      {
        var id :| id in todo;
        rows := rows[id := Write(rows[id], columns)];
        todo := todo - {id};
      }
    }

    method DeleteManyCall(now: int, scope: Columns, model: string, where: Columns) returns (count: nat)
      modifies this`rows
      ensures (Snapshot(), Count(count)) == Step(old(Snapshot()), Request(now, scope, DeleteMany(model, where)))
      ensures rows.Keys == old(rows).Keys
      ensures forall id <- rows ::
                if Picked(old(rows)[id], model, where, scope) && Undeleted(old(rows)[id])
                then Overwritten(old(rows)[id], rows[id], map["deletedAt" := At(now)])
                else rows[id] == old(rows)[id]
      ensures count
           == |set id | id in old(rows) && Picked(old(rows)[id], model, where, scope) && Undeleted(old(rows)[id])|
    {
      ghost var all := set id | id in rows && Picked(rows[id], model, where, scope) && Undeleted(rows[id]);
      var targets := LiveTargets(Snapshot(), model, where, scope);
      assert targets == all;
      WriteEach(targets, Stamp(now));
      return |targets|;
    }

    method UpdateManyCall(now: int, scope: Columns, model: string, where: Columns, columns: Columns)
        returns (count: nat)
      modifies this`rows
      ensures (Snapshot(), Count(count))
           == Step(old(Snapshot()), Request(now, scope, ChangeMany(model, where, columns)))
      ensures rows.Keys == old(rows).Keys
      ensures forall id <- rows ::
                if Picked(old(rows)[id], model, where, scope) then Overwritten(old(rows)[id], rows[id], columns)
                else rows[id] == old(rows)[id]
      ensures count == |set id | id in old(rows) && Picked(old(rows)[id], model, where, scope)|
    {
      ghost var all := set id | id in rows && Picked(rows[id], model, where, scope);
      var targets := Targets(Snapshot(), model, where, scope);
      assert targets == all;
      WriteEach(targets, columns);
      return |targets|;
    }
  }
}

/** The client is the deleting store, seen through its live rows. */
module SoftDeleteClientProofs {
  import opened Common
  import opened SoftDeleteColumns
  import opened SoftDeleteWrites
  import opened SoftDeleteFrames
  import opened SoftDeleteOrder
  import opened SoftDeleteWriteProofs
  import opened SoftDeleteErasure
  import opened SoftDeleteNames
  import opened SoftDeleteClient

  /** What a request needs for the two to agree. Deletes, bulk deletes and creates need
      nothing. An update must name a row that is not deleted, a bulk update must match none
      that is, and a tree of nested writes must be one the rewrite keeps the meaning of and must
      name only rows that are live at their turn, unless it is refused as it is sent as well. */
  predicate Careful(db: Db, q: Request) {
    match q.op
    case Change(id, data) => Found(db, q.scope, id) ==> Live(db.rows[id].columns) && CarefulTree(q.now, db, id, data)
    case Upsert(id, data, _) =>
      Found(db, q.scope, id) && Live(db.rows[id].columns) ==> CarefulTree(q.now, db, id, data)
    case ChangeMany(model, where, _) => Targets(db, model, where, q.scope) == LiveTargets(db, model, where, q.scope)
    case _ => true
  }

  predicate CarefulTree(now: int, db: Db, id: Id, data: Data) {
    Faithful(true, data) && (Acceptable(now, db, id, data) || Apply(db, id, Rewrite(now, data)).None?)
  }

  /** Every row the tree names is live when its turn comes; a tree that stamps by hand must be one
      the deleting store accepts. */
  predicate Acceptable(now: int, db: Db, id: Id, data: Data) {
    if Unstamped(data) then Stamping(true, now, db, id, data).Some? else Apply(Visible(db), id, data).Some?
  }

  lemma AcceptableIs(now: int, db: Db, id: Id, data: Data)
    ensures Acceptable(now, db, id, data) <==> Apply(Visible(db), id, data).Some?
  {
    if Unstamped(data) { AcceptedExactly(true, now, db, id, data); }
  }

  predicate CarefulRun(db: Db, qs: seq<Request>)
    decreases |qs|
  {
    qs != [] ==> Careful(db, qs[0]) && CarefulRun(Step(db, qs[0]).0, qs[1..])
  }

  lemma SimVisible(hard: Db, soft: Db)
    requires Sim(hard, soft)
    ensures Visible(hard) == Visible(soft)
  {}

  lemma TreeRefines(now: int, db: Db, id: Id, data: Data)
    requires db.Valid() && Faithful(true, data) && Apply(Visible(db), id, data).Some?
    ensures Apply(db, id, Rewrite(now, data)).Some?
    ensures Visible(Apply(db, id, Rewrite(now, data)).value) == Visible(Apply(Visible(db), id, data).value)
  {
    RewriteKeepsMeaning(now, Visible(db), db, id, data);
    SimVisible(Apply(Visible(db), id, data).value, Apply(db, id, Rewrite(now, data)).value);
  }

  lemma AppliedRefines(now: int, db: Db, id: Id, data: Data)
    requires db.Valid() && CarefulTree(now, db, id, data)
    ensures Applied(db, id, Rewrite(now, data)).1 == Applied(Visible(db), id, data).1
    ensures Visible(Applied(db, id, Rewrite(now, data)).0) == Visible(Applied(Visible(db), id, data).0)
  {
    VisibleTwice(db);
    AcceptableIs(now, db, id, data);
    if Apply(Visible(db), id, data).Some? { TreeRefines(now, db, id, data); }
  }

  /** Stamping rows hides them; what is left visible is what deleting them leaves. */
  lemma StampHides(now: int, db: Db, ids: set<Id>)
    ensures Visible(WriteAll(db, ids, Stamp(now))).rows == Visible(db).rows - ids
  {
    var after := WriteAll(db, ids, Stamp(now));
    forall id | id in db.rows && id in ids ensures !Live(after.rows[id].columns) {
      assert Stamp(now)[DELETED_AT] == At(now);
    }
  }

  lemma VisibleTargets(db: Db, model: string, where: Columns, scope: Columns)
    ensures Targets(Visible(db), model, where, scope) == LiveTargets(db, model, where, scope)
  {}

  lemma VisibleTwice(db: Db)
    ensures Visible(Visible(db)) == Visible(db)
  {}

  lemma BulkWriteVisible(db: Db, ids: set<Id>, columns: Columns)
    requires forall id <- ids :: id in db.rows && Live(db.rows[id].columns)
    ensures Visible(WriteAll(db, ids, columns)) == Visible(WriteAll(Visible(db), ids, columns))
  {}

  lemma AddRefines(db: Db, row: Row)
    ensures Visible(Added(db, row)) == Visible(Added(Visible(db), row))
  {}

  lemma {:induction false} AddAllRefines(db: Db, rows: seq<Row>)
    ensures Visible(AddedAll(db, rows)) == Visible(AddedAll(Visible(db), rows))
    decreases |rows|
  {
    if rows == [] {
      VisibleTwice(db);
    } else {
      AddRefines(db, rows[0]);
      AddAllRefines(Added(db, rows[0]), rows[1..]);
      AddAllRefines(Added(Visible(db), rows[0]), rows[1..]);
    }
  }

  lemma DeleteRefines(db: Db, q: Request)
    requires q.op.Delete? || q.op.DeleteMany?
    ensures Step(db, q).1 == Plain(Visible(db), q).1
    ensures Visible(Step(db, q).0) == Plain(Visible(db), q).0
  {
    VisibleTwice(db);
    match q.op {
      case Delete(id) =>
        StampHides(q.now, db, {id});
        LiveOnly(Visible(db), {id});
      case DeleteMany(model, where) =>
        VisibleTargets(db, model, where, q.scope);
        StampHides(q.now, db, LiveTargets(db, model, where, q.scope));
        LiveOnly(Visible(db), LiveTargets(db, model, where, q.scope));
    }
  }

  lemma LiveOnly(db: Db, gone: set<Id>)
    requires Visible(db) == db
    ensures Visible(db.(rows := db.rows - gone)) == db.(rows := db.rows - gone)
  {
    assert forall id <- db.rows :: id in Visible(db).rows;
  }

  /** Every careful request gives the answer, and leaves visible the rows, of the deleting store. */
  lemma StepRefines(db: Db, q: Request)
    requires db.Valid() && Careful(db, q)
    ensures Step(db, q).1 == Plain(Visible(db), q).1
    ensures Visible(Step(db, q).0) == Plain(Visible(db), q).0
  {
    VisibleTwice(db);
    match q.op {
      case Create(row) => AddRefines(db, row);
      case CreateMany(rows) => AddAllRefines(db, rows);
      case Change(id, data) =>
        if Found(db, q.scope, id) { AppliedRefines(q.now, db, id, data); }
      case ChangeMany(model, where, columns) =>
        VisibleTargets(db, model, where, q.scope);
        BulkWriteVisible(db, Targets(db, model, where, q.scope), columns);
      case Delete(_) => DeleteRefines(db, q);
      case DeleteMany(_, _) => DeleteRefines(db, q);
      case Upsert(id, data, row) =>
        AddRefines(db, row);
        if Found(db, q.scope, id) && Live(db.rows[id].columns) { AppliedRefines(q.now, db, id, data); }
    }
  }

  lemma {:induction false} AddedAllKeep(db: Db, rows: seq<Row>)
    requires db.Valid()
    ensures AddedAll(db, rows).Valid() && Keeps(db, AddedAll(db, rows))
    decreases |rows|
  {
    if rows == [] {
    } else {
      AddedAllKeep(Added(db, rows[0]), rows[1..]);
    }
  }

  lemma StepValid(db: Db, q: Request)
    requires db.Valid()
    ensures Step(db, q).0.Valid()
  {
    match q.op {
      case CreateMany(rows) => AddedAllKeep(db, rows);
      case Change(id, data) =>
        if Apply(db, id, Rewrite(q.now, data)).Some? { NothingReturns(db, id, Rewrite(q.now, data)); }
      case Upsert(id, data, _) =>
        if Apply(db, id, Rewrite(q.now, data)).Some? { NothingReturns(db, id, Rewrite(q.now, data)); }
      case _ =>
    }
  }

  /** The walk reaches every delete of the request's tree. */
  predicate Walked(q: Request) { q.op.Change? || q.op.Upsert? ==> DeletesWalked(q.op.data) }

  /** Then no row is erased or moved. */
  lemma StepKeeps(db: Db, q: Request)
    requires db.Valid() && Walked(q)
    ensures Keeps(db, Step(db, q).0)
  {
    match q.op {
      case CreateMany(rows) => AddedAllKeep(db, rows);
      case Change(id, data) =>
        if Apply(db, id, Rewrite(q.now, data)).Some? { RewriteErasesNothing(q.now, db, id, data); }
      case Upsert(id, data, _) =>
        if Apply(db, id, Rewrite(q.now, data)).Some? { RewriteErasesNothing(q.now, db, id, data); }
      case _ =>
    }
  }

  /** Over whole runs of careful requests nobody can tell the client from a store that really
      deletes: same answers, same visible rows, at every point. */
  lemma {:induction false} RunRefines(db: Db, qs: seq<Request>)
    requires db.Valid() && CarefulRun(db, qs)
    ensures Outcomes(db, qs) == PlainOutcomes(Visible(db), qs)
    ensures Visible(Run(db, qs)) == PlainRun(Visible(db), qs)
    decreases |qs|
  {
    if qs == [] {
    } else {
      StepRefines(db, qs[0]);
      StepValid(db, qs[0]);
      RunRefines(Step(db, qs[0]).0, qs[1..]);
    }
  }

  /** Over any run of requests, careful or not, whose deletes the walk reaches, nothing is
      erased. */
  lemma {:induction false} RunErasesNothing(db: Db, qs: seq<Request>)
    requires db.Valid() && forall q <- qs :: Walked(q)
    ensures Keeps(db, Run(db, qs))
    decreases |qs|
  {
    if qs == [] {
    } else {
      StepValid(db, qs[0]);
      StepKeeps(db, qs[0]);
      RunErasesNothing(Step(db, qs[0]).0, qs[1..]);
    }
  }

  /** And the condition is exact for an update: when it finds its row and its every entry hits
      one, it erases nothing if and only if the walk reaches its deletes. */
  lemma UpdateErasesExactly(db: Db, q: Request)
    requires db.Valid() && q.op.Change? && Found(db, q.scope, q.op.id)
    requires var sent := Rewrite(q.now, q.op.data);
             Apply(db, q.op.id, sent).Some? && Hits(db.rows.Keys, db, q.op.id, sent)
    ensures Keeps(db, Step(db, q).0) <==> Walked(q)
  {
    ErasesNothingExactly(q.now, db, q.op.id, q.op.data);
  }

  // ----- Where care is needed -----

  /** An update finds deleted rows too, and so does its tree: it answers as the deleting store
      exactly when the row it names in scope is not deleted, and its tree, unless refused as it
      is sent, names only rows that are live when their turn comes. */
  lemma UpdateAgreesExactly(db: Db, now: int, scope: Columns, id: Id, data: Data)
    requires db.Valid() && Faithful(true, data) && Unstamped(data)
    ensures var q := Request(now, scope, Change(id, data));
            (Step(db, q).1 == Plain(Visible(db), q).1
             <==> (Found(db, scope, id) ==>
                     && Live(db.rows[id].columns)
                     && (Apply(db, id, Rewrite(now, data)).Some? ==> Stamping(true, now, db, id, data).Some?)))
  {
    AcceptedExactly(true, now, db, id, data);
    if Apply(Visible(db), id, data).Some? { TreeRefines(now, db, id, data); }
  }

  /** The same for trees that stamp by hand, as long as they hold up where the row is live. */
  lemma ValidUpdateAgreesExactly(db: Db, now: int, scope: Columns, id: Id, data: Data)
    requires db.Valid() && (Found(db, scope, id) && Live(db.rows[id].columns) ==> CarefulTree(now, db, id, data))
    ensures var q := Request(now, scope, Change(id, data));
            (Step(db, q).1 == Plain(Visible(db), q).1 <==> (Found(db, scope, id) ==> Live(db.rows[id].columns)))
  {
    if Found(db, scope, id) && Live(db.rows[id].columns) { AppliedRefines(now, db, id, data); }
  }

  function WithVariants(o: Operation): Data { Data(map[], RelWrite("variants", [o], NoRels)) }

  /** A live product whose one variant is deleted. */
  function OneDeletedVariant(): Db {
    Db(map[0 := Row(9, "products", map[]), 1 := Row(0, "variants", Stamp(0))], 10)
  }

  /** An update of the product that deletes or renames that variant: the client accepts it,
      where the deleting store finds no such variant. */
  lemma DeletedChildAccepted(now: int, name: string)
    ensures var db, renaming := OneDeletedVariant(), Data(map["name" := Text(name)], NoRels);
            && db.Valid() && Live(db.rows[0].columns) && !Live(db.rows[1].columns)
            && forall o | o == Deleting([1]) || o == Updating([Update(1, renaming)]) ::
                 var q := Request(now, map[], Change(0, WithVariants(o)));
                 Faithful(true, WithVariants(o)) && Step(db, q).1 == Done(0) && Plain(Visible(db), q).1 == Failed
  {
    var db, renaming := OneDeletedVariant(), Data(map["name" := Text(name)], NoRels);
    assert Stamp(0)[DELETED_AT] == At(0);
    forall o | o == Deleting([1]) || o == Updating([Update(1, renaming)])
      ensures var q := Request(now, map[], Change(0, WithVariants(o)));
              Faithful(true, WithVariants(o)) && Step(db, q).1 == Done(0) && Plain(Visible(db), q).1 == Failed
    {
      var sent := Updating(if o.Deleting? then Stamps(now, [1]) else [Update(1, renaming)]);
      OneKeySent(now, o, renaming);
      OneKeyFaithful(o);
      if o.Deleting? { StampsStamp(now, db, 0, "variants", [1]); } else { RenameApplies(db, renaming); }
      AcceptedHereAlone(now, db, o, sent);
    }
  }

  lemma AcceptedHereAlone(now: int, db: Db, o: Operation, sent: Operation)
    requires RewriteNested(now, [o]) == [sent] && ApplyOperation(db, 0, "variants", sent).Some?
    requires o == Deleting([1]) || (o.Updating? && |o.updates| == 1 && o.updates[0].id == 1)
    requires LiveRow(db, 0) && !LiveRow(db, 1)
    ensures var q := Request(now, map[], Change(0, WithVariants(o)));
            Step(db, q).1 == Done(0) && Plain(Visible(db), q).1 == Failed
  {
    VariantsSent(now, o, sent);
    VariantsWritten(db, sent);
    NoneNamed(Visible(db), o);
    VariantsWritten(Visible(db), o);
  }

  lemma VariantsSent(now: int, o: Operation, sent: Operation)
    requires RewriteNested(now, [o]) == [sent]
    ensures Rewrite(now, WithVariants(o)) == WithVariants(sent)
  {
    assert RewriteRels(now, NoRels) == NoRels;
  }

  /** An update of the product's variants alone. */
  lemma VariantsWritten(db: Db, o: Operation)
    requires 0 in db.rows
    ensures Apply(db, 0, WithVariants(o)) == ApplyOperation(db, 0, "variants", o)
  {
    assert Write(db.rows[0], map[]) == db.rows[0] && WriteRow(db, 0, map[]) == db;
    OneOperation(db, 0, "variants", o);
    var after := ApplyOperation(db, 0, "variants", o);
    if after.Some? { assert ApplyRels(after.value, 0, NoRels) == after; }
    assert ApplyRels(db, 0, WithVariants(o).rels) == after;
  }

  lemma NoneNamed(db: Db, o: Operation)
    requires !db.IsChild(0, "variants", 1)
    requires o == Deleting([1]) || (o.Updating? && |o.updates| == 1 && o.updates[0].id == 1)
    ensures ApplyOperation(db, 0, "variants", o).None?
  {
    if o.Updating? { assert ApplyUpdate(db, 0, "variants", o.updates[0]).None?; }
  }

  lemma OneKeySent(now: int, o: Operation, renaming: Data)
    requires renaming.rels == NoRels && (o == Deleting([1]) || o == Updating([Update(1, renaming)]))
    ensures RewriteNested(now, [o]) == [Updating(if o.Deleting? then Stamps(now, [1]) else [Update(1, renaming)])]
  {
    var n := [o];
    assert n[1..] == [] && o in n;
    assert RewriteOperations(now, [], IdsDeleted(n), WheresDeleted(n)) == [];
    HasOne(o, DeleteKey);
    HasOne(o, UpdateKey);
    HasOne(o, DeleteManyKey);
    if o.Deleting? {
      assert o.Key() == DeleteKey && Has(n, DeleteKey) && !Has(n, UpdateKey) && !Has(n, DeleteManyKey);
      assert IdsDeleted(n) == [1] + IdsDeleted([]) == [1];
      assert RewriteOperation(now, o, IdsDeleted(n), WheresDeleted(n)) == [];
      assert RewriteOperations(now, n, IdsDeleted(n), WheresDeleted(n)) == [];
      assert AddedKeys(now, n) == [Updating(Stamps(now, [1]))];
    } else {
      var us := [Update(1, renaming)];
      assert IdsDeleted(n) == [] && Stamps(now, []) == [] && us[1..] == [] && RewriteUpdates(now, []) == [];
      assert Rewrite(now, renaming) == renaming && RewriteUpdates(now, us) == us && us + [] == us;
      assert RewriteOperations(now, n, IdsDeleted(n), WheresDeleted(n)) == [o];
      assert AddedKeys(now, n) == [];
    }
  }

  lemma OneKeyFaithful(o: Operation)
    requires o.Deleting? || (o.Updating? && forall u <- o.updates :: u.data.rels == NoRels)
    ensures Faithful(true, WithVariants(o))
  {
    var n := [o];
    assert LagAt(n, 0) == EVEN && FaithfulOperation(true, o) && Clear("variants", o, EVEN);
    assert InOrder("variants", n) && FaithfulNested(true, "variants", n);
    assert FaithfulRels(true, WithVariants(o).rels);
  }

  lemma RenameApplies(db: Db, renaming: Data)
    requires db.IsChild(0, "variants", 1) && renaming.rels == NoRels
    ensures ApplyOperation(db, 0, "variants", Updating([Update(1, renaming)])).Some?
  {
    var u := Update(1, renaming);
    var after := WriteRow(db, 1, renaming.columns);
    assert Apply(db, 1, renaming) == Some(after) && ApplyUpdate(db, 0, "variants", u) == Some(after);
    assert [u][1..] == [] && ApplyUpdates(after, 0, "variants", []) == Some(after);
  }

  /** A bulk update counts deleted rows too: its count is the deleting store's exactly when
      it matches none. */
  lemma BulkUpdateAgreesExactly(db: Db, now: int, scope: Columns, model: string, where: Columns, columns: Columns)
    ensures var q := Request(now, scope, ChangeMany(model, where, columns));
            (Step(db, q).1 == Plain(Visible(db), q).1
             <==> Targets(db, model, where, scope) == LiveTargets(db, model, where, scope))
  {
    VisibleTargets(db, model, where, scope);
    SubsetCount(LiveTargets(db, model, where, scope), Targets(db, model, where, scope));
  }

  lemma SubsetCount(a: set<Id>, b: set<Id>)
    requires a <= b
    ensures |a| == |b| <==> a == b
  {
    assert b == a + (b - a);
    assert |b| == |a| + |b - a|;
  }

  /** An update that clears deletedAt brings a deleted row back. */
  lemma UpdateRevives(now: int, id: Id, row: Row) returns (db: Db, q: Request)
    requires !Live(row.columns)
    ensures db.rows == map[id := row] && Visible(db).rows == map[]
    ensures q.op.Change? && Step(db, q).1 == Done(id) && id in Visible(Step(db, q).0).rows
    ensures Plain(Visible(db), q).1 == NotFound
  {
    db := Db(map[id := row], id + 1);
    var d := Data(map[DELETED_AT := Null], NoRels);
    q := Request(now, map[], Change(id, d));
    assert Found(db, map[], id);
    assert Rewrite(now, d) == d;
    var after := db.(rows := db.rows[id := Write(row, d.columns)]);
    assert Apply(db, id, d) == Some(after) && Live(after.rows[id].columns);
  }
}
