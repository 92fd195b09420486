/** When a store that really deletes accepts a tree of nested writes, told from tables that stamp. */
module SoftDeleteNames {
  import opened Common
  import opened SoftDeleteColumns
  import opened SoftDeleteWrites
  import opened SoftDeleteFrames
  import opened SoftDeleteOrder

  // ----- The tree in written order, stamping as it goes -----

  predicate LiveRow(db: Db, id: Id) { id in db.rows && Live(db.rows[id].columns) }

  /** Each delete stamps where it is written (and erases where the walk does not come), and every
      row that an update, a delete or a to-one entry names must be live when its turn comes; None
      is where one is not. */
  function Stamping(walked: bool, now: int, db: Db, id: Id, d: Data): Option<Db>
    decreases d, 0
  {
    if LiveRow(db, id) then StampingRels(walked, now, WriteRow(db, id, d.columns), id, d.rels) else None
  }

  function StampingRels(walked: bool, now: int, db: Db, p: Id, r: RelWrites): Option<Db>
    decreases r, 0
  {
    match r
    case NoRels => Some(db)
    case RelWrite(field, nested, rest) =>
      var after := StampingNested(walked, now, db, p, field, nested);
      if after.None? then None else StampingRels(walked, now, after.value, p, rest)
    case ToOneUpdate(_, where, data, rest) =>
      if !LiveRow(db, p) || !db.Reaches(p, where) then None else
      var after := Stamping(walked && where.Some?, now, db, db.rows[p].parent, data);
      if after.None? then None else StampingRels(walked, now, after.value, p, rest)
    case ToOneDelete(_, where, rest) =>
      if !LiveRow(db, p) || !db.Reaches(p, where) || !LiveRow(db, db.rows[p].parent) then None
      else StampingRels(walked, now, Gone(walked, now, db, db.rows[p].parent), p, rest)
    case Refused => None
  }

  function Gone(walked: bool, now: int, db: Db, id: Id): Db
    requires id in db.rows
  {
    if walked then WriteRow(db, id, Stamp(now)) else db.(rows := db.rows - {id})
  }

  function StampingNested(walked: bool, now: int, db: Db, p: Id, f: string, n: Nested): Option<Db>
    decreases n, 0
  {
    if n == [] then Some(db) else
    var after := StampingOperation(walked, now, db, p, f, n[0]);
    if after.None? then None else StampingNested(walked, now, after.value, p, f, n[1..])
  }

  function StampingOperation(walked: bool, now: int, db: Db, p: Id, f: string, o: Operation): Option<Db>
    decreases o, 0
  {
    match o
    case Creating(creates) => Some(CreateAll(db, p, f, creates))
    case Upserting(upserts) => StampingUpserts(now, db, p, f, upserts)
    case Updating(updates) => StampingUpdates(walked, now, db, p, f, updates)
    case Deleting(ids) => StampingDeletes(walked, now, db, p, f, ids)
    case UpdatingMany(bulk) => Some(UpdateManyAll(db, p, f, bulk))
    case DeletingMany(wheres) =>
      Some(if walked then UpdateManyAll(db, p, f, StampManys(now, wheres)) else DeleteManyAll(db, p, f, wheres))
  }

  function StampingUpdates(walked: bool, now: int, db: Db, p: Id, f: string, us: seq<Update>): Option<Db>
    decreases us, 0
  {
    if us == [] then Some(db) else
    var after := StampingUpdate(walked, now, db, p, f, us[0]);
    if after.None? then None else StampingUpdates(walked, now, after.value, p, f, us[1..])
  }

  function StampingUpdate(walked: bool, now: int, db: Db, p: Id, f: string, u: Update): Option<Db>
    decreases u, 0
  {
    if db.IsChild(p, f, u.id) then Stamping(walked, now, db, u.id, u.data) else None
  }

  function StampingUpserts(now: int, db: Db, p: Id, f: string, us: seq<Upsert>): Option<Db>
    decreases us, 0
  {
    if us == [] then Some(db) else
    var after := StampingUpsert(now, db, p, f, us[0]);
    if after.None? then None else StampingUpserts(now, after.value, p, f, us[1..])
  }

  /** An upsert that takes a deleted row for none; the walk does not enter it. */
  function StampingUpsert(now: int, db: Db, p: Id, f: string, u: Upsert): Option<Db>
    decreases u, 0
  {
    if db.IsChild(p, f, u.id) && LiveRow(db, u.id) then Stamping(false, now, db, u.id, u.data)
    else Some(AddRow(db, p, f, u.columns))
  }

  function StampingDeletes(walked: bool, now: int, db: Db, p: Id, f: string, ids: seq<Id>): Option<Db>
    decreases |ids|
  {
    if ids == [] then Some(db)
    else if !db.IsChild(p, f, ids[0]) || !LiveRow(db, ids[0]) then None
    else StampingDeletes(walked, now, Gone(walked, now, db, ids[0]), p, f, ids[1..])
  }

  // ----- Trees that leave deletedAt alone -----

  /** Columns that write no time to deletedAt. */
  predicate NoStamp(c: Columns) { DELETED_AT in c ==> c[DELETED_AT] == Null }

  /** No stamp is written by hand, and no updateMany may revive. */
  predicate Unstamped(d: Data)
    decreases d, 0
  {
    NoStamp(d.columns) && UnstampedRels(d.rels)
  }

  predicate UnstampedRels(r: RelWrites)
    decreases r, 0
  {
    match r
    case NoRels => true
    case RelWrite(_, nested, rest) => UnstampedNested(nested) && UnstampedRels(rest)
    case ToOneUpdate(_, _, data, rest) => Unstamped(data) && UnstampedRels(rest)
    case ToOneDelete(_, _, rest) => UnstampedRels(rest)
    case Refused => true
  }

  predicate UnstampedNested(n: Nested)
    decreases n, 0
  {
    forall o <- n :: UnstampedOperation(o)
  }

  predicate UnstampedOperation(o: Operation)
    decreases o, 0
  {
    match o
    case Creating(creates) => forall c <- creates :: NoStamp(c)
    case Upserting(upserts) => forall u <- upserts :: NoStamp(u.columns) && Unstamped(u.data)
    case Updating(updates) => forall u <- updates :: Unstamped(u.data)
    case UpdatingMany(bulk) => forall u <- bulk :: NoStamp(u.columns) && Harmless(u)
    case _ => true
  }

  // ----- The deleting store is the live part of it -----

  /** Both fail, or both succeed and the one is the live part of the other. */
  ghost predicate SeenAs(hard: Option<Db>, soft: Option<Db>) {
    if soft.None? then hard.None? else hard == Some(Visible(soft.value))
  }

  lemma VisibleWrite(db: Db, id: Id, columns: Columns)
    requires LiveRow(db, id) && NoStamp(columns)
    ensures Visible(WriteRow(db, id, columns)) == WriteRow(Visible(db), id, columns)
  {
    assert Visible(WriteRow(db, id, columns)).rows == WriteRow(Visible(db), id, columns).rows;
  }

  lemma VisibleGone(walked: bool, now: int, db: Db, id: Id)
    requires id in db.rows
    ensures Visible(Gone(walked, now, db, id)) == Visible(db).(rows := Visible(db).rows - {id})
  {
    StampOnly(now, db.rows[id]);
    assert Visible(Gone(walked, now, db, id)).rows == Visible(db).rows - {id};
  }

  lemma {:induction false} VisibleCreates(db: Db, p: Id, f: string, creates: seq<Columns>)
    requires forall c <- creates :: NoStamp(c)
    ensures CreateAll(Visible(db), p, f, creates) == Visible(CreateAll(db, p, f, creates))
    decreases |creates|
  {
    if creates == [] {
    } else {
      VisibleAdd(db, p, f, creates[0]);
      VisibleCreates(AddRow(db, p, f, creates[0]), p, f, creates[1..]);
    }
  }

  lemma VisibleAdd(db: Db, p: Id, f: string, c: Columns)
    requires NoStamp(c)
    ensures AddRow(Visible(db), p, f, c) == Visible(AddRow(db, p, f, c))
  {
    assert AddRow(Visible(db), p, f, c).rows == Visible(AddRow(db, p, f, c)).rows;
  }

  lemma {:induction false} VisibleDeletes(walked: bool, now: int, db: Db, p: Id, f: string, ids: seq<Id>)
    ensures SeenAs(DeleteAll(Visible(db), p, f, ids), StampingDeletes(walked, now, db, p, f, ids))
    decreases |ids|
  {
    if ids == [] {
    } else if db.IsChild(p, f, ids[0]) && LiveRow(db, ids[0]) {
      VisibleGone(walked, now, db, ids[0]);
      VisibleDeletes(walked, now, Gone(walked, now, db, ids[0]), p, f, ids[1..]);
    }
  }

  lemma {:induction false} VisibleUpdateManys(db: Db, p: Id, f: string, us: seq<UpdateMany>)
    requires forall u <- us :: NoStamp(u.columns) && Harmless(u)
    ensures UpdateManyAll(Visible(db), p, f, us) == Visible(UpdateManyAll(db, p, f, us))
    decreases |us|
  {
    if us == [] {
    } else {
      VisibleUpdateMany(db, p, f, us[0]);
      VisibleUpdateManys(UpdateManyRows(db, p, f, us[0]), p, f, us[1..]);
    }
  }

  lemma AsLiveAsBefore(r: Row, u: UpdateMany)
    requires NoStamp(u.columns) && Harmless(u) && Matches(r, u.where)
    ensures Live(Write(r, u.columns).columns) <==> Live(r.columns)
  {
    if !Live(r.columns) { StaysDead(r, u); }
  }

  lemma UpdatedRow(db: Db, p: Id, f: string, u: UpdateMany, id: Id)
    requires NoStamp(u.columns) && Harmless(u)
    ensures LiveRow(UpdateManyRows(db, p, f, u), id) <==> LiveRow(db, id)
    ensures LiveRow(db, id) ==> UpdateManyRows(Visible(db), p, f, u).rows[id] == UpdateManyRows(db, p, f, u).rows[id]
  {
    if id in db.rows && Matches(db.rows[id], u.where) { AsLiveAsBefore(db.rows[id], u); }
  }

  lemma VisibleUpdateMany(db: Db, p: Id, f: string, u: UpdateMany)
    requires NoStamp(u.columns) && Harmless(u)
    ensures UpdateManyRows(Visible(db), p, f, u) == Visible(UpdateManyRows(db, p, f, u))
  {
    var a, b := UpdateManyRows(Visible(db), p, f, u), Visible(UpdateManyRows(db, p, f, u));
    forall id ensures (id in a.rows <==> id in b.rows) && (id in a.rows ==> a.rows[id] == b.rows[id]) {
      UpdatedRow(db, p, f, u, id);
      assert id in a.rows <==> LiveRow(db, id);
      assert id in b.rows <==> LiveRow(UpdateManyRows(db, p, f, u), id);
    }
    assert a.rows == b.rows;
  }

  lemma VisibleDeleteManys(walked: bool, now: int, db: Db, p: Id, f: string, wheres: seq<Columns>)
    ensures DeleteManyAll(Visible(db), p, f, wheres)
         == Visible(if walked then UpdateManyAll(db, p, f, StampManys(now, wheres))
                    else DeleteManyAll(db, p, f, wheres))
  {
    var a := DeleteManyAll(Visible(db), p, f, wheres);
    DeleteManysLeave(Visible(db), p, f, wheres);
    if walked {
      var b := UpdateManyAll(db, p, f, StampManys(now, wheres));
      StampManysStamp(now, db, p, f, wheres);
      forall id
        ensures (id in a.rows <==> id in Visible(b).rows) && (id in a.rows ==> a.rows[id] == Visible(b).rows[id])
      {
        assert id in db.rows ==>
               StampedIf(db.IsChild(p, f, id) && MatchesAny(db.rows[id], wheres), db.rows[id], b.rows[id]);
      }
      assert a.rows == Visible(b).rows;
    } else {
      DeleteManysLeave(db, p, f, wheres);
      assert a.rows == Visible(DeleteManyAll(db, p, f, wheres)).rows;
    }
  }

  /** The deleting store takes a tree exactly when every row it names is live at its turn, and
      then holds the live part of the stamped tables. */
  lemma {:induction false} AcceptedExactly(walked: bool, now: int, db: Db, id: Id, d: Data)
    requires Unstamped(d)
    ensures SeenAs(Apply(Visible(db), id, d), Stamping(walked, now, db, id, d))
    decreases d, 0
  {
    if LiveRow(db, id) {
      VisibleWrite(db, id, d.columns);
      RelsAccepted(walked, now, WriteRow(db, id, d.columns), id, d.rels);
    }
  }

  lemma {:induction false} RelsAccepted(walked: bool, now: int, db: Db, p: Id, r: RelWrites)
    requires UnstampedRels(r)
    ensures SeenAs(ApplyRels(Visible(db), p, r), StampingRels(walked, now, db, p, r))
    decreases r, 0
  {
    match r {
      case NoRels =>
      case RelWrite(field, nested, rest) =>
        NestedAccepted(walked, now, db, p, field, nested);
        var after := StampingNested(walked, now, db, p, field, nested);
        if after.Some? { RelsAccepted(walked, now, after.value, p, rest); }
      case ToOneUpdate(_, where, data, rest) =>
        if LiveRow(db, p) && db.Reaches(p, where) {
          var q := db.rows[p].parent;
          AcceptedExactly(walked && where.Some?, now, db, q, data);
          var after := Stamping(walked && where.Some?, now, db, q, data);
          if after.Some? { RelsAccepted(walked, now, after.value, p, rest); }
        }
      case ToOneDelete(_, where, rest) =>
        if LiveRow(db, p) && db.Reaches(p, where) && LiveRow(db, db.rows[p].parent) {
          VisibleGone(walked, now, db, db.rows[p].parent);
          RelsAccepted(walked, now, Gone(walked, now, db, db.rows[p].parent), p, rest);
        }
      case Refused =>
    }
  }

  lemma {:induction false} NestedAccepted(walked: bool, now: int, db: Db, p: Id, f: string, n: Nested)
    requires UnstampedNested(n)
    ensures SeenAs(ApplyNested(Visible(db), p, f, n), StampingNested(walked, now, db, p, f, n))
    decreases n, 0
  {
    if n == [] {
    } else {
      OperationAccepted(walked, now, db, p, f, n[0]);
      var after := StampingOperation(walked, now, db, p, f, n[0]);
      if after.Some? { NestedAccepted(walked, now, after.value, p, f, n[1..]); }
    }
  }

  lemma {:induction false} OperationAccepted(walked: bool, now: int, db: Db, p: Id, f: string, o: Operation)
    requires UnstampedOperation(o)
    ensures SeenAs(ApplyOperation(Visible(db), p, f, o), StampingOperation(walked, now, db, p, f, o))
    decreases o, 0
  {
    match o {
      case Creating(creates) => VisibleCreates(db, p, f, creates);
      case Upserting(upserts) => UpsertsAccepted(now, db, p, f, upserts);
      case Updating(updates) => UpdatesAccepted(walked, now, db, p, f, updates);
      case Deleting(ids) => VisibleDeletes(walked, now, db, p, f, ids);
      case UpdatingMany(bulk) => VisibleUpdateManys(db, p, f, bulk);
      case DeletingMany(wheres) => VisibleDeleteManys(walked, now, db, p, f, wheres);
    }
  }

  lemma {:induction false} UpdatesAccepted(walked: bool, now: int, db: Db, p: Id, f: string, us: seq<Update>)
    requires forall u <- us :: Unstamped(u.data)
    ensures SeenAs(ApplyUpdates(Visible(db), p, f, us), StampingUpdates(walked, now, db, p, f, us))
    decreases us, 0
  {
    if us == [] {
    } else {
      UpdateAccepted(walked, now, db, p, f, us[0]);
      var after := StampingUpdate(walked, now, db, p, f, us[0]);
      if after.Some? { UpdatesAccepted(walked, now, after.value, p, f, us[1..]); }
    }
  }

  lemma {:induction false} UpdateAccepted(walked: bool, now: int, db: Db, p: Id, f: string, u: Update)
    requires Unstamped(u.data)
    ensures SeenAs(ApplyUpdate(Visible(db), p, f, u), StampingUpdate(walked, now, db, p, f, u))
    decreases u, 0
  {
    AcceptedExactly(walked, now, db, u.id, u.data);
  }

  lemma {:induction false} UpsertsAccepted(now: int, db: Db, p: Id, f: string, us: seq<Upsert>)
    requires forall u <- us :: NoStamp(u.columns) && Unstamped(u.data)
    ensures SeenAs(ApplyUpserts(Visible(db), p, f, us), StampingUpserts(now, db, p, f, us))
    decreases us, 0
  {
    if us == [] {
    } else {
      UpsertAccepted(now, db, p, f, us[0]);
      var after := StampingUpsert(now, db, p, f, us[0]);
      if after.Some? { UpsertsAccepted(now, after.value, p, f, us[1..]); }
    }
  }

  lemma {:induction false} UpsertAccepted(now: int, db: Db, p: Id, f: string, u: Upsert)
    requires NoStamp(u.columns) && Unstamped(u.data)
    ensures SeenAs(ApplyUpsert(Visible(db), p, f, u), StampingUpsert(now, db, p, f, u))
    decreases u, 0
  {
    if db.IsChild(p, f, u.id) && LiveRow(db, u.id) {
      AcceptedExactly(false, now, db, u.id, u.data);
    } else {
      VisibleAdd(db, p, f, u.columns);
    }
  }
}
