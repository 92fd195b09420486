/** Nested writes through the tenancy client (src/prisma/scoped-prisma.ts): deletes and
    deleteManys become updates that stamp deletedAt, wherever the walk reaches them. */
module SoftDeleteWrites {
  import opened Common
  import opened SoftDeleteColumns

  datatype Data = Data(columns: Columns, rels: RelWrites)

  /** One nested-write object per relation field. A to-one update or delete may carry a
      condition on the row it reaches; `Refused` stands for arguments the database client
      rejects. */
  datatype RelWrites =
    | NoRels
    | RelWrite(field: string, nested: Nested, rest: RelWrites)
    | ToOneUpdate(field: string, where: Option<Columns>, data: Data, rest: RelWrites)
    | ToOneDelete(field: string, where: Option<Columns>, rest: RelWrites)
    | Refused

  /** A nested-write object: its keys in the order they are written, each with its entries. */
  type Nested = seq<Operation>

  datatype Operation =
    | Creating(creates: seq<Columns>)
    | Upserting(upserts: seq<Upsert>)
    | Updating(updates: seq<Update>)
    | Deleting(ids: seq<Id>)
    | UpdatingMany(bulk: seq<UpdateMany>)
    | DeletingMany(wheres: seq<Columns>)
  {
    function Key(): Key {
      match this
      case Creating(_) => CreateKey
      case Upserting(_) => UpsertKey
      case Updating(_) => UpdateKey
      case Deleting(_) => DeleteKey
      case UpdatingMany(_) => UpdateManyKey
      case DeletingMany(_) => DeleteManyKey
    }
  }

  datatype Key = CreateKey | UpsertKey | UpdateKey | DeleteKey | UpdateManyKey | DeleteManyKey

  datatype Update = Update(id: Id, data: Data)

  datatype Upsert = Upsert(id: Id, columns: Columns, data: Data)

  /** `where` is a conjunction of column equalities. */
  datatype UpdateMany = UpdateMany(where: Columns, columns: Columns)

  /** The key is one of the first k written. */
  predicate HasBefore(n: Nested, k: nat, key: Key)
    requires k <= |n|
  {
    k > 0 && (n[k - 1].Key() == key || HasBefore(n, k - 1, key))
  }

  predicate Has(n: Nested, key: Key) { HasBefore(n, |n|, key) }

  /** An object has each key once. */
  predicate KeysOnce(n: Nested) { forall i, j | 0 <= i < j < |n| :: n[i].Key() != n[j].Key() }

  function IdsDeleted(n: Nested): seq<Id> {
    if n == [] then [] else (if n[0].Deleting? then n[0].ids else []) + IdsDeleted(n[1..])
  }

  function WheresDeleted(n: Nested): seq<Columns> {
    if n == [] then [] else (if n[0].DeletingMany? then n[0].wheres else []) + WheresDeleted(n[1..])
  }

  // ----- The rewrite -----

  function Stamp(now: int): Columns { map[DELETED_AT := At(now)] }

  function Rewrite(now: int, d: Data): Data
    decreases d, 0
  {
    Data(d.columns, RewriteRels(now, d.rels))
  }

  /** A to-one update is walked only when written as { where, data }. A to-one delete becomes
      an update of its where; the bare `delete: true` becomes one of `where: true`, which is
      refused. */
  function RewriteRels(now: int, r: RelWrites): RelWrites
    decreases r, 0
  {
    match r
    case NoRels => NoRels
    case RelWrite(field, nested, rest) => RelWrite(field, RewriteNested(now, nested), RewriteRels(now, rest))
    case ToOneUpdate(field, where, data, rest) =>
      ToOneUpdate(field, where, if where.Some? then Rewrite(now, data) else data, RewriteRels(now, rest))
    case ToOneDelete(field, where, rest) =>
      if where.None? then Refused else ToOneUpdate(field, where, Data(Stamp(now), NoRels), RewriteRels(now, rest))
    case Refused => Refused
  }

  /** The keys `delete` and `deleteMany` go. Their stamps join the entries of `update` and
      `updateMany` where those are written, or make a new last key where they are not. */
  function RewriteNested(now: int, n: Nested): Nested
    decreases n, 1
  {
    RewriteOperations(now, n, IdsDeleted(n), WheresDeleted(n)) + AddedKeys(now, n)
  }

  function AddedKeys(now: int, n: Nested): Nested {
    (if Has(n, DeleteKey) && !Has(n, UpdateKey) then [Updating(Stamps(now, IdsDeleted(n)))] else [])
    + (if Has(n, DeleteManyKey) && !Has(n, UpdateManyKey) then [UpdatingMany(StampManys(now, WheresDeleted(n)))]
       else [])
  }

  function RewriteOperations(now: int, n: Nested, ids: seq<Id>, wheres: seq<Columns>): Nested
    decreases n, 0
  {
    if n == [] then []
    else RewriteOperation(now, n[0], ids, wheres) + RewriteOperations(now, n[1..], ids, wheres)
  }

  /** Upserts are left as they are, data and all. */
  function RewriteOperation(now: int, o: Operation, ids: seq<Id>, wheres: seq<Columns>): Nested
    decreases o, 0
  {
    match o
    case Updating(updates) => [Updating(RewriteUpdates(now, updates) + Stamps(now, ids))]
    case UpdatingMany(bulk) => [UpdatingMany(bulk + StampManys(now, wheres))]
    case Deleting(_) => []
    case DeletingMany(_) => []
    case _ => [o]
  }

  function RewriteUpdates(now: int, us: seq<Update>): seq<Update>
    decreases us, 0
  {
    if us == [] then [] else [RewriteUpdate(now, us[0])] + RewriteUpdates(now, us[1..])
  }

  function RewriteUpdate(now: int, u: Update): Update
    decreases u, 0
  {
    Update(u.id, Rewrite(now, u.data))
  }

  function Stamps(now: int, ids: seq<Id>): seq<Update> {
    if ids == [] then [] else [Update(ids[0], Data(Stamp(now), NoRels))] + Stamps(now, ids[1..])
  }

  function StampManys(now: int, wheres: seq<Columns>): seq<UpdateMany> {
    if wheres == [] then [] else [UpdateMany(wheres[0], Stamp(now))] + StampManys(now, wheres[1..])
  }

  // ----- Table semantics -----

  /** A row hangs off one parent row through one relation field; a to-one relation of a row
      reaches that parent. */
  datatype Row = Row(parent: Id, rel: string, columns: Columns)

  /** Created rows take their ids from `next`. */
  datatype Db = Db(rows: map<Id, Row>, next: Id) {
    ghost predicate Valid() { forall id <- rows :: id < next }

    predicate IsChild(p: Id, f: string, id: Id) { id in rows && rows[id].parent == p && rows[id].rel == f }

    /** The row a to-one relation of row p reaches, if it is there and meets the condition. */
    predicate Reaches(p: Id, where: Option<Columns>) {
      p in rows && rows[p].parent in rows && (where.Some? ==> Matches(rows[rows[p].parent], where.value))
    }
  }

  /** The rows that are not deleted, which is all a scoped read can return. */
  function Visible(db: Db): Db { db.(rows := map id | id in db.rows && Live(db.rows[id].columns) :: db.rows[id]) }

  predicate Meets(columns: Columns, where: Columns) { forall c <- where :: ValueOf(columns, c) == where[c] }

  predicate Matches(r: Row, where: Columns) { Meets(r.columns, where) }

  function Write(r: Row, columns: Columns): Row { r.(columns := r.columns + columns) }

  function WriteRow(db: Db, id: Id, columns: Columns): Db
    requires id in db.rows
  {
    db.(rows := db.rows[id := Write(db.rows[id], columns)])
  }

  function AddRow(db: Db, p: Id, f: string, columns: Columns): Db {
    Db(db.rows[db.next := Row(p, f, columns)], db.next + 1)
  }

  function CreateAll(db: Db, p: Id, f: string, creates: seq<Columns>): Db
    decreases |creates|
  {
    if creates == [] then db else CreateAll(AddRow(db, p, f, creates[0]), p, f, creates[1..])
  }

  /** Deleting a row that is not a child of the parent fails the whole write. */
  function DeleteAll(db: Db, p: Id, f: string, ids: seq<Id>): Option<Db>
    decreases |ids|
  {
    if ids == [] then Some(db)
    else if !db.IsChild(p, f, ids[0]) then None
    else DeleteAll(db.(rows := db.rows - {ids[0]}), p, f, ids[1..])
  }

  function UpdateManyRows(db: Db, p: Id, f: string, u: UpdateMany): Db {
    db.(rows := map id | id in db.rows ::
                  if db.IsChild(p, f, id) && Matches(db.rows[id], u.where)
                  then Write(db.rows[id], u.columns) else db.rows[id])
  }

  function UpdateManyAll(db: Db, p: Id, f: string, us: seq<UpdateMany>): Db
    decreases |us|
  {
    if us == [] then db else UpdateManyAll(UpdateManyRows(db, p, f, us[0]), p, f, us[1..])
  }

  function DeleteManyRows(db: Db, p: Id, f: string, where: Columns): Db {
    db.(rows := map id | id in db.rows && !(db.IsChild(p, f, id) && Matches(db.rows[id], where)) :: db.rows[id])
  }

  function DeleteManyAll(db: Db, p: Id, f: string, wheres: seq<Columns>): Db
    decreases |wheres|
  {
    if wheres == [] then db else DeleteManyAll(DeleteManyRows(db, p, f, wheres[0]), p, f, wheres[1..])
  }

  /** Writing `data` to row `id`; None is a failed, rolled-back write. */
  function Apply(db: Db, id: Id, data: Data): Option<Db>
    decreases data, 0
  {
    if id !in db.rows then None else ApplyRels(WriteRow(db, id, data.columns), id, data.rels)
  }

  function ApplyRels(db: Db, p: Id, r: RelWrites): Option<Db>
    decreases r, 0
  {
    match r
    case NoRels => Some(db)
    case RelWrite(field, nested, rest) =>
      var after := ApplyNested(db, p, field, nested);
      if after.None? then None else ApplyRels(after.value, p, rest)
    case ToOneUpdate(_, where, data, rest) =>
      if !db.Reaches(p, where) then None else
      var after := Apply(db, db.rows[p].parent, data);
      if after.None? then None else ApplyRels(after.value, p, rest)
    case ToOneDelete(_, where, rest) =>
      if !db.Reaches(p, where) then None else ApplyRels(db.(rows := db.rows - {db.rows[p].parent}), p, rest)
    case Refused => None
  }

  /** One operation after another, as written. */
  function ApplyNested(db: Db, p: Id, f: string, n: Nested): Option<Db>
    decreases n, 0
  {
    if n == [] then Some(db) else
    var after := ApplyOperation(db, p, f, n[0]);
    if after.None? then None else ApplyNested(after.value, p, f, n[1..])
  }

  function ApplyOperation(db: Db, p: Id, f: string, o: Operation): Option<Db>
    decreases o, 0
  {
    match o
    case Creating(creates) => Some(CreateAll(db, p, f, creates))
    case Upserting(upserts) => ApplyUpserts(db, p, f, upserts)
    case Updating(updates) => ApplyUpdates(db, p, f, updates)
    case Deleting(ids) => DeleteAll(db, p, f, ids)
    case UpdatingMany(bulk) => Some(UpdateManyAll(db, p, f, bulk))
    case DeletingMany(wheres) => Some(DeleteManyAll(db, p, f, wheres))
  }

  function ApplyUpdates(db: Db, p: Id, f: string, us: seq<Update>): Option<Db>
    decreases us, 0
  {
    if us == [] then Some(db) else
    var after := ApplyUpdate(db, p, f, us[0]);
    if after.None? then None else ApplyUpdates(after.value, p, f, us[1..])
  }

  /** Updating a row that is not a child of the parent fails the whole write. */
  function ApplyUpdate(db: Db, p: Id, f: string, u: Update): Option<Db>
    decreases u, 0
  {
    if db.IsChild(p, f, u.id) then Apply(db, u.id, u.data) else None
  }

  function ApplyUpserts(db: Db, p: Id, f: string, us: seq<Upsert>): Option<Db>
    decreases us, 0
  {
    if us == [] then Some(db) else
    var after := ApplyUpsert(db, p, f, us[0]);
    if after.None? then None else ApplyUpserts(after.value, p, f, us[1..])
  }

  function ApplyUpsert(db: Db, p: Id, f: string, u: Upsert): Option<Db>
    decreases u, 0
  {
    if db.IsChild(p, f, u.id) then Apply(db, u.id, u.data) else Some(AddRow(db, p, f, u.columns))
  }
}

/** What a nested write can do to the rows of a table, whatever it holds. */
module SoftDeleteFrames {
  import opened Common
  import opened SoftDeleteColumns
  import opened SoftDeleteWrites

  // ----- Keys -----

  lemma {:induction false} HasBeforeExactly(n: Nested, k: nat, key: Key)
    requires k <= |n|
    ensures HasBefore(n, k, key) <==> exists i :: 0 <= i < k && n[i].Key() == key
    decreases k
  {
    if k == 0 {
    } else {
      HasBeforeExactly(n, k - 1, key);
    }
  }

  lemma HasExactly(n: Nested, key: Key)
    ensures Has(n, key) <==> exists o <- n :: o.Key() == key
  {
    HasBeforeExactly(n, |n|, key);
    if o :| o in n && o.Key() == key { var i :| 0 <= i < |n| && n[i] == o; }
  }

  lemma {:induction false} HasPrefix(n: Nested, k: nat, key: Key)
    requires k <= |n|
    ensures Has(n[..k], key) <==> HasBefore(n, k, key)
  {
    HasBeforeExactly(n[..k], k, key);
    HasBeforeExactly(n, k, key);
    assert forall i | 0 <= i < k :: n[..k][i] == n[i];
  }

  lemma HasTogether(a: Nested, b: Nested, key: Key)
    ensures Has(a + b, key) <==> Has(a, key) || Has(b, key)
  {
    HasExactly(a + b, key);
    HasExactly(a, key);
    HasExactly(b, key);
    assert forall o :: o in a + b <==> o in a || o in b;
  }

  lemma HasOne(o: Operation, key: Key)
    ensures Has([o], key) <==> o.Key() == key
  {
    assert HasBefore([o], 1, key) <==> [o][0].Key() == key || HasBefore([o], 0, key);
  }

  // ----- One list after another -----

  lemma {:induction false} OperationsInTurn(db: Db, p: Id, f: string, a: Nested, b: Nested)
    ensures var mid := ApplyNested(db, p, f, a);
            ApplyNested(db, p, f, a + b) == if mid.None? then None else ApplyNested(mid.value, p, f, b)
    decreases |a|
  {
    if a == [] {
      assert a + b == b;
    } else {
      assert (a + b)[0] == a[0] && (a + b)[1..] == a[1..] + b;
      var first := ApplyOperation(db, p, f, a[0]);
      if first.Some? { OperationsInTurn(first.value, p, f, a[1..], b); }
    }
  }

  lemma {:induction false} RewriteInParts(now: int, a: Nested, b: Nested, ids: seq<Id>, wheres: seq<Columns>)
    ensures RewriteOperations(now, a + b, ids, wheres)
         == RewriteOperations(now, a, ids, wheres) + RewriteOperations(now, b, ids, wheres)
    decreases |a|
  {
    if a == [] {
      assert a + b == b;
    } else {
      assert (a + b)[0] == a[0] && (a + b)[1..] == a[1..] + b;
      RewriteInParts(now, a[1..], b, ids, wheres);
    }
  }

  lemma OneRewritten(now: int, o: Operation, ids: seq<Id>, wheres: seq<Columns>)
    ensures RewriteOperations(now, [o], ids, wheres) == RewriteOperation(now, o, ids, wheres)
  {
    assert [o][1..] == [] && RewriteOperations(now, [], ids, wheres) == [];
  }

  lemma OneOperation(db: Db, p: Id, f: string, o: Operation)
    ensures ApplyNested(db, p, f, [o]) == ApplyOperation(db, p, f, o)
  {
    assert [o][1..] == [];
  }

  lemma {:induction false} UpdatesInTurn(db: Db, p: Id, f: string, a: seq<Update>, b: seq<Update>)
    ensures var mid := ApplyUpdates(db, p, f, a);
            ApplyUpdates(db, p, f, a + b) == if mid.None? then None else ApplyUpdates(mid.value, p, f, b)
    decreases |a|
  {
    if a == [] {
      assert a + b == b;
    } else {
      assert (a + b)[0] == a[0] && (a + b)[1..] == a[1..] + b;
      var first := ApplyUpdate(db, p, f, a[0]);
      if first.Some? { UpdatesInTurn(first.value, p, f, a[1..], b); }
    }
  }

  lemma {:induction false} UpdateManysInTurn(db: Db, p: Id, f: string, us: seq<UpdateMany>, vs: seq<UpdateMany>)
    ensures UpdateManyAll(db, p, f, us + vs) == UpdateManyAll(UpdateManyAll(db, p, f, us), p, f, vs)
    decreases |us|
  {
    if us == [] {
      assert us + vs == vs;
    } else {
      assert (us + vs)[0] == us[0] && (us + vs)[1..] == us[1..] + vs;
      UpdateManysInTurn(UpdateManyRows(db, p, f, us[0]), p, f, us[1..], vs);
    }
  }

  // ----- Nothing comes back -----

  /** Nothing comes back: rows afterwards were there before, under the same parent and field, or
      are newly numbered and hang off row p, a row there before or another new one. */
  ghost predicate Onward(a: Db, b: Db, p: Id) {
    && b.Valid() && a.next <= b.next
    && forall id <- b.rows :: if id in a.rows then b.rows[id].parent == a.rows[id].parent
                                                   && b.rows[id].rel == a.rows[id].rel
                              else a.next <= id && Known(a, p, b.rows[id].parent)
  }

  predicate Known(db: Db, p: Id, parent: Id) { parent == p || parent in db.rows || db.next <= parent }

  lemma OnwardTwice(a: Db, b: Db, c: Db, p: Id, q: Id)
    requires a.Valid() && Onward(a, b, p) && Onward(b, c, q) && Known(a, p, q)
    ensures Onward(a, c, p)
  {}

  lemma {:induction false} NothingReturns(db: Db, id: Id, d: Data)
    requires db.Valid() && Apply(db, id, d).Some?
    ensures Onward(db, Apply(db, id, d).value, id)
    decreases d, 0
  {
    OnwardRels(WriteRow(db, id, d.columns), id, d.rels);
  }

  lemma {:induction false} OnwardRels(db: Db, p: Id, r: RelWrites)
    requires db.Valid() && ApplyRels(db, p, r).Some?
    ensures Onward(db, ApplyRels(db, p, r).value, p)
    decreases r, 0
  {
    match r {
      case NoRels =>
      case RelWrite(field, nested, rest) =>
        var mid := ApplyNested(db, p, field, nested).value;
        OnwardNested(db, p, field, nested);
        OnwardRels(mid, p, rest);
        OnwardTwice(db, mid, ApplyRels(db, p, r).value, p, p);
      case ToOneUpdate(_, _, data, rest) =>
        var q := db.rows[p].parent;
        var mid := Apply(db, q, data).value;
        NothingReturns(db, q, data);
        OnwardRels(mid, p, rest);
        assert Onward(db, mid, p);
        OnwardTwice(db, mid, ApplyRels(db, p, r).value, p, p);
      case ToOneDelete(_, _, rest) => OnwardRels(db.(rows := db.rows - {db.rows[p].parent}), p, rest);
    }
  }

  lemma {:induction false} OnwardNested(db: Db, p: Id, f: string, n: Nested)
    requires db.Valid() && ApplyNested(db, p, f, n).Some?
    ensures Onward(db, ApplyNested(db, p, f, n).value, p)
    decreases n, 0
  {
    if n == [] {
    } else {
      var mid := ApplyOperation(db, p, f, n[0]).value;
      OnwardOperation(db, p, f, n[0]);
      OnwardNested(mid, p, f, n[1..]);
      OnwardTwice(db, mid, ApplyNested(db, p, f, n).value, p, p);
    }
  }

  lemma {:induction false} OnwardOperation(db: Db, p: Id, f: string, o: Operation)
    requires db.Valid() && ApplyOperation(db, p, f, o).Some?
    ensures Onward(db, ApplyOperation(db, p, f, o).value, p)
    decreases o, 0
  {
    match o {
      case Creating(creates) => OnwardCreates(db, p, f, creates);
      case Upserting(upserts) => OnwardUpserts(db, p, f, upserts);
      case Updating(updates) => OnwardUpdates(db, p, f, updates);
      case Deleting(ids) => OnwardDeletes(db, p, f, ids);
      case UpdatingMany(bulk) => UpdateManysKeep(db, p, f, bulk);
      case DeletingMany(wheres) => DeleteManysLeave(db, p, f, wheres);
    }
  }

  lemma {:induction false} OnwardCreates(db: Db, p: Id, f: string, creates: seq<Columns>)
    requires db.Valid()
    ensures Onward(db, CreateAll(db, p, f, creates), p) && Keeps(db, CreateAll(db, p, f, creates))
    decreases |creates|
  {
    if creates == [] {
    } else {
      OnwardCreates(AddRow(db, p, f, creates[0]), p, f, creates[1..]);
    }
  }

  lemma {:induction false} OnwardUpdates(db: Db, p: Id, f: string, us: seq<Update>)
    requires db.Valid() && ApplyUpdates(db, p, f, us).Some?
    ensures Onward(db, ApplyUpdates(db, p, f, us).value, p)
    decreases us, 0
  {
    if us == [] {
    } else {
      var mid := ApplyUpdate(db, p, f, us[0]).value;
      OnwardUpdate(db, p, f, us[0]);
      OnwardUpdates(mid, p, f, us[1..]);
      OnwardTwice(db, mid, ApplyUpdates(db, p, f, us).value, p, p);
    }
  }

  lemma {:induction false} OnwardUpdate(db: Db, p: Id, f: string, u: Update)
    requires db.Valid() && ApplyUpdate(db, p, f, u).Some?
    ensures Onward(db, ApplyUpdate(db, p, f, u).value, p)
    decreases u, 0
  {
    NothingReturns(db, u.id, u.data);
  }

  lemma {:induction false} OnwardUpserts(db: Db, p: Id, f: string, us: seq<Upsert>)
    requires db.Valid() && ApplyUpserts(db, p, f, us).Some?
    ensures Onward(db, ApplyUpserts(db, p, f, us).value, p)
    decreases us, 0
  {
    if us == [] {
    } else {
      var mid := ApplyUpsert(db, p, f, us[0]).value;
      OnwardUpsert(db, p, f, us[0]);
      OnwardUpserts(mid, p, f, us[1..]);
      OnwardTwice(db, mid, ApplyUpserts(db, p, f, us).value, p, p);
    }
  }

  lemma {:induction false} OnwardUpsert(db: Db, p: Id, f: string, u: Upsert)
    requires db.Valid() && ApplyUpsert(db, p, f, u).Some?
    ensures Onward(db, ApplyUpsert(db, p, f, u).value, p)
    decreases u, 0
  {
    if db.IsChild(p, f, u.id) { NothingReturns(db, u.id, u.data); }
  }

  /** Deletes that succeed were of children, which are gone; the other rows stay as they are. */
  lemma {:induction false} OnwardDeletes(db: Db, p: Id, f: string, ids: seq<Id>)
    requires DeleteAll(db, p, f, ids).Some?
    ensures DeleteAll(db, p, f, ids).value == db.(rows := map id | id in db.rows && id !in ids :: db.rows[id])
    ensures forall id <- ids :: db.IsChild(p, f, id)
    decreases |ids|
  {
    if ids == [] {
      assert db.rows == map id | id in db.rows && id !in ids :: db.rows[id];
    } else {
      OnwardDeletes(db.(rows := db.rows - {ids[0]}), p, f, ids[1..]);
      assert forall id :: id in ids <==> id == ids[0] || id in ids[1..];
    }
  }

  /** Every row is still there, under the same parent. */
  ghost predicate Keeps(a: Db, b: Db) {
    forall id <- a.rows :: id in b.rows && b.rows[id].parent == a.rows[id].parent && b.rows[id].rel == a.rows[id].rel
  }

  lemma {:induction false} UpdateManysKeep(db: Db, p: Id, f: string, us: seq<UpdateMany>)
    ensures var after := UpdateManyAll(db, p, f, us);
            after.next == db.next && after.rows.Keys == db.rows.Keys && Keeps(db, after)
    decreases |us|
  {
    if us == [] {
    } else {
      UpdateManysKeep(UpdateManyRows(db, p, f, us[0]), p, f, us[1..]);
    }
  }

  predicate MatchesAny(r: Row, wheres: seq<Columns>) { exists w <- wheres :: Matches(r, w) }

  /** Bulk deletes leave exactly the rows that match none of them, as they are. */
  lemma {:induction false} DeleteManysLeave(db: Db, p: Id, f: string, wheres: seq<Columns>)
    ensures var after := DeleteManyAll(db, p, f, wheres);
            && after.next == db.next
            && forall id :: id in after.rows
                       <==> id in db.rows && !(db.IsChild(p, f, id) && MatchesAny(db.rows[id], wheres))
    ensures forall id <- DeleteManyAll(db, p, f, wheres).rows :: DeleteManyAll(db, p, f, wheres).rows[id] == db.rows[id]
    decreases |wheres|
  {
    if wheres == [] {
    } else {
      DeleteManysLeave(DeleteManyRows(db, p, f, wheres[0]), p, f, wheres[1..]);
      assert forall w :: w in wheres <==> w == wheres[0] || w in wheres[1..];
    }
  }

  /** The same row, but for its stamp. */
  ghost predicate SameButStamp(a: Row, b: Row) {
    a.parent == b.parent && a.rel == b.rel && a.columns - {DELETED_AT} == b.columns - {DELETED_AT}
  }

  lemma StampOnly(now: int, r: Row)
    ensures SameButStamp(Write(r, Stamp(now)), r) && !Live(Write(r, Stamp(now)).columns)
  {
    assert Write(r, Stamp(now)).columns[DELETED_AT] == At(now);
  }

  /** Bulk stamps stamp exactly the rows that match one of them, and do nothing else. */
  lemma {:induction false} StampManysStamp(now: int, db: Db, p: Id, f: string, wheres: seq<Columns>)
    ensures var after := UpdateManyAll(db, p, f, StampManys(now, wheres));
            && after.next == db.next && after.rows.Keys == db.rows.Keys
            && forall id <- db.rows :: StampedIf(db.IsChild(p, f, id) && MatchesAny(db.rows[id], wheres),
                                                 db.rows[id], after.rows[id])
    decreases |wheres|
  {
    if wheres == [] {
    } else {
      var first := UpdateManyRows(db, p, f, UpdateMany(wheres[0], Stamp(now)));
      var after := UpdateManyAll(first, p, f, StampManys(now, wheres[1..]));
      assert StampManys(now, wheres)[0] == UpdateMany(wheres[0], Stamp(now));
      assert StampManys(now, wheres)[1..] == StampManys(now, wheres[1..]);
      StampManysStamp(now, first, p, f, wheres[1..]);
      forall id <- db.rows
        ensures StampedIf(db.IsChild(p, f, id) && MatchesAny(db.rows[id], wheres), db.rows[id], after.rows[id])
      {
        StampOnly(now, db.rows[id]);
        assert MatchesAny(db.rows[id], wheres)
          <==> Matches(db.rows[id], wheres[0]) || MatchesAny(db.rows[id], wheres[1..])
          by { assert forall w :: w in wheres <==> w == wheres[0] || w in wheres[1..]; }
      }
    }
  }

  ghost predicate StampedIf(chosen: bool, a: Row, b: Row) {
    if chosen then SameButStamp(a, b) && !Live(b.columns) else b == a
  }

  lemma StampApplies(now: int, db: Db, id: Id)
    requires id in db.rows
    ensures Apply(db, id, Data(Stamp(now), NoRels)) == Some(WriteRow(db, id, Stamp(now)))
  {}

  /** Stamps of children succeed, and write those rows alone. */
  lemma {:induction false} StampsStamp(now: int, db: Db, p: Id, f: string, ids: seq<Id>)
    requires forall id <- ids :: db.IsChild(p, f, id)
    ensures ApplyUpdates(db, p, f, Stamps(now, ids)).Some?
    ensures var after := ApplyUpdates(db, p, f, Stamps(now, ids)).value;
            && after.next == db.next && after.rows.Keys == db.rows.Keys
            && forall id <- db.rows :: StampedIf(id in ids, db.rows[id], after.rows[id])
    decreases |ids|
  {
    if ids == [] {
    } else {
      assert db.IsChild(p, f, ids[0]);
      var first := WriteRow(db, ids[0], Stamp(now));
      StampApplies(now, db, ids[0]);
      assert Stamps(now, ids)[1..] == Stamps(now, ids[1..]);
      StampOnly(now, db.rows[ids[0]]);
      forall id <- ids[1..] ensures first.IsChild(p, f, id) { assert id in ids; }
      StampsStamp(now, first, p, f, ids[1..]);
      assert forall id :: id in ids <==> id == ids[0] || id in ids[1..];
    }
  }
}
