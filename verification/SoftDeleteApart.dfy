/** A nested write that stays out of one relation leaves its rows alone, and does not look at them. */
module SoftDeleteApart {
  import opened Common
  import opened SoftDeleteColumns
  import opened SoftDeleteWrites
  import opened SoftDeleteOrder

  function Without(db: Db, f: string): Db {
    db.(rows := map id | id in db.rows && db.rows[id].rel != f :: db.rows[id])
  }

  /** The rows of relation f are the same. */
  ghost predicate SameIn(f: string, a: Db, b: Db) {
    && (forall id <- a.rows | a.rows[id].rel == f :: id in b.rows && b.rows[id] == a.rows[id])
    && (forall id <- b.rows | b.rows[id].rel == f :: id in a.rows && a.rows[id] == b.rows[id])
  }

  /** Run beside those rows or without them, it does the same, and nothing to them. */
  ghost predicate Beside(f: string, db: Db, after: Option<Db>, alone: Option<Db>) {
    if after.None? then alone.None?
    else alone == Some(Without(after.value, f)) && SameIn(f, db, after.value) && after.value.Valid()
  }

  lemma BesideThen(f: string, db: Db, mid: Db, after: Option<Db>, alone: Option<Db>)
    requires SameIn(f, db, mid) && Beside(f, mid, after, alone)
    ensures Beside(f, db, after, alone)
  {}

  lemma {:induction false} ApartRels(f: string, db: Db, p: Id, r: RelWrites)
    requires db.Valid() && Apart(f, r)
    ensures Beside(f, db, ApplyRels(db, p, r), ApplyRels(Without(db, f), p, r))
    decreases r, 0
  {
    match r {
      case NoRels =>
      case RelWrite(field, nested, rest) =>
        ApartRuns(f, db, p, field, nested);
        var mid := ApplyNested(db, p, field, nested);
        if mid.Some? {
          ApartRels(f, mid.value, p, rest);
          BesideThen(f, db, mid.value, ApplyRels(db, p, r), ApplyRels(Without(db, f), p, r));
        }
      case Refused =>
    }
  }

  lemma {:induction false} ApartRuns(f: string, db: Db, p: Id, g: string, n: Nested)
    requires db.Valid() && g != f && ApartNested(f, n)
    ensures Beside(f, db, ApplyNested(db, p, g, n), ApplyNested(Without(db, f), p, g, n))
    decreases n, 0
  {
    if n == [] {
    } else {
      ApartRun(f, db, p, g, n[0]);
      var mid := ApplyOperation(db, p, g, n[0]);
      if mid.Some? {
        ApartRuns(f, mid.value, p, g, n[1..]);
        BesideThen(f, db, mid.value, ApplyNested(db, p, g, n), ApplyNested(Without(db, f), p, g, n));
      }
    }
  }

  lemma {:induction false} ApartRun(f: string, db: Db, p: Id, g: string, o: Operation)
    requires db.Valid() && g != f && ApartOperation(f, o)
    ensures Beside(f, db, ApplyOperation(db, p, g, o), ApplyOperation(Without(db, f), p, g, o))
    decreases o, 0
  {
    match o {
      case Creating(creates) => ApartCreates(f, db, p, g, creates);
      case Upserting(upserts) => ApartUpserts(f, db, p, g, upserts);
      case Updating(updates) => ApartUpdates(f, db, p, g, updates);
      case Deleting(ids) => ApartDeletes(f, db, p, g, ids);
      case UpdatingMany(bulk) => ApartUpdateManys(f, db, p, g, bulk);
      case DeletingMany(wheres) => ApartDeleteManys(f, db, p, g, wheres);
    }
  }

  lemma {:induction false} ApartCreates(f: string, db: Db, p: Id, g: string, creates: seq<Columns>)
    requires db.Valid() && g != f
    ensures Beside(f, db, Some(CreateAll(db, p, g, creates)), Some(CreateAll(Without(db, f), p, g, creates)))
    decreases |creates|
  {
    if creates == [] {
    } else {
      assert Without(AddRow(db, p, g, creates[0]), f) == AddRow(Without(db, f), p, g, creates[0]);
      ApartCreates(f, AddRow(db, p, g, creates[0]), p, g, creates[1..]);
      BesideThen(f, db, AddRow(db, p, g, creates[0]), Some(CreateAll(db, p, g, creates)),
                 Some(CreateAll(Without(db, f), p, g, creates)));
    }
  }

  lemma {:induction false} ApartUpdates(f: string, db: Db, p: Id, g: string, us: seq<Update>)
    requires db.Valid() && g != f && forall u <- us :: Apart(f, u.data.rels)
    ensures Beside(f, db, ApplyUpdates(db, p, g, us), ApplyUpdates(Without(db, f), p, g, us))
    decreases us, 0
  {
    if us == [] {
    } else {
      ApartUpdate(f, db, p, g, us[0]);
      var mid := ApplyUpdate(db, p, g, us[0]);
      if mid.Some? {
        ApartUpdates(f, mid.value, p, g, us[1..]);
        BesideThen(f, db, mid.value, ApplyUpdates(db, p, g, us), ApplyUpdates(Without(db, f), p, g, us));
      }
    }
  }

  lemma {:induction false} ApartUpdate(f: string, db: Db, p: Id, g: string, u: Update)
    requires db.Valid() && g != f && Apart(f, u.data.rels)
    ensures Beside(f, db, ApplyUpdate(db, p, g, u), ApplyUpdate(Without(db, f), p, g, u))
    decreases u, 0
  {
    assert Without(db, f).IsChild(p, g, u.id) <==> db.IsChild(p, g, u.id);
    if db.IsChild(p, g, u.id) { ApartData(f, db, u.id, u.data); }
  }

  lemma {:induction false} ApartData(f: string, db: Db, id: Id, d: Data)
    requires db.Valid() && id in db.rows && db.rows[id].rel != f && Apart(f, d.rels)
    ensures Beside(f, db, Apply(db, id, d), Apply(Without(db, f), id, d))
    decreases d, 0
  {
    var first := WriteRow(db, id, d.columns);
    assert Without(first, f) == WriteRow(Without(db, f), id, d.columns);
    ApartRels(f, first, id, d.rels);
    BesideThen(f, db, first, Apply(db, id, d), Apply(Without(db, f), id, d));
  }

  lemma {:induction false} ApartUpsert(f: string, db: Db, p: Id, g: string, u: Upsert)
    requires db.Valid() && g != f && Apart(f, u.data.rels)
    ensures Beside(f, db, ApplyUpsert(db, p, g, u), ApplyUpsert(Without(db, f), p, g, u))
    decreases u, 0
  {
    assert Without(db, f).IsChild(p, g, u.id) <==> db.IsChild(p, g, u.id);
    if db.IsChild(p, g, u.id) {
      ApartData(f, db, u.id, u.data);
    } else {
      assert Without(AddRow(db, p, g, u.columns), f) == AddRow(Without(db, f), p, g, u.columns);
    }
  }

  lemma {:induction false} ApartUpserts(f: string, db: Db, p: Id, g: string, us: seq<Upsert>)
    requires db.Valid() && g != f && forall u <- us :: Apart(f, u.data.rels)
    ensures Beside(f, db, ApplyUpserts(db, p, g, us), ApplyUpserts(Without(db, f), p, g, us))
    decreases us, 0
  {
    if us == [] {
    } else {
      ApartUpsert(f, db, p, g, us[0]);
      var mid := ApplyUpsert(db, p, g, us[0]);
      if mid.Some? {
        ApartUpserts(f, mid.value, p, g, us[1..]);
        BesideThen(f, db, mid.value, ApplyUpserts(db, p, g, us), ApplyUpserts(Without(db, f), p, g, us));
      }
    }
  }

  lemma {:induction false} ApartDeletes(f: string, db: Db, p: Id, g: string, ids: seq<Id>)
    requires db.Valid() && g != f
    ensures Beside(f, db, DeleteAll(db, p, g, ids), DeleteAll(Without(db, f), p, g, ids))
    decreases |ids|
  {
    if ids == [] {
    } else if db.IsChild(p, g, ids[0]) {
      var first := db.(rows := db.rows - {ids[0]});
      assert Without(first, f) == Without(db, f).(rows := Without(db, f).rows - {ids[0]});
      ApartDeletes(f, first, p, g, ids[1..]);
    }
  }

  lemma {:induction false} ApartUpdateManys(f: string, db: Db, p: Id, g: string, us: seq<UpdateMany>)
    requires db.Valid() && g != f
    ensures Beside(f, db, Some(UpdateManyAll(db, p, g, us)), Some(UpdateManyAll(Without(db, f), p, g, us)))
    decreases |us|
  {
    if us == [] {
    } else {
      assert Without(UpdateManyRows(db, p, g, us[0]), f) == UpdateManyRows(Without(db, f), p, g, us[0]);
      ApartUpdateManys(f, UpdateManyRows(db, p, g, us[0]), p, g, us[1..]);
    }
  }

  lemma {:induction false} ApartDeleteManys(f: string, db: Db, p: Id, g: string, wheres: seq<Columns>)
    requires db.Valid() && g != f
    ensures Beside(f, db, Some(DeleteManyAll(db, p, g, wheres)), Some(DeleteManyAll(Without(db, f), p, g, wheres)))
    decreases |wheres|
  {
    if wheres == [] {
    } else {
      assert Without(DeleteManyRows(db, p, g, wheres[0]), f) == DeleteManyRows(Without(db, f), p, g, wheres[0]);
      ApartDeleteManys(f, DeleteManyRows(db, p, g, wheres[0]), p, g, wheres[1..]);
    }
  }

  // ----- Rewriting keeps out of it too -----

  lemma {:induction false} RewriteApart(now: int, f: string, r: RelWrites)
    requires Apart(f, r)
    ensures Apart(f, RewriteRels(now, r))
    decreases r, 0
  {
    match r {
      case NoRels =>
      case RelWrite(_, nested, rest) =>
        var ids, wheres := IdsDeleted(nested), WheresDeleted(nested);
        RewriteApartOperations(now, f, nested, ids, wheres);
        AddedApart(now, f, nested);
        ApartTogether(f, RewriteOperations(now, nested, ids, wheres), AddedKeys(now, nested));
        RewriteApart(now, f, rest);
      case Refused =>
    }
  }

  lemma {:induction false} ApartTogether(f: string, a: Nested, b: Nested)
    requires ApartNested(f, a) && ApartNested(f, b)
    ensures ApartNested(f, a + b)
    decreases |a|
  {
    if a == [] {
      assert a + b == b;
    } else {
      assert (a + b)[0] == a[0] && (a + b)[1..] == a[1..] + b;
      ApartTogether(f, a[1..], b);
    }
  }

  lemma ApartOne(f: string, o: Operation)
    requires ApartOperation(f, o)
    ensures ApartNested(f, [o])
  {
    assert [o][1..] == [];
  }

  lemma {:induction false} StampsApart(now: int, f: string, ids: seq<Id>)
    ensures forall u <- Stamps(now, ids) :: Apart(f, u.data.rels)
  {
    if ids == [] {
    } else {
      StampsApart(now, f, ids[1..]);
    }
  }

  lemma AddedApart(now: int, f: string, n: Nested)
    ensures ApartNested(f, AddedKeys(now, n))
  {
    StampsApart(now, f, IdsDeleted(n));
    var stamps, bulk := Updating(Stamps(now, IdsDeleted(n))), UpdatingMany(StampManys(now, WheresDeleted(n)));
    ApartOne(f, stamps);
    ApartOne(f, bulk);
    ApartTogether(f, if Has(n, DeleteKey) && !Has(n, UpdateKey) then [stamps] else [],
                  if Has(n, DeleteManyKey) && !Has(n, UpdateManyKey) then [bulk] else []);
  }

  lemma {:induction false} RewriteApartOperations(now: int, f: string, n: Nested, ids: seq<Id>, wheres: seq<Columns>)
    requires ApartNested(f, n)
    ensures ApartNested(f, RewriteOperations(now, n, ids, wheres))
    decreases n, 0
  {
    if n == [] {
    } else {
      var first := RewriteOperation(now, n[0], ids, wheres);
      RewriteApartOperation(now, f, n[0], ids, wheres);
      RewriteApartOperations(now, f, n[1..], ids, wheres);
      if first != [] { ApartOne(f, first[0]); }
      ApartTogether(f, first, RewriteOperations(now, n[1..], ids, wheres));
    }
  }

  lemma {:induction false} RewriteApartOperation(now: int, f: string, o: Operation, ids: seq<Id>, wheres: seq<Columns>)
    requires ApartOperation(f, o)
    ensures forall x <- RewriteOperation(now, o, ids, wheres) :: ApartOperation(f, x)
    decreases o, 0
  {
    if o.Updating? {
      RewriteApartUpdates(now, f, o.updates);
      StampsApart(now, f, ids);
    }
  }

  lemma {:induction false} RewriteApartUpdates(now: int, f: string, us: seq<Update>)
    requires forall u <- us :: Apart(f, u.data.rels)
    ensures forall u <- RewriteUpdates(now, us) :: Apart(f, u.data.rels)
    decreases us, 0
  {
    if us == [] {
    } else {
      RewriteApartUpdate(now, f, us[0]);
      RewriteApartUpdates(now, f, us[1..]);
    }
  }

  lemma {:induction false} RewriteApartUpdate(now: int, f: string, u: Update)
    requires Apart(f, u.data.rels)
    ensures Apart(f, RewriteUpdate(now, u).data.rels)
    decreases u, 0
  {
    RewriteApart(now, f, u.data.rels);
  }
}
