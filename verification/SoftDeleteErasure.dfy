/** When a write through the tenancy client erases rows: exactly when its tree holds a delete
    that the walk of src/prisma/scoped-prisma.ts does not reach. */
module SoftDeleteErasure {
  import opened Common
  import opened SoftDeleteColumns
  import opened SoftDeleteWrites
  import opened SoftDeleteFrames

  // ----- When nothing is erased -----

  /** No delete of any kind anywhere in the tree. */
  predicate Deleteless(d: Data)
    decreases d, 0
  {
    DeletelessRels(d.rels)
  }

  predicate DeletelessRels(r: RelWrites)
    decreases r, 0
  {
    match r
    case NoRels => true
    case RelWrite(_, nested, rest) => DeletelessNested(nested) && DeletelessRels(rest)
    case ToOneUpdate(_, _, data, rest) => Deleteless(data) && DeletelessRels(rest)
    case ToOneDelete(_, _, _) => false
    case Refused => true
  }

  predicate DeletelessNested(n: Nested)
    decreases n, 0
  {
    forall o <- n :: DeletelessOperation(o)
  }

  predicate DeletelessOperation(o: Operation)
    decreases o, 0
  {
    match o
    case Deleting(ids) => ids == []
    case DeletingMany(wheres) => wheres == []
    case Updating(updates) => forall u <- updates :: Deleteless(u.data)
    case Upserting(upserts) => forall u <- upserts :: Deleteless(u.data)
    case _ => true
  }

  /** No delete of any kind below an entry the walk does not enter: an upsert, or a to-one
      update written without a where. */
  predicate DeletesWalked(d: Data)
    decreases d, 0
  {
    DeletesWalkedRels(d.rels)
  }

  predicate DeletesWalkedRels(r: RelWrites)
    decreases r, 0
  {
    match r
    case NoRels => true
    case RelWrite(_, nested, rest) => DeletesWalkedNested(nested) && DeletesWalkedRels(rest)
    case ToOneUpdate(_, where, data, rest) =>
      (if where.Some? then DeletesWalked(data) else Deleteless(data)) && DeletesWalkedRels(rest)
    case ToOneDelete(_, where, rest) => where.None? || DeletesWalkedRels(rest)
    case Refused => true
  }

  predicate DeletesWalkedNested(n: Nested)
    decreases n, 0
  {
    forall o <- n :: DeletesWalkedOperation(o)
  }

  predicate DeletesWalkedOperation(o: Operation)
    decreases o, 0
  {
    match o
    case Updating(updates) => forall u <- updates :: DeletesWalked(u.data)
    case Upserting(upserts) => forall u <- upserts :: Deleteless(u.data)
    case _ => true
  }

  /** The rewrite leaves no delete exactly when the walk reaches them all. */
  lemma {:induction false} RewriteLeavesNoDelete(now: int, d: Data)
    ensures Deleteless(Rewrite(now, d)) <==> DeletesWalked(d)
    decreases d, 0
  {
    NoDeleteRels(now, d.rels);
  }

  lemma {:induction false} NoDeleteRels(now: int, r: RelWrites)
    ensures DeletelessRels(RewriteRels(now, r)) <==> DeletesWalkedRels(r)
    decreases r, 0
  {
    match r {
      case NoRels =>
      case RelWrite(_, nested, rest) =>
        NoDeleteOperations(now, nested, IdsDeleted(nested), WheresDeleted(nested));
        AddedDeleteless(now, nested);
        NoDeleteRels(now, rest);
      case ToOneUpdate(_, where, data, rest) =>
        if where.Some? { RewriteLeavesNoDelete(now, data); }
        NoDeleteRels(now, rest);
      case ToOneDelete(_, _, rest) =>
        NoDeleteRels(now, rest);
        StampDeleteless(now);
      case Refused =>
    }
  }

  lemma {:induction false} NoDeleteOperations(now: int, n: Nested, ids: seq<Id>, wheres: seq<Columns>)
    ensures DeletelessNested(RewriteOperations(now, n, ids, wheres)) <==> DeletesWalkedNested(n)
    decreases n, 0
  {
    if n == [] {
    } else {
      NoDeleteOperation(now, n[0], ids, wheres);
      NoDeleteOperations(now, n[1..], ids, wheres);
      assert forall o :: o in n <==> o == n[0] || o in n[1..];
    }
  }

  lemma {:induction false} NoDeleteOperation(now: int, o: Operation, ids: seq<Id>, wheres: seq<Columns>)
    ensures DeletelessNested(RewriteOperation(now, o, ids, wheres)) <==> DeletesWalkedOperation(o)
    decreases o, 0
  {
    match o {
      case Updating(updates) =>
        NoDeleteUpdates(now, updates);
        StampsDeleteless(now, ids);
        assert Updating(RewriteUpdates(now, updates) + Stamps(now, ids)) in RewriteOperation(now, o, ids, wheres);
      case Upserting(_) => assert o in RewriteOperation(now, o, ids, wheres);
      case _ =>
    }
  }

  lemma {:induction false} NoDeleteUpdates(now: int, us: seq<Update>)
    ensures (forall u <- RewriteUpdates(now, us) :: Deleteless(u.data)) <==> forall u <- us :: DeletesWalked(u.data)
    decreases us, 0
  {
    if us == [] {
    } else {
      NoDeleteUpdate(now, us[0]);
      NoDeleteUpdates(now, us[1..]);
      assert forall u :: u in us <==> u == us[0] || u in us[1..];
      assert forall u :: u in RewriteUpdates(now, us)
                    <==> u == RewriteUpdate(now, us[0]) || u in RewriteUpdates(now, us[1..]);
    }
  }

  lemma {:induction false} NoDeleteUpdate(now: int, u: Update)
    ensures Deleteless(RewriteUpdate(now, u).data) <==> DeletesWalked(u.data)
    decreases u, 0
  {
    RewriteLeavesNoDelete(now, u.data);
  }

  lemma StampDeleteless(now: int)
    ensures Deleteless(Data(Stamp(now), NoRels))
  {}

  lemma {:induction false} StampsDeleteless(now: int, ids: seq<Id>)
    ensures forall u <- Stamps(now, ids) :: Deleteless(u.data)
  {
    if ids == [] {
    } else {
      StampDeleteless(now);
      StampsDeleteless(now, ids[1..]);
    }
  }

  lemma AddedDeleteless(now: int, n: Nested)
    ensures DeletelessNested(AddedKeys(now, n))
  {
    StampsDeleteless(now, IdsDeleted(n));
  }

  /** A tree without deletes keeps every row. */
  lemma {:induction false} DeletelessKeeps(db: Db, id: Id, d: Data)
    requires db.Valid() && Deleteless(d) && Apply(db, id, d).Some?
    ensures Keeps(db, Apply(db, id, d).value)
    decreases d, 0
  {
    KeepsRels(WriteRow(db, id, d.columns), id, d.rels);
  }

  lemma {:induction false} KeepsRels(db: Db, p: Id, r: RelWrites)
    requires db.Valid() && DeletelessRels(r) && ApplyRels(db, p, r).Some?
    ensures Keeps(db, ApplyRels(db, p, r).value)
    decreases r, 0
  {
    match r {
      case NoRels =>
      case RelWrite(field, nested, rest) =>
        OnwardNested(db, p, field, nested);
        KeepsNested(db, p, field, nested);
        KeepsRels(ApplyNested(db, p, field, nested).value, p, rest);
      case ToOneUpdate(_, _, data, rest) =>
        NothingReturns(db, db.rows[p].parent, data);
        DeletelessKeeps(db, db.rows[p].parent, data);
        KeepsRels(Apply(db, db.rows[p].parent, data).value, p, rest);
    }
  }

  lemma {:induction false} KeepsNested(db: Db, p: Id, f: string, n: Nested)
    requires db.Valid() && DeletelessNested(n) && ApplyNested(db, p, f, n).Some?
    ensures Keeps(db, ApplyNested(db, p, f, n).value)
    decreases n, 0
  {
    if n == [] {
    } else {
      OnwardOperation(db, p, f, n[0]);
      KeepsOperation(db, p, f, n[0]);
      KeepsNested(ApplyOperation(db, p, f, n[0]).value, p, f, n[1..]);
    }
  }

  lemma {:induction false} KeepsOperation(db: Db, p: Id, f: string, o: Operation)
    requires db.Valid() && DeletelessOperation(o) && ApplyOperation(db, p, f, o).Some?
    ensures Keeps(db, ApplyOperation(db, p, f, o).value)
    decreases o, 0
  {
    match o {
      case Creating(creates) => OnwardCreates(db, p, f, creates);
      case Upserting(upserts) => KeepsUpserts(db, p, f, upserts);
      case Updating(updates) => KeepsUpdates(db, p, f, updates);
      case UpdatingMany(bulk) => UpdateManysKeep(db, p, f, bulk);
      case _ =>
    }
  }

  lemma {:induction false} KeepsUpdates(db: Db, p: Id, f: string, us: seq<Update>)
    requires db.Valid() && (forall u <- us :: Deleteless(u.data)) && ApplyUpdates(db, p, f, us).Some?
    ensures Keeps(db, ApplyUpdates(db, p, f, us).value)
    decreases us, 0
  {
    if us == [] {
    } else {
      OnwardUpdate(db, p, f, us[0]);
      KeepsUpdate(db, p, f, us[0]);
      KeepsUpdates(ApplyUpdate(db, p, f, us[0]).value, p, f, us[1..]);
    }
  }

  lemma {:induction false} KeepsUpdate(db: Db, p: Id, f: string, u: Update)
    requires db.Valid() && Deleteless(u.data) && ApplyUpdate(db, p, f, u).Some?
    ensures Keeps(db, ApplyUpdate(db, p, f, u).value)
    decreases u, 0
  {
    DeletelessKeeps(db, u.id, u.data);
  }

  lemma {:induction false} KeepsUpserts(db: Db, p: Id, f: string, us: seq<Upsert>)
    requires db.Valid() && (forall u <- us :: Deleteless(u.data)) && ApplyUpserts(db, p, f, us).Some?
    ensures Keeps(db, ApplyUpserts(db, p, f, us).value)
    decreases us, 0
  {
    if us == [] {
    } else {
      OnwardUpsert(db, p, f, us[0]);
      KeepsUpsert(db, p, f, us[0]);
      KeepsUpserts(ApplyUpsert(db, p, f, us[0]).value, p, f, us[1..]);
    }
  }

  lemma {:induction false} KeepsUpsert(db: Db, p: Id, f: string, u: Upsert)
    requires db.Valid() && Deleteless(u.data) && ApplyUpsert(db, p, f, u).Some?
    ensures Keeps(db, ApplyUpsert(db, p, f, u).value)
    decreases u, 0
  {
    if db.IsChild(p, f, u.id) { DeletelessKeeps(db, u.id, u.data); }
  }

  /** When the walk reaches every delete of the tree, the rewritten write erases no row and
      moves none. */
  lemma RewriteErasesNothing(now: int, db: Db, id: Id, d: Data)
    requires db.Valid() && DeletesWalked(d) && Apply(db, id, Rewrite(now, d)).Some?
    ensures Apply(db, id, Rewrite(now, d)).value.Valid()
    ensures Keeps(db, Apply(db, id, Rewrite(now, d)).value)
  {
    RewriteLeavesNoDelete(now, d);
    NothingReturns(db, id, Rewrite(now, d));
    DeletelessKeeps(db, id, Rewrite(now, d));
  }

  // ----- When something is erased -----

  /** While this tree is applied every entry hits a row: each upsert finds the row it names, each
      delete names and each deleteMany matches one that was there from the start (`was`). */
  predicate Hits(was: set<Id>, db: Db, id: Id, d: Data)
    decreases d, 0
  {
    id in db.rows && HitsRels(was, WriteRow(db, id, d.columns), id, d.rels)
  }

  predicate HitsRels(was: set<Id>, db: Db, p: Id, r: RelWrites)
    decreases r, 0
  {
    match r
    case NoRels => true
    case RelWrite(field, nested, rest) =>
      var after := ApplyNested(db, p, field, nested);
      HitsNested(was, db, p, field, nested) && (after.Some? ==> HitsRels(was, after.value, p, rest))
    case ToOneUpdate(_, where, data, rest) =>
      && db.Reaches(p, where) && Hits(was, db, db.rows[p].parent, data)
      && var after := Apply(db, db.rows[p].parent, data);
         (after.Some? ==> HitsRels(was, after.value, p, rest))
    case ToOneDelete(_, where, rest) =>
      && db.Reaches(p, where) && db.rows[p].parent in was
      && HitsRels(was, db.(rows := db.rows - {db.rows[p].parent}), p, rest)
    case Refused => true
  }

  predicate HitsNested(was: set<Id>, db: Db, p: Id, f: string, n: Nested)
    decreases n, 0
  {
    n != [] ==>
      && HitsOperation(was, db, p, f, n[0])
      && var after := ApplyOperation(db, p, f, n[0]);
         (after.Some? ==> HitsNested(was, after.value, p, f, n[1..]))
  }

  predicate HitsOperation(was: set<Id>, db: Db, p: Id, f: string, o: Operation)
    decreases o, 0
  {
    match o
    case Upserting(upserts) => HitsUpserts(was, db, p, f, upserts)
    case Updating(updates) => HitsUpdates(was, db, p, f, updates)
    case Deleting(ids) => ids != [] ==> ids[0] in was
    case DeletingMany(wheres) => wheres != [] ==> MatchesOld(was, db, p, f, wheres[0])
    case _ => true
  }

  predicate MatchesOld(was: set<Id>, db: Db, p: Id, f: string, where: Columns) {
    exists id <- db.rows :: id in was && db.IsChild(p, f, id) && Matches(db.rows[id], where)
  }

  predicate HitsUpdates(was: set<Id>, db: Db, p: Id, f: string, us: seq<Update>)
    decreases us, 0
  {
    us != [] ==>
      && HitsUpdate(was, db, us[0])
      && var after := ApplyUpdate(db, p, f, us[0]);
         (after.Some? ==> HitsUpdates(was, after.value, p, f, us[1..]))
  }

  predicate HitsUpdate(was: set<Id>, db: Db, u: Update)
    decreases u, 0
  {
    Hits(was, db, u.id, u.data)
  }

  predicate HitsUpserts(was: set<Id>, db: Db, p: Id, f: string, us: seq<Upsert>)
    decreases us, 0
  {
    us != [] ==>
      && db.IsChild(p, f, us[0].id) && HitsUpsert(was, db, us[0])
      && var after := ApplyUpsert(db, p, f, us[0]);
         (after.Some? ==> HitsUpserts(was, after.value, p, f, us[1..]))
  }

  predicate HitsUpsert(was: set<Id>, db: Db, u: Upsert)
    decreases u, 0
  {
    Hits(was, db, u.id, u.data)
  }

  /** The row is one of those that were there at the start, there before and gone after. */
  ghost predicate Erased(was: set<Id>, a: Db, b: Db, x: Id) { x in was && x in a.rows && x !in b.rows }

  ghost predicate Numbered(was: set<Id>, db: Db) { db.Valid() && forall id <- was :: id < db.next }

  /** What is erased halfway stays erased, and what is erased later was there. */
  lemma ErasedOnTheWay(was: set<Id>, a: Db, b: Db, c: Db, p: Id, q: Id, x: Id)
    requires Numbered(was, a) && Onward(a, b, p) && Onward(b, c, q) && (Erased(was, a, b, x) || Erased(was, b, c, x))
    ensures Erased(was, a, c, x)
  {}

  lemma {:induction false} DeletesErase(was: set<Id>, db: Db, id: Id, d: Data) returns (x: Id)
    requires Numbered(was, db) && !Deleteless(d) && Apply(db, id, d).Some? && Hits(was, db, id, d)
    ensures Erased(was, db, Apply(db, id, d).value, x)
    decreases d, 0
  {
    x := EraseRels(was, WriteRow(db, id, d.columns), id, d.rels);
  }

  lemma {:induction false} EraseRels(was: set<Id>, db: Db, p: Id, r: RelWrites) returns (x: Id)
    requires Numbered(was, db) && !DeletelessRels(r) && ApplyRels(db, p, r).Some? && HitsRels(was, db, p, r)
    ensures Erased(was, db, ApplyRels(db, p, r).value, x)
    decreases r, 0
  {
    var mid: Db;
    match r {
      case RelWrite(field, nested, rest) =>
        OnwardNested(db, p, field, nested);
        mid := ApplyNested(db, p, field, nested).value;
        OnwardRels(mid, p, rest);
        if DeletelessNested(nested) {
          x := EraseRels(was, mid, p, rest);
        } else {
          x := EraseNested(was, db, p, field, nested);
        }
      case ToOneUpdate(_, _, data, rest) =>
        var q := db.rows[p].parent;
        NothingReturns(db, q, data);
        mid := Apply(db, q, data).value;
        OnwardRels(mid, p, rest);
        if Deleteless(data) { x := EraseRels(was, mid, p, rest); } else { x := DeletesErase(was, db, q, data); }
      case ToOneDelete(_, _, rest) =>
        x := db.rows[p].parent;
        mid := db.(rows := db.rows - {x});
        OnwardRels(mid, p, rest);
    }
    ErasedOnTheWay(was, db, mid, ApplyRels(db, p, r).value, p, p, x);
  }

  lemma {:induction false} EraseNested(was: set<Id>, db: Db, p: Id, f: string, n: Nested) returns (x: Id)
    requires Numbered(was, db) && !DeletelessNested(n) && ApplyNested(db, p, f, n).Some? && HitsNested(was, db, p, f, n)
    ensures Erased(was, db, ApplyNested(db, p, f, n).value, x)
    decreases n, 0
  {
    var mid := ApplyOperation(db, p, f, n[0]).value;
    OnwardOperation(db, p, f, n[0]);
    OnwardNested(mid, p, f, n[1..]);
    if DeletelessOperation(n[0]) {
      assert forall o :: o in n <==> o == n[0] || o in n[1..];
      x := EraseNested(was, mid, p, f, n[1..]);
    } else {
      x := EraseOperation(was, db, p, f, n[0]);
    }
    ErasedOnTheWay(was, db, mid, ApplyNested(db, p, f, n).value, p, p, x);
  }

  lemma {:induction false} EraseOperation(was: set<Id>, db: Db, p: Id, f: string, o: Operation) returns (x: Id)
    requires Numbered(was, db) && !DeletelessOperation(o) && ApplyOperation(db, p, f, o).Some?
    requires HitsOperation(was, db, p, f, o)
    ensures Erased(was, db, ApplyOperation(db, p, f, o).value, x)
    decreases o, 0
  {
    match o {
      case Upserting(upserts) => x := EraseUpserts(was, db, p, f, upserts);
      case Updating(updates) => x := EraseUpdates(was, db, p, f, updates);
      case Deleting(ids) =>
        OnwardDeletes(db, p, f, ids);
        x := ids[0];
        assert db.IsChild(p, f, x);
      case DeletingMany(wheres) =>
        DeleteManysLeave(db, p, f, wheres);
        x :| x in db.rows && x in was && db.IsChild(p, f, x) && Matches(db.rows[x], wheres[0]);
        assert MatchesAny(db.rows[x], wheres);
    }
  }

  lemma {:induction false} EraseUpdates(was: set<Id>, db: Db, p: Id, f: string, us: seq<Update>) returns (x: Id)
    requires Numbered(was, db) && (exists u <- us :: !Deleteless(u.data)) && ApplyUpdates(db, p, f, us).Some?
    requires HitsUpdates(was, db, p, f, us)
    ensures Erased(was, db, ApplyUpdates(db, p, f, us).value, x)
    decreases us, 0
  {
    var mid := ApplyUpdate(db, p, f, us[0]).value;
    OnwardUpdate(db, p, f, us[0]);
    OnwardUpdates(mid, p, f, us[1..]);
    if Deleteless(us[0].data) {
      assert forall u :: u in us <==> u == us[0] || u in us[1..];
      x := EraseUpdates(was, mid, p, f, us[1..]);
    } else {
      x := EraseUpdate(was, db, p, f, us[0]);
    }
    ErasedOnTheWay(was, db, mid, ApplyUpdates(db, p, f, us).value, p, p, x);
  }

  lemma {:induction false} EraseUpdate(was: set<Id>, db: Db, p: Id, f: string, u: Update) returns (x: Id)
    requires Numbered(was, db) && !Deleteless(u.data) && ApplyUpdate(db, p, f, u).Some? && HitsUpdate(was, db, u)
    ensures Erased(was, db, ApplyUpdate(db, p, f, u).value, x)
    decreases u, 0
  {
    x := DeletesErase(was, db, u.id, u.data);
  }

  lemma {:induction false} EraseUpserts(was: set<Id>, db: Db, p: Id, f: string, us: seq<Upsert>) returns (x: Id)
    requires Numbered(was, db) && (exists u <- us :: !Deleteless(u.data)) && ApplyUpserts(db, p, f, us).Some?
    requires HitsUpserts(was, db, p, f, us)
    ensures Erased(was, db, ApplyUpserts(db, p, f, us).value, x)
    decreases us, 0
  {
    var mid := ApplyUpsert(db, p, f, us[0]).value;
    OnwardUpsert(db, p, f, us[0]);
    OnwardUpserts(mid, p, f, us[1..]);
    if Deleteless(us[0].data) {
      assert forall u :: u in us <==> u == us[0] || u in us[1..];
      x := EraseUpserts(was, mid, p, f, us[1..]);
    } else {
      x := EraseUpsert(was, db, p, f, us[0]);
    }
    ErasedOnTheWay(was, db, mid, ApplyUpserts(db, p, f, us).value, p, p, x);
  }

  lemma {:induction false} EraseUpsert(was: set<Id>, db: Db, p: Id, f: string, u: Upsert) returns (x: Id)
    requires Numbered(was, db) && !Deleteless(u.data) && db.IsChild(p, f, u.id) && HitsUpsert(was, db, u)
    requires ApplyUpsert(db, p, f, u).Some?
    ensures Erased(was, db, ApplyUpsert(db, p, f, u).value, x)
    decreases u, 0
  {
    x := DeletesErase(was, db, u.id, u.data);
  }

  /** The condition is exact: a rewritten tree whose every entry hits a row erases nothing if
      and only if the walk reaches every delete. */
  lemma ErasesNothingExactly(now: int, db: Db, id: Id, d: Data)
    requires db.Valid() && Apply(db, id, Rewrite(now, d)).Some?
    requires Hits(db.rows.Keys, db, id, Rewrite(now, d))
    ensures Keeps(db, Apply(db, id, Rewrite(now, d)).value) <==> DeletesWalked(d)
  {
    RewriteLeavesNoDelete(now, d);
    if DeletesWalked(d) {
      DeletelessKeeps(db, id, Rewrite(now, d));
    } else {
      var x := DeletesErase(db.rows.Keys, db, id, Rewrite(now, d));
    }
  }

  /** Bulk deletion of every row of a relation. */
  const ALL := DeletingMany([map[]])

  lemma AllGone(db: Db, p: Id, f: string, id: Id)
    requires db.IsChild(p, f, id)
    ensures ApplyNested(db, p, f, [ALL]).Some? && id !in ApplyNested(db, p, f, [ALL]).value.rows
  {
    DeleteManysLeave(db, p, f, [map[]]);
    OneOperation(db, p, f, ALL);
    assert map[] in ALL.wheres && Matches(db.rows[id], map[]);
  }

  lemma ErasingBelow(f: string)
    ensures !Deleteless(Data(map[], RelWrite(f, [ALL], NoRels)))
  {
    assert ALL in [ALL] && !DeletelessOperation(ALL);
    assert !DeletelessNested([ALL]);
    assert !DeletelessRels(RelWrite(f, [ALL], NoRels));
  }

  /** An update of a product that reaches, through its category written without a where, a
      deleteMany of the category's products: it arrives unrewritten and erases the product. */
  lemma ToOneUpdateErases(now: int) returns (db: Db, d: Data)
    ensures db.Valid() && 1 in db.rows && Live(db.rows[1].columns) && !DeletesWalked(d)
    ensures Apply(db, 1, Rewrite(now, d)).Some? && 1 !in Apply(db, 1, Rewrite(now, d)).value.rows
  {
    var category, product := Row(0, "categories", map[]), Row(0, "products", map[]);
    db := Db(map[0 := category, 1 := product], 2);
    var inner := Data(map[], RelWrite("products", [ALL], NoRels));
    d := Data(map[], ToOneUpdate("category", None, inner, NoRels));
    ErasingBelow("products");
    assert !DeletesWalkedRels(d.rels);
    assert RewriteRels(now, NoRels) == NoRels && RewriteRels(now, d.rels) == d.rels;
    assert WriteRow(db, 1, map[]) == db && WriteRow(db, 0, map[]) == db;
    AllGone(db, 0, "products", 1);
    var after := ApplyNested(db, 0, "products", [ALL]).value;
    assert ApplyRels(after, 0, NoRels) == ApplyRels(after, 1, NoRels) == Some(after);
    assert ApplyRels(db, 0, inner.rels) == Some(after);
    assert Apply(db, 0, inner) == Some(after) && db.Reaches(1, None);
    assert ApplyRels(db, 1, d.rels) == Some(after);
    assert Apply(db, 1, d) == Some(after);
  }

  /** The same below the update branch of a nested upsert. */
  lemma UpsertErases(now: int) returns (db: Db, d: Data)
    ensures db.Valid() && 2 in db.rows && Live(db.rows[2].columns) && !DeletesWalked(d)
    ensures Apply(db, 0, Rewrite(now, d)).Some? && 2 !in Apply(db, 0, Rewrite(now, d)).value.rows
  {
    var product, variant, batch := Row(9, "products", map[]), Row(0, "variants", map[]), Row(1, "stockBatches", map[]);
    db := Db(map[0 := product, 1 := variant, 2 := batch], 10);
    var inner := Data(map[], RelWrite("stockBatches", [ALL], NoRels));
    d := Data(map[], RelWrite("variants", [Upserting([Upsert(1, map[], inner)])], NoRels));
    ErasingBelow("stockBatches");
    UpsertUnwalked(now, Upsert(1, map[], inner));
    AllGone(db, 1, "stockBatches", 2);
    UpsertRuns(db, Upsert(1, map[], inner), inner);
  }

  lemma UpsertUnwalked(now: int, entry: Upsert)
    requires !Deleteless(entry.data)
    ensures var d := Data(map[], RelWrite("variants", [Upserting([entry])], NoRels));
            !DeletesWalked(d) && Rewrite(now, d) == d
  {
    var o := Upserting([entry]);
    var rels := RelWrite("variants", [o], NoRels);
    assert entry in o.upserts && o in [o] && !DeletesWalkedOperation(o);
    assert !DeletesWalkedNested([o]) && !DeletesWalkedRels(rels);
    UpsertSent(now, o);
    assert RewriteRels(now, NoRels) == NoRels && RewriteRels(now, rels) == rels;
  }

  lemma UpsertRuns(db: Db, entry: Upsert, inner: Data)
    requires inner == Data(map[], RelWrite("stockBatches", [ALL], NoRels)) && entry == Upsert(1, map[], inner)
    requires 0 in db.rows && db.IsChild(0, "variants", 1) && ApplyNested(db, 1, "stockBatches", [ALL]).Some?
    ensures var d := Data(map[], RelWrite("variants", [Upserting([entry])], NoRels));
            Apply(db, 0, d) == ApplyNested(db, 1, "stockBatches", [ALL])
  {
    var after, o := ApplyNested(db, 1, "stockBatches", [ALL]).value, Upserting([entry]);
    assert Write(db.rows[0], map[]) == db.rows[0] && Write(db.rows[1], map[]) == db.rows[1];
    assert WriteRow(db, 0, map[]) == db && WriteRow(db, 1, map[]) == db;
    assert ApplyRels(after, 0, NoRels) == ApplyRels(after, 1, NoRels) == Some(after);
    assert ApplyRels(db, 1, inner.rels) == Some(after);
    assert Apply(db, 1, inner) == Some(after);
    assert ApplyUpsert(db, 0, "variants", entry) == Some(after);
    assert [entry][1..] == [] && ApplyUpserts(after, 0, "variants", []) == Some(after);
    assert ApplyUpserts(db, 0, "variants", o.upserts) == Some(after);
    OneOperation(db, 0, "variants", o);
    assert ApplyRels(db, 0, RelWrite("variants", [o], NoRels)) == Some(after);
  }

  lemma UpsertSent(now: int, o: Operation)
    requires o.Upserting?
    ensures RewriteNested(now, [o]) == [o]
  {
    var ids, wheres := IdsDeleted([o]), WheresDeleted([o]);
    assert [o][1..] == [] && RewriteOperations(now, [], ids, wheres) == [];
    assert RewriteOperation(now, o, ids, wheres) == [o] && RewriteOperations(now, [o], ids, wheres) == [o] + [];
    HasOne(o, DeleteKey);
    HasOne(o, DeleteManyKey);
    assert AddedKeys(now, [o]) == [];
  }
}
