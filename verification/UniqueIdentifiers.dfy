/** The database's unique indexes (prisma/schema.prisma) over the rows a diff writes. */
module UniqueColumns {
  import opened Common
  import opened SoftDeleteColumns
  import opened SoftDeleteWrites

  /** An index on (parent, key) covers every row of the relation, stamped ones included, and never
      counts nulls as equal. */
  predicate Clashes(db: Db, p: Id, f: string, key: string, id: Id, v: Val) {
    v != Null && exists other <- db.rows :: other != id && Carries(db, p, f, key, other, v)
  }

  predicate Carries(db: Db, p: Id, f: string, key: string, id: Id, v: Val) {
    db.IsChild(p, f, id) && ValueOf(db.rows[id].columns, key) == v
  }

  /** Writing these columns to row `id` violates none of the indexes. */
  predicate Admits(db: Db, p: Id, f: string, keys: set<string>, id: Id, columns: Columns) {
    forall key <- keys :: key in columns ==> !Clashes(db, p, f, key, id, columns[key])
  }

  function CreateChecked(db: Db, p: Id, f: string, keys: set<string>, creates: seq<Columns>): Option<Db>
    decreases |creates|
  {
    if creates == [] then Some(db)
    else if !Admits(db, p, f, keys, db.next, creates[0]) then None
    else CreateChecked(AddRow(db, p, f, creates[0]), p, f, keys, creates[1..])
  }

  function UpdateChecked(db: Db, p: Id, f: string, keys: set<string>, us: seq<Update>): Option<Db>
    decreases |us|
  {
    if us == [] then Some(db)
    else if !db.IsChild(p, f, us[0].id) || !Admits(db, p, f, keys, us[0].id, us[0].data.columns) then None else
    var after := Apply(db, us[0].id, us[0].data);
    if after.None? then None else UpdateChecked(after.value, p, f, keys, us[1..])
  }

  /** Creates and updates of one relation, one row at a time, each checked as it is made. */
  predicate OnlyWrites(n: Nested) { forall o <- n :: o.Creating? || o.Updating? }

  function ApplyChecked(db: Db, p: Id, f: string, keys: set<string>, n: Nested): Option<Db>
    requires OnlyWrites(n)
    decreases |n|
  {
    if n == [] then Some(db) else
    var o := n[0];
    var after := if o.Creating? then CreateChecked(db, p, f, keys, o.creates)
                 else UpdateChecked(db, p, f, keys, o.updates);
    if after.None? then None else ApplyChecked(after.value, p, f, keys, n[1..])
  }
}

/** Exactly when a diff gets past the indexes, from the identifiers of the rows and of the
    submission alone. */
module UniqueProofs {
  import opened Common
  import opened SoftDeleteColumns
  import opened SoftDeleteWrites
  import opened ReplaceSets
  import opened ReplaceSetProofs
  import opened UniqueColumns

  // ----- The condition -----

  /** No new row's identifier is another new row's or that of any row there already. */
  ghost predicate CreatesFit(db: Db, p: Id, f: string, key: string, creates: seq<Columns>) {
    && (forall i, j | 0 <= i < j < |creates| ::
          ValueOf(creates[i], key) != Null ==> ValueOf(creates[i], key) != ValueOf(creates[j], key))
    && (forall i, id | 0 <= i < |creates| && db.IsChild(p, f, id) ::
          ValueOf(creates[i], key) != Null ==> ValueOf(db.rows[id].columns, key) != ValueOf(creates[i], key))
  }

  /** What row `id` holds under `key` once the first n updates are made. */
  function ValueAfter(db: Db, ls: seq<Leaf>, n: nat, key: string, id: Id): Val
    requires n <= |ls| && id in db.rows
  {
    if n == 0 then ValueOf(db.rows[id].columns, key)
    else if ls[n - 1].id == id && key in ls[n - 1].columns then ls[n - 1].columns[key]
    else ValueAfter(db, ls, n - 1, key, id)
  }

  /** No update, in its turn, writes an identifier that another row holds at that point. */
  ghost predicate UpdatesFit(db: Db, p: Id, f: string, key: string, ls: seq<Leaf>) {
    forall j, id | 0 <= j < |ls| && db.IsChild(p, f, id) && id != ls[j].id && key in ls[j].columns ::
      ls[j].columns[key] != Null ==> ValueAfter(db, ls, j, key, id) != ls[j].columns[key]
  }

  /** No update writes a new row's identifier. */
  ghost predicate ApartFromNew(key: string, creates: seq<Columns>, ls: seq<Leaf>) {
    forall i, j | 0 <= i < |creates| && 0 <= j < |ls| && key in ls[j].columns ::
      ls[j].columns[key] != Null ==> ValueOf(creates[i], key) != ls[j].columns[key]
  }

  ghost predicate Fits(db: Db, p: Id, f: string, key: string, creates: seq<Columns>, ls: seq<Leaf>) {
    && CreatesFit(db, p, f, key, creates)
    && UpdatesFit(db, p, f, key, ls)
    && ApartFromNew(key, creates, ls)
  }

  // ----- Creates -----

  lemma CreatesFitStep(db: Db, p: Id, f: string, key: string, creates: seq<Columns>)
    requires db.Valid() && creates != []
    ensures var first := AddRow(db, p, f, creates[0]);
            CreatesFit(db, p, f, key, creates)
            <==> !Clashes(db, p, f, key, db.next, ValueOf(creates[0], key))
                 && CreatesFit(first, p, f, key, creates[1..])
  {
    var first, rest := AddRow(db, p, f, creates[0]), creates[1..];
    if CreatesFit(db, p, f, key, creates) {
      forall other <- db.rows
        ensures !(ValueOf(creates[0], key) != Null && Carries(db, p, f, key, other, ValueOf(creates[0], key))) {}
      forall i, id | 0 <= i < |rest| && first.IsChild(p, f, id)
        ensures ValueOf(rest[i], key) != Null ==> ValueOf(first.rows[id].columns, key) != ValueOf(rest[i], key)
      {
        assert rest[i] == creates[i + 1];
        if id != db.next { assert db.IsChild(p, f, id); }
      }
      forall i, j | 0 <= i < j < |rest|
        ensures ValueOf(rest[i], key) != Null ==> ValueOf(rest[i], key) != ValueOf(rest[j], key)
      {
        assert rest[i] == creates[i + 1] && rest[j] == creates[j + 1];
      }
    }
    if !Clashes(db, p, f, key, db.next, ValueOf(creates[0], key)) && CreatesFit(first, p, f, key, rest) {
      forall i, id | 0 <= i < |creates| && db.IsChild(p, f, id)
        ensures ValueOf(creates[i], key) != Null ==> ValueOf(db.rows[id].columns, key) != ValueOf(creates[i], key)
      {
        assert first.IsChild(p, f, id) && (i > 0 ==> creates[i] == rest[i - 1]);
        assert Carries(db, p, f, key, id, ValueOf(db.rows[id].columns, key));
      }
      forall i, j | 0 <= i < j < |creates|
        ensures ValueOf(creates[i], key) != Null ==> ValueOf(creates[i], key) != ValueOf(creates[j], key)
      {
        assert creates[j] == rest[j - 1] && (i > 0 ==> creates[i] == rest[i - 1]);
        assert first.IsChild(p, f, db.next);
      }
    }
  }

  ghost predicate EveryKeyFits(db: Db, p: Id, f: string, keys: set<string>, creates: seq<Columns>) {
    forall key <- keys :: CreatesFit(db, p, f, key, creates)
  }

  lemma AdmitsFirst(db: Db, p: Id, f: string, keys: set<string>, creates: seq<Columns>)
    requires db.Valid() && creates != []
    ensures var first := AddRow(db, p, f, creates[0]);
            EveryKeyFits(db, p, f, keys, creates)
            <==> Admits(db, p, f, keys, db.next, creates[0]) && EveryKeyFits(first, p, f, keys, creates[1..])
  {
    var first := AddRow(db, p, f, creates[0]);
    forall key
      ensures CreatesFit(db, p, f, key, creates)
         <==> (key in creates[0] ==> !Clashes(db, p, f, key, db.next, creates[0][key]))
              && CreatesFit(first, p, f, key, creates[1..])
    {
      CreatesFitStep(db, p, f, key, creates);
    }
  }

  lemma {:induction false} CreateCheckedExactly(db: Db, p: Id, f: string, keys: set<string>, creates: seq<Columns>)
    requires db.Valid()
    ensures var after := CreateChecked(db, p, f, keys, creates);
            && (after.Some? <==> EveryKeyFits(db, p, f, keys, creates))
            && (after.Some? ==> after.value == CreateAll(db, p, f, creates))
    decreases |creates|
  {
    if creates == [] {
    } else {
      AdmitsFirst(db, p, f, keys, creates);
      CreateCheckedExactly(AddRow(db, p, f, creates[0]), p, f, keys, creates[1..]);
    }
  }

  // ----- Updates -----

  function Written(db: Db, l: Leaf): Db
    requires l.id in db.rows
  {
    db.(rows := db.rows[l.id := Write(db.rows[l.id], l.columns)])
  }

  lemma {:induction false} ValueAfterFirst(db: Db, ls: seq<Leaf>, n: nat, key: string, id: Id)
    requires n < |ls| && id in db.rows && ls[0].id in db.rows
    ensures ValueAfter(db, ls, n + 1, key, id) == ValueAfter(Written(db, ls[0]), ls[1..], n, key, id)
  {
    if n == 0 {
      assert ValueAfter(db, ls, 0, key, id) == ValueOf(db.rows[id].columns, key);
    } else {
      ValueAfterFirst(db, ls, n - 1, key, id);
      assert ls[n] == ls[1..][n - 1];
    }
  }

  /** The first update admitted, and the rest as they will find things. */
  ghost predicate FirstFits(db: Db, p: Id, f: string, key: string, l: Leaf) {
    key in l.columns ==> !Clashes(db, p, f, key, l.id, l.columns[key])
  }

  lemma UpdatesFitStep(db: Db, p: Id, f: string, key: string, ls: seq<Leaf>)
    requires ls != [] && ls[0].id in db.rows
    ensures UpdatesFit(db, p, f, key, ls)
       <==> FirstFits(db, p, f, key, ls[0]) && UpdatesFit(Written(db, ls[0]), p, f, key, ls[1..])
  {
    var first, rest := Written(db, ls[0]), ls[1..];
    if UpdatesFit(db, p, f, key, ls) {
      if key in ls[0].columns {
        forall id <- db.rows | id != ls[0].id && ls[0].columns[key] != Null
          ensures !Carries(db, p, f, key, id, ls[0].columns[key])
        {
          assert ValueAfter(db, ls, 0, key, id) == ValueOf(db.rows[id].columns, key);
        }
      }
      forall j, id | 0 <= j < |rest| && first.IsChild(p, f, id) && id != rest[j].id && key in rest[j].columns
        ensures rest[j].columns[key] != Null ==> ValueAfter(first, rest, j, key, id) != rest[j].columns[key]
      {
        assert rest[j] == ls[j + 1] && db.IsChild(p, f, id);
        ValueAfterFirst(db, ls, j, key, id);
      }
    }
    if FirstFits(db, p, f, key, ls[0]) && UpdatesFit(first, p, f, key, rest) {
      forall j, id | 0 <= j < |ls| && db.IsChild(p, f, id) && id != ls[j].id && key in ls[j].columns
        ensures ls[j].columns[key] != Null ==> ValueAfter(db, ls, j, key, id) != ls[j].columns[key]
      {
        if j == 0 {
          assert Carries(db, p, f, key, id, ValueOf(db.rows[id].columns, key));
        } else {
          assert ls[j] == rest[j - 1] && first.IsChild(p, f, id);
          ValueAfterFirst(db, ls, j - 1, key, id);
        }
      }
    }
  }

  lemma {:induction false} UpdateCheckedExactly(db: Db, p: Id, f: string, keys: set<string>, ls: seq<Leaf>)
    requires forall l <- ls :: db.IsChild(p, f, l.id)
    ensures var after := UpdateChecked(db, p, f, keys, Leaves(ls));
            && (after.Some? <==> forall key <- keys :: UpdatesFit(db, p, f, key, ls))
            && (after.Some? ==> after == ApplyUpdates(db, p, f, Leaves(ls)))
    decreases |ls|
  {
    if ls == [] {
    } else {
      var first := Written(db, ls[0]);
      LeafApplies(db, p, f, ls[0]);
      forall l <- ls[1..] ensures first.IsChild(p, f, l.id) { assert l in ls; }
      UpdateCheckedExactly(first, p, f, keys, ls[1..]);
      forall key <- keys
        ensures UpdatesFit(db, p, f, key, ls)
           <==> FirstFits(db, p, f, key, ls[0]) && UpdatesFit(first, p, f, key, ls[1..])
      {
        UpdatesFitStep(db, p, f, key, ls);
      }
      assert Admits(db, p, f, keys, ls[0].id, ls[0].columns) <==> forall key <- keys :: FirstFits(db, p, f, key, ls[0]);
    }
  }

  // ----- A whole diff -----

  /** What updates will find after the creates: the rows there before, and the new ones. */
  lemma {:induction false} ValueAfterCreates(db: Db, created: Db, ls: seq<Leaf>, n: nat, key: string, id: Id)
    requires n <= |ls| && id in created.rows && forall l <- ls :: l.id in db.rows
    requires forall x <- db.rows :: x in created.rows && created.rows[x] == db.rows[x]
    ensures if id in db.rows then ValueAfter(created, ls, n, key, id) == ValueAfter(db, ls, n, key, id)
            else ValueAfter(created, ls, n, key, id) == ValueOf(created.rows[id].columns, key)
  {
    if n == 0 {
    } else {
      ValueAfterCreates(db, created, ls, n - 1, key, id);
      assert ls[n - 1] in ls;
    }
  }

  lemma UpdatesFitAfterCreates(db: Db, created: Db, p: Id, f: string, key: string, creates: seq<Columns>, ls: seq<Leaf>)
    requires db.Valid() && Created(db, created, p, f, creates) && forall l <- ls :: db.IsChild(p, f, l.id)
    ensures UpdatesFit(created, p, f, key, ls) <==> UpdatesFit(db, p, f, key, ls) && ApartFromNew(key, creates, ls)
  {
    forall j, id | 0 <= j < |ls| && id in created.rows
      ensures if id in db.rows then ValueAfter(created, ls, j, key, id) == ValueAfter(db, ls, j, key, id)
              else ValueAfter(created, ls, j, key, id) == ValueOf(created.rows[id].columns, key)
    {
      ValueAfterCreates(db, created, ls, j, key, id);
    }
    if UpdatesFit(created, p, f, key, ls) {
      forall j, id | 0 <= j < |ls| && db.IsChild(p, f, id) && id != ls[j].id && key in ls[j].columns
        ensures ls[j].columns[key] != Null ==> ValueAfter(db, ls, j, key, id) != ls[j].columns[key]
      {
        assert created.IsChild(p, f, id);
      }
      forall i, j | 0 <= i < |creates| && 0 <= j < |ls| && key in ls[j].columns
        ensures ls[j].columns[key] != Null ==> ValueOf(creates[i], key) != ls[j].columns[key]
      {
        assert ls[j] in ls && created.rows[db.next + i] == Row(p, f, creates[i]);
        assert created.IsChild(p, f, db.next + i) && db.next + i != ls[j].id;
      }
    }
    if UpdatesFit(db, p, f, key, ls) && ApartFromNew(key, creates, ls) {
      forall j, id: Id | 0 <= j < |ls| && created.IsChild(p, f, id) && id != ls[j].id && key in ls[j].columns
        ensures ls[j].columns[key] != Null ==> ValueAfter(created, ls, j, key, id) != ls[j].columns[key]
      {
        if id in db.rows {
          assert db.IsChild(p, f, id);
        } else {
          assert created.rows[db.next + (id - db.next)] == Row(p, f, creates[id - db.next]);
        }
      }
    }
  }

  /** Stamps write no identifier. */
  lemma StampsFit(db: Db, p: Id, f: string, key: string, ls: seq<Leaf>, stamps: seq<Leaf>)
    requires forall l <- stamps :: key !in l.columns
    ensures UpdatesFit(db, p, f, key, ls + stamps) <==> UpdatesFit(db, p, f, key, ls)
  {
    var all := ls + stamps;
    forall n, id | 0 <= n <= |ls| && id in db.rows
      ensures ValueAfter(db, all, n, key, id) == ValueAfter(db, ls, n, key, id)
    {
      ValueAfterPrefix(db, ls, stamps, n, key, id);
    }
    forall j | 0 <= j < |all| ensures if j < |ls| then all[j] == ls[j] else key !in all[j].columns {
      PartOf(ls, stamps, j);
    }
  }

  lemma PartOf<T>(a: seq<T>, b: seq<T>, j: nat)
    requires j < |a + b|
    ensures if j < |a| then (a + b)[j] == a[j] else (a + b)[j] in b
  {}

  lemma {:induction false} ValueAfterPrefix(db: Db, ls: seq<Leaf>, more: seq<Leaf>, n: nat, key: string, id: Id)
    requires n <= |ls| && id in db.rows
    ensures ValueAfter(db, ls + more, n, key, id) == ValueAfter(db, ls, n, key, id)
  {
    if n == 0 {
    } else {
      ValueAfterPrefix(db, ls, more, n - 1, key, id);
      assert (ls + more)[n - 1] == ls[n - 1];
    }
  }

  /** A diff with flat updates, rewritten: it gets past the indexes exactly when its identifiers
      fit, and then does what it does without them. */
  lemma DiffAdmittedExactly(now: int, db: Db, p: Id, f: string, keys: set<string>, creates: seq<Columns>,
      ls: seq<Leaf>, dels: seq<Id>)
    requires db.Valid() && DELETED_AT !in keys
    requires forall l <- ls :: db.IsChild(p, f, l.id)
    requires forall id <- dels :: db.IsChild(p, f, id)
    ensures var sent := RewriteNested(now, Diff(creates, Leaves(ls), dels));
            && OnlyWrites(sent)
            && var after := ApplyChecked(db, p, f, keys, sent);
               && (after.Some? <==> forall key <- keys :: Fits(db, p, f, key, creates, ls))
               && (after.Some? ==> after == ApplyNested(db, p, f, sent))
  {
    var all := ls + Map(dels, (id: Id) => Leaf(id, Stamp(now)));
    DiffSent(now, creates, Leaves(ls), dels);
    LeavesRewrite(now, ls, dels);
    DiffRuns(now, db, p, f, creates, Leaves(ls), dels);
    CheckedInTurn(db, p, f, keys, creates, Leaves(all));
    CreatesWrite(db, p, f, creates);
    CreateCheckedExactly(db, p, f, keys, creates);
    UpdatesAdmitted(now, db, CreateAll(db, p, f, creates), p, f, keys, creates, ls, dels);
  }

  lemma CheckedInTurn(db: Db, p: Id, f: string, keys: set<string>, creates: seq<Columns>, us: seq<Update>)
    ensures OnlyWrites(SentDiff(creates, us))
    ensures var created := CreateChecked(db, p, f, keys, creates);
            ApplyChecked(db, p, f, keys, SentDiff(creates, us))
              == if created.None? then None else UpdateChecked(created.value, p, f, keys, us)
  {
    var b, n := Unless(us == [], Updating(us)), SentDiff(creates, us);
    var created := CreateChecked(db, p, f, keys, creates);
    if creates == [] {
      assert n == b;
    } else {
      assert n[0] == Creating(creates) && n[1..] == b;
    }
    if us != [] { assert b[1..] == []; }
    if created.Some? {
      assert ApplyChecked(created.value, p, f, keys, b) == UpdateChecked(created.value, p, f, keys, us);
    }
  }

  lemma UpdatesAdmitted(now: int, db: Db, created: Db, p: Id, f: string, keys: set<string>, creates: seq<Columns>,
      ls: seq<Leaf>, dels: seq<Id>)
    requires db.Valid() && DELETED_AT !in keys && Created(db, created, p, f, creates)
    requires forall l <- ls :: db.IsChild(p, f, l.id)
    requires forall id <- dels :: db.IsChild(p, f, id)
    ensures var all := ls + Map(dels, (id: Id) => Leaf(id, Stamp(now)));
            var after := UpdateChecked(created, p, f, keys, Leaves(all));
            && (after.Some? <==> forall key <- keys :: UpdatesFit(db, p, f, key, ls) && ApartFromNew(key, creates, ls))
            && (after.Some? ==> after == ApplyUpdates(created, p, f, Leaves(all)))
  {
    var stamps := Map(dels, (id: Id) => Leaf(id, Stamp(now)));
    var all := ls + stamps;
    forall l <- all ensures created.IsChild(p, f, l.id) {
      if l in ls { assert db.IsChild(p, f, l.id); } else { StampOf(now, dels, l); }
    }
    UpdateCheckedExactly(created, p, f, keys, all);
    forall key <- keys
      ensures UpdatesFit(created, p, f, key, all) <==> UpdatesFit(db, p, f, key, ls) && ApartFromNew(key, creates, ls)
    {
      StampsFit(created, p, f, key, ls, stamps);
      UpdatesFitAfterCreates(db, created, p, f, key, creates, ls);
    }
  }

  lemma StampOf(now: int, dels: seq<Id>, l: Leaf)
    requires l in Map(dels, (id: Id) => Leaf(id, Stamp(now)))
    ensures l.id in dels
  {
    var k :| 0 <= k < |dels| && l == Leaf(dels[k], Stamp(now));
    assert dels[k] in dels;
  }

  // ----- Variants -----

  /** @@unique([productId, sku]) and @@unique([productId, barcode]). */
  const IDENTIFIERS := {"sku", "barcode"}

  /** The submission's identifiers against those of the product's rows, live and deleted. */
  ghost predicate IdentifiersFit(db: Db, product: Id, key: string, submitted: seq<VariantInput>) {
    var all := Map(submitted, VariantColumns);
    Fits(db, product, "variants", key, NewColumns(all), LeavesOf(all))
  }

  /** A variant submission that is accepted, rewritten and sent: the database takes it exactly
      when its SKUs fit and its barcodes fit, and then it leaves exactly the submitted variants
      live, keeps ids, and stamps the rest. */
  lemma VariantsReplaced(now: int, db: Db, product: Id, current: seq<Id>, submitted: seq<VariantInput>)
    requires db.Valid() && ListsLive(db, product, "variants", current)
    requires BuildVariantReplaceSet(current, submitted).Accepted?
    ensures var sent := RewriteNested(now, BuildVariantReplaceSet(current, submitted).value);
            && OnlyWrites(sent)
            && var after := ApplyChecked(db, product, "variants", IDENTIFIERS, sent);
               && (after.Some? <==>
                     IdentifiersFit(db, product, "sku", submitted) && IdentifiersFit(db, product, "barcode", submitted))
               && (after.Some? ==>
                     Replaced(now, db, after.value, product, "variants", current, Map(submitted, VariantColumns)))
  {
    var all := Map(submitted, VariantColumns);
    PlainVariants(submitted);
    ReplaceSetIsExact(now, db, product, "variants", current, all);
    VariantsAdmitted(now, db, product, current, all);
    EachIdentifier(db, product, submitted);
  }

  lemma PlainVariants(submitted: seq<VariantInput>)
    ensures forall s <- Map(submitted, VariantColumns) :: DELETED_AT !in s.columns
  {
    var all := Map(submitted, VariantColumns);
    forall s <- all ensures DELETED_AT !in s.columns {
      var k :| 0 <= k < |all| && all[k] == s;
      PlainColumns(submitted[k], ModifierInput(None, "", 0));
    }
  }

  lemma EachIdentifier(db: Db, product: Id, submitted: seq<VariantInput>)
    ensures EveryIdentifierFits(db, product, Map(submitted, VariantColumns))
       <==> IdentifiersFit(db, product, "sku", submitted) && IdentifiersFit(db, product, "barcode", submitted)
  {
    assert forall key :: key in IDENTIFIERS <==> key == "sku" || key == "barcode";
  }

  lemma VariantsAdmitted(now: int, db: Db, product: Id, current: seq<Id>, all: seq<Submitted>)
    requires db.Valid() && ListsLive(db, product, "variants", current)
    requires BuildReplaceSet(current, all).Accepted?
    ensures var sent := RewriteNested(now, BuildReplaceSet(current, all).value);
            && OnlyWrites(sent)
            && var after := ApplyChecked(db, product, "variants", IDENTIFIERS, sent);
               && (after.Some? <==> EveryIdentifierFits(db, product, all))
               && (after.Some? ==> after == ApplyNested(db, product, "variants", sent))
  {
    var ls, dels := LeavesOf(all), GoneFrom(current, all);
    assert BuildReplaceSet(current, all).value == Diff(NewColumns(all), Leaves(ls), dels);
    NamedAreChildren(db, product, current, all);
    assert |DELETED_AT| == 9 && |"sku"| == 3 && |"barcode"| == 7;
    DiffAdmittedExactly(now, db, product, "variants", IDENTIFIERS, NewColumns(all), ls, dels);
  }

  ghost predicate EveryIdentifierFits(db: Db, product: Id, all: seq<Submitted>) {
    forall key <- IDENTIFIERS :: Fits(db, product, "variants", key, NewColumns(all), LeavesOf(all))
  }

  lemma NamedAreChildren(db: Db, product: Id, current: seq<Id>, all: seq<Submitted>)
    requires ListsLive(db, product, "variants", current) && BuildReplaceSet(current, all).Accepted?
    ensures forall l <- LeavesOf(all) :: db.IsChild(product, "variants", l.id)
    ensures forall id <- GoneFrom(current, all) :: db.IsChild(product, "variants", id)
  {
    RefusedExactly(current, all);
    GoneAre(current, all);
    forall l <- LeavesOf(all) ensures db.IsChild(product, "variants", l.id) {
      assert Submitted(Some(l.id), l.columns) in all && l.id in IdsOf(all) && l.id in (set id <- current);
    }
  }

  /** The columns of a submission without an id are among those created. */
  lemma {:induction false} NewIsCreated(submitted: seq<Submitted>, s: Submitted)
    requires s in submitted && s.id.None?
    ensures s.columns in NewColumns(submitted)
  {
    if s == submitted[0] {
    } else {
      NewIsCreated(submitted[1..], s);
    }
  }

  /** So a SKU any row of the product ever had, live, about to be deleted or deleted long ago,
      cannot be given to a new variant: every such submission is accepted and then refused by
      the database. */
  lemma HeldSkuRefused(now: int, db: Db, product: Id, current: seq<Id>, submitted: seq<VariantInput>, v: VariantInput,
      id: Id)
    requires db.Valid() && ListsLive(db, product, "variants", current)
    requires BuildVariantReplaceSet(current, submitted).Accepted?
    requires v in submitted && v.id.None? && v.sku.Some?
    requires Carries(db, product, "variants", "sku", id, Text(v.sku.value))
    ensures var sent := RewriteNested(now, BuildVariantReplaceSet(current, submitted).value);
            OnlyWrites(sent) && ApplyChecked(db, product, "variants", IDENTIFIERS, sent).None?
  {
    var all := Map(submitted, VariantColumns);
    VariantsReplaced(now, db, product, current, submitted);
    var k :| 0 <= k < |submitted| && submitted[k] == v;
    assert all[k] == VariantColumns(v);
    NewIsCreated(all, VariantColumns(v));
    var i :| 0 <= i < |NewColumns(all)| && NewColumns(all)[i] == VariantColumns(v).columns;
    SkuOf(v);
    assert db.IsChild(product, "variants", id);
  }

  lemma SkuOf(v: VariantInput)
    ensures ValueOf(VariantColumns(v).columns, "sku") == TextOrNull(v.sku)
  {
    assert |"sku"| == 3 && |"barcode"| == 7 && |"price"| == 5 && |"cost"| == 4 && |"name"| == 4;
  }

  /** Replacing a variant by a new one with the same SKU: the input at which an accepted
      submission fails. */
  lemma ReplacedSkuRefused(now: int) returns (db: Db, current: seq<Id>, submitted: seq<VariantInput>)
    ensures db.Valid() && ListsLive(db, 0, "variants", current) && BuildVariantReplaceSet(current, submitted).Accepted?
    ensures submitted == [VariantInput(None, "B", Some("X"), None, 0, None)]
    ensures var sent := RewriteNested(now, BuildVariantReplaceSet(current, submitted).value);
            OnlyWrites(sent) && ApplyChecked(db, 0, "variants", IDENTIFIERS, sent).None?
  {
    var v, columns := VariantInput(None, "B", Some("X"), None, 0, None), map["sku" := Text("X")];
    db, current, submitted := Db(map[1 := Row(0, "variants", columns)], 10), [1], [v];
    assert |"sku"| == 3 && |DELETED_AT| == 9;
    assert ValueOf(columns, DELETED_AT) == Null && LiveChild(db, 0, "variants", 1);
    NewOnlyAccepted(current, v);
    HeldSkuRefused(now, db, 0, current, submitted, v, 1);
  }

  lemma NewOnlyAccepted(current: seq<Id>, v: VariantInput)
    requires v.id.None?
    ensures BuildVariantReplaceSet(current, [v]).Accepted?
  {
    RefusedExactly(current, Map([v], VariantColumns));
    assert Map([v], VariantColumns) == [VariantColumns(v)];
    assert LeavesOf([VariantColumns(v)]) == LeavesOf([VariantColumns(v)][1..]) == [];
  }

  /** Two kept variants cannot trade SKUs: if one takes what another still holds when its turn
      comes, the submission is refused, even though afterwards no two would share one. */
  lemma TradedSkuRefused(now: int, db: Db, product: Id, current: seq<Id>, submitted: seq<VariantInput>, j: nat, k: nat)
    requires db.Valid() && ListsLive(db, product, "variants", current)
    requires BuildVariantReplaceSet(current, submitted).Accepted?
    requires var ls := LeavesOf(Map(submitted, VariantColumns));
             && j < k < |ls| && ls[k].id in db.rows && "sku" in ls[j].columns && ls[j].columns["sku"] != Null
             && ls[j].columns["sku"] == ValueOf(db.rows[ls[k].id].columns, "sku")
    ensures var sent := RewriteNested(now, BuildVariantReplaceSet(current, submitted).value);
            OnlyWrites(sent) && ApplyChecked(db, product, "variants", IDENTIFIERS, sent).None?
  {
    var all := Map(submitted, VariantColumns);
    var ls := LeavesOf(all);
    VariantsReplaced(now, db, product, current, submitted);
    RefusedExactly(current, all);
    assert Submitted(Some(ls[k].id), ls[k].columns) in all && ls[k].id in IdsOf(all) && ls[k].id in (set id <- current);
    assert db.IsChild(product, "variants", ls[k].id);
    Untouched(db, ls, j, "sku", k);
  }

  /** A row keeps its value until its own update. */
  lemma {:induction false} Untouched(db: Db, ls: seq<Leaf>, n: nat, key: string, k: nat)
    requires n <= k < |ls| && DistinctTargets(ls) && ls[k].id in db.rows
    ensures ValueAfter(db, ls, n, key, ls[k].id) == ValueOf(db.rows[ls[k].id].columns, key)
  {
    if n == 0 {
    } else {
      assert ls[n - 1].id != ls[k].id;
      Untouched(db, ls, n - 1, key, k);
    }
  }

  // ----- Links -----

  /** The link diff always gets past the unique index on (product, group). */
  lemma LinkDiffAdmitted(now: int, db: Db, p: Id, links: seq<Link>, desired: seq<Id>)
    requires db.Valid() && ListsLinks(db, p, links) && OnePerGroup(db, p)
    requires LinkReplaceSet(links, desired).Some?
    ensures var sent := RewriteNested(now, LinkReplaceSet(links, desired).value);
            OnlyWrites(sent) && ApplyChecked(db, p, LINKS, {GROUP}, sent) == ApplyNested(db, p, LINKS, sent)
            && ApplyChecked(db, p, LINKS, {GROUP}, sent).Some?
  {
    var byGroup, newGroups, restore, del := DiffParts(db, p, links, desired);
    var creates, ls := Map(newGroups, LinkTo), Map(restore, (id: Id) => Leaf(id, map[DELETED_AT := Null]));
    RestoreLeaves(restore);
    LinkTargetsWrite(db, p, links, desired, restore, del);
    LinksFit(db, p, links, byGroup, newGroups, ls);
    assert |GROUP| == 7 && |DELETED_AT| == 9;
    DiffAdmittedExactly(now, db, p, LINKS, {GROUP}, creates, ls, del);
    assert LinkReplaceSet(links, desired).value == Diff(creates, Leaves(ls), del);
  }

  lemma LinksFit(db: Db, p: Id, links: seq<Link>, byGroup: map<Id, Link>, newGroups: seq<Id>, ls: seq<Leaf>)
    requires ListsLinks(db, p, links) && OnePerGroup(db, p) && byGroup == ByGroup(links)
    requires NoRepeats(newGroups) && forall g <- newGroups :: g !in byGroup
    requires forall l <- ls :: GROUP !in l.columns
    ensures forall key <- {GROUP} :: Fits(db, p, LINKS, key, Map(newGroups, LinkTo), ls)
  {
    NewGroupsFit(db, p, links, byGroup, newGroups);
    KeyUnwritten(db, p, LINKS, GROUP, Map(newGroups, LinkTo), ls);
  }

  lemma LinkTargetsWrite(db: Db, p: Id, links: seq<Link>, desired: seq<Id>, restore: seq<Id>, del: seq<Id>)
    requires ListsLinks(db, p, links) && OnePerGroup(db, p)
    requires restore == ToRestore(ByGroup(links), Deduplicated(desired)) && del == ToDelete(links, desired)
    ensures forall l <- Map(restore, (id: Id) => Leaf(id, map[DELETED_AT := Null])) ::
              db.IsChild(p, LINKS, l.id) && GROUP !in l.columns
    ensures forall id <- del :: db.IsChild(p, LINKS, id)
  {
    var ls := Map(restore, (id: Id) => Leaf(id, map[DELETED_AT := Null]));
    RestoredAre(db, p, links, desired);
    assert |GROUP| == 7 && |DELETED_AT| == 9;
    forall l <- ls ensures db.IsChild(p, LINKS, l.id) && GROUP !in l.columns {
      var k :| 0 <= k < |restore| && ls[k] == l;
      assert restore[k] in restore;
    }
    forall id <- del ensures db.IsChild(p, LINKS, id) { DeletedAre(db, p, links, desired, id); }
  }

  lemma NewGroupsFit(db: Db, p: Id, links: seq<Link>, byGroup: map<Id, Link>, newGroups: seq<Id>)
    requires ListsLinks(db, p, links) && OnePerGroup(db, p) && byGroup == ByGroup(links)
    requires NoRepeats(newGroups) && forall g <- newGroups :: g !in byGroup
    ensures CreatesFit(db, p, LINKS, GROUP, Map(newGroups, LinkTo))
  {
    var creates := Map(newGroups, LinkTo);
    forall i | 0 <= i < |creates| ensures ValueOf(creates[i], GROUP) == Num(newGroups[i]) {
      assert creates[i] == LinkTo(newGroups[i]);
    }
    forall i, id | 0 <= i < |creates| && db.IsChild(p, LINKS, id)
      ensures ValueOf(db.rows[id].columns, GROUP) != ValueOf(creates[i], GROUP)
    {
      var l := LinkOf(db, p, links, id);
      assert newGroups[i] in newGroups;
    }
  }

  /** Updates that leave a key alone cannot clash on it. */
  lemma KeyUnwritten(db: Db, p: Id, f: string, key: string, creates: seq<Columns>, ls: seq<Leaf>)
    requires forall l <- ls :: key !in l.columns
    ensures UpdatesFit(db, p, f, key, ls) && ApartFromNew(key, creates, ls)
  {}
}
