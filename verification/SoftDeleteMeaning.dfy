/** What a rewritten write tree means: the tree as written, on tables that really delete. */
module SoftDeleteWriteProofs {
  import opened Common
  import opened SoftDeleteColumns
  import opened SoftDeleteWrites
  import opened SoftDeleteFrames
  import opened SoftDeleteOrder
  import opened SoftDeleteApart

  /** Trees the rewrite keeps the meaning of: no delete moved where it matters, no updateMany
      that may revive, no upsert, and no bare to-one delete where the walk would have it
      refused. `walked` says whether the walk reaches this part of the tree. */
  predicate Faithful(walked: bool, d: Data)
    decreases d, 0
  {
    FaithfulRels(walked, d.rels)
  }

  predicate FaithfulRels(walked: bool, r: RelWrites)
    decreases r, 0
  {
    match r
    case NoRels => true
    case RelWrite(field, nested, rest) => FaithfulNested(walked, field, nested) && FaithfulRels(walked, rest)
    case ToOneUpdate(_, where, data, rest) => Faithful(walked && where.Some?, data) && FaithfulRels(walked, rest)
    case ToOneDelete(_, where, rest) => (walked ==> where.Some?) && FaithfulRels(walked, rest)
    case Refused => true
  }

  predicate FaithfulNested(walked: bool, f: string, n: Nested)
    decreases n, 1
  {
    (walked ==> KeysOnce(n) && InOrder(f, n)) && FaithfulOperations(walked, n)
  }

  predicate FaithfulOperations(walked: bool, n: Nested)
    decreases n, 0
  {
    forall o <- n :: FaithfulOperation(walked, o)
  }

  predicate FaithfulOperation(walked: bool, o: Operation)
    decreases o, 0
  {
    match o
    case Upserting(upserts) => upserts == []
    case Updating(updates) => forall u <- updates :: Faithful(walked, u.data)
    case UpdatingMany(bulk) => forall u <- bulk :: Harmless(u)
    case _ => true
  }

  // ----- Keys -----

  lemma KeysStep(n: Nested, k: nat)
    requires k < |n| && KeysOnce(n)
    ensures forall key :: HasBefore(n, k + 1, key) <==> HasBefore(n, k, key) || n[k].Key() == key
    ensures !HasBefore(n, k, n[k].Key())
  {
    HasBeforeExactly(n, k, n[k].Key());
  }

  lemma NoneDeleted(n: Nested)
    ensures !Has(n, DeleteKey) ==> IdsDeleted(n) == []
    ensures !Has(n, DeleteManyKey) ==> WheresDeleted(n) == []
  {
    HasExactly(n, DeleteKey);
    HasExactly(n, DeleteManyKey);
    NothingDeleted(n);
  }

  lemma {:induction false} NothingDeleted(n: Nested)
    ensures (forall o <- n :: o.Key() != DeleteKey) ==> IdsDeleted(n) == []
    ensures (forall o <- n :: o.Key() != DeleteManyKey) ==> WheresDeleted(n) == []
  {
    if n == [] {
    } else {
      NothingDeleted(n[1..]);
      assert n[0].Deleting? ==> n[0].Key() == DeleteKey;
      assert n[0].DeletingMany? ==> n[0].Key() == DeleteManyKey;
    }
  }

  lemma {:induction false} DeletedOnce(n: Nested, k: nat)
    requires k < |n| && KeysOnce(n)
    ensures n[k].Deleting? ==> IdsDeleted(n) == n[k].ids
    ensures n[k].DeletingMany? ==> WheresDeleted(n) == n[k].wheres
  {
    if k == 0 {
      assert forall o <- n[1..] :: o.Key() != n[0].Key();
      NothingDeleted(n[1..]);
    } else {
      assert n[0].Key() != n[k].Key() && n[k] == n[1..][k - 1];
      DeletedOnce(n[1..], k - 1);
    }
  }

  /** At the end nothing is stamped that was not deleted. */
  lemma LagAtEnd(n: Nested)
    ensures LagAt(n, |n|).ahead == [] && LagAt(n, |n|).aheadWheres == []
    ensures Has(n, DeleteKey) && !Has(n, UpdateKey) ==> LagAt(n, |n|).owed == IdsDeleted(n)
    ensures Has(n, DeleteManyKey) && !Has(n, UpdateManyKey) ==> LagAt(n, |n|).owedWheres == WheresDeleted(n)
    ensures !(Has(n, DeleteKey) && !Has(n, UpdateKey)) ==> LagAt(n, |n|).owed == []
    ensures !(Has(n, DeleteManyKey) && !Has(n, UpdateManyKey)) ==> LagAt(n, |n|).owedWheres == []
  {
    NoneDeleted(n);
  }

  // ----- Parts the walk does not reach: the same operations on both sides -----

  lemma {:induction false} SameCreates(hard: Db, soft: Db, p: Id, f: string, creates: seq<Columns>)
    requires Sim(hard, soft)
    ensures Sim(CreateAll(hard, p, f, creates), CreateAll(soft, p, f, creates))
    decreases |creates|
  {
    if creates == [] {
    } else {
      SameCreates(AddRow(hard, p, f, creates[0]), AddRow(soft, p, f, creates[0]), p, f, creates[1..]);
    }
  }

  lemma SameDeletes(hard: Db, soft: Db, p: Id, f: string, ids: seq<Id>)
    requires Sim(hard, soft) && DeleteAll(hard, p, f, ids).Some?
    ensures DeleteAll(soft, p, f, ids).Some?
    ensures Sim(DeleteAll(hard, p, f, ids).value, DeleteAll(soft, p, f, ids).value)
    decreases |ids|
  {
    if ids == [] {
    } else {
      SameDeletes(hard.(rows := hard.rows - {ids[0]}), soft.(rows := soft.rows - {ids[0]}), p, f, ids[1..]);
    }
  }

  lemma SameUpdateManys(hard: Db, soft: Db, p: Id, f: string, us: seq<UpdateMany>)
    requires Sim(hard, soft) && forall u <- us :: Harmless(u)
    ensures Sim(UpdateManyAll(hard, p, f, us), UpdateManyAll(soft, p, f, us))
  {
    EvenIsSim(hard, soft, p, f);
    SkewUpdateManys(hard, soft, p, f, EVEN, us);
    EvenIsSim(UpdateManyAll(hard, p, f, us), UpdateManyAll(soft, p, f, us), p, f);
  }

  lemma {:induction false} SameDeleteManys(hard: Db, soft: Db, p: Id, f: string, wheres: seq<Columns>)
    requires Sim(hard, soft)
    ensures Sim(DeleteManyAll(hard, p, f, wheres), DeleteManyAll(soft, p, f, wheres))
    decreases |wheres|
  {
    if wheres == [] {
    } else {
      SameDeleteManys(DeleteManyRows(hard, p, f, wheres[0]), DeleteManyRows(soft, p, f, wheres[0]), p, f, wheres[1..]);
    }
  }

  // ----- Whole trees -----

  /** The tree as it reaches the database: rewritten where the walk goes, as written elsewhere. */
  function Sent(walked: bool, now: int, d: Data): Data { if walked then Rewrite(now, d) else d }

  function SentRels(walked: bool, now: int, r: RelWrites): RelWrites { if walked then RewriteRels(now, r) else r }

  function SentNested(walked: bool, now: int, n: Nested): Nested { if walked then RewriteNested(now, n) else n }

  lemma {:induction false} SimTree(walked: bool, now: int, hard: Db, soft: Db, id: Id, d: Data)
    requires Sim(hard, soft) && Faithful(walked, d) && Apply(hard, id, d).Some?
    ensures Apply(soft, id, Sent(walked, now, d)).Some?
    ensures Sim(Apply(hard, id, d).value, Apply(soft, id, Sent(walked, now, d)).value)
    decreases d, 0, 0
  {
    SimRels(walked, now, WriteRow(hard, id, d.columns), WriteRow(soft, id, d.columns), id, d.rels);
  }

  lemma {:induction false} SimRels(walked: bool, now: int, hard: Db, soft: Db, p: Id, r: RelWrites)
    requires Sim(hard, soft) && FaithfulRels(walked, r) && ApplyRels(hard, p, r).Some?
    ensures ApplyRels(soft, p, SentRels(walked, now, r)).Some?
    ensures Sim(ApplyRels(hard, p, r).value, ApplyRels(soft, p, SentRels(walked, now, r)).value)
    decreases r, 1, 0
  {
    match r {
      case NoRels =>
      case RelWrite(field, nested, rest) =>
        if walked {
          SimWalked(now, hard, soft, p, field, nested);
        } else {
          SimUnwalked(hard, soft, p, field, nested);
        }
        SimRels(walked, now, ApplyNested(hard, p, field, nested).value,
                ApplyNested(soft, p, field, SentNested(walked, now, nested)).value, p, rest);
      case ToOneUpdate(_, where, data, rest) =>
        var deeper, q := walked && where.Some?, hard.rows[p].parent;
        SimTree(deeper, now, hard, soft, q, data);
        SimRels(walked, now, Apply(hard, q, data).value, Apply(soft, q, Sent(deeper, now, data)).value, p, rest);
      case ToOneDelete(_, where, rest) => SimToOneDelete(walked, now, hard, soft, p, r);
    }
  }

  lemma {:induction false} SimToOneDelete(walked: bool, now: int, hard: Db, soft: Db, p: Id, r: RelWrites)
    requires Sim(hard, soft) && FaithfulRels(walked, r) && r.ToOneDelete? && ApplyRels(hard, p, r).Some?
    ensures ApplyRels(soft, p, SentRels(walked, now, r)).Some?
    ensures Sim(ApplyRels(hard, p, r).value, ApplyRels(soft, p, SentRels(walked, now, r)).value)
    decreases r, 0, 0
  {
    var q := hard.rows[p].parent;
    var gone := hard.(rows := hard.rows - {q});
    if walked {
      StampApplies(now, soft, q);
      StampOnly(now, soft.rows[q]);
      SimRels(walked, now, gone, WriteRow(soft, q, Stamp(now)), p, r.rest);
    } else {
      SimRels(walked, now, gone, soft.(rows := soft.rows - {q}), p, r.rest);
    }
  }

  lemma {:induction false} SimUnwalked(hard: Db, soft: Db, p: Id, f: string, n: Nested)
    requires Sim(hard, soft) && FaithfulOperations(false, n) && ApplyNested(hard, p, f, n).Some?
    ensures ApplyNested(soft, p, f, n).Some?
    ensures Sim(ApplyNested(hard, p, f, n).value, ApplyNested(soft, p, f, n).value)
    decreases n, 0, 0
  {
    if n == [] {
    } else {
      SimOperation(hard, soft, p, f, n[0]);
      SimUnwalked(ApplyOperation(hard, p, f, n[0]).value, ApplyOperation(soft, p, f, n[0]).value, p, f, n[1..]);
    }
  }

  lemma {:induction false} SimOperation(hard: Db, soft: Db, p: Id, f: string, o: Operation)
    requires Sim(hard, soft) && FaithfulOperation(false, o) && ApplyOperation(hard, p, f, o).Some?
    ensures ApplyOperation(soft, p, f, o).Some?
    ensures Sim(ApplyOperation(hard, p, f, o).value, ApplyOperation(soft, p, f, o).value)
    decreases o, 0, 0
  {
    match o {
      case Creating(creates) => SameCreates(hard, soft, p, f, creates);
      case Upserting(_) =>
      case Updating(updates) => SimUpdates(hard, soft, p, f, updates);
      case Deleting(ids) => SameDeletes(hard, soft, p, f, ids);
      case UpdatingMany(bulk) => SameUpdateManys(hard, soft, p, f, bulk);
      case DeletingMany(wheres) => SameDeleteManys(hard, soft, p, f, wheres);
    }
  }

  lemma {:induction false} SimUpdates(hard: Db, soft: Db, p: Id, f: string, us: seq<Update>)
    requires Sim(hard, soft) && (forall u <- us :: Faithful(false, u.data)) && ApplyUpdates(hard, p, f, us).Some?
    ensures ApplyUpdates(soft, p, f, us).Some?
    ensures Sim(ApplyUpdates(hard, p, f, us).value, ApplyUpdates(soft, p, f, us).value)
    decreases us, 0, 0
  {
    if us == [] {
    } else {
      SimUpdate(hard, soft, p, f, us[0]);
      SimUpdates(ApplyUpdate(hard, p, f, us[0]).value, ApplyUpdate(soft, p, f, us[0]).value, p, f, us[1..]);
    }
  }

  lemma {:induction false} SimUpdate(hard: Db, soft: Db, p: Id, f: string, u: Update)
    requires Sim(hard, soft) && Faithful(false, u.data) && ApplyUpdate(hard, p, f, u).Some?
    ensures ApplyUpdate(soft, p, f, u).Some?
    ensures Sim(ApplyUpdate(hard, p, f, u).value, ApplyUpdate(soft, p, f, u).value)
    decreases u, 0, 0
  {
    SimTree(false, 0, hard, soft, u.id, u.data);
  }

  // ----- Objects the walk reaches: one key at a time, with the lag each leaves -----

  lemma {:induction false} SimWalked(now: int, hard: Db, soft: Db, p: Id, f: string, n: Nested)
    requires Sim(hard, soft) && FaithfulNested(true, f, n) && ApplyNested(hard, p, f, n).Some?
    ensures ApplyNested(soft, p, f, RewriteNested(now, n)).Some?
    ensures Sim(ApplyNested(hard, p, f, n).value, ApplyNested(soft, p, f, RewriteNested(now, n)).value)
    decreases n, 3, 0
  {
    EvenIsSim(hard, soft, p, f);
    assert LagAt(n, 0) == EVEN;
    assert n[0..] == n;
    SimFrom(now, hard, soft, p, f, n, 0);
  }

  lemma {:induction false} SimFrom(now: int, hard: Db, soft: Db, p: Id, f: string, n: Nested, k: nat)
    requires k <= |n| && FaithfulNested(true, f, n) && Skew(hard, soft, p, f, LagAt(n, k))
    requires ApplyNested(hard, p, f, n[k..]).Some?
    ensures var after := ApplyNested(soft, p, f,
                           RewriteOperations(now, n[k..], IdsDeleted(n), WheresDeleted(n)) + AddedKeys(now, n));
            after.Some? && Sim(ApplyNested(hard, p, f, n[k..]).value, after.value)
    decreases n, 2, |n| - k
  {
    var ids, wheres := IdsDeleted(n), WheresDeleted(n);
    if k == |n| {
      assert RewriteOperations(now, n[k..], ids, wheres) + AddedKeys(now, n) == AddedKeys(now, n);
      SimAdded(now, hard, soft, p, f, n);
    } else {
      var first := RewriteOperation(now, n[k], ids, wheres);
      var rest := RewriteOperations(now, n[k + 1..], ids, wheres) + AddedKeys(now, n);
      FromHere(now, hard, p, f, n, k, ids, wheres);
      SimStep(now, hard, soft, p, f, n, k);
      SimFrom(now, ApplyOperation(hard, p, f, n[k]).value, ApplyNested(soft, p, f, first).value, p, f, n, k + 1);
      OperationsInTurn(soft, p, f, first, rest);
    }
  }

  lemma FromHere(now: int, db: Db, p: Id, f: string, n: Nested, k: nat, ids: seq<Id>, wheres: seq<Columns>)
    requires k < |n|
    ensures RewriteOperations(now, n[k..], ids, wheres) + AddedKeys(now, n)
         == RewriteOperation(now, n[k], ids, wheres)
            + (RewriteOperations(now, n[k + 1..], ids, wheres) + AddedKeys(now, n))
    ensures var after := ApplyOperation(db, p, f, n[k]);
            ApplyNested(db, p, f, n[k..]) == if after.None? then None else ApplyNested(after.value, p, f, n[k + 1..])
  {
    assert n[k..][0] == n[k] && n[k..][1..] == n[k + 1..];
  }

  /** Stamps that found no key to join run last. */
  lemma SimAdded(now: int, hard: Db, soft: Db, p: Id, f: string, n: Nested)
    requires Skew(hard, soft, p, f, LagAt(n, |n|))
    ensures ApplyNested(soft, p, f, AddedKeys(now, n)).Some?
    ensures Sim(hard, ApplyNested(soft, p, f, AddedKeys(now, n)).value)
  {
    var lag := LagAt(n, |n|);
    LagAtEnd(n);
    StampOwed(now, hard, soft, p, f, lag);
    var stamped := ApplyUpdates(soft, p, f, Stamps(now, lag.owed)).value;
    StampManysOwed(now, hard, stamped, p, f, lag.(owed := []));
    EvenIsSim(hard, UpdateManyAll(stamped, p, f, StampManys(now, lag.owedWheres)), p, f);
    AddedRuns(now, soft, p, f, n);
  }

  lemma AddedRuns(now: int, db: Db, p: Id, f: string, n: Nested)
    requires ApplyUpdates(db, p, f, Stamps(now, LagAt(n, |n|).owed)).Some?
    ensures var stamped := ApplyUpdates(db, p, f, Stamps(now, LagAt(n, |n|).owed)).value;
            ApplyNested(db, p, f, AddedKeys(now, n))
              == Some(UpdateManyAll(stamped, p, f, StampManys(now, LagAt(n, |n|).owedWheres)))
  {
    var ids, wheres := Stamps(now, IdsDeleted(n)), StampManys(now, WheresDeleted(n));
    var stamped := ApplyUpdates(db, p, f, Stamps(now, LagAt(n, |n|).owed)).value;
    LagAtEnd(n);
    var first := if Has(n, DeleteKey) && !Has(n, UpdateKey) then [Updating(ids)] else [];
    var last := if Has(n, DeleteManyKey) && !Has(n, UpdateManyKey) then [UpdatingMany(wheres)] else [];
    OperationsInTurn(db, p, f, first, last);
    OneOperation(db, p, f, Updating(ids));
    OneOperation(stamped, p, f, UpdatingMany(wheres));
  }

  lemma {:induction false} SimStep(now: int, hard: Db, soft: Db, p: Id, f: string, n: Nested, k: nat)
    requires k < |n| && FaithfulNested(true, f, n) && Skew(hard, soft, p, f, LagAt(n, k))
    requires ApplyNested(hard, p, f, n[k..]).Some?
    ensures ApplyOperation(hard, p, f, n[k]).Some?
    ensures var after := ApplyNested(soft, p, f, RewriteOperation(now, n[k], IdsDeleted(n), WheresDeleted(n)));
            after.Some? && Skew(ApplyOperation(hard, p, f, n[k]).value, after.value, p, f, LagAt(n, k + 1))
    decreases n, 1, 0
  {
    var lag, ids, wheres := LagAt(n, k), IdsDeleted(n), WheresDeleted(n);
    assert n[k..][0] == n[k] && n[k..][1..] == n[k + 1..];
    assert FaithfulOperation(true, n[k]) && Clear(f, n[k], lag);
    KeysStep(n, k);
    DeletedOnce(n, k);
    match n[k] {
      case Creating(creates) =>
        SkewCreates(hard, soft, p, f, lag, creates);
        OneOperation(soft, p, f, n[k]);
      case Upserting(_) =>
        OneOperation(soft, p, f, n[k]);
      case Updating(_) => UpdatesStep(now, hard, soft, p, f, n, k);
      case UpdatingMany(bulk) =>
        SkewUpdateManys(hard, soft, p, f, lag, bulk);
        BulkStampsJoin(now, UpdateManyAll(hard, p, f, bulk), UpdateManyAll(soft, p, f, bulk), p, f, n, k);
        UpdateManysInTurn(soft, p, f, bulk, StampManys(now, wheres));
        OneOperation(soft, p, f, UpdatingMany(bulk + StampManys(now, wheres)));
      case Deleting(_) => RemovalStep(hard, soft, p, f, n, k);
      case DeletingMany(_) => RemovalStep(hard, soft, p, f, n, k);
    }
  }

  lemma {:induction false} UpdatesStep(now: int, hard: Db, soft: Db, p: Id, f: string, n: Nested, k: nat)
    requires k < |n| && FaithfulNested(true, f, n) && n[k].Updating? && Skew(hard, soft, p, f, LagAt(n, k))
    requires ApplyOperation(hard, p, f, n[k]).Some?
    requires ApplyNested(ApplyOperation(hard, p, f, n[k]).value, p, f, n[k + 1..]).Some?
    ensures var after := ApplyNested(soft, p, f, RewriteOperation(now, n[k], IdsDeleted(n), WheresDeleted(n)));
            after.Some? && Skew(ApplyOperation(hard, p, f, n[k]).value, after.value, p, f, LagAt(n, k + 1))
    decreases n, 0, 0
  {
    var lag, ids, updates := LagAt(n, k), IdsDeleted(n), n[k].updates;
    assert FaithfulOperation(true, n[k]) && Clear(f, n[k], lag);
    KeysStep(n, k);
    SkewUpdates(now, hard, soft, p, f, lag, updates);
    var hard1 := ApplyUpdates(hard, p, f, updates).value;
    var soft1 := ApplyUpdates(soft, p, f, RewriteUpdates(now, updates)).value;
    StampsJoin(now, hard1, soft1, p, f, n, k);
    UpdatesInTurn(soft, p, f, RewriteUpdates(now, updates), Stamps(now, ids));
    OneOperation(soft, p, f, Updating(RewriteUpdates(now, updates) + Stamps(now, ids)));
  }

  lemma RemovalStep(hard: Db, soft: Db, p: Id, f: string, n: Nested, k: nat)
    requires k < |n| && KeysOnce(n) && Skew(hard, soft, p, f, LagAt(n, k))
    requires (n[k].Deleting? || n[k].DeletingMany?) && ApplyOperation(hard, p, f, n[k]).Some?
    ensures Skew(ApplyOperation(hard, p, f, n[k]).value, soft, p, f, LagAt(n, k + 1))
  {
    var lag, ids, wheres := LagAt(n, k), IdsDeleted(n), WheresDeleted(n);
    KeysStep(n, k);
    DeletedOnce(n, k);
    if n[k].Deleting? {
      if HasBefore(n, k, UpdateKey) {
        SkewDeletesStamped(hard, soft, p, f, lag);
      } else {
        SkewDeletes(hard, soft, p, f, lag, ids);
      }
    } else if HasBefore(n, k, UpdateManyKey) {
      SkewDeleteManysStamped(hard, soft, p, f, lag);
    } else {
      SkewDeleteManys(hard, soft, p, f, lag, wheres);
    }
  }

  /** The stamps that follow the entries of `update`: for deletes done already, or ahead of them. */
  lemma StampsJoin(now: int, hard: Db, soft: Db, p: Id, f: string, n: Nested, k: nat)
    requires k < |n| && FaithfulNested(true, f, n) && n[k].Updating? && Skew(hard, soft, p, f, LagAt(n, k))
    requires ApplyNested(hard, p, f, n[k + 1..]).Some?
    ensures ApplyUpdates(soft, p, f, Stamps(now, IdsDeleted(n))).Some?
    ensures Skew(hard, ApplyUpdates(soft, p, f, Stamps(now, IdsDeleted(n))).value, p, f, LagAt(n, k + 1))
  {
    var lag := LagAt(n, k);
    KeysStep(n, k);
    if HasBefore(n, k, DeleteKey) {
      StampOwed(now, hard, soft, p, f, lag);
    } else {
      ThereAlready(hard, p, f, n, k + 1);
      StampAhead(now, hard, soft, p, f, lag, IdsDeleted(n));
    }
  }

  lemma BulkStampsJoin(now: int, hard: Db, soft: Db, p: Id, f: string, n: Nested, k: nat)
    requires k < |n| && KeysOnce(n) && n[k].UpdatingMany? && Skew(hard, soft, p, f, LagAt(n, k))
    ensures Skew(hard, UpdateManyAll(soft, p, f, StampManys(now, WheresDeleted(n))), p, f, LagAt(n, k + 1))
  {
    var lag, wheres := LagAt(n, k), WheresDeleted(n);
    BulkLag(n, k);
    if HasBefore(n, k, DeleteManyKey) {
      StampManysOwed(now, hard, soft, p, f, lag);
    } else {
      StampManysAhead(now, hard, soft, p, f, lag, wheres);
    }
  }

  lemma BulkLag(n: Nested, k: nat)
    requires k < |n| && KeysOnce(n) && n[k].UpdatingMany?
    ensures var lag, wheres := LagAt(n, k), WheresDeleted(n);
            if HasBefore(n, k, DeleteManyKey)
            then lag.owedWheres == wheres && lag.aheadWheres == [] && LagAt(n, k + 1) == lag.(owedWheres := [])
            else lag.owedWheres == lag.aheadWheres == [] && LagAt(n, k + 1) == lag.(aheadWheres := wheres)
  {
    KeysStep(n, k);
  }

  /** A row that a delete is going to find is there once the updates have run. */
  lemma {:induction false} ThereAlready(db: Db, p: Id, f: string, n: Nested, k: nat)
    requires k <= |n| && FaithfulNested(true, f, n) && HasBefore(n, k, UpdateKey) && !HasBefore(n, k, DeleteKey)
    requires ApplyNested(db, p, f, n[k..]).Some?
    ensures forall id <- IdsDeleted(n) :: db.IsChild(p, f, id)
    decreases |n| - k
  {
    if k == |n| {
      NoneDeleted(n);
    } else {
      assert n[k..][0] == n[k] && n[k..][1..] == n[k + 1..];
      BetweenUpdateAndDelete(f, n, k);
      if n[k].Deleting? {
        OnwardDeletes(db, p, f, n[k].ids);
      } else if IdsDeleted(n) != [] {
        ThereAlready(ApplyOperation(db, p, f, n[k]).value, p, f, n, k + 1);
        AddsNoChild(db, p, f, n[k], LagAt(n, k));
      }
    }
  }

  lemma BetweenUpdateAndDelete(f: string, n: Nested, k: nat)
    requires k < |n| && FaithfulNested(true, f, n) && HasBefore(n, k, UpdateKey) && !HasBefore(n, k, DeleteKey)
    ensures !n[k].Updating? && FaithfulOperation(true, n[k]) && Clear(f, n[k], LagAt(n, k))
    ensures LagAt(n, k).ahead == IdsDeleted(n)
    ensures if n[k].Deleting? then IdsDeleted(n) == n[k].ids
            else HasBefore(n, k + 1, UpdateKey) && !HasBefore(n, k + 1, DeleteKey)
  {
    assert n[k] in n;
    KeysStep(n, k);
    DeletedOnce(n, k);
  }

  lemma AddsNoChild(db: Db, p: Id, f: string, o: Operation, lag: Lag)
    requires FaithfulOperation(true, o) && Clear(f, o, lag) && lag.ahead != []
    requires !o.Updating? && !o.Deleting? && ApplyOperation(db, p, f, o).Some?
    ensures forall id | ApplyOperation(db, p, f, o).value.IsChild(p, f, id) :: db.IsChild(p, f, id)
  {
    match o {
      case Creating(creates) => assert creates != [] ==> ClearCreate(creates[0], lag);
      case Upserting(_) =>
      case UpdatingMany(bulk) => UpdateManysKeep(db, p, f, bulk);
      case DeletingMany(wheres) => DeleteManysLeave(db, p, f, wheres);
    }
  }

  lemma {:induction false} SkewUpdates(now: int, hard: Db, soft: Db, p: Id, f: string, lag: Lag, us: seq<Update>)
    requires Skew(hard, soft, p, f, lag) && lag.ahead == []
    requires (forall u <- us :: Faithful(true, u.data) && ClearUpdate(f, u, lag)) && ApplyUpdates(hard, p, f, us).Some?
    ensures ApplyUpdates(soft, p, f, RewriteUpdates(now, us)).Some?
    ensures Skew(ApplyUpdates(hard, p, f, us).value, ApplyUpdates(soft, p, f, RewriteUpdates(now, us)).value, p, f, lag)
    decreases us, 0, 0
  {
    if us == [] {
    } else {
      SkewUpdate(now, hard, soft, p, f, lag, us[0]);
      assert RewriteUpdates(now, us)[1..] == RewriteUpdates(now, us[1..]);
      SkewUpdates(now, ApplyUpdate(hard, p, f, us[0]).value, ApplyUpdate(soft, p, f, RewriteUpdate(now, us[0])).value,
                  p, f, lag, us[1..]);
    }
  }

  lemma {:induction false} SkewUpdate(now: int, hard: Db, soft: Db, p: Id, f: string, lag: Lag, u: Update)
    requires Skew(hard, soft, p, f, lag) && lag.ahead == []
    requires Faithful(true, u.data) && ClearUpdate(f, u, lag) && ApplyUpdate(hard, p, f, u).Some?
    ensures ApplyUpdate(soft, p, f, RewriteUpdate(now, u)).Some?
    ensures Skew(ApplyUpdate(hard, p, f, u).value, ApplyUpdate(soft, p, f, RewriteUpdate(now, u)).value, p, f, lag)
    decreases u, 0, 0
  {
    SkewWrite(hard, soft, p, f, lag, u.id, u.data.columns);
    var hard1, soft1 := WriteRow(hard, u.id, u.data.columns), WriteRow(soft, u.id, u.data.columns);
    if lag == EVEN {
      EvenIsSim(hard1, soft1, p, f);
      SimRels(true, now, hard1, soft1, u.id, u.data.rels);
      EvenIsSim(ApplyRels(hard1, u.id, u.data.rels).value,
                ApplyRels(soft1, u.id, RewriteRels(now, u.data.rels)).value, p, f);
    } else {
      SimWithout(hard1, soft1, p, f, lag);
      ValidBelow(hard1, soft1, p, f, lag);
      ApartRels(f, hard1, u.id, u.data.rels);
      RewriteApart(now, f, u.data.rels);
      ApartRels(f, soft1, u.id, RewriteRels(now, u.data.rels));
      SimRels(true, now, Without(hard1, f), Without(soft1, f), u.id, u.data.rels);
      SkewBeside(hard1, soft1, ApplyRels(hard1, u.id, u.data.rels).value,
                 ApplyRels(soft1, u.id, RewriteRels(now, u.data.rels)).value, p, f, lag);
    }
  }

  lemma SimWithout(hard: Db, soft: Db, p: Id, f: string, lag: Lag)
    requires Skew(hard, soft, p, f, lag)
    ensures Sim(Without(hard, f), Without(soft, f))
  {
    forall id <- Without(hard, f).rows
      ensures id in Without(soft, f).rows && Without(soft, f).rows[id] == Without(hard, f).rows[id]
    {
      assert Paired(hard, soft, p, f, lag, id);
    }
    forall id <- Without(soft, f).rows | id !in Without(hard, f).rows ensures !Live(soft.rows[id].columns) {
      if id in hard.rows {
        assert Paired(hard, soft, p, f, lag, id);
      } else {
        assert !Owed(soft, p, f, lag, id);
      }
    }
  }

  lemma ValidBelow(hard: Db, soft: Db, p: Id, f: string, lag: Lag)
    requires Skew(hard, soft, p, f, lag)
    ensures hard.Valid()
  {}

  /** Relation f as it was, the rest in step. */
  lemma SkewBeside(hard: Db, soft: Db, a: Db, b: Db, p: Id, f: string, lag: Lag)
    requires Skew(hard, soft, p, f, lag) && SameIn(f, hard, a) && SameIn(f, soft, b)
    requires Sim(Without(a, f), Without(b, f)) && b.Valid()
    ensures Skew(a, b, p, f, lag)
  {
    forall id <- a.rows ensures id in b.rows && !Owed(a, p, f, lag, id) && Paired(a, b, p, f, lag, id) {
      if a.rows[id].rel == f {
        assert Paired(hard, soft, p, f, lag, id) && !Owed(hard, p, f, lag, id);
      } else {
        assert id in Without(a, f).rows;
        assert Without(b, f).rows[id] == Without(a, f).rows[id];
      }
    }
    forall id <- b.rows | id !in a.rows ensures !Live(b.rows[id].columns) || Owed(b, p, f, lag, id) {
      if b.rows[id].rel == f {
        assert id in hard.rows ==> Paired(hard, soft, p, f, lag, id);
        assert !Live(soft.rows[id].columns) || Owed(soft, p, f, lag, id);
      } else {
        assert id in Without(b, f).rows && id !in Without(a, f).rows;
      }
    }
    forall id <- lag.owed ensures b.IsChild(p, f, id) { assert soft.IsChild(p, f, id); }
  }

  /** A write tree of any depth, applied as written to tables that really delete and as
      rewritten to tables that stamp: whenever the first succeeds so does the second, and they
      still differ only in erased rows, stamped. Deletes the walk does not reach erase on both
      sides. */
  lemma RewriteKeepsMeaning(now: int, hard: Db, soft: Db, id: Id, d: Data)
    requires Sim(hard, soft) && Faithful(true, d) && Apply(hard, id, d).Some?
    ensures Apply(soft, id, Rewrite(now, d)).Some?
    ensures Sim(Apply(hard, id, d).value, Apply(soft, id, Rewrite(now, d)).value)
  {
    SimTree(true, now, hard, soft, id, d);
  }

  /** What a scoped reader sees afterwards is the same. */
  lemma RewriteKeepsLiveRows(now: int, db: Db, id: Id, d: Data)
    requires db.Valid() && Faithful(true, d) && Apply(db, id, d).Some?
    ensures Apply(db, id, Rewrite(now, d)).Some?
    ensures Visible(Apply(db, id, Rewrite(now, d)).value) == Visible(Apply(db, id, d).value)
  {
    RewriteKeepsMeaning(now, db, db, id, d);
  }

  // ----- The other exclusions are needed -----

  /** One updateMany preserves the correspondence between every two tables exactly when it is
      harmless. */
  lemma HarmlessExactly(p: Id, f: string, u: UpdateMany)
    ensures Harmless(u) <==>
            forall hard, soft :: Sim(hard, soft) ==> Sim(UpdateManyRows(hard, p, f, u), UpdateManyRows(soft, p, f, u))
  {
    if Harmless(u) {
      forall hard, soft | Sim(hard, soft) ensures Sim(UpdateManyRows(hard, p, f, u), UpdateManyRows(soft, p, f, u)) {
        EvenIsSim(hard, soft, p, f);
        SkewUpdateMany(hard, soft, p, f, EVEN, u);
        EvenIsSim(UpdateManyRows(hard, p, f, u), UpdateManyRows(soft, p, f, u), p, f);
      }
    } else {
      var columns := if DELETED_AT in u.where then u.where else u.where[DELETED_AT := At(0)];
      var erased := Row(p, f, columns);
      var hard, soft := Db(map[], 1), Db(map[0 := erased], 1);
      assert Sim(hard, soft);
      var after := UpdateManyRows(soft, p, f, u);
      assert soft.IsChild(p, f, 0) && Matches(erased, u.where);
      assert after.rows[0] == Write(erased, u.columns) && Live(after.rows[0].columns);
      assert !Sim(UpdateManyRows(hard, p, f, u), after);
    }
  }

  /** An upsert, whatever it writes, parts the two on some tables: it creates a row where the
      one it names was deleted, and writes to the stamped row where it still is. */
  lemma UpsertParts(p: Id, f: string, u: Upsert) returns (hard: Db, soft: Db)
    requires p != u.id
    ensures Sim(hard, soft)
    ensures var (a, b) := (ApplyUpsert(hard, p, f, u), ApplyUpsert(soft, p, f, u));
            a.Some? && !(b.Some? && Sim(a.value, b.value))
  {
    var stamped, next := Row(p, f, Stamp(0)), Max(p, u.id) + 1;
    assert stamped.columns[DELETED_AT] == At(0);
    hard, soft := Db(map[], next), Db(map[u.id := stamped], next);
    var a, b := AddRow(hard, p, f, u.columns), Apply(soft, u.id, u.data);
    assert next in a.rows && a.rows[next].parent == p;
    if b.Some? {
      NothingReturns(soft, u.id, u.data);
      assert next in b.value.rows ==> Known(soft, u.id, b.value.rows[next].parent);
    }
  }

  /** A bare to-one delete is refused once rewritten. */
  lemma BareToOneDeleteRefused(now: int, db: Db, p: Id, field: string, rest: RelWrites)
    ensures ApplyRels(db, p, RewriteRels(now, ToOneDelete(field, None, rest))).None?
  {}
}
