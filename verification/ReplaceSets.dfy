/** Replace-set diffs (src/portal/catalog/products.service.ts, modifier-groups.service.ts):
    the nested writes that turn a parent's current children into the submitted ones. */
module ReplaceSets {
  import opened Common
  import opened SoftDeleteColumns
  import opened SoftDeleteWrites

  datatype VariantInput = VariantInput(
    id: Option<Id>, name: string, sku: Option<string>, barcode: Option<string>, priceC: int, costC: Option<int>)

  datatype ModifierInput = ModifierInput(id: Option<Id>, name: string, priceDeltaC: int)

  datatype Outcome<T> = Accepted(value: T) | UnknownId(id: Id) | RepeatedId

  /** A submission's id, if it names a current row, and the columns it writes. */
  datatype Submitted = Submitted(id: Option<Id>, columns: Columns)

  function TextOrNull(s: Option<string>): Val { if s.Some? then Text(s.value) else Null }

  function NumOrNull(n: Option<int>): Val { if n.Some? then Num(n.value) else Null }

  function VariantColumns(v: VariantInput): Submitted {
    Submitted(v.id, map["name" := Text(v.name), "sku" := TextOrNull(v.sku), "barcode" := TextOrNull(v.barcode),
                        "price" := Num(v.priceC), "cost" := NumOrNull(v.costC)])
  }

  function ModifierColumns(m: ModifierInput): Submitted {
    Submitted(m.id, map["name" := Text(m.name), "priceDelta" := Num(m.priceDeltaC)])
  }

  function Map<S, T>(s: seq<S>, f: S -> T): seq<T> { seq(|s|, i requires 0 <= i < |s| => f(s[i])) }

  function BuildVariantReplaceSet(current: seq<Id>, submitted: seq<VariantInput>): Outcome<Nested> {
    BuildReplaceSet(current, Map(submitted, VariantColumns))
  }

  function BuildModifierReplaceSet(current: seq<Id>, submitted: seq<ModifierInput>): Outcome<Nested> {
    BuildReplaceSet(current, Map(submitted, ModifierColumns))
  }

  /** The two builders share one shape: reject, then create, update and delete. */
  function BuildReplaceSet(current: seq<Id>, submitted: seq<Submitted>): Outcome<Nested> {
    var unknown := Filter(submitted, Unknown(current));
    var withId := Filter(submitted, HasId);
    if unknown != [] then assert unknown[0] in unknown; UnknownId(unknown[0].id.value)
    else if |withId| != |IdsOf(withId)| then RepeatedId
    else
      Accepted(Diff(NewColumns(submitted), UpdatesOf(submitted), GoneFrom(current, submitted)))
  }

  /** Only the keys with something to do are written, in this order. */
  function Diff(creates: seq<Columns>, updates: seq<Update>, deletes: seq<Id>): Nested {
    Unless(creates == [], Creating(creates)) + Unless(updates == [], Updating(updates))
    + Unless(deletes == [], Deleting(deletes))
  }

  function Unless(absent: bool, o: Operation): Nested { if absent then [] else [o] }

  /** Current rows that no submission names. */
  function GoneFrom(current: seq<Id>, submitted: seq<Submitted>): seq<Id> {
    Filter(current, id => id !in IdsOf(Filter(submitted, HasId)))
  }

  function Unknown(current: seq<Id>): Submitted -> bool { (s: Submitted) => s.id.Some? && s.id.value !in current }

  predicate HasId(s: Submitted) { s.id.Some? }

  function IdsOf(submitted: seq<Submitted>): set<Id> { set s <- submitted | s.id.Some? :: s.id.value }

  function NewColumns(submitted: seq<Submitted>): seq<Columns> {
    if submitted == [] then []
    else (if submitted[0].id.None? then [submitted[0].columns] else []) + NewColumns(submitted[1..])
  }

  function UpdatesOf(submitted: seq<Submitted>): seq<Update> {
    if submitted == [] then []
    else if submitted[0].id.None? then UpdatesOf(submitted[1..])
    else [Update(submitted[0].id.value, Data(submitted[0].columns, NoRels))] + UpdatesOf(submitted[1..])
  }

  // ----- Product/group links -----

  const LINKS := "productModifierGroups"
  const GROUP := "groupId"

  datatype Link = Link(id: Id, groupId: Id, deleted: bool)

  predicate NoRepeats(s: seq<Id>) { forall i, j | 0 <= i < j < |s| :: s[i] != s[j] }

  /** Each value once, in order of first appearance. */
  function Deduplicated(s: seq<Id>): seq<Id> {
    if s == [] then []
    else
      var rest := Deduplicated(s[..|s| - 1]);
      if s[|s| - 1] in rest then rest else rest + [s[|s| - 1]]
  }

  /** The last link of each group. */
  function ByGroup(links: seq<Link>): map<Id, Link> {
    if links == [] then map[]
    else ByGroup(links[..|links| - 1])[links[|links| - 1].groupId := links[|links| - 1]]
  }

  /** Desired groups without a row, in order. */
  function NewGroups(byGroup: map<Id, Link>, groups: seq<Id>): seq<Id> {
    if groups == [] then []
    else
      var g := groups[|groups| - 1];
      NewGroups(byGroup, groups[..|groups| - 1]) + (if g in byGroup then [] else [g])
  }

  function LinkTo(g: Id): Columns { map[GROUP := Num(g)] }

  /** Rows to restore: those of desired groups that are deleted. */
  function ToRestore(byGroup: map<Id, Link>, groups: seq<Id>): seq<Id> {
    if groups == [] then []
    else
      var g := groups[|groups| - 1];
      ToRestore(byGroup, groups[..|groups| - 1]) + (if g in byGroup && byGroup[g].deleted then [byGroup[g].id] else [])
  }

  /** Rows to delete: the live ones of groups no longer desired. */
  function ToDelete(links: seq<Link>, desired: seq<Id>): seq<Id> {
    if links == [] then []
    else
      var l := links[|links| - 1];
      ToDelete(links[..|links| - 1], desired) + (if !l.deleted && l.groupId !in desired then [l.id] else [])
  }

  function Restores(ids: seq<Id>): seq<Update> {
    if ids == [] then [] else [Update(ids[0], Data(map[DELETED_AT := Null], NoRels))] + Restores(ids[1..])
  }

  function LinkReplaceSet(links: seq<Link>, desired: seq<Id>): Option<Nested> {
    var byGroup, groups := ByGroup(links), Deduplicated(desired);
    var create, restore := Map(NewGroups(byGroup, groups), LinkTo), ToRestore(byGroup, groups);
    var del := ToDelete(links, desired);
    if create == [] && restore == [] && del == [] then None
    else Some(Diff(create, Restores(restore), del))
  }

  method BuildLinkReplaceSet(allLinks: seq<Link>, desired: seq<Id>) returns (nested: Option<Nested>)
    ensures nested == LinkReplaceSet(allLinks, desired)
  {
    var desiredSet: seq<Id> := [];
    for i := 0 to |desired|
      invariant desiredSet == Deduplicated(desired[..i])
    {
      assert desired[..i + 1][..i] == desired[..i];
      if desired[i] !in desiredSet { desiredSet := desiredSet + [desired[i]]; }
    }
    var byGroup: map<Id, Link> := map[];
    for i := 0 to |allLinks|
      invariant byGroup == ByGroup(allLinks[..i])
    {
      assert allLinks[..i + 1][..i] == allLinks[..i];
      byGroup := byGroup[allLinks[i].groupId := allLinks[i]];
    }
    assert desired[..|desired|] == desired && allLinks[..|allLinks|] == allLinks;

    var create, restore, del := [], [], [];
    for i := 0 to |desiredSet|
      invariant create == Map(NewGroups(byGroup, desiredSet[..i]), LinkTo)
      invariant restore == ToRestore(byGroup, desiredSet[..i])
    {
      GroupStep(byGroup, desiredSet, i);
      var gid := desiredSet[i];
      if gid !in byGroup {
        create := create + [LinkTo(gid)];
      } else if byGroup[gid].deleted {
        restore := restore + [byGroup[gid].id];
      }
    }
    assert desiredSet[..|desiredSet|] == desiredSet;
    for i := 0 to |allLinks|
      invariant del == ToDelete(allLinks[..i], desired)
    {
      assert allLinks[..i + 1][..i] == allLinks[..i];
      DeduplicatedHas(desired, allLinks[i].groupId);
      if !allLinks[i].deleted && allLinks[i].groupId !in desiredSet { del := del + [allLinks[i].id]; }
    }
    if create == [] && restore == [] && del == [] { return None; }
    return Some(Diff(create, Restores(restore), del));
  }

  lemma GroupStep(byGroup: map<Id, Link>, groups: seq<Id>, i: nat)
    requires i < |groups|
    ensures var (g, before, after) := (groups[i], groups[..i], groups[..i + 1]);
            && Map(NewGroups(byGroup, after), LinkTo)
                 == Map(NewGroups(byGroup, before), LinkTo) + (if g in byGroup then [] else [LinkTo(g)])
            && ToRestore(byGroup, after)
                 == ToRestore(byGroup, before) + (if g in byGroup && byGroup[g].deleted then [byGroup[g].id] else [])
  {
    assert groups[..i + 1][..i] == groups[..i];
  }

  lemma {:induction false} DeduplicatedHas(s: seq<Id>, x: Id)
    ensures x in Deduplicated(s) <==> x in s
  {
    if s == [] {
    } else {
      DeduplicatedHas(s[..|s| - 1], x);
      assert s == s[..|s| - 1] + [s[|s| - 1]];
      DeduplicatedHas(s[..|s| - 1], s[|s| - 1]);
    }
  }

  lemma {:induction false} DeduplicatedNoRepeats(s: seq<Id>)
    ensures NoRepeats(Deduplicated(s))
  {
    if s == [] {
    } else {
      DeduplicatedNoRepeats(s[..|s| - 1]);
    }
  }

  lemma {:induction false} ByGroupIs(links: seq<Link>)
    ensures forall g <- ByGroup(links) :: ByGroup(links)[g] in links && ByGroup(links)[g].groupId == g
    ensures forall l <- links :: l.groupId in ByGroup(links)
  {
    if links == [] {
    } else {
      ByGroupIs(links[..|links| - 1]);
      assert links == links[..|links| - 1] + [links[|links| - 1]];
    }
  }
}

/** What the diffs leave behind once rewritten and applied. */
module ReplaceSetProofs {
  import opened Common
  import opened SoftDeleteColumns
  import opened SoftDeleteWrites
  import opened SoftDeleteFrames
  import opened SoftDeleteOrder
  import opened SoftDeleteWriteProofs
  import opened ReplaceSets

  // ----- Applying a flat list of updates -----

  datatype Leaf = Leaf(id: Id, columns: Columns)

  function Leaves(ls: seq<Leaf>): seq<Update> {
    if ls == [] then [] else [Update(ls[0].id, Data(ls[0].columns, NoRels))] + Leaves(ls[1..])
  }

  predicate DistinctTargets(ls: seq<Leaf>) { forall i, j | 0 <= i < j < |ls| :: ls[i].id != ls[j].id }

  predicate Targets(ls: seq<Leaf>, id: Id) { exists l <- ls :: l.id == id }

  lemma {:induction false} LeavesRewrite(now: int, ls: seq<Leaf>, ids: seq<Id>)
    ensures RewriteUpdates(now, Leaves(ls)) + Stamps(now, ids)
         == Leaves(ls + Map(ids, (id: Id) => Leaf(id, Stamp(now))))
  {
    var stamps := Map(ids, (id: Id) => Leaf(id, Stamp(now)));
    if ls == [] {
      assert ls + stamps == stamps;
      StampLeaves(now, ids);
    } else {
      LeavesRewrite(now, ls[1..], ids);
      assert (ls + stamps)[0] == ls[0] && (ls + stamps)[1..] == ls[1..] + stamps;
      assert Rewrite(now, Data(ls[0].columns, NoRels)) == Data(ls[0].columns, NoRels);
      assert RewriteUpdates(now, Leaves(ls))
          == [Update(ls[0].id, Data(ls[0].columns, NoRels))] + RewriteUpdates(now, Leaves(ls[1..]));
    }
  }

  lemma {:induction false} StampLeaves(now: int, ids: seq<Id>)
    ensures Stamps(now, ids) == Leaves(Map(ids, (id: Id) => Leaf(id, Stamp(now))))
  {
    if ids == [] {
    } else {
      var stamps := Map(ids, (id: Id) => Leaf(id, Stamp(now)));
      assert stamps[1..] == Map(ids[1..], (id: Id) => Leaf(id, Stamp(now)));
      StampLeaves(now, ids[1..]);
    }
  }

  // ----- A diff as it is sent -----

  /** Its creates, then its updates with the stamps behind them. */
  function SentDiff(creates: seq<Columns>, updates: seq<Update>): Nested {
    Unless(creates == [], Creating(creates)) + Unless(updates == [], Updating(updates))
  }

  lemma DiffSent(now: int, creates: seq<Columns>, us: seq<Update>, dels: seq<Id>)
    ensures RewriteNested(now, Diff(creates, us, dels))
         == SentDiff(creates, RewriteUpdates(now, us) + Stamps(now, dels))
  {
    NothingSent(now, us, dels);
    DiffRewritten(now, creates, us, dels);
    DiffAdded(now, creates, us, dels);
  }

  lemma DiffAdded(now: int, creates: seq<Columns>, us: seq<Update>, dels: seq<Id>)
    ensures var n := Diff(creates, us, dels);
            && IdsDeleted(n) == dels && WheresDeleted(n) == []
            && AddedKeys(now, n) == Unless(us != [] || dels == [], Updating(Stamps(now, dels)))
  {
    DiffKeys(creates, us, dels);
  }

  lemma DiffRewritten(now: int, creates: seq<Columns>, us: seq<Update>, dels: seq<Id>)
    ensures RewriteOperations(now, Diff(creates, us, dels), dels, [])
         == Unless(creates == [], Creating(creates))
            + Unless(us == [], Updating(RewriteUpdates(now, us) + Stamps(now, dels)))
  {
    var a, b, c := Unless(creates == [], Creating(creates)), Unless(us == [], Updating(us)),
                   Unless(dels == [], Deleting(dels));
    UnlessIs(now, creates == [], Creating(creates), dels);
    UnlessIs(now, us == [], Updating(us), dels);
    UnlessIs(now, dels == [], Deleting(dels), dels);
    ThreeRewritten(now, a, b, c, dels);
  }

  lemma ThreeRewritten(now: int, a: Nested, b: Nested, c: Nested, ids: seq<Id>)
    ensures RewriteOperations(now, a + b + c, ids, [])
         == RewriteOperations(now, a, ids, []) + RewriteOperations(now, b, ids, []) + RewriteOperations(now, c, ids, [])
  {
    RewriteInParts(now, a + b, c, ids, []);
    RewriteInParts(now, a, b, ids, []);
  }

  lemma NothingSent(now: int, us: seq<Update>, dels: seq<Id>)
    ensures RewriteUpdates(now, us) + Stamps(now, dels) == [] <==> us == [] && dels == []
    ensures us == [] ==> RewriteUpdates(now, us) + Stamps(now, dels) == Stamps(now, dels)
  {}

  lemma DiffKeys(creates: seq<Columns>, us: seq<Update>, dels: seq<Id>)
    ensures var n := Diff(creates, us, dels);
            && IdsDeleted(n) == dels && WheresDeleted(n) == []
            && (Has(n, DeleteKey) <==> dels != []) && (Has(n, UpdateKey) <==> us != []) && !Has(n, DeleteManyKey)
  {
    DiffHas(creates, us, dels, DeleteKey);
    DiffHas(creates, us, dels, UpdateKey);
    DiffHas(creates, us, dels, DeleteManyKey);
    DiffDeletes(creates, us, dels);
  }

  lemma DiffHas(creates: seq<Columns>, us: seq<Update>, dels: seq<Id>, key: Key)
    ensures Has(Diff(creates, us, dels), key)
       <==> (creates != [] && key == CreateKey) || (us != [] && key == UpdateKey) || (dels != [] && key == DeleteKey)
  {
    var a, b, c := Unless(creates == [], Creating(creates)), Unless(us == [], Updating(us)),
                   Unless(dels == [], Deleting(dels));
    HasTogether(a + b, c, key);
    HasTogether(a, b, key);
    UnlessHas(creates == [], Creating(creates), key);
    UnlessHas(us == [], Updating(us), key);
    UnlessHas(dels == [], Deleting(dels), key);
  }

  lemma UnlessHas(absent: bool, o: Operation, key: Key)
    ensures Has(Unless(absent, o), key) <==> !absent && o.Key() == key
  {
    HasOne(o, key);
  }

  lemma DiffDeletes(creates: seq<Columns>, us: seq<Update>, dels: seq<Id>)
    ensures IdsDeleted(Diff(creates, us, dels)) == dels && WheresDeleted(Diff(creates, us, dels)) == []
  {
    var a, b, c := Unless(creates == [], Creating(creates)), Unless(us == [], Updating(us)),
                   Unless(dels == [], Deleting(dels));
    PartsDelete(a + b, c);
    PartsDelete(a, b);
    UnlessIs(0, creates == [], Creating(creates), []);
    UnlessIs(0, us == [], Updating(us), []);
    UnlessIs(0, dels == [], Deleting(dels), []);
  }

  lemma UnlessIs(now: int, absent: bool, o: Operation, ids: seq<Id>)
    requires !o.UpdatingMany?
    ensures RewriteOperations(now, Unless(absent, o), ids, [])
         == if absent then [] else RewriteOperation(now, o, ids, [])
    ensures IdsDeleted(Unless(absent, o)) == if absent || !o.Deleting? then [] else o.ids
    ensures WheresDeleted(Unless(absent, o)) == if absent || !o.DeletingMany? then [] else o.wheres
  {
    OneRewritten(now, o, ids, []);
    assert [o][1..] == [] && IdsDeleted([]) == [] && WheresDeleted([]) == [];
  }

  lemma PartsDelete(a: Nested, b: Nested)
    ensures IdsDeleted(a + b) == IdsDeleted(a) + IdsDeleted(b)
    ensures WheresDeleted(a + b) == WheresDeleted(a) + WheresDeleted(b)
  {
    PartsIds(a, b);
    PartsWheres(a, b);
  }

  lemma {:induction false} PartsIds(a: Nested, b: Nested)
    ensures IdsDeleted(a + b) == IdsDeleted(a) + IdsDeleted(b)
    decreases |a|
  {
    if a == [] {
      assert a + b == b;
    } else {
      assert (a + b)[0] == a[0] && (a + b)[1..] == a[1..] + b;
      PartsIds(a[1..], b);
    }
  }

  lemma {:induction false} PartsWheres(a: Nested, b: Nested)
    ensures WheresDeleted(a + b) == WheresDeleted(a) + WheresDeleted(b)
    decreases |a|
  {
    if a == [] {
      assert a + b == b;
    } else {
      assert (a + b)[0] == a[0] && (a + b)[1..] == a[1..] + b;
      PartsWheres(a[1..], b);
    }
  }

  function Place(o: Operation): nat { if o.Creating? then 0 else if o.Updating? then 1 else 2 }

  /** Creates, then flat updates, then deletes. */
  ghost predicate Placed(n: Nested) {
    && (forall i, k | 0 <= i < k < |n| :: Place(n[i]) < Place(n[k]))
    && (forall o <- n :: o.Creating? || o.Deleting? || (o.Updating? && forall u <- o.updates :: u.data.rels == NoRels))
  }

  lemma DiffPlaced(creates: seq<Columns>, us: seq<Update>, dels: seq<Id>)
    requires forall u <- us :: u.data.rels == NoRels
    ensures Placed(Diff(creates, us, dels))
  {}

  lemma PlacedClear(f: string, n: Nested, k: nat)
    requires Placed(n) && k < |n| && WheresDeleted(n) == []
    ensures Clear(f, n[k], LagAt(n, k)) && FaithfulOperation(true, n[k])
  {
    assert n[k] in n;
    FlatClear(f, n[k]);
    if !n[k].Deleting? { EvenBefore(n, k); }
  }

  lemma FlatClear(f: string, o: Operation)
    requires o.Creating? || o.Deleting? || (o.Updating? && forall u <- o.updates :: u.data.rels == NoRels)
    ensures Clear(f, o, EVEN) && FaithfulOperation(true, o) && (o.Deleting? ==> forall lag :: Clear(f, o, lag))
  {}

  lemma EvenBefore(n: Nested, k: nat)
    requires Placed(n) && k < |n| && !n[k].Deleting? && WheresDeleted(n) == []
    ensures LagAt(n, k) == EVEN
  {
    NoneBefore(n, k);
  }

  lemma NoneBefore(n: Nested, k: nat)
    requires Placed(n) && k < |n| && !n[k].Deleting?
    ensures !HasBefore(n, k, DeleteKey) && !HasBefore(n, k, UpdateKey)
  {
    HasBeforeExactly(n, k, DeleteKey);
    HasBeforeExactly(n, k, UpdateKey);
    forall i | 0 <= i < k ensures n[i].Key() == CreateKey {
      assert Place(n[i]) < Place(n[k]) && n[k] in n && n[i] in n;
    }
  }

  /** The rewrite keeps the meaning of every diff: nothing it writes stands where a delete is
      moved from or to. */
  lemma DiffFaithful(f: string, creates: seq<Columns>, ls: seq<Leaf>, dels: seq<Id>)
    ensures FaithfulNested(true, f, Diff(creates, Leaves(ls), dels))
  {
    var n := Diff(creates, Leaves(ls), dels);
    DiffKeys(creates, Leaves(ls), dels);
    FlatLeaves(ls);
    DiffPlaced(creates, Leaves(ls), dels);
    PlacedFaithful(f, n);
  }

  lemma PlacedFaithful(f: string, n: Nested)
    requires Placed(n) && WheresDeleted(n) == []
    ensures FaithfulNested(true, f, n)
  {
    forall k | 0 <= k < |n| ensures Clear(f, n[k], LagAt(n, k)) && FaithfulOperation(true, n[k]) {
      PlacedClear(f, n, k);
    }
    PlacedOnce(n);
  }

  lemma PlacedOnce(n: Nested)
    requires Placed(n)
    ensures KeysOnce(n)
  {
    forall i, j | 0 <= i < j < |n| ensures n[i].Key() != n[j].Key() { assert Place(n[i]) < Place(n[j]); }
  }

  lemma {:induction false} FlatLeaves(ls: seq<Leaf>)
    ensures forall u <- Leaves(ls) :: u.data.rels == NoRels
  {
    if ls == [] {
    } else {
      FlatLeaves(ls[1..]);
    }
  }

  lemma DiffRuns(now: int, db: Db, p: Id, f: string, creates: seq<Columns>, us: seq<Update>, dels: seq<Id>)
    ensures ApplyNested(db, p, f, RewriteNested(now, Diff(creates, us, dels)))
         == ApplyUpdates(CreateAll(db, p, f, creates), p, f, RewriteUpdates(now, us) + Stamps(now, dels))
  {
    var sent := RewriteUpdates(now, us) + Stamps(now, dels);
    DiffSent(now, creates, us, dels);
    var a, b := Unless(creates == [], Creating(creates)), Unless(sent == [], Updating(sent));
    OperationsInTurn(db, p, f, a, b);
    OneOperation(db, p, f, Creating(creates));
    OneOperation(CreateAll(db, p, f, creates), p, f, Updating(sent));
  }

  /** Updates of distinct children succeed, write exactly those rows, and touch no other. */
  ghost predicate Wrote(a: Db, b: Db, ls: seq<Leaf>) {
    && a.next == b.next && a.rows.Keys == b.rows.Keys
    && (forall l <- ls :: l.id in a.rows && b.rows[l.id] == Write(a.rows[l.id], l.columns))
    && (forall id <- a.rows :: !Targets(ls, id) ==> b.rows[id] == a.rows[id])
  }

  lemma LeafApplies(db: Db, p: Id, f: string, l: Leaf)
    requires db.IsChild(p, f, l.id)
    ensures ApplyUpdate(db, p, f, Update(l.id, Data(l.columns, NoRels))) == Some(WriteRow(db, l.id, l.columns))
  {
    assert Apply(db, l.id, Data(l.columns, NoRels)) == Some(WriteRow(db, l.id, l.columns));
  }

  lemma {:induction false} LeavesWrite(db: Db, p: Id, f: string, ls: seq<Leaf>)
    requires DistinctTargets(ls) && forall l <- ls :: db.IsChild(p, f, l.id)
    ensures ApplyUpdates(db, p, f, Leaves(ls)).Some?
    ensures Wrote(db, ApplyUpdates(db, p, f, Leaves(ls)).value, ls)
    decreases |ls|
  {
    if ls == [] {
    } else {
      var first, rest := ls[0], ls[1..];
      var written := WriteRow(db, first.id, first.columns);
      LeafApplies(db, p, f, first);
      forall l <- rest ensures written.IsChild(p, f, l.id) && l.id != first.id && l in ls {
        var k :| 0 <= k < |rest| && rest[k] == l;
        assert ls[k + 1] == l;
      }
      LeavesWrite(written, p, f, rest);
      var after := ApplyUpdates(written, p, f, Leaves(rest)).value;
      assert !Targets(rest, first.id);
      forall id <- db.rows | !Targets(ls, id) ensures after.rows[id] == db.rows[id] {
        assert first in ls;
        assert !Targets(rest, id);
      }
      forall l <- ls ensures after.rows[l.id] == Write(db.rows[l.id], l.columns) {
        if l != first { assert l in rest; }
      }
    }
  }

  /** Created rows are numbered from next, in order; the others are untouched. */
  ghost predicate Created(a: Db, b: Db, p: Id, f: string, creates: seq<Columns>) {
    && b.next == a.next + |creates|
    && (forall id :: id in b.rows <==> id in a.rows || a.next <= id < b.next)
    && (forall id <- a.rows :: b.rows[id] == a.rows[id])
    && (forall k | 0 <= k < |creates| :: b.rows[a.next + k] == Row(p, f, creates[k]))
  }

  lemma {:induction false} CreatesWrite(db: Db, p: Id, f: string, creates: seq<Columns>)
    requires db.Valid()
    ensures Created(db, CreateAll(db, p, f, creates), p, f, creates)
    decreases |creates|
  {
    if creates == [] {
    } else {
      var first := AddRow(db, p, f, creates[0]);
      CreatesWrite(first, p, f, creates[1..]);
      var after := CreateAll(first, p, f, creates[1..]);
      forall k | 0 <= k < |creates| ensures after.rows[db.next + k] == Row(p, f, creates[k]) {
        if k > 0 { assert after.rows[first.next + (k - 1)] == Row(p, f, creates[1..][k - 1]); }
      }
    }
  }

  /** A diff with flat updates, rewritten and applied: new rows for the creates, the given
      columns on the updated rows, a stamp on the deleted ones, nothing else. */
  lemma FlatDiff(now: int, db: Db, p: Id, f: string, creates: seq<Columns>, ls: seq<Leaf>, dels: seq<Id>)
      returns (created: Db, after: Db)
    requires db.Valid()
    requires DistinctTargets(ls + Map(dels, (id: Id) => Leaf(id, Stamp(now))))
    requires forall l <- ls :: db.IsChild(p, f, l.id)
    requires forall id <- dels :: db.IsChild(p, f, id)
    ensures ApplyNested(db, p, f, RewriteNested(now, Diff(creates, Leaves(ls), dels))) == Some(after)
    ensures Created(db, created, p, f, creates)
    ensures Wrote(created, after, ls + Map(dels, (id: Id) => Leaf(id, Stamp(now))))
  {
    var all := ls + Map(dels, (id: Id) => Leaf(id, Stamp(now)));
    created := CreateAll(db, p, f, creates);
    CreatesWrite(db, p, f, creates);
    LeavesRewrite(now, ls, dels);
    forall l <- all ensures created.IsChild(p, f, l.id) {
      if l !in ls {
        var k :| 0 <= k < |dels| && l == Leaf(dels[k], Stamp(now));
        assert dels[k] in dels;
      }
    }
    LeavesWrite(created, p, f, all);
    after := ApplyUpdates(created, p, f, Leaves(all)).value;
    DiffRuns(now, db, p, f, creates, Leaves(ls), dels);
  }

  // ----- Variants and modifiers -----

  function LeavesOf(submitted: seq<Submitted>): (ls: seq<Leaf>)
    ensures forall l <- ls :: Submitted(Some(l.id), l.columns) in submitted
    ensures forall s <- submitted :: s.id.Some? ==> Leaf(s.id.value, s.columns) in ls
    ensures Leaves(ls) == UpdatesOf(submitted)
    ensures |ls| == |Filter(submitted, HasId)|
  {
    if submitted == [] then []
    else if submitted[0].id.None? then LeavesOf(submitted[1..])
    else [Leaf(submitted[0].id.value, submitted[0].columns)] + LeavesOf(submitted[1..])
  }

  /** As many ids as rows naming one: no id is named twice. */
  lemma {:induction false} CountMeansDistinct(submitted: seq<Submitted>)
    ensures |IdsOf(submitted)| <= |Filter(submitted, HasId)|
    ensures |IdsOf(submitted)| == |Filter(submitted, HasId)| <==> DistinctTargets(LeavesOf(submitted))
  {
    if submitted == [] {
    } else {
      var rest := submitted[1..];
      CountMeansDistinct(rest);
      if submitted[0].id.None? {
        assert IdsOf(submitted) == IdsOf(rest);
      } else {
        var id := submitted[0].id.value;
        assert IdsOf(submitted) == {id} + IdsOf(rest);
        var ls := LeavesOf(rest);
        assert LeavesOf(submitted) == [Leaf(id, submitted[0].columns)] + ls;
        FirstDistinct(Leaf(id, submitted[0].columns), ls);
        assert id in IdsOf(rest) <==> Targets(ls, id);
      }
    }
  }

  lemma FirstDistinct(l: Leaf, ls: seq<Leaf>)
    ensures DistinctTargets([l] + ls) <==> !Targets(ls, l.id) && DistinctTargets(ls)
  {
    var all := [l] + ls;
    if DistinctTargets(all) {
      forall i, j | 0 <= i < j < |ls| ensures ls[i].id != ls[j].id { assert all[i + 1].id != all[j + 1].id; }
      forall x <- ls ensures x.id != l.id { var k :| 0 <= k < |ls| && ls[k] == x; assert all[0].id != all[k + 1].id; }
    }
  }

  lemma {:induction false} SameIds(submitted: seq<Submitted>)
    ensures IdsOf(Filter(submitted, HasId)) == IdsOf(submitted)
  {
    var kept := Filter(submitted, HasId);
    forall s <- submitted | s.id.Some? ensures s in kept { FilterHas(submitted, HasId, s); }
  }

  lemma {:induction false} FilterHas<T>(s: seq<T>, p: T -> bool, x: T)
    requires x in s && p(x)
    ensures x in Filter(s, p)
  {
    if s[0] != x { FilterHas(s[1..], p, x); }
  }

  lemma {:induction false} FilterDistinct(s: seq<Id>, p: Id -> bool)
    requires NoRepeats(s)
    ensures NoRepeats(Filter(s, p))
  {
    if s == [] {
    } else {
      FilterDistinct(s[1..], p);
      assert forall x <- Filter(s[1..], p) :: x in s[1..] && x != s[0];
    }
  }

  lemma UnknownFound(current: seq<Id>, submitted: seq<Submitted>)
    ensures Filter(submitted, Unknown(current)) != [] ==>
              Filter(submitted, Unknown(current))[0].id.Some?
              && Filter(submitted, Unknown(current))[0].id.value in IdsOf(submitted) - (set id <- current)
    ensures Filter(submitted, Unknown(current)) == [] ==> IdsOf(submitted) <= (set id <- current)
  {
    var unknown := Filter(submitted, Unknown(current));
    if unknown == [] {
      forall id <- IdsOf(submitted) ensures id in (set x <- current) {
        var s :| s in submitted && s.id == Some(id);
        if Unknown(current)(s) { FilterHas(submitted, Unknown(current), s); }
      }
    } else {
      var s := unknown[0];
      assert s in unknown && s in submitted && Unknown(current)(s);
      assert s.id.value in IdsOf(submitted) && s.id.value !in (set id <- current);
    }
  }

  /** Refused as unknown exactly when an id submitted names no current row. */
  lemma UnknownExactly(current: seq<Id>, submitted: seq<Submitted>)
    ensures var out := BuildReplaceSet(current, submitted);
            && (out.UnknownId? <==> !(IdsOf(submitted) <= (set id <- current)))
            && (out.UnknownId? ==> out.id in IdsOf(submitted) - (set id <- current))
  {
    UnknownFound(current, submitted);
    if Filter(submitted, Unknown(current)) != [] {
      assert Filter(submitted, Unknown(current))[0].id.value !in (set id <- current);
    }
  }

  /** When a submission is refused, and for which reason. */
  lemma RefusedExactly(current: seq<Id>, submitted: seq<Submitted>)
    ensures var (out, ids, known) := (BuildReplaceSet(current, submitted), IdsOf(submitted), set id <- current);
            && (out.UnknownId? <==> !(ids <= known))
            && (out.UnknownId? ==> out.id in ids - known)
            && (out.Accepted? <==> ids <= known && DistinctTargets(LeavesOf(submitted)))
  {
    UnknownExactly(current, submitted);
    SameIds(submitted);
    CountMeansDistinct(submitted);
  }

  /** The live children of a parent. */
  ghost predicate LiveChild(db: Db, p: Id, f: string, id: Id) { db.IsChild(p, f, id) && Live(db.rows[id].columns) }

  ghost predicate ListsLive(db: Db, p: Id, f: string, current: seq<Id>) {
    && NoRepeats(current)
    && (forall id :: id in current <==> LiveChild(db, p, f, id))
  }

  ghost predicate RowIs(db: Db, id: Id, r: Row) { id in db.rows && db.rows[id] == r }

  /** Replacing a parent's live children by an accepted submission: what is written... */
  ghost predicate RowsReplaced(now: int, db: Db, after: Db, p: Id, f: string, current: seq<Id>,
      submitted: seq<Submitted>) {
    // no row goes, and one is added for each submission without an id, in order
    && after.next == db.next + |NewColumns(submitted)|
    && (forall id: Id :: id in after.rows <==> id in db.rows || db.next <= id < after.next)
    && (forall k | 0 <= k < |NewColumns(submitted)| :: RowIs(after, db.next + k, Row(p, f, NewColumns(submitted)[k])))
    // kept rows keep their id and take the submitted columns
    && (forall s <- submitted :: s.id.Some? && s.id.value in db.rows ==>
          RowIs(after, s.id.value, Write(db.rows[s.id.value], s.columns)))
    // the other current rows are stamped, and no other row changes
    && (forall id <- db.rows :: id !in IdsOf(submitted) ==>
          RowIs(after, id, if id in current then Write(db.rows[id], Stamp(now)) else db.rows[id]))
  }

  /** ...and what is then live: the submitted ids and the fresh ones. */
  ghost predicate Replaced(now: int, db: Db, after: Db, p: Id, f: string, current: seq<Id>, submitted: seq<Submitted>) {
    && RowsReplaced(now, db, after, p, f, current, submitted)
    && forall id: Id :: LiveChild(after, p, f, id) <==> id in IdsOf(submitted) || db.next <= id < after.next
  }

  lemma ReplaceSetIsExact(now: int, db: Db, p: Id, f: string, current: seq<Id>, submitted: seq<Submitted>)
    requires db.Valid() && ListsLive(db, p, f, current)
    requires forall s <- submitted :: DELETED_AT !in s.columns
    requires BuildReplaceSet(current, submitted).Accepted?
    ensures var diff := BuildReplaceSet(current, submitted).value;
            && ApplyNested(db, p, f, RewriteNested(now, diff)).Some?
            && Replaced(now, db, ApplyNested(db, p, f, RewriteNested(now, diff)).value, p, f, current, submitted)
  {
    RefusedExactly(current, submitted);
    var dels := GoneFrom(current, submitted);
    GoneAre(current, submitted);
    var after := DiffWrites(now, db, p, f, current, submitted, dels);
    LiveAfter(now, db, after, p, f, current, submitted);
  }

  lemma GoneAre(current: seq<Id>, submitted: seq<Submitted>)
    requires NoRepeats(current)
    ensures var dels := GoneFrom(current, submitted);
            && NoRepeats(dels)
            && (forall id :: id in dels <==> id in current && id !in IdsOf(submitted))
  {
    SameIds(submitted);
    var gone := (id: Id) => id !in IdsOf(Filter(submitted, HasId));
    FilterDistinct(current, gone);
    forall id <- current | id !in IdsOf(submitted) ensures id in Filter(current, gone) { FilterHas(current, gone, id); }
  }

  lemma DiffWrites(now: int, db: Db, p: Id, f: string, current: seq<Id>, submitted: seq<Submitted>, dels: seq<Id>)
      returns (after: Db)
    requires db.Valid() && ListsLive(db, p, f, current)
    requires IdsOf(submitted) <= (set id <- current) && DistinctTargets(LeavesOf(submitted))
    requires NoRepeats(dels)
    requires forall id :: id in dels <==> id in current && id !in IdsOf(submitted)
    ensures var diff := Diff(NewColumns(submitted), UpdatesOf(submitted), dels);
            ApplyNested(db, p, f, RewriteNested(now, diff)) == Some(after)
    ensures RowsReplaced(now, db, after, p, f, current, submitted)
  {
    var ls := LeavesOf(submitted);
    forall l <- ls ensures l.id in IdsOf(submitted) && db.IsChild(p, f, l.id) {
      assert Submitted(Some(l.id), l.columns) in submitted;
      assert l.id in IdsOf(submitted) && l.id in (set id <- current);
    }
    JoinDistinct(now, ls, dels);
    var created;
    created, after := FlatDiff(now, db, p, f, NewColumns(submitted), ls, dels);
    DiffRows(now, db, created, after, p, f, current, submitted, dels);
  }

  lemma DiffRows(now: int, db: Db, created: Db, after: Db, p: Id, f: string, current: seq<Id>,
      submitted: seq<Submitted>, dels: seq<Id>)
    requires db.Valid() && forall id <- current :: id in db.rows
    requires IdsOf(submitted) <= (set id <- current)
    requires forall id :: id in dels <==> id in current && id !in IdsOf(submitted)
    requires Created(db, created, p, f, NewColumns(submitted))
    requires Wrote(created, after, LeavesOf(submitted) + Map(dels, (id: Id) => Leaf(id, Stamp(now))))
    ensures RowsReplaced(now, db, after, p, f, current, submitted)
  {
    var ls, ids := LeavesOf(submitted), IdsOf(submitted);
    var stamps := Map(dels, (id: Id) => Leaf(id, Stamp(now)));
    var all := ls + stamps;
    forall id: Id ensures Targets(all, id) <==> id in current && (id in ids || id in dels) {
      TargetsAre(now, ls, dels, id);
      TargetIds(submitted, id);
    }
    forall k | 0 <= k < |NewColumns(submitted)| ensures RowIs(after, db.next + k, Row(p, f, NewColumns(submitted)[k])) {
      assert !Targets(all, db.next + k);
    }
    forall s <- submitted | s.id.Some? && s.id.value in db.rows
      ensures RowIs(after, s.id.value, Write(db.rows[s.id.value], s.columns))
    {
      assert Leaf(s.id.value, s.columns) in all;
    }
    forall id <- db.rows | id !in ids
      ensures RowIs(after, id, if id in current then Write(db.rows[id], Stamp(now)) else db.rows[id])
    {
      if id in current {
        var k :| 0 <= k < |dels| && dels[k] == id;
        assert stamps[k] in all;
      } else {
        assert !Targets(all, id);
      }
    }
  }

  lemma LiveAfter(now: int, db: Db, after: Db, p: Id, f: string, current: seq<Id>, submitted: seq<Submitted>)
    requires db.Valid() && ListsLive(db, p, f, current)
    requires IdsOf(submitted) <= (set id <- current)
    requires forall s <- submitted :: DELETED_AT !in s.columns
    requires RowsReplaced(now, db, after, p, f, current, submitted)
    ensures Replaced(now, db, after, p, f, current, submitted)
  {
    forall id: Id ensures LiveChild(after, p, f, id) <==> id in IdsOf(submitted) || db.next <= id < after.next {
      if id in after.rows {
        if db.next <= id {
          NewColumnsPlain(submitted, id - db.next);
          assert RowIs(after, db.next + (id - db.next), Row(p, f, NewColumns(submitted)[id - db.next]));
        } else if id in IdsOf(submitted) {
          var s :| s in submitted && s.id == Some(id);
          assert id in current && LiveChild(db, p, f, id);
          assert RowIs(after, id, Write(db.rows[id], s.columns));
        } else {
          assert RowIs(after, id, if id in current then Write(db.rows[id], Stamp(now)) else db.rows[id]);
          assert Stamp(now)[DELETED_AT] == At(now);
        }
      }
    }
  }

  lemma JoinDistinct(now: int, ls: seq<Leaf>, dels: seq<Id>)
    requires DistinctTargets(ls)
    requires NoRepeats(dels)
    requires forall l <- ls :: l.id !in dels
    ensures DistinctTargets(ls + Map(dels, (id: Id) => Leaf(id, Stamp(now))))
  {
    var all := ls + Map(dels, (id: Id) => Leaf(id, Stamp(now)));
    forall i, j | 0 <= i < j < |all| ensures all[i].id != all[j].id {
      if i < |ls| <= j { assert ls[i] in ls && all[j].id == dels[j - |ls|]; }
    }
  }

  lemma TargetsAre(now: int, ls: seq<Leaf>, dels: seq<Id>, id: Id)
    ensures Targets(ls + Map(dels, (d: Id) => Leaf(d, Stamp(now))), id) <==> Targets(ls, id) || id in dels
  {
    var stamps := Map(dels, (d: Id) => Leaf(d, Stamp(now)));
    var all := ls + stamps;
    if Targets(ls, id) {
      var l :| l in ls && l.id == id;
      assert l in all;
    }
    if id in dels {
      var k :| 0 <= k < |dels| && dels[k] == id;
      assert stamps[k] in all;
    }
  }

  lemma TargetIds(submitted: seq<Submitted>, id: Id)
    ensures Targets(LeavesOf(submitted), id) <==> id in IdsOf(submitted)
  {
    if id in IdsOf(submitted) {
      var s :| s in submitted && s.id == Some(id);
      assert Leaf(id, s.columns) in LeavesOf(submitted);
    }
  }

  lemma {:induction false} NewColumnsPlain(submitted: seq<Submitted>, k: nat)
    requires k < |NewColumns(submitted)|
    requires forall s <- submitted :: DELETED_AT !in s.columns
    ensures DELETED_AT !in NewColumns(submitted)[k]
  {
    if submitted[0].id.None? {
      if k > 0 { NewColumnsPlain(submitted[1..], k - 1); }
    } else {
      NewColumnsPlain(submitted[1..], k);
    }
  }

  /** Neither form of submission writes deletedAt. */
  lemma PlainColumns(v: VariantInput, m: ModifierInput)
    ensures DELETED_AT !in VariantColumns(v).columns && DELETED_AT !in ModifierColumns(m).columns
  {
    assert |DELETED_AT| == 9 && |"name"| == 4 && |"sku"| == 3 && |"barcode"| == 7 && |"price"| == 5 && |"cost"| == 4;
    assert |"priceDelta"| == 10;
  }

  /** A modifier submission, accepted, rewritten and applied. */
  lemma ModifiersReplaced(now: int, db: Db, group: Id, current: seq<Id>, submitted: seq<ModifierInput>)
    requires db.Valid() && ListsLive(db, group, "modifiers", current)
    requires BuildModifierReplaceSet(current, submitted).Accepted?
    ensures var diff := BuildModifierReplaceSet(current, submitted).value;
            && ApplyNested(db, group, "modifiers", RewriteNested(now, diff)).Some?
            && Replaced(now, db, ApplyNested(db, group, "modifiers", RewriteNested(now, diff)).value,
                        group, "modifiers", current, Map(submitted, ModifierColumns))
  {
    forall s <- Map(submitted, ModifierColumns) ensures DELETED_AT !in s.columns {
      var m :| s == ModifierColumns(m);
      PlainColumns(VariantInput(None, "", None, None, 0, None), m);
    }
    ReplaceSetIsExact(now, db, group, "modifiers", current, Map(submitted, ModifierColumns));
  }

  // ----- Product/group links -----

  /** Row `id` links product p to group g. */
  predicate IsLink(db: Db, p: Id, id: Id, g: Id) {
    db.IsChild(p, LINKS, id) && GROUP in db.rows[id].columns && db.rows[id].columns[GROUP] == Num(g)
  }

  /** The database's unique constraint on (product, group). */
  ghost predicate OnePerGroup(db: Db, p: Id) { forall a, b, g :: IsLink(db, p, a, g) && IsLink(db, p, b, g) ==> a == b }

  /** `links` is every link row of the product, deleted ones included. */
  ghost predicate ListsLinks(db: Db, p: Id, links: seq<Link>) {
    && (forall i, j | 0 <= i < j < |links| :: links[i].id != links[j].id)
    && (forall l <- links :: IsLink(db, p, l.id, l.groupId) && (l.deleted <==> !Live(db.rows[l.id].columns)))
    && (forall id :: db.IsChild(p, LINKS, id) ==> exists l <- links :: l.id == id)
  }

  ghost predicate Linked(db: Db, p: Id, g: Id) { exists id :: IsLink(db, p, id, g) && Live(db.rows[id].columns) }

  lemma LinkOf(db: Db, p: Id, links: seq<Link>, id: Id) returns (l: Link)
    requires ListsLinks(db, p, links) && OnePerGroup(db, p) && db.IsChild(p, LINKS, id)
    ensures l in links && l.id == id && IsLink(db, p, id, l.groupId)
    ensures l.groupId in ByGroup(links) && ByGroup(links)[l.groupId] == l
  {
    ByGroupIs(links);
    l :| l in links && l.id == id;
    var k := ByGroup(links)[l.groupId];
    assert IsLink(db, p, k.id, l.groupId);
  }

  lemma Appended(s: seq<Id>, x: Id)
    requires NoRepeats(s) && x !in s
    ensures NoRepeats(s + [x])
  {}

  lemma {:induction false} NewGroupsAre(byGroup: map<Id, Link>, groups: seq<Id>)
    requires NoRepeats(groups)
    ensures NoRepeats(NewGroups(byGroup, groups))
    ensures forall g :: g in NewGroups(byGroup, groups) <==> g in groups && g !in byGroup
    decreases |groups|
  {
    if groups == [] {
    } else {
      var g, init := groups[|groups| - 1], groups[..|groups| - 1];
      NewGroupsAre(byGroup, init);
      assert groups == init + [g];
      if g !in byGroup { Appended(NewGroups(byGroup, init), g); }
    }
  }

  lemma {:induction false} RestoreIds(byGroup: map<Id, Link>, groups: seq<Id>)
    requires NoRepeats(groups)
    requires forall g, h | g in byGroup && h in byGroup && byGroup[g].id == byGroup[h].id :: g == h
    ensures NoRepeats(ToRestore(byGroup, groups))
    ensures forall id :: id in ToRestore(byGroup, groups)
                    <==> exists g <- groups :: g in byGroup && byGroup[g].deleted && byGroup[g].id == id
    decreases |groups|
  {
    if groups == [] {
    } else {
      var g, init := groups[|groups| - 1], groups[..|groups| - 1];
      RestoreIds(byGroup, init);
      assert groups == init + [g];
      if g in byGroup && byGroup[g].deleted { Appended(ToRestore(byGroup, init), byGroup[g].id); }
    }
  }

  lemma {:induction false} DeleteIds(links: seq<Link>, desired: seq<Id>)
    requires forall i, j | 0 <= i < j < |links| :: links[i].id != links[j].id
    ensures NoRepeats(ToDelete(links, desired))
    ensures forall id :: id in ToDelete(links, desired)
                    <==> exists l <- links :: !l.deleted && l.groupId !in desired && l.id == id
  {
    if links == [] {
    } else {
      var l, init := links[|links| - 1], links[..|links| - 1];
      DeleteIds(init, desired);
      assert links == init + [l];
      if !l.deleted && l.groupId !in desired { Appended(ToDelete(init, desired), l.id); }
    }
  }

  /** The three parts of a link diff, as sets, and that none of them repeats. */
  lemma DiffParts(db: Db, p: Id, links: seq<Link>, desired: seq<Id>)
      returns (byGroup: map<Id, Link>, newGroups: seq<Id>, restore: seq<Id>, del: seq<Id>)
    requires ListsLinks(db, p, links)
    ensures byGroup == ByGroup(links) && newGroups == NewGroups(byGroup, Deduplicated(desired))
    ensures restore == ToRestore(byGroup, Deduplicated(desired)) && del == ToDelete(links, desired)
    ensures NoRepeats(newGroups) && NoRepeats(restore) && NoRepeats(del)
    ensures forall g <- byGroup :: byGroup[g] in links && byGroup[g].groupId == g
    ensures forall g :: g in newGroups <==> g in desired && g !in byGroup
    ensures forall id :: id in restore
                      <==> exists g <- desired :: g in byGroup && byGroup[g].deleted && byGroup[g].id == id
    ensures forall id :: id in del <==> exists l <- links :: !l.deleted && l.groupId !in desired && l.id == id
  {
    var groups := Deduplicated(desired);
    byGroup := ByGroup(links);
    newGroups, restore, del := NewGroups(byGroup, groups), ToRestore(byGroup, groups), ToDelete(links, desired);
    ByGroupIs(links);
    DeduplicatedNoRepeats(desired);
    forall g ensures g in groups <==> g in desired { DeduplicatedHas(desired, g); }
    NewGroupsAre(byGroup, groups);
    RestoreIds(byGroup, groups);
    DeleteIds(links, desired);
  }

  lemma Unlinked(db: Db, p: Id, links: seq<Link>, g: Id)
    requires ListsLinks(db, p, links) && OnePerGroup(db, p) && g !in ByGroup(links)
    ensures !Linked(db, p, g)
  {
    forall id: Id ensures !IsLink(db, p, id, g) {
      if db.IsChild(p, LINKS, id) { var l := LinkOf(db, p, links, id); }
    }
  }

  /** No diff is produced exactly when the live groups are the desired ones already. */
  lemma NullExactlyWhenSettled(db: Db, p: Id, links: seq<Link>, desired: seq<Id>)
    requires ListsLinks(db, p, links) && OnePerGroup(db, p)
    ensures LinkReplaceSet(links, desired).None? <==> forall g :: Linked(db, p, g) <==> g in desired
  {
    if LinkReplaceSet(links, desired).None? {
      NoDiffMeansSettled(db, p, links, desired);
    } else {
      var g := DiffMeansUnsettled(db, p, links, desired);
    }
  }

  /** A group whose one row is deleted is not linked. */
  lemma OnlyRowDeleted(db: Db, p: Id, id: Id, g: Id)
    requires OnePerGroup(db, p) && IsLink(db, p, id, g) && !Live(db.rows[id].columns)
    ensures !Linked(db, p, g)
  {}

  lemma DiffMeansUnsettled(db: Db, p: Id, links: seq<Link>, desired: seq<Id>) returns (g: Id)
    requires ListsLinks(db, p, links) && OnePerGroup(db, p)
    requires LinkReplaceSet(links, desired).Some?
    ensures Linked(db, p, g) <==> g !in desired
  {
    var byGroup, newGroups, restore, del := DiffParts(db, p, links, desired);
    if newGroups != [] {
      g := newGroups[0];
      assert g in newGroups;
      Unlinked(db, p, links, g);
    } else if restore != [] {
      assert restore[0] in restore;
      g := RestoredGroup(db, p, links, desired, byGroup, restore[0]);
    } else {
      assert |Map(newGroups, LinkTo)| == 0 && del != [];
      assert del[0] in del;
      var l :| l in links && !l.deleted && l.groupId !in desired && l.id == del[0];
      g := l.groupId;
      assert IsLink(db, p, l.id, g);
    }
  }

  lemma RestoredGroup(db: Db, p: Id, links: seq<Link>, desired: seq<Id>, byGroup: map<Id, Link>, id: Id) returns (g: Id)
    requires ListsLinks(db, p, links) && OnePerGroup(db, p)
    requires forall h <- byGroup :: byGroup[h] in links && byGroup[h].groupId == h
    requires exists h <- desired :: h in byGroup && byGroup[h].deleted && byGroup[h].id == id
    ensures g in desired && !Linked(db, p, g)
  {
    g :| g in desired && g in byGroup && byGroup[g].deleted && byGroup[g].id == id;
    assert byGroup[g] in links;
    OnlyRowDeleted(db, p, id, g);
  }

  lemma NoDiffMeansSettled(db: Db, p: Id, links: seq<Link>, desired: seq<Id>)
    requires ListsLinks(db, p, links) && OnePerGroup(db, p)
    requires LinkReplaceSet(links, desired).None?
    ensures forall g :: Linked(db, p, g) <==> g in desired
  {
    var byGroup, newGroups, restore, del := DiffParts(db, p, links, desired);
    assert |Map(newGroups, LinkTo)| == |newGroups|;
    forall g | Linked(db, p, g) ensures g in desired {
      var id :| IsLink(db, p, id, g) && Live(db.rows[id].columns);
      var l := LinkOf(db, p, links, id);
      assert id !in del;
    }
    forall g <- desired ensures Linked(db, p, g) {
      assert g !in newGroups;
      assert byGroup[g].id !in restore;
      assert IsLink(db, p, byGroup[g].id, g);
    }
  }

  lemma {:induction false} RestoreLeaves(ids: seq<Id>)
    ensures Restores(ids) == Leaves(Map(ids, (id: Id) => Leaf(id, map[DELETED_AT := Null])))
  {
    if ids == [] {
    } else {
      var all := Map(ids, (id: Id) => Leaf(id, map[DELETED_AT := Null]));
      assert all[1..] == Map(ids[1..], (id: Id) => Leaf(id, map[DELETED_AT := Null]));
      RestoreLeaves(ids[1..]);
    }
  }

  /** The product's links afterwards: the live ones are exactly the desired groups, still one
      row per group; every link row is kept under its id and group, nothing else changes, and
      the only new rows are links to desired groups. */
  ghost predicate Settled(db: Db, after: Db, p: Id, desired: seq<Id>) {
    && (forall g :: Linked(after, p, g) <==> g in desired)
    && OnePerGroup(after, p)
    && (forall id, g :: IsLink(db, p, id, g) ==> IsLink(after, p, id, g))
    && (forall id <- db.rows :: id in after.rows && (db.IsChild(p, LINKS, id) || after.rows[id] == db.rows[id]))
    && (forall id <- after.rows :: id !in db.rows ==> exists g <- desired :: IsLink(after, p, id, g))
  }

  /** Row by row, what an applied link diff does. */
  ghost predicate LinksWritten(db: Db, after: Db, p: Id, newGroups: seq<Id>, desired: seq<Id>) {
    && (forall id: Id :: id in after.rows <==> id in db.rows || db.next <= id < db.next + |newGroups|)
    && (forall k | 0 <= k < |newGroups| :: RowIs(after, db.next + k, Row(p, LINKS, LinkTo(newGroups[k]))))
    && (forall id <- db.rows :: !db.IsChild(p, LINKS, id) ==> RowIs(after, id, db.rows[id]))
    && (forall id, g :: IsLink(db, p, id, g) ==>
          IsLink(after, p, id, g) && (Live(after.rows[id].columns) <==> g in desired))
  }

  /** Where a link found afterwards comes from. */
  lemma LinkAfter(db: Db, after: Db, p: Id, links: seq<Link>, newGroups: seq<Id>, desired: seq<Id>, id: Id, g: Id)
    requires db.Valid() && ListsLinks(db, p, links) && OnePerGroup(db, p)
    requires LinksWritten(db, after, p, newGroups, desired)
    requires forall g :: g in newGroups <==> g in desired && g !in ByGroup(links)
    requires IsLink(after, p, id, g)
    ensures id in db.rows ==> IsLink(db, p, id, g) && g !in newGroups
    ensures id !in db.rows ==> db.next <= id < db.next + |newGroups| && newGroups[id - db.next] == g && g in desired
  {
    if id in db.rows {
      if db.IsChild(p, LINKS, id) {
        var l := LinkOf(db, p, links, id);
        assert IsLink(after, p, id, l.groupId);
      }
    } else {
      assert RowIs(after, db.next + (id - db.next), Row(p, LINKS, LinkTo(newGroups[id - db.next])));
      assert newGroups[id - db.next] in newGroups;
    }
  }

  lemma LinkedAfter(db: Db, after: Db, p: Id, links: seq<Link>, newGroups: seq<Id>, desired: seq<Id>, g: Id)
    requires db.Valid() && ListsLinks(db, p, links) && OnePerGroup(db, p)
    requires LinksWritten(db, after, p, newGroups, desired)
    requires forall g :: g in newGroups <==> g in desired && g !in ByGroup(links)
    ensures Linked(after, p, g) <==> g in desired
  {
    ByGroupIs(links);
    if g in newGroups {
      var k :| 0 <= k < |newGroups| && newGroups[k] == g;
      assert RowIs(after, db.next + k, Row(p, LINKS, LinkTo(g)));
      assert |GROUP| == 7 && |DELETED_AT| == 9;
      assert IsLink(after, p, db.next + k, g);
    } else if g in desired {
      assert IsLink(db, p, ByGroup(links)[g].id, g);
      assert IsLink(after, p, ByGroup(links)[g].id, g);
    } else {
      forall id: Id ensures !(IsLink(after, p, id, g) && Live(after.rows[id].columns)) {
        if IsLink(after, p, id, g) { LinkAfter(db, after, p, links, newGroups, desired, id, g); }
      }
    }
  }

  lemma SettledByRows(db: Db, after: Db, p: Id, links: seq<Link>, newGroups: seq<Id>, desired: seq<Id>)
    requires db.Valid() && ListsLinks(db, p, links) && OnePerGroup(db, p)
    requires LinksWritten(db, after, p, newGroups, desired)
    requires forall g :: g in newGroups <==> g in desired && g !in ByGroup(links)
    requires NoRepeats(newGroups)
    ensures Settled(db, after, p, desired)
  {
    forall g ensures Linked(after, p, g) <==> g in desired { LinkedAfter(db, after, p, links, newGroups, desired, g); }
    forall a: Id, b: Id, g: Id | IsLink(after, p, a, g) && IsLink(after, p, b, g) ensures a == b {
      LinkAfter(db, after, p, links, newGroups, desired, a, g);
      LinkAfter(db, after, p, links, newGroups, desired, b, g);
    }
    forall id <- after.rows | id !in db.rows ensures exists g <- desired :: IsLink(after, p, id, g) {
      assert RowIs(after, db.next + (id - db.next), Row(p, LINKS, LinkTo(newGroups[id - db.next])));
      assert newGroups[id - db.next] in newGroups && IsLink(after, p, id, newGroups[id - db.next]);
    }
  }

  /** Applying the rewritten link diff (or doing nothing when it is null) settles the links. */
  lemma LinksSettle(now: int, db: Db, p: Id, links: seq<Link>, desired: seq<Id>) returns (after: Db)
    requires db.Valid() && ListsLinks(db, p, links) && OnePerGroup(db, p)
    ensures match LinkReplaceSet(links, desired)
            case None => after == db
            case Some(diff) => ApplyNested(db, p, LINKS, RewriteNested(now, diff)) == Some(after)
    ensures Settled(db, after, p, desired)
  {
    if LinkReplaceSet(links, desired).None? {
      after := db;
      NullExactlyWhenSettled(db, p, links, desired);
    } else {
      var _, newGroups, _, _ := DiffParts(db, p, links, desired);
      after := LinkDiffRows(now, db, p, links, desired, newGroups);
      SettledByRows(db, after, p, links, newGroups, desired);
    }
  }

  lemma LinkDiffRows(now: int, db: Db, p: Id, links: seq<Link>, desired: seq<Id>, newGroups: seq<Id>)
      returns (after: Db)
    requires db.Valid() && ListsLinks(db, p, links) && OnePerGroup(db, p)
    requires newGroups == NewGroups(ByGroup(links), Deduplicated(desired))
    ensures var restore, del := ToRestore(ByGroup(links), Deduplicated(desired)), ToDelete(links, desired);
            var diff := Diff(Map(newGroups, LinkTo), Restores(restore), del);
            ApplyNested(db, p, LINKS, RewriteNested(now, diff)) == Some(after)
    ensures LinksWritten(db, after, p, newGroups, desired)
  {
    var _, _, restore, del := DiffParts(db, p, links, desired);
    var ls := Map(restore, (id: Id) => Leaf(id, map[DELETED_AT := Null]));
    RestoreLeaves(restore);
    LinkTargetsApart(db, p, links, desired, restore, del);
    JoinDistinct(now, ls, del);
    var created;
    created, after := FlatDiff(now, db, p, LINKS, Map(newGroups, LinkTo), ls, del);
    LinkWrites(now, created, after, restore, del);
    LinkRows(now, db, created, after, p, newGroups, desired, restore, del);
  }

  /** The rows restored and deleted are links, none of them both. */
  lemma LinkTargetsApart(db: Db, p: Id, links: seq<Link>, desired: seq<Id>, restore: seq<Id>, del: seq<Id>)
    requires ListsLinks(db, p, links) && OnePerGroup(db, p) && NoRepeats(restore)
    requires restore == ToRestore(ByGroup(links), Deduplicated(desired)) && del == ToDelete(links, desired)
    ensures var ls := Map(restore, (id: Id) => Leaf(id, map[DELETED_AT := Null]));
            DistinctTargets(ls) && forall l <- ls :: db.IsChild(p, LINKS, l.id) && l.id !in del
    ensures forall id :: id in restore || id in del ==> db.IsChild(p, LINKS, id)
    ensures forall id, g | IsLink(db, p, id, g) :: id in restore <==> !Live(db.rows[id].columns) && g in desired
    ensures forall id, g | IsLink(db, p, id, g) :: id in del <==> Live(db.rows[id].columns) && g !in desired
  {
    RestoredAre(db, p, links, desired);
    forall id: Id
      ensures id in del ==> db.IsChild(p, LINKS, id) && Live(db.rows[id].columns)
      ensures forall g | IsLink(db, p, id, g) :: id in del <==> Live(db.rows[id].columns) && g !in desired
    {
      DeletedAre(db, p, links, desired, id);
    }
    var ls := Map(restore, (id: Id) => Leaf(id, map[DELETED_AT := Null]));
    forall l <- ls ensures db.IsChild(p, LINKS, l.id) && l.id !in del {
      var k :| 0 <= k < |restore| && ls[k] == l;
      assert restore[k] in restore;
    }
  }

  /** The rows restored are the deleted links of desired groups. */
  lemma RestoredAre(db: Db, p: Id, links: seq<Link>, desired: seq<Id>)
    requires ListsLinks(db, p, links) && OnePerGroup(db, p)
    ensures var r := ToRestore(ByGroup(links), Deduplicated(desired));
            && (forall id <- r :: db.IsChild(p, LINKS, id) && !Live(db.rows[id].columns))
            && (forall id, g | IsLink(db, p, id, g) :: id in r <==> !Live(db.rows[id].columns) && g in desired)
  {
    var byGroup, _, r, _ := DiffParts(db, p, links, desired);
    forall id <- r ensures db.IsChild(p, LINKS, id) && !Live(db.rows[id].columns) {
      var g :| g in desired && g in byGroup && byGroup[g].deleted && byGroup[g].id == id;
      assert byGroup[g] in links;
    }
    forall id, g | IsLink(db, p, id, g) ensures id in r <==> !Live(db.rows[id].columns) && g in desired {
      var l := LinkOf(db, p, links, id);
      assert l.groupId == g;
    }
  }

  lemma DeletedAre(db: Db, p: Id, links: seq<Link>, desired: seq<Id>, id: Id)
    requires ListsLinks(db, p, links) && OnePerGroup(db, p)
    ensures id in ToDelete(links, desired) ==> db.IsChild(p, LINKS, id) && Live(db.rows[id].columns)
    ensures forall g | IsLink(db, p, id, g) ::
              id in ToDelete(links, desired) <==> Live(db.rows[id].columns) && g !in desired
  {
    DeleteIds(links, desired);
    if db.IsChild(p, LINKS, id) { var l := LinkOf(db, p, links, id); }
  }

  lemma LinkTargets(now: int, restore: seq<Id>, del: seq<Id>, id: Id)
    ensures var ls := Map(restore, (r: Id) => Leaf(r, map[DELETED_AT := Null]));
            Targets(ls + Map(del, (d: Id) => Leaf(d, Stamp(now))), id) <==> id in restore || id in del
  {
    var ls := Map(restore, (r: Id) => Leaf(r, map[DELETED_AT := Null]));
    TargetsAre(now, ls, del, id);
    if id in restore {
      var k :| 0 <= k < |restore| && restore[k] == id;
      assert ls[k] in ls;
    }
  }

  function Touched(now: int, r: Row, restored: bool, deleted: bool): Row {
    if restored then Write(r, map[DELETED_AT := Null]) else if deleted then Write(r, Stamp(now)) else r
  }

  /** Every row already there is restored, stamped or untouched. */
  ghost predicate Flagged(now: int, a: Db, b: Db, restore: seq<Id>, del: seq<Id>) {
    && a.rows.Keys == b.rows.Keys
    && forall id <- a.rows :: RowIs(b, id, Touched(now, a.rows[id], id in restore, id in del))
  }

  lemma LinkWrites(now: int, created: Db, after: Db, restore: seq<Id>, del: seq<Id>)
    requires Wrote(created, after,
               Map(restore, (r: Id) => Leaf(r, map[DELETED_AT := Null])) + Map(del, (d: Id) => Leaf(d, Stamp(now))))
    ensures Flagged(now, created, after, restore, del)
  {
    var ls := Map(restore, (r: Id) => Leaf(r, map[DELETED_AT := Null]));
    var stamps := Map(del, (d: Id) => Leaf(d, Stamp(now)));
    forall id <- created.rows ensures RowIs(after, id, Touched(now, created.rows[id], id in restore, id in del)) {
      if id in restore {
        var k :| 0 <= k < |restore| && restore[k] == id;
        assert ls[k] in ls + stamps;
      } else if id in del {
        var k :| 0 <= k < |del| && del[k] == id;
        assert stamps[k] in ls + stamps;
      } else {
        LinkTargets(now, restore, del, id);
      }
    }
  }

  lemma LinkRows(now: int, db: Db, created: Db, after: Db, p: Id, newGroups: seq<Id>, desired: seq<Id>,
      restore: seq<Id>, del: seq<Id>)
    requires db.Valid()
    requires forall id :: id in restore || id in del ==> db.IsChild(p, LINKS, id)
    requires forall id, g | IsLink(db, p, id, g) :: id in restore <==> !Live(db.rows[id].columns) && g in desired
    requires forall id, g | IsLink(db, p, id, g) :: id in del <==> Live(db.rows[id].columns) && g !in desired
    requires Created(db, created, p, LINKS, Map(newGroups, LinkTo))
    requires Flagged(now, created, after, restore, del)
    ensures LinksWritten(db, after, p, newGroups, desired)
  {
    forall k | 0 <= k < |newGroups| ensures RowIs(after, db.next + k, Row(p, LINKS, LinkTo(newGroups[k]))) {
      assert created.rows[db.next + k] == Row(p, LINKS, Map(newGroups, LinkTo)[k]);
    }
    forall id, g | IsLink(db, p, id, g)
      ensures IsLink(after, p, id, g) && (Live(after.rows[id].columns) <==> g in desired)
    {
      TouchedLink(now, db.rows[id], after.rows[id], g, id in restore, id in del);
    }
  }

  /** A link restored or stamped still links the group, and is live unless stamped. */
  lemma TouchedLink(now: int, a: Row, b: Row, g: Id, restored: bool, deleted: bool)
    requires GROUP in a.columns && a.columns[GROUP] == Num(g) && b == Touched(now, a, restored, deleted)
    requires !(restored && deleted)
    ensures b.parent == a.parent && b.rel == a.rel && GROUP in b.columns && b.columns[GROUP] == Num(g)
    ensures Live(b.columns) <==> restored || (Live(a.columns) && !deleted)
  {
    assert |GROUP| == 7 && |DELETED_AT| == 9 && Stamp(now)[DELETED_AT] == At(now);
  }

  /** However the links are listed afterwards, the same request produces no second diff. */
  lemma SecondDiffIsNull(now: int, db: Db, p: Id, links: seq<Link>, desired: seq<Id>, diff: Nested, after: Db,
      relisted: seq<Link>)
    requires db.Valid() && ListsLinks(db, p, links) && OnePerGroup(db, p)
    requires LinkReplaceSet(links, desired) == Some(diff)
    requires ApplyNested(db, p, LINKS, RewriteNested(now, diff)) == Some(after)
    requires ListsLinks(after, p, relisted)
    ensures LinkReplaceSet(relisted, desired).None?
  {
    var settled := LinksSettle(now, db, p, links, desired);
    NullExactlyWhenSettled(after, p, relisted, desired);
  }
}
