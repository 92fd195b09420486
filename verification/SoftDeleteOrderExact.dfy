/** Exactly which nested-write objects may have their deletes moved, and the one that goes wrong. */
module SoftDeleteOrderProofs {
  import opened Common
  import opened SoftDeleteColumns
  import opened SoftDeleteWrites
  import opened SoftDeleteFrames
  import opened SoftDeleteOrder
  import opened SoftDeleteWriteProofs

  // ----- What is claimed -----

  ghost predicate KeepsOn(now: int, p: Id, f: string, n: Nested, hard: Db, soft: Db) {
    Sim(hard, soft) && ApplyNested(hard, p, f, n).Some? ==>
      var after := ApplyNested(soft, p, f, RewriteNested(now, n));
      after.Some? && Sim(ApplyNested(hard, p, f, n).value, after.value)
  }

  /** On all tables and at all times, the object rewritten does what it does as written. */
  ghost predicate KeepsMeaning(p: Id, f: string, n: Nested) {
    forall now, hard, soft :: KeepsOn(now, p, f, n, hard, soft)
  }

  predicate PartOfOperation(a: Operation, b: Operation) {
    match (a, b)
    case (Creating(x), Creating(y)) => forall e <- x :: e in y
    case (Upserting(x), Upserting(y)) => forall e <- x :: e in y
    case (Updating(x), Updating(y)) => forall e <- x :: e in y
    case (Deleting(x), Deleting(y)) => forall e <- x :: e in y
    case (UpdatingMany(x), UpdatingMany(y)) => forall e <- x :: e in y
    case (DeletingMany(x), DeletingMany(y)) => forall e <- x :: e in y
    case _ => false
  }

  /** The same keys in the same order, with only entries of n. */
  predicate PartOf(m: Nested, n: Nested) {
    |m| == |n| && forall i | 0 <= i < |n| :: PartOfOperation(m[i], n[i])
  }

  /** An object with no relation nested below it, no upsert and no reviving updateMany. */
  predicate Flat(n: Nested) { KeysOnce(n) && forall o <- n :: FlatOperation(o) }

  predicate FlatOperation(o: Operation) {
    match o
    case Upserting(upserts) => upserts == []
    case Updating(updates) => forall u <- updates :: u.data.rels == NoRels
    case UpdatingMany(bulk) => forall u <- bulk :: Harmless(u)
    case _ => true
  }

  // ----- Parts of an object in order are in order -----

  lemma PartHas(m: Nested, n: Nested, k: nat)
    requires PartOf(m, n) && k <= |n|
    ensures forall key :: HasBefore(m, k, key) <==> HasBefore(n, k, key)
  {
    forall key ensures HasBefore(m, k, key) <==> HasBefore(n, k, key) {
      HasBeforeExactly(m, k, key);
      HasBeforeExactly(n, k, key);
      forall i | 0 <= i < k ensures m[i].Key() == n[i].Key() { assert PartOfOperation(m[i], n[i]); }
    }
  }

  lemma {:induction false} PartDeletes(m: Nested, n: Nested)
    requires PartOf(m, n)
    ensures forall id <- IdsDeleted(m) :: id in IdsDeleted(n)
    ensures forall w <- WheresDeleted(m) :: w in WheresDeleted(n)
    decreases |n|
  {
    if n == [] {
    } else {
      assert PartOfOperation(m[0], n[0]);
      forall i | 0 <= i < |n[1..]| ensures PartOfOperation(m[1..][i], n[1..][i]) {
        assert PartOfOperation(m[i + 1], n[i + 1]);
      }
      PartDeletes(m[1..], n[1..]);
    }
  }

  lemma PartFaithful(f: string, m: Nested, n: Nested)
    requires PartOf(m, n) && Flat(n) && InOrder(f, n)
    ensures FaithfulNested(true, f, m)
  {
    forall i, j | 0 <= i < j < |m| ensures m[i].Key() != m[j].Key() {
      assert PartOfOperation(m[i], n[i]) && PartOfOperation(m[j], n[j]);
    }
    PartDeletes(m, n);
    forall k | 0 <= k < |m| ensures Clear(f, m[k], LagAt(m, k)) && FaithfulOperation(true, m[k]) {
      PartHas(m, n, k);
      assert PartOfOperation(m[k], n[k]) && FlatOperation(n[k]) && Clear(f, n[k], LagAt(n, k));
      ClearPart(f, m[k], n[k], LagAt(m, k), LagAt(n, k));
    }
  }

  lemma NoneWithin<T>(a: seq<T>, b: seq<T>)
    requires forall x <- a :: x in b
    ensures b == [] ==> a == []
  {
    if a != [] { assert a[0] in b; }
  }

  lemma ClearPart(f: string, a: Operation, b: Operation, small: Lag, big: Lag)
    requires PartOfOperation(a, b) && FlatOperation(b) && Clear(f, b, big)
    requires forall id <- small.ahead :: id in big.ahead
    requires forall w <- small.owedWheres :: w in big.owedWheres
    requires forall w <- small.aheadWheres :: w in big.aheadWheres
    ensures Clear(f, a, small) && FaithfulOperation(true, a)
  {
    match a {
      case Creating(creates) =>
        NoneWithin(small.ahead, big.ahead);
        forall c <- creates ensures ClearCreate(c, small) { assert ClearCreate(c, big); }
      case Updating(updates) =>
        forall u <- updates ensures ClearUpdate(f, u, small) && Faithful(true, u.data) {
          assert ClearUpdate(f, u, big) && u.data.rels == NoRels;
        }
      case UpdatingMany(bulk) =>
        forall u <- bulk ensures ClearUpdateMany(u, small) && Harmless(u) { assert ClearUpdateMany(u, big); }
      case Upserting(upserts) => NoneWithin(upserts, b.upserts);
      case _ =>
    }
  }

  // ----- A part of two entries, and its runs -----

  function Emptied(o: Operation): Operation {
    match o
    case Creating(_) => Creating([])
    case Upserting(_) => Upserting([])
    case Updating(_) => Updating([])
    case Deleting(_) => Deleting([])
    case UpdatingMany(_) => UpdatingMany([])
    case DeletingMany(_) => DeletingMany([])
  }

  predicate Idle(o: Operation) { o == Emptied(o) }

  /** One entry at k, one of the removal at j, and the other keys with none. */
  function Pair(n: Nested, k: nat, x: Operation, j: nat, removal: Operation): (m: Nested)
    ensures |m| == |n|
  {
    seq(|n|, i requires 0 <= i < |n| => if i == k then x else if i == j then removal else Emptied(n[i]))
  }

  lemma PairIsPart(n: Nested, k: nat, x: Operation, j: nat, removal: Operation)
    requires k < |n| && j < |n| && k != j && PartOfOperation(x, n[k]) && PartOfOperation(removal, n[j])
    ensures PartOf(Pair(n, k, x, j, removal), n)
  {
    var m := Pair(n, k, x, j, removal);
    forall i | 0 <= i < |n| ensures PartOfOperation(m[i], n[i]) {}
  }

  lemma {:induction false} IdleRun(db: Db, p: Id, f: string, s: Nested)
    requires forall o <- s :: Idle(o)
    ensures ApplyNested(db, p, f, s) == Some(db)
  {
    if s == [] {
    } else {
      IdleDoesNothing(db, p, f, s[0]);
      IdleRun(db, p, f, s[1..]);
    }
  }

  lemma IdleDoesNothing(db: Db, p: Id, f: string, o: Operation)
    requires Idle(o)
    ensures ApplyOperation(db, p, f, o) == Some(db)
  {}

  function Both(db: Db, p: Id, f: string, x: Operation, y: Operation): Option<Db> {
    var mid := ApplyOperation(db, p, f, x);
    if mid.None? then None else ApplyOperation(mid.value, p, f, y)
  }

  /** As written, the two run in turn. */
  lemma TwoRun(db: Db, p: Id, f: string, m: Nested, a: nat, b: nat)
    requires a < b < |m| && forall i | 0 <= i < |m| && i != a && i != b :: Idle(m[i])
    ensures ApplyNested(db, p, f, m) == Both(db, p, f, m[a], m[b])
  {
    var rest := m[a + 1..b] + ([m[b]] + m[b + 1..]);
    assert m == m[..a] + ([m[a]] + rest);
    OperationsInTurn(db, p, f, m[..a], [m[a]] + rest);
    IdleRun(db, p, f, m[..a]);
    OperationsInTurn(db, p, f, [m[a]], rest);
    OneOperation(db, p, f, m[a]);
    var mid := ApplyOperation(db, p, f, m[a]);
    if mid.Some? {
      OperationsInTurn(mid.value, p, f, m[a + 1..b], [m[b]] + m[b + 1..]);
      IdleRun(mid.value, p, f, m[a + 1..b]);
      OperationsInTurn(mid.value, p, f, [m[b]], m[b + 1..]);
      OneOperation(mid.value, p, f, m[b]);
      var after := ApplyOperation(mid.value, p, f, m[b]);
      if after.Some? { IdleRun(after.value, p, f, m[b + 1..]); }
    }
  }

  predicate Removal(o: Operation) { o.Deleting? || o.DeletingMany? }

  /** The stamps of one deleteMany. */
  function StampWhere(now: int, w: Columns): Operation { UpdatingMany([UpdateMany(w, Stamp(now))]) }

  lemma OneStamp(now: int, w: Columns)
    ensures StampManys(now, [w]) == [UpdateMany(w, Stamp(now))]
  {
    assert StampManys(now, [w][1..]) == [];
  }

  /** A stretch without entries of its own runs the stamps if it holds `updateMany`. */
  lemma {:induction false} Stretch(now: int, db: Db, p: Id, f: string, s: Nested, w: Columns)
    requires KeysOnce(s) && forall o <- s :: Idle(o) || Removal(o)
    ensures ApplyNested(db, p, f, RewriteOperations(now, s, [], [w]))
         == if Has(s, UpdateManyKey) then ApplyOperation(db, p, f, StampWhere(now, w)) else Some(db)
    decreases |s|
  {
    if s == [] {
    } else {
      var first := RewriteOperation(now, s[0], [], [w]);
      var after := if s[0].UpdatingMany? then ApplyOperation(db, p, f, StampWhere(now, w)) else Some(db);
      StretchOne(now, db, p, f, s[0], w);
      OperationsInTurn(db, p, f, first, RewriteOperations(now, s[1..], [], [w]));
      forall i, j | 0 <= i < j < |s[1..]| ensures s[1..][i].Key() != s[1..][j].Key() {
        assert s[i + 1].Key() != s[j + 1].Key();
      }
      Stretch(now, after.value, p, f, s[1..], w);
      assert s == [s[0]] + s[1..];
      HasTogether([s[0]], s[1..], UpdateManyKey);
      HasOne(s[0], UpdateManyKey);
      HasExactly(s[1..], UpdateManyKey);
      assert forall i | 0 <= i < |s[1..]| :: s[1..][i].Key() != s[0].Key();
    }
  }

  lemma StretchOne(now: int, db: Db, p: Id, f: string, o: Operation, w: Columns)
    requires Idle(o) || Removal(o)
    ensures ApplyNested(db, p, f, RewriteOperation(now, o, [], [w]))
         == if o.UpdatingMany? then ApplyOperation(db, p, f, StampWhere(now, w)) else Some(db)
  {
    OneStamp(now, w);
    if o.Updating? {
      assert RewriteUpdates(now, []) + Stamps(now, []) == [];
      OneOperation(db, p, f, o);
    } else if o.UpdatingMany? {
      assert [] + StampManys(now, [w]) == [UpdateMany(w, Stamp(now))];
      OneOperation(db, p, f, StampWhere(now, w));
    } else if !Removal(o) {
      OneOperation(db, p, f, o);
      IdleDoesNothing(db, p, f, o);
    }
  }

  predicate Owing(m: Nested, k: nat)
    requires k < |m|
  {
    HasBefore(m, k, DeleteManyKey) && !HasBefore(m, k, UpdateManyKey)
  }

  predicate Early(m: Nested, k: nat)
    requires k < |m|
  {
    !HasBefore(m, k, DeleteManyKey) && HasBefore(m, k, UpdateManyKey) && Has(m, DeleteManyKey)
  }

  /** Rewritten, the stamps run after the entry at k if they were owed there, and otherwise before. */
  lemma PairRewritten(now: int, db: Db, p: Id, f: string, m: Nested, k: nat, w: Columns)
    requires k < |m| && KeysOnce(m) && !Removal(m[k]) && FlatOperation(m[k])
    requires forall i | 0 <= i < |m| && i != k :: Idle(m[i]) || Removal(m[i])
    requires IdsDeleted(m) == [] && WheresDeleted(m) == [w] && (Owing(m, k) || Early(m, k))
    ensures ApplyNested(db, p, f, RewriteNested(now, m))
         == if Owing(m, k) then Both(db, p, f, m[k], StampWhere(now, w)) else Both(db, p, f, StampWhere(now, w), m[k])
  {
    var a, b, c, d := RewriteOperations(now, m[..k], [], [w]), RewriteOperation(now, m[k], [], [w]),
                      RewriteOperations(now, m[k + 1..], [], [w]), AddedKeys(now, m);
    KeysAround(m, k, UpdateManyKey);
    RewrittenIs(now, m, k, w);
    InFour(db, p, f, a, b, c, d);
    OthersQuiet(m, k);
    Stretch(now, db, p, f, m[..k], w);
    HasPrefix(m, k, UpdateManyKey);
    AfterFirst(now, if Owing(m, k) then db else ApplyOperation(db, p, f, StampWhere(now, w)).value, p, f, m, k, w);
  }

  /** From the entry at k on. */
  lemma AfterFirst(now: int, db: Db, p: Id, f: string, m: Nested, k: nat, w: Columns)
    requires k < |m| && KeysOnce(m) && !Removal(m[k]) && FlatOperation(m[k])
    requires forall i | 0 <= i < |m| && i != k :: Idle(m[i]) || Removal(m[i])
    requires IdsDeleted(m) == [] && WheresDeleted(m) == [w] && (Owing(m, k) || Early(m, k))
    ensures var b, c, d := RewriteOperation(now, m[k], [], [w]), RewriteOperations(now, m[k + 1..], [], [w]),
                           AddedKeys(now, m);
            Then(Then(Then(Some(db), p, f, b), p, f, c), p, f, d)
              == if Owing(m, k) then Both(db, p, f, m[k], StampWhere(now, w)) else ApplyOperation(db, p, f, m[k])
  {
    MidRuns(now, db, p, f, m[k], w);
    KeysAround(m, k, UpdateManyKey);
    OthersQuiet(m, k);
    var mid := ApplyNested(db, p, f, RewriteOperation(now, m[k], [], [w]));
    if mid.Some? { RestRuns(now, mid.value, p, f, m, k, w); }
  }

  lemma OthersQuiet(m: Nested, k: nat)
    requires k < |m| && forall i | 0 <= i < |m| && i != k :: Idle(m[i]) || Removal(m[i])
    ensures forall o <- m[..k] :: Idle(o) || Removal(o)
    ensures forall o <- m[k + 1..] :: Idle(o) || Removal(o)
  {}

  /** Behind the entry: the stamps, if they were owed and have not run with it. */
  lemma RestRuns(now: int, db: Db, p: Id, f: string, m: Nested, k: nat, w: Columns)
    requires k < |m| && KeysOnce(m) && forall o <- m[k + 1..] :: Idle(o) || Removal(o)
    requires IdsDeleted(m) == [] && WheresDeleted(m) == [w] && (Owing(m, k) || Early(m, k))
    ensures Then(Then(Some(db), p, f, RewriteOperations(now, m[k + 1..], [], [w])), p, f, AddedKeys(now, m))
         == if Owing(m, k) && !m[k].UpdatingMany? then ApplyOperation(db, p, f, StampWhere(now, w)) else Some(db)
  {
    KeysAround(m, k, UpdateManyKey);
    KeysAround(m, k, DeleteManyKey);
    Stretch(now, db, p, f, m[k + 1..], w);
    LastRuns(now, ApplyNested(db, p, f, RewriteOperations(now, m[k + 1..], [], [w])).value, p, f, m, w);
    assert m[k].UpdatingMany? <==> m[k].Key() == UpdateManyKey;
  }

  lemma RewrittenIs(now: int, m: Nested, k: nat, w: Columns)
    requires k < |m| && IdsDeleted(m) == [] && WheresDeleted(m) == [w]
    ensures RewriteNested(now, m)
         == RewriteOperations(now, m[..k], [], [w]) + RewriteOperation(now, m[k], [], [w])
            + RewriteOperations(now, m[k + 1..], [], [w]) + AddedKeys(now, m)
  {
    assert m == m[..k] + [m[k]] + m[k + 1..];
    RewriteInParts(now, m[..k] + [m[k]], m[k + 1..], [], [w]);
    RewriteInParts(now, m[..k], [m[k]], [], [w]);
    OneRewritten(now, m[k], [], [w]);
  }

  function Then(db: Option<Db>, p: Id, f: string, n: Nested): Option<Db> {
    if db.None? then None else ApplyNested(db.value, p, f, n)
  }

  lemma InFour(db: Db, p: Id, f: string, a: Nested, b: Nested, c: Nested, d: Nested)
    ensures ApplyNested(db, p, f, a + b + c + d) == Then(Then(Then(Then(Some(db), p, f, a), p, f, b), p, f, c), p, f, d)
  {
    OperationsInTurn(db, p, f, a + b + c, d);
    OperationsInTurn(db, p, f, a + b, c);
    OperationsInTurn(db, p, f, a, b);
  }

  lemma KeysAround(m: Nested, k: nat, key: Key)
    requires k < |m| && KeysOnce(m)
    ensures KeysOnce(m[..k]) && KeysOnce(m[k + 1..])
    ensures Has(m, key) <==> HasBefore(m, k, key) || m[k].Key() == key || Has(m[k + 1..], key)
    ensures HasBefore(m, k, key) ==> m[k].Key() != key && !Has(m[k + 1..], key)
    ensures m[k].Key() == key ==> !Has(m[k + 1..], key)
  {
    HasBeforeExactly(m, k, key);
    HasBeforeExactly(m, |m|, key);
    HasAfter(m, k, key);
  }

  lemma HasAfter(m: Nested, k: nat, key: Key)
    requires k < |m|
    ensures Has(m[k + 1..], key) <==> exists i :: k < i < |m| && m[i].Key() == key
  {
    var later := m[k + 1..];
    HasBeforeExactly(later, |later|, key);
    if i :| k < i < |m| && m[i].Key() == key { assert later[i - k - 1] == m[i]; }
  }

  /** The entry itself, with the stamps behind it if it is an updateMany. */
  lemma MidRuns(now: int, db: Db, p: Id, f: string, x: Operation, w: Columns)
    requires !Removal(x) && FlatOperation(x)
    ensures ApplyNested(db, p, f, RewriteOperation(now, x, [], [w]))
         == if x.UpdatingMany? then Both(db, p, f, x, StampWhere(now, w)) else ApplyOperation(db, p, f, x)
  {
    OneStamp(now, w);
    if x.Updating? {
      FlatUnchanged(now, x.updates);
      assert x.updates + Stamps(now, []) == x.updates;
    } else if x.UpdatingMany? {
      UpdateManysInTurn(db, p, f, x.bulk, StampManys(now, [w]));
    }
    OneOperation(db, p, f, RewriteOperation(now, x, [], [w])[0]);
  }

  lemma {:induction false} FlatUnchanged(now: int, us: seq<Update>)
    requires forall u <- us :: u.data.rels == NoRels
    ensures RewriteUpdates(now, us) == us
  {
    if us == [] {
    } else {
      assert us[0].data == Data(us[0].data.columns, NoRels) && Rewrite(now, us[0].data) == us[0].data;
      FlatUnchanged(now, us[1..]);
    }
  }

  lemma LastRuns(now: int, db: Db, p: Id, f: string, m: Nested, w: Columns)
    requires IdsDeleted(m) == [] && WheresDeleted(m) == [w]
    ensures ApplyNested(db, p, f, AddedKeys(now, m))
         == if Has(m, DeleteManyKey) && !Has(m, UpdateManyKey) then ApplyOperation(db, p, f, StampWhere(now, w))
            else Some(db)
  {
    OneStamp(now, w);
    var a := if Has(m, DeleteKey) && !Has(m, UpdateKey) then [Updating([])] else [];
    var b := if Has(m, DeleteManyKey) && !Has(m, UpdateManyKey) then [StampWhere(now, w)] else [];
    assert AddedKeys(now, m) == a + b;
    OperationsInTurn(db, p, f, a, b);
    IdleRun(db, p, f, a);
    OneOperation(db, p, f, StampWhere(now, w));
  }

  // ----- Tables of one row -----

  function OneRow(p: Id, f: string, id: Id, columns: Columns): Db { Db(map[id := Row(p, f, columns)], id + 1) }

  function NoRow(next: Id): Db { Db(map[], next) }

  lemma SingleEntries(db: Db, p: Id, f: string, c: Columns, u: UpdateMany, w: Columns)
    ensures CreateAll(db, p, f, [c]) == AddRow(db, p, f, c)
    ensures UpdateManyAll(db, p, f, [u]) == UpdateManyRows(db, p, f, u)
    ensures DeleteManyAll(db, p, f, [w]) == DeleteManyRows(db, p, f, w)
  {
    assert [c][1..] == [] && [u][1..] == [] && [w][1..] == [];
    assert CreateAll(AddRow(db, p, f, c), p, f, []) == AddRow(db, p, f, c);
    assert UpdateManyAll(UpdateManyRows(db, p, f, u), p, f, []) == UpdateManyRows(db, p, f, u);
    assert DeleteManyAll(DeleteManyRows(db, p, f, w), p, f, []) == DeleteManyRows(db, p, f, w);
  }

  /** An update or an updateMany of the row. */
  predicate Writes(x: Operation, id: Id, r: Columns, columns: Columns) {
    || x == Updating([Update(id, Data(columns, NoRels))])
    || (x.UpdatingMany? && |x.bulk| == 1 && Meets(r, x.bulk[0].where) && x.bulk[0].columns == columns)
  }

  lemma RowWritten(p: Id, f: string, id: Id, r: Columns, x: Operation, columns: Columns)
    requires Writes(x, id, r, columns)
    ensures ApplyOperation(OneRow(p, f, id, r), p, f, x) == Some(OneRow(p, f, id, r + columns))
  {
    var db, after := OneRow(p, f, id, r), OneRow(p, f, id, r + columns);
    if x.Updating? {
      var u := Update(id, Data(columns, NoRels));
      assert db.IsChild(p, f, id) && WriteRow(db, id, columns) == after;
      assert Apply(db, id, u.data) == Some(after);
      assert ApplyUpdate(db, p, f, u) == Some(after) && [u][1..] == [];
      assert ApplyUpdates(after, p, f, []) == Some(after);
    } else {
      assert db.IsChild(p, f, id) && UpdateManyRows(db, p, f, x.bulk[0]) == after;
      SingleEntries(db, p, f, map[], x.bulk[0], map[]);
      assert x.bulk == [x.bulk[0]];
    }
  }

  lemma RowStamped(now: int, p: Id, f: string, id: Id, r: Columns, w: Columns)
    ensures ApplyOperation(OneRow(p, f, id, r), p, f, StampWhere(now, w))
         == Some(OneRow(p, f, id, if Meets(r, w) then r + Stamp(now) else r))
  {
    var db, u := OneRow(p, f, id, r), UpdateMany(w, Stamp(now));
    assert db.IsChild(p, f, id);
    assert UpdateManyRows(db, p, f, u) == OneRow(p, f, id, if Meets(r, w) then r + Stamp(now) else r);
    SingleEntries(db, p, f, map[], u, w);
  }

  lemma RowDeleted(p: Id, f: string, id: Id, r: Columns, w: Columns)
    ensures ApplyOperation(OneRow(p, f, id, r), p, f, DeletingMany([w]))
         == Some(if Meets(r, w) then NoRow(id + 1) else OneRow(p, f, id, r))
  {
    var db := OneRow(p, f, id, r);
    assert db.IsChild(p, f, id);
    assert DeleteManyRows(db, p, f, w) == if Meets(r, w) then NoRow(id + 1) else db;
    SingleEntries(db, p, f, map[], UpdateMany(w, w), w);
  }

  /** Nothing is there for any of them but a create. */
  lemma NothingThere(now: int, p: Id, f: string, next: Id, w: Columns)
    ensures ApplyOperation(NoRow(next), p, f, StampWhere(now, w)) == Some(NoRow(next))
    ensures ApplyOperation(NoRow(next), p, f, DeletingMany([w])) == Some(NoRow(next))
  {
    var u := UpdateMany(w, Stamp(now));
    SingleEntries(NoRow(next), p, f, map[], u, w);
    assert UpdateManyRows(NoRow(next), p, f, u) == DeleteManyRows(NoRow(next), p, f, w) == NoRow(next);
  }

  lemma NoneToUpdate(p: Id, f: string, next: Id, u: UpdateMany)
    ensures ApplyOperation(NoRow(next), p, f, UpdatingMany([u])) == Some(NoRow(next))
  {
    SingleEntries(NoRow(next), p, f, map[], u, map[]);
    assert UpdateManyRows(NoRow(next), p, f, u) == NoRow(next);
  }

  lemma RowCreated(p: Id, f: string, next: Id, c: Columns)
    ensures ApplyOperation(NoRow(next), p, f, Creating([c])) == Some(OneRow(p, f, next, c))
  {
    SingleEntries(NoRow(next), p, f, c, UpdateMany(c, c), c);
    assert AddRow(NoRow(next), p, f, c) == OneRow(p, f, next, c);
  }

  /** A time that is not the row's deletedAt. */
  function Unlike(r: Columns): int {
    match ValueOf(r, DELETED_AT)
    case At(t) => t + 1
    case _ => 0
  }

  lemma UnlikeStamp(r: Columns)
    ensures r + Stamp(Unlike(r)) != r
  {
    assert (r + Stamp(Unlike(r)))[DELETED_AT] == At(Unlike(r));
  }

  // ----- Two operations that part the tables -----

  /** Some table parts the two orders: `x` and the deleteMany in one, `x` and its stamps in the
      other. */
  ghost predicate Parts(now: int, p: Id, f: string, db: Db, x: Operation, w: Columns, owing: bool) {
    var hard := if owing then Both(db, p, f, DeletingMany([w]), x) else Both(db, p, f, x, DeletingMany([w]));
    var soft := if owing then Both(db, p, f, x, StampWhere(now, w)) else Both(db, p, f, StampWhere(now, w), x);
    db.Valid() && hard.Some? && !(soft.Some? && Sim(hard.value, soft.value))
  }

  lemma CreateParts(p: Id, f: string, c: Columns, w: Columns, owing: bool) returns (now: int, db: Db)
    requires Meets(c, w) && (owing || Live(c))
    ensures Parts(now, p, f, db, Creating([c]), w, owing)
  {
    now, db := Unlike(c), NoRow(0);
    NothingThere(now, p, f, 0, w);
    RowCreated(p, f, 0, c);
    RowDeleted(p, f, 0, c, w);
    RowStamped(now, p, f, 0, c, w);
    UnlikeStamp(c);
    assert OneRow(p, f, 0, c).rows[0].columns == c;
    if !owing {
      assert Both(db, p, f, StampWhere(now, w), Creating([c])) == Some(OneRow(p, f, 0, c));
      assert Both(db, p, f, Creating([c]), DeletingMany([w])) == Some(NoRow(1));
    } else {
      assert Both(db, p, f, Creating([c]), StampWhere(now, w)) == Some(OneRow(p, f, 0, c + Stamp(now)));
      assert Both(db, p, f, DeletingMany([w]), Creating([c])) == Some(OneRow(p, f, 0, c));
    }
  }

  lemma BringingInParts(p: Id, f: string, id: Id, where: Columns, columns: Columns, x: Operation, w: Columns)
      returns (now: int, db: Db)
    requires BringsIn(where, columns, w)
    requires forall r | Meets(r, where) :: Writes(x, id, r, columns)
    ensures Parts(now, p, f, db, x, w, true)
  {
    BringsInExactly(where, columns, w);
    var r: Columns :| Meets(r, where) && !Meets(r, w) && Meets(r + columns, w);
    now, db := Unlike(r + columns), OneRow(p, f, id, r);
    RowDeleted(p, f, id, r, w);
    RowWritten(p, f, id, r, x, columns);
    RowStamped(now, p, f, id, r + columns, w);
    UnlikeStamp(r + columns);
    assert OneRow(p, f, id, r + columns).rows[id].columns == r + columns;
    assert Both(db, p, f, DeletingMany([w]), x) == Some(OneRow(p, f, id, r + columns));
    assert Both(db, p, f, x, StampWhere(now, w)) == Some(OneRow(p, f, id, r + columns + Stamp(now)));
  }

  lemma TakingOutParts(p: Id, f: string, u: UpdateMany, w: Columns) returns (now: int, db: Db)
    requires TakesOut(u.where, u.columns, w)
    ensures Parts(now, p, f, db, UpdatingMany([u]), w, true)
  {
    TakesOutExactly(u.where, u.columns, w);
    var r: Columns :| Meets(r, u.where) && Meets(r, w) && !Meets(r + u.columns, w) && Live(r + u.columns);
    now, db := 0, OneRow(p, f, 0, r);
    RowDeleted(p, f, 0, r, w);
    NoneToUpdate(p, f, 1, u);
    RowWritten(p, f, 0, r, UpdatingMany([u]), u.columns);
    RowStamped(now, p, f, 0, r + u.columns, w);
    assert OneRow(p, f, 0, r + u.columns).rows[0].columns == r + u.columns;
    assert Both(db, p, f, DeletingMany([w]), UpdatingMany([u])) == Some(NoRow(1));
    assert Both(db, p, f, UpdatingMany([u]), StampWhere(now, w)) == Some(OneRow(p, f, 0, r + u.columns));
  }

  /** A row that shows a stamp made too early. */
  lemma UnsafeRow(columns: Columns, w: Columns) returns (r: Columns)
    requires !SafeAfterStamp(columns, w)
    ensures if Meets(r + columns, w) then Live((if Meets(r, w) then r + Stamp(Unlike(r)) else r) + columns)
            else Meets(r, w) && DELETED_AT !in columns
  {
    if exists k <- w :: k in columns && columns[k] != w[k] {
      var k :| k in w && k in columns && columns[k] != w[k];
      r := w;
      assert ValueOf(r + columns, k) != w[k];
    } else if DELETED_AT in columns && columns[DELETED_AT] == Null {
      r := w;
      assert Meets(r + columns, w);
    } else {
      var k :| k in w && k in columns;
      r := w[k := Otherwise(w[k])];
      assert ValueOf(r, k) != w[k] && Meets(r + columns, w);
    }
  }

  lemma StampingEarlyParts(p: Id, f: string, id: Id, columns: Columns, w: Columns) returns (now: int, db: Db)
    requires !SafeAfterStamp(columns, w)
    ensures Parts(now, p, f, db, Updating([Update(id, Data(columns, NoRels))]), w, false)
  {
    var x := Updating([Update(id, Data(columns, NoRels))]);
    var r := UnsafeRow(columns, w);
    now, db := Unlike(r), OneRow(p, f, id, r);
    var stamped := if Meets(r, w) then r + Stamp(now) else r;
    RowWritten(p, f, id, r, x, columns);
    RowDeleted(p, f, id, r + columns, w);
    RowStamped(now, p, f, id, r, w);
    RowWritten(p, f, id, stamped, x, columns);
    assert OneRow(p, f, id, stamped + columns).rows[id].columns == stamped + columns;
    assert OneRow(p, f, id, r + columns).rows[id].columns == r + columns;
    if !Meets(r + columns, w) {
      assert ValueOf(r + Stamp(now) + columns, DELETED_AT) == At(now);
      assert ValueOf(r + columns, DELETED_AT) == ValueOf(r, DELETED_AT) != At(now);
    }
    assert Both(db, p, f, x, DeletingMany([w]))
        == Some(if Meets(r + columns, w) then NoRow(id + 1) else OneRow(p, f, id, r + columns));
    assert Both(db, p, f, StampWhere(now, w), x) == Some(OneRow(p, f, id, stamped + columns));
  }

  // ----- An object out of order has a part that goes wrong -----

  lemma {:induction false} NothingNamed(m: Nested)
    requires forall o <- m :: o.Deleting? ==> o.ids == []
    ensures IdsDeleted(m) == []
  {
    if m == [] {
    } else {
      NothingNamed(m[1..]);
    }
  }

  lemma {:induction false} DeleteFound(n: Nested, w: Columns) returns (j: nat)
    requires w in WheresDeleted(n)
    ensures j < |n| && n[j].DeletingMany? && w in n[j].wheres
  {
    if n[0].DeletingMany? && w in n[0].wheres {
      j := 0;
    } else {
      j := DeleteFound(n[1..], w);
      j := j + 1;
    }
  }

  lemma PairBreaks(now: int, p: Id, f: string, n: Nested, k: nat, x: Operation, w: Columns, db: Db) returns (m: Nested)
    requires KeysOnce(n) && k < |n| && PartOfOperation(x, n[k]) && !Removal(x) && FlatOperation(x)
    requires w in WheresDeleted(n) && (Owing(n, k) || Early(n, k)) && Parts(now, p, f, db, x, w, Owing(n, k))
    ensures PartOf(m, n) && !KeepsMeaning(p, f, m)
  {
    var j := DeleteFound(n, w);
    m := Pair(n, k, x, j, DeletingMany([w]));
    PairIs(n, k, x, j, DeletingMany([w]));
    NothingNamed(m);
    DeletedOnce(m, j);
    HasBeforeExactly(m, |m|, DeleteManyKey);
    assert m[j].Key() == DeleteManyKey;
    if Owing(n, k) { TwoRun(db, p, f, m, j, k); } else { TwoRun(db, p, f, m, k, j); }
    PairRewritten(now, db, p, f, m, k, w);
    assert !KeepsOn(now, p, f, m, db, db);
  }

  /** What the other lemmas need of such a part. */
  lemma PairIs(n: Nested, k: nat, x: Operation, j: nat, removal: Operation)
    requires KeysOnce(n) && k < |n| && j < |n| && k != j
    requires PartOfOperation(x, n[k]) && PartOfOperation(removal, n[j])
    ensures var m := Pair(n, k, x, j, removal);
            && PartOf(m, n) && KeysOnce(m) && m[k] == x && m[j] == removal
            && (forall i | 0 <= i < |m| && i != k && i != j :: Idle(m[i]))
            && (forall key :: HasBefore(m, k, key) <==> HasBefore(n, k, key))
            && (HasBefore(n, k, n[j].Key()) <==> j < k)
  {
    var m := Pair(n, k, x, j, removal);
    PairIsPart(n, k, x, j, removal);
    PairKeys(n, m);
    PartHas(m, n, k);
    BeforeOrAfter(n, k, j);
    forall i | 0 <= i < |m| && i != k && i != j ensures Idle(m[i]) { assert m[i] == Emptied(n[i]); }
  }

  lemma PairKeys(n: Nested, m: Nested)
    requires PartOf(m, n) && KeysOnce(n)
    ensures KeysOnce(m)
  {
    forall i, j | 0 <= i < j < |m| ensures m[i].Key() != m[j].Key() {
      assert PartOfOperation(m[i], n[i]) && PartOfOperation(m[j], n[j]);
    }
  }

  lemma BeforeOrAfter(n: Nested, k: nat, j: nat)
    requires KeysOnce(n) && k < |n| && j < |n| && j != k
    ensures HasBefore(n, k, n[j].Key()) <==> j < k
  {
    HasBeforeExactly(n, k, n[j].Key());
  }

  lemma IdleRewritten(now: int, o: Operation, ids: seq<Id>)
    requires Idle(o)
    ensures RewriteOperation(now, o, ids, [])
         == if o.Updating? then [Updating(Stamps(now, ids))] else if Removal(o) then [] else [o]
  {
    assert RewriteUpdates(now, []) + Stamps(now, ids) == Stamps(now, ids);
    assert [] + StampManys(now, []) == [];
  }

  lemma NoRowToStamp(now: int, p: Id, f: string, id: Id)
    ensures ApplyOperation(NoRow(id), p, f, Updating(Stamps(now, [id]))).None?
  {
    assert Stamps(now, [id])[0].id == id && ApplyUpdate(NoRow(id), p, f, Stamps(now, [id])[0]).None?;
  }

  /** Stamps of a row that is not there fail. */
  lemma {:induction false} StampFails(now: int, p: Id, f: string, id: Id, s: Nested)
    requires Has(s, UpdateKey) && forall o <- s :: Idle(o)
    ensures ApplyNested(NoRow(id), p, f, RewriteOperations(now, s, [id], [])).None?
  {
    var first := RewriteOperation(now, s[0], [id], []);
    IdleRewritten(now, s[0], [id]);
    OperationsInTurn(NoRow(id), p, f, first, RewriteOperations(now, s[1..], [id], []));
    if s[0].Updating? {
      NoRowToStamp(now, p, f, id);
      OneOperation(NoRow(id), p, f, Updating(Stamps(now, [id])));
    } else {
      assert s == [s[0]] + s[1..];
      HasTogether([s[0]], s[1..], UpdateKey);
      HasOne(s[0], UpdateKey);
      OneOperation(NoRow(id), p, f, s[0]);
      IdleDoesNothing(NoRow(id), p, f, s[0]);
      StampFails(now, p, f, id, s[1..]);
    }
  }

  /** A delete may name the row a create before it makes. */
  lemma CreatedThenDeleted(p: Id, f: string, n: Nested, k: nat, c: Columns) returns (m: Nested)
    requires KeysOnce(n) && k < |n| && n[k].Creating? && c in n[k].creates && LagAt(n, k).ahead != []
    ensures PartOf(m, n) && !KeepsMeaning(p, f, m)
  {
    NoneDeleted(n);
    HasBeforeExactly(n, |n|, DeleteKey);
    var j :| 0 <= j < |n| && n[j].Key() == DeleteKey;
    DeletedOnce(n, j);
    var id := n[j].ids[0];
    m := Pair(n, k, Creating([c]), j, Deleting([id]));
    PairIs(n, k, Creating([c]), j, Deleting([id]));
    CreatedAndDeleted(p, f, m, k, j, c, id);
  }

  lemma CreatedAndDeleted(p: Id, f: string, m: Nested, k: nat, j: nat, c: Columns, id: Id)
    requires KeysOnce(m) && k < j < |m| && m[k] == Creating([c]) && m[j] == Deleting([id])
    requires forall i | 0 <= i < |m| && i != k && i != j :: Idle(m[i])
    requires HasBefore(m, k, UpdateKey)
    ensures !KeepsMeaning(p, f, m)
  {
    CreatesThenDeletes(p, f, m, k, j, c, id);
    OnlyDelete(m, k, j, c, id);
    StampedBeforeCreated(p, f, m, k, id);
    assert !KeepsOn(0, p, f, m, NoRow(id), NoRow(id));
  }

  lemma OnlyDelete(m: Nested, k: nat, j: nat, c: Columns, id: Id)
    requires KeysOnce(m) && k < j < |m| && m[k] == Creating([c]) && m[j] == Deleting([id])
    requires forall i | 0 <= i < |m| && i != k && i != j :: Idle(m[i])
    ensures IdsDeleted(m) == [id] && WheresDeleted(m) == [] && forall o <- m[..k] :: Idle(o)
  {
    DeletedOnce(m, j);
    OthersIdle(m, k, j);
  }

  lemma OthersIdle(m: Nested, k: nat, j: nat)
    requires k < j < |m| && m[k].Creating? && m[j].Deleting?
    requires forall i | 0 <= i < |m| && i != k && i != j :: Idle(m[i])
    ensures WheresDeleted(m) == [] && forall o <- m[..k] :: Idle(o)
  {
    forall i | 0 <= i < |m| ensures m[i].DeletingMany? ==> m[i].wheres == [] {
      assert i != k && i != j ==> Idle(m[i]);
    }
    NoBulk(m);
  }

  lemma CreatesThenDeletes(p: Id, f: string, m: Nested, k: nat, j: nat, c: Columns, id: Id)
    requires k < j < |m| && m[k] == Creating([c]) && m[j] == Deleting([id])
    requires forall i | 0 <= i < |m| && i != k && i != j :: Idle(m[i])
    ensures ApplyNested(NoRow(id), p, f, m).Some?
  {
    TwoRun(NoRow(id), p, f, m, k, j);
    RowCreated(p, f, id, c);
    RowGone(p, f, id, c);
  }

  lemma StampedBeforeCreated(p: Id, f: string, m: Nested, k: nat, id: Id)
    requires k < |m| && IdsDeleted(m) == [id] && WheresDeleted(m) == []
    requires HasBefore(m, k, UpdateKey) && forall o <- m[..k] :: Idle(o)
    ensures ApplyNested(NoRow(id), p, f, RewriteNested(0, m)).None?
  {
    var first, rest := RewriteOperations(0, m[..k], [id], []), RewriteOperations(0, m[k..], [id], []) + AddedKeys(0, m);
    HasPrefix(m, k, UpdateKey);
    StampFails(0, p, f, id, m[..k]);
    assert m == m[..k] + m[k..];
    RewriteInParts(0, m[..k], m[k..], [id], []);
    assert RewriteNested(0, m) == first + rest;
    OperationsInTurn(NoRow(id), p, f, first, rest);
  }

  lemma {:induction false} NoBulk(m: Nested)
    requires forall o <- m :: o.DeletingMany? ==> o.wheres == []
    ensures WheresDeleted(m) == []
  {
    if m == [] {
    } else {
      NoBulk(m[1..]);
    }
  }

  lemma RowGone(p: Id, f: string, id: Id, c: Columns)
    ensures ApplyOperation(OneRow(p, f, id, c), p, f, Deleting([id])).Some?
  {
    var db := OneRow(p, f, id, c);
    assert db.IsChild(p, f, id) && [id][1..] == [];
    assert DeleteAll(db.(rows := db.rows - {id}), p, f, []).Some?;
  }

  /** Which deleteManys an operation meets, by where their key stands. */
  lemma LagMeans(n: Nested, k: nat)
    requires k < |n|
    ensures forall w :: w in LagAt(n, k).owedWheres <==> Owing(n, k) && w in WheresDeleted(n)
    ensures forall w :: w in LagAt(n, k).aheadWheres <==> Early(n, k) && w in WheresDeleted(n)
  {
    NoneDeleted(n);
  }

  lemma CreateOutOfOrder(p: Id, f: string, n: Nested, k: nat, c: Columns) returns (m: Nested)
    requires KeysOnce(n) && k < |n| && n[k].Creating? && c in n[k].creates && !ClearCreate(c, LagAt(n, k))
    ensures PartOf(m, n) && !KeepsMeaning(p, f, m)
  {
    var lag := LagAt(n, k);
    LagMeans(n, k);
    if lag.ahead != [] {
      m := CreatedThenDeleted(p, f, n, k, c);
    } else {
      var w;
      if v :| v in lag.owedWheres && Meets(c, v) {
        w := v;
      } else {
        w :| w in lag.aheadWheres && Meets(c, w) && Live(c);
      }
      var now, db := CreateParts(p, f, c, w, Owing(n, k));
      m := PairBreaks(now, p, f, n, k, Creating([c]), w, db);
    }
  }

  lemma UpdateOutOfOrder(p: Id, f: string, n: Nested, k: nat, u: Update) returns (m: Nested)
    requires KeysOnce(n) && k < |n| && n[k].Updating? && u in n[k].updates && !ClearUpdate(f, u, LagAt(n, k))
    requires u.data.rels == NoRels
    ensures PartOf(m, n) && !KeepsMeaning(p, f, m)
  {
    var lag, columns := LagAt(n, k), u.data.columns;
    var x := Updating([Update(u.id, Data(columns, NoRels))]);
    assert u == Update(u.id, Data(columns, NoRels));
    LagMeans(n, k);
    var now, db;
    if w :| w in lag.owedWheres && BringsIn(map[], columns, w) {
      now, db := BringingInParts(p, f, u.id, map[], columns, x, w);
      m := PairBreaks(now, p, f, n, k, x, w, db);
    } else {
      var w :| w in lag.aheadWheres && !SafeAfterStamp(columns, w);
      now, db := StampingEarlyParts(p, f, u.id, columns, w);
      m := PairBreaks(now, p, f, n, k, x, w, db);
    }
  }

  lemma UpdateManyOutOfOrder(p: Id, f: string, n: Nested, k: nat, u: UpdateMany) returns (m: Nested)
    requires KeysOnce(n) && k < |n| && n[k].UpdatingMany? && u in n[k].bulk && !ClearUpdateMany(u, LagAt(n, k))
    requires Harmless(u)
    ensures PartOf(m, n) && !KeepsMeaning(p, f, m)
  {
    var lag, x := LagAt(n, k), UpdatingMany([u]);
    LagMeans(n, k);
    var w :| w in lag.owedWheres && (BringsIn(u.where, u.columns, w) || TakesOut(u.where, u.columns, w));
    var now, db;
    if BringsIn(u.where, u.columns, w) {
      now, db := BringingInParts(p, f, 0, u.where, u.columns, x, w);
    } else {
      now, db := TakingOutParts(p, f, u, w);
    }
    m := PairBreaks(now, p, f, n, k, x, w, db);
  }

  /** The condition is exact. An object is in order if and only if it keeps its meaning with any
      of its entries left out, on all tables: out of order, two of its entries alone part them. */
  lemma InOrderExactly(p: Id, f: string, n: Nested)
    requires Flat(n)
    ensures InOrder(f, n) <==> forall m | PartOf(m, n) :: KeepsMeaning(p, f, m)
  {
    if InOrder(f, n) {
      forall m | PartOf(m, n) ensures KeepsMeaning(p, f, m) {
        PartFaithful(f, m, n);
        forall now, hard, soft ensures KeepsOn(now, p, f, m, hard, soft) {
          if Sim(hard, soft) && ApplyNested(hard, p, f, m).Some? { SimWalked(now, hard, soft, p, f, m); }
        }
      }
    } else {
      var k :| 0 <= k < |n| && !Clear(f, n[k], LagAt(n, k));
      var m := OutOfOrder(p, f, n, k);
    }
  }

  lemma OutOfOrder(p: Id, f: string, n: Nested, k: nat) returns (m: Nested)
    requires Flat(n) && k < |n| && !Clear(f, n[k], LagAt(n, k))
    ensures PartOf(m, n) && !KeepsMeaning(p, f, m)
  {
    assert FlatOperation(n[k]);
    match n[k] {
      case Creating(creates) =>
        var c :| c in creates && !ClearCreate(c, LagAt(n, k));
        m := CreateOutOfOrder(p, f, n, k, c);
      case Updating(updates) =>
        var u :| u in updates && !ClearUpdate(f, u, LagAt(n, k));
        m := UpdateOutOfOrder(p, f, n, k, u);
      case UpdatingMany(bulk) =>
        var u :| u in bulk && !ClearUpdateMany(u, LagAt(n, k));
        m := UpdateManyOutOfOrder(p, f, n, k, u);
    }
  }

  // ----- The object that goes wrong, and one that does not -----

  /** { deleteMany: {}, create: [v] } */
  function ReplaceAll(v: Columns): Nested { [DeletingMany([map[]]), Creating([v])] }

  /** On any tables: as written the new row is live afterwards, and as it is sent the new row is
      stamped with the old ones. */
  lemma ReplaceAllLosesTheNew(now: int, db: Db, p: Id, f: string, v: Columns)
    requires db.Valid() && Live(v)
    ensures RewriteNested(now, ReplaceAll(v)) == [Creating([v]), StampWhere(now, map[])] && !InOrder(f, ReplaceAll(v))
    ensures var after := ApplyNested(db, p, f, ReplaceAll(v));
            after.Some? && db.next in after.value.rows && after.value.rows[db.next] == Row(p, f, v)
    ensures var after := ApplyNested(db, p, f, RewriteNested(now, ReplaceAll(v)));
            after.Some? && db.next in after.value.rows && !Live(after.value.rows[db.next].columns)
  {
    ReplaceAllSent(now, v);
    ReplaceAllOutOfOrder(f, v);
    DeletedThenCreated(db, p, f, v);
    CreatedThenStamped(now, db, p, f, v);
  }

  lemma DeletedThenCreated(db: Db, p: Id, f: string, v: Columns)
    ensures var after := ApplyNested(db, p, f, ReplaceAll(v));
            after.Some? && db.next in after.value.rows && after.value.rows[db.next] == Row(p, f, v)
  {
    SingleEntries(DeleteManyRows(db, p, f, map[]), p, f, v, UpdateMany(map[], map[]), map[]);
    SingleEntries(db, p, f, map[], UpdateMany(map[], map[]), map[]);
    TwoRun(db, p, f, ReplaceAll(v), 0, 1);
  }

  lemma CreatedThenStamped(now: int, db: Db, p: Id, f: string, v: Columns)
    requires db.Valid()
    ensures var after := ApplyNested(db, p, f, [Creating([v]), StampWhere(now, map[])]);
            after.Some? && db.next in after.value.rows && !Live(after.value.rows[db.next].columns)
  {
    var u := UpdateMany(map[], Stamp(now));
    SingleEntries(db, p, f, v, u, map[]);
    SingleEntries(AddRow(db, p, f, v), p, f, v, u, map[]);
    TwoRun(db, p, f, [Creating([v]), StampWhere(now, map[])], 0, 1);
    assert AddRow(db, p, f, v).IsChild(p, f, db.next);
    StampOnly(now, Row(p, f, v));
  }

  lemma ReplaceAllOutOfOrder(f: string, v: Columns)
    ensures !InOrder(f, ReplaceAll(v))
  {
    var n := ReplaceAll(v);
    DeletedOnce(n, 0);
    assert n[0].Key() == DeleteManyKey && !HasBefore(n, 0, UpdateManyKey);
    assert HasBefore(n, 1, DeleteManyKey) && !HasBefore(n, 1, UpdateManyKey);
    assert map[] in LagAt(n, 1).owedWheres && Meets(v, map[]);
    assert !ClearCreate(v, LagAt(n, 1)) && v in n[1].creates;
  }

  lemma ReplaceAllKeys(v: Columns)
    ensures var n := ReplaceAll(v); Has(n, DeleteManyKey) && !Has(n, UpdateManyKey) && !Has(n, DeleteKey)
  {
    HasExactly(ReplaceAll(v), DeleteManyKey);
    HasExactly(ReplaceAll(v), UpdateManyKey);
    HasExactly(ReplaceAll(v), DeleteKey);
    assert ReplaceAll(v)[0] in ReplaceAll(v) && ReplaceAll(v)[0].Key() == DeleteManyKey;
  }

  lemma ReplaceAllSent(now: int, v: Columns)
    ensures RewriteNested(now, [DeletingMany([map[]]), Creating([v])]) == [Creating([v]), StampWhere(now, map[])]
  {
    var removal, create := DeletingMany([map[]]), Creating([v]);
    var n := [removal, create];
    DeletedOnce(n, 0);
    NoneDeleted(n);
    assert n[1..] == [create] && [create][1..] == [];
    assert RewriteOperations(now, [create], [], [map[]]) == [create];
    assert RewriteOperations(now, n, [], [map[]]) == [create];
    ReplaceAllKeys(v);
    OneStamp(now, map[]);
  }

  /** Deletes of named rows may be written ahead of any creates. */
  lemma NamedDeletesInOrder(f: string, ids: seq<Id>, creates: seq<Columns>)
    ensures InOrder(f, [Deleting(ids), Creating(creates)])
  {
    var n := [Deleting(ids), Creating(creates)];
    NoneDeleted(n);
    forall key, k | 0 <= k <= 1 && HasBefore(n, k, key) ensures key == DeleteKey { HasBeforeExactly(n, k, key); }
  }
}
