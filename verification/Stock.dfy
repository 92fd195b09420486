/** Stock levels, the movement log and the database transitions that change them
    (src/pos/sales/sales.service.ts, src/portal/stock/stock.service.ts). */
module Stock {
  import opened Common
  import opened Totals
  import opened SaleRecords

  /** The partial unique indexes make (branch, product, variant) the key of a level. */
  datatype Key = Key(branch: Id, product: Id, variant: Option<Id>)

  datatype Kind = SaleMove | VoidMove | RefundMove | ReceiveMove | AdjustMove

  datatype Movement = Movement(key: Key, kind: Kind, ref: Id, deltaMilli: int)

  type Levels = map<Key, int>

  datatype Db = Db(levels: Levels, log: seq<Movement>, sales: map<Id, SaleRow>)

  /** A missing row reads as zero. */
  function Level(levels: Levels, k: Key): int { if k in levels then levels[k] else 0 }

  function DeltaOn(k: Key): Movement -> int { (m: Movement) => if m.key == k then m.deltaMilli else 0 }

  function SumKey(log: seq<Movement>, k: Key): int { SumBy(log, DeltaOn(k)) }

  predicate Tracked(line: CartLine) { line.product.Some? && line.trackStock }

  function KeyOf(line: CartLine, branch: Id): Key
    requires Tracked(line)
  {
    Key(branch, line.product.value, line.variant)
  }

  predicate ValidLines(lines: seq<CartLine>) { forall l <- lines :: l.qtyMilli > 0 }

  function WantOn(branch: Id, k: Key): CartLine -> int {
    (l: CartLine) => if Tracked(l) && KeyOf(l, branch) == k then l.qtyMilli else 0
  }

  /** Everything the lines take from one level. */
  function Wanted(lines: seq<CartLine>, branch: Id, k: Key): int { SumBy(lines, WantOn(branch, k)) }

  /** One negative movement per tracked line. */
  function SaleMoves(lines: seq<CartLine>, branch: Id, id: Id): seq<Movement> {
    if lines == [] then []
    else (if Tracked(lines[0]) then [Movement(KeyOf(lines[0], branch), SaleMove, id, -lines[0].qtyMilli)] else [])
         + SaleMoves(lines[1..], branch, id)
  }

  function MovesOf(row: SaleRow): seq<Movement> { SaleMoves(row.draft.cart.lines, row.branch, row.id) }

  /** The movements that put a list of movements back. */
  function Reversal(moves: seq<Movement>, kind: Kind): (r: seq<Movement>)
    ensures |r| == |moves|
    ensures forall i | 0 <= i < |moves| :: r[i] == Movement(moves[i].key, kind, moves[i].ref, -moves[i].deltaMilli)
  {
    seq(|moves|, i requires 0 <= i < |moves| => Movement(moves[i].key, kind, moves[i].ref, -moves[i].deltaMilli))
  }

  function KindOf(status: Status): Kind
    requires !status.Completed?
  {
    if status.Voided? then VoidMove else RefundMove
  }

  predicate OfSale(m: Movement, id: Id) { m.ref == id && (m.kind.SaleMove? || m.kind.VoidMove? || m.kind.RefundMove?) }

  function SaleLog(log: seq<Movement>, id: Id): seq<Movement> { Filter(log, (m: Movement) => OfSale(m, id)) }

  /** What restoreStock reads: type = sale, ref_id = the sale. */
  function SoldMoves(log: seq<Movement>, id: Id): seq<Movement> {
    Filter(log, (m: Movement) => m.ref == id && m.kind.SaleMove?)
  }

  // ----- Transitions of the committed database -----

  /** Each level is decremented once, by the total its deduplicated key wants. */
  function Decremented(levels: Levels, lines: seq<CartLine>, branch: Id): Levels {
    map k | k in levels :: levels[k] - Wanted(lines, branch, k)
  }

  function PostSale(db: Db, row: SaleRow): Db {
    Db(Decremented(db.levels, row.draft.cart.lines, row.branch), db.log + MovesOf(row), db.sales[row.id := row])
  }

  /** find-or-create each level in turn, adding the movement's delta. */
  function AddMoves(levels: Levels, moves: seq<Movement>): Levels
    decreases moves
  {
    if moves == [] then levels
    else AddMoves(levels[moves[0].key := Level(levels, moves[0].key) + moves[0].deltaMilli], moves[1..])
  }

  function PostMoves(db: Db, moves: seq<Movement>): Db {
    db.(levels := AddMoves(db.levels, moves), log := db.log + moves)
  }

  function Compensate(db: Db, id: Id, status: Status, refundShift: Option<Id>, moves: seq<Movement>): Db
    requires id in db.sales
  {
    PostMoves(db, moves).(sales := db.sales[id := db.sales[id].(status := status, refundShift := refundShift)])
  }

  /** An absolute set, with the difference as its movement. */
  function AdjustLevel(db: Db, k: Key, newQty: int, movementId: Id): Db {
    db.(levels := db.levels[k := newQty],
        log := db.log + [Movement(k, AdjustMove, movementId, newQty - Level(db.levels, k))])
  }

  // ----- Sums -----

  lemma {:induction false} WantedNonNegative(lines: seq<CartLine>, branch: Id, k: Key)
    requires ValidLines(lines)
    ensures Wanted(lines, branch, k) >= 0
  {
    SumByNonNegative(lines, WantOn(branch, k));
  }

  /** Written per line, decremented per deduplicated key: the two agree on every key. */
  lemma {:induction false} MovesMatchDecrement(lines: seq<CartLine>, branch: Id, id: Id, k: Key)
    ensures SumKey(SaleMoves(lines, branch, id), k) == -Wanted(lines, branch, k)
  {
    if lines == [] {
    } else {
      var l := lines[0];
      var head := if Tracked(l) then [Movement(KeyOf(l, branch), SaleMove, id, -l.qtyMilli)] else [];
      MovesMatchDecrement(lines[1..], branch, id, k);
      SumByAppend(head, SaleMoves(lines[1..], branch, id), DeltaOn(k));
      assert head != [] ==> head[1..] == [];
    }
  }

  lemma {:induction false} SaleMovesShape(lines: seq<CartLine>, branch: Id, id: Id)
    requires ValidLines(lines)
    ensures forall m <- SaleMoves(lines, branch, id) ::
              m.ref == id && m.kind.SaleMove? && m.deltaMilli < 0 && Wanted(lines, branch, m.key) > 0
  {
    if lines == [] {
    } else {
      SaleMovesShape(lines[1..], branch, id);
      forall m <- SaleMoves(lines, branch, id) ensures Wanted(lines, branch, m.key) > 0 {
        WantedNonNegative(lines[1..], branch, m.key);
      }
    }
  }

  lemma {:induction false} ReversalSums(moves: seq<Movement>, kind: Kind, k: Key)
    ensures SumKey(Reversal(moves, kind), k) == -SumKey(moves, k)
  {
    var f := DeltaOn(k);
    var g := (m: Movement) => -f(m);
    SumByMapped(moves, Reversal(moves, kind), f, g);
    SumByLinear(moves, f, f, g, -1, 0);
  }

  lemma {:induction false} AddMovesLevels(levels: Levels, moves: seq<Movement>, k: Key)
    ensures Level(AddMoves(levels, moves), k) == Level(levels, k) + SumKey(moves, k)
    ensures k in AddMoves(levels, moves) <==> k in levels || exists m <- moves :: m.key == k
    decreases moves
  {
    if moves == [] {
    } else {
      AddMovesLevels(levels[moves[0].key := Level(levels, moves[0].key) + moves[0].deltaMilli], moves[1..], k);
      assert forall m :: m in moves <==> m == moves[0] || m in moves[1..];
    }
  }

  // ----- The invariant of the committed database -----

  /** What the log must hold for a sale, given its status. */
  function ExpectedLog(row: SaleRow): seq<Movement> {
    MovesOf(row) + if row.status.Completed? then [] else Reversal(MovesOf(row), KindOf(row.status))
  }

  ghost predicate LevelMatches(start: Levels, db: Db, k: Key) {
    Level(db.levels, k) == Level(start, k) + SumKey(db.log, k) && Level(db.levels, k) >= 0
  }

  /** Every level is its starting level plus its movements, and never negative. */
  ghost predicate LevelsMatch(start: Levels, db: Db) { forall k :: LevelMatches(start, db, k) }

  ghost predicate SaleMatches(db: Db, id: Id) {
    SaleLog(db.log, id) == if id in db.sales then ExpectedLog(db.sales[id]) else []
  }

  /** Every sale's movements are exactly the ones its status calls for. */
  ghost predicate SalesMatch(db: Db) { forall id :: SaleMatches(db, id) }

  ghost predicate RowsMatch(db: Db) {
    && (forall id <- db.sales :: db.sales[id].id == id && ValidLines(db.sales[id].draft.cart.lines))
    && (forall m <- db.log :: m.key in db.levels)
  }

  ghost predicate DbInv(start: Levels, db: Db) { LevelsMatch(start, db) && SalesMatch(db) && RowsMatch(db) }

  /** The start of a run: some non-negative levels, nothing logged or sold. */
  ghost predicate Opening(db: Db) {
    db.log == [] && db.sales == map[] && forall k <- db.levels :: db.levels[k] >= 0
  }

  lemma OpeningInv(db: Db)
    requires Opening(db)
    ensures DbInv(db.levels, db)
  {}

  ghost predicate Covered(levels: Levels, lines: seq<CartLine>, branch: Id) {
    forall k :: Wanted(lines, branch, k) <= Level(levels, k)
  }

  lemma SaleLogOwn(log: seq<Movement>, moves: seq<Movement>, id: Id)
    requires forall m <- moves :: OfSale(m, id)
    ensures SaleLog(log + moves, id) == SaleLog(log, id) + moves
  {
    FilterAppend(log, moves, (m: Movement) => OfSale(m, id));
    FilterAll(moves, (m: Movement) => OfSale(m, id));
  }

  lemma SaleLogOther(log: seq<Movement>, moves: seq<Movement>, id: Id)
    requires forall m <- moves :: !OfSale(m, id)
    ensures SaleLog(log + moves, id) == SaleLog(log, id)
  {
    FilterAppend(log, moves, (m: Movement) => OfSale(m, id));
    FilterNone(moves, (m: Movement) => OfSale(m, id));
  }

  // ----- Posting a sale -----

  lemma PostSaleLevel(start: Levels, db: Db, row: SaleRow, k: Key)
    requires LevelMatches(start, db, k) && ValidLines(row.draft.cart.lines)
    requires Wanted(row.draft.cart.lines, row.branch, k) <= Level(db.levels, k)
    ensures LevelMatches(start, PostSale(db, row), k)
  {
    MovesMatchDecrement(row.draft.cart.lines, row.branch, row.id, k);
    SumByAppend(db.log, MovesOf(row), DeltaOn(k));
    WantedNonNegative(row.draft.cart.lines, row.branch, k);
  }

  lemma PostSaleMatches(db: Db, row: SaleRow, id: Id)
    requires SaleMatches(db, id) && row.id !in db.sales && row.status.Completed?
    requires forall m <- MovesOf(row) :: m.ref == row.id && m.kind.SaleMove?
    ensures SaleMatches(PostSale(db, row), id)
  {
    if id == row.id {
      SaleLogOwn(db.log, MovesOf(row), id);
      assert [] + MovesOf(row) == MovesOf(row) == MovesOf(row) + [];
    } else {
      SaleLogOther(db.log, MovesOf(row), id);
    }
  }

  lemma PostSaleInv(start: Levels, db: Db, row: SaleRow)
    requires DbInv(start, db)
    requires row.id !in db.sales && row.status.Completed? && ValidLines(row.draft.cart.lines)
    requires Covered(db.levels, row.draft.cart.lines, row.branch)
    ensures DbInv(start, PostSale(db, row))
  {
    SaleMovesShape(row.draft.cart.lines, row.branch, row.id);
    forall k ensures LevelMatches(start, PostSale(db, row), k) {
      assert LevelMatches(start, db, k);
      PostSaleLevel(start, db, row, k);
    }
    forall id ensures SaleMatches(PostSale(db, row), id) {
      assert SaleMatches(db, id);
      PostSaleMatches(db, row, id);
    }
    PostSaleRows(start, db, row);
  }

  lemma PostSaleRows(start: Levels, db: Db, row: SaleRow)
    requires RowsMatch(db) && ValidLines(row.draft.cart.lines) && Covered(db.levels, row.draft.cart.lines, row.branch)
    requires forall m <- MovesOf(row) :: Wanted(row.draft.cart.lines, row.branch, m.key) > 0
    ensures RowsMatch(PostSale(db, row))
  {}

  // ----- Posting other movements -----

  lemma PostMovesLevels(start: Levels, db: Db, moves: seq<Movement>)
    requires LevelsMatch(start, db) && forall m <- moves :: m.deltaMilli >= 0
    ensures LevelsMatch(start, PostMoves(db, moves))
  {
    forall k ensures LevelMatches(start, PostMoves(db, moves), k) {
      assert LevelMatches(start, db, k);
      AddMovesLevels(db.levels, moves, k);
      SumByAppend(db.log, moves, DeltaOn(k));
      SumByNonNegative(moves, DeltaOn(k));
    }
  }

  lemma PostMovesRows(db: Db, moves: seq<Movement>)
    requires RowsMatch(db)
    ensures RowsMatch(PostMoves(db, moves))
  {
    forall m <- db.log + moves ensures m.key in AddMoves(db.levels, moves) {
      AddMovesLevels(db.levels, moves, m.key);
    }
  }

  lemma ReceiveInv(start: Levels, db: Db, moves: seq<Movement>)
    requires DbInv(start, db) && forall m <- moves :: m.deltaMilli >= 0 && m.kind.ReceiveMove?
    ensures DbInv(start, PostMoves(db, moves))
  {
    PostMovesLevels(start, db, moves);
    PostMovesRows(db, moves);
    forall id ensures SaleMatches(PostMoves(db, moves), id) {
      assert SaleMatches(db, id);
      SaleLogOther(db.log, moves, id);
    }
  }

  /** A completed sale's sale movements are exactly the ones its lines wrote. */
  lemma SoldMovesOf(start: Levels, db: Db, id: Id)
    requires DbInv(start, db) && id in db.sales && db.sales[id].status.Completed?
    ensures SoldMoves(db.log, id) == MovesOf(db.sales[id])
  {
    var p, q := (m: Movement) => OfSale(m, id), (m: Movement) => m.ref == id && m.kind.SaleMove?;
    var row := db.sales[id];
    FilterBoth(db.log, p, q, q);
    assert SaleMatches(db, id);
    assert MovesOf(row) + [] == MovesOf(row);
    SaleMovesShape(row.draft.cart.lines, row.branch, row.id);
    FilterAll(MovesOf(row), q);
  }

  lemma CompensateMatches(db: Db, id: Id, status: Status, refundShift: Option<Id>, other: Id)
    requires SaleMatches(db, other) && id in db.sales && db.sales[id].status.Completed? && !status.Completed?
    requires forall m <- MovesOf(db.sales[id]) :: m.ref == id
    ensures var moves := Reversal(MovesOf(db.sales[id]), KindOf(status));
            SaleMatches(Compensate(db, id, status, refundShift, moves), other)
  {
    var row := db.sales[id];
    var moves := Reversal(MovesOf(row), KindOf(status));
    if other == id {
      SaleLogOwn(db.log, moves, id);
      assert MovesOf(row) + [] == MovesOf(row);
      assert MovesOf(row.(status := status, refundShift := refundShift)) == MovesOf(row);
    } else {
      SaleLogOther(db.log, moves, other);
    }
  }

  lemma CompensateInv(start: Levels, db: Db, id: Id, status: Status, refundShift: Option<Id>)
    requires DbInv(start, db) && id in db.sales && db.sales[id].status.Completed? && !status.Completed?
    ensures var moves := Reversal(MovesOf(db.sales[id]), KindOf(status));
            DbInv(start, Compensate(db, id, status, refundShift, moves))
  {
    var row := db.sales[id];
    var moves := Reversal(MovesOf(row), KindOf(status));
    var after := Compensate(db, id, status, refundShift, moves);
    SaleMovesShape(row.draft.cart.lines, row.branch, row.id);
    PostMovesLevels(start, db, moves);
    PostMovesRows(db, moves);
    forall k ensures LevelMatches(start, after, k) {
      assert LevelMatches(start, PostMoves(db, moves), k);
    }
    forall other ensures SaleMatches(after, other) {
      assert SaleMatches(db, other);
      CompensateMatches(db, id, status, refundShift, other);
    }
  }

  lemma AdjustInv(start: Levels, db: Db, k: Key, newQty: int, movementId: Id)
    requires DbInv(start, db) && newQty >= 0
    ensures DbInv(start, AdjustLevel(db, k, newQty, movementId))
  {
    var after := AdjustLevel(db, k, newQty, movementId);
    var m := Movement(k, AdjustMove, movementId, newQty - Level(db.levels, k));
    forall k' ensures LevelMatches(start, after, k') {
      assert LevelMatches(start, db, k');
      SumByAppend(db.log, [m], DeltaOn(k'));
      assert SumBy([m], DeltaOn(k')) == DeltaOn(k')(m) + SumBy([], DeltaOn(k'));
    }
    forall id ensures SaleMatches(after, id) {
      assert SaleMatches(db, id);
      SaleLogOther(db.log, [m], id);
    }
  }

  /** While a sale is completed its movements take exactly what its lines sold; once
      voided or refunded they cancel out, key by key. */
  lemma SaleNetMovement(start: Levels, db: Db, id: Id, k: Key)
    requires DbInv(start, db) && id in db.sales
    ensures var row := db.sales[id];
            SumKey(SaleLog(db.log, id), k)
            == if row.status.Completed? then -Wanted(row.draft.cart.lines, row.branch, k) else 0
  {
    var row := db.sales[id];
    assert SaleMatches(db, id);
    MovesMatchDecrement(row.draft.cart.lines, row.branch, row.id, k);
    if row.status.Completed? {
      assert MovesOf(row) + [] == MovesOf(row);
    } else {
      var back := Reversal(MovesOf(row), KindOf(row.status));
      SumByAppend(MovesOf(row), back, DeltaOn(k));
      ReversalSums(MovesOf(row), KindOf(row.status), k);
    }
  }
}

/** The conflict pass (detectConflicts). */
module Conflicts {
  import opened Common
  import opened Totals
  import opened Stock

  datatype Conflict = Conflict(lineId: Id, key: Key, availableMilli: int)

  /** Line i asks for more than is left once the lines up to it are counted. */
  predicate Short(lines: seq<CartLine>, branch: Id, avail: Levels, i: nat)
    requires i < |lines|
  {
    Tracked(lines[i]) && Wanted(lines[..i + 1], branch, KeyOf(lines[i], branch)) > Level(avail, KeyOf(lines[i], branch))
  }

  /** The short lines among the first n, in order. */
  function ShortLines(lines: seq<CartLine>, branch: Id, avail: Levels, n: nat): seq<Conflict>
    requires n <= |lines|
  {
    if n == 0 then []
    else ShortLines(lines, branch, avail, n - 1) +
         if Short(lines, branch, avail, n - 1)
         then (var k := KeyOf(lines[n - 1], branch); [Conflict(lines[n - 1].id, k, Level(avail, k))]) else []
  }

  method DetectConflicts(lines: seq<CartLine>, branch: Id, avail: Levels) returns (conflicts: seq<Conflict>)
    ensures conflicts == ShortLines(lines, branch, avail, |lines|)
  {
    var claimed: Levels := map[];
    conflicts := [];
    for i := 0 to |lines|
      invariant forall k :: Level(claimed, k) == Wanted(lines[..i], branch, k)
      invariant conflicts == ShortLines(lines, branch, avail, i)
    {
      var line := lines[i];
      forall k ensures Wanted(lines[..i + 1], branch, k) == Wanted(lines[..i], branch, k) + WantOn(branch, k)(line) {
        SumByStep(lines, i, WantOn(branch, k));
      }
      if Tracked(line) {
        var k := KeyOf(line, branch);
        var available := Level(avail, k);
        var want := Level(claimed, k) + line.qtyMilli;
        claimed := claimed[k := want];
        if want > available {
          conflicts := conflicts + [Conflict(line.id, k, available)];
        }
      }
    }
    assert lines[..|lines|] == lines;
  }

  lemma PrefixWanted(lines: seq<CartLine>, branch: Id, k: Key, i: nat, j: nat)
    requires ValidLines(lines) && i <= j <= |lines|
    ensures Wanted(lines[..i], branch, k) <= Wanted(lines[..j], branch, k)
  {
    assert lines[..j] == lines[..i] + lines[i..j];
    SumByAppend(lines[..i], lines[i..j], WantOn(branch, k));
    WantedNonNegative(lines[i..j], branch, k);
  }

  /** Conflicts of a key form a suffix of that key's lines. */
  lemma ConflictsAreSuffix(lines: seq<CartLine>, branch: Id, avail: Levels, i: nat, j: nat)
    requires ValidLines(lines) && i < j < |lines|
    requires Tracked(lines[i]) && Tracked(lines[j]) && KeyOf(lines[i], branch) == KeyOf(lines[j], branch)
    requires Short(lines, branch, avail, i)
    ensures Short(lines, branch, avail, j)
  {
    PrefixWanted(lines, branch, KeyOf(lines[i], branch), i + 1, j + 1);
  }

  lemma {:induction false} NoneShort(lines: seq<CartLine>, branch: Id, avail: Levels, n: nat)
    requires n <= |lines|
    ensures ShortLines(lines, branch, avail, n) == [] <==> forall i | 0 <= i < n :: !Short(lines, branch, avail, i)
  {
    if n == 0 {
    } else {
      NoneShort(lines, branch, avail, n - 1);
    }
  }

  /** A key nobody is short of is covered in total. */
  lemma {:induction false} KeyCovered(lines: seq<CartLine>, branch: Id, avail: Levels, k: Key, n: nat)
    requires n <= |lines| && Level(avail, k) >= 0
    requires forall i | 0 <= i < n :: !Short(lines, branch, avail, i)
    ensures Wanted(lines[..n], branch, k) <= Level(avail, k)
  {
    if n == 0 {
    } else {
      KeyCovered(lines, branch, avail, k, n - 1);
      SumByStep(lines, n - 1, WantOn(branch, k));
      assert !Short(lines, branch, avail, n - 1);
      assert lines[..n - 1 + 1] == lines[..n];
    }
  }

  /** The cumulative per-line pass finds nothing iff every key's total is covered. */
  lemma PassIsPerKeyCheck(lines: seq<CartLine>, branch: Id, avail: Levels)
    requires ValidLines(lines) && forall k <- avail :: avail[k] >= 0
    ensures ShortLines(lines, branch, avail, |lines|) == [] <==> Covered(avail, lines, branch)
  {
    NoneShort(lines, branch, avail, |lines|);
    assert lines[..|lines|] == lines;
    if forall i | 0 <= i < |lines| :: !Short(lines, branch, avail, i) {
      forall k ensures Wanted(lines, branch, k) <= Level(avail, k) {
        KeyCovered(lines, branch, avail, k, |lines|);
      }
    } else {
      var i :| 0 <= i < |lines| && Short(lines, branch, avail, i);
      PrefixWanted(lines, branch, KeyOf(lines[i], branch), i + 1, |lines|);
    }
  }

  /** "Stock level not found" cannot follow an empty pass: every wanted key has a row. */
  lemma WantedRowExists(lines: seq<CartLine>, branch: Id, avail: Levels, k: Key)
    requires ValidLines(lines) && forall a <- avail :: avail[a] >= 0
    requires ShortLines(lines, branch, avail, |lines|) == []
    requires exists l <- lines :: Tracked(l) && KeyOf(l, branch) == k
    ensures k in avail
  {
    PassIsPerKeyCheck(lines, branch, avail);
    var i :| 0 <= i < |lines| && Tracked(lines[i]) && KeyOf(lines[i], branch) == k;
    SumByStep(lines, i, WantOn(branch, k));
    WantedNonNegative(lines[..i], branch, k);
    PrefixWanted(lines, branch, k, i + 1, |lines|);
    assert lines[..|lines|] == lines;
  }
}
