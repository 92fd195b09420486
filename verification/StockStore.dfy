/** The stock-mutating methods as they are written, loops and in-place updates included
    (src/pos/sales/sales.service.ts, src/portal/stock/stock.service.ts), proved to perform
    the transitions of module Stock. One call at a time; each call is one transaction. */
module StockStore {
  import opened Common
  import opened Totals
  import opened SaleRecords
  import opened Stock
  import opened Conflicts
  import opened Ledger
  import opened LedgerTheorems
  import opened SaleSpec
  import opened SaleOutcome

  datatype StatusOutcome = Done(row: SaleRow) | ReasonRequired | NotFound | NotCompleted(status: Status) | ShiftClosed

  datatype ReceiveLine = ReceiveLine(product: Id, variant: Option<Id>, qtyMilli: int)

  datatype ReceiveOutcome = Received(movements: seq<Movement>) | DuplicateLine | BadLine

  function LevelKey(branch: Id, line: ReceiveLine): Key { Key(branch, line.product, line.variant) }

  function ReceiptOf(branch: Id, op: Id, lines: seq<ReceiveLine>): (r: seq<Movement>)
    ensures |r| == |lines|
  {
    seq(|lines|, i requires 0 <= i < |lines| =>
      Movement(LevelKey(branch, lines[i]), ReceiveMove, op, lines[i].qtyMilli))
  }

  predicate NoDuplicate(lines: seq<ReceiveLine>) {
    forall i, j | 0 <= i < j < |lines| :: (lines[i].product, lines[i].variant) != (lines[j].product, lines[j].variant)
  }

  /** A line's quantity, if it is of this product and variant. */
  function Brings(product: Id, variant: Option<Id>): ReceiveLine -> int {
    (l: ReceiveLine) => if l.product == product && l.variant == variant then l.qtyMilli else 0
  }

  lemma {:induction false} AddMovesAppend(levels: Levels, a: seq<Movement>, b: seq<Movement>)
    ensures AddMoves(levels, a + b) == AddMoves(AddMoves(levels, a), b)
    decreases a
  {
    if a == [] {
      assert a + b == b;
    } else {
      assert (a + b)[0] == a[0] && (a + b)[1..] == a[1..] + b;
      AddMovesAppend(levels[a[0].key := Level(levels, a[0].key) + a[0].deltaMilli], a[1..], b);
    }
  }

  lemma AddOneMove(levels: Levels, moves: seq<Movement>, i: nat)
    requires i < |moves|
    ensures var before := AddMoves(levels, moves[..i]);
            AddMoves(levels, moves[..i + 1])
                 == before[moves[i].key := Level(before, moves[i].key) + moves[i].deltaMilli]
  {
    assert moves[..i + 1] == moves[..i] + [moves[i]];
    AddMovesAppend(levels, moves[..i], [moves[i]]);
    assert [moves[i]][1..] == [];
  }

  /** A receipt adds to each level what its lines of that product and variant bring. */
  lemma ReceivedIs(levels: Levels, branch: Id, op: Id, lines: seq<ReceiveLine>)
    ensures forall b, p, v :: Level(AddMoves(levels, ReceiptOf(branch, op, lines)), Key(b, p, v))
                                == Level(levels, Key(b, p, v)) + if b == branch then SumBy(lines, Brings(p, v)) else 0
  {
    forall b, p, v
      ensures Level(AddMoves(levels, ReceiptOf(branch, op, lines)), Key(b, p, v))
                == Level(levels, Key(b, p, v)) + if b == branch then SumBy(lines, Brings(p, v)) else 0
    {
      AddMovesLevels(levels, ReceiptOf(branch, op, lines), Key(b, p, v));
      LinesBring(branch, op, lines, b, p, v);
    }
  }

  lemma {:induction false} LinesBring(branch: Id, op: Id, lines: seq<ReceiveLine>, b: Id, p: Id, v: Option<Id>)
    ensures SumKey(ReceiptOf(branch, op, lines), Key(b, p, v)) == if b == branch then SumBy(lines, Brings(p, v)) else 0
  {
    if lines == [] {
    } else {
      assert ReceiptOf(branch, op, lines)[1..] == ReceiptOf(branch, op, lines[1..]);
      LinesBring(branch, op, lines[1..], b, p, v);
    }
  }

  lemma SaleMovesStep(lines: seq<CartLine>, branch: Id, id: Id, i: nat)
    requires i < |lines|
    ensures SaleMoves(lines[..i + 1], branch, id) == SaleMoves(lines[..i], branch, id)
              + if Tracked(lines[i]) then [Movement(KeyOf(lines[i], branch), SaleMove, id, -lines[i].qtyMilli)] else []
    decreases i
  {
    var s := lines[..i + 1];
    if i > 0 {
      assert s[1..] == lines[1..][..i] && lines[..i][1..] == lines[1..][..i - 1];
      SaleMovesStep(lines[1..], branch, id, i - 1);
    }
  }

  class Store {
    var levels: Levels
    var log: seq<Movement>
    var sales: map<Id, SaleRow>

    function Snapshot(): Db
      reads this
    {
      Db(levels, log, sales)
    }

    /** wantedMilli: the total per deduplicated key. */
    method WantedMilli(lines: seq<CartLine>, branch: Id) returns (wanted: Levels)
      ensures forall k :: Level(wanted, k) == Wanted(lines, branch, k)
      ensures wanted.Keys == set l | l in lines && Tracked(l) :: KeyOf(l, branch)
    {
      wanted := map[];
      for i := 0 to |lines|
        invariant forall k :: Level(wanted, k) == Wanted(lines[..i], branch, k)
        invariant wanted.Keys == set l | l in lines[..i] && Tracked(l) :: KeyOf(l, branch)
      {
        forall k
          ensures Wanted(lines[..i + 1], branch, k) == Wanted(lines[..i], branch, k) + WantOn(branch, k)(lines[i])
        {
          SumByStep(lines, i, WantOn(branch, k));
        }
        assert lines[..i + 1] == lines[..i] + [lines[i]];
        if Tracked(lines[i]) {
          var k := KeyOf(lines[i], branch);
          wanted := wanted[k := Level(wanted, k) + lines[i].qtyMilli];
        }
      }
      assert lines[..|lines|] == lines;
    }

    /** Decrement each deduplicated level once. */
    method DecrementLevels(lines: seq<CartLine>, branch: Id)
      requires ValidLines(lines) && forall l <- lines | Tracked(l) :: KeyOf(l, branch) in levels
      modifies this`levels
      ensures levels == Decremented(old(levels), lines, branch)
    {
      var wanted := WantedMilli(lines, branch);
      assert wanted.Keys <= levels.Keys;
      DecrementKeys(wanted);
    }

    method DecrementKeys(wanted: Levels)
      requires wanted.Keys <= levels.Keys
      modifies this`levels
      ensures levels == map k | k in old(levels) :: old(levels)[k] - Level(wanted, k)
    {
      var todo := wanted.Keys;
      while todo != {}
        invariant todo <= wanted.Keys && levels.Keys == old(levels).Keys
        invariant forall k <- levels :: levels[k] == old(levels)[k] - if k in todo then 0 else Level(wanted, k)
        decreases |todo|
      {
        var k :| k in todo;
        levels := levels[k := levels[k] - wanted[k]];
        todo := todo - {k};
      }
    }

    /** One sale movement per tracked line. */
    method LogSaleMoves(lines: seq<CartLine>, branch: Id, id: Id)
      modifies this`log
      ensures log == old(log) + SaleMoves(lines, branch, id)
    {
      for i := 0 to |lines|
        invariant log == old(log) + SaleMoves(lines[..i], branch, id)
      {
        SaleMovesStep(lines, branch, id, i);
        if Tracked(lines[i]) {
          log := log + [Movement(KeyOf(lines[i], branch), SaleMove, id, -lines[i].qtyMilli)];
        }
      }
      assert lines[..|lines|] == lines;
    }

    /** completeSale with nothing beside it: the outcome and the database are those of
        LedgerTheorems.CompleteSale, which the interleaved machine contains as a run. */
    method CompleteSaleCall(sub: Submission, openShift: Option<Id>, rates: Option<Rates>, refsOk: bool)
      returns (out: PostOutcome)
      requires ValidLines(LinesOf(sub)) && forall k <- levels :: levels[k] >= 0
      modifies this
      ensures FindOwn(old(Snapshot()), sub).Some? ==> out == Replayed(FindOwn(old(Snapshot()), sub).value)
      ensures FindOwn(old(Snapshot()), sub).None? && CheckDraft(sub.draft, openShift, rates, refsOk).Some? ==>
                out == Rejected(CheckDraft(sub.draft, openShift, rates, refsOk).value)
      ensures out.Rejected? ==> Snapshot() == old(Snapshot())
      ensures !out.Rejected? ==>
                && Snapshot() == CompleteSale(old(Snapshot()), sub).0
                && match CompleteSale(old(Snapshot()), sub).1
                   case Returned(_, row, posted) => out == if posted then Posted(row) else Replayed(row)
                   case _ => out.StockConflict? || out.ReceiptInUse?
      ensures out.StockConflict? ==>
                out.conflicts == ShortLines(LinesOf(sub), sub.branch, Available(old(Snapshot()), sub), |LinesOf(sub)|)
                && out.conflicts != []
      ensures out.ReceiptInUse? ==>
                KeyTaken(old(sales), sub)
                && ShortLines(LinesOf(sub), sub.branch, Available(old(Snapshot()), sub), |LinesOf(sub)|) == []
      // the same, from the draft, the rows and the levels themselves
      ensures if sub.draft.id in old(sales) && old(sales)[sub.draft.id].branch == sub.branch
              then out == Replayed(old(sales)[sub.draft.id]) && Snapshot() == old(Snapshot())
              else if openShift == Some(sub.draft.shiftId) && rates.Some? && refsOk
                      && sub.draft.totals == ComputeTotals(sub.draft.cart, rates.value)
                      && PaysFor(sub.draft.payment, sub.draft.totals.totalC)
              then Answered(old(Snapshot()), Snapshot(), sub, out)
              else out.Rejected? && RejectedFor(sub.draft, openShift, rates, refsOk, out.why)
                   && Snapshot() == old(Snapshot())
    {
      DraftAcceptedExactly(sub.draft, openShift, rates, refsOk);
      var own := FindOwn(Snapshot(), sub);
      if own.Some? {
        return Replayed(own.value);
      }
      var rejection := CheckDraft(sub.draft, openShift, rates, refsOk);
      if rejection.Some? {
        RejectedExactly(sub.draft, openShift, rates, refsOk, rejection.value);
        return Rejected(rejection.value);
      }
      out := Persist(sub);
    }

    /** The transaction body. */
    method Persist(sub: Submission) returns (out: PostOutcome)
      requires ValidLines(LinesOf(sub)) && forall k <- levels :: levels[k] >= 0
      requires FindOwn(Snapshot(), sub).None?
      modifies this
      ensures Snapshot() == CompleteSale(old(Snapshot()), sub).0
      ensures match CompleteSale(old(Snapshot()), sub).1
              case Returned(_, row, posted) => out == if posted then Posted(row) else Replayed(row)
              case _ => out.StockConflict? || out.ReceiptInUse?
      ensures out.StockConflict? ==>
                out.conflicts == ShortLines(LinesOf(sub), sub.branch, Available(old(Snapshot()), sub), |LinesOf(sub)|)
                && out.conflicts != []
      ensures out.ReceiptInUse? ==>
                KeyTaken(old(sales), sub)
                && ShortLines(LinesOf(sub), sub.branch, Available(old(Snapshot()), sub), |LinesOf(sub)|) == []
      ensures Answered(old(Snapshot()), Snapshot(), sub, out)
    {
      out := PersistAsSpecified(sub);
      AnswerIs(old(Snapshot()), Snapshot(), sub, out);
    }

    method PersistAsSpecified(sub: Submission) returns (out: PostOutcome)
      requires ValidLines(LinesOf(sub)) && forall k <- levels :: levels[k] >= 0
      requires FindOwn(Snapshot(), sub).None?
      modifies this
      ensures Snapshot() == CompleteSale(old(Snapshot()), sub).0
      ensures match CompleteSale(old(Snapshot()), sub).1
              case Returned(_, row, posted) => out == if posted then Posted(row) else Replayed(row)
              case _ => out.StockConflict? || out.ReceiptInUse?
      ensures out.StockConflict? ==>
                out.conflicts == ShortLines(LinesOf(sub), sub.branch, Available(old(Snapshot()), sub), |LinesOf(sub)|)
                && out.conflicts != []
      ensures out.ReceiptInUse? ==>
                KeyTaken(old(sales), sub)
                && ShortLines(LinesOf(sub), sub.branch, Available(old(Snapshot()), sub), |LinesOf(sub)|) == []
    {
      var lines, id := LinesOf(sub), sub.draft.id;
      var avail := Available(Snapshot(), sub);
      if id in sales {
        return Replayed(sales[id]);
      }
      var conflicts := DetectConflicts(lines, sub.branch, avail);
      if conflicts != [] {
        return StockConflict(conflicts);
      }
      if KeyTaken(sales, sub) {
        return ReceiptInUse;
      }
      forall l <- lines | Tracked(l) ensures KeyOf(l, sub.branch) in levels {
        WantedRowExists(lines, sub.branch, avail, KeyOf(l, sub.branch));
      }
      DecrementLevels(lines, sub.branch);
      var row := SaleOf(sub);
      sales := sales[id := row];
      LogSaleMoves(lines, sub.branch, id);
      return Posted(row);
    }

    /** find-or-create one level and add to it. */
    method AddToLevel(k: Key, delta: int)
      modifies this`levels
      ensures levels == old(levels)[k := Level(old(levels), k) + delta]
    {
      if k in levels {
        levels := levels[k := levels[k] + delta];
      } else {
        levels := levels[k := delta];
      }
    }

    /** Mirror the sale's own movements, never the product's current flags. */
    method RestoreStock(saleId: Id, kind: Kind)
      requires kind.VoidMove? || kind.RefundMove?
      modifies this`levels, this`log
      ensures Snapshot() == PostMoves(old(Snapshot()), Reversal(SoldMoves(old(log), saleId), kind))
      ensures sales == old(sales) && Mirrored(old(log), log, saleId, kind)
      ensures forall k :: Level(levels, k) == Level(old(levels), k) + SumBy(old(log), GivenBack(saleId, k))
    {
      MirrorSold(saleId, kind);
      RestoredIs(old(Snapshot()), saleId, kind);
    }

    method MirrorSold(saleId: Id, kind: Kind)
      requires kind.VoidMove? || kind.RefundMove?
      modifies this`levels, this`log
      ensures Snapshot() == PostMoves(old(Snapshot()), Reversal(SoldMoves(old(log), saleId), kind))
    {
      var sold := SoldMoves(log, saleId);
      ghost var moves := Reversal(sold, kind);
      for i := 0 to |sold|
        invariant levels == AddMoves(old(levels), moves[..i])
        invariant log == old(log) + moves[..i]
      {
        var m := sold[i];
        var restore := -m.deltaMilli;
        assert m in sold;
        AddOneMove(old(levels), moves, i);
        AddToLevel(m.key, restore);
        log := log + [Movement(m.key, kind, saleId, restore)];
        assert moves[..i + 1] == moves[..i] + [moves[i]];
      }
      assert moves[..|sold|] == moves;
    }

    /** voidSale: only while the sale's own shift is this terminal's open shift. */
    method VoidSale(id: Id, branch: Id, reasonGiven: bool, openShift: Option<Id>) returns (out: StatusOutcome)
      modifies this
      ensures out.Done? <==> id in old(sales) && VoidRow(old(sales)[id], branch, reasonGiven, openShift).Some?
      ensures out.Done? ==>
                && out.row == VoidRow(old(sales)[id], branch, reasonGiven, openShift).value
                && Snapshot() == Compensate(old(Snapshot()), id, Voided, out.row.refundShift,
                                            Reversal(SoldMoves(old(log), id), VoidMove))
      ensures !out.Done? ==> Snapshot() == old(Snapshot())
      ensures out.Done? <==> reasonGiven && id in old(sales) && old(sales)[id].branch == branch
                             && old(sales)[id].status.Completed? && openShift == Some(old(sales)[id].shift)
      ensures out.Done? ==>
                && out.row == old(sales)[id].(status := Voided) && sales == old(sales)[id := out.row]
                && Mirrored(old(log), log, id, VoidMove)
                && forall k :: Level(levels, k) == Level(old(levels), k) + SumBy(old(log), GivenBack(id, k))
    {
      if !reasonGiven { return ReasonRequired; }
      if id !in sales || sales[id].branch != branch { return NotFound; }
      var row := sales[id];
      if !row.status.Completed? { return NotCompleted(row.status); }
      if openShift != Some(row.shift) { return ShiftClosed; }
      sales := sales[id := row.(status := Voided)];
      RestoreStock(id, VoidMove);
      return Done(sales[id]);
    }

    /** refundSale after its PIN gate: refundShift is set only inside the sale's own open shift. */
    method RefundSale(id: Id, branch: Id, reasonGiven: bool, openShift: Option<Id>) returns (out: StatusOutcome)
      modifies this
      ensures out.Done? <==> id in old(sales) && RefundRow(old(sales)[id], branch, reasonGiven, openShift).Some?
      ensures out.Done? ==>
                && out.row == RefundRow(old(sales)[id], branch, reasonGiven, openShift).value
                && Snapshot() == Compensate(old(Snapshot()), id, Refunded, out.row.refundShift,
                                            Reversal(SoldMoves(old(log), id), RefundMove))
      ensures !out.Done? ==> Snapshot() == old(Snapshot())
      ensures out.Done? <==> reasonGiven && id in old(sales) && old(sales)[id].branch == branch
                             && old(sales)[id].status.Completed?
      ensures out.Done? ==>
                && out.row == old(sales)[id].(status := Refunded,
                                              refundShift := if openShift == Some(old(sales)[id].shift)
                                                             then Some(old(sales)[id].shift) else None)
                && sales == old(sales)[id := out.row] && Mirrored(old(log), log, id, RefundMove)
                && forall k :: Level(levels, k) == Level(old(levels), k) + SumBy(old(log), GivenBack(id, k))
    {
      if !reasonGiven { return ReasonRequired; }
      if id !in sales || sales[id].branch != branch { return NotFound; }
      var row := sales[id];
      if !row.status.Completed? { return NotCompleted(row.status); }
      var refundShift := if openShift == Some(row.shift) then openShift else None;
      sales := sales[id := row.(status := Refunded, refundShift := refundShift)];
      RestoreStock(id, RefundMove);
      return Done(sales[id]);
    }

    method AssertNoDuplicateLines(lines: seq<ReceiveLine>) returns (ok: bool)
      ensures ok <==> NoDuplicate(lines)
    {
      var seen: set<(Id, Option<Id>)> := {};
      for i := 0 to |lines|
        invariant seen == set l | l in lines[..i] :: (l.product, l.variant)
        invariant NoDuplicate(lines[..i])
      {
        var key := (lines[i].product, lines[i].variant);
        if key in seen {
          var l :| l in lines[..i] && key == (l.product, l.variant);
          var j :| 0 <= j < i && lines[j] == l;
          return false;
        }
        assert lines[..i + 1] == lines[..i] + [lines[i]];
        assert forall j | 0 <= j < i :: lines[j] in lines[..i];
        seen := seen + {key};
      }
      assert lines[..|lines|] == lines;
      return true;
    }

    /** receive: all lines or none. `lineOk` is the product and variant lookup. */
    method Receive(branch: Id, op: Id, lines: seq<ReceiveLine>, lineOk: ReceiveLine -> bool)
        returns (out: ReceiveOutcome)
      modifies this`levels, this`log
      ensures out.Received? <==> NoDuplicate(lines) && forall l <- lines :: lineOk(l)
      ensures out.Received? ==>
                out.movements == ReceiptOf(branch, op, lines)
                && Snapshot() == PostMoves(old(Snapshot()), ReceiptOf(branch, op, lines))
      ensures out.DuplicateLine? <==>
                exists i, j | 0 <= i < j < |lines| ::
                  lines[i].product == lines[j].product && lines[i].variant == lines[j].variant
      ensures !out.Received? ==> Snapshot() == old(Snapshot())
      ensures out.Received? ==>
                && forall b, p, v :: Level(levels, Key(b, p, v)) == Level(old(levels), Key(b, p, v))
                                       + if b == branch then SumBy(lines, Brings(p, v)) else 0
      ensures out.Received? ==>
                && sales == old(sales) && log == old(log) + out.movements && |out.movements| == |lines|
                && forall i | 0 <= i < |lines| ::
                     out.movements[i] == Movement(Key(branch, lines[i].product, lines[i].variant), ReceiveMove, op,
                                                  lines[i].qtyMilli)
    {
      ReceivedIs(levels, branch, op, lines);
      var distinct := AssertNoDuplicateLines(lines);
      if !distinct { return DuplicateLine; }
      ghost var all := ReceiptOf(branch, op, lines);
      var levels0, log0 := levels, log;
      var movements: seq<Movement> := [];
      for i := 0 to |lines|
        invariant movements == all[..i] && log == old(log) + all[..i]
        invariant levels == AddMoves(old(levels), all[..i])
        invariant forall j | 0 <= j < i :: lineOk(lines[j])
      {
        var line := lines[i];
        if !lineOk(line) {
          levels, log := levels0, log0;
          return BadLine;
        }
        AddOneMove(old(levels), all, i);
        AddToLevel(LevelKey(branch, line), line.qtyMilli);
        var mv := Movement(LevelKey(branch, line), ReceiveMove, op, line.qtyMilli);
        log := log + [mv];
        movements := movements + [mv];
        assert all[..i + 1] == all[..i] + [all[i]];
      }
      assert all[..|lines|] == all;
      return Received(movements);
    }

    /** adjust to an absolute quantity. */
    method Adjust(k: Key, newQty: int, movementId: Id) returns (movement: Movement)
      modifies this`levels, this`log
      ensures Snapshot() == AdjustLevel(old(Snapshot()), k, newQty, movementId)
      ensures movement == Movement(k, AdjustMove, movementId, newQty - if k in old(levels) then old(levels)[k] else 0)
      ensures levels == old(levels)[k := newQty] && log == old(log) + [movement] && sales == old(sales)
    {
      var currentQty := if k in levels then levels[k] else 0;
      movement := Movement(k, AdjustMove, movementId, newQty - currentQty);
      levels := levels[k := newQty];
      log := log + [movement];
    }
  }
}
