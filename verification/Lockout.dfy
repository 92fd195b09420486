/** The failed-attempt lockout (src/common/lockout/lockout.service.ts). Times are
    milliseconds; requests run one after another. */
module Lockout {
  import opened Common

  const LOCKOUT_MS := 300000
  const MAX_ATTEMPTS := 4

  datatype Kind = Pin | Login

  datatype Counter = Counter(failed: nat, lockedUntil: Option<int>) {
    predicate Locked(now: int) { lockedUntil.Some? && lockedUntil.value > now }

    function Failure(now: int): Counter {
      Counter(failed + 1, if failed + 1 >= MAX_ATTEMPTS then Some(now + LOCKOUT_MS) else lockedUntil)
    }
  }

  const FRESH := Counter(0, None)

  /** The two counters of one user row. */
  datatype Counters = Counters(pin: Counter, login: Counter) {
    function Of(kind: Kind): Counter { if kind.Pin? then pin else login }

    function Set(kind: Kind, c: Counter): Counters { if kind.Pin? then this.(pin := c) else this.(login := c) }
  }

  datatype Outcome = NotSet | LockedOut(retryAfterSeconds: int) | Refused(attemptsRemaining: int) | Accepted

  /** Math.ceil of a number of milliseconds, in seconds. */
  function CeilSeconds(ms: int): int { -(-ms / 1000) }

  /** One guarded verification reads the clock twice: at `checkedAt` for whether the lock is in
      force, and at `recordedAt` for the seconds left of it or, once the secret has been
      compared, for the failure. */
  function Verify(c: Counter, checkedAt: int, recordedAt: int, correct: bool): (Counter, Outcome) {
    if c.Locked(checkedAt) then (c, LockedOut(CeilSeconds(c.lockedUntil.value - recordedAt)))
    else if correct then (FRESH, Accepted)
    else (c.Failure(recordedAt), Refused(Max(0, MAX_ATTEMPTS - (c.failed + 1))))
  }

  class User {
    var failedPinCount: nat
    var pinLockedUntil: Option<int>
    var failedLoginCount: nat
    var loginLockedUntil: Option<int>
    var hasPin: bool

    function State(): Counters
      reads this
    {
      Counters(Counter(failedPinCount, pinLockedUntil), Counter(failedLoginCount, loginLockedUntil))
    }

    /** The seconds come from a second reading of the clock: they are positive exactly when the
        lock is still in force then. */
    method AssertNotLocked(kind: Kind, checkedAt: int, reportedAt: int) returns (locked: Option<Outcome>)
      ensures locked.Some? <==> State().Of(kind).Locked(checkedAt)
      ensures locked.Some? ==>
                locked == Some(LockedOut(CeilSeconds(State().Of(kind).lockedUntil.value - reportedAt)))
                && (locked.value.retryAfterSeconds > 0 <==> State().Of(kind).Locked(reportedAt))
      ensures var until := if kind.Pin? then pinLockedUntil else loginLockedUntil;
              && (locked.None? <==> until.None? || until.value <= checkedAt)
              && (locked.Some? ==>
                    && locked.value.LockedOut?
                    && var (s, left) := (locked.value.retryAfterSeconds, until.value - reportedAt);
                       (s - 1) * 1000 < left && left <= s * 1000)
    {
      var lockedUntil := if kind.Pin? then pinLockedUntil else loginLockedUntil;
      if lockedUntil.Some? && lockedUntil.value > checkedAt {
        return Some(LockedOut(CeilSeconds(lockedUntil.value - reportedAt)));
      }
      return None;
    }

    method RecordFailure(kind: Kind, now: int) returns (out: Outcome)
      modifies this
      ensures State() == old(State()).Set(kind, old(State()).Of(kind).Failure(now)) && hasPin == old(hasPin)
      ensures out == Refused(Max(0, MAX_ATTEMPTS - (old(State()).Of(kind).failed + 1)))
      ensures kind.Pin? ==>
                && failedPinCount == old(failedPinCount) + 1
                && pinLockedUntil == (if failedPinCount < 4 then old(pinLockedUntil) else Some(now + 300000))
                && failedLoginCount == old(failedLoginCount) && loginLockedUntil == old(loginLockedUntil)
                && out == Refused(if failedPinCount < 4 then 4 - failedPinCount else 0)
      ensures kind.Login? ==>
                && failedLoginCount == old(failedLoginCount) + 1
                && loginLockedUntil == (if failedLoginCount < 4 then old(loginLockedUntil) else Some(now + 300000))
                && failedPinCount == old(failedPinCount) && pinLockedUntil == old(pinLockedUntil)
                && out == Refused(if failedLoginCount < 4 then 4 - failedLoginCount else 0)
    {
      var newCount := 1 + if kind.Pin? then failedPinCount else failedLoginCount;
      var attemptsRemaining := Max(0, MAX_ATTEMPTS - newCount);
      var shouldLock := newCount >= MAX_ATTEMPTS;
      if kind.Pin? {
        failedPinCount := newCount;
        if shouldLock { pinLockedUntil := Some(now + LOCKOUT_MS); }
      } else {
        failedLoginCount := newCount;
        if shouldLock { loginLockedUntil := Some(now + LOCKOUT_MS); }
      }
      return Refused(attemptsRemaining);
    }

    method RecordSuccess(kind: Kind)
      modifies this
      ensures State() == old(State()).Set(kind, FRESH) && hasPin == old(hasPin)
      ensures kind.Pin? ==>
                && failedPinCount == 0 && pinLockedUntil.None?
                && failedLoginCount == old(failedLoginCount) && loginLockedUntil == old(loginLockedUntil)
      ensures kind.Login? ==>
                && failedLoginCount == 0 && loginLockedUntil.None?
                && failedPinCount == old(failedPinCount) && pinLockedUntil == old(pinLockedUntil)
    {
      if kind.Pin? {
        failedPinCount, pinLockedUntil := 0, None;
      } else {
        failedLoginCount, loginLockedUntil := 0, None;
      }
    }

    method VerifyPinWithLockout(checkedAt: int, recordedAt: int, correct: bool) returns (out: Outcome)
      modifies this
      ensures hasPin == old(hasPin)
      ensures !old(hasPin) ==> out == NotSet && State() == old(State())
      ensures old(hasPin) ==>
                var (c, o) := Verify(old(State()).pin, checkedAt, recordedAt, correct);
                out == o && State() == old(State()).Set(Pin, c)
      ensures failedLoginCount == old(failedLoginCount) && loginLockedUntil == old(loginLockedUntil)
      ensures out.NotSet? <==> !hasPin
      ensures out.LockedOut? <==> hasPin && old(pinLockedUntil).Some? && checkedAt < old(pinLockedUntil).value
      ensures out.Accepted? ==> correct && failedPinCount == 0 && pinLockedUntil.None?
      ensures out.Refused? ==>
                && !correct && failedPinCount == old(failedPinCount) + 1
                && pinLockedUntil == (if failedPinCount < 4 then old(pinLockedUntil) else Some(recordedAt + 300000))
      ensures out.NotSet? || out.LockedOut? ==>
                failedPinCount == old(failedPinCount) && pinLockedUntil == old(pinLockedUntil)
    {
      if !hasPin { return NotSet; }
      var locked := AssertNotLocked(Pin, checkedAt, recordedAt);
      if locked.Some? { return locked.value; }
      if !correct {
        out := RecordFailure(Pin, recordedAt);
        return;
      }
      RecordSuccess(Pin);
      return Accepted;
    }
  }
}

/** Whole runs of verifications. */
module LockoutTheorems {
  import opened Common
  import opened Lockout

  datatype Event =
    | Attempt(kind: Kind, checkedAt: int, recordedAt: int, correct: bool)
    | ChangePin

  function Step(s: Counters, e: Event): Counters {
    match e
    case Attempt(kind, checkedAt, recordedAt, correct) =>
      s.Set(kind, Verify(s.Of(kind), checkedAt, recordedAt, correct).0)
    case ChangePin => s.Set(Pin, FRESH)
  }

  /** What one event reports for one kind: None where a reset was not a verification. */
  function Report(s: Counters, e: Event, kind: Kind): seq<Option<Outcome>> {
    match e
    case Attempt(k, checkedAt, recordedAt, correct) =>
      if k == kind then [Some(Verify(s.Of(k), checkedAt, recordedAt, correct).1)] else []
    case ChangePin => if kind.Pin? then [None] else []
  }

  /** What a run reports for one kind, in order. */
  function Reports(s: Counters, events: seq<Event>, kind: Kind): seq<Option<Outcome>>
    decreases |events|
  {
    if events == [] then [] else Report(s, events[0], kind) + Reports(Step(s, events[0]), events[1..], kind)
  }

  predicate Concerns(e: Event, kind: Kind) { if e.ChangePin? then kind.Pin? else e.kind == kind }

  /** The pin and login counters never affect each other: dropping every event of the other
      kind changes nothing this kind reports. */
  lemma {:induction false} KindsAreIndependent(s: Counters, t: Counters, events: seq<Event>, kind: Kind)
    requires s.Of(kind) == t.Of(kind)
    ensures Reports(s, events, kind) == Reports(t, Filter(events, (e: Event) => Concerns(e, kind)), kind)
    decreases |events|
  {
    if events == [] {
    } else {
      var mine := (e: Event) => Concerns(e, kind);
      var rest := Filter(events[1..], mine);
      if Concerns(events[0], kind) {
        assert Filter(events, mine) == [events[0]] + rest;
        assert Filter(events, mine)[1..] == rest;
        KindsAreIndependent(Step(s, events[0]), Step(t, events[0]), events[1..], kind);
      } else {
        assert Filter(events, mine) == rest;
        KindsAreIndependent(Step(s, events[0]), t, events[1..], kind);
      }
    }
  }

  // ----- Attempts remaining -----

  /** Refusals since the last acceptance or PIN change. */
  function SinceReset(reports: seq<Option<Outcome>>): nat {
    if reports == [] then 0
    else
      var last, before := reports[|reports| - 1], reports[..|reports| - 1];
      if last.None? || last.value.Accepted? then 0
      else if last.value.Refused? then SinceReset(before) + 1
      else SinceReset(before)
  }

  function Run(s: Counters, events: seq<Event>): Counters
    decreases |events|
  {
    if events == [] then s else Run(Step(s, events[0]), events[1..])
  }

  lemma {:induction false} RunSnoc(s: Counters, events: seq<Event>, e: Event)
    ensures Run(s, events + [e]) == Step(Run(s, events), e)
    decreases |events|
  {
    if events == [] {
      assert events + [e] == [e] && [e][1..] == [];
    } else {
      assert (events + [e])[0] == events[0] && (events + [e])[1..] == events[1..] + [e];
      RunSnoc(Step(s, events[0]), events[1..], e);
    }
  }

  lemma {:induction false} ReportsSnoc(s: Counters, events: seq<Event>, e: Event, kind: Kind)
    ensures Reports(s, events + [e], kind) == Reports(s, events, kind) + Reports(Run(s, events), [e], kind)
    decreases |events|
  {
    if events == [] {
      assert events + [e] == [e];
      assert [] + Reports(s, [e], kind) == Reports(s, [e], kind);
    } else {
      assert (events + [e])[0] == events[0] && (events + [e])[1..] == events[1..] + [e];
      var first, later := Report(s, events[0], kind), Reports(Step(s, events[0]), events[1..], kind);
      var last := Reports(Run(s, events), [e], kind);
      ReportsSnoc(Step(s, events[0]), events[1..], e, kind);
      assert first + (later + last) == (first + later) + last;
    }
  }

  /** One event keeps the count in step with the reports. */
  lemma CountStep(s: Counters, before: seq<Option<Outcome>>, e: Event, kind: Kind)
    requires s.Of(kind).failed == SinceReset(before)
    ensures Step(s, e).Of(kind).failed == SinceReset(before + Report(s, e, kind))
  {
    var r := Report(s, e, kind);
    if r == [] {
      assert before + r == before;
    } else {
      assert (before + r)[..|before|] == before && (before + r)[|before|] == r[0];
    }
  }

  lemma OneReport(s: Counters, e: Event, kind: Kind)
    ensures Reports(s, [e], kind) == Report(s, e, kind)
  {
    assert [e][1..] == [] && Report(s, e, kind) + [] == Report(s, e, kind);
  }

  lemma {:induction false} CountIsSinceReset(events: seq<Event>, kind: Kind)
    ensures Run(Counters(FRESH, FRESH), events).Of(kind).failed
         == SinceReset(Reports(Counters(FRESH, FRESH), events, kind))
    decreases |events|
  {
    if events == [] {
    } else {
      var init, e, s := events[..|events| - 1], events[|events| - 1], Counters(FRESH, FRESH);
      assert events == init + [e];
      CountIsSinceReset(init, kind);
      CountStep(Run(s, init), Reports(s, init, kind), e, kind);
      OneReport(Run(s, init), e, kind);
      RunSnoc(s, init, e);
      ReportsSnoc(s, init, e, kind);
    }
  }

  /** A refusal reports four less the refusals since the last reset, never below zero. */
  lemma RemainingIsHonest(events: seq<Event>, kind: Kind, checkedAt: int, recordedAt: int)
    ensures var s := Run(Counters(FRESH, FRESH), events);
            var out := Verify(s.Of(kind), checkedAt, recordedAt, false).1;
            var last := Attempt(kind, checkedAt, recordedAt, false);
            var reports := Reports(Counters(FRESH, FRESH), events + [last], kind);
            out.Refused? ==> out.attemptsRemaining == Max(0, 4 - SinceReset(reports))
  {
    var e := Attempt(kind, checkedAt, recordedAt, false);
    CountIsSinceReset(events + [e], kind);
    RunSnoc(Counters(FRESH, FRESH), events, e);
  }

  // ----- The rate bound -----

  /** Verifications, one after another, and no reset between them. */
  ghost predicate InTurn(attempts: seq<Event>, from: int) {
    attempts != [] ==>
      && attempts[0].Attempt?
      && from <= attempts[0].checkedAt <= attempts[0].recordedAt
      && InTurn(attempts[1..], attempts[0].recordedAt)
  }

  /** And none accepted: the secret is wrong, or right and turned away by the lock. */
  ghost predicate Serial(c: Counter, attempts: seq<Event>, from: int)
    decreases |attempts|
  {
    attempts != [] ==>
      var e := attempts[0];
      && e.Attempt? && from <= e.checkedAt <= e.recordedAt
      && var (next, out) := Verify(c, e.checkedAt, e.recordedAt, e.correct);
         !out.Accepted? && Serial(next, attempts[1..], e.recordedAt)
  }

  /** When the failed verifications were recorded. */
  function FailureTimes(c: Counter, attempts: seq<Event>): seq<int>
    requires forall e <- attempts :: e.Attempt?
    decreases |attempts|
  {
    if attempts == [] then []
    else
      var e := attempts[0];
      var (next, out) := Verify(c, e.checkedAt, e.recordedAt, e.correct);
      (if out.Refused? then [e.recordedAt] else []) + FailureTimes(next, attempts[1..])
  }

  /** Times in order, and after the counter reaches the limit a full lockout apart. */
  ghost predicate SpacedFrom(ts: seq<int>, failed: nat) {
    && (forall i | 0 <= i < |ts| - 1 :: ts[i] <= ts[i + 1])
    && (forall i | 0 <= i < |ts| - 1 :: failed + i + 1 >= MAX_ATTEMPTS ==> ts[i] + LOCKOUT_MS <= ts[i + 1])
  }

  lemma ConsSpaced(x: int, rest: seq<int>, failed: nat)
    requires SpacedFrom(rest, failed + 1)
    requires rest != [] ==> x <= rest[0] && (failed + 1 >= MAX_ATTEMPTS ==> x + LOCKOUT_MS <= rest[0])
    ensures SpacedFrom([x] + rest, failed)
  {
    var ts := [x] + rest;
    forall i | 0 <= i < |ts| - 1
      ensures ts[i] <= ts[i + 1] && (failed + i + 1 >= MAX_ATTEMPTS ==> ts[i] + LOCKOUT_MS <= ts[i + 1])
    {
      if i > 0 { assert ts[i] == rest[i - 1] && ts[i + 1] == rest[i - 1 + 1]; }
    }
  }

  /** What a verification does that is not accepted: it is refused only once any lock is over,
      and then counted. */
  lemma NotAccepted(c: Counter, e: Event)
    requires e.Attempt? && e.checkedAt <= e.recordedAt
    requires !Verify(c, e.checkedAt, e.recordedAt, e.correct).1.Accepted?
    ensures var (next, out) := Verify(c, e.checkedAt, e.recordedAt, e.correct);
            if out.Refused?
            then next == c.Failure(e.recordedAt) && (c.lockedUntil.Some? ==> c.lockedUntil.value <= e.recordedAt)
            else next == c
  {}

  lemma FirstFailure(c: Counter, attempts: seq<Event>)
    requires attempts != [] && forall e <- attempts :: e.Attempt?
    ensures var e := attempts[0];
            var (next, out) := Verify(c, e.checkedAt, e.recordedAt, e.correct);
            var rest := FailureTimes(next, attempts[1..]);
            FailureTimes(c, attempts) == if out.Refused? then [e.recordedAt] + rest else rest
  {
    assert forall ts: seq<int> :: [] + ts == ts;
  }

  /** Nothing before `from`, nothing while locked, and spaced. */
  ghost predicate FailsWithin(c: Counter, ts: seq<int>, from: int) {
    && (|ts| > 0 ==> ts[0] >= from && (c.lockedUntil.Some? ==> ts[0] >= c.lockedUntil.value))
    && SpacedFrom(ts, c.failed)
  }

  lemma CountedFailure(c: Counter, at: int, rest: seq<int>, from: int)
    requires from <= at && (c.lockedUntil.Some? ==> c.lockedUntil.value <= at)
    requires FailsWithin(c.Failure(at), rest, at)
    ensures FailsWithin(c, [at] + rest, from)
  {
    ConsSpaced(at, rest, c.failed);
  }

  /** Failures are ordered, and from the fourth counted one on each lock holds the next
      failure off by the full lockout. */
  lemma {:induction false} FailuresSpaced(c: Counter, attempts: seq<Event>, from: int)
    requires Serial(c, attempts, from) && forall e <- attempts :: e.Attempt?
    ensures FailsWithin(c, FailureTimes(c, attempts), from)
    decreases |attempts|
  {
    if attempts == [] {
    } else {
      var e := attempts[0];
      var (next, out) := Verify(c, e.checkedAt, e.recordedAt, e.correct);
      NotAccepted(c, e);
      FirstFailure(c, attempts);
      FailuresSpaced(next, attempts[1..], e.recordedAt);
      if out.Refused? { CountedFailure(c, e.recordedAt, FailureTimes(next, attempts[1..]), from); }
    }
  }

  lemma {:induction false} Climb(ts: seq<int>, a: nat, b: nat)
    requires SpacedFrom(ts, 0) && a <= b < |ts|
    ensures ts[a] <= ts[b]
    ensures a + MAX_ATTEMPTS - 1 <= b ==> ts[a] + LOCKOUT_MS * (b - a - (MAX_ATTEMPTS - 1)) <= ts[b]
    decreases b
  {
    if a < b { Climb(ts, a, b - 1); }
  }

  /** Where the times reach x. */
  lemma {:induction false} Reach(ts: seq<int>, x: int, n: nat) returns (a: nat)
    requires SpacedFrom(ts, 0) && n <= |ts| && forall i | n <= i < |ts| :: ts[i] >= x
    ensures a <= |ts|
    ensures forall i | 0 <= i < a :: ts[i] < x
    ensures forall i | a <= i < |ts| :: ts[i] >= x
  {
    if n == 0 || ts[n - 1] < x {
      a := n;
      forall i | 0 <= i < a ensures ts[i] < x { Climb(ts, i, n - 1); }
    } else {
      a := Reach(ts, x, n - 1);
    }
  }

  /** The failures in a window are consecutive ones. */
  lemma WindowIsSlice(ts: seq<int>, lo: int, span: nat) returns (a: nat, b: nat)
    requires SpacedFrom(ts, 0)
    ensures a <= b <= |ts| && Filter(ts, (t: int) => lo <= t <= lo + span) == ts[a..b]
  {
    a := Reach(ts, lo, |ts|);
    b := Reach(ts, lo + span + 1, |ts|);
    assert b < |ts| ==> ts[b] > lo + span;
    FilterSlice(ts, (t: int) => lo <= t <= lo + span, a, b);
  }

  lemma SliceFits(ts: seq<int>, a: nat, b: nat, lo: int, span: nat)
    requires SpacedFrom(ts, 0) && a <= b <= |ts| && forall t <- ts[a..b] :: lo <= t <= lo + span
    ensures b - a <= 4 + span / 300000
  {
    if b - a > MAX_ATTEMPTS {
      Climb(ts, a, b - 1);
      assert ts[a..b][0] == ts[a] && ts[a..b][b - a - 1] == ts[b - 1];
      assert ts[a] in ts[a..b] && ts[b - 1] in ts[a..b];
      assert b - 1 - a - (MAX_ATTEMPTS - 1) == b - a - MAX_ATTEMPTS;
      Quotient(b - a - MAX_ATTEMPTS, span);
    }
  }

  lemma Quotient(n: int, span: nat)
    requires LOCKOUT_MS * n <= span
    ensures n <= span / LOCKOUT_MS
  {}

  /** In any window of one counter's requests, none of them accepted, at most four failures plus
      one per full lockout the window holds. */
  lemma CounterRateBound(c: Counter, attempts: seq<Event>, from: int, lo: int, span: nat)
    requires Serial(c, attempts, from) && forall e <- attempts :: e.Attempt?
    ensures |Filter(FailureTimes(c, attempts), (t: int) => lo <= t <= lo + span)| <= 4 + span / 300000
  {
    var ts := FailureTimes(c, attempts);
    FailuresSpaced(c, attempts, from);
    var a, b := WindowIsSlice(ts, lo, span);
    SliceFits(ts, a, b, lo, span);
  }

  /** When a run over both counters recorded failed verifications of one kind. */
  function KindFailures(s: Counters, events: seq<Event>, kind: Kind): seq<int>
    decreases |events|
  {
    if events == [] then []
    else
      var e := events[0];
      (if e.Attempt? && e.kind == kind && Verify(s.Of(kind), e.checkedAt, e.recordedAt, e.correct).1.Refused?
       then [e.recordedAt] else [])
      + KindFailures(Step(s, e), events[1..], kind)
  }

  /** The requests that concern one kind. */
  function OfKind(events: seq<Event>, kind: Kind): seq<Event> { Filter(events, (e: Event) => Concerns(e, kind)) }

  /** Only its own requests decide when a kind fails. */
  lemma {:induction false} KindFailuresAreOwn(s: Counters, events: seq<Event>, kind: Kind)
    requires forall e <- OfKind(events, kind) :: e.Attempt?
    ensures KindFailures(s, events, kind) == FailureTimes(s.Of(kind), OfKind(events, kind))
    decreases |events|
  {
    if events == [] {
    } else {
      var rest := OfKind(events[1..], kind);
      if Concerns(events[0], kind) {
        assert OfKind(events, kind) == [events[0]] + rest;
        assert OfKind(events, kind)[0] == events[0] && OfKind(events, kind)[1..] == rest;
        assert forall e <- rest :: e in OfKind(events, kind);
      } else {
        assert OfKind(events, kind) == [] + rest == rest;
      }
      KindFailuresAreOwn(Step(s, events[0]), events[1..], kind);
    }
  }

  /** In any window of a run of both kinds, with any successes and resets of the other kind
      mixed in, at most four failures of one kind plus one per full lockout the window holds,
      as long as that kind's own requests come one after another, none of them reported accepted
      and no reset between them. The right secret may be among them, turned away by the lock. */
  lemma RateBound(s: Counters, events: seq<Event>, kind: Kind, from: int, lo: int, span: nat)
    requires InTurn(OfKind(events, kind), from) && Some(Accepted) !in Reports(s, events, kind)
    ensures |Filter(KindFailures(s, events, kind), (t: int) => lo <= t <= lo + span)|
         <= 4 + span / 300000
  {
    AttemptsOnly(OfKind(events, kind), from);
    KindIsSerial(s, events, kind, from);
    KindFailuresAreOwn(s, events, kind);
    CounterRateBound(s.Of(kind), OfKind(events, kind), from, lo, span);
  }

  lemma {:induction false} AttemptsOnly(attempts: seq<Event>, from: int)
    requires InTurn(attempts, from)
    ensures forall e <- attempts :: e.Attempt?
    decreases |attempts|
  {
    if attempts == [] {
    } else {
      AttemptsOnly(attempts[1..], attempts[0].recordedAt);
    }
  }

  /** A run that reports no success of a kind is one without success of that kind's counter. */
  lemma {:induction false} KindIsSerial(s: Counters, events: seq<Event>, kind: Kind, from: int)
    requires InTurn(OfKind(events, kind), from) && Some(Accepted) !in Reports(s, events, kind)
    ensures Serial(s.Of(kind), OfKind(events, kind), from)
    decreases |events|
  {
    if events == [] {
    } else {
      var e, own, rest := events[0], OfKind(events, kind), OfKind(events[1..], kind);
      var later := Reports(Step(s, e), events[1..], kind);
      assert Reports(s, events, kind) == Report(s, e, kind) + later;
      if Concerns(e, kind) {
        assert own == [e] + rest;
        assert own[0] == e && own[1..] == rest;
        var report := Some(Verify(s.Of(kind), e.checkedAt, e.recordedAt, e.correct).1);
        assert Report(s, e, kind) == [report] && report in Reports(s, events, kind);
        KindIsSerial(Step(s, e), events[1..], kind, e.recordedAt);
      } else {
        assert own == [] + rest == rest;
        KindIsSerial(Step(s, e), events[1..], kind, from);
      }
    }
  }

  /** A wrong secret at each of these instants. */
  function WrongAt(kind: Kind, times: seq<int>): (r: seq<Event>)
    ensures forall e <- r :: e.Attempt?
  {
    if times == [] then [] else [Attempt(kind, times[0], times[0], false)] + WrongAt(kind, times[1..])
  }

  /** One attempt as each lockout ends. */
  function LockEnds(from: int, n: nat): (r: seq<int>)
    ensures |r| == n
    decreases n
  {
    if n == 0 then [] else [from] + LockEnds(from + LOCKOUT_MS, n - 1)
  }

  /** Past the limit, every attempt made as a lock ends fails and locks again. */
  lemma {:induction false} EachLockEndFails(c: Counter, kind: Kind, from: int, n: nat, since: int)
    requires c.failed >= MAX_ATTEMPTS && c.lockedUntil == Some(from) && since <= from
    ensures Serial(c, WrongAt(kind, LockEnds(from, n)), since)
    ensures FailureTimes(c, WrongAt(kind, LockEnds(from, n))) == LockEnds(from, n)
    ensures forall t <- LockEnds(from, n) :: from <= t <= from + LOCKOUT_MS * (n - 1)
    decreases n
  {
    if n == 0 {
    } else {
      EachLockEndFails(c.Failure(from), kind, from + LOCKOUT_MS, n - 1, from);
      var rest := WrongAt(kind, LockEnds(from + LOCKOUT_MS, n - 1));
      assert LockEnds(from, n)[1..] == LockEnds(from + LOCKOUT_MS, n - 1);
      assert WrongAt(kind, LockEnds(from, n))[1..] == rest;
    }
  }

  /** The bound is reached in every window of whole lockouts: four wrong attempts at once,
      then one as each lock ends. */
  lemma RateBoundIsTight(kind: Kind, n: nat) returns (attempts: seq<Event>)
    ensures Serial(FRESH, attempts, 0) && forall e <- attempts :: e.Attempt?
    ensures |Filter(FailureTimes(FRESH, attempts), (t: int) => 0 <= t <= 300000 * n)| == 4 + n
  {
    var e := Attempt(kind, 0, 0, false);
    var tail := WrongAt(kind, LockEnds(LOCKOUT_MS, n));
    attempts := [e] + ([e] + ([e] + ([e] + tail)));
    var c1 := FRESH.Failure(0);
    var c2 := c1.Failure(0);
    var c3 := c2.Failure(0);
    var c4 := c3.Failure(0);
    EachLockEndFails(c4, kind, LOCKOUT_MS, n, 0);
    Prepended(c3, e, tail);
    Prepended(c2, e, [e] + tail);
    Prepended(c1, e, [e] + ([e] + tail));
    Prepended(FRESH, e, [e] + ([e] + ([e] + tail)));
    var ts := FailureTimes(FRESH, attempts);
    assert ts == [0, 0, 0, 0] + LockEnds(LOCKOUT_MS, n);
    FilterAll(ts, (t: int) => 0 <= t <= LOCKOUT_MS * n);
  }

  lemma Prepended(c: Counter, e: Event, rest: seq<Event>)
    requires e.Attempt? && !e.correct && e.checkedAt == 0 && e.recordedAt == 0 && !c.Locked(0)
    requires Serial(c.Failure(0), rest, 0) && forall x <- rest :: x.Attempt?
    ensures Serial(c, [e] + rest, 0) && forall x <- [e] + rest :: x.Attempt?
    ensures FailureTimes(c, [e] + rest) == [0] + FailureTimes(c.Failure(0), rest)
  {
    assert ([e] + rest)[1..] == rest;
  }
}
