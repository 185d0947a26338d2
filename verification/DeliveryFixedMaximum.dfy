/**
 The documented maximum of tries in runs whose endpoints never change, whose passes run to their
 end and whose clock never goes back. No try goes beyond the limit in all of them exactly if there
 is one endpoint, or none of the backoffs before the last failure below the limit is positive:
 a positive one lets an endpoint that answers late fall behind the others.
 */
module DeliveryFixedMaximum {
  import opened Wrappers
  import opened DeliveryRules
  import opened DeliveryPass
  import opened DeliveryRuns
  import opened DeliveryFixed
  import opened DeliveryDrain
  import opened DeliveryTightness

  /** The first `limit - 2` backoffs make nobody wait. */
  ghost predicate NoEarlyWaits(o: Options) {
    forall i :: 0 <= i < Limit(o) - 2 ==> o.backoffSeconds[i] <= 0
  }

  // ----- without early waits: the endpoints of an event stay in step -----

  lemma EarlyRowHasNoWait(o: Options, log: seq<Attempt>, v: Visit)
    requires NoEarlyWaits(o) && RowOf(o, log, v).nextAttemptAt.Some? && RowOf(o, log, v).tryNumber < Limit(o) - 1
    ensures RowOf(o, log, v).nextAttemptAt.value <= v.reading.scheduledFrom
  {
    assert o.backoffSeconds[RowOf(o, log, v).tryNumber - 1] <= 0;
  }

  /** The date after an early try is past as soon as it is set. */
  lemma {:induction false} EarlyDateIsPast(o: Options, steps: seq<Step>, a: Attempt) returns (r: Reading)
    requires ValidRun(steps) && NoEarlyWaits(o) && a in Run(o, steps).log
    requires a.nextAttemptAt.Some? && a.tryNumber < Limit(o) - 1
    ensures r in Readings(steps) && a.nextAttemptAt.value <= r.scheduledFrom
  {
    var before, s := steps[..|steps| - 1], Last(steps);
    assert steps == before + [s];
    if a in Run(o, before).log {
      r := EarlyDateIsPast(o, before, a);
    } else {
      assert s.Pass? && s.Valid();
      var vs := PassVisits(o, Run(o, before), s.order, s.readings);
      PassVisitsFacts(o, Run(o, before), s.order, s.readings);
      NewRowsMembers(o, Run(o, before).log, vs);
      var v :| v in vs && a == RowOf(o, Run(o, before).log, v);
      r := v.reading;
      EarlyRowHasNoWait(o, Run(o, before).log, v);
    }
  }

  lemma ForwardPrefix(before: seq<Step>, s: Step)
    requires ForwardClock(before + [s])
    ensures ForwardClock(before)
    ensures s.Pass? ==> forall r, r' :: r in Readings(before) && r' in s.readings ==> r.scheduledFrom <= r'.checkedAt
  {
    var rs := Readings(before + [s]);
    assert (before + [s])[..|before|] == before;
    var m := |Readings(before)|;
    assert rs[..m] == Readings(before);
    if s.Pass? {
      assert rs == Readings(before) + s.readings;
      forall r, r' | r in Readings(before) && r' in s.readings ensures r.scheduledFrom <= r'.checkedAt {
        var i :| 0 <= i < m && Readings(before)[i] == r;
        var j :| 0 <= j < |s.readings| && s.readings[j] == r';
        assert rs[i] == r && rs[m + j] == r';
      }
    }
  }

  /** While no endpoint has more than `limit - 2` tries, every further pass is timely for the event. */
  lemma EarlyPassIsTimely(o: Options, before: seq<Step>, s: Step, eps: set<int>, e: int, n: nat)
    requires ValidRun(before) && ForwardClock(before + [s]) && NoEarlyWaits(o)
    requires s.Pass? && FixedStep(o, Run(o, before), s, eps)
    requires InStep([], Run(o, before).log, e, eps, n) && n < Limit(o) - 1
    ensures TimelyFor(o, Run(o, before), s, eps, e)
  {
    var log := Run(o, before).log;
    RunIsConsistent(o, before);
    ForwardPrefix(before, s);
    forall r, p | r in s.readings && p in eps ensures DateReached(log, e, p, r.checkedAt) {
      LatestIsHighest(log, e, p);
      LawfulPair(o, log, e, p);
      var last := Latest(log, e, p);
      if last.Some? && last.value.nextAttemptAt.Some? {
        var r' := EarlyDateIsPast(o, before, last.value);
      }
    }
  }

  /** One attempting pass: in step up to `limit - 1` tries, and the pass after that settles the event. */
  lemma PassStaysInStep(o: Options, before: seq<Step>, s: Step, eps: set<int>, e: int, n: nat)
    requires ValidRun(before) && s.Valid() && ForwardClock(before + [s]) && NoEarlyWaits(o)
    requires s.Pass? && FixedStep(o, Run(o, before), s, eps)
    requires InStep([], Run(o, before).log, e, eps, n) && n < Limit(o)
    requires EventLog(StepRows(o, Run(o, before), s), e) != []
    ensures !IsTerminal(Apply(o, Run(o, before), s), e) ==> n + 1 < Limit(o)
    ensures n + 1 < Limit(o) ==> InStep([], Apply(o, Run(o, before), s).log, e, eps, n + 1)
  {
    var db := Run(o, before);
    RunIsConsistent(o, before);
    LastAttemptIsOpen(o, db, s, e);
    if n < Limit(o) - 1 {
      EarlyPassIsTimely(o, before, s, eps, e, n);
      TimelyPassKeepsStep(o, [], db, s, eps, e, n);
    }
    EndsAtLimit(o, db, s, e, n);
  }

  lemma {:induction false} StaysInStep(o: Options, steps: seq<Step>, eps: set<int>, e: int)
    requires ValidRun(steps) && FixedRun(o, steps, eps) && ForwardClock(steps) && NoEarlyWaits(o)
    ensures
      var n := AttemptingPasses(o, steps, e);
      && n <= Limit(o)
      && (!IsTerminal(Run(o, steps), e) ==> n < Limit(o))
      && (n < Limit(o) ==> InStep([], Run(o, steps).log, e, eps, n))
  {
    if steps != [] {
      var before, s := steps[..|steps| - 1], Last(steps);
      assert steps == before + [s];
      ForwardPrefix(before, s);
      StaysInStep(o, before, eps, e);
      if EventLog(StepRows(o, Run(o, before), s), e) == [] {
        StepWithoutAttempt(o, Run(o, before), s, e);
      } else {
        AttemptedEvent(o, Run(o, before), s, e);
        PassStaysInStep(o, before, s, eps, e, AttemptingPasses(o, before, e));
      }
    }
  }

  lemma LimitKept(o: Options, steps: seq<Step>, eps: set<int>)
    requires ValidRun(steps) && FixedRun(o, steps, eps) && ForwardClock(steps)
    requires |eps| <= 1 || NoEarlyWaits(o)
    ensures NoTryAbove(o, steps, Limit(o))
  {
    forall a | a in Run(o, steps).log ensures a.tryNumber <= Limit(o) {
      if |eps| <= 1 {
        FixedPassesBound(o, steps, eps, a.eventId);
        ListedEndpoint(o, steps, eps, a);
      } else {
        StaysInStep(o, steps, eps, a.eventId);
        TriesWithinPasses(o, steps, a.eventId);
      }
    }
  }

  lemma ListedEndpoint(o: Options, steps: seq<Step>, eps: set<int>, a: Attempt)
    requires ValidRun(steps) && FixedRun(o, steps, eps) && a in Run(o, steps).log
    ensures |eps| >= 1
  {
    OnlyListedEndpoints(o, steps, eps, a.eventId);
    LogParts(Run(o, steps).log, a.eventId, a.endpointId);
    assert a.endpointId in Met(Run(o, steps).log, a.eventId);
  }

  // ----- passes over two endpoints -----

  /** How often an endpoint has failed, and the date it waits for if there is one. */
  datatype Pace = Pace(tries: nat, date: Option<int>) {
    predicate MayTry(t: int) {
      tries == 0 || date.None? || date.value <= t
    }

    function After(o: Options, t: int): Pace {
      Pace(tries + 1, ComputeNextAttemptAt(o, tries + 1, t))
    }
  }

  function FailedAt(o: Options, p: int, u: Pace, t: int): Attempt {
    Attempt(0, p, u.tries + 1, t, None, false, u.After(o, t).date)
  }

  ghost predicate Stands(log: seq<Attempt>, p: int, u: Pace) {
    |PairLog(log, 0, p)| == u.tries && (u.tries > 0 ==> Last(PairLog(log, 0, p)).nextAttemptAt == u.date)
  }

  lemma StandingPairState(o: Options, db: Db, p: int, u: Pace, t: int)
    requires OneFailingEvent(o, db) && Stands(db.log, p, u)
    ensures GetAttemptState(db.log, 0, p, t) == (u.MayTry(t), u.tries + 1)
  {
    LatestIsHighest(db.log, 0, p);
    LawfulPair(o, db.log, 0, p);
  }

  lemma StandingPairRow(o: Options, db: Db, p: int, u: Pace, t: int)
    requires OneFailingEvent(o, db) && Stands(db.log, p, u)
    ensures RowOf(o, db.log, Visit(0, p, Reading(t, t, t, Threw))) == FailedAt(o, p, u, t)
  {
    StandingPairState(o, db, p, u, t);
  }

  ghost predicate BothStand(o: Options, db: Db, u: Pace, v: Pace) {
    OneFailingEvent(o, db) && Stands(db.log, 0, u) && Stands(db.log, 1, v)
  }

  /** Every send throws, to endpoint 0 at `t` and to endpoint 1 at `t'`. */
  function PassAt(t: int, t': int): Step {
    Pass([0, 1], [Reading(t, t, t, Threw), Reading(t', t', t', Threw)])
  }

  /** The rows of such a pass, by what the two endpoints wait for. */
  lemma RowsOfPassAt(o: Options, db: Db, u: Pace, v: Pace, t: int, t': int)
    requires BothStand(o, db, u, v) && o.batchSize >= 1
    ensures StepRows(o, db, PassAt(t, t'))
         == (if u.MayTry(t) then [FailedAt(o, 0, u, t)] else [])
            + if v.MayTry(t') then [FailedAt(o, 1, v, t')] else []
  {
    StandingPairState(o, db, 0, u, t);
    StandingPairState(o, db, 1, v, t');
    StandingPairRow(o, db, 0, u, t);
    StandingPairRow(o, db, 1, v, t');
    RowsOfTwo(o, db, 1, Reading(t, t, t, Threw), Reading(t', t', t', Threw));
  }

  lemma StandsAfter(o: Options, log: seq<Attempt>, rows: seq<Attempt>, p: int, u: Pace, t: int)
    requires Stands(log, p, u)
    requires PairLog(rows, 0, p) == [] || PairLog(rows, 0, p) == [FailedAt(o, p, u, t)]
    ensures Stands(log + rows, p, if PairLog(rows, 0, p) == [] then u else u.After(o, t))
  {
    PairLogAppend(log, rows, 0, p);
  }

  lemma TwoRowsFail(o: Options, db: Db, s: Step, a: Attempt, b: Attempt)
    requires OneFailingEvent(o, db) && s.Pass? && s.Valid() && StepRows(o, db, s) == [a, b]
    requires a.eventId == b.eventId == 0 && a.endpointId != b.endpointId && !a.success && !b.success
    requires 1 <= b.tryNumber < Limit(o)
    ensures OneFailingEvent(o, Apply(o, db, s)) && Apply(o, db, s).log == db.log + [a, b]
    ensures PairLog([a, b], 0, a.endpointId) == [a] && PairLog([a, b], 0, b.endpointId) == [b]
  {
    PartsOfTwo(a, b);
    RowsFail(o, db, s);
  }

  lemma OneRowFails(o: Options, db: Db, s: Step, a: Attempt)
    requires OneFailingEvent(o, db) && s.Pass? && s.Valid() && StepRows(o, db, s) == [a]
    requires a.eventId == 0 && !a.success && 1 <= a.tryNumber < Limit(o)
    ensures OneFailingEvent(o, Apply(o, db, s)) && Apply(o, db, s).log == db.log + [a]
    ensures PairLog([a], 0, a.endpointId) == [a]
  {
    OneRowLogs(a, 0, a.endpointId);
    RowsFail(o, db, s);
  }

  /** Both endpoints are due. */
  lemma JointPass(o: Options, db: Db, u: Pace, v: Pace, t: int, t': int)
    requires BothStand(o, db, u, v) && o.batchSize >= 1
    requires u.MayTry(t) && v.MayTry(t') && v.tries + 1 < Limit(o)
    ensures BothStand(o, Apply(o, db, PassAt(t, t')), u.After(o, t), v.After(o, t'))
  {
    var a, b := FailedAt(o, 0, u, t), FailedAt(o, 1, v, t');
    RowsOfPassAt(o, db, u, v, t, t');
    assert StepRows(o, db, PassAt(t, t')) == [a, b];
    TwoRowsFail(o, db, PassAt(t, t'), a, b);
    StandsAfter(o, db.log, [a, b], 0, u, t);
    StandsAfter(o, db.log, [a, b], 1, v, t');
  }

  /** Only endpoint 0 is due. */
  lemma SoloPass(o: Options, db: Db, u: Pace, v: Pace, t: int)
    requires BothStand(o, db, u, v) && o.batchSize >= 1
    requires u.MayTry(t) && !v.MayTry(t) && u.tries + 1 < Limit(o)
    ensures BothStand(o, Apply(o, db, PassAt(t, t)), u.After(o, t), v)
  {
    var a := FailedAt(o, 0, u, t);
    RowsOfPassAt(o, db, u, v, t, t);
    assert StepRows(o, db, PassAt(t, t)) == [a];
    OneRowFails(o, db, PassAt(t, t), a);
    OneRowLogs(a, 0, 1);
    StandsAfter(o, db.log, [a], 0, u, t);
    StandsAfter(o, db.log, [a], 1, v, t);
  }

  // ----- runs of such passes -----

  /** A run, the instant at which it ends, and where it leaves the two endpoints. */
  datatype Race = Race(steps: seq<Step>, now: int, first: Pace, second: Pace) {
    /** An instant at which both may be tried. */
    function Later(): (t: int)
      ensures now <= t && first.MayTry(t) && second.MayTry(t)
    {
      Max(now, Max(if first.date.Some? then first.date.value else now,
                   if second.date.Some? then second.date.value else now))
    }
  }

  /** Complete passes over endpoints 0 and 1 under a clock that never goes back and ends at `now`. */
  ghost predicate FixedAndTimed(o: Options, steps: seq<Step>, now: int) {
    ValidRun(steps) && FixedRun(o, steps, {0, 1}) && TimedUpTo(Readings(steps), now)
  }

  ghost predicate Ran(o: Options, c: Race) {
    FixedAndTimed(o, c.steps, c.now) && BothStand(o, Run(o, c.steps), c.first, c.second)
  }

  lemma PassGoesOn(o: Options, steps: seq<Step>, now: int, t: int, t': int)
    requires FixedAndTimed(o, steps, now) && OneFailingEvent(o, Run(o, steps)) && o.batchSize >= 1 && now <= t <= t'
    ensures FixedAndTimed(o, steps + [PassAt(t, t')], t')
    ensures Run(o, steps + [PassAt(t, t')]) == Apply(o, Run(o, steps), PassAt(t, t'))
  {
    var s := PassAt(t, t');
    assert (steps + [s])[..|steps|] == steps;
    ReadingsSnoc(steps, s);
    TimeGoesOn(Readings(steps), s.readings, now, t');
    RowsOfTwo(o, Run(o, steps), 1, s.readings[0], s.readings[1]);
  }

  /** Both are tried, and the race goes on as long as endpoint 1 is below the limit. */
  lemma BothGoOn(o: Options, c: Race, t: int, t': int) returns (d: Race)
    requires Ran(o, c) && o.batchSize >= 1 && c.now <= t <= t'
    requires c.first.MayTry(t) && c.second.MayTry(t') && c.second.tries + 1 < Limit(o)
    ensures Ran(o, d) && d.now == t' && d.first == c.first.After(o, t) && d.second == c.second.After(o, t')
  {
    PassGoesOn(o, c.steps, c.now, t, t');
    JointPass(o, Run(o, c.steps), c.first, c.second, t, t');
    d := Race(c.steps + [PassAt(t, t')], t', c.first.After(o, t), c.second.After(o, t'));
  }

  /** Only endpoint 0 is tried, and stays below the limit. */
  lemma OneGoesOn(o: Options, c: Race, t: int) returns (d: Race)
    requires Ran(o, c) && o.batchSize >= 1 && c.now <= t
    requires c.first.MayTry(t) && !c.second.MayTry(t) && c.first.tries + 1 < Limit(o)
    ensures Ran(o, d) && d.first == c.first.After(o, t) && d.second == c.second
  {
    PassGoesOn(o, c.steps, c.now, t, t);
    SoloPass(o, Run(o, c.steps), c.first, c.second, t);
    d := Race(c.steps + [PassAt(t, t)], t, c.first.After(o, t), c.second);
  }

  lemma {:induction false} BothGoOnFor(o: Options, c: Race, k: nat) returns (d: Race)
    requires Ran(o, c) && o.batchSize >= 1 && c.second.tries + k < Limit(o)
    ensures Ran(o, d) && d.first.tries == c.first.tries + k && d.second.tries == c.second.tries + k
  {
    if k == 0 {
      d := c;
    } else {
      d := BothGoOnFor(o, c, k - 1);
      d := BothGoOn(o, d, d.Later(), d.Later());
    }
  }

  lemma Started(o: Options) returns (c: Race)
    ensures Ran(o, c) && c.first.tries == c.second.tries == 0
  {
    ClimbStart(o);
    assert [Ingest(0)][..0] == [];
    c := Race([Ingest(0)], 0, Pace(0, None), Pace(0, None));
  }

  lemma LatePaces(o: Options, u: Pace, v: Pace, t: int, i: nat, wait: int)
    requires u.tries == v.tries == i < |o.backoffSeconds| && wait == o.backoffSeconds[i] * TICKS_PER_SECOND
    ensures u.After(o, t) == Pace(i + 1, Some(t + wait))
    ensures v.After(o, t + wait) == Pace(i + 1, Some(t + wait + wait))
  {
  }

  /** Endpoint 1 is sent to when endpoint 0 is due again, and so has to wait as long again. */
  lemma FallingBehind(o: Options, even: Race, i: nat, wait: int) returns (c: Race)
    requires Ran(o, even) && even.first.tries == even.second.tries == i && o.batchSize >= 1
    requires i < Limit(o) - 2 && wait == o.backoffSeconds[i] * TICKS_PER_SECOND > 0
    ensures Ran(o, c) && c.first == Pace(i + 1, Some(c.now)) && c.second == Pace(i + 1, Some(c.now + wait))
  {
    var t := even.Later();
    LatePaces(o, even.first, even.second, t, i, wait);
    c := BothGoOn(o, even, t, t + wait);
  }

  /** An early backoff that makes an endpoint wait lets the other get one try ahead. */
  lemma GettingAhead(o: Options, i: nat) returns (c: Race)
    requires o.batchSize >= 1 && i < Limit(o) - 2 && o.backoffSeconds[i] > 0
    ensures Ran(o, c) && c.first.tries == i + 2 && c.second.tries == i + 1
  {
    var start := Started(o);
    var even := BothGoOnFor(o, start, i);
    var late := FallingBehind(o, even, i, o.backoffSeconds[i] * TICKS_PER_SECOND);
    c := OneGoesOn(o, late, late.now);
  }

  /** The event stays Failed until the late endpoint reaches the limit too: one try beyond it for the other. */
  lemma LimitBroken(o: Options, i: nat) returns (steps: seq<Step>, a: Attempt)
    requires o.batchSize >= 1 && i < Limit(o) - 2 && o.backoffSeconds[i] > 0
    ensures ValidRun(steps) && FixedRun(o, steps, {0, 1}) && ForwardClock(steps)
    ensures a in Run(o, steps).log && a.tryNumber == Limit(o) + 1
  {
    var c := GettingAhead(o, i);
    c := BothGoOnFor(o, c, Limit(o) - 2 - i);
    steps, a := LastTry(o, c);
  }

  lemma LastTry(o: Options, c: Race) returns (steps: seq<Step>, a: Attempt)
    requires Ran(o, c) && o.batchSize >= 1
    ensures ValidRun(steps) && FixedRun(o, steps, {0, 1}) && ForwardClock(steps)
    ensures a in Run(o, steps).log && a.tryNumber == c.first.tries + 1
  {
    var t := c.Later();
    PassGoesOn(o, c.steps, c.now, t, t);
    RowsOfPassAt(o, Run(o, c.steps), c.first, c.second, t, t);
    steps := c.steps + [PassAt(t, t)];
    a := FailedAt(o, 0, c.first, t);
    assert StepRows(o, Run(o, c.steps), PassAt(t, t))[0] == a;
  }

  // ----- the exact conditions -----

  /** Complete passes over at most E endpoints that never change, under a clock that never goes back. */
  ghost predicate FixedRunOver(o: Options, steps: seq<Step>, eps: set<int>, endpoints: nat) {
    |eps| <= endpoints && ValidRun(steps) && FixedRun(o, steps, eps) && ForwardClock(steps)
  }

  /** In such runs no try goes beyond the limit exactly if there is one endpoint or no early wait. */
  lemma LimitHoldsOverFixedIff(o: Options, endpoints: nat)
    requires o.batchSize >= 1 && endpoints >= 1
    ensures (forall steps, eps :: FixedRunOver(o, steps, eps, endpoints) ==> NoTryAbove(o, steps, Limit(o)))
       <==> endpoints == 1 || NoEarlyWaits(o)
  {
    if endpoints == 1 || NoEarlyWaits(o) {
      forall steps, eps | FixedRunOver(o, steps, eps, endpoints) ensures NoTryAbove(o, steps, Limit(o)) {
        LimitKept(o, steps, eps);
      }
    } else {
      var i :| 0 <= i < Limit(o) - 2 && o.backoffSeconds[i] > 0;
      var run, a := LimitBroken(o, i);
      assert |{0, 1}| == 2;
      assert FixedRunOver(o, run, {0, 1}, endpoints) && !NoTryAbove(o, run, Limit(o));
    }
  }

  /** Some such run makes an attempt. */
  lemma OneTry(o: Options) returns (steps: seq<Step>, a: Attempt)
    requires o.batchSize >= 1
    ensures FixedRunOver(o, steps, {0}, 1) && a in Run(o, steps).log && a.tryNumber == 1
  {
    ClimbStart(o);
    var before := [Ingest(0)];
    var db := Run(o, before);
    var s := FailingPass(db, [0]);
    OneEndpointPass(o, db);
    EveryPairIsDue(o, db, 0);
    steps := before + [s];
    assert steps[..1] == before && before[..0] == [];
    assert FixedRun(o, before, {0}) && FixedStep(o, db, s, {0});
    PatientRunsGoForward(o, steps);
    a := FailedRow(o, db, 0);
    assert StepRows(o, db, s)[0] == a;
  }

  /**
   The documented maximum in such runs, as far as it can be the limit: it is kept exactly if it
   allows a try at all and there is one endpoint or no early wait. With the default options it is
   broken from two endpoints on.
   */
  lemma DocumentedMaximumOverFixedIff(o: Options, endpoints: nat)
    requires o.batchSize >= 1 && endpoints >= 1 && o.maxAttempts <= |o.backoffSeconds| + 1
    ensures (forall steps, eps :: FixedRunOver(o, steps, eps, endpoints) ==> NoTryAbove(o, steps, o.maxAttempts))
       <==> o.maxAttempts >= 1 && (endpoints == 1 || NoEarlyWaits(o))
    ensures o == DEFAULTS ==> (endpoints == 1 || NoEarlyWaits(o) <==> endpoints == 1)
  {
    if o.maxAttempts >= 1 {
      LimitHoldsOverFixedIff(o, endpoints);
      assert Limit(o) == o.maxAttempts;
    } else {
      var run, a := OneTry(o);
      assert FixedRunOver(o, run, {0}, endpoints) && !NoTryAbove(o, run, o.maxAttempts);
    }
    if o == DEFAULTS {
      assert o.backoffSeconds[0] > 0;
    }
  }

  /** A maximum beyond the backoff list is kept in these cases; whether in others depends on the single backoffs. */
  lemma LargeMaximumOverFixed(o: Options, steps: seq<Step>, eps: set<int>, endpoints: nat)
    requires FixedRunOver(o, steps, eps, endpoints) && o.maxAttempts > |o.backoffSeconds| + 1
    requires endpoints == 1 || NoEarlyWaits(o) || MostFixedPasses(o, endpoints) <= o.maxAttempts
    ensures NoTryAbove(o, steps, o.maxAttempts)
  {
    if endpoints == 1 || NoEarlyWaits(o) {
      LimitKept(o, steps, eps);
    } else {
      MoreEndpointsMorePasses(o, |eps|, endpoints);
      forall a | a in Run(o, steps).log ensures a.tryNumber <= o.maxAttempts {
        FixedPassesBound(o, steps, eps, a.eventId);
      }
    }
  }

  lemma MoreEndpointsMorePasses(o: Options, m: nat, n: nat)
    requires m <= n
    ensures MostFixedPasses(o, m) <= MostFixedPasses(o, n)
  {
    if Limit(o) > 1 {
      Scaled(m, n, Limit(o) - 2);
    }
  }
}
