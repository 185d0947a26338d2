/**
 The documentation promises at most `MaxAttempts` tries per event and endpoint. The bound of
 `DeliveryRuns.AttemptBound` is the true one: it is reached by a run for every number of
 endpoints, so the promise holds exactly when `MaxAttempts` is no smaller than that bound. Those
 runs change their endpoints between passes; `DeliveryFixedMaximum` is about runs that do not.
 */
module DeliveryTightness {
  import opened Wrappers
  import opened DeliveryRules
  import opened DeliveryPass
  import opened DeliveryRuns

  const DEFAULTS := Options(50, [60, 300, 900, 3600, 21600], 6)

  /** A date no earlier than any in the log. */
  function Horizon(log: seq<Attempt>): int {
    if log == [] then 0
    else
      var rest := Horizon(log[..|log| - 1]);
      if Last(log).nextAttemptAt.Some? then Max(rest, Last(log).nextAttemptAt.value) else rest
  }

  lemma {:induction false} HorizonCovers(log: seq<Attempt>)
    ensures forall a :: a in log && a.nextAttemptAt.Some? ==> a.nextAttemptAt.value <= Horizon(log)
  {
    if log != [] {
      HorizonCovers(log[..|log| - 1]);
      assert log == log[..|log| - 1] + [Last(log)];
    }
  }

  lemma {:induction false} HorizonGrows(log: seq<Attempt>, more: seq<Attempt>)
    ensures Horizon(log) <= Horizon(log + more)
  {
    if more == [] {
      assert log + more == log;
    } else {
      assert (log + more)[..|log + more| - 1] == log + more[..|more| - 1];
      HorizonGrows(log, more[..|more| - 1]);
    }
  }

  /** A pass in which every send throws, late enough for every pair to be due. */
  function FailingPass(db: Db, order: seq<int>): Step {
    var t := Horizon(db.log);
    Pass(order, seq(|order|, i requires 0 <= i < |order| => Reading(t, t, t, Threw)))
  }

  // ----- the clock of a run -----

  lemma ReadingsSnoc(steps: seq<Step>, s: Step)
    requires s.Pass?
    ensures Readings(steps + [s]) == Readings(steps) + s.readings
  {
    assert (steps + [s])[..|steps|] == steps;
  }

  /** The clock never goes back, and stands at `now` or before it when the run ends. */
  ghost predicate TimedUpTo(rs: seq<Reading>, now: int) {
    && (forall i, j :: 0 <= i < j < |rs| ==> rs[i].scheduledFrom <= rs[j].checkedAt)
    && (forall i :: 0 <= i < |rs| ==> rs[i].scheduledFrom <= now)
  }

  lemma TimeGoesOn(rs: seq<Reading>, more: seq<Reading>, start: int, end: int)
    requires TimedUpTo(rs, start) && TimedUpTo(more, end) && start <= end
    requires forall i :: 0 <= i < |more| ==> start <= more[i].checkedAt
    ensures TimedUpTo(rs + more, end)
  {
  }

  /** Runs of such passes. */
  predicate Patient(o: Options, steps: seq<Step>) {
    steps == []
    || (var before, s := steps[..|steps| - 1], Last(steps);
        Patient(o, before) && (s.Pass? ==> s == FailingPass(Run(o, before), s.order)))
  }

  lemma {:induction false} PatientRunsAreTimed(o: Options, steps: seq<Step>)
    requires Patient(o, steps)
    ensures TimedUpTo(Readings(steps), Horizon(Run(o, steps).log))
  {
    if steps != [] {
      var before, s := steps[..|steps| - 1], Last(steps);
      PatientRunsAreTimed(o, before);
      if s.Pass? {
        var h := Horizon(Run(o, before).log);
        HorizonGrows(Run(o, before).log, StepRows(o, Run(o, before), s));
        TimeGoesOn(Readings(before), s.readings, h, Horizon(Run(o, steps).log));
      }
    }
  }

  lemma PatientRunsGoForward(o: Options, steps: seq<Step>)
    requires Patient(o, steps)
    ensures ForwardClock(steps)
  {
    PatientRunsAreTimed(o, steps);
  }

  function FailedRow(o: Options, db: Db, p: int): Attempt {
    var t := Horizon(db.log);
    RowOf(o, db.log, Visit(0, p, Reading(t, t, t, Threw)))
  }

  /** One event, number 0, still pending, and nothing but failures so far. */
  ghost predicate OneFailingEvent(o: Options, db: Db) {
    && Consistent(o, db)
    && db.status.Keys == {0} && IsPending(db.status[0])
    && forall a :: a in db.log ==> !a.success
  }

  lemma EveryPairIsDue(o: Options, db: Db, p: int)
    requires OneFailingEvent(o, db)
    ensures GetAttemptState(db.log, 0, p, Horizon(db.log)) == (true, |PairLog(db.log, 0, p)| + 1)
  {
    HorizonCovers(db.log);
    LatestIsHighest(db.log, 0, p);
    LawfulPair(o, db.log, 0, p);
  }

  lemma OnlyCandidate(o: Options, db: Db)
    requires OneFailingEvent(o, db) && o.batchSize >= 1
    ensures Candidates(o, db.status) == [0]
  {
    CandidatesAreLowest(o, db.status);
    assert Pending(db.status) == {0};
    assert Candidates(o, db.status)[0] in Pending(db.status);
  }

  lemma OneEndpointPass(o: Options, db: Db)
    requires OneFailingEvent(o, db) && o.batchSize >= 1
    ensures Completes(o, db, FailingPass(db, [0]))
    ensures StepRows(o, db, FailingPass(db, [0])) == [FailedRow(o, db, 0)]
  {
    OnlyCandidate(o, db);
    EveryPairIsDue(o, db, 0);
    var s := FailingPass(db, [0]);
    var v := Visit(0, 0, s.readings[0]);
    assert Cross([0], [0]) == Cross([0][..0], [0]) + Row(0, [0]) == [(0, 0)];
    assert PassVisits(o, db, s.order, s.readings) == [v];
    assert NewRows(o, db.log, [v]) == NewRows(o, db.log, [v][..0]) + [RowOf(o, db.log, v)];
  }

  /** A pass over two endpoints commits a row for each of them that is due. */
  lemma RowsOfTwo(o: Options, db: Db, q: int, r: Reading, r': Reading)
    requires OneFailingEvent(o, db) && o.batchSize >= 1
    ensures
      var v, w := Visit(0, 0, r), Visit(0, q, r');
      && Completes(o, db, Pass([0, q], [r, r']))
      && StepRows(o, db, Pass([0, q], [r, r']))
         == (if IsDue(db.log, v) then [RowOf(o, db.log, v)] else [])
            + if IsDue(db.log, w) then [RowOf(o, db.log, w)] else []
  {
    OnlyCandidate(o, db);
    var v, w := Visit(0, 0, r), Visit(0, q, r');
    assert Cross([0], [0, q]) == Cross([0][..0], [0, q]) + Row(0, [0, q]) == [(0, 0), (0, q)];
    assert PassVisits(o, db, [0, q], [r, r']) == [v, w];
    assert [v, w][..1] == [v] && [v][..0] == [];
    assert NewRows(o, db.log, [v]) == if IsDue(db.log, v) then [RowOf(o, db.log, v)] else [];
    assert NewRows(o, db.log, [v, w])
        == NewRows(o, db.log, [v, w][..1]) + if IsDue(db.log, w) then [RowOf(o, db.log, w)] else [];
  }

  lemma TwoEndpointPass(o: Options, db: Db, q: int)
    requires OneFailingEvent(o, db) && o.batchSize >= 1 && q != 0
    ensures StepRows(o, db, FailingPass(db, [0, q])) == [FailedRow(o, db, 0), FailedRow(o, db, q)]
  {
    EveryPairIsDue(o, db, 0);
    EveryPairIsDue(o, db, q);
    var s := FailingPass(db, [0, q]);
    RowsOfTwo(o, db, q, s.readings[0], s.readings[1]);
    assert s == Pass([0, q], [s.readings[0], s.readings[1]]);
  }

  /** The event goes on failing as long as the last of its rows is below the limit. */
  lemma {:induction false} RowsFail(o: Options, db: Db, s: Step)
    requires OneFailingEvent(o, db) && s.Pass? && s.Valid() && StepRows(o, db, s) != []
    requires forall a :: a in StepRows(o, db, s) ==> !a.success && a.eventId == 0
    requires EventLog(StepRows(o, db, s), 0) == StepRows(o, db, s)
    requires 1 <= Last(StepRows(o, db, s)).tryNumber < Limit(o)
    ensures OneFailingEvent(o, Apply(o, db, s))
  {
    var rows := StepRows(o, db, s);
    PassKeepsConsistent(o, db, s);
    AttemptedEvent(o, db, s, 0);
    ExhaustedFromLimitOn(o, Last(rows).tryNumber);
    RestatusKeys(o, db.status, rows);
  }

  /** Endpoint 0 has been tried `n` times, endpoint `q` `j` times, and no later endpoint at all. */
  ghost predicate Climbed(o: Options, db: Db, n: nat, q: nat, j: nat) {
    && OneFailingEvent(o, db)
    && |PairLog(db.log, 0, 0)| == n
    && |PairLog(db.log, 0, q)| == j
    && (forall r :: r > q ==> PairLog(db.log, 0, r) == [])
    && (forall a :: a in db.log ==> 0 <= a.endpointId <= q)
  }

  ghost predicate Climbing(o: Options, steps: seq<Step>, n: nat, q: nat, j: nat) {
    ValidRun(steps) && Patient(o, steps) && Climbed(o, Run(o, steps), n, q, j)
  }

  function ClimbingPass(db: Db, q: nat): Step {
    FailingPass(db, if q == 0 then [0] else [0, q])
  }

  lemma PartsOfTwo(r: Attempt, s: Attempt)
    requires r.eventId == s.eventId == 0 && r.endpointId != s.endpointId
    ensures EventLog([r, s], 0) == [r, s]
    ensures forall p :: PairLog([r, s], 0, p)
                     == if p == r.endpointId then [r] else if p == s.endpointId then [s] else []
  {
    OneRowLogs(r, 0, 0);
    assert [r, s][..1] == [r];
    forall p
      ensures PairLog([r, s], 0, p) == if p == r.endpointId then [r] else if p == s.endpointId then [s] else []
    {
      OneRowLogs(r, 0, p);
    }
  }

  /** Such a pass tries endpoint 0 and endpoint q once each, q last. */
  lemma ClimbingPassRows(o: Options, db: Db, q: nat)
    requires OneFailingEvent(o, db) && o.batchSize >= 1
    ensures
      var rows := StepRows(o, db, ClimbingPass(db, q));
      && EventLog(rows, 0) == rows && rows != []
      && Last(rows) == FailedRow(o, db, q) && Last(rows).tryNumber == |PairLog(db.log, 0, q)| + 1
      && (forall a :: a in rows ==> !a.success && a.eventId == 0 && (a.endpointId == 0 || a.endpointId == q))
  {
    EveryPairIsDue(o, db, q);
    if q == 0 {
      OneEndpointPass(o, db);
      OneRowLogs(FailedRow(o, db, 0), 0, 0);
    } else {
      TwoEndpointPass(o, db, q);
      PartsOfTwo(FailedRow(o, db, 0), FailedRow(o, db, q));
    }
  }

  lemma ClimbingPassParts(o: Options, db: Db, q: nat, p: int)
    requires OneFailingEvent(o, db) && o.batchSize >= 1
    ensures |PairLog(StepRows(o, db, ClimbingPass(db, q)), 0, p)| == if p == 0 || p == q then 1 else 0
  {
    if q == 0 {
      OneEndpointPass(o, db);
      OneRowLogs(FailedRow(o, db, 0), 0, p);
    } else {
      TwoEndpointPass(o, db, q);
      PartsOfTwo(FailedRow(o, db, 0), FailedRow(o, db, q));
    }
  }

  lemma {:induction false} ClimbingPassFails(o: Options, db: Db, q: nat)
    requires OneFailingEvent(o, db) && o.batchSize >= 1 && |PairLog(db.log, 0, q)| + 1 < Limit(o)
    ensures OneFailingEvent(o, Apply(o, db, ClimbingPass(db, q)))
  {
    ClimbingPassRows(o, db, q);
    RowsFail(o, db, ClimbingPass(db, q));
  }

  /** One more such pass: the event stays Failed as long as the try of endpoint q is below the limit. */
  lemma ClimbOnce(o: Options, db: Db, n: nat, q: nat, j: nat)
    requires Climbed(o, db, n, q, j) && o.batchSize >= 1 && j + 1 < Limit(o)
    ensures Climbed(o, Apply(o, db, ClimbingPass(db, q)), n + 1, q, j + 1)
  {
    var s := ClimbingPass(db, q);
    var rows := StepRows(o, db, s);
    ClimbingPassRows(o, db, q);
    ClimbingPassFails(o, db, q);
    forall p ensures |PairLog(db.log + rows, 0, p)| == |PairLog(db.log, 0, p)| + if p == 0 || p == q then 1 else 0 {
      ClimbingPassParts(o, db, q, p);
      PairLogAppend(db.log, rows, 0, p);
    }
  }

  lemma PatientStep(o: Options, steps: seq<Step>, q: nat) returns (more: seq<Step>)
    requires ValidRun(steps) && Patient(o, steps)
    ensures ValidRun(more) && Patient(o, more)
    ensures Run(o, more) == Apply(o, Run(o, steps), ClimbingPass(Run(o, steps), q))
  {
    var s := ClimbingPass(Run(o, steps), q);
    more := steps + [s];
    assert more[..|steps|] == steps && s.Valid();
  }

  lemma {:induction false} ClimbStep(o: Options, steps: seq<Step>, n: nat, q: nat, j: nat) returns (more: seq<Step>)
    requires Climbing(o, steps, n, q, j) && o.batchSize >= 1 && j + 1 < Limit(o)
    ensures Climbing(o, more, n + 1, q, j + 1)
  {
    ClimbOnce(o, Run(o, steps), n, q, j);
    more := PatientStep(o, steps, q);
  }

  lemma {:induction false} ClimbBlock(o: Options, steps: seq<Step>, n: nat, q: nat, j: nat, k: nat)
    returns (more: seq<Step>)
    requires Climbing(o, steps, n, q, j) && o.batchSize >= 1 && j + k < Limit(o)
    ensures Climbing(o, more, n + k, q, j + k)
    decreases k
  {
    if k == 0 {
      more := steps;
    } else {
      var next := ClimbStep(o, steps, n, q, j);
      more := ClimbBlock(o, next, n + 1, q, j + 1, k - 1);
    }
  }

  lemma ClimbStart(o: Options)
    ensures Climbing(o, [Ingest(0)], 0, 0, 0)
  {
    assert [Ingest(0)][..0] == [];
    IngestKeepsConsistent(o, Db(map[], []), 0);
  }

  lemma NextEndpoint(o: Options, steps: seq<Step>, n: nat, q: nat, j: nat)
    requires Climbing(o, steps, n, q, j)
    ensures Climbing(o, steps, n, q + 1, 0)
  {
  }

  /** With endpoints 0 .. q, all slots below the limit can be used up, endpoint 0 being tried every time. */
  lemma {:induction false} Climb(o: Options, q: nat) returns (steps: seq<Step>, n: nat)
    requires o.batchSize >= 1
    ensures n + 1 == MostPasses(o, q + 1)
    ensures Climbing(o, steps, n, q, Limit(o) - 1)
  {
    if q == 0 {
      ClimbStart(o);
      n := Limit(o) - 1;
      steps := ClimbBlock(o, [Ingest(0)], 0, 0, 0, n);
    } else {
      var lower, m := Climb(o, q - 1);
      NextEndpoint(o, lower, m, q - 1, Limit(o) - 1);
      MostPassesStep(o, q);
      n := m + (Limit(o) - 1);
      steps := ClimbBlock(o, lower, m, q, 0, Limit(o) - 1);
    }
  }

  lemma MostPassesStep(o: Options, q: nat)
    ensures MostPasses(o, q + 1) == MostPasses(o, q) + (Limit(o) - 1)
  {
  }

  lemma LastClimb(o: Options, before: seq<Step>, n: nat, endpoints: nat) returns (steps: seq<Step>, a: Attempt)
    requires o.batchSize >= 1 && endpoints >= 1 && Climbing(o, before, n, endpoints - 1, Limit(o) - 1)
    ensures ValidRun(steps) && Patient(o, steps)
    ensures a in Run(o, steps).log && a.tryNumber == n + 1
    ensures forall b :: b in Run(o, steps).log ==> 0 <= b.endpointId < endpoints
  {
    steps := PatientStep(o, before, 0);
    a := FailedRow(o, Run(o, before), 0);
    TopTry(o, Run(o, before), n, endpoints);
  }

  /** Whatever the options and however many endpoints, some run with a forward clock reaches the bound. */
  lemma BoundIsReached(o: Options, endpoints: nat) returns (steps: seq<Step>, a: Attempt)
    requires o.batchSize >= 1 && endpoints >= 1
    ensures ValidRun(steps) && ForwardClock(steps) && Meets(o, steps, endpoints)
    ensures a in Run(o, steps).log && a.tryNumber == MostPasses(o, endpoints)
  {
    var before, n := Climb(o, endpoints - 1);
    steps, a := LastClimb(o, before, n, endpoints);
    PatientRunsGoForward(o, steps);
    FewEndpoints(Run(o, steps).log, endpoints);
  }

  lemma FewEndpoints(log: seq<Attempt>, endpoints: nat)
    requires forall a :: a in log ==> 0 <= a.endpointId < endpoints
    ensures forall e :: |Met(log, e)| <= endpoints
  {
    forall e ensures |Met(log, e)| <= endpoints {
      LogParts(log, e, 0);
      RangeSize(Met(log, e), endpoints);
    }
  }

  lemma TopTry(o: Options, db: Db, n: nat, endpoints: nat)
    requires o.batchSize >= 1 && endpoints >= 1
    requires Climbed(o, db, n, endpoints - 1, Limit(o) - 1)
    ensures
      var log := Apply(o, db, ClimbingPass(db, 0)).log;
      && FailedRow(o, db, 0) in log && FailedRow(o, db, 0).tryNumber == n + 1
      && forall a :: a in log ==> 0 <= a.endpointId < endpoints
  {
    ClimbingPassRows(o, db, 0);
    assert FailedRow(o, db, 0) in StepRows(o, db, ClimbingPass(db, 0));
  }

  /** No event has met more endpoints than this. */
  ghost predicate Meets(o: Options, steps: seq<Step>, endpoints: nat) {
    forall e :: |Met(Run(o, steps).log, e)| <= endpoints
  }

  lemma {:induction false} RangeSize(s: set<int>, n: nat)
    requires forall x :: x in s ==> 0 <= x < n
    ensures |s| <= n
  {
    if n == 0 {
      Inhabited(s);
    } else {
      RangeSize(s - {n - 1}, n - 1);
    }
  }

  ghost predicate NoTryAbove(o: Options, steps: seq<Step>, m: int) {
    forall a :: a in Run(o, steps).log ==> a.tryNumber <= m
  }

  /** The runs over at most E endpoints in which the clock never goes back. */
  ghost predicate RunOver(o: Options, steps: seq<Step>, endpoints: nat) {
    ValidRun(steps) && ForwardClock(steps) && Meets(o, steps, endpoints)
  }

  /** A cap on tries holds in all these runs exactly when it is at least E * (limit - 1) + 1. */
  lemma CapHoldsIff(o: Options, endpoints: nat, m: int)
    requires o.batchSize >= 1 && endpoints >= 1
    ensures (forall steps :: RunOver(o, steps, endpoints) ==> NoTryAbove(o, steps, m))
       <==> MostPasses(o, endpoints) <= m
  {
    var run, a := BoundIsReached(o, endpoints);
    if MostPasses(o, endpoints) <= m {
      forall steps | RunOver(o, steps, endpoints)
        ensures NoTryAbove(o, steps, m)
      {
        forall a | a in Run(o, steps).log ensures a.tryNumber <= m {
          AttemptBound(o, steps, a.eventId);
          MostPassesMonotone(o, |Met(Run(o, steps).log, a.eventId)|, endpoints);
        }
      }
    } else {
      assert RunOver(o, run, endpoints) && !NoTryAbove(o, run, m);
    }
  }

  /**
   The documented maximum per event and endpoint: `MaxAttempts` caps the tries of every run over
   E endpoints exactly when E * (limit - 1) + 1 <= MaxAttempts. With one endpoint that is every
   positive `MaxAttempts`; with the default options it fails from two endpoints on.
   */
  lemma DocumentedMaximumHoldsIff(o: Options, endpoints: nat)
    requires o.batchSize >= 1 && endpoints >= 1
    ensures (forall steps :: RunOver(o, steps, endpoints) ==> NoTryAbove(o, steps, o.maxAttempts))
       <==> endpoints * (Limit(o) - 1) < o.maxAttempts
    ensures endpoints == 1 ==> (endpoints * (Limit(o) - 1) < o.maxAttempts <==> o.maxAttempts >= 1)
    ensures o == DEFAULTS ==> (endpoints * (Limit(o) - 1) < o.maxAttempts <==> endpoints == 1)
  {
    CapHoldsIff(o, endpoints, o.maxAttempts);
  }
}
