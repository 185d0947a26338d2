/**
 Draining: timely passes over a fixed set of endpoints try the open pairs of an event in step,
 so they settle every event that can be settled within a known number of passes, whatever went
 before; and over a whole run they keep the promised maximum of tries.
 */
module DeliveryDrain {
  import opened Wrappers
  import opened DeliveryRules
  import opened DeliveryPass
  import opened DeliveryRuns
  import opened DeliveryFixed
  import opened DeliveryTightness

  /** Arrivals are free; a pass is timely for every pending event. */
  ghost predicate DrainStep(o: Options, db: Db, s: Step, eps: set<int>) {
    && FixedStep(o, db, s, eps)
    && (s.Pass? ==> forall e :: e in Pending(db.status) ==> TimelyFor(o, db, s, eps, e))
  }

  ghost predicate DrainRun(o: Options, db: Db, steps: seq<Step>, eps: set<int>) {
    steps != [] ==>
      && DrainRun(o, db, steps[..|steps| - 1], eps)
      && DrainStep(o, RunFrom(o, db, steps[..|steps| - 1]), Last(steps), eps)
  }

  // ----- timely passes try the open pairs in step -----

  /** The number of steps that attempt an event. */
  function AttemptsFrom(o: Options, db: Db, steps: seq<Step>, e: int): nat {
    if steps == [] then 0
    else
      var before := steps[..|steps| - 1];
      AttemptsFrom(o, db, before, e) + Attempts(o, RunFrom(o, db, before), Last(steps), e)
  }

  /** Every listed pair has gained `n` attempts, or at most that many and the last was a success. */
  ghost predicate InStep(was: seq<Attempt>, log: seq<Attempt>, e: int, eps: set<int>, n: nat) {
    forall p :: p in eps ==>
      && |PairLog(was, e, p)| <= |PairLog(log, e, p)| <= |PairLog(was, e, p)| + n
      && (|PairLog(log, e, p)| < |PairLog(was, e, p)| + n ==> !IsOpen(log, e, p))
  }

  lemma TimelyPassKeepsStep(o: Options, was: seq<Attempt>, db: Db, s: Step, eps: set<int>, e: int, n: nat)
    requires Consistent(o, db) && s.Valid() && TimelyFor(o, db, s, eps, e)
    requires EventLog(StepRows(o, db, s), e) != [] && InStep(was, db.log, e, eps, n)
    ensures InStep(was, Apply(o, db, s).log, e, eps, n + 1)
    ensures
      var a := Last(EventLog(StepRows(o, db, s), e));
      a.endpointId in eps && a.tryNumber == |PairLog(was, e, a.endpointId)| + n + 1
  {
    LastAttemptIsOpen(o, db, s, e);
    forall p | p in eps
      ensures
        var now := Apply(o, db, s).log;
        && |PairLog(was, e, p)| <= |PairLog(now, e, p)| <= |PairLog(was, e, p)| + n + 1
        && (|PairLog(now, e, p)| < |PairLog(was, e, p)| + n + 1 ==> !IsOpen(now, e, p))
    {
      TimelyPassTriesOpenPairs(o, db, s, eps, e, p);
    }
  }

  lemma EndsAtLimit(o: Options, db: Db, s: Step, e: int, n: nat)
    requires s.Valid() && EventLog(StepRows(o, db, s), e) != []
    requires Last(EventLog(StepRows(o, db, s), e)).tryNumber > n
    ensures !IsTerminal(Apply(o, db, s), e) ==> n + 1 < Limit(o)
  {
    AttemptedEvent(o, db, s, e);
    ExhaustedFromLimitOn(o, Last(EventLog(StepRows(o, db, s), e)).tryNumber);
  }

  /** From any database, an event is attempted in at most `limit` timely passes, in fewer while it is pending. */
  lemma {:induction false} TimelyPassesAreFew(o: Options, db: Db, steps: seq<Step>, eps: set<int>, e: int)
    requires Consistent(o, db) && ValidRun(steps) && DrainRun(o, db, steps, eps)
    ensures InStep(db.log, RunFrom(o, db, steps).log, e, eps, AttemptsFrom(o, db, steps, e))
    ensures AttemptsFrom(o, db, steps, e) <= Limit(o)
    ensures !IsTerminal(RunFrom(o, db, steps), e) ==> AttemptsFrom(o, db, steps, e) < Limit(o)
    ensures IsTerminal(db, e) ==> AttemptsFrom(o, db, steps, e) == 0 && IsTerminal(RunFrom(o, db, steps), e)
  {
    if steps != [] {
      var before, s := steps[..|steps| - 1], Last(steps);
      assert steps == before + [s];
      var mid := RunFrom(o, db, before);
      TimelyPassesAreFew(o, db, before, eps, e);
      RunFromIsConsistent(o, db, before);
      if EventLog(StepRows(o, mid, s), e) == [] {
        StepWithoutAttempt(o, mid, s, e);
      } else {
        AttemptedEvent(o, mid, s, e);
        TimelyPassKeepsStep(o, db.log, mid, s, eps, e, AttemptsFrom(o, db, before, e));
        EndsAtLimit(o, mid, s, e, AttemptsFrom(o, db, before, e));
      }
    }
  }

  const NOTHING := Db(map[], [])

  lemma {:induction false} ListedPairsOnly(o: Options, steps: seq<Step>, eps: set<int>)
    requires ValidRun(steps) && DrainRun(o, NOTHING, steps, eps)
    ensures forall a :: a in RunFrom(o, NOTHING, steps).log ==> a.endpointId in eps
  {
    if steps != [] {
      var before, s := steps[..|steps| - 1], Last(steps);
      assert steps == before + [s];
      var db := RunFrom(o, NOTHING, before);
      ListedPairsOnly(o, before, eps);
      assert s in steps && s.Valid();
      if s.Pass? {
        PassVisitsFacts(o, db, s.order, s.readings);
        NewRowsMembers(o, db.log, PassVisits(o, db, s.order, s.readings));
      }
    }
  }

  lemma TryWithinStep(o: Options, log: seq<Attempt>, eps: set<int>, n: nat, a: Attempt)
    requires Lawful(o, log) && a in log && a.endpointId in eps && InStep([], log, a.eventId, eps, n)
    ensures a.tryNumber <= n
  {
    LawfulPair(o, log, a.eventId, a.endpointId);
    InPairLog(log, a.eventId, a.endpointId, a);
  }

  /** So over fixed endpoints and timely passes from the start the documented maximum of tries is kept. */
  lemma TimelyRunsKeepMaximum(o: Options, steps: seq<Step>, eps: set<int>, a: Attempt)
    requires ValidRun(steps) && DrainRun(o, NOTHING, steps, eps) && a in Run(o, steps).log
    ensures a.tryNumber <= Limit(o)
    ensures o.maxAttempts >= 1 ==> a.tryNumber <= o.maxAttempts
  {
    RunContinues(o, [], steps);
    assert [] + steps == steps;
    RunIsConsistent(o, steps);
    TimelyPassesAreFew(o, NOTHING, steps, eps, a.eventId);
    ListedPairsOnly(o, steps, eps);
    TryWithinStep(o, Run(o, steps).log, eps, AttemptsFrom(o, NOTHING, steps, a.eventId), a);
  }

  // ----- every event that can be delivered is within reach -----

  /** Every pending event has a listed endpoint it has not been delivered to. */
  ghost predicate Deliverable(db: Db, eps: set<int>) {
    forall e :: e in Pending(db.status) ==> HasOpenPair(db.log, e, eps)
  }

  lemma {:induction false} StaysDeliverable(o: Options, db: Db, s: Step, eps: set<int>)
    requires Consistent(o, db) && s.Valid() && FixedStep(o, db, s, eps)
    requires Deliverable(db, eps) && (s.Ingest? ==> eps != {})
    ensures Deliverable(Apply(o, db, s), eps)
  {
    forall e | e in Pending(Apply(o, db, s).status) ensures HasOpenPair(Apply(o, db, s).log, e, eps) {
      if s.Ingest? {
        ArrivalIsOpen(o, db, s, eps, e);
      } else {
        PassKeepsOpen(o, db, s, eps, e);
      }
    }
  }

  lemma FirstIsIn(log: seq<Attempt>)
    ensures log == [] || log[0] in log
  {
  }

  lemma ArrivalIsOpen(o: Options, db: Db, s: Step, eps: set<int>, e: int)
    requires Consistent(o, db) && s.Ingest? && eps != {} && Deliverable(db, eps)
    requires e in Pending(Apply(o, db, s).status)
    ensures HasOpenPair(db.log, e, eps)
  {
    if e !in db.status {
      Inhabited(eps);
      var p :| p in eps;
      LogParts(db.log, e, p);
      FirstIsIn(PairLog(db.log, e, p));
      assert IsOpen(db.log, e, p);
    }
  }

  lemma PassKeepsOpen(o: Options, db: Db, s: Step, eps: set<int>, e: int)
    requires Consistent(o, db) && s.Pass? && s.Valid() && FixedStep(o, db, s, eps)
    requires Deliverable(db, eps) && e in Pending(Apply(o, db, s).status)
    ensures HasOpenPair(Apply(o, db, s).log, e, eps)
  {
    var after := Apply(o, db, s);
    PendingShrinks(o, db, s);
    if EventLog(StepRows(o, db, s), e) == [] {
      StepWithoutAttempt(o, db, s, e);
      var p :| p in eps && IsOpen(db.log, e, p);
      assert IsOpen(after.log, e, p);
    } else {
      LastAttemptIsOpen(o, db, s, e);
      AttemptedEvent(o, db, s, e);
      EndingAttempt(o, db, s, e);
      PassKeepsConsistent(o, db, s);
      LastOfEventIsLastOfPair(o, after.log, e);
      assert IsOpen(after.log, e, Last(EventLog(after.log, e)).endpointId);
    }
  }

  // ----- busy passes -----

  /** The number of passes that began while something was pending. */
  function BusyPasses(o: Options, db: Db, steps: seq<Step>): nat {
    if steps == [] then 0
    else
      var before := steps[..|steps| - 1];
      BusyPasses(o, db, before)
      + if Last(steps).Pass? && Pending(RunFrom(o, db, before).status) != {} then 1 else 0
  }

  /** Attempting passes, summed over events. */
  function Total(o: Options, db: Db, steps: seq<Step>, events: seq<int>): nat {
    if events == [] then 0 else AttemptsFrom(o, db, steps, events[0]) + Total(o, db, steps, events[1..])
  }

  /** A busy pass attempts something: the pending event with the lowest id is never out of reach. */
  lemma BusyPassAttempts(o: Options, db: Db, s: Step, eps: set<int>) returns (e: int)
    requires Consistent(o, db) && s.Pass? && s.Valid() && DrainStep(o, db, s, eps)
    requires Pending(db.status) != {} && Deliverable(db, eps) && o.batchSize >= 1
    ensures e in Pending(db.status) && EventLog(StepRows(o, db, s), e) != []
  {
    CandidatesAreLowest(o, db.status);
    e := Candidates(o, db.status)[0];
    assert e in Candidates(o, db.status);
    AttemptedIffOpen(o, db, s, eps, e);
  }

  lemma {:induction false} TotalGrows(o: Options, db: Db, steps: seq<Step>, s: Step, events: seq<int>)
    ensures Total(o, db, steps, events) <= Total(o, db, steps + [s], events)
    ensures forall e :: e in events && EventLog(StepRows(o, RunFrom(o, db, steps), s), e) != []
              ==> Total(o, db, steps, events) < Total(o, db, steps + [s], events)
  {
    assert (steps + [s])[..|steps|] == steps;
    if events != [] {
      TotalGrows(o, db, steps, s, events[1..]);
      assert events == [events[0]] + events[1..];
    }
  }

  lemma StatusGrows(o: Options, db: Db, s: Step)
    requires s.Valid()
    ensures db.status.Keys <= Apply(o, db, s).status.Keys
    ensures s.Pass? ==> db.status.Keys == Apply(o, db, s).status.Keys
  {
    if s.Pass? {
      RowsOfPending(o, db, s);
      RestatusKeys(o, db.status, StepRows(o, db, s));
    }
  }

  /** The events of a run that were not settled before it: those pending at its start and its arrivals. */
  function Unsettled(o: Options, db: Db, steps: seq<Step>): set<int> {
    set e | e in RunFrom(o, db, steps).status && !IsTerminal(db, e)
  }

  ghost predicate ArrivalsWelcome(steps: seq<Step>, eps: set<int>) {
    forall s :: s in steps && s.Ingest? ==> eps != {}
  }

  /** Every busy pass uses up at least one unit of the total. */
  lemma {:induction false} BusyPassesAreCounted(o: Options, db: Db, steps: seq<Step>, eps: set<int>, events: seq<int>)
    requires Consistent(o, db) && ValidRun(steps) && DrainRun(o, db, steps, eps)
    requires Deliverable(db, eps) && ArrivalsWelcome(steps, eps) && o.batchSize >= 1
    requires forall e :: e in Unsettled(o, db, steps) ==> e in events
    ensures BusyPasses(o, db, steps) <= Total(o, db, steps, events)
    ensures Deliverable(RunFrom(o, db, steps), eps)
  {
    if steps != [] {
      var before, s := steps[..|steps| - 1], Last(steps);
      assert steps == before + [s];
      var mid := RunFrom(o, db, before);
      StatusGrows(o, mid, s);
      BusyPassesAreCounted(o, db, before, eps, events);
      RunFromIsConsistent(o, db, before);
      StaysDeliverable(o, mid, s, eps);
      TotalGrows(o, db, before, s, events);
      if s.Pass? && Pending(mid.status) != {} {
        var e := BusyPassAttempts(o, mid, s, eps);
        TimelyPassesAreFew(o, db, before, eps, e);
        assert e in Unsettled(o, db, steps);
      }
    }
  }

  lemma {:induction false} TotalBound(o: Options, db: Db, steps: seq<Step>, events: seq<int>, bound: nat)
    requires forall e :: e in events ==> AttemptsFrom(o, db, steps, e) <= bound
    ensures Total(o, db, steps, events) <= |events| * bound
    ensures forall e :: e in events && AttemptsFrom(o, db, steps, e) < bound
              ==> Total(o, db, steps, events) < |events| * bound
  {
    if events != [] {
      var rest := events[1..];
      assert events == [events[0]] + rest;
      TotalBound(o, db, steps, rest, bound);
      OneMore(|rest|, bound);
    }
  }

  /** The budget of timely passes, and what an event that is still pending proves about it. */
  lemma {:induction false} BusyPassesBound(o: Options, db: Db, steps: seq<Step>, eps: set<int>)
    requires Consistent(o, db) && ValidRun(steps) && DrainRun(o, db, steps, eps)
    requires Deliverable(db, eps) && ArrivalsWelcome(steps, eps) && o.batchSize >= 1
    ensures
      var budget := |Unsettled(o, db, steps)| * Limit(o);
      && BusyPasses(o, db, steps) <= budget
      && (Pending(RunFrom(o, db, steps).status) != {} ==> BusyPasses(o, db, steps) < budget)
  {
    var after := RunFrom(o, db, steps);
    var events := Ascending(Unsettled(o, db, steps));
    AscendingLists(Unsettled(o, db, steps));
    BusyPassesAreCounted(o, db, steps, eps, events);
    forall e
      ensures AttemptsFrom(o, db, steps, e) <= Limit(o)
      ensures !IsTerminal(after, e) ==> AttemptsFrom(o, db, steps, e) < Limit(o) && !IsTerminal(db, e)
    {
      TimelyPassesAreFew(o, db, steps, eps, e);
    }
    TotalBound(o, db, steps, events, Limit(o));
    if Pending(after.status) != {} {
      Inhabited(Pending(after.status));
      var e :| e in Pending(after.status);
      assert e in events && !IsTerminal(after, e);
    }
  }

  // ----- the passes without arrivals -----

  ghost predicate OnlyPasses(steps: seq<Step>) {
    ValidRun(steps) && forall s :: s in steps ==> s.Pass?
  }

  /** Passes alone never make anything pending, and what is pending now was so all the time. */
  lemma {:induction false} PendingOnlyShrinks(o: Options, db: Db, passes: seq<Step>)
    requires OnlyPasses(passes)
    ensures Pending(RunFrom(o, db, passes).status) <= Pending(db.status)
    ensures RunFrom(o, db, passes).status.Keys == db.status.Keys
    ensures Pending(RunFrom(o, db, passes).status) != {} ==> BusyPasses(o, db, passes) == |passes|
  {
    if passes != [] {
      var before, s := passes[..|passes| - 1], Last(passes);
      assert passes == before + [s];
      PendingOnlyShrinks(o, db, before);
      PendingShrinks(o, RunFrom(o, db, before), s);
      StatusGrows(o, RunFrom(o, db, before), s);
      Inhabited(Pending(RunFrom(o, db, passes).status));
    }
  }

  /** A closed event is never attempted again as long as only these endpoints are listed. */
  lemma ClosedEventIsLeftAlone(o: Options, db: Db, s: Step, eps: set<int>, e: int)
    requires Consistent(o, db) && s.Pass? && s.Valid() && (forall p :: p in s.order ==> p in eps)
    requires !HasOpenPair(db.log, e, eps)
    ensures EventLog(StepRows(o, db, s), e) == []
  {
    if EventLog(StepRows(o, db, s), e) != [] {
      LastAttemptIsOpen(o, db, s, e);
    }
  }

  ghost predicate WithinEndpoints(steps: seq<Step>, eps: set<int>) {
    forall s :: s in steps && s.Pass? ==> forall p :: p in s.order ==> p in eps
  }

  lemma {:induction false} ClosedEventStays(o: Options, db: Db, passes: seq<Step>, eps: set<int>, e: int)
    requires Consistent(o, db) && OnlyPasses(passes) && WithinEndpoints(passes, eps)
    requires e in Pending(db.status) && !HasOpenPair(db.log, e, eps)
    ensures e in Pending(RunFrom(o, db, passes).status)
    ensures forall p :: PairLog(RunFrom(o, db, passes).log, e, p) == PairLog(db.log, e, p)
  {
    if passes != [] {
      var before, s := passes[..|passes| - 1], Last(passes);
      assert passes == before + [s];
      ClosedEventStays(o, db, before, eps, e);
      RunFromIsConsistent(o, db, before);
      assert forall p :: IsOpen(RunFrom(o, db, before).log, e, p) == IsOpen(db.log, e, p);
      ClosedEventIsLeftAlone(o, RunFrom(o, db, before), s, eps, e);
      StepWithoutAttempt(o, RunFrom(o, db, before), s, e);
    }
  }

  /** Every event is dispatched or dead-lettered. */
  ghost predicate Settled(db: Db) {
    forall e :: e in db.status ==> db.status[e].Dispatched? || db.status[e].DeadLetter?
  }

  lemma SettledMeansNothingPending(db: Db)
    ensures Settled(db) <==> Pending(db.status) == {}
  {
    if Settled(db) {
      assert forall e :: e !in Pending(db.status);
    } else {
      var e :| e in db.status && !db.status[e].Dispatched? && !db.status[e].DeadLetter?;
      assert e in Pending(db.status);
    }
  }

  lemma {:induction false} DrainedRunsStayWithin(o: Options, db: Db, steps: seq<Step>, eps: set<int>)
    requires DrainRun(o, db, steps, eps)
    ensures WithinEndpoints(steps, eps)
  {
    if steps != [] {
      DrainedRunsStayWithin(o, db, steps[..|steps| - 1], eps);
      assert steps == steps[..|steps| - 1] + [Last(steps)];
    }
  }

  /**
   From any database with N pending events, whatever passes led to it, N * limit timely passes
   leave every event dispatched or dead-lettered exactly if every pending event had a listed
   endpoint it was not delivered to; the number of endpoints does not matter.
   */
  lemma {:induction false} Draining(o: Options, db: Db, passes: seq<Step>, eps: set<int>)
    requires Consistent(o, db) && OnlyPasses(passes) && DrainRun(o, db, passes, eps) && o.batchSize >= 1
    requires |passes| >= |Pending(db.status)| * Limit(o)
    ensures Settled(RunFrom(o, db, passes)) <==> Deliverable(db, eps)
  {
    var after := RunFrom(o, db, passes);
    SettledMeansNothingPending(after);
    PendingOnlyShrinks(o, db, passes);
    if Deliverable(db, eps) {
      assert Unsettled(o, db, passes) == Pending(db.status);
      BusyPassesBound(o, db, passes, eps);
    } else {
      var e :| e in Pending(db.status) && !HasOpenPair(db.log, e, eps);
      DrainedRunsStayWithin(o, db, passes, eps);
      ClosedEventStays(o, db, passes, eps, e);
    }
  }

  // ----- timely passes are always possible -----

  /** From any database a timely pass can be made, whatever comes back. */
  lemma TimelyPassExists(o: Options, db: Db, order: seq<int>, outcome: nat -> Outcome)
    requires Distinct(order)
    ensures
      var s := PassAllAt(o, db, order, Horizon(db.log), outcome);
      s.Pass? && s.Valid() && DrainStep(o, db, s, Listed(order))
  {
    var s := PassAllAt(o, db, order, Horizon(db.log), outcome);
    PassAllCompletes(o, db, order, Horizon(db.log), outcome);
    HorizonCovers(db.log);
    forall e, p, r | r in s.readings ensures DateReached(db.log, e, p, r.checkedAt) {
      LatestIsHighest(db.log, e, p);
    }
  }

  /** So any number of them, and with enough of them every deliverable database can be settled. */
  lemma {:induction false} TimelyRunExists(o: Options, db: Db, order: seq<int>, outcome: nat -> Outcome, n: nat)
    returns (passes: seq<Step>)
    requires Distinct(order)
    ensures |passes| == n && OnlyPasses(passes) && DrainRun(o, db, passes, Listed(order))
  {
    if n == 0 {
      passes := [];
    } else {
      var before := TimelyRunExists(o, db, order, outcome, n - 1);
      var s := PassAllAt(o, RunFrom(o, db, before), order, Horizon(RunFrom(o, db, before).log), outcome);
      TimelyPassExists(o, RunFrom(o, db, before), order, outcome);
      passes := before + [s];
      assert passes[..n - 1] == before;
    }
  }

  lemma CanBeSettledIff(o: Options, db: Db, order: seq<int>, outcome: nat -> Outcome) returns (passes: seq<Step>)
    requires Consistent(o, db) && Distinct(order) && o.batchSize >= 1
    ensures OnlyPasses(passes) && DrainRun(o, db, passes, Listed(order))
    ensures |passes| == |Pending(db.status)| * Limit(o)
    ensures Settled(RunFrom(o, db, passes)) <==> Deliverable(db, Listed(order))
  {
    passes := TimelyRunExists(o, db, order, outcome, |Pending(db.status)| * Limit(o));
    Draining(o, db, passes, Listed(order));
  }
}
