/**
 Passes that list a fixed set of endpoints and run to their end. In a run of such passes the
 first one over an event tries every endpoint, which leaves fewer passes than an arbitrary run
 has; and a timely one tries exactly the endpoints an event has not been delivered to.
 */
module DeliveryFixed {
  import opened Wrappers
  import opened DeliveryRules
  import opened DeliveryPass
  import opened DeliveryRuns

  /** Arrivals are free; a pass lists exactly the endpoints `eps`, in some order, and visits all its pairs. */
  ghost predicate FixedStep(o: Options, db: Db, s: Step, eps: set<int>) {
    s.Pass? ==> (forall p :: p in s.order <==> p in eps) && Completes(o, db, s)
  }

  ghost predicate FixedRun(o: Options, steps: seq<Step>, eps: set<int>) {
    steps != [] ==>
      FixedRun(o, steps[..|steps| - 1], eps) && FixedStep(o, Run(o, steps[..|steps| - 1]), Last(steps), eps)
  }

  lemma {:induction false} OnlyListedEndpoints(o: Options, steps: seq<Step>, eps: set<int>, e: int)
    requires ValidRun(steps) && FixedRun(o, steps, eps)
    ensures Met(Run(o, steps).log, e) <= eps
  {
    if steps != [] {
      var before, s := steps[..|steps| - 1], Last(steps);
      assert steps == before + [s];
      OnlyListedEndpoints(o, before, eps, e);
      var db := Run(o, before);
      var rows := StepRows(o, db, s);
      assert s in steps && s.Valid();
      if s.Pass? {
        PassVisitsFacts(o, db, s.order, s.readings);
        NewRowsMembers(o, db.log, PassVisits(o, db, s.order, s.readings));
        EventLogAppend(db.log, rows, e);
        LogParts(rows, e, 0);
      }
    }
  }

  /** The slots of first tries. */
  function FirstTries(slots: set<(int, int)>): set<(int, int)> {
    set q | q in slots && q.1 == 1
  }

  /** An event that was attempted at all has been sent to every endpoint. */
  ghost predicate AllTried(log: seq<Attempt>, e: int, eps: set<int>) {
    EventLog(log, e) != [] ==> forall p :: p in eps ==> PairLog(log, e, p) != []
  }

  lemma AttemptTriesAll(o: Options, db: Db, s: Step, eps: set<int>, e: int)
    requires Consistent(o, db) && s.Valid() && FixedStep(o, db, s, eps)
    requires EventLog(StepRows(o, db, s), e) != []
    ensures AllTried(Apply(o, db, s).log, e, eps)
  {
    var r := AttemptedPair(o, db, s, e);
    forall p | p in eps ensures PairLog(Apply(o, db, s).log, e, p) != [] {
      var r := VisitAddsRow(o, db, s, e, p);
      AttemptStateMeaning(o, db.log, e, p, r.checkedAt);
    }
  }

  /** Once every endpoint has been tried, no pass ends on a first try. */
  lemma NoSecondFirstTry(o: Options, db: Db, s: Step, eps: set<int>, e: int)
    requires Consistent(o, db) && s.Valid() && FixedStep(o, db, s, eps)
    requires EventLog(StepRows(o, db, s), e) != [] && EventLog(db.log, e) != [] && AllTried(db.log, e, eps)
    ensures FirstTries(SlotTaken(o, db, s, e)) == {}
  {
    var r := AttemptedPair(o, db, s, e);
    EndingAttempt(o, db, s, e);
    assert forall q :: q !in FirstTries(SlotTaken(o, db, s, e));
  }

  lemma FirstTriesAfter(o: Options, db: Db, s: Step, eps: set<int>, e: int, slots: set<(int, int)>)
    requires Consistent(o, db) && s.Valid() && FixedStep(o, db, s, eps)
    requires EventLog(StepRows(o, db, s), e) != [] && AllTried(db.log, e, eps)
    requires SlotsFit(o, db.log, e, slots) && |FirstTries(slots)| <= 1
    ensures |FirstTries(slots + SlotTaken(o, db, s, e))| <= 1
  {
    var taken := SlotTaken(o, db, s, e);
    assert FirstTries(slots + taken) == FirstTries(slots) + FirstTries(taken);
    if EventLog(db.log, e) != [] {
      NoSecondFirstTry(o, db, s, eps, e);
    } else {
      assert forall q :: q !in FirstTries(slots);
      assert FirstTries(slots) == {};
      AtMostOneTaken(taken, FirstTries(taken));
    }
  }

  /** Only the first pass that attempts an event can end on a first try. */
  lemma {:induction false} OneFirstTry(o: Options, steps: seq<Step>, eps: set<int>, e: int)
    requires ValidRun(steps) && FixedRun(o, steps, eps)
    ensures AllTried(Run(o, steps).log, e, eps)
    ensures |FirstTries(Slots(o, steps, e))| <= 1
  {
    if steps == [] {
      assert forall q :: q !in FirstTries(Slots(o, steps, e));
      assert FirstTries(Slots(o, steps, e)) == {};
    } else {
      var before, s := steps[..|steps| - 1], Last(steps);
      assert steps == before + [s];
      OneFirstTry(o, before, eps, e);
      RunIsConsistent(o, before);
      PassesBySlots(o, before, e);
      if EventLog(StepRows(o, Run(o, before), s), e) == [] {
        StepWithoutAttempt(o, Run(o, before), s, e);
        assert Slots(o, steps, e) == Slots(o, before, e);
      } else {
        AttemptTriesAll(o, Run(o, before), s, eps, e);
        FirstTriesAfter(o, Run(o, before), s, eps, e, Slots(o, before, e));
      }
    }
  }

  lemma AtMostOneTaken(taken: set<(int, int)>, part: set<(int, int)>)
    requires part <= taken && |taken| <= 1
    ensures |part| <= 1
  {
    assert taken == part + (taken - part);
  }

  /** E fixed endpoints allow at most this many complete passes to attempt one event. */
  function MostFixedPasses(o: Options, endpoints: nat): nat {
    if Limit(o) == 1 then 1 else endpoints * (Limit(o) - 2) + 2
  }

  lemma SlotsAreFewer(o: Options, eps: set<int>, slots: set<(int, int)>)
    requires forall q :: q in slots ==> q.0 in eps && 1 <= q.1 < Limit(o)
    requires |FirstTries(slots)| <= 1
    ensures |slots| < MostFixedPasses(o, |eps|)
  {
    if Limit(o) == 1 {
      assert forall q :: q !in slots;
      assert slots == {};
    } else {
      var later := slots - FirstTries(slots);
      GridBound(later, eps, 1, Limit(o) - 2);
      assert slots == FirstTries(slots) + later;
    }
  }

  lemma FixedPassesBound(o: Options, steps: seq<Step>, eps: set<int>, e: int)
    requires ValidRun(steps) && FixedRun(o, steps, eps)
    ensures
      var most := MostFixedPasses(o, |eps|);
      && AttemptingPasses(o, steps, e) <= most
      && (!IsTerminal(Run(o, steps), e) ==> AttemptingPasses(o, steps, e) < most)
      && (forall a :: a in Run(o, steps).log && a.eventId == e ==> a.tryNumber <= most)
  {
    PassesBySlots(o, steps, e);
    OneFirstTry(o, steps, eps, e);
    OnlyListedEndpoints(o, steps, eps, e);
    SlotsAreFewer(o, eps, Slots(o, steps, e));
    TriesWithinPasses(o, steps, e);
  }

  /**
   Over E fixed endpoints and complete passes, whenever they come, an event is attempted in at
   most E * (limit - 2) + 2 passes, one fewer while it is still pending, and no try exceeds that.
   */
  lemma FixedAttemptBound(o: Options, steps: seq<Step>, eps: set<int>, e: int)
    requires ValidRun(steps) && FixedRun(o, steps, eps)
    ensures
      var most := if Limit(o) == 1 then 1 else |eps| * (Limit(o) - 2) + 2;
      && AttemptingPasses(o, steps, e) <= most
      && (!IsTerminal(Run(o, steps), e) ==> AttemptingPasses(o, steps, e) < most)
      && (forall a :: a in Run(o, steps).log && a.eventId == e ==> a.tryNumber <= most)
  {
    FixedPassesBound(o, steps, eps, e);
  }

  // ----- timely passes -----

  /** The event has not been delivered to the endpoint. */
  predicate IsOpen(log: seq<Attempt>, e: int, p: int) {
    var pl := PairLog(log, e, p);
    pl == [] || !Last(pl).success
  }

  predicate DateReached(log: seq<Attempt>, e: int, p: int, now: int) {
    var last := Latest(log, e, p);
    last.Some? && last.value.nextAttemptAt.Some? ==> last.value.nextAttemptAt.value <= now
  }

  /** A complete pass over the endpoints `eps` that starts no earlier than the dates event `e` waits for. */
  ghost predicate TimelyFor(o: Options, db: Db, s: Step, eps: set<int>, e: int) {
    && s.Pass? && FixedStep(o, db, s, eps)
    && forall r, p :: r in s.readings && p in eps ==> DateReached(db.log, e, p, r.checkedAt)
  }

  /** An early pair may be passed over, but only an open one is ever due. */
  lemma OnlyOpenPairsAreDue(o: Options, log: seq<Attempt>, e: int, p: int, now: int)
    requires Lawful(o, log)
    ensures GetAttemptState(log, e, p, now).0 ==> IsOpen(log, e, p)
    ensures DateReached(log, e, p, now) ==> (GetAttemptState(log, e, p, now).0 <==> IsOpen(log, e, p))
  {
    LawfulPair(o, log, e, p);
  }

  /** A timely pass gives every open pair of a batched event one attempt, and the others none. */
  lemma TimelyPassTriesOpenPairs(o: Options, db: Db, s: Step, eps: set<int>, e: int, p: int)
    requires Consistent(o, db) && s.Valid() && TimelyFor(o, db, s, eps, e)
    requires e in Candidates(o, db.status) && p in eps
    ensures
      var was, now := PairLog(db.log, e, p), PairLog(Apply(o, db, s).log, e, p);
      if IsOpen(db.log, e, p) then |now| == |was| + 1 else now == was
  {
    var r := VisitAddsRow(o, db, s, e, p);
    OnlyOpenPairsAreDue(o, db.log, e, p, r.checkedAt);
  }

  /** The last attempt of an event in a pass goes to an open pair. */
  lemma LastAttemptIsOpen(o: Options, db: Db, s: Step, e: int)
    requires Consistent(o, db) && s.Valid() && EventLog(StepRows(o, db, s), e) != []
    ensures
      var a := Last(EventLog(StepRows(o, db, s), e));
      && s.Pass? && e in Candidates(o, db.status) && a.endpointId in s.order
      && IsOpen(db.log, e, a.endpointId) && a.tryNumber == |PairLog(db.log, e, a.endpointId)| + 1
  {
    var r := AttemptedPair(o, db, s, e);
    EndingAttempt(o, db, s, e);
    OnlyOpenPairsAreDue(o, db.log, e, Last(EventLog(StepRows(o, db, s), e)).endpointId, r.checkedAt);
  }

  ghost predicate HasOpenPair(log: seq<Attempt>, e: int, eps: set<int>) {
    exists p :: p in eps && IsOpen(log, e, p)
  }

  /** A timely pass attempts a batched event exactly if some listed endpoint has not been delivered to. */
  lemma AttemptedIffOpen(o: Options, db: Db, s: Step, eps: set<int>, e: int)
    requires Consistent(o, db) && s.Valid() && TimelyFor(o, db, s, eps, e)
    requires e in Candidates(o, db.status)
    ensures EventLog(StepRows(o, db, s), e) != [] <==> HasOpenPair(db.log, e, eps)
  {
    if EventLog(StepRows(o, db, s), e) != [] {
      LastAttemptIsOpen(o, db, s, e);
    } else {
      StepWithoutAttempt(o, db, s, e);
      forall p | p in eps ensures !IsOpen(db.log, e, p) {
        TimelyPassTriesOpenPairs(o, db, s, eps, e, p);
      }
    }
  }
}
