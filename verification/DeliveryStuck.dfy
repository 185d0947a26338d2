/**
 What the worker cannot settle. An event that has been delivered to every endpoint that is still
 active, but not to one that no longer is, stays Failed; enough such events with low ids fill the
 batch, and then no other event is ever attempted.
 */
module DeliveryStuck {
  import opened Wrappers
  import opened DeliveryRules
  import opened DeliveryPass
  import opened DeliveryRuns
  import opened DeliveryFixed
  import opened DeliveryDrain
  import opened DeliveryTightness

  ghost predicate ClosedBatch(o: Options, db: Db, eps: set<int>) {
    forall e :: e in Candidates(o, db.status) ==> !HasOpenPair(db.log, e, eps)
  }

  /** A pass over such a batch changes nothing, whatever its order, its instants and its end. */
  lemma ClosedBatchIsIdle(o: Options, db: Db, s: Step, eps: set<int>)
    requires Consistent(o, db) && s.Pass? && s.Valid() && (forall p :: p in s.order ==> p in eps)
    requires ClosedBatch(o, db, eps)
    ensures StepRows(o, db, s) == [] && Apply(o, db, s) == db
  {
    var rows := StepRows(o, db, s);
    if rows != [] {
      var e := rows[0].eventId;
      LogParts(rows, e, 0);
      assert rows[0] in EventLog(rows, e);
      LastAttemptIsOpen(o, db, s, e);
    }
    assert db.log + [] == db.log;
  }

  /** A timely pass attempts nothing exactly if the whole batch is closed. */
  lemma TimelyPassIsIdleIff(o: Options, db: Db, s: Step, eps: set<int>)
    requires Consistent(o, db) && s.Pass? && s.Valid() && DrainStep(o, db, s, eps)
    ensures StepRows(o, db, s) == [] <==> ClosedBatch(o, db, eps)
  {
    CandidatesAreLowest(o, db.status);
    if ClosedBatch(o, db, eps) {
      ClosedBatchIsIdle(o, db, s, eps);
    } else {
      var e :| e in Candidates(o, db.status) && HasOpenPair(db.log, e, eps);
      AttemptedIffOpen(o, db, s, eps, e);
    }
  }

  /** With a closed batch nothing is ever attempted again, neither the batch nor the events behind it. */
  lemma {:induction false} ClosedBatchStarves(o: Options, db: Db, passes: seq<Step>, eps: set<int>)
    requires Consistent(o, db) && OnlyPasses(passes) && WithinEndpoints(passes, eps) && ClosedBatch(o, db, eps)
    ensures RunFrom(o, db, passes) == db
  {
    if passes != [] {
      var before, s := passes[..|passes| - 1], Last(passes);
      assert passes == before + [s];
      ClosedBatchStarves(o, db, before, eps);
      ClosedBatchIsIdle(o, db, s, eps);
    }
  }

  /** Event 0 is delivered to endpoint 0 and then fails at endpoint 1. */
  const HALF_DELIVERED := Pass([0, 1], [Reading(0, 0, 0, Responded(200)), Reading(0, 0, 0, Threw)])

  lemma HalfDeliveredRows(o: Options, start: Db) returns (a: Attempt, b: Attempt)
    requires OneFailingEvent(o, start) && start == Db(map[0 := New], []) && o.batchSize >= 1
    ensures StepRows(o, start, HALF_DELIVERED) == [a, b]
    ensures IsFor(a, 0, 0) && a.success && IsFor(b, 0, 1) && !b.success && b.tryNumber == 1
  {
    RowsOfTwo(o, start, 1, HALF_DELIVERED.readings[0], HALF_DELIVERED.readings[1]);
    a := Attempt(0, 0, 1, 0, Some(200), true, None);
    b := Attempt(0, 1, 1, 0, None, false, ComputeNextAttemptAt(o, 1, 0));
  }

  lemma HalfDelivered(o: Options) returns (db: Db)
    requires o.batchSize >= 1 && Limit(o) > 1
    ensures db == Run(o, [Ingest(0), HALF_DELIVERED])
    ensures db.status == map[0 := Failed] && !HasOpenPair(db.log, 0, {0})
  {
    ClimbStart(o);
    assert [Ingest(0), HALF_DELIVERED][..1] == [Ingest(0)];
    var start := Run(o, [Ingest(0)]);
    db := Apply(o, start, HALF_DELIVERED);
    EveryPairIsNew(o, start);
    var a, b := HalfDeliveredRows(o, start);
    PartsOfTwo(a, b);
    PairLogAppend(start.log, [a, b], 0, 0);
    HalfDeliveredStatus(o, start, b);
  }

  lemma HalfDeliveredStatus(o: Options, start: Db, b: Attempt)
    requires start.status == map[0 := New] && Limit(o) > 1
    requires EventLog(StepRows(o, start, HALF_DELIVERED), 0) != []
    requires Last(EventLog(StepRows(o, start, HALF_DELIVERED), 0)) == b && !b.success && b.tryNumber == 1
    ensures Apply(o, start, HALF_DELIVERED).status == map[0 := Failed]
  {
    AttemptedEvent(o, start, HALF_DELIVERED, 0);
    ExhaustedFromLimitOn(o, 1);
    RowsOfPending(o, start, HALF_DELIVERED);
    RestatusKeys(o, start.status, StepRows(o, start, HALF_DELIVERED));
  }

  lemma EveryPairIsNew(o: Options, db: Db)
    requires db == Run(o, [Ingest(0)])
    ensures db == Db(map[0 := New], [])
  {
    assert [Ingest(0)][..0] == [];
  }

  /**
   A reachable database in which a batch of one starves the rest: event 0 has been delivered to
   endpoint 0 and has failed at endpoint 1, which is then deactivated; event 1 arrives and is
   never attempted, however many passes over the remaining endpoint follow.
   */
  lemma StarvingRun(o: Options) returns (steps: seq<Step>)
    requires o.batchSize == 1 && Limit(o) > 1
    ensures ValidRun(steps) && ForwardClock(steps)
    ensures Run(o, steps).status == map[0 := Failed, 1 := New]
    ensures forall passes :: OnlyPasses(passes) && WithinEndpoints(passes, {0})
              ==> Run(o, steps + passes) == Run(o, steps)
  {
    steps := [Ingest(0), HALF_DELIVERED, Ingest(1)];
    assert steps[..2] == [Ingest(0), HALF_DELIVERED];
    var half := HalfDelivered(o);
    var db := Run(o, steps);
    RunIsConsistent(o, steps);
    OneCandidate(o, db);
    ReadingsOfOnePass(steps);
    forall passes | OnlyPasses(passes) && WithinEndpoints(passes, {0})
      ensures Run(o, steps + passes) == db
    {
      RunContinues(o, steps, passes);
      ClosedBatchStarves(o, db, passes, {0});
    }
  }

  lemma OneCandidate(o: Options, db: Db)
    requires o.batchSize == 1 && db.status == map[0 := Failed, 1 := New]
    ensures Candidates(o, db.status) == [0]
  {
    CandidatesAreLowest(o, db.status);
    assert Pending(db.status) == {0, 1};
    assert Candidates(o, db.status)[0] in Candidates(o, db.status);
  }

  lemma ReadingsOfOnePass(steps: seq<Step>)
    requires steps == [Ingest(0), HALF_DELIVERED, Ingest(1)]
    ensures ForwardClock(steps)
  {
    assert steps[..2] == [Ingest(0)] + [HALF_DELIVERED] && [Ingest(0)][..0] == [];
    ReadingsSnoc([Ingest(0)], HALF_DELIVERED);
    assert Readings(steps) == Readings(steps[..2]) + [] == HALF_DELIVERED.readings;
  }
}
