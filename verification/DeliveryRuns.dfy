/**
 Whole runs of one worker: events arrive, passes follow each other, and any pass may be cut
 short. The endpoints of each pass, their order, the clock and every outcome are arbitrary.
 */
module DeliveryRuns {
  import opened Wrappers
  import opened DeliveryRules
  import opened DeliveryPass

  datatype Step = Ingest(eventId: int) | Pass(order: seq<int>, readings: seq<Reading>) {
    ghost predicate Valid() {
      Pass? ==> Distinct(order) && forall r :: r in readings ==> r.InOrder()
    }
  }

  function Apply(o: Options, db: Db, s: Step): Db {
    match s
    case Ingest(e) => if e in db.status then db else Db(db.status[e := New], db.log)
    case Pass(order, readings) => AfterPass(o, db, order, readings)
  }

  function Run(o: Options, steps: seq<Step>): Db {
    if steps == [] then Db(map[], []) else Apply(o, Run(o, steps[..|steps| - 1]), Last(steps))
  }

  /** The same from any database. */
  function RunFrom(o: Options, db: Db, steps: seq<Step>): Db {
    if steps == [] then db else Apply(o, RunFrom(o, db, steps[..|steps| - 1]), Last(steps))
  }

  lemma {:induction false} RunContinues(o: Options, before: seq<Step>, steps: seq<Step>)
    ensures Run(o, before + steps) == RunFrom(o, Run(o, before), steps)
  {
    if steps == [] {
      assert before + steps == before;
    } else {
      assert (before + steps)[..|before + steps| - 1] == before + steps[..|steps| - 1];
      RunContinues(o, before, steps[..|steps| - 1]);
    }
  }

  ghost predicate ValidRun(steps: seq<Step>) {
    forall s :: s in steps ==> s.Valid()
  }

  /** The attempts a step commits. */
  function StepRows(o: Options, db: Db, s: Step): seq<Attempt> {
    match s
    case Ingest(_) => []
    case Pass(order, readings) => PassRows(o, db, order, readings)
  }

  /** The pass visits all its pairs: no exception cuts it short. */
  predicate Completes(o: Options, db: Db, s: Step)
    requires s.Pass?
  {
    |Cross(Candidates(o, db.status), s.order)| <= |s.readings|
  }

  /** A complete pass over `order` during which the clock stands at `t`; what comes back is given by `outcome`. */
  function PassAllAt(o: Options, db: Db, order: seq<int>, t: int, outcome: nat -> Outcome): Step {
    var n := |Cross(Candidates(o, db.status), order)|;
    Pass(order, seq(n, i requires 0 <= i < n => Reading(t, t, t, outcome(i))))
  }

  lemma PassAllCompletes(o: Options, db: Db, order: seq<int>, t: int, outcome: nat -> Outcome)
    requires Distinct(order)
    ensures
      var s := PassAllAt(o, db, order, t, outcome);
      && s.Valid() && Completes(o, db, s)
      && forall r :: r in s.readings ==> r.checkedAt == r.sentAt == r.scheduledFrom == t
  {
  }

  function Listed(order: seq<int>): set<int> {
    set p | p in order
  }

  /** All clock readings of a run, in order. */
  function Readings(steps: seq<Step>): seq<Reading> {
    if steps == [] then []
    else Readings(steps[..|steps| - 1]) + if Last(steps).Pass? then Last(steps).readings else []
  }

  /** Together with `ValidRun`, which orders the instants within each reading: the clock never goes back. */
  ghost predicate ForwardClock(steps: seq<Step>) {
    var rs := Readings(steps);
    forall i, j :: 0 <= i < j < |rs| ==> rs[i].scheduledFrom <= rs[j].checkedAt
  }

  /** An arrival adds a New event unless the id is known, and changes nothing else. */
  lemma ArrivalAdds(o: Options, db: Db, e: int)
    ensures
      var after := Apply(o, db, Ingest(e));
      && after.log == db.log && after.status.Keys == db.status.Keys + {e}
      && (forall f :: f in db.status ==> after.status[f] == db.status[f])
      && (e !in db.status ==> after.status[e] == New)
  {
  }

  // ----- status agrees with the log -----

  /** What the status of an event has to be, given its attempts in commit order. */
  function StatusFromLog(o: Options, el: seq<Attempt>): Status {
    if el == [] then New else Verdict(o, Last(el))
  }

  ghost predicate Consistent(o: Options, db: Db) {
    && Lawful(o, db.log)
    && (forall a :: a in db.log ==> a.eventId in db.status)
    && (forall e :: e in db.status ==> db.status[e] == StatusFromLog(o, EventLog(db.log, e)))
  }

  lemma {:induction false} NewRowsAreLawful(o: Options, log: seq<Attempt>, vs: seq<Visit>)
    requires Lawful(o, log) && DistinctPairs(vs)
    requires forall v :: v in vs ==> v.reading.InOrder()
    ensures Lawful(o, log + NewRows(o, log, vs))
  {
    if vs == [] {
      assert log + NewRows(o, log, vs) == log;
    } else {
      var n := |vs| - 1;
      NewRowsAreLawful(o, log, vs[..n]);
      LiveLogAgrees(o, log, vs, n);
      NextRows(o, log, vs, n);
      assert vs[..n + 1] == vs;
      NextRowIsLawful(o, log, NewRows(o, log, vs[..n]), vs[n]);
    }
  }

  lemma NextRowIsLawful(o: Options, log: seq<Attempt>, rows: seq<Attempt>, v: Visit)
    requires Lawful(o, log + rows) && v.reading.InOrder()
    requires Latest(log + rows, v.eventId, v.endpointId) == Latest(log, v.eventId, v.endpointId)
    ensures Lawful(o, log + (rows + if IsDue(log, v) then [RowOf(o, log, v)] else []))
  {
    if IsDue(log, v) {
      NewAttemptIsLawful(o, log + rows, v.eventId, v.endpointId, v.reading);
      LawfulSnoc(o, log + rows, RowOf(o, log, v));
      assert log + (rows + [RowOf(o, log, v)]) == log + rows + [RowOf(o, log, v)];
    } else {
      assert log + (rows + []) == log + rows;
    }
  }

  lemma RowsKeepConsistent(o: Options, db: Db, rows: seq<Attempt>)
    requires Consistent(o, db) && Lawful(o, db.log + rows)
    requires forall a :: a in rows ==> a.eventId in db.status
    ensures Consistent(o, Db(Restatus(o, db.status, rows), db.log + rows))
  {
    RestatusKeys(o, db.status, rows);
    forall e | e in db.status
      ensures Restatus(o, db.status, rows)[e] == StatusFromLog(o, EventLog(db.log + rows, e))
    {
      RestatusOf(o, db.status, rows, e);
      EventLogAppend(db.log, rows, e);
    }
  }

  /** Every row of a pass belongs to an event that was pending when the pass began. */
  lemma RowsOfPending(o: Options, db: Db, s: Step)
    requires s.Valid()
    ensures forall a :: a in StepRows(o, db, s) ==> a.eventId in Pending(db.status)
  {
    if s.Pass? {
      PassVisitsFacts(o, db, s.order, s.readings);
      NewRowsMembers(o, db.log, PassVisits(o, db, s.order, s.readings));
    }
  }

  lemma PassKeepsConsistent(o: Options, db: Db, s: Step)
    requires Consistent(o, db) && s.Pass? && s.Valid()
    ensures Consistent(o, Apply(o, db, s))
  {
    PassVisitsFacts(o, db, s.order, s.readings);
    NewRowsAreLawful(o, db.log, PassVisits(o, db, s.order, s.readings));
    RowsOfPending(o, db, s);
    RowsKeepConsistent(o, db, StepRows(o, db, s));
  }

  lemma IngestKeepsConsistent(o: Options, db: Db, e: int)
    requires Consistent(o, db)
    ensures Consistent(o, Apply(o, db, Ingest(e)))
  {
    LogParts(db.log, e, 0);
    if e !in db.status && EventLog(db.log, e) != [] {
      assert EventLog(db.log, e)[0] in EventLog(db.log, e);
    }
  }

  lemma {:induction false} RunIsConsistent(o: Options, steps: seq<Step>)
    requires ValidRun(steps)
    ensures Consistent(o, Run(o, steps))
  {
    if steps != [] {
      var before, s := steps[..|steps| - 1], Last(steps);
      assert steps == before + [s];
      RunIsConsistent(o, before);
      match s
      case Ingest(e) => IngestKeepsConsistent(o, Run(o, before), e);
      case Pass(_, _) => PassKeepsConsistent(o, Run(o, before), s);
    }
  }

  lemma {:induction false} RunFromIsConsistent(o: Options, db: Db, steps: seq<Step>)
    requires Consistent(o, db) && ValidRun(steps)
    ensures Consistent(o, RunFrom(o, db, steps))
  {
    if steps != [] {
      var before, s := steps[..|steps| - 1], Last(steps);
      assert steps == before + [s];
      RunFromIsConsistent(o, db, before);
      match s
      case Ingest(e) => IngestKeepsConsistent(o, RunFrom(o, db, before), e);
      case Pass(_, _) => PassKeepsConsistent(o, RunFrom(o, db, before), s);
    }
  }

  /** In every reachable state the last committed attempt of an event decides its status. */
  lemma StatusAgreesWithLog(o: Options, steps: seq<Step>, e: int)
    requires ValidRun(steps) && e in Run(o, steps).status
    ensures
      var db := Run(o, steps);
      var el := EventLog(db.log, e);
      && (db.status[e].New? <==> el == [])
      && (db.status[e].Dispatched? <==> el != [] && Last(el).success)
      && (db.status[e].DeadLetter? <==>
            el != [] && !Last(el).success
            && (Last(el).tryNumber > |o.backoffSeconds| || Last(el).tryNumber >= o.maxAttempts))
      && (db.status[e].Failed? <==>
            el != [] && !Last(el).success
            && Last(el).tryNumber <= |o.backoffSeconds| && Last(el).tryNumber < o.maxAttempts)
  {
    RunIsConsistent(o, steps);
    var db := Run(o, steps);
    var el := EventLog(db.log, e);
    if el != [] {
      var a := Last(el);
      LastOfEventIsLastOfPair(o, db.log, e);
      LawfulPair(o, db.log, e, a.endpointId);
      ExhaustedFromLimitOn(o, a.tryNumber);
    }
  }

  /**
   In every run the attempts of a pair are tries 1, 2, 3, ..., only the last can be a success, and
   attempt i + 1 is sent no earlier than its own backoff after attempt i, and the first i backoffs
   after attempt 1.
   */
  lemma PairOverWholeRun(o: Options, steps: seq<Step>, e: int, p: int)
    requires ValidRun(steps)
    ensures
      var pl := PairLog(Run(o, steps).log, e, p);
      && (forall i :: 0 <= i < |pl| ==> pl[i].tryNumber == i + 1)
      && (forall i :: 0 <= i < |pl| && pl[i].success ==> i == |pl| - 1)
      && (forall i :: 0 < i < |pl| && i <= |o.backoffSeconds| ==>
            pl[i].sentAt - pl[i - 1].sentAt >= o.backoffSeconds[i - 1] * 10_000_000)
      && (forall i :: 0 <= i < |pl| && i <= |o.backoffSeconds| ==> pl[i].sentAt - pl[0].sentAt >= BackoffSum(o, i))
  {
    RunIsConsistent(o, steps);
    var log := Run(o, steps).log;
    LawfulPair(o, log, e, p);
    LawfulGaps(o, log, e, p);
    forall i | 0 <= i < |PairLog(log, e, p)| && i <= |o.backoffSeconds|
      ensures PairLog(log, e, p)[i].sentAt - PairLog(log, e, p)[0].sentAt >= BackoffSum(o, i)
    {
      BackoffOverWholeLog(o, log, e, p, i);
    }
  }

  lemma {:induction false} LastOfEventIsLastOfPair(o: Options, log: seq<Attempt>, e: int)
    requires Lawful(o, log) && EventLog(log, e) != []
    ensures
      var a := Last(EventLog(log, e));
      var pl := PairLog(log, e, a.endpointId);
      && a in log && a.eventId == e
      && pl != [] && Last(pl) == a && a.tryNumber == |pl|
  {
    var before := log[..|log| - 1];
    assert log == before + [Last(log)];
    if Last(log).eventId == e {
      LawfulPair(o, log, e, Last(log).endpointId);
    } else {
      LastOfEventIsLastOfPair(o, before, e);
    }
  }

  // ----- what one step does to one event -----

  /** The endpoints an event has been sent to. */
  function Met(log: seq<Attempt>, e: int): set<int> {
    set a | a in EventLog(log, e) :: a.endpointId
  }

  predicate IsTerminal(db: Db, e: int) {
    e in db.status && !IsPending(db.status[e])
  }

  /** A step gives a pair at most one attempt and takes none away. */
  lemma PairGains(o: Options, db: Db, s: Step, e: int, p: int)
    requires s.Valid()
    ensures PairLog(Apply(o, db, s).log, e, p) == PairLog(db.log, e, p) + PairLog(StepRows(o, db, s), e, p)
    ensures |PairLog(StepRows(o, db, s), e, p)| <= 1
  {
    if s.Pass? {
      PassVisitsFacts(o, db, s.order, s.readings);
      PairLogAppend(db.log, StepRows(o, db, s), e, p);
      AtMostOneRow(o, db.log, PassVisits(o, db, s.order, s.readings), e, p);
    }
  }

  lemma StepWithoutAttempt(o: Options, db: Db, s: Step, e: int)
    requires s.Valid() && EventLog(StepRows(o, db, s), e) == []
    ensures EventLog(Apply(o, db, s).log, e) == EventLog(db.log, e)
    ensures forall p :: PairLog(Apply(o, db, s).log, e, p) == PairLog(db.log, e, p)
    ensures e in db.status ==> e in Apply(o, db, s).status && Apply(o, db, s).status[e] == db.status[e]
    ensures IsTerminal(db, e) <==> IsTerminal(Apply(o, db, s), e)
  {
    var rows := StepRows(o, db, s);
    forall p ensures PairLog(Apply(o, db, s).log, e, p) == PairLog(db.log, e, p) {
      PairGains(o, db, s, e, p);
      NoEventNoPair(rows, e, p);
    }
    if s.Pass? {
      EventLogAppend(db.log, rows, e);
      RowsOfPending(o, db, s);
      RestatusKeys(o, db.status, rows);
      if e in db.status {
        RestatusOf(o, db.status, rows, e);
      }
    }
  }

  /** Only a pending event is attempted, and its last attempt in the pass decides its status. */
  lemma AttemptedEvent(o: Options, db: Db, s: Step, e: int)
    requires s.Valid() && EventLog(StepRows(o, db, s), e) != []
    ensures s.Pass? && e in Pending(db.status)
    ensures e in Apply(o, db, s).status
    ensures Apply(o, db, s).status[e] == Verdict(o, Last(EventLog(StepRows(o, db, s), e)))
    ensures EventLog(Apply(o, db, s).log, e) == EventLog(db.log, e) + EventLog(StepRows(o, db, s), e)
  {
    var rows := StepRows(o, db, s);
    LogParts(rows, e, 0);
    assert EventLog(rows, e)[0] in EventLog(rows, e);
    RowsOfPending(o, db, s);
    RestatusOf(o, db.status, rows, e);
    EventLogAppend(db.log, rows, e);
  }

  /** A pass makes nothing pending. */
  lemma PendingShrinks(o: Options, db: Db, s: Step)
    requires s.Pass? && s.Valid()
    ensures Pending(Apply(o, db, s).status) <= Pending(db.status)
  {
    RowsOfPending(o, db, s);
    RestatusKeys(o, db.status, StepRows(o, db, s));
    forall e | e in Pending(Apply(o, db, s).status) ensures e in Pending(db.status) {
      if EventLog(StepRows(o, db, s), e) == [] {
        StepWithoutAttempt(o, db, s, e);
      } else {
        AttemptedEvent(o, db, s, e);
      }
    }
  }

  /** The last of an event's rows is a row of its pair. */
  lemma EndingRowOfPair(rows: seq<Attempt>, e: int)
    requires EventLog(rows, e) != []
    ensures |PairLog(rows, e, Last(EventLog(rows, e)).endpointId)| >= 1
  {
    var a := Last(EventLog(rows, e));
    LogParts(rows, e, a.endpointId);
    assert a in EventLog(rows, e);
    assert a in PairLog(rows, e, a.endpointId);
  }

  /** The attempt that ends a pass for an event carries the number of attempts of its pair. */
  lemma EndingAttempt(o: Options, db: Db, s: Step, e: int)
    requires Consistent(o, db) && s.Valid() && EventLog(StepRows(o, db, s), e) != []
    ensures
      var log, a := Apply(o, db, s).log, Last(EventLog(StepRows(o, db, s), e));
      && EventLog(log, e) != [] && a == Last(EventLog(log, e)) && a in EventLog(log, e)
      && a.tryNumber == |PairLog(log, e, a.endpointId)| == |PairLog(db.log, e, a.endpointId)| + 1
  {
    var rows := StepRows(o, db, s);
    AttemptedEvent(o, db, s, e);
    PassKeepsConsistent(o, db, s);
    EndingOfLawfulLog(o, db.log, rows, Apply(o, db, s).log, e);
    PairGains(o, db, s, e, Last(EventLog(rows, e)).endpointId);
    EndingRowOfPair(rows, e);
  }

  lemma EndingOfLawfulLog(o: Options, was: seq<Attempt>, rows: seq<Attempt>, log: seq<Attempt>, e: int)
    requires Lawful(o, log) && EventLog(rows, e) != [] && EventLog(log, e) == EventLog(was, e) + EventLog(rows, e)
    ensures
      var a := Last(EventLog(rows, e));
      && a == Last(EventLog(log, e)) && a in EventLog(log, e)
      && a.tryNumber == |PairLog(log, e, a.endpointId)|
  {
    LastOfEventIsLastOfPair(o, log, e);
  }

  // ----- how often an event can be attempted -----

  /** 1 if the step attempts the event, else 0. */
  function Attempts(o: Options, db: Db, s: Step, e: int): nat {
    if EventLog(StepRows(o, db, s), e) == [] then 0 else 1
  }

  function AttemptingPasses(o: Options, steps: seq<Step>, e: int): nat {
    if steps == [] then 0
    else
      var before := steps[..|steps| - 1];
      AttemptingPasses(o, before, e) + Attempts(o, Run(o, before), Last(steps), e)
  }

  /** The (endpoint, try) slot on which a pass leaves the event Failed, if it does. */
  function SlotTaken(o: Options, db: Db, s: Step, e: int): set<(int, int)> {
    var mine := EventLog(StepRows(o, db, s), e);
    if mine == [] || !Verdict(o, Last(mine)).Failed? then {} else {(Last(mine).endpointId, Last(mine).tryNumber)}
  }

  function Slots(o: Options, steps: seq<Step>, e: int): set<(int, int)> {
    if steps == [] then {}
    else
      var before := steps[..|steps| - 1];
      Slots(o, before, e) + SlotTaken(o, Run(o, before), Last(steps), e)
  }

  ghost predicate SlotsFit(o: Options, log: seq<Attempt>, e: int, slots: set<(int, int)>) {
    forall s :: s in slots ==> s.0 in Met(log, e) && 1 <= s.1 < Limit(o) && s.1 <= |PairLog(log, e, s.0)|
  }

  /** `n` attempting passes are accounted for by the slots, all below the limit, and a terminal status. */
  ghost predicate Accounted(o: Options, db: Db, e: int, slots: set<(int, int)>, n: nat) {
    && SlotsFit(o, db.log, e, slots)
    && n == |slots| + (if IsTerminal(db, e) then 1 else 0)
    && (forall p :: |PairLog(db.log, e, p)| <= n)
  }

  lemma IdleStepAccounted(o: Options, db: Db, s: Step, e: int, slots: set<(int, int)>, n: nat)
    requires s.Valid() && EventLog(StepRows(o, db, s), e) == []
    requires Accounted(o, db, e, slots, n)
    ensures Accounted(o, Apply(o, db, s), e, slots + SlotTaken(o, db, s, e), n + Attempts(o, db, s, e))
  {
    StepWithoutAttempt(o, db, s, e);
    assert slots + SlotTaken(o, db, s, e) == slots;
  }

  lemma EarlierSlotsStillFit(o: Options, db: Db, s: Step, e: int, slots: set<(int, int)>)
    requires s.Valid() && SlotsFit(o, db.log, e, slots)
    requires EventLog(StepRows(o, db, s), e) != []
    ensures SlotsFit(o, Apply(o, db, s).log, e, slots)
  {
    AttemptedEvent(o, db, s, e);
    assert Met(db.log, e) <= Met(Apply(o, db, s).log, e);
    forall q | q in slots ensures q.1 <= |PairLog(Apply(o, db, s).log, e, q.0)| {
      PairGains(o, db, s, e, q.0);
    }
  }

  /** An attempting pass ends on a slot not used before; it fits unless the event became terminal. */
  lemma EndingSlotIsNew(o: Options, db: Db, s: Step, e: int, slots: set<(int, int)>)
    requires Consistent(o, db) && s.Valid() && EventLog(StepRows(o, db, s), e) != []
    requires SlotsFit(o, db.log, e, slots)
    ensures SlotTaken(o, db, s, e) * slots == {}
    ensures |SlotTaken(o, db, s, e)| == if IsTerminal(Apply(o, db, s), e) then 0 else 1
    ensures SlotsFit(o, Apply(o, db, s).log, e, SlotTaken(o, db, s, e))
  {
    var a := Last(EventLog(StepRows(o, db, s), e));
    AttemptedEvent(o, db, s, e);
    EndingAttempt(o, db, s, e);
    ExhaustedFromLimitOn(o, a.tryNumber);
    assert (a.endpointId, a.tryNumber) !in slots;
  }

  lemma AttemptAccounted(o: Options, db: Db, s: Step, e: int, slots: set<(int, int)>, n: nat)
    requires Consistent(o, db) && s.Valid() && EventLog(StepRows(o, db, s), e) != []
    requires Accounted(o, db, e, slots, n)
    ensures Accounted(o, Apply(o, db, s), e, slots + SlotTaken(o, db, s, e), n + Attempts(o, db, s, e))
  {
    var taken := SlotTaken(o, db, s, e);
    EarlierSlotsStillFit(o, db, s, e, slots);
    EndingSlotIsNew(o, db, s, e, slots);
    AttemptedEvent(o, db, s, e);
    PartSizes(slots + taken, taken);
    assert slots + taken - taken == slots;
    forall p ensures |PairLog(Apply(o, db, s).log, e, p)| <= n + 1 {
      PairGains(o, db, s, e, p);
    }
  }

  /** Every attempting pass but a terminal one ends on a slot of its own, below the limit. */
  lemma {:induction false} PassesAreSlots(o: Options, steps: seq<Step>, e: int)
    requires ValidRun(steps)
    ensures Accounted(o, Run(o, steps), e, Slots(o, steps, e), AttemptingPasses(o, steps, e))
  {
    if steps != [] {
      var before, s := steps[..|steps| - 1], Last(steps);
      assert steps == before + [s];
      PassesAreSlots(o, before, e);
      RunIsConsistent(o, before);
      if EventLog(StepRows(o, Run(o, before), s), e) == [] {
        IdleStepAccounted(o, Run(o, before), s, e, Slots(o, before, e), AttemptingPasses(o, before, e));
      } else {
        AttemptAccounted(o, Run(o, before), s, e, Slots(o, before, e), AttemptingPasses(o, before, e));
      }
    }
  }

  lemma PartSizes(s: set<(int, int)>, part: set<(int, int)>)
    requires part <= s
    ensures |s| == |part| + |s - part|
  {
    assert s == part + (s - part);
  }

  lemma {:induction false} ColumnBound(s: set<(int, int)>, x: int, low: int, n: nat)
    requires forall q :: q in s ==> q.0 == x && low < q.1 <= low + n
    ensures |s| <= n
  {
    if n == 0 {
      assert forall q :: q !in s;
      assert s == {};
    } else {
      assert forall q :: q in s - {(x, low + n)} ==> q.1 != low + n;
      ColumnBound(s - {(x, low + n)}, x, low, n - 1);
    }
  }

  lemma WithoutColumn(s: set<(int, int)>, xs: set<int>, x: int, low: int, n: nat) returns (others: set<(int, int)>)
    requires forall q :: q in s ==> q.0 in xs && low < q.1 <= low + n
    ensures forall q :: q in others ==> q.0 in xs - {x} && low < q.1 <= low + n
    ensures |s| <= |others| + n
  {
    var column := set q | q in s && q.0 == x;
    others := s - column;
    ColumnBound(column, x, low, n);
    PartSizes(s, column);
  }

  lemma {:induction false} GridBound(s: set<(int, int)>, xs: set<int>, low: int, n: nat)
    requires forall q :: q in s ==> q.0 in xs && low < q.1 <= low + n
    ensures |s| <= |xs| * n
    decreases xs
  {
    if xs == {} {
      assert forall q :: q !in s;
      assert s == {};
    } else {
      Inhabited(xs);
      var x :| x in xs;
      var others := WithoutColumn(s, xs, x, low, n);
      GridBound(others, xs - {x}, low, n);
      OneMore(|xs - {x}|, n);
      assert |xs| == |xs - {x}| + 1;
    }
  }

  /** E endpoints allow at most this many passes to attempt one event. */
  function MostPasses(o: Options, endpoints: nat): nat {
    endpoints * (Limit(o) - 1) + 1
  }

  lemma MostPassesMonotone(o: Options, m: nat, n: nat)
    requires m <= n
    ensures MostPasses(o, m) <= MostPasses(o, n)
  {
    Scaled(m, n, Limit(o) - 1);
  }

  lemma SlotsAreFew(o: Options, log: seq<Attempt>, e: int, slots: set<(int, int)>)
    requires SlotsFit(o, log, e, slots)
    ensures |slots| < MostPasses(o, |Met(log, e)|)
  {
    GridBound(slots, Met(log, e), 0, Limit(o) - 1);
  }

  lemma PassesBySlots(o: Options, steps: seq<Step>, e: int)
    requires ValidRun(steps)
    ensures AttemptingPasses(o, steps, e) == |Slots(o, steps, e)| + if IsTerminal(Run(o, steps), e) then 1 else 0
    ensures SlotsFit(o, Run(o, steps).log, e, Slots(o, steps, e))
  {
    PassesAreSlots(o, steps, e);
  }

  /**
   However the passes go, an event that has met E endpoints was attempted in at most
   E * (limit - 1) + 1 passes, one fewer while it is still pending, and no try exceeds that.
   */
  lemma {:induction false} AttemptBound(o: Options, steps: seq<Step>, e: int)
    requires ValidRun(steps)
    ensures
      var most := MostPasses(o, |Met(Run(o, steps).log, e)|);
      && AttemptingPasses(o, steps, e) <= most
      && (!IsTerminal(Run(o, steps), e) ==> AttemptingPasses(o, steps, e) < most)
      && (forall a :: a in Run(o, steps).log && a.eventId == e ==> 1 <= a.tryNumber <= most)
  {
    PassesBySlots(o, steps, e);
    SlotsAreFew(o, Run(o, steps).log, e, Slots(o, steps, e));
    TriesWithinPasses(o, steps, e);
  }

  lemma TriesWithinPasses(o: Options, steps: seq<Step>, e: int)
    requires ValidRun(steps)
    ensures forall a :: a in Run(o, steps).log && a.eventId == e ==> 1 <= a.tryNumber <= AttemptingPasses(o, steps, e)
  {
    var log := Run(o, steps).log;
    PassesAreSlots(o, steps, e);
    RunIsConsistent(o, steps);
    forall a | a in log && a.eventId == e ensures 1 <= a.tryNumber <= |PairLog(log, e, a.endpointId)| {
      LawfulPair(o, log, e, a.endpointId);
      InPairLog(log, e, a.endpointId, a);
    }
  }

  // ----- a failed event has a way on -----

  /** A failed event has an endpoint whose last failure set a date, and that pair is due from then on. */
  lemma FailedEventHasDate(o: Options, db: Db, e: int) returns (p: int)
    requires Consistent(o, db) && e in db.status && db.status[e].Failed?
    ensures p in Met(db.log, e)
    ensures
      var last := Latest(db.log, e, p);
      && last.Some? && !last.value.success && last.value.nextAttemptAt.Some?
      && forall t :: GetAttemptState(db.log, e, p, t).0 <==> last.value.nextAttemptAt.value <= t
  {
    var el := EventLog(db.log, e);
    var a := Last(el);
    p := a.endpointId;
    assert a in el;
    LastOfEventIsLastOfPair(o, db.log, e);
    LawfulPair(o, db.log, e, p);
    LawfulGaps(o, db.log, e, p);
    ExhaustedFromLimitOn(o, a.tryNumber);
  }

  /** A pass that runs to its end visits every pair of a batched event and a listed endpoint. */
  lemma VisitOfPair(o: Options, db: Db, s: Step, e: int, p: int) returns (k: nat)
    requires s.Pass? && p in s.order && e in Candidates(o, db.status)
    requires Completes(o, db, s)
    ensures k < |s.readings| && k < |PassVisits(o, db, s.order, s.readings)|
    ensures PassVisits(o, db, s.order, s.readings)[k] == Visit(e, p, s.readings[k])
  {
    var pairs := Cross(Candidates(o, db.status), s.order);
    CrossMembers(Candidates(o, db.status), s.order);
    assert (e, p) in pairs;
    k :| 0 <= k < |pairs| && pairs[k] == (e, p);
  }

  /** What a pair of a batched event gains in such a pass: the row of its visit, exactly if it is due there. */
  lemma VisitAddsRow(o: Options, db: Db, s: Step, e: int, p: int) returns (r: Reading)
    requires s.Pass? && s.Valid() && p in s.order && e in Candidates(o, db.status) && Completes(o, db, s)
    ensures r in s.readings
    ensures PairLog(Apply(o, db, s).log, e, p)
         == PairLog(db.log, e, p)
            + if GetAttemptState(db.log, e, p, r.checkedAt).0 then [RowOf(o, db.log, Visit(e, p, r))] else []
  {
    var k := VisitOfPair(o, db, s, e, p);
    r := s.readings[k];
    assert r in s.readings;
    PassVisitsFacts(o, db, s.order, s.readings);
    RowsOfPair(o, db.log, PassVisits(o, db, s.order, s.readings), k);
    PairLogAppend(db.log, StepRows(o, db, s), e, p);
  }

  /** An attempted event was in the batch, and the pair of its last attempt was listed and due at some reading. */
  lemma AttemptedPair(o: Options, db: Db, s: Step, e: int) returns (r: Reading)
    requires s.Valid() && EventLog(StepRows(o, db, s), e) != []
    ensures s.Pass? && e in Candidates(o, db.status) && r in s.readings
    ensures
      var a := Last(EventLog(StepRows(o, db, s), e));
      a.eventId == e && a.endpointId in s.order && GetAttemptState(db.log, e, a.endpointId, r.checkedAt).0
  {
    var rows := StepRows(o, db, s);
    var a := Last(EventLog(rows, e));
    LogParts(rows, e, 0);
    assert a in EventLog(rows, e);
    var vs := PassVisits(o, db, s.order, s.readings);
    PassVisitsFacts(o, db, s.order, s.readings);
    NewRowsMembers(o, db.log, vs);
    var v :| v in vs && IsDue(db.log, v) && a == RowOf(o, db.log, v);
    r := v.reading;
  }

  /** A completed pass over an endpoint that is due for a batched event attempts that event. */
  lemma DuePairIsAttempted(o: Options, db: Db, s: Step, e: int, p: int)
    requires s.Pass? && s.Valid() && p in s.order && e in Candidates(o, db.status)
    requires Completes(o, db, s)
    requires forall r :: r in s.readings ==> GetAttemptState(db.log, e, p, r.checkedAt).0
    ensures EventLog(StepRows(o, db, s), e) != []
    ensures exists a :: a in StepRows(o, db, s) && IsFor(a, e, p)
  {
    var k := VisitOfPair(o, db, s, e, p);
    var vs := PassVisits(o, db, s.order, s.readings);
    assert vs[k] in vs && s.readings[k] in s.readings;
    NewRowsMembers(o, db.log, vs);
    assert RowOf(o, db.log, vs[k]) in StepRows(o, db, s);
    LogParts(StepRows(o, db, s), e, p);
  }

  /** Every reachable Failed event is attempted by any pass that batches it once its date has passed. */
  lemma FailedEventIsRetried(o: Options, steps: seq<Step>, e: int) returns (p: int, date: int)
    requires ValidRun(steps) && e in Run(o, steps).status && Run(o, steps).status[e].Failed?
    ensures
      var last := Latest(Run(o, steps).log, e, p);
      last.Some? && !last.value.success && last.value.nextAttemptAt == Some(date)
    ensures forall s: Step ::
              && s.Pass? && s.Valid() && p in s.order && e in Candidates(o, Run(o, steps).status)
              && Completes(o, Run(o, steps), s)
              && (forall r :: r in s.readings ==> date <= r.checkedAt)
              ==> exists a :: a in StepRows(o, Run(o, steps), s) && IsFor(a, e, p)
  {
    RunIsConsistent(o, steps);
    var db := Run(o, steps);
    p := FailedEventHasDate(o, db, e);
    date := Latest(db.log, e, p).value.nextAttemptAt.value;
    forall s: Step |
      && s.Pass? && s.Valid() && p in s.order && e in Candidates(o, db.status)
      && Completes(o, db, s)
      && (forall r :: r in s.readings ==> date <= r.checkedAt)
      ensures exists a :: a in StepRows(o, db, s) && IsFor(a, e, p)
    {
      DuePairIsAttempted(o, db, s, e, p);
    }
  }
}
