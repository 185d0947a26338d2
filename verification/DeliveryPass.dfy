/**
 One pass of the delivery processor. The specification of a pass (`NewRows`, `AfterPass`)
 decides every pair on the log as it was when the pass began; the method re-reads the live
 log before each pair, as the source does, and is proved to arrive at the same rows.
 */
module DeliveryPass {
  import opened Wrappers
  import opened DeliveryRules

  /** The two tables a pass works on: event id -> status, and the attempts in commit order. */
  datatype Db = Db(status: map<int, Status>, log: seq<Attempt>)

  /** One visited pair with what the clock and the network did there. */
  datatype Visit = Visit(eventId: int, endpointId: int, reading: Reading)

  // ----- which events a pass takes -----

  predicate IsPending(s: Status) {
    s.New? || s.Failed?
  }

  function Pending(status: map<int, Status>): set<int> {
    set e | e in status && IsPending(status[e])
  }

  lemma {:induction false} Least(s: set<int>) returns (m: int)
    requires s != {}
    ensures m in s && forall x :: x in s ==> m <= x
  {
    Inhabited(s);
    m :| m in s;
    var rest := s - {m};
    assert s == rest + {m};
    if rest != {} {
      var k := Least(rest);
      m := Min(m, k);
    }
  }

  predicate Increasing(s: seq<int>) {
    forall i, j :: 0 <= i < j < |s| ==> s[i] < s[j]
  }

  /** A set of ids in increasing order. */
  function Ascending(s: set<int>): seq<int> {
    if s == {} then []
    else
      assert exists m :: m in s && forall x :: x in s ==> m <= x by {
        var m := Least(s);
      }
      var m :| m in s && forall x :: x in s ==> m <= x;
      [m] + Ascending(s - {m})
  }

  ghost predicate Lists(r: seq<int>, s: set<int>) {
    && Increasing(r)
    && |r| == |s|
    && (forall x :: x in r ==> x in s)
    && (forall x :: x in s ==> x in r)
  }

  lemma {:induction false} AscendingLists(s: set<int>)
    ensures Lists(Ascending(s), s)
  {
    if s != {} {
      var m := Ascending(s)[0];
      assert m in s && forall x :: x in s ==> m <= x;
      AscendingLists(s - {m});
      LeastInFront(m, Ascending(s - {m}), s);
    }
  }

  lemma LeastInFront(m: int, rest: seq<int>, s: set<int>)
    requires m in s && (forall x :: x in s ==> m <= x)
    requires Lists(rest, s - {m})
    ensures Lists([m] + rest, s)
  {
    assert |s - {m}| == |s| - 1;
    assert forall x :: x in s ==> x == m || x in s - {m};
    forall i | 0 <= i < |rest| ensures m < rest[i] {
      assert rest[i] in s - {m};
    }
  }

  /** The pending events in Id order, at most `batchSize` of them. */
  function Candidates(o: Options, status: map<int, Status>): seq<int> {
    var all := Ascending(Pending(status));
    all[..Min(o.batchSize, |all|)]
  }

  lemma CandidatesAreLowest(o: Options, status: map<int, Status>)
    ensures Increasing(Candidates(o, status))
    ensures |Candidates(o, status)| == Min(o.batchSize, |Pending(status)|)
    ensures forall e :: e in Candidates(o, status) ==> e in Pending(status)
    ensures forall e, f :: e in Candidates(o, status) && f in Pending(status) && f !in Candidates(o, status) ==> e < f
  {
    var all := Ascending(Pending(status));
    AscendingLists(Pending(status));
    var n := Min(o.batchSize, |all|);
    assert forall j :: 0 <= j < n ==> all[j] in all[..n];
    forall e, f | e in all[..n] && f in Pending(status) && f !in all[..n]
      ensures e < f
    {
      var i :| 0 <= i < n && all[i] == e;
      var j :| 0 <= j < |all| && all[j] == f;
    }
  }

  // ----- which pairs it visits -----

  function Row(e: int, order: seq<int>): seq<(int, int)> {
    seq(|order|, j requires 0 <= j < |order| => (e, order[j]))
  }

  /** Events in batch order; for each of them the endpoints in query order. */
  function Cross(events: seq<int>, order: seq<int>): seq<(int, int)> {
    if events == [] then [] else Cross(events[..|events| - 1], order) + Row(Last(events), order)
  }

  lemma {:induction false} CrossMembers(events: seq<int>, order: seq<int>)
    ensures forall q :: q in Cross(events, order) <==> q.0 in events && q.1 in order
  {
    if events != [] {
      CrossMembers(events[..|events| - 1], order);
      assert events == events[..|events| - 1] + [Last(events)];
      forall q: (int, int) ensures q in Row(Last(events), order) <==> q.0 == Last(events) && q.1 in order {
        if q.0 == Last(events) && q.1 in order {
          var j :| 0 <= j < |order| && order[j] == q.1;
          assert Row(Last(events), order)[j] == q;
        }
      }
    }
  }

  lemma {:induction false} CrossDistinct(events: seq<int>, order: seq<int>)
    requires Increasing(events) && Distinct(order)
    ensures Distinct(Cross(events, order))
  {
    if events != [] {
      var before := events[..|events| - 1];
      CrossDistinct(before, order);
      CrossMembers(before, order);
      var c, r := Cross(before, order), Row(Last(events), order);
      forall i, j | 0 <= i < |c| && 0 <= j < |r|
        ensures c[i] != r[j]
      {
        assert c[i] in c;
        var t :| 0 <= t < |before| && before[t] == c[i].0;
        assert events[t] < Last(events);
      }
    }
  }

  lemma {:induction false} CrossPrefix(events: seq<int>, order: seq<int>, i: nat)
    requires i <= |events|
    ensures Cross(events[..i], order) <= Cross(events, order)
  {
    if i == |events| {
      assert events[..i] == events;
    } else {
      var before := events[..|events| - 1];
      CrossPrefix(before, order, i);
      assert before[..i] == events[..i];
    }
  }

  /** As many pairs as there are readings; a pass cut short by an exception has too few of them. */
  function Visits(pairs: seq<(int, int)>, readings: seq<Reading>): seq<Visit> {
    seq(Min(|pairs|, |readings|),
        i requires 0 <= i < Min(|pairs|, |readings|) => Visit(pairs[i].0, pairs[i].1, readings[i]))
  }

  ghost predicate DistinctPairs(vs: seq<Visit>) {
    forall i, j :: 0 <= i < j < |vs| ==> !(vs[i].eventId == vs[j].eventId && vs[i].endpointId == vs[j].endpointId)
  }

  function PassVisits(o: Options, db: Db, order: seq<int>, readings: seq<Reading>): seq<Visit> {
    Visits(Cross(Candidates(o, db.status), order), readings)
  }

  lemma PassVisitsFacts(o: Options, db: Db, order: seq<int>, readings: seq<Reading>)
    requires Distinct(order)
    ensures DistinctPairs(PassVisits(o, db, order, readings))
    ensures forall v :: v in PassVisits(o, db, order, readings) ==>
              && v.eventId in Pending(db.status) && v.eventId in Candidates(o, db.status)
              && v.endpointId in order && v.reading in readings
  {
    var batch := Candidates(o, db.status);
    CandidatesAreLowest(o, db.status);
    CrossDistinct(batch, order);
    CrossMembers(batch, order);
    var pairs := Cross(batch, order);
    forall v | v in PassVisits(o, db, order, readings)
      ensures v.eventId in batch && v.endpointId in order && v.reading in readings
    {
      var i :| 0 <= i < |PassVisits(o, db, order, readings)| && PassVisits(o, db, order, readings)[i] == v;
      assert pairs[i] in pairs;
    }
  }

  lemma {:induction false} CrossAt(events: seq<int>, order: seq<int>, i: nat, j: nat)
    requires i < |events| && j < |order|
    ensures |Cross(events, order)| == |events| * |order|
    ensures i * |order| + j < |events| * |order| && Cross(events, order)[i * |order| + j] == (events[i], order[j])
  {
    var n := |events| - 1;
    CrossSize(events[..n], order);
    OneMore(n, |order|);
    if i < n {
      CrossAt(events[..n], order, i, j);
    }
  }

  lemma {:induction false} CrossSize(events: seq<int>, order: seq<int>)
    ensures |Cross(events, order)| == |events| * |order|
  {
    if events != [] {
      CrossSize(events[..|events| - 1], order);
      OneMore(|events| - 1, |order|);
    }
  }

  /**
   A pass takes the events of the batch one after the other, and for each of them the endpoints in
   query order; every visit has the next reading, and the pass ends where the readings end.
   */
  lemma VisitingOrder(o: Options, db: Db, order: seq<int>, readings: seq<Reading>, i: nat, j: nat)
    requires i < |Candidates(o, db.status)| && j < |order|
    ensures
      var batch, vs, k := Candidates(o, db.status), PassVisits(o, db, order, readings), i * |order| + j;
      && |vs| == Min(|batch| * |order|, |readings|)
      && (k < |readings| ==> k < |vs| && vs[k] == Visit(batch[i], order[j], readings[k]))
  {
    CrossAt(Candidates(o, db.status), order, i, j);
  }

  // ----- what it writes -----

  predicate IsDue(log: seq<Attempt>, v: Visit) {
    GetAttemptState(log, v.eventId, v.endpointId, v.reading.checkedAt).0
  }

  function RowOf(o: Options, log: seq<Attempt>, v: Visit): Attempt {
    NewAttempt(o, v.eventId, v.endpointId,
               GetAttemptState(log, v.eventId, v.endpointId, v.reading.checkedAt).1, v.reading)
  }

  /** One row for every visited pair that is due in `log`, in visiting order. */
  function NewRows(o: Options, log: seq<Attempt>, vs: seq<Visit>): seq<Attempt> {
    if vs == [] then []
    else NewRows(o, log, vs[..|vs| - 1]) + if IsDue(log, Last(vs)) then [RowOf(o, log, Last(vs))] else []
  }

  /** Every new row carries its verdict to its event; the last one wins. */
  function Restatus(o: Options, status: map<int, Status>, rows: seq<Attempt>): map<int, Status> {
    if rows == [] then status
    else Restatus(o, status, rows[..|rows| - 1])[Last(rows).eventId := Verdict(o, Last(rows))]
  }

  function CountResponses(rows: seq<Attempt>): nat {
    if rows == [] then 0
    else CountResponses(rows[..|rows| - 1]) + if Last(rows).responseCode.Some? then 1 else 0
  }

  function PassRows(o: Options, db: Db, order: seq<int>, readings: seq<Reading>): seq<Attempt> {
    NewRows(o, db.log, PassVisits(o, db, order, readings))
  }

  /** The database once a pass that began in `db` has made the visits `vs`. */
  function AfterVisits(o: Options, db: Db, vs: seq<Visit>): Db {
    var rows := NewRows(o, db.log, vs);
    Db(Restatus(o, db.status, rows), db.log + rows)
  }

  function AfterPass(o: Options, db: Db, order: seq<int>, readings: seq<Reading>): Db {
    AfterVisits(o, db, PassVisits(o, db, order, readings))
  }

  // ----- a pass does exactly its work -----

  lemma {:induction false} NewRowsMembers(o: Options, log: seq<Attempt>, vs: seq<Visit>)
    ensures forall a :: a in NewRows(o, log, vs) <==> exists v :: v in vs && IsDue(log, v) && a == RowOf(o, log, v)
  {
    if vs != [] {
      NewRowsMembers(o, log, vs[..|vs| - 1]);
      assert vs == vs[..|vs| - 1] + [Last(vs)];
    }
  }

  lemma {:induction false} UnvisitedPairHasNoRow(o: Options, log: seq<Attempt>, vs: seq<Visit>, e: int, p: int)
    requires forall v :: v in vs ==> !(v.eventId == e && v.endpointId == p)
    ensures PairLog(NewRows(o, log, vs), e, p) == []
  {
    if vs != [] {
      var before, v := vs[..|vs| - 1], Last(vs);
      assert v in vs && forall u :: u in before ==> u in vs;
      UnvisitedPairHasNoRow(o, log, before, e, p);
      SnocRow(o, log, before, v, e, p);
      assert vs == before + [v];
    }
  }

  lemma NewRowsSnoc(o: Options, log: seq<Attempt>, vs: seq<Visit>, v: Visit)
    ensures NewRows(o, log, vs + [v]) == NewRows(o, log, vs) + if IsDue(log, v) then [RowOf(o, log, v)] else []
  {
    assert (vs + [v])[..|vs|] == vs;
  }

  lemma SnocRow(o: Options, log: seq<Attempt>, vs: seq<Visit>, v: Visit, e: int, p: int)
    ensures PairLog(NewRows(o, log, vs + [v]), e, p)
         == PairLog(NewRows(o, log, vs), e, p)
            + if IsDue(log, v) && v.eventId == e && v.endpointId == p then [RowOf(o, log, v)] else []
  {
    var rows, a := NewRows(o, log, vs), RowOf(o, log, v);
    NewRowsSnoc(o, log, vs, v);
    if IsDue(log, v) {
      assert IsFor(a, e, p) <==> v.eventId == e && v.endpointId == p;
      PairLogAppend(rows, [a], e, p);
      OneRowLogs(a, e, p);
    } else {
      assert rows + [] == rows;
    }
  }

  /** A pair receives the row of its own visit if it is due when the pass begins, and no other row. */
  lemma {:induction false} RowsOfPair(o: Options, log: seq<Attempt>, vs: seq<Visit>, k: nat)
    requires DistinctPairs(vs) && k < |vs|
    ensures PairLog(NewRows(o, log, vs), vs[k].eventId, vs[k].endpointId)
         == if IsDue(log, vs[k]) then [RowOf(o, log, vs[k])] else []
  {
    var before, v := vs[..|vs| - 1], Last(vs);
    assert vs == before + [v];
    SnocRow(o, log, before, v, vs[k].eventId, vs[k].endpointId);
    if k == |vs| - 1 {
      UnvisitedPairHasNoRow(o, log, before, v.eventId, v.endpointId);
    } else {
      RowsOfPair(o, log, before, k);
    }
  }

  /** Whether visited or not, a pair gains at most one row in a pass. */
  lemma AtMostOneRow(o: Options, log: seq<Attempt>, vs: seq<Visit>, e: int, p: int)
    requires DistinctPairs(vs)
    ensures |PairLog(NewRows(o, log, vs), e, p)| <= 1
  {
    if k :| 0 <= k < |vs| && vs[k].eventId == e && vs[k].endpointId == p {
      RowsOfPair(o, log, vs, k);
    } else {
      UnvisitedPairHasNoRow(o, log, vs, e, p);
    }
  }

  lemma {:induction false} RestatusKeys(o: Options, status: map<int, Status>, rows: seq<Attempt>)
    requires forall a :: a in rows ==> a.eventId in status
    ensures Restatus(o, status, rows).Keys == status.Keys
  {
    if rows != [] {
      assert rows == rows[..|rows| - 1] + [Last(rows)];
      RestatusKeys(o, status, rows[..|rows| - 1]);
    }
  }

  /** An event without a row keeps its status; any other follows its last row. */
  lemma {:induction false} RestatusOf(o: Options, status: map<int, Status>, rows: seq<Attempt>, e: int)
    requires e in status
    ensures e in Restatus(o, status, rows)
    ensures Restatus(o, status, rows)[e]
         == if EventLog(rows, e) == [] then status[e] else Verdict(o, Last(EventLog(rows, e)))
  {
    if rows != [] {
      RestatusOf(o, status, rows[..|rows| - 1], e);
    }
  }

  /**
   The whole effect of a pass: for every pair and every event in the database, what it gains.
   Nothing below looks at the order in which the pass did its work except the last clause.
   */
  lemma PassDoesExactlyItsWork(o: Options, db: Db, order: seq<int>, readings: seq<Reading>)
    requires Distinct(order)
    ensures
      var after := AfterPass(o, db, order, readings);
      var vs := PassVisits(o, db, order, readings);
      && db.log <= after.log
      && after.status.Keys == db.status.Keys
      // every visited pair gains its row exactly if it was due, every other pair gains nothing
      && (forall v :: v in vs ==>
            PairLog(after.log, v.eventId, v.endpointId)
            == PairLog(db.log, v.eventId, v.endpointId) + if IsDue(db.log, v) then [RowOf(o, db.log, v)] else [])
      && (forall e, p :: (forall v :: v in vs ==> !(v.eventId == e && v.endpointId == p)) ==>
            PairLog(after.log, e, p) == PairLog(db.log, e, p))
      // an event without a new row keeps its status, any other follows its last new row
      && (forall e :: e in db.status ==>
            var mine := EventLog(PassRows(o, db, order, readings), e);
            after.status[e] == if mine == [] then db.status[e] else Verdict(o, Last(mine)))
  {
    var vs, rows := PassVisits(o, db, order, readings), PassRows(o, db, order, readings);
    PassVisitsFacts(o, db, order, readings);
    NewRowsMembers(o, db.log, vs);
    RestatusKeys(o, db.status, rows);
    forall e | e in db.status {
      RestatusOf(o, db.status, rows, e);
    }
    forall v | v in vs
      ensures PairLog(db.log + rows, v.eventId, v.endpointId)
           == PairLog(db.log, v.eventId, v.endpointId) + if IsDue(db.log, v) then [RowOf(o, db.log, v)] else []
    {
      var k :| 0 <= k < |vs| && vs[k] == v;
      RowsOfPair(o, db.log, vs, k);
      PairLogAppend(db.log, rows, v.eventId, v.endpointId);
    }
    forall e, p | forall v :: v in vs ==> !(v.eventId == e && v.endpointId == p)
      ensures PairLog(db.log + rows, e, p) == PairLog(db.log, e, p)
    {
      UnvisitedPairHasNoRow(o, db.log, vs, e, p);
      PairLogAppend(db.log, rows, e, p);
    }
  }

  /** What a visited pair gains: nothing if it is not due, else one attempt that records the outcome of its send. */
  lemma VisitRecordsOutcome(o: Options, db: Db, order: seq<int>, readings: seq<Reading>, k: nat)
    requires Lawful(o, db.log) && Distinct(order) && k < |PassVisits(o, db, order, readings)|
    ensures
      var v := PassVisits(o, db, order, readings)[k];
      var r := v.reading;
      var was := PairLog(db.log, v.eventId, v.endpointId);
      var now := PairLog(AfterPass(o, db, order, readings).log, v.eventId, v.endpointId);
      if !IsDue(db.log, v) then now == was
      else
        && now != [] && now == was + [Last(now)] && IsFor(Last(now), v.eventId, v.endpointId)
        && Last(now).tryNumber == |was| + 1 && Last(now).sentAt == r.sentAt
        && Last(now).responseCode == (if r.outcome.Responded? then Some(r.outcome.code) else None)
        && (Last(now).success <==> r.outcome.Responded? && 200 <= r.outcome.code <= 299)
        && Last(now).nextAttemptAt == (if Last(now).success || |was| >= |o.backoffSeconds| then None
                                       else Some(r.scheduledFrom + o.backoffSeconds[|was|] * 10_000_000))
  {
    var v := PassVisits(o, db, order, readings)[k];
    assert v in PassVisits(o, db, order, readings);
    PassDoesExactlyItsWork(o, db, order, readings);
    NextAttemptMeaning(o, db.log, v.eventId, v.endpointId, v.reading);
  }

  lemma EventRowsSnoc(o: Options, log: seq<Attempt>, vs: seq<Visit>, v: Visit, e: int)
    ensures EventLog(NewRows(o, log, vs + [v]), e)
         == EventLog(NewRows(o, log, vs), e)
            + if IsDue(log, v) && v.eventId == e then [RowOf(o, log, v)] else []
  {
    var rows := NewRows(o, log, vs);
    NewRowsSnoc(o, log, vs, v);
    if IsDue(log, v) {
      EventLogAppend(rows, [RowOf(o, log, v)], e);
      OneRowLogs(RowOf(o, log, v), e, 0);
    } else {
      assert rows + [] == rows;
    }
  }

  lemma {:induction false} LastRowOfEvent(o: Options, log: seq<Attempt>, vs: seq<Visit>, k: nat)
    requires k < |vs| && IsDue(log, vs[k])
    requires forall m :: k < m < |vs| && vs[m].eventId == vs[k].eventId ==> !IsDue(log, vs[m])
    ensures
      var mine := EventLog(NewRows(o, log, vs), vs[k].eventId);
      mine != [] && Last(mine) == RowOf(o, log, vs[k])
  {
    var n := |vs| - 1;
    assert vs == vs[..n] + [vs[n]];
    EventRowsSnoc(o, log, vs[..n], vs[n], vs[k].eventId);
    if k < n {
      LastRowOfEvent(o, log, vs[..n], k);
    }
  }

  lemma {:induction false} NoRowOfEvent(o: Options, log: seq<Attempt>, vs: seq<Visit>, e: int)
    requires forall v :: v in vs && v.eventId == e ==> !IsDue(log, v)
    ensures EventLog(NewRows(o, log, vs), e) == []
  {
    if vs != [] {
      var n := |vs| - 1;
      assert vs == vs[..n] + [vs[n]] && vs[n] in vs;
      EventRowsSnoc(o, log, vs[..n], vs[n], e);
      NoRowOfEvent(o, log, vs[..n], e);
    }
  }

  /** The last due visit of an event decides its status: Dispatched exactly for a 2xx reply there. */
  lemma LastDueVisitDecides(o: Options, db: Db, order: seq<int>, readings: seq<Reading>, k: nat)
    requires Lawful(o, db.log) && Distinct(order) && k < |PassVisits(o, db, order, readings)|
    requires
      var vs := PassVisits(o, db, order, readings);
      && IsDue(db.log, vs[k])
      && forall m :: k < m < |vs| && vs[m].eventId == vs[k].eventId ==> !IsDue(db.log, vs[m])
    ensures
      var v := PassVisits(o, db, order, readings)[k];
      var n := |PairLog(db.log, v.eventId, v.endpointId)| + 1;
      var after := AfterPass(o, db, order, readings);
      && v.eventId in after.status
      && after.status[v.eventId]
         == (if v.reading.outcome.Responded? && 200 <= v.reading.outcome.code <= 299 then Dispatched
             else if n > |o.backoffSeconds| || n >= o.maxAttempts then DeadLetter
             else Failed)
  {
    var vs := PassVisits(o, db, order, readings);
    assert vs[k] in vs;
    PassVisitsFacts(o, db, order, readings);
    LastRowOfEvent(o, db.log, vs, k);
    RestatusOf(o, db.status, NewRows(o, db.log, vs), vs[k].eventId);
    NextAttemptMeaning(o, db.log, vs[k].eventId, vs[k].endpointId, vs[k].reading);
    ExhaustedFromLimitOn(o, |PairLog(db.log, vs[k].eventId, vs[k].endpointId)| + 1);
  }

  /** An event without a due visit keeps its status. */
  lemma UntriedEventKeepsStatus(o: Options, db: Db, order: seq<int>, readings: seq<Reading>, e: int)
    requires Distinct(order) && e in db.status
    requires forall v :: v in PassVisits(o, db, order, readings) && v.eventId == e ==> !IsDue(db.log, v)
    ensures
      var after := AfterPass(o, db, order, readings);
      e in after.status && after.status[e] == db.status[e]
  {
    NoRowOfEvent(o, db.log, PassVisits(o, db, order, readings), e);
    PassDoesExactlyItsWork(o, db, order, readings);
  }

  /** The rows from `first` on that have a response code. */
  function Answered(log: seq<Attempt>, first: nat): set<int> {
    set i | first <= i < |log| && log[i].responseCode.Some?
  }

  lemma {:induction false} CountIsSize(log: seq<Attempt>, rows: seq<Attempt>)
    ensures CountResponses(rows) == |Answered(log + rows, |log|)|
  {
    if rows == [] {
      assert Answered(log + rows, |log|) == {};
    } else {
      var n := |rows| - 1;
      CountIsSize(log, rows[..n]);
      var before, after := Answered(log + rows[..n], |log|), Answered(log + rows, |log|);
      assert forall i :: |log| <= i < |log| + n ==> (log + rows)[i] == (log + rows[..n])[i];
      assert (log + rows)[|log| + n] == rows[n];
      assert after == before + if rows[n].responseCode.Some? then {|log| + n} else {};
    }
  }

  // ----- the classes -----

  /** The part of the EF Core context the processor uses; one save is one commit. */
  class AppDbContext {
    var status: map<int, Status>
    var attempts: seq<Attempt>

    constructor ()
      ensures Contents() == Db(map[], [])
    {
      status, attempts := map[], [];
    }

    function Contents(): Db
      reads this
    {
      Db(status, attempts)
    }

    /** Commits an attempt together with its event's status, unless the unique index refuses it. */
    method SaveChanges(a: Attempt, s: Status) returns (saved: bool)
      modifies this
      ensures saved <==> forall b :: b in old(attempts) ==>
                           !(b.eventId == a.eventId && b.endpointId == a.endpointId && b.tryNumber == a.tryNumber)
      ensures Contents() == if saved then Db(old(status)[a.eventId := s], old(attempts) + [a]) else old(Contents())
    {
      saved := !Conflicts(attempts, a);
      if saved {
        status, attempts := status[a.eventId := s], attempts + [a];
      }
    }
  }

  class DeliveryProcessor {
    const db: AppDbContext
    const opts: Options

    constructor (db: AppDbContext, opts: Options)
      ensures this.db == db && this.opts == opts
    {
      this.db, this.opts := db, opts;
    }

    /** Handles one pair: checks whether it is due and, if so, sends and commits the attempt. */
    method DeliverIfDue(ev: int, ep: int, reading: Reading, ghost was: Db, ghost vs: seq<Visit>, ghost k: nat)
      returns (responded: bool)
      requires DistinctPairs(vs) && k < |vs| && vs[k] == Visit(ev, ep, reading)
      requires db.Contents() == AfterVisits(opts, was, vs[..k])
      modifies db
      ensures db.Contents() == AfterVisits(opts, was, vs[..k + 1])
      ensures CountResponses(NewRows(opts, was.log, vs[..k + 1]))
           == CountResponses(NewRows(opts, was.log, vs[..k])) + if responded then 1 else 0
    {
      LiveStateAgrees(opts, was, vs, k);
      NextRows(opts, was.log, vs, k);
      responded := false;
      var (due, nextTry) := GetAttemptState(db.attempts, ev, ep, reading.checkedAt);
      if due {
        VisitAdds(opts, was, vs, k);
        var a := NewAttempt(opts, ev, ep, nextTry, reading);
        var saved := db.SaveChanges(a, Verdict(opts, a));
        responded := reading.outcome.Responded?;
      } else {
        assert NewRows(opts, was.log, vs[..k + 1]) == NewRows(opts, was.log, vs[..k]);
      }
    }

    /** One turn of the inner loop, visit `k` of the pass, unless an exception ends the pass there. */
    method DeliverNext(candidates: seq<int>, i: nat, order: seq<int>, j: nat, readings: seq<Reading>, k: nat,
                       ghost was: Db, ghost vs: seq<Visit>)
      returns (responded: bool, completed: bool)
      requires i < |candidates| && j < |order|
      requires vs == Visits(Cross(candidates, order), readings) && DistinctPairs(vs)
      requires k == |Cross(candidates[..i], order)| + j <= |vs|
      requires db.Contents() == AfterVisits(opts, was, vs[..k])
      modifies db
      ensures !completed ==> k == |vs| == |readings| < |Cross(candidates, order)|
      ensures !completed ==> db.Contents() == AfterVisits(opts, was, vs[..k])
      ensures completed ==> k < |vs| && db.Contents() == AfterVisits(opts, was, vs[..k + 1])
      ensures completed ==>
                CountResponses(NewRows(opts, was.log, vs[..k + 1]))
                == CountResponses(NewRows(opts, was.log, vs[..k])) + (if responded then 1 else 0)
    {
      VisitAt(candidates, order, readings, vs, i, j, k);
      if k == |readings| {
        return false, false;
      }
      responded := DeliverIfDue(candidates[i], order[j], readings[k], was, vs, k);
      completed := true;
    }

    /**
     The inner loop: one event of the batch and every endpoint, from visit `first` on. `next` is
     the first visit not made; `completed` is false when the readings ran out before the endpoints did.
     */
    method DeliverEvent(candidates: seq<int>, i: nat, order: seq<int>, readings: seq<Reading>, first: nat,
                        ghost was: Db, ghost vs: seq<Visit>)
      returns (responses: nat, next: nat, completed: bool)
      requires i < |candidates| && vs == Visits(Cross(candidates, order), readings) && DistinctPairs(vs)
      requires first == |Cross(candidates[..i], order)| <= |vs|
      requires db.Contents() == AfterVisits(opts, was, vs[..first])
      modifies db
      ensures next <= |vs|
      ensures completed ==> next == |Cross(candidates[..i + 1], order)|
      ensures !completed ==> next == |vs| == |readings| < |Cross(candidates, order)|
      ensures db.Contents() == AfterVisits(opts, was, vs[..next])
      ensures CountResponses(NewRows(opts, was.log, vs[..next]))
           == CountResponses(NewRows(opts, was.log, vs[..first])) + responses
    {
      responses, next := 0, first;
      ghost var earlier := CountResponses(NewRows(opts, was.log, vs[..first]));
      var j := 0;
      while j < |order|
        invariant 0 <= j <= |order|
        invariant next == first + j <= |vs|
        invariant db.Contents() == AfterVisits(opts, was, vs[..next])
        invariant CountResponses(NewRows(opts, was.log, vs[..next])) == earlier + responses
      {
        var responded;
        responded, completed := DeliverNext(candidates, i, order, j, readings, next, was, vs);
        if !completed {
          return;
        }
        if responded {
          responses := responses + 1;
        }
        j, next := j + 1, next + 1;
      }
      CrossStep(candidates, order, i);
      completed := true;
    }

    /**
     `order` is what the active-endpoint query returned, in the arbitrary order it has.
     `completed` is false when the readings run out, that is, when an exception ends the pass.
     Without candidates or endpoints there is no pair to visit: the source's early returns of 0.
     */
    method ProcessOnce(order: seq<int>, readings: seq<Reading>) returns (processed: nat, completed: bool)
      requires Distinct(order)
      modifies db
      ensures db.Contents() == AfterPass(opts, old(db.Contents()), order, readings)
      ensures completed <==> |Candidates(opts, old(db.status))| * |order| <= |readings|
      ensures processed == |Answered(db.attempts, |old(db.attempts)|)|
    {
      ghost var was := db.Contents();
      var candidates := Candidates(opts, db.status);
      ghost var vs := Visits(Cross(candidates, order), readings);
      PassVisitsFacts(opts, was, order, readings);
      CrossSize(candidates, order);
      CountIsSize(was.log, PassRows(opts, was, order, readings));
      processed := 0;
      var next := 0;
      for i := 0 to |candidates|
        invariant next == |Cross(candidates[..i], order)| <= |vs|
        invariant db.Contents() == AfterVisits(opts, was, vs[..next])
        invariant processed == CountResponses(NewRows(opts, was.log, vs[..next]))
      {
        var responses;
        responses, next, completed := DeliverEvent(candidates, i, order, readings, next, was, vs);
        processed := processed + responses;
        if !completed {
          assert vs[..next] == vs;
          return;
        }
      }
      assert candidates[..|candidates|] == candidates;
      assert vs[..next] == vs;
      completed := true;
    }
  }

  /** The nested loops reach the visits of the pass one after the other. */
  lemma VisitAt(events: seq<int>, order: seq<int>, readings: seq<Reading>, vs: seq<Visit>, i: nat, j: nat, k: nat)
    requires i < |events| && j < |order|
    requires vs == Visits(Cross(events, order), readings)
    requires k == |Cross(events[..i], order)| + j
    ensures k < |Cross(events, order)|
    ensures k < |readings| ==> k < |vs| && vs[k] == Visit(events[i], order[j], readings[k])
    ensures k >= |readings| ==> |vs| == |readings|
  {
    CrossStep(events, order, i);
    var before := Cross(events[..i], order);
    assert (before + Row(events[i], order))[k] == (events[i], order[j]);
  }

  lemma CrossStep(events: seq<int>, order: seq<int>, i: nat)
    requires i < |events|
    ensures Cross(events[..i + 1], order) == Cross(events[..i], order) + Row(events[i], order)
    ensures Cross(events[..i], order) + Row(events[i], order) <= Cross(events, order)
  {
    assert events[..i + 1][..i] == events[..i];
    CrossPrefix(events, order, i + 1);
  }

  /** Rows written earlier in a pass never change what a later pair sees. */
  lemma LiveLogAgrees(o: Options, log: seq<Attempt>, vs: seq<Visit>, k: nat)
    requires DistinctPairs(vs) && k < |vs|
    ensures Latest(log + NewRows(o, log, vs[..k]), vs[k].eventId, vs[k].endpointId)
         == Latest(log, vs[k].eventId, vs[k].endpointId)
  {
    NewRowsMembers(o, log, vs[..k]);
    LatestIgnoresOtherPairs(log, NewRows(o, log, vs[..k]), vs[k].eventId, vs[k].endpointId);
  }

  lemma LiveStateAgrees(o: Options, db: Db, vs: seq<Visit>, k: nat)
    requires DistinctPairs(vs) && k < |vs|
    ensures GetAttemptState(AfterVisits(o, db, vs[..k]).log, vs[k].eventId, vs[k].endpointId, vs[k].reading.checkedAt)
         == GetAttemptState(db.log, vs[k].eventId, vs[k].endpointId, vs[k].reading.checkedAt)
  {
    LiveLogAgrees(o, db.log, vs, k);
  }

  /** A due visit is accepted by the index and moves the database from k visits to k + 1. */
  lemma VisitAdds(o: Options, db: Db, vs: seq<Visit>, k: nat)
    requires DistinctPairs(vs) && k < |vs| && IsDue(db.log, vs[k])
    ensures
      var live, a := AfterVisits(o, db, vs[..k]), RowOf(o, db.log, vs[k]);
      && !Conflicts(live.log, a)
      && AfterVisits(o, db, vs[..k + 1]) == Db(live.status[vs[k].eventId := Verdict(o, a)], live.log + [a])
      && CountResponses(NewRows(o, db.log, vs[..k + 1]))
         == CountResponses(NewRows(o, db.log, vs[..k])) + if vs[k].reading.outcome.Responded? then 1 else 0
  {
    var v := vs[k];
    LiveStateAgrees(o, db, vs, k);
    NextTryIsFree(o, AfterVisits(o, db, vs[..k]).log, v.eventId, v.endpointId, v.reading);
    NextRows(o, db.log, vs, k);
    RestatusSnoc(o, db, NewRows(o, db.log, vs[..k]), RowOf(o, db.log, v));
  }

  lemma NextRows(o: Options, log: seq<Attempt>, vs: seq<Visit>, k: nat)
    requires k < |vs|
    ensures NewRows(o, log, vs[..k + 1])
         == NewRows(o, log, vs[..k]) + if IsDue(log, vs[k]) then [RowOf(o, log, vs[k])] else []
  {
    NewRowsSnoc(o, log, vs[..k], vs[k]);
    assert vs[..k] + [vs[k]] == vs[..k + 1];
  }

  lemma RestatusSnoc(o: Options, db: Db, rows: seq<Attempt>, a: Attempt)
    ensures Restatus(o, db.status, rows + [a]) == Restatus(o, db.status, rows)[a.eventId := Verdict(o, a)]
    ensures CountResponses(rows + [a]) == CountResponses(rows) + if a.responseCode.Some? then 1 else 0
    ensures db.log + (rows + [a]) == db.log + rows + [a]
  {
    assert (rows + [a])[..|rows|] == rows;
  }
}
