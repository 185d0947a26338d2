/**
 The retry rules of the delivery processor and the append-only attempt log they govern.
 A log is a sequence of attempts in commit order. `Lawful` says that every attempt was
 allowed by the attempts before it; everything else about one (event, endpoint) pair
 follows from that, whoever wrote the log.
 */
module DeliveryRules {
  import opened Wrappers

  const TICKS_PER_SECOND := 10_000_000

  /** `DeliveryOptions`; instants are UTC ticks, backoffs are seconds. */
  datatype Options = Options(batchSize: nat, backoffSeconds: seq<int>, maxAttempts: int)

  datatype Status = New | Dispatched | Failed | DeadLetter

  datatype Attempt = Attempt(
    eventId: int,
    endpointId: int,
    tryNumber: int,
    sentAt: int,
    responseCode: Option<int>,
    success: bool,
    nextAttemptAt: Option<int>)

  /** What the HTTP pipeline did with one request. */
  datatype Outcome = Responded(code: int) | Threw {
    predicate IsSuccess() {
      Responded? && 200 <= code <= 299
    }
  }

  /** The clock as read while one pair is handled, in reading order, and the outcome of the send. */
  datatype Reading = Reading(checkedAt: int, sentAt: int, scheduledFrom: int, outcome: Outcome) {
    predicate InOrder() {
      checkedAt <= sentAt <= scheduledFrom
    }
  }

  // ----- the rules -----

  function ComputeNextAttemptAt(o: Options, tryNumber: int, now: int): Option<int> {
    var index := tryNumber - 1;
    if index < 0 || index >= |o.backoffSeconds| then None
    else Some(now + o.backoffSeconds[index] * TICKS_PER_SECOND)
  }

  predicate IsExhausted(o: Options, tryNumber: int) {
    var index := tryNumber - 1;
    index >= |o.backoffSeconds| || tryNumber >= o.maxAttempts
  }

  /** The number of failures after which a pair dead-letters its event. */
  function Limit(o: Options): (l: int)
    ensures l >= 1
  {
    Max(1, Min(o.maxAttempts, |o.backoffSeconds| + 1))
  }

  lemma ExhaustedFromLimitOn(o: Options, tryNumber: int)
    requires tryNumber >= 1
    ensures IsExhausted(o, tryNumber) <==> tryNumber >= Limit(o)
    ensures tryNumber >= Limit(o) <==> tryNumber > |o.backoffSeconds| || tryNumber >= o.maxAttempts
    ensures !IsExhausted(o, tryNumber) ==> ComputeNextAttemptAt(o, tryNumber, 0).Some?
  {
  }

  predicate IsFor(a: Attempt, e: int, p: int) {
    a.eventId == e && a.endpointId == p
  }

  /** The attempt with the highest try number of a pair. */
  function Latest(log: seq<Attempt>, e: int, p: int): Option<Attempt> {
    if log == [] then None
    else
      var before := Latest(log[..|log| - 1], e, p);
      var a := Last(log);
      if IsFor(a, e, p) && (before.None? || before.value.tryNumber <= a.tryNumber) then Some(a) else before
  }

  lemma {:induction false} LatestIsHighest(log: seq<Attempt>, e: int, p: int)
    ensures Latest(log, e, p).None? <==> forall a :: a in log ==> !IsFor(a, e, p)
    ensures Latest(log, e, p).Some? ==> Latest(log, e, p).value in log && IsFor(Latest(log, e, p).value, e, p)
    ensures Latest(log, e, p).Some? ==>
              forall a :: a in log && IsFor(a, e, p) ==> a.tryNumber <= Latest(log, e, p).value.tryNumber
  {
    if log != [] {
      LatestIsHighest(log[..|log| - 1], e, p);
      assert log == log[..|log| - 1] + [Last(log)];
    }
  }

  /** Whether a pair may be attempted now, and the number the attempt would get. */
  function GetAttemptState(log: seq<Attempt>, e: int, p: int, now: int): (bool, int) {
    Decide(Latest(log, e, p), now)
  }

  /** The decision on the attempt that was fetched; the clock is read only here. */
  function Decide(last: Option<Attempt>, now: int): (bool, int) {
    if last.None? then (true, 1)
    else if last.value.success then (false, last.value.tryNumber + 1)
    else if last.value.nextAttemptAt.Some? then (last.value.nextAttemptAt.value <= now, last.value.tryNumber + 1)
    else (true, last.value.tryNumber + 1)
  }

  /** The row written for a send, in the response branch and in the exception branch. */
  function NewAttempt(o: Options, e: int, p: int, tryNumber: int, r: Reading): Attempt {
    if r.outcome.Responded? then
      Attempt(e, p, tryNumber, r.sentAt, Some(r.outcome.code), r.outcome.IsSuccess(),
              if r.outcome.IsSuccess() then None else ComputeNextAttemptAt(o, tryNumber, r.scheduledFrom))
    else
      Attempt(e, p, tryNumber, r.sentAt, None, false, ComputeNextAttemptAt(o, tryNumber, r.scheduledFrom))
  }

  /** The status an event is given together with one of its attempts. */
  function Verdict(o: Options, a: Attempt): Status {
    if a.success then Dispatched
    else if IsExhausted(o, a.tryNumber) then DeadLetter
    else Failed
  }

  /** The unique index on (event, endpoint, try). */
  predicate Conflicts(log: seq<Attempt>, a: Attempt) {
    exists b :: b in log && IsFor(b, a.eventId, a.endpointId) && b.tryNumber == a.tryNumber
  }

  // ----- lawful logs -----

  predicate LawfulNext(o: Options, log: seq<Attempt>, a: Attempt) {
    var last := Latest(log, a.eventId, a.endpointId);
    && a.tryNumber == (if last.None? then 1 else last.value.tryNumber + 1)
    && (last.Some? ==> !last.value.success)
    && (last.Some? && last.value.nextAttemptAt.Some? ==> last.value.nextAttemptAt.value <= a.sentAt)
    && Scheduled(o, a)
  }

  /** A success schedules nothing; a failure schedules its own backoff if there is one. */
  predicate Scheduled(o: Options, a: Attempt) {
    if a.success || a.tryNumber < 1 || a.tryNumber > |o.backoffSeconds| then a.nextAttemptAt.None?
    else a.nextAttemptAt.Some?
         && a.nextAttemptAt.value >= a.sentAt + o.backoffSeconds[a.tryNumber - 1] * TICKS_PER_SECOND
  }

  predicate Lawful(o: Options, log: seq<Attempt>) {
    log == [] || (Lawful(o, log[..|log| - 1]) && LawfulNext(o, log[..|log| - 1], Last(log)))
  }

  lemma NewAttemptIsLawful(o: Options, log: seq<Attempt>, e: int, p: int, r: Reading)
    requires r.InOrder()
    requires GetAttemptState(log, e, p, r.checkedAt).0
    ensures LawfulNext(o, log, NewAttempt(o, e, p, GetAttemptState(log, e, p, r.checkedAt).1, r))
  {
  }

  lemma LawfulSnoc(o: Options, log: seq<Attempt>, a: Attempt)
    requires Lawful(o, log) && LawfulNext(o, log, a)
    ensures Lawful(o, log + [a])
  {
    assert (log + [a])[..|log|] == log;
  }

  /** Whatever the log, the number handed out for the next try is free in the unique index. */
  lemma NextTryIsFree(o: Options, log: seq<Attempt>, e: int, p: int, r: Reading)
    ensures !Conflicts(log, NewAttempt(o, e, p, GetAttemptState(log, e, p, r.checkedAt).1, r))
  {
    LatestIsHighest(log, e, p);
  }

  // ----- the part of a log that belongs to one pair or to one event -----

  function PairLog(log: seq<Attempt>, e: int, p: int): seq<Attempt> {
    if log == [] then []
    else PairLog(log[..|log| - 1], e, p) + if IsFor(Last(log), e, p) then [Last(log)] else []
  }

  function EventLog(log: seq<Attempt>, e: int): seq<Attempt> {
    if log == [] then []
    else EventLog(log[..|log| - 1], e) + if Last(log).eventId == e then [Last(log)] else []
  }

  lemma {:induction false} LogParts(log: seq<Attempt>, e: int, p: int)
    ensures forall a :: a in PairLog(log, e, p) <==> a in log && IsFor(a, e, p)
    ensures forall a :: a in EventLog(log, e) <==> a in log && a.eventId == e
  {
    if log != [] {
      LogParts(log[..|log| - 1], e, p);
      assert log == log[..|log| - 1] + [Last(log)];
    }
  }

  lemma {:induction false} PairLogAppend(log: seq<Attempt>, more: seq<Attempt>, e: int, p: int)
    ensures PairLog(log + more, e, p) == PairLog(log, e, p) + PairLog(more, e, p)
  {
    if more == [] {
      assert log + more == log;
    } else {
      assert (log + more)[..|log + more| - 1] == log + more[..|more| - 1];
      PairLogAppend(log, more[..|more| - 1], e, p);
    }
  }

  lemma {:induction false} EventLogAppend(log: seq<Attempt>, more: seq<Attempt>, e: int)
    ensures EventLog(log + more, e) == EventLog(log, e) + EventLog(more, e)
  {
    if more == [] {
      assert log + more == log;
    } else {
      assert (log + more)[..|log + more| - 1] == log + more[..|more| - 1];
      EventLogAppend(log, more[..|more| - 1], e);
    }
  }

  lemma OneRowLogs(a: Attempt, e: int, p: int)
    ensures PairLog([a], e, p) == if IsFor(a, e, p) then [a] else []
    ensures EventLog([a], e) == if a.eventId == e then [a] else []
  {
    assert [a][..0] == [];
  }

  lemma {:induction false} NoEventNoPair(log: seq<Attempt>, e: int, p: int)
    requires EventLog(log, e) == []
    ensures PairLog(log, e, p) == []
  {
    if log != [] {
      NoEventNoPair(log[..|log| - 1], e, p);
    }
  }

  lemma {:induction false} LatestIgnoresOtherPairs(log: seq<Attempt>, more: seq<Attempt>, e: int, p: int)
    requires forall a :: a in more ==> !IsFor(a, e, p)
    ensures Latest(log + more, e, p) == Latest(log, e, p)
  {
    if more == [] {
      assert log + more == log;
    } else {
      assert (log + more)[..|log + more| - 1] == log + more[..|more| - 1];
      LatestIgnoresOtherPairs(log, more[..|more| - 1], e, p);
    }
  }

  // ----- what lawfulness means for one pair -----

  /** Tries are 1, 2, 3, ... and only the last attempt of a pair can be a success. */
  ghost predicate Numbered(pl: seq<Attempt>) {
    && (forall i :: 0 <= i < |pl| ==> pl[i].tryNumber == i + 1)
    && (forall i :: 0 <= i < |pl| - 1 ==> !pl[i].success)
  }

  lemma {:induction false} LawfulPair(o: Options, log: seq<Attempt>, e: int, p: int)
    requires Lawful(o, log)
    ensures Numbered(PairLog(log, e, p))
    ensures Latest(log, e, p) == if PairLog(log, e, p) == [] then None else Some(Last(PairLog(log, e, p)))
  {
    if log != [] {
      var before, a := log[..|log| - 1], Last(log);
      LawfulPair(o, before, e, p);
      var pl := PairLog(before, e, p);
      if IsFor(a, e, p) {
        assert LawfulNext(o, before, a);
        assert a.tryNumber == |pl| + 1;
        assert Latest(log, e, p) == Some(a);
        assert PairLog(log, e, p) == pl + [a];
        assert pl != [] ==> !Last(pl).success;
      } else {
        assert PairLog(log, e, p) == pl;
        assert Latest(log, e, p) == Latest(before, e, p);
      }
    }
  }

  lemma InPairLog(log: seq<Attempt>, e: int, p: int, b: Attempt)
    requires b in log && IsFor(b, e, p) && Numbered(PairLog(log, e, p))
    ensures 1 <= b.tryNumber <= |PairLog(log, e, p)| && PairLog(log, e, p)[b.tryNumber - 1] == b
  {
    LogParts(log, e, p);
    var i :| 0 <= i < |PairLog(log, e, p)| && PairLog(log, e, p)[i] == b;
  }

  /**
   What the attempt state of a pair means: the next try continues its numbering, and it is due
   unless the pair has succeeded or the backoff after its last failure is still running.
   */
  lemma {:induction false} AttemptStateMeaning(o: Options, log: seq<Attempt>, e: int, p: int, now: int)
    requires Lawful(o, log)
    ensures
      var pl := PairLog(log, e, p);
      var (due, nextTry) := GetAttemptState(log, e, p, now);
      && nextTry == |pl| + 1
      && (pl != [] && !Last(pl).success && |pl| <= |o.backoffSeconds| ==> Last(pl).nextAttemptAt.Some?)
      && (due <==> pl == [] || (!Last(pl).success
                                && (|pl| <= |o.backoffSeconds| ==> Last(pl).nextAttemptAt.value <= now)))
  {
    LawfulPair(o, log, e, p);
    LawfulGaps(o, log, e, p);
    LogParts(log, e, p);
    var pl := PairLog(log, e, p);
    if pl != [] {
      assert Last(pl) in pl && Scheduled(o, Last(pl));
    }
  }

  /**
   The row of the next send of a pair: numbered after its attempts so far, with the code of the
   response if there was one, a success exactly for a 2xx response, and dated by its own backoff,
   in ticks, exactly when it is a failure that has one.
   */
  lemma {:induction false} NextAttemptMeaning(o: Options, log: seq<Attempt>, e: int, p: int, r: Reading)
    requires Lawful(o, log)
    ensures
      var n := |PairLog(log, e, p)|;
      var a := NewAttempt(o, e, p, GetAttemptState(log, e, p, r.checkedAt).1, r);
      && IsFor(a, e, p) && a.tryNumber == n + 1 && a.sentAt == r.sentAt
      && a.responseCode == (if r.outcome.Responded? then Some(r.outcome.code) else None)
      && (a.success <==> r.outcome.Responded? && 200 <= r.outcome.code <= 299)
      && a.nextAttemptAt == (if a.success || n >= |o.backoffSeconds| then None
                             else Some(r.scheduledFrom + o.backoffSeconds[n] * 10_000_000))
  {
    LawfulPair(o, log, e, p);
  }

  /** The earliest instant at which the attempt after `a` may be sent. */
  ghost predicate Waits(o: Options, a: Attempt, b: Attempt) {
    1 <= a.tryNumber <= |o.backoffSeconds| ==>
      b.sentAt - a.sentAt >= o.backoffSeconds[a.tryNumber - 1] * TICKS_PER_SECOND
  }

  lemma {:induction false} LawfulGaps(o: Options, log: seq<Attempt>, e: int, p: int)
    requires Lawful(o, log)
    ensures forall a :: a in log ==> Scheduled(o, a)
    ensures forall i :: 0 < i < |PairLog(log, e, p)| ==> Waits(o, PairLog(log, e, p)[i - 1], PairLog(log, e, p)[i])
  {
    if log != [] {
      var before := log[..|log| - 1];
      assert log == before + [Last(log)];
      LawfulGaps(o, before, e, p);
      LawfulPair(o, before, e, p);
      var pl := PairLog(before, e, p);
      LogParts(before, e, p);
      if IsFor(Last(log), e, p) && pl != [] {
        assert Scheduled(o, Last(pl));
        assert Waits(o, Last(pl), Last(log));
      }
    }
  }

  function BackoffSum(o: Options, n: nat): int
    requires n <= |o.backoffSeconds|
  {
    if n == 0 then 0 else BackoffSum(o, n - 1) + o.backoffSeconds[n - 1] * TICKS_PER_SECOND
  }

  lemma BackoffSumGrows(o: Options, n: nat)
    requires n < |o.backoffSeconds|
    ensures BackoffSum(o, 0) == 0 && BackoffSum(o, n + 1) == BackoffSum(o, n) + o.backoffSeconds[n] * 10_000_000
  {
  }

  /** Over a whole log, attempt i + 1 of a pair comes no earlier than the first i backoffs after attempt 1. */
  lemma {:induction false} BackoffOverWholeLog(o: Options, log: seq<Attempt>, e: int, p: int, i: nat)
    requires Lawful(o, log)
    requires i < |PairLog(log, e, p)| && i <= |o.backoffSeconds|
    ensures PairLog(log, e, p)[i].sentAt - PairLog(log, e, p)[0].sentAt >= BackoffSum(o, i)
  {
    if i > 0 {
      BackoffOverWholeLog(o, log, e, p, i - 1);
      LawfulGaps(o, log, e, p);
      LawfulPair(o, log, e, p);
      assert Waits(o, PairLog(log, e, p)[i - 1], PairLog(log, e, p)[i]);
    }
  }
}
