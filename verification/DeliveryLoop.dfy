/** The background loop that repeats passes and sleeps after a pass that processed nothing. */
module DeliveryLoop {
  import opened Wrappers
  import opened DeliveryRules
  import opened DeliveryPass
  import opened DeliveryRuns

  /** Among the attempts from `first` on there is one with a response. */
  predicate HasResponse(log: seq<Attempt>, first: nat) {
    exists j :: first <= j < |log| && log[j].responseCode.Some?
  }

  /** The pass from `before` to `after` ran to its end and committed an attempt with a response. */
  predicate Delivered(o: Options, before: Db, s: Step, after: Db)
    requires s.Pass?
  {
    Completes(o, before, s) && HasResponse(after.log, |before.log|)
  }

  /** It had a reading for every batched event and listed endpoint, and some attempt it added has a response code. */
  lemma DeliveredIff(o: Options, before: Db, s: Step, after: Db)
    requires s.Pass?
    ensures Delivered(o, before, s, after) <==>
              && |Candidates(o, before.status)| * |s.order| <= |s.readings|
              && exists j :: |before.log| <= j < |after.log| && after.log[j].responseCode.Some?
  {
    CrossSize(Candidates(o, before.status), s.order);
  }

  ghost predicate AllPasses(polls: seq<Step>) {
    forall s :: s in polls ==> s.Pass? && s.Valid()
  }

  /** The database before poll number `i` of a loop that started in `db`. */
  function StateAt(o: Options, db: Db, polls: seq<Step>, i: nat): Db
    requires i <= |polls|
  {
    if i == 0 then db else Apply(o, StateAt(o, db, polls, i - 1), polls[i - 1])
  }

  lemma {:induction false} StateAtIsRun(o: Options, db: Db, polls: seq<Step>, i: nat)
    requires i <= |polls|
    ensures StateAt(o, db, polls, i) == RunFrom(o, db, polls[..i])
  {
    if i > 0 {
      StateAtIsRun(o, db, polls, i - 1);
      assert polls[..i][..i - 1] == polls[..i - 1];
    }
  }

  /** What poll number `i` did was a delivery. */
  ghost predicate DeliveredAt(o: Options, db: Db, polls: seq<Step>, i: nat)
    requires i < |polls| && AllPasses(polls)
  {
    Delivered(o, StateAt(o, db, polls, i), polls[i], StateAt(o, db, polls, i + 1))
  }

  lemma ResponseIffAnswered(log: seq<Attempt>, first: nat)
    ensures |Answered(log, first)| > 0 <==> HasResponse(log, first)
  {
    Inhabited(Answered(log, first));
    if HasResponse(log, first) {
      var j :| first <= j < |log| && log[j].responseCode.Some?;
      assert j in Answered(log, first);
    }
  }

  class DeliveryWorker {
    const processor: DeliveryProcessor

    constructor (processor: DeliveryProcessor)
      ensures this.processor == processor
    {
      this.processor := processor;
    }

    /**
     One turn of the loop: a pass, and the decision to sleep. It stays awake exactly if it has been
     cancelled, or the pass ran to its end and some attempt it committed got a response.
     */
    method Poll(s: Step, cancelled: bool) returns (sleep: bool)
      requires s.Pass? && s.Valid()
      modifies processor.db
      ensures processor.db.Contents() == Apply(processor.opts, old(processor.db.Contents()), s)
      ensures !sleep <==>
                cancelled || Delivered(processor.opts, old(processor.db.Contents()), s, processor.db.Contents())
    {
      CrossSize(Candidates(processor.opts, processor.db.status), s.order);
      var count, completed := processor.ProcessOnce(s.order, s.readings);
      ResponseIffAnswered(processor.db.attempts, |old(processor.db.attempts)|);
      sleep := !cancelled && (!completed || count == 0);
    }

    /**
     One pass per poll until the loop is cancelled, which happens in poll number `cancelledIn`,
     or in none of them. That poll is the last. The loop stays awake exactly after it and after the
     polls that ran to their end and committed an attempt with a response.
     */
    method Execute(polls: seq<Step>, cancelledIn: nat) returns (slept: seq<bool>)
      requires AllPasses(polls)
      modifies processor.db
      ensures |slept| == Min(|polls|, cancelledIn + 1)
      ensures processor.db.Contents() == StateAt(processor.opts, old(processor.db.Contents()), polls, |slept|)
      ensures forall i :: 0 <= i < |slept| ==>
                (!slept[i] <==> i == cancelledIn || DeliveredAt(processor.opts, old(processor.db.Contents()), polls, i))
    {
      ghost var was := processor.db.Contents();
      slept := [];
      var i, cancelled := 0, false;
      while i < |polls| && !cancelled
        invariant 0 <= i == |slept| <= |polls| && i <= cancelledIn + 1 && cancelled == (i == cancelledIn + 1)
        invariant processor.db.Contents() == StateAt(processor.opts, was, polls, i)
        invariant forall k :: 0 <= k < i ==>
                    (!slept[k] <==> k == cancelledIn || DeliveredAt(processor.opts, was, polls, k))
      {
        assert polls[i] in polls;
        cancelled := i == cancelledIn;
        var sleep := Poll(polls[i], cancelled);
        slept := slept + [sleep];
        i := i + 1;
      }
    }
  }

  // ----- the loop does not spin -----

  /** A complete pass over exactly the endpoints `eps` during which the clock stands at `t`. */
  ghost predicate Frozen(o: Options, db: Db, s: Step, eps: set<int>, t: int) {
    && s.Pass?
    && (forall p :: p in s.order <==> p in eps)
    && Completes(o, db, s)
    && forall r :: r in s.readings ==> r.checkedAt == r.sentAt == r.scheduledFrom == t
  }

  ghost predicate FrozenRun(o: Options, db: Db, polls: seq<Step>, eps: set<int>, t: int) {
    polls != [] ==>
      && FrozenRun(o, db, polls[..|polls| - 1], eps, t)
      && Frozen(o, RunFrom(o, db, polls[..|polls| - 1]), Last(polls), eps, t)
  }

  /** Such passes are possible in any number, whatever comes back. */
  lemma {:induction false} FrozenRunExists(o: Options, db: Db, order: seq<int>, t: int, outcome: nat -> Outcome, n: nat)
    returns (polls: seq<Step>)
    requires Distinct(order)
    ensures |polls| == n && AllPasses(polls) && FrozenRun(o, db, polls, Listed(order), t)
  {
    if n == 0 {
      polls := [];
    } else {
      var before := FrozenRunExists(o, db, order, t, outcome, n - 1);
      var s := PassAllAt(o, RunFrom(o, db, before), order, t, outcome);
      PassAllCompletes(o, RunFrom(o, db, before), order, t, outcome);
      polls := before + [s];
      assert polls[..n - 1] == before;
    }
  }

  ghost predicate PositiveBackoff(o: Options) {
    forall i :: 0 <= i < |o.backoffSeconds| ==> o.backoffSeconds[i] > 0
  }

  predicate DueAt(log: seq<Attempt>, e: int, p: int, t: int) {
    GetAttemptState(log, e, p, t).0
  }

  /** The pending events with a pair that is due at `t`. */
  function Hot(db: Db, eps: set<int>, t: int): set<int> {
    set e | e in Pending(db.status) && exists p :: p in eps && DueAt(db.log, e, p, t)
  }

  /** Those with a due pair whose next failure would leave the event Failed. */
  function Warm(o: Options, db: Db, eps: set<int>, t: int): set<int> {
    set e | e in Pending(db.status)
         && exists p :: p in eps && DueAt(db.log, e, p, t) && |PairLog(db.log, e, p)| + 1 < Limit(o)
  }

  lemma SamePairSameState(o: Options, log: seq<Attempt>, log': seq<Attempt>, e: int, p: int, t: int)
    requires Lawful(o, log) && Lawful(o, log')
    requires PairLog(log, e, p) == PairLog(log', e, p)
    ensures DueAt(log, e, p, t) == DueAt(log', e, p, t)
  {
    LawfulPair(o, log, e, p);
    LawfulPair(o, log', e, p);
  }

  lemma UnattemptedStaysAsIs(o: Options, db: Db, s: Step, eps: set<int>, t: int, e: int)
    requires Consistent(o, db) && s.Pass? && s.Valid()
    requires EventLog(StepRows(o, db, s), e) == []
    ensures e in Hot(Apply(o, db, s), eps, t) <==> e in Hot(db, eps, t)
    ensures e in Warm(o, Apply(o, db, s), eps, t) <==> e in Warm(o, db, eps, t)
  {
    var after := Apply(o, db, s);
    PassKeepsConsistent(o, db, s);
    StepWithoutAttempt(o, db, s, e);
    RowsOfPending(o, db, s);
    RestatusKeys(o, db.status, StepRows(o, db, s));
    forall p ensures DueAt(after.log, e, p, t) == DueAt(db.log, e, p, t) {
      SamePairSameState(o, db.log, after.log, e, p, t);
    }
  }

  /** A pair has gained one attempt, dated by its own backoff from `t` on if it is a failure that has one. */
  predicate GainsRowAt(o: Options, was: seq<Attempt>, now: seq<Attempt>, t: int) {
    && |now| == |was| + 1
    && (Last(now).success || |was| >= |o.backoffSeconds|
        || Last(now).nextAttemptAt == Some(t + o.backoffSeconds[|was|] * TICKS_PER_SECOND))
  }

  lemma VisitGainsRow(o: Options, log: seq<Attempt>, e: int, p: int, r: Reading)
    requires Lawful(o, log)
    ensures GainsRowAt(o, PairLog(log, e, p), PairLog(log, e, p) + [RowOf(o, log, Visit(e, p, r))], r.scheduledFrom)
  {
    NextAttemptMeaning(o, log, e, p, r);
  }

  /** In a complete pass a batched event gains a row from a listed endpoint exactly if that pair was due. */
  lemma PairAfterFrozenPass(o: Options, db: Db, s: Step, eps: set<int>, t: int, e: int, p: int)
    requires Consistent(o, db) && s.Valid() && Frozen(o, db, s, eps, t)
    requires e in Candidates(o, db.status) && p in eps
    ensures
      var was, now := PairLog(db.log, e, p), PairLog(Apply(o, db, s).log, e, p);
      if DueAt(db.log, e, p, t) then GainsRowAt(o, was, now, t) else now == was
  {
    var r := VisitAddsRow(o, db, s, e, p);
    if DueAt(db.log, e, p, t) {
      VisitGainsRow(o, db.log, e, p, r);
      assert PairLog(Apply(o, db, s).log, e, p) == PairLog(db.log, e, p) + [RowOf(o, db.log, Visit(e, p, r))];
    }
  }

  /** No pair of an event attempted at `t` is both due at `t` again and short of its limit. */
  lemma AttemptLeavesWarm(o: Options, db: Db, s: Step, eps: set<int>, t: int, e: int, p: int)
    requires Consistent(o, db) && s.Valid() && Frozen(o, db, s, eps, t) && PositiveBackoff(o)
    requires e in Candidates(o, db.status) && p in eps
    ensures
      var log := Apply(o, db, s).log;
      DueAt(log, e, p, t) ==> DueAt(db.log, e, p, t) && |PairLog(log, e, p)| > |o.backoffSeconds|
                              && |PairLog(log, e, p)| == |PairLog(db.log, e, p)| + 1
  {
    PassKeepsConsistent(o, db, s);
    PairAfterFrozenPass(o, db, s, eps, t, e, p);
    if DueAt(db.log, e, p, t) {
      AttemptStateMeaning(o, Apply(o, db, s).log, e, p, t);
    } else {
      SamePairSameState(o, db.log, Apply(o, db, s).log, e, p, t);
    }
  }

  /** An attempted event is no longer warm; if it was not warm before, or has one endpoint, it is no longer hot. */
  lemma AttemptCools(o: Options, db: Db, s: Step, eps: set<int>, t: int, e: int)
    requires Consistent(o, db) && s.Valid() && Frozen(o, db, s, eps, t) && PositiveBackoff(o)
    requires EventLog(StepRows(o, db, s), e) != []
    ensures e in Hot(db, eps, t)
    ensures e !in Warm(o, Apply(o, db, s), eps, t)
    ensures e !in Warm(o, db, eps, t) ==> e !in Hot(Apply(o, db, s), eps, t)
    ensures (forall p, q :: p in eps && q in eps ==> p == q) ==> e !in Hot(Apply(o, db, s), eps, t)
  {
    var a := Last(EventLog(StepRows(o, db, s), e));
    var r := AttemptedPair(o, db, s, e);
    AttemptedEvent(o, db, s, e);
    EndingAttempt(o, db, s, e);
    ExhaustedFromLimitOn(o, a.tryNumber);
    forall p | p in eps
      ensures
        var log := Apply(o, db, s).log;
        DueAt(log, e, p, t) ==> |PairLog(log, e, p)| > |o.backoffSeconds|
    {
      AttemptLeavesWarm(o, db, s, eps, t, e, p);
    }
  }

  function AwakePasses(o: Options, db: Db, polls: seq<Step>): nat
    requires forall s :: s in polls ==> s.Pass?
  {
    if polls == [] then 0
    else
      var before := polls[..|polls| - 1];
      AwakePasses(o, db, before)
      + if Delivered(o, RunFrom(o, db, before), Last(polls), RunFrom(o, db, polls)) then 1 else 0
  }

  /** How often one event can still be attempted at `t`: at most twice, with one endpoint at most once. */
  function HeatOf(o: Options, db: Db, eps: set<int>, t: int, e: int): nat {
    (if e in Hot(db, eps, t) then 1 else 0) + if |eps| > 1 && e in Warm(o, db, eps, t) then 1 else 0
  }

  lemma AtMostOneMember(eps: set<int>)
    requires |eps| <= 1
    ensures forall p, q :: p in eps && q in eps ==> p == q
  {
    forall p, q | p in eps && q in eps ensures p == q {
      if p != q {
        SubsetSize({p, q}, eps);
      }
    }
  }

  lemma AttemptTakesHeat(o: Options, db: Db, s: Step, eps: set<int>, t: int, e: int)
    requires Consistent(o, db) && s.Valid() && Frozen(o, db, s, eps, t) && PositiveBackoff(o)
    ensures HeatOf(o, Apply(o, db, s), eps, t, e) + Attempts(o, db, s, e) <= HeatOf(o, db, eps, t, e)
  {
    if EventLog(StepRows(o, db, s), e) == [] {
      UnattemptedStaysAsIs(o, db, s, eps, t, e);
    } else {
      AttemptCools(o, db, s, eps, t, e);
      if |eps| <= 1 {
        AtMostOneMember(eps);
      }
    }
  }

  function PassesAttempting(o: Options, db: Db, polls: seq<Step>, e: int): nat {
    if polls == [] then 0
    else
      var before := polls[..|polls| - 1];
      PassesAttempting(o, db, before, e) + Attempts(o, RunFrom(o, db, before), Last(polls), e)
  }

  /**
   At one instant no event is attempted in three passes, with one endpoint in no two, and if
   nothing is due in none.
   */
  lemma {:induction false} NoEventThrice(o: Options, db: Db, polls: seq<Step>, eps: set<int>, t: int, e: int)
    requires Consistent(o, db) && AllPasses(polls) && FrozenRun(o, db, polls, eps, t) && PositiveBackoff(o)
    ensures PassesAttempting(o, db, polls, e) + HeatOf(o, RunFrom(o, db, polls), eps, t, e) <= HeatOf(o, db, eps, t, e)
    ensures HeatOf(o, db, eps, t, e) <= if |eps| <= 1 then 1 else 2
    ensures e !in Pending(db.status) ==> HeatOf(o, db, eps, t, e) == 0
  {
    if polls != [] {
      var before, s := polls[..|polls| - 1], Last(polls);
      assert s in polls;
      NoEventThrice(o, db, before, eps, t, e);
      RunFromIsConsistent(o, db, before);
      AttemptTakesHeat(o, RunFrom(o, db, before), s, eps, t, e);
    }
  }

  /** The heat of some events together. */
  function HeatOfAll(o: Options, db: Db, eps: set<int>, t: int, events: seq<int>): nat {
    if events == [] then 0 else HeatOf(o, db, eps, t, events[0]) + HeatOfAll(o, db, eps, t, events[1..])
  }

  lemma {:induction false} PassTakesHeat(o: Options, db: Db, s: Step, eps: set<int>, t: int, events: seq<int>)
    requires Consistent(o, db) && s.Valid() && Frozen(o, db, s, eps, t) && PositiveBackoff(o)
    ensures HeatOfAll(o, Apply(o, db, s), eps, t, events) <= HeatOfAll(o, db, eps, t, events)
    ensures forall e :: e in events && EventLog(StepRows(o, db, s), e) != []
              ==> HeatOfAll(o, Apply(o, db, s), eps, t, events) < HeatOfAll(o, db, eps, t, events)
  {
    if events != [] {
      PassTakesHeat(o, db, s, eps, t, events[1..]);
      AttemptTakesHeat(o, db, s, eps, t, events[0]);
      assert events == [events[0]] + events[1..];
    }
  }

  /** A pass after which the loop stays awake has attempted some event. */
  lemma AwakePassAttempts(o: Options, db: Db, s: Step) returns (e: int)
    requires s.Pass? && s.Valid() && Delivered(o, db, s, Apply(o, db, s))
    ensures e in Pending(db.status) && EventLog(StepRows(o, db, s), e) != []
  {
    var rows := StepRows(o, db, s);
    e := rows[0].eventId;
    LogParts(rows, e, 0);
    assert rows[0] in EventLog(rows, e);
    RowsOfPending(o, db, s);
  }

  lemma {:induction false} AwakePassesCool(o: Options, db: Db, polls: seq<Step>, eps: set<int>, t: int,
                                           events: seq<int>)
    requires Consistent(o, db) && AllPasses(polls) && FrozenRun(o, db, polls, eps, t) && PositiveBackoff(o)
    requires forall e :: e in Pending(db.status) ==> e in events
    ensures AwakePasses(o, db, polls) + HeatOfAll(o, RunFrom(o, db, polls), eps, t, events)
         <= HeatOfAll(o, db, eps, t, events)
    ensures Pending(RunFrom(o, db, polls).status) <= Pending(db.status)
  {
    if polls != [] {
      var before, s := polls[..|polls| - 1], Last(polls);
      assert s in polls;
      AwakePassesCool(o, db, before, eps, t, events);
      RunFromIsConsistent(o, db, before);
      var mid := RunFrom(o, db, before);
      PassTakesHeat(o, mid, s, eps, t, events);
      PendingShrinks(o, mid, s);
      if Delivered(o, mid, s, Apply(o, mid, s)) {
        var e := AwakePassAttempts(o, mid, s);
      }
    }
  }

  lemma {:induction false} HeatBound(o: Options, db: Db, eps: set<int>, t: int, events: seq<int>)
    ensures HeatOfAll(o, db, eps, t, events) <= (if |eps| <= 1 then 1 else 2) * |events|
  {
    if events != [] {
      HeatBound(o, db, eps, t, events[1..]);
    }
  }

  /**
   With positive backoffs, at one instant and over a fixed set of endpoints, the loop stays awake
   at most twice per pending event, and with one endpoint at most once; so it sleeps at last in
   the pass after that many.
   */
  lemma LoopDoesNotSpin(o: Options, db: Db, polls: seq<Step>, eps: set<int>, t: int)
    requires Consistent(o, db) && AllPasses(polls) && FrozenRun(o, db, polls, eps, t) && PositiveBackoff(o)
    ensures AwakePasses(o, db, polls) <= (if |eps| <= 1 then 1 else 2) * |Pending(db.status)|
    ensures |polls| > (if |eps| <= 1 then 1 else 2) * |Pending(db.status)| ==>
              exists i :: 0 <= i < |polls| && !DeliveredAt(o, db, polls, i)
  {
    var events := Ascending(Pending(db.status));
    AscendingLists(Pending(db.status));
    AwakePassesCool(o, db, polls, eps, t, events);
    HeatBound(o, db, eps, t, events);
    AllAwake(o, db, polls);
  }

  lemma SameStates(o: Options, db: Db, polls: seq<Step>, n: nat, i: nat)
    requires i <= n <= |polls|
    ensures StateAt(o, db, polls[..n], i) == StateAt(o, db, polls, i)
  {
    StateAtIsRun(o, db, polls[..n], i);
    StateAtIsRun(o, db, polls, i);
    assert polls[..n][..i] == polls[..i];
  }

  lemma {:induction false} AllAwake(o: Options, db: Db, polls: seq<Step>)
    requires AllPasses(polls)
    ensures (forall i :: 0 <= i < |polls| ==> DeliveredAt(o, db, polls, i)) ==> AwakePasses(o, db, polls) == |polls|
  {
    if polls != [] && forall i :: 0 <= i < |polls| ==> DeliveredAt(o, db, polls, i) {
      var n := |polls| - 1;
      forall i | 0 <= i < n ensures DeliveredAt(o, db, polls[..n], i) {
        assert DeliveredAt(o, db, polls, i);
        SameStates(o, db, polls, n, i);
        SameStates(o, db, polls, n, i + 1);
      }
      AllAwake(o, db, polls[..n]);
      assert DeliveredAt(o, db, polls, n) && polls[..n + 1] == polls;
      StateAtIsRun(o, db, polls, n);
      StateAtIsRun(o, db, polls, n + 1);
    }
  }
}
