/**
 Several workers on one database. Each fetches a pair's latest attempt, reads the clock and
 decides, sends and reads the clock, reads it again for the date, and saves; between any two of
 these moments the others may do anything. Only the unique index on (event, endpoint, try) keeps
 them apart: a refused save ends its worker, whose context keeps the refused row for good.
 */
module ConcurrentWorkers {
  import opened Wrappers
  import opened DeliveryRules

  datatype Phase =
    | Idle
    | Fetched(eventId: int, endpointId: int, latest: Option<Attempt>)
    | Checked(eventId: int, endpointId: int, nextTry: int, checkedAt: int)
    | Sent(eventId: int, endpointId: int, nextTry: int, checkedAt: int, sentAt: int, outcome: Outcome)
    | Prepared(row: Attempt)
    | Dead

  datatype State = State(log: seq<Attempt>, clock: int, workers: seq<Phase>)

  datatype Move =
    | Tick(d: nat)
    | Fetch(worker: nat, eventId: int, endpointId: int)
    | Check(worker: nat)
    | Send(worker: nat, outcome: Outcome)
    | Prepare(worker: nat)
    | Save(worker: nat)
    | Replace(worker: nat)

  predicate Enabled(st: State, m: Move) {
    match m
    case Tick(_) => true
    case Fetch(i, _, _) => i < |st.workers| && st.workers[i].Idle?
    case Check(i) => i < |st.workers| && st.workers[i].Fetched?
    case Send(i, _) => i < |st.workers| && st.workers[i].Checked?
    case Prepare(i) => i < |st.workers| && st.workers[i].Sent?
    case Save(i) => i < |st.workers| && st.workers[i].Prepared?
    case Replace(i) => i < |st.workers|
  }

  /** What a worker is at after its next move but a save, at instant `now`. */
  function NextPhase(o: Options, log: seq<Attempt>, now: int, w: Phase, m: Move): Phase {
    match m
    case Fetch(_, e, p) => Fetched(e, p, Latest(log, e, p))
    case Check(_) =>
      if !w.Fetched? then w
      else
        var (due, nextTry) := Decide(w.latest, now);
        if due then Checked(w.eventId, w.endpointId, nextTry, now) else Idle
    case Send(_, outcome) =>
      if !w.Checked? then w else Sent(w.eventId, w.endpointId, w.nextTry, w.checkedAt, now, outcome)
    case Prepare(_) =>
      if !w.Sent? then w
      else
        Prepared(NewAttempt(o, w.eventId, w.endpointId, w.nextTry, Reading(w.checkedAt, w.sentAt, now, w.outcome)))
    case _ => Idle
  }

  function Apply(o: Options, st: State, m: Move): State
    requires Enabled(st, m)
  {
    if m.Tick? then st.(clock := st.clock + m.d)
    else if m.Save? && Conflicts(st.log, st.workers[m.worker].row) then
      st.(workers := st.workers[m.worker := Dead])
    else if m.Save? then
      st.(log := st.log + [st.workers[m.worker].row], workers := st.workers[m.worker := Idle])
    else
      st.(workers := st.workers[m.worker := NextPhase(o, st.log, st.clock, st.workers[m.worker], m)])
  }

  /** A move that is not enabled changes nothing. */
  function Execute(o: Options, start: State, moves: seq<Move>): State {
    if moves == [] then start
    else
      var st := Execute(o, start, moves[..|moves| - 1]);
      if Enabled(st, Last(moves)) then Apply(o, st, Last(moves)) else st
  }

  ghost predicate Initial(st: State) {
    st.log == [] && forall w :: w in st.workers ==> w.Idle?
  }

  // ----- the invariant -----

  /** What a worker's next try rests on: the failed try before it is committed and its date has come. */
  predicate Founded(log: seq<Attempt>, e: int, p: int, nextTry: int, now: int) {
    nextTry == 1
    || exists b :: b in log && IsFor(b, e, p) && b.tryNumber == nextTry - 1 && !b.success
                   && (b.nextAttemptAt.Some? ==> b.nextAttemptAt.value <= now)
  }

  /** Fetched attempts are committed, decisions and rows are founded at the instant they rest on. */
  ghost predicate PhaseOk(o: Options, log: seq<Attempt>, now: int, w: Phase) {
    match w
    case Fetched(e, p, latest) =>
      latest.Some? ==> latest.value in log && IsFor(latest.value, e, p) && latest.value.tryNumber >= 1
    case Checked(e, p, nextTry, checkedAt) => nextTry >= 1 && checkedAt <= now && Founded(log, e, p, nextTry, checkedAt)
    case Sent(e, p, nextTry, _, sentAt, _) => nextTry >= 1 && sentAt <= now && Founded(log, e, p, nextTry, sentAt)
    case Prepared(a) =>
      a.tryNumber >= 1 && Scheduled(o, a) && Founded(log, a.eventId, a.endpointId, a.tryNumber, a.sentAt)
    case _ => true
  }

  ghost predicate Invariant(o: Options, st: State) {
    Lawful(o, st.log) && forall w :: w in st.workers ==> PhaseOk(o, st.log, st.clock, w)
  }

  /** The index turns away any try number the pair has already used. */
  lemma AcceptedTryIsBeyond(o: Options, log: seq<Attempt>, a: Attempt)
    requires Lawful(o, log) && !Conflicts(log, a) && a.tryNumber >= 1
    ensures |PairLog(log, a.eventId, a.endpointId)| < a.tryNumber
  {
    var pl := PairLog(log, a.eventId, a.endpointId);
    LawfulPair(o, log, a.eventId, a.endpointId);
    LogParts(log, a.eventId, a.endpointId);
    assert forall i :: 0 <= i < |pl| ==> pl[i] in pl && pl[i].tryNumber == i + 1;
  }

  /** A row the index lets in continues its pair exactly where the pair stands now, however old the check is. */
  lemma {:induction false} AcceptedRowIsLawful(o: Options, log: seq<Attempt>, a: Attempt)
    requires Lawful(o, log) && !Conflicts(log, a)
    requires a.tryNumber >= 1 && Scheduled(o, a) && Founded(log, a.eventId, a.endpointId, a.tryNumber, a.sentAt)
    ensures LawfulNext(o, log, a)
  {
    var e, p, t := a.eventId, a.endpointId, a.tryNumber;
    AcceptedTryIsBeyond(o, log, a);
    LawfulPair(o, log, e, p);
    if t > 1 {
      var b :| b in log && IsFor(b, e, p) && b.tryNumber == t - 1 && !b.success
               && (b.nextAttemptAt.Some? ==> b.nextAttemptAt.value <= a.sentAt);
      InPairLog(log, e, p, b);
    }
  }

  lemma FoundedGrows(log: seq<Attempt>, log': seq<Attempt>, e: int, p: int, nextTry: int, now: int, later: int)
    requires Founded(log, e, p, nextTry, now) && log <= log' && now <= later
    ensures Founded(log', e, p, nextTry, later)
  {
    if nextTry != 1 {
      var b :| b in log && IsFor(b, e, p) && b.tryNumber == nextTry - 1 && !b.success
               && (b.nextAttemptAt.Some? ==> b.nextAttemptAt.value <= now);
      assert b in log';
    }
  }

  lemma FetchIsOk(o: Options, log: seq<Attempt>, now: int, e: int, p: int)
    requires Lawful(o, log)
    ensures PhaseOk(o, log, now, Fetched(e, p, Latest(log, e, p)))
  {
    LawfulPair(o, log, e, p);
    LatestIsHighest(log, e, p);
  }

  /** Whatever a worker does next on its own, it stays founded on committed attempts. */
  lemma NextPhaseIsOk(o: Options, log: seq<Attempt>, now: int, w: Phase, m: Move)
    requires Lawful(o, log) && PhaseOk(o, log, now, w)
    ensures PhaseOk(o, log, now, NextPhase(o, log, now, w, m))
  {
    match m
    case Fetch(_, e, p) => FetchIsOk(o, log, now, e, p);
    case Send(_, _) =>
      if w.Checked? {
        FoundedGrows(log, log, w.eventId, w.endpointId, w.nextTry, w.checkedAt, now);
      }
    case _ =>
  }

  lemma PhaseStaysOk(o: Options, log: seq<Attempt>, now: int, log': seq<Attempt>, later: int, w: Phase)
    requires PhaseOk(o, log, now, w) && log <= log' && now <= later
    ensures PhaseOk(o, log', later, w)
  {
    match w
    case Checked(e, p, n, t) => FoundedGrows(log, log', e, p, n, t, t);
    case Sent(e, p, n, _, t, _) => FoundedGrows(log, log', e, p, n, t, t);
    case Prepared(a) => FoundedGrows(log, log', a.eventId, a.endpointId, a.tryNumber, a.sentAt, a.sentAt);
    case _ =>
  }

  /** Every move adds at most one row, moves the clock forward, and gives the acting worker a sound phase. */
  lemma MoveKeepsInvariant(o: Options, st: State, m: Move)
    requires Invariant(o, st) && Enabled(st, m)
    ensures Invariant(o, Apply(o, st, m))
  {
    var st' := Apply(o, st, m);
    if m.Save? && !Conflicts(st.log, st.workers[m.worker].row) {
      var a := st.workers[m.worker].row;
      assert PhaseOk(o, st.log, st.clock, st.workers[m.worker]);
      AcceptedRowIsLawful(o, st.log, a);
      LawfulSnoc(o, st.log, a);
    }
    forall w | w in st.workers ensures PhaseOk(o, st'.log, st'.clock, w) {
      PhaseStaysOk(o, st.log, st.clock, st'.log, st'.clock, w);
    }
    if !m.Tick? {
      if !m.Save? {
        NextPhaseIsOk(o, st.log, st.clock, st.workers[m.worker], m);
      }
      assert forall w :: w in st'.workers ==> w in st.workers || w == st'.workers[m.worker];
    }
  }

  lemma {:induction false} EveryRunIsLawful(o: Options, start: State, moves: seq<Move>)
    requires Initial(start)
    ensures Invariant(o, Execute(o, start, moves))
  {
    if moves != [] {
      var before := moves[..|moves| - 1];
      EveryRunIsLawful(o, start, before);
      if Enabled(Execute(o, start, before), Last(moves)) {
        MoveKeepsInvariant(o, Execute(o, start, before), Last(moves));
      }
    }
  }

  /**
   Whatever the interleaving, the committed attempts of a pair are tries 1, 2, 3, ... without gap
   or repeat; at most one is a success, and it is the last; attempt i + 1 is sent no earlier than
   the first i backoffs after attempt 1.
   */
  lemma ConcurrentPairLog(o: Options, start: State, moves: seq<Move>, e: int, p: int)
    requires Initial(start)
    ensures
      var pl := PairLog(Execute(o, start, moves).log, e, p);
      && (forall i :: 0 <= i < |pl| ==> pl[i].tryNumber == i + 1)
      && (forall i :: 0 <= i < |pl| && pl[i].success ==> i == |pl| - 1)
      && (forall i :: 0 <= i < |pl| && i <= |o.backoffSeconds| ==> pl[i].sentAt - pl[0].sentAt >= BackoffSum(o, i))
      && (forall i :: 0 < i < |pl| && i <= |o.backoffSeconds| ==>
            pl[i].sentAt - pl[i - 1].sentAt >= o.backoffSeconds[i - 1] * 10_000_000)
  {
    EveryRunIsLawful(o, start, moves);
    var log := Execute(o, start, moves).log;
    LawfulPair(o, log, e, p);
    LawfulGaps(o, log, e, p);
    forall i | 0 <= i < |PairLog(log, e, p)| && i <= |o.backoffSeconds|
      ensures PairLog(log, e, p)[i].sentAt - PairLog(log, e, p)[0].sentAt >= BackoffSum(o, i)
    {
      BackoffOverWholeLog(o, log, e, p, i);
    }
  }

  // ----- what the moves commit -----

  /** Nobody has committed this (event, endpoint, try). */
  predicate IsFree(log: seq<Attempt>, e: int, p: int, tryNumber: int) {
    forall b :: b in log ==> !(b.eventId == e && b.endpointId == p && b.tryNumber == tryNumber)
  }

  /** The log changes in one way only: a save whose key is free appends the row it was about to save. */
  lemma MoveCommits(o: Options, st: State, m: Move)
    requires Enabled(st, m)
    ensures
      var st' := Apply(o, st, m);
      && st'.clock == st.clock + (if m.Tick? then m.d else 0)
      && |st'.workers| == |st.workers|
      && (forall i :: 0 <= i < |st.workers| && (m.Tick? || i != m.worker) ==> st'.workers[i] == st.workers[i])
      && st'.log == st.log + (if m.Save? && SaveIsFree(st, m.worker) then [st.workers[m.worker].row] else [])
      && (m.Save? ==> st'.workers[m.worker] == if SaveIsFree(st, m.worker) then Idle else Dead)
      && (m.Replace? ==> st'.workers[m.worker] == Idle)
  {
  }

  predicate SaveIsFree(st: State, i: nat)
    requires i < |st.workers| && st.workers[i].Prepared?
  {
    var a := st.workers[i].row;
    IsFree(st.log, a.eventId, a.endpointId, a.tryNumber)
  }

  /** The number of saves of a run that the index let in. */
  function AcceptedSaves(o: Options, start: State, moves: seq<Move>): nat {
    if moves == [] then 0
    else
      var st, m := Execute(o, start, moves[..|moves| - 1]), Last(moves);
      AcceptedSaves(o, start, moves[..|moves| - 1])
      + if m.Save? && Enabled(st, m) && SaveIsFree(st, m.worker) then 1 else 0
  }

  /** Every accepted save is in the log, and nothing else. */
  lemma {:induction false} LogIsAcceptedSaves(o: Options, start: State, moves: seq<Move>)
    ensures |Execute(o, start, moves).log| == |start.log| + AcceptedSaves(o, start, moves)
  {
    if moves != [] {
      var before := moves[..|moves| - 1];
      LogIsAcceptedSaves(o, start, before);
      if Enabled(Execute(o, start, before), Last(moves)) {
        MoveCommits(o, Execute(o, start, before), Last(moves));
      }
    }
  }

  // ----- one delivery among others -----

  /** The moves are ticks and moves of other workers. */
  ghost predicate Spares(moves: seq<Move>, w: nat) {
    forall m :: m in moves ==> m.Tick? || m.worker != w
  }

  lemma {:induction false} ExecuteAppend(o: Options, start: State, a: seq<Move>, b: seq<Move>)
    ensures Execute(o, start, a + b) == Execute(o, Execute(o, start, a), b)
  {
    if b == [] {
      assert a + b == a;
    } else {
      assert (a + b)[..|a + b| - 1] == a + b[..|b| - 1];
      ExecuteAppend(o, start, a, b[..|b| - 1]);
    }
  }

  /** Whatever the others do, a worker stays where it is; the log and the clock only grow. */
  lemma {:induction false} OthersLeaveAlone(o: Options, st: State, moves: seq<Move>, w: nat)
    requires w < |st.workers| && Spares(moves, w)
    ensures
      var st' := Execute(o, st, moves);
      && |st'.workers| == |st.workers| && st'.workers[w] == st.workers[w]
      && st.log <= st'.log && st.clock <= st'.clock
  {
    if moves != [] {
      var before, m := moves[..|moves| - 1], Last(moves);
      assert moves == before + [m];
      OthersLeaveAlone(o, st, before, w);
      if Enabled(Execute(o, st, before), m) {
        MoveCommits(o, Execute(o, st, before), m);
      }
    }
  }

  /** A move of the worker, and then moves of the others. */
  function Turn(o: Options, st: State, m: Move, others: seq<Move>): State {
    Execute(o, if Enabled(st, m) then Apply(o, st, m) else st, others)
  }

  /** The run of the worker's five moves with the moves of the others in between. */
  function DeliveryMoves(w: nat, e: int, p: int, outcome: Outcome, x: seq<seq<Move>>): seq<Move>
    requires |x| == 4
  {
    [Fetch(w, e, p)] + x[0] + [Check(w)] + x[1] + [Send(w, outcome)] + x[2] + [Prepare(w)] + x[3] + [Save(w)]
  }

  lemma TurnIsRun(o: Options, start: State, moves: seq<Move>, m: Move, others: seq<Move>)
    ensures Execute(o, start, moves + [m] + others) == Turn(o, Execute(o, start, moves), m, others)
  {
    ExecuteAppend(o, start, moves + [m], others);
    assert (moves + [m])[..|moves|] == moves;
  }

  lemma OwnTurn(o: Options, st: State, m: Move, others: seq<Move>, w: nat)
    requires Enabled(st, m) && !m.Tick? && !m.Save? && m.worker == w && Spares(others, w)
    ensures
      var st' := Turn(o, st, m, others);
      && |st'.workers| == |st.workers| && st.log <= st'.log
      && st'.workers[w] == NextPhase(o, st.log, st.clock, st.workers[w], m)
  {
    OthersLeaveAlone(o, Apply(o, st, m), others, w);
  }

  /** The first four moves, with the others in between, leave the worker with its row. */
  lemma BringsRow(o: Options, st: State, w: nat, e: int, p: int, outcome: Outcome, x: seq<seq<Move>>)
    returns (row: Attempt)
    requires Lawful(o, st.log) && w < |st.workers| && st.workers[w].Idle?
    requires |x| == 4 && Spares(x[0], w) && Spares(x[1], w) && Spares(x[2], w) && Spares(x[3], w)
    requires
      var pl := PairLog(st.log, e, p);
      var checkedAt := Turn(o, st, Fetch(w, e, p), x[0]).clock;
      pl == [] || (!Last(pl).success
                   && (Last(pl).nextAttemptAt.Some? ==> Last(pl).nextAttemptAt.value <= checkedAt))
    ensures
      var s3 := Turn(o, Turn(o, Turn(o, st, Fetch(w, e, p), x[0]), Check(w), x[1]), Send(w, outcome), x[2]);
      var s4 := Turn(o, s3, Prepare(w), x[3]);
      && st.log <= s4.log && w < |s4.workers| && s4.workers[w] == Prepared(row)
    ensures IsFor(row, e, p) && row.tryNumber == |PairLog(st.log, e, p)| + 1
    ensures row.responseCode == (if outcome.Responded? then Some(outcome.code) else None)
    ensures row.success <==> outcome.Responded? && 200 <= outcome.code <= 299
  {
    var n := |PairLog(st.log, e, p)| + 1;
    LawfulPair(o, st.log, e, p);
    var s1 := Turn(o, st, Fetch(w, e, p), x[0]);
    OwnTurn(o, st, Fetch(w, e, p), x[0], w);
    var s2 := Turn(o, s1, Check(w), x[1]);
    OwnTurn(o, s1, Check(w), x[1], w);
    assert s2.workers[w] == Checked(e, p, n, s1.clock);
    var s3 := Turn(o, s2, Send(w, outcome), x[2]);
    OwnTurn(o, s2, Send(w, outcome), x[2], w);
    OwnTurn(o, s3, Prepare(w), x[3], w);
    row := NewAttempt(o, e, p, n, Reading(s1.clock, s2.clock, s3.clock, outcome));
  }

  lemma TwoTurnsAreRun(o: Options, start: State, moves: seq<Move>, m: Move, x: seq<Move>, m': Move, x': seq<Move>)
    ensures Execute(o, start, moves + [m] + x + [m'] + x') == Turn(o, Turn(o, Execute(o, start, moves), m, x), m', x')
  {
    TurnIsRun(o, start, moves, m, x);
    TurnIsRun(o, start, moves + [m] + x, m', x');
  }

  lemma TurnsAreRun(o: Options, st: State, w: nat, e: int, p: int, outcome: Outcome, x: seq<seq<Move>>)
    requires |x| == 4
    ensures
      var moves := DeliveryMoves(w, e, p, outcome, x);
      var s1 := Turn(o, st, Fetch(w, e, p), x[0]);
      var s2 := Turn(o, s1, Check(w), x[1]);
      var s3 := Turn(o, s2, Send(w, outcome), x[2]);
      var s4 := Turn(o, s3, Prepare(w), x[3]);
      && Execute(o, st, moves[..|moves| - 1]) == s4
      && Execute(o, st, moves) == Turn(o, s4, Save(w), [])
  {
    var moves := DeliveryMoves(w, e, p, outcome, x);
    var half := [] + [Fetch(w, e, p)] + x[0] + [Check(w)] + x[1];
    var most := half + [Send(w, outcome)] + x[2] + [Prepare(w)] + x[3];
    TwoTurnsAreRun(o, st, [], Fetch(w, e, p), x[0], Check(w), x[1]);
    TwoTurnsAreRun(o, st, half, Send(w, outcome), x[2], Prepare(w), x[3]);
    TurnIsRun(o, st, most, Save(w), []);
    assert moves == most + [Save(w)] && moves + [] == moves;
    assert moves[..|moves| - 1] == most;
  }

  /**
   From any state with a lawful log: an idle worker that fetches a pair, finds it due by the clock
   at its check, and sends, ends its five moves with its row at the end of the log - continuing the
   pair as fetched, with the code of its own response - exactly if nobody committed that try
   meanwhile; otherwise its save changes nothing and it is dead.
   */
  lemma DeliveryCommitsIff(o: Options, st: State, w: nat, e: int, p: int, outcome: Outcome, x: seq<seq<Move>>)
    requires Lawful(o, st.log) && w < |st.workers| && st.workers[w].Idle?
    requires |x| == 4 && Spares(x[0], w) && Spares(x[1], w) && Spares(x[2], w) && Spares(x[3], w)
    requires
      var pl := PairLog(st.log, e, p);
      var checkedAt := Turn(o, st, Fetch(w, e, p), x[0]).clock;
      pl == [] || (!Last(pl).success
                   && (Last(pl).nextAttemptAt.Some? ==> Last(pl).nextAttemptAt.value <= checkedAt))
    ensures
      var moves := DeliveryMoves(w, e, p, outcome, x);
      var before, after := Execute(o, st, moves[..|moves| - 1]), Execute(o, st, moves);
      var n := |PairLog(st.log, e, p)| + 1;
      && st.log <= before.log && w < |after.workers|
      && if IsFree(before.log, e, p, n) then
           && after.log != [] && after.log == before.log + [Last(after.log)] && after.workers[w] == Idle
           && IsFor(Last(after.log), e, p) && Last(after.log).tryNumber == n
           && Last(after.log).responseCode == (if outcome.Responded? then Some(outcome.code) else None)
           && (Last(after.log).success <==> outcome.Responded? && 200 <= outcome.code <= 299)
         else after.log == before.log && after.workers[w] == Dead
  {
    var row := BringsRow(o, st, w, e, p, outcome, x);
    TurnsAreRun(o, st, w, e, p, outcome, x);
    var moves := DeliveryMoves(w, e, p, outcome, x);
    MoveCommits(o, Execute(o, st, moves[..|moves| - 1]), Save(w));
  }

  /** Of two workers about to save the same free key, whatever happens in between, exactly the first commits. */
  lemma OneRacerCommits(o: Options, st: State, i: nat, j: nat, between: seq<Move>)
    requires i < |st.workers| && j < |st.workers| && i != j && Spares(between, j)
    requires st.workers[i].Prepared? && st.workers[j].Prepared? && SaveIsFree(st, i)
    requires
      var a, b := st.workers[i].row, st.workers[j].row;
      a.eventId == b.eventId && a.endpointId == b.endpointId && a.tryNumber == b.tryNumber
    ensures
      var first := Apply(o, st, Save(i));
      var before := Execute(o, first, between);
      && first.log == st.log + [st.workers[i].row]
      && first.log <= before.log && Enabled(before, Save(j))
      && Apply(o, before, Save(j)).log == before.log && Apply(o, before, Save(j)).workers[j] == Dead
  {
    MoveCommits(o, st, Save(i));
    var first := Apply(o, st, Save(i));
    OthersLeaveAlone(o, first, between, j);
    var before := Execute(o, first, between);
    assert st.workers[i].row in first.log;
    assert st.workers[i].row in before.log;
    MoveCommits(o, before, Save(j));
  }
}
