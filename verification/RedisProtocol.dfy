/**
 Any number of clients run the Redis reservation at once; their SET NX, GET and SET commands
 interleave freely, and time passes between them. The history lists the completed calls in the
 order, and at the instants, of the commands that decided them.
 */
module RedisProtocol {
  import opened Wrappers
  import opened Idempotency

  datatype Client =
    | Idle
    | Waiting(key: string, newId: nat, ttl: int)    // its SET NX found the key taken
    | Repairing(key: string, newId: nat, ttl: int)  // its GET found nothing usable

  datatype State = State(db: Redis, clock: nat, clients: seq<Client>, history: seq<Entry>)

  datatype Move =
    | Tick(d: nat)
    | Start(client: nat, key: string, newId: nat, ttl: int)
    | Fetch(client: nat)
    | Overwrite(client: nat)

  predicate Enabled(st: State, m: Move) {
    match m
    case Tick(_) => true
    case Start(i, _, _, ttl) => i < |st.clients| && st.clients[i].Idle? && ttl > 0
    case Fetch(i) => i < |st.clients| && st.clients[i].Waiting?
    case Overwrite(i) => i < |st.clients| && st.clients[i].Repairing?
  }

  function Completed(st: State, w: Client, a: Answer): Entry
    requires !w.Idle?
  {
    Entry(Call(w.key, w.newId, w.ttl, st.clock), a)
  }

  function Apply(g: GuidText, st: State, m: Move): State
    requires Enabled(st, m)
  {
    match m
    case Tick(d) => st.(clock := st.clock + d)
    case Start(i, key, newId, ttl) =>
      var (db, created) := SetIfAbsent(st.db, st.clock, key, g.format(newId), ttl);
      if created then
        st.(db := db, history := st.history + [Entry(Call(key, newId, ttl, st.clock), Answer(true, newId))])
      else st.(db := db, clients := st.clients[i := Waiting(key, newId, ttl)])
    case Fetch(i) =>
      var w := st.clients[i];
      var existing := Get(st.db, st.clock, w.key);
      if existing.Some? && g.parse(existing.value).Some? then
        st.(clients := st.clients[i := Idle],
            history := st.history + [Completed(st, w, Answer(false, g.parse(existing.value).value))])
      else st.(clients := st.clients[i := Repairing(w.key, w.newId, w.ttl)])
    case Overwrite(i) =>
      var w := st.clients[i];
      st.(db := Set(st.db, st.clock, w.key, g.format(w.newId), w.ttl),
          clients := st.clients[i := Idle],
          history := st.history + [Completed(st, w, Answer(true, w.newId))])
  }

  /** Moves that are not enabled change nothing. */
  function Execute(g: GuidText, start: State, moves: seq<Move>): State {
    if moves == [] then start
    else
      var st := Execute(g, start, moves[..|moves| - 1]);
      if Enabled(st, Last(moves)) then Apply(g, st, Last(moves)) else st
  }

  /** Nobody has called yet; the database may hold values that are no ids. */
  ghost predicate Initial(g: GuidText, st: State) {
    OnlyForeign(g, st.db) && st.history == [] && forall w :: w in st.clients ==> w.Idle?
  }

  /** A repairing client is about to overwrite an id that lives. */
  predicate Clobbers(g: GuidText, st: State, m: Move) {
    && m.Overwrite? && Enabled(st, m)
    && var key := st.clients[m.client].key;
       key in Purged(st.db, st.clock) && !Foreign(g, st.db[key].text)
  }

  function Clobberings(g: GuidText, start: State, moves: seq<Move>): nat {
    if moves == [] then 0
    else
      var before := moves[..|moves| - 1];
      Clobberings(g, start, before) + if Clobbers(g, Execute(g, start, before), Last(moves)) then 1 else 0
  }

  ghost predicate Good(g: GuidText, st: State) {
    && Shows(g, st.db, st.history, st.clock)
    && Chronological(st.history)
    && (forall i :: 0 <= i < |st.history| ==> st.history[i].call.at <= st.clock)
    && (forall w :: w in st.clients && !w.Idle? ==> w.ttl > 0)
  }

  // ----- no call is lost -----

  /**
   What each command does, in terms of what the key holds at that instant: a call is completed, and
   then by its own client, key and id, at most once and at the instant of the deciding command.
   */
  lemma MoveCompletes(g: GuidText, st: State, m: Move)
    requires Enabled(st, m)
    ensures
      var st' := Apply(g, st, m);
      && |st'.clients| == |st.clients| && st'.clock == st.clock + (if m.Tick? then m.d else 0)
      && (forall i :: 0 <= i < |st.clients| && (m.Tick? || i != m.client) ==> st'.clients[i] == st.clients[i])
      && match m
         case Tick(_) => st'.history == st.history && st'.db == st.db
         case Start(i, key, id, ttl) =>
           if key in st.db && st.clock < st.db[key].expireAt then
             st'.history == st.history && st'.clients[i] == Waiting(key, id, ttl)
           else
             && st'.history == st.history + [Entry(Call(key, id, ttl, st.clock), Answer(true, id))]
             && st'.clients[i] == Idle && key in st'.db && st'.db[key] == RedisValue(g.format(id), st.clock + ttl)
         case Fetch(i) =>
           var w := st.clients[i];
           if w.key in st.db && st.clock < st.db[w.key].expireAt && g.parse(st.db[w.key].text).Some? then
             && st'.history == st.history + [Entry(Call(w.key, w.newId, w.ttl, st.clock),
                                                   Answer(false, g.parse(st.db[w.key].text).value))]
             && st'.clients[i] == Idle && st'.db == st.db
           else st'.history == st.history && st'.clients[i] == Repairing(w.key, w.newId, w.ttl) && st'.db == st.db
         case Overwrite(i) =>
           var w := st.clients[i];
           && st'.history == st.history + [Entry(Call(w.key, w.newId, w.ttl, st.clock), Answer(true, w.newId))]
           && st'.clients[i] == Idle && w.key in st'.db
           && st'.db[w.key] == RedisValue(g.format(w.newId), st.clock + w.ttl)
  {
  }

  function Busy(clients: seq<Client>): set<int> {
    set i | 0 <= i < |clients| && !clients[i].Idle?
  }

  function Starts(g: GuidText, start: State, moves: seq<Move>): nat {
    if moves == [] then 0
    else
      var before := moves[..|moves| - 1];
      Starts(g, start, before) + if Last(moves).Start? && Enabled(Execute(g, start, before), Last(moves)) then 1 else 0
  }

  function BusyOthers(clients: seq<Client>, i: nat): set<int> {
    set k | 0 <= k < |clients| && k != i && !clients[k].Idle?
  }

  lemma BusyParts(clients: seq<Client>, i: nat)
    requires i < |clients|
    ensures |Busy(clients)| == |BusyOthers(clients, i)| + (if clients[i].Idle? then 0 else 1)
  {
    var others := BusyOthers(clients, i);
    if clients[i].Idle? {
      assert Busy(clients) == others;
    } else {
      assert Busy(clients) == others + {i};
      assert i !in others;
    }
  }

  lemma BusyAfter(was: seq<Client>, now: seq<Client>, i: nat)
    requires |was| == |now| && i < |was| && forall k :: 0 <= k < |was| && k != i ==> now[k] == was[k]
    ensures |Busy(now)| == |Busy(was)| - (if was[i].Idle? then 0 else 1) + (if now[i].Idle? then 0 else 1)
  {
    BusyParts(was, i);
    BusyParts(now, i);
    assert BusyOthers(was, i) == BusyOthers(now, i);
  }

  /** Every call that was started is completed or still with its client. */
  lemma {:induction false} CallsAreConserved(g: GuidText, start: State, moves: seq<Move>)
    requires Initial(g, start)
    ensures |Execute(g, start, moves).history| + |Busy(Execute(g, start, moves).clients)| == Starts(g, start, moves)
  {
    if moves == [] {
      assert forall w :: w in start.clients ==> w.Idle?;
      assert Busy(start.clients) == {};
    } else {
      var before, m := moves[..|moves| - 1], Last(moves);
      CallsAreConserved(g, start, before);
      var st := Execute(g, start, before);
      if Enabled(st, m) {
        MoveCompletes(g, st, m);
        if m.Tick? {
          assert Apply(g, st, m).clients == st.clients;
        } else {
          BusyAfter(st.clients, Apply(g, st, m).clients, m.client);
        }
      }
    }
  }

  // ----- every run: database and history agree -----

  lemma MoveKeepsGood(g: GuidText, st: State, m: Move)
    requires g.RoundTrips() && Good(g, st) && Enabled(st, m)
    ensures Good(g, Apply(g, st, m))
  {
    match m
    case Tick(d) =>
      ShownLater(g, st.db, st.history, st.clock, st.clock + d);
    case Start(i, key, newId, ttl) =>
      ShowCreation(g, st.db, st.history, Call(key, newId, ttl, st.clock));
      ShowHit(g, st.db, st.history, Call(key, newId, ttl, st.clock), Answer(false, 0), st.clock);
    case Fetch(i) =>
      var w := st.clients[i];
      var existing := Get(st.db, st.clock, w.key);
      if existing.Some? && g.parse(existing.value).Some? {
        var e := Completed(st, w, Answer(false, g.parse(existing.value).value));
        ShowHit(g, st.db, st.history, e.call, e.answer, st.clock);
      }
    case Overwrite(i) =>
      var w := st.clients[i];
      ShowCreation(g, st.db, st.history, Call(w.key, w.newId, w.ttl, st.clock));
  }

  /** A move completes its call as the specification says, unless it clobbers a living id. */
  lemma MoveIsLegalIff(g: GuidText, st: State, m: Move)
    requires g.RoundTrips() && Good(g, st) && Enabled(st, m)
    ensures Legal(Apply(g, st, m).history) <==> Legal(st.history) && !Clobbers(g, st, m)
  {
    var h, h' := st.history, Apply(g, st, m).history;
    if h' != h {
      assert h'[..|h|] == h;
      assert Shown(g, st.db, h, Last(h').call.key, st.clock);
    }
  }

  lemma {:induction false} RunIsGood(g: GuidText, start: State, moves: seq<Move>)
    requires g.RoundTrips() && Initial(g, start)
    ensures Good(g, Execute(g, start, moves))
  {
    if moves == [] {
      forall key ensures Shown(g, start.db, start.history, key, start.clock) {
      }
    } else {
      RunIsGood(g, start, moves[..|moves| - 1]);
      var st := Execute(g, start, moves[..|moves| - 1]);
      if Enabled(st, Last(moves)) {
        MoveKeepsGood(g, st, Last(moves));
      }
    }
  }

  /** Over any run whatever, the calls obey the specification exactly when no overwrite hit a living id. */
  lemma {:induction false} LegalIffNothingClobbered(g: GuidText, start: State, moves: seq<Move>)
    requires g.RoundTrips() && Initial(g, start)
    ensures Legal(Execute(g, start, moves).history) <==> Clobberings(g, start, moves) == 0
  {
    if moves != [] {
      var before := moves[..|moves| - 1];
      LegalIffNothingClobbered(g, start, before);
      RunIsGood(g, start, before);
      var st := Execute(g, start, before);
      if Enabled(st, Last(moves)) {
        MoveIsLegalIff(g, st, Last(moves));
      }
    }
  }

  // ----- runs in which no key expires between a client's SET NX and its GET -----

  ghost predicate WaitersFindKeys(db: Redis, clients: seq<Client>, now: int) {
    forall w :: w in clients && w.Waiting? ==> w.key in Purged(db, now)
  }

  ghost predicate WindowsKept(g: GuidText, start: State, moves: seq<Move>) {
    moves != [] ==>
      var st := Execute(g, start, moves[..|moves| - 1]);
      && WindowsKept(g, start, moves[..|moves| - 1])
      && (Last(moves).Tick? ==> WaitersFindKeys(st.db, st.clients, st.clock + Last(moves).d))
  }

  ghost predicate Quiet(g: GuidText, st: State) {
    && WaitersFindKeys(st.db, st.clients, st.clock)
    && (forall w :: w in st.clients ==> !w.Repairing?)
    && (forall k :: k in st.db ==> !Foreign(g, st.db[k].text))
  }

  lemma MoveKeepsQuiet(g: GuidText, st: State, m: Move)
    requires g.RoundTrips() && Good(g, st) && Quiet(g, st) && Enabled(st, m)
    requires m.Tick? ==> WaitersFindKeys(st.db, st.clients, st.clock + m.d)
    ensures Quiet(g, Apply(g, st, m))
  {
    var st' := Apply(g, st, m);
    if !m.Tick? {
      var w := st.clients[m.client];
      assert w in st.clients;
      assert forall v :: v in st'.clients ==> v in st.clients || v == st'.clients[m.client];
      if m.Fetch? {
        assert Shown(g, st.db, st.history, w.key, st.clock);
      }
    }
  }

  /**
   If no key expires while a client waits to read it, and the database held no foreign values:
   no client ever reaches the repairing SET, and all completed calls obey the specification - so
   each lifetime of a key has one creator, and everyone else in it is given that creator's id.
   */
  lemma {:induction false} WindowedRunsAreLegal(g: GuidText, start: State, moves: seq<Move>)
    requires g.RoundTrips() && Initial(g, start) && start.db == map[] && WindowsKept(g, start, moves)
    ensures Quiet(g, Execute(g, start, moves))
    ensures Legal(Execute(g, start, moves).history) && Chronological(Execute(g, start, moves).history)
  {
    RunIsGood(g, start, moves);
    if moves != [] {
      var before := moves[..|moves| - 1];
      WindowedRunsAreLegal(g, start, before);
      RunIsGood(g, start, before);
      var st := Execute(g, start, before);
      if Enabled(st, Last(moves)) {
        MoveKeepsQuiet(g, st, Last(moves));
        MoveIsLegalIff(g, st, Last(moves));
        assert Last(moves).Overwrite? ==> st.clients[Last(moves).client] in st.clients;
      }
    }
  }

  /** One creator per lifetime, spelled out for two completed calls on one key. */
  lemma OneCreatorPerLifetime(g: GuidText, start: State, moves: seq<Move>, i: nat, j: nat)
    requires g.RoundTrips() && Initial(g, start) && start.db == map[] && WindowsKept(g, start, moves)
    requires i < j < |Execute(g, start, moves).history|
    requires Creates(Execute(g, start, moves).history, i, Execute(g, start, moves).history[j].call.key)
    ensures
      var h := Execute(g, start, moves).history;
      h[j].call.at < h[i].call.at + h[i].call.ttl ==> h[j].answer == Answer(false, h[i].call.newId)
  {
    WindowedRunsAreLegal(g, start, moves);
    CreationRules(Execute(g, start, moves).history, i, j);
  }

  /** The first half of the counterexample: client 1 finds "k" taken, "k" expires, client 1 finds nothing. */
  lemma ExpiryInWindow(g: GuidText, start: State) returns (moves: seq<Move>, st: State)
    requires g.RoundTrips() && start == State(map[], 0, [Idle, Idle], [])
    ensures Execute(g, start, moves) == st
    ensures st.clock == 10 && st.clients == [Idle, Repairing("k", 2, 10)]
    ensures st.db == map["k" := RedisValue(g.format(1), 10)]
    ensures st.history == [Entry(Call("k", 1, 10, 0), Answer(true, 1))]
  {
    var db := map["k" := RedisValue(g.format(1), 10)];
    var s1 := State(db, 0, [Idle, Idle], [Entry(Call("k", 1, 10, 0), Answer(true, 1))]);
    var s2 := s1.(clients := [Idle, Waiting("k", 2, 10)]);
    var s3 := s2.(clock := 10);
    st := s3.(clients := [Idle, Repairing("k", 2, 10)]);
    moves := Then(g, start, [], start, Start(0, "k", 1, 10), s1);
    moves := Then(g, start, moves, s1, Start(1, "k", 2, 10), s2);
    moves := Then(g, start, moves, s2, Tick(10), s3);
    moves := Then(g, start, moves, s3, Fetch(1), st);
  }

  /** Without the assumption two clients can both create within one lifetime, with different ids. */
  lemma ExpiryInWindowBreaksIt(g: GuidText) returns (moves: seq<Move>)
    requires g.RoundTrips()
    ensures
      var start := State(map[], 0, [Idle, Idle], []);
      var h := Execute(g, start, moves).history;
      && Initial(g, start)
      && |h| == 3 && h[1].call.key == h[2].call.key
      && h[1].answer == Answer(true, 3) && h[2].answer == Answer(true, 2)
      && h[2].call.at < h[1].call.at + h[1].call.ttl
      && !Legal(h) && !WindowsKept(g, start, moves)
  {
    var start := State(map[], 0, [Idle, Idle], []);
    var before, s4 := ExpiryInWindow(g, start);
    var s5 := s4.(db := map["k" := RedisValue(g.format(3), 20)],
                  history := s4.history + [Entry(Call("k", 3, 10, 10), Answer(true, 3))]);
    before := Then(g, start, before, s4, Start(0, "k", 3, 10), s5);
    moves := Then(g, start, before, s5, Overwrite(1), Apply(g, s5, Overwrite(1)));
    assert moves[..|before|] == before;
    assert Clobbers(g, s5, Overwrite(1));
    LegalIffNothingClobbered(g, start, moves);
    if WindowsKept(g, start, moves) {
      WindowedRunsAreLegal(g, start, moves);
    }
  }

  /** Two clients find the same foreign value, one after the other. */
  lemma BothFindForeign(g: GuidText, start: State, foreign: RedisValue) returns (moves: seq<Move>, st: State)
    requires Foreign(g, foreign.text) && foreign.expireAt > 0
    requires start == State(map["k" := foreign], 0, [Idle, Idle], [])
    ensures Execute(g, start, moves) == st && forall m :: m in moves ==> !m.Tick?
    ensures st == start.(clients := [Repairing("k", 1, 10), Repairing("k", 2, 10)])
  {
    assert Purged(start.db, 0) == start.db;
    var s1 := start.(clients := [Waiting("k", 1, 10), Idle]);
    var s2 := start.(clients := [Waiting("k", 1, 10), Waiting("k", 2, 10)]);
    var s3 := start.(clients := [Repairing("k", 1, 10), Waiting("k", 2, 10)]);
    st := start.(clients := [Repairing("k", 1, 10), Repairing("k", 2, 10)]);
    moves := Then(g, start, [], start, Start(0, "k", 1, 10), s1);
    moves := Then(g, start, moves, s1, Start(1, "k", 2, 10), s2);
    moves := Then(g, start, moves, s2, Fetch(0), s3);
    moves := Then(g, start, moves, s3, Fetch(1), st);
  }

  lemma BothRepair(g: GuidText, start: State, before: seq<Move>, st: State) returns (moves: seq<Move>)
    requires Execute(g, start, before) == st && forall m :: m in before ==> !m.Tick?
    requires st.clock == 0 && st.history == [] && st.clients == [Repairing("k", 1, 10), Repairing("k", 2, 10)]
    ensures forall m :: m in moves ==> !m.Tick?
    ensures Execute(g, start, moves).history
         == [Entry(Call("k", 1, 10, 0), Answer(true, 1)), Entry(Call("k", 2, 10, 0), Answer(true, 2))]
  {
    var st' := Apply(g, st, Overwrite(0));
    moves := Then(g, start, before, st, Overwrite(0), st');
    moves := Then(g, start, moves, st', Overwrite(1), Apply(g, st', Overwrite(1)));
  }

  lemma SecondCreationIsIllegal(h: seq<Entry>)
    requires h == [Entry(Call("k", 1, 10, 0), Answer(true, 1)), Entry(Call("k", 2, 10, 0), Answer(true, 2))]
    ensures !Legal(h)
  {
    assert h[..1] == [h[0]];
    assert LatestCreation(h[..1], "k") == Some(h[0].call);
  }

  /** Nor is a foreign value repaired safely: two clients that both find it both create, with different ids. */
  lemma ForeignValueBreaksIt(g: GuidText, foreign: RedisValue) returns (moves: seq<Move>)
    requires Foreign(g, foreign.text) && foreign.expireAt > 0
    ensures
      var start := State(map["k" := foreign], 0, [Idle, Idle], []);
      var h := Execute(g, start, moves).history;
      && Initial(g, start) && WindowsKept(g, start, moves)
      && h == [Entry(Call("k", 1, 10, 0), Answer(true, 1)), Entry(Call("k", 2, 10, 0), Answer(true, 2))]
      && !Legal(h)
  {
    var start := State(map["k" := foreign], 0, [Idle, Idle], []);
    var before, st := BothFindForeign(g, start, foreign);
    moves := BothRepair(g, start, before, st);
    NoTicksKeepWindows(g, start, moves);
    SecondCreationIsIllegal(Execute(g, start, moves).history);
  }

  lemma {:induction false} NoTicksKeepWindows(g: GuidText, start: State, moves: seq<Move>)
    requires forall m :: m in moves ==> !m.Tick?
    ensures WindowsKept(g, start, moves)
  {
    if moves != [] {
      NoTicksKeepWindows(g, start, moves[..|moves| - 1]);
    }
  }

  lemma Then(g: GuidText, start: State, moves: seq<Move>, st: State, m: Move, st': State) returns (more: seq<Move>)
    requires Execute(g, start, moves) == st && Enabled(st, m) && Apply(g, st, m) == st'
    ensures more == moves + [m] && Execute(g, start, more) == st'
  {
    more := moves + [m];
    assert more[..|moves|] == moves;
  }
}
