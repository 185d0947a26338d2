/**
 Reservation of idempotency keys. `Legal` histories are the specification: a call hits while the
 latest creation of its key lives, and creates otherwise. The in-memory store and the Redis
 store are proved to produce legal histories, and so to answer alike.
 */
module Idempotency {
  import opened Wrappers

  /** One call of TryReserveAsync at instant `at`; ids and instants are numbers, Guid.Empty is 0. */
  datatype Call = Call(key: string, newId: nat, ttl: int, at: nat)

  datatype Answer = Answer(created: bool, eventId: nat)

  datatype Entry = Entry(call: Call, answer: Answer)

  // ----- the specification -----

  function LatestCreation(h: seq<Entry>, key: string): Option<Call> {
    if h == [] then None
    else if Last(h).answer.created && Last(h).call.key == key then Some(Last(h).call)
    else LatestCreation(h[..|h| - 1], key)
  }

  predicate LivesAt(c: Call, now: int) {
    now < c.at + c.ttl
  }

  function Expected(h: seq<Entry>, c: Call): Answer {
    var last := LatestCreation(h, c.key);
    if last.Some? && LivesAt(last.value, c.at) then Answer(false, last.value.newId) else Answer(true, c.newId)
  }

  predicate Legal(h: seq<Entry>) {
    h != [] ==> Legal(h[..|h| - 1]) && Last(h).answer == Expected(h[..|h| - 1], Last(h).call)
  }

  ghost predicate Chronological(h: seq<Entry>) {
    forall i, j :: 0 <= i < j < |h| ==> h[i].call.at <= h[j].call.at
  }

  lemma LegalSnoc(h: seq<Entry>, c: Call)
    requires Legal(h)
    ensures Legal(h + [Entry(c, Expected(h, c))])
  {
    assert (h + [Entry(c, Expected(h, c))])[..|h|] == h;
  }

  // ----- what legal histories promise -----

  predicate Creates(h: seq<Entry>, i: nat, key: string)
    requires i < |h|
  {
    h[i].answer.created && h[i].call.key == key
  }

  lemma {:induction false} LegalAt(h: seq<Entry>, j: nat)
    requires Legal(h) && j < |h|
    ensures h[j].answer == Expected(h[..j], h[j].call)
  {
    if j < |h| - 1 {
      LegalAt(h[..|h| - 1], j);
      assert h[..|h| - 1][..j] == h[..j];
    }
  }

  lemma {:induction false} LatestCreationIndex(h: seq<Entry>, key: string)
    ensures LatestCreation(h, key).None? <==> forall i :: 0 <= i < |h| ==> !Creates(h, i, key)
    ensures LatestCreation(h, key).Some? ==>
              exists i :: 0 <= i < |h| && Creates(h, i, key) && h[i].call == LatestCreation(h, key).value
                          && h[i].answer.created
                          && forall k :: i < k < |h| ==> !Creates(h, k, key)
  {
    if h != [] {
      var n := |h| - 1;
      LatestCreationIndex(h[..n], key);
      assert forall i :: 0 <= i < n ==> Creates(h[..n], i, key) == Creates(h, i, key);
      if Creates(h, n, key) {
        assert Creates(h, n, key) && h[n].call == LatestCreation(h, key).value;
      } else if LatestCreation(h, key).Some? {
        var i :| 0 <= i < n && Creates(h[..n], i, key) && h[..n][i].call == LatestCreation(h, key).value
                 && forall k :: i < k < n ==> !Creates(h[..n], k, key);
        assert Creates(h, i, key) && forall k :: i < k < |h| ==> !Creates(h, k, key);
      }
    }
  }

  /** Two creations of one key are at least the earlier one's time to live apart. */
  lemma {:induction false} CreationsApart(h: seq<Entry>, i: nat, j: nat)
    requires Legal(h) && Chronological(h) && i < j < |h|
    requires Creates(h, i, h[j].call.key) && h[j].answer.created
    ensures h[j].call.at >= h[i].call.at + h[i].call.ttl
    decreases j
  {
    var key := h[j].call.key;
    LegalAt(h, j);
    LatestCreationIndex(h[..j], key);
    assert Creates(h[..j], i, key);
    var k :| 0 <= k < j && Creates(h[..j], k, key) && h[..j][k].call == LatestCreation(h[..j], key).value
             && forall m :: k < m < j ==> !Creates(h[..j], m, key);
    if i < k {
      CreationsApart(h, i, k);
      assert h[k].call.at <= h[j].call.at;
    }
  }

  /**
   A creation answers every later call for its key until its time is up, whatever happens in
   between: hits do not extend its life, and nothing else is created meanwhile.
   */
  lemma CreationRules(h: seq<Entry>, i: nat, j: nat)
    requires Legal(h) && Chronological(h) && i < j < |h|
    requires Creates(h, i, h[j].call.key)
    ensures h[j].call.at < h[i].call.at + h[i].call.ttl ==> h[j].answer == Answer(false, h[i].call.newId)
    ensures (forall k :: i < k < j ==> !Creates(h, k, h[j].call.key)) ==>
              (h[j].answer.created <==> h[i].call.at + h[i].call.ttl <= h[j].call.at)
  {
    var key := h[j].call.key;
    LegalAt(h, j);
    LatestCreationIndex(h[..j], key);
    assert Creates(h[..j], i, key);
    var k :| 0 <= k < j && Creates(h[..j], k, key) && h[..j][k].call == LatestCreation(h[..j], key).value
             && forall m :: k < m < j ==> !Creates(h[..j], m, key);
    if i < k {
      CreationsApart(h, i, k);
      assert h[k].call.at <= h[j].call.at;
      assert Creates(h, k, key);
    }
  }

  /** Every answer that is not a creation is the id of one earlier creation of the key that still lives. */
  lemma HitNamesLiveCreation(h: seq<Entry>, j: nat) returns (i: nat)
    requires Legal(h) && j < |h| && !h[j].answer.created
    ensures i < j && Creates(h, i, h[j].call.key)
    ensures h[j].call.at < h[i].call.at + h[i].call.ttl && h[j].answer.eventId == h[i].call.newId
  {
    LegalAt(h, j);
    LatestCreationIndex(h[..j], h[j].call.key);
    i :| 0 <= i < j && Creates(h[..j], i, h[j].call.key)
         && h[..j][i].call == LatestCreation(h[..j], h[j].call.key).value;
  }

  /** A call creates, with its own id, exactly if no earlier creation of its key still lives. */
  lemma CreatesIff(h: seq<Entry>, j: nat)
    requires Legal(h) && Chronological(h) && j < |h|
    ensures h[j].answer.created <==>
              forall i :: 0 <= i < j && Creates(h, i, h[j].call.key) ==> h[i].call.at + h[i].call.ttl <= h[j].call.at
    ensures h[j].answer.created ==> h[j].answer.eventId == h[j].call.newId
  {
    LegalAt(h, j);
    if h[j].answer.created {
      forall i | 0 <= i < j && Creates(h, i, h[j].call.key) ensures h[i].call.at + h[i].call.ttl <= h[j].call.at {
        CreationsApart(h, i, j);
      }
    } else {
      var i := HitNamesLiveCreation(h, j);
    }
  }

  // ----- the in-memory store -----

  const NO_ENTRY := (0, 0)

  class InMemoryIdempotencyStore {
    var entries: map<string, (nat, int)>
    ghost var history: seq<Entry>

    ghost predicate Valid()
      reads this
    {
      Legal(history) && Remembers(entries, history)
    }

    constructor ()
      ensures Valid() && history == []
    {
      entries, history := map[], [];
    }

    method TryReserve(key: string, newId: nat, ttl: int, now: nat) returns (created: bool, eventId: nat)
      requires Valid()
      modifies this
      ensures Valid()
      ensures Answer(created, eventId) == Expected(old(history), Call(key, newId, ttl, now))
      ensures history == old(history) + [Entry(Call(key, newId, ttl, now), Answer(created, eventId))]
    {
      ghost var c := Call(key, newId, ttl, now);
      var existing := if key in entries then entries[key] else NO_ENTRY;
      if existing != NO_ENTRY && existing.1 > now {
        created, eventId := false, existing.0;
      } else {
        entries := entries[key := (newId, now + ttl)];
        created, eventId := true, newId;
      }
      RememberMore(old(entries), history, c);
      history := history + [Entry(c, Answer(created, eventId))];
    }
  }

  /** The map holds, for every key, its latest creation, dead or alive. */
  ghost predicate Remembers(entries: map<string, (nat, int)>, h: seq<Entry>) {
    forall key :: Recorded(entries, h, key)
  }

  predicate Recorded(entries: map<string, (nat, int)>, h: seq<Entry>, key: string) {
    var last := LatestCreation(h, key);
    if last.None? then key !in entries
    else key in entries && entries[key] == (last.value.newId, last.value.at + last.value.ttl)
  }

  lemma LatestCreationAfter(h: seq<Entry>, c: Call, a: Answer, key: string)
    ensures LatestCreation(h + [Entry(c, a)], key)
         == if a.created && c.key == key then Some(c) else LatestCreation(h, key)
  {
    assert (h + [Entry(c, a)])[..|h|] == h;
  }

  lemma RememberMore(entries: map<string, (nat, int)>, h: seq<Entry>, c: Call)
    requires Legal(h) && Remembers(entries, h)
    ensures
      var a := Expected(h, c);
      && Legal(h + [Entry(c, a)])
      && Remembers(if a.created then entries[c.key := (c.newId, c.at + c.ttl)] else entries, h + [Entry(c, a)])
      && (a.created <==> !(c.key in entries && entries[c.key] != NO_ENTRY && entries[c.key].1 > c.at))
      && (!a.created ==> a.eventId == entries[c.key].0)
  {
    var a := Expected(h, c);
    var h' := h + [Entry(c, a)];
    assert h'[..|h|] == h;
    assert Recorded(entries, h, c.key);
    var entries' := if a.created then entries[c.key := (c.newId, c.at + c.ttl)] else entries;
    forall key ensures Recorded(entries', h', key) {
      LatestCreationAfter(h, c, a, key);
      assert Recorded(entries, h, key);
    }
  }

  // ----- Redis commands -----

  /** The text form of ids: "D" formatting and TryParse. */
  datatype GuidText = GuidText(format: nat -> string, parse: string -> Option<nat>) {
    ghost predicate RoundTrips() {
      forall id: nat :: parse(format(id)) == Some(id)
    }
  }

  datatype RedisValue = RedisValue(text: string, expireAt: int)

  type Redis = map<string, RedisValue>

  /** Redis drops a key once its time is up. */
  function Purged(db: Redis, now: int): Redis {
    map k | k in db && now < db[k].expireAt :: db[k]
  }

  /** SET key value EX ttl */
  function Set(db: Redis, now: int, key: string, text: string, ttl: int): Redis {
    Purged(db, now)[key := RedisValue(text, now + ttl)]
  }

  /** SET key value NX EX ttl */
  function SetIfAbsent(db: Redis, now: int, key: string, text: string, ttl: int): (Redis, bool) {
    if key in Purged(db, now) then (Purged(db, now), false) else (Set(db, now, key, text, ttl), true)
  }

  function Get(db: Redis, now: int, key: string): Option<string> {
    if key in Purged(db, now) then Some(db[key].text) else None
  }

  /** A value that is no id, left by someone else; the store repairs it. */
  predicate Foreign(g: GuidText, text: string) {
    g.parse(text).None?
  }

  ghost predicate OnlyForeign(g: GuidText, db: Redis) {
    forall k :: k in db ==> Foreign(g, db[k].text)
  }

  /**
   At instant `now` the database shows, for every key, its latest creation if that still lives;
   otherwise nothing, or at most a foreign value.
   */
  ghost predicate Shows(g: GuidText, db: Redis, h: seq<Entry>, now: int) {
    forall key :: Shown(g, db, h, key, now)
  }

  predicate Shown(g: GuidText, db: Redis, h: seq<Entry>, key: string, now: int) {
    var last := LatestCreation(h, key);
    if last.None? || !LivesAt(last.value, now) then key in Purged(db, now) ==> Foreign(g, db[key].text)
    else key in Purged(db, now) && db[key] == RedisValue(g.format(last.value.newId), last.value.at + last.value.ttl)
  }

  lemma ShownLater(g: GuidText, db: Redis, h: seq<Entry>, now: int, later: int)
    requires Shows(g, db, h, now) && now <= later
    ensures Shows(g, db, h, later)
  {
    forall key ensures Shown(g, db, h, key, later) {
      assert Shown(g, db, h, key, now);
    }
  }

  lemma ShowHit(g: GuidText, db: Redis, h: seq<Entry>, c: Call, a: Answer, now: int)
    requires Shows(g, db, h, now) && !a.created
    ensures Shows(g, db, h + [Entry(c, a)], now)
    ensures Shows(g, Purged(db, now), h, now)
  {
    forall key
      ensures Shown(g, db, h + [Entry(c, a)], key, now)
      ensures Shown(g, Purged(db, now), h, key, now)
    {
      LatestCreationAfter(h, c, a, key);
      assert Shown(g, db, h, key, now);
    }
  }

  lemma ShowCreation(g: GuidText, db: Redis, h: seq<Entry>, c: Call)
    requires Shows(g, db, h, c.at) && c.ttl > 0
    ensures Shows(g, Set(db, c.at, c.key, g.format(c.newId), c.ttl), h + [Entry(c, Answer(true, c.newId))], c.at)
  {
    var a := Answer(true, c.newId);
    forall key ensures Shown(g, Set(db, c.at, c.key, g.format(c.newId), c.ttl), h + [Entry(c, a)], key, c.at) {
      LatestCreationAfter(h, c, a, key);
      assert Shown(g, db, h, key, c.at);
    }
  }

  predicate HasLiveCreation(h: seq<Entry>, key: string, now: int) {
    LatestCreation(h, key).Some? && LivesAt(LatestCreation(h, key).value, now)
  }

  /** Where no creation lives, a SET is the creation that the specification asks for. */
  lemma DecidesCreation(g: GuidText, db: Redis, h: seq<Entry>, c: Call)
    requires Legal(h) && Shows(g, db, h, c.at) && c.ttl > 0
    ensures c.key !in Purged(db, c.at) ==> !HasLiveCreation(h, c.key, c.at)
    ensures !HasLiveCreation(h, c.key, c.at) ==>
              && Expected(h, c) == Answer(true, c.newId)
              && Legal(h + [Entry(c, Answer(true, c.newId))])
              && Shows(g, Set(db, c.at, c.key, g.format(c.newId), c.ttl), h + [Entry(c, Answer(true, c.newId))], c.at)
  {
    assert Shown(g, db, h, c.key, c.at);
    LegalSnoc(h, c);
    ShowCreation(g, db, h, c);
  }

  /** An id that a GET finds is the hit that the specification asks for; without one no creation lives. */
  lemma DecidesHit(g: GuidText, db: Redis, h: seq<Entry>, c: Call)
    requires Legal(h) && Shows(g, db, h, c.at) && g.RoundTrips()
    ensures
      var found := Get(db, c.at, c.key);
      if found.Some? && g.parse(found.value).Some? then
        var a := Answer(false, g.parse(found.value).value);
        Expected(h, c) == a && Legal(h + [Entry(c, a)]) && Shows(g, db, h + [Entry(c, a)], c.at)
      else !HasLiveCreation(h, c.key, c.at)
  {
    assert Shown(g, db, h, c.key, c.at);
    var found := Get(db, c.at, c.key);
    if found.Some? && g.parse(found.value).Some? {
      LegalSnoc(h, c);
      ShowHit(g, db, h, c, Answer(false, g.parse(found.value).value), c.at);
    }
  }

  lemma StaysUnusable(h: seq<Entry>, key: string, now: int, later: int)
    requires !HasLiveCreation(h, key, now) && now <= later
    ensures !HasLiveCreation(h, key, later)
  {
  }

  // ----- the Redis store, one call at a time -----

  class RedisIdempotencyStore {
    var db: Redis
    ghost var history: seq<Entry>
    ghost var clock: int
    const guids: GuidText

    ghost predicate Valid()
      reads this
    {
      Legal(history) && Shows(guids, db, history, clock)
    }

    /** The database may hold values that are no ids under any keys. */
    constructor (guids: GuidText, found: Redis)
      requires OnlyForeign(guids, found)
      ensures Valid() && history == [] && clock == 0 && this.guids == guids && db == found
    {
      this.guids := guids;
      db, history, clock := found, [], 0;
    }

    /**
     The commands of one call, at the instants `now`, `getAt` and `setAt` when they are issued.
     Redis accepts positive times to live only. Should the key expire between the first two
     commands, or hold a foreign value, the last one creates it anew; in every case the call
     counts from the instant `at` of the command that decided it.
     */
    method TryReserve(key: string, newId: nat, ttl: int, now: nat, getAt: nat, setAt: nat)
      returns (created: bool, eventId: nat, ghost at: nat)
      requires Valid() && guids.RoundTrips()
      requires ttl > 0 && clock <= now <= getAt <= setAt
      modifies this
      ensures Valid() && at == clock && now <= clock <= setAt
      ensures Answer(created, eventId) == Expected(old(history), Call(key, newId, ttl, at))
      ensures history == old(history) + [Entry(Call(key, newId, ttl, at), Answer(created, eventId))]
    {
      var value := guids.format(newId);
      Advance(now);
      at := now;
      DecidesCreation(guids, db, history, Call(key, newId, ttl, now));
      var (db', isNew) := SetIfAbsent(db, now, key, value, ttl);
      if isNew {
        db, history := db', history + [Entry(Call(key, newId, ttl, at), Answer(true, newId))];
        return true, newId, at;
      }
      Advance(getAt);
      at := getAt;
      DecidesHit(guids, db, history, Call(key, newId, ttl, getAt));
      var existing := Get(db, getAt, key);
      if existing.Some? && guids.parse(existing.value).Some? {
        eventId := guids.parse(existing.value).value;
        history := history + [Entry(Call(key, newId, ttl, at), Answer(false, eventId))];
        return false, eventId, at;
      }
      Advance(setAt);
      at := setAt;
      StaysUnusable(history, key, getAt, setAt);
      DecidesCreation(guids, db, history, Call(key, newId, ttl, setAt));
      db := Set(db, setAt, key, value, ttl);
      history := history + [Entry(Call(key, newId, ttl, at), Answer(true, newId))];
      return true, newId, at;
    }

    /** Time passes between commands; the database drops what has expired. */
    method Advance(now: nat)
      requires Shows(guids, db, history, clock) && clock <= now
      modifies this`db, this`clock
      ensures Shows(guids, db, history, clock) && clock == now && db == Purged(old(db), now)
    {
      ShownLater(guids, db, history, clock, now);
      ShowHit(guids, db, history, Call("", 0, 1, 0), Answer(false, 0), now);
      db := Purged(db, now);
      clock := now;
    }
  }

  // ----- both stores on one sequence of calls -----

  /** The calls with the answers they were given. */
  function HistoryOf(calls: seq<Call>, answers: seq<Answer>): seq<Entry>
    requires |calls| == |answers|
  {
    seq(|calls|, i requires 0 <= i < |calls| => Entry(calls[i], answers[i]))
  }

  lemma HistoryGrows(calls: seq<Call>, answers: seq<Answer>, a: Answer)
    requires |answers| < |calls|
    ensures
      var i := |answers|;
      HistoryOf(calls[..i + 1], answers + [a]) == HistoryOf(calls[..i], answers) + [Entry(calls[i], a)]
  {
  }

  /** The specification leaves no choice: it answers a sequence of calls in one way only. */
  lemma {:induction false} LegalAnswersAreUnique(h: seq<Entry>, h': seq<Entry>)
    requires Legal(h) && Legal(h') && |h| == |h'|
    requires forall i :: 0 <= i < |h| ==> h[i].call == h'[i].call
    ensures h == h'
  {
    if h != [] {
      var n := |h| - 1;
      LegalAnswersAreUnique(h[..n], h'[..n]);
      assert h == h[..n] + [h[n]] && h' == h'[..n] + [h'[n]];
    }
  }

  method InMemoryAnswers(calls: seq<Call>) returns (answers: seq<Answer>)
    ensures |answers| == |calls| && Legal(HistoryOf(calls, answers))
  {
    var store := new InMemoryIdempotencyStore();
    answers := [];
    for i := 0 to |calls|
      invariant store.Valid() && fresh(store)
      invariant |answers| == i && store.history == HistoryOf(calls[..i], answers)
    {
      var c := calls[i];
      var created, id := store.TryReserve(c.key, c.newId, c.ttl, c.at);
      HistoryGrows(calls, answers, Answer(created, id));
      answers := answers + [Answer(created, id)];
    }
    assert calls[..|calls|] == calls;
  }

  /** The calls one by one on a Redis database that may hold foreign values. */
  method RedisAnswers(guids: GuidText, found: Redis, calls: seq<Call>) returns (answers: seq<Answer>)
    requires guids.RoundTrips() && OnlyForeign(guids, found)
    requires forall i :: 0 <= i < |calls| ==> calls[i].ttl > 0
    requires forall i, j :: 0 <= i < j < |calls| ==> calls[i].at <= calls[j].at
    ensures |answers| == |calls| && Legal(HistoryOf(calls, answers))
  {
    var store := new RedisIdempotencyStore(guids, found);
    answers := [];
    for i := 0 to |calls|
      invariant store.Valid() && fresh(store) && store.guids == guids
      invariant store.clock == if i == 0 then 0 else calls[i - 1].at
      invariant |answers| == i && store.history == HistoryOf(calls[..i], answers)
    {
      var c := calls[i];
      var created, id, at := store.TryReserve(c.key, c.newId, c.ttl, c.at, c.at, c.at);
      HistoryGrows(calls, answers, Answer(created, id));
      answers := answers + [Answer(created, id)];
    }
    assert calls[..|calls|] == calls;
  }

  /**
   With a clock that does not go back and positive times to live both stores give the same
   answers to the same calls, and these are the legal ones.
   */
  method StoresAgree(guids: GuidText, found: Redis, calls: seq<Call>)
    returns (inMemory: seq<Answer>, redis: seq<Answer>)
    requires guids.RoundTrips() && OnlyForeign(guids, found)
    requires forall i :: 0 <= i < |calls| ==> calls[i].ttl > 0
    requires forall i, j :: 0 <= i < j < |calls| ==> calls[i].at <= calls[j].at
    ensures inMemory == redis && |inMemory| == |calls|
    ensures Legal(HistoryOf(calls, inMemory))
  {
    inMemory := InMemoryAnswers(calls);
    redis := RedisAnswers(guids, found, calls);
    var h, h' := HistoryOf(calls, inMemory), HistoryOf(calls, redis);
    LegalAnswersAreUnique(h, h');
    assert forall i :: 0 <= i < |calls| ==> h[i].answer == inMemory[i] && h'[i].answer == redis[i];
  }
}
