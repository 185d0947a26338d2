# Webhook Inbox & Retry Service: a verified model

This project models, in Dafny 4.11, the parts of the webhook service that carry its guarantees, and proves
those guarantees for every input and every run. `dafny verify dfyconfig.toml` checks all of it.

**Delivery.** A pass of the worker takes the pending events with the lowest ids, crosses them with the active
endpoints, and for each pair that is due sends the event, appends an attempt and gives the event a new status.
A pass decides on the live log; its specification decides on the log as it was when the pass began, and the two
are proved equal. Runs let events arrive at any time, give every pass its own endpoints in any order, any clock
readings and any outcomes, and may cut any pass short. Below, *limit* is
`max(1, min(MaxAttempts, BackoffSeconds.Length + 1))`.

- The documentation promises at most `MaxAttempts` tries per event and endpoint (README.md:77,
  docs/rfc/rfc-0002-dispatcher-retry.md:18). The code does not keep that promise with several endpoints: a pair past
  its limit has no date, or one that is soon over, and is tried again in every pass in which another endpoint keeps
  the event Failed. The true bound for E endpoints is E * (limit - 1) + 1. It is proved for all runs and reached by
  a run with a forward clock for every E and all options, so the promise holds exactly when E * (limit - 1) <
  `MaxAttempts`; with the default options, exactly for one endpoint.
- The runs that reach this bound change the active endpoints between passes. Over E fixed endpoints and passes that
  run to their end, an event is attempted in at most E * (limit - 2) + 2 passes (1, if the limit is 1). Under a forward
  clock no try goes beyond the limit in all such runs exactly if there is one endpoint or none of the first limit - 2
  backoffs is positive. So with the default options the promise is broken from two endpoints on even there.
- A pass is timely if it starts after all dates the pending events wait for. Timely passes from the start keep the
  promise. From any reachable database with N pending events, N * limit timely passes over fixed endpoints settle everything,
  however many endpoints there are, exactly if every pending event has an active endpoint it was not delivered to.
- An event that has no such endpoint, because the one it failed at was deactivated, stays Failed as long as that
  endpoint stays inactive; when such events fill the batch, nothing is attempted, and the events behind them starve.
- The polling loop does not spin: with positive backoffs, at one instant and over fixed endpoints, it makes at most two
  passes without sleeping per pending event, and with one endpoint at most one.
- Several workers on one database are kept apart by the unique index alone. However their queries, clock readings,
  sends and saves interleave, the committed tries of a pair are 1, 2, 3, ... with at most one success, the last.

**Idempotency.** One history specification says when a key is created and when it is hit, and leaves no choice of
answers. The in-memory store and the Redis store are classes proved against it and so answer alike. The three Redis
commands are also run under arbitrary interleaving: a run obeys the specification exactly when no overwriting SET hits
a living id, which no run does that starts without foreign values and in which no key expires between a client's
failed SET NX and its GET; two concrete runs show that both assumptions are needed.

**Signatures.** The header parser, the hex decoder, the accumulating comparison and the wrapped time window are
written as in the source and proved equal to a reading of the raw header that mentions none of them; the load
generator's printer is proved to get from the validator the verdict each scenario is named for. HMAC-SHA256 and
UTF-8 are arbitrary functions (UTF-8 with its round trip). A request printed as expired is not always refused:
the printer adds 120 to the tolerance in 32 bits, and a verifying clock may run behind; the exact condition is
proved, and a request that passes is given. A request passes the validator exactly if its source asks for no signature
or the request carries one that spells the HMAC under the configured secret.

The modules: `DeliveryRules` (rules and the attempt log), `DeliveryPass` (one pass; the context and processor
classes), `DeliveryRuns`, `DeliveryTightness` (all runs of one worker), `DeliveryFixed`, `DeliveryDrain`,
`DeliveryStuck`, `DeliveryFixedMaximum` (passes over fixed endpoints), `DeliveryLoop` (the polling loop),
`ConcurrentWorkers`, `Idempotency`, `RedisProtocol`, `KeySpace`, `Hex`, `Text`, `Signatures`, `LoadTest`.

Instants are whole clock ticks, GUIDs are numbers, and what the clock, the network, the active-endpoint query and
chance produce are parameters. A pass given fewer readings than it has pairs is a pass that an exception ended.

## Model

| member | source | states |
|---|---|---|
| DeliveryRules.ExhaustedFromLimitOn | src/WebhookInbox.Worker/DeliveryProcessor.cs:144-158 | the two exhaustion tests together mean one number, the limit: a try reaches it exactly if it is past the backoff list or has reached MaxAttempts; below it a failure always gets a date |
| DeliveryRules.AttemptStateMeaning | src/WebhookInbox.Worker/DeliveryProcessor.cs:123-142 | the state read from the latest attempt: the next try continues the pair's numbering, and it is due exactly unless the pair has succeeded or its last backoff is still running |
| DeliveryRules.NextAttemptMeaning | src/WebhookInbox.Worker/DeliveryProcessor.cs:70-110 | the next row of a pair in either branch: its number, the code of the response, success exactly for a 2xx response, date exactly its own backoff in seconds, none for successes or past the list |
| DeliveryRules.NextTryIsFree | src/WebhookInbox.Infrastructure/EntityConfigurations/DeliveryAttemptConfig.cs:16 | whatever the log, a try number taken from it is free in the unique index |
| DeliveryRules.LawfulPair | src/WebhookInbox.Worker/DeliveryProcessor.cs:123-142 | in every lawful log the tries of a pair are 1, 2, 3, ..., only the last can succeed, and the highest try is the last commit |
| DeliveryRules.LawfulGaps | src/WebhookInbox.Worker/DeliveryProcessor.cs:134-150 | consecutive attempts of a pair are at least the earlier one's backoff apart |
| DeliveryRules.BackoffSumGrows | src/WebhookInbox.Worker/DeliveryProcessor.cs:144-151 | the waits of a pair are summed backoff by backoff, in ticks |
| DeliveryRules.BackoffOverWholeLog | src/WebhookInbox.Worker/DeliveryProcessor.cs:134-150 | over a whole log the waits add up to the sum of the backoffs |
| DeliveryPass.CandidatesAreLowest | src/WebhookInbox.Worker/DeliveryProcessor.cs:32-36 | the batch is the BatchSize lowest ids among New and Failed events, in order |
| DeliveryPass.VisitingOrder | src/WebhookInbox.Worker/DeliveryProcessor.cs:46-51 | a pass visits the batch event by event, each with the endpoints in query order, one clock reading after the other |
| DeliveryPass.RowsOfPair | src/WebhookInbox.Worker/DeliveryProcessor.cs:46-82 | a visited pair gains exactly one row if it was due when the pass began, else none |
| DeliveryPass.PassDoesExactlyItsWork | src/WebhookInbox.Worker/DeliveryProcessor.cs:46-118 | the whole effect of a pass on every pair's attempts and every event's status, and that nothing else changes |
| DeliveryPass.VisitRecordsOutcome | src/WebhookInbox.Worker/DeliveryProcessor.cs:50-113 | a visited pair gains nothing unless due, else one attempt that records the outcome of its own send |
| DeliveryPass.LastDueVisitDecides | src/WebhookInbox.Worker/DeliveryProcessor.cs:84-112 | after a pass an event with a due visit has the status of the last one: Dispatched exactly for a 2xx reply, DeadLetter for a failure past the backoff list or at MaxAttempts, else Failed |
| DeliveryPass.UntriedEventKeepsStatus | src/WebhookInbox.Worker/DeliveryProcessor.cs:51-52 | an event without a due visit keeps its status |
| DeliveryPass.CountIsSize | src/WebhookInbox.Worker/DeliveryProcessor.cs:93-120 | the number a pass returns is the number of rows it added that have a response code |
| DeliveryPass.VisitAdds | src/WebhookInbox.Worker/DeliveryProcessor.cs:50-113 | a pair decided on the live log in mid-pass gets the row it would have got at the start, and the index accepts it |
| DeliveryPass.AppDbContext.SaveChanges | src/WebhookInbox.Infrastructure/EntityConfigurations/DeliveryAttemptConfig.cs:8-17 | a save commits attempt and status together, or nothing when the unique index refuses the key |
| DeliveryPass.DeliveryProcessor.DeliverIfDue | src/WebhookInbox.Worker/DeliveryProcessor.cs:50-116 | one pair takes the database from k visits of the specified pass to k + 1 |
| DeliveryPass.DeliveryProcessor.DeliverNext | src/WebhookInbox.Worker/DeliveryProcessor.cs:48-117 | the next turn of the nested loops is the next visit of the specified pass, or the exception that ends it |
| DeliveryPass.DeliveryProcessor.DeliverEvent | src/WebhookInbox.Worker/DeliveryProcessor.cs:48-117 | one event and all endpoints, or up to the exception that ends the pass |
| DeliveryPass.DeliveryProcessor.ProcessOnce | src/WebhookInbox.Worker/DeliveryProcessor.cs:29-121 | the pass on the live log equals the pass specified on the initial log; it returns the size of the set of its rows with a response code |
| DeliveryRuns.ArrivalAdds | src/WebhookInbox.Domain/Entities/Event.cs:18 | an arriving event is New, and its arrival changes nothing else |
| DeliveryRuns.RunIsConsistent | src/WebhookInbox.Worker/DeliveryProcessor.cs:46-118 | every reachable database has a lawful log, no attempt without its event, and every status as its log says |
| DeliveryRuns.StatusAgreesWithLog | src/WebhookInbox.Worker/DeliveryProcessor.cs:84-112 | in every reachable state an event is New iff unattempted, and otherwise its last commit decides: Dispatched iff a success, DeadLetter iff a failure past the backoff list or at MaxAttempts, Failed iff any other failure |
| DeliveryRuns.PairOverWholeRun | src/WebhookInbox.Worker/DeliveryProcessor.cs:76-150 | in every run a pair's tries are 1, 2, 3, ..., a success is the last, and attempt i + 1 comes no earlier than its own backoff after attempt i and i backoffs after the first |
| DeliveryRuns.PassesAreSlots | src/WebhookInbox.Worker/DeliveryProcessor.cs:46-118 | the passes attempting an event are exactly as many as the distinct (endpoint, try below limit) slots they ended on, plus one if it is terminal |
| DeliveryRuns.AttemptBound | src/WebhookInbox.Worker/DeliveryProcessor.cs:46-158 | an event that met E endpoints was attempted in at most E * (limit - 1) + 1 passes, fewer while pending, and no try of it is higher |
| DeliveryRuns.VisitOfPair | src/WebhookInbox.Worker/DeliveryProcessor.cs:46-50 | a pass that runs to its end visits every pair of a batched event and a listed endpoint |
| DeliveryRuns.DuePairIsAttempted | src/WebhookInbox.Worker/DeliveryProcessor.cs:46-82 | a pass that runs to its end attempts every due pair of a batched event and a listed endpoint |
| DeliveryRuns.FailedEventIsRetried | src/WebhookInbox.Worker/DeliveryProcessor.cs:130-150 | every reachable Failed event has an endpoint with a dated failure, and any pass that batches it with that endpoint after the date attempts it |
| DeliveryFixed.OneFirstTry | src/WebhookInbox.Worker/DeliveryProcessor.cs:46-52 | over fixed endpoints and complete passes an attempted event has been sent to every endpoint, so at most one pass ends on a first try |
| DeliveryFixed.FixedAttemptBound | src/WebhookInbox.Worker/DeliveryProcessor.cs:46-158 | then an event is attempted in at most E * (limit - 2) + 2 passes whenever they come, fewer while pending, and no try of it is higher |
| DeliveryFixed.TimelyPassTriesOpenPairs | src/WebhookInbox.Worker/DeliveryProcessor.cs:46-142 | a timely pass gives every pair of a batched event that was not delivered one attempt, and every delivered pair none |
| DeliveryFixed.AttemptedIffOpen | src/WebhookInbox.Worker/DeliveryProcessor.cs:46-142 | a timely complete pass attempts a batched event exactly if some listed endpoint has no success for it |
| DeliveryDrain.TimelyPassesAreFew | src/WebhookInbox.Worker/DeliveryProcessor.cs:46-158 | from any consistent database timely passes try the undelivered endpoints of an event in step, and at most limit of them attempt it, fewer while it is pending |
| DeliveryDrain.TimelyRunsKeepMaximum | README.md:77 | over fixed endpoints and timely passes from the start no try exceeds the limit, so the promised MaxAttempts is kept |
| DeliveryDrain.BusyPassAttempts | src/WebhookInbox.Worker/DeliveryProcessor.cs:32-52 | a timely pass that begins with something pending attempts something, if every pending event has a listed endpoint without success |
| DeliveryDrain.BusyPassesBound | src/WebhookInbox.Worker/DeliveryProcessor.cs:29-121 | from any such database the timely passes that began with something pending, arrivals in between, number at most (pending events + arrivals) * limit, and fewer while something is pending |
| DeliveryDrain.ClosedEventStays | src/WebhookInbox.Worker/DeliveryProcessor.cs:51-52 | a pending event without an undelivered listed endpoint stays pending and unattempted through any passes over these endpoints, early or cut short |
| DeliveryDrain.Draining | src/WebhookInbox.Worker/DeliveryProcessor.cs:29-121 | from any consistent database with N pending events, whatever passes led to it, N * limit timely passes settle every event exactly if each pending one had an undelivered listed endpoint |
| DeliveryDrain.CanBeSettledIff | src/WebhookInbox.Worker/DeliveryProcessor.cs:29-121 | such passes can always be made, whatever comes back, so a database can be settled over given endpoints in N * limit passes exactly under that condition |
| DeliveryStuck.TimelyPassIsIdleIff | src/WebhookInbox.Worker/DeliveryProcessor.cs:32-52 | a timely pass attempts nothing exactly if no event of the batch has an undelivered listed endpoint |
| DeliveryStuck.ClosedBatchStarves | src/WebhookInbox.Worker/DeliveryProcessor.cs:32-52 | from such a batch on no pass over these endpoints, of any kind, changes anything, for the batch or for the events behind it |
| DeliveryStuck.StarvingRun | src/WebhookInbox.Worker/DeliveryProcessor.cs:32-36 | with a batch of one, a reachable database in which a Failed event whose other endpoint was deactivated keeps a New event from ever being attempted |
| DeliveryTightness.BoundIsReached | src/WebhookInbox.Worker/DeliveryProcessor.cs:123-158 | for all options and every number E of endpoints some run whose clock never goes back reaches try E * (limit - 1) + 1 |
| DeliveryTightness.CapHoldsIff | src/WebhookInbox.Worker/DeliveryProcessor.cs:123-158 | a number caps the tries of all runs over E endpoints with a forward clock exactly when it is at least E * (limit - 1) + 1 |
| DeliveryTightness.DocumentedMaximumHoldsIff | README.md:77 | the promised MaxAttempts per event and endpoint is kept in all runs over E endpoints with a forward clock exactly when E * (limit - 1) < MaxAttempts; with the defaults exactly when E = 1 |
| DeliveryFixedMaximum.StaysInStep | src/WebhookInbox.Worker/DeliveryProcessor.cs:134-158 | without a positive backoff among the first limit - 2, fixed endpoints stay in step under a forward clock and an event is attempted in at most limit passes |
| DeliveryFixedMaximum.LimitBroken | src/WebhookInbox.Worker/DeliveryProcessor.cs:134-158 | for all options, any positive backoff among the first limit - 2 gives a run of complete passes over two fixed endpoints with a forward clock and a try limit + 1 |
| DeliveryFixedMaximum.LimitHoldsOverFixedIff | src/WebhookInbox.Worker/DeliveryProcessor.cs:134-158 | for all options, no try goes beyond the limit in all complete runs over at most E fixed endpoints with a forward clock exactly if E = 1 or none of the first limit - 2 backoffs is positive |
| DeliveryFixedMaximum.DocumentedMaximumOverFixedIff | README.md:77 | for MaxAttempts up to BackoffSeconds.Length + 1 the promise is kept in all these runs exactly if MaxAttempts is positive and the same condition holds; with the defaults exactly when E = 1 |
| DeliveryFixedMaximum.LargeMaximumOverFixed | README.md:77 | a larger MaxAttempts is kept if the same condition holds or it is at least E * (limit - 2) + 2 |
| DeliveryLoop.DeliveredIff | src/WebhookInbox.Worker/DeliveryWorker.cs:23-24 | a poll delivers exactly if it had a reading for every pair and some row it committed has a response code |
| DeliveryLoop.DeliveryWorker.Poll | src/WebhookInbox.Worker/DeliveryWorker.cs:21-34 | one turn of the loop is one pass, and it stays awake exactly if it was cancelled or delivered |
| DeliveryLoop.DeliveryWorker.Execute | src/WebhookInbox.Worker/DeliveryWorker.cs:19-35 | the loop makes its passes one after the other up to the one in which it is cancelled, and stays awake after exactly that one and those that delivered |
| DeliveryLoop.AttemptTakesHeat | src/WebhookInbox.Worker/DeliveryProcessor.cs:123-158 | at one instant each attempting pass uses up one of the at most two passes (one, with a single endpoint) an event still has |
| DeliveryLoop.NoEventThrice | src/WebhookInbox.Worker/DeliveryProcessor.cs:134-150 | at one instant no event is attempted in three passes over a fixed endpoint set, with one endpoint in no two, and one without a due pair in none |
| DeliveryLoop.LoopDoesNotSpin | src/WebhookInbox.Worker/DeliveryWorker.cs:19-27 | with positive backoffs, at one instant at most two polls per pending event deliver, with one endpoint at most one, so one of the polls up to the next is followed by a sleep |
| ConcurrentWorkers.AcceptedRowIsLawful | src/WebhookInbox.Worker/DeliveryProcessor.cs:51-113 | a row the unique index lets in continues its pair where the pair stands at the commit, however stale the worker's check |
| ConcurrentWorkers.MoveKeepsInvariant | src/WebhookInbox.Worker/DeliveryProcessor.cs:51-113 | query, decision, send, dating, save, crash and the passing of time, each a step of its own, all keep the log lawful and every worker's plan founded on it |
| ConcurrentWorkers.ConcurrentPairLog | src/WebhookInbox.Infrastructure/EntityConfigurations/DeliveryAttemptConfig.cs:16 | under every interleaving of workers a pair's tries are 1, 2, 3, ... without gap or repeat, at most one succeeds and it is the last, and the backoffs are kept |
| ConcurrentWorkers.MoveCommits | src/WebhookInbox.Worker/DeliveryProcessor.cs:70-88 | the log gains exactly the saved row at a save whose (event, endpoint, try) nobody has committed, and nothing at any other move; a refused worker is dead |
| ConcurrentWorkers.LogIsAcceptedSaves | src/WebhookInbox.Worker/DeliveryProcessor.cs:70-88 | over any run the log has grown by exactly the accepted saves |
| ConcurrentWorkers.DeliveryCommitsIff | src/WebhookInbox.Worker/DeliveryProcessor.cs:51-113 | a worker that fetches a pair, finds it due and sends, the others moving freely in between, ends with its row and its own outcome in the log exactly if nobody committed that try meanwhile |
| ConcurrentWorkers.OneRacerCommits | src/WebhookInbox.Infrastructure/EntityConfigurations/DeliveryAttemptConfig.cs:16 | of two workers about to save one free try, exactly the first commits, whatever happens in between |
| Idempotency.CreationsApart | src/WebhookInbox.Api/Idempotency/InMemoryIdempotencyStore.cs:9-20 | two creations of a key are at least the earlier one's time to live apart |
| Idempotency.CreationRules | src/WebhookInbox.Api/Idempotency/IIdempotencyStore.cs:5-9 | a creation answers every later call for its key until its time is up; hits do not extend it, and the first call after it creates |
| Idempotency.HitNamesLiveCreation | src/WebhookInbox.Api/Idempotency/IIdempotencyStore.cs:5-9 | every hit returns the id of an earlier creation of the key that still lives |
| Idempotency.CreatesIff | src/WebhookInbox.Api/Idempotency/IIdempotencyStore.cs:5-9 | a call creates, with its own id, exactly if no earlier creation of its key still lives |
| Idempotency.InMemoryIdempotencyStore.TryReserve | src/WebhookInbox.Api/Idempotency/InMemoryIdempotencyStore.cs:9-20 | the lazily expiring map answers as the history specification does, dead entries and the default entry included |
| Idempotency.RedisIdempotencyStore.TryReserve | src/WebhookInbox.Api/Idempotency/RedisIdempotencyStore.cs:9-25 | an undisturbed sequence of SET NX, GET and SET, at any three instants, answers as the specification does at the deciding command, the repair of values that are no ids included |
| Idempotency.LegalAnswersAreUnique | src/WebhookInbox.Api/Idempotency/IIdempotencyStore.cs:5-9 | the specification answers a sequence of calls in one way only |
| Idempotency.InMemoryAnswers | src/WebhookInbox.Api/Idempotency/InMemoryIdempotencyStore.cs:9-20 | a sequence of calls on the map and its answers form a legal history |
| Idempotency.RedisAnswers | src/WebhookInbox.Api/Idempotency/RedisIdempotencyStore.cs:9-25 | a sequence of calls on Redis and its answers form a legal history, whatever foreign values it started with |
| Idempotency.StoresAgree | src/WebhookInbox.Api/Idempotency/RedisIdempotencyStore.cs:9-25 | both stores, given the same calls at the same instants, give the same answers, and these are the legal ones |
| RedisProtocol.MoveCompletes | src/WebhookInbox.Api/Idempotency/RedisIdempotencyStore.cs:14-24 | what each command does given what the key holds at that instant: which calls it completes, with which id, and what it leaves in the key |
| RedisProtocol.CallsAreConserved | src/WebhookInbox.Api/Idempotency/RedisIdempotencyStore.cs:9-25 | every call that was started is completed or still with its client |
| RedisProtocol.MoveIsLegalIff | src/WebhookInbox.Api/Idempotency/RedisIdempotencyStore.cs:14-24 | in any state any client's next command keeps the specification exactly when it does not overwrite a living id |
| RedisProtocol.LegalIffNothingClobbered | src/WebhookInbox.Api/Idempotency/RedisIdempotencyStore.cs:14-24 | an arbitrary interleaved run, on a database that may hold foreign values, obeys the history specification exactly when no repairing SET hit a living id |
| RedisProtocol.WindowedRunsAreLegal | src/WebhookInbox.Api/Idempotency/RedisIdempotencyStore.cs:14-24 | without foreign values, if no key expires between a client's failed SET NX and its GET, the repair branch is never reached and the run obeys the specification |
| RedisProtocol.OneCreatorPerLifetime | src/WebhookInbox.Api/Idempotency/RedisIdempotencyStore.cs:14-24 | under that assumption everyone who completes in a key's lifetime after its creator is given the creator's id |
| RedisProtocol.ExpiryInWindowBreaksIt | src/WebhookInbox.Api/Idempotency/RedisIdempotencyStore.cs:22-24 | with an expiry there, a concrete run in which two clients create the same living key with different ids |
| RedisProtocol.ForeignValueBreaksIt | src/WebhookInbox.Api/Idempotency/RedisIdempotencyStore.cs:22-24 | with a foreign value, a concrete run without any expiry in which two clients repair it and both create, with different ids |
| KeySpace.SourcesCollideIff | src/WebhookInbox.Api/Idempotency/IdempotencyKeyResolver.cs:25-26 | two sources can share a stored key exactly when one extends the other at a colon |
| KeySpace.NamespacedParts | src/WebhookInbox.Api/Idempotency/IdempotencyKeyResolver.cs:25-26 | a stored key is the prefix, the source, a colon and the key, character for character |
| KeySpace.ColonFreeSourcesAreApart | src/WebhookInbox.Api/Idempotency/IdempotencyKeyResolver.cs:25-26 | sources without colons never share a stored key |
| Hex.ParsesIffSpells | src/WebhookInbox.Api/Signatures/SignatureValidator.cs:79-97 | a string decodes to given bytes exactly when it is their hex spelling in some mixture of cases |
| Hex.TryParseHexIff | src/WebhookInbox.Api/Signatures/SignatureValidator.cs:79-97 | the same for TryParseHex, and printing in lower case then parsing gives the bytes back |
| Hex.RejectedIff | src/WebhookInbox.Api/Signatures/SignatureValidator.cs:81-96 | decoding fails exactly for odd lengths and for strings with a character that is no hex digit |
| Hex.DigitMeaning | src/WebhookInbox.Api/Signatures/SignatureValidator.cs:89 | the digits are 0 to 9 and A to F in either case, with their values |
| Hex.ByteAt | src/WebhookInbox.Api/Signatures/SignatureValidator.cs:89 | two digits make a byte, the more significant one first |
| Hex.LowerAt | src/WebhookInbox.LoadTest/LoadTestWorker.cs:448 | lower-casing moves A to Z by 32 and nothing else |
| Hex.FixedTimeEquals | src/WebhookInbox.Api/Signatures/SignatureValidator.cs:99-105 | the OR of XORs is zero exactly for equal arrays |
| Text.JoinOfSplit | src/WebhookInbox.Api/Signatures/SignatureValidator.cs:52 | every header is the comma-join of its comma-free pieces |
| Text.SplitOfJoin | src/WebhookInbox.Api/Signatures/SignatureValidator.cs:52 | splitting a join of comma-free pieces gives the pieces back |
| Text.WhiteSpaceCodes | src/WebhookInbox.Api/Signatures/SignatureValidator.cs:52 | the white space that is trimmed, by its code points |
| Text.NumberSpaceCodes | src/WebhookInbox.Api/Signatures/SignatureValidator.cs:64 | the white space that number parsing skips, by its code points |
| Text.SplitPairIff | src/WebhookInbox.Api/Signatures/SignatureValidator.cs:57-58 | an entry without '=' has no two parts, any other is split at its first '=' |
| Text.ParseOfForm | src/WebhookInbox.Api/Signatures/SignatureValidator.cs:64 | spaces, a sign, digits, spaces and NULs are read as the decimal value of the digits if it fits into 64 bits |
| Text.FormOfParsed | src/WebhookInbox.Api/Signatures/SignatureValidator.cs:64 | no other text is read as a number |
| Text.ValueOfDigit | src/WebhookInbox.Api/Signatures/SignatureValidator.cs:64 | the value of digits is decimal, the most significant digit first |
| Text.ParseOfPrint | src/WebhookInbox.Api/Signatures/SignatureValidator.cs:64 | parsing the printed form of a 64-bit number gives the number back |
| Signatures.WindowIsTrueWindow | src/WebhookInbox.Api/Signatures/SignatureValidator.cs:64-66 | the wrapped 64-bit distance accepts exactly the timestamps within the tolerance in true integers, except the single one for which Math.Abs throws |
| Signatures.HeaderSnoc | src/WebhookInbox.Api/Signatures/SignatureValidator.cs:29-32 | the value of a header: its lines in order under any case of the name, empty ones skipped, joined by commas |
| Signatures.GitHubReasons | src/WebhookInbox.Api/Signatures/SignatureValidator.cs:27-44 | the verdict on every GitHub request with its reason, in terms of the characters of the header |
| Signatures.ItemMeaning | src/WebhookInbox.Api/Signatures/SignatureValidator.cs:55-61 | an entry is a timestamp exactly if it is t= and a text, a signature exactly if it is v1= and a text |
| Signatures.StripeReasons | src/WebhookInbox.Api/Signatures/SignatureValidator.cs:46-77 | the verdict on every Stripe request with its reason, in terms of the entries on all its lines |
| Signatures.FirstConfigIs | src/WebhookInbox.Api/Signatures/SignatureValidator.cs:14 | the configuration used is the first one whose source is the requested one in any case, none if there is no such |
| Signatures.ConfiguredVerdict | src/WebhookInbox.Api/Signatures/SignatureValidator.cs:15-24 | the verdict under that configuration: skipped, missing secret, unknown provider, or the provider's own |
| Signatures.UnconfiguredVerdict | src/WebhookInbox.Api/Signatures/SignatureValidator.cs:15 | a source without configuration passes |
| Signatures.ValidateGitHub | src/WebhookInbox.Api/Signatures/SignatureValidator.cs:27-44 | accepted iff the header, after its prefix in any case, spells the HMAC of the payload; each refusal with its reason |
| Signatures.ReadItems | src/WebhookInbox.Api/Signatures/SignatureValidator.cs:53-61 | the parsing loop finds the last timestamp and exactly the offered v1 values |
| Signatures.TrimmingKeepsReading | src/WebhookInbox.Api/Signatures/SignatureValidator.cs:52 | dropping empty pieces and trimming the others does not change what the header says |
| Signatures.AnySpells | src/WebhookInbox.Api/Signatures/SignatureValidator.cs:71-76 | the candidate loop succeeds iff some v1 value spells the computed HMAC |
| Signatures.ValidateStripe | src/WebhookInbox.Api/Signatures/SignatureValidator.cs:46-77 | the method equals the reading of the raw header: accepted iff the last t is a number inside the true window and some v1 spells the HMAC; each refusal with its reason, and when it throws |
| Signatures.IdlePieceIsIgnored | src/WebhookInbox.Api/Signatures/SignatureValidator.cs:55-61 | empty entries, entries without a value and entries with other names do not matter |
| Signatures.PaddingIsIgnored | src/WebhookInbox.Api/Signatures/SignatureValidator.cs:52 | white space around entries does not matter |
| Signatures.OrderIsIgnored | src/WebhookInbox.Api/Signatures/SignatureValidator.cs:55-61 | neighbouring entries may be exchanged unless both are timestamps |
| Signatures.PermutationIsIgnored | src/WebhookInbox.Api/Signatures/SignatureValidator.cs:55-61 | the entries may be permuted in any way that leaves the last timestamp the last |
| Signatures.RepeatedSignatureIsIgnored | src/WebhookInbox.Api/Signatures/SignatureValidator.cs:55-61 | repeating a v1 entry anywhere does not matter |
| Signatures.LinesReadAsOne | src/WebhookInbox.Api/Signatures/SignatureValidator.cs:48-52 | a header spread over several lines, empty ones included, reads as its pieces line by line |
| Signatures.EquivalentHeaders | src/WebhookInbox.Api/Signatures/SignatureValidator.cs:46-77 | requests whose Stripe-Signature pieces, over all its lines, read the same get the same verdict |
| Signatures.Validate | src/WebhookInbox.Api/Signatures/SignatureValidator.cs:12-25 | the entry point: first matching source, requirement, secret, provider, then the verdict of the provider |
| Signatures.PassesIff | src/WebhookInbox.Api/Signatures/SignatureValidator.cs:12-77 | a request passes exactly if no configuration is for its source, or the first that is requires nothing or has a usable secret and the header spells the HMAC under it, for Stripe with a last timestamp inside the window |
| LoadTest.NormalizedScenario | src/WebhookInbox.LoadTest/LoadTestWorker.cs:429-442 | what is played for a chosen scenario, by whether there is a secret and by the provider |
| LoadTest.BuildRequest | src/WebhookInbox.LoadTest/LoadTestWorker.cs:291-348 | the lines of a request one by one, ids included, and which signature headers a lookup finds in them |
| LoadTest.GitHubScenarios | src/WebhookInbox.LoadTest/LoadTestWorker.cs:302-318 | every chosen GitHub scenario gets from the validator the verdict it is named for; a wrong secret, played for expired ones too, passes iff the HMACs coincide |
| LoadTest.StripeScenarios | src/WebhookInbox.LoadTest/LoadTestWorker.cs:320-338 | the same for Stripe within the tolerance of signing, with the exact verdict on expired requests |
| LoadTest.ExpiredTimestamp | src/WebhookInbox.LoadTest/LoadTestWorker.cs:321-323 | exactly when a timestamp printed as expired is outside the tolerance, the 32-bit overflow of the offset included |
| LoadTest.ExpiredRequestPasses | src/WebhookInbox.LoadTest/LoadTestWorker.cs:320-338 | a request printed as expired, tolerance 300, that a validator two minutes behind accepts |
| LoadTest.CreatedWeights | src/WebhookInbox.LoadTest/LoadTestWorker.cs:526-541 | if some ratio is positive (the expired one only for Stripe), every scenario has its ratio if that counts and else none; if none counts, only Valid has weight |
| LoadTest.ChooseScenario | src/WebhookInbox.LoadTest/LoadTestWorker.cs:478-494 | each scenario is chosen for exactly its half-open interval of rolls, and never without weight |

## Left out

- DeliveryPass.DeliveryProcessor.ProcessOnce: `BatchSize` is a natural number (a negative one is refused by the database), the try counter and the dates do not overflow, and an exception that ends the pass ends it between two commits.
- DeliveryFixedMaximum.LargeMaximumOverFixed: says when a MaxAttempts above BackoffSeconds.Length + 1 is kept, not when it is broken; the highest try then depends on how sums of the single backoffs compare with each other. For the same reason E * (limit - 2) + 2 in DeliveryFixed is an upper bound only.
- ConcurrentWorkers.ConcurrentPairLog: speaks of the log, not of statuses, which have no concurrency token; a refused save ends its worker for good, because the refused row stays in its context. Saves that fail for reasons other than the index, after which a context could still commit the row later, are not modelled.
- Idempotency.RedisIdempotencyStore.TryReserve: others may have left values that are no ids before the first call, but write nothing afterwards and leave no ids; times to live are positive as Redis demands, and connection failures are not modelled.
- Idempotency.InMemoryIdempotencyStore.TryReserve: one call at a time; its read and its write are two steps in the source, and concurrent calls can both create.
- LoadTest.ChooseScenario: weights are real numbers, without floating-point rounding.
- Text.ParseOfPrint: numbers are printed and parsed with invariant signs; strings are sequences of Unicode characters and case folding is that of ASCII.
- HTTP itself, inline retries, response bodies and their truncation, metrics and logging: an outcome is a status code or an exception.
- GUID formatting and parsing: any two functions with the round trip.
- HMAC-SHA256 and UTF-8: any functions, UTF-8 with the round trip of text.
- EF Core, PostgreSQL and migrations beyond atomic saves and the unique index.
- The choice of the idempotency key from the request headers: one branch after another.
- The API handlers, the ingress rate limiter, payload generation, worker timers, the Blazor UI and the deployment files.
- Per-endpoint rate limiting and manual redelivery: described in the RFCs, absent from the code.
