# Verified model of the event bus and its development tooling

This Dafny project models the concurrent and algorithmic core of the repository and proves what that
core is for. Run `dafny verify dfyconfig.toml`.

Code that changes state step by step is modelled twice and tied together. A step system on values has
one action for each stretch of code between two awaits (and one for each effect at a server or in the
store's thread), and theorems about it hold for every interleaving and every run. Classes and methods
with the program's own fields and loops are proved to take exactly those steps, or to compute exactly
the specification functions.

| area | modules |
|---|---|
| bus dispatcher: bounded priority queues, one semaphore, workers, stop protocol | `Semaphore`, `Dispatcher`, `PublishFates`, `BusCore` |
| persistent outbox, publish and relay with crashes | `Outbox`, `OutboxProtocol`, `OutboxRuns`, `OutboxRetries`, `Relay` |
| Redis Streams consumer groups: pending list, dedup keys, sweeps, parking | `GroupDelivery`, `DeliveryLimits`, `GroupConsumer` |
| broadcast reader with its own cursor | `BroadcastReader` |
| subscription index and echo suppression | `Subscriptions`, `EchoSet` |
| git compare-and-swap id allocator | `IdLedger`, `IdAllocator`, `ReserveIds` |
| task-graph lint: levels, closure, file overlaps | `TaskGraph`, `Lint` |
| execution profiler: interval union, start/end pairing | `Intervals`, `SpanPairing`, `PairingLimits`, `SpanResolution` |
| webhook signature schemes | `Text`, `Signatures`, `SignatureVerdicts` |
| shared facts | `Collections`, `Sorting` |

## Where the code does not do what one would like

Each of these comes with a run or a log that shows it and with the exact condition.

- Two reservations with the same kind, count, label and author, made on the same base within one
  second, build one and the same commit. The second push is "up to date" and succeeds, so both callers
  get the same ids (`IdAllocator.EqualRequestsInOneSecondCollide`). Two requests can be given a common
  number if and only if they agree in these four (`IdAllocator.CollisionPossibleIffAlike`), and in any run
  two callers share one if and only if they pushed the same commit (`IdAllocator.AllocationIsSafe`).
- The docstring at src/navigator_eventbus/backends/redis_streams.py:698-703 says a parked entry is never
  redispatched. A slow job that had the entry in hand before can still dispatch it
  (`DeliveryLimits.ParkedYetDispatched`); and if its acknowledgement failed, a sweep whose first call does
  not list it can claim it for dispatch (`DeliveryLimits.ParkedYetPending`). An entry that was delivered,
  parked or not, can be dispatched again if and only if it is still pending or a job that has it in hand
  has not come to its call (`GroupDelivery.DispatchedAgainIff`). By sweeps in sync with the pending list a
  parked entry can, if and only if there is such a job (`GroupDelivery.DispatchedInSyncIff`).
- The limit on deliveries rests on two server calls. A claim for dispatch of an entry already over the
  limit, possible when the first call's reply does not list it, adds one dispatch to max_deliveries + 1.
  This bound (`GroupDelivery.DeliveryBound`) is attained for every limit and every number of such claims
  (`DeliveryLimits.BoundIsAttained`).
- Re-appending an event id that is in the outbox is a no-op only below the row cap: at the cap it is
  rejected or evicts a row first (`Outbox.ReappendUnchangedIff`).
- Two publishes of one id may be in the backend at once: the relay can overtake the publisher
  (`OutboxRuns.RelayOverlapsPublisher`), and a caller can overlap itself although the id is marked as in
  flight (`OutboxRuns.CallerOverlapsItself`). If callers publish an id once, its publishes never overlap,
  over any crashes and retries, if and only if the relay never takes its row between the commit of the
  append and the moment it is marked (`OutboxRuns.OnceNeverOverlapsIff`). In general a publish is marked
  from its start to its end if and only if none starts with a failed append while the id is unmarked and
  none ends while another is there (`OutboxRuns.AlwaysMarkedIff`). No event is lost by overlaps.
- A publish task cancelled before it first runs can leave its id in the in-flight set with no task that
  would take it out (`OutboxRuns.CancelledBeforeStart`), and the relay then skips the row until the process
  dies or a caller publishes the id again (`OutboxRuns.LeakLasts`). An id in flight always has a task that
  will take it out, if and only if no publish task of it is cancelled before it ran while the id is marked
  and no other task holds it (`OutboxRuns.NeverLeakedIff`, `OutboxRuns.LeaksExactly` for one step).
- With a float interval, `relay_interval * 2 ** (attempts - 1)` raises OverflowError from the 1025th attempt
  on. The error is swallowed, so no nack is stored and the row stays due: an outage of 1024 retries ends
  the backoff (`OutboxRetries.BackoffCollapses`). Delays grow and stay capped exactly as long as they exist
  (`OutboxProtocol.BackoffMonotone`), and from then on the row is left as it was
  (`OutboxRetries.ExhaustedRowIsFrozen`).
- The overflow policy follows the arriving topic, so an envelope of any topic, one with the `block` policy
  included, can be dropped (`Dispatcher.AnyTopicCanBeDropped`). A queue loses an envelope if and only if an
  arrival whose own topic has `drop_oldest` meets it full (`Dispatcher.DroppedIffOverflowed`), which is
  possible if and only if queues are bounded and some topic has that policy
  (`Dispatcher.DropsPossibleIffConfigured`).
- The start/end pairing processes events by timestamp text. It resolves as many ends as possible for every
  choice of starts if and only if the ends of each identity are in text order
  (`PairingLimits.MaximumExactlyIfEndsInOrder`; `PairingLimits.MixedFormatsLoseASpan` is a log that loses a
  span). Spans of one identity do not cross for every choice of starts in order if and only if its ends are
  in order, and for every choice of ends in order if and only if its starts are
  (`PairingLimits.NoneCrossExactlyIfEndsInOrder`, `PairingLimits.NoneCrossExactlyIfStartsInOrder`).

## Model

| member | source | states |
|---|---|---|
| Semaphore.ReleaseAddsOne | src/navigator_eventbus/core.py:401-403 | a release adds exactly one permit, counting free ones and those granted to waiters |
| Semaphore.ReleaseServesInOrder | src/navigator_eventbus/core.py:685-686 | a released permit goes to the longest waiting worker without one, and is left lying exactly if there is none |
| Semaphore.ResumeTakesOne | src/navigator_eventbus/core.py:685-686 | a granted waiter that runs uses up one permit and passes on any that are left |
| Semaphore.CancelKeeps | src/navigator_eventbus/core.py:291-297 | cancelling a waiting worker loses no permit |
| Dispatcher.StepKeepsInv | src/navigator_eventbus/core.py:369-403 | every step of publishers, meta events, workers and shutdown keeps queue order, bounds, permit accounting and stop permits |
| Dispatcher.ExactAccounting | src/navigator_eventbus/core.py:391-395 | in every run permits equal queued envelopes plus drops plus stop releases minus spurious wake-ups minus exits, and are never fewer than the queued envelopes |
| Dispatcher.PermitPopsHighest | src/navigator_eventbus/core.py:683-705 | a worker that gets a permit while envelopes are queued takes the oldest of the highest non-empty queue |
| Dispatcher.NoLostWakeup | src/navigator_eventbus/core.py:683-705 | while an envelope is queued and a live worker is idle, some worker's next step pops one |
| Dispatcher.Conservation | src/navigator_eventbus/core.py:369-403 | what was put in a queue is, in order, what was popped or dropped followed by what is queued; a bounded queue keeps its bound |
| Dispatcher.PolicyByClass | src/navigator_eventbus/core.py:883-892 | a topic without a policy of its own has that of its first segment, else the default |
| Dispatcher.StartBringsWorkers | src/navigator_eventbus/core.py:237-255 | in every run a start finds no live worker and brings up exactly the configured number |
| Dispatcher.StopReleasesOneEach | src/navigator_eventbus/core.py:285-289 | the stop adds exactly one permit for each configured worker |
| Dispatcher.PermitWithoutWork | src/navigator_eventbus/core.py:683-705 | a worker that gets a permit with nothing queued exits if and only if the bus is stopping |
| PublishFates.EnqueueFate | src/navigator_eventbus/core.py:369-403 | a publish that goes on to its queue is refused if and only if the queue is full under the reject policy, suspended if and only if it is full under block, and put otherwise; a full queue emits the meta event if that has room |
| PublishFates.FatesExactly | src/navigator_eventbus/core.py:337-403 | nothing else refuses a publish, and what is let in, abandoned or cancelled is so by that step alone |
| PublishFates.EveryPublishAccounted | src/navigator_eventbus/core.py:337-403 | in every run each publish let in and each meta event put is, as often as it came, waiting for the outbox, abandoned, put, blocked, cancelled or refused |
| Dispatcher.DropsExactlyOnOverflow | src/navigator_eventbus/core.py:369-398 | a step drops an envelope of a queue if and only if it is an arrival with the drop_oldest policy that meets the queue full |
| Dispatcher.DroppedIffOverflowed | src/navigator_eventbus/core.py:369-398 | a run drops an envelope of a queue if and only if such an arrival happens in it |
| Dispatcher.AnyTopicCanBeDropped | src/navigator_eventbus/core.py:371-398 | for any envelope, whatever its own policy, a run from the start drops it |
| Dispatcher.DropsPossibleIffConfigured | src/navigator_eventbus/core.py:883-892 | a queue can ever lose an envelope if and only if queues are bounded and some topic has the drop_oldest policy |
| Dispatcher.StopNeverSticks | src/navigator_eventbus/core.py:285-289 | after the stop releases, as long as a worker lives some worker can step: nobody waits in acquire for ever |
| Dispatcher.StopTerminates | src/navigator_eventbus/core.py:285-289 | in every run after the stop releases worker steps are bounded by what was left and three per envelope put meanwhile, and when none is possible every worker has ended |
| BusCore.BusCore.EnqueueLocal | src/navigator_eventbus/core.py:369-403 | the in-place queue updates under all three policies are the step system's; the publisher gets an error exactly if the queue is full under reject, and is suspended exactly if it is full under block |
| BusCore.BusCore.Admit | src/navigator_eventbus/core.py:337-338 | a publish is let in exactly while the bus is not closing |
| BusCore.BusCore.Enqueue | src/navigator_eventbus/core.py:341-367 | once the outbox has taken the envelope it goes to the queues, even if the bus has begun closing, and the invariant is kept |
| BusCore.BusCore.Publish | src/navigator_eventbus/core.py:337-367 | without an outbox the two happen at once |
| BusCore.BusCore.PopNext | src/navigator_eventbus/core.py:698-705 | removes the head of the first non-empty queue, and nothing when all are empty |
| BusCore.BusCore.Acquire | src/navigator_eventbus/core.py:683-697 | taking a permit at once, or joining the waiters, is the worker's step |
| BusCore.BusCore.BeginClose | src/navigator_eventbus/core.py:262-264 | the first close takes effect, a second one changes nothing |
| BusCore.BusCore.StopWorkers | src/navigator_eventbus/core.py:285-289 | the loop of releases gives one permit for each worker |
| Outbox.SqliteOutbox.Append | src/navigator_eventbus/outbox.py:152-189 | the new table, the counters and the cached count after an append, a rejection or an eviction; the count stays the number of rows and every row is accounted for |
| Outbox.SqliteOutbox.Ack | src/navigator_eventbus/outbox.py:191-194 | deletes the row and keeps the count exact |
| Outbox.SqliteOutbox.Nack | src/navigator_eventbus/outbox.py:196-202 | changes attempts, error and retry time of that row only |
| Outbox.SqliteOutbox.Due | src/navigator_eventbus/outbox.py:204-235 | purges expired rows, reads the oldest due rows up to the limit, deletes and counts those that do not decode, returns the others in order |
| Outbox.SqliteOutbox.Select | src/navigator_eventbus/outbox.py:216-220 | the rows read are due, distinct, oldest first, and no due row left out is older |
| Outbox.ReappendUnchangedIff | src/navigator_eventbus/outbox.py:152-189 | re-append of a present id leaves the table alone if and only if the table is below the cap, but for a row that evicts itself and is rewritten identically |
| OutboxProtocol.BackoffMonotone | src/navigator_eventbus/core.py:430-435 | if an attempt has a delay so has every earlier one; delays never shrink as attempts grow and never exceed the cap |
| OutboxProtocol.BackoffDoubles | src/navigator_eventbus/core.py:430-435 | the first delay is the interval and each further one twice the one before, all capped, for exactly the first 1024 attempts |
| OutboxProtocol.StepKeepsInv | src/navigator_eventbus/core.py:405-502 | every step of publish, relay, store, cancellation and crash keeps the no-loss invariant |
| OutboxProtocol.NoLoss | src/navigator_eventbus/core.py:341-366 | in every run, crashes and overlapping publishes included, an inserted id still has its row, or a publish of it was confirmed, or the store counted its row as dropped, expired or corrupt |
| OutboxProtocol.RowsLeaveForCause | src/navigator_eventbus/core.py:437-451 | a row disappears only by the store's own count or by an ack of a confirmed publish |
| OutboxProtocol.RetryBounded | src/navigator_eventbus/core.py:453-470 | over every run a row is due at creation until its first nack, and then no later than the cap after its latest nack |
| OutboxProtocol.InflightIsReleased | src/navigator_eventbus/core.py:405-428 | in every run an id is in flight only while a task that will unmark it lives, or after its task was cancelled before it ran |
| OutboxRuns.ReportsIffMarked | src/navigator_eventbus/core.py:405-470 | a publish that ends asks the store for something if and only if it is marked: an ack, or after a failure, which is counted, a nack with the delay for that count |
| OutboxRuns.FetchExactly | src/navigator_eventbus/core.py:472-481 | the relay's read removes exactly the rows that are too old and those read that do not decode, and the pass has the others that were read before it |
| OutboxRuns.ResetsExactly | src/navigator_eventbus/core.py:494-502 | a pass clears all counts exactly if it found no row left, and a crash clears everything but the table |
| OutboxRuns.SettleClears | src/navigator_eventbus/core.py:425-502 | when a publish is over its mark is gone, only a carried out ack clears its count, and the relay goes on exactly if it did not fail |
| OutboxRuns.RelayOverlapsPublisher | src/navigator_eventbus/core.py:343-361 | a run from the start in which the relay and the publisher of an id are in the backend at once |
| OutboxRuns.CallerOverlapsItself | src/navigator_eventbus/core.py:343-367 | a run from the start in which two publishes of one id by callers are in the backend at once while the id is marked |
| OutboxRuns.OnceNeverOverlapsIff | src/navigator_eventbus/core.py:341-366 | in every run in which callers publish an id once, by an append that does not fail, its publishes never overlap if and only if the relay never takes the row after its append and before its mark; then no two are in the backend at once |
| OutboxRuns.AlwaysMarkedIff | src/navigator_eventbus/core.py:361-428 | in every run each publish of an id is marked from start to end if and only if no append of it fails while it is unmarked and no publish of it ends while another is there |
| OutboxRuns.LeaksExactly | src/navigator_eventbus/core.py:361-428 | a step leaves an id in flight with no task to take it out if and only if it cancels, before its first run, the only task that holds the marked id |
| OutboxRuns.NeverLeakedIff | src/navigator_eventbus/core.py:405-428 | in every run an id in flight always has a task that will take it out if and only if no such cancellation happens |
| OutboxRuns.CancelledBeforeStart | src/navigator_eventbus/core.py:361-366 | a run from the start that leaves an id in flight with its row in place and no task concerned with it |
| OutboxRuns.LeakLasts | src/navigator_eventbus/core.py:479-481 | such an id stays in flight, and nobody publishes it, until a crash or a new publish of it by a caller |
| OutboxRetries.BackoffCollapses | src/navigator_eventbus/core.py:430-435 | an outage of 1024 retries, shorter than rows are kept, leads from the start to a failure after which the row is due at that very instant |
| OutboxRetries.ExhaustedRowIsFrozen | src/navigator_eventbus/core.py:453-470 | from 1024 counted failures on every run leaves the row of an id as it was, until the count starts over or the row is written anew |
| Relay.Relay.RelayOnce | src/navigator_eventbus/core.py:472-502 | one pass: due rows not in flight are published in order, acked or nacked, stopping at the first failure; attempts are cleared when the table is empty |
| Relay.PublishesUpToFirstFailure | src/navigator_eventbus/core.py:482-496 | the circuit breaker: all eligible rows are published, or those up to and including the first failure |
| Relay.HealthyPassLeaves | src/navigator_eventbus/core.py:472-502 | with nothing in flight and a healthy backend exactly the selected rows leave the table, each decodable one published once |
| Relay.PassesDrain | src/navigator_eventbus/core.py:472-510 | k healthy passes at one instant leave exactly max(0, due - k * batch) due rows |
| Relay.PassIsRun | src/navigator_eventbus/core.py:472-502 | an undisturbed pass is a run of the protocol's steps with the same table and attempts at the end |
| GroupDelivery.StepKeepsInv | src/navigator_eventbus/backends/redis_streams.py:756-806 | every await of the handler, every failure, expiry and crash keeps placement and justification of acknowledgements |
| GroupDelivery.NoEntryLost | src/navigator_eventbus/backends/redis_streams.py:756-867 | in every run an entry is ahead of the cursor, pending or acknowledged; acknowledged only if undecodable, parked, or its event's callback returned; a dedup key exists only in the last case |
| GroupDelivery.DedupSuppresses | src/navigator_eventbus/backends/redis_streams.py:756-806 | in every run, while an event's dedup key lives no job dispatches the event but those past their check when the key was set |
| GroupDelivery.DeliveryBound | src/navigator_eventbus/backends/redis_streams.py:631-693 | an entry is dispatched at most max_deliveries + 1 times plus once per claim made although it was over the limit |
| GroupDelivery.SyncedDeliveryBound | src/navigator_eventbus/backends/redis_streams.py:631-693 | with sweeps that see the pending list as it is, at most max_deliveries + 1 times |
| GroupDelivery.ParkedIsFinal | src/navigator_eventbus/backends/redis_streams.py:695-724 | after parking, acknowledged or not, and by sweeps in sync with the pending list, only a job that already had the entry and has not come to its call can dispatch it |
| GroupDelivery.DispatchedAgainIff | src/navigator_eventbus/backends/redis_streams.py:631-724 | over all runs, a delivered entry, parked or not, can be dispatched again if and only if it is still pending or such a job exists |
| GroupDelivery.DispatchedInSyncIff | src/navigator_eventbus/backends/redis_streams.py:695-724 | by sweeps in sync with the pending list, a parked entry can be dispatched again if and only if such a job exists |
| DeliveryLimits.ParkedYetDispatched | src/navigator_eventbus/backends/redis_streams.py:695-724 | for every limit a run from the start in which a parked entry is dispatched afterwards by a slow job, with sweeps in sync |
| DeliveryLimits.ParkedYetPending | src/navigator_eventbus/backends/redis_streams.py:631-724 | for every limit a run from the start in which a parked entry that no job has in hand is dispatched afterwards by a stale claim |
| DeliveryLimits.BoundIsAttained | src/navigator_eventbus/backends/redis_streams.py:631-693 | for every limit and every number of claims in spite of the count a run from the start attains the bound |
| GroupConsumer.Group.HandleMessage | src/navigator_eventbus/backends/redis_streams.py:756-806 | the handler takes exactly the steps its outcomes call for, dedup mark before acknowledgement, dispatches an entry exactly if it decodes and has no key, and lets only a failed lookup escape |
| GroupConsumer.Group.ParkToDlq | src/navigator_eventbus/backends/redis_streams.py:695-724 | hands over or drops the entry, never dispatches it, and acknowledges it whatever the callback does |
| GroupConsumer.Group.Reclaim | src/navigator_eventbus/backends/redis_streams.py:656-679 | each listed entry is delivered once more, and is to be parked exactly if it was over the limit |
| GroupConsumer.Group.Sweep | src/navigator_eventbus/backends/redis_streams.py:640-688 | a pass leaves pending list and dedup keys as handling the listed entries in order does, parking those over the limit; if acknowledgements succeed and no lookup fails, only entries within the limit whose callback failed are still pending |
| GroupConsumer.Group.ConsumeOnce | src/navigator_eventbus/backends/redis_streams.py:530-543 | one turn reads the next batch and handles it in order up to an escaping exception; undisturbed, only entries whose callback failed are still pending |
| GroupConsumer.LeavesPendingIff | src/navigator_eventbus/backends/redis_streams.py:680-806 | an entry of a batch leaves the pending list if and only if no exception ended the batch before and it is parked, undecodable, a duplicate or handled, and its acknowledgement succeeds |
| GroupConsumer.UndisturbedLeaves | src/navigator_eventbus/backends/redis_streams.py:756-806 | in an undisturbed batch an entry stays pending if and only if it was within the limit, decoded, was no duplicate at its turn, and its callback failed |
| GroupConsumer.ConsumerRespectsLimit | src/navigator_eventbus/backends/redis_streams.py:631-693 | whatever such a consumer has been through, it dispatched no entry more than max_deliveries + 1 times |
| BroadcastReader.Instance.Turn | src/navigator_eventbus/backends/redis_streams.py:582-595 | one turn hands over a contiguous stretch from the cursor, also when cut off, and moves the cursor behind it |
| BroadcastReader.DiscoveredIsGapFree | src/navigator_eventbus/backends/redis_streams.py:482-510 | from a resolved tail, any turns hand over exactly the entries from the tail to the cursor, in order, each once |
| BroadcastReader.SentinelMissesEarlierArrivals | src/navigator_eventbus/backends/redis_streams.py:499-505 | with the sentinel fallback exactly the arrivals of the unproductive turns before the first productive one are missed |
| BroadcastReader.CatchesUp | src/navigator_eventbus/backends/redis_streams.py:559-595 | uninterrupted turns reach min(length, cursor + turns * batch) |
| Subscriptions.ExactMatchesItself | src/navigator_eventbus/core.py:627-632 | a pattern without wildcards matches exactly its own topic, so the exact index and the glob test agree |
| Subscriptions.MatchesIff | src/navigator_eventbus/core.py:742-746 | a topic matches if and only if it falls into pieces, any text for each star, one character for each question mark, the character itself for any other |
| Subscriptions.StarTakesSomePrefix | src/navigator_eventbus/core.py:742-746 | a star matches some prefix of the rest of the topic |
| Subscriptions.OrderedUnique | src/navigator_eventbus/core.py:737-748 | delivery order fixes the list: two lists of the same subscriptions in that order are equal |
| Subscriptions.Index.Subscribe | src/navigator_eventbus/core.py:597-636 | adds exactly the new subscription and keeps each list in delivery order |
| Subscriptions.Index.Unsubscribe | src/navigator_eventbus/core.py:653-671 | true if and only if the id was live; removes exactly that subscription and keeps every order |
| Subscriptions.Index.MatchingSubscriptions | src/navigator_eventbus/core.py:737-748 | exactly the live subscriptions that match, by descending priority, exact before glob, then registration order |
| Subscriptions.Index.MatchCount | src/navigator_eventbus/core.py:638-651 | the number of live subscriptions that match |
| EchoSet.Echoes.RememberFanout | src/navigator_eventbus/core.py:591-595 | eviction from the front leaves the newest 2048 ids; a present id keeps its place |
| EchoSet.Echoes.OnTransportEnvelope | src/navigator_eventbus/core.py:577-589 | dispatches exactly what is not an echo while the bus is open, and forgets a dropped echo's id |
| EchoSet.EchoDroppedOnce | src/navigator_eventbus/core.py:577-595 | an echo that comes before 2048 newer ids is dropped, and none after it until the id is fanned out again |
| EchoSet.LostAtCap | src/navigator_eventbus/core.py:591-595 | without echoes an id drops out at some point if and only if 2048 newer ids enter, whether or not it is fanned out again |
| IdLedger.MaxTaskId | scripts/sdd/id_ledger.py:86-107 | an upper bound of all task numbers in readable files, attained unless it is 0 |
| IdLedger.MaxFeatureId | scripts/sdd/id_ledger.py:110-142 | the same over index headers and spec header lines |
| IdLedger.Bootstrap | scripts/sdd/id_ledger.py:145-172 | the seeded counters are one past the highest number in use |
| IdLedger.ReadsPrinted | scripts/sdd/id_ledger.py:104-106 | the number of a printed id is read back, with leading zeros and whatever follows |
| IdLedger.ReadsOnlyNumbers | scripts/sdd/id_ledger.py:104-106 | a number is read only from a text that has the prefix and then digits, and is the value of all of these |
| IdLedger.TaskInUseIff | scripts/sdd/id_ledger.py:95-107 | the task numbers in use are those read from the task ids of readable files, the orphan bucket included |
| IdLedger.FeatureInUseIff | scripts/sdd/id_ledger.py:121-142 | the feature numbers in use are those read from the headers of readable files other than the orphan bucket, and from spec header lines |
| IdAllocator.Tiling | scripts/sdd/reserve_ids.py:568-586 | in a legal history the ledger commits reserve every number between seed and current next, each once |
| IdAllocator.AcceptedMeansUnchanged | scripts/sdd/reserve_ids.py:588-595 | a push built on a former tip is accepted only if the tip is its base, or is the very commit pushed |
| IdAllocator.StepKeepsInv | scripts/sdd/reserve_ids.py:568-613 | every step of any allocator or of the environment keeps history and bookkeeping consistent |
| IdAllocator.AllocationIsSafe | scripts/sdd/reserve_ids.py:568-613 | in every run accepted ranges are disjoint and tile the issued numbers, returned reservations are such ranges, and two callers share a number if and only if they pushed one commit |
| IdAllocator.NoCollisionWithSeeds | scripts/sdd/id_ledger.py:145-172 | no returned number was in use when the ledger was seeded |
| IdAllocator.NoCollisionWithTexts | scripts/sdd/id_ledger.py:86-172 | no id text handed out occurs among the ids of its kind in the index files the ledger was seeded from |
| IdAllocator.UndisturbedTurnSucceeds | scripts/sdd/reserve_ids.py:568-595 | a retry that nobody disturbs succeeds, and so does a first attempt if the tracking ref is up to date |
| IdAllocator.RejectedPushRetries | scripts/sdd/reserve_ids.py:597-617 | a rejected push changes nothing but the count of attempts, up to the last one allowed |
| IdAllocator.SharersAreAlike | scripts/sdd/reserve_ids.py:575-586 | in every run callers given a common number asked for the same kind and count with the same label and author |
| IdAllocator.CollisionPossibleIffAlike | scripts/sdd/reserve_ids.py:568-595 | two requests can be given a common number if and only if they agree in these four |
| IdAllocator.EqualRequestsInOneSecondCollide | scripts/sdd/reserve_ids.py:579-595 | a run from the start gives two alike requests, made in one second on one base, the same numbers |
| IdAllocator.IdTextsDistinct | scripts/sdd/reserve_ids.py:572 | the id texts are as distinct as the numbers |
| ReserveIds.Reserve | scripts/sdd/reserve_ids.py:538-617 | the bounded retry loop against a remote that moves: the first attempt builds on the tracking ref, each later one on the tip it fetches; it goes on exactly while pushes are rejected, and ends reserved, failed or exhausted exactly as the last push was accepted, failed otherwise, or was the last one allowed; bad counts change nothing |
| ReserveIds.LandsIff | scripts/sdd/reserve_ids.py:588-595 | an attempt succeeds if and only if its push is answered and nobody pushed since its base, or the same commit is there already |
| ReserveIds.UndisturbedIsReserved | scripts/sdd/reserve_ids.py:568-595 | an attempt during which nobody else pushes ends the loop with a reservation |
| ReserveIds.ExhaustedMeansContended | scripts/sdd/reserve_ids.py:568-617 | a request is given up only after max_retries attempts during each of which somebody else pushed |
| ReserveIds.ReservedIsMade | scripts/sdd/reserve_ids.py:568-595 | the reservation returned is exactly the range of the commit that landed last |
| TaskGraph.RankIsLongestChain | scripts/sdd/check_task_graph.py:187-200 | a task's level is the length of its longest dependency chain, and no cycle is in its reach |
| TaskGraph.TrappedReachesCycle | scripts/sdd/check_task_graph.py:193-194 | from any task that is never ready a cycle is reachable |
| TaskGraph.Waves | scripts/sdd/check_task_graph.py:187-200 | terminates; waves and stuck tasks partition the tasks; wave index is longest chain; stuck is exactly what reaches a cycle |
| TaskGraph.AncestorIndex.Visit | scripts/sdd/check_task_graph.py:171-180 | the memoised visit yields only transitive dependencies, and on an acyclic graph all of them |
| TaskGraph.AncestorIndex.Ancestors | scripts/sdd/check_task_graph.py:167-184 | the table has every task, each entry within the closure and equal to it on an acyclic graph |
| Lint.FileOverlaps | scripts/sdd/check_task_graph.py:552-564 | a finding for exactly the pairs that share a file with neither among the other's ancestors |
| Lint.ClashFreeIsSafe | scripts/sdd/check_task_graph.py:547-564 | without an unordered pair that shares a file, no execution runs two tasks on one file, on any graph |
| Lint.IndependentTasksCanOverlap | scripts/sdd/check_task_graph.py:547-564 | of two unordered tasks some legal execution runs both at once |
| Lint.ClashFreeIffSafe | scripts/sdd/check_task_graph.py:547-564 | on acyclic graphs with known dependencies the overlap rule is exactly safety |
| Lint.CheckGraph | scripts/sdd/check_task_graph.py:535-564 | reports exactly the unknown dependencies, the tasks that reach a cycle and, if acyclic, the clashes; no finding means every execution is safe |
| Intervals.MergeIntervals | scripts/sdd/profile_execution.py:177-194 | sorted, strictly separated spans that cover exactly the ticks of the input |
| Intervals.UnionTicks | scripts/sdd/profile_execution.py:197-198 | the total is the number of distinct ticks covered |
| Intervals.SeparatedUnique | scripts/sdd/profile_execution.py:177-194 | a separated list is determined by the ticks it covers |
| Intervals.MergeIgnoresOrder | scripts/sdd/profile_execution.py:177-194 | reordering or repeating spans does not change the result |
| Intervals.UnionBetweenBuckets | scripts/sdd/profile_execution.py:609-615 | each category bucket is at most the union, which is at most the sum of the buckets |
| SpanPairing.PairingIsValid | scripts/sdd/profile_execution.py:346-367 | each start closes at most one span, of its own identity and not before it begins |
| SpanPairing.NestedOrDisjoint | scripts/sdd/profile_execution.py:353-363 | if an identity's ends and starts are each in text order, its spans are nested or disjoint |
| SpanPairing.GreedyIsMaximum | scripts/sdd/profile_execution.py:346-367 | if the ends of each identity are in text order, no valid pairing resolves more ends without a window, whatever the starts |
| PairingLimits.MaximumExactlyIfEndsInOrder | scripts/sdd/profile_execution.py:320-367 | given a log's ends, the pairing is a maximum one for every choice of starts if and only if the ends of each identity are in order |
| PairingLimits.NoneCrossExactlyIfEndsInOrder | scripts/sdd/profile_execution.py:320-367 | given the ends, no two spans of an identity cross, for every choice of starts in order, if and only if its ends are in order |
| PairingLimits.NoneCrossExactlyIfStartsInOrder | scripts/sdd/profile_execution.py:320-367 | given the starts, no two spans of an identity cross, for every choice of ends in order, if and only if its starts are in order |
| PairingLimits.MixedFormatsLoseASpan | scripts/sdd/profile_execution.py:320-367 | a log of four events with distinct timestamps: the pairing resolves one end where a valid pairing resolves two |
| SpanResolution.PickStart | scripts/sdd/profile_execution.py:353-359 | the inner loop finds the last start of the pool that is unused and not after the end |
| SpanResolution.ClosesIffCanClose | scripts/sdd/profile_execution.py:223-227 | a start can close an end if and only if their kinds are a pair, they carry equal values in every identifying field of that pair, the end has no window, and the start is not later |
| SpanResolution.ResolveSpans | scripts/sdd/profile_execution.py:307-408 | the loop with its consumed flags computes that pairing, for exactly the events that end something, joins only such pairs, and files every end by it |
| SpanResolution.TakesTheLastFree | scripts/sdd/profile_execution.py:348-363 | an end takes the last, by text, of the unused starts that can close it, and stays open only if there is none |
| SpanResolution.PairedSpansAreForward | scripts/sdd/profile_execution.py:358-363 | a paired span runs from the start's to the end's instant |
| SpanResolution.WindowWins | scripts/sdd/profile_execution.py:343-345 | an end with a window of its own is given that window and never a start |
| SpanResolution.SuffixMeans | scripts/sdd/profile_execution.py:324-326 | the events that end something are those whose kind ends in one of the two suffixes |
| SpanResolution.ReversedExactly | scripts/sdd/profile_execution.py:376-378 | exactly the ends whose span would run backwards are counted as reversed |
| SpanResolution.FiledWhere | scripts/sdd/profile_execution.py:380-408 | a forward span is in the excluded list exactly if flagged so, else in the fallback list exactly if its category is one of the two, else in the active list |
| SpanResolution.CategoryMeans | scripts/sdd/profile_execution.py:239-245 | an end's category is its own, else its kind up to the first dot |
| SpanResolution.EveryEndFiledOnce | scripts/sdd/profile_execution.py:368-408 | every end event is in exactly one of the active, fallback, excluded, unresolved and reversed lists |
| SpanResolution.UnresolvedExactly | scripts/sdd/profile_execution.py:368-378 | the unresolved ends are exactly those with neither a window nor a partner |
| SpanResolution.ResolvesMost | scripts/sdd/profile_execution.py:307-408 | if the ends of each identity are in text order, no valid pairing of the records resolves more ends |
| Text.SplitJoin | src/navigator_eventbus/webhook_signatures.py:344 | splitting a join gives the parts back |
| Text.JoinSplit | src/navigator_eventbus/webhook_signatures.py:344 | splitting cuts at every separator and only there |
| Text.StripTakesSpace | src/navigator_eventbus/webhook_signatures.py:344-352 | stripping takes off all the white space at both ends and nothing else |
| Text.IntTextParses | src/navigator_eventbus/webhook_signatures.py:375-378 | parsing the decimal text of an integer gives the integer |
| Text.HexDigitsAreHex | src/navigator_eventbus/webhook_signatures.py:184-192 | hexadecimal digits in either case are accepted |
| Signatures.HexDigestRoundTrip | src/navigator_eventbus/webhook_signatures.py:254-300 | a plain scheme accepts its own signature exactly if it emits the prefix or accepts bare digests, and else calls it malformed |
| Signatures.Parse | src/navigator_eventbus/webhook_signatures.py:341-354 | the loop keeps the first timestamp and every v1 value |
| Signatures.TruncTowardZero | src/navigator_eventbus/webhook_signatures.py:406 | the sign time is cut to the nearest second on the side of zero |
| Signatures.StripeRoundTrip | src/navigator_eventbus/webhook_signatures.py:356-396 | the signed parts, in any order and with further hexadecimal v1 parts, verify exactly while fresh, else are stale |
| Signatures.HexPartIsExtra | src/navigator_eventbus/webhook_signatures.py:341-396 | any text that reads as hexadecimal may be appended as a v1 part |
| Signatures.SignThenVerify | src/navigator_eventbus/webhook_signatures.py:398-416 | the scheme's own header verifies at any time within the tolerance of the truncated sign time, and always without one |
| SignatureVerdicts.ReadHeaderIff | src/navigator_eventbus/webhook_signatures.py:194-207 | the exact header name wins over one that differs in case, and the first of several counts |
| SignatureVerdicts.HexDigestVerdict | src/navigator_eventbus/webhook_signatures.py:254-286 | over all headers: accepted if and only if the digest given in a permitted way is the mac of the body up to case, a mismatch if and only if it is not, missing if and only if there is no header |
| SignatureVerdicts.HexDigestRefusesForgeries | src/navigator_eventbus/webhook_signatures.py:254-286 | a delivery whose digest is not the mac of its body is refused |
| SignatureVerdicts.StripeAcceptsIff | src/navigator_eventbus/webhook_signatures.py:356-396 | over all headers: accepted if and only if the header is well formed, on time, and some v1 value is the mac of its time and this body |
| SignatureVerdicts.StripeRefusesIff | src/navigator_eventbus/webhook_signatures.py:356-396 | the exact condition of each of the four refusals |
| SignatureVerdicts.PayloadInjective | src/navigator_eventbus/webhook_signatures.py:388-391 | the signed message determines the time and the body |

## Left out

- SQLite, Redis, git, asyncio and HMAC (section 2 of RFC 2104) themselves: each is the small state it guards (a row map, a stream with cursor and pending entries, a chain of commits, a semaphore with waiters, an uninterpreted function to lower-case hex). The semaphore is that of CPython 3.11: a resumed waiter wakes one more, a cancelled one passes on a permit it was granted.
- Dispatcher: handler calls, retries and timeouts are one step from dispatching to ready; the in-flight counter and the drain deadline, on which only the moment of stopping depends.
- Outbox: file lock, thread pool and connection errors; where SQL leaves the order of equal creation times open, so does the model. A negative LIMIT.
- OutboxProtocol: clock readings are inputs of the steps, so no order between them is assumed; the interval is a float, for which the largest power of two is 2 ** 1023.
- OutboxProtocol.AttemptsOnlyGrow: a helper of OutboxRetries.ExhaustedRowIsFrozen, not a result of its own.
- OutboxProtocol.NoLoss: says nothing of subscribers, and counts a confirmation of an earlier row of the same id while the ack it led to is still outstanding.
- Relay.Relay.RelayOnce: runs without interference and with a working store; interleavings and store failures are in OutboxProtocol, and Relay.PassIsRun relates the two.
- GroupDelivery: retention trimming, stream discovery and reconnect delays. Delivery ends where on_envelope returns, which it also does for echoes and while the bus is closing. All consumers of a group have one max_deliveries; one that is configured without it lists nothing in its sweeps, so its claims count as made in spite of the limit.
- GroupConsumer.Group.Sweep: one stream, without interference from other consumers, whose effect is in GroupDelivery.
- BroadcastReader: trimming, and the interleaving of several streams in one reply.
- Subscriptions.Index.Subscribe: glob patterns with `[` are not modelled, and subscription ids are assumed fresh; severity and filter functions act after matching.
- IdLedger: JSON and the text of spec files; specs are given by the numbers in their header lines.
- IdAllocator: merges pushed by others are commits with one parent; commits before the seeding; the checks on the working tree and on already owned feature ids, which are local.
- ReserveIds.Remote.Interfere: stands for other clones; callers learn only that the history grew legally.
- TaskGraph.Waves: waves are sets, so the order of ids inside a wave is not modelled.
- Lint.CheckGraph: tasks are given parsed; the warnings and the contract checks are not modelled.
- Intervals: time is counted in integer ticks, so the rounding of seconds to floating point is not modelled.
- SpanResolution: ends with equal timestamp texts are taken in recording order (the program first groups by kind, which cannot change the pairing within one identity); clock basis and precise durations. Identifying values are text.
- Signatures: text is ASCII; registry of schemes; header names are matched as given pairs.
- Text: `int()` accepts ASCII digits only.
