/** Publish, relay and crash around the outbox table: BusCore in src/navigator_eventbus/core.py.
  *
  * Every stretch of code between two awaits is one step, and so is the commit of each store
  * operation. Steps of different tasks interleave freely. A crash empties everything that lives in
  * memory and leaves the table alone. Clock readings are inputs, with no order assumed between them.
  */
module OutboxProtocol {
  import opened Collections
  import opened Outbox

  datatype Config = Config(store: Settings, interval: real, maxBackoff: real, batch: nat)

  /** Who waits for a publish: a fire-and-forget task, a relay pass with rows left to do, or nobody
    * because the waiting coroutine was cancelled while the store's thread was still at work. */
  datatype Owner = Publisher | RelayPass(rest: seq<EventId>) | Orphan

  datatype Outcome = Acked | Unacked | Failed

  datatype Task =
    | Appended(id: EventId)
    | Spawned(id: EventId)
    | Publishing(id: EventId, owner: Owner)
    | Acking(id: EventId, owner: Owner)
    | Nacking(id: EventId, owner: Owner, error: string, at: real, calledAt: real)
    | Settled(id: EventId, owner: Owner, outcome: Outcome)
    | Relaying(rest: seq<EventId>)
    | Sampled(pending: nat)
    | Ended

  /** The first four fields are the program's. The rest is history: ids whose row was inserted; ids
    * confirmed by the backend since then; ids whose row the store counted as dropped, expired or
    * corrupt since then; ids whose publish task was cancelled before it ran at all; and the time of
    * each row's creation or latest nack. */
  datatype State = State(
    rows: Table, tasks: seq<Task>, inflight: set<EventId>, attempts: map<EventId, nat>,
    inserted: set<EventId>, confirmed: set<EventId>, lost: set<EventId>, leaked: set<EventId>,
    anchor: map<EventId, real>)

  datatype Action =
    | Append(id: EventId, decodable: bool, now: real, oldest: Option<EventId>)
    | AppendFailed(id: EventId, dropped: Option<EventId>)
    | Track(i: nat)
    | Begin(i: nat)
    | Fetch(now: real, sel: seq<EventId>)
    | FetchFailed
    | Pick(i: nat)
    | Confirm(i: nat)
    | Fail(i: nat, now: real, error: string)
    | CommitAck(i: nat)
    | RefuseAck(i: nat)
    | CommitNack(i: nat)
    | RefuseNack(i: nat)
    | Settle(i: nat)
    | Sample(i: nat)
    | Refresh(i: nat)
    | Cancel(i: nat)
    | Crash

  // ---------------------------------------------------------------------
  // Backoff
  // ---------------------------------------------------------------------

  /** interval * 2 ** doublings. */
  function Doubled(interval: real, doublings: nat): real {
    if doublings == 0 then interval else 2.0 * Doubled(interval, doublings - 1)
  }

  lemma {:induction false} DoubledGrows(interval: real, doublings: nat)
    requires interval >= 0.0
    ensures 0.0 <= Doubled(interval, doublings) <= Doubled(interval, doublings + 1)
  {
    if doublings > 0 {
      DoubledGrows(interval, doublings - 1);
    }
  }

  /** The interval is a float, and 2 ** (attempts - 1) can be multiplied with one up to 2 ** 1023. */
  const MAX_ATTEMPTS: nat := 1024

  /** min(relay_max_backoff, relay_interval * 2 ** (attempts - 1)), or None for the OverflowError. */
  function Backoff(c: Config, attempts: nat): Option<real>
    requires attempts >= 1
  {
    if attempts > MAX_ATTEMPTS then None
    else
      var delay := Doubled(c.interval, attempts - 1);
      Some(if delay < c.maxBackoff then delay else c.maxBackoff)
  }

  /** As long as there is a delay at all it never shrinks as attempts grow, and never exceeds the cap. */
  lemma {:induction false} BackoffMonotone(c: Config, m: nat, n: nat)
    requires 1 <= m <= n && c.interval >= 0.0
    ensures Backoff(c, n).Some? ==>
              Backoff(c, m).Some? && Backoff(c, m).value <= Backoff(c, n).value <= c.maxBackoff
  {
    if m < n <= MAX_ATTEMPTS {
      BackoffMonotone(c, m, n - 1);
      DoubledGrows(c.interval, n - 2);
    }
  }

  function Least(a: real, b: real): real {
    if a < b then a else b
  }

  /** The first delay is the interval, each further one twice the one before, all capped; and there is a
    * delay for exactly the first MAX_ATTEMPTS attempts. */
  lemma {:induction false} BackoffDoubles(c: Config, n: nat)
    requires n >= 1 && c.interval >= 0.0 && c.maxBackoff >= 0.0
    ensures Backoff(c, 1) == Some(Least(c.interval, c.maxBackoff))
    ensures Backoff(c, n).Some? <==> n <= 1024
    ensures n < 1024 ==> Backoff(c, n + 1) == Some(Least(2.0 * Backoff(c, n).value, c.maxBackoff))
  {
    DoubledGrows(c.interval, n - 1);
  }

  // ---------------------------------------------------------------------
  // Steps
  // ---------------------------------------------------------------------

  ghost predicate Enabled(c: Config, s: State, a: Action) {
    match a
    case Append(_, _, _, oldest) => MayPick(s.rows, oldest)
    case AppendFailed(_, dropped) => dropped.None? || Evicts(c, s, dropped)
    case Track(i) => i < |s.tasks| && s.tasks[i].Appended?
    case Begin(i) => i < |s.tasks| && s.tasks[i].Spawned?
    case Fetch(now, sel) => IsSelection(Kept(c.store, s.rows, now), now, c.batch, sel)
    case FetchFailed => true
    case Pick(i) => i < |s.tasks| && s.tasks[i].Relaying? && s.tasks[i].rest != []
    case Confirm(i) => i < |s.tasks| && s.tasks[i].Publishing?
    case Fail(i, _, _) => i < |s.tasks| && s.tasks[i].Publishing?
    case CommitAck(i) => i < |s.tasks| && s.tasks[i].Acking?
    case RefuseAck(i) => i < |s.tasks| && s.tasks[i].Acking?
    case CommitNack(i) => i < |s.tasks| && s.tasks[i].Nacking?
    case RefuseNack(i) => i < |s.tasks| && s.tasks[i].Nacking?
    case Settle(i) => i < |s.tasks| && s.tasks[i].Settled?
    case Sample(i) => i < |s.tasks| && s.tasks[i].Relaying? && s.tasks[i].rest == []
    case Refresh(i) => i < |s.tasks| && s.tasks[i].Sampled?
    case Cancel(i) => i < |s.tasks| && !s.tasks[i].Ended? && !IsOrphan(s.tasks[i])
    case Crash => true
  }

  /** An append that fails may have made room before: the eviction is a commit of its own. */
  ghost predicate Evicts(c: Config, s: State, dropped: Option<EventId>) {
    MayPick(s.rows, dropped) && Victim(c.store, s.rows, dropped) == dropped
  }

  predicate IsOrphan(t: Task) {
    (t.Acking? || t.Nacking?) && t.owner.Orphan?
  }

  /** What a publish hands back to: a relay pass goes on after a success and stops after a failure. */
  function Return(owner: Owner, ok: bool): Task {
    match owner
    case RelayPass(rest) => Relaying(if ok then rest else [])
    case _ => Ended
  }

  ghost predicate AckPending(tasks: seq<Task>, id: EventId) {
    exists i :: 0 <= i < |tasks| && tasks[i].Acking? && tasks[i].id == id
  }

  function VictimSet(victim: Option<EventId>): set<EventId> {
    if victim.Some? then {victim.value} else {}
  }

  function EvictRow(s: State, victim: Option<EventId>): State {
    s.(rows := Without(s.rows, victim), lost := s.lost + VictimSet(victim))
  }

  /** A confirmation that belongs to an earlier row of the same id still counts only while the ack it
    * led to is outstanding. */
  ghost function InsertRow(s: State, id: EventId, row: Row): State {
    if id in s.rows then s
    else
      s.(rows := s.rows[id := row], inserted := s.inserted + {id}, lost := s.lost - {id},
         confirmed := if AckPending(s.tasks, id) then s.confirmed else s.confirmed - {id},
         anchor := s.anchor[id := row.createdAt])
  }

  /** The store's append commits, or is rejected. */
  ghost function CommitAppend(c: Config, s: State, id: EventId, row: Row, oldest: Option<EventId>): (t: State)
    ensures AppendRows(c.store, s.rows, id, row, oldest) == None ==> t == s
    ensures AppendRows(c.store, s.rows, id, row, oldest).Some? ==>
              t.rows == AppendRows(c.store, s.rows, id, row, oldest).value && t.tasks == s.tasks + [Appended(id)]
  {
    if AppendRows(c.store, s.rows, id, row, oldest).None? then s
    else
      var t := InsertRow(EvictRow(s, Victim(c.store, s.rows, oldest)), id, row);
      t.(tasks := t.tasks + [Appended(id)])
  }

  function CommitFetch(c: Config, s: State, now: real, sel: seq<EventId>): State {
    var expired := Expired(c.store, s.rows, now);
    var kept := Kept(c.store, s.rows, now);
    s.(rows := kept - Corrupt(kept, sel), lost := s.lost + expired + Corrupt(kept, sel),
       tasks := s.tasks + [Relaying(Decoded(kept, sel))])
  }

  function To(s: State, i: nat, t: Task): State
    requires i < |s.tasks|
  {
    s.(tasks := s.tasks[i := t])
  }

  /** A cancelled coroutine still runs its finally block, unless it had not started yet; a store
    * operation it was waiting for is carried out all the same. */
  function CancelTask(s: State, i: nat): State
    requires i < |s.tasks| && !s.tasks[i].Ended? && !IsOrphan(s.tasks[i])
  {
    match s.tasks[i]
    case Spawned(id) => To(s, i, Ended).(leaked := s.leaked + {id})
    case Publishing(id, owner) => To(s, i, Return(owner, false)).(inflight := s.inflight - {id})
    case Acking(id, owner) =>
      s.(inflight := s.inflight - {id}, tasks := s.tasks[i := Return(owner, false)] + [Acking(id, Orphan)])
    case Nacking(id, owner, error, at, calledAt) =>
      s.(inflight := s.inflight - {id},
         tasks := s.tasks[i := Return(owner, false)] + [Nacking(id, Orphan, error, at, calledAt)])
    case Settled(id, owner, _) => To(s, i, Return(owner, false)).(inflight := s.inflight - {id})
    case Relaying(rest) => To(s, i, if rest == [] then Ended else Relaying([]))
    case _ => To(s, i, Ended)
  }

  function Answered(id: EventId, owner: Owner, outcome: Outcome): Task {
    if owner.Orphan? then Ended else Settled(id, owner, outcome)
  }

  function TakeNext(s: State, i: nat): State
    requires i < |s.tasks| && s.tasks[i].Relaying? && s.tasks[i].rest != []
  {
    var id, rest := s.tasks[i].rest[0], s.tasks[i].rest[1..];
    if id in s.inflight then To(s, i, Relaying(rest))
    else To(s, i, Publishing(id, RelayPass(rest))).(inflight := s.inflight + {id})
  }

  function ConfirmPublish(s: State, i: nat): State
    requires i < |s.tasks| && s.tasks[i].Publishing?
  {
    var Publishing(id, owner) := s.tasks[i];
    To(s, i, if id in s.inflight then Acking(id, owner) else Settled(id, owner, Unacked))
    .(confirmed := s.confirmed + {id})
  }

  function AttemptsOf(attempts: map<EventId, nat>, id: EventId): nat {
    if id in attempts then attempts[id] else 0
  }

  /** The failure is counted; when no delay can be computed the store is not even asked. */
  function FailPublish(c: Config, s: State, i: nat, now: real, error: string): State
    requires i < |s.tasks| && s.tasks[i].Publishing?
  {
    var Publishing(id, owner) := s.tasks[i];
    if id !in s.inflight then To(s, i, Settled(id, owner, Failed))
    else
      var attempts := AttemptsOf(s.attempts, id) + 1;
      var next := match Backoff(c, attempts)
                  case None => Settled(id, owner, Failed)
                  case Some(delay) => Nacking(id, owner, error, now + delay, now);
      To(s, i, next).(attempts := s.attempts[id := attempts])
  }

  function StoreNack(s: State, i: nat): State
    requires i < |s.tasks| && s.tasks[i].Nacking?
  {
    var Nacking(id, owner, error, at, calledAt) := s.tasks[i];
    To(s, i, Answered(id, owner, Failed))
    .(rows := NackRows(s.rows, id, error, at), anchor := s.anchor[id := calledAt])
  }

  function FinishPublish(s: State, i: nat): State
    requires i < |s.tasks| && s.tasks[i].Settled?
  {
    var Settled(id, owner, outcome) := s.tasks[i];
    To(s, i, Return(owner, !outcome.Failed?))
    .(inflight := s.inflight - {id}, attempts := if outcome.Acked? then s.attempts - {id} else s.attempts)
  }

  ghost function Next(c: Config, s: State, a: Action): State
    requires Enabled(c, s, a)
  {
    match a
    case Append(id, decodable, now, oldest) => CommitAppend(c, s, id, NewRow(decodable, now), oldest)
    case AppendFailed(id, dropped) => EvictRow(s, dropped).(tasks := s.tasks + [Spawned(id)])
    case Track(i) => To(s, i, Spawned(s.tasks[i].id)).(inflight := s.inflight + {s.tasks[i].id})
    case Begin(i) => To(s, i, Publishing(s.tasks[i].id, Publisher))
    case Fetch(now, sel) => CommitFetch(c, s, now, sel)
    case FetchFailed => s.(tasks := s.tasks + [Relaying([])])
    case Pick(i) => TakeNext(s, i)
    case Confirm(i) => ConfirmPublish(s, i)
    case Fail(i, now, error) => FailPublish(c, s, i, now, error)
    case CommitAck(i) =>
      To(s, i, Answered(s.tasks[i].id, s.tasks[i].owner, Acked)).(rows := s.rows - {s.tasks[i].id})
    case RefuseAck(i) => To(s, i, Answered(s.tasks[i].id, s.tasks[i].owner, Unacked))
    case CommitNack(i) => StoreNack(s, i)
    case RefuseNack(i) => To(s, i, Answered(s.tasks[i].id, s.tasks[i].owner, Failed))
    case Settle(i) => FinishPublish(s, i)
    case Sample(i) => To(s, i, Sampled(|s.rows|))
    case Refresh(i) => To(s, i, Ended).(attempts := if s.tasks[i].pending == 0 then map[] else s.attempts)
    case Cancel(i) => CancelTask(s, i)
    case Crash => s.(tasks := [], inflight := {}, attempts := map[], leaked := {})
  }

  function Initial(): State {
    State(map[], [], {}, map[], {}, {}, {}, {}, map[])
  }

  ghost predicate IsRun(c: Config, s: State, trace: seq<Action>, t: State)
    decreases |trace|
  {
    if trace == [] then s == t
    else Enabled(c, s, trace[0]) && IsRun(c, Next(c, s, trace[0]), trace[1..], t)
  }

  // ---------------------------------------------------------------------
  // The invariant
  // ---------------------------------------------------------------------

  ghost predicate NothingLost(s: State) {
    && (forall id :: id in s.rows ==> id in s.inserted)
    && (forall id :: id in s.inserted ==> id in s.rows || id in s.confirmed || id in s.lost)
  }

  /** An ack belongs to a confirmed publish; a retry time is no further off than the cap allows; only
    * the store's own operations outlive their coroutine. */
  ghost predicate TaskOk(c: Config, confirmed: set<EventId>, t: Task) {
    && (t.Publishing? || t.Settled? ==> !t.owner.Orphan?)
    && (t.Acking? ==> t.id in confirmed)
    && (t.Nacking? ==> t.at <= t.calledAt + c.maxBackoff)
  }

  ghost predicate TasksOk(c: Config, confirmed: set<EventId>, tasks: seq<Task>) {
    forall i :: 0 <= i < |tasks| ==> TaskOk(c, confirmed, tasks[i])
  }

  ghost predicate RowOk(c: Config, row: Row, anchor: real) {
    if row.attempts == 0 then row.nextTryAt == row.createdAt == anchor
    else row.nextTryAt <= anchor + c.maxBackoff
  }

  ghost predicate RowsOk(c: Config, rows: Table, anchor: map<EventId, real>) {
    forall id :: id in rows ==> id in anchor && RowOk(c, rows[id], anchor[id])
  }

  /** The task will discard id from the in-flight set. */
  predicate Holds(t: Task, id: EventId) {
    !t.Appended? && !t.Relaying? && !t.Sampled? && !t.Ended? && !IsOrphan(t) && t.id == id
  }

  ghost predicate Held(tasks: seq<Task>, id: EventId) {
    exists i :: 0 <= i < |tasks| && Holds(tasks[i], id)
  }

  ghost predicate InflightHeld(inflight: set<EventId>, leaked: set<EventId>, tasks: seq<Task>) {
    forall id :: id in inflight && id !in leaked ==> Held(tasks, id)
  }

  ghost predicate Inv(c: Config, s: State) {
    && NothingLost(s) && TasksOk(c, s.confirmed, s.tasks)
    && RowsOk(c, s.rows, s.anchor) && InflightHeld(s.inflight, s.leaked, s.tasks)
  }

  // ---------------------------------------------------------------------
  // Every step keeps it
  // ---------------------------------------------------------------------

  /** A task moves on; whatever it stops holding leaves the in-flight set. */
  lemma MoveKeeps(c: Config, s: State, i: nat, t: Task, gone: set<EventId>)
    requires Inv(c, s) && i < |s.tasks| && TaskOk(c, s.confirmed, t)
    requires forall id :: Holds(s.tasks[i], id) ==> Holds(t, id) || id in gone
    ensures Inv(c, To(s, i, t).(inflight := s.inflight - gone))
  {
    var tasks := s.tasks[i := t];
    forall id | id in s.inflight - gone && id !in s.leaked ensures Held(tasks, id) {
      var j :| 0 <= j < |s.tasks| && Holds(s.tasks[j], id);
      assert Holds(tasks[j], id);
    }
  }

  lemma SpawnKeeps(c: Config, s: State, t: Task)
    requires Inv(c, s) && TaskOk(c, s.confirmed, t)
    ensures Inv(c, s.(tasks := s.tasks + [t]))
  {
    HeldGrows(s.inflight, s.leaked, s.tasks, [t]);
  }

  lemma HeldGrows(inflight: set<EventId>, leaked: set<EventId>, tasks: seq<Task>, more: seq<Task>)
    requires InflightHeld(inflight, leaked, tasks)
    ensures InflightHeld(inflight, leaked, tasks + more)
  {
    forall id | id in inflight && id !in leaked ensures Held(tasks + more, id) {
      var j :| 0 <= j < |tasks| && Holds(tasks[j], id);
      assert Holds((tasks + more)[j], id);
    }
  }

  lemma TasksWithConfirmed(c: Config, confirmed: set<EventId>, more: set<EventId>, tasks: seq<Task>)
    requires TasksOk(c, confirmed, tasks) && confirmed <= more
    ensures TasksOk(c, more, tasks)
  {
  }

  lemma EvictKeeps(c: Config, s: State, victim: Option<EventId>)
    requires Inv(c, s)
    ensures Inv(c, EvictRow(s, victim))
  {
  }

  lemma InsertKeeps(c: Config, s: State, id: EventId, row: Row)
    requires Inv(c, s) && row.attempts == 0 && row.createdAt == row.nextTryAt
    ensures Inv(c, InsertRow(s, id, row))
  {
    var t := InsertRow(s, id, row);
    forall j | 0 <= j < |t.tasks| ensures TaskOk(c, t.confirmed, t.tasks[j]) {
      assert TaskOk(c, s.confirmed, s.tasks[j]);
    }
  }

  lemma AppendKeeps(c: Config, s: State, id: EventId, row: Row, oldest: Option<EventId>)
    requires Inv(c, s) && row.attempts == 0 && row.createdAt == row.nextTryAt
    ensures Inv(c, CommitAppend(c, s, id, row, oldest))
  {
    var victim := Victim(c.store, s.rows, oldest);
    EvictKeeps(c, s, victim);
    InsertKeeps(c, EvictRow(s, victim), id, row);
    SpawnKeeps(c, InsertRow(EvictRow(s, victim), id, row), Appended(id));
  }

  lemma FetchKeeps(c: Config, s: State, now: real, sel: seq<EventId>)
    requires Inv(c, s)
    ensures Inv(c, CommitFetch(c, s, now, sel))
  {
    var expired := Expired(c.store, s.rows, now);
    var kept := Kept(c.store, s.rows, now);
    var t := CommitFetch(c, s, now, sel);
    HeldGrows(s.inflight, s.leaked, s.tasks, [Relaying(Decoded(kept, sel))]);
    forall j | 0 <= j < |t.tasks| ensures TaskOk(c, t.confirmed, t.tasks[j]) {
      if j < |s.tasks| {
        assert TaskOk(c, s.confirmed, s.tasks[j]);
      }
    }
  }

  lemma CancelKeeps(c: Config, s: State, i: nat)
    requires Inv(c, s) && Enabled(c, s, Cancel(i))
    ensures Inv(c, CancelTask(s, i))
  {
    var was := s.tasks[i];
    if was.Spawned? {
      MoveLeaks(c, s, i);
    } else if was.Appended? || was.Relaying? || was.Sampled? {
      StayKeeps(c, s, i, if was.Relaying? && was.rest != [] then Relaying([]) else Ended);
    } else {
      assert TaskOk(c, s.confirmed, was);
      MoveKeeps(c, s, i, Return(was.owner, false), {was.id});
      var moved := To(s, i, Return(was.owner, false)).(inflight := s.inflight - {was.id});
      if was.Acking? {
        SpawnKeeps(c, moved, Acking(was.id, Orphan));
      } else if was.Nacking? {
        SpawnKeeps(c, moved, Nacking(was.id, Orphan, was.error, was.at, was.calledAt));
      }
    }
  }

  lemma MoveLeaks(c: Config, s: State, i: nat)
    requires Inv(c, s) && i < |s.tasks| && s.tasks[i].Spawned?
    ensures Inv(c, To(s, i, Ended).(leaked := s.leaked + {s.tasks[i].id}))
  {
    var leaked := s.leaked + {s.tasks[i].id};
    var tasks := s.tasks[i := Ended];
    forall id | id in s.inflight && id !in leaked ensures Held(tasks, id) {
      var j :| 0 <= j < |s.tasks| && Holds(s.tasks[j], id);
      assert Holds(tasks[j], id);
    }
  }

  /** Moving to a task that holds an id lets that id enter the in-flight set. */
  lemma EnterKeeps(c: Config, s: State, i: nat, t: Task, id: EventId)
    requires Inv(c, s) && i < |s.tasks| && TaskOk(c, s.confirmed, t) && Holds(t, id)
    requires s.tasks[i].Appended? || s.tasks[i].Relaying?
    ensures Inv(c, To(s, i, t).(inflight := s.inflight + {id}))
  {
    MoveKeeps(c, s, i, t, {});
    assert s.inflight - {} == s.inflight;
    var tasks := s.tasks[i := t];
    assert Holds(tasks[i], id);
    assert Held(tasks, id);
  }

  /** A move that leaves the in-flight set alone. */
  lemma StayKeeps(c: Config, s: State, i: nat, t: Task)
    requires Inv(c, s) && i < |s.tasks| && TaskOk(c, s.confirmed, t)
    requires forall id :: Holds(s.tasks[i], id) ==> Holds(t, id)
    ensures Inv(c, To(s, i, t))
  {
    MoveKeeps(c, s, i, t, {});
    assert s.inflight - {} == s.inflight;
    assert To(s, i, t).(inflight := s.inflight) == To(s, i, t);
  }

  lemma ConfirmKeeps(c: Config, s: State, i: nat)
    requires Inv(c, s) && i < |s.tasks| && s.tasks[i].Publishing?
    ensures Inv(c, ConfirmPublish(s, i))
  {
    assert TaskOk(c, s.confirmed, s.tasks[i]);
    var Publishing(id, owner) := s.tasks[i];
    var more := s.confirmed + {id};
    TasksWithConfirmed(c, s.confirmed, more, s.tasks);
    var known := s.(confirmed := more);
    assert Inv(c, known);
    StayKeeps(c, known, i, if id in s.inflight then Acking(id, owner) else Settled(id, owner, Unacked));
  }

  lemma StoreNackKeeps(c: Config, s: State, i: nat)
    requires Inv(c, s) && i < |s.tasks| && s.tasks[i].Nacking?
    ensures Inv(c, StoreNack(s, i))
  {
    var Nacking(id, owner, error, at, calledAt) := s.tasks[i];
    assert TaskOk(c, s.confirmed, s.tasks[i]);
    var rows, anchor := NackRows(s.rows, id, error, at), s.anchor[id := calledAt];
    assert rows.Keys == s.rows.Keys;
    assert RowsOk(c, rows, anchor);
    var moved := s.(rows := rows, anchor := anchor);
    assert NothingLost(moved);
    StayKeeps(c, moved, i, Answered(id, owner, Failed));
  }

  lemma AckKeeps(c: Config, s: State, i: nat)
    requires Inv(c, s) && i < |s.tasks| && s.tasks[i].Acking?
    ensures Inv(c, Next(c, s, CommitAck(i)))
  {
    var Acking(id, owner) := s.tasks[i];
    assert TaskOk(c, s.confirmed, s.tasks[i]);
    var removed := s.(rows := s.rows - {id});
    assert NothingLost(removed) && RowsOk(c, removed.rows, s.anchor);
    StayKeeps(c, removed, i, Answered(id, owner, Acked));
  }

  lemma PublishStepKeeps(c: Config, s: State, a: Action)
    requires Inv(c, s) && Enabled(c, s, a)
    requires a.Begin? || a.Confirm? || a.Fail? || a.CommitAck? || a.RefuseAck? || a.CommitNack? || a.RefuseNack? ||
             a.Settle?
    ensures Inv(c, Next(c, s, a))
  {
    var t := s.tasks[a.i];
    assert TaskOk(c, s.confirmed, t);
    match a
    case Begin(i) => StayKeeps(c, s, i, Publishing(t.id, Publisher));
    case Confirm(i) => ConfirmKeeps(c, s, i);
    case Fail(i, now, error) =>
      StayKeeps(c, s, i, Next(c, s, a).tasks[i]);
    case CommitAck(i) => AckKeeps(c, s, i);
    case RefuseAck(i) => StayKeeps(c, s, i, Answered(t.id, t.owner, Unacked));
    case CommitNack(i) => StoreNackKeeps(c, s, i);
    case RefuseNack(i) => StayKeeps(c, s, i, Answered(t.id, t.owner, Failed));
    case Settle(i) => MoveKeeps(c, s, i, Return(t.owner, !t.outcome.Failed?), {t.id});
  }

  lemma StepKeepsInv(c: Config, s: State, a: Action)
    requires Inv(c, s) && Enabled(c, s, a)
    ensures Inv(c, Next(c, s, a))
  {
    match a
    case Append(id, decodable, now, oldest) => AppendKeeps(c, s, id, NewRow(decodable, now), oldest);
    case AppendFailed(id, dropped) =>
      EvictKeeps(c, s, dropped);
      SpawnKeeps(c, EvictRow(s, dropped), Spawned(id));
    case Track(i) => EnterKeeps(c, s, i, Spawned(s.tasks[i].id), s.tasks[i].id);
    case Fetch(now, sel) => FetchKeeps(c, s, now, sel);
    case FetchFailed => SpawnKeeps(c, s, Relaying([]));
    case Pick(i) =>
      var id, rest := s.tasks[i].rest[0], s.tasks[i].rest[1..];
      if id in s.inflight {
        StayKeeps(c, s, i, Relaying(rest));
      } else {
        EnterKeeps(c, s, i, Publishing(id, RelayPass(rest)), id);
      }
    case Sample(i) => StayKeeps(c, s, i, Sampled(|s.rows|));
    case Refresh(i) => StayKeeps(c, s, i, Ended);
    case Cancel(i) => CancelKeeps(c, s, i);
    case Crash =>
    case _ => PublishStepKeeps(c, s, a);
  }

  lemma {:induction false} RunKeepsInv(c: Config, s: State, trace: seq<Action>, t: State)
    requires Inv(c, s) && IsRun(c, s, trace, t)
    ensures Inv(c, t)
    decreases |trace|
  {
    if trace != [] {
      StepKeepsInv(c, s, trace[0]);
      RunKeepsInv(c, Next(c, s, trace[0]), trace[1..], t);
    }
  }

  // ---------------------------------------------------------------------
  // Main results
  // ---------------------------------------------------------------------

  /** No accepted event is lost: in every state of every run, over any number of crashes, an id whose
    * row was inserted still has its row, or a publish of it was confirmed, or the store counted its
    * row as dropped, expired or corrupt; and the two latter since the row was last inserted, unless
    * an ack of an earlier row was then still outstanding. Overlapping publishes of one id included. */
  lemma NoLoss(c: Config, trace: seq<Action>, s: State, id: EventId)
    requires IsRun(c, Initial(), trace, s) && id in s.inserted
    ensures id in s.rows || id in s.confirmed || id in s.lost
  {
    RunKeepsInv(c, Initial(), trace, s);
  }

  lemma RowLeavesBy(c: Config, s: State, a: Action, id: EventId)
    requires Enabled(c, s, a) && id in s.rows && id !in Next(c, s, a).rows
    ensures a.Append? || a.AppendFailed? || a.Fetch? || (a.CommitAck? && s.tasks[a.i].id == id)
  {
  }

  /** The table shrinks only for cause. */
  lemma RowsLeaveForCause(c: Config, trace: seq<Action>, s: State, a: Action, id: EventId)
    requires IsRun(c, Initial(), trace, s) && Enabled(c, s, a)
    requires id in s.rows && id !in Next(c, s, a).rows
    ensures id in Next(c, s, a).confirmed || id in Next(c, s, a).lost
    ensures a.Append? || a.AppendFailed? || a.Fetch? || (a.CommitAck? && s.tasks[a.i].id == id && id in s.confirmed)
  {
    RunKeepsInv(c, Initial(), trace, s);
    StepKeepsInv(c, s, a);
    RowLeavesBy(c, s, a, id);
    if a.CommitAck? {
      assert TaskOk(c, s.confirmed, s.tasks[a.i]);
    }
  }

  /** Retry times stay bounded over every run: a row never tried is due at once, and any other is due
    * no later than relay_max_backoff after its latest nack. */
  lemma RetryBounded(c: Config, trace: seq<Action>, s: State, id: EventId)
    requires IsRun(c, Initial(), trace, s) && id in s.rows
    ensures id in s.anchor
    ensures s.rows[id].attempts == 0 ==> s.rows[id].nextTryAt == s.rows[id].createdAt == s.anchor[id]
    ensures s.rows[id].attempts > 0 ==> s.rows[id].nextTryAt <= s.anchor[id] + c.maxBackoff
  {
    RunKeepsInv(c, Initial(), trace, s);
    assert RowOk(c, s.rows[id], s.anchor[id]);
  }

  /** An id stays marked as in flight only while a task that will unmark it is alive, or after its
    * publish task was cancelled before it first ran. */
  lemma InflightIsReleased(c: Config, trace: seq<Action>, s: State, id: EventId)
    requires IsRun(c, Initial(), trace, s) && id in s.inflight
    ensures id in s.leaked || Held(s.tasks, id)
  {
    RunKeepsInv(c, Initial(), trace, s);
  }

  /** The attempt count of an id, and so the delay before its next try, only goes up, except where a
    * finished ack, an empty table or a crash resets it. */
  lemma AttemptsOnlyGrow(c: Config, s: State, a: Action, id: EventId)
    requires Enabled(c, s, a) && AttemptsOf(Next(c, s, a).attempts, id) < AttemptsOf(s.attempts, id)
    ensures || (a.Settle? && s.tasks[a.i].outcome.Acked? && s.tasks[a.i].id == id)
            || (a.Refresh? && s.tasks[a.i].pending == 0)
            || a.Crash?
  {
  }
}
