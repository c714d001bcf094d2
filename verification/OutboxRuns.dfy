/** What runs of the outbox protocol can do that one might not expect, and exactly when: publishes of one
  * id that overlap or go unmarked, and ids that stay marked as in flight.
  */
module OutboxRuns {
  import opened Collections
  import opened Outbox
  import opened OutboxProtocol

  // ---------------------------------------------------------------------
  // Building runs
  // ---------------------------------------------------------------------

  lemma {:induction false} RunExtends(c: Config, s: State, trace: seq<Action>, t: State, a: Action)
    requires IsRun(c, s, trace, t) && Enabled(c, t, a)
    ensures IsRun(c, s, trace + [a], Next(c, t, a))
    decreases |trace|
  {
    if trace == [] {
      assert IsRun(c, Next(c, t, a), [], Next(c, t, a));
    } else {
      RunExtends(c, Next(c, s, trace[0]), trace[1..], t, a);
      assert (trace + [a])[1..] == trace[1..] + [a];
    }
  }

  /** t is reachable from s. */
  ghost predicate Reaches(c: Config, s: State, t: State) {
    exists trace :: IsRun(c, s, trace, t)
  }

  lemma ReachesSelf(c: Config, s: State)
    ensures Reaches(c, s, s)
  {
    assert IsRun(c, s, [], s);
  }

  lemma ReachesNext(c: Config, s: State, t: State, a: Action, u: State)
    requires Reaches(c, s, t) && Enabled(c, t, a) && u == Next(c, t, a)
    ensures Reaches(c, s, u)
  {
    var trace :| IsRun(c, s, trace, t);
    RunExtends(c, s, trace, t, a);
  }

  /** A set of states that no step leaves. */
  ghost predicate Closed(c: Config, within: State -> bool) {
    forall s, a :: within(s) && Enabled(c, s, a) ==> within(Next(c, s, a))
  }

  lemma Onward(c: Config, within: State -> bool, s: State, a: Action, t: State)
    requires Closed(c, within) && within(s) && Enabled(c, s, a) && t == Next(c, s, a)
    ensures within(t)
  {
  }

  /** The reachable states are such a set. */
  lemma ReachableStates(c: Config) returns (within: State -> bool)
    ensures Closed(c, within) && within(Initial())
    ensures forall s :: within(s) ==> Reaches(c, Initial(), s)
  {
    within := (x: State) => Reaches(c, Initial(), x);
    ReachesSelf(c, Initial());
    forall x, a | within(x) && Enabled(c, x, a) ensures within(Next(c, x, a)) {
      ReachesNext(c, Initial(), x, a, Next(c, x, a));
    }
  }

  /** A store that takes one row and a relay that reads one. */
  predicate Roomy(c: Config) {
    c.store.maxRows >= 1 && c.store.maxAge >= 0.0 && c.batch >= 1
  }

  /** The first append, of a row that decodes. */
  lemma FirstAppend(c: Config, within: State -> bool, id: EventId, now: real) returns (s: State)
    requires Roomy(c) && Closed(c, within) && within(Initial())
    ensures within(s)
    ensures s.rows == map[id := NewRow(true, now)] && s.tasks == [Appended(id)]
    ensures s.inflight == {} && s.attempts == map[] && s.leaked == {}
  {
    s := CommitAppend(c, Initial(), id, NewRow(true, now), None);
    Onward(c, within, Initial(), Append(id, true, now, None), s);
  }

  lemma OnlyRowIsDue(c: Config, rows: Table, now: real, id: EventId)
    requires Roomy(c) && id in rows && rows.Keys == {id}
    requires rows[id].nextTryAt <= now <= rows[id].createdAt + c.store.maxAge
    ensures Kept(c.store, rows, now) == rows && Expired(c.store, rows, now) == {}
    ensures IsSelection(rows, now, c.batch, [id])
  {
    assert Expired(c.store, rows, now) == {};
    assert DueIds(rows, now) == {id} && Elements([id]) == {id};
  }

  lemma OnlyRowDecodes(rows: Table, id: EventId)
    requires id in rows && rows[id].decodable
    ensures Corrupt(rows, [id]) == {} && Decoded(rows, [id]) == [id]
  {
    assert [id][..0] == [];
    assert Decoded(rows, [id]) == Decoded(rows, []) + [id];
  }

  /** The relay reads the one row there is. */
  lemma FetchOne(c: Config, s: State, now: real, id: EventId)
    requires Roomy(c) && id in s.rows && s.rows.Keys == {id} && s.rows[id].decodable
    requires s.rows[id].nextTryAt <= now <= s.rows[id].createdAt + c.store.maxAge
    ensures Enabled(c, s, Fetch(now, [id]))
    ensures Next(c, s, Fetch(now, [id])) == s.(tasks := s.tasks + [Relaying([id])])
  {
    OnlyRowIsDue(c, s.rows, now, id);
    OnlyRowDecodes(s.rows, id);
  }

  lemma FailStep(c: Config, s: State, k: nat, id: EventId, owner: Owner, n: nat, now: real, error: string)
    requires k < |s.tasks| && s.tasks[k] == Publishing(id, owner) && id in s.inflight && AttemptsOf(s.attempts, id) == n
    ensures Enabled(c, s, Fail(k, now, error))
    ensures var t := match Backoff(c, n + 1)
                     case None => Settled(id, owner, Failed)
                     case Some(delay) => Nacking(id, owner, error, now + delay, now);
            Next(c, s, Fail(k, now, error)) == s.(tasks := s.tasks[k := t], attempts := s.attempts[id := n + 1])
  {
  }

  lemma NackStep(c: Config, s: State, k: nat, id: EventId, owner: Owner, error: string, at: real, calledAt: real)
    requires k < |s.tasks| && s.tasks[k] == Nacking(id, owner, error, at, calledAt) && !owner.Orphan?
    ensures Enabled(c, s, CommitNack(k))
    ensures Next(c, s, CommitNack(k)) ==
            s.(tasks := s.tasks[k := Settled(id, owner, Failed)], rows := NackRows(s.rows, id, error, at),
               anchor := s.anchor[id := calledAt])
  {
  }

  // ---------------------------------------------------------------------
  // What holds throughout a run
  // ---------------------------------------------------------------------

  ghost predicate Throughout(c: Config, s: State, trace: seq<Action>, p: State -> bool)
    decreases |trace|
  {
    p(s) && (trace != [] && Enabled(c, s, trace[0]) ==> Throughout(c, Next(c, s, trace[0]), trace[1..], p))
  }

  ghost predicate Ever(c: Config, s: State, trace: seq<Action>, q: (State, Action) -> bool)
    decreases |trace|
  {
    trace != [] && Enabled(c, s, trace[0]) &&
    (q(s, trace[0]) || Ever(c, Next(c, s, trace[0]), trace[1..], q))
  }

  /** If exactly the steps in q end p, a run keeps p throughout if and only if it takes none of them. */
  lemma {:induction false} ThroughoutIffNever(c: Config, s: State, trace: seq<Action>, t: State,
                                              p: State -> bool, q: (State, Action) -> bool)
    requires IsRun(c, s, trace, t) && Inv(c, s) && p(s)
    requires forall x, a :: Inv(c, x) && p(x) && Enabled(c, x, a) ==> (p(Next(c, x, a)) <==> !q(x, a))
    ensures Throughout(c, s, trace, p) <==> !Ever(c, s, trace, q)
    decreases |trace|
  {
    if trace != [] && !q(s, trace[0]) {
      StepKeepsInv(c, s, trace[0]);
      ThroughoutIffNever(c, Next(c, s, trace[0]), trace[1..], t, p, q);
    }
  }

  // ---------------------------------------------------------------------
  // The tasks a step writes
  // ---------------------------------------------------------------------

  predicate Adds(a: Action) {
    a.Append? || a.AppendFailed? || a.Fetch? || a.FetchFailed?
  }

  function Place(s: State, a: Action): int
    requires !a.Crash?
  {
    if Adds(a) then |s.tasks| else a.i
  }

  /** Task j is the one the step moves on, or is added by it. */
  ghost predicate Writes(c: Config, s: State, a: Action, j: int)
    requires Enabled(c, s, a)
  {
    0 <= j < |Next(c, s, a).tasks| && (j >= |s.tasks| || (!a.Crash? && j == Place(s, a)))
  }

  lemma CancelMovesOne(c: Config, s: State, i: nat)
    requires Enabled(c, s, Cancel(i))
    ensures var next := CancelTask(s, i).tasks; |s.tasks| <= |next| && next[..|s.tasks|] == s.tasks[i := next[i]]
  {
  }

  lemma OthersStay(c: Config, s: State, a: Action)
    requires Enabled(c, s, a) && !a.Crash?
    ensures |s.tasks| <= |Next(c, s, a).tasks|
    ensures forall j :: 0 <= j < |s.tasks| && !Writes(c, s, a, j) ==> Next(c, s, a).tasks[j] == s.tasks[j]
  {
    if a.Cancel? {
      CancelMovesOne(c, s, a.i);
      assert forall j :: 0 <= j < |s.tasks| ==> Next(c, s, a).tasks[j] == Next(c, s, a).tasks[..|s.tasks|][j];
    }
  }

  /** The rows a relay pass still has to look at when the task is done. */
  function Todo(t: Task): seq<EventId> {
    match t
    case Relaying(rest) => rest
    case Publishing(_, owner) => Rest(owner)
    case Acking(_, owner) => Rest(owner)
    case Nacking(_, owner, _, _, _) => Rest(owner)
    case Settled(_, owner, _) => Rest(owner)
    case _ => []
  }

  function Rest(owner: Owner): seq<EventId> {
    if owner.RelayPass? then owner.rest else []
  }

  /** The store has answered, or a publish or a pass is over. */
  predicate Reports(a: Action) {
    a.CommitAck? || a.RefuseAck? || a.CommitNack? || a.RefuseNack? || a.Settle? || a.Sample? || a.Refresh?
  }

  lemma ReportWrites(c: Config, s: State, a: Action, j: int)
    requires Enabled(c, s, a) && Reports(a) && Writes(c, s, a, j)
    ensures var u := Next(c, s, a).tasks[j];
            && j == a.i
            && (u.Ended? || u.Relaying? || u.Sampled? || (u.Settled? && !a.Settle? && Holds(s.tasks[a.i], u.id)))
            && (Todo(u) == [] || Todo(u) == Todo(s.tasks[a.i]))
  {
  }

  lemma CancelWrites(c: Config, s: State, a: Action, j: int)
    requires Enabled(c, s, a) && a.Cancel? && Writes(c, s, a, j)
    ensures Todo(Next(c, s, a).tasks[j]) == []
    ensures var u := Next(c, s, a).tasks[j];
            || u.Ended? || u.Relaying?
            || (IsOrphan(u) && (u.Nacking? ==> s.tasks[a.i].Nacking? && s.tasks[a.i].id == u.id))
  {
  }

  /** Where a publish that is under way comes from. */
  lemma WrittenPublish(c: Config, s: State, a: Action, j: int)
    requires Enabled(c, s, a) && !a.Crash? && Writes(c, s, a, j)
    ensures var t, u := Next(c, s, a), Next(c, s, a).tasks[j];
            && (u.Appended? || u.Spawned? || u.Publishing? ==> j == Place(s, a))
            && (u.Appended? ==> a.Append? && a.id == u.id && CallerStarts(UnderWay, c, s, a, u.id))
            && (u.Spawned? ==>
                  || (a.AppendFailed? && a.id == u.id)
                  || (a.Track? && s.tasks[a.i] == Appended(u.id) && u.id in t.inflight))
            && (u.Publishing? ==>
                  || (a.Begin? && s.tasks[a.i] == Spawned(u.id))
                  || (RelayStarts(s, a, u.id) && u.id in t.inflight))
  {
    if Reports(a) {
      ReportWrites(c, s, a, j);
    } else if a.Cancel? {
      CancelWrites(c, s, a, j);
    }
  }

  /** Where a nack on its way to the store comes from. */
  lemma WrittenNack(c: Config, s: State, a: Action, j: int)
    requires Enabled(c, s, a) && Writes(c, s, a, j) && Next(c, s, a).tasks[j].Nacking?
    ensures !Adds(a) && !a.Crash? && s.tasks[a.i].id == Next(c, s, a).tasks[j].id
    ensures s.tasks[a.i].Nacking? ||
            (a.Fail? && s.tasks[a.i].Publishing? && AttemptsOf(s.attempts, s.tasks[a.i].id) < MAX_ATTEMPTS)
  {
    if Reports(a) {
      ReportWrites(c, s, a, j);
    } else if a.Cancel? {
      CancelWrites(c, s, a, j);
    }
  }

  /** Whose publish a task that will unmark id belongs to. */
  lemma WrittenHolder(c: Config, s: State, a: Action, j: int, id: EventId)
    requires Enabled(c, s, a) && Writes(c, s, a, j) && Holds(Next(c, s, a).tasks[j], id)
    ensures !a.Crash? && j == Place(s, a)
    ensures || (a.AppendFailed? && a.id == id) || RelayStarts(s, a, id)
            || (!Adds(a) && (Holds(s.tasks[a.i], id) || (a.Track? && s.tasks[a.i] == Appended(id))))
  {
    if Reports(a) {
      ReportWrites(c, s, a, j);
    } else if a.Cancel? {
      CancelWrites(c, s, a, j);
    }
  }

  /** A publish that ends reports to the store if and only if it is marked: an ack after a confirmation; after
    * a failure, which is counted, a nack with the delay for that count, unless there is none. */
  lemma ReportsIffMarked(c: Config, s: State, a: Action)
    requires Enabled(c, s, a) && (a.Confirm? || a.Fail?)
    ensures var id, t, u := s.tasks[a.i].id, Next(c, s, a), Next(c, s, a).tasks[a.i];
            && t.rows == s.rows && t.inflight == s.inflight && (u.Acking? || u.Nacking? || u.Settled?) && u.id == id
            && (u.Acking? <==> a.Confirm? && id in s.inflight)
            && (u.Nacking? <==> a.Fail? && id in s.inflight && AttemptsOf(s.attempts, id) < MAX_ATTEMPTS)
            && AttemptsOf(t.attempts, id) == AttemptsOf(s.attempts, id) + (if a.Fail? && id in s.inflight then 1 else 0)
            && (u.Nacking? ==> Backoff(c, AttemptsOf(t.attempts, id)).Some? &&
                               u.at == a.now + Backoff(c, AttemptsOf(t.attempts, id)).value)
  {
  }

  /** The relay's read removes exactly the rows that are too old and those read that do not decode; the pass
    * then has exactly the others that were read before it. */
  lemma FetchExactly(c: Config, s: State, a: Action, id: EventId)
    requires a.Fetch? && Enabled(c, s, a)
    ensures var t := Next(c, s, a);
            && (id in t.rows <==> id in s.rows && s.rows[id].createdAt >= a.now - c.store.maxAge &&
                                  (id in a.sel ==> s.rows[id].decodable))
            && (id in t.rows ==> t.rows[id] == s.rows[id])
            && |t.tasks| == |s.tasks| + 1 && t.tasks[|s.tasks|].Relaying?
            && (id in t.tasks[|s.tasks|].rest <==> id in a.sel && id in t.rows)
  {
    DecodedIff(Kept(c.store, s.rows, a.now), a.sel, id);
    if id in a.sel {
      assert id in Elements(a.sel);
    }
  }

  lemma {:induction false} DecodedIff(rows: Table, sel: seq<EventId>, id: EventId)
    ensures id in Decoded(rows, sel) <==> id in sel && id in rows && rows[id].decodable
  {
    if sel != [] {
      DecodedIff(rows, sel[..|sel| - 1], id);
      assert sel == sel[..|sel| - 1] + [sel[|sel| - 1]];
    }
  }

  /** The pass ends by looking at the number of rows, and clears all counts if that was zero; the two looks
    * may be apart. A crash clears everything but the table. */
  lemma ResetsExactly(c: Config, s: State, a: Action)
    requires Enabled(c, s, a) && (a.Sample? || a.Refresh? || a.Crash?)
    ensures var t := Next(c, s, a);
            && t.rows == s.rows
            && (a.Sample? ==> t.tasks[a.i] == Sampled(|s.rows|) && t.attempts == s.attempts)
            && (a.Refresh? ==> t.attempts == (if s.tasks[a.i].pending == 0 then map[] else s.attempts))
            && (a.Crash? ==> t.tasks == [] && t.inflight == {} && t.attempts == map[])
  {
  }

  /** When a publish is over its mark is gone; only an ack that was carried out clears the count; and the relay
    * pass that waited for it goes on with its other rows unless the publish failed. */
  lemma SettleClears(c: Config, s: State, a: Action)
    requires a.Settle? && Enabled(c, s, a)
    ensures var was, t := s.tasks[a.i], Next(c, s, a);
            && t.inflight == s.inflight - {was.id}
            && t.attempts == (if was.outcome.Acked? then s.attempts - {was.id} else s.attempts)
            && (was.owner.RelayPass? ==>
                  t.tasks[a.i] == Relaying(if was.outcome.Failed? then [] else was.owner.rest))
  {
  }

  // ---------------------------------------------------------------------
  // Overlapping publishes
  // ---------------------------------------------------------------------

  /** Which publishes of an id to look at: those in the middle of the backend's publish, or all under way
    * from the moment the append has committed. */
  datatype Scope = InBackend | UnderWay

  predicate Publishes(scope: Scope, t: Task, id: EventId) {
    (t.Publishing? || (scope.UnderWay? && (t.Appended? || t.Spawned?))) && t.id == id
  }

  ghost predicate Busy(scope: Scope, tasks: seq<Task>, id: EventId) {
    exists i :: 0 <= i < |tasks| && Publishes(scope, tasks[i], id)
  }

  ghost predicate Alone(scope: Scope, tasks: seq<Task>, id: EventId) {
    forall i, j :: 0 <= i < j < |tasks| ==> !(Publishes(scope, tasks[i], id) && Publishes(scope, tasks[j], id))
  }

  /** The relay takes a row whose id it does not find marked as in flight. */
  predicate RelayStarts(s: State, a: Action, id: EventId) {
    && a.Pick? && a.i < |s.tasks| && s.tasks[a.i].Relaying? && s.tasks[a.i].rest != []
    && s.tasks[a.i].rest[0] == id && id !in s.inflight
  }

  /** A caller's publish: its append is accepted or fails, or later its task runs for the first time. */
  ghost predicate CallerStarts(scope: Scope, c: Config, s: State, a: Action, id: EventId) {
    match scope
    case InBackend => a.Begin? && a.i < |s.tasks| && s.tasks[a.i] == Spawned(id)
    case UnderWay =>
      || (a.AppendFailed? && a.id == id)
      || (a.Append? && a.id == id && AppendRows(c.store, s.rows, id, NewRow(a.decodable, a.now), a.oldest).Some?)
  }

  ghost predicate Collides(scope: Scope, c: Config, s: State, a: Action, id: EventId) {
    (RelayStarts(s, a, id) || CallerStarts(scope, c, s, a, id)) && Busy(scope, s.tasks, id)
  }

  /** A task that publishes id did so before, or it is the one at which the step starts a publish of it. */
  lemma OldOrStarted(scope: Scope, c: Config, s: State, a: Action, j: int, id: EventId)
    requires Enabled(c, s, a) && !a.Crash?
    requires 0 <= j < |Next(c, s, a).tasks| && Publishes(scope, Next(c, s, a).tasks[j], id)
    ensures || (j < |s.tasks| && Publishes(scope, s.tasks[j], id))
            || (j == Place(s, a) && (RelayStarts(s, a, id) || CallerStarts(scope, c, s, a, id)))
  {
    OthersStay(c, s, a);
    if Writes(c, s, a, j) {
      WrittenPublish(c, s, a, j);
    }
  }

  lemma StartedIsNew(scope: Scope, c: Config, s: State, a: Action, id: EventId)
    requires Enabled(c, s, a) && (RelayStarts(s, a, id) || CallerStarts(scope, c, s, a, id))
    ensures var j := Place(s, a);
            && Writes(c, s, a, j) && Publishes(scope, Next(c, s, a).tasks[j], id)
            && (j >= |s.tasks| || !Publishes(scope, s.tasks[j], id))
  {
  }

  lemma CollisionOverlaps(scope: Scope, c: Config, s: State, a: Action, id: EventId)
    requires Enabled(c, s, a) && Collides(scope, c, s, a, id)
    ensures !Alone(scope, Next(c, s, a).tasks, id)
  {
    StartedIsNew(scope, c, s, a, id);
    var j := Place(s, a);
    var i :| 0 <= i < |s.tasks| && Publishes(scope, s.tasks[i], id);
    OthersStay(c, s, a);
    var x, y := if i < j then i else j, if i < j then j else i;
    assert Publishes(scope, Next(c, s, a).tasks[x], id) && Publishes(scope, Next(c, s, a).tasks[y], id);
  }

  lemma StepAlone(scope: Scope, c: Config, s: State, a: Action, id: EventId)
    requires Enabled(c, s, a) && Alone(scope, s.tasks, id)
    ensures Alone(scope, Next(c, s, a).tasks, id) <==> !Collides(scope, c, s, a, id)
  {
    if Collides(scope, c, s, a, id) {
      CollisionOverlaps(scope, c, s, a, id);
    } else if !a.Crash? {
      var next := Next(c, s, a).tasks;
      forall x, y | 0 <= x < y < |next| ensures !(Publishes(scope, next[x], id) && Publishes(scope, next[y], id)) {
        if Publishes(scope, next[x], id) && Publishes(scope, next[y], id) {
          OldOrStarted(scope, c, s, a, x, id);
          OldOrStarted(scope, c, s, a, y, id);
        }
      }
    }
  }

  ghost function AloneIn(scope: Scope, id: EventId): State -> bool {
    (x: State) => Alone(scope, x.tasks, id)
  }

  ghost function Collisions(scope: Scope, c: Config, id: EventId): (State, Action) -> bool {
    (x: State, a: Action) => Collides(scope, c, x, a, id)
  }

  /** Publishes of one id never overlap in a run if and only if none starts while another is there. */
  lemma NoOverlapIff(scope: Scope, c: Config, trace: seq<Action>, t: State, id: EventId)
    requires IsRun(c, Initial(), trace, t)
    ensures Throughout(c, Initial(), trace, AloneIn(scope, id)) <==>
            !Ever(c, Initial(), trace, Collisions(scope, c, id))
  {
    var p, q := AloneIn(scope, id), Collisions(scope, c, id);
    forall x, a | p(x) && Enabled(c, x, a) ensures p(Next(c, x, a)) <==> !q(x, a) {
      StepAlone(scope, c, x, a, id);
    }
    ThroughoutIffNever(c, Initial(), trace, t, p, q);
  }

  /** A run that overlaps: the relay reads the row between the commit of its append and the moment the
    * publisher marks the id, and both are in the backend at once. */
  lemma RelayOverlapsPublisher(c: Config, id: EventId) returns (s: State)
    requires Roomy(c)
    ensures Reaches(c, Initial(), s)
    ensures s.tasks == [Publishing(id, Publisher), Publishing(id, RelayPass([]))]
    ensures !Alone(InBackend, s.tasks, id)
  {
    var within := ReachableStates(c);
    var appended := FirstAppend(c, within, id, 0.0);
    s := Race(c, within, appended, id);
    assert Publishes(InBackend, s.tasks[0], id) && Publishes(InBackend, s.tasks[1], id);
  }

  lemma Race(c: Config, within: State -> bool, s: State, id: EventId) returns (t: State)
    requires Roomy(c) && Closed(c, within) && within(s)
    requires s.rows == map[id := NewRow(true, 0.0)] && s.tasks == [Appended(id)] && s.inflight == {}
    ensures within(t) && t.tasks == [Publishing(id, Publisher), Publishing(id, RelayPass([]))]
  {
    var fetched := s.(tasks := [Appended(id), Relaying([id])]);
    FetchOne(c, s, 0.0, id);
    Onward(c, within, s, Fetch(0.0, [id]), fetched);
    var picked := s.(tasks := [Appended(id), Publishing(id, RelayPass([]))], inflight := {id});
    assert [id][1..] == [];
    Onward(c, within, fetched, Pick(1), picked);
    var tracked := picked.(tasks := [Spawned(id), Publishing(id, RelayPass([]))]);
    assert picked.inflight + {id} == {id};
    Onward(c, within, picked, Track(0), tracked);
    t := tracked.(tasks := [Publishing(id, Publisher), Publishing(id, RelayPass([]))]);
    Onward(c, within, tracked, Begin(0), t);
  }

  /** Marks do not keep a caller from overlapping itself: a second publish of an id starts while the first
    * is in the backend and marked. */
  lemma CallerOverlapsItself(c: Config, id: EventId) returns (s: State)
    requires Roomy(c) && c.store.maxRows >= 2
    ensures Reaches(c, Initial(), s) && id in s.inflight
    ensures s.tasks == [Publishing(id, Publisher), Publishing(id, Publisher)]
  {
    var within := ReachableStates(c);
    var appended := FirstAppend(c, within, id, 0.0);
    s := PublishTwice(c, within, appended, id);
  }

  lemma PublishTwice(c: Config, within: State -> bool, s: State, id: EventId) returns (t: State)
    requires c.store.maxRows >= 2 && Closed(c, within) && within(s)
    requires s.rows == map[id := NewRow(true, 0.0)] && s.tasks == [Appended(id)] && s.inflight == {}
    ensures within(t) && t.tasks == [Publishing(id, Publisher), Publishing(id, Publisher)] && t.inflight == {id}
  {
    var first := StartPublish(c, within, s, 0, id);
    var again := CommitAppend(c, first, id, NewRow(true, 0.0), Some(id));
    Onward(c, within, first, Append(id, true, 0.0, Some(id)), again);
    t := StartPublish(c, within, again, 1, id);
  }

  lemma StartPublish(c: Config, within: State -> bool, s: State, i: nat, id: EventId) returns (t: State)
    requires Closed(c, within) && within(s) && i < |s.tasks| && s.tasks[i] == Appended(id) && s.inflight <= {id}
    ensures within(t) && t == s.(tasks := s.tasks[i := Publishing(id, Publisher)], inflight := {id})
  {
    var tracked := s.(tasks := s.tasks[i := Spawned(id)], inflight := {id});
    assert s.inflight + {id} == {id};
    Onward(c, within, s, Track(i), tracked);
    t := s.(tasks := s.tasks[i := Publishing(id, Publisher)], inflight := {id});
    Onward(c, within, tracked, Begin(i), t);
  }

  // ---------------------------------------------------------------------
  // How long an id stays marked as in flight
  // ---------------------------------------------------------------------

  /** The task is past its start, and its finally block names id. */
  predicate Discards(t: Task, id: EventId) {
    Holds(t, id) && !t.Spawned?
  }

  /** The steps that take id out of the in-flight set: a task that published it ends or is cancelled, or
    * the process dies. */
  predicate Releases(s: State, a: Action, id: EventId) {
    || a.Crash?
    || (a.Settle? && a.i < |s.tasks| && s.tasks[a.i].Settled? && s.tasks[a.i].id == id)
    || (a.Cancel? && a.i < |s.tasks| && Discards(s.tasks[a.i], id))
  }

  /** An id in flight stays there in a step if and only if the step is none of these. */
  lemma LeavesExactly(c: Config, s: State, a: Action, id: EventId)
    requires Enabled(c, s, a) && id in s.inflight
    ensures id in Next(c, s, a).inflight <==> !Releases(s, a, id)
  {
    if !a.Track? && !a.Pick? && !a.Settle? && !a.Cancel? && !a.Crash? {
      InflightUntouched(c, s, a);
    }
  }

  lemma InflightUntouched(c: Config, s: State, a: Action)
    requires Enabled(c, s, a) && !a.Track? && !a.Pick? && !a.Settle? && !a.Cancel? && !a.Crash?
    ensures Next(c, s, a).inflight == s.inflight
  {
    match a
    case Append(_, _, _, _) =>
    case Confirm(_) =>
    case Fail(_, _, _) =>
    case CommitNack(_) =>
    case _ =>
  }

  /** The steps that put id there also start to hold it. */
  lemma EnteredIsHeld(c: Config, s: State, a: Action, id: EventId)
    requires Enabled(c, s, a) && id !in s.inflight && id in Next(c, s, a).inflight
    ensures !a.Crash? && !Adds(a) && a.i < |Next(c, s, a).tasks| && Holds(Next(c, s, a).tasks[a.i], id)
  {
    if !a.Track? && !a.Pick? && !a.Settle? && !a.Cancel? && !a.Crash? {
      InflightUntouched(c, s, a);
    }
  }

  /** A task goes on holding id until it discards it, or is cancelled before it ran. */
  lemma GoesOnHolding(c: Config, s: State, a: Action, id: EventId)
    requires Enabled(c, s, a) && !Adds(a) && !Releases(s, a, id) && Holds(s.tasks[a.i], id)
    requires !(a.Cancel? && s.tasks[a.i].Spawned?) && TaskOk(c, s.confirmed, s.tasks[a.i])
    ensures a.i < |Next(c, s, a).tasks| && Holds(Next(c, s, a).tasks[a.i], id)
  {
  }

  /** Some task other than the i-th holds id. */
  ghost predicate HeldElsewhere(tasks: seq<Task>, i: int, id: EventId) {
    exists j :: 0 <= j < |tasks| && j != i && Holds(tasks[j], id)
  }

  lemma ElsewhereStays(c: Config, s: State, a: Action, id: EventId)
    requires Enabled(c, s, a) && !a.Crash? && !Adds(a) && HeldElsewhere(s.tasks, a.i, id)
    ensures Held(Next(c, s, a).tasks, id)
  {
    var j :| 0 <= j < |s.tasks| && j != a.i && Holds(s.tasks[j], id);
    OthersStay(c, s, a);
    assert Holds(Next(c, s, a).tasks[j], id);
  }

  /** id is in flight and no task is left that would take it out. */
  ghost predicate Leaked(s: State, id: EventId) {
    id in s.inflight && !Held(s.tasks, id)
  }

  /** The task that alone would discard id is cancelled before it first runs. */
  ghost predicate Leaks(s: State, a: Action, id: EventId) {
    && a.Cancel? && a.i < |s.tasks| && s.tasks[a.i] == Spawned(id)
    && id in s.inflight && !HeldElsewhere(s.tasks, a.i, id)
  }

  lemma LeaksIsEnough(c: Config, s: State, a: Action, id: EventId)
    requires Enabled(c, s, a) && Leaks(s, a, id)
    ensures Leaked(Next(c, s, a), id)
  {
    var next := Next(c, s, a).tasks;
    assert next == s.tasks[a.i := Ended];
    forall j | 0 <= j < |next| ensures !Holds(next[j], id) {
      assert j != a.i ==> next[j] == s.tasks[j];
    }
  }

  /** A step leaks id if and only if it is such a cancellation. */
  lemma LeaksExactly(c: Config, s: State, a: Action, id: EventId)
    requires Inv(c, s) && Enabled(c, s, a) && !Leaked(s, id)
    ensures Leaked(Next(c, s, a), id) <==> Leaks(s, a, id)
  {
    if Leaks(s, a, id) {
      LeaksIsEnough(c, s, a, id);
    } else if id in Next(c, s, a).inflight {
      var next := Next(c, s, a).tasks;
      if id !in s.inflight {
        EnteredIsHeld(c, s, a, id);
        assert Held(next, id);
      } else {
        LeavesExactly(c, s, a, id);
        StillHeld(c, s, a, id);
      }
    }
  }

  lemma StillHeld(c: Config, s: State, a: Action, id: EventId)
    requires TasksOk(c, s.confirmed, s.tasks) && Enabled(c, s, a) && Held(s.tasks, id)
    requires id in s.inflight && !Releases(s, a, id) && !Leaks(s, a, id)
    ensures Held(Next(c, s, a).tasks, id)
  {
    var j :| 0 <= j < |s.tasks| && Holds(s.tasks[j], id);
    if Adds(a) || j != a.i {
      OthersStay(c, s, a);
      assert Holds(Next(c, s, a).tasks[j], id);
    } else if HeldElsewhere(s.tasks, a.i, id) {
      ElsewhereStays(c, s, a, id);
    } else {
      assert TaskOk(c, s.confirmed, s.tasks[a.i]);
      GoesOnHolding(c, s, a, id);
      assert Holds(Next(c, s, a).tasks[j], id);
    }
  }

  ghost function NotLeaked(id: EventId): State -> bool {
    (x: State) => !Leaked(x, id)
  }

  ghost function Leaking(id: EventId): (State, Action) -> bool {
    (x: State, a: Action) => Leaks(x, a, id)
  }

  /** In a run an id in flight always has a task that will take it out, if and only if no publish task of
    * it that has not run yet is cancelled while it is marked and no other task holds it. */
  lemma NeverLeakedIff(c: Config, trace: seq<Action>, t: State, id: EventId)
    requires IsRun(c, Initial(), trace, t)
    ensures Throughout(c, Initial(), trace, NotLeaked(id)) <==> !Ever(c, Initial(), trace, Leaking(id))
  {
    var p, q := NotLeaked(id), Leaking(id);
    forall x, a | Inv(c, x) && p(x) && Enabled(c, x, a) ensures p(Next(c, x, a)) <==> !q(x, a) {
      LeaksExactly(c, x, a, id);
    }
    ThroughoutIffNever(c, Initial(), trace, t, p, q);
  }

  /** Some publish of id is started, or being settled, without a mark that would keep the relay off. */
  ghost predicate Exposed(s: State, id: EventId) {
    Held(s.tasks, id) && id !in s.inflight
  }

  /** A publish starts without a row, or one task's end takes away the mark of another. */
  ghost predicate Exposes(s: State, a: Action, id: EventId) {
    || (a.AppendFailed? && a.id == id && id !in s.inflight)
    || (Releases(s, a, id) && !a.Crash? && HeldElsewhere(s.tasks, a.i, id))
  }

  lemma ExposesIsEnough(c: Config, s: State, a: Action, id: EventId)
    requires Enabled(c, s, a) && !Exposed(s, id) && Exposes(s, a, id)
    ensures Exposed(Next(c, s, a), id)
  {
    if a.AppendFailed? {
      assert Holds(Next(c, s, a).tasks[|s.tasks|], id);
    } else {
      ElsewhereStays(c, s, a, id);
      assert Held(s.tasks, id);
      LeavesExactly(c, s, a, id);
    }
  }

  lemma ExposedOnlyBy(c: Config, s: State, a: Action, j: int, id: EventId)
    requires Enabled(c, s, a) && !Exposed(s, id) && id !in Next(c, s, a).inflight
    requires 0 <= j < |Next(c, s, a).tasks| && Holds(Next(c, s, a).tasks[j], id)
    ensures Exposes(s, a, id)
  {
    if id in s.inflight {
      LeavesExactly(c, s, a, id);
    }
    OthersStay(c, s, a);
    if Writes(c, s, a, j) {
      WrittenHolder(c, s, a, j, id);
      if a.Cancel? {
        CancelWrites(c, s, a, j);
      } else if Reports(a) {
        ReportWrites(c, s, a, j);
      }
    } else {
      assert Holds(s.tasks[j], id);
    }
  }

  /** A step exposes a publish of id if and only if it is one of these. */
  lemma ExposesExactly(c: Config, s: State, a: Action, id: EventId)
    requires Enabled(c, s, a) && !Exposed(s, id)
    ensures Exposed(Next(c, s, a), id) <==> Exposes(s, a, id)
  {
    if Exposes(s, a, id) {
      ExposesIsEnough(c, s, a, id);
    } else if Exposed(Next(c, s, a), id) {
      var j :| 0 <= j < |Next(c, s, a).tasks| && Holds(Next(c, s, a).tasks[j], id);
      ExposedOnlyBy(c, s, a, j, id);
    }
  }

  ghost function NotExposed(id: EventId): State -> bool {
    (x: State) => !Exposed(x, id)
  }

  ghost function Exposing(id: EventId): (State, Action) -> bool {
    (x: State, a: Action) => Exposes(x, a, id)
  }

  /** In a run every publish of id is marked from its start to its end, if and only if none starts because
    * an append of id failed while it is unmarked, and none ends while another is there. */
  lemma AlwaysMarkedIff(c: Config, trace: seq<Action>, t: State, id: EventId)
    requires IsRun(c, Initial(), trace, t)
    ensures Throughout(c, Initial(), trace, NotExposed(id)) <==> !Ever(c, Initial(), trace, Exposing(id))
  {
    var p, q := NotExposed(id), Exposing(id);
    forall x, a | p(x) && Enabled(c, x, a) ensures p(Next(c, x, a)) <==> !q(x, a) {
      ExposesExactly(c, x, a, id);
    }
    ThroughoutIffNever(c, Initial(), trace, t, p, q);
  }

  /** A task concerns id: it is or will be at a publish of it. */
  predicate Concerns(t: Task, id: EventId) {
    Holds(t, id) || (t.Appended? && t.id == id)
  }

  ghost predicate NobodyConcerned(tasks: seq<Task>, id: EventId) {
    forall i :: 0 <= i < |tasks| ==> !Concerns(tasks[i], id)
  }

  /** A leak: the publish task is cancelled before it first runs, so its finally block never does. The row
    * is there, the id is in flight, and no task is left that would unmark it. */
  lemma CancelledBeforeStart(c: Config, id: EventId) returns (s: State)
    requires Roomy(c)
    ensures Reaches(c, Initial(), s) && id in s.rows && id in s.inflight && NobodyConcerned(s.tasks, id)
  {
    var within := ReachableStates(c);
    var appended := FirstAppend(c, within, id, 0.0);
    s := LeakFrom(c, within, appended, id);
  }

  lemma LeakFrom(c: Config, within: State -> bool, s: State, id: EventId) returns (t: State)
    requires Closed(c, within) && within(s) && s.tasks == [Appended(id)] && s.inflight == {}
    ensures within(t) && t == s.(tasks := [Ended], inflight := {id}, leaked := s.leaked + {id})
  {
    var tracked := s.(tasks := [Spawned(id)], inflight := {id});
    assert s.inflight + {id} == {id};
    Onward(c, within, s, Track(0), tracked);
    t := tracked.(tasks := [Ended], leaked := s.leaked + {id});
    Onward(c, within, tracked, Cancel(0), t);
  }

  /** A caller publishes id anew. */
  predicate Republishes(a: Action, id: EventId) {
    (a.Append? || a.AppendFailed?) && a.id == id
  }

  lemma LeakStep(c: Config, s: State, a: Action, id: EventId)
    requires Enabled(c, s, a) && id in s.inflight && NobodyConcerned(s.tasks, id)
    requires !a.Crash? && !Republishes(a, id)
    ensures id in Next(c, s, a).inflight && NobodyConcerned(Next(c, s, a).tasks, id)
  {
    LeavesExactly(c, s, a, id);
    OthersStay(c, s, a);
    var next := Next(c, s, a).tasks;
    forall j | 0 <= j < |next| ensures !Concerns(next[j], id) {
      if Writes(c, s, a, j) && Concerns(next[j], id) {
        WrittenPublish(c, s, a, j);
        WrittenHolder(c, s, a, j, id);
      }
    }
  }

  /** A leaked id is stuck: the relay passes over its row, and nothing unmarks it, until the process dies
    * or a caller publishes it again. */
  lemma {:induction false} LeakLasts(c: Config, s: State, trace: seq<Action>, t: State, id: EventId)
    requires IsRun(c, s, trace, t) && id in s.inflight && NobodyConcerned(s.tasks, id)
    requires forall a :: a in trace ==> !a.Crash? && !Republishes(a, id)
    ensures id in t.inflight && NobodyConcerned(t.tasks, id)
    decreases |trace|
  {
    if trace != [] {
      assert trace[0] in trace;
      LeakStep(c, s, trace[0], id);
      LeakLasts(c, Next(c, s, trace[0]), trace[1..], t, id);
    }
  }

  // ---------------------------------------------------------------------
  // An id that callers publish once
  // ---------------------------------------------------------------------

  /** The store and the tasks know nothing of id. */
  ghost predicate Unheard(s: State, id: EventId) {
    id !in s.rows && forall i :: 0 <= i < |s.tasks| ==> !Concerns(s.tasks[i], id) && id !in Todo(s.tasks[i])
  }

  lemma FetchWrites(c: Config, s: State, a: Action, id: EventId)
    requires Enabled(c, s, a) && a.Fetch? && id in Todo(Next(c, s, a).tasks[|s.tasks|])
    ensures id in s.rows
  {
    DecodedIff(Kept(c.store, s.rows, a.now), a.sel, id);
  }

  lemma WrittenTodo(c: Config, s: State, a: Action, j: int, id: EventId)
    requires Enabled(c, s, a) && Writes(c, s, a, j) && id in Todo(Next(c, s, a).tasks[j])
    ensures (a.Fetch? && id in s.rows) || (!Adds(a) && !a.Crash? && id in Todo(s.tasks[a.i]))
  {
    if a.Fetch? {
      FetchWrites(c, s, a, id);
    } else if Reports(a) {
      ReportWrites(c, s, a, j);
    } else if a.Cancel? {
      CancelWrites(c, s, a, j);
    } else if !Adds(a) {
      MoveWrites(c, s, a, j, id);
    }
  }

  lemma MoveWrites(c: Config, s: State, a: Action, j: int, id: EventId)
    requires Enabled(c, s, a) && Writes(c, s, a, j) && (a.Track? || a.Begin? || a.Pick? || a.Confirm? || a.Fail?)
    requires id in Todo(Next(c, s, a).tasks[j])
    ensures id in Todo(s.tasks[a.i])
  {
  }

  lemma RowsOnlyByAppend(c: Config, s: State, a: Action, id: EventId)
    requires Enabled(c, s, a) && id in Next(c, s, a).rows && id !in s.rows
    ensures a.Append? && a.id == id
  {
  }

  lemma StaysUnheard(c: Config, s: State, a: Action, id: EventId)
    requires Enabled(c, s, a) && Unheard(s, id) && !Republishes(a, id)
    ensures Unheard(Next(c, s, a), id)
  {
    var t := Next(c, s, a);
    if id in t.rows {
      RowsOnlyByAppend(c, s, a, id);
    }
    if !a.Crash? {
      OthersStay(c, s, a);
      forall j | 0 <= j < |t.tasks| ensures !Concerns(t.tasks[j], id) && id !in Todo(t.tasks[j]) {
        if Writes(c, s, a, j) {
          WritesUnheard(c, s, a, j, id);
        }
      }
    }
  }

  lemma WritesUnheard(c: Config, s: State, a: Action, j: int, id: EventId)
    requires Enabled(c, s, a) && Unheard(s, id) && !Republishes(a, id) && Writes(c, s, a, j)
    ensures !Concerns(Next(c, s, a).tasks[j], id) && id !in Todo(Next(c, s, a).tasks[j])
  {
    var u := Next(c, s, a).tasks[j];
    if id in Todo(u) {
      WrittenTodo(c, s, a, j, id);
    }
    if Holds(u, id) {
      WrittenHolder(c, s, a, j, id);
    } else if u.Appended? {
      WrittenPublish(c, s, a, j);
    }
  }

  /** At most one task is concerned with id, and if it holds id then id is marked. */
  ghost predicate Single(s: State, id: EventId) {
    && (forall i, j :: 0 <= i < j < |s.tasks| ==> !(Concerns(s.tasks[i], id) && Concerns(s.tasks[j], id)))
    && !Exposed(s, id)
  }

  /** The relay takes the row of id between the commit of its append and its being marked. */
  predicate Overtakes(s: State, a: Action, id: EventId) {
    RelayStarts(s, a, id) && Appended(id) in s.tasks
  }

  lemma RelayStartsAlone(s: State, a: Action, id: EventId)
    requires Single(s, id) && RelayStarts(s, a, id) && !Overtakes(s, a, id)
    ensures NobodyConcerned(s.tasks, id)
  {
    forall i | 0 <= i < |s.tasks| ensures !Concerns(s.tasks[i], id) {
    }
  }

  /** A task that is concerned with id was so before, or the step lets the relay start on id. */
  lemma WrittenConcern(c: Config, s: State, a: Action, j: int, id: EventId)
    requires Enabled(c, s, a) && Writes(c, s, a, j) && !Republishes(a, id) && Concerns(Next(c, s, a).tasks[j], id)
    ensures !Adds(a) && !a.Crash? && j == a.i && (RelayStarts(s, a, id) || Concerns(s.tasks[a.i], id))
  {
    if Holds(Next(c, s, a).tasks[j], id) {
      WrittenHolder(c, s, a, j, id);
    } else {
      WrittenPublish(c, s, a, j);
    }
  }

  lemma StillOne(c: Config, s: State, a: Action, x: int, y: int, id: EventId)
    requires Enabled(c, s, a) && !a.Crash? && Single(s, id) && !Republishes(a, id) && !Overtakes(s, a, id)
    requires 0 <= x < y < |Next(c, s, a).tasks| && Concerns(Next(c, s, a).tasks[x], id)
    ensures !Concerns(Next(c, s, a).tasks[y], id)
  {
    if Concerns(Next(c, s, a).tasks[y], id) {
      if RelayStarts(s, a, id) {
        RelayStartsAlone(s, a, id);
      }
      OthersStay(c, s, a);
      if Writes(c, s, a, x) {
        WrittenConcern(c, s, a, x, id);
      }
      if Writes(c, s, a, y) {
        WrittenConcern(c, s, a, y, id);
      }
    }
  }

  lemma StaysSingle(c: Config, s: State, a: Action, id: EventId)
    requires Enabled(c, s, a) && Single(s, id) && !Republishes(a, id) && !Overtakes(s, a, id)
    ensures Single(Next(c, s, a), id)
  {
    var next := Next(c, s, a).tasks;
    if !a.Crash? {
      forall x, y | 0 <= x < y < |next| ensures !(Concerns(next[x], id) && Concerns(next[y], id)) {
        if Concerns(next[x], id) {
          StillOne(c, s, a, x, y, id);
        }
      }
      ExposesExactly(c, s, a, id);
    }
  }

  /** A single publish collides with nothing but a relay that overtakes it. */
  lemma SingleCollides(c: Config, s: State, a: Action, id: EventId)
    requires Single(s, id) && !Republishes(a, id)
    ensures Collides(UnderWay, c, s, a, id) <==> Overtakes(s, a, id)
  {
    if Overtakes(s, a, id) {
      var i :| 0 <= i < |s.tasks| && s.tasks[i] == Appended(id);
      assert Publishes(UnderWay, s.tasks[i], id);
    } else if Collides(UnderWay, c, s, a, id) {
      RelayStartsAlone(s, a, id);
    }
  }

  ghost function Overtaking(id: EventId): (State, Action) -> bool {
    (x: State, a: Action) => Overtakes(x, a, id)
  }

  lemma {:induction false} SingleRun(c: Config, s: State, trace: seq<Action>, t: State, id: EventId)
    requires IsRun(c, s, trace, t) && Single(s, id) && forall a :: a in trace ==> !Republishes(a, id)
    ensures Ever(c, s, trace, Collisions(UnderWay, c, id)) <==> Ever(c, s, trace, Overtaking(id))
    decreases |trace|
  {
    if trace != [] {
      assert trace[0] in trace;
      SingleCollides(c, s, trace[0], id);
      if !Overtakes(s, trace[0], id) {
        StaysSingle(c, s, trace[0], id);
        SingleRun(c, Next(c, s, trace[0]), trace[1..], t, id);
      }
    }
  }

  /** Callers publish id at most once in the run, by an append that does not fail. (It may be rejected.) */
  ghost predicate PublishedOnce(trace: seq<Action>, id: EventId) {
    && (forall a :: a in trace && a.AppendFailed? ==> a.id != id)
    && (forall x, y :: 0 <= x < y < |trace| ==> !(Republishes(trace[x], id) && Republishes(trace[y], id)))
  }

  lemma FirstPublish(c: Config, s: State, a: Action, id: EventId)
    requires Enabled(c, s, a) && Unheard(s, id) && a.Append? && a.id == id
    ensures Single(Next(c, s, a), id)
  {
    var next := Next(c, s, a).tasks;
    forall i | 0 <= i < |next| ensures !Holds(next[i], id) && (i < |s.tasks| ==> !Concerns(next[i], id)) {
      if i < |s.tasks| {
        assert next[i] == s.tasks[i];
      }
    }
  }

  lemma UnheardIsQuiet(c: Config, s: State, a: Action, id: EventId)
    requires Enabled(c, s, a) && Unheard(s, id)
    ensures !Collides(UnderWay, c, s, a, id) && !Overtakes(s, a, id)
  {
    forall i | 0 <= i < |s.tasks| ensures !Publishes(UnderWay, s.tasks[i], id) {
      assert !Concerns(s.tasks[i], id);
    }
  }

  lemma {:induction false} UnheardRun(c: Config, s: State, trace: seq<Action>, t: State, id: EventId)
    requires IsRun(c, s, trace, t) && Unheard(s, id) && PublishedOnce(trace, id)
    ensures Ever(c, s, trace, Collisions(UnderWay, c, id)) <==> Ever(c, s, trace, Overtaking(id))
    decreases |trace|
  {
    if trace != [] {
      UnheardIsQuiet(c, s, trace[0], id);
      if Republishes(trace[0], id) {
        assert trace[0] in trace;
        FirstPublish(c, s, trace[0], id);
        SingleRun(c, Next(c, s, trace[0]), trace[1..], t, id);
      } else {
        StaysUnheard(c, s, trace[0], id);
        UnheardRun(c, Next(c, s, trace[0]), trace[1..], t, id);
      }
    }
  }

  lemma {:induction false} UnderWayCoversBackend(c: Config, s: State, trace: seq<Action>, id: EventId)
    requires Throughout(c, s, trace, AloneIn(UnderWay, id))
    ensures Throughout(c, s, trace, AloneIn(InBackend, id))
    decreases |trace|
  {
    forall i, j | 0 <= i < j < |s.tasks|
      ensures !(Publishes(InBackend, s.tasks[i], id) && Publishes(InBackend, s.tasks[j], id))
    {
      assert !(Publishes(UnderWay, s.tasks[i], id) && Publishes(UnderWay, s.tasks[j], id));
    }
    if trace != [] && Enabled(c, s, trace[0]) {
      UnderWayCoversBackend(c, Next(c, s, trace[0]), trace[1..], id);
    }
  }

  /** If callers publish an id once, its publishes never overlap, over any crashes and retries, if and only
    * if the relay never takes its row between the commit of the append and the moment it is marked. Then
    * no two are ever in the backend at once. */
  lemma OnceNeverOverlapsIff(c: Config, trace: seq<Action>, t: State, id: EventId)
    requires IsRun(c, Initial(), trace, t) && PublishedOnce(trace, id)
    ensures Throughout(c, Initial(), trace, AloneIn(UnderWay, id)) <==> !Ever(c, Initial(), trace, Overtaking(id))
    ensures !Ever(c, Initial(), trace, Overtaking(id)) ==> Throughout(c, Initial(), trace, AloneIn(InBackend, id))
  {
    NoOverlapIff(UnderWay, c, trace, t, id);
    UnheardRun(c, Initial(), trace, t, id);
    if !Ever(c, Initial(), trace, Overtaking(id)) {
      UnderWayCoversBackend(c, Initial(), trace, id);
    }
  }
}
