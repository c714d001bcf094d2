/** The queues, permits and workers of BusCore (src/navigator_eventbus/core.py), as a step system.
  *
  * Each action is one stretch of code that runs without awaiting; any interleaving of actions is a
  * run. History fields (what was put and removed, and the counts of drops, stop releases, spurious
  * wake-ups and exits) record what happened and never influence a step.
  */
module Dispatcher {
  import opened Collections
  import opened Semaphore
  import Text

  /** Queue 0 is the highest priority (CRITICAL, HIGH, NORMAL, LOW). */
  const LANES: nat := 4
  const HIGH: nat := 1

  type LaneIndex = i: nat | i < LANES

  datatype Envelope = Envelope(eventId: EventId, topic: string, lane: LaneIndex)

  datatype Policy = Block | DropOldest | Reject

  datatype Config = Config(workers: nat, queueSize: int, backpressure: map<string, Policy>, fallback: Policy)

  function PolicyFor(c: Config, topic: string): Policy {
    if topic in c.backpressure then c.backpressure[topic]
    else if Text.BeforeDot(topic) in c.backpressure then c.backpressure[Text.BeforeDot(topic)]
    else c.fallback
  }

  datatype Removal = Popped(envelope: Envelope) | Dropped(envelope: Envelope)

  datatype Lane = Lane(items: seq<Envelope>, put: seq<Envelope>, removed: seq<Removal>)

  datatype Phase = Ready | Waiting | Dispatching(envelope: Envelope) | Exited | Cancelled

  type Lanes = ls: seq<Lane> | |ls| == LANES witness seq(LANES, _ => Lane([], [], []))

  /** What became of publishes, and of meta events, besides what the queues record: those let in, the meta
    * events put, those the outbox rejected, those cancelled while blocked, those refused with an error. */
  datatype Fates = Fates(entered: multiset<Envelope>, metas: multiset<Envelope>, abandoned: multiset<Envelope>,
                         cancelled: multiset<Envelope>, refused: multiset<Envelope>)

  /** admitted: publishes that were let in and are still waiting for the outbox to take the envelope.
    * blocked: publishes suspended in queue.put. */
  datatype State = State(lanes: Lanes, sem: Sem, workers: seq<Phase>, admitted: seq<Envelope>, blocked: seq<Envelope>,
                         started: bool, closing: bool, stopping: bool,
                         drops: nat, stops: nat, spurious: nat, exits: nat, fates: Fates)

  // ---------------------------------------------------------------------
  // Queues
  // ---------------------------------------------------------------------

  predicate Full(c: Config, l: Lane) {
    c.queueSize > 0 && |l.items| >= c.queueSize
  }

  function PutLane(l: Lane, e: Envelope): Lane {
    l.(items := l.items + [e], put := l.put + [e])
  }

  function PopLane(l: Lane): Lane
    requires l.items != []
  {
    l.(items := l.items[1..], removed := l.removed + [Popped(l.items[0])])
  }

  function DropLane(l: Lane): Lane
    requires l.items != []
  {
    l.(items := l.items[1..], removed := l.removed + [Dropped(l.items[0])])
  }

  function Queued(lanes: seq<Lane>): nat {
    if lanes == [] then 0 else |lanes[0].items| + Queued(lanes[1..])
  }

  lemma {:induction false} QueuedUpdate(lanes: seq<Lane>, i: nat, l: Lane)
    requires i < |lanes|
    ensures Queued(lanes[i := l]) == Queued(lanes) - |lanes[i].items| + |l.items|
    ensures Queued(lanes) >= |lanes[i].items|
  {
    if i > 0 {
      assert lanes[i := l][1..] == lanes[1..][i - 1 := l];
      QueuedUpdate(lanes[1..], i - 1, l);
    } else {
      assert lanes[i := l][1..] == lanes[1..];
    }
  }

  /** The first non-empty queue in priority order, or the number of queues if all are empty. */
  function FirstNonEmpty(lanes: seq<Lane>): (k: nat)
    ensures k <= |lanes| && (k < |lanes| ==> lanes[k].items != [])
    ensures forall i :: 0 <= i < k ==> lanes[i].items == []
  {
    if lanes == [] || lanes[0].items != [] then 0 else 1 + FirstNonEmpty(lanes[1..])
  }

  lemma {:induction false} QueuedPositive(lanes: seq<Lane>)
    ensures Queued(lanes) > 0 <==> FirstNonEmpty(lanes) < |lanes|
  {
    if lanes != [] {
      QueuedPositive(lanes[1..]);
    }
  }

  // ---------------------------------------------------------------------
  // Stretches of code between awaits
  // ---------------------------------------------------------------------

  /** put_nowait and release. */
  function Put(s: State, e: Envelope): State
  {
    s.(lanes := s.lanes[e.lane := PutLane(s.lanes[e.lane], e)], sem := Release(s.sem))
  }

  /** Best-effort meta event: dropped when its queue is full. */
  function PublishMeta(c: Config, s: State, meta: Envelope): State
  {
    if Full(c, s.lanes[meta.lane]) then s else Put(CountMeta(s, meta), meta)
  }

  function CountMeta(s: State, meta: Envelope): State {
    s.(fates := s.fates.(metas := s.fates.metas + multiset{meta}))
  }

  /** The publisher gets a BackpressureError. */
  function Refuse(s: State, e: Envelope): State {
    s.(fates := s.fates.(refused := s.fates.refused + multiset{e}))
  }

  function CountEntered(s: State, e: Envelope): State {
    s.(fates := s.fates.(entered := s.fates.entered + multiset{e}))
  }

  /** get_nowait under drop_oldest. */
  function DropHead(s: State, lane: LaneIndex): State
    requires s.lanes[lane].items != []
  {
    s.(lanes := s.lanes[lane := DropLane(s.lanes[lane])], drops := s.drops + 1)
  }

  datatype EnqueueResult = Enqueued | Rejected | Suspended

  /** _enqueue_local up to its first await. inMeta is the recursion guard of the publisher's context. */
  function EnqueueLocal(c: Config, s: State, e: Envelope, inMeta: bool, meta: Envelope): (State, EnqueueResult)
  {
    if !Full(c, s.lanes[e.lane]) then (Put(s, e), Enqueued)
    else ApplyPolicy(if inMeta then s else PublishMeta(c, s, meta), e, PolicyFor(c, e.topic))
  }

  /** What the policy makes of an arrival that met its queue full. */
  function ApplyPolicy(t: State, e: Envelope, policy: Policy): (State, EnqueueResult) {
    match policy
    case Reject => (Refuse(t, e), Rejected)
    case DropOldest =>
      if t.lanes[e.lane].items == [] then (Put(t, e), Enqueued)
      else (Put(DropHead(t, e.lane), e), Enqueued)
    case Block => (t.(blocked := t.blocked + [e]), Suspended)
  }

  /** What a worker does on getting a permit: pop the highest non-empty queue, else exit or re-wait. */
  function UsePermit(s: State, w: nat): State
    requires w < |s.workers|
  {
    var k := FirstNonEmpty(s.lanes);
    if k < |s.lanes| then
      s.(lanes := s.lanes[k := PopLane(s.lanes[k])], workers := s.workers[w := Dispatching(s.lanes[k].items[0])])
    else if s.stopping then s.(workers := s.workers[w := Exited], exits := s.exits + 1)
    else s.(workers := s.workers[w := Ready], spurious := s.spurious + 1)
  }

  function ReleaseMany(sem: Sem, n: nat): Sem {
    if n == 0 then sem else Release(ReleaseMany(sem, n - 1))
  }

  predicate Live(p: Phase) {
    !p.Exited? && !p.Cancelled?
  }

  function CountLive(ws: seq<Phase>): nat {
    if ws == [] then 0 else (if Live(ws[0]) then 1 else 0) + CountLive(ws[1..])
  }

  datatype Action =
    | Admit(envelope: Envelope)
    | Enqueue(index: nat, inMeta: bool, backpressureMeta: Envelope)
    | Abandon(index: nat)
    | ResumePut(index: nat)
    | CancelPut(index: nat)
    | Meta(meta: Envelope)
    | Acquire(worker: nat)
    | Wake(worker: nat)
    | Handled(worker: nat)
    | CancelWorker(worker: nat)
    | Start
    | BeginClose
    | Stop
    | EndClose

  predicate Enabled(c: Config, s: State, a: Action) {
    match a
    case Admit(_) => !s.closing
    case Enqueue(i, _, m) => i < |s.admitted| && m.lane == HIGH
    case Abandon(i) => i < |s.admitted|
    case ResumePut(i) => i < |s.blocked| && !Full(c, s.lanes[s.blocked[i].lane])
    case CancelPut(i) => i < |s.blocked|
    case Meta(m) => m.lane == HIGH
    case Acquire(w) => w < |s.workers| && s.workers[w].Ready?
    case Wake(w) => w < |s.workers| && s.workers[w].Waiting? && HoldsGrant(s.sem.waiters, w)
    case Handled(w) => w < |s.workers| && s.workers[w].Dispatching?
    case CancelWorker(w) => w < |s.workers| && Live(s.workers[w])
    case Start => !s.started
    case BeginClose => !s.closing
    case Stop => s.closing && !s.stopping
    case EndClose => s.stopping && CountLive(s.workers) == 0
  }

  /** An admitted publish goes on to the queues, or ends because the outbox rejected it. */
  function Leave(s: State, i: nat): State
    requires i < |s.admitted|
  {
    s.(admitted := s.admitted[..i] + s.admitted[i + 1..])
  }

  function Next(c: Config, s: State, a: Action): State
    requires Enabled(c, s, a)
  {
    match a
    case Admit(e) => CountEntered(s, e).(admitted := s.admitted + [e])
    case Enqueue(i, inMeta, m) => EnqueueLocal(c, Leave(s, i), s.admitted[i], inMeta, m).0
    case Abandon(i) =>
      Leave(s, i).(fates := s.fates.(abandoned := s.fates.abandoned + multiset{s.admitted[i]}))
    case ResumePut(i) => Put(s.(blocked := s.blocked[..i] + s.blocked[i + 1..]), s.blocked[i])
    case CancelPut(i) =>
      s.(blocked := s.blocked[..i] + s.blocked[i + 1..],
         fates := s.fates.(cancelled := s.fates.cancelled + multiset{s.blocked[i]}))
    case Meta(m) => PublishMeta(c, s, m)
    case Acquire(w) =>
      if CanTake(s.sem) then UsePermit(s.(sem := Take(s.sem)), w)
      else s.(sem := Enter(s.sem, w), workers := s.workers[w := Waiting])
    case Wake(w) => UsePermit(s.(sem := Resume(s.sem, w)), w)
    case Handled(w) => s.(workers := s.workers[w := Ready])
    case CancelWorker(w) =>
      s.(sem := if s.workers[w].Waiting? then Cancel(s.sem, w) else s.sem, workers := s.workers[w := Cancelled])
    case Start =>
      s.(started := true, closing := false, stopping := false, workers := s.workers + seq(c.workers, _ => Ready))
    case BeginClose => s.(closing := true)
    case Stop => s.(stopping := true, sem := ReleaseMany(s.sem, c.workers), stops := s.stops + c.workers)
    case EndClose => s.(started := false)
  }

  // ---------------------------------------------------------------------
  // Runs and what every run keeps
  // ---------------------------------------------------------------------

  function Initial(): State {
    State(seq(LANES, _ => Lane([], [], [])), Sem(0, []), [], [], [], false, false, false, 0, 0, 0, 0,
          Fates(multiset{}, multiset{}, multiset{}, multiset{}, multiset{}))
  }

  function Envelopes(rs: seq<Removal>): seq<Envelope> {
    if rs == [] then [] else Envelopes(rs[..|rs| - 1]) + [rs[|rs| - 1].envelope]
  }

  /** First in, first out, with nothing lost: what was put is what was removed, in order, followed
    * by what is queued; and a bounded queue keeps its bound. */
  ghost predicate LaneOk(c: Config, l: Lane) {
    l.put == Envelopes(l.removed) + l.items && (c.queueSize > 0 ==> |l.items| <= c.queueSize)
  }

  function DroppedIn(rs: seq<Removal>): nat {
    if rs == [] then 0 else DroppedIn(rs[..|rs| - 1]) + if rs[|rs| - 1].Dropped? then 1 else 0
  }

  function TotalDropped(lanes: seq<Lane>): nat {
    if lanes == [] then 0 else DroppedIn(lanes[0].removed) + TotalDropped(lanes[1..])
  }

  ghost predicate LanesOk(c: Config, s: State) {
    && s.drops == TotalDropped(s.lanes)
    && (forall i :: 0 <= i < LANES ==> LaneOk(c, s.lanes[i]))
  }

  /** Exactly the waiting workers are in the semaphore's queue. */
  ghost predicate WaitersOk(s: State) {
    Valid(s.sem) && forall w: nat :: Waits(s.sem.waiters, w) <==> w < |s.workers| && s.workers[w].Waiting?
  }

  /** The exact accounting of permits. */
  ghost predicate Accounted(s: State) {
    && Permits(s.sem) + s.spurious + s.exits == Queued(s.lanes) + s.drops + s.stops
    && Permits(s.sem) >= Queued(s.lanes)
  }

  /** While stopping there is a permit for every live worker besides those for queued envelopes. */
  ghost predicate StopOk(c: Config, s: State) {
    && (s.stopping ==> s.closing)
    && CountLive(s.workers) <= c.workers
    && (!s.started ==> CountLive(s.workers) == 0)
    && (s.stopping ==> Permits(s.sem) >= Queued(s.lanes) + CountLive(s.workers))
  }

  ghost predicate Inv(c: Config, s: State) {
    LanesOk(c, s) && WaitersOk(s) && Accounted(s) && StopOk(c, s)
  }

  lemma {:induction false} CountLiveUpdate(ws: seq<Phase>, w: nat, p: Phase)
    requires w < |ws|
    ensures CountLive(ws[w := p]) == CountLive(ws) - (if Live(ws[w]) then 1 else 0) + (if Live(p) then 1 else 0)
    ensures Live(ws[w]) ==> CountLive(ws) > 0
  {
    if w > 0 {
      assert ws[w := p][1..] == ws[1..][w - 1 := p];
      CountLiveUpdate(ws[1..], w - 1, p);
    } else {
      assert ws[w := p][1..] == ws[1..];
    }
  }

  lemma {:induction false} CountLiveAppendReady(ws: seq<Phase>, n: nat)
    ensures CountLive(ws + seq(n, _ => Ready)) == CountLive(ws) + n
  {
    if ws != [] {
      assert (ws + seq(n, _ => Ready))[1..] == ws[1..] + seq(n, _ => Ready);
      CountLiveAppendReady(ws[1..], n);
    } else if n > 0 {
      assert seq(n, _ => Ready)[1..] == seq(n - 1, _ => Ready);
      assert ws + seq(n, _ => Ready) == seq(n, _ => Ready);
      assert [] + seq(n - 1, _ => Ready) == seq(n - 1, _ => Ready);
      CountLiveAppendReady([], n - 1);
    }
  }

  lemma {:induction false} TotalDroppedUpdate(lanes: seq<Lane>, i: nat, l: Lane)
    requires i < |lanes|
    ensures TotalDropped(lanes[i := l]) == TotalDropped(lanes) - DroppedIn(lanes[i].removed) + DroppedIn(l.removed)
  {
    if i > 0 {
      assert lanes[i := l][1..] == lanes[1..][i - 1 := l];
      TotalDroppedUpdate(lanes[1..], i - 1, l);
    } else {
      assert lanes[i := l][1..] == lanes[1..];
    }
  }

  lemma EnvelopesAppend(rs: seq<Removal>, r: Removal)
    ensures Envelopes(rs + [r]) == Envelopes(rs) + [r.envelope]
    ensures DroppedIn(rs + [r]) == DroppedIn(rs) + if r.Dropped? then 1 else 0
  {
    assert (rs + [r])[..|rs|] == rs;
  }

  lemma RemoveHeadKeeps(c: Config, l: Lane)
    requires LaneOk(c, l) && l.items != []
    ensures LaneOk(c, PopLane(l)) && LaneOk(c, DropLane(l))
    ensures DroppedIn(PopLane(l).removed) == DroppedIn(l.removed)
    ensures DroppedIn(DropLane(l).removed) == DroppedIn(l.removed) + 1
  {
    EnvelopesAppend(l.removed, Popped(l.items[0]));
    EnvelopesAppend(l.removed, Dropped(l.items[0]));
    assert l.items == [l.items[0]] + l.items[1..];
  }

  lemma PutKeeps(c: Config, s: State, e: Envelope)
    requires Inv(c, s) && !Full(c, s.lanes[e.lane])
    ensures Inv(c, Put(s, e))
  {
    ReleaseAddsOne(s.sem);
    QueuedUpdate(s.lanes, e.lane, PutLane(s.lanes[e.lane], e));
    PutKeepsLanes(c, s, e);
  }

  lemma PutKeepsLanes(c: Config, s: State, e: Envelope)
    requires LanesOk(c, s) && !Full(c, s.lanes[e.lane])
    ensures LanesOk(c, Put(s, e))
  {
    TotalDroppedUpdate(s.lanes, e.lane, PutLane(s.lanes[e.lane], e));
    var l := s.lanes[e.lane];
    assert LaneOk(c, l);
    assert Envelopes(l.removed) + (l.items + [e]) == Envelopes(l.removed) + l.items + [e];
  }

  /** A drop leaves its permit behind: one fewer queued, one more surplus. */
  lemma DropKeeps(c: Config, s: State, lane: LaneIndex)
    requires Inv(c, s) && s.lanes[lane].items != []
    ensures Inv(c, DropHead(s, lane)) && !Full(c, DropHead(s, lane).lanes[lane])
  {
    RemoveHeadKeeps(c, s.lanes[lane]);
    QueuedUpdate(s.lanes, lane, DropLane(s.lanes[lane]));
    TotalDroppedUpdate(s.lanes, lane, DropLane(s.lanes[lane]));
  }

  lemma EnqueueKeeps(c: Config, s: State, e: Envelope, inMeta: bool, meta: Envelope)
    requires Inv(c, s)
    ensures Inv(c, EnqueueLocal(c, s, e, inMeta, meta).0)
  {
    if !Full(c, s.lanes[e.lane]) {
      PutKeeps(c, s, e);
    } else {
      var t := if inMeta then s else PublishMeta(c, s, meta);
      MetaKeeps(c, s, meta);
      match PolicyFor(c, e.topic)
      case Reject =>
        assert Inv(c, t);
      case Block =>
        assert Inv(c, t);
      case DropOldest =>
        DropKeeps(c, t, e.lane);
        PutKeeps(c, DropHead(t, e.lane), e);
    }
  }

  /** A meta event never shortens a queue, and a full queue never takes one. */
  lemma MetaKeeps(c: Config, s: State, meta: Envelope)
    requires Inv(c, s)
    ensures Inv(c, PublishMeta(c, s, meta))
    ensures forall i :: 0 <= i < LANES && Full(c, s.lanes[i]) ==>
              PublishMeta(c, s, meta).lanes[i] == s.lanes[i] && s.lanes[i].items != []
  {
    if !Full(c, s.lanes[meta.lane]) {
      assert Inv(c, CountMeta(s, meta));
      PutKeeps(c, CountMeta(s, meta), meta);
    }
  }

  /** Under drop_oldest a full queue loses its head, whatever the policy of the head's own topic, even
    * when the back-pressure event goes to the same queue first. */
  lemma DropOldestEvictsHead(c: Config, s: State, e: Envelope, inMeta: bool, meta: Envelope)
    requires Inv(c, s) && Full(c, s.lanes[e.lane]) && PolicyFor(c, e.topic) == DropOldest
    ensures s.lanes[e.lane].items != []
    ensures EnqueueLocal(c, s, e, inMeta, meta).0.lanes[e.lane] == PutLane(DropLane(s.lanes[e.lane]), e)
  {
    MetaKeeps(c, s, meta);
  }

  /** Using a permit: taken out of the semaphore, it is matched by a pop, a spurious wake-up or an exit. */
  lemma UsePermitKeeps(c: Config, s: State, sem: Sem, w: nat)
    requires Inv(c, s) && w < |s.workers| && Live(s.workers[w])
    requires Valid(sem) && Permits(sem) == Permits(s.sem) - 1
    requires forall v: nat :: Waits(sem.waiters, v) <==> v != w && v < |s.workers| && s.workers[v].Waiting?
    ensures Inv(c, UsePermit(s.(sem := sem), w))
  {
    QueuedPositive(s.lanes);
    var k := FirstNonEmpty(s.lanes);
    if k < |s.lanes| {
      CountLiveUpdate(s.workers, w, Dispatching(s.lanes[k].items[0]));
      PopKeepsLanes(c, s, k);
    } else if s.stopping {
      CountLiveUpdate(s.workers, w, Exited);
    } else {
      CountLiveUpdate(s.workers, w, Ready);
    }
  }

  lemma PopKeepsLanes(c: Config, s: State, k: LaneIndex)
    requires LanesOk(c, s) && s.lanes[k].items != []
    ensures LanesOk(c, s.(lanes := s.lanes[k := PopLane(s.lanes[k])]))
    ensures Queued(s.lanes[k := PopLane(s.lanes[k])]) == Queued(s.lanes) - 1
  {
    RemoveHeadKeeps(c, s.lanes[k]);
    QueuedUpdate(s.lanes, k, PopLane(s.lanes[k]));
    TotalDroppedUpdate(s.lanes, k, PopLane(s.lanes[k]));
  }

  lemma {:induction false} ReleaseManyAdds(sem: Sem, n: nat)
    requires Valid(sem)
    ensures Permits(ReleaseMany(sem, n)) == Permits(sem) + n && Valid(ReleaseMany(sem, n))
    ensures forall w :: Waits(ReleaseMany(sem, n).waiters, w) <==> Waits(sem.waiters, w)
  {
    if n > 0 {
      ReleaseManyAdds(sem, n - 1);
      ReleaseAddsOne(ReleaseMany(sem, n - 1));
    }
  }

  lemma WorkerStepKeeps(c: Config, s: State, a: Action)
    requires Inv(c, s) && Enabled(c, s, a)
    requires a.Acquire? || a.Wake? || a.Handled? || a.CancelWorker?
    ensures Inv(c, Next(c, s, a))
  {
    match a {
      case Acquire(w) =>
        if CanTake(s.sem) {
          UsePermitKeeps(c, s, Take(s.sem), w);
        } else {
          EnterKeeps(s.sem, w);
          CountLiveUpdate(s.workers, w, Waiting);
        }
      case Wake(w) =>
        ResumeTakesOne(s.sem, w);
        UsePermitKeeps(c, s, Resume(s.sem, w), w);
      case Handled(w) =>
        CountLiveUpdate(s.workers, w, Ready);
      case CancelWorker(w) =>
        CancelWorkerKeeps(c, s, w);
    }
  }

  lemma CancelWorkerKeeps(c: Config, s: State, w: nat)
    requires Inv(c, s) && Enabled(c, s, CancelWorker(w))
    ensures Inv(c, Next(c, s, CancelWorker(w)))
  {
    CountLiveUpdate(s.workers, w, Cancelled);
    if s.workers[w].Waiting? {
      CancelKeeps(s.sem, w);
    }
  }

  lemma PublisherStepKeeps(c: Config, s: State, a: Action)
    requires Inv(c, s) && Enabled(c, s, a)
    requires a.Admit? || a.Enqueue? || a.Abandon? || a.ResumePut? || a.CancelPut? || a.Meta?
    ensures Inv(c, Next(c, s, a))
  {
    match a {
      case Admit(_) =>
      case Enqueue(i, inMeta, m) =>
        assert Inv(c, Leave(s, i));
        EnqueueKeeps(c, Leave(s, i), s.admitted[i], inMeta, m);
      case Abandon(_) =>
      case ResumePut(i) =>
        var t := s.(blocked := s.blocked[..i] + s.blocked[i + 1..]);
        assert Inv(c, t);
        PutKeeps(c, t, s.blocked[i]);
      case CancelPut(i) =>
      case Meta(m) =>
        MetaKeeps(c, s, m);
    }
  }

  lemma StepKeepsInv(c: Config, s: State, a: Action)
    requires Inv(c, s) && Enabled(c, s, a)
    ensures Inv(c, Next(c, s, a))
  {
    match a {
      case Start =>
        CountLiveAppendReady(s.workers, c.workers);
      case BeginClose =>
      case Stop =>
        ReleaseManyAdds(s.sem, c.workers);
      case EndClose =>
      case Admit(_) | Enqueue(_, _, _) | Abandon(_) | ResumePut(_) | CancelPut(_) | Meta(_) =>
        PublisherStepKeeps(c, s, a);
      case _ =>
        WorkerStepKeeps(c, s, a);
    }
  }

  ghost predicate IsRun(c: Config, s: State, trace: seq<Action>, t: State)
    decreases |trace|
  {
    if trace == [] then s == t
    else Enabled(c, s, trace[0]) && IsRun(c, Next(c, s, trace[0]), trace[1..], t)
  }

  lemma {:induction false} RunKeepsInv(c: Config, s: State, trace: seq<Action>, t: State)
    requires Inv(c, s) && IsRun(c, s, trace, t)
    ensures Inv(c, t)
    decreases |trace|
  {
    if trace != [] {
      StepKeepsInv(c, s, trace[0]);
      RunKeepsInv(c, Next(c, s, trace[0]), trace[1..], t);
    }
  }

  lemma InitialInv(c: Config)
    ensures Inv(c, Initial())
  {
    assert Queued(Initial().lanes) == 0 && TotalDropped(Initial().lanes) == 0 by {
      var ls := Initial().lanes;
      assert ls == [ls[0], ls[1], ls[2], ls[3]];
    }
  }

  // ---------------------------------------------------------------------
  // The claims
  // ---------------------------------------------------------------------

  /** In every run: permits (value plus grants) equal queued envelopes plus drops plus stop releases
    * minus spurious wake-ups minus worker exits, and never fall below the queued envelopes. */
  lemma ExactAccounting(c: Config, trace: seq<Action>, s: State)
    requires IsRun(c, Initial(), trace, s)
    ensures s.sem.value + Granted(s.sem.waiters) == Queued(s.lanes) + s.drops + s.stops - s.spurious - s.exits
    ensures s.sem.value + Granted(s.sem.waiters) >= Queued(s.lanes)
    ensures s.drops == TotalDropped(s.lanes)
  {
    InitialInv(c);
    RunKeepsInv(c, Initial(), trace, s);
  }

  // ---------------------------------------------------------------------
  // Topics and workers
  // ---------------------------------------------------------------------

  /** The policy of a topic that has none of its own is that of its class, else the default one. */
  lemma PolicyByClass(c: Config, cls: string, rest: string)
    requires '.' !in cls
    ensures var topic := cls + "." + rest;
            PolicyFor(c, topic) == if topic in c.backpressure then c.backpressure[topic]
                                   else if cls in c.backpressure then c.backpressure[cls]
                                   else c.fallback
  {
    Text.PartitionAt(cls, '.', rest);
    assert Text.BeforeDot(cls + "." + rest) == cls;
  }

  /** Starting brings up exactly the configured number of workers, all about to acquire. */
  lemma StartBringsWorkers(c: Config, trace: seq<Action>, s: State)
    requires IsRun(c, Initial(), trace, s) && Enabled(c, s, Start)
    ensures var t := Next(c, s, Start);
            && CountLive(s.workers) == 0 && CountLive(t.workers) == c.workers
            && |t.workers| == |s.workers| + c.workers
            && forall w :: |s.workers| <= w < |t.workers| ==> t.workers[w].Ready?
  {
    InitialInv(c);
    RunKeepsInv(c, Initial(), trace, s);
    CountLiveAppendReady(s.workers, c.workers);
  }

  /** The stop releases exactly one permit for each configured worker. */
  lemma StopReleasesOneEach(c: Config, s: State)
    requires Inv(c, s) && Enabled(c, s, Stop)
    ensures Permits(Next(c, s, Stop).sem) == Permits(s.sem) + c.workers
    ensures Next(c, s, Stop).lanes == s.lanes && Next(c, s, Stop).workers == s.workers
  {
    ReleaseManyAdds(s.sem, c.workers);
  }

  /** A worker that gets a permit with nothing queued exits exactly if the bus is stopping. */
  lemma PermitWithoutWork(c: Config, s: State, w: nat, a: Action)
    requires Queued(s.lanes) == 0 && GetsPermit(s, w, a)
    ensures Enabled(c, s, a) && Next(c, s, a).lanes == s.lanes
    ensures Next(c, s, a).workers[w] == if s.stopping then Exited else Ready
  {
    QueuedPositive(s.lanes);
  }

  // ---------------------------------------------------------------------
  // When an envelope is dropped
  // ---------------------------------------------------------------------

  /** An arrival whose own topic has the drop_oldest policy meets the queue full. */
  predicate Overflows(c: Config, s: State, a: Action, k: LaneIndex) {
    && a.Enqueue? && a.index < |s.admitted| && s.admitted[a.index].lane == k
    && Full(c, s.lanes[k]) && PolicyFor(c, s.admitted[a.index].topic) == DropOldest
  }

  lemma LaneAfterPut(c: Config, s: State, e: Envelope, k: LaneIndex)
    ensures DroppedIn(Put(s, e).lanes[k].removed) == DroppedIn(s.lanes[k].removed)
    ensures DroppedIn(PublishMeta(c, s, e).lanes[k].removed) == DroppedIn(s.lanes[k].removed)
  {
  }

  lemma LaneAfterDrop(s: State, lane: LaneIndex, k: LaneIndex)
    requires s.lanes[lane].items != []
    ensures DroppedIn(DropHead(s, lane).lanes[k].removed) == DroppedIn(s.lanes[k].removed) + if k == lane then 1 else 0
  {
    EnvelopesAppend(s.lanes[lane].removed, Dropped(s.lanes[lane].items[0]));
  }

  lemma LaneAfterEnqueue(c: Config, s: State, e: Envelope, inMeta: bool, meta: Envelope, k: LaneIndex)
    requires Inv(c, s)
    ensures DroppedIn(EnqueueLocal(c, s, e, inMeta, meta).0.lanes[k].removed) == DroppedIn(s.lanes[k].removed) +
            if e.lane == k && Full(c, s.lanes[k]) && PolicyFor(c, e.topic) == DropOldest then 1 else 0
  {
    if Full(c, s.lanes[e.lane]) {
      var t := if inMeta then s else PublishMeta(c, s, meta);
      MetaKeeps(c, s, meta);
      LaneAfterPut(c, s, meta, k);
      LaneAfterPolicy(c, t, e, PolicyFor(c, e.topic), k);
    } else {
      LaneAfterPut(c, s, e, k);
    }
  }

  lemma LaneAfterPolicy(c: Config, t: State, e: Envelope, policy: Policy, k: LaneIndex)
    requires t.lanes[e.lane].items != []
    ensures DroppedIn(ApplyPolicy(t, e, policy).0.lanes[k].removed) ==
            DroppedIn(t.lanes[k].removed) + if e.lane == k && policy == DropOldest then 1 else 0
  {
    if policy == DropOldest {
      LaneAfterDrop(t, e.lane, k);
      LaneAfterPut(c, DropHead(t, e.lane), e, k);
    }
  }

  lemma LaneAfterPermit(s: State, w: nat, k: LaneIndex)
    requires w < |s.workers|
    ensures DroppedIn(UsePermit(s, w).lanes[k].removed) == DroppedIn(s.lanes[k].removed)
  {
    var f := FirstNonEmpty(s.lanes);
    if f < |s.lanes| {
      EnvelopesAppend(s.lanes[f].removed, Popped(s.lanes[f].items[0]));
    }
  }

  /** A step drops an envelope of queue k if and only if it is such an arrival, and then it drops one. */
  lemma DropsExactlyOnOverflow(c: Config, s: State, a: Action, k: LaneIndex)
    requires Inv(c, s) && Enabled(c, s, a)
    ensures DroppedIn(Next(c, s, a).lanes[k].removed) == DroppedIn(s.lanes[k].removed) +
            if Overflows(c, s, a, k) then 1 else 0
  {
    match a {
      case Enqueue(i, inMeta, m) =>
        LaneAfterEnqueue(c, Leave(s, i), s.admitted[i], inMeta, m, k);
      case ResumePut(i) =>
        LaneAfterPut(c, s.(blocked := s.blocked[..i] + s.blocked[i + 1..]), s.blocked[i], k);
      case Meta(m) =>
        LaneAfterPut(c, s, m, k);
      case Acquire(w) =>
        if CanTake(s.sem) {
          LaneAfterPermit(s.(sem := Take(s.sem)), w, k);
        }
      case Wake(w) =>
        LaneAfterPermit(s.(sem := Resume(s.sem, w)), w, k);
      case _ =>
    }
  }

  /** Somewhere along the run such an arrival happens. */
  predicate EverOverflows(c: Config, s: State, trace: seq<Action>, k: LaneIndex)
    decreases |trace|
  {
    trace != [] && Enabled(c, s, trace[0]) &&
    (Overflows(c, s, trace[0], k) || EverOverflows(c, Next(c, s, trace[0]), trace[1..], k))
  }

  /** A run drops an envelope of queue k if and only if an arrival with the drop_oldest policy meets the
    * queue full. */
  lemma {:induction false} DroppedIffOverflowed(c: Config, s: State, trace: seq<Action>, t: State, k: LaneIndex)
    requires Inv(c, s) && IsRun(c, s, trace, t)
    ensures DroppedIn(s.lanes[k].removed) <= DroppedIn(t.lanes[k].removed)
    ensures DroppedIn(s.lanes[k].removed) < DroppedIn(t.lanes[k].removed) <==> EverOverflows(c, s, trace, k)
    decreases |trace|
  {
    if trace != [] {
      DropsExactlyOnOverflow(c, s, trace[0], k);
      StepKeepsInv(c, s, trace[0]);
      DroppedIffOverflowed(c, Next(c, s, trace[0]), trace[1..], t, k);
    }
  }

  lemma {:induction false} RunExtends(c: Config, s: State, trace: seq<Action>, t: State, a: Action)
    requires IsRun(c, s, trace, t) && Enabled(c, t, a)
    ensures IsRun(c, s, trace + [a], Next(c, t, a))
    decreases |trace|
  {
    if trace == [] {
      assert IsRun(c, Next(c, t, a), [], Next(c, t, a));
    } else {
      RunExtends(c, Next(c, s, trace[0]), trace[1..], t, a);
      assert (trace + [a])[1..] == trace[1..] + [a];
    }
  }

  /** A publish that goes straight through. */
  lemma PublishAtOnce(c: Config, trace: seq<Action>, s: State, e: Envelope) returns (longer: seq<Action>, t: State)
    requires IsRun(c, Initial(), trace, s) && s.admitted == [] && !s.closing
    ensures IsRun(c, Initial(), longer, t) && t.admitted == [] && !t.closing
    ensures t == EnqueueLocal(c, CountEntered(s, e), e, true, Envelope(e.eventId, e.topic, HIGH)).0
  {
    var meta := Envelope(e.eventId, e.topic, HIGH);
    RunExtends(c, Initial(), trace, s, Admit(e));
    var admitted := CountEntered(s, e).(admitted := [e]);
    assert Next(c, s, Admit(e)) == admitted;
    RunExtends(c, Initial(), trace + [Admit(e)], admitted, Enqueue(0, true, meta));
    assert Leave(admitted, 0) == CountEntered(s, e);
    longer, t := trace + [Admit(e)] + [Enqueue(0, true, meta)], EnqueueLocal(c, CountEntered(s, e), e, true, meta).0;
  }

  lemma {:induction false} FillLane(c: Config, h: Envelope, n: nat) returns (trace: seq<Action>, s: State)
    requires n <= c.queueSize
    ensures IsRun(c, Initial(), trace, s) && s.admitted == [] && !s.closing
    ensures |s.lanes[h.lane].items| == n && s.lanes[h.lane].removed == []
    ensures forall i :: 0 <= i < n ==> s.lanes[h.lane].items[i] == h
  {
    if n == 0 {
      trace, s := [], Initial();
    } else {
      var shorter, before := FillLane(c, h, n - 1);
      trace, s := PublishAtOnce(c, shorter, before, h);
    }
  }

  /** Any envelope h, whatever the policy of its topic, can be dropped by an arrival e in its queue whose
    * topic has the drop_oldest policy. */
  lemma AnyTopicCanBeDropped(c: Config, h: Envelope, e: Envelope) returns (trace: seq<Action>, s: State)
    requires c.queueSize > 0 && h.lane == e.lane && PolicyFor(c, e.topic) == DropOldest
    ensures IsRun(c, Initial(), trace, s) && s.lanes[h.lane].removed == [Dropped(h)]
  {
    var filling, full := FillLane(c, h, c.queueSize);
    InitialInv(c);
    RunKeepsInv(c, Initial(), filling, full);
    assert Inv(c, CountEntered(full, e));
    DropOldestEvictsHead(c, CountEntered(full, e), e, true, Envelope(e.eventId, e.topic, HIGH));
    trace, s := PublishAtOnce(c, filling, full, e);
  }

  /** Queues are bounded and some topic has the drop_oldest policy. */
  ghost predicate DropsConfigured(c: Config) {
    c.queueSize > 0 && exists topic :: PolicyFor(c, topic) == DropOldest
  }

  ghost predicate LosesOne(c: Config, k: LaneIndex, trace: seq<Action>, s: State) {
    IsRun(c, Initial(), trace, s) && DroppedIn(s.lanes[k].removed) > 0
  }

  lemma {:induction false} NeverOverflows(c: Config, s: State, trace: seq<Action>, k: LaneIndex)
    requires !DropsConfigured(c)
    ensures !EverOverflows(c, s, trace, k)
    decreases |trace|
  {
    if trace != [] && Enabled(c, s, trace[0]) {
      NeverOverflows(c, Next(c, s, trace[0]), trace[1..], k);
    }
  }

  lemma LosesOneOnlyIfConfigured(c: Config, k: LaneIndex, trace: seq<Action>, s: State)
    requires LosesOne(c, k, trace, s)
    ensures DropsConfigured(c)
  {
    InitialInv(c);
    DroppedIffOverflowed(c, Initial(), trace, s, k);
    if !DropsConfigured(c) {
      NeverOverflows(c, Initial(), trace, k);
    }
  }

  lemma LosesOneIfConfigured(c: Config, k: LaneIndex) returns (trace: seq<Action>, s: State)
    requires DropsConfigured(c)
    ensures LosesOne(c, k, trace, s)
  {
    var topic :| PolicyFor(c, topic) == DropOldest;
    var e := Envelope(EventId(topic), topic, k);
    trace, s := AnyTopicCanBeDropped(c, e, e);
    assert [Dropped(e)][..0] == [];
  }

  /** What the configuration decides: queue k can ever lose an envelope if and only if queues are bounded
    * and some topic has the drop_oldest policy. */
  lemma DropsPossibleIffConfigured(c: Config, k: LaneIndex)
    ensures (exists trace, s :: LosesOne(c, k, trace, s)) <==> DropsConfigured(c)
  {
    if trace, s :| LosesOne(c, k, trace, s) {
      LosesOneOnlyIfConfigured(c, k, trace, s);
    }
    if DropsConfigured(c) {
      var trace, s := LosesOneIfConfigured(c, k);
    }
  }

  /** The action, if any, by which worker w gets a permit in its next step. */
  predicate GetsPermit(s: State, w: nat, a: Action) {
    || (a == Acquire(w) && w < |s.workers| && s.workers[w].Ready? && CanTake(s.sem))
    || (a == Wake(w) && w < |s.workers| && s.workers[w].Waiting? && HoldsGrant(s.sem.waiters, w))
  }

  /** If anybody holds a permit while queued, that worker can run. */
  lemma GrantedWorker(s: State) returns (v: nat)
    requires WaitersOk(s) && s.sem.waiters != [] && Permits(s.sem) > 0
    ensures v < |s.workers| && s.workers[v].Waiting? && HoldsGrant(s.sem.waiters, v)
  {
    GrantedBound(s.sem.waiters);
    var i :| 0 <= i < |s.sem.waiters| && s.sem.waiters[i].granted;
    v := s.sem.waiters[i].worker;
    assert Waits(s.sem.waiters, v);
    assert s.sem.waiters[i] == Waiter(v, true);
  }

  /** Whoever gets a permit while an envelope is queued takes the oldest one of the highest
    * non-empty queue. */
  lemma PermitPopsHighest(c: Config, s: State, w: nat, a: Action)
    requires Queued(s.lanes) > 0 && GetsPermit(s, w, a)
    ensures Enabled(c, s, a) && FirstNonEmpty(s.lanes) < LANES
    ensures Next(c, s, a).workers[w] == Dispatching(s.lanes[FirstNonEmpty(s.lanes)].items[0])
    ensures Next(c, s, a).lanes == s.lanes[FirstNonEmpty(s.lanes) := PopLane(s.lanes[FirstNonEmpty(s.lanes)])]
    ensures forall i :: 0 <= i < FirstNonEmpty(s.lanes) ==> s.lanes[i].items == []
  {
    QueuedPositive(s.lanes);
  }

  /** No lost wake-up: while an envelope is queued and some live worker is not dispatching, some
    * worker's next step pops one. In particular the workers are never all asleep without a grant. */
  lemma NoLostWakeup(c: Config, s: State, idle: nat) returns (w: nat, a: Action)
    requires Inv(c, s) && Queued(s.lanes) > 0
    requires idle < |s.workers| && (s.workers[idle].Ready? || s.workers[idle].Waiting?)
    ensures GetsPermit(s, w, a)
    ensures Enabled(c, s, a) && Queued(Next(c, s, a).lanes) == Queued(s.lanes) - 1
    ensures w < |Next(c, s, a).workers| && Next(c, s, a).workers[w].Dispatching?
  {
    if s.sem.waiters != [] {
      w := GrantedWorker(s);
      a := Wake(w);
    } else {
      assert !Waits(s.sem.waiters, idle);
      w, a := idle, Acquire(idle);
    }
    PermitPopsHighest(c, s, w, a);
    var k := FirstNonEmpty(s.lanes);
    QueuedUpdate(s.lanes, k, PopLane(s.lanes[k]));
  }

  /** Nothing enqueued is lost or reordered: the n-th envelope put into a queue is the n-th removed
    * from it (popped, or dropped by drop_oldest) or is still queued at its place. */
  lemma Conservation(c: Config, trace: seq<Action>, s: State, k: LaneIndex)
    requires IsRun(c, Initial(), trace, s)
    ensures var l := s.lanes[k];
            && |l.put| == |l.removed| + |l.items|
            && (forall n :: 0 <= n < |l.removed| ==> l.removed[n].envelope == l.put[n])
            && (forall n :: |l.removed| <= n < |l.put| ==> l.items[n - |l.removed|] == l.put[n])
            && (c.queueSize > 0 ==> |l.items| <= c.queueSize)
  {
    InitialInv(c);
    RunKeepsInv(c, Initial(), trace, s);
    LaneIsOk(c, s, k);
    LaneHistory(c, s.lanes[k]);
  }

  lemma LaneIsOk(c: Config, s: State, k: LaneIndex)
    requires Inv(c, s)
    ensures LaneOk(c, s.lanes[k])
  {
  }

  lemma LaneHistory(c: Config, l: Lane)
    requires LaneOk(c, l)
    ensures && |l.put| == |l.removed| + |l.items|
            && (forall n :: 0 <= n < |l.removed| ==> l.removed[n].envelope == l.put[n])
            && (forall n :: |l.removed| <= n < |l.put| ==> l.items[n - |l.removed|] == l.put[n])
            && (c.queueSize > 0 ==> |l.items| <= c.queueSize)
  {
    EnvelopesAt(l.removed);
  }

  lemma {:induction false} EnvelopesAt(rs: seq<Removal>)
    ensures |Envelopes(rs)| == |rs| && forall n :: 0 <= n < |rs| ==> Envelopes(rs)[n] == rs[n].envelope
  {
    if rs != [] {
      EnvelopesAt(rs[..|rs| - 1]);
    }
  }

  // ---------------------------------------------------------------------
  // The stop protocol
  // ---------------------------------------------------------------------

  function Weight(p: Phase): nat {
    match p
    case Ready => 2
    case Waiting => 1
    case Dispatching(_) => 3
    case _ => 0
  }

  function Weights(ws: seq<Phase>): nat {
    if ws == [] then 0 else Weight(ws[0]) + Weights(ws[1..])
  }

  function StopMeasure(s: State): nat {
    3 * Queued(s.lanes) + Weights(s.workers)
  }

  predicate WorkerAction(a: Action) {
    a.Acquire? || a.Wake? || a.Handled?
  }

  lemma {:induction false} WeightsUpdate(ws: seq<Phase>, w: nat, p: Phase)
    requires w < |ws|
    ensures Weights(ws[w := p]) == Weights(ws) - Weight(ws[w]) + Weight(p)
  {
    if w > 0 {
      assert ws[w := p][1..] == ws[1..][w - 1 := p];
      WeightsUpdate(ws[1..], w - 1, p);
    } else {
      assert ws[w := p][1..] == ws[1..];
    }
  }

  lemma UsePermitDescends(s: State, w: nat)
    requires w < |s.workers| && s.stopping && Weight(s.workers[w]) >= 1
    ensures StopMeasure(UsePermit(s, w)) < StopMeasure(s)
  {
    var k := FirstNonEmpty(s.lanes);
    if k < |s.lanes| {
      QueuedUpdate(s.lanes, k, PopLane(s.lanes[k]));
      WeightsUpdate(s.workers, w, Dispatching(s.lanes[k].items[0]));
    } else {
      WeightsUpdate(s.workers, w, Exited);
    }
  }

  lemma WorkerStepDescends(c: Config, s: State, a: Action)
    requires Inv(c, s) && s.stopping && WorkerAction(a) && Enabled(c, s, a)
    ensures StopMeasure(Next(c, s, a)) < StopMeasure(s) && Next(c, s, a).stopping
  {
    match a {
      case Acquire(w) =>
        if CanTake(s.sem) {
          UsePermitDescends(s.(sem := Take(s.sem)), w);
        } else {
          WeightsUpdate(s.workers, w, Waiting);
        }
      case Wake(w) =>
        UsePermitDescends(s.(sem := Resume(s.sem, w)), w);
      case Handled(w) =>
        WeightsUpdate(s.workers, w, Ready);
    }
  }

  lemma {:induction false} LiveWorkerExists(ws: seq<Phase>) returns (w: nat)
    requires CountLive(ws) > 0
    ensures w < |ws| && Live(ws[w])
  {
    if Live(ws[0]) {
      w := 0;
    } else {
      w := LiveWorkerExists(ws[1..]);
      w := w + 1;
    }
  }

  /** While stopping, as long as a worker is alive some worker can take a step: nobody is left
    * waiting in acquire() for ever. */
  lemma StopNeverSticks(c: Config, s: State) returns (a: Action)
    requires Inv(c, s) && s.stopping && CountLive(s.workers) > 0
    ensures WorkerAction(a) && Enabled(c, s, a)
  {
    var w := LiveWorkerExists(s.workers);
    if s.workers[w].Ready? {
      a := Acquire(w);
    } else if s.workers[w].Dispatching? {
      a := Handled(w);
    } else {
      assert Waits(s.sem.waiters, w);
      var v := GrantedWorker(s);
      a := Wake(v);
    }
  }

  function TotalPut(lanes: seq<Lane>): nat {
    if lanes == [] then 0 else |lanes[0].put| + TotalPut(lanes[1..])
  }

  lemma {:induction false} TotalPutUpdate(lanes: seq<Lane>, i: nat, l: Lane)
    requires i < |lanes|
    ensures TotalPut(lanes[i := l]) == TotalPut(lanes) - |lanes[i].put| + |l.put|
  {
    if i > 0 {
      assert lanes[i := l][1..] == lanes[1..][i - 1 := l];
      TotalPutUpdate(lanes[1..], i - 1, l);
    } else {
      assert lanes[i := l][1..] == lanes[1..];
    }
  }

  /** What is left to do, with three steps charged for every envelope put so far. */
  function Debt(s: State): int {
    StopMeasure(s) - 3 * TotalPut(s.lanes)
  }

  lemma PutKeepsDebt(c: Config, s: State, e: Envelope)
    ensures Debt(Put(s, e)) == Debt(s)
    ensures Debt(PublishMeta(c, s, e)) == Debt(s)
  {
    QueuedUpdate(s.lanes, e.lane, PutLane(s.lanes[e.lane], e));
    TotalPutUpdate(s.lanes, e.lane, PutLane(s.lanes[e.lane], e));
  }

  lemma EnqueueKeepsDebt(c: Config, s: State, e: Envelope, inMeta: bool, meta: Envelope)
    ensures Debt(EnqueueLocal(c, s, e, inMeta, meta).0) <= Debt(s)
  {
    if !Full(c, s.lanes[e.lane]) {
      PutKeepsDebt(c, s, e);
    } else {
      var t := if inMeta then s else PublishMeta(c, s, meta);
      PutKeepsDebt(c, s, meta);
      PolicyKeepsDebt(c, t, e, PolicyFor(c, e.topic));
    }
  }

  lemma PolicyKeepsDebt(c: Config, t: State, e: Envelope, policy: Policy)
    ensures Debt(ApplyPolicy(t, e, policy).0) <= Debt(t)
  {
    if policy == DropOldest {
      if t.lanes[e.lane].items == [] {
        PutKeepsDebt(c, t, e);
      } else {
        QueuedUpdate(t.lanes, e.lane, DropLane(t.lanes[e.lane]));
        TotalPutUpdate(t.lanes, e.lane, DropLane(t.lanes[e.lane]));
        PutKeepsDebt(c, DropHead(t, e.lane), e);
      }
    }
  }

  lemma PermitKeepsPut(s: State, w: nat)
    requires w < |s.workers|
    ensures TotalPut(UsePermit(s, w).lanes) == TotalPut(s.lanes)
  {
    var k := FirstNonEmpty(s.lanes);
    if k < |s.lanes| {
      TotalPutUpdate(s.lanes, k, PopLane(s.lanes[k]));
    }
  }

  lemma WorkerStepDebt(c: Config, s: State, a: Action)
    requires Inv(c, s) && s.stopping && WorkerAction(a) && Enabled(c, s, a)
    ensures Next(c, s, a).stopping && Debt(Next(c, s, a)) < Debt(s)
  {
    WorkerStepDescends(c, s, a);
    match a {
      case Acquire(w) =>
        if CanTake(s.sem) {
          PermitKeepsPut(s.(sem := Take(s.sem)), w);
        }
      case Wake(w) =>
        PermitKeepsPut(s.(sem := Resume(s.sem, w)), w);
      case Handled(w) =>
    }
  }

  /** While stopping no step raises the debt, and each worker step lowers it. */
  lemma StopStepDebt(c: Config, s: State, a: Action)
    requires Inv(c, s) && s.stopping && Enabled(c, s, a) && !a.Start?
    ensures Next(c, s, a).stopping
    ensures Debt(Next(c, s, a)) + (if WorkerAction(a) then 1 else 0) <= Debt(s)
  {
    if WorkerAction(a) {
      WorkerStepDebt(c, s, a);
    } else {
      match a {
        case CancelWorker(w) =>
          WeightsUpdate(s.workers, w, Cancelled);
        case Enqueue(i, inMeta, m) =>
          EnqueueKeepsDebt(c, Leave(s, i), s.admitted[i], inMeta, m);
        case ResumePut(i) =>
          PutKeepsDebt(c, s.(blocked := s.blocked[..i] + s.blocked[i + 1..]), s.blocked[i]);
        case Meta(m) =>
          PutKeepsDebt(c, s, m);
        case _ =>
      }
    }
  }

  function WorkerSteps(trace: seq<Action>): nat {
    if trace == [] then 0 else (if WorkerAction(trace[0]) then 1 else 0) + WorkerSteps(trace[1..])
  }

  /** After the stop releases the number of worker steps is bounded in every run, by what was left to do
    * and three for each envelope put meanwhile; and when no worker can step none is left alive. */
  lemma {:induction false} StopTerminates(c: Config, s: State, trace: seq<Action>, t: State)
    requires Inv(c, s) && s.stopping && IsRun(c, s, trace, t)
    requires forall a :: a in trace ==> !a.Start?
    ensures WorkerSteps(trace) + StopMeasure(t) <= StopMeasure(s) + 3 * (TotalPut(t.lanes) - TotalPut(s.lanes))
    ensures (forall a :: WorkerAction(a) ==> !Enabled(c, t, a)) ==> CountLive(t.workers) == 0
    decreases |trace|
  {
    if trace == [] {
      if CountLive(t.workers) > 0 {
        var a := StopNeverSticks(c, t);
      }
    } else {
      assert trace[0] in trace;
      StopStepDebt(c, s, trace[0]);
      StepKeepsInv(c, s, trace[0]);
      StopTerminates(c, Next(c, s, trace[0]), trace[1..], t);
    }
  }
}
