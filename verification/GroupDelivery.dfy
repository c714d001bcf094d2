/** Consumer-group delivery over a Redis stream: src/navigator_eventbus/backends/redis_streams.py.
  *
  * The server's part of the state is the stream, the group's cursor, its pending entries with their
  * delivery counts, and the dedup keys. Everything a consumer does with one entry it was handed is a
  * job; each await of the handler is a step, and a job may be cut off at any point by a crash or an
  * exception. A batch read or claimed at once is that many steps in a row, and jobs of one batch,
  * which the program handles one after the other, may here interleave as freely as any others.
  */
module GroupDelivery {
  import opened Collections

  datatype Stage = Received | Checking | Ready | Calling | Marking | CallingDlq | Acking | Over

  /** park: the sweeper found the entry over the delivery limit. called: on_envelope was entered. */
  datatype Job = Job(entry: nat, park: bool, stage: Stage, called: bool)

  /** entries holds the event id of each stream entry, in stream order. deliveries keeps the count of
    * an entry after it leaves the pending list. snapshots are the over-limit sets that sweeps hold.
    * The last five fields are history: events whose callback returned; entries some reader could not
    * decode; entries parked; and the claims for dispatch of entries that were over the limit. */
  datatype State = State(
    entries: seq<EventId>, cursor: nat, pending: set<nat>, deliveries: multiset<nat>, dedup: set<EventId>,
    jobs: seq<Job>, snapshots: seq<set<nat>>,
    acked: set<nat>, processed: set<EventId>, undecodable: set<nat>, parked: set<nat>, stale: multiset<nat>)

  datatype Action =
    | Xadd(event: EventId)
    | Read
    | Xpending(over: set<nat>)
    | Claim(snapshot: nat, entry: nat)
    | Decode(j: nat, ok: bool)
    | Check(j: nat)
    | Call(j: nat)
    | Return(j: nat)
    | Raise(j: nat)
    | Mark(j: nat, applied: bool)
    | DlqDone(j: nat)
    | Ack(j: nat, applied: bool)
    | Expire(event: EventId)
    | Abort(j: nat)

  predicate OverLimit(limit: Option<nat>, s: State, i: nat) {
    limit.Some? && s.deliveries[i] > limit.value
  }

  predicate In(s: State, j: nat, stage: Stage) {
    j < |s.jobs| && s.jobs[j].stage == stage
  }

  ghost predicate Enabled(limit: Option<nat>, s: State, a: Action) {
    match a
    case Xadd(_) => true
    case Read => s.cursor < |s.entries|
    case Xpending(over) => forall i :: i in over ==> i in s.pending && OverLimit(limit, s, i)
    case Claim(k, i) => k < |s.snapshots| && i in s.pending
    case Decode(j, _) => In(s, j, Received)
    case Check(j) => In(s, j, Checking) && s.jobs[j].entry < |s.entries|
    case Call(j) => In(s, j, Ready)
    case Return(j) => In(s, j, Calling) && s.jobs[j].entry < |s.entries|
    case Raise(j) => In(s, j, Calling)
    case Mark(j, _) => In(s, j, Marking) && s.jobs[j].entry < |s.entries|
    case DlqDone(j) => In(s, j, CallingDlq)
    case Ack(j, _) => In(s, j, Acking)
    case Expire(event) => event in s.dedup
    case Abort(j) => j < |s.jobs|
  }

  function To(s: State, j: nat, stage: Stage): State
    requires j < |s.jobs|
  {
    s.(jobs := s.jobs[j := s.jobs[j].(stage := stage)])
  }

  /** XREADGROUP hands out the next new entry. */
  function ReadNext(s: State): State {
    s.(cursor := s.cursor + 1, pending := s.pending + {s.cursor}, deliveries := s.deliveries + multiset{s.cursor},
       jobs := s.jobs + [Job(s.cursor, false, Received, false)])
  }

  /** XAUTOCLAIM hands out a pending entry again, to be parked if the sweep's snapshot says so. */
  function ClaimEntry(limit: Option<nat>, s: State, k: nat, i: nat): State
    requires k < |s.snapshots|
  {
    var park := i in s.snapshots[k];
    s.(deliveries := s.deliveries + multiset{i}, jobs := s.jobs + [Job(i, park, Received, false)],
       stale := if !park && OverLimit(limit, s, i) then s.stale + multiset{i} else s.stale)
  }

  ghost function Next(limit: Option<nat>, s: State, a: Action): State
    requires Enabled(limit, s, a)
  {
    match a
    case Xadd(event) => s.(entries := s.entries + [event])
    case Read => ReadNext(s)
    case Xpending(over) => s.(snapshots := s.snapshots + [over])
    case Claim(k, i) => ClaimEntry(limit, s, k, i)
    case Decode(j, ok) =>
      if ok then To(s, j, if s.jobs[j].park then CallingDlq else Checking)
      else To(s, j, Acking).(undecodable := s.undecodable + {s.jobs[j].entry})
    case Check(j) => To(s, j, if s.entries[s.jobs[j].entry] in s.dedup then Acking else Ready)
    case Call(j) => s.(jobs := s.jobs[j := s.jobs[j].(stage := Calling, called := true)])
    case Return(j) => To(s, j, Marking).(processed := s.processed + {s.entries[s.jobs[j].entry]})
    case Raise(j) => To(s, j, Over)
    case Mark(j, applied) =>
      To(s, j, Acking).(dedup := if applied then s.dedup + {s.entries[s.jobs[j].entry]} else s.dedup)
    case DlqDone(j) => To(s, j, Acking).(parked := s.parked + {s.jobs[j].entry})
    case Ack(j, applied) =>
      var i := s.jobs[j].entry;
      var done := To(s, j, Over);
      if applied && i in s.pending then done.(pending := s.pending - {i}, acked := s.acked + {i}) else done
    case Expire(event) => s.(dedup := s.dedup - {event})
    case Abort(j) => To(s, j, Over)
  }

  function Initial(): State {
    State([], 0, {}, multiset{}, {}, [], [], {}, {}, {}, {}, multiset{})
  }

  ghost predicate IsRun(limit: Option<nat>, s: State, trace: seq<Action>, t: State)
    decreases |trace|
  {
    if trace == [] then s == t
    else Enabled(limit, s, trace[0]) && IsRun(limit, Next(limit, s, trace[0]), trace[1..], t)
  }

  lemma {:induction false} RunExtends(limit: Option<nat>, s: State, trace: seq<Action>, t: State, a: Action)
    requires IsRun(limit, s, trace, t) && Enabled(limit, t, a)
    ensures IsRun(limit, s, trace + [a], Next(limit, t, a))
    decreases |trace|
  {
    if trace == [] {
      assert IsRun(limit, Next(limit, t, a), [], Next(limit, t, a));
    } else {
      RunExtends(limit, Next(limit, s, trace[0]), trace[1..], t, a);
      assert (trace + [a])[1..] == trace[1..] + [a];
    }
  }

  // ---------------------------------------------------------------------
  // No entry is lost, and every acknowledgement is justified
  // ---------------------------------------------------------------------

  /** Every entry handed out once is pending or acknowledged, and not both. */
  ghost predicate Placed(s: State) {
    && s.cursor <= |s.entries|
    && (forall i :: i in s.pending ==> i < s.cursor && i !in s.acked)
    && (forall i: nat :: i < s.cursor && i !in s.pending ==> i in s.acked)
    && (forall i :: i in s.acked ==> i < s.cursor)
  }

  predicate Justified(s: State, i: nat) {
    i in s.undecodable || i in s.parked || (i < |s.entries| && s.entries[i] in s.processed)
  }

  predicate JobOk(s: State, job: Job) {
    && job.entry < s.cursor
    && (job.park ==> !job.called) && (job.stage.CallingDlq? ==> job.park)
    && (job.stage.Received? || job.stage.Checking? || job.stage.Ready? || job.stage.CallingDlq? ==> !job.called)
    && (job.stage.Checking? || job.stage.Ready? || job.stage.Calling? || job.stage.Marking? ==> !job.park)
    && (job.stage.Marking? || job.stage.Acking? ==> Justified(s, job.entry))
    && (job.stage.Marking? ==> job.entry < |s.entries| && s.entries[job.entry] in s.processed)
  }

  ghost predicate JobsOk(s: State, jobs: seq<Job>) {
    forall j :: 0 <= j < |jobs| ==> JobOk(s, jobs[j])
  }

  ghost predicate AcksOk(s: State) {
    forall i :: i in s.acked ==> Justified(s, i)
  }

  ghost predicate Inv(s: State) {
    Placed(s) && s.dedup <= s.processed && AcksOk(s) && JobsOk(s, s.jobs)
  }

  /** What is known of jobs survives as the stream and the history grow. */
  ghost predicate Extends(s: State, t: State) {
    && |s.entries| <= |t.entries| && (forall i :: 0 <= i < |s.entries| ==> t.entries[i] == s.entries[i])
    && s.cursor <= t.cursor && s.processed <= t.processed && s.undecodable <= t.undecodable && s.parked <= t.parked
  }

  lemma KnownStays(s: State, t: State, jobs: seq<Job>)
    requires Extends(s, t)
    ensures JobsOk(s, jobs) ==> JobsOk(t, jobs)
    ensures forall i :: Justified(s, i) ==> Justified(t, i)
  {
    assert forall i :: Justified(s, i) ==> Justified(t, i);
    if JobsOk(s, jobs) {
      forall j | 0 <= j < |jobs| ensures JobOk(t, jobs[j]) {
        assert JobOk(s, jobs[j]);
      }
    }
  }

  /** One job moves on. */
  lemma MoveKeeps(s: State, t: State, j: nat, job: Job)
    requires Inv(s) && Extends(s, t) && j < |s.jobs| && t.jobs == s.jobs[j := job] && JobOk(t, job)
    requires t.entries == s.entries && t.cursor == s.cursor && t.pending == s.pending && t.acked == s.acked
    requires t.dedup <= t.processed
    ensures Inv(t)
  {
    KnownStays(s, t, s.jobs);
  }

  lemma ReceiveKeeps(limit: Option<nat>, s: State, a: Action)
    requires Inv(s) && Enabled(limit, s, a) && (a.Xadd? || a.Read? || a.Claim?)
    ensures Inv(Next(limit, s, a))
  {
    var t := Next(limit, s, a);
    KnownStays(s, t, s.jobs);
    if !a.Xadd? {
      var last := t.jobs[|s.jobs|];
      assert JobOk(t, last);
      assert t.jobs == s.jobs + [last];
    }
  }

  lemma AckKeeps(limit: Option<nat>, s: State, j: nat, applied: bool)
    requires Inv(s) && In(s, j, Acking)
    ensures Inv(Next(limit, s, Ack(j, applied)))
  {
    var done := To(s, j, Over);
    assert JobOk(s, s.jobs[j]);
    MoveKeeps(s, done, j, done.jobs[j]);
    var t := Next(limit, s, Ack(j, applied));
    KnownStays(done, t, done.jobs);
  }

  lemma JobStepKeeps(limit: Option<nat>, s: State, a: Action)
    requires Inv(s) && Enabled(limit, s, a)
    requires a.Decode? || a.Check? || a.Call? || a.Return? || a.Raise? || a.Mark? || a.DlqDone? || a.Abort?
    ensures Inv(Next(limit, s, a))
  {
    var t := Next(limit, s, a);
    assert JobOk(s, s.jobs[a.j]);
    MoveKeeps(s, t, a.j, t.jobs[a.j]);
  }

  lemma StepKeepsInv(limit: Option<nat>, s: State, a: Action)
    requires Inv(s) && Enabled(limit, s, a)
    ensures Inv(Next(limit, s, a))
  {
    match a
    case Xadd(_) | Read | Claim(_, _) => ReceiveKeeps(limit, s, a);
    case Ack(j, applied) => AckKeeps(limit, s, j, applied);
    case Xpending(over) => KnownStays(s, Next(limit, s, a), s.jobs);
    case Expire(event) => KnownStays(s, Next(limit, s, a), s.jobs);
    case _ => JobStepKeeps(limit, s, a);
  }

  lemma {:induction false} RunKeepsInv(limit: Option<nat>, s: State, trace: seq<Action>, t: State)
    requires Inv(s) && IsRun(limit, s, trace, t)
    ensures Inv(t)
    decreases |trace|
  {
    if trace != [] {
      StepKeepsInv(limit, s, trace[0]);
      RunKeepsInv(limit, Next(limit, s, trace[0]), trace[1..], t);
    }
  }

  /** At-least-once: in every state of every run, with any number of consumers, crashes, failed
    * acknowledgements and expired dedup keys, every stream entry is still ahead of the group's cursor,
    * pending, or acknowledged. Only an entry that some reader could not decode, that was parked, or
    * whose event had a callback that returned, is acknowledged; and only an event of the last kind has
    * a dedup key. */
  lemma NoEntryLost(limit: Option<nat>, trace: seq<Action>, s: State, i: nat)
    requires IsRun(limit, Initial(), trace, s) && i < |s.entries|
    ensures i >= s.cursor || i in s.pending || i in s.acked
    ensures !(i in s.pending && i in s.acked) && !(i >= s.cursor && (i in s.pending || i in s.acked))
    ensures i in s.acked ==> i in s.undecodable || i in s.parked || s.entries[i] in s.processed
    ensures s.entries[i] in s.dedup ==> s.entries[i] in s.processed
  {
    RunKeepsInv(limit, Initial(), trace, s);
    assert i in s.acked ==> Justified(s, i);
  }

  // ---------------------------------------------------------------------
  // The delivery bound
  // ---------------------------------------------------------------------

  /** The jobs that could dispatch entry i, and those that did. */
  ghost function HandedOut(jobs: seq<Job>, i: nat): set<nat> {
    set j: nat | j < |jobs| && jobs[j].entry == i && !jobs[j].park
  }

  ghost function Dispatches(jobs: seq<Job>, i: nat): set<nat> {
    set j: nat | j < |jobs| && jobs[j].entry == i && jobs[j].called
  }

  ghost predicate Bounded(limit: nat, s: State, i: nat) {
    && |HandedOut(s.jobs, i)| <= Min(s.deliveries[i], limit + 1) + s.stale[i]
    && (i >= s.cursor ==> HandedOut(s.jobs, i) == {})
  }

  lemma HandedOutMove(jobs: seq<Job>, j: nat, job: Job, i: nat)
    requires j < |jobs| && job.entry == jobs[j].entry && job.park == jobs[j].park
    ensures HandedOut(jobs[j := job], i) == HandedOut(jobs, i)
  {
  }

  lemma HandedOutGrow(jobs: seq<Job>, job: Job, i: nat)
    ensures HandedOut(jobs + [job], i) == HandedOut(jobs, i) + if job.entry == i && !job.park then {|jobs|} else {}
    ensures |HandedOut(jobs + [job], i)| == |HandedOut(jobs, i)| + if job.entry == i && !job.park then 1 else 0
  {
    var grown := HandedOut(jobs + [job], i);
    assert grown == HandedOut(jobs, i) + if job.entry == i && !job.park then {|jobs|} else {};
  }

  /** The job has not come to its call of on_envelope yet. */
  predicate MayCall(job: Job) {
    job.stage.Received? || job.stage.Checking? || job.stage.Ready?
  }

  /** Jobs keep their entry and purpose; a call is not undone; a job past its call makes no other. */
  ghost predicate Follow(jobs: seq<Job>, later: seq<Job>) {
    && |jobs| <= |later|
    && forall j :: 0 <= j < |jobs| ==>
         && later[j].entry == jobs[j].entry && later[j].park == jobs[j].park
         && (jobs[j].called ==> later[j].called)
         && (!MayCall(jobs[j]) ==> later[j].called == jobs[j].called && !MayCall(later[j]))
  }

  lemma FollowMove(jobs: seq<Job>, j: nat, job: Job)
    requires j < |jobs| && job.entry == jobs[j].entry && job.park == jobs[j].park
    requires jobs[j].called ==> job.called
    requires !MayCall(jobs[j]) ==> job.called == jobs[j].called && !MayCall(job)
    ensures Follow(jobs, jobs[j := job])
  {
  }

  /** Only reads and claims hand anything out. */
  lemma OtherStep(limit: Option<nat>, s: State, a: Action, i: nat)
    requires Enabled(limit, s, a) && !a.Read? && !a.Claim?
    ensures var t := Next(limit, s, a);
            && HandedOut(t.jobs, i) == HandedOut(s.jobs, i) && Follow(s.jobs, t.jobs)
            && t.deliveries == s.deliveries && t.stale == s.stale && t.cursor == s.cursor
  {
    if !a.Xadd? && !a.Xpending? && !a.Expire? {
      var job := Next(limit, s, a).jobs[a.j];
      assert Next(limit, s, a).jobs == s.jobs[a.j := job];
      HandedOutMove(s.jobs, a.j, job, i);
      FollowMove(s.jobs, a.j, job);
    }
  }

  /** Each hand-out for dispatch beyond the limit is a claim made in spite of the count. */
  lemma StepKeepsBound(limit: nat, s: State, a: Action, i: nat)
    requires Inv(s) && Bounded(limit, s, i) && Enabled(Some(limit), s, a)
    ensures Bounded(limit, Next(Some(limit), s, a), i)
  {
    if a.Read? {
      HandedOutGrow(s.jobs, Job(s.cursor, false, Received, false), i);
    } else if a.Claim? {
      HandedOutGrow(s.jobs, Job(a.entry, a.entry in s.snapshots[a.snapshot], Received, false), i);
    } else {
      OtherStep(Some(limit), s, a, i);
    }
  }

  lemma {:induction false} RunKeepsBound(limit: nat, s: State, trace: seq<Action>, t: State, i: nat)
    requires Inv(s) && Bounded(limit, s, i) && IsRun(Some(limit), s, trace, t)
    ensures Inv(t) && Bounded(limit, t, i)
    decreases |trace|
  {
    if trace != [] {
      StepKeepsInv(Some(limit), s, trace[0]);
      StepKeepsBound(limit, s, trace[0], i);
      RunKeepsBound(limit, Next(Some(limit), s, trace[0]), trace[1..], t, i);
    }
  }

  /** Delivery bound: over any run of crashes and sweeps an entry is dispatched at most limit + 1
    * times, plus once for each claim that a sweep made although the entry was over the limit. */
  lemma DeliveryBound(limit: nat, trace: seq<Action>, s: State, i: nat)
    requires IsRun(Some(limit), Initial(), trace, s)
    ensures |Dispatches(s.jobs, i)| <= limit + 1 + s.stale[i]
  {
    assert HandedOut(Initial().jobs, i) == {};
    RunKeepsBound(limit, Initial(), trace, s, i);
    assert Dispatches(s.jobs, i) <= HandedOut(s.jobs, i) by {
      forall j | j in Dispatches(s.jobs, i) ensures j in HandedOut(s.jobs, i) {
        assert JobOk(s, s.jobs[j]);
      }
    }
    SubsetCard(Dispatches(s.jobs, i), HandedOut(s.jobs, i));
  }

  /** Every claim in the run sees in its sweep's snapshot what the pending list says at that moment. */
  ghost predicate Synced(limit: Option<nat>, s: State, trace: seq<Action>, t: State)
    requires IsRun(limit, s, trace, t)
    decreases |trace|
  {
    trace != [] ==>
      && InSync(limit, s, trace[0])
      && Synced(limit, Next(limit, s, trace[0]), trace[1..], t)
  }

  ghost predicate InSync(limit: Option<nat>, s: State, a: Action)
    requires Enabled(limit, s, a)
  {
    a.Claim? ==> (a.entry in s.snapshots[a.snapshot] <==> OverLimit(limit, s, a.entry))
  }

  lemma {:induction false} SyncedExtends(limit: Option<nat>, s: State, trace: seq<Action>, t: State, a: Action)
    requires IsRun(limit, s, trace, t) && Synced(limit, s, trace, t) && Enabled(limit, t, a) && InSync(limit, t, a)
    ensures IsRun(limit, s, trace + [a], Next(limit, t, a))
    ensures Synced(limit, s, trace + [a], Next(limit, t, a))
    decreases |trace|
  {
    RunExtends(limit, s, trace, t, a);
    if trace != [] {
      SyncedExtends(limit, Next(limit, s, trace[0]), trace[1..], t, a);
      assert (trace + [a])[1..] == trace[1..] + [a];
    }
  }

  lemma {:induction false} SyncedIsNeverStale(limit: Option<nat>, s: State, trace: seq<Action>, t: State)
    requires IsRun(limit, s, trace, t) && Synced(limit, s, trace, t)
    ensures t.stale == s.stale
    decreases |trace|
  {
    if trace != [] {
      SyncedIsNeverStale(limit, Next(limit, s, trace[0]), trace[1..], t);
    }
  }

  /** With snapshots that agree with the pending list the bound is limit + 1. */
  lemma SyncedDeliveryBound(limit: nat, trace: seq<Action>, s: State, i: nat)
    requires IsRun(Some(limit), Initial(), trace, s) && Synced(Some(limit), Initial(), trace, s)
    ensures |Dispatches(s.jobs, i)| <= limit + 1
  {
    DeliveryBound(limit, trace, s, i);
    SyncedIsNeverStale(Some(limit), Initial(), trace, s);
  }

  // ---------------------------------------------------------------------
  // Duplicates
  // ---------------------------------------------------------------------

  predicate Carries(s: State, j: nat, event: EventId) {
    j < |s.jobs| && s.jobs[j].entry < |s.entries| && s.entries[s.jobs[j].entry] == event
  }

  /** The job has called, or has got past its dedup check and is about to. */
  predicate Cleared(job: Job) {
    job.called || job.stage.Ready?
  }

  /** No job of the event is cleared but these. */
  ghost predicate OnlyCleared(s: State, event: EventId, jobs: set<nat>) {
    forall j: nat :: Carries(s, j, event) && Cleared(s.jobs[j]) ==> j in jobs
  }

  lemma KeyHoldsBack(limit: Option<nat>, s: State, a: Action, event: EventId, jobs: set<nat>)
    requires Inv(s) && Enabled(limit, s, a) && a != Expire(event)
    requires event in s.dedup && OnlyCleared(s, event, jobs)
    ensures event in Next(limit, s, a).dedup && OnlyCleared(Next(limit, s, a), event, jobs)
  {
    var t := Next(limit, s, a);
    forall j: nat | Carries(t, j, event) && Cleared(t.jobs[j]) ensures j in jobs {
      if j < |s.jobs| {
        assert JobOk(s, s.jobs[j]);
        assert Carries(s, j, event);
      }
    }
  }

  lemma {:induction false} KeyHoldsBackRun(limit: Option<nat>, s: State, trace: seq<Action>, t: State, event: EventId,
                                           jobs: set<nat>)
    requires Inv(s) && IsRun(limit, s, trace, t) && Expire(event) !in trace
    requires event in s.dedup && OnlyCleared(s, event, jobs)
    ensures OnlyCleared(t, event, jobs)
    decreases |trace|
  {
    if trace != [] {
      assert trace[0] in trace;
      KeyHoldsBack(limit, s, trace[0], event, jobs);
      StepKeepsInv(limit, s, trace[0]);
      KeyHoldsBackRun(limit, Next(limit, s, trace[0]), trace[1..], t, event, jobs);
    }
  }

  /** No duplicates while the key lives: from the moment an event's dedup key is there until it expires, no
    * job dispatches the event, whatever entry carries it, but those that had got past their check before. */
  lemma DedupSuppresses(limit: Option<nat>, before: seq<Action>, s: State, trace: seq<Action>, t: State,
                        event: EventId, j: nat)
    requires IsRun(limit, Initial(), before, s) && event in s.dedup
    requires IsRun(limit, s, trace, t) && Expire(event) !in trace
    requires Carries(t, j, event) && t.jobs[j].called
    ensures j < |s.jobs| && Cleared(s.jobs[j])
  {
    RunKeepsInv(limit, Initial(), before, s);
    var jobs := set j: nat | j < |s.jobs| && Cleared(s.jobs[j]);
    KeyHoldsBackRun(limit, s, trace, t, event, jobs);
  }

  // ---------------------------------------------------------------------
  // After parking
  // ---------------------------------------------------------------------

  /** A snapshot entry, a job to park or a parked entry means that the entry is over the limit. */
  ghost predicate ParkOk(limit: Option<nat>, s: State) {
    && (forall k, i :: 0 <= k < |s.snapshots| && i in s.snapshots[k] ==> OverLimit(limit, s, i))
    && (forall j :: 0 <= j < |s.jobs| && s.jobs[j].park ==> OverLimit(limit, s, s.jobs[j].entry))
    && (forall i :: i in s.parked ==> OverLimit(limit, s, i) && i < s.cursor)
  }

  lemma DlqKeepsPark(limit: Option<nat>, s: State, j: nat)
    requires Inv(s) && ParkOk(limit, s) && Enabled(limit, s, DlqDone(j))
    ensures ParkOk(limit, Next(limit, s, DlqDone(j)))
  {
    var t := Next(limit, s, DlqDone(j));
    assert JobOk(s, s.jobs[j]) && OverLimit(limit, s, s.jobs[j].entry);
    assert forall i :: OverLimit(limit, s, i) == OverLimit(limit, t, i);
  }

  lemma StepKeepsPark(limit: Option<nat>, s: State, a: Action)
    requires Inv(s) && ParkOk(limit, s) && Enabled(limit, s, a)
    ensures ParkOk(limit, Next(limit, s, a))
  {
    var t := Next(limit, s, a);
    if a.DlqDone? {
      DlqKeepsPark(limit, s, a.j);
    } else if a.Read? || a.Claim? {
      assert forall i :: OverLimit(limit, s, i) ==> OverLimit(limit, t, i);
    } else {
      OtherStep(limit, s, a, 0);
      assert forall i :: OverLimit(limit, s, i) == OverLimit(limit, t, i);
    }
  }

  lemma {:induction false} RunKeepsPark(limit: Option<nat>, s: State, trace: seq<Action>, t: State)
    requires Inv(s) && ParkOk(limit, s) && IsRun(limit, s, trace, t)
    ensures Inv(t) && ParkOk(limit, t)
    decreases |trace|
  {
    if trace != [] {
      StepKeepsInv(limit, s, trace[0]);
      StepKeepsPark(limit, s, trace[0]);
      RunKeepsPark(limit, Next(limit, s, trace[0]), trace[1..], t);
    }
  }

  lemma OverLimitStep(limit: Option<nat>, s: State, a: Action, i: nat)
    requires OverLimit(limit, s, i) && i < s.cursor && Enabled(limit, s, a) && InSync(limit, s, a)
    ensures var t := Next(limit, s, a);
            && OverLimit(limit, t, i) && i < t.cursor
            && HandedOut(t.jobs, i) == HandedOut(s.jobs, i) && Follow(s.jobs, t.jobs)
  {
    if a.Read? {
      HandedOutGrow(s.jobs, Job(s.cursor, false, Received, false), i);
    } else if a.Claim? {
      HandedOutGrow(s.jobs, Job(a.entry, a.entry in s.snapshots[a.snapshot], Received, false), i);
    } else {
      OtherStep(limit, s, a, i);
    }
  }

  lemma FollowTransitive(a: seq<Job>, b: seq<Job>, c: seq<Job>)
    requires Follow(a, b) && Follow(b, c)
    ensures Follow(a, c)
  {
  }

  /** Once an entry is over the limit only stale claims hand it out for dispatch. */
  lemma {:induction false} OverLimitRun(limit: Option<nat>, s: State, trace: seq<Action>, t: State, i: nat)
    requires OverLimit(limit, s, i) && i < s.cursor && IsRun(limit, s, trace, t) && Synced(limit, s, trace, t)
    ensures HandedOut(t.jobs, i) == HandedOut(s.jobs, i) && Follow(s.jobs, t.jobs)
    decreases |trace|
  {
    if trace != [] {
      var u := Next(limit, s, trace[0]);
      OverLimitStep(limit, s, trace[0], i);
      OverLimitRun(limit, u, trace[1..], t, i);
      FollowTransitive(s.jobs, u.jobs, t.jobs);
    }
  }

  /** From the moment an entry is parked, whether or not its acknowledgement succeeds, no sweep that
    * sees the pending list as it is hands it out for dispatch again. Only a job that already had the
    * entry in hand, and has not come to its call, can still dispatch it. */
  lemma ParkedIsFinal(limit: Option<nat>, before: seq<Action>, s: State, trace: seq<Action>, t: State, i: nat)
    requires IsRun(limit, Initial(), before, s) && i in s.parked
    requires IsRun(limit, s, trace, t) && Synced(limit, s, trace, t)
    ensures Dispatches(s.jobs, i) <= Dispatches(t.jobs, i)
    ensures forall j :: j in Dispatches(t.jobs, i) && j !in Dispatches(s.jobs, i) ==>
                          j in HandedOut(s.jobs, i) && MayCall(s.jobs[j])
  {
    RunKeepsPark(limit, Initial(), before, s);
    RunKeepsPark(limit, s, trace, t);
    OverLimitRun(limit, s, trace, t, i);
    forall j | j in Dispatches(t.jobs, i) ensures j in HandedOut(s.jobs, i) {
      assert JobOk(t, t.jobs[j]);
      assert j in HandedOut(t.jobs, i);
    }
    forall j | j in Dispatches(s.jobs, i) ensures j in Dispatches(t.jobs, i) {
      assert t.jobs[j].called;
    }
  }

  lemma Then(limit: Option<nat>, s: State, a: Action, rest: seq<Action>, t: State) returns (trace: seq<Action>)
    requires Enabled(limit, s, a) && !a.Claim?
    requires IsRun(limit, Next(limit, s, a), rest, t) && Synced(limit, Next(limit, s, a), rest, t)
    ensures trace == [a] + rest && IsRun(limit, s, trace, t) && Synced(limit, s, trace, t)
  {
    trace := [a] + rest;
    assert trace[1..] == rest;
  }

  lemma ReadyCalls(limit: Option<nat>, s: State, j: nat) returns (trace: seq<Action>, t: State)
    requires In(s, j, Ready) && !s.jobs[j].park
    ensures IsRun(limit, s, trace, t) && Synced(limit, s, trace, t)
    ensures t.jobs == s.jobs[j := Job(s.jobs[j].entry, false, Calling, true)]
  {
    t := Next(limit, s, Call(j));
    assert IsRun(limit, t, [], t);
    trace := Then(limit, s, Call(j), [], t);
  }

  lemma CheckedCalls(limit: Option<nat>, s: State, j: nat) returns (trace: seq<Action>, t: State)
    requires In(s, j, Checking) && !s.jobs[j].park && s.jobs[j].entry < |s.entries|
    requires s.entries[s.jobs[j].entry] !in s.dedup
    ensures IsRun(limit, s, trace, t) && Synced(limit, s, trace, t)
    ensures t.jobs == s.jobs[j := Job(s.jobs[j].entry, false, Calling, true)]
  {
    var rest;
    rest, t := ReadyCalls(limit, To(s, j, Ready), j);
    trace := Then(limit, s, Check(j), rest, t);
  }

  lemma UncheckedCalls(limit: Option<nat>, s: State, j: nat) returns (trace: seq<Action>, t: State)
    requires In(s, j, Checking) && !s.jobs[j].park && s.jobs[j].entry < |s.entries|
    ensures IsRun(limit, s, trace, t) && Synced(limit, s, trace, t)
    ensures t.jobs == s.jobs[j := Job(s.jobs[j].entry, false, Calling, true)]
  {
    var event := s.entries[s.jobs[j].entry];
    if event in s.dedup {
      var rest;
      rest, t := CheckedCalls(limit, s.(dedup := s.dedup - {event}), j);
      trace := Then(limit, s, Expire(event), rest, t);
    } else {
      trace, t := CheckedCalls(limit, s, j);
    }
  }

  /** Such a job can do so: it decodes, finds no dedup key once that has expired, and calls. */
  lemma CanStillCall(limit: Option<nat>, s: State, j: nat) returns (trace: seq<Action>, t: State)
    requires Inv(s) && j < |s.jobs| && !s.jobs[j].park && MayCall(s.jobs[j])
    ensures IsRun(limit, s, trace, t) && Synced(limit, s, trace, t)
    ensures t.jobs == s.jobs[j := Job(s.jobs[j].entry, false, Calling, true)]
  {
    assert JobOk(s, s.jobs[j]);
    if s.jobs[j].stage.Ready? {
      trace, t := ReadyCalls(limit, s, j);
    } else if s.jobs[j].stage.Received? {
      var rest;
      rest, t := UncheckedCalls(limit, To(s, j, Checking), j);
      trace := Then(limit, s, Decode(j, true), rest, t);
    } else {
      trace, t := UncheckedCalls(limit, s, j);
    }
  }

  /** The run goes on to dispatch entry i once more. */
  ghost predicate DispatchesAgain(limit: Option<nat>, s: State, i: nat, trace: seq<Action>, t: State) {
    IsRun(limit, s, trace, t) && Dispatches(t.jobs, i) != Dispatches(s.jobs, i)
  }

  /** So it does, by sweeps that see the pending list as it is. */
  ghost predicate DispatchesInSync(limit: Option<nat>, s: State, i: nat, trace: seq<Action>, t: State) {
    DispatchesAgain(limit, s, i, trace, t) && Synced(limit, s, trace, t)
  }

  /** Some job has the entry in hand for dispatch and has not come to its call. */
  ghost predicate InHand(s: State, i: nat) {
    exists j :: j in HandedOut(s.jobs, i) && MayCall(s.jobs[j])
  }

  lemma InHandCalls(limit: Option<nat>, s: State, i: nat) returns (trace: seq<Action>, t: State)
    requires Inv(s) && InHand(s, i)
    ensures DispatchesInSync(limit, s, i, trace, t)
  {
    var j :| j in HandedOut(s.jobs, i) && MayCall(s.jobs[j]);
    assert JobOk(s, s.jobs[j]);
    trace, t := CanStillCall(limit, s, j);
    assert j in Dispatches(t.jobs, i) && j !in Dispatches(s.jobs, i);
  }

  /** With sweeps that see the pending list as it is, a parked entry can still be dispatched if and only if
    * it is in hand. */
  lemma DispatchedInSyncIff(limit: Option<nat>, before: seq<Action>, s: State, i: nat)
    requires IsRun(limit, Initial(), before, s) && i in s.parked
    ensures i < s.cursor
    ensures (exists trace, t :: DispatchesInSync(limit, s, i, trace, t)) <==> InHand(s, i)
  {
    RunKeepsPark(limit, Initial(), before, s);
    if trace, t :| DispatchesInSync(limit, s, i, trace, t) {
      ParkedIsFinal(limit, before, s, trace, t, i);
      var j :| j in Dispatches(t.jobs, i) && j !in Dispatches(s.jobs, i);
      assert j in HandedOut(s.jobs, i) && MayCall(s.jobs[j]);
    }
    if InHand(s, i) {
      var trace, t := InHandCalls(limit, s, i);
    }
  }

  lemma GoneStep(limit: Option<nat>, s: State, a: Action, i: nat)
    requires i !in s.pending && i < s.cursor && Enabled(limit, s, a)
    ensures var t := Next(limit, s, a);
            && i !in t.pending && i < t.cursor
            && HandedOut(t.jobs, i) == HandedOut(s.jobs, i) && Follow(s.jobs, t.jobs)
  {
    if a.Read? {
      HandedOutGrow(s.jobs, Job(s.cursor, false, Received, false), i);
    } else if a.Claim? {
      HandedOutGrow(s.jobs, Job(a.entry, a.entry in s.snapshots[a.snapshot], Received, false), i);
    } else {
      OtherStep(limit, s, a, i);
    }
  }

  /** An entry that has left the pending list is handed out no more. */
  lemma {:induction false} GoneRun(limit: Option<nat>, s: State, trace: seq<Action>, t: State, i: nat)
    requires i !in s.pending && i < s.cursor && IsRun(limit, s, trace, t)
    ensures HandedOut(t.jobs, i) == HandedOut(s.jobs, i) && Follow(s.jobs, t.jobs)
    decreases |trace|
  {
    if trace != [] {
      var u := Next(limit, s, trace[0]);
      GoneStep(limit, s, trace[0], i);
      GoneRun(limit, u, trace[1..], t, i);
      FollowTransitive(s.jobs, u.jobs, t.jobs);
    }
  }

  lemma GoneStaysUndispatched(limit: Option<nat>, s: State, trace: seq<Action>, t: State, i: nat)
    requires Inv(s) && i !in s.pending && i < s.cursor && IsRun(limit, s, trace, t) && !InHand(s, i)
    ensures Dispatches(t.jobs, i) == Dispatches(s.jobs, i)
  {
    RunKeepsInv(limit, s, trace, t);
    GoneRun(limit, s, trace, t, i);
    forall j | j in Dispatches(t.jobs, i) ensures j in Dispatches(s.jobs, i) {
      assert JobOk(t, t.jobs[j]) && j in HandedOut(t.jobs, i);
    }
    forall j | j in Dispatches(s.jobs, i) ensures j in Dispatches(t.jobs, i) {
      assert t.jobs[j].called;
    }
  }

  /** A sweep whose first call does not list a pending entry claims it for dispatch. */
  lemma PendingCalls(limit: Option<nat>, s: State, i: nat) returns (trace: seq<Action>, t: State)
    requires Inv(s) && i in s.pending
    ensures DispatchesAgain(limit, s, i, trace, t)
  {
    var k := |s.snapshots|;
    var listed := Next(limit, s, Xpending({}));
    StepKeepsInv(limit, s, Xpending({}));
    var claimed := Next(limit, listed, Claim(k, i));
    StepKeepsInv(limit, listed, Claim(k, i));
    var rest;
    rest, t := CanStillCall(limit, claimed, |s.jobs|);
    trace := [Claim(k, i)] + rest;
    assert trace[1..] == rest && IsRun(limit, listed, trace, t);
    trace := [Xpending({})] + trace;
    assert trace[1..] == [Claim(k, i)] + rest;
    assert |s.jobs| in Dispatches(t.jobs, i) && |s.jobs| !in Dispatches(s.jobs, i);
  }

  /** Exactly when an entry that has been delivered, a parked one included, can be dispatched again: it is
    * still pending, or in hand. */
  lemma DispatchedAgainIff(limit: Option<nat>, before: seq<Action>, s: State, i: nat)
    requires IsRun(limit, Initial(), before, s) && i < s.cursor
    ensures (exists trace, t :: DispatchesAgain(limit, s, i, trace, t)) <==> (i in s.pending || InHand(s, i))
  {
    RunKeepsInv(limit, Initial(), before, s);
    if trace, t :| DispatchesAgain(limit, s, i, trace, t) {
      if i !in s.pending && !InHand(s, i) {
        GoneStaysUndispatched(limit, s, trace, t, i);
      }
    }
    if i in s.pending {
      var trace, t := PendingCalls(limit, s, i);
    } else if InHand(s, i) {
      var trace, t := InHandCalls(limit, s, i);
    }
  }
}
