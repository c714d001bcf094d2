/** What becomes of every publish that the dispatcher lets in: over any run it is still waiting, or was put
  * into its queue, suspended, cancelled or refused, and which of these is decided by its queue and its policy.
  */
module PublishFates {
  import opened Collections
  import opened Dispatcher
  import opened Semaphore

  /** How often x was put into the queues. */
  ghost function Puts(lanes: seq<Lane>, x: Envelope): nat {
    if lanes == [] then 0 else multiset(lanes[0].put)[x] + Puts(lanes[1..], x)
  }

  /** One more of x if the condition holds and e is x. */
  function One(condition: bool, e: Envelope, x: Envelope): nat {
    if condition && e == x then 1 else 0
  }

  lemma {:induction false} PutsUpdate(lanes: seq<Lane>, i: nat, l: Lane, x: Envelope)
    requires i < |lanes|
    ensures Puts(lanes[i := l], x) == Puts(lanes, x) - multiset(lanes[i].put)[x] + multiset(l.put)[x]
  {
    if i > 0 {
      assert lanes[i := l][1..] == lanes[1..][i - 1 := l];
      PutsUpdate(lanes[1..], i - 1, l, x);
    } else {
      assert lanes[i := l][1..] == lanes[1..];
    }
  }

  lemma PutsPut(s: State, e: Envelope, x: Envelope)
    ensures Puts(Put(s, e).lanes, x) == Puts(s.lanes, x) + One(true, e, x)
  {
    PutsUpdate(s.lanes, e.lane, PutLane(s.lanes[e.lane], e), x);
  }

  lemma PutsMeta(c: Config, s: State, meta: Envelope, x: Envelope)
    ensures Puts(PublishMeta(c, s, meta).lanes, x) ==
            Puts(s.lanes, x) + One(!Full(c, s.lanes[meta.lane]), meta, x)
  {
    PutsPut(CountMeta(s, meta), meta, x);
  }

  lemma PutsShorter(s: State, k: LaneIndex, x: Envelope)
    requires s.lanes[k].items != []
    ensures Puts(s.lanes[k := PopLane(s.lanes[k])], x) == Puts(s.lanes, x)
    ensures Puts(DropHead(s, k).lanes, x) == Puts(s.lanes, x)
  {
    PutsUpdate(s.lanes, k, PopLane(s.lanes[k]), x);
    PutsUpdate(s.lanes, k, DropLane(s.lanes[k]), x);
  }

  lemma PutsPermit(s: State, w: nat, x: Envelope)
    requires w < |s.workers|
    ensures Puts(UsePermit(s, w).lanes, x) == Puts(s.lanes, x)
  {
    var k := FirstNonEmpty(s.lanes);
    if k < |s.lanes| {
      PutsShorter(s, k, x);
    }
  }

  /** The publish that goes on to its queue meets it full. */
  predicate MeetsFull(c: Config, s: State, a: Action) {
    a.Enqueue? && a.index < |s.admitted| && Full(c, s.lanes[s.admitted[a.index].lane])
  }

  predicate MeetsFullUnder(c: Config, s: State, a: Action, policy: Policy) {
    MeetsFull(c, s, a) && PolicyFor(c, s.admitted[a.index].topic) == policy
  }

  /** The meta event that goes with a full queue is put if its own queue has room. */
  predicate EmitsMeta(c: Config, s: State, a: Action) {
    MeetsFull(c, s, a) && !a.inMeta && !Full(c, s.lanes[a.backpressureMeta.lane])
  }

  /** The fate of a publish that goes on to its queue. It is refused exactly if it meets the queue full under
    * the reject policy, and suspended exactly if it does under the block policy; then it is not put, and
    * in all other cases it is. Meeting a full queue emits the meta event, if that has room. */
  lemma EnqueueFate(c: Config, s: State, a: Action, x: Envelope)
    requires a.Enqueue? && Enabled(c, s, a)
    ensures var e, m, t := s.admitted[a.index], a.backpressureMeta, Next(c, s, a);
            var refused, suspended := MeetsFullUnder(c, s, a, Reject), MeetsFullUnder(c, s, a, Block);
            && t.fates.refused[x] == s.fates.refused[x] + One(refused, e, x)
            && t.blocked == s.blocked + (if suspended then [e] else [])
            && Puts(t.lanes, x) ==
               Puts(s.lanes, x) + One(!refused && !suspended, e, x) + One(EmitsMeta(c, s, a), m, x)
            && t.fates.metas[x] == s.fates.metas[x] + One(EmitsMeta(c, s, a), m, x)
            && t.fates.entered == s.fates.entered && t.fates.abandoned == s.fates.abandoned
            && t.fates.cancelled == s.fates.cancelled && t.admitted == Leave(s, a.index).admitted
    ensures var r := EnqueueLocal(c, Leave(s, a.index), s.admitted[a.index], a.inMeta, a.backpressureMeta).1;
            && (r.Rejected? <==> MeetsFullUnder(c, s, a, Reject))
            && (r.Suspended? <==> MeetsFullUnder(c, s, a, Block))
  {
    PutsOfEnqueue(c, Leave(s, a.index), s.admitted[a.index], a.inMeta, a.backpressureMeta, x);
    HistoryOfEnqueue(c, Leave(s, a.index), s.admitted[a.index], a.inMeta, a.backpressureMeta, x);
    ResultOfEnqueue(c, Leave(s, a.index), s.admitted[a.index], a.inMeta, a.backpressureMeta);
  }

  lemma PutsOfEnqueue(c: Config, s: State, e: Envelope, inMeta: bool, m: Envelope, x: Envelope)
    ensures var full, policy := Full(c, s.lanes[e.lane]), PolicyFor(c, e.topic);
            Puts(EnqueueLocal(c, s, e, inMeta, m).0.lanes, x) ==
            Puts(s.lanes, x) + One(!(full && (policy.Reject? || policy.Block?)), e, x) +
            One(full && !inMeta && !Full(c, s.lanes[m.lane]), m, x)
  {
    if !Full(c, s.lanes[e.lane]) {
      PutsPut(s, e, x);
    } else {
      var t := if inMeta then s else PublishMeta(c, s, m);
      PutsMeta(c, s, m, x);
      if PolicyFor(c, e.topic) == DropOldest {
        PutsOfReplace(t, e, x);
      }
    }
  }

  lemma PutsOfReplace(t: State, e: Envelope, x: Envelope)
    ensures Puts(Put(if t.lanes[e.lane].items == [] then t else DropHead(t, e.lane), e).lanes, x) ==
            Puts(t.lanes, x) + One(true, e, x)
  {
    if t.lanes[e.lane].items == [] {
      PutsPut(t, e, x);
    } else {
      PutsShorter(t, e.lane, x);
      PutsPut(DropHead(t, e.lane), e, x);
    }
  }

  lemma HistoryOfEnqueue(c: Config, s: State, e: Envelope, inMeta: bool, m: Envelope, x: Envelope)
    ensures var full, policy, t := Full(c, s.lanes[e.lane]), PolicyFor(c, e.topic), EnqueueLocal(c, s, e, inMeta, m).0;
            && t.fates.metas[x] == s.fates.metas[x] + One(full && !inMeta && !Full(c, s.lanes[m.lane]), m, x)
            && t.fates.refused[x] == s.fates.refused[x] + One(full && policy.Reject?, e, x)
            && t.blocked == s.blocked + (if full && policy.Block? then [e] else [])
            && t.admitted == s.admitted && t.fates.entered == s.fates.entered
            && t.fates.abandoned == s.fates.abandoned && t.fates.cancelled == s.fates.cancelled
  {
    if Full(c, s.lanes[e.lane]) {
      HistoryOfPolicy(if inMeta then s else PublishMeta(c, s, m), e, PolicyFor(c, e.topic), x);
    }
  }

  lemma HistoryOfPolicy(t: State, e: Envelope, policy: Policy, x: Envelope)
    ensures var u := ApplyPolicy(t, e, policy).0;
            && u.fates.refused[x] == t.fates.refused[x] + One(policy.Reject?, e, x)
            && u.blocked == t.blocked + (if policy.Block? then [e] else [])
            && u.admitted == t.admitted && u.fates.entered == t.fates.entered && u.fates.metas == t.fates.metas
            && u.fates.abandoned == t.fates.abandoned && u.fates.cancelled == t.fates.cancelled
  {
  }

  lemma ResultOfEnqueue(c: Config, s: State, e: Envelope, inMeta: bool, m: Envelope)
    ensures var r := EnqueueLocal(c, s, e, inMeta, m).1;
            && (r.Rejected? <==> Full(c, s.lanes[e.lane]) && PolicyFor(c, e.topic).Reject?)
            && (r.Suspended? <==> Full(c, s.lanes[e.lane]) && PolicyFor(c, e.topic).Block?)
  {
  }

  /** No other step refuses anything, and what is let in, abandoned or cancelled is so by the step of that
    * name alone. */
  lemma FatesExactly(c: Config, s: State, a: Action, x: Envelope)
    requires Enabled(c, s, a)
    ensures var f, g := s.fates, Next(c, s, a).fates;
            && g.entered[x] == f.entered[x] + (if a.Admit? then One(true, a.envelope, x) else 0)
            && g.abandoned[x] == f.abandoned[x] + (if a.Abandon? then One(true, s.admitted[a.index], x) else 0)
            && g.cancelled[x] == f.cancelled[x] + (if a.CancelPut? then One(true, s.blocked[a.index], x) else 0)
            && g.refused[x] == f.refused[x] +
               if MeetsFullUnder(c, s, a, Reject) then One(true, s.admitted[a.index], x) else 0
  {
    if a.Enqueue? {
      EnqueueFate(c, s, a, x);
    }
  }

  /** Whatever was let in, and every meta event that was put, is somewhere, as often as it came: still waiting
    * for the outbox, abandoned, put into a queue, blocked, cancelled while blocked, or refused. */
  ghost predicate AccountedFor(s: State, x: Envelope) {
    s.fates.entered[x] + s.fates.metas[x] ==
    multiset(s.admitted)[x] + s.fates.abandoned[x] + Puts(s.lanes, x) + multiset(s.blocked)[x] +
    s.fates.cancelled[x] + s.fates.refused[x]
  }

  lemma WithoutOne(es: seq<Envelope>, i: nat, x: Envelope)
    requires i < |es|
    ensures multiset(es)[x] == multiset(es[..i] + es[i + 1..])[x] + One(true, es[i], x)
  {
    assert es == es[..i] + [es[i]] + es[i + 1..];
  }

  lemma EnqueueKeepsAccount(c: Config, s: State, a: Action, x: Envelope)
    requires AccountedFor(s, x) && a.Enqueue? && Enabled(c, s, a)
    ensures AccountedFor(Next(c, s, a), x)
  {
    WithoutOne(s.admitted, a.index, x);
    EnqueueFate(c, s, a, x);
  }

  lemma WorkerPutsNothing(c: Config, s: State, a: Action, x: Envelope)
    requires Enabled(c, s, a) && (a.Acquire? || a.Wake?)
    ensures var t := Next(c, s, a);
            && Puts(t.lanes, x) == Puts(s.lanes, x) && t.fates == s.fates
            && t.admitted == s.admitted && t.blocked == s.blocked
  {
    if a.Wake? {
      PutsPermit(s.(sem := Resume(s.sem, a.worker)), a.worker, x);
    } else if CanTake(s.sem) {
      PutsPermit(s.(sem := Take(s.sem)), a.worker, x);
    }
  }

  lemma AbandonKeepsAccount(c: Config, s: State, i: nat, x: Envelope)
    requires AccountedFor(s, x) && Enabled(c, s, Abandon(i))
    ensures AccountedFor(Next(c, s, Abandon(i)), x)
  {
    WithoutOne(s.admitted, i, x);
  }

  lemma ResumeKeepsAccount(c: Config, s: State, i: nat, x: Envelope)
    requires AccountedFor(s, x) && Enabled(c, s, ResumePut(i))
    ensures AccountedFor(Next(c, s, ResumePut(i)), x)
  {
    WithoutOne(s.blocked, i, x);
    PutsPut(s.(blocked := s.blocked[..i] + s.blocked[i + 1..]), s.blocked[i], x);
  }

  lemma CancelKeepsAccount(c: Config, s: State, i: nat, x: Envelope)
    requires AccountedFor(s, x) && Enabled(c, s, CancelPut(i))
    ensures AccountedFor(Next(c, s, CancelPut(i)), x)
  {
    WithoutOne(s.blocked, i, x);
  }

  lemma MetaKeepsAccount(c: Config, s: State, m: Envelope, x: Envelope)
    requires AccountedFor(s, x) && Enabled(c, s, Meta(m))
    ensures AccountedFor(Next(c, s, Meta(m)), x)
  {
    PutsMeta(c, s, m, x);
  }

  lemma StepKeepsAccount(c: Config, s: State, a: Action, x: Envelope)
    requires AccountedFor(s, x) && Enabled(c, s, a)
    ensures AccountedFor(Next(c, s, a), x)
  {
    match a
    case Enqueue(_, _, _) => EnqueueKeepsAccount(c, s, a, x);
    case Abandon(i) => AbandonKeepsAccount(c, s, i, x);
    case ResumePut(i) => ResumeKeepsAccount(c, s, i, x);
    case CancelPut(i) => CancelKeepsAccount(c, s, i, x);
    case Meta(m) => MetaKeepsAccount(c, s, m, x);
    case Acquire(_) | Wake(_) => WorkerPutsNothing(c, s, a, x);
    case _ =>
  }

  lemma {:induction false} RunKeepsAccount(c: Config, s: State, trace: seq<Action>, t: State, x: Envelope)
    requires AccountedFor(s, x) && IsRun(c, s, trace, t)
    ensures AccountedFor(t, x)
    decreases |trace|
  {
    if trace != [] {
      StepKeepsAccount(c, s, trace[0], x);
      RunKeepsAccount(c, Next(c, s, trace[0]), trace[1..], t, x);
    }
  }

  lemma {:induction false} NoPuts(lanes: seq<Lane>, x: Envelope)
    requires forall i :: 0 <= i < |lanes| ==> lanes[i].put == []
    ensures Puts(lanes, x) == 0
  {
    if lanes != [] {
      NoPuts(lanes[1..], x);
    }
  }

  /** Every publish is accounted for, in every run. */
  lemma EveryPublishAccounted(c: Config, trace: seq<Action>, s: State, x: Envelope)
    requires IsRun(c, Initial(), trace, s)
    ensures AccountedFor(s, x)
  {
    NoPuts(Initial().lanes, x);
    RunKeepsAccount(c, Initial(), trace, s, x);
  }
}
