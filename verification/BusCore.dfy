/** The dispatcher object itself: BusCore's fields, updated in place by the stretches of code that
  * run between awaits. The ghost view ties the object to the step system of Dispatcher.
  */
module BusCore {
  import D = Dispatcher
  import opened Collections
  import Semaphore

  class BusCore {
    const config: D.Config
    var queues: seq<seq<D.Envelope>>
    var items: Semaphore.Sem
    var workers: seq<D.Phase>
    var admitted: seq<D.Envelope>
    var blocked: seq<D.Envelope>
    var started: bool
    var closing: bool
    var stopping: bool
    ghost var view: D.State

    ghost predicate Valid()
      reads this
    {
      && |queues| == D.LANES
      && (forall i :: 0 <= i < D.LANES ==> queues[i] == view.lanes[i].items)
      && items == view.sem && workers == view.workers
      && admitted == view.admitted && blocked == view.blocked
      && started == view.started && closing == view.closing && stopping == view.stopping
    }

    constructor (config: D.Config)
      ensures Valid() && this.config == config && view == D.Initial()
      ensures D.Inv(config, view)
    {
      D.InitialInv(config);
      this.config := config;
      queues := seq(D.LANES, _ => []);
      items := Semaphore.Sem(0, []);
      workers, admitted, blocked := [], [], [];
      started, closing, stopping := false, false, false;
      view := D.Initial();
    }

    predicate IsFull(lane: D.LaneIndex)
      requires |queues| == D.LANES
      reads this
    {
      config.queueSize > 0 && |queues[lane]| >= config.queueSize
    }

    /** queue.put_nowait followed by the semaphore's release. */
    method PutAndRelease(e: D.Envelope)
      requires Valid()
      modifies this
      ensures Valid() && view == D.Put(old(view), e)
    {
      queues := queues[e.lane := queues[e.lane] + [e]];
      items := Semaphore.Release(items);
      view := D.Put(view, e);
    }

    method PublishMeta(meta: D.Envelope)
      requires Valid()
      modifies this
      ensures Valid() && view == D.PublishMeta(config, old(view), meta)
    {
      if !IsFull(meta.lane) {
        view := D.CountMeta(view, meta);
        PutAndRelease(meta);
      }
    }

    /** drop_oldest: the head of the queue makes room, if the queue has not drained meanwhile. */
    method ReplaceOldest(e: D.Envelope)
      requires Valid()
      modifies this
      ensures Valid()
      ensures view == D.Put(if old(queues)[e.lane] == [] then old(view) else D.DropHead(old(view), e.lane), e)
    {
      if queues[e.lane] != [] {
        queues := queues[e.lane := queues[e.lane][1..]];
        view := D.DropHead(view, e.lane);
      }
      PutAndRelease(e);
    }

    method EnqueueLocal(e: D.Envelope, inMeta: bool, meta: D.Envelope) returns (r: D.EnqueueResult)
      requires Valid()
      modifies this
      ensures Valid() && (view, r) == D.EnqueueLocal(config, old(view), e, inMeta, meta)
      ensures r.Rejected? <==> old(IsFull(e.lane)) && D.PolicyFor(config, e.topic) == D.Reject
      ensures r.Suspended? <==> old(IsFull(e.lane)) && D.PolicyFor(config, e.topic) == D.Block
    {
      if IsFull(e.lane) {
        var policy := D.PolicyFor(config, e.topic);
        if !inMeta {
          PublishMeta(meta);
        }
        if policy == D.Reject {
          view := D.Refuse(view, e);
          return D.Rejected;
        }
        if policy == D.DropOldest {
          ReplaceOldest(e);
          return D.Enqueued;
        }
        blocked := blocked + [e];
        view := view.(blocked := view.blocked + [e]);
        return D.Suspended;
      }
      PutAndRelease(e);
      r := D.Enqueued;
    }

    /** The start of publish(): refused once close() has begun. */
    method Admit(e: D.Envelope) returns (ok: bool)
      requires Valid()
      modifies this
      ensures Valid() && ok == !old(closing)
      ensures view == if ok then D.Next(config, old(view), D.Admit(e)) else old(view)
    {
      ok := !closing;
      if ok {
        admitted := admitted + [e];
        view := D.Next(config, view, D.Admit(e));
      }
    }

    /** The rest of publish(), once the outbox has taken the envelope: by then the bus may be closing. */
    method Enqueue(i: nat, inMeta: bool, meta: D.Envelope) returns (r: D.EnqueueResult)
      requires Valid() && D.Inv(config, view) && i < |admitted| && meta.lane == D.HIGH
      modifies this
      ensures Valid() && D.Inv(config, view) && view == D.Next(config, old(view), D.Enqueue(i, inMeta, meta))
      ensures var e := old(admitted)[i];
              && (r.Rejected? <==> old(IsFull(e.lane)) && D.PolicyFor(config, e.topic) == D.Reject)
              && (r.Suspended? <==> old(IsFull(e.lane)) && D.PolicyFor(config, e.topic) == D.Block)
    {
      D.StepKeepsInv(config, view, D.Enqueue(i, inMeta, meta));
      var e := admitted[i];
      admitted := admitted[..i] + admitted[i + 1..];
      view := D.Leave(view, i);
      r := EnqueueLocal(e, inMeta, meta);
    }

    /** publish() without an outbox, where nothing is awaited before the queues. */
    method Publish(e: D.Envelope, inMeta: bool, meta: D.Envelope) returns (r: Option<D.EnqueueResult>)
      requires Valid() && D.Inv(config, view) && meta.lane == D.HIGH
      modifies this
      ensures Valid() && D.Inv(config, view)
      ensures old(closing) ==> r == None && view == old(view)
      ensures r == Some(D.Rejected) <==>
              !old(closing) && old(IsFull(e.lane)) && D.PolicyFor(config, e.topic) == D.Reject
      ensures r == Some(D.Suspended) <==>
              !old(closing) && old(IsFull(e.lane)) && D.PolicyFor(config, e.topic) == D.Block
      ensures !old(closing) ==>
                r.Some? && D.IsRun(config, old(view), [D.Admit(e), D.Enqueue(|old(admitted)|, inMeta, meta)], view)
    {
      ghost var before := view;
      var ok := Admit(e);
      if !ok {
        return None;
      }
      D.StepKeepsInv(config, before, D.Admit(e));
      ghost var between, second := view, D.Enqueue(|before.admitted|, inMeta, meta);
      var result := Enqueue(|admitted| - 1, inMeta, meta);
      r := Some(result);
      assert D.IsRun(config, between, [second], view);
      assert [D.Admit(e), second][1..] == [second];
    }

    /** A suspended put whose queue has room again. */
    method ResumePut(i: nat)
      requires Valid() && i < |blocked| && !IsFull(blocked[i].lane)
      modifies this
      ensures Valid() && view == D.Next(config, old(view), D.ResumePut(i))
    {
      var e := blocked[i];
      blocked := blocked[..i] + blocked[i + 1..];
      view := view.(blocked := blocked);
      PutAndRelease(e);
    }

    /** Pop the next envelope, highest priority queue first. */
    method PopNext() returns (e: Option<D.Envelope>, ghost from: nat)
      requires |queues| == D.LANES
      modifies this`queues
      ensures |queues| == D.LANES && from <= D.LANES
      ensures forall i :: 0 <= i < from ==> old(queues[i]) == []
      ensures from < D.LANES ==> old(queues[from]) != [] && e == Some(old(queues[from])[0]) &&
                                 queues == old(queues)[from := old(queues[from])[1..]]
      ensures from == D.LANES ==> e == None && queues == old(queues)
    {
      for i := 0 to D.LANES
        invariant queues == old(queues) && forall k :: 0 <= k < i ==> queues[k] == []
      {
        if queues[i] != [] {
          e, from := Some(queues[i][0]), i;
          queues := queues[i := queues[i][1..]];
          return;
        }
      }
      e, from := None, D.LANES;
    }

    /** What a worker does once acquire() has returned. */
    method UsePermit(w: nat)
      requires Valid() && w < |workers|
      modifies this
      ensures Valid() && view == D.UsePermit(old(view), w)
    {
      var e, from := PopNext();
      assert from == D.FirstNonEmpty(view.lanes);
      if e.None? {
        workers := workers[w := if stopping then D.Exited else D.Ready];
      } else {
        workers := workers[w := D.Dispatching(e.value)];
      }
      view := D.UsePermit(view, w);
    }

    /** The worker reaches acquire(): it takes a permit at once or joins the queue. */
    method Acquire(w: nat)
      requires Valid() && w < |workers| && workers[w].Ready?
      modifies this
      ensures Valid() && view == D.Next(config, old(view), D.Acquire(w))
      ensures workers[w].Waiting? <==> old(items).value == 0 || old(items).waiters != []
    {
      if Semaphore.CanTake(items) {
        items := Semaphore.Take(items);
        view := view.(sem := items);
        UsePermit(w);
      } else {
        items := Semaphore.Enter(items, w);
        workers := workers[w := D.Waiting];
        view := D.Next(config, view, D.Acquire(w));
      }
    }

    /** A waiting worker that was granted a permit runs. */
    method Wake(w: nat)
      requires Valid() && w < |workers| && workers[w].Waiting? && Semaphore.HoldsGrant(items.waiters, w)
      modifies this
      ensures Valid() && view == D.Next(config, old(view), D.Wake(w))
    {
      ghost var next := D.Next(config, view, D.Wake(w));
      var resumed := Semaphore.Resume(items, w);
      assert next == D.UsePermit(view.(sem := resumed), w);
      items := resumed;
      view := view.(sem := resumed);
      UsePermit(w);
    }

    method Handled(w: nat)
      requires Valid() && w < |workers| && workers[w].Dispatching?
      modifies this
      ensures Valid() && view == D.Next(config, old(view), D.Handled(w))
    {
      workers := workers[w := D.Ready];
      view := D.Next(config, view, D.Handled(w));
    }

    method Start()
      requires Valid()
      modifies this
      ensures Valid()
      ensures view == if old(started) then old(view) else D.Next(config, old(view), D.Start)
    {
      if started {
        return;
      }
      view := D.Next(config, view, D.Start);
      started, closing, stopping := true, false, false;
      workers := workers + seq(config.workers, _ => D.Ready);
    }

    /** The first part of close(); a second close() returns at once. */
    method BeginClose() returns (first: bool)
      requires Valid()
      modifies this
      ensures Valid() && closing && first == !old(closing)
      ensures view == if first then D.Next(config, old(view), D.BeginClose) else old(view)
    {
      first := !closing;
      if first {
        closing := true;
        view := D.Next(config, view, D.BeginClose);
      }
    }

    method ReleaseAll()
      modifies this`items
      ensures items == D.ReleaseMany(old(items), config.workers)
    {
      for n := 0 to config.workers
        invariant items == D.ReleaseMany(old(items), n)
      {
        items := Semaphore.Release(items);
      }
    }

    /** The part of close() after the drain: one release for every worker. */
    method StopWorkers()
      requires Valid() && closing && !stopping
      modifies this
      ensures Valid() && view == D.Next(config, old(view), D.Stop)
    {
      stopping := true;
      ReleaseAll();
      view := D.Next(config, view, D.Stop);
    }
  }
}
