/** One consumer process of the group, in the form the program has: fields updated in place, one method
  * per coroutine, run here without interference. A ghost log records the steps of GroupDelivery that
  * each method takes, so everything proved of all runs holds of every state this object reaches.
  */
module GroupConsumer {
  import opened Collections
  import G = GroupDelivery

  /** How the remote calls made for one entry turn out. */
  datatype Outcome = Outcome(decodes: bool, getFails: bool, succeeds: bool, marked: bool, acked: bool)

  /** The part of _handle_message after the dedup check. */
  function DispatchSteps(j: nat, o: Outcome): seq<G.Action> {
    if o.succeeds then [G.Call(j), G.Return(j), G.Mark(j, o.marked), G.Ack(j, o.acked)]
    else [G.Call(j), G.Raise(j)]
  }

  /** The part from the dedup check on. */
  function DecodedSteps(j: nat, seen: bool, o: Outcome): seq<G.Action> {
    if o.getFails then [G.Abort(j)]
    else [G.Check(j)] + if seen then [G.Ack(j, o.acked)] else DispatchSteps(j, o)
  }

  /** _handle_message as steps of job j, given whether the event's dedup key exists. */
  function HandlerSteps(j: nat, seen: bool, o: Outcome): seq<G.Action> {
    if !o.decodes then [G.Decode(j, false), G.Ack(j, o.acked)]
    else [G.Decode(j, true)] + DecodedSteps(j, seen, o)
  }

  /** _park_to_dlq: an entry that decodes goes to the callback, whose failure is ignored. */
  function ParkSteps(j: nat, o: Outcome): seq<G.Action> {
    if o.decodes then [G.Decode(j, true), G.DlqDone(j), G.Ack(j, o.acked)]
    else [G.Decode(j, false), G.Ack(j, o.acked)]
  }

  /** The claimed entries from the n-th on have not been looked at yet. */
  ghost predicate StillToDo(jobs: seq<G.Job>, before: nat, listed: seq<nat>, over: set<nat>, n: nat) {
    && before + |listed| == |jobs|
    && forall k :: n <= k < |listed| ==> jobs[before + k] == G.Job(listed[k], listed[k] in over, G.Received, false)
  }

  lemma NotAmong(listed: seq<nat>, n: nat)
    requires Distinct(listed) && n < |listed|
    ensures multiset(listed[..n])[listed[n]] == 0
  {
    assert listed[n] !in listed[..n];
  }

  predicate IsLocal(a: G.Action, j: nat) {
    match a
    case Decode(k, _) => k == j
    case Check(k) => k == j
    case Call(k) => k == j
    case Return(k) => k == j
    case Raise(k) => k == j
    case DlqDone(k) => k == j
    case Abort(k) => k == j
    case _ => false
  }

  function StageAfter(s: G.State, a: G.Action, j: nat): G.Stage
    requires j < |s.jobs|
  {
    match a
    case Decode(_, ok) => if !ok then G.Acking else if s.jobs[j].park then G.CallingDlq else G.Checking
    case Check(_) =>
      if s.jobs[j].entry < |s.entries| && s.entries[s.jobs[j].entry] in s.dedup then G.Acking else G.Ready
    case Call(_) => G.Calling
    case Return(_) => G.Marking
    case DlqDone(_) => G.Acking
    case _ => G.Over
  }

  ghost predicate OthersKept(s: G.State, t: G.State, j: nat) {
    |t.jobs| == |s.jobs| && forall k :: 0 <= k < |s.jobs| && k != j ==> t.jobs[k] == s.jobs[k]
  }

  function Claimed(listed: seq<nat>, over: set<nat>): (jobs: seq<G.Job>)
    ensures |jobs| == |listed|
    ensures forall k :: 0 <= k < |listed| ==> jobs[k] == G.Job(listed[k], listed[k] in over, G.Received, false)
  {
    seq(|listed|, k requires 0 <= k < |listed| => G.Job(listed[k], listed[k] in over, G.Received, false))
  }

  /** The entries from one cursor position to another. */
  function Between(first: nat, end: nat): seq<nat>
    requires first <= end
  {
    seq(end - first, k requires 0 <= k => first + k)
  }

  lemma BetweenMembers(first: nat, end: nat)
    requires first <= end
    ensures Distinct(Between(first, end))
    ensures forall k :: 0 <= k < |Between(first, end)| ==> Between(first, end)[k] < end
  {
  }

  lemma ClaimedToDo(jobs: seq<G.Job>, listed: seq<nat>, over: set<nat>)
    ensures StillToDo(jobs + Claimed(listed, over), |jobs|, listed, over, 0)
  {
  }

  // ---------------------------------------------------------------------
  // What becomes of a batch
  // ---------------------------------------------------------------------

  /** The pending list and the dedup keys, and whether an exception has ended the batch. */
  datatype Progress = Progress(pending: set<nat>, dedup: set<EventId>, escaped: bool)

  predicate Escapes(park: bool, o: Outcome) {
    !park && o.decodes && o.getFails
  }

  predicate Seen(entries: seq<EventId>, dedup: set<EventId>, i: nat) {
    i < |entries| && entries[i] in dedup
  }

  /** The entry is acknowledged: it was to be parked, does not decode, is a duplicate or was handled. */
  predicate Settles(park: bool, seen: bool, o: Outcome) {
    o.acked && (park || !o.decodes || (!o.getFails && (seen || o.succeeds)))
  }

  predicate Marks(park: bool, seen: bool, o: Outcome) {
    !park && o.decodes && !o.getFails && !seen && o.succeeds && o.marked
  }

  function AfterOne(entries: seq<EventId>, p: Progress, i: nat, park: bool, o: Outcome): Progress {
    if p.escaped then p
    else
      var seen := Seen(entries, p.dedup, i);
      Progress(p.pending - (if Settles(park, seen, o) then {i} else {}),
               p.dedup + (if i < |entries| && Marks(park, seen, o) then {entries[i]} else {}), Escapes(park, o))
  }

  function Handled(entries: seq<EventId>, p: Progress, batch: seq<nat>, over: set<nat>, o: nat -> Outcome): Progress {
    if batch == [] then p
    else
      var i := batch[|batch| - 1];
      AfterOne(entries, Handled(entries, p, batch[..|batch| - 1], over, o), i, i in over, o(i))
  }

  lemma {:induction false} EscapeStays(entries: seq<EventId>, p: Progress, batch: seq<nat>, over: set<nat>,
                                       o: nat -> Outcome, n: nat)
    requires n <= |batch| && (n == |batch| || Handled(entries, p, batch[..n], over, o).escaped)
    ensures Handled(entries, p, batch, over, o) == Handled(entries, p, batch[..n], over, o)
  {
    if n < |batch| {
      assert batch[..|batch| - 1][..n] == batch[..n];
      EscapeStays(entries, p, batch[..|batch| - 1], over, o, n);
    } else {
      assert batch[..n] == batch;
    }
  }

  lemma {:induction false} OthersStayPending(entries: seq<EventId>, p: Progress, batch: seq<nat>, over: set<nat>,
                                             o: nat -> Outcome, i: nat)
    requires i !in batch
    ensures i in Handled(entries, p, batch, over, o).pending <==> i in p.pending
  {
    if batch != [] {
      OthersStayPending(entries, p, batch[..|batch| - 1], over, o, i);
    }
  }

  /** The k-th entry of a batch leaves the pending list if and only if no exception ended the batch before
    * its turn and it is acknowledged then. */
  lemma {:induction false} LeavesPendingIff(entries: seq<EventId>, p: Progress, batch: seq<nat>, over: set<nat>,
                                            o: nat -> Outcome, k: nat)
    requires Distinct(batch) && k < |batch| && batch[k] in p.pending
    ensures var before := Handled(entries, p, batch[..k], over, o);
            batch[k] in Handled(entries, p, batch, over, o).pending <==>
            before.escaped || !Settles(batch[k] in over, Seen(entries, before.dedup, batch[k]), o(batch[k]))
  {
    var init := batch[..|batch| - 1];
    if k < |init| {
      assert init[..k] == batch[..k];
      LeavesPendingIff(entries, p, init, over, o, k);
    } else {
      OthersStayPending(entries, p, init, over, o, batch[k]);
    }
  }

  /** Every acknowledgement of the batch succeeds and no lookup fails. */
  ghost predicate Undisturbed(batch: seq<nat>, over: set<nat>, o: nat -> Outcome) {
    forall i :: i in batch ==> o(i).acked && !Escapes(i in over, o(i))
  }

  lemma {:induction false} UndisturbedGoesOn(entries: seq<EventId>, p: Progress, batch: seq<nat>, over: set<nat>,
                                             o: nat -> Outcome, k: nat)
    requires k <= |batch| && Undisturbed(batch, over, o) && !p.escaped
    ensures !Handled(entries, p, batch[..k], over, o).escaped
  {
    if k > 0 {
      assert batch[..k][..k - 1] == batch[..k - 1] && batch[k - 1] in batch;
      UndisturbedGoesOn(entries, p, batch, over, o, k - 1);
    }
  }

  /** Then an entry stays pending only if its callback failed: it was not over the limit and decoded, and
    * its event had no dedup key when its turn came. */
  lemma UndisturbedLeaves(entries: seq<EventId>, p: Progress, batch: seq<nat>, over: set<nat>, o: nat -> Outcome,
                          k: nat)
    requires Distinct(batch) && Undisturbed(batch, over, o) && !p.escaped
    requires k < |batch| && batch[k] in p.pending
    ensures batch[k] in Handled(entries, p, batch, over, o).pending <==>
            && batch[k] !in over && o(batch[k]).decodes && !o(batch[k]).succeeds
            && !Seen(entries, Handled(entries, p, batch[..k], over, o).dedup, batch[k])
  {
    UndisturbedGoesOn(entries, p, batch, over, o, k);
    LeavesPendingIff(entries, p, batch, over, o, k);
    assert batch[k] in batch;
  }

  /** The entries of the batch that are still pending have failed. */
  ghost predicate OnlyFailures(batch: seq<nat>, over: set<nat>, o: nat -> Outcome, before: set<nat>, after: set<nat>) {
    forall i :: i in batch && i in before && i in after ==> i !in over && o(i).decodes && !o(i).succeeds
  }

  lemma OnlyFailuresStay(entries: seq<EventId>, p: Progress, batch: seq<nat>, over: set<nat>, o: nat -> Outcome)
    requires Distinct(batch) && Undisturbed(batch, over, o) && !p.escaped
    ensures OnlyFailures(batch, over, o, p.pending, Handled(entries, p, batch, over, o).pending)
  {
    forall i | i in batch && i in p.pending && i in Handled(entries, p, batch, over, o).pending
      ensures i !in over && o(i).decodes && !o(i).succeeds
    {
      var k :| 0 <= k < |batch| && batch[k] == i;
      UndisturbedLeaves(entries, p, batch, over, o, k);
    }
  }

  class Group {
    const limit: Option<nat>
    // the server
    var entries: seq<EventId>
    var cursor: nat
    var pending: set<nat>
    var deliveries: multiset<nat>
    var dedup: set<EventId>
    ghost var view: G.State
    ghost var log: seq<G.Action>

    ghost predicate Valid()
      reads this
    {
      && entries == view.entries && cursor == view.cursor && pending == view.pending
      && deliveries == view.deliveries && dedup == view.dedup
      && IsSyncedRun()
    }

    /** Sweeps run here without interference, so each sees the pending list as it is. */
    ghost predicate IsSyncedRun()
      reads this
    {
      G.IsRun(limit, G.Initial(), log, view) && G.Synced(limit, G.Initial(), log, view)
    }

    constructor (limit: Option<nat>)
      ensures Valid() && this.limit == limit && log == []
    {
      this.limit := limit;
      entries, cursor, pending, deliveries, dedup := [], 0, {}, multiset{}, {};
      view, log := G.Initial(), [];
    }

    ghost function Now(): Progress
      reads this
    {
      Progress(pending, dedup, false)
    }

    ghost predicate Reaches(p: Progress)
      reads this
    {
      pending == p.pending && dedup == p.dedup
    }

    ghost method Step(a: G.Action)
      requires IsSyncedRun() && G.Enabled(limit, view, a) && G.InSync(limit, view, a)
      modifies `view, `log
      ensures view == G.Next(limit, old(view), a) && log == old(log) + [a] && IsSyncedRun()
    {
      G.SyncedExtends(limit, G.Initial(), log, view, a);
      view, log := G.Next(limit, view, a), log + [a];
    }

    /** A step of job j that leaves the server's state alone. */
    ghost method Advance(a: G.Action, j: nat)
      requires Valid() && G.Enabled(limit, view, a) && j < |view.jobs| && IsLocal(a, j)
      modifies `view, `log
      ensures Valid() && log == old(log) + [a] && OthersKept(old(view), view, j)
      ensures view.jobs[j].entry == old(view).jobs[j].entry && view.jobs[j].park == old(view).jobs[j].park
      ensures view.jobs[j].called == (old(view).jobs[j].called || a.Call?)
      ensures view.jobs[j].stage == StageAfter(old(view), a, j)
    {
      Step(a);
    }

    method Xadd(event: EventId)
      requires Valid()
      modifies this
      ensures Valid() && log == old(log) + [G.Xadd(event)]
    {
      Step(G.Xadd(event));
      entries := entries + [event];
    }

    /** XREADGROUP: the next batch of new entries. */
    method ReadGroup(count: nat) returns (batch: seq<nat>)
      requires Valid() && cursor <= |entries|
      modifies this
      ensures Valid() && entries == old(entries) && dedup == old(dedup)
      ensures cursor == if |entries| - old(cursor) < count then |entries| else old(cursor) + count
      ensures batch == Between(old(cursor), cursor) && pending == old(pending) + Elements(batch)
      ensures log == old(log) + seq(|batch|, _ => G.Read)
      ensures view.jobs == old(view).jobs + Claimed(batch, {})
    {
      batch := [];
      while cursor < |entries| && |batch| < count
        invariant Valid() && |batch| <= count && cursor == old(cursor) + |batch| <= |entries|
        invariant batch == Between(old(cursor), cursor)
        invariant entries == old(entries) && dedup == old(dedup) && pending == old(pending) + Elements(batch)
        invariant log == old(log) + seq(|batch|, _ => G.Read)
        invariant view.jobs == old(view).jobs + Claimed(batch, {})
      {
        ElementsAppend(batch, cursor);
        batch := batch + [cursor];
        ReadOne();
      }
    }

    method ReadOne()
      requires Valid() && cursor < |entries|
      modifies this
      ensures Valid() && log == old(log) + [G.Read]
      ensures entries == old(entries) && cursor == old(cursor) + 1 && dedup == old(dedup)
      ensures pending == old(pending) + {old(cursor)}
      ensures view.jobs == old(view).jobs + [G.Job(old(cursor), false, G.Received, false)]
    {
      Step(G.Read);
      pending, deliveries := pending + {cursor}, deliveries + multiset{cursor};
      cursor := cursor + 1;
    }

    /** XACK; the server may or may not have carried it out. */
    method Xack(ghost j: nat, i: nat, acked: bool)
      requires Valid() && G.In(view, j, G.Acking) && view.jobs[j].entry == i
      modifies this
      ensures Valid() && log == old(log) + [G.Ack(j, acked)]
      ensures pending == old(pending) - (if acked then {i} else {}) && dedup == old(dedup)
      ensures entries == old(entries) && cursor == old(cursor) && deliveries == old(deliveries)
      ensures OthersKept(old(view), view, j) && view.jobs[j].called == old(view).jobs[j].called
    {
      Step(G.Ack(j, acked));
      if acked {
        pending := pending - {i};
      }
    }

    /** SET dedup_key. */
    method MarkSeen(ghost j: nat, i: nat, marked: bool)
      requires Valid() && G.In(view, j, G.Marking) && view.jobs[j].entry == i < |entries|
      modifies this
      ensures Valid() && log == old(log) + [G.Mark(j, marked)]
      ensures entries == old(entries) && cursor == old(cursor) && deliveries == old(deliveries)
      ensures dedup == old(dedup) + (if marked then {entries[i]} else {}) && pending == old(pending)
      ensures G.In(view, j, G.Acking) && view.jobs[j].entry == i && OthersKept(old(view), view, j)
      ensures view.jobs[j].called == old(view).jobs[j].called
    {
      Step(G.Mark(j, marked));
      if marked {
        dedup := dedup + {entries[i]};
      }
    }

    /** Dispatch an entry that is not a known duplicate. */
    method Dispatch(ghost j: nat, i: nat, o: Outcome)
      requires Valid() && i < |entries| && G.In(view, j, G.Ready) && view.jobs[j].entry == i
      modifies this
      ensures Valid() && log == old(log) + DispatchSteps(j, o)
      ensures entries == old(entries) && cursor == old(cursor) && deliveries == old(deliveries)
      ensures dedup == old(dedup) + if o.succeeds && o.marked then {entries[i]} else {}
      ensures pending == old(pending) - if o.succeeds && o.acked then {i} else {}
      ensures OthersKept(old(view), view, j) && view.jobs[j].called
    {
      Advance(G.Call(j), j);
      if !o.succeeds {
        Advance(G.Raise(j), j);
        return;
      }
      Advance(G.Return(j), j);
      MarkSeen(j, i, o.marked);
      Xack(j, i, o.acked);
    }

    /** Dedup-check, dispatch and acknowledge one entry; false when an exception escapes. */
    method HandleMessage(ghost j: nat, i: nat, o: Outcome) returns (ok: bool)
      requires Valid() && i < |entries|
      requires j < |view.jobs| && view.jobs[j] == G.Job(i, false, G.Received, false)
      modifies this
      ensures Valid() && log == old(log) + HandlerSteps(j, old(entries)[i] in old(dedup), o)
      ensures ok == !(o.decodes && o.getFails) && Reaches(AfterOne(entries, old(Now()), i, false, o))
      ensures j < |view.jobs| && view.jobs[j].called == (o.decodes && !o.getFails && old(entries)[i] !in old(dedup))
      ensures entries == old(entries) && cursor == old(cursor) && deliveries == old(deliveries)
      ensures OthersKept(old(view), view, j)
    {
      if !o.decodes {
        Advance(G.Decode(j, false), j);
        Xack(j, i, o.acked);
        return true;
      }
      Advance(G.Decode(j, true), j);
      ok := HandleDecoded(j, i, o);
    }

    method HandleDecoded(ghost j: nat, i: nat, o: Outcome) returns (ok: bool)
      requires Valid() && i < |entries| && o.decodes
      requires G.In(view, j, G.Checking) && view.jobs[j].entry == i
      modifies this
      ensures Valid() && log == old(log) + DecodedSteps(j, old(entries)[i] in old(dedup), o)
      ensures ok == !o.getFails && Reaches(AfterOne(entries, old(Now()), i, false, o))
      ensures j < |view.jobs| &&
              view.jobs[j].called == (old(view).jobs[j].called || (!o.getFails && old(entries)[i] !in old(dedup)))
      ensures entries == old(entries) && cursor == old(cursor) && deliveries == old(deliveries)
      ensures OthersKept(old(view), view, j)
    {
      if o.getFails {
        Advance(G.Abort(j), j);
        return false;
      }
      var seen := entries[i] in dedup;
      Advance(G.Check(j), j);
      if seen {
        Xack(j, i, o.acked);
      } else {
        Dispatch(j, i, o);
      }
      ok := true;
    }

    /** Terminal handling of an entry over the limit: handed to the dead-letter callback, never to
      * on_envelope, and acknowledged whatever the callback does. */
    method ParkToDlq(ghost j: nat, i: nat, o: Outcome)
      requires Valid()
      requires j < |view.jobs| && view.jobs[j] == G.Job(i, true, G.Received, false)
      modifies this
      ensures Valid() && log == old(log) + ParkSteps(j, o)
      ensures pending == old(pending) - if o.acked then {i} else {}
      ensures j < |view.jobs| && !view.jobs[j].called
      ensures entries == old(entries) && cursor == old(cursor) && deliveries == old(deliveries) && dedup == old(dedup)
      ensures OthersKept(old(view), view, j)
    {
      Advance(G.Decode(j, o.decodes), j);
      if o.decodes {
        Advance(G.DlqDone(j), j);
      }
      Xack(j, i, o.acked);
    }

    predicate IsOverLimit(i: nat)
      reads this
    {
      limit.Some? && deliveries[i] > limit.value
    }

    ghost predicate HoldsSnapshot(over: set<nat>)
      reads this
    {
      |view.snapshots| > 0 && view.snapshots[|view.snapshots| - 1] == over
    }

    method ClaimOne(i: nat, ghost over: set<nat>)
      requires Valid() && i in pending && HoldsSnapshot(over) && (i in over <==> IsOverLimit(i))
      modifies this
      ensures Valid() && HoldsSnapshot(over)
      ensures entries == old(entries) && cursor == old(cursor) && pending == old(pending) && dedup == old(dedup)
      ensures deliveries == old(deliveries) + multiset{i}
      ensures view.jobs == old(view).jobs + [G.Job(i, i in over, G.Received, false)]
    {
      Step(G.Claim(|view.snapshots| - 1, i));
      deliveries := deliveries + multiset{i};
    }

    /** XAUTOCLAIM: each listed entry is delivered once more. */
    method ClaimAll(listed: seq<nat>, ghost over: set<nat>)
      requires Valid() && Distinct(listed) && HoldsSnapshot(over)
      requires forall i :: i in listed ==> i in pending && (i in over <==> IsOverLimit(i))
      modifies this
      ensures Valid()
      ensures entries == old(entries) && cursor == old(cursor) && pending == old(pending) && dedup == old(dedup)
      ensures deliveries == old(deliveries) + multiset(listed)
      ensures view.jobs == old(view).jobs + Claimed(listed, over)
    {
      var n := 0;
      while n < |listed|
        invariant n <= |listed| && Valid() && HoldsSnapshot(over)
        invariant entries == old(entries) && cursor == old(cursor) && pending == old(pending) && dedup == old(dedup)
        invariant deliveries == old(deliveries) + multiset(listed[..n])
        invariant view.jobs == old(view).jobs + Claimed(listed[..n], over)
      {
        var i := listed[n];
        assert listed[..n + 1] == listed[..n] + [i] && i in listed;
        NotAmong(listed, n);
        ClaimOne(i, over);
        n := n + 1;
      }
      assert listed[..n] == listed;
    }

    /** XPENDING, then XAUTOCLAIM, over the entries the server lists as stale: an entry that was already
      * over the limit is to be parked. */
    method Reclaim(listed: seq<nat>) returns (over: set<nat>)
      requires Valid() && Distinct(listed) && forall i :: i in listed ==> i in pending
      modifies this
      ensures Valid() && over == old(OverAmong(listed))
      ensures entries == old(entries) && cursor == old(cursor) && pending == old(pending) && dedup == old(dedup)
      ensures deliveries == old(deliveries) + multiset(listed)
      ensures view.jobs == old(view).jobs + Claimed(listed, over)
    {
      over := set i | i in listed && IsOverLimit(i);
      Step(G.Xpending(over));
      ClaimAll(listed, over);
    }

    /** Handle entries in order, parking those over the limit. An exception that escapes the handler
      * leaves the rest of the batch pending. */
    method HandleBatch(ghost before: nat, batch: seq<nat>, over: set<nat>, o: nat -> Outcome)
      requires Valid() && StillToDo(view.jobs, before, batch, over, 0)
      requires forall k :: 0 <= k < |batch| ==> batch[k] < |entries|
      modifies this
      ensures Valid() && entries == old(entries) && cursor == old(cursor) && deliveries == old(deliveries)
      ensures Reaches(Handled(entries, old(Now()), batch, over, o))
      ensures Distinct(batch) && Undisturbed(batch, over, o) ==>
                OnlyFailures(batch, over, o, old(pending), pending)
    {
      var n, ok := 0, true;
      while n < |batch| && ok
        invariant n <= |batch| && Valid()
        invariant entries == old(entries) && cursor == old(cursor) && deliveries == old(deliveries)
        invariant StillToDo(view.jobs, before, batch, over, n)
        invariant Reaches(Handled(entries, old(Now()), batch[..n], over, o))
        invariant ok == !Handled(entries, old(Now()), batch[..n], over, o).escaped
      {
        assert batch[..n + 1][..n] == batch[..n];
        ok := HandleOne(before + n, batch[n], batch[n] in over, o(batch[n]));
        n := n + 1;
      }
      EscapeStays(entries, old(Now()), batch, over, o, n);
      if Distinct(batch) && Undisturbed(batch, over, o) {
        OnlyFailuresStay(entries, old(Now()), batch, over, o);
      }
    }

    /** The listed entries that are over the limit. */
    ghost function OverAmong(listed: seq<nat>): set<nat>
      reads this
    {
      set i | i in listed && IsOverLimit(i)
    }

    /** One pass of the sweeper. */
    method Sweep(listed: seq<nat>, o: nat -> Outcome)
      requires Valid() && Distinct(listed)
      requires forall k :: 0 <= k < |listed| ==> listed[k] in pending && listed[k] < |entries|
      modifies this
      ensures Valid() && entries == old(entries) && deliveries == old(deliveries) + multiset(listed)
      ensures Reaches(Handled(entries, old(Now()), listed, old(OverAmong(listed)), o))
      ensures Undisturbed(listed, old(OverAmong(listed)), o) ==>
                OnlyFailures(listed, old(OverAmong(listed)), o, old(pending), pending)
    {
      var over := Reclaim(listed);
      ClaimedToDo(old(view).jobs, listed, over);
      HandleBatch(|old(view).jobs|, listed, over, o);
    }

    /** One turn of the consumer loop: read a batch and handle it in order. */
    method ConsumeOnce(count: nat, o: nat -> Outcome)
      requires Valid() && cursor <= |entries|
      modifies this
      ensures Valid() && entries == old(entries)
      ensures cursor == if |entries| - old(cursor) < count then |entries| else old(cursor) + count
      ensures var batch := Between(old(cursor), cursor);
              Reaches(Handled(entries, Progress(old(pending) + Elements(batch), old(dedup), false), batch, {}, o))
      ensures var batch := Between(old(cursor), cursor);
              Undisturbed(batch, {}, o) ==> OnlyFailures(batch, {}, o, old(pending) + Elements(batch), pending)
    {
      var batch := ReadGroup(count);
      BetweenMembers(old(cursor), cursor);
      ClaimedToDo(old(view).jobs, batch, {});
      HandleBatch(|old(view).jobs|, batch, {}, o);
    }

    method HandleOne(ghost j: nat, i: nat, park: bool, o: Outcome) returns (ok: bool)
      requires Valid() && i < |entries|
      requires j < |view.jobs| && view.jobs[j] == G.Job(i, park, G.Received, false)
      modifies this
      ensures Valid() && ok == !Escapes(park, o) && Reaches(AfterOne(entries, old(Now()), i, park, o))
      ensures log == old(log) + if park then ParkSteps(j, o) else HandlerSteps(j, old(entries)[i] in old(dedup), o)
      ensures entries == old(entries) && cursor == old(cursor) && deliveries == old(deliveries)
      ensures OthersKept(old(view), view, j)
    {
      if park {
        ParkToDlq(j, i, o);
        ok := true;
      } else {
        ok := HandleMessage(j, i, o);
      }
    }
  }

  /** Whatever this consumer has been through, it has dispatched no entry more than limit + 1 times. */
  lemma ConsumerRespectsLimit(g: Group, i: nat)
    requires g.Valid() && g.limit.Some?
    ensures |G.Dispatches(g.view.jobs, i)| <= g.limit.value + 1
  {
    G.SyncedDeliveryBound(g.limit.value, g.log, g.view, i);
  }
}
