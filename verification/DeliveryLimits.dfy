/** Runs that show how far the delivery guarantees of GroupDelivery reach: the bound on dispatches is
  * attained, and a parked entry can be dispatched by a slow job or by a sweep out of sync.
  */
module DeliveryLimits {
  import opened Collections
  import opened GroupDelivery

  /** A set of states that no step leaves. */
  ghost predicate Closed(limit: Option<nat>, within: State -> bool) {
    forall s, a :: within(s) && Enabled(limit, s, a) ==> within(Next(limit, s, a))
  }

  lemma Onward(limit: Option<nat>, within: State -> bool, s: State, a: Action, t: State)
    requires Closed(limit, within) && within(s) && Enabled(limit, s, a) && t == Next(limit, s, a)
    ensures within(t)
  {
  }

  ghost predicate Reachable(limit: Option<nat>, s: State) {
    exists trace :: IsRun(limit, Initial(), trace, s)
  }

  lemma ReachableStates(limit: Option<nat>) returns (within: State -> bool)
    ensures Closed(limit, within) && within(Initial())
    ensures forall s :: within(s) ==> Reachable(limit, s)
  {
    within := (x: State) => Reachable(limit, x);
    assert IsRun(limit, Initial(), [], Initial());
    forall x, a | within(x) && Enabled(limit, x, a) ensures within(Next(limit, x, a)) {
      var trace :| IsRun(limit, Initial(), trace, x);
      RunExtends(limit, Initial(), trace, x, a);
    }
  }

  lemma PutLast(jobs: seq<Job>, a: Job, b: Job)
    ensures (jobs + [a])[|jobs| := b] == jobs + [b]
  {
  }

  /** One entry, delivered n times and pending, with no dedup key for its event. */
  predicate Pending(s: State, event: EventId, n: nat) {
    s.entries == [event] && s.cursor == 1 && s.pending == {0} && s.deliveries[0] == n && s.dedup == {}
  }

  lemma FirstRead(limit: Option<nat>, within: State -> bool, event: EventId) returns (s: State)
    requires Closed(limit, within) && within(Initial())
    ensures within(s) && Pending(s, event, 1) && s.jobs == [Job(0, false, Received, false)]
    ensures s.snapshots == [{}] && s.stale == multiset{} && s.parked == {}
  {
    var added := Initial().(entries := [event]);
    Onward(limit, within, Initial(), Xadd(event), added);
    var read := ReadNext(added);
    Onward(limit, within, added, Read, read);
    s := read.(snapshots := [{}]);
    Onward(limit, within, read, Xpending({}), s);
  }

  /** A job just handed the entry is brought to its call. */
  lemma ToReady(limit: Option<nat>, within: State -> bool, s: State, event: EventId, n: nat, before: seq<Job>)
    returns (t: State)
    requires Closed(limit, within) && within(s) && Pending(s, event, n)
    requires s.jobs == before + [Job(0, false, Received, false)]
    ensures within(t) && t == s.(jobs := before + [Job(0, false, Ready, false)])
  {
    var j := |before|;
    PutLast(before, Job(0, false, Received, false), Job(0, false, Checking, false));
    var decoded := s.(jobs := before + [Job(0, false, Checking, false)]);
    Onward(limit, within, s, Decode(j, true), decoded);
    PutLast(before, Job(0, false, Checking, false), Job(0, false, Ready, false));
    t := s.(jobs := before + [Job(0, false, Ready, false)]);
    Onward(limit, within, decoded, Check(j), t);
  }

  /** It calls, and the callback fails. */
  lemma CallFails(limit: Option<nat>, within: State -> bool, s: State, before: seq<Job>) returns (t: State)
    requires Closed(limit, within) && within(s) && s.jobs == before + [Job(0, false, Ready, false)]
    ensures within(t) && t == s.(jobs := before + [Job(0, false, Over, true)])
  {
    var j := |before|;
    PutLast(before, Job(0, false, Ready, false), Job(0, false, Calling, true));
    var calling := s.(jobs := before + [Job(0, false, Calling, true)]);
    Onward(limit, within, s, Call(j), calling);
    PutLast(before, Job(0, false, Calling, true), Job(0, false, Over, true));
    t := s.(jobs := before + [Job(0, false, Over, true)]);
    Onward(limit, within, calling, Raise(j), t);
  }

  lemma ClaimAgain(limit: nat, within: State -> bool, s: State, event: EventId, n: nat) returns (t: State)
    requires Closed(Some(limit), within) && within(s) && Pending(s, event, n)
    requires |s.snapshots| > 0 && s.snapshots[0] == {}
    ensures within(t) && Pending(t, event, n + 1) && t.jobs == s.jobs + [Job(0, false, Received, false)]
    ensures t.snapshots == s.snapshots && t.parked == s.parked
    ensures t.stale[0] == s.stale[0] + if n > limit then 1 else 0
  {
    t := ClaimEntry(Some(limit), s, 0, 0);
    Onward(Some(limit), within, s, Claim(0, 0), t);
  }

  // ---------------------------------------------------------------------
  // The bound is attained
  // ---------------------------------------------------------------------

  /** n deliveries, each dispatched by a callback that failed. */
  ghost predicate Failed(limit: nat, s: State, event: EventId, n: nat) {
    && Pending(s, event, n) && s.snapshots == [{}] && |s.jobs| == n
    && (forall j :: 0 <= j < n ==> s.jobs[j] == Job(0, false, Over, true))
    && s.stale[0] == if n > limit + 1 then n - 1 - limit else 0
  }

  lemma {:induction false} FailTimes(limit: nat, within: State -> bool, event: EventId, n: nat) returns (s: State)
    requires Closed(Some(limit), within) && within(Initial()) && n >= 1
    ensures within(s) && Failed(limit, s, event, n)
  {
    var received: State;
    var before: seq<Job> := [];
    if n == 1 {
      received := FirstRead(Some(limit), within, event);
    } else {
      var earlier := FailTimes(limit, within, event, n - 1);
      received := ClaimAgain(limit, within, earlier, event, n - 1);
      before := earlier.jobs;
    }
    assert received.jobs == before + [Job(0, false, Received, false)];
    var ready := ToReady(Some(limit), within, received, event, n, before);
    s := CallFails(Some(limit), within, ready, before);
  }

  lemma {:induction false} AllDispatched(jobs: seq<Job>)
    requires forall j :: 0 <= j < |jobs| ==> jobs[j].entry == 0 && jobs[j].called
    ensures |Dispatches(jobs, 0)| == |jobs|
  {
    if jobs == [] {
      assert Dispatches(jobs, 0) == {};
    } else {
      var init := jobs[..|jobs| - 1];
      AllDispatched(init);
      assert Dispatches(jobs, 0) == Dispatches(init, 0) + {|init|};
    }
  }

  /** For every limit and every number of claims in spite of the count there is a run in which the entry
    * is dispatched as often as the bound allows. With none it is dispatched limit + 1 times. */
  lemma BoundIsAttained(limit: nat, stale: nat, event: EventId) returns (trace: seq<Action>, s: State)
    ensures IsRun(Some(limit), Initial(), trace, s)
    ensures s.stale[0] == stale && |Dispatches(s.jobs, 0)| == limit + 1 + stale
  {
    var within := ReachableStates(Some(limit));
    s := FailTimes(limit, within, event, limit + 1 + stale);
    AllDispatched(s.jobs);
    trace :| IsRun(Some(limit), Initial(), trace, s);
  }

  // ---------------------------------------------------------------------
  // A parked entry is dispatched
  // ---------------------------------------------------------------------

  /** The first job is about to call while n later ones were handed the entry. */
  ghost predicate Slow(s: State, event: EventId, n: nat) {
    && Pending(s, event, n + 1) && s.snapshots == [{}] && |s.jobs| == n + 1 && s.parked == {}
    && s.jobs[0] == Job(0, false, Ready, false)
    && forall j :: 0 < j <= n ==> s.jobs[j] == Job(0, false, Received, false)
  }

  lemma {:induction false} SlowFirst(limit: nat, within: State -> bool, event: EventId, n: nat) returns (s: State)
    requires Closed(Some(limit), within) && within(Initial())
    ensures within(s) && Slow(s, event, n)
  {
    if n == 0 {
      var first := FirstRead(Some(limit), within, event);
      s := ToReady(Some(limit), within, first, event, 1, []);
    } else {
      var earlier := SlowFirst(limit, within, event, n - 1);
      s := ClaimAgain(limit, within, earlier, event, n);
    }
  }

  /** The entry is over the limit: a sweep sees that and parks it. */
  lemma ParkIt(limit: nat, within: State -> bool, s: State, event: EventId) returns (t: State)
    requires Closed(Some(limit), within) && within(s) && Pending(s, event, limit + 1) && s.snapshots == [{}]
    ensures within(t) && 0 in t.parked && t.pending == {0} && t.jobs == s.jobs + [Job(0, true, Acking, false)]
  {
    var k := |s.jobs|;
    var seen := s.(snapshots := [{}] + [{0}]);
    Onward(Some(limit), within, s, Xpending({0}), seen);
    var claimed := ClaimEntry(Some(limit), seen, 1, 0);
    Onward(Some(limit), within, seen, Claim(1, 0), claimed);
    PutLast(s.jobs, Job(0, true, Received, false), Job(0, true, CallingDlq, false));
    var handed := claimed.(jobs := s.jobs + [Job(0, true, CallingDlq, false)]);
    Onward(Some(limit), within, claimed, Decode(k, true), handed);
    PutLast(s.jobs, Job(0, true, CallingDlq, false), Job(0, true, Acking, false));
    t := To(handed, k, Acking).(parked := handed.parked + {0});
    Onward(Some(limit), within, handed, DlqDone(k), t);
  }

  /** For every limit a run reaches a parked entry that is dispatched afterwards: the first job was slow. */
  lemma ParkedYetDispatched(limit: nat, event: EventId)
    returns (before: seq<Action>, s: State, trace: seq<Action>, t: State)
    ensures IsRun(Some(limit), Initial(), before, s) && 0 in s.parked
    ensures DispatchesInSync(Some(limit), s, 0, trace, t)
  {
    var within := ReachableStates(Some(limit));
    var slow := SlowFirst(limit, within, event, limit);
    s := ParkIt(limit, within, slow, event);
    before :| IsRun(Some(limit), Initial(), before, s);
    trace, t := ReadyCalls(Some(limit), s, 0);
    assert 0 in Dispatches(t.jobs, 0) && 0 !in Dispatches(s.jobs, 0);
  }

  /** For every limit a run reaches a parked entry that no job has in hand but whose acknowledgement failed,
    * and that is dispatched afterwards: a sweep claims it although its first call did not list it. */
  lemma ParkedYetPending(limit: nat, event: EventId)
    returns (before: seq<Action>, s: State, trace: seq<Action>, t: State)
    ensures IsRun(Some(limit), Initial(), before, s) && 0 in s.parked && !InHand(s, 0)
    ensures DispatchesAgain(Some(limit), s, 0, trace, t)
  {
    var within := ReachableStates(Some(limit));
    var failed := FailTimes(limit, within, event, limit + 1);
    var parked := ParkIt(limit, within, failed, event);
    var k := |failed.jobs|;
    PutLast(failed.jobs, Job(0, true, Acking, false), Job(0, true, Over, false));
    s := parked.(jobs := failed.jobs + [Job(0, true, Over, false)]);
    Onward(Some(limit), within, parked, Ack(k, false), s);
    before :| IsRun(Some(limit), Initial(), before, s);
    RunKeepsInv(Some(limit), Initial(), before, s);
    trace, t := PendingCalls(Some(limit), s, 0);
  }
}
