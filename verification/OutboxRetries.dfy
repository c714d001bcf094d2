/** What becomes of a row whose publish keeps failing: after MAX_ATTEMPTS failures no delay can be computed
  * any more, the row is left as it was, and it is retried in every pass.
  */
module OutboxRetries {
  import opened Collections
  import opened Outbox
  import opened OutboxProtocol
  import opened OutboxRuns

  // ---------------------------------------------------------------------
  // Once the delay is gone
  // ---------------------------------------------------------------------

  /** No nack of id is on its way to the store. */
  ghost predicate NoNackPending(tasks: seq<Task>, id: EventId) {
    forall i :: 0 <= i < |tasks| ==> !(tasks[i].Nacking? && tasks[i].id == id)
  }

  /** Every further failure of id is one for which no delay can be computed. */
  ghost predicate Exhausted(s: State, id: EventId) {
    AttemptsOf(s.attempts, id) >= MAX_ATTEMPTS && NoNackPending(s.tasks, id)
  }

  /** The steps that start the count of id over, or write a row for it. */
  predicate StartsOver(s: State, a: Action, id: EventId) {
    || a.Crash?
    || (a.Append? && a.id == id)
    || (a.Settle? && a.i < |s.tasks| && s.tasks[a.i].Settled? && s.tasks[a.i].id == id && s.tasks[a.i].outcome.Acked?)
    || (a.Refresh? && a.i < |s.tasks| && s.tasks[a.i].Sampled? && s.tasks[a.i].pending == 0)
  }

  lemma ExhaustedCount(c: Config, s: State, a: Action, id: EventId)
    requires Enabled(c, s, a) && AttemptsOf(s.attempts, id) >= MAX_ATTEMPTS && !StartsOver(s, a, id)
    ensures AttemptsOf(Next(c, s, a).attempts, id) >= MAX_ATTEMPTS
  {
    if AttemptsOf(Next(c, s, a).attempts, id) < AttemptsOf(s.attempts, id) {
      AttemptsOnlyGrow(c, s, a, id);
    }
  }

  /** In such a step the row of id, if it stays, stays as it is. */
  lemma ExhaustedRow(c: Config, s: State, a: Action, id: EventId)
    requires Enabled(c, s, a) && Exhausted(s, id) && !StartsOver(s, a, id)
    ensures id in Next(c, s, a).rows ==> id in s.rows && Next(c, s, a).rows[id] == s.rows[id]
  {
    if a.CommitNack? {
      assert !(s.tasks[a.i].Nacking? && s.tasks[a.i].id == id);
    }
  }

  lemma ExhaustedStep(c: Config, s: State, a: Action, id: EventId)
    requires Enabled(c, s, a) && Exhausted(s, id) && !StartsOver(s, a, id)
    ensures Exhausted(Next(c, s, a), id)
  {
    ExhaustedCount(c, s, a, id);
    OthersStay(c, s, a);
    var next := Next(c, s, a).tasks;
    forall j | 0 <= j < |next| ensures !(next[j].Nacking? && next[j].id == id) {
      if Writes(c, s, a, j) && next[j].Nacking? {
        WrittenNack(c, s, a, j);
      }
    }
  }

  function StartingOver(id: EventId): (State, Action) -> bool {
    (x: State, a: Action) => StartsOver(x, a, id)
  }

  /** From MAX_ATTEMPTS failures on the row of id is left as it was, however often it is tried again: once
    * due it stays due. That ends only with a confirmed publish, a crash, an empty table or a new append. */
  lemma {:induction false} ExhaustedRowIsFrozen(c: Config, s: State, trace: seq<Action>, t: State, id: EventId)
    requires IsRun(c, s, trace, t) && Exhausted(s, id) && !Ever(c, s, trace, StartingOver(id))
    ensures Exhausted(t, id) && (id in t.rows ==> id in s.rows && t.rows[id] == s.rows[id])
    decreases |trace|
  {
    if trace != [] {
      ExhaustedStep(c, s, trace[0], id);
      ExhaustedRow(c, s, trace[0], id);
      ExhaustedRowIsFrozen(c, Next(c, s, trace[0]), trace[1..], t, id);
    }
  }

  // ---------------------------------------------------------------------
  // A run that gets there
  // ---------------------------------------------------------------------

  /** Between two relay passes: one row, created at 0, that failed n times and is due by now. */
  predicate Resting(s: State, id: EventId, n: nat, now: real) {
    && s.rows.Keys == {id} && s.rows[id].decodable && s.rows[id].createdAt == 0.0 && s.rows[id].nextTryAt <= now
    && s.inflight == {} && AttemptsOf(s.attempts, id) == n
  }

  /** The relay reads the row and starts publishing it. */
  lemma PassBegins(c: Config, within: State -> bool, r: State, id: EventId, n: nat, now: real) returns (t: State)
    requires Roomy(c) && Closed(c, within) && within(r) && Resting(r, id, n, now) && now <= c.store.maxAge
    ensures within(t)
    ensures t == r.(tasks := r.tasks + [Publishing(id, RelayPass([]))], inflight := {id})
  {
    var fetched := r.(tasks := r.tasks + [Relaying([id])]);
    FetchOne(c, r, now, id);
    Onward(c, within, r, Fetch(now, [id]), fetched);
    t := r.(tasks := r.tasks + [Publishing(id, RelayPass([]))], inflight := {id});
    assert [id][1..] == [] && fetched.inflight + {id} == {id};
    Onward(c, within, fetched, Pick(|r.tasks|), t);
  }

  lemma PassEnds(c: Config, within: State -> bool, r: State, id: EventId, s: State) returns (t: State)
    requires Closed(c, within) && within(s) && s.inflight == {id}
    requires s.tasks == r.tasks + [Settled(id, RelayPass([]), Failed)]
    ensures within(t) && t == s.(tasks := r.tasks + [Relaying([])], inflight := {})
  {
    t := s.(tasks := r.tasks + [Relaying([])], inflight := {});
    assert s.inflight - {id} == {};
    Onward(c, within, s, Settle(|r.tasks|), t);
  }

  lemma DelayOf(c: Config, n: nat) returns (delay: real)
    requires 1 <= n <= MAX_ATTEMPTS
    ensures Backoff(c, n) == Some(delay) && delay <= c.maxBackoff
  {
    delay := Backoff(c, n).value;
  }

  lemma PutLast(tasks: seq<Task>, t: Task, u: Task)
    ensures (tasks + [t])[|tasks| := u] == tasks + [u]
  {
  }

  lemma PassFails(c: Config, within: State -> bool, r: State, id: EventId, n: nat, now: real, error: string, t: Task)
    returns (failed: State)
    requires Roomy(c) && Closed(c, within) && within(r) && Resting(r, id, n, now) && now <= c.store.maxAge
    requires t == match Backoff(c, n + 1)
                  case None => Settled(id, RelayPass([]), Failed)
                  case Some(delay) => Nacking(id, RelayPass([]), error, now + delay, now)
    ensures within(failed) && failed.tasks == r.tasks + [t]
    ensures failed.rows == r.rows && failed.inflight == {id} && failed.attempts == r.attempts[id := n + 1]
  {
    var s := PassBegins(c, within, r, id, n, now);
    FailStep(c, s, |r.tasks|, id, RelayPass([]), n, now, error);
    PutLast(r.tasks, Publishing(id, RelayPass([])), t);
    failed := s.(tasks := r.tasks + [t], attempts := s.attempts[id := n + 1]);
    Onward(c, within, s, Fail(|r.tasks|, now, error), failed);
  }

  /** Below the limit the failure is put on record and the retry put off. */
  lemma PassNacks(c: Config, within: State -> bool, r: State, id: EventId, n: nat, now: real, error: string)
    returns (t: State)
    requires Roomy(c) && Closed(c, within) && within(r) && Resting(r, id, n, now) && now <= c.store.maxAge
    requires n < MAX_ATTEMPTS
    ensures within(t) && Resting(t, id, n + 1, now + c.maxBackoff)
  {
    var delay := DelayOf(c, n + 1);
    var failed := PassFails(c, within, r, id, n, now, error, Nacking(id, RelayPass([]), error, now + delay, now));
    t := PassNacked(c, within, r, id, failed, error, now + delay, now);
    RestsAfterNack(r, t, id, n, error, now + delay, now + c.maxBackoff);
  }

  lemma RestsAfterNack(r: State, t: State, id: EventId, n: nat, error: string, at: real, due: real)
    requires r.rows.Keys == {id} && r.rows[id].decodable && r.rows[id].createdAt == 0.0 && at <= due
    requires t.rows == NackRows(r.rows, id, error, at) && t.inflight == {} && t.attempts == r.attempts[id := n + 1]
    ensures Resting(t, id, n + 1, due)
  {
    assert t.rows.Keys == r.rows.Keys;
  }

  lemma PassNacked(c: Config, within: State -> bool, r: State, id: EventId, s: State, error: string, at: real,
                   now: real)
    returns (t: State)
    requires Closed(c, within) && within(s) && s.inflight == {id}
    requires s.tasks == r.tasks + [Nacking(id, RelayPass([]), error, at, now)]
    ensures within(t) && t.inflight == {} && t.attempts == s.attempts
    ensures t.rows == NackRows(s.rows, id, error, at)
  {
    var owner, k := RelayPass([]), |r.tasks|;
    NackStep(c, s, k, id, owner, error, at, now);
    PutLast(r.tasks, Nacking(id, owner, error, at, now), Settled(id, owner, Failed));
    var nacked := Next(c, s, CommitNack(k));
    Onward(c, within, s, CommitNack(k), nacked);
    t := PassEnds(c, within, r, id, nacked);
  }

  /** From the limit on the row stays as it is. */
  lemma PassLeavesRow(c: Config, within: State -> bool, r: State, id: EventId, n: nat, now: real, error: string)
    returns (t: State)
    requires Roomy(c) && Closed(c, within) && within(r) && Resting(r, id, n, now) && now <= c.store.maxAge
    requires n >= MAX_ATTEMPTS
    ensures within(t) && Resting(t, id, n + 1, now) && t.rows == r.rows
  {
    var failed := PassFails(c, within, r, id, n, now, error, Settled(id, RelayPass([]), Failed));
    t := PassEnds(c, within, r, id, failed);
  }

  /** By when n retries are due at the latest. */
  function Horizon(c: Config, n: nat): real {
    if n == 0 then 0.0 else Horizon(c, n - 1) + c.maxBackoff
  }

  lemma {:induction false} HorizonIsProduct(c: Config, n: nat)
    ensures Horizon(c, n) == n as real * c.maxBackoff
  {
    if n > 0 {
      HorizonIsProduct(c, n - 1);
      assert n as real * c.maxBackoff == ((n - 1) as real + 1.0) * c.maxBackoff;
      assert ((n - 1) as real + 1.0) * c.maxBackoff == (n - 1) as real * c.maxBackoff + c.maxBackoff;
    }
  }

  /** n passes, each at the time the retry is due at the latest, that all fail. */
  lemma {:induction false} FailuresPileUp(c: Config, within: State -> bool, r: State, id: EventId, n: nat,
                                          error: string)
    returns (s: State)
    requires Roomy(c) && c.maxBackoff >= 0.0 && n <= MAX_ATTEMPTS && Horizon(c, n) <= c.store.maxAge
    requires Closed(c, within) && within(r) && Resting(r, id, 0, 0.0)
    ensures within(s) && Resting(s, id, n, Horizon(c, n))
  {
    if n == 0 {
      s := r;
    } else {
      var before := FailuresPileUp(c, within, r, id, n - 1, error);
      s := PassNacks(c, within, before, id, n - 1, Horizon(c, n - 1), error);
    }
  }

  /** An outage long enough for MAX_ATTEMPTS retries, yet shorter than rows are kept, ends the backoff: the
    * next failure leaves the row due at the very instant of that failure. */
  lemma BackoffCollapses(c: Config, id: EventId, error: string) returns (s: State, t: State, now: real)
    requires Roomy(c) && c.maxBackoff >= 0.0 && MAX_ATTEMPTS as real * c.maxBackoff <= c.store.maxAge
    ensures now == MAX_ATTEMPTS as real * c.maxBackoff
    ensures Reaches(c, Initial(), s) && Reaches(c, Initial(), t)
    ensures AttemptsOf(s.attempts, id) == MAX_ATTEMPTS && AttemptsOf(t.attempts, id) == MAX_ATTEMPTS + 1
    ensures t.rows == s.rows && id in DueIds(t.rows, now)
  {
    var within := ReachableStates(c);
    var r := FirstAppend(c, within, id, 0.0);
    s, t, now := FailuresGoOn(c, within, r, id, error);
  }

  lemma FailuresGoOn(c: Config, within: State -> bool, r: State, id: EventId, error: string)
    returns (s: State, t: State, now: real)
    requires Roomy(c) && c.maxBackoff >= 0.0 && MAX_ATTEMPTS as real * c.maxBackoff <= c.store.maxAge
    requires Closed(c, within) && within(r) && Resting(r, id, 0, 0.0)
    ensures now == MAX_ATTEMPTS as real * c.maxBackoff && within(s) && within(t)
    ensures AttemptsOf(s.attempts, id) == MAX_ATTEMPTS && AttemptsOf(t.attempts, id) == MAX_ATTEMPTS + 1
    ensures t.rows == s.rows && id in DueIds(t.rows, now)
  {
    HorizonIsProduct(c, MAX_ATTEMPTS);
    now := Horizon(c, MAX_ATTEMPTS);
    s := FailuresPileUp(c, within, r, id, MAX_ATTEMPTS, error);
    t := PassLeavesRow(c, within, s, id, MAX_ATTEMPTS, now, error);
  }
}
