/** The relay pass of src/navigator_eventbus/core.py, run without interference: what one pass does to
  * the outbox, and how fast passes drain it. Its interleavings are the subject of OutboxProtocol.
  */
module Relay {
  import opened Collections
  import opened Outbox
  import P = OutboxProtocol
  import R = OutboxRuns

  /** What the passage through the fetched rows has done so far. */
  datatype Progress = Progress(rows: Table, attempts: map<EventId, nat>, published: seq<EventId>, broken: bool)

  /** How the backend answers a publish of each id during the pass, and what a nack records. */
  datatype Backend = Backend(confirms: EventId -> bool, failedAt: real, error: string)

  function Step(c: P.Config, b: Backend, inflight: set<EventId>, p: Progress, id: EventId): Progress {
    if p.broken || id in inflight then p
    else if b.confirms(id) then
      p.(rows := p.rows - {id}, attempts := p.attempts - {id}, published := p.published + [id])
    else
      var n := P.AttemptsOf(p.attempts, id) + 1;
      var rows := match P.Backoff(c, n)
                  case None => p.rows
                  case Some(delay) => NackRows(p.rows, id, b.error, b.failedAt + delay);
      p.(rows := rows, attempts := p.attempts[id := n], published := p.published + [id], broken := true)
  }

  function Pass(c: P.Config, b: Backend, inflight: set<EventId>, start: Progress, ids: seq<EventId>): Progress {
    if ids == [] then start
    else Step(c, b, inflight, Pass(c, b, inflight, start, ids[..|ids| - 1]), ids[|ids| - 1])
  }

  /** The rows a pass may publish: those fetched that are not already in flight. */
  function Eligible(ids: seq<EventId>, inflight: set<EventId>): seq<EventId> {
    if ids == [] then []
    else
      Eligible(ids[..|ids| - 1], inflight) + if ids[|ids| - 1] in inflight then [] else [ids[|ids| - 1]]
  }

  class Relay {
    const c: P.Config
    const store: SqliteOutbox
    var inflight: set<EventId>
    var attempts: map<EventId, nat>
    ghost var published: seq<EventId>

    constructor (c: P.Config, store: SqliteOutbox)
      requires store.cfg == c.store
      ensures this.c == c && this.store == store && inflight == {} && attempts == map[] && published == []
    {
      this.c, this.store := c, store;
      inflight, attempts, published := {}, map[], [];
    }

    /** _backend_publish for an id just marked as in flight. */
    method PublishRow(id: EventId, b: Backend) returns (ok: bool)
      requires store.Valid() && store.open && id !in inflight
      modifies this, store
      ensures store.Valid() && store.open && inflight == old(inflight)
      ensures var next := Step(c, b, {}, Progress(old(store.rows), old(attempts), old(published), false), id);
              && store.rows == next.rows && attempts == next.attempts && published == next.published
              && ok == !next.broken
      ensures store.counters == old(store.counters)
    {
      inflight := inflight + {id};
      ok := b.confirms(id);
      published := published + [id];
      if ok {
        store.Ack(id);
        attempts := attempts - {id};
      } else {
        NackRow(id, b);
      }
      inflight := inflight - {id};
    }

    /** _outbox_nack: count the failure, and put the retry off unless no delay can be computed. */
    method NackRow(id: EventId, b: Backend)
      requires store.Valid() && store.open
      modifies this`attempts, store
      ensures store.Valid() && store.open && store.counters == old(store.counters)
      ensures var n := P.AttemptsOf(old(attempts), id) + 1;
              && attempts == old(attempts)[id := n]
              && store.rows == match P.Backoff(c, n)
                               case None => old(store.rows)
                               case Some(delay) => NackRows(old(store.rows), id, b.error, b.failedAt + delay)
    {
      var n := P.AttemptsOf(attempts, id) + 1;
      attempts := attempts[id := n];
      var delay := P.Backoff(c, n);
      if delay.Some? {
        store.Nack(id, b.error, b.failedAt + delay.value);
      }
    }

    /** The loop of a pass over the rows it fetched. */
    method RelayRows(ids: seq<EventId>, b: Backend)
      requires store.Valid() && store.open
      modifies this, store
      ensures store.Valid() && store.open && inflight == old(inflight)
      ensures var start := Progress(old(store.rows), old(attempts), old(published), false);
              var end := Pass(c, b, old(inflight), start, ids);
              store.rows == end.rows && attempts == end.attempts && published == end.published
    {
      ghost var start := Progress(store.rows, attempts, published, false);
      var broken := false;
      var i := 0;
      while i < |ids| && !broken
        invariant 0 <= i <= |ids| && store.Valid() && store.open && inflight == old(inflight)
        invariant Progress(store.rows, attempts, published, broken) == Pass(c, b, inflight, start, ids[..i])
      {
        PassNext(c, b, inflight, start, ids, i);
        ghost var before := Progress(store.rows, attempts, published, false);
        if ids[i] !in inflight {
          StepOfFree(c, b, inflight, before, ids[i]);
          var ok := PublishRow(ids[i], b);
          broken := !ok;
        }
        assert Progress(store.rows, attempts, published, broken) == Step(c, b, inflight, before, ids[i]);
        i := i + 1;
      }
      BrokenStays(c, b, inflight, start, ids, i);
    }

    /** One pass: fetch the due rows, publish those not in flight, stop after a failure. */
    method RelayOnce(now: real, b: Backend) returns (ghost sel: seq<EventId>)
      requires store.Valid() && store.cfg == c.store
      modifies this, store
      ensures store.Valid() && inflight == old(inflight)
      ensures IsSelection(Kept(c.store, old(store.rows), now), now, c.batch, sel)
      ensures var kept := Kept(c.store, old(store.rows), now);
              var start := Progress(kept - Corrupt(kept, sel), old(attempts), old(published), false);
              var end := Pass(c, b, old(inflight), start, Decoded(kept, sel));
              && store.rows == end.rows && published == end.published
              && attempts == (if end.rows == map[] then map[] else end.attempts)
    {
      var ids;
      ids, sel := store.Due(now, c.batch);
      RelayRows(ids, b);
      var pending, _ := store.Stats();
      assert pending == 0 <==> store.rows == map[];
      if pending == 0 {
        attempts := map[];
      }
    }
  }

  lemma StepOfFree(c: P.Config, b: Backend, inflight: set<EventId>, p: Progress, id: EventId)
    requires id !in inflight
    ensures Step(c, b, inflight, p, id) == Step(c, b, {}, p, id)
  {
  }

  lemma PassNext(c: P.Config, b: Backend, inflight: set<EventId>, start: Progress, ids: seq<EventId>, i: nat)
    requires i < |ids|
    ensures Pass(c, b, inflight, start, ids[..i + 1]) ==
            Step(c, b, inflight, Pass(c, b, inflight, start, ids[..i]), ids[i])
  {
    assert ids[..i + 1][..i] == ids[..i];
  }

  /** Once a publish has failed the rest of the pass does nothing. */
  lemma {:induction false} BrokenStays(c: P.Config, b: Backend, inflight: set<EventId>, start: Progress,
                                       ids: seq<EventId>, i: nat)
    requires i <= |ids| && (i == |ids| || Pass(c, b, inflight, start, ids[..i]).broken)
    ensures Pass(c, b, inflight, start, ids) == Pass(c, b, inflight, start, ids[..i])
  {
    if i < |ids| {
      var init := ids[..|ids| - 1];
      assert init[..i] == ids[..i];
      BrokenStays(c, b, inflight, start, init, i);
    } else {
      assert ids[..i] == ids;
    }
  }

  /** The circuit breaker: a pass publishes the eligible rows in order, all of them confirmed, or up to
    * and including the first that is not. */
  lemma {:induction false} PublishesUpToFirstFailure(c: P.Config, b: Backend, inflight: set<EventId>,
                                                     start: Progress, ids: seq<EventId>)
    requires start.published == [] && !start.broken
    ensures var end := Pass(c, b, inflight, start, ids);
            var eligible := Eligible(ids, inflight);
            var n := |end.published|;
            && end.published <= eligible
            && (forall k :: 0 <= k < n - 1 ==> b.confirms(end.published[k]))
            && (if end.broken then n > 0 && !b.confirms(end.published[n - 1])
                else end.published == eligible && (n > 0 ==> b.confirms(end.published[n - 1])))
  {
    if ids != [] {
      PublishesUpToFirstFailure(c, b, inflight, start, ids[..|ids| - 1]);
    }
  }

  /** With nothing in flight and a healthy backend, every fetched row is published, in order, and leaves. */
  lemma {:induction false} HealthyPassDrains(c: P.Config, b: Backend, start: Progress, ids: seq<EventId>)
    requires !start.broken && forall id :: id in ids ==> b.confirms(id)
    ensures var end := Pass(c, b, {}, start, ids);
            && !end.broken && end.rows == start.rows - Elements(ids)
            && end.published == start.published + ids && end.attempts == start.attempts - Elements(ids)
  {
    if ids == [] {
      assert Elements(ids) == {};
    } else {
      var init, last := ids[..|ids| - 1], ids[|ids| - 1];
      HealthyPassDrains(c, b, start, init);
      assert ids == init + [last];
      ElementsAppend(init, last);
    }
  }

  // ---------------------------------------------------------------------
  // Progress
  // ---------------------------------------------------------------------

  /** The table after a pass at time now with a healthy backend and nothing in flight. */
  ghost function AfterPass(c: P.Config, rows: Table, now: real, sel: seq<EventId>): Table {
    Kept(c.store, rows, now) - Elements(sel)
  }

  /** What a healthy pass leaves is the table without the selected rows: those that decode were
    * published and acked, the others were deleted while reading. */
  lemma HealthyPassLeaves(c: P.Config, b: Backend, rows: Table, now: real, sel: seq<EventId>,
                          attempts: map<EventId, nat>)
    requires IsSelection(Kept(c.store, rows, now), now, c.batch, sel)
    requires forall id :: id in sel ==> b.confirms(id)
    ensures var kept := Kept(c.store, rows, now);
            var start := Progress(kept - Corrupt(kept, sel), attempts, [], false);
            var end := Pass(c, b, {}, start, Decoded(kept, sel));
            && end.rows == AfterPass(c, rows, now, sel)
            && end.published == Decoded(kept, sel)
  {
    var kept := Kept(c.store, rows, now);
    var ids := Decoded(kept, sel);
    SelectedAreRows(kept, now, c.batch, sel);
    DecodedOrCorrupt(kept, sel);
    forall id | id in ids ensures b.confirms(id) {
      assert id in Elements(ids) + Corrupt(kept, sel);
    }
    HealthyPassDrains(c, b, Progress(kept - Corrupt(kept, sel), attempts, [], false), ids);
    RemoveMore(kept, Corrupt(kept, sel), Elements(ids));
    assert Corrupt(kept, sel) + Elements(ids) == Elements(sel);
  }

  lemma {:induction false} DecodedOrCorrupt(rows: Table, sel: seq<EventId>)
    requires Elements(sel) <= rows.Keys
    ensures Elements(Decoded(rows, sel)) + Corrupt(rows, sel) == Elements(sel)
  {
    if sel != [] {
      var init, last := sel[..|sel| - 1], sel[|sel| - 1];
      assert sel == init + [last];
      ElementsAppend(init, last);
      DecodedOrCorrupt(rows, init);
      ElementsAppend(Decoded(rows, init), last);
      assert last in rows;
      assert Corrupt(rows, sel) == Corrupt(rows, init) + if rows[last].decodable then {} else {last};
    }
  }

  function DueCount(c: P.Config, rows: Table, now: real): nat {
    |DueIds(Kept(c.store, rows, now), now)|
  }

  /** Each table after the first is what a healthy pass at the same instant leaves of the one before. */
  ghost predicate ArePasses(c: P.Config, now: real, tables: seq<Table>, sels: seq<seq<EventId>>)
    decreases |sels|
  {
    && |tables| == |sels| + 1
    && (sels != [] ==>
          && IsSelection(Kept(c.store, tables[0], now), now, c.batch, sels[0])
          && tables[1] == AfterPass(c, tables[0], now, sels[0])
          && ArePasses(c, now, tables[1..], sels[1..]))
  }

  lemma PassShrinksDue(c: P.Config, rows: Table, now: real, sel: seq<EventId>)
    requires IsSelection(Kept(c.store, rows, now), now, c.batch, sel)
    ensures DueCount(c, AfterPass(c, rows, now, sel), now) == DueCount(c, rows, now) - |sel|
  {
    var kept, after := Kept(c.store, rows, now), AfterPass(c, rows, now, sel);
    assert Expired(c.store, after, now) == {};
    assert Kept(c.store, after, now) == after;
    assert DueIds(after, now) == DueIds(kept, now) - Elements(sel);
    DistinctCard(sel);
  }

  /** k healthy passes at one instant leave exactly max(0, due - k * batch) due rows. */
  lemma {:induction false} PassesDrain(c: P.Config, now: real, tables: seq<Table>, sels: seq<seq<EventId>>)
    requires ArePasses(c, now, tables, sels)
    ensures var due, k := DueCount(c, tables[0], now), |sels|;
            DueCount(c, tables[|tables| - 1], now) == if due <= k * c.batch then 0 else due - k * c.batch
    decreases |sels|
  {
    if sels != [] {
      PassShrinksDue(c, tables[0], now, sels[0]);
      PassesDrain(c, now, tables[1..], sels[1..]);
      assert |sels| * c.batch == (|sels| - 1) * c.batch + c.batch;
      assert (|sels| - 1) * c.batch >= 0;
    }
  }

  // ---------------------------------------------------------------------
  // The pass as steps of the protocol
  // ---------------------------------------------------------------------

  lemma {:induction false} PassFromFront(c: P.Config, b: Backend, inflight: set<EventId>, start: Progress,
                                         ids: seq<EventId>)
    requires ids != []
    ensures Pass(c, b, inflight, start, ids) == Pass(c, b, inflight, Step(c, b, inflight, start, ids[0]), ids[1..])
    decreases |ids|
  {
    var init, last := ids[..|ids| - 1], ids[|ids| - 1];
    if init == [] {
      assert ids[1..] == [];
    } else {
      PassFromFront(c, b, inflight, start, init);
      assert ids[1..][..|ids| - 2] == init[1..] && ids[1..][|ids| - 2] == last;
    }
  }

  lemma {:induction false} BrokenIsOver(c: P.Config, b: Backend, inflight: set<EventId>, start: Progress,
                                        ids: seq<EventId>)
    requires start.broken
    ensures Pass(c, b, inflight, start, ids) == start
  {
    if ids != [] {
      BrokenIsOver(c, b, inflight, start, ids[..|ids| - 1]);
    }
  }

  /** Task i relays rest, with the table and the attempts of p and these ids in flight. */
  ghost predicate Relays(s: P.State, others: seq<P.Task>, i: nat, rest: seq<EventId>, inflight: set<EventId>,
                         p: Progress)
  {
    && i < |others| && s.tasks == others[i := P.Relaying(rest)] && s.inflight == inflight
    && s.rows == p.rows && s.attempts == p.attempts
  }

  lemma TakeRow(c: P.Config, within: P.State -> bool, s: P.State, others: seq<P.Task>, i: nat, ids: seq<EventId>,
                inflight: set<EventId>, p: Progress) returns (t: P.State)
    requires R.Closed(c, within) && within(s) && Relays(s, others, i, ids, inflight, p)
    requires ids != [] && ids[0] !in inflight
    ensures within(t) && t.rows == p.rows && t.attempts == p.attempts && t.inflight == inflight + {ids[0]}
    ensures t.tasks == others[i := P.Publishing(ids[0], P.RelayPass(ids[1..]))]
  {
    t := P.TakeNext(s, i);
    R.Onward(c, within, s, P.Pick(i), t);
  }

  lemma ReturnRow(c: P.Config, within: P.State -> bool, s: P.State, others: seq<P.Task>, i: nat, id: EventId,
                  rest: seq<EventId>, outcome: P.Outcome, inflight: set<EventId>) returns (t: P.State)
    requires R.Closed(c, within) && within(s) && i < |others| && id !in inflight
    requires s.tasks == others[i := P.Settled(id, P.RelayPass(rest), outcome)] && s.inflight == inflight + {id}
    ensures within(t) && t.rows == s.rows && t.inflight == inflight
    ensures t.attempts == if outcome.Acked? then s.attempts - {id} else s.attempts
    ensures t.tasks == others[i := P.Relaying(if outcome.Failed? then [] else rest)]
  {
    t := P.FinishPublish(s, i);
    assert inflight + {id} - {id} == inflight;
    R.Onward(c, within, s, P.Settle(i), t);
  }

  lemma ConfirmRow(c: P.Config, within: P.State -> bool, s: P.State, others: seq<P.Task>, i: nat, id: EventId,
                   rest: seq<EventId>, inflight: set<EventId>) returns (t: P.State)
    requires R.Closed(c, within) && within(s) && i < |others| && id !in inflight
    requires s.tasks == others[i := P.Publishing(id, P.RelayPass(rest))] && s.inflight == inflight + {id}
    ensures within(t) && t.rows == s.rows - {id} && t.attempts == s.attempts - {id} && t.inflight == inflight
    ensures t.tasks == others[i := P.Relaying(rest)]
  {
    var confirmed := P.ConfirmPublish(s, i);
    R.Onward(c, within, s, P.Confirm(i), confirmed);
    var acked := P.To(confirmed, i, P.Settled(id, P.RelayPass(rest), P.Acked)).(rows := confirmed.rows - {id});
    R.Onward(c, within, confirmed, P.CommitAck(i), acked);
    t := ReturnRow(c, within, acked, others, i, id, rest, P.Acked, inflight);
  }

  lemma FailRow(c: P.Config, within: P.State -> bool, s: P.State, others: seq<P.Task>, i: nat, id: EventId,
                rest: seq<EventId>, inflight: set<EventId>, p: Progress, b: Backend) returns (t: P.State)
    requires R.Closed(c, within) && within(s) && i < |others| && id !in inflight && !b.confirms(id) && !p.broken
    requires s.tasks == others[i := P.Publishing(id, P.RelayPass(rest))] && s.inflight == inflight + {id}
    requires s.rows == p.rows && s.attempts == p.attempts
    ensures within(t) && Relays(t, others, i, [], inflight, Step(c, b, inflight, p, id))
  {
    var n, owner := P.AttemptsOf(s.attempts, id) + 1, P.RelayPass(rest);
    R.FailStep(c, s, i, id, owner, n - 1, b.failedAt, b.error);
    var failed := P.Next(c, s, P.Fail(i, b.failedAt, b.error));
    R.Onward(c, within, s, P.Fail(i, b.failedAt, b.error), failed);
    var delay := P.Backoff(c, n);
    if delay.Some? {
      R.NackStep(c, failed, i, id, owner, b.error, b.failedAt + delay.value, b.failedAt);
      var nacked := P.Next(c, failed, P.CommitNack(i));
      R.Onward(c, within, failed, P.CommitNack(i), nacked);
      t := ReturnRow(c, within, nacked, others, i, id, rest, P.Failed, inflight);
    } else {
      t := ReturnRow(c, within, failed, others, i, id, rest, P.Failed, inflight);
    }
  }

  /** The pass is a run of the protocol: a relay task with these rows before it, left undisturbed, ends
    * with the table and the attempts the pass computes. */
  lemma {:induction false} PassIsRun(c: P.Config, b: Backend, within: P.State -> bool, s: P.State, others: seq<P.Task>,
                                     i: nat, ids: seq<EventId>, inflight: set<EventId>, p: Progress)
    returns (t: P.State)
    requires R.Closed(c, within) && within(s) && Relays(s, others, i, ids, inflight, p) && !p.broken
    ensures within(t) && Relays(t, others, i, [], inflight, Pass(c, b, inflight, p, ids))
    decreases |ids|
  {
    if ids == [] {
      t := s;
    } else {
      var id, rest := ids[0], ids[1..];
      PassFromFront(c, b, inflight, p, ids);
      if id in inflight {
        var passed := P.TakeNext(s, i);
        R.Onward(c, within, s, P.Pick(i), passed);
        t := PassIsRun(c, b, within, passed, others, i, rest, inflight, p);
      } else {
        var taken := TakeRow(c, within, s, others, i, ids, inflight, p);
        if b.confirms(id) {
          var done := ConfirmRow(c, within, taken, others, i, id, rest, inflight);
          t := PassIsRun(c, b, within, done, others, i, rest, inflight, Step(c, b, inflight, p, id));
        } else {
          t := FailRow(c, within, taken, others, i, id, rest, inflight, p, b);
          BrokenIsOver(c, b, inflight, Step(c, b, inflight, p, id), rest);
        }
      }
    }
  }
}
