/** asyncio.Semaphore as the dispatcher uses it: a value and a queue of waiters, some of which have
  * been granted a permit but have not run yet. A grant takes the permit out of the value at once,
  * so the permits in the system are the value plus the grants.
  */
module Semaphore {

  datatype Waiter = Waiter(worker: nat, granted: bool)

  datatype Sem = Sem(value: nat, waiters: seq<Waiter>)

  function Granted(ws: seq<Waiter>): nat {
    if ws == [] then 0 else (if ws[0].granted then 1 else 0) + Granted(ws[1..])
  }

  function Permits(s: Sem): nat {
    s.value + Granted(s.waiters)
  }

  predicate Waits(ws: seq<Waiter>, worker: nat) {
    exists i :: 0 <= i < |ws| && ws[i].worker == worker
  }

  predicate HoldsGrant(ws: seq<Waiter>, worker: nat) {
    Waiter(worker, true) in ws
  }

  ghost predicate OneEach(ws: seq<Waiter>) {
    forall i, j :: 0 <= i < j < |ws| ==> ws[i].worker != ws[j].worker
  }

  /** A permit is left lying while somebody waits only if a granted waiter is about to run, and that
    * waiter will pass it on. */
  ghost predicate Valid(s: Sem) {
    OneEach(s.waiters) && (s.value > 0 && s.waiters != [] ==> Granted(s.waiters) > 0)
  }

  /** Grant the first waiter that has no permit yet, if there is one. */
  function GrantFirst(ws: seq<Waiter>): (r: seq<Waiter>)
    ensures |r| == |ws| && forall i :: 0 <= i < |r| ==> r[i].worker == ws[i].worker
    ensures r == ws || Granted(r) == Granted(ws) + 1
    ensures r == ws ==> Granted(ws) == |ws|
  {
    if ws == [] then []
    else if !ws[0].granted then [Waiter(ws[0].worker, true)] + ws[1..]
    else [ws[0]] + GrantFirst(ws[1..])
  }

  function WakeNext(s: Sem): (r: Sem)
    requires s.value > 0
    ensures Permits(r) == Permits(s)
  {
    if GrantFirst(s.waiters) == s.waiters then s else Sem(s.value - 1, GrantFirst(s.waiters))
  }

  function Release(s: Sem): Sem {
    WakeNext(s.(value := s.value + 1))
  }

  /** acquire() may take a permit at once only if nobody is queued. */
  predicate CanTake(s: Sem) {
    s.value > 0 && s.waiters == []
  }

  function Take(s: Sem): (r: Sem)
    requires CanTake(s)
    ensures Permits(r) == Permits(s) - 1
  {
    s.(value := s.value - 1)
  }

  function Enter(s: Sem, worker: nat): Sem {
    s.(waiters := s.waiters + [Waiter(worker, false)])
  }

  function Remove(ws: seq<Waiter>, worker: nat): (r: seq<Waiter>)
    ensures forall w :: w in r <==> w in ws && w.worker != worker
  {
    if ws == [] then []
    else (if ws[0].worker == worker then [] else [ws[0]]) + Remove(ws[1..], worker)
  }

  /** A granted waiter runs: it leaves the queue with its permit and wakes one more if it can. */
  function Resume(s: Sem, worker: nat): Sem {
    var left := s.(waiters := Remove(s.waiters, worker));
    if left.value > 0 then WakeNext(left) else left
  }

  /** A cancelled waiter leaves the queue; a permit already granted to it is released. */
  function Cancel(s: Sem, worker: nat): Sem {
    var left := s.(waiters := Remove(s.waiters, worker));
    if HoldsGrant(s.waiters, worker) then Release(left) else left
  }

  // ---------------------------------------------------------------------
  // Each operation's effect on the permits, and on the queue
  // ---------------------------------------------------------------------

  lemma {:induction false} GrantedAppend(ws: seq<Waiter>, w: Waiter)
    ensures Granted(ws + [w]) == Granted(ws) + if w.granted then 1 else 0
  {
    if ws != [] {
      assert (ws + [w])[1..] == ws[1..] + [w];
      GrantedAppend(ws[1..], w);
    } else {
      assert ws + [w] == [w];
    }
  }

  lemma {:induction false} GrantedBound(ws: seq<Waiter>)
    ensures Granted(ws) <= |ws|
    ensures Granted(ws) == |ws| ==> forall w :: w in ws ==> w.granted
    ensures (exists w :: w in ws && w.granted) ==> Granted(ws) > 0
    ensures Granted(ws) > 0 ==> exists i :: 0 <= i < |ws| && ws[i].granted
  {
    if ws != [] {
      GrantedBound(ws[1..]);
    }
  }

  lemma {:induction false} RemoveAbsent(ws: seq<Waiter>, worker: nat)
    requires forall i :: 0 <= i < |ws| ==> ws[i].worker != worker
    ensures Remove(ws, worker) == ws
  {
    if ws != [] {
      RemoveAbsent(ws[1..], worker);
    }
  }

  lemma RemoveFirst(ws: seq<Waiter>, worker: nat)
    requires OneEach(ws) && ws != [] && ws[0].worker == worker
    ensures Remove(ws, worker) == ws[1..]
    ensures HoldsGrant(ws, worker) <==> ws[0].granted
  {
    RemoveAbsent(ws[1..], worker);
    if HoldsGrant(ws, worker) {
      var k :| 0 <= k < |ws| && ws[k] == Waiter(worker, true);
      assert k == 0;
    }
  }

  lemma RemoveLater(ws: seq<Waiter>, worker: nat)
    requires OneEach(ws) && Waits(ws, worker) && ws[0].worker != worker
    requires OneEach(Remove(ws[1..], worker))
    ensures Waits(ws[1..], worker) && Remove(ws, worker) == [ws[0]] + Remove(ws[1..], worker)
    ensures OneEach(Remove(ws, worker))
    ensures HoldsGrant(ws, worker) <==> HoldsGrant(ws[1..], worker)
  {
    var i :| 0 <= i < |ws| && ws[i].worker == worker;
    assert ws[1..][i - 1].worker == worker;
    var rest := Remove(ws[1..], worker);
    forall j | 0 <= j < |rest| ensures rest[j].worker != ws[0].worker {
      assert rest[j] in rest;
      var k :| 0 <= k < |ws[1..]| && ws[1..][k] == rest[j];
      assert ws[k + 1] == rest[j];
    }
  }

  lemma {:induction false} RemovePresent(ws: seq<Waiter>, worker: nat)
    requires OneEach(ws) && Waits(ws, worker)
    ensures Granted(Remove(ws, worker)) == Granted(ws) - if HoldsGrant(ws, worker) then 1 else 0
    ensures OneEach(Remove(ws, worker))
  {
    if ws[0].worker == worker {
      RemoveFirst(ws, worker);
    } else {
      var i :| 0 <= i < |ws| && ws[i].worker == worker;
      assert ws[1..][i - 1].worker == worker;
      RemovePresent(ws[1..], worker);
      RemoveLater(ws, worker);
    }
  }

  lemma ReleaseAddsOne(s: Sem)
    requires Valid(s)
    ensures Permits(Release(s)) == Permits(s) + 1 && Valid(Release(s))
    ensures forall w :: Waits(Release(s).waiters, w) <==> Waits(s.waiters, w)
  {
    GrantedBound(s.waiters);
  }

  lemma {:induction false} GrantsFirst(ws: seq<Waiter>) returns (i: nat)
    requires exists w :: w in ws && !w.granted
    ensures i < |ws| && !ws[i].granted && forall j :: 0 <= j < i ==> ws[j].granted
    ensures GrantFirst(ws) == ws[i := Waiter(ws[i].worker, true)]
  {
    if !ws[0].granted {
      i := 0;
    } else {
      i := GrantsFirst(ws[1..]);
      i := i + 1;
    }
  }

  /** Permits are granted in the order of arrival: a release goes to the waiter that has waited longest
    * among those without a permit, and to nobody else; if there is none it is left lying. */
  lemma ReleaseServesInOrder(s: Sem)
    ensures Release(s) == s.(value := s.value + 1) ||
            exists i :: 0 <= i < |s.waiters| && !s.waiters[i].granted &&
                        (forall j :: 0 <= j < i ==> s.waiters[j].granted) &&
                        Release(s) == s.(waiters := s.waiters[i := Waiter(s.waiters[i].worker, true)])
    ensures Release(s) == s.(value := s.value + 1) <==> forall w :: w in s.waiters ==> w.granted
  {
    if exists w :: w in s.waiters && !w.granted {
      var i := GrantsFirst(s.waiters);
      assert GrantFirst(s.waiters)[i] != s.waiters[i];
    } else {
      AllGranted(s.waiters);
    }
  }

  lemma {:induction false} AllGranted(ws: seq<Waiter>)
    requires forall w :: w in ws ==> w.granted
    ensures GrantFirst(ws) == ws
  {
    if ws != [] {
      assert ws[0] in ws;
      AllGranted(ws[1..]);
    }
  }

  lemma EnterKeeps(s: Sem, worker: nat)
    requires Valid(s) && !CanTake(s) && !Waits(s.waiters, worker)
    ensures Permits(Enter(s, worker)) == Permits(s) && Valid(Enter(s, worker))
    ensures Enter(s, worker).waiters == s.waiters + [Waiter(worker, false)]
    ensures forall w :: Waits(Enter(s, worker).waiters, w) <==> Waits(s.waiters, w) || w == worker
  {
    GrantedAppend(s.waiters, Waiter(worker, false));
    var ws := s.waiters + [Waiter(worker, false)];
    forall w ensures Waits(ws, w) <==> Waits(s.waiters, w) || w == worker {
      if Waits(s.waiters, w) {
        var i :| 0 <= i < |s.waiters| && s.waiters[i].worker == w;
        assert ws[i].worker == w;
      }
      assert ws[|ws| - 1].worker == worker;
    }
  }

  lemma RemoveWaits(ws: seq<Waiter>, worker: nat)
    ensures forall w :: Waits(Remove(ws, worker), w) <==> Waits(ws, w) && w != worker
  {
    var r := Remove(ws, worker);
    forall w ensures Waits(r, w) <==> Waits(ws, w) && w != worker {
      if i :| 0 <= i < |r| && r[i].worker == w {
        assert r[i] in r && r[i] in ws;
      }
      if i :| 0 <= i < |ws| && ws[i].worker == w {
        assert ws[i] in ws;
      }
    }
  }

  /** After waking one waiter no permit lies idle beside waiters none of whom is granted. */
  lemma WakeNextKeeps(s: Sem)
    requires OneEach(s.waiters) && s.value > 0
    ensures Valid(WakeNext(s))
    ensures forall w :: Waits(WakeNext(s).waiters, w) <==> Waits(s.waiters, w)
  {
    GrantedBound(s.waiters);
  }

  /** Running a granted waiter uses up one permit. */
  lemma ResumeTakesOne(s: Sem, worker: nat)
    requires Valid(s) && HoldsGrant(s.waiters, worker)
    ensures Permits(Resume(s, worker)) == Permits(s) - 1 && Valid(Resume(s, worker))
    ensures forall w :: Waits(Resume(s, worker).waiters, w) <==> Waits(s.waiters, w) && w != worker
  {
    RemovePresent(s.waiters, worker);
    RemoveWaits(s.waiters, worker);
    var left := s.(waiters := Remove(s.waiters, worker));
    if left.value > 0 {
      WakeNextKeeps(left);
    }
  }

  /** Cancelling a waiter loses no permit. */
  lemma CancelKeeps(s: Sem, worker: nat)
    requires Valid(s) && Waits(s.waiters, worker)
    ensures Permits(Cancel(s, worker)) == Permits(s) && Valid(Cancel(s, worker))
    ensures forall w :: Waits(Cancel(s, worker).waiters, w) <==> Waits(s.waiters, w) && w != worker
  {
    RemovePresent(s.waiters, worker);
    RemoveWaits(s.waiters, worker);
    var left := s.(waiters := Remove(s.waiters, worker));
    if HoldsGrant(s.waiters, worker) {
      WakeNextKeeps(left.(value := left.value + 1));
    }
  }
}
