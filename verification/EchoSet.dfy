/** Suppression of loop-back echoes in src/navigator_eventbus/core.py: a bounded set of the ids this
  * process fanned out, in insertion order.
  */
module EchoSet {
  import opened Collections

  /** BusCore._FANOUT_ECHO_CAP */
  const CAP: nat := 2048

  /** Assigning to a key of an ordered dict: a present key keeps its place. */
  function Insert(ids: seq<EventId>, id: EventId): seq<EventId> {
    if id in ids then ids else ids + [id]
  }

  function Remember(ids: seq<EventId>, id: EventId): seq<EventId> {
    var more := Insert(ids, id);
    if |more| > CAP then more[|more| - CAP..] else more
  }

  function Forget(ids: seq<EventId>, id: EventId): seq<EventId> {
    if id in ids then
      (if ids[0] == id then ids[1..] else [ids[0]] + Forget(ids[1..], id))
    else ids
  }

  datatype Step = Fanout(id: EventId) | Echo(id: EventId)

  function After(ids: seq<EventId>, step: Step): seq<EventId> {
    match step
    case Fanout(id) => Remember(ids, id)
    case Echo(id) => Forget(ids, id)
  }

  function Run(ids: seq<EventId>, steps: seq<Step>): seq<EventId>
    decreases |steps|
  {
    if steps == [] then ids else Run(After(ids, steps[0]), steps[1..])
  }

  ghost predicate Valid(ids: seq<EventId>) {
    Distinct(ids) && |ids| <= CAP
  }

  // ---------------------------------------------------------------------
  // The set as the program keeps it
  // ---------------------------------------------------------------------

  class Echoes {
    var fannedOut: seq<EventId>
    var closing: bool

    constructor ()
      ensures Valid(fannedOut) && fannedOut == [] && !closing
    {
      fannedOut, closing := [], false;
    }

    /** _remember_fanout: evict from the front while there are too many. */
    method RememberFanout(id: EventId)
      requires Valid(fannedOut)
      modifies this`fannedOut
      ensures fannedOut == Remember(old(fannedOut), id) && Valid(fannedOut)
    {
      fannedOut := Insert(fannedOut, id);
      ghost var more := fannedOut;
      while |fannedOut| > CAP
        invariant |fannedOut| <= |more| && fannedOut == more[|more| - |fannedOut|..]
        invariant if |more| > CAP then |fannedOut| >= CAP else fannedOut == more
      {
        fannedOut := fannedOut[1..];
      }
    }

    /** What becomes of an envelope that arrives from the transport: true when it is dispatched. */
    method OnTransportEnvelope(id: EventId) returns (dispatched: bool)
      requires Valid(fannedOut)
      modifies this`fannedOut
      ensures fannedOut == Forget(old(fannedOut), id) && Valid(fannedOut)
      ensures dispatched == (id !in old(fannedOut) && !closing)
    {
      ForgetKeeps(fannedOut, id);
      if id in fannedOut {
        fannedOut := Forget(fannedOut, id);
        return false;
      }
      dispatched := !closing;
    }
  }

  // ---------------------------------------------------------------------
  // How long an id is remembered
  // ---------------------------------------------------------------------

  lemma {:induction false} ForgetKeeps(ids: seq<EventId>, id: EventId)
    requires Distinct(ids)
    ensures Distinct(Forget(ids, id)) && |Forget(ids, id)| == |ids| - (if id in ids then 1 else 0)
    ensures forall x :: x in Forget(ids, id) <==> x in ids && x != id
  {
    if id in ids && ids[0] != id {
      ForgetKeeps(ids[1..], id);
      assert ids[0] !in ids[1..];
      assert ids[0] !in Forget(ids[1..], id);
    }
  }

  lemma StepKeepsValid(ids: seq<EventId>, step: Step)
    requires Valid(ids)
    ensures Valid(After(ids, step))
  {
    if step.Echo? {
      ForgetKeeps(ids, step.id);
    }
  }

  /** The ids that entered the set after id and are still there. */
  function Newer(ids: seq<EventId>, id: EventId): nat {
    if ids == [] then 0 else if ids[0] == id then |ids| - 1 else Newer(ids[1..], id)
  }

  /** A fan-out of an id that is not in the set. */
  predicate IsFresh(ids: seq<EventId>, step: Step) {
    step.Fanout? && step.id !in ids
  }

  /** Fan-outs that put a new id into the set; repeated ones do not count. */
  function FreshFanouts(ids: seq<EventId>, steps: seq<Step>): nat
    decreases |steps|
  {
    if steps == [] then 0
    else (if IsFresh(ids, steps[0]) then 1 else 0) + FreshFanouts(After(ids, steps[0]), steps[1..])
  }

  lemma {:induction false} NewerAppend(ids: seq<EventId>, id: EventId, x: EventId)
    requires id in ids
    ensures Newer(ids + [x], id) == Newer(ids, id) + 1
  {
    if ids[0] != id {
      NewerAppend(ids[1..], id, x);
      assert (ids + [x])[1..] == ids[1..] + [x];
    }
  }

  lemma {:induction false} NewerForget(ids: seq<EventId>, id: EventId, x: EventId)
    requires Distinct(ids) && id in ids && x != id
    ensures id in Forget(ids, x) && Newer(Forget(ids, x), id) <= Newer(ids, id)
  {
    ForgetKeeps(ids, x);
    if x in ids && ids[0] != x && ids[0] != id {
      NewerForget(ids[1..], id, x);
      assert Forget(ids, x)[1..] == Forget(ids[1..], x);
    }
  }

  lemma NewerBounded(ids: seq<EventId>, id: EventId)
    requires id in ids
    ensures Newer(ids, id) < |ids|
  {
  }

  lemma StepAges(ids: seq<EventId>, step: Step, id: EventId)
    requires Valid(ids) && id in ids && step != Echo(id)
    requires Newer(ids, id) + (if IsFresh(ids, step) then 1 else 0) < CAP
    ensures id in After(ids, step)
    ensures Newer(After(ids, step), id) <= Newer(ids, id) + if IsFresh(ids, step) then 1 else 0
  {
    if step.Echo? {
      NewerForget(ids, id, step.id);
    } else if IsFresh(ids, step) {
      NewerAppend(ids, id, step.id);
      if |ids| == CAP {
        assert ids[0] != id && id in ids[1..];
        assert Remember(ids, step.id) == ids[1..] + [step.id];
        NewerAppend(ids[1..], id, step.id);
      }
    }
  }

  /** An id survives any steps that bring fewer than CAP new ids after it, unless its own echo comes. */
  lemma {:induction false} Survives(ids: seq<EventId>, steps: seq<Step>, id: EventId)
    requires Valid(ids) && id in ids && Echo(id) !in steps
    requires Newer(ids, id) + FreshFanouts(ids, steps) < CAP
    ensures Valid(Run(ids, steps)) && id in Run(ids, steps)
    decreases |steps|
  {
    if steps != [] {
      assert steps[0] in steps;
      StepKeepsValid(ids, steps[0]);
      StepAges(ids, steps[0], id);
      Survives(After(ids, steps[0]), steps[1..], id);
    }
  }

  lemma FanoutAges(ids: seq<EventId>, x: EventId, id: EventId)
    requires Valid(ids) && id in ids && x != id && id in Remember(ids, x)
    ensures Newer(Remember(ids, x), id) == Newer(ids, id) + if x in ids then 0 else 1
  {
    if x !in ids {
      NewerAppend(ids, id, x);
    }
  }

  lemma RunOfPrefix(ids: seq<EventId>, steps: seq<Step>, m: nat)
    requires m < |steps|
    ensures Run(ids, steps[..m + 1]) == Run(After(ids, steps[0]), steps[1..][..m])
  {
    assert steps[..m + 1][1..] == steps[1..][..m];
  }

  /** The ids that enter after it push an id out, whether or not it is itself fanned out again. */
  lemma {:induction false} PushedOut(ids: seq<EventId>, steps: seq<Step>, id: EventId) returns (n: nat)
    requires Valid(ids) && id in ids && forall s :: s in steps ==> s.Fanout?
    requires Newer(ids, id) + FreshFanouts(ids, steps) >= CAP
    ensures n <= |steps| && id !in Run(ids, steps[..n])
    decreases |steps|
  {
    NewerBounded(ids, id);
    assert steps[0] in steps;
    StepKeepsValid(ids, steps[0]);
    var next := Remember(ids, steps[0].id);
    if id in next {
      if steps[0].id != id {
        FanoutAges(ids, steps[0].id, id);
      }
      var m := PushedOut(next, steps[1..], id);
      n := m + 1;
      RunOfPrefix(ids, steps, m);
    } else {
      n := 1;
      assert steps[..1][1..] == [];
    }
  }

  lemma {:induction false} FewerFreshInPrefix(ids: seq<EventId>, steps: seq<Step>, n: nat)
    requires n <= |steps|
    ensures FreshFanouts(ids, steps[..n]) <= FreshFanouts(ids, steps)
    decreases |steps|
  {
    if n > 0 {
      assert steps[..n][1..] == steps[1..][..n - 1];
      FewerFreshInPrefix(After(ids, steps[0]), steps[1..], n - 1);
    }
  }

  lemma SurvivesPrefix(ids: seq<EventId>, steps: seq<Step>, id: EventId, n: nat)
    requires Valid(ids) && id in ids && Echo(id) !in steps && n <= |steps|
    requires Newer(ids, id) + FreshFanouts(ids, steps) < CAP
    ensures id in Run(ids, steps[..n])
  {
    FewerFreshInPrefix(ids, steps, n);
    Survives(ids, steps[..n], id);
  }

  /** The bound is sharp: without echoes an id drops out of the set at some point of the run if and only
    * if CAP newer ids enter after it; fanning it out again meanwhile makes no difference. */
  lemma LostAtCap(ids: seq<EventId>, steps: seq<Step>, id: EventId)
    requires Valid(ids) && id in ids && forall s :: s in steps ==> s.Fanout?
    ensures (exists n :: 0 <= n <= |steps| && id !in Run(ids, steps[..n])) <==>
            Newer(ids, id) + FreshFanouts(ids, steps) >= CAP
  {
    if Newer(ids, id) + FreshFanouts(ids, steps) >= CAP {
      var n := PushedOut(ids, steps, id);
    } else {
      assert Echo(id) !in steps;
      forall n | 0 <= n <= |steps| ensures id in Run(ids, steps[..n]) {
        SurvivesPrefix(ids, steps, id, n);
      }
    }
  }

  lemma {:induction false} StaysForgotten(ids: seq<EventId>, steps: seq<Step>, id: EventId)
    requires id !in ids && Fanout(id) !in steps && Valid(ids)
    ensures id !in Run(ids, steps)
    decreases |steps|
  {
    if steps != [] {
      assert steps[0] in steps;
      StepKeepsValid(ids, steps[0]);
      if steps[0].Echo? {
        ForgetKeeps(ids, steps[0].id);
      }
      StaysForgotten(After(ids, steps[0]), steps[1..], id);
    }
  }

  /** Echo suppression: the echo of a fanned-out id that arrives before CAP newer ids have entered is
    * dropped; and after that, until the id is fanned out again, no echo of it is. Fanning the id out
    * again meanwhile does not extend its stay. */
  lemma EchoDroppedOnce(ids: seq<EventId>, id: EventId, steps: seq<Step>, later: seq<Step>)
    requires Valid(ids) && id !in ids && Echo(id) !in steps && Fanout(id) !in later
    requires FreshFanouts(Remember(ids, id), steps) < CAP
    ensures var before := Run(Remember(ids, id), steps);
            id in before && id !in Run(Forget(before, id), later)
  {
    StepKeepsValid(ids, Fanout(id));
    NewestLast(ids, id);
    Survives(Remember(ids, id), steps, id);
    var before := Run(Remember(ids, id), steps);
    ForgetKeeps(before, id);
    StaysForgotten(Forget(before, id), later, id);
  }

  lemma NewestLast(ids: seq<EventId>, id: EventId)
    requires Valid(ids) && id !in ids
    ensures id in Remember(ids, id) && Newer(Remember(ids, id), id) == 0
  {
    NewerOfLast(ids, id);
    if |ids| == CAP {
      NewerOfLast(ids[1..], id);
      assert (ids + [id])[1..] == ids[1..] + [id];
    }
  }

  lemma {:induction false} NewerOfLast(ids: seq<EventId>, id: EventId)
    requires id !in ids
    ensures Newer(ids + [id], id) == 0
  {
    if ids != [] {
      NewerOfLast(ids[1..], id);
      assert (ids + [id])[1..] == ids[1..] + [id];
    }
  }
}
