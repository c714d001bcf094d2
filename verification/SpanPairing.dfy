/** Span resolution of scripts/sdd/profile_execution.py: every end event becomes a span, either from
  * a window its own payload carries or by closing a start event of the same identity.
  *
  * The greedy choice is shown to be the best possible one: no valid pairing resolves more end
  * events, and the spans of one identity never cross.
  */
module SpanPairing {
  import opened Collections
  import opened Intervals
  import opened Sorting

  // ---------------------------------------------------------------------
  // What the pairing sees of an event
  // ---------------------------------------------------------------------

  /** The pool a start event waits in and an end event draws from: a start kind and an identity. */
  datatype Slot = Slot(startKind: string, key: seq<string>)

  /** text is the rank of the raw timestamp in string order; ticks is its parsed value.
    * opens is the slot of a start event; closes that of an end event with no payload window. */
  datatype Event = Event(text: int, ticks: Option<int>, opens: Option<Slot>, closes: Option<Slot>, finished: bool)

  function SlotAt(events: seq<Event>, e: int): Option<Slot> {
    if 0 <= e < |events| then events[e].closes else None
  }

  predicate StartsIn(e: Event, slot: Slot) {
    e.opens == Some(slot)
  }

  /** An end event that must be closed by a start event, and when. */
  predicate NeedsStart(e: Event) {
    e.finished && e.closes.Some? && e.ticks.Some?
  }

  /** An end event of the slot. */
  predicate EndsIn(e: Event, slot: Slot) {
    NeedsStart(e) && e.closes == Some(slot)
  }

  /** The ends of one identity have texts that are ordered as the instants they denote. */
  ghost predicate EndsInOrder(events: seq<Event>, slot: Slot) {
    forall i, j :: (0 <= i < |events| && 0 <= j < |events| && EndsIn(events[i], slot) && EndsIn(events[j], slot) &&
                    events[i].text <= events[j].text) ==>
                     events[i].ticks.value <= events[j].ticks.value
  }

  /** So have its starts. */
  ghost predicate StartsInOrder(events: seq<Event>, slot: Slot) {
    forall i, j :: (0 <= i < |events| && 0 <= j < |events| && StartsIn(events[i], slot) && StartsIn(events[j], slot) &&
                    events[i].ticks.Some? && events[j].ticks.Some? && events[i].text <= events[j].text) ==>
                     events[i].ticks.value <= events[j].ticks.value
  }

  /** What any recorded timestamps satisfy: a text denotes one instant, or none. */
  ghost predicate Parsed(events: seq<Event>) {
    forall i, j :: (0 <= i < |events| && 0 <= j < |events| && events[i].text == events[j].text) ==>
                     events[i].ticks == events[j].ticks
  }

  // ---------------------------------------------------------------------
  // The greedy pairing
  // ---------------------------------------------------------------------

  function ByText(events: seq<Event>): (int, int) -> bool {
    (i: int, j: int) =>
      (if 0 <= i < |events| then events[i].text else 0) <= (if 0 <= j < |events| then events[j].text else 0)
  }

  function Where(events: seq<Event>, n: nat, p: Event -> bool): (r: seq<int>)
    requires n <= |events|
    ensures forall i :: i in r <==> 0 <= i < n && p(events[i])
    ensures Distinct(r)
  {
    if n == 0 then []
    else
      var r := Where(events, n - 1, p);
      assert n - 1 !in r;
      if p(events[n - 1]) then r + [n - 1] else r
  }

  /** The start events of a slot, by timestamp text. */
  function Pool(events: seq<Event>, slot: Slot): seq<int> {
    Sort(Where(events, |events|, (e: Event) => StartsIn(e, slot)), ByText(events))
  }

  /** The finished-like events, by timestamp text. */
  function Ends(events: seq<Event>): seq<int> {
    Sort(Where(events, |events|, (e: Event) => e.finished), ByText(events))
  }

  predicate Fits(events: seq<Event>, used: set<int>, s: int, at: int) {
    0 <= s < |events| && s !in used && events[s].ticks.Some? && events[s].ticks.value <= at
  }

  /** The last start of the pool that is still unused and not later than the end. */
  function LastFit(events: seq<Event>, used: set<int>, pool: seq<int>, at: int): Option<int> {
    if pool == [] then None
    else if Fits(events, used, pool[|pool| - 1], at) then Some(pool[|pool| - 1])
    else LastFit(events, used, pool[..|pool| - 1], at)
  }

  function Candidate(events: seq<Event>, used: set<int>, e: int): Option<int> {
    if !(0 <= e < |events|) || !NeedsStart(events[e]) then None
    else LastFit(events, used, Pool(events, events[e].closes.value), events[e].ticks.value)
  }

  ghost predicate Indices(events: seq<Event>, order: seq<int>) {
    Distinct(order) && forall k :: 0 <= k < |order| ==> 0 <= order[k] < |events|
  }

  /** The pairing after the end events of order: each takes its candidate, if it has one. */
  function Pairing(events: seq<Event>, order: seq<int>): (m: map<int, int>)
    ensures forall e :: e in m ==> e in order
  {
    if order == [] then map[]
    else
      var m, e := Pairing(events, order[..|order| - 1]), order[|order| - 1];
      match Candidate(events, m.Values, e)
      case None => m
      case Some(s) => m[e := s]
  }

  /** Where LastFit stops looking. */
  lemma {:induction false} LastFitPlace(events: seq<Event>, used: set<int>, pool: seq<int>, at: int) returns (i: nat)
    ensures LastFit(events, used, pool, at) == None ==> forall s :: s in pool ==> !Fits(events, used, s, at)
    ensures LastFit(events, used, pool, at).Some? ==>
              && i < |pool| && LastFit(events, used, pool, at) == Some(pool[i]) && Fits(events, used, pool[i], at)
              && forall j :: i < j < |pool| ==> !Fits(events, used, pool[j], at)
  {
    i := 0;
    if pool != [] {
      if Fits(events, used, pool[|pool| - 1], at) {
        i := |pool| - 1;
      } else {
        i := LastFitPlace(events, used, pool[..|pool| - 1], at);
      }
    }
  }

  lemma TextOrder(events: seq<Event>)
    ensures TotalPreorder(ByText(events))
  {
  }

  lemma PoolMeaning(events: seq<Event>, slot: Slot)
    ensures forall s :: s in Pool(events, slot) <==> 0 <= s < |events| && StartsIn(events[s], slot)
    ensures Pairwise(Pool(events, slot), ByText(events))
  {
    var w := Where(events, |events|, (e: Event) => StartsIn(e, slot));
    TextOrder(events);
    SameMembers(Sort(w, ByText(events)), w);
    SortOrdered(w, ByText(events));
  }

  lemma EndsMeaning(events: seq<Event>)
    ensures Indices(events, Ends(events))
    ensures forall e :: e in Ends(events) <==> 0 <= e < |events| && events[e].finished
    ensures Pairwise(Ends(events), ByText(events))
  {
    var w := Where(events, |events|, (e: Event) => e.finished);
    TextOrder(events);
    SameMembers(Sort(w, ByText(events)), w);
    SortOrdered(w, ByText(events));
    SortKeepsDistinct(w, ByText(events));
    forall k | 0 <= k < |Ends(events)| ensures 0 <= Ends(events)[k] < |events| {
      assert Ends(events)[k] in w;
    }
  }

  lemma SortKeepsDistinct(w: seq<int>, leq: (int, int) -> bool)
    requires Distinct(w)
    ensures Distinct(Sort(w, leq))
  {
    var r := Sort(w, leq);
    SameMembers(r, w);
    assert Elements(r) == Elements(w);
    DistinctCard(w);
    CardDistinct(r);
  }

  // ---------------------------------------------------------------------
  // Valid pairings
  // ---------------------------------------------------------------------

  predicate Closes(events: seq<Event>, e: int, s: int) {
    && 0 <= e < |events| && 0 <= s < |events|
    && NeedsStart(events[e]) && StartsIn(events[s], events[e].closes.value)
    && events[s].ticks.Some? && events[s].ticks.value <= events[e].ticks.value
  }

  /** Each start closes at most one span, by its own identity and not after the end. */
  ghost predicate ValidPairing(events: seq<Event>, m: map<int, int>) {
    && (forall e :: e in m ==> Closes(events, e, m[e]))
    && Injective(m)
  }

  /** Whatever the timestamps look like, the greedy pairing is valid. */
  lemma {:induction false} PairingIsValid(events: seq<Event>, order: seq<int>)
    ensures ValidPairing(events, Pairing(events, order))
  {
    if order != [] {
      var init, e := order[..|order| - 1], order[|order| - 1];
      PairingIsValid(events, init);
      CandidateMeaning(events, Pairing(events, init).Values, e);
    }
  }

  lemma CandidateMeaning(events: seq<Event>, used: set<int>, e: int)
    ensures match Candidate(events, used, e)
            case None => forall s :: Closes(events, e, s) ==> s in used
            case Some(s) => s !in used && Closes(events, e, s) &&
                            forall r :: Closes(events, e, r) && r !in used ==> events[r].text <= events[s].text
  {
    if 0 <= e < |events| && NeedsStart(events[e]) {
      var slot, at := events[e].closes.value, events[e].ticks.value;
      PoolFit(events, used, slot, at);
      forall s | Closes(events, e, s) && s !in used ensures FitsSlot(events, used, slot, s, at) {
      }
    }
  }

  predicate FitsSlot(events: seq<Event>, used: set<int>, slot: Slot, s: int, at: int) {
    Fits(events, used, s, at) && StartsIn(events[s], slot)
  }

  lemma LastIsLatest(events: seq<Event>, used: set<int>, pool: seq<int>, at: int, s: int)
    requires Pairwise(pool, ByText(events)) && LastFit(events, used, pool, at) == Some(s)
    ensures s in pool && Fits(events, used, s, at)
    ensures forall r :: r in pool && Fits(events, used, r, at) ==> events[r].text <= events[s].text
  {
    var i := LastFitPlace(events, used, pool, at);
    forall r | r in pool && Fits(events, used, r, at) ensures events[r].text <= events[s].text {
      var k :| 0 <= k < |pool| && pool[k] == r;
      assert k < i ==> ByText(events)(pool[k], pool[i]);
    }
  }

  lemma PoolFit(events: seq<Event>, used: set<int>, slot: Slot, at: int)
    ensures match LastFit(events, used, Pool(events, slot), at)
            case None => forall s :: !FitsSlot(events, used, slot, s, at)
            case Some(s) => FitsSlot(events, used, slot, s, at) &&
                            forall r :: FitsSlot(events, used, slot, r, at) ==> events[r].text <= events[s].text
  {
    var pool := Pool(events, slot);
    PoolMeaning(events, slot);
    match LastFit(events, used, pool, at)
    case None =>
      var _ := LastFitPlace(events, used, pool, at);
    case Some(s) =>
      LastIsLatest(events, used, pool, at, s);
  }

  /** The greedy pairing only grows, and never changes an end it has settled. */
  lemma {:induction false} PairingPrefix(events: seq<Event>, order: seq<int>, k: nat)
    requires Distinct(order) && k <= |order|
    ensures forall e :: e in order[..k] ==>
              (e in Pairing(events, order[..k]) <==> e in Pairing(events, order))
    ensures forall e :: e in Pairing(events, order[..k]) ==>
              e in Pairing(events, order) && Pairing(events, order)[e] == Pairing(events, order[..k])[e]
    decreases |order|
  {
    if k == |order| {
      assert order[..k] == order;
    } else {
      var init := order[..|order| - 1];
      assert init[..k] == order[..k];
      PairingPrefix(events, init, k);
      assert order[|order| - 1] !in order[..k];
    }
  }

  // ---------------------------------------------------------------------
  // Spans of one identity are nested or disjoint
  // ---------------------------------------------------------------------

  /** Of two spans with one identity, the earlier to end is inside the other or before it. */
  ghost predicate NestedOrApart(events: seq<Event>, m: map<int, int>, e: int, f: int)
    requires e in m && f in m
  {
    && Closes(events, e, m[e]) && Closes(events, f, m[f])
    && events[e].ticks.value <= events[f].ticks.value
    && (events[m[f]].ticks.value <= events[m[e]].ticks.value || events[e].ticks.value < events[m[f]].ticks.value)
  }

  lemma NestedOrDisjoint(events: seq<Event>, order: seq<int>, i: nat, j: nat, slot: Slot)
    requires Indices(events, order) && Pairwise(order, ByText(events)) && i < j < |order|
    requires events[order[i]].closes == events[order[j]].closes == Some(slot)
    requires EndsInOrder(events, slot) && StartsInOrder(events, slot)
    ensures order[i] in Pairing(events, order) && order[j] in Pairing(events, order) ==>
              NestedOrApart(events, Pairing(events, order), order[i], order[j])
  {
    var m, e, f := Pairing(events, order), order[i], order[j];
    if e in m && f in m {
      PairingIsValid(events, order);
      assert ByText(events)(e, f);
      if events[m[f]].ticks.value <= events[e].ticks.value {
        assert Closes(events, e, m[e]) && Closes(events, f, m[f]) && Closes(events, e, m[f]);
        TookLaterText(events, order, i, j, m);
      }
    }
  }

  /** When an end is closed, the start of a later end is still free. */
  lemma StartWasFree(events: seq<Event>, order: seq<int>, i: nat, j: nat)
    requires Indices(events, order) && i < j < |order|
    requires order[j] in Pairing(events, order)
    ensures Pairing(events, order)[order[j]] !in Pairing(events, order[..i]).Values
    ensures order[i] !in Pairing(events, order[..i])
  {
    var m, before, f := Pairing(events, order), Pairing(events, order[..i]), order[j];
    PairingIsValid(events, order);
    PairingPrefix(events, order, i);
    assert order[i] !in order[..i] && f !in order[..i];
    forall x | x in before ensures before[x] != m[f] {
      assert x in m && m[x] == before[x] && x != f;
    }
  }

  /** An end that could have closed the start of a later end took one at least as late by text. */
  lemma TookLaterText(events: seq<Event>, order: seq<int>, i: nat, j: nat, m: map<int, int>)
    requires Indices(events, order) && i < j < |order| && m == Pairing(events, order)
    requires order[i] in m && order[j] in m && Closes(events, order[i], m[order[j]])
    ensures 0 <= m[order[i]] < |events| && events[m[order[j]]].text <= events[m[order[i]]].text
  {
    StartWasFree(events, order, i, j);
    PairingPrefix(events, order, i + 1);
    assert order[..i + 1][..i] == order[..i];
    CandidateMeaning(events, Pairing(events, order[..i]).Values, order[i]);
  }

  // ---------------------------------------------------------------------
  // No valid pairing resolves more
  // ---------------------------------------------------------------------

  ghost function InSlot(events: seq<Event>, m: map<int, int>, order: seq<int>, slot: Slot): map<int, int> {
    map e | e in m && e in order && SlotAt(events, e) == Some(slot) :: m[e]
  }

  ghost function StartsUpTo(events: seq<Event>, slot: Slot, at: int): set<int> {
    set s: int | 0 <= s < |events| && StartsIn(events[s], slot) && events[s].ticks.Some? && events[s].ticks.value <= at
  }

  lemma InSlotCards(events: seq<Event>, m: map<int, int>, order: seq<int>, slot: Slot)
    requires ValidPairing(events, m)
    ensures ValidPairing(events, InSlot(events, m, order, slot))
    ensures |InSlot(events, m, order, slot).Values| == |InSlot(events, m, order, slot).Keys|
  {
    InjectiveCard(InSlot(events, m, order, slot));
  }

  /** Ends up to some instant can only have used starts up to that instant. */
  lemma PairsFitIn(events: seq<Event>, m: map<int, int>, order: seq<int>, slot: Slot, at: int)
    requires ValidPairing(events, m)
    requires forall e :: e in order && 0 <= e < |events| && EndsIn(events[e], slot) ==> events[e].ticks.value <= at
    ensures |InSlot(events, m, order, slot).Keys| <= |StartsUpTo(events, slot, at)|
  {
    var p := InSlot(events, m, order, slot);
    InSlotCards(events, m, order, slot);
    forall s | s in p.Values ensures s in StartsUpTo(events, slot, at) {
      var e :| e in p && p[e] == s;
      assert Closes(events, e, m[e]);
    }
    SubsetCard(p.Values, StartsUpTo(events, slot, at));
  }

  lemma SlotStep(events: seq<Event>, m: map<int, int>, order: seq<int>, slot: Slot)
    requires order != [] && Distinct(order)
    ensures var e, init := order[|order| - 1], order[..|order| - 1];
            InSlot(events, m, order, slot).Keys ==
            InSlot(events, m, init, slot).Keys + if e in m && SlotAt(events, e) == Some(slot) then {e} else {}
    ensures order[|order| - 1] !in InSlot(events, m, order[..|order| - 1], slot)
  {
    assert order == order[..|order| - 1] + [order[|order| - 1]];
  }

  /** Slot by slot and prefix by prefix, no valid pairing is ahead of the greedy one. */
  lemma {:induction false} GreedyStaysAhead(events: seq<Event>, order: seq<int>, p: map<int, int>, slot: Slot)
    requires EndsInOrder(events, slot) && Indices(events, order) && Pairwise(order, ByText(events))
    requires ValidPairing(events, p)
    ensures |Closed(events, p, order, slot)| <= |Closed(events, Pairing(events, order), order, slot)|
    decreases |order|
  {
    if order == [] {
      assert Closed(events, p, order, slot) == {};
    } else {
      GreedyStaysAhead(events, order[..|order| - 1], p, slot);
      GreedyStep(events, order, p, slot);
    }
  }

  /** The greedy pairs of a prefix are those it still has at the end. */
  lemma SlotPrefix(events: seq<Event>, order: seq<int>, slot: Slot)
    requires Distinct(order) && order != []
    ensures var init := order[..|order| - 1];
            InSlot(events, Pairing(events, order), init, slot).Keys ==
            InSlot(events, Pairing(events, init), init, slot).Keys
  {
    PairingPrefix(events, order, |order| - 1);
  }

  lemma OneMore(a: set<int>, a': set<int>, b: set<int>, b': set<int>, e: int, inA: bool, inB: bool)
    requires |a| <= |b| && e !in b && (inA ==> inB)
    requires a' == a + (if inA then {e} else {}) && b' == b + if inB then {e} else {}
    ensures |a'| <= |b'|
  {
    if inA && e in a {
      assert a' == a;
    }
  }

  /** The greedy choice fails for the last end, yet another pairing closes it. */
  lemma GreedyStuck(events: seq<Event>, order: seq<int>, p: map<int, int>, slot: Slot)
    requires EndsInOrder(events, slot) && Indices(events, order) && Pairwise(order, ByText(events))
    requires ValidPairing(events, p) && order != []
    requires order[|order| - 1] in p && order[|order| - 1] !in Pairing(events, order)
    requires SlotAt(events, order[|order| - 1]) == Some(slot)
    ensures var init := order[..|order| - 1];
            |InSlot(events, p, order, slot).Keys| <= |InSlot(events, Pairing(events, init), init, slot).Keys|
  {
    var e, init := order[|order| - 1], order[..|order| - 1];
    assert Closes(events, e, p[e]);
    GreedyUsedAll(events, init, e, slot);
    LatestEnd(events, order, slot);
    PairsFitIn(events, p, order, slot, events[e].ticks.value);
  }

  /** The ends of one slot that a pairing resolves. */
  ghost function Closed(events: seq<Event>, m: map<int, int>, order: seq<int>, slot: Slot): set<int> {
    InSlot(events, m, order, slot).Keys
  }

  lemma GreedyClosedStep(events: seq<Event>, order: seq<int>, slot: Slot)
    requires order != [] && Distinct(order)
    ensures var e, init := order[|order| - 1], order[..|order| - 1];
            && e !in Closed(events, Pairing(events, init), init, slot)
            && Closed(events, Pairing(events, order), order, slot) ==
               Closed(events, Pairing(events, init), init, slot) +
               if e in Pairing(events, order) && SlotAt(events, e) == Some(slot) then {e} else {}
  {
    SlotStep(events, Pairing(events, order), order, slot);
    SlotPrefix(events, order, slot);
  }

  lemma GreedyStep(events: seq<Event>, order: seq<int>, p: map<int, int>, slot: Slot)
    requires EndsInOrder(events, slot) && Indices(events, order) && Pairwise(order, ByText(events))
    requires ValidPairing(events, p) && order != []
    requires var init := order[..|order| - 1];
             |Closed(events, p, init, slot)| <= |Closed(events, Pairing(events, init), init, slot)|
    ensures |Closed(events, p, order, slot)| <= |Closed(events, Pairing(events, order), order, slot)|
  {
    var e, init := order[|order| - 1], order[..|order| - 1];
    var theirs := e in p && SlotAt(events, e) == Some(slot);
    var mine := e in Pairing(events, order) && SlotAt(events, e) == Some(slot);
    var a, a' := Closed(events, p, init, slot), Closed(events, p, order, slot);
    var b, b' := Closed(events, Pairing(events, init), init, slot), Closed(events, Pairing(events, order), order, slot);
    SlotStep(events, p, order, slot);
    GreedyClosedStep(events, order, slot);
    if theirs && !mine {
      GreedyStuck(events, order, p, slot);
      SubsetCard(b, b');
    } else {
      OneMore(a, a', b, b', e, theirs, mine);
    }
  }

  lemma LatestEnd(events: seq<Event>, order: seq<int>, slot: Slot)
    requires EndsInOrder(events, slot) && Indices(events, order) && Pairwise(order, ByText(events))
    requires order != [] && EndsIn(events[order[|order| - 1]], slot)
    ensures forall x :: x in order && 0 <= x < |events| && EndsIn(events[x], slot) ==>
              events[x].ticks.value <= events[order[|order| - 1]].ticks.value
  {
    forall x | x in order && 0 <= x < |events| && EndsIn(events[x], slot)
      ensures events[x].ticks.value <= events[order[|order| - 1]].ticks.value
    {
      var i :| 0 <= i < |order| && order[i] == x;
      assert i < |order| - 1 ==> ByText(events)(order[i], order[|order| - 1]);
    }
  }

  /** When the greedy choice fails, every start up to then is already closed by it. */
  lemma GreedyUsedAll(events: seq<Event>, init: seq<int>, e: int, slot: Slot)
    requires Indices(events, init) && 0 <= e < |events| && e !in init
    requires NeedsStart(events[e]) && events[e].closes == Some(slot)
    requires Candidate(events, Pairing(events, init).Values, e) == None
    ensures |StartsUpTo(events, slot, events[e].ticks.value)| <=
            |InSlot(events, Pairing(events, init), init, slot).Keys|
  {
    var m := Pairing(events, init);
    PairingIsValid(events, init);
    CandidateMeaning(events, m.Values, e);
    var mine := InSlot(events, m, init, slot);
    InSlotCards(events, m, init, slot);
    var starts := StartsUpTo(events, slot, events[e].ticks.value);
    forall s | s in starts ensures s in mine.Values {
      assert Closes(events, e, s);
      var f :| f in m && m[f] == s;
      assert Closes(events, f, s);
      assert f in mine && mine[f] == s;
    }
    SubsetCard(starts, mine.Values);
  }

  ghost function OfSlot(events: seq<Event>, s: set<int>, slot: Option<Slot>): set<int> {
    set e | e in s && SlotAt(events, e) == slot
  }

  lemma OfSlotLess(events: seq<Event>, s: set<int>, e: int, slot: Option<Slot>)
    requires e in s
    ensures |OfSlot(events, s - {e}, slot)| == |OfSlot(events, s, slot)| - if SlotAt(events, e) == slot then 1 else 0
  {
    assert OfSlot(events, s - {e}, slot) == OfSlot(events, s, slot) - {e};
  }

  /** If no slot holds more of a than of b, a is no larger than b. */
  lemma {:induction false} CountBySlot(events: seq<Event>, a: set<int>, b: set<int>)
    requires forall slot :: |OfSlot(events, a, slot)| <= |OfSlot(events, b, slot)|
    ensures |a| <= |b|
    decreases |a|
  {
    if e :| e in a {
      var slot := SlotAt(events, e);
      assert e in OfSlot(events, a, slot);
      assert OfSlot(events, b, slot) != {} by {
        assert |OfSlot(events, a, slot)| > 0;
      }
      var f :| f in OfSlot(events, b, slot);
      forall t ensures |OfSlot(events, a - {e}, t)| <= |OfSlot(events, b - {f}, t)| {
        OfSlotLess(events, a, e, t);
        OfSlotLess(events, b, f, t);
      }
      CountBySlot(events, a - {e}, b - {f});
    } else {
      assert a == {};
    }
  }

  lemma SlotKeys(events: seq<Event>, m: map<int, int>, order: seq<int>, slot: Slot)
    requires forall e :: e in m ==> e in order
    ensures OfSlot(events, m.Keys, Some(slot)) == InSlot(events, m, order, slot).Keys
  {
  }

  lemma PairedEndsAreEnds(events: seq<Event>, m: map<int, int>)
    requires ValidPairing(events, m)
    ensures forall e :: e in m ==> e in Ends(events) && SlotAt(events, e).Some?
  {
    EndsMeaning(events);
    forall e | e in m ensures e in Ends(events) && SlotAt(events, e).Some? {
      assert Closes(events, e, m[e]);
    }
  }

  /** No valid pairing resolves more ends. */
  ghost predicate IsMaximum(events: seq<Event>) {
    forall p :: ValidPairing(events, p) ==> |p| <= |Pairing(events, Ends(events))|
  }

  /** Optimality: if the ends of each identity are in order, no valid pairing resolves more payload-less
    * ends. The order of the starts, and of other events, does not matter. */
  lemma GreedyIsMaximum(events: seq<Event>)
    requires forall slot :: EndsInOrder(events, slot)
    ensures IsMaximum(events)
  {
    forall p | ValidPairing(events, p) ensures |p| <= |Pairing(events, Ends(events))| {
      NoPairingBeatsGreedy(events, p);
    }
  }

  lemma NoPairingBeatsGreedy(events: seq<Event>, p: map<int, int>)
    requires (forall slot :: EndsInOrder(events, slot)) && ValidPairing(events, p)
    ensures |p| <= |Pairing(events, Ends(events))|
  {
    var order := Ends(events);
    var m := Pairing(events, order);
    EndsMeaning(events);
    PairingIsValid(events, order);
    PairedEndsAreEnds(events, p);
    PairedEndsAreEnds(events, m);
    forall slot ensures |OfSlot(events, p.Keys, slot)| <= |OfSlot(events, m.Keys, slot)| {
      if slot.Some? {
        GreedyStaysAhead(events, order, p, slot.value);
        SlotKeys(events, p, order, slot.value);
        SlotKeys(events, m, order, slot.value);
      } else {
        assert OfSlot(events, p.Keys, slot) == {};
      }
    }
    CountBySlot(events, p.Keys, m.Keys);
    assert |p| == |p.Keys| && |m| == |m.Keys|;
  }
}
