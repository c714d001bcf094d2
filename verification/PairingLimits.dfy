/** What the pairing's guarantees depend on. It is a maximum one whatever the starts are, exactly if the
  * ends of every identity are in order; and spans of one identity never cross, exactly if its ends and
  * its starts are.
  */
module PairingLimits {
  import opened Collections
  import Intervals
  import opened Sorting
  import opened SpanPairing

  predicate OnlyEnds(events: seq<Event>) {
    forall i :: 0 <= i < |events| ==> events[i].opens.None?
  }

  predicate OnlyStarts(events: seq<Event>) {
    forall i :: 0 <= i < |events| ==> !events[i].finished && events[i].closes.None?
  }

  /** Bounds above and below every text and every instant of a log. */
  function Above(events: seq<Event>): (b: int)
    ensures forall i :: 0 <= i < |events| ==>
                          events[i].text < b && (events[i].ticks.Some? ==> events[i].ticks.value < b)
  {
    if events == [] then 0
    else
      var init, last := events[..|events| - 1], events[|events| - 1];
      var b, t := Above(init), if last.ticks.Some? then last.ticks.value else 0;
      1 + Max(b, Max(last.text, t))
  }

  function Max(a: int, b: int): int {
    if a < b then b else a
  }

  function Below(events: seq<Event>): (b: int)
    ensures forall i :: 0 <= i < |events| ==>
                          b < events[i].text && (events[i].ticks.Some? ==> b < events[i].ticks.value)
  {
    if events == [] then 0
    else
      var init, last := events[..|events| - 1], events[|events| - 1];
      var b, t := Below(init), if last.ticks.Some? then last.ticks.value else 0;
      -1 - Max(-b, Max(-last.text, -t))
  }

  // ---------------------------------------------------------------------
  // The greedy pairing over all ends
  // ---------------------------------------------------------------------

  function Greedy(events: seq<Event>): map<int, int> {
    Pairing(events, Ends(events))
  }

  /** Two end events in the order they are processed. */
  ghost predicate Precedes(events: seq<Event>, e: int, f: int) {
    exists i, j :: 0 <= i < j < |Ends(events)| && Ends(events)[i] == e && Ends(events)[j] == f
  }

  lemma ByTextPrecedes(events: seq<Event>, e: int, f: int)
    requires 0 <= e < |events| && 0 <= f < |events| && events[e].finished && events[f].finished
    requires events[e].text < events[f].text
    ensures Precedes(events, e, f)
  {
    EndsMeaning(events);
    var order := Ends(events);
    var i :| 0 <= i < |order| && order[i] == e;
    var j :| 0 <= j < |order| && order[j] == f;
  }

  lemma OneFirst(events: seq<Event>, e: int, f: int)
    requires e in Greedy(events) && f in Greedy(events) && e != f
    ensures Precedes(events, e, f) || Precedes(events, f, e)
  {
    var order := Ends(events);
    var i :| 0 <= i < |order| && order[i] == e;
    var j :| 0 <= j < |order| && order[j] == f;
  }

  /** The earlier end could have had the later one's start, and took one at least as late by text. */
  lemma EarlierTakesLaterText(events: seq<Event>, e: int, f: int)
    requires Precedes(events, e, f) && e in Greedy(events) && f in Greedy(events)
    requires Closes(events, e, Greedy(events)[f])
    ensures 0 <= Greedy(events)[e] < |events|
    ensures events[Greedy(events)[f]].text <= events[Greedy(events)[e]].text
  {
    EndsMeaning(events);
    var i, j :| 0 <= i < j < |Ends(events)| && Ends(events)[i] == e && Ends(events)[j] == f;
    TookLaterText(events, Ends(events), i, j, Greedy(events));
  }

  lemma OpenAt(events: seq<Event>, order: seq<int>, i: nat, s: int)
    requires Indices(events, order) && i < |order| && order[i] !in Pairing(events, order)
    requires Closes(events, order[i], s)
    ensures s in Pairing(events, order[..i]).Values
  {
    PairingPrefix(events, order, i + 1);
    assert order[..i + 1][..i] == order[..i] && order[i] in order[..i + 1];
    CandidateMeaning(events, Pairing(events, order[..i]).Values, order[i]);
  }

  lemma UsedStaysUsed(events: seq<Event>, order: seq<int>, i: nat, s: int)
    requires Distinct(order) && i <= |order| && s in Pairing(events, order[..i]).Values
    ensures s in Pairing(events, order).Values
  {
    PairingPrefix(events, order, i);
    var x := KeyOf(Pairing(events, order[..i]), s);
    assert Pairing(events, order)[x] == s;
  }

  /** An end that stays open found every start it could close already used. */
  lemma OpenMeansAllUsed(events: seq<Event>, e: int, s: int)
    requires e in Ends(events) && e !in Greedy(events) && Closes(events, e, s)
    ensures s in Greedy(events).Values
  {
    EndsMeaning(events);
    var i :| 0 <= i < |Ends(events)| && Ends(events)[i] == e;
    OpenAt(events, Ends(events), i, s);
    UsedStaysUsed(events, Ends(events), i, s);
  }

  // ---------------------------------------------------------------------
  // Maximality needs the ends in order
  // ---------------------------------------------------------------------

  /** For every end one start at the same instant, of the same identity, with texts in reverse order. */
  function Mirror(ends: seq<Event>): (starts: seq<Event>)
    ensures |starts| == |ends| && OnlyStarts(starts)
    ensures forall i :: 0 <= i < |ends| ==> starts[i] == MirrorOf(Above(ends), ends[i])
  {
    seq(|ends|, i requires 0 <= i < |ends| => MirrorOf(Above(ends), ends[i]))
  }

  function MirrorOf(top: int, e: Event): Event {
    if NeedsStart(e) then Event(2 * top - e.ticks.value, e.ticks, e.closes, None, false)
    else Event(e.text, e.ticks, None, None, false)
  }

  lemma MirrorIsParsed(ends: seq<Event>)
    requires Parsed(ends)
    ensures Parsed(ends + Mirror(ends))
  {
    var n, top := |ends|, Above(ends);
    var events := ends + Mirror(ends);
    forall i, j | 0 <= i < |events| && 0 <= j < |events| && events[i].text == events[j].text
      ensures events[i].ticks == events[j].ticks
    {
      var x, y := if i < n then i else i - n, if j < n then j else j - n;
      assert events[i] == ends[x] || events[i] == MirrorOf(top, ends[x]);
      assert events[j] == ends[y] || events[j] == MirrorOf(top, ends[y]);
    }
  }

  /** Each end with its own mirror start. */
  function Mirrored(ends: seq<Event>): map<int, int> {
    map e: int | 0 <= e < |ends| && NeedsStart(ends[e]) :: |ends| + e
  }

  lemma MirroredIsValid(ends: seq<Event>)
    ensures ValidPairing(ends + Mirror(ends), Mirrored(ends))
  {
    var events := ends + Mirror(ends);
    forall e | e in Mirrored(ends) ensures Closes(events, e, Mirrored(ends)[e]) {
      assert events[|ends| + e] == MirrorOf(Above(ends), ends[e]);
    }
  }

  /** If the greedy pairing is as large, it closes every end that can be closed. */
  lemma AllMirroredClosed(ends: seq<Event>)
    requires IsMaximum(ends + Mirror(ends))
    ensures Greedy(ends + Mirror(ends)).Keys == Mirrored(ends).Keys
    ensures ValidPairing(ends + Mirror(ends), Greedy(ends + Mirror(ends)))
  {
    var events := ends + Mirror(ends);
    var m := Greedy(events);
    MirroredIsValid(ends);
    PairingIsValid(events, Ends(events));
    forall e | e in m ensures e in Mirrored(ends) {
      assert Closes(events, e, m[e]);
    }
    assert |m| == |m.Keys| && |Mirrored(ends)| == |Mirrored(ends).Keys|;
    SubsetCard(m.Keys, Mirrored(ends).Keys);
  }

  /** The start closed by an end is the mirror of some end of the same identity, at the start's instant. */
  lemma ClosedIsMirror(ends: seq<Event>, e: int, s: int, slot: Slot) returns (x: int)
    requires OnlyEnds(ends) && 0 <= e < |ends| && EndsIn(ends[e], slot) && Closes(ends + Mirror(ends), e, s)
    ensures s == |ends| + x && 0 <= x < |ends| && EndsIn(ends[x], slot)
    ensures (ends + Mirror(ends))[s] == MirrorOf(Above(ends), ends[x])
    ensures ends[x].ticks.value <= ends[e].ticks.value
  {
    x := s - |ends|;
  }

  /** Ends processed earlier took earlier starts: reversed texts make the choice go by the lowest. */
  lemma ReversedTakesLowest(events: seq<Event>, e: int, f: int, s: int, r: int)
    requires Precedes(events, e, f) && e in Greedy(events) && f in Greedy(events)
    requires Greedy(events)[e] == s && Greedy(events)[f] == r
    requires Closes(events, e, s) && Closes(events, f, r) && events[e].closes == events[f].closes
    requires events[r].text <= events[s].text <==> events[s].ticks.value <= events[r].ticks.value
    ensures events[s].ticks.value <= events[r].ticks.value
  {
    if events[r].ticks.value < events[s].ticks.value {
      EarlierTakesLaterText(events, e, f);
    }
  }

  lemma MirrorTexts(ends: seq<Event>, x: int, y: int)
    requires 0 <= x < |ends| && 0 <= y < |ends| && NeedsStart(ends[x]) && NeedsStart(ends[y])
    ensures var events, n := ends + Mirror(ends), |ends|;
            && events[n + x].ticks == ends[x].ticks && events[n + y].ticks == ends[y].ticks
            && events[n + x].opens == ends[x].closes && events[n + y].opens == ends[y].closes
            && (events[n + y].text <= events[n + x].text <==> ends[x].ticks.value <= ends[y].ticks.value)
  {
    assert (ends + Mirror(ends))[|ends| + x] == MirrorOf(Above(ends), ends[x]);
    assert (ends + Mirror(ends))[|ends| + y] == MirrorOf(Above(ends), ends[y]);
  }

  ghost function UpTo(ends: seq<Event>, slot: Slot, at: int): set<int> {
    set e: int | 0 <= e < |ends| && EndsIn(ends[e], slot) && ends[e].ticks.value <= at
  }

  /** If all ends up to some instant closed mirrors of such ends, nobody else did. */
  lemma NoRoomForMore(a: set<int>, m: map<int, int>, n: int, extra: int)
    requires a <= m.Keys && extra in m && extra !in a
    requires Injective(m)
    requires forall e :: e in a ==> m[e] - n in a
    ensures m[extra] - n !in a
  {
    if m[extra] - n in a {
      var q := map e | e in a + {extra} :: m[e] - n;
      forall e, f | e in q && f in q && e != f ensures q[e] != q[f] {
        assert m[e] != m[f];
      }
      InjectiveCard(q);
      assert q.Keys == a + {extra};
      forall v | v in q.Values ensures v in a {
        var e := KeyOf(q, v);
        assert e in a || e == extra;
      }
      SubsetCard(q.Values, a);
    }
  }

  lemma ClosesWithin(ends: seq<Event>, m: map<int, int>, slot: Slot, at: int)
    requires OnlyEnds(ends) && ValidPairing(ends + Mirror(ends), m) && m.Keys == Mirrored(ends).Keys
    ensures UpTo(ends, slot, at) <= m.Keys
    ensures forall e :: e in UpTo(ends, slot, at) ==> m[e] - |ends| in UpTo(ends, slot, at)
  {
    forall e | e in UpTo(ends, slot, at) ensures e in m && m[e] - |ends| in UpTo(ends, slot, at) {
      assert e in Mirrored(ends);
      assert Closes(ends + Mirror(ends), e, m[e]);
      var x := ClosedIsMirror(ends, e, m[e], slot);
    }
  }

  /** The later of two ends out of order is processed first and takes a start no later than the other's. */
  lemma OutOfOrderTakes(ends: seq<Event>, events: seq<Event>, m: map<int, int>, slot: Slot, i: int, j: int)
    requires events == ends + Mirror(ends) && OnlyEnds(ends) && m == Greedy(events) && ValidPairing(events, m)
    requires i in m && j in m
    requires 0 <= i < |ends| && 0 <= j < |ends| && EndsIn(ends[i], slot) && EndsIn(ends[j], slot)
    requires ends[i].text < ends[j].text
    ensures m[i] - |ends| in UpTo(ends, slot, ends[j].ticks.value)
  {
    ByTextPrecedes(events, i, j);
    var s, r := m[i], m[j];
    assert Closes(events, i, s) && Closes(events, j, r);
    var x := ClosedIsMirror(ends, i, s, slot);
    var y := ClosedIsMirror(ends, j, r, slot);
    MirrorTexts(ends, x, y);
    ReversedTakesLowest(events, i, j, s, r);
  }

  /** If all ends are closed, the ends whose mirrors are early enough are themselves early enough. */
  lemma EarlyStartEarlyEnd(ends: seq<Event>, m: map<int, int>, slot: Slot, i: int, at: int)
    requires OnlyEnds(ends) && ValidPairing(ends + Mirror(ends), m) && m.Keys == Mirrored(ends).Keys
    requires i in Mirrored(ends) && EndsIn(ends[i], slot) && m[i] - |ends| in UpTo(ends, slot, at)
    ensures ends[i].ticks.value <= at
  {
    ClosesWithin(ends, m, slot, at);
    if i !in UpTo(ends, slot, at) {
      NoRoomForMore(UpTo(ends, slot, at), m, |ends|, i);
    }
  }

  lemma AllClosedInOrder(ends: seq<Event>, events: seq<Event>, m: map<int, int>, slot: Slot, i: int, j: int)
    requires OnlyEnds(ends) && events == ends + Mirror(ends) && m == Greedy(events)
    requires m.Keys == Mirrored(ends).Keys && ValidPairing(events, m)
    requires i in m && j in m && EndsIn(ends[i], slot) && EndsIn(ends[j], slot) && ends[i].text < ends[j].text
    ensures ends[i].ticks.value <= ends[j].ticks.value
  {
    OutOfOrderTakes(ends, events, m, slot, i, j);
    EarlyStartEarlyEnd(ends, m, slot, i, ends[j].ticks.value);
  }

  /** Two ends of one identity out of order: with the mirror starts the greedy pairing is not a maximum. */
  lemma MirrorLoses(ends: seq<Event>, slot: Slot, i: int, j: int)
    requires OnlyEnds(ends) && Parsed(ends) && i in Mirrored(ends) && j in Mirrored(ends)
    requires EndsIn(ends[i], slot) && EndsIn(ends[j], slot)
    requires ends[i].text <= ends[j].text && ends[j].ticks.value < ends[i].ticks.value
    ensures !IsMaximum(ends + Mirror(ends))
  {
    if IsMaximum(ends + Mirror(ends)) {
      AllMirroredClosed(ends);
      AllClosedInOrder(ends, ends + Mirror(ends), Greedy(ends + Mirror(ends)), slot, i, j);
    }
  }

  lemma StartsKeepEndsInOrder(ends: seq<Event>, starts: seq<Event>, slot: Slot)
    requires OnlyStarts(starts) && EndsInOrder(ends, slot)
    ensures EndsInOrder(ends + starts, slot)
  {
  }

  /** The exact condition for optimality. Given the ends of a log, the greedy pairing is a maximum one for
    * every choice of starts if and only if the ends of each identity are in order. */
  lemma MaximumExactlyIfEndsInOrder(ends: seq<Event>)
    requires OnlyEnds(ends) && Parsed(ends)
    ensures (forall slot :: EndsInOrder(ends, slot)) <==>
            (forall starts :: OnlyStarts(starts) && Parsed(ends + starts) ==> IsMaximum(ends + starts))
  {
    if forall slot :: EndsInOrder(ends, slot) {
      forall starts | OnlyStarts(starts) && Parsed(ends + starts) ensures IsMaximum(ends + starts) {
        forall slot ensures EndsInOrder(ends + starts, slot) {
          StartsKeepEndsInOrder(ends, starts, slot);
        }
        GreedyIsMaximum(ends + starts);
      }
    } else {
      var slot :| !EndsInOrder(ends, slot);
      var i, j :| 0 <= i < |ends| && 0 <= j < |ends| && EndsIn(ends[i], slot) && EndsIn(ends[j], slot) &&
                  ends[i].text <= ends[j].text && ends[j].ticks.value < ends[i].ticks.value;
      MirrorLoses(ends, slot, i, j);
      MirrorIsParsed(ends);
    }
  }

  // ---------------------------------------------------------------------
  // Spans that do not cross need ends and starts in order
  // ---------------------------------------------------------------------

  /** The span of f starts inside that of e and ends after it. */
  ghost predicate Crosses(events: seq<Event>, m: map<int, int>, e: int, f: int) {
    && e in m && f in m && Closes(events, e, m[e]) && Closes(events, f, m[f])
    && events[m[e]].ticks.value < events[m[f]].ticks.value <= events[e].ticks.value < events[f].ticks.value
  }

  ghost predicate NoneCross(events: seq<Event>, slot: Slot) {
    forall e, f ::
      e in Greedy(events) && f in Greedy(events) && SlotAt(events, e) == SlotAt(events, f) == Some(slot) ==>
        !Crosses(events, Greedy(events), e, f)
  }

  lemma NotCrossing(events: seq<Event>, slot: Slot, i: nat, j: nat)
    requires EndsInOrder(events, slot) && StartsInOrder(events, slot)
    requires i < j < |Ends(events)| && Ends(events)[i] in Greedy(events) && Ends(events)[j] in Greedy(events)
    requires SlotAt(events, Ends(events)[i]) == SlotAt(events, Ends(events)[j]) == Some(slot)
    ensures !Crosses(events, Greedy(events), Ends(events)[i], Ends(events)[j])
    ensures !Crosses(events, Greedy(events), Ends(events)[j], Ends(events)[i])
  {
    EndsMeaning(events);
    NestedOrDisjoint(events, Ends(events), i, j, slot);
  }

  lemma PlaceOf(events: seq<Event>, e: int) returns (i: nat)
    requires e in Greedy(events)
    ensures i < |Ends(events)| && Ends(events)[i] == e
  {
    i :| 0 <= i < |Ends(events)| && Ends(events)[i] == e;
  }

  lemma InOrderNoneCross(events: seq<Event>, slot: Slot)
    requires EndsInOrder(events, slot) && StartsInOrder(events, slot)
    ensures NoneCross(events, slot)
  {
    forall e, f | e in Greedy(events) && f in Greedy(events) && SlotAt(events, e) == SlotAt(events, f) == Some(slot)
      ensures !Crosses(events, Greedy(events), e, f)
    {
      var i := PlaceOf(events, e);
      var j := PlaceOf(events, f);
      if i < j {
        NotCrossing(events, slot, i, j);
      } else if j < i {
        NotCrossing(events, slot, j, i);
      }
    }
  }

  /** As many starts of the slot as there are ends, all before every end, with texts in order. */
  function EarlyStarts(ends: seq<Event>, slot: Slot): (starts: seq<Event>)
    ensures |starts| == |ends|
    ensures forall i :: 0 <= i < |ends| ==>
                          starts[i] == Event(Below(ends) - 1 - i, Some(Below(ends) - 1 - i), Some(slot), None, false)
  {
    seq(|ends|, i => Event(Below(ends) - 1 - i, Some(Below(ends) - 1 - i), Some(slot), None, false))
  }

  /** As many ends of the slot as there are starts, all after every start, with texts in order. */
  function LateEnds(starts: seq<Event>, slot: Slot): (ends: seq<Event>)
    ensures |ends| == |starts|
    ensures forall i :: 0 <= i < |starts| ==>
                          ends[i] == Event(Above(starts) + i, Some(Above(starts) + i), None, Some(slot), true)
  {
    seq(|starts|, i => Event(Above(starts) + i, Some(Above(starts) + i), None, Some(slot), true))
  }

  /** The indices of the first half and the second half of a log. */
  ghost function Half(n: nat, second: bool): set<int> {
    if second then Intervals.Range(n, 2 * n) else Intervals.Range(0, n)
  }

  lemma HalfCard(n: nat, second: bool)
    ensures |Half(n, second)| == n
  {
    Intervals.RangeCard(if second then n else 0, if second then 2 * n else n);
  }

  lemma OpenMeansEarlyUsed(ends: seq<Event>, slot: Slot, e: int)
    requires OnlyEnds(ends) && 0 <= e < |ends| && EndsIn(ends[e], slot)
    requires e !in Greedy(ends + EarlyStarts(ends, slot))
    ensures Half(|ends|, true) <= Greedy(ends + EarlyStarts(ends, slot)).Values
  {
    var events := ends + EarlyStarts(ends, slot);
    EndsMeaning(events);
    forall s | s in Half(|ends|, true) ensures s in Greedy(events).Values {
      assert events[s] == EarlyStarts(ends, slot)[s - |ends|];
      OpenMeansAllUsed(events, e, s);
    }
  }

  /** With that many starts before all ends, every end finds one. */
  lemma EarlyAllClosed(ends: seq<Event>, slot: Slot, e: int)
    requires OnlyEnds(ends) && 0 <= e < |ends| && EndsIn(ends[e], slot)
    ensures e in Greedy(ends + EarlyStarts(ends, slot))
  {
    var n, events := |ends|, ends + EarlyStarts(ends, slot);
    var m := Greedy(events);
    PairingIsValid(events, Ends(events));
    if e !in m {
      OpenMeansEarlyUsed(ends, slot, e);
      forall x | x in m ensures x in Half(n, false) - {e} {
        assert Closes(events, x, m[x]);
      }
      HalfCard(n, false);
      HalfCard(n, true);
      InjectiveBounds(m, Half(n, false) - {e}, Half(n, true));
    }
  }

  lemma EarlyStartTaken(ends: seq<Event>, slot: Slot, e: int)
    requires OnlyEnds(ends) && 0 <= e < |ends| && EndsIn(ends[e], slot)
    ensures var events := ends + EarlyStarts(ends, slot);
            && e in Greedy(events) && Closes(events, e, Greedy(events)[e])
            && |ends| <= Greedy(events)[e]
            && events[Greedy(events)[e]].text == events[Greedy(events)[e]].ticks.value < Below(ends)
  {
    var events := ends + EarlyStarts(ends, slot);
    EarlyAllClosed(ends, slot, e);
    PairingIsValid(events, Ends(events));
    assert Closes(events, e, Greedy(events)[e]);
  }

  lemma OutOfOrderEndsCross(ends: seq<Event>, events: seq<Event>, slot: Slot, i: int, j: int)
    requires OnlyEnds(ends) && events == ends + EarlyStarts(ends, slot)
    requires 0 <= i < |ends| && 0 <= j < |ends| && EndsIn(ends[i], slot) && EndsIn(ends[j], slot)
    requires ends[i].text < ends[j].text && ends[j].ticks.value < ends[i].ticks.value
    ensures Crosses(events, Greedy(events), j, i)
  {
    EarlyStartTaken(ends, slot, i);
    EarlyStartTaken(ends, slot, j);
    PairingIsValid(events, Ends(events));
    ByTextPrecedes(events, i, j);
    EarlierTakesLaterText(events, i, j);
    EarlyTextsDiffer(ends, slot, Greedy(events)[i], Greedy(events)[j]);
  }

  lemma EarlyTextsDiffer(ends: seq<Event>, slot: Slot, s: int, r: int)
    requires |ends| <= s < 2 * |ends| && |ends| <= r < 2 * |ends| && s != r
    ensures (ends + EarlyStarts(ends, slot))[s].text != (ends + EarlyStarts(ends, slot))[r].text
  {
    assert (ends + EarlyStarts(ends, slot))[s] == EarlyStarts(ends, slot)[s - |ends|];
    assert (ends + EarlyStarts(ends, slot))[r] == EarlyStarts(ends, slot)[r - |ends|];
  }

  /** Ends in order are needed. Given the ends of a log, no two spans of an identity cross, for every
    * choice of starts in order, if and only if the ends are in order. */
  lemma NoneCrossExactlyIfEndsInOrder(ends: seq<Event>, slot: Slot)
    requires OnlyEnds(ends) && Parsed(ends)
    ensures EndsInOrder(ends, slot) <==>
            (forall starts :: OnlyStarts(starts) && Parsed(ends + starts) && StartsInOrder(starts, slot) ==>
                                NoneCross(ends + starts, slot))
  {
    if EndsInOrder(ends, slot) {
      forall starts | OnlyStarts(starts) && Parsed(ends + starts) && StartsInOrder(starts, slot)
        ensures NoneCross(ends + starts, slot)
      {
        assert StartsInOrder(ends + starts, slot);
        StartsKeepEndsInOrder(ends, starts, slot);
        InOrderNoneCross(ends + starts, slot);
      }
    } else {
      var i, j :| 0 <= i < |ends| && 0 <= j < |ends| && EndsIn(ends[i], slot) && EndsIn(ends[j], slot) &&
                  ends[i].text <= ends[j].text && ends[j].ticks.value < ends[i].ticks.value;
      OutOfOrderEndsCross(ends, ends + EarlyStarts(ends, slot), slot, i, j);
      EarlyStartsFit(ends, slot);
    }
  }

  lemma EarlyStartsFit(ends: seq<Event>, slot: Slot)
    requires Parsed(ends)
    ensures Parsed(ends + EarlyStarts(ends, slot))
    ensures OnlyStarts(EarlyStarts(ends, slot)) && StartsInOrder(EarlyStarts(ends, slot), slot)
  {
  }

  lemma UnusedMeansLateClosed(starts: seq<Event>, slot: Slot, s: int)
    requires OnlyStarts(starts) && 0 <= s < |starts| && StartsIn(starts[s], slot) && starts[s].ticks.Some?
    requires s !in Greedy(starts + LateEnds(starts, slot)).Values
    ensures Half(|starts|, true) <= Greedy(starts + LateEnds(starts, slot)).Keys
  {
    var events := starts + LateEnds(starts, slot);
    EndsMeaning(events);
    forall e | e in Half(|starts|, true) ensures e in Greedy(events) {
      assert events[e] == LateEnds(starts, slot)[e - |starts|];
      if e !in Greedy(events) {
        OpenMeansAllUsed(events, e, s);
      }
    }
  }

  lemma LateClosesStarts(starts: seq<Event>, slot: Slot, m: map<int, int>)
    requires ValidPairing(starts + LateEnds(starts, slot), m)
    ensures m.Values <= Half(|starts|, false)
  {
    forall x | x in m.Values ensures x in Half(|starts|, false) {
      var y := KeyOf(m, x);
      assert Closes(starts + LateEnds(starts, slot), y, x);
    }
  }

  /** A valid pairing of n ends uses all of n starts. */
  lemma AllStartsUsed(m: map<int, int>, n: nat, s: nat)
    requires Injective(m)
    requires s < n && Half(n, true) <= m.Keys && m.Values <= Half(n, false)
    ensures s in m.Values
  {
    if s !in m.Values {
      HalfCard(n, false);
      HalfCard(n, true);
      assert m.Values <= Half(n, false) - {s};
      InjectiveBounds(m, Half(n, true), Half(n, false) - {s});
    }
  }

  /** With as many ends after all starts, every start is used. */
  lemma LateAllUsed(starts: seq<Event>, slot: Slot, s: int) returns (e: int)
    requires OnlyStarts(starts) && 0 <= s < |starts| && StartsIn(starts[s], slot) && starts[s].ticks.Some?
    ensures var m := Greedy(starts + LateEnds(starts, slot)); e in m && m[e] == s
  {
    var events := starts + LateEnds(starts, slot);
    var m := Greedy(events);
    if s !in m.Values {
      PairingIsValid(events, Ends(events));
      UnusedMeansLateClosed(starts, slot, s);
      LateClosesStarts(starts, slot, m);
      AllStartsUsed(m, |starts|, s);
      assert false;
    }
    e := KeyOf(m, s);
  }

  lemma OutOfOrderStartsCross(starts: seq<Event>, events: seq<Event>, slot: Slot, s: int, r: int)
    returns (e: int, f: int)
    requires OnlyStarts(starts) && events == starts + LateEnds(starts, slot)
    requires 0 <= s < |starts| && 0 <= r < |starts| && StartsIn(starts[s], slot) && StartsIn(starts[r], slot)
    requires starts[s].ticks.Some? && starts[r].ticks.Some?
    requires starts[s].text < starts[r].text && starts[r].ticks.value < starts[s].ticks.value
    ensures Crosses(events, Greedy(events), f, e) && SlotAt(events, e) == SlotAt(events, f) == Some(slot)
  {
    var m := Greedy(events);
    e := LateAllUsed(starts, slot, s);
    f := LateAllUsed(starts, slot, r);
    PairingIsValid(events, Ends(events));
    assert Closes(events, e, s) && Closes(events, f, r);
    assert events[e] == LateEnds(starts, slot)[e - |starts|] && events[f] == LateEnds(starts, slot)[f - |starts|];
    OneFirst(events, e, f);
    if Precedes(events, e, f) {
      EarlierTakesLaterText(events, e, f);
    }
    PrecedesByText(events, f, e);
  }

  lemma PrecedesByText(events: seq<Event>, e: int, f: int)
    requires Precedes(events, e, f)
    ensures 0 <= e < |events| && 0 <= f < |events| && events[e].text <= events[f].text
  {
    EndsMeaning(events);
    var i, j :| 0 <= i < j < |Ends(events)| && Ends(events)[i] == e && Ends(events)[j] == f;
    assert ByText(events)(e, f);
  }

  /** Starts in order are needed too. Given the starts of a log, no two spans of an identity cross, for
    * every choice of ends in order, if and only if the starts are in order. */
  lemma NoneCrossExactlyIfStartsInOrder(starts: seq<Event>, slot: Slot)
    requires OnlyStarts(starts) && Parsed(starts)
    ensures StartsInOrder(starts, slot) <==>
            (forall ends :: OnlyEnds(ends) && Parsed(starts + ends) && EndsInOrder(ends, slot) ==>
                              NoneCross(starts + ends, slot))
  {
    if StartsInOrder(starts, slot) {
      forall ends | OnlyEnds(ends) && Parsed(starts + ends) && EndsInOrder(ends, slot)
        ensures NoneCross(starts + ends, slot)
      {
        assert StartsInOrder(starts + ends, slot);
        assert EndsInOrder(starts + ends, slot);
        InOrderNoneCross(starts + ends, slot);
      }
    } else {
      var s, r :| 0 <= s < |starts| && 0 <= r < |starts| && StartsIn(starts[s], slot) && StartsIn(starts[r], slot) &&
                  starts[s].ticks.Some? && starts[r].ticks.Some? &&
                  starts[s].text <= starts[r].text && starts[r].ticks.value < starts[s].ticks.value;
      var e, f := OutOfOrderStartsCross(starts, starts + LateEnds(starts, slot), slot, s, r);
      LateEndsFit(starts, slot);
    }
  }

  lemma LateEndsFit(starts: seq<Event>, slot: Slot)
    requires Parsed(starts)
    ensures Parsed(starts + LateEnds(starts, slot))
    ensures OnlyEnds(LateEnds(starts, slot)) && EndsInOrder(LateEnds(starts, slot), slot)
  {
  }

  // ---------------------------------------------------------------------
  // A small log
  // ---------------------------------------------------------------------

  /** Ends at 10 and 3 and starts at 5 and 0, in the text order start 5, end 10, start 0, end 3. */
  function MixedFormats(slot: Slot): seq<Event> {
    [Event(1, Some(10), None, Some(slot), true), Event(3, Some(3), None, Some(slot), true),
     Event(0, Some(5), Some(slot), None, false), Event(2, Some(0), Some(slot), None, false)]
  }

  /** Two distinct indices in text order can only be listed one way. */
  lemma ListedInOrder(events: seq<Event>, ends: seq<int>)
    requires Distinct(ends) && Elements(ends) == {0, 1} && Pairwise(ends, ByText(events))
    requires |events| >= 2 && events[0].text < events[1].text
    ensures ends == [0, 1]
  {
    DistinctCard(ends);
    assert ends[0] in Elements(ends) && ends[1] in Elements(ends);
    assert ByText(events)(ends[0], ends[1]);
  }

  lemma MixedEnds(slot: Slot)
    ensures Ends(MixedFormats(slot)) == [0, 1]
  {
    var events := MixedFormats(slot);
    var ends := Ends(events);
    EndsMeaning(events);
    assert 0 in ends && 1 in ends && 2 !in ends && 3 !in ends;
    assert Elements(ends) == {0, 1};
    ListedInOrder(events, ends);
  }

  lemma MixedCandidates(slot: Slot)
    ensures Candidate(MixedFormats(slot), {}, 0) == Some(3)
    ensures Candidate(MixedFormats(slot), {3}, 1) == None
  {
    var events := MixedFormats(slot);
    CandidateMeaning(events, {}, 0);
    assert Closes(events, 0, 3) && Closes(events, 0, 2);
    CandidateMeaning(events, {3}, 1);
  }

  lemma SecondEndLoses(events: seq<Event>)
    requires Candidate(events, {}, 0) == Some(3) && Candidate(events, {3}, 1) == None
    ensures Pairing(events, [0, 1]) == map[0 := 3]
  {
    assert [0, 1][..1] == [0] && [0][..0] == [];
    assert Pairing(events, []).Values == {};
    var first := Pairing(events, [0]);
    assert first == map[0 := 3];
    assert first[0] == 3 && first.Values == {3};
  }

  lemma BothCouldBePaired(slot: Slot)
    ensures Parsed(MixedFormats(slot)) && !EndsInOrder(MixedFormats(slot), slot)
    ensures ValidPairing(MixedFormats(slot), map[0 := 2, 1 := 3])
  {
    var events := MixedFormats(slot);
    assert EndsIn(events[0], slot) && EndsIn(events[1], slot) && events[0].text <= events[1].text;
  }

  /** A log that loses a span: the first end takes the only start the second could have closed. */
  lemma MixedFormatsLoseASpan(slot: Slot)
    ensures Parsed(MixedFormats(slot)) && !EndsInOrder(MixedFormats(slot), slot)
    ensures ValidPairing(MixedFormats(slot), map[0 := 2, 1 := 3])
    ensures Pairing(MixedFormats(slot), Ends(MixedFormats(slot))) == map[0 := 3]
  {
    MixedEnds(slot);
    MixedCandidates(slot);
    SecondEndLoses(MixedFormats(slot));
    BothCouldBePaired(slot);
  }
}
