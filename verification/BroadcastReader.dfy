/** Broadcast delivery in src/navigator_eventbus/backends/redis_streams.py: a group-less reader that
  * keeps its own cursor. One stream is modelled by its length, as the reader never looks inside.
  */
module BroadcastReader {
  import opened Collections

  /** The value kept in _last_ids: the sentinel "$", or the id of the n-th entry ("0-0" for n = 0). */
  datatype Cursor = Sentinel | After(n: nat)

  /** handed lists, in order, the entries given to dispatch. */
  datatype Reader = Reader(length: nat, last: Cursor, handed: seq<nat>)

  /** One turn of the loop: arrived entries are added while XREAD blocks, the reply holds at most count
    * entries, and processing is cut off before the cut-th of them by an exception or cancellation. */
  datatype Poll = Poll(arrived: nat, count: nat, cut: nat)

  function Range(lo: nat, hi: nat): (r: seq<nat>)
    requires lo <= hi
  {
    seq(hi - lo, k requires 0 <= k < hi - lo => lo + k)
  }

  /** _resolve_tail_id: the id of the current last entry, or the sentinel if it cannot be read. */
  function ResolveTail(length: nat, fails: bool): Cursor {
    if fails then Sentinel else After(length)
  }

  function Discover(length: nat, fails: bool): Reader {
    Reader(length, ResolveTail(length, fails), [])
  }

  /** Where XREAD starts: the server resolves the sentinel afresh at each call. */
  function Base(r: Reader): nat {
    if r.last.Sentinel? then r.length else r.last.n
  }

  predicate WellPlaced(r: Reader) {
    r.last.After? ==> r.last.n <= r.length
  }

  /** The number of entries one turn hands to dispatch. */
  function HandedBy(r: Reader, p: Poll): nat
    requires WellPlaced(r)
  {
    Min(p.cut, Min(p.count, r.length + p.arrived - Base(r)))
  }

  function AfterPoll(r: Reader, p: Poll): Reader
    requires WellPlaced(r)
  {
    var n := HandedBy(r, p);
    Reader(r.length + p.arrived, if n == 0 then r.last else After(Base(r) + n),
           r.handed + Range(Base(r), Base(r) + n))
  }

  class Instance {
    var length: nat
    var last: Cursor
    ghost var handed: seq<nat>

    ghost function View(): Reader
      reads this
    {
      Reader(length, last, handed)
    }

    constructor (length: nat, tailLookupFails: bool)
      ensures View() == Discover(length, tailLookupFails)
    {
      this.length := length;
      last := ResolveTail(length, tailLookupFails);
      handed := [];
    }

    /** The cursor moves first; then the entry goes to dispatch, whose failure is isolated. */
    method Turn(p: Poll)
      requires WellPlaced(View())
      modifies this
      ensures View() == AfterPoll(old(View()), p)
    {
      var base := if last.Sentinel? then length else last.n;
      length := length + p.arrived;
      var reply := Min(p.count, length - base);
      var k := 0;
      while k < reply && k < p.cut
        invariant k <= Min(p.cut, reply) && length == old(length) + p.arrived
        invariant last == if k == 0 then old(last) else After(base + k)
        invariant handed == old(handed) + Range(base, base + k)
      {
        last := After(base + k + 1);
        handed := handed + [base + k];
        assert Range(base, base + k + 1) == Range(base, base + k) + [base + k];
        k := k + 1;
      }
    }
  }

  // ---------------------------------------------------------------------
  // Runs
  // ---------------------------------------------------------------------

  /** What has been handed out is the run of entries from start up to the cursor. */
  ghost predicate Contiguous(r: Reader, start: nat) {
    && WellPlaced(r)
    && (match r.last
        case Sentinel => r.handed == []
        case After(n) => start <= n && r.handed == Range(start, n))
  }

  function Run(r: Reader, polls: seq<Poll>): Reader
    requires WellPlaced(r)
    decreases |polls|
  {
    if polls == [] then r else Run(AfterPoll(r, polls[0]), polls[1..])
  }

  lemma PollKeeps(r: Reader, p: Poll, start: nat)
    requires Contiguous(r, start)
    ensures r.last.After? ==> Contiguous(AfterPoll(r, p), start)
    ensures r.last.Sentinel? ==> Contiguous(AfterPoll(r, p), r.length)
  {
    var n := HandedBy(r, p);
    if r.last.After? {
      assert Range(start, r.last.n + n) == Range(start, r.last.n) + Range(r.last.n, r.last.n + n);
    } else {
      assert [] + Range(r.length, r.length + n) == Range(r.length, r.length + n);
    }
  }

  /** Gap-free: once the tail was resolved at discovery, whatever the batch sizes, arrivals, reconnects
    * and aborts, the entries handed to dispatch are exactly those from the tail on, in order, each once,
    * up to the cursor. */
  lemma {:induction false} GapFree(r: Reader, polls: seq<Poll>, start: nat)
    requires Contiguous(r, start) && r.last.After?
    ensures Run(r, polls).last.After? && Contiguous(Run(r, polls), start)
    decreases |polls|
  {
    if polls != [] {
      PollKeeps(r, polls[0], start);
      GapFree(AfterPoll(r, polls[0]), polls[1..], start);
    }
  }

  lemma DiscoveredIsGapFree(length: nat, polls: seq<Poll>)
    ensures var r := Run(Discover(length, false), polls);
            r.last.After? && length <= r.last.n <= r.length && r.handed == Range(length, r.last.n)
  {
    assert Range(length, length) == [];
    GapFree(Discover(length, false), polls, length);
  }

  function Arrivals(polls: seq<Poll>): nat {
    if polls == [] then 0 else polls[0].arrived + Arrivals(polls[1..])
  }

  /** The sentinel fallback: turns that hand nothing over leave the sentinel, and the run then starts at
    * the length of the stream when the first productive turn began. So of the entries that arrived
    * since discovery exactly those of the unproductive turns before it are missed. */
  lemma {:induction false} SentinelMissesEarlierArrivals(length: nat, idle: seq<Poll>, p: Poll, rest: seq<Poll>)
    requires forall q :: q in idle ==> q.cut == 0 || q.count == 0 || q.arrived == 0
    requires p.cut > 0 && p.count > 0 && p.arrived > 0
    ensures var r := Run(Discover(length, true), idle + [p] + rest);
            var start := length + Arrivals(idle);
            r.last.After? && start < r.last.n <= r.length && r.handed == Range(start, r.last.n)
    decreases |idle|
  {
    if idle == [] {
      assert [] + [p] + rest == [p] + rest && ([p] + rest)[1..] == rest;
      FirstProductiveTurn(length, p, rest);
    } else {
      var all := idle + [p] + rest;
      assert all[1..] == idle[1..] + [p] + rest;
      IdleTurn(length, idle[0]);
      SentinelMissesEarlierArrivals(length + idle[0].arrived, idle[1..], p, rest);
    }
  }

  lemma FirstProductiveTurn(length: nat, p: Poll, rest: seq<Poll>)
    requires p.cut > 0 && p.count > 0 && p.arrived > 0
    ensures var r := Run(AfterPoll(Discover(length, true), p), rest);
            r.last.After? && length < r.last.n <= r.length && r.handed == Range(length, r.last.n)
  {
    var first := AfterPoll(Discover(length, true), p);
    PollKeeps(Discover(length, true), p, length);
    GapFree(first, rest, length);
    NeverRewinds(first, rest);
  }

  /** A turn that hands nothing over leaves the sentinel. */
  lemma IdleTurn(length: nat, q: Poll)
    requires q.cut == 0 || q.count == 0 || q.arrived == 0
    ensures AfterPoll(Discover(length, true), q) == Discover(length + q.arrived, true)
  {
    assert Range(length, length) == [];
  }

  lemma {:induction false} NeverRewinds(r: Reader, polls: seq<Poll>)
    requires WellPlaced(r) && r.last.After?
    ensures Run(r, polls).last.After? && Run(r, polls).last.n >= r.last.n
    decreases |polls|
  {
    if polls != [] {
      NeverRewinds(AfterPoll(r, polls[0]), polls[1..]);
    }
  }

  lemma WholeTurn(r: Reader, count: nat)
    requires WellPlaced(r) && r.last.After?
    ensures var t := AfterPoll(r, Poll(0, count, count));
            WellPlaced(t) && t.last == After(Min(r.length, r.last.n + count)) && t.length == r.length
  {
  }

  lemma MinSteps(length: nat, n: nat, count: nat, rest: nat)
    ensures Min(length, Min(length, n + count) + rest * count) == Min(length, n + (rest + 1) * count)
  {
    assert (rest + 1) * count == rest * count + count && rest * count >= 0;
  }

  /** Turns that are not cut off hand over everything available, a batch at a time. */
  lemma {:induction false} CatchesUp(r: Reader, count: nat, turns: nat)
    requires WellPlaced(r) && r.last.After?
    ensures var t := Run(r, seq(turns, _ => Poll(0, count, count)));
            t.last == After(Min(r.length, r.last.n + turns * count)) && t.length == r.length
    decreases turns
  {
    var p := Poll(0, count, count);
    var polls := seq(turns, _ => p);
    if turns > 0 {
      assert polls[1..] == seq(turns - 1, _ => p);
      WholeTurn(r, count);
      CatchesUp(AfterPoll(r, p), count, turns - 1);
      MinSteps(r.length, r.last.n, count, turns - 1);
    }
  }
}
