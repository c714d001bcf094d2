/** The retry loop of reserve_ids, run against a remote that other clones push to meanwhile. */
module ReserveIds {
  import opened Collections
  import opened IdAllocator
  import opened IdLedger

  datatype Outcome = Reserved(reservation: Reservation) | BadCount | Exhausted | PushFailed

  /** A push is answered, never reaches the remote, or is carried out although its answer gets lost. */
  datatype Reply = Answered | Unsent | Lost

  /** One attempt: the remote's tip when it began to read (a retry fetches it), the base it read the ledger
    * at, the commit it built, the remote's tip when that was pushed, and the fate of the push. */
  datatype Attempt = Attempt(seen: Commit, base: Commit, commit: Commit, tip: Commit, reply: Reply)

  ghost predicate Lands(a: Attempt) {
    a.reply.Answered? && Accepted(a.tip, a.commit)
  }

  /** The attempt was rejected, so the loop goes on. */
  ghost predicate Rejected(a: Attempt) {
    a.reply.Answered? && !Accepted(a.tip, a.commit)
  }

  ghost function TipAfter(a: Attempt): Commit {
    if !a.reply.Unsent? && Accepted(a.tip, a.commit) then a.commit else a.tip
  }

  /** Attempt k is one that the loop makes: the first builds on the clone's tracking ref, every later one on
    * the tip it fetches, and the remote's history only grows, from the tip given. */
  ghost predicate AttemptOk(r: Request, clock: nat -> string, replies: nat -> Reply, tracking: Commit, before: Commit,
                            k: nat, a: Attempt)
  {
    && IsAncestor(before, a.seen) && IsAncestor(a.seen, a.tip)
    && a.base == (if k == 0 then tracking else a.seen)
    && a.commit == LedgerCommit(a.base, r, clock(k), clock(k))
    && a.reply == replies(k)
    && IsAncestor(a.base, a.tip)
  }

  /** The k-th attempt of a history is one that follows the attempts before it. */
  ghost predicate OkAt(r: Request, clock: nat -> string, replies: nat -> Reply, tracking: Commit, start: Commit,
                       history: seq<Attempt>, k: nat)
    requires k < |history|
  {
    AttemptOk(r, clock, replies, tracking, if k == 0 then start else history[k - 1].tip, k, history[k])
  }

  /** The attempts follow each other, and all but the last were rejected. */
  ghost predicate HistoryOk(r: Request, clock: nat -> string, replies: nat -> Reply, tracking: Commit, start: Commit,
                            history: seq<Attempt>)
  {
    && (forall k :: 0 <= k < |history| ==> OkAt(r, clock, replies, tracking, start, history, k))
    && (forall k :: 0 <= k < |history| - 1 ==> Rejected(history[k]))
  }

  lemma HistoryGrows(r: Request, clock: nat -> string, replies: nat -> Reply, tracking: Commit, start: Commit,
                     history: seq<Attempt>, made: Attempt)
    requires HistoryOk(r, clock, replies, tracking, start, history) && forall a :: a in history ==> Rejected(a)
    requires AttemptOk(r, clock, replies, tracking, Ends(history, start, tracking).0, |history|, made)
    ensures HistoryOk(r, clock, replies, tracking, start, history + [made])
  {
    var longer := history + [made];
    forall k | 0 <= k < |longer| ensures OkAt(r, clock, replies, tracking, start, longer, k) {
      assert k < |history| ==> OkAt(r, clock, replies, tracking, start, history, k);
      assert k > 0 ==> longer[k - 1] == history[k - 1];
      if k > 0 && k == |history| {
        assert history[k - 1] in history;
      }
    }
  }

  /** An attempt lands if and only if its push does not fail and nobody has pushed since its base (or the
    * very same commit is there already). */
  lemma LandsIff(r: Request, clock: nat -> string, replies: nat -> Reply, tracking: Commit, before: Commit, k: nat,
                 a: Attempt)
    requires AttemptOk(r, clock, replies, tracking, before, k, a)
    ensures Lands(a) <==> replies(k).Answered? && (a.tip == a.base || a.tip == a.commit)
  {
    if Lands(a) {
      AcceptedMeansUnchanged(a.tip, a.base, a.commit);
    }
  }

  class Remote {
    var tip: Commit

    ghost predicate Valid(root: Ledger)
      reads this
    {
      Legal(tip) && RootOf(tip) == Root(root)
    }

    /** Whatever others push in the meantime: the caller only learns that the history grew legally. */
    method Interfere(ghost root: Ledger)
      requires Valid(root)
      modifies this
      ensures Valid(root) && IsAncestor(old(tip), tip)
    {
    }

    method Push(commit: Commit) returns (ok: bool)
      modifies this
      ensures ok == Accepted(old(tip), commit)
      ensures tip == if ok then commit else old(tip)
    {
      ok := Accepted(tip, commit);
      if ok {
        tip := commit;
      }
    }
  }

  class Clone {
    var tracking: Commit

    constructor (tracking: Commit)
      ensures this.tracking == tracking
    {
      this.tracking := tracking;
    }
  }

  /** How the loop ends: after a push that landed, one that failed, or maxRetries rejected ones. */
  ghost predicate EndsWith(r: Request, history: seq<Attempt>, outcome: Outcome) {
    && (outcome.Reserved? <==> history != [] && Lands(history[|history| - 1]))
    && (outcome.PushFailed? <==> history != [] && !history[|history| - 1].reply.Answered?)
    && (outcome.Exhausted? <==> |history| == r.maxRetries && (history == [] || Rejected(history[|history| - 1])))
    && (outcome.Reserved? ==> outcome.reservation == ReservationOf(r, history[|history| - 1].base))
  }

  /** One turn of the loop: fetch unless it is the first, build a ledger commit, push it. */
  method TryOnce(remote: Remote, clone: Clone, r: Request, clock: nat -> string, replies: nat -> Reply,
                 ghost root: Ledger, attempt: nat)
    returns (result: Option<Reservation>, ghost made: Attempt)
    requires remote.Valid(root) && IsAncestor(clone.tracking, remote.tip) && r.count >= 1
    modifies remote, clone
    ensures remote.Valid(root) && IsAncestor(clone.tracking, remote.tip)
    ensures AttemptOk(r, clock, replies, old(clone.tracking), old(remote.tip), attempt, made)
    ensures result.Some? <==> Lands(made)
    ensures result.Some? ==> result.value == ReservationOf(r, made.base)
    ensures remote.tip == TipAfter(made)
    ensures IsAncestor(old(remote.tip), remote.tip)
    ensures clone.tracking == if Lands(made) then made.commit else made.base
  {
    result := None;
    ghost var before := remote.tip;
    remote.Interfere(root);
    AncestorTrans(clone.tracking, old(remote.tip), remote.tip);
    ghost var seen := remote.tip;
    if attempt > 0 {
      clone.tracking := remote.tip;
    }
    var base := clone.tracking;
    var commit := LedgerCommit(base, r, clock(attempt), clock(attempt));
    remote.Interfere(root);
    AncestorTrans(base, seen, remote.tip);
    AncestorTrans(before, seen, remote.tip);
    made := Attempt(seen, base, commit, remote.tip, replies(attempt));
    if replies(attempt).Unsent? {
      return;
    }
    var ok := remote.Push(commit);
    if ok {
      AcceptedMeansUnchanged(made.tip, base, commit);
      MadeIsLegalStep(r, commit);
      AncestorTrans(before, made.tip, commit);
      AncestorTrans(base, made.tip, commit);
      if replies(attempt).Answered? {
        clone.tracking := commit;
        result := Some(ReservationOf(r, base));
      }
    }
  }

  /** Read the ledger at a base, build a ledger commit on it, push; fetch and retry when the push is
    * rejected. clock gives each attempt's second, replies what becomes of its push. */
  method Reserve(remote: Remote, clone: Clone, r: Request, clock: nat -> string, replies: nat -> Reply,
                 ghost root: Ledger)
    returns (outcome: Outcome, ghost history: seq<Attempt>)
    requires remote.Valid(root) && IsAncestor(clone.tracking, remote.tip)
    modifies remote, clone
    ensures remote.Valid(root) && IsAncestor(clone.tracking, remote.tip)
    ensures outcome.BadCount? <==> r.count < 1
    ensures outcome.BadCount? ==> history == []
    ensures HistoryOk(r, clock, replies, old(clone.tracking), old(remote.tip), history) && |history| <= r.maxRetries
    ensures r.count >= 1 ==> EndsWith(r, history, outcome)
    ensures Ends(history, old(remote.tip), old(clone.tracking)) == (remote.tip, clone.tracking)
    ensures IsAncestor(old(remote.tip), remote.tip)
    ensures outcome.Reserved? ==> MadeFor(r, remote.tip) && outcome.reservation == ReservationOf(r, remote.tip.parent)
  {
    history := [];
    if r.count < 1 {
      return BadCount, history;
    }
    for attempt := 0 to r.maxRetries
      invariant remote.Valid(root) && IsAncestor(clone.tracking, remote.tip)
      invariant IsAncestor(old(remote.tip), remote.tip)
      invariant |history| == attempt && forall a :: a in history ==> Rejected(a)
      invariant HistoryOk(r, clock, replies, old(clone.tracking), old(remote.tip), history)
      invariant Ends(history, old(remote.tip), old(clone.tracking)) == (remote.tip, clone.tracking)
    {
      ghost var tip := remote.tip;
      var result, made := TryOnce(remote, clone, r, clock, replies, root, attempt);
      assert AttemptOk(r, clock, replies, old(clone.tracking), tip, attempt, made);
      HistoryGrows(r, clock, replies, old(clone.tracking), old(remote.tip), history, made);
      AncestorTrans(old(remote.tip), tip, remote.tip);
      history := history + [made];
      if result.Some? {
        return Reserved(result.value), history;
      }
      if !replies(attempt).Answered? {
        return PushFailed, history;
      }
    }
    outcome := Exhausted;
    assert history != [] ==> history[|history| - 1] in history;
  }

  /** The remote's tip and the clone's tracking ref after the attempts. */
  ghost function Ends(history: seq<Attempt>, tip: Commit, tracking: Commit): (Commit, Commit) {
    if history == [] then (tip, tracking)
    else
      var last := history[|history| - 1];
      (TipAfter(last), if Lands(last) then last.commit else last.base)
  }

  /** If no push fails otherwise, and in some attempt nobody pushes between the moment its base was the tip
    * and its own push, the request is served. */
  lemma UndisturbedIsReserved(r: Request, clock: nat -> string, replies: nat -> Reply, tracking: Commit,
                              start: Commit, history: seq<Attempt>, outcome: Outcome, k: nat)
    requires HistoryOk(r, clock, replies, tracking, start, history) && EndsWith(r, history, outcome)
    requires k < |history| && history[k].tip == history[k].base && replies(k).Answered?
    ensures outcome.Reserved? && k == |history| - 1
    ensures outcome.reservation == ReservationOf(r, history[k].tip)
  {
    assert OkAt(r, clock, replies, tracking, start, history, k);
    LandsIff(r, clock, replies, tracking, if k == 0 then start else history[k - 1].tip, k, history[k]);
  }

  /** So a request is given up only if somebody else pushed during every one of its attempts. */
  lemma ExhaustedMeansContended(r: Request, clock: nat -> string, replies: nat -> Reply, tracking: Commit,
                                start: Commit, history: seq<Attempt>, outcome: Outcome)
    requires HistoryOk(r, clock, replies, tracking, start, history) && EndsWith(r, history, outcome)
    requires outcome.Exhausted?
    ensures |history| == r.maxRetries
    ensures forall k :: 0 <= k < |history| ==> history[k].tip != history[k].base
  {
    forall k | 0 <= k < |history| ensures history[k].tip != history[k].base {
      assert Rejected(history[k]) && OkAt(r, clock, replies, tracking, start, history, k);
      LandsIff(r, clock, replies, tracking, if k == 0 then start else history[k - 1].tip, k, history[k]);
    }
  }

  /** A served request holds the range of a commit that the remote's history keeps. */
  lemma ReservedIsMade(r: Request, clock: nat -> string, replies: nat -> Reply, tracking: Commit, start: Commit,
                       history: seq<Attempt>, outcome: Outcome)
    requires r.count >= 1
    requires HistoryOk(r, clock, replies, tracking, start, history) && EndsWith(r, history, outcome)
    requires outcome.Reserved?
    ensures var c := history[|history| - 1].commit;
            && c == Ends(history, start, tracking).0 && MadeFor(r, c)
            && outcome.reservation == ReservationOf(r, c.parent)
            && forall id :: Reserves(c, r.kind, id) <==> Holds(outcome.reservation, r.kind, id)
  {
    assert OkAt(r, clock, replies, tracking, start, history, |history| - 1);
  }
}
