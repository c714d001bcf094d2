/** The compare-and-swap allocator of scripts/sdd/reserve_ids.py.
  *
  * Commits are content-addressed: two commits with the same parent, ledger and stamp ARE the same
  * commit. A push is accepted exactly when the remote tip is an ancestor of (or is) the pushed
  * commit, which includes the up-to-date push of a commit the remote already has at its tip.
  */
module IdAllocator {
  import opened Collections
  import opened IdLedger
  import opened Text

  /** Everything else that goes into a commit's hash: the message (and, for a commit that is not an
    * allocator's, its changes to the tree), the author, and the second it was made in. */
  datatype Stamp = Stamp(message: string, author: string, time: string)

  datatype Commit = Root(ledger: Ledger) | Commit(parent: Commit, ledger: Ledger, stamp: Stamp)

  function Depth(c: Commit): nat {
    if c.Root? then 0 else 1 + Depth(c.parent)
  }

  /** a is c or one of its ancestors. */
  predicate IsAncestor(a: Commit, c: Commit) {
    a == c || (c.Commit? && IsAncestor(a, c.parent))
  }

  lemma {:induction false} AncestorDepth(a: Commit, c: Commit)
    requires IsAncestor(a, c)
    ensures Depth(a) <= Depth(c) && (Depth(a) == Depth(c) ==> a == c)
  {
    if a != c {
      AncestorDepth(a, c.parent);
    }
  }

  lemma {:induction false} AncestorTrans(a: Commit, b: Commit, c: Commit)
    requires IsAncestor(a, b) && IsAncestor(b, c)
    ensures IsAncestor(a, c)
  {
    if b != c {
      AncestorTrans(a, b, c.parent);
    }
  }

  // ---------------------------------------------------------------------
  // Legal histories and the ranges their commits reserve
  // ---------------------------------------------------------------------

  /** The ledger with count numbers of the kind taken. */
  function Bump(l: Ledger, kind: Kind, count: nat, at: string, who: string): Ledger {
    match kind
    case Task => l.(nextTask := l.nextTask + count, updatedAt := at, updatedBy := who)
    case Feature => l.(nextFeature := l.nextFeature + count, updatedAt := at, updatedBy := who)
  }

  /** A commit that leaves the ledger alone, or one an allocator makes. */
  ghost predicate LegalStep(c: Commit)
    requires c.Commit?
  {
    || c.ledger == c.parent.ledger
    || exists kind, count: nat :: count >= 1 &&
         c.ledger == Bump(c.parent.ledger, kind, count, c.ledger.updatedAt, c.ledger.updatedBy)
  }

  ghost predicate Legal(c: Commit) {
    c.Commit? ==> LegalStep(c) && Legal(c.parent)
  }

  function RootOf(c: Commit): Commit {
    if c.Root? then c else RootOf(c.parent)
  }

  /** The numbers of the kind that the commit reserves: none for an ordinary commit. */
  predicate Reserves(c: Commit, kind: Kind, id: int) {
    c.Commit? && c.parent.ledger.Next(kind) <= id < c.ledger.Next(kind)
  }

  /** The commit of the history that reserves an id. */
  ghost predicate ReservedBy(tip: Commit, c: Commit, kind: Kind, id: int) {
    IsAncestor(c, tip) && Reserves(c, kind, id)
  }

  lemma {:induction false} NextGrows(a: Commit, c: Commit, kind: Kind)
    requires Legal(c) && IsAncestor(a, c)
    ensures Legal(a) && a.ledger.Next(kind) <= c.ledger.Next(kind) && RootOf(a) == RootOf(c)
  {
    if a != c {
      NextGrows(a, c.parent, kind);
    }
  }

  lemma {:induction false} RootIsAncestor(c: Commit)
    ensures IsAncestor(RootOf(c), c)
  {
    if c.Commit? {
      RootIsAncestor(c.parent);
    }
  }

  lemma {:induction false} AncestorsAreComparable(a: Commit, b: Commit, tip: Commit)
    requires IsAncestor(a, tip) && IsAncestor(b, tip)
    ensures a == b || (b.Commit? && IsAncestor(a, b.parent)) || (a.Commit? && IsAncestor(b, a.parent))
  {
    if a != tip && b != tip {
      AncestorsAreComparable(a, b, tip.parent);
    }
  }

  /** Tiling: the ledger commits of a history reserve every number from the seeded next to the
    * current one, and each exactly once. */
  lemma {:induction false} Tiling(tip: Commit, kind: Kind, id: int)
    requires Legal(tip)
    ensures RootOf(tip).ledger.Next(kind) <= id < tip.ledger.Next(kind) <==>
            exists c :: ReservedBy(tip, c, kind, id)
    ensures forall a, b :: ReservedBy(tip, a, kind, id) && ReservedBy(tip, b, kind, id) ==> a == b
  {
    RangesDisjoint(tip, kind, id);
    if tip.Commit? {
      Tiling(tip.parent, kind, id);
      if c :| ReservedBy(tip.parent, c, kind, id) {
        assert ReservedBy(tip, c, kind, id);
      }
      if c :| ReservedBy(tip, c, kind, id) {
        assert c != tip ==> ReservedBy(tip.parent, c, kind, id);
        RootIsAncestor(tip.parent);
        NextGrows(RootOf(tip), tip.parent, kind);
      }
      if Reserves(tip, kind, id) {
        assert ReservedBy(tip, tip, kind, id);
      }
    }
  }

  lemma RangesDisjoint(tip: Commit, kind: Kind, id: int)
    requires Legal(tip)
    ensures forall a, b :: ReservedBy(tip, a, kind, id) && ReservedBy(tip, b, kind, id) ==> a == b
  {
    forall a, b | ReservedBy(tip, a, kind, id) && ReservedBy(tip, b, kind, id) ensures a == b {
      NextGrows(a, tip, kind);
      NextGrows(b, tip, kind);
      AncestorsAreComparable(a, b, tip);
      if a != b {
        if IsAncestor(a, b.parent) {
          NextGrows(b.parent, tip, kind) by { AncestorTrans(b.parent, b, tip); }
          NextGrows(a, b.parent, kind);
        } else {
          NextGrows(a.parent, tip, kind) by { AncestorTrans(a.parent, a, tip); }
          NextGrows(b, a.parent, kind);
        }
      }
    }
  }

  // ---------------------------------------------------------------------
  // Pushing
  // ---------------------------------------------------------------------

  predicate Accepted(tip: Commit, pushed: Commit) {
    IsAncestor(tip, pushed)
  }

  /** A commit built on a former tip is accepted only if nothing was pushed since, or if the very
    * same commit is already the tip. */
  lemma AcceptedMeansUnchanged(tip: Commit, base: Commit, pushed: Commit)
    requires pushed.Commit? && pushed.parent == base
    requires IsAncestor(base, tip) && Accepted(tip, pushed)
    ensures tip == base || tip == pushed
  {
    if tip != pushed {
      AncestorDepth(base, tip);
      AncestorDepth(tip, base);
    }
  }

  // ---------------------------------------------------------------------
  // Many allocators, interleaved
  // ---------------------------------------------------------------------

  /** What one allocator was called with. */
  datatype Request = Request(kind: Kind, count: int, origin: string, author: string, maxRetries: nat)

  datatype Reservation = Reservation(kind: Kind, first: int, count: int, ids: seq<string>)

  datatype Phase =
    | Idle
    | HasBase(base: Commit)
    | Built(commit: Commit)
    | Done(reservation: Reservation, pushed: Commit)
    | Failed

  /** tracking is the clone's remote-tracking ref: some earlier tip, possibly stale. */
  datatype Agent = Agent(request: Request, tracking: Commit, attempt: nat, phase: Phase)

  datatype State = State(tip: Commit, agents: seq<Agent>)

  datatype Action =
    | Environment(commit: Commit)
    | Refetch(agent: nat)
    | Resolve(agent: nat)
    | Build(agent: nat, updatedAt: string, time: string)
    | Push(agent: nat)
    | LoseReply(agent: nat)
    | Fault(agent: nat)

  function Prefix(kind: Kind): string {
    match kind
    case Task => "TASK-"
    case Feature => "FEAT-"
  }

  function Ids(kind: Kind, first: int, count: int): (ids: seq<string>)
    ensures |ids| == if count > 0 then count else 0
    ensures forall i :: 0 <= i < |ids| ==> ids[i] == Prefix(kind) + IntText(first + i)
  {
    seq(if count > 0 then count else 0, i => Prefix(kind) + IntText(first + i))
  }

  function Message(r: Request): string {
    "sdd: reserve " + IntText(r.count) + " " + (if r.kind == Task then "task" else "feature") + " id(s) for " + r.origin
  }

  function LedgerCommit(base: Commit, r: Request, updatedAt: string, time: string): Commit {
    Commit(base, if r.count >= 0 then Bump(base.ledger, r.kind, r.count, updatedAt, r.origin) else base.ledger,
           Stamp(Message(r), r.author, time))
  }

  function ReservationOf(r: Request, base: Commit): Reservation {
    var first := base.ledger.Next(r.kind);
    Reservation(r.kind, first, r.count, Ids(r.kind, first, r.count))
  }

  ghost predicate Enabled(s: State, a: Action) {
    match a
    case Environment(c) => c.Commit? && c.parent == s.tip && c.ledger == s.tip.ledger
    case Refetch(i) => i < |s.agents|
    case Resolve(i) =>
      i < |s.agents| && s.agents[i].phase.Idle? && s.agents[i].request.count >= 1 &&
      s.agents[i].attempt < s.agents[i].request.maxRetries
    case Build(i, _, _) => i < |s.agents| && s.agents[i].phase.HasBase?
    case Push(i) => i < |s.agents| && s.agents[i].phase.Built?
    case LoseReply(i) => i < |s.agents| && s.agents[i].phase.Built?
    case Fault(i) => i < |s.agents| && !s.agents[i].phase.Done?
  }

  /** One step. The first attempt builds on the tracking ref as it is; a retry fetches first. */
  ghost function Next(s: State, a: Action): State
    requires Enabled(s, a)
  {
    match a
    case Environment(c) => s.(tip := c)
    case Refetch(i) => s.(agents := s.agents[i := s.agents[i].(tracking := s.tip)])
    case Resolve(i) =>
      var g := s.agents[i];
      if g.attempt == 0 then s.(agents := s.agents[i := g.(phase := HasBase(g.tracking))])
      else s.(agents := s.agents[i := g.(tracking := s.tip, phase := HasBase(s.tip))])
    case Build(i, updatedAt, time) =>
      var g := s.agents[i];
      s.(agents := s.agents[i := g.(phase := Built(LedgerCommit(g.phase.base, g.request, updatedAt, time)))])
    case Push(i) =>
      var g := s.agents[i];
      var c := g.phase.commit;
      if Accepted(s.tip, c) && c.Commit? then
        State(c, s.agents[i := g.(tracking := c, phase := Done(ReservationOf(g.request, c.parent), c))])
      else
        var retry := g.attempt + 1;
        var phase := if retry < g.request.maxRetries then Idle else Failed;
        s.(agents := s.agents[i := g.(attempt := retry, phase := phase)])
    case LoseReply(i) =>
      var g := s.agents[i];
      var c := g.phase.commit;
      State(if Accepted(s.tip, c) then c else s.tip, s.agents[i := g.(phase := Failed)])
    case Fault(i) => s.(agents := s.agents[i := s.agents[i].(phase := Failed)])
  }

  ghost predicate IsRun(s: State, trace: seq<Action>, t: State)
    decreases |trace|
  {
    if trace == [] then s == t
    else Enabled(s, trace[0]) && IsRun(Next(s, trace[0]), trace[1..], t)
  }

  ghost predicate Initial(s: State, root: Ledger) {
    s.tip == Root(root) && forall i :: 0 <= i < |s.agents| ==>
      s.agents[i].tracking == s.tip && s.agents[i].attempt == 0 && s.agents[i].phase.Idle?
  }

  /** The commit is one this request makes on its parent. */
  ghost predicate MadeFor(r: Request, c: Commit) {
    c.Commit? && r.count >= 1 &&
    c == LedgerCommit(c.parent, r, c.ledger.updatedAt, c.stamp.time)
  }

  ghost predicate AgentOk(tip: Commit, g: Agent) {
    && IsAncestor(g.tracking, tip)
    && match g.phase
       case HasBase(base) => IsAncestor(base, tip) && g.request.count >= 1
       case Built(c) => MadeFor(g.request, c) && IsAncestor(c.parent, tip)
       case Done(r, c) => MadeFor(g.request, c) && IsAncestor(c, tip) && r == ReservationOf(g.request, c.parent)
       case _ => true
  }

  ghost predicate Inv(s: State, root: Ledger) {
    && Legal(s.tip) && RootOf(s.tip) == Root(root)
    && forall i :: 0 <= i < |s.agents| ==> AgentOk(s.tip, s.agents[i])
  }

  lemma AgentSurvives(tip: Commit, tip': Commit, g: Agent)
    requires AgentOk(tip, g) && IsAncestor(tip, tip')
    ensures AgentOk(tip', g)
  {
    AncestorTrans(g.tracking, tip, tip');
    match g.phase
    case HasBase(base) => AncestorTrans(base, tip, tip');
    case Built(c) => AncestorTrans(c.parent, tip, tip');
    case Done(r, c) => AncestorTrans(c, tip, tip');
    case _ =>
  }

  lemma MadeIsLegalStep(r: Request, c: Commit)
    requires MadeFor(r, c)
    ensures LegalStep(c)
  {
    var count: nat := r.count;
    assert c.ledger == Bump(c.parent.ledger, r.kind, count, c.ledger.updatedAt, c.ledger.updatedBy);
  }

  /** A push that is accepted lands on the base it was built from, or was already the tip. */
  lemma PushLands(s: State, root: Ledger, i: nat)
    requires Inv(s, root) && i < |s.agents| && s.agents[i].phase.Built?
    requires Accepted(s.tip, s.agents[i].phase.commit)
    ensures var c := s.agents[i].phase.commit;
            Legal(c) && RootOf(c) == Root(root) && (c == s.tip || c.parent == s.tip)
  {
    var c := s.agents[i].phase.commit;
    AcceptedMeansUnchanged(s.tip, c.parent, c);
    MadeIsLegalStep(s.agents[i].request, c);
  }

  lemma StepKeepsInv(s: State, root: Ledger, a: Action)
    requires Inv(s, root) && Enabled(s, a)
    ensures Inv(Next(s, a), root)
    ensures IsAncestor(s.tip, Next(s, a).tip)
  {
    var t := Next(s, a);
    match a {
      case Push(i) =>
        if Accepted(s.tip, s.agents[i].phase.commit) {
          PushLands(s, root, i);
        }
      case LoseReply(i) =>
        if Accepted(s.tip, s.agents[i].phase.commit) {
          PushLands(s, root, i);
        }
      case _ =>
    }
    forall j | 0 <= j < |t.agents| ensures AgentOk(t.tip, t.agents[j]) {
      AgentSurvives(s.tip, t.tip, s.agents[j]);
    }
  }

  lemma {:induction false} RunKeepsInv(s: State, root: Ledger, trace: seq<Action>, t: State)
    requires Inv(s, root) && IsRun(s, trace, t)
    ensures Inv(t, root) && IsAncestor(s.tip, t.tip)
    decreases |trace|
  {
    if trace != [] {
      StepKeepsInv(s, root, trace[0]);
      RunKeepsInv(Next(s, trace[0]), root, trace[1..], t);
      AncestorTrans(s.tip, Next(s, trace[0]).tip, t.tip);
    }
  }

  // ---------------------------------------------------------------------
  // What callers get
  // ---------------------------------------------------------------------

  predicate Holds(r: Reservation, kind: Kind, id: int) {
    r.kind == kind && r.first <= id < r.first + r.count
  }

  /** A returned reservation is the range of a ledger commit in the remote history, ahead of every
    * number the ledger was seeded with. */
  lemma ReturnedIsReserved(s: State, root: Ledger, i: nat, kind: Kind, id: int)
    requires Inv(s, root) && i < |s.agents| && s.agents[i].phase.Done?
    ensures Holds(s.agents[i].phase.reservation, kind, id) <==> ReservedBy(s.tip, s.agents[i].phase.pushed, kind, id)
    ensures Holds(s.agents[i].phase.reservation, kind, id) ==> root.Next(kind) <= id < s.tip.ledger.Next(kind)
  {
    assert AgentOk(s.tip, s.agents[i]);
    var c := s.agents[i].phase.pushed;
    if ReservedBy(s.tip, c, kind, id) {
      Tiling(s.tip, kind, id);
    }
  }

  /** An allocator whose turn is not disturbed succeeds: a retry always, since it fetches, and a first attempt
    * if its tracking ref is up to date. */
  lemma UndisturbedTurnSucceeds(s: State, i: nat, updatedAt: string, time: string) returns (t: State)
    requires Enabled(s, Resolve(i)) && (s.agents[i].attempt > 0 || s.agents[i].tracking == s.tip)
    ensures IsRun(s, [Resolve(i), Build(i, updatedAt, time), Push(i)], t)
    ensures var r := s.agents[i].request;
            && i < |t.agents|
            && t.agents[i].phase == Done(ReservationOf(r, s.tip), LedgerCommit(s.tip, r, updatedAt, time))
            && t.tip == LedgerCommit(s.tip, r, updatedAt, time)
  {
    var a := Next(s, Resolve(i));
    var b := Next(a, Build(i, updatedAt, time));
    assert a.agents[i].phase == HasBase(s.tip);
    var c := LedgerCommit(s.tip, s.agents[i].request, updatedAt, time);
    assert b.agents[i].phase == Built(c) && IsAncestor(s.tip, c.parent) && Accepted(b.tip, c);
    t := Next(b, Push(i));
    assert IsRun(t, [], t);
    assert [Push(i)][1..] == [] && IsRun(b, [Push(i)], t);
    assert [Build(i, updatedAt, time), Push(i)][1..] == [Push(i)] && IsRun(a, [Build(i, updatedAt, time), Push(i)], t);
    assert [Resolve(i), Build(i, updatedAt, time), Push(i)][1..] == [Build(i, updatedAt, time), Push(i)];
  }

  /** A push that is not accepted changes nothing but the count of attempts, up to the last one allowed. */
  lemma RejectedPushRetries(s: State, i: nat)
    requires Enabled(s, Push(i)) && !Accepted(s.tip, s.agents[i].phase.commit)
    ensures var g, h := s.agents[i], Next(s, Push(i)).agents[i];
            && Next(s, Push(i)).tip == s.tip && h.attempt == g.attempt + 1
            && h.phase == if g.attempt + 1 < g.request.maxRetries then Idle else Failed
  {
  }

  /** The number lies between the seeded next and the current one. */
  predicate Issued(root: Ledger, tip: Commit, kind: Kind, id: int) {
    root.Next(kind) <= id < tip.ledger.Next(kind)
  }

  ghost predicate ShareNumber(r: Reservation, q: Reservation) {
    exists id :: Holds(r, r.kind, id) && Holds(q, r.kind, id)
  }

  lemma RunFromInitial(s: State, root: Ledger, trace: seq<Action>, t: State)
    requires Initial(s, root) && IsRun(s, trace, t)
    ensures Inv(t, root)
  {
    forall i | 0 <= i < |s.agents| ensures AgentOk(s.tip, s.agents[i]) {
    }
    RunKeepsInv(s, root, trace, t);
  }

  /** Over any run of any number of allocators: the numbers reserved in the remote history are
    * exactly those between the seed and the current ledger, each by one commit; every returned
    * reservation is the range of one of those commits; and two callers are given a common number
    * if and only if they pushed one and the same commit. */
  lemma AllocationIsSafe(s: State, root: Ledger, trace: seq<Action>, t: State, kind: Kind)
    requires Initial(s, root) && IsRun(s, trace, t)
    ensures forall id :: Issued(root, t.tip, kind, id) <==> exists c :: ReservedBy(t.tip, c, kind, id)
    ensures forall a, b, id :: ReservedBy(t.tip, a, kind, id) && ReservedBy(t.tip, b, kind, id) ==> a == b
    ensures forall g, id :: g in t.agents && g.phase.Done? && Holds(g.phase.reservation, kind, id) ==>
              ReservedBy(t.tip, g.phase.pushed, kind, id)
    ensures forall g, h :: g in t.agents && h in t.agents && g.phase.Done? && h.phase.Done? ==>
              (ShareNumber(g.phase.reservation, h.phase.reservation) <==> g.phase.pushed == h.phase.pushed)
  {
    RunFromInitial(s, root, trace, t);
    forall id ensures Issued(root, t.tip, kind, id) <==> exists c :: ReservedBy(t.tip, c, kind, id) {
      Tiling(t.tip, kind, id);
    }
    forall a, b, id | ReservedBy(t.tip, a, kind, id) && ReservedBy(t.tip, b, kind, id) ensures a == b {
      RangesDisjoint(t.tip, kind, id);
    }
    forall g, id | g in t.agents && g.phase.Done? && Holds(g.phase.reservation, kind, id)
      ensures ReservedBy(t.tip, g.phase.pushed, kind, id)
    {
      var i :| 0 <= i < |t.agents| && t.agents[i] == g;
      ReturnedIsReserved(t, root, i, kind, id);
    }
    forall g, h | g in t.agents && h in t.agents && g.phase.Done? && h.phase.Done?
      ensures ShareNumber(g.phase.reservation, h.phase.reservation) <==> g.phase.pushed == h.phase.pushed
    {
      var i :| 0 <= i < |t.agents| && t.agents[i] == g;
      var j :| 0 <= j < |t.agents| && t.agents[j] == h;
      SharedIffSameCommit(t, root, i, j);
    }
  }

  /** No returned number is one that was in use when the ledger was seeded. */
  lemma NoCollisionWithSeeds(s: State, root: Ledger, trace: seq<Action>, t: State, g: Agent, kind: Kind, id: int,
                             index: seq<Option<IndexDoc>>, specs: seq<Option<seq<nat>>>)
    requires Seeds(root, index, specs) && Initial(s, root) && IsRun(s, trace, t)
    requires g in t.agents && g.phase.Done? && Holds(g.phase.reservation, kind, id)
    ensures kind.Task? ==> !TaskInUse(index, id)
    ensures kind.Feature? ==> !FeatureInUse(index, specs, id)
  {
    AllocationIsSafe(s, root, trace, t, kind);
    assert ReservedBy(t.tip, g.phase.pushed, kind, id);
    assert Issued(root, t.tip, kind, id);
  }

  /** No task id text of a readable index file is the given one. */
  ghost predicate NoTaskText(index: seq<Option<IndexDoc>>, text: string) {
    forall i :: 0 <= i < |index| && index[i].Some? ==> Some(text) !in index[i].value.taskIds
  }

  /** Nor is the feature id of a readable index file other than the orphan bucket. */
  ghost predicate NoFeatureText(index: seq<Option<IndexDoc>>, text: string) {
    forall i :: 0 <= i < |index| && index[i].Some? && !index[i].value.orphans ==> index[i].value.featureId != Some(text)
  }

  lemma PrintedIsRead(kind: Kind, n: nat)
    ensures NumberAfter(Prefix(kind), Prefix(kind) + IntText(n)) == Some(n)
  {
    ReadsPrinted(Prefix(kind), 0, n, "");
    assert Prefix(kind) + Zeros(0) + NatText(n) + "" == Prefix(kind) + IntText(n);
  }

  lemma UnusedTaskText(index: seq<Option<IndexDoc>>, n: nat)
    requires !TaskInUse(index, n)
    ensures NoTaskText(index, "TASK-" + IntText(n))
  {
    var text := "TASK-" + IntText(n);
    PrintedIsRead(Task, n);
    forall i | 0 <= i < |index| && index[i].Some? ensures Some(text) !in index[i].value.taskIds {
      forall j | 0 <= j < |TaskIds(index[i])| ensures TaskIds(index[i])[j] != Some(text) {
        assert TaskNumber(TaskIds(index[i])[j]) == Some(n) ==> Occurs(TaskIds(index[i]), TaskNumber, n);
      }
    }
  }

  lemma UnusedFeatureText(index: seq<Option<IndexDoc>>, specs: seq<Option<seq<nat>>>, n: nat)
    requires !FeatureInUse(index, specs, n)
    ensures NoFeatureText(index, "FEAT-" + IntText(n))
  {
    var text := "FEAT-" + IntText(n);
    PrintedIsRead(Feature, n);
    forall i | 0 <= i < |index| && index[i].Some? && !index[i].value.orphans
      ensures index[i].value.featureId != Some(text)
    {
      assert FeatureNumber(index[i]) == Some(n) ==> Occurs(index, FeatureNumber, n);
    }
  }

  /** On texts: no id text in a returned reservation occurs where ids of its kind are recorded. */
  lemma NoCollisionWithTexts(s: State, root: Ledger, trace: seq<Action>, t: State, g: Agent, k: nat,
                             index: seq<Option<IndexDoc>>, specs: seq<Option<seq<nat>>>)
    requires Seeds(root, index, specs) && Initial(s, root) && IsRun(s, trace, t)
    requires g in t.agents && g.phase.Done? && k < |g.phase.reservation.ids|
    ensures var r := g.phase.reservation;
            && r.ids[k] == (if r.kind.Task? then "TASK-" else "FEAT-") + IntText(r.first + k)
            && (r.kind.Task? ==> NoTaskText(index, r.ids[k]))
            && (r.kind.Feature? ==> NoFeatureText(index, r.ids[k]))
  {
    var r := g.phase.reservation;
    RunFromInitial(s, root, trace, t);
    AllocationIsSafe(s, root, trace, t, r.kind);
    assert AgentOk(t.tip, g);
    assert r == ReservationOf(g.request, g.phase.pushed.parent);
    assert Holds(r, r.kind, r.first + k);
    NoCollisionWithSeeds(s, root, trace, t, g, r.kind, r.first + k, index, specs);
    assert Issued(root, t.tip, r.kind, r.first + k);
    if r.kind.Task? {
      UnusedTaskText(index, r.first + k);
    } else {
      UnusedFeatureText(index, specs, r.first + k);
    }
  }

  lemma SharedIffSameCommit(s: State, root: Ledger, i: nat, j: nat)
    requires Inv(s, root) && i < |s.agents| && j < |s.agents|
    requires s.agents[i].phase.Done? && s.agents[j].phase.Done?
    ensures ShareNumber(s.agents[i].phase.reservation, s.agents[j].phase.reservation) <==>
            s.agents[i].phase.pushed == s.agents[j].phase.pushed
  {
    var kind := s.agents[i].phase.reservation.kind;
    assert AgentOk(s.tip, s.agents[i]) && AgentOk(s.tip, s.agents[j]);
    if id :| Holds(s.agents[i].phase.reservation, kind, id) && Holds(s.agents[j].phase.reservation, kind, id) {
      ReturnedIsReserved(s, root, i, kind, id);
      ReturnedIsReserved(s, root, j, kind, id);
      RangesDisjoint(s.tip, kind, id);
    }
    if s.agents[i].phase.pushed == s.agents[j].phase.pushed {
      var first := s.agents[i].phase.reservation.first;
      ReturnedIsReserved(s, root, i, kind, first);
      ReturnedIsReserved(s, root, j, kind, first);
      assert Holds(s.agents[i].phase.reservation, kind, first);
    }
  }

  /** The requests differ at most in how often they retry. */
  predicate Alike(r: Request, q: Request) {
    r.kind == q.kind && r.count == q.count && r.origin == q.origin && r.author == q.author
  }

  lemma SameCommitAlike(r: Request, q: Request, c: Commit)
    requires MadeFor(r, c) && MadeFor(q, c) && r.kind == q.kind
    ensures Alike(r, q)
  {
    assert c.ledger.Next(r.kind) - c.parent.ledger.Next(r.kind) == r.count;
    assert c.ledger.updatedBy == r.origin && c.ledger.updatedBy == q.origin;
  }

  /** Callers that are given a common number asked for the same: kind, count, label (origin) and author. */
  lemma SharersAreAlike(s: State, root: Ledger, trace: seq<Action>, t: State, i: nat, j: nat)
    requires Initial(s, root) && IsRun(s, trace, t) && i < |t.agents| && j < |t.agents|
    requires t.agents[i].phase.Done? && t.agents[j].phase.Done?
    requires ShareNumber(t.agents[i].phase.reservation, t.agents[j].phase.reservation)
    ensures Alike(t.agents[i].request, t.agents[j].request)
  {
    forall k | 0 <= k < |s.agents| ensures AgentOk(s.tip, s.agents[k]) {
    }
    RunKeepsInv(s, root, trace, t);
    SharedIffSameCommit(t, root, i, j);
    assert AgentOk(t.tip, t.agents[i]) && AgentOk(t.tip, t.agents[j]);
    SameCommitAlike(t.agents[i].request, t.agents[j].request, t.agents[i].phase.pushed);
  }

  /** A run in which the two requests are made and both are given some number in common. */
  ghost predicate Collision(root: Ledger, r: Request, q: Request, s: State, trace: seq<Action>, t: State) {
    && Initial(s, root) && IsRun(s, trace, t) && |t.agents| == 2
    && t.agents[0].request == r && t.agents[1].request == q
    && t.agents[0].phase.Done? && t.agents[1].phase.Done?
    && ShareNumber(t.agents[0].phase.reservation, t.agents[1].phase.reservation)
  }

  /** Two alike requests, made on the same base within the same second, build the same commit; the second
    * push finds it already there and succeeds, and both callers get the same numbers. */
  lemma EqualRequestsInOneSecondCollide(root: Ledger, r: Request, q: Request, now: string)
    returns (s: State, trace: seq<Action>, t: State)
    requires r.count >= 1 && r.maxRetries >= 1 && q.maxRetries >= 1 && Alike(r, q)
    ensures Collision(root, r, q, s, trace, t)
    ensures t.agents[0].phase.reservation == t.agents[1].phase.reservation
  {
    var tip := Root(root);
    var c, res := LedgerCommit(tip, r, now, now), ReservationOf(r, tip);
    assert c == LedgerCommit(tip, q, now, now) && res == ReservationOf(q, tip);
    var r0, q0 := Agent(r, tip, 0, Idle), Agent(q, tip, 0, Idle);
    var r1, q1 := r0.(phase := HasBase(tip)), q0.(phase := HasBase(tip));
    var r2, q2 := r0.(phase := Built(c)), q0.(phase := Built(c));
    var r3, q3 := r0.(tracking := c, phase := Done(res, c)), q0.(tracking := c, phase := Done(res, c));
    var states := [
      State(tip, [r0, q0]), State(tip, [r1, q0]), State(tip, [r1, q1]), State(tip, [r2, q1]),
      State(tip, [r2, q2]), State(c, [r3, q2]), State(c, [r3, q3])
    ];
    s, t := states[0], states[6];
    trace := [Resolve(0), Resolve(1), Build(0, now, now), Build(1, now, now), Push(0), Push(1)];
    assert Accepted(tip, c) && Accepted(c, c);
    forall k | 0 <= k < 6 ensures Enabled(states[k], trace[k]) && Next(states[k], trace[k]) == states[k + 1] {
    }
    StatesAreRun(states, trace);
    assert Holds(res, res.kind, res.first);
  }

  /** What callers can check beforehand: two requests can be given a common number if and only if they are
    * alike in kind, count, label and author. */
  lemma CollisionPossibleIffAlike(root: Ledger, r: Request, q: Request)
    requires r.count >= 1 && q.count >= 1 && r.maxRetries >= 1 && q.maxRetries >= 1
    ensures (exists s, trace, t :: Collision(root, r, q, s, trace, t)) <==> Alike(r, q)
  {
    if s, trace, t :| Collision(root, r, q, s, trace, t) {
      SharersAreAlike(s, root, trace, t, 0, 1);
    }
    if Alike(r, q) {
      var s, trace, t := EqualRequestsInOneSecondCollide(root, r, q, "");
    }
  }

  lemma {:induction false} StatesAreRun(states: seq<State>, trace: seq<Action>)
    requires |states| == |trace| + 1
    requires forall k :: 0 <= k < |trace| ==> Enabled(states[k], trace[k]) && Next(states[k], trace[k]) == states[k + 1]
    ensures IsRun(states[0], trace, states[|trace|])
    decreases |trace|
  {
    if trace != [] {
      forall k | 0 <= k < |trace[1..]|
        ensures Enabled(states[1..][k], trace[1..][k]) && Next(states[1..][k], trace[1..][k]) == states[1..][k + 1]
      {
        assert trace[1..][k] == trace[k + 1] && states[1..][k] == states[k + 1];
      }
      StatesAreRun(states[1..], trace[1..]);
    }
  }

  /** The texts handed out are as distinct as the numbers. */
  lemma IdTextsDistinct(kind: Kind, a: int, b: int)
    ensures Prefix(kind) + IntText(a) == Prefix(kind) + IntText(b) ==> a == b
  {
    if Prefix(kind) + IntText(a) == Prefix(kind) + IntText(b) {
      assert (Prefix(kind) + IntText(a))[|Prefix(kind)|..] == IntText(a);
      assert (Prefix(kind) + IntText(b))[|Prefix(kind)|..] == IntText(b);
      IntTextParses(a);
      IntTextParses(b);
    }
  }
}
