/** The task-graph lint of scripts/sdd/check_task_graph.py: Kahn levels and the memoised closure.
  *
  * A graph maps task ids to tasks. An edge goes from a task to each of its KNOWN dependencies;
  * a chain follows edges. Waves and ancestor sets are specified by chains alone.
  */
module TaskGraph {
  import opened Collections

  datatype TaskId = TaskId(text: string)

  datatype Task = Task(dependsOn: seq<TaskId>, files: set<string>)

  type Graph = map<TaskId, Task>

  function Deps(g: Graph, t: TaskId): set<TaskId>
    requires t in g
  {
    set d | d in g[t].dependsOn && d in g
  }

  ghost predicate Chain(g: Graph, p: seq<TaskId>) {
    && p != []
    && (forall i :: 0 <= i < |p| ==> p[i] in g)
    && (forall i, j :: 0 <= i && j == i + 1 && j < |p| ==> p[j] in Deps(g, p[i]))
  }

  ghost predicate ChainFrom(g: Graph, t: TaskId, p: seq<TaskId>, n: nat) {
    Chain(g, p) && p[0] == t && |p| == n + 1
  }

  /** A chain of n edges leaves t. */
  ghost predicate HasChain(g: Graph, t: TaskId, n: nat) {
    exists p :: ChainFrom(g, t, p, n)
  }

  ghost predicate Links(g: Graph, a: TaskId, b: TaskId, p: seq<TaskId>) {
    Chain(g, p) && |p| >= 2 && p[0] == a && p[|p| - 1] == b
  }

  /** n is the length of the longest chain that leaves t. */
  ghost predicate IsLongest(g: Graph, t: TaskId, n: nat) {
    HasChain(g, t, n) && forall m: nat :: HasChain(g, t, m) ==> m <= n
  }

  /** a depends, directly or not, on b. */
  ghost predicate Reaches(g: Graph, a: TaskId, b: TaskId) {
    exists p :: Links(g, a, b, p)
  }

  ghost predicate OnCycle(g: Graph, t: TaskId) {
    Reaches(g, t, t)
  }

  ghost predicate ReachesCycle(g: Graph, t: TaskId) {
    exists x :: (t == x || Reaches(g, t, x)) && OnCycle(g, x)
  }

  ghost predicate Acyclic(g: Graph) {
    forall t :: t in g ==> !OnCycle(g, t)
  }

  /** The transitive dependencies of t. */
  ghost function Closure(g: Graph, t: TaskId): set<TaskId> {
    set b | b in g && Reaches(g, t, b)
  }

  lemma EdgeReaches(g: Graph, a: TaskId, b: TaskId)
    requires a in g && b in Deps(g, a)
    ensures Reaches(g, a, b)
  {
    assert Links(g, a, b, [a, b]);
  }

  lemma ReachesTrans(g: Graph, a: TaskId, b: TaskId, c: TaskId)
    requires Reaches(g, a, b) && Reaches(g, b, c)
    ensures Reaches(g, a, c)
  {
    var p :| Links(g, a, b, p);
    var q :| Links(g, b, c, q);
    var r := p + q[1..];
    forall i, j | 0 <= i && j == i + 1 && j < |r| ensures r[j] in Deps(g, r[i]) {
      if i >= |p| - 1 {
        assert r[i] == q[i - (|p| - 1)] && r[j] == q[j - (|p| - 1)];
      }
    }
    assert Links(g, a, c, r);
  }

  /** A transitive dependency is a direct one, or one of a direct one. */
  lemma ReachesFirst(g: Graph, a: TaskId, b: TaskId) returns (d: TaskId)
    requires Reaches(g, a, b)
    ensures a in g && b in g && d in Deps(g, a) && (d == b || Reaches(g, d, b))
  {
    var p :| Links(g, a, b, p);
    d := p[1];
    if |p| > 2 {
      assert Links(g, d, b, p[1..]);
    }
  }

  // ---------------------------------------------------------------------
  // Kahn levels
  // ---------------------------------------------------------------------

  /** Some dependency of t sits exactly one level below it. */
  ghost predicate HasSupport(g: Graph, rank: map<TaskId, nat>, t: TaskId)
    requires t in rank && t in g
  {
    exists d :: d in Deps(g, t) && d in rank && rank[d] + 1 == rank[t]
  }

  /** rank places tasks on levels: a placed task's dependencies are all placed lower, and
    * one of them on the level just below. */
  ghost predicate Ranked(g: Graph, rank: map<TaskId, nat>) {
    && rank.Keys <= g.Keys
    && (forall t, d :: t in rank && d in Deps(g, t) ==> d in rank && rank[d] < rank[t])
    && (forall t {:trigger HasSupport(g, rank, t)} :: t in rank && rank[t] > 0 ==> HasSupport(g, rank, t))
  }

  lemma {:induction false} ChainDescends(g: Graph, rank: map<TaskId, nat>, p: seq<TaskId>)
    requires Ranked(g, rank) && Chain(g, p) && p[0] in rank
    ensures p[|p| - 1] in rank && rank[p[|p| - 1]] + |p| - 1 <= rank[p[0]]
  {
    if |p| > 1 {
      ChainDescends(g, rank, p[1..]);
    }
  }

  lemma {:induction false} ChainOfRank(g: Graph, rank: map<TaskId, nat>, t: TaskId)
    requires Ranked(g, rank) && t in rank
    ensures HasChain(g, t, rank[t])
    decreases rank[t]
  {
    if rank[t] == 0 {
      assert ChainFrom(g, t, [t], 0);
    } else {
      assert HasSupport(g, rank, t);
      var d :| d in Deps(g, t) && d in rank && rank[d] == rank[t] - 1;
      ChainOfRank(g, rank, d);
      var p :| ChainFrom(g, d, p, rank[d]);
      assert ChainFrom(g, t, [t] + p, rank[t]);
    }
  }

  /** A placed task's level is the length of its longest chain, and no cycle is in its reach. */
  lemma RankIsLongestChain(g: Graph, rank: map<TaskId, nat>, t: TaskId)
    requires Ranked(g, rank) && t in rank
    ensures IsLongest(g, t, rank[t])
    ensures !ReachesCycle(g, t)
  {
    forall n: nat | HasChain(g, t, n) ensures n <= rank[t] {
      var p :| ChainFrom(g, t, p, n);
      ChainDescends(g, rank, p);
    }
    ChainOfRank(g, rank, t);
    if x :| (t == x || Reaches(g, t, x)) && OnCycle(g, x) {
      if t != x {
        var q :| Links(g, t, x, q);
        ChainDescends(g, rank, q);
      }
      var c :| Links(g, x, x, c);
      ChainDescends(g, rank, c);
    }
  }

  /** Every task of the set keeps a dependency inside the set. */
  ghost predicate Trapped(g: Graph, s: set<TaskId>) {
    s <= g.Keys && forall t :: t in s ==> Deps(g, t) * s != {}
  }

  lemma {:induction false} TrappedWalk(g: Graph, s: set<TaskId>, t: TaskId, n: nat) returns (p: seq<TaskId>)
    requires Trapped(g, s) && t in s
    ensures ChainFrom(g, t, p, n) && Elements(p) <= s
    decreases n
  {
    if n == 0 {
      p := [t];
    } else {
      var d :| d in Deps(g, t) * s;
      var q := TrappedWalk(g, s, d, n - 1);
      p := [t] + q;
    }
  }

  /** From a trapped set a cycle is reachable, whichever task one starts at. */
  lemma TrappedReachesCycle(g: Graph, s: set<TaskId>, t: TaskId)
    requires Trapped(g, s) && t in s
    ensures ReachesCycle(g, t)
  {
    var p := TrappedWalk(g, s, t, |s|);
    var i, j := Pigeonhole(p, s);
    var x := p[i];
    assert Links(g, x, x, p[i..j + 1]);
    assert OnCycle(g, x);
    if i > 0 {
      assert Links(g, t, x, p[..i + 1]);
    }
  }

  /** Wave i holds exactly the tasks of rank i, and rest the unplaced ones. */
  ghost predicate Levels(g: Graph, waves: seq<set<TaskId>>, rest: set<TaskId>, rank: map<TaskId, nat>) {
    && Ranked(g, rank)
    && rank.Keys + rest == g.Keys && rank.Keys !! rest
    && (forall t :: t in rank ==> rank[t] < |waves|)
    && (forall i :: 0 <= i < |waves| ==> waves[i] != {} && waves[i] == set t | t in rank && rank[t] == i)
  }

  /** The waves and the stuck tasks partition the tasks. */
  ghost predicate Partition(g: Graph, waves: seq<set<TaskId>>, stuck: set<TaskId>) {
    && stuck <= g.Keys
    && (forall i :: 0 <= i < |waves| ==> waves[i] != {} && waves[i] <= g.Keys && waves[i] !! stuck)
    && (forall i, j :: 0 <= i < j < |waves| ==> waves[i] !! waves[j])
    && (forall t :: t in g ==> t in stuck || exists i :: 0 <= i < |waves| && t in waves[i])
  }

  /** waves and stuck partition the tasks; a task's wave is the length of its longest chain of
    * known dependencies; stuck holds exactly the tasks from which a cycle is reachable. */
  ghost predicate KahnExact(g: Graph, waves: seq<set<TaskId>>, stuck: set<TaskId>) {
    && Partition(g, waves, stuck)
    && (forall i, t :: 0 <= i < |waves| && t in waves[i] ==> IsLongest(g, t, i))
    && (forall t :: t in g ==> (t in stuck <==> ReachesCycle(g, t)))
  }

  lemma LevelsPartition(g: Graph, waves: seq<set<TaskId>>, stuck: set<TaskId>, rank: map<TaskId, nat>)
    requires Levels(g, waves, stuck, rank)
    ensures Partition(g, waves, stuck)
  {
    forall t | t in g ensures t in stuck || exists i :: 0 <= i < |waves| && t in waves[i] {
      if t !in stuck {
        assert t in waves[rank[t]];
      }
    }
  }

  lemma LevelsAreExact(g: Graph, waves: seq<set<TaskId>>, stuck: set<TaskId>, rank: map<TaskId, nat>)
    requires Levels(g, waves, stuck, rank)
    requires Trapped(g, stuck)
    ensures KahnExact(g, waves, stuck)
  {
    LevelsPartition(g, waves, stuck, rank);
    forall i, t | 0 <= i < |waves| && t in waves[i] ensures IsLongest(g, t, i) {
      RankIsLongestChain(g, rank, t);
    }
    forall t | t in g ensures t in stuck <==> ReachesCycle(g, t) {
      if t in stuck {
        TrappedReachesCycle(g, stuck, t);
      } else {
        RankIsLongestChain(g, rank, t);
      }
    }
  }

  /** Every unplaced task waits for the last wave or for another unplaced task. */
  ghost predicate Waiting(g: Graph, waves: seq<set<TaskId>>, rest: set<TaskId>) {
    rest <= g.Keys &&
    forall t :: t in rest && |waves| > 0 ==> Deps(g, t) * (waves[|waves| - 1] + rest) != {}
  }

  lemma NextRank(g: Graph, rank: map<TaskId, nat>, rest: set<TaskId>, ready: set<TaskId>, k: nat)
    returns (rank': map<TaskId, nat>)
    requires Ranked(g, rank) && rank.Keys + rest == g.Keys && rank.Keys !! rest && ready <= rest
    requires forall t :: t in rank ==> rank[t] < k
    requires forall t :: t in ready ==> Deps(g, t) * rest == {}
    requires k > 0 ==> forall t :: t in ready ==> exists d :: d in Deps(g, t) && d in rank && rank[d] == k - 1
    ensures rank' == map t | t in rank.Keys + ready :: if t in ready then k else rank[t]
    ensures Ranked(g, rank')
  {
    rank' := map t | t in rank.Keys + ready :: if t in ready then k else rank[t];
    forall t, d | t in rank' && d in Deps(g, t) ensures d in rank' && rank'[d] < rank'[t] {
      if t in ready {
        assert d !in Deps(g, t) * rest;
      }
    }
    forall t | t in rank' && rank'[t] > 0 ensures HasSupport(g, rank', t) {
      if t !in ready {
        assert HasSupport(g, rank, t);
      }
      var d :| d in Deps(g, t) && d in rank && rank[d] == rank'[t] - 1;
      assert rank'[d] == rank'[t] - 1;
    }
  }

  lemma ReadySupport(g: Graph, waves: seq<set<TaskId>>, rest: set<TaskId>, rank: map<TaskId, nat>, ready: set<TaskId>)
    requires Levels(g, waves, rest, rank) && Waiting(g, waves, rest) && ready <= rest
    requires forall t :: t in ready ==> Deps(g, t) * rest == {}
    requires |waves| > 0
    ensures forall t :: t in ready ==> exists d :: d in Deps(g, t) && d in rank && rank[d] == |waves| - 1
  {
    var k := |waves|;
    forall t | t in ready ensures exists d :: d in Deps(g, t) && d in rank && rank[d] == k - 1 {
      var d :| d in Deps(g, t) * (waves[k - 1] + rest);
      assert d !in Deps(g, t) * rest;
    }
  }

  /** One round of Kahn's loop: the tasks with nothing left to wait for form the next wave. */
  lemma NextLevel(g: Graph, waves: seq<set<TaskId>>, rest: set<TaskId>, rank: map<TaskId, nat>, ready: set<TaskId>)
    returns (rank': map<TaskId, nat>)
    requires Levels(g, waves, rest, rank) && Waiting(g, waves, rest)
    requires ready == set t | t in rest && Deps(g, t) * rest == {}
    requires ready != {}
    ensures Levels(g, waves + [ready], rest - ready, rank')
    ensures Waiting(g, waves + [ready], rest - ready)
  {
    var k := |waves|;
    if k > 0 {
      ReadySupport(g, waves, rest, rank, ready);
    }
    rank' := NextRank(g, rank, rest, ready, k);
    WavesFollowRank(g, waves, rest, rank, ready, rank');
    assert (waves + [ready])[k] + (rest - ready) == rest;
  }

  lemma WavesFollowRank(g: Graph, waves: seq<set<TaskId>>, rest: set<TaskId>, rank: map<TaskId, nat>,
                        ready: set<TaskId>, rank': map<TaskId, nat>)
    requires Levels(g, waves, rest, rank) && ready <= rest && ready != {}
    requires rank' == map t | t in rank.Keys + ready :: if t in ready then |waves| else rank[t]
    ensures var waves' := waves + [ready];
            forall i :: 0 <= i < |waves'| ==> waves'[i] != {} && waves'[i] == set t | t in rank' && rank'[t] == i
  {
    var waves' := waves + [ready];
    forall i | 0 <= i < |waves'| ensures waves'[i] != {} && waves'[i] == set t | t in rank' && rank'[t] == i {
      assert i < |waves| ==> waves'[i] == waves[i];
    }
  }

  /** The loop's table: for each unplaced task, its dependencies still unplaced. */
  ghost predicate Unmet(g: Graph, remaining: map<TaskId, set<TaskId>>) {
    remaining.Keys <= g.Keys && forall t :: t in remaining ==> remaining[t] == Deps(g, t) * remaining.Keys
  }

  lemma ReadyTasks(g: Graph, remaining: map<TaskId, set<TaskId>>, ready: set<TaskId>)
    requires Unmet(g, remaining)
    requires ready == set t | t in remaining && remaining[t] == {}
    ensures ready == set t | t in remaining.Keys && Deps(g, t) * remaining.Keys == {}
  {
  }

  lemma RemoveReady(g: Graph, before: map<TaskId, set<TaskId>>, ready: set<TaskId>, after: map<TaskId, set<TaskId>>)
    requires Unmet(g, before) && ready != {} && ready <= before.Keys
    requires after == map t | t in before && t !in ready :: before[t] - ready
    ensures Unmet(g, after) && after.Keys == before.Keys - ready && |after.Keys| < |before.Keys|
  {
    assert after.Keys == before.Keys - ready;
    forall t | t in after ensures after[t] == Deps(g, t) * after.Keys {
    }
    SubsetCard(after.Keys, before.Keys);
  }

  /** Where the loop stands: the waves so far, with the rank they give, and what is left. */
  ghost predicate Progress(g: Graph, waves: seq<set<TaskId>>, remaining: map<TaskId, set<TaskId>>,
                           rank: map<TaskId, nat>) {
    Levels(g, waves, remaining.Keys, rank) && Waiting(g, waves, remaining.Keys) && Unmet(g, remaining)
  }

  lemma InitialProgress(g: Graph)
    ensures Progress(g, [], map t | t in g :: Deps(g, t), map[])
  {
  }

  lemma RoundKeepsProgress(g: Graph, waves: seq<set<TaskId>>, before: map<TaskId, set<TaskId>>,
                           rank: map<TaskId, nat>, ready: set<TaskId>, after: map<TaskId, set<TaskId>>)
    returns (rank': map<TaskId, nat>)
    requires Progress(g, waves, before, rank) && ready != {}
    requires ready == set t | t in before && before[t] == {}
    requires after == map t | t in before && t !in ready :: before[t] - ready
    ensures Progress(g, waves + [ready], after, rank') && |after.Keys| < |before.Keys|
  {
    ReadyTasks(g, before, ready);
    rank' := NextLevel(g, waves, before.Keys, rank, ready);
    RemoveReady(g, before, ready, after);
  }

  lemma StuckIsExact(g: Graph, waves: seq<set<TaskId>>, remaining: map<TaskId, set<TaskId>>, rank: map<TaskId, nat>)
    requires Progress(g, waves, remaining, rank)
    requires forall t :: t in remaining ==> remaining[t] != {}
    ensures KahnExact(g, waves, remaining.Keys)
  {
    LevelsAreExact(g, waves, remaining.Keys, rank);
  }

  /** Kahn's algorithm: the waves in order and the tasks it cannot place. */
  method Waves(g: Graph) returns (waves: seq<set<TaskId>>, stuck: set<TaskId>)
    ensures KahnExact(g, waves, stuck)
  {
    var remaining: map<TaskId, set<TaskId>> := map t | t in g :: Deps(g, t);
    waves := [];
    ghost var rank: map<TaskId, nat> := map[];
    InitialProgress(g);
    while remaining != map[]
      invariant Progress(g, waves, remaining, rank)
      decreases |remaining.Keys|
    {
      var ready := set t | t in remaining && remaining[t] == {};
      if ready == {} {
        StuckIsExact(g, waves, remaining, rank);
        return waves, remaining.Keys;
      }
      ghost var before := remaining;
      remaining := map t | t in remaining && t !in ready :: remaining[t] - ready;
      rank := RoundKeepsProgress(g, waves, before, rank, ready, remaining);
      waves := waves + [ready];
    }
    StuckIsExact(g, waves, remaining, rank);
    stuck := {};
  }

  // ---------------------------------------------------------------------
  // Ancestors
  // ---------------------------------------------------------------------

  ghost predicate Within(g: Graph, d: TaskId, b: TaskId) {
    d in g && (b == d || Reaches(g, d, b))
  }

  ghost function UpTo(g: Graph, t: TaskId, i: nat): set<TaskId>
    requires t in g && i <= |g[t].dependsOn|
  {
    set b | b in g && exists k :: 0 <= k < i && Within(g, g[t].dependsOn[k], b)
  }

  lemma UpToStep(g: Graph, t: TaskId, i: nat)
    requires t in g && i < |g[t].dependsOn|
    ensures var d := g[t].dependsOn[i];
            UpTo(g, t, i + 1) == UpTo(g, t, i) + (if d in g then {d} + Closure(g, d) else {})
  {
    var d := g[t].dependsOn[i];
    var next := UpTo(g, t, i) + (if d in g then {d} + Closure(g, d) else {});
    forall b | b in UpTo(g, t, i + 1) ensures b in next {
      var k :| 0 <= k < i + 1 && Within(g, g[t].dependsOn[k], b);
    }
    forall b | b in next ensures b in UpTo(g, t, i + 1) {
      if b !in UpTo(g, t, i) {
        assert Within(g, g[t].dependsOn[i], b);
      }
    }
  }

  /** The tasks a recursive visit is inside of: each is the visited task or depends on it. */
  ghost predicate OnPath(g: Graph, stack: set<TaskId>, t: TaskId) {
    t in stack && stack <= g.Keys && forall s :: s in stack ==> s == t || Reaches(g, s, t)
  }

  lemma PathStep(g: Graph, stack: set<TaskId>, t: TaskId, d: TaskId)
    requires t in g && d in Deps(g, t) && OnPath(g, stack, t)
    ensures d in stack ==> OnCycle(g, d)
    ensures OnPath(g, stack + {d}, d)
    ensures d !in stack ==> |stack| < |stack + {d}| <= |g.Keys|
  {
    EdgeReaches(g, t, d);
    forall s | s in stack ensures Reaches(g, s, d) {
      if s != t {
        ReachesTrans(g, s, t, d);
      }
    }
    SubsetCard(stack + {d}, g.Keys);
  }

  lemma UpToAllIsClosure(g: Graph, t: TaskId)
    requires t in g
    ensures UpTo(g, t, |g[t].dependsOn|) == Closure(g, t)
  {
    var deps := g[t].dependsOn;
    forall b | b in Closure(g, t) ensures b in UpTo(g, t, |deps|) {
      var d := ReachesFirst(g, t, b);
      var k :| 0 <= k < |deps| && deps[k] == d;
      assert Within(g, deps[k], b);
    }
    forall b | b in UpTo(g, t, |deps|) ensures b in Closure(g, t) {
      var k :| 0 <= k < |deps| && Within(g, deps[k], b);
      EdgeReaches(g, t, deps[k]);
      if b != deps[k] {
        ReachesTrans(g, t, deps[k], b);
      }
    }
  }

  /** s lists only transitive dependencies of t, and on an acyclic graph all of them. */
  ghost predicate ClosureOf(g: Graph, t: TaskId, s: set<TaskId>) {
    s <= Closure(g, t) && (Acyclic(g) ==> s == Closure(g, t))
  }

  ghost predicate ClosureSoFar(g: Graph, t: TaskId, i: nat, s: set<TaskId>)
    requires t in g && i <= |g[t].dependsOn|
  {
    s <= UpTo(g, t, i) && (Acyclic(g) ==> s == UpTo(g, t, i))
  }

  lemma AddDependency(g: Graph, t: TaskId, i: nat, s: set<TaskId>, more: set<TaskId>)
    requires t in g && i < |g[t].dependsOn| && g[t].dependsOn[i] in g
    requires ClosureSoFar(g, t, i, s) && ClosureOf(g, g[t].dependsOn[i], more)
    ensures ClosureSoFar(g, t, i + 1, s + {g[t].dependsOn[i]} + more)
  {
    UpToStep(g, t, i);
  }

  lemma SkipDependency(g: Graph, t: TaskId, i: nat, s: set<TaskId>)
    requires t in g && i < |g[t].dependsOn|
    requires g[t].dependsOn[i] !in g || !Acyclic(g)
    requires ClosureSoFar(g, t, i, s)
    ensures ClosureSoFar(g, t, i + 1, s)
  {
    UpToStep(g, t, i);
  }

  /** The memo table of the closure computation. */
  class AncestorIndex {
    const g: Graph
    var memo: map<TaskId, set<TaskId>>

    /** Every memo entry is within the closure; on an acyclic graph it is the closure. */
    ghost predicate Valid()
      reads this
    {
      memo.Keys <= g.Keys && forall t :: t in memo ==> ClosureOf(g, t, memo[t])
    }

    constructor (g: Graph)
      ensures Valid() && this.g == g
    {
      this.g := g;
      memo := map[];
    }

    /** The recursive visit; stack holds the tasks the recursion is inside of. */
    method Visit(t: TaskId, stack: set<TaskId>) returns (acc: set<TaskId>)
      requires Valid() && t in g
      requires OnPath(g, stack, t)
      modifies this
      ensures Valid() && t in memo && memo[t] == acc
      ensures old(memo.Keys) <= memo.Keys
      decreases |g.Keys| - |stack|
    {
      if t in memo {
        return memo[t];
      }
      acc := {};
      var deps := g[t].dependsOn;
      for i := 0 to |deps|
        invariant Valid() && old(memo.Keys) <= memo.Keys
        invariant ClosureSoFar(g, t, i, acc)
      {
        var dep := deps[i];
        if dep in g && dep !in stack {
          PathStep(g, stack, t, dep);
          var more := Visit(dep, stack + {dep});
          AddDependency(g, t, i, acc, more);
          acc := acc + {dep} + more;
        } else {
          if dep in g {
            PathStep(g, stack, t, dep);
          }
          SkipDependency(g, t, i, acc);
        }
      }
      UpToAllIsClosure(g, t);
      memo := memo[t := acc];
    }

    /** The closure of every task, filled in the order of ids. */
    method Ancestors(ids: seq<TaskId>)
      requires Valid() && Elements(ids) == g.Keys
      modifies this
      ensures Valid() && memo.Keys == g.Keys
    {
      for i := 0 to |ids|
        invariant Valid()
        invariant forall k :: 0 <= k < i ==> ids[k] in memo
      {
        assert ids[i] in Elements(ids) && OnPath(g, {ids[i]}, ids[i]);
        var _ := Visit(ids[i], {ids[i]});
      }
      forall t | t in g ensures t in memo {
        assert t in Elements(ids);
      }
    }
  }
}
