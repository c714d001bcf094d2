/** What the task-graph lint promises: a graph with no error can run with as much parallelism as
  * its edges allow and no file is ever declared by two running tasks; and, on a graph whose
  * dependencies are known and acyclic, every overlap it reports can really happen.
  */
module Lint {
  import opened Collections
  import opened TaskGraph

  // ---------------------------------------------------------------------
  // Executions
  // ---------------------------------------------------------------------

  datatype Exec = Exec(running: set<TaskId>, finished: set<TaskId>)

  datatype Event = Start(task: TaskId) | Finish(task: TaskId)

  /** A task starts once, and only after everything it depends on has finished. */
  ghost predicate Enabled(g: Graph, e: Exec, ev: Event) {
    match ev
    case Start(t) =>
      t in g && t !in e.running && t !in e.finished && forall d :: d in g[t].dependsOn ==> d in e.finished
    case Finish(t) => t in e.running
  }

  ghost function Next(e: Exec, ev: Event): Exec {
    match ev
    case Start(t) => Exec(e.running + {t}, e.finished)
    case Finish(t) => Exec(e.running - {t}, e.finished + {t})
  }

  ghost function After(trace: seq<Event>): Exec {
    if trace == [] then Exec({}, {}) else Next(After(trace[..|trace| - 1]), trace[|trace| - 1])
  }

  ghost predicate Legal(g: Graph, trace: seq<Event>) {
    trace == [] || (Legal(g, trace[..|trace| - 1]) && Enabled(g, After(trace[..|trace| - 1]), trace[|trace| - 1]))
  }

  lemma Extend(g: Graph, trace: seq<Event>, ev: Event)
    requires Legal(g, trace) && Enabled(g, After(trace), ev)
    ensures Legal(g, trace + [ev]) && After(trace + [ev]) == Next(After(trace), ev)
  {
    assert (trace + [ev])[..|trace|] == trace;
  }

  ghost predicate FilesDisjoint(g: Graph, e: Exec) {
    forall a, b :: a in e.running && b in e.running && a in g && b in g && a != b ==> g[a].files * g[b].files == {}
  }

  /** No legal execution ever runs two tasks that declare a common file. */
  ghost predicate Safe(g: Graph) {
    forall trace :: Legal(g, trace) ==> FilesDisjoint(g, After(trace))
  }

  /** Two tasks declare a common file and neither depends on the other. */
  ghost predicate Clash(g: Graph, a: TaskId, b: TaskId) {
    a in g && b in g && a != b && g[a].files * g[b].files != {} && !Reaches(g, a, b) && !Reaches(g, b, a)
  }

  ghost predicate ClashFree(g: Graph) {
    forall a, b :: !Clash(g, a, b)
  }

  ghost predicate KnownDependencies(g: Graph) {
    forall t, d :: t in g && d in g[t].dependsOn ==> d in g
  }

  /** Whatever a started task depends on has finished. */
  ghost predicate DependenciesDone(g: Graph, e: Exec) {
    && e.running <= g.Keys && e.finished <= g.Keys && e.running !! e.finished
    && forall t, d :: t in e.running + e.finished && d in g[t].dependsOn ==> d in e.finished
  }

  lemma {:induction false} LegalKeepsDependencies(g: Graph, trace: seq<Event>)
    requires Legal(g, trace)
    ensures DependenciesDone(g, After(trace))
  {
    if trace != [] {
      LegalKeepsDependencies(g, trace[..|trace| - 1]);
    }
  }

  lemma {:induction false} ChainEndFinished(g: Graph, e: Exec, p: seq<TaskId>)
    requires DependenciesDone(g, e) && Chain(g, p) && |p| >= 2 && p[0] in e.running + e.finished
    ensures p[|p| - 1] in e.finished
    decreases |p|
  {
    assert p[1] in Deps(g, p[0]);
    if |p| > 2 {
      ChainEndFinished(g, e, p[1..]);
    }
  }

  lemma RunningTasksDoNotReach(g: Graph, e: Exec, a: TaskId, b: TaskId)
    requires DependenciesDone(g, e) && a in e.running && b in e.running
    ensures !Reaches(g, a, b)
  {
    if p :| Links(g, a, b, p) {
      ChainEndFinished(g, e, p);
    }
  }

  /** Soundness, on every graph: without a clash no execution has a file conflict. */
  lemma ClashFreeIsSafe(g: Graph)
    requires ClashFree(g)
    ensures Safe(g)
  {
    forall trace | Legal(g, trace) ensures FilesDisjoint(g, After(trace)) {
      var e := After(trace);
      LegalKeepsDependencies(g, trace);
      forall a, b | a in e.running && b in e.running && a in g && b in g && a != b
        ensures g[a].files * g[b].files == {}
      {
        RunningTasksDoNotReach(g, e, a, b);
        RunningTasksDoNotReach(g, e, b, a);
        assert !Clash(g, a, b);
      }
    }
  }

  // ---------------------------------------------------------------------
  // Completeness: a clash can be driven to a conflict
  // ---------------------------------------------------------------------

  /** The set contains the dependencies of each of its tasks. */
  ghost predicate DownClosed(g: Graph, c: set<TaskId>) {
    c <= g.Keys && forall t, d :: t in c && d in g[t].dependsOn ==> d in c
  }

  /** Some task of a non-empty set is not a dependency of any other task of the set. */
  lemma LastTask(g: Graph, c: set<TaskId>) returns (m: TaskId)
    requires c != {} && c <= g.Keys && Acyclic(g)
    ensures m in c && forall t :: t in c ==> m !in Deps(g, t)
  {
    m :| m in c;
    var below := Closure(g, m);
    while exists t :: t in c && m in Deps(g, t)
      invariant m in c && below == Closure(g, m)
      decreases |g.Keys| - |below|
    {
      var t :| t in c && m in Deps(g, t);
      EdgeReaches(g, t, m);
      forall b | b in below ensures b in Closure(g, t) {
        ReachesTrans(g, t, m, b);
      }
      assert !OnCycle(g, m);
      SubsetCard(below + {m}, Closure(g, t));
      SubsetCard(Closure(g, t), g.Keys);
      m := t;
      below := Closure(g, t);
    }
  }

  lemma {:induction false} FinishAll(g: Graph, c: set<TaskId>) returns (trace: seq<Event>)
    requires Acyclic(g) && DownClosed(g, c)
    ensures Legal(g, trace) && After(trace) == Exec({}, c)
    decreases |c|
  {
    if c == {} {
      trace := [];
    } else {
      var m := LastTask(g, c);
      forall t, d | t in c - {m} && d in g[t].dependsOn ensures d in c - {m} {
        assert d in Deps(g, t);
      }
      trace := FinishAll(g, c - {m});
      forall d | d in g[m].dependsOn ensures d in c - {m} {
        assert d in Deps(g, m);
      }
      Extend(g, trace, Start(m));
      trace := trace + [Start(m)];
      Extend(g, trace, Finish(m));
      trace := trace + [Finish(m)];
      assert {m} - {m} == {};
      assert After(trace).finished == c;
    }
  }

  lemma ClosuresAreDownClosed(g: Graph, a: TaskId, b: TaskId)
    requires KnownDependencies(g) && a in g && b in g
    ensures DownClosed(g, Closure(g, a) + Closure(g, b))
    ensures forall d :: d in g[a].dependsOn ==> d in Closure(g, a)
    ensures forall d :: d in g[b].dependsOn ==> d in Closure(g, b)
  {
    forall r, t, d | (r == a || r == b) && t in Closure(g, r) && d in g[t].dependsOn ensures d in Closure(g, r) {
      EdgeReaches(g, t, d);
      ReachesTrans(g, r, t, d);
    }
    forall r, d | (r == a || r == b) && d in g[r].dependsOn ensures d in Closure(g, r) {
      EdgeReaches(g, r, d);
    }
  }

  /** Completeness: on an acyclic graph with known dependencies, two tasks of which neither
    * depends on the other can be made to run at the same time. */
  lemma IndependentTasksCanOverlap(g: Graph, a: TaskId, b: TaskId) returns (trace: seq<Event>)
    requires KnownDependencies(g) && Acyclic(g)
    requires a in g && b in g && a != b && !Reaches(g, a, b) && !Reaches(g, b, a)
    ensures Legal(g, trace) && After(trace).running == {a, b}
  {
    var c := Closure(g, a) + Closure(g, b);
    ClosuresAreDownClosed(g, a, b);
    trace := FinishAll(g, c);
    assert !OnCycle(g, a) && !OnCycle(g, b);
    Extend(g, trace, Start(a));
    trace := trace + [Start(a)];
    Extend(g, trace, Start(b));
    trace := trace + [Start(b)];
    assert {a} + {b} == {a, b};
  }

  /** On an acyclic graph with known dependencies, being clash-free is exactly being safe. */
  lemma ClashFreeIffSafe(g: Graph)
    requires KnownDependencies(g) && Acyclic(g)
    ensures ClashFree(g) <==> Safe(g)
  {
    if ClashFree(g) {
      ClashFreeIsSafe(g);
    } else {
      var a, b :| Clash(g, a, b);
      var trace := IndependentTasksCanOverlap(g, a, b);
      assert !FilesDisjoint(g, After(trace));
    }
  }

  // ---------------------------------------------------------------------
  // The checker
  // ---------------------------------------------------------------------

  datatype Finding =
    | UnknownDependency(task: TaskId, dep: TaskId)
    | Cycle(tasks: set<TaskId>)
    | FileOverlap(a: TaskId, b: TaskId, shared: set<string>)

  ghost predicate UnknownReported(g: Graph, findings: seq<Finding>) {
    forall t, d :: UnknownDependency(t, d) in findings <==> t in g && d in g[t].dependsOn && d !in g
  }

  ghost predicate CycleReported(g: Graph, findings: seq<Finding>) {
    && (forall s :: Cycle(s) in findings ==> s != {} && s == set t | t in g && ReachesCycle(g, t))
    && ((exists s :: Cycle(s) in findings) <==> !Acyclic(g))
  }

  /** Every clash is reported; on an acyclic graph nothing else is. */
  ghost predicate OverlapsReported(g: Graph, findings: seq<Finding>) {
    && (forall a, b :: Clash(g, a, b) ==>
          || FileOverlap(a, b, g[a].files * g[b].files) in findings
          || FileOverlap(b, a, g[a].files * g[b].files) in findings)
    && (forall a, b, f :: FileOverlap(a, b, f) in findings && Acyclic(g) ==>
          Clash(g, a, b) && f == g[a].files * g[b].files)
  }

  method UnknownDependencies(g: Graph, ids: seq<TaskId>) returns (findings: seq<Finding>)
    requires Elements(ids) == g.Keys
    ensures UnknownReported(g, findings)
    ensures forall f :: f in findings ==> f.UnknownDependency?
  {
    findings := [];
    for i := 0 to |ids|
      invariant forall t, d :: UnknownDependency(t, d) in findings <==>
                  t in ids[..i] && t in g && d in g[t].dependsOn && d !in g
      invariant forall f :: f in findings ==> f.UnknownDependency?
    {
      var t := ids[i];
      assert t in Elements(ids);
      ghost var before := findings;
      for j := 0 to |g[t].dependsOn|
        invariant forall u, d :: UnknownDependency(u, d) in findings <==>
                    UnknownDependency(u, d) in before || (u == t && d in g[t].dependsOn[..j] && d !in g)
        invariant forall f :: f in findings ==> f.UnknownDependency?
      {
        var dep := g[t].dependsOn[j];
        if dep !in g {
          findings := findings + [UnknownDependency(t, dep)];
        }
      }
      assert g[t].dependsOn[..|g[t].dependsOn|] == g[t].dependsOn;
      assert ids[..i + 1] == ids[..i] + [t];
    }
    assert ids[..|ids|] == ids;
    assert forall t :: t in g ==> t in Elements(ids);
  }

  /** The finding for a pair, if it deserves one under the computed ancestor sets. */
  function Overlap(g: Graph, anc: map<TaskId, set<TaskId>>, a: TaskId, b: TaskId): (r: Option<Finding>)
    requires a in g && b in g && a in anc && b in anc
  {
    var shared := g[a].files * g[b].files;
    if shared != {} && a !in anc[b] && b !in anc[a] then Some(FileOverlap(a, b, shared)) else None
  }

  ghost predicate PairFinding(g: Graph, ids: seq<TaskId>, anc: map<TaskId, set<TaskId>>, i: int, j: int, f: Finding) {
    0 <= i < j < |ids| && {ids[i], ids[j]} <= g.Keys && {ids[i], ids[j]} <= anc.Keys &&
    Overlap(g, anc, ids[i], ids[j]) == Some(f)
  }

  method FileOverlaps(g: Graph, ids: seq<TaskId>, anc: map<TaskId, set<TaskId>>) returns (findings: seq<Finding>)
    requires forall i :: 0 <= i < |ids| ==> ids[i] in g && ids[i] in anc
    ensures forall f :: f in findings <==> exists i, j :: PairFinding(g, ids, anc, i, j, f)
  {
    findings := [];
    for i := 0 to |ids|
      invariant forall f :: f in findings <==> exists k, j :: k < i && PairFinding(g, ids, anc, k, j, f)
    {
      ghost var before := findings;
      for j := i + 1 to |ids|
        invariant forall f :: f in findings <==>
                    f in before || exists k :: k < j && PairFinding(g, ids, anc, i, k, f)
      {
        var r := Overlap(g, anc, ids[i], ids[j]);
        ghost var soFar := findings;
        if r.Some? {
          findings := findings + [r.value];
          assert PairFinding(g, ids, anc, i, j, r.value);
        }
        forall f ensures f in findings <==> f in before || exists k :: k < j + 1 && PairFinding(g, ids, anc, i, k, f) {
          if f in findings && f !in soFar {
            assert PairFinding(g, ids, anc, i, j, f);
          }
        }
      }
      forall f ensures f in findings <==> exists k, j :: k < i + 1 && PairFinding(g, ids, anc, k, j, f) {
      }
    }
  }

  lemma OverlapsAreClashes(g: Graph, ids: seq<TaskId>, anc: map<TaskId, set<TaskId>>, findings: seq<Finding>)
    requires Elements(ids) == g.Keys && Distinct(ids) && anc.Keys == g.Keys
    requires forall t :: t in anc ==> ClosureOf(g, t, anc[t])
    requires forall f :: f in findings && f.FileOverlap? <==>
               exists i, j :: PairFinding(g, ids, anc, i, j, f)
    ensures OverlapsReported(g, findings)
  {
    forall a, b | Clash(g, a, b)
      ensures FileOverlap(a, b, g[a].files * g[b].files) in findings ||
              FileOverlap(b, a, g[a].files * g[b].files) in findings
    {
      assert a in Elements(ids) && b in Elements(ids);
      var i :| 0 <= i < |ids| && ids[i] == a;
      var j :| 0 <= j < |ids| && ids[j] == b;
      assert a !in Closure(g, b) && b !in Closure(g, a);
      if i < j {
        assert PairFinding(g, ids, anc, i, j, FileOverlap(a, b, g[a].files * g[b].files));
      } else {
        assert g[b].files * g[a].files == g[a].files * g[b].files;
        assert PairFinding(g, ids, anc, j, i, FileOverlap(b, a, g[a].files * g[b].files));
      }
    }
    forall a, b, f | FileOverlap(a, b, f) in findings && Acyclic(g)
      ensures Clash(g, a, b) && f == g[a].files * g[b].files
    {
      var i, j :| PairFinding(g, ids, anc, i, j, FileOverlap(a, b, f));
      assert ids[i] != ids[j];
      assert a !in Closure(g, b) && b !in Closure(g, a);
    }
  }

  lemma KahnFindsCycles(g: Graph, waves: seq<set<TaskId>>, stuck: set<TaskId>)
    requires KahnExact(g, waves, stuck)
    ensures stuck == {} <==> Acyclic(g)
    ensures stuck == set t | t in g && ReachesCycle(g, t)
  {
    if t :| t in g && OnCycle(g, t) {
      assert ReachesCycle(g, t);
    }
    if t :| t in stuck {
      var x :| (t == x || Reaches(g, t, x)) && OnCycle(g, x);
      var p :| Links(g, x, x, p);
      assert x in g;
    }
  }

  /** No error finding means a safe graph; and unless the graph has an unknown dependency or a
    * cycle, which are themselves reported, it is safe only if there is no finding. */
  lemma NoFindingsMeansSafe(g: Graph, findings: seq<Finding>)
    requires UnknownReported(g, findings) && CycleReported(g, findings) && OverlapsReported(g, findings)
    ensures findings == [] ==> Safe(g)
    ensures KnownDependencies(g) && Acyclic(g) ==> (findings == [] <==> Safe(g))
  {
    if findings == [] {
      ClashFreeIsSafe(g);
    } else if KnownDependencies(g) && Acyclic(g) {
      ClashFreeIffSafe(g);
      var f := findings[0];
      assert f in findings;
      match f
      case UnknownDependency(t, d) => assert false;
      case Cycle(s) => assert false;
      case FileOverlap(a, b, shared) => assert Clash(g, a, b);
    }
  }

  lemma Assemble(g: Graph, ids: seq<TaskId>, anc: map<TaskId, set<TaskId>>,
                 unknown: seq<Finding>, cyclic: set<TaskId>, overlaps: seq<Finding>)
    requires Elements(ids) == g.Keys && Distinct(ids) && anc.Keys == g.Keys
    requires forall t :: t in anc ==> ClosureOf(g, t, anc[t])
    requires UnknownReported(g, unknown) && forall f :: f in unknown ==> f.UnknownDependency?
    requires cyclic == (set t | t in g && ReachesCycle(g, t)) && (cyclic == {} <==> Acyclic(g))
    requires forall f :: f in overlaps <==> exists i, j :: PairFinding(g, ids, anc, i, j, f)
    ensures var findings := unknown + (if cyclic != {} then [Cycle(cyclic)] else []) + overlaps;
            UnknownReported(g, findings) && CycleReported(g, findings) && OverlapsReported(g, findings)
  {
    var findings := unknown + (if cyclic != {} then [Cycle(cyclic)] else []) + overlaps;
    forall f ensures f in findings <==> f in unknown || (cyclic != {} && f == Cycle(cyclic)) || f in overlaps {
    }
    forall f | f in overlaps ensures f.FileOverlap? {
      var i, j :| PairFinding(g, ids, anc, i, j, f);
    }
    OverlapsAreClashes(g, ids, anc, findings);
    assert cyclic != {} ==> Cycle(cyclic) in findings;
  }

  /** The error part of check_graph. ids is the order the tasks are visited in. */
  method CheckGraph(g: Graph, ids: seq<TaskId>) returns (waves: seq<set<TaskId>>, findings: seq<Finding>)
    requires Elements(ids) == g.Keys && Distinct(ids)
    ensures KahnExact(g, waves, set t | t in g && ReachesCycle(g, t))
    ensures UnknownReported(g, findings) && CycleReported(g, findings) && OverlapsReported(g, findings)
    ensures findings == [] ==> Safe(g)
    ensures KnownDependencies(g) && Acyclic(g) ==> (findings == [] <==> Safe(g))
  {
    var unknown := UnknownDependencies(g, ids);
    var cyclic;
    waves, cyclic := Waves(g);
    KahnFindsCycles(g, waves, cyclic);
    var cycle := if cyclic != {} then [Cycle(cyclic)] else [];
    var index := new AncestorIndex(g);
    index.Ancestors(ids);
    assert forall i :: 0 <= i < |ids| ==> ids[i] in Elements(ids);
    var overlaps := FileOverlaps(g, ids, index.memo);
    findings := unknown + cycle + overlaps;
    Assemble(g, ids, index.memo, unknown, cyclic, overlaps);
    NoFindingsMeansSafe(g, findings);
  }
}
