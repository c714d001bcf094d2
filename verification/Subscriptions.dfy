/** The two-part subscription index of src/navigator_eventbus/core.py: lists per exact topic and one
  * list of glob patterns. Glob patterns with character classes ('[') are not modelled.
  */
module Subscriptions {
  import opened Collections
  import opened Sorting

  datatype Subscription = Subscription(id: nat, pattern: string, priority: int)

  predicate IsGlob(pattern: string) {
    '*' in pattern || '?' in pattern
  }

  /** fnmatch: '*' stands for any text, '?' for any one character. */
  predicate Matches(pattern: string, topic: string)
    decreases |pattern| + |topic|
  {
    if pattern == "" then topic == ""
    else if pattern[0] == '*' then
      Matches(pattern[1..], topic) || (topic != "" && Matches(pattern, topic[1..]))
    else
      topic != "" && (pattern[0] == '?' || pattern[0] == topic[0]) && Matches(pattern[1..], topic[1..])
  }

  lemma {:induction false} ExactMatchesItself(pattern: string, topic: string)
    requires !IsGlob(pattern)
    ensures Matches(pattern, topic) <==> pattern == topic
  {
    if pattern != "" && topic != "" {
      assert !IsGlob(pattern[1..]) by {
        assert forall c :: c in pattern[1..] ==> c in pattern;
      }
      ExactMatchesItself(pattern[1..], topic[1..]);
      assert pattern[0] in pattern;
      assert pattern == [pattern[0]] + pattern[1..] && topic == [topic[0]] + topic[1..];
    } else if pattern != "" {
      assert pattern[0] in pattern;
    }
  }

  /** A star stands for some prefix of the rest of the topic. */
  lemma {:induction false} StarTakesSomePrefix(rest: string, topic: string)
    ensures Matches("*" + rest, topic) <==> exists k: nat :: k <= |topic| && Matches(rest, topic[k..])
    decreases |topic|
  {
    assert ("*" + rest)[1..] == rest;
    assert topic[0..] == topic;
    if topic != "" {
      StarTakesSomePrefix(rest, topic[1..]);
      forall k: nat | k <= |topic[1..]| ensures topic[1..][k..] == topic[k + 1..] {
      }
      if k: nat :| k <= |topic[1..]| && Matches(rest, topic[1..][k..]) {
        assert Matches(rest, topic[k + 1..]);
      }
      if k: nat :| k <= |topic| && Matches(rest, topic[k..]) && k > 0 {
        assert Matches(rest, topic[1..][k - 1..]);
      }
    }
  }

  /** What one pattern character may stand for. */
  predicate StandsFor(c: char, piece: string) {
    c == '*' || (|piece| == 1 && (c == '?' || piece == [c]))
  }

  function Concat(pieces: seq<string>): string {
    if pieces == [] then "" else pieces[0] + Concat(pieces[1..])
  }

  /** The topic falls into pieces, one for each character of the pattern. */
  ghost predicate FallsInto(pattern: string, topic: string, pieces: seq<string>) {
    && |pieces| == |pattern| && topic == Concat(pieces)
    && forall i :: 0 <= i < |pattern| ==> StandsFor(pattern[i], pieces[i])
  }

  lemma {:induction false} MatchFallsInto(pattern: string, topic: string) returns (pieces: seq<string>)
    requires Matches(pattern, topic)
    ensures FallsInto(pattern, topic, pieces)
    decreases |pattern| + |topic|
  {
    if pattern == "" {
      pieces := [];
    } else if pattern[0] == '*' && Matches(pattern[1..], topic) {
      pieces := MatchFallsInto(pattern[1..], topic);
      pieces := [""] + pieces;
    } else if pattern[0] == '*' {
      pieces := MatchFallsInto(pattern, topic[1..]);
      pieces := LongerFirst(topic[0], pieces);
    } else {
      pieces := MatchFallsInto(pattern[1..], topic[1..]);
      pieces := [[topic[0]]] + pieces;
    }
  }

  lemma LongerFirst(c: char, pieces: seq<string>) returns (longer: seq<string>)
    requires pieces != []
    ensures longer == [[c] + pieces[0]] + pieces[1..] && Concat(longer) == [c] + Concat(pieces)
  {
    longer := [[c] + pieces[0]] + pieces[1..];
    assert longer[1..] == pieces[1..];
    assert ([c] + pieces[0]) + Concat(pieces[1..]) == [c] + (pieces[0] + Concat(pieces[1..]));
  }

  lemma {:induction false} PiecesMatch(pattern: string, topic: string, pieces: seq<string>)
    requires FallsInto(pattern, topic, pieces)
    ensures Matches(pattern, topic)
    decreases |pattern| + |topic|
  {
    if pattern != "" {
      var first, rest := pieces[0], Concat(pieces[1..]);
      assert topic == first + rest;
      if pattern[0] == '*' && first != "" {
        var shorter := [first[1..]] + pieces[1..];
        assert shorter[1..] == pieces[1..];
        assert topic[1..] == first[1..] + rest;
        PiecesMatch(pattern, topic[1..], shorter);
      } else {
        assert FallsInto(pattern[1..], rest, pieces[1..]);
        PiecesMatch(pattern[1..], rest, pieces[1..]);
        assert topic[|first|..] == rest;
      }
    }
  }

  /** A topic matches if and only if it is made of pieces, one for each character of the pattern in turn:
    * any text for '*', any one character for '?', and the character itself for any other. */
  lemma MatchesIff(pattern: string, topic: string)
    ensures Matches(pattern, topic) <==> exists pieces :: FallsInto(pattern, topic, pieces)
  {
    if Matches(pattern, topic) {
      var pieces := MatchFallsInto(pattern, topic);
    }
    if pieces :| FallsInto(pattern, topic, pieces) {
      PiecesMatch(pattern, topic, pieces);
    }
  }

  // ---------------------------------------------------------------------
  // Delivery order
  // ---------------------------------------------------------------------

  function Position(history: seq<Subscription>, s: Subscription): nat {
    if history == [] || history[0] == s then 0 else 1 + Position(history[1..], s)
  }

  /** Higher priority first; then exact before glob; then in order of registration. */
  predicate Before(history: seq<Subscription>, a: Subscription, b: Subscription) {
    || a.priority > b.priority
    || (a.priority == b.priority && !IsGlob(a.pattern) && IsGlob(b.pattern))
    || (a.priority == b.priority && IsGlob(a.pattern) == IsGlob(b.pattern) &&
        Position(history, a) < Position(history, b))
  }

  ghost predicate Ordered(history: seq<Subscription>, subs: seq<Subscription>) {
    Pairwise(subs, (a: Subscription, b: Subscription) => Before(history, a, b))
  }

  /** The key of every sort in the program: descending priority. */
  predicate ByPriority(a: Subscription, b: Subscription) {
    a.priority >= b.priority
  }

  lemma {:induction false} PositionGrows(history: seq<Subscription>, s: Subscription, x: Subscription)
    ensures s in history ==> Position(history + [x], s) == Position(history, s) < |history|
    ensures s !in history ==> Position(history, s) == |history|
    ensures x !in history ==> Position(history + [x], x) == |history|
  {
    if history != [] {
      PositionGrows(history[1..], s, x);
      assert (history + [x])[1..] == history[1..] + [x];
    }
  }

  /** The order decides everything: a list of subscriptions in delivery order is fixed by its members. */
  lemma {:induction false} OrderedUnique(history: seq<Subscription>, a: seq<Subscription>, b: seq<Subscription>)
    requires Ordered(history, a) && Ordered(history, b)
    requires forall s :: s in a <==> s in b
    requires forall s :: s in a ==> s in history
    ensures a == b
  {
    assert b != [] ==> b[0] in a;
    if a != [] {
      assert a[0] in b;
      HeadFirst(history, a, b[0]);
      HeadFirst(history, b, a[0]);
      assert a[0] == b[0];
      forall s ensures s in a[1..] <==> s in b[1..] {
        NotLater(history, a, s);
        NotLater(history, b, s);
      }
      OrderedUnique(history, a[1..], b[1..]);
      assert a == [a[0]] + a[1..] && b == [b[0]] + b[1..];
    }
  }

  lemma HeadFirst(history: seq<Subscription>, a: seq<Subscription>, s: Subscription)
    requires Ordered(history, a) && s in a
    ensures s == a[0] || Before(history, a[0], s)
  {
    var i :| 0 <= i < |a| && a[i] == s;
  }

  lemma NotLater(history: seq<Subscription>, a: seq<Subscription>, s: Subscription)
    requires Ordered(history, a) && a != []
    ensures s in a[1..] <==> s in a && s != a[0]
  {
    if s in a[1..] {
      var i :| 0 <= i < |a[1..]| && a[1..][i] == s;
      assert Before(history, a[0], a[i + 1]);
    }
    if s in a && s != a[0] {
      var i :| 0 <= i < |a| && a[i] == s;
      assert a[1..][i - 1] == s;
    }
  }

  // ---------------------------------------------------------------------
  // The index
  // ---------------------------------------------------------------------

  ghost function Matching(live: set<Subscription>, topic: string): set<Subscription> {
    set s | s in live && Matches(s.pattern, topic)
  }

  lemma {:induction false} OrderedDistinct(history: seq<Subscription>, subs: seq<Subscription>)
    requires Ordered(history, subs)
    ensures Distinct(subs)
  {
    forall i, j | 0 <= i < j < |subs| ensures subs[i] != subs[j] {
      assert Before(history, subs[i], subs[j]);
    }
  }

  /** Sorting by priority alone puts a list into delivery order if equal priorities already were. */
  lemma SortsIntoOrder(history: seq<Subscription>, subs: seq<Subscription>)
    requires forall i, j :: 0 <= i < j < |subs| && subs[i].priority == subs[j].priority ==>
                              Before(history, subs[i], subs[j])
    ensures Ordered(history, Sort(subs, ByPriority))
    ensures forall s :: s in Sort(subs, ByPriority) <==> s in subs
  {
    SortPairwise(subs, ByPriority, (a: Subscription, b: Subscription) => Before(history, a, b));
    SameMembers(Sort(subs, ByPriority), subs);
  }

  /** A list holds, in delivery order, the live subscriptions the index keeps in it: those of one exact
    * pattern, or all globs. */
  ghost predicate Holds(history: seq<Subscription>, live: set<Subscription>, slot: Option<string>,
                        subs: seq<Subscription>) {
    && Ordered(history, subs)
    && forall s :: s in subs <==> s in live && SlotOf(s) == slot
  }

  /** None stands for the list of globs. */
  function SlotOf(s: Subscription): Option<string> {
    if IsGlob(s.pattern) then None else Some(s.pattern)
  }

  lemma OrderGrows(history: seq<Subscription>, subs: seq<Subscription>, x: Subscription)
    requires Ordered(history, subs) && x !in history && forall s :: s in subs ==> s in history
    ensures Ordered(history + [x], subs)
    ensures forall s :: s in subs ==> Position(history + [x], s) < Position(history + [x], x)
  {
    forall s | s in subs ensures Position(history + [x], s) == Position(history, s) < |history| {
      PositionGrows(history, s, x);
    }
    PositionGrows(history, x, x);
    forall i, j | 0 <= i < j < |subs| ensures Before(history + [x], subs[i], subs[j]) {
      assert subs[i] in subs && subs[j] in subs && Before(history, subs[i], subs[j]);
    }
  }

  /** A new registration leaves every other list alone. */
  lemma RegisterElsewhere(history: seq<Subscription>, live: set<Subscription>, slot: Option<string>,
                          subs: seq<Subscription>, x: Subscription)
    requires Holds(history, live, slot, subs) && x !in history && SlotOf(x) != slot
    requires forall s :: s in live ==> s in history
    ensures Holds(history + [x], live + {x}, slot, subs)
  {
    OrderGrows(history, subs, x);
  }

  /** In its own list it comes last among its equals. */
  lemma RegisterHere(history: seq<Subscription>, live: set<Subscription>, slot: Option<string>,
                     subs: seq<Subscription>, x: Subscription)
    requires Holds(history, live, slot, subs) && x !in history && SlotOf(x) == slot
    requires forall s :: s in live ==> s in history
    ensures Holds(history + [x], live + {x}, slot, Sort(subs + [x], ByPriority))
  {
    OrderGrows(history, subs, x);
    var all := subs + [x];
    forall i, j | 0 <= i < j < |all| && all[i].priority == all[j].priority
      ensures Before(history + [x], all[i], all[j])
    {
      assert all[i] in subs;
      if j < |subs| {
        assert Before(history + [x], subs[i], subs[j]);
      } else {
        assert SlotOf(all[i]) == SlotOf(x);
      }
    }
    SortsIntoOrder(history + [x], all);
  }

  lemma RemovalKeepsOrder(history: seq<Subscription>, subs: seq<Subscription>, n: nat)
    requires Ordered(history, subs) && n < |subs|
    ensures Ordered(history, subs[..n] + subs[n + 1..])
    ensures forall s :: s in subs[..n] + subs[n + 1..] <==> s in subs && s != subs[n]
  {
    OrderedDistinct(history, subs);
    var left := subs[..n] + subs[n + 1..];
    forall s | s in subs && s != subs[n] ensures s in left {
      var i :| 0 <= i < |subs| && subs[i] == s;
      assert i < n ==> left[i] == s;
      assert i > n ==> left[i - 1] == s;
    }
  }

  lemma RemoveHere(history: seq<Subscription>, live: set<Subscription>, slot: Option<string>,
                   subs: seq<Subscription>, n: nat)
    requires Holds(history, live, slot, subs) && n < |subs|
    ensures Holds(history, live - {subs[n]}, slot, subs[..n] + subs[n + 1..])
  {
    RemovalKeepsOrder(history, subs, n);
  }

  ghost predicate ExactOk(history: seq<Subscription>, live: set<Subscription>, exact: map<string, seq<Subscription>>) {
    && (forall p :: p in exact ==> !IsGlob(p) && Holds(history, live, Some(p), exact[p]))
    && (forall s :: s in live && !IsGlob(s.pattern) ==> s.pattern in exact)
  }

  lemma RegisterExact(history: seq<Subscription>, live: set<Subscription>, exact: map<string, seq<Subscription>>,
                      x: Subscription)
    requires ExactOk(history, live, exact) && x !in history && !IsGlob(x.pattern)
    requires forall s :: s in live ==> s in history
    ensures var subs := if x.pattern in exact then exact[x.pattern] else [];
            ExactOk(history + [x], live + {x}, exact[x.pattern := Sort(subs + [x], ByPriority)])
  {
    var subs := if x.pattern in exact then exact[x.pattern] else [];
    RegisterHere(history, live, Some(x.pattern), subs, x);
    var updated := exact[x.pattern := Sort(subs + [x], ByPriority)];
    forall p | p in updated ensures !IsGlob(p) && Holds(history + [x], live + {x}, Some(p), updated[p]) {
      if p != x.pattern {
        RegisterElsewhere(history, live, Some(p), exact[p], x);
      }
    }
    forall s | s in live + {x} && !IsGlob(s.pattern) ensures s.pattern in updated {
    }
  }

  lemma RegisterGlob(history: seq<Subscription>, live: set<Subscription>, exact: map<string, seq<Subscription>>,
                     x: Subscription)
    requires ExactOk(history, live, exact) && x !in history && IsGlob(x.pattern)
    requires forall s :: s in live ==> s in history
    ensures ExactOk(history + [x], live + {x}, exact)
  {
    forall p | p in exact ensures Holds(history + [x], live + {x}, Some(p), exact[p]) {
      RegisterElsewhere(history, live, Some(p), exact[p], x);
    }
  }

  class Index {
    var exact: map<string, seq<Subscription>>
    var globs: seq<Subscription>
    ghost var live: set<Subscription>
    ghost var history: seq<Subscription>

    ghost predicate Valid()
      reads this
    {
      && (forall s :: s in live ==> s in history)
      && (forall s, t :: s in live && t in live && s.id == t.id ==> s == t)
      && Holds(history, live, None, globs) && ExactOk(history, live, exact)
    }

    constructor ()
      ensures Valid() && live == {} && history == []
    {
      exact, globs, live, history := map[], [], {}, [];
    }

    /** The id is fresh, as a random UUID is taken to be. */
    method Subscribe(pattern: string, priority: int, id: nat)
      requires Valid() && forall s :: s in history ==> s.id != id
      requires IsGlob(pattern) ==> '[' !in pattern
      modifies this
      ensures Valid()
      ensures live == old(live) + {Subscription(id, pattern, priority)}
      ensures history == old(history) + [Subscription(id, pattern, priority)]
    {
      var s := Subscription(id, pattern, priority);
      if IsGlob(pattern) {
        AddGlob(s);
      } else {
        AddExact(s);
      }
    }

    method AddGlob(s: Subscription)
      requires Valid() && s !in history && (forall t :: t in live ==> t.id != s.id) && IsGlob(s.pattern)
      modifies this
      ensures Valid() && live == old(live) + {s} && history == old(history) + [s]
    {
      RegisterHere(history, live, None, globs, s);
      RegisterGlob(history, live, exact, s);
      globs := Sort(globs + [s], ByPriority);
      live, history := live + {s}, history + [s];
    }

    method AddExact(s: Subscription)
      requires Valid() && s !in history && (forall t :: t in live ==> t.id != s.id) && !IsGlob(s.pattern)
      modifies this
      ensures Valid() && live == old(live) + {s} && history == old(history) + [s]
    {
      RegisterElsewhere(history, live, None, globs, s);
      RegisterExact(history, live, exact, s);
      var subs := if s.pattern in exact then exact[s.pattern] else [];
      exact := exact[s.pattern := Sort(subs + [s], ByPriority)];
      live, history := live + {s}, history + [s];
    }

    /** The position of a subscription id in a list. */
    static method Find(subs: seq<Subscription>, id: nat) returns (n: nat)
      ensures n <= |subs| && (n < |subs| ==> subs[n].id == id) && forall k :: 0 <= k < n ==> subs[k].id != id
    {
      n := 0;
      while n < |subs| && subs[n].id != id
        invariant n <= |subs| && forall k :: 0 <= k < n ==> subs[k].id != id
      {
        n := n + 1;
      }
    }

    method Unsubscribe(id: nat) returns (found: bool)
      requires Valid()
      modifies this
      ensures Valid() && history == old(history)
      ensures found <==> exists s :: s in old(live) && s.id == id
      ensures live == set s | s in old(live) && s.id != id
    {
      var topics := exact.Keys;
      while topics != {}
        invariant Valid() && topics <= exact.Keys && unchanged(this)
        invariant forall s :: s in live && s.id == id && !IsGlob(s.pattern) ==> s.pattern in topics
        decreases topics
      {
        var p :| p in topics;
        var n := Find(exact[p], id);
        if n < |exact[p]| {
          RemoveExact(p, n);
          return true;
        }
        topics := topics - {p};
      }
      var n := Find(globs, id);
      if n < |globs| {
        RemoveGlob(n);
        return true;
      }
      found := false;
    }

    method RemoveExact(p: string, n: nat)
      requires Valid() && p in exact && n < |exact[p]|
      modifies this
      ensures Valid() && history == old(history) && live == old(live) - {old(exact)[p][n]}
    {
      var s := exact[p][n];
      RemoveHere(history, live, Some(p), exact[p], n);
      exact := exact[p := exact[p][..n] + exact[p][n + 1..]];
      live := live - {s};
    }

    method RemoveGlob(n: nat)
      requires Valid() && n < |globs|
      modifies this
      ensures Valid() && history == old(history) && live == old(live) - {old(globs)[n]}
    {
      var s := globs[n];
      RemoveHere(history, live, None, globs, n);
      globs := globs[..n] + globs[n + 1..];
      live := live - {s};
    }

    /** The globs that match, in their order. */
    method MatchingGlobs(topic: string) returns (subs: seq<Subscription>)
      requires Valid()
      ensures Ordered(history, subs)
      ensures forall s :: s in subs <==> s in live && IsGlob(s.pattern) && Matches(s.pattern, topic)
    {
      subs := [];
      ghost var places: seq<nat> := [];
      for i := 0 to |globs|
        invariant |places| == |subs| && forall k :: 0 <= k < |subs| ==> places[k] < i && globs[places[k]] == subs[k]
        invariant forall k, l :: 0 <= k < l < |subs| ==> places[k] < places[l]
        invariant forall s :: s in subs <==> s in globs[..i] && Matches(s.pattern, topic)
      {
        assert globs[..i + 1] == globs[..i] + [globs[i]];
        if Matches(globs[i].pattern, topic) {
          subs, places := subs + [globs[i]], places + [i];
        }
      }
      assert globs[..|globs|] == globs;
    }

    /** The subscriptions to call for a topic. They are exactly the live ones that match, by descending
      * priority, exact patterns before globs among equals, then in order of registration. */
    method MatchingSubscriptions(topic: string) returns (subs: seq<Subscription>)
      requires Valid()
      ensures Ordered(history, subs)
      ensures forall s :: s in subs <==> s in Matching(live, topic)
      ensures |subs| == |Matching(live, topic)|
    {
      var exactly := if topic in exact then exact[topic] else [];
      var globbing := MatchingGlobs(topic);
      var all := exactly + globbing;
      ExactFirst(history, live, topic, exactly, globbing);
      subs := Sort(all, ByPriority);
    }

    method MatchCount(topic: string) returns (count: nat)
      requires Valid()
      ensures count == |Matching(live, topic)|
    {
      var exactly := if topic in exact then exact[topic] else [];
      var globbing := MatchingGlobs(topic);
      ExactFirst(history, live, topic, exactly, globbing);
      count := |exactly| + |globbing|;
    }
  }

  /** The two parts of the index, one after the other, sort into the delivery order. */
  lemma ExactFirst(history: seq<Subscription>, live: set<Subscription>, topic: string,
                   exactly: seq<Subscription>, globbing: seq<Subscription>)
    requires Ordered(history, exactly) && Ordered(history, globbing)
    requires forall s :: s in exactly <==> s in live && !IsGlob(s.pattern) && s.pattern == topic
    requires forall s :: s in globbing <==> s in live && IsGlob(s.pattern) && Matches(s.pattern, topic)
    ensures var subs := Sort(exactly + globbing, ByPriority);
            && Ordered(history, subs)
            && (forall s :: s in subs <==> s in Matching(live, topic))
            && |subs| == |exactly| + |globbing| == |Matching(live, topic)|
  {
    var all := exactly + globbing;
    forall i, j | 0 <= i < j < |all| && all[i].priority == all[j].priority ensures Before(history, all[i], all[j]) {
      assert i < |exactly| ==> all[i] in exactly;
      assert j >= |exactly| ==> all[j] in globbing;
      if j < |exactly| {
        assert Before(history, exactly[i], exactly[j]);
      } else if i >= |exactly| {
        assert Before(history, globbing[i - |exactly|], globbing[j - |exactly|]);
      }
    }
    SortsIntoOrder(history, all);
    var subs := Sort(all, ByPriority);
    forall s ensures s in subs <==> s in Matching(live, topic) {
      assert s in subs <==> s in exactly || s in globbing;
      if s in live && !IsGlob(s.pattern) {
        ExactMatchesItself(s.pattern, topic);
      }
    }
    OrderedDistinct(history, subs);
    DistinctCard(subs);
    assert Elements(subs) == Matching(live, topic);
  }
}
