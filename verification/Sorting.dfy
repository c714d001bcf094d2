/** A stable sort, standing for the built-in sort the program calls, and what it guarantees. */
module Sorting {

  ghost predicate TotalPreorder<T(!new)>(leq: (T, T) -> bool) {
    && (forall x, y :: leq(x, y) || leq(y, x))
    && (forall x, y, z :: leq(x, y) && leq(y, z) ==> leq(x, z))
  }

  /** Every element stands in the relation to every later one. */
  ghost predicate Pairwise<T>(s: seq<T>, rel: (T, T) -> bool) {
    forall i, j :: 0 <= i < j < |s| ==> rel(s[i], s[j])
  }

  function Insert<T>(x: T, s: seq<T>, leq: (T, T) -> bool): (r: seq<T>)
    ensures multiset(r) == multiset(s) + multiset{x}
  {
    if s == [] then [x]
    else
      assert s == s[..|s| - 1] + [s[|s| - 1]];
      if leq(s[|s| - 1], x) then s + [x] else Insert(x, s[..|s| - 1], leq) + [s[|s| - 1]]
  }

  function Sort<T>(s: seq<T>, leq: (T, T) -> bool): (r: seq<T>)
    ensures multiset(r) == multiset(s) && |r| == |s|
  {
    if s == [] then []
    else
      assert s == s[..|s| - 1] + [s[|s| - 1]];
      var r := Insert(s[|s| - 1], Sort(s[..|s| - 1], leq), leq);
      assert |r| == |multiset(r)|;
      r
  }

  lemma SameMembers<T>(a: seq<T>, b: seq<T>)
    requires multiset(a) == multiset(b)
    ensures forall x :: x in a <==> x in b
  {
    forall x ensures x in a <==> x in b {
      assert x in a <==> x in multiset(a);
      assert x in b <==> x in multiset(b);
    }
  }

  lemma {:induction false} InsertPairwise<T(!new)>(x: T, s: seq<T>, leq: (T, T) -> bool, rel: (T, T) -> bool)
    requires TotalPreorder(leq) && Pairwise(s, leq) && Pairwise(s, rel)
    requires forall a, b :: leq(a, b) && !leq(b, a) ==> rel(a, b)
    requires forall y :: y in s && leq(x, y) && leq(y, x) ==> rel(y, x)
    ensures Pairwise(Insert(x, s, leq), rel)
  {
    if s != [] {
      var init, last := s[..|s| - 1], s[|s| - 1];
      if leq(last, x) {
        forall i | 0 <= i < |s| ensures rel(s[i], x) {
          assert i < |s| - 1 ==> leq(s[i], last);
        }
      } else {
        InsertPairwise(x, init, leq, rel);
        var t := Insert(x, init, leq);
        SameMembers(t, init + [x]);
        forall i | 0 <= i < |t| ensures rel(t[i], last) {
          assert t[i] in init + [x];
        }
      }
    }
  }

  /** The sort is ordered and stable: any relation that holds between strictly ordered elements,
    * and between tied elements in their original order, holds pairwise afterwards. */
  lemma {:induction false} SortPairwise<T(!new)>(s: seq<T>, leq: (T, T) -> bool, rel: (T, T) -> bool)
    requires TotalPreorder(leq)
    requires forall a, b :: leq(a, b) && !leq(b, a) ==> rel(a, b)
    requires forall i, j :: 0 <= i < j < |s| && leq(s[i], s[j]) && leq(s[j], s[i]) ==> rel(s[i], s[j])
    ensures Pairwise(Sort(s, leq), rel)
  {
    if s != [] {
      var init, last := s[..|s| - 1], s[|s| - 1];
      SortPairwise(init, leq, rel);
      SortOrdered(init, leq);
      SameMembers(Sort(init, leq), init);
      InsertPairwise(last, Sort(init, leq), leq, rel);
    }
  }

  lemma {:induction false} SortOrdered<T(!new)>(s: seq<T>, leq: (T, T) -> bool)
    requires TotalPreorder(leq)
    ensures Pairwise(Sort(s, leq), leq)
  {
    if s != [] {
      var init, last := s[..|s| - 1], s[|s| - 1];
      SortOrdered(init, leq);
      InsertPairwise(last, Sort(init, leq), leq, leq);
    }
  }
}
