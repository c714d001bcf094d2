/** Small facts about finite collections, shared by the other modules. */
module Collections {

  datatype Option<+T> = None | Some(value: T)

  /** The id of an event envelope. */
  datatype EventId = EventId(text: string)

  function Min(a: nat, b: nat): nat {
    if a < b then a else b
  }

  ghost predicate Distinct<T>(s: seq<T>) {
    forall i, j :: 0 <= i < j < |s| ==> s[i] != s[j]
  }

  ghost function Elements<T>(s: seq<T>): set<T> {
    set x | x in s
  }

  lemma ElementsAppend<T>(s: seq<T>, x: T)
    ensures Elements(s + [x]) == Elements(s) + {x}
  {
  }

  lemma {:induction false} DistinctCard<T>(s: seq<T>)
    requires Distinct(s)
    ensures |Elements(s)| == |s|
  {
    if s == [] {
      assert Elements(s) == {};
    } else {
      var rest, last := s[..|s| - 1], s[|s| - 1];
      DistinctCard(rest);
      assert s == rest + [last];
      assert last !in rest;
      ElementsAppend(rest, last);
    }
  }

  /** The converse: as many elements as places means no repetition. */
  lemma {:induction false} CardDistinct<T>(s: seq<T>)
    ensures |Elements(s)| <= |s|
    ensures |Elements(s)| == |s| ==> Distinct(s)
  {
    if s == [] {
      assert Elements(s) == {};
    } else {
      var rest, last := s[..|s| - 1], s[|s| - 1];
      CardDistinct(rest);
      assert s == rest + [last];
      ElementsAppend(rest, last);
      if last in Elements(rest) {
        assert Elements(s) == Elements(rest);
      }
    }
  }

  lemma {:induction false} SubsetCard<T>(a: set<T>, b: set<T>)
    requires a <= b
    ensures |a| <= |b|
    ensures |a| == |b| ==> a == b
  {
    if a != {} {
      var x :| x in a;
      SubsetCard(a - {x}, b - {x});
    }
  }

  /** A sequence longer than the set it draws from visits some element twice. */
  lemma {:induction false} Pigeonhole<T>(s: seq<T>, bound: set<T>) returns (i: nat, j: nat)
    requires Elements(s) <= bound && |s| > |bound|
    ensures i < j < |s| && s[i] == s[j]
  {
    if Distinct(s) {
      DistinctCard(s);
      SubsetCard(Elements(s), bound);
      assert false;
    }
    i, j :| 0 <= i < j < |s| && s[i] == s[j];
  }

  ghost predicate Injective<K, V>(m: map<K, V>) {
    forall e | e in m :: forall f | f in m && f != e :: m[e] != m[f]
  }

  /** A map that never repeats a value has as many values as keys. */
  lemma {:induction false} InjectiveCard<K, V>(m: map<K, V>)
    requires Injective(m)
    ensures |m.Values| == |m.Keys|
    decreases |m.Keys|
  {
    if e :| e in m {
      var rest := m - {e};
      InjectiveCard(rest);
      assert m.Keys == rest.Keys + {e};
      forall v ensures v in m.Values <==> v in rest.Values || v == m[e] {
        if v in m.Values {
          var k :| k in m && m[k] == v;
          assert k != e ==> k in rest && rest[k] == v;
        }
        if v in rest.Values {
          var k :| k in rest && rest[k] == v;
          assert m[k] == v;
        }
      }
      assert m.Values == rest.Values + {m[e]};
    } else {
      assert m.Keys == {} && m.Values == {};
    }
  }

  lemma KeyOf<K, V>(m: map<K, V>, v: V) returns (k: K)
    requires v in m.Values
    ensures k in m && m[k] == v
  {
    k :| k in m && m[k] == v;
  }

  /** A map that never repeats a value hits no more values than it has keys, and no fewer. */
  lemma InjectiveBounds<K, V>(m: map<K, V>, keys: set<K>, values: set<V>)
    requires Injective(m)
    ensures values <= m.Values && m.Keys <= keys ==> |values| <= |keys|
    ensures keys <= m.Keys && m.Values <= values ==> |keys| <= |values|
  {
    InjectiveCard(m);
    if values <= m.Values && m.Keys <= keys {
      SubsetCard(values, m.Values);
      SubsetCard(m.Keys, keys);
    }
    if keys <= m.Keys && m.Values <= values {
      SubsetCard(keys, m.Keys);
      SubsetCard(m.Values, values);
    }
  }

  lemma ValuesOfUpdate<K, V>(m: map<K, V>, k: K, v: V)
    requires k !in m
    ensures m[k := v].Values == m.Values + {v}
  {
    var m' := m[k := v];
    forall x | x in m.Values + {v} ensures x in m'.Values {
      if x in m.Values {
        var j :| j in m && m[j] == x;
        assert m'[j] == x;
      } else {
        assert m'[k] == x;
      }
    }
  }
}
