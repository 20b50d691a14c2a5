/** Listing the keys of a Go map. Go leaves map iteration order unspecified,
    so a listing is any sequence holding every key exactly once. */
module Regions {

  predicate NoDup<T(==)>(s: seq<T>)
  {
    forall i, j :: 0 <= i < j < |s| ==> s[i] != s[j]
  }

  /** `s` lists the members of `keys`, each once, in some order. */
  predicate IsEnumeration<T(==)>(s: seq<T>, keys: set<T>)
  {
    && NoDup(s)
    && (forall k :: k in s ==> k in keys)
    && (forall k :: k in keys ==> k in s)
  }

  /** A listing is exactly as long as the set it lists. */
  lemma {:induction false} EnumerationSize<T>(s: seq<T>, keys: set<T>)
    requires IsEnumeration(s, keys)
    ensures |s| == |keys|
    decreases |s|
  {
    if |s| == 0 {
      assert forall k :: k !in keys;
      assert keys == {};
    } else {
      var x := s[|s| - 1];
      var init := s[..|s| - 1];
      assert s == init + [x];
      forall k | k in init
        ensures k in keys - {x}
      {
        var i :| 0 <= i < |init| && init[i] == k;
        assert s[i] == k && i < |s| - 1;
      }
      forall k | k in keys - {x}
        ensures k in init
      {
        assert k in s;
      }
      EnumerationSize(init, keys - {x});
      assert |keys - {x}| == |keys| - 1;
    }
  }

  /** In a sequence without duplicates every member occurs exactly once. */
  lemma {:induction false} NoDupOccursOnce<T>(s: seq<T>)
    requires NoDup(s)
    ensures forall k :: k in s ==> multiset(s)[k] == 1
    decreases |s|
  {
    if |s| > 0 {
      var x := s[|s| - 1];
      var init := s[..|s| - 1];
      assert s == init + [x];
      assert multiset(s) == multiset(init) + multiset{x};
      NoDupOccursOnce(init);
    }
  }

  /** The `for region := range m { regions = append(regions, region) }`
      loop: each iteration appends a key not yet visited, in an order the
      caller cannot predict. */
  method EnumerateKeys<V>(m: map<string, V>) returns (keys: seq<string>)
    ensures IsEnumeration(keys, m.Keys)
  {
    keys := [];
    var unvisited := m.Keys;
    while unvisited != {}
      invariant unvisited <= m.Keys
      invariant NoDup(keys)
      invariant forall k :: k in keys ==> k in m.Keys && k !in unvisited
      invariant forall k :: k in m.Keys ==> k in keys || k in unvisited
      decreases unvisited
    {
      var k :| k in unvisited;
      keys := keys + [k];
      unvisited := unvisited - {k};
    }
  }
}
