/** Sequence and map helpers that stand for the Java stream operations of the source. */
module Collections {

  /** The elements of `s` that satisfy `p`, in their order in `s` (a stream `filter`). */
  function Filter<T(!new)>(s: seq<T>, p: T -> bool): (r: seq<T>)
    ensures |r| <= |s|
    ensures forall x :: x in r <==> x in s && p(x)
    decreases |s|
  {
    if s == [] then []
    else
      assert s == s[..|s| - 1] + [s[|s| - 1]];
      Filter(s[..|s| - 1], p) + (if p(s[|s| - 1]) then [s[|s| - 1]] else [])
  }

  /** Filtering a list with one more element at the end filters the list and then keeps or
      drops that element: with `Filter([], p) == []` this fixes order and multiplicity. */
  lemma FilterAppend<T(!new)>(s: seq<T>, x: T, p: T -> bool)
    ensures Filter(s + [x], p) == Filter(s, p) + (if p(x) then [x] else [])
  {
    assert (s + [x])[..|s|] == s;
  }

  /** No two elements of `s` have the same key. */
  predicate DistinctKeys<K(==), V>(s: seq<V>, key: V -> K) {
    forall i, j :: 0 <= i < j < |s| ==> key(s[i]) != key(s[j])
  }

  /** `Collectors.toMap(key, v -> v)`, which throws on a repeated key: hence the precondition. */
  function ToMap<K(==,!new), V>(s: seq<V>, key: V -> K): (m: map<K, V>)
    requires DistinctKeys(s, key)
    ensures forall k :: k in m <==> exists j :: 0 <= j < |s| && key(s[j]) == k
    ensures forall j :: 0 <= j < |s| ==> key(s[j]) in m && m[key(s[j])] == s[j]
    decreases |s|
  {
    if s == [] then map[]
    else ToMap(s[..|s| - 1], key)[key(s[|s| - 1]) := s[|s| - 1]]
  }
}
