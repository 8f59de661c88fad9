/**
 * A Swift `Dictionary` as the decoders fill it: a list of key/value pairs
 * in which each key occurs once, read and written through the subscript.
 * The order of the pairs is insertion order; Swift's own iteration order
 * is unspecified and plays no part here.
 */
module Dictionaries {
  import opened Wrappers

  /** `self[key]`: the value stored for a key. */
  function Lookup<K(==), V>(entries: seq<(K, V)>, k: K): (r: Option<V>)
    ensures r.Some? <==> exists i :: 0 <= i < |entries| && entries[i].0 == k
  {
    if entries == [] then None
    else if entries[0].0 == k then Some(entries[0].1)
    else
      var r := Lookup(entries[1..], k);
      assert forall i :: 1 <= i < |entries| ==> entries[i] == entries[1..][i - 1];
      r
  }

  /** No key occurs twice. */
  predicate DistinctKeys<K(==), V>(entries: seq<(K, V)>)
  {
    forall i, j :: 0 <= i < j < |entries| ==> entries[i].0 != entries[j].0
  }

  /** `self[key] = value`: a new key is added, an existing one gets the new value. */
  function Assign<K(==), V>(entries: seq<(K, V)>, k: K, v: V): (r: seq<(K, V)>)
    ensures |r| == |entries| || |r| == |entries| + 1
    ensures |r| == |entries| + 1 <==> Lookup(entries, k).None?
    ensures forall i :: 0 <= i < |r| ==> r[i] == (k, v) || r[i] in entries
  {
    if entries == [] then [(k, v)]
    else if entries[0].0 == k then [(k, v)] + entries[1..]
    else
      var rest := Assign(entries[1..], k, v);
      var r := [entries[0]] + rest;
      assert forall i :: 1 <= i < |r| ==> r[i] == rest[i - 1];
      r
  }

  /** After the assignment the key reads the new value and every other key what it read before. */
  lemma {:induction false} AssignLookup<K, V>(entries: seq<(K, V)>, k: K, v: V, other: K)
    ensures Lookup(Assign(entries, k, v), k) == Some(v)
    ensures other != k ==> Lookup(Assign(entries, k, v), other) == Lookup(entries, other)
  {
    if entries != [] && entries[0].0 != k {
      AssignLookup(entries[1..], k, v, other);
      assert Assign(entries, k, v)[1..] == Assign(entries[1..], k, v);
    }
  }

  /** Assigning never makes a key occur twice. */
  lemma {:induction false} AssignDistinct<K, V>(entries: seq<(K, V)>, k: K, v: V)
    requires DistinctKeys(entries)
    ensures DistinctKeys(Assign(entries, k, v))
  {
    if entries != [] && entries[0].0 != k {
      var rest := entries[1..];
      AssignDistinct(rest, k, v);
      var r := Assign(entries, k, v);
      assert r[1..] == Assign(rest, k, v);
      forall j | 1 <= j < |r|
        ensures r[0].0 != r[j].0
      {
        assert r[j] == r[1..][j - 1];
        if r[j].0 != k {
          var jj :| 0 <= jj < |rest| && r[1..][j - 1] == rest[jj];
          assert rest[jj] == entries[jj + 1];
        }
      }
    }
  }
}
