/**
 * SystemdBusDictRepresentable.swift: the dict entry whose equality and
 * hash look only at the key, the dictionary built from a set of such
 * entries, and the dictionary's `forEach`.
 *
 * A Swift `Set` of entries is modelled as a sequence in which no two
 * entries are equal under that key-only equality.
 */
module DictRepresentable {
  import opened Wrappers

  datatype DictEntry<K, V> = DictEntry(key: K, value: V)

  /** `==`: two entries are equal when their keys are; the values are not compared. */
  predicate EntryEquals<K(==), V>(a: DictEntry<K, V>, b: DictEntry<K, V>)
  {
    a.key == b.key
  }

  /** `hash(into:)`: only the key is fed to the hasher (`hashKey` stands for the key's own hash). */
  function EntryHash<K, V>(e: DictEntry<K, V>, hashKey: K -> int): int
  {
    hashKey(e.key)
  }

  /** Equal entries hash alike, and the equality is an equivalence whatever the values. */
  lemma EqualEntriesHashAlike<K, V>(a: DictEntry<K, V>, b: DictEntry<K, V>, c: DictEntry<K, V>, hashKey: K -> int)
    ensures EntryEquals(a, b) ==> EntryHash(a, hashKey) == EntryHash(b, hashKey)
    ensures EntryEquals(a, a)
    ensures EntryEquals(a, b) ==> EntryEquals(b, a)
    ensures EntryEquals(a, b) && EntryEquals(b, c) ==> EntryEquals(a, c)
    ensures EntryEquals(a, a.(value := b.value))
  {
  }

  /** A `Set` of entries: no two members are equal, that is no key occurs twice. */
  predicate IsEntrySet<K(==), V>(s: seq<DictEntry<K, V>>)
  {
    forall i, j :: 0 <= i < j < |s| ==> !EntryEquals(s[i], s[j])
  }

  /** `Set.insert`: an entry equal to a member is not added, so the first value for a key stays. */
  function Insert<K(==), V>(s: seq<DictEntry<K, V>>, e: DictEntry<K, V>): (r: seq<DictEntry<K, V>>)
    ensures IsEntrySet(s) ==> IsEntrySet(r)
    ensures (exists i :: 0 <= i < |s| && EntryEquals(s[i], e)) ==> r == s
    ensures (forall i :: 0 <= i < |s| ==> !EntryEquals(s[i], e)) ==> r == s + [e]
  {
    if exists i :: 0 <= i < |s| && EntryEquals(s[i], e) then s else s + [e]
  }

  /** The keys of a list of pairs. */
  function Keys<K(==), V>(pairs: seq<(K, V)>): set<K>
  {
    set i | 0 <= i < |pairs| :: pairs[i].0
  }

  /**
   * `Dictionary(uniqueKeysWithValues:)`, pair by pair: a key seen before
   * stops the program.
   */
  function UniqueKeysWithValues<K(==), V>(pairs: seq<(K, V)>): (r: Outcome<map<K, V>, ()>)
    ensures r.Ok? ==> r.value.Keys == Keys(pairs)
    ensures !r.Fail?
    decreases |pairs|
  {
    if pairs == [] then Ok(map[])
    else
      var last := pairs[|pairs| - 1];
      var front := UniqueKeysWithValues(pairs[..|pairs| - 1]);
      if !front.Ok? || last.0 in front.value then Trap
      else
        assert Keys(pairs) == Keys(pairs[..|pairs| - 1]) + {last.0};
        Ok(front.value[last.0 := last.1])
  }

  /** The (key, value) pairs `init(setOfDictEntries:)` maps the entries to. */
  function Pairs<K, V>(s: seq<DictEntry<K, V>>): (pairs: seq<(K, V)>)
    ensures |pairs| == |s|
    ensures forall i :: 0 <= i < |s| ==> pairs[i] == (s[i].key, s[i].value)
  {
    if s == [] then [] else Pairs(s[..|s| - 1]) + [(s[|s| - 1].key, s[|s| - 1].value)]
  }

  /** `init(setOfDictEntries:)`: the entries mapped to (key, value) pairs, then `uniqueKeysWithValues`. */
  function FromEntrySet<K(==), V>(s: seq<DictEntry<K, V>>): Outcome<map<K, V>, ()>
  {
    UniqueKeysWithValues(Pairs(s))
  }

  /** Pairs whose keys are distinct never trap, and each key maps to its own pair's value. */
  lemma {:induction false} DistinctKeysBuildMap<K, V>(pairs: seq<(K, V)>)
    requires forall i, j :: 0 <= i < j < |pairs| ==> pairs[i].0 != pairs[j].0
    ensures UniqueKeysWithValues(pairs).Ok?
    ensures |UniqueKeysWithValues(pairs).value.Keys| == |pairs|
    ensures forall i :: 0 <= i < |pairs| ==>
              pairs[i].0 in UniqueKeysWithValues(pairs).value && UniqueKeysWithValues(pairs).value[pairs[i].0] == pairs[i].1
    decreases |pairs|
  {
    if pairs != [] {
      var front := pairs[..|pairs| - 1];
      var last := pairs[|pairs| - 1];
      DistinctKeysBuildMap(front);
      var m := UniqueKeysWithValues(front).value;
      assert last.0 !in m by {
        forall i | 0 <= i < |front|
          ensures front[i].0 != last.0
        {
          assert front[i] == pairs[i];
        }
      }
      var extended := m[last.0 := last.1];
      assert UniqueKeysWithValues(pairs) == Ok(extended);
      assert extended.Keys == m.Keys + {last.0};
      forall i | 0 <= i < |pairs|
        ensures pairs[i].0 in extended && extended[pairs[i].0] == pairs[i].1
      {
        if i < |front| {
          assert pairs[i] == front[i];
        }
      }
    }
  }

  /**
   * The keys of a set's entries are distinct, so building the dictionary
   * never traps; it has one key per entry, mapped to that entry's value.
   */
  lemma FromEntrySetBuildsMap<K, V>(s: seq<DictEntry<K, V>>)
    requires IsEntrySet(s)
    ensures FromEntrySet(s).Ok?
    ensures |FromEntrySet(s).value.Keys| == |s|
    ensures forall i :: 0 <= i < |s| ==> s[i].key in FromEntrySet(s).value && FromEntrySet(s).value[s[i].key] == s[i].value
  {
    DistinctKeysBuildMap(Pairs(s));
  }

  /**
   * `forEach`: the block is called once per pair, in the dictionary's
   * (unspecified) order, until it throws. `throws` says which calls throw;
   * the result is the calls made and whether the last one threw.
   */
  method ForEach<K(==), V>(d: map<K, V>, throws: (K, V) -> bool) returns (calls: seq<(K, V)>, threw: bool)
    ensures forall i :: 0 <= i < |calls| ==> calls[i].0 in d && calls[i].1 == d[calls[i].0]
    ensures forall i, j :: 0 <= i < j < |calls| ==> calls[i].0 != calls[j].0
    ensures forall i :: 0 <= i < |calls| - 1 ==> !throws(calls[i].0, calls[i].1)
    ensures threw <==> calls != [] && throws(calls[|calls| - 1].0, calls[|calls| - 1].1)
    ensures !threw ==> |calls| == |d.Keys| && forall k :: k in d ==> (k, d[k]) in calls
  {
    calls := [];
    threw := false;
    var todo := d.Keys;
    while todo != {}
      invariant todo <= d.Keys
      invariant |calls| + |todo| == |d.Keys|
      invariant forall i :: 0 <= i < |calls| ==> calls[i].0 in d - todo && calls[i].1 == d[calls[i].0]
      invariant forall i, j :: 0 <= i < j < |calls| ==> calls[i].0 != calls[j].0
      invariant forall i :: 0 <= i < |calls| ==> !throws(calls[i].0, calls[i].1)
      invariant forall k :: k in d.Keys - todo ==> (k, d[k]) in calls
      decreases |todo|
    {
      var k :| k in todo;
      calls := calls + [(k, d[k])];
      if throws(k, d[k]) {
        threw := true;
        return;
      }
      todo := todo - {k};
    }
  }
}
