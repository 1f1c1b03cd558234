/** Python dictionaries: finite maps that remember the order in which their keys were inserted. */
module OrderedDicts {

  /** No key occurs twice in `s`. */
  ghost predicate Distinct<K>(s: seq<K>) {
    forall i, j :: 0 <= i < j < |s| ==> s[i] != s[j]
  }

  /** `s` without the occurrences of `k`, in the same order. */
  function Without<K(==,!new)>(s: seq<K>, k: K): (r: seq<K>)
    ensures forall x :: x in r <==> x in s && x != k
    ensures Distinct(s) ==> Distinct(r)
    ensures k !in s ==> r == s
  {
    if s == [] then []
    else if s[0] == k then Without(s[1..], k)
    else
      var rest := Without(s[1..], k);
      assert Distinct(s) ==> s[0] !in s[1..] && Distinct(s[1..]);
      [s[0]] + rest
  }

  /** Removing the element at position i of a distinct sequence closes the gap: the other
      elements keep their order. */
  lemma {:induction false} WithoutAt<K(!new)>(s: seq<K>, i: nat)
    requires Distinct(s) && i < |s|
    ensures Without(s, s[i]) == s[..i] + s[i + 1..]
  {
    if i == 0 {
      assert s[0] !in s[1..];
      assert s[..0] + s[1..] == s[1..];
    } else {
      assert Distinct(s[1..]);
      WithoutAt(s[1..], i - 1);
      assert s[1..][i - 1] == s[i] && s[0] != s[i];
      assert s[1..][..i - 1] == s[1..i];
      assert s[1..][i..] == s[i + 1..];
      assert [s[0]] + s[1..i] == s[..i];
    }
  }

  /** A distinct sequence has as many elements as the set of its elements. */
  lemma {:induction false} DistinctCardinality<K>(s: seq<K>)
    requires Distinct(s)
    ensures |set x | x in s| == |s|
  {
    if s != [] {
      DistinctCardinality(s[1..]);
      var rest := set x | x in s[1..];
      assert (set x | x in s) == {s[0]} + rest;
      assert s[0] !in rest;
    }
  }

  /** The dictionary: `keys` holds the iteration order, `entries` the key-value pairs. */
  datatype ODict<K(!new), V> = ODict(keys: seq<K>, entries: map<K, V>) {

    ghost predicate Valid() {
      && Distinct(keys)
      && (forall k :: k in entries <==> k in keys)
    }

    /** `d[k] = v`: a new key goes to the end of the order, an existing one keeps its place. */
    function Put(k: K, v: V): (d: ODict<K, V>)
      requires Valid()
      ensures d.Valid()
      ensures d.entries == entries[k := v]
      ensures k in entries ==> d.keys == keys
      ensures k !in entries ==> d.keys == keys + [k]
    {
      if k in entries then ODict(keys, entries[k := v]) else ODict(keys + [k], entries[k := v])
    }

    /** `d.pop(k)` of a present key: the other keys keep their order and values. */
    function Remove(k: K): (d: ODict<K, V>)
      requires Valid()
      ensures d.Valid()
      ensures d.entries.Keys == entries.Keys - {k}
      ensures forall x :: x in d.entries ==> d.entries[x] == entries[x]
      ensures d.keys == Without(keys, k)
    {
      ODict(Without(keys, k), entries - {k})
    }

    /** `pop` of a stored key takes it out of the iteration order and leaves the other keys in
        their order. */
    lemma RemoveKeepsOrder(k: K)
      requires Valid() && k in entries
      ensures exists i :: 0 <= i < |keys| && keys[i] == k && Remove(k).keys == keys[..i] + keys[i + 1..]
    {
      var i :| 0 <= i < |keys| && keys[i] == k;
      WithoutAt(keys, i);
    }

    /** `len(d)` is the number of keys in iteration order. */
    lemma SizeIsLength()
      requires Valid()
      ensures |entries| == |keys|
    {
      DistinctCardinality(keys);
      assert entries.Keys == set x | x in keys;
    }
  }
}
