/** java.util.TreeMap<String, V> as a list of entries kept in strictly ascending key order.
    Iterating `values()` or `keySet()` walks the list from the front. */
module SortedMaps {
  import opened Wrappers
  import opened Strings

  datatype Entry<V> = Entry(key: string, value: V)

  /** Keys strictly ascending under `compareTo`: the TreeMap invariant (and so no key twice). */
  predicate Sorted<V>(m: seq<Entry<V>>)
  {
    forall i, j :: 0 <= i < j < |m| ==> Less(m[i].key, m[j].key)
  }

  /** `values()`, in key order. */
  function Values<V>(m: seq<Entry<V>>): seq<V>
  {
    seq(|m|, i requires 0 <= i < |m| => m[i].value)
  }

  /** `keySet()`, in key order. */
  function Keys<V>(m: seq<Entry<V>>): seq<string>
  {
    seq(|m|, i requires 0 <= i < |m| => m[i].key)
  }

  /** `get(k)`: the value stored under `k`, or None (Java's null). */
  function Get<V>(m: seq<Entry<V>>, k: string): (r: Option<V>)
    ensures r.None? <==> forall i :: 0 <= i < |m| ==> m[i].key != k
    ensures r.Some? ==> exists i :: 0 <= i < |m| && m[i] == Entry(k, r.value)
  {
    if m == [] then None
    else if m[0].key == k then Some(m[0].value)
    else
      var r := Get(m[1..], k);
      assert forall i :: 1 <= i < |m| ==> m[i] == m[1..][i - 1];
      r
  }

  /** In a sorted map every entry is the one `get` finds for its key. */
  lemma GetEntry<V>(m: seq<Entry<V>>, i: int)
    requires Sorted(m) && 0 <= i < |m|
    ensures Get(m, m[i].key) == Some(m[i].value)
  {
    var r := Get(m, m[i].key);
    var j :| 0 <= j < |m| && m[j] == Entry(m[i].key, r.value);
    if j != i {
      LessIrreflexive(m[i].key);
    }
  }

  /** `put(k, v)`: replaces the entry for `k` or inserts one in key order; no other entry changes. */
  function Put<V>(m: seq<Entry<V>>, k: string, v: V): (r: seq<Entry<V>>)
    requires Sorted(m)
    ensures Sorted(r)
    ensures Entry(k, v) in r
    ensures forall e :: e in r ==> e in m || e == Entry(k, v)
    ensures forall e :: e in m && e.key != k ==> e in r
  {
    if m == [] then [Entry(k, v)]
    else if m[0].key == k then [Entry(k, v)] + m[1..]
    else if Less(k, m[0].key) then
      forall j | 0 < j < |m| ensures Less(k, m[j].key) {
        LessTransitive(k, m[0].key, m[j].key);
      }
      [Entry(k, v)] + m
    else
      LessTotal(k, m[0].key);
      var rest := Put(m[1..], k, v);
      assert forall e :: e in m[1..] ==> Less(m[0].key, e.key);
      assert forall e :: e in m ==> e == m[0] || e in m[1..];
      [m[0]] + rest
  }

  /** After `put(k, v)` the map answers `v` for `k` and what it answered before for every other key. */
  lemma PutGet<V>(m: seq<Entry<V>>, k: string, v: V, k': string)
    requires Sorted(m)
    ensures Get(Put(m, k, v), k') == if k' == k then Some(v) else Get(m, k')
  {
    var r := Put(m, k, v);
    if k' == k {
      var i :| 0 <= i < |r| && r[i] == Entry(k, v);
      GetEntry(r, i);
    } else if Get(m, k').Some? {
      var i :| 0 <= i < |m| && m[i] == Entry(k', Get(m, k').value);
      assert m[i] in r;
      var j :| 0 <= j < |r| && r[j] == m[i];
      GetEntry(r, j);
    } else {
      forall i | 0 <= i < |r| ensures r[i].key != k' {
        assert r[i] in m || r[i] == Entry(k, v);
      }
    }
  }

  /** The map with every entry whose key is in `ks` removed (repeated `remove` calls). */
  function WithoutKeys<V>(m: seq<Entry<V>>, ks: set<string>): (r: seq<Entry<V>>)
    ensures forall e :: e in r ==> e in m && e.key !in ks
    ensures forall e :: e in m && e.key !in ks ==> e in r
  {
    if m == [] then []
    else if m[0].key in ks then WithoutKeys(m[1..], ks)
    else [m[0]] + WithoutKeys(m[1..], ks)
  }

  /** Removal keeps the remaining entries in key order. */
  lemma {:induction false} WithoutKeysSorted<V>(m: seq<Entry<V>>, ks: set<string>)
    requires Sorted(m)
    ensures Sorted(WithoutKeys(m, ks))
  {
    if m != [] {
      WithoutKeysSorted(m[1..], ks);
      var rest := WithoutKeys(m[1..], ks);
      forall e | e in rest ensures Less(m[0].key, e.key) {
        var j :| 0 <= j < |m[1..]| && m[1..][j] == e;
        assert m[j + 1] == e;
      }
    }
  }

  /** Removing no key leaves the map as it was (the copy `new TreeMap<>(m)`). */
  lemma {:induction false} WithoutNoKeys<V>(m: seq<Entry<V>>)
    ensures WithoutKeys(m, {}) == m
  {
    if m != [] {
      WithoutNoKeys(m[1..]);
    }
  }

  /** Removing one more key after a batch is removing the enlarged batch. */
  lemma {:induction false} WithoutKeysAdd<V>(m: seq<Entry<V>>, ks: set<string>, k: string)
    ensures WithoutKeys(WithoutKeys(m, ks), {k}) == WithoutKeys(m, ks + {k})
  {
    if m != [] {
      WithoutKeysAdd(m[1..], ks, k);
    }
  }

  /** `get` on the reduced map: None for a removed key, the old answer for every other key. */
  lemma WithoutKeysGet<V>(m: seq<Entry<V>>, ks: set<string>, k: string)
    requires Sorted(m)
    ensures Get(WithoutKeys(m, ks), k) == if k in ks then None else Get(m, k)
  {
    var r := WithoutKeys(m, ks);
    WithoutKeysSorted(m, ks);
    if k !in ks && Get(m, k).Some? {
      var i :| 0 <= i < |m| && m[i] == Entry(k, Get(m, k).value);
      assert m[i] in r;
      var j :| 0 <= j < |r| && r[j] == m[i];
      GetEntry(r, j);
    } else {
      forall i | 0 <= i < |r| ensures r[i].key != k {
        assert r[i] in m;
      }
    }
  }
}
