/** A JavaScript `Map`: entries in insertion order, at most one per key.
    `set` on a present key replaces its value in place; on a new key it
    appends. */
module JsMap {
  import opened Wrappers

  datatype Entry<K, V> = Entry(key: K, value: V)

  /** No key occurs twice. */
  predicate Valid<K(==), V>(m: seq<Entry<K, V>>) {
    forall i, j :: 0 <= i < j < |m| ==> m[i].key != m[j].key
  }

  function Keys<K, V>(m: seq<Entry<K, V>>): (r: seq<K>)
    ensures |r| == |m|
    ensures forall i :: 0 <= i < |m| ==> r[i] == m[i].key
  {
    if m == [] then [] else [m[0].key] + Keys(m[1..])
  }

  /** `map.values()`, in insertion order. */
  function Values<K, V>(m: seq<Entry<K, V>>): (r: seq<V>)
    ensures |r| == |m|
    ensures forall i :: 0 <= i < |m| ==> r[i] == m[i].value
  {
    if m == [] then [] else [m[0].value] + Values(m[1..])
  }

  /** `map.get(k)`; `None` when `k` is absent. */
  function Get<K(==), V>(m: seq<Entry<K, V>>, k: K): (r: Option<V>)
    ensures r.None? <==> forall i :: 0 <= i < |m| ==> m[i].key != k
    ensures r.Some? ==> exists i :: 0 <= i < |m| && m[i] == Entry(k, r.value)
  {
    if m == [] then None
    else if m[0].key == k then Some(m[0].value)
    else
      var r := Get(m[1..], k);
      assert forall i :: 1 <= i < |m| ==> m[i] == m[1..][i - 1];
      r
  }

  /** `map.set(k, v)`: the key order changes only by a new key at the end. */
  function Set<K(==), V>(m: seq<Entry<K, V>>, k: K, v: V): (r: seq<Entry<K, V>>)
    ensures |r| == if Get(m, k).Some? then |m| else |m| + 1
    ensures |r| > 0
    ensures Keys(r) == if Get(m, k).Some? then Keys(m) else Keys(m) + [k]
  {
    if m == [] then [Entry(k, v)]
    else if m[0].key == k then [Entry(k, v)] + m[1..]
    else
      var r := Set(m[1..], k, v);
      assert Keys(m) == [m[0].key] + Keys(m[1..]);
      assert Keys([m[0]] + r) == [m[0].key] + Keys(r);
      [m[0]] + r
  }

  /** After `set(k, v)`, `get(k)` is `v` and every other key reads as before. */
  lemma {:induction false} GetSet<K, V>(m: seq<Entry<K, V>>, k: K, v: V, k': K)
    ensures Get(Set(m, k, v), k') == if k' == k then Some(v) else Get(m, k')
  {
    if m != [] && m[0].key != k {
      GetSet(m[1..], k, v, k');
      var r := Set(m[1..], k, v);
      assert Set(m, k, v) == [m[0]] + r;
      assert ([m[0]] + r)[1..] == r;
    } else if m != [] {
      assert Set(m, k, v)[1..] == m[1..];
    }
  }

  /** `set` keeps keys distinct. */
  lemma {:induction false} SetValid<K, V>(m: seq<Entry<K, V>>, k: K, v: V)
    requires Valid(m)
    ensures Valid(Set(m, k, v))
  {
    if m != [] && m[0].key != k {
      var r := Set(m[1..], k, v);
      SetValid(m[1..], k, v);
      SetEntries(m[1..], k, v);
      assert Set(m, k, v) == [m[0]] + r;
      forall i | 0 <= i < |r| ensures r[i].key != m[0].key {
        if r[i] != Entry(k, v) {
          var j :| 0 <= j < |m[1..]| && m[1..][j] == r[i];
          assert m[j + 1] == r[i];
        }
      }
    } else if m != [] {
      assert Set(m, k, v) == [Entry(k, v)] + m[1..];
    }
  }

  /** Every entry after `set(k, v)` is the new one or was there before. */
  lemma {:induction false} SetEntries<K, V>(m: seq<Entry<K, V>>, k: K, v: V)
    ensures forall i :: 0 <= i < |Set(m, k, v)| ==> Set(m, k, v)[i] == Entry(k, v) || Set(m, k, v)[i] in m
  {
    if m != [] && m[0].key != k {
      SetEntries(m[1..], k, v);
      var r := Set(m[1..], k, v);
      assert Set(m, k, v) == [m[0]] + r;
      assert forall i :: 1 <= i < |[m[0]] + r| ==> ([m[0]] + r)[i] == r[i - 1];
      assert forall e :: e in m[1..] ==> e in m;
    } else if m != [] {
      var r := Set(m, k, v);
      assert forall i :: 1 <= i < |r| ==> r[i] == m[i];
    }
  }
}
