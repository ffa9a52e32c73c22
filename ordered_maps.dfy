/**
 * An insertion-ordered dictionary with the semantics of a JavaScript `Map`:
 * entries are kept in the order their keys were first inserted, `set` on a
 * key already present replaces the value where it stands, and `delete`
 * removes the entry. The server keeps its players per room and its rooms in
 * such maps and iterates over them in that order.
 */
module OrderedMaps {
  import opened Wrappers

  datatype Entry<K, V> = Entry(key: K, val: V)

  type OMap<K, V> = seq<Entry<K, V>>

  /** The keys, in insertion order. */
  function Keys<K, V>(m: OMap<K, V>): (ks: seq<K>)
    ensures |ks| == |m|
    ensures forall i :: 0 <= i < |m| ==> ks[i] == m[i].key
  {
    if m == [] then [] else [m[0].key] + Keys(m[1..])
  }

  /** The values, in insertion order (what `Map.prototype.forEach` visits). */
  function Values<K, V>(m: OMap<K, V>): (vs: seq<V>)
    ensures |vs| == |m|
    ensures forall i :: 0 <= i < |m| ==> vs[i] == m[i].val
  {
    if m == [] then [] else [m[0].val] + Values(m[1..])
  }

  /** No key occurs twice: every map the server builds satisfies this. */
  ghost predicate DistinctKeys<K, V>(m: OMap<K, V>) {
    forall i, j :: 0 <= i < j < |m| ==> m[i].key != m[j].key
  }

  /** `Map.prototype.get`. */
  function Get<K(==), V>(m: OMap<K, V>, k: K): Option<V> {
    if m == [] then None
    else if m[0].key == k then Some(m[0].val)
    else Get(m[1..], k)
  }

  /** `Map.prototype.set`: replaces the value in place, or appends a new entry. */
  function Put<K(==), V>(m: OMap<K, V>, k: K, v: V): OMap<K, V> {
    if m == [] then [Entry(k, v)]
    else if m[0].key == k then [Entry(k, v)] + m[1..]
    else [m[0]] + Put(m[1..], k, v)
  }

  /** `Map.prototype.delete`. */
  function Remove<K(==), V>(m: OMap<K, V>, k: K): OMap<K, V> {
    if m == [] then []
    else if m[0].key == k then m[1..]
    else [m[0]] + Remove(m[1..], k)
  }

  /** `get` finds a value exactly when the key is among the keys. */
  lemma {:induction false} GetFindsKey<K, V>(m: OMap<K, V>, k: K)
    ensures Get(m, k).Some? <==> k in Keys(m)
    ensures Get(m, k).Some? ==> Entry(k, Get(m, k).value) in m
  {
    if m != [] {
      GetFindsKey(m[1..], k);
      assert Keys(m) == [m[0].key] + Keys(m[1..]);
    }
  }

  /** With distinct keys, `get` returns the value stored at the key's position. */
  lemma {:induction false} GetAt<K, V>(m: OMap<K, V>, i: int)
    requires DistinctKeys(m)
    requires 0 <= i < |m|
    ensures Get(m, m[i].key) == Some(m[i].val)
  {
    if i > 0 {
      GetAt(m[1..], i - 1);
    }
  }

  /** Reading back after `set`: the new value at the key, the old values elsewhere. */
  lemma {:induction false} GetPut<K, V>(m: OMap<K, V>, k: K, v: V, k': K)
    ensures Get(Put(m, k, v), k') == if k' == k then Some(v) else Get(m, k')
  {
    if m != [] && m[0].key != k {
      GetPut(m[1..], k, v, k');
    }
  }

  /** `set` keeps the order of the keys, and appends a key that was absent. */
  lemma {:induction false} PutKeys<K, V>(m: OMap<K, V>, k: K, v: V)
    ensures Keys(Put(m, k, v)) == if k in Keys(m) then Keys(m) else Keys(m) + [k]
    ensures |Put(m, k, v)| == if k in Keys(m) then |m| else |m| + 1
  {
    if m != [] {
      PutKeys(m[1..], k, v);
      assert Keys(m) == [m[0].key] + Keys(m[1..]);
      if m[0].key != k {
        assert Keys(Put(m, k, v)) == [m[0].key] + Keys(Put(m[1..], k, v));
      } else {
        assert Keys(Put(m, k, v)) == [k] + Keys(m[1..]);
      }
    }
  }

  /** `set` changes only the entry of its key: every other entry stays where it was. */
  lemma {:induction false} PutOthers<K, V>(m: OMap<K, V>, k: K, v: V, i: int)
    requires 0 <= i < |m| && m[i].key != k
    ensures i < |Put(m, k, v)| && Put(m, k, v)[i] == m[i]
  {
    if i > 0 && m[0].key != k {
      PutOthers(m[1..], k, v, i - 1);
    }
  }

  /** `set` keeps the keys distinct. */
  lemma {:induction false} PutDistinct<K, V>(m: OMap<K, V>, k: K, v: V)
    requires DistinctKeys(m)
    ensures DistinctKeys(Put(m, k, v))
  {
    PutKeys(m, k, v);
    var m' := Put(m, k, v);
    assert forall i :: 0 <= i < |m'| ==> m'[i].key == Keys(m')[i];
    assert forall i :: 0 <= i < |m| ==> m[i].key == Keys(m)[i];
  }

  /** With distinct keys, the first key does not occur again. */
  lemma HeadNotInTail<K, V>(m: OMap<K, V>)
    requires DistinctKeys(m) && m != []
    ensures DistinctKeys(m[1..])
    ensures m[0].key !in Keys(m[1..])
  {
    assert forall j :: 0 <= j < |m| - 1 ==> Keys(m[1..])[j] == m[j + 1].key;
  }

  /** `delete` removes the key and nothing else. */
  lemma {:induction false} GetRemove<K, V>(m: OMap<K, V>, k: K, k': K)
    requires DistinctKeys(m)
    ensures Get(Remove(m, k), k') == if k' == k then None else Get(m, k')
  {
    if m != [] {
      HeadNotInTail(m);
      if m[0].key == k {
        if k' == k {
          HeadNotInTail(m);
          GetFindsKey(m[1..], k);
        }
      } else {
        GetRemove(m[1..], k, k');
      }
    }
  }

  /** `delete` removes exactly one entry when the key is present, none otherwise, and keeps the order of the rest. */
  lemma {:induction false} RemoveKeys<K, V>(m: OMap<K, V>, k: K)
    requires DistinctKeys(m)
    ensures |Remove(m, k)| == if k in Keys(m) then |m| - 1 else |m|
    ensures k !in Keys(Remove(m, k))
    ensures forall k' :: k' in Keys(Remove(m, k)) <==> k' in Keys(m) && k' != k
    ensures DistinctKeys(Remove(m, k))
  {
    if m != [] {
      HeadNotInTail(m);
      RemoveKeys(m[1..], k);
      assert Keys(m) == [m[0].key] + Keys(m[1..]);
      if m[0].key == k {
        HeadNotInTail(m);
      } else {
        var r := Remove(m, k);
        assert Keys(r) == [m[0].key] + Keys(Remove(m[1..], k));
        HeadNotInTail(m);
        forall i, j | 0 <= i < j < |r| ensures r[i].key != r[j].key {
          if i == 0 {
            assert r[j].key == Keys(Remove(m[1..], k))[j - 1];
          }
        }
      }
    }
  }

  /** `set` on the key at index i, which no earlier entry has, replaces that entry where it stands and nothing else. */
  lemma {:induction false} PutAt<K, V>(m: OMap<K, V>, i: int, v: V)
    requires 0 <= i < |m|
    requires forall j :: 0 <= j < i ==> m[j].key != m[i].key
    ensures Put(m, m[i].key, v) == m[i := Entry(m[i].key, v)]
  {
    if i > 0 {
      var k := m[i].key;
      assert m[1..][i - 1].key == k;
      PutAt(m[1..], i - 1, v);
      assert m[i := Entry(k, v)] == [m[0]] + m[1..][i - 1 := Entry(k, v)];
    }
  }

  /** `set` on an absent key appends the entry. */
  lemma {:induction false} PutAbsent<K, V>(m: OMap<K, V>, k: K, v: V)
    requires k !in Keys(m)
    ensures Put(m, k, v) == m + [Entry(k, v)]
  {
    if m != [] {
      assert Keys(m) == [m[0].key] + Keys(m[1..]);
      PutAbsent(m[1..], k, v);
      assert m + [Entry(k, v)] == [m[0]] + (m[1..] + [Entry(k, v)]);
    }
  }

  /** `delete` of the key at index i cuts that entry out. */
  lemma {:induction false} RemoveAt<K, V>(m: OMap<K, V>, i: int)
    requires DistinctKeys(m) && 0 <= i < |m|
    ensures Remove(m, m[i].key) == m[..i] + m[i + 1..]
  {
    if i > 0 {
      HeadNotInTail(m);
      RemoveAt(m[1..], i - 1);
      assert m[..i] + m[i + 1..] == [m[0]] + (m[1..][..i - 1] + m[1..][i..]);
    }
  }

  /** After `set`, the new entry is present and every entry is the new one or was there before. */
  lemma {:induction false} PutEntries<K, V>(m: OMap<K, V>, k: K, v: V)
    ensures Entry(k, v) in Put(m, k, v)
    ensures forall e :: e in Put(m, k, v) ==> e == Entry(k, v) || e in m
  {
    if m != [] && m[0].key != k {
      PutEntries(m[1..], k, v);
    }
  }

  /** `delete` only ever drops entries. */
  lemma {:induction false} RemoveEntries<K, V>(m: OMap<K, V>, k: K)
    ensures forall e :: e in Remove(m, k) ==> e in m
  {
    if m != [] && m[0].key != k {
      RemoveEntries(m[1..], k);
    }
  }

  /** Distinctness depends on the keys alone. */
  lemma SameKeysDistinct<K, V, W>(m: OMap<K, V>, m': OMap<K, W>)
    requires Keys(m) == Keys(m') && DistinctKeys(m)
    ensures DistinctKeys(m')
  {
    assert forall i :: 0 <= i < |m'| ==> m'[i].key == Keys(m)[i] == m[i].key;
  }

  /** A second `set` on the same key overrides the first. */
  lemma {:induction false} PutPut<K, V>(m: OMap<K, V>, k: K, v: V, w: V)
    ensures Put(Put(m, k, v), k, w) == Put(m, k, w)
  {
    if m != [] && m[0].key != k {
      PutPut(m[1..], k, v, w);
    }
  }

  /** `delete` right after `set` on the same key leaves what `delete` alone leaves. */
  lemma {:induction false} RemovePut<K, V>(m: OMap<K, V>, k: K, v: V)
    ensures Remove(Put(m, k, v), k) == Remove(m, k)
  {
    if m != [] && m[0].key != k {
      RemovePut(m[1..], k, v);
    }
  }
}
