/** Python's `dict` as the parsers use it: a sequence of (key, value)
    entries kept in first-insertion order, where assigning to an existing
    key replaces its value in place. */
module OrderedDict {
  import opened Common

  type Dict<K, V> = seq<(K, V)>

  function Keys<K, V>(d: Dict<K, V>): (ks: seq<K>)
    ensures |ks| == |d|
    ensures forall i :: 0 <= i < |d| ==> ks[i] == d[i].0
    decreases |d|
  {
    if |d| == 0 then [] else [d[0].0] + Keys(d[1..])
  }

  predicate Distinct<K(==)>(ks: seq<K>) {
    forall i, j :: 0 <= i < j < |ks| ==> ks[i] != ks[j]
  }

  /** Python dicts never hold a key twice. */
  predicate UniqueKeys<K(==), V>(d: Dict<K, V>) {
    Distinct(Keys(d))
  }

  /** `d.get(k)`: the value stored under `k`, if any. */
  function Get<K(==), V>(d: Dict<K, V>, k: K): (r: Option<V>)
    ensures r.None? <==> k !in Keys(d)
    ensures r.Some? ==> (k, r.value) in d
    decreases |d|
  {
    if |d| == 0 then None
    else if d[0].0 == k then Some(d[0].1)
    else Get(d[1..], k)
  }

  /** `d[k] = v`. */
  function Put<K(==,!new), V>(d: Dict<K, V>, k: K, v: V): (r: Dict<K, V>)
    ensures k in Keys(d) ==> Keys(r) == Keys(d)
    ensures k !in Keys(d) ==> Keys(r) == Keys(d) + [k]
    ensures Get(r, k) == Some(v)
    ensures forall k' :: k' != k ==> Get(r, k') == Get(d, k')
  {
    AssignKeys(d, k, v);
    AssignGet(d, k, v);
    Assign(d, k, v)
  }

  /** The entry list `d[k] = v` leaves: the value replaced in place, or a
      new entry at the end. */
  function Assign<K(==), V>(d: Dict<K, V>, k: K, v: V): Dict<K, V>
    decreases |d|
  {
    if |d| == 0 then [(k, v)]
    else if d[0].0 == k then [(k, v)] + d[1..]
    else [d[0]] + Assign(d[1..], k, v)
  }

  lemma ConsKeys<K, V>(x: (K, V), rest: Dict<K, V>)
    ensures Keys([x] + rest) == [x.0] + Keys(rest)
  {
    assert ([x] + rest)[1..] == rest;
  }

  lemma ConsGet<K, V>(x: (K, V), rest: Dict<K, V>, k: K)
    ensures Get([x] + rest, k) == if x.0 == k then Some(x.1) else Get(rest, k)
  {
    assert ([x] + rest)[1..] == rest;
  }

  lemma {:induction false} AssignKeys<K, V>(d: Dict<K, V>, k: K, v: V)
    ensures k in Keys(d) ==> Keys(Assign(d, k, v)) == Keys(d)
    ensures k !in Keys(d) ==> Keys(Assign(d, k, v)) == Keys(d) + [k]
    decreases |d|
  {
    if |d| > 0 {
      assert d == [d[0]] + d[1..];
      ConsKeys(d[0], d[1..]);
      if d[0].0 == k {
        ConsKeys((k, v), d[1..]);
      } else {
        AssignKeys(d[1..], k, v);
        ConsKeys(d[0], Assign(d[1..], k, v));
        assert k in Keys(d) <==> k in Keys(d[1..]);
      }
    }
  }

  lemma {:induction false} AssignGet<K, V>(d: Dict<K, V>, k: K, v: V)
    ensures Get(Assign(d, k, v), k) == Some(v)
    ensures forall k' :: k' != k ==> Get(Assign(d, k, v), k') == Get(d, k')
    decreases |d|
  {
    if |d| > 0 {
      assert d == [d[0]] + d[1..];
      if d[0].0 == k {
        ConsGet((k, v), d[1..], k);
        forall k' | k' != k ensures Get(Assign(d, k, v), k') == Get(d, k') {
          ConsGet((k, v), d[1..], k');
          ConsGet(d[0], d[1..], k');
        }
      } else {
        AssignGet(d[1..], k, v);
        ConsGet(d[0], Assign(d[1..], k, v), k);
        forall k' | k' != k ensures Get(Assign(d, k, v), k') == Get(d, k') {
          ConsGet(d[0], Assign(d[1..], k, v), k');
          ConsGet(d[0], d[1..], k');
        }
      }
    }
  }

  lemma KeysSnoc<K, V>(d: Dict<K, V>, x: (K, V))
    ensures Keys(d + [x]) == Keys(d) + [x.0]
  {
  }

  /** Assignment keeps a dict free of repeated keys. */
  lemma PutKeepsUnique<K(!new), V>(d: Dict<K, V>, k: K, v: V)
    requires UniqueKeys(d)
    ensures UniqueKeys(Put(d, k, v))
  {
  }

  /** Under unique keys, the entry at position i is what `Get` finds. */
  lemma {:induction false} GetAt<K, V>(d: Dict<K, V>, i: nat)
    requires UniqueKeys(d) && i < |d|
    ensures Get(d, d[i].0) == Some(d[i].1)
    decreases i
  {
    if i > 0 {
      assert Keys(d)[0] != Keys(d)[i];
      assert Keys(d[1..]) == Keys(d)[1..];
      GetAt(d[1..], i - 1);
    }
  }
}
