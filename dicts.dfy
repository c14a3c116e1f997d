/** Python dictionaries: a map together with the order in which its keys were first inserted. */
module Dicts {

  datatype Dict<K(==), V> = Dict(keys: seq<K>, items: map<K, V>)

  predicate Distinct<T(==)>(s: seq<T>) {
    forall i, j :: 0 <= i < j < |s| ==> s[i] != s[j]
  }

  /** The keys are listed once each, and they are exactly the keys of the map. */
  predicate Valid<K(==), V>(d: Dict<K, V>) {
    && Distinct(d.keys)
    && d.items.Keys == set k | k in d.keys
  }

  function Empty<K(==), V>(): (d: Dict<K, V>)
    ensures Valid(d) && d.items == map[] && d.keys == []
  {
    Dict([], map[])
  }

  /** `d[k] = v`: a new key goes to the end of the order, an existing one keeps its place. */
  function Put<K(==), V>(d: Dict<K, V>, k: K, v: V): (r: Dict<K, V>)
    requires Valid(d)
    ensures Valid(r)
    ensures r.items == d.items[k := v]
    ensures k in d.items ==> r.keys == d.keys
    ensures k !in d.items ==> r.keys == d.keys + [k]
  {
    if k in d.items then Dict(d.keys, d.items[k := v]) else Dict(d.keys + [k], d.items[k := v])
  }

  /** `d[k].append(v)` on a `defaultdict(list)`: a missing key starts from the empty list. */
  function Append<K(==), V>(d: Dict<K, seq<V>>, k: K, v: V): (r: Dict<K, seq<V>>)
    requires Valid(d)
    ensures Valid(r)
    ensures r.items == d.items[k := (if k in d.items then d.items[k] else []) + [v]]
  {
    Put(d, k, (if k in d.items then d.items[k] else []) + [v])
  }

  /** `list(d.values())`: the values in key order. */
  function Values<K(==), V>(d: Dict<K, V>): (vs: seq<V>)
    requires Valid(d)
    ensures |vs| == |d.keys|
    ensures forall i :: 0 <= i < |d.keys| ==> vs[i] == d.items[d.keys[i]]
  {
    seq(|d.keys|, i requires 0 <= i < |d.keys| => d.items[d.keys[i]])
  }

  /** Storing a new key appends its value to the values. */
  lemma PutNewValues<K, V>(d: Dict<K, V>, k: K, v: V)
    requires Valid(d) && k !in d.items
    ensures Values(Put(d, k, v)) == Values(d) + [v]
  {
    var r := Put(d, k, v);
    assert |Values(r)| == |Values(d) + [v]|;
    forall i | 0 <= i < |r.keys| ensures Values(r)[i] == (Values(d) + [v])[i] {
      if i < |d.keys| {
        assert r.keys[i] == d.keys[i] && r.keys[i] != k;
      }
    }
  }

  /** The sum of the lengths of the lists stored under `keys`. */
  function TotalLength<K(==), V>(keys: seq<K>, items: map<K, seq<V>>): nat
    requires forall i :: 0 <= i < |keys| ==> keys[i] in items
  {
    if |keys| == 0 then 0 else |items[keys[0]]| + TotalLength(keys[1..], items)
  }

  lemma {:induction false} TotalLengthFrame<K, V>(keys: seq<K>, a: map<K, seq<V>>, b: map<K, seq<V>>)
    requires forall i :: 0 <= i < |keys| ==> keys[i] in a && keys[i] in b && a[keys[i]] == b[keys[i]]
    ensures TotalLength(keys, a) == TotalLength(keys, b)
  {
    if |keys| > 0 {
      TotalLengthFrame(keys[1..], a, b);
    }
  }

  lemma {:induction false} TotalLengthSnoc<K, V>(keys: seq<K>, k: K, items: map<K, seq<V>>)
    requires forall i :: 0 <= i < |keys| ==> keys[i] in items
    requires k in items
    ensures TotalLength(keys + [k], items) == TotalLength(keys, items) + |items[k]|
  {
    if |keys| > 0 {
      assert (keys + [k])[1..] == keys[1..] + [k];
      TotalLengthSnoc(keys[1..], k, items);
    }
  }

  /** Growing the list under one listed key by one element grows the total by one. */
  lemma {:induction false} TotalLengthGrow<K, V>(keys: seq<K>, items: map<K, seq<V>>, k: K, v: V)
    requires Distinct(keys)
    requires forall i :: 0 <= i < |keys| ==> keys[i] in items
    requires k in keys
    ensures TotalLength(keys, items[k := items[k] + [v]]) == TotalLength(keys, items) + 1
  {
    var items' := items[k := items[k] + [v]];
    if keys[0] == k {
      assert k !in keys[1..] by {
        forall j | 0 <= j < |keys[1..]| ensures keys[1..][j] != k {
          assert keys[1..][j] == keys[j + 1];
        }
      }
      TotalLengthFrame(keys[1..], items', items);
    } else {
      assert Distinct(keys[1..]) by {
        forall i, j | 0 <= i < j < |keys[1..]| ensures keys[1..][i] != keys[1..][j] {
          assert keys[1..][i] == keys[i + 1] && keys[1..][j] == keys[j + 1];
        }
      }
      TotalLengthGrow(keys[1..], items, k, v);
    }
  }

  /** Every `Append` adds exactly one element to the lists of the dictionary. */
  lemma AppendTotal<K, V>(d: Dict<K, seq<V>>, k: K, v: V)
    requires Valid(d)
    ensures TotalLength(Append(d, k, v).keys, Append(d, k, v).items) == TotalLength(d.keys, d.items) + 1
  {
    var r := Append(d, k, v);
    if k in d.items {
      TotalLengthGrow(d.keys, d.items, k, v);
    } else {
      TotalLengthSnoc(d.keys, k, r.items);
      TotalLengthFrame(d.keys, r.items, d.items);
    }
  }
}
