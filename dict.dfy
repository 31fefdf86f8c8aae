/** A Python `dict` as the list of its entries in insertion order. Assigning to
    a key that is present replaces its value in place; assigning to a new key
    appends an entry; `del` removes the entry. Iteration visits entries in this
    order, which is what "the first shortcut that points to a store" refers to. */
module Dict {
  import opened Base

  type Dict<K, V> = seq<(K, V)>

  predicate HasKey<K(==,!new), V(!new)>(d: Dict<K, V>, k: K)
  {
    d != [] && (d[0].0 == k || HasKey(d[1..], k))
  }

  predicate HasValue<K(!new), V(==,!new)>(d: Dict<K, V>, v: V)
  {
    d != [] && (d[0].1 == v || HasValue(d[1..], v))
  }

  /** No key occurs twice: every Python dict has this shape. */
  predicate UniqueKeys<K(==,!new), V(!new)>(d: Dict<K, V>)
  {
    d == [] || (!HasKey(d[1..], d[0].0) && UniqueKeys(d[1..]))
  }

  /** No value occurs twice. */
  predicate DistinctValues<K(!new), V(==,!new)>(d: Dict<K, V>)
  {
    d == [] || (!HasValue(d[1..], d[0].1) && DistinctValues(d[1..]))
  }

  /** `d.get(k)` */
  function Get<K(==,!new), V(!new)>(d: Dict<K, V>, k: K): (r: Option<V>)
    ensures r.Some? <==> HasKey(d, k)
    ensures r.Some? ==> HasValue(d, r.value)
  {
    if d == [] then None
    else if d[0].0 == k then Some(d[0].1)
    else Get(d[1..], k)
  }

  /** The position of the first entry with key `k`. */
  function KeyIndex<K(==,!new), V(!new)>(d: Dict<K, V>, k: K): (i: nat)
    requires HasKey(d, k)
    ensures i < |d| && d[i].0 == k
    ensures forall j :: 0 <= j < i ==> d[j].0 != k
    ensures Get(d, k) == Some(d[i].1)
  {
    if d[0].0 == k then 0 else KeyIndex(d[1..], k) + 1
  }

  /** `d[k] = v` */
  function Set<K(==,!new), V(==,!new)>(d: Dict<K, V>, k: K, v: V): (r: Dict<K, V>)
    ensures forall k' :: Get(r, k') == if k' == k then Some(v) else Get(d, k')
    ensures forall k' :: HasKey(r, k') <==> k' == k || HasKey(d, k')
    ensures !HasKey(d, k) ==> r == d + [(k, v)]
    ensures HasKey(d, k) ==> |r| == |d|
    ensures HasKey(d, k) ==> r == d[..KeyIndex(d, k)] + [(k, v)] + d[KeyIndex(d, k) + 1..]
    ensures UniqueKeys(d) ==> UniqueKeys(r)
    ensures forall w :: HasValue(r, w) ==> w == v || HasValue(d, w)
    ensures DistinctValues(d) && !HasValue(d, v) ==> DistinctValues(r)
  {
    if d == [] then [(k, v)]
    else if d[0].0 == k then [(k, v)] + d[1..]
    else
      var rest := Set(d[1..], k, v);
      assert ([d[0]] + rest)[1..] == rest;
      assert HasKey(d[1..], k) ==>
        var j := KeyIndex(d[1..], k);
        [d[0]] + (d[1..][..j] + [(k, v)] + d[1..][j + 1..]) == d[..j + 1] + [(k, v)] + d[j + 2..];
      [d[0]] + rest
  }

  /** `del d[k]`; Python raises KeyError when `k` is absent, which the callers
      here never let happen. */
  function Remove<K(==,!new), V(==,!new)>(d: Dict<K, V>, k: K): (r: Dict<K, V>)
    requires HasKey(d, k)
    ensures |r| == |d| - 1
    ensures r == d[..KeyIndex(d, k)] + d[KeyIndex(d, k) + 1..]
    ensures forall k' :: HasKey(r, k') ==> HasKey(d, k')
    ensures UniqueKeys(d) ==> forall k' :: Get(r, k') == if k' == k then None else Get(d, k')
    ensures UniqueKeys(d) ==> UniqueKeys(r)
    ensures forall w :: HasValue(r, w) ==> HasValue(d, w)
    ensures DistinctValues(d) ==> DistinctValues(r)
  {
    if d[0].0 == k then d[1..]
    else
      var rest := Remove(d[1..], k);
      assert ([d[0]] + rest)[1..] == rest;
      var j := KeyIndex(d[1..], k);
      assert [d[0]] + (d[1..][..j] + d[1..][j + 1..]) == d[..j + 1] + d[j + 2..];
      [d[0]] + rest
  }

  /** The key of the first entry, in iteration order, whose value is `v`. */
  function FirstKeyOf<K(!new), V(==,!new)>(d: Dict<K, V>, v: V): (r: Option<K>)
    ensures r.None? <==> !HasValue(d, v)
    ensures r.Some? ==> HasKey(d, r.value)
    ensures r.Some? && UniqueKeys(d) ==> Get(d, r.value) == Some(v)
  {
    if d == [] then None
    else if d[0].1 == v then Some(d[0].0)
    else FirstKeyOf(d[1..], v)
  }

  /** Removing the key that holds `v` leaves no entry with value `v` when no
      value occurs twice. */
  lemma {:induction false} RemoveDropsValue<K(!new), V(!new)>(d: Dict<K, V>, k: K, v: V)
    requires UniqueKeys(d) && DistinctValues(d)
    requires Get(d, k) == Some(v)
    ensures !HasValue(Remove(d, k), v)
  {
    if d[0].0 != k {
      RemoveDropsValue(d[1..], k, v);
      assert Remove(d, k) == [d[0]] + Remove(d[1..], k);
      assert ([d[0]] + Remove(d[1..], k))[1..] == Remove(d[1..], k);
    }
  }

  lemma {:induction false} HasValueAt<K(!new), V(!new)>(d: Dict<K, V>, i: nat)
    requires i < |d|
    ensures HasValue(d, d[i].1)
  {
    if i > 0 {
      HasValueAt(d[1..], i - 1);
    }
  }

  lemma {:induction false} HasKeyAt<K(!new), V(!new)>(d: Dict<K, V>, k: K) returns (j: nat)
    requires HasKey(d, k)
    ensures j < |d| && d[j].0 == k
  {
    if d[0].0 == k {
      j := 0;
    } else {
      j := HasKeyAt(d[1..], k);
      j := j + 1;
    }
  }

  lemma {:induction false} UniqueKeysAt<K(!new), V(!new)>(d: Dict<K, V>, i: nat, j: nat)
    requires UniqueKeys(d)
    requires i < j < |d|
    ensures d[i].0 != d[j].0
  {
    if i == 0 {
      if d[j].0 == d[0].0 {
        KeyAtHasKey(d[1..], j - 1);
      }
    } else {
      UniqueKeysAt(d[1..], i - 1, j - 1);
    }
  }

  lemma {:induction false} KeyAtHasKey<K(!new), V(!new)>(d: Dict<K, V>, i: nat)
    requires i < |d|
    ensures HasKey(d, d[i].0)
  {
    if i > 0 {
      KeyAtHasKey(d[1..], i - 1);
    }
  }

  /** Python's `for k, x in d.items(): if x == v: ... break` loop: the index of
      the first entry whose value is `v`, or `|d|` when there is none. */
  method FindFirstWithValue<K(!new), V(==,!new)>(d: Dict<K, V>, v: V) returns (i: nat)
    ensures i <= |d|
    ensures forall j :: 0 <= j < i ==> d[j].1 != v
    ensures i < |d| ==> d[i].1 == v
    ensures FirstKeyOf(d, v) == if i < |d| then Some(d[i].0) else None
  {
    i := 0;
    while i < |d|
      invariant i <= |d|
      invariant forall j :: 0 <= j < i ==> d[j].1 != v
      invariant FirstKeyOf(d, v) == FirstKeyOf(d[i..], v)
    {
      if d[i].1 == v {
        return;
      }
      assert d[i..][1..] == d[i + 1..];
      i := i + 1;
    }
  }
}
