/** The JavaScript `Map` the container and the audits are built on: a finite
    map that also remembers the order in which its keys were first inserted.
    `set` on a present key updates the value in place; `delete` removes the
    key from the order. */
module JsMaps {
  import opened Seqs

  /** A value or `undefined`. */
  datatype Option<T> = None | Some(value: T) {
    function GetOr(default: T): T {
      if Some? then value else default
    }
  }

  datatype JsMap<K(!new), V> = JsMap(keys: seq<K>, m: map<K, V>) {

    /** The key order lists each key of the map exactly once. */
    ghost predicate Valid() {
      && Distinct(keys)
      && (forall k :: k in m <==> k in keys)
    }

    /** `map.get(k)`. */
    function Get(k: K): (r: Option<V>)
      ensures r.Some? <==> k in m
      ensures r.Some? ==> r.value == m[k]
    {
      if k in m then Some(m[k]) else None
    }

    /** `map.set(k, v)`. */
    function Set(k: K, v: V): (r: JsMap<K, V>)
      requires Valid()
      ensures r.Valid()
      ensures k in r.m && r.m[k] == v
      ensures forall k' :: k' != k ==> (k' in r.m <==> k' in m)
      ensures forall k' :: k' != k && k' in m ==> r.m[k'] == m[k']
      ensures k in m ==> r.keys == keys
      ensures k !in m ==> r.keys == keys + [k]
    {
      if k in m then JsMap(keys, m[k := v]) else JsMap(keys + [k], m[k := v])
    }

    /** `map.delete(k)`: the map without `k`, and whether `k` was present. */
    function Delete(k: K): (r: (JsMap<K, V>, bool))
      requires Valid()
      ensures r.0.Valid()
      ensures r.1 <==> k in m
      ensures k !in r.0.m
      ensures forall k' :: k' != k ==> (k' in r.0.m <==> k' in m)
      ensures forall k' :: k' != k && k' in m ==> r.0.m[k'] == m[k']
      ensures r.0.keys == Without(keys, k)
    {
      WithoutDistinct(keys, k);
      (JsMap(Without(keys, k), m - {k}), k in m)
    }
  }

  function Empty<K(!new), V>(): (r: JsMap<K, V>)
    ensures r.Valid() && |r.keys| == 0 && r.m == map[]
  {
    JsMap([], map[])
  }
}
