/** A JavaScript `Map`: a lookup table that also remembers the order in which
    its keys were first inserted (`keys()` and `values()` follow that order;
    `set` on a present key replaces the value and keeps the key's place). */
module JsMaps {
  import opened Wrappers

  datatype JsMap<K(==,!new), V> = JsMap(keys: seq<K>, entries: map<K, V>) {

    /** Every key once, and the ordered keys are exactly the table's keys. */
    ghost predicate Valid() {
      && (forall i, j :: 0 <= i < j < |keys| ==> keys[i] != keys[j])
      && (forall k :: k in entries <==> k in keys)
    }

    /** `map.get(k)`. */
    function Get(k: K): (r: Option<V>)
      ensures r.Some? <==> k in entries
      ensures r.Some? ==> r.value == entries[k]
    {
      if k in entries then Some(entries[k]) else None
    }

    /** `map.set(k, v)`. */
    function Set(k: K, v: V): (m: JsMap<K, V>)
      requires Valid()
      ensures m.Valid()
      ensures m.Get(k) == Some(v)
      ensures forall k' :: k' != k ==> m.Get(k') == Get(k')
      ensures k in entries ==> m.keys == keys
      ensures k !in entries ==> m.keys == keys + [k]
    {
      JsMap(if k in entries then keys else keys + [k], entries[k := v])
    }
  }

  function Empty<K(==,!new), V>(): (m: JsMap<K, V>)
    ensures m.Valid() && m.keys == [] && m.entries == map[]
  {
    JsMap([], map[])
  }
}
