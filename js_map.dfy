/** A model of the JavaScript `Map` both servers keep their in-memory records
    in: a finite map whose iteration order (`values()`) is the order in which
    keys were first set. */
module JsMap {
  import opened JsBuiltins

  datatype OrderedMap<K(==,!new), V> = OrderedMap(keys: seq<K>, entries: map<K, V>) {

    /** The keys are listed once each, and exactly the keys of `entries`. */
    ghost predicate Valid() {
      && (forall i, j :: 0 <= i < j < |keys| ==> keys[i] != keys[j])
      && (forall k :: k in entries <==> k in keys)
    }

    /** `m.get(k)`: found exactly for the keys that were set, and then the
        value last set for the key. */
    function Get(k: K): (r: Option<V>)
      ensures Valid() ==> (r.Some? <==> k in keys)
      ensures r.Some? ==> k in entries && r.value == entries[k]
    {
      if k in entries then Some(entries[k]) else None
    }

    /** `m.set(k, v)`: a new key goes to the end of the iteration order, an
        existing key keeps its place and gets the new value. */
    function Set(k: K, v: V): (m: OrderedMap<K, V>)
      requires Valid()
      ensures m.Valid()
      ensures m.Get(k) == Some(v)
      ensures forall k' :: k' != k ==> m.Get(k') == Get(k')
      ensures m.keys == if k in entries then keys else keys + [k]
    {
      OrderedMap(if k in entries then keys else keys + [k], entries[k := v])
    }

    /** `Array.from(m.values())`: the values in key order. */
    function Values(): (vs: seq<V>)
      requires Valid()
      ensures |vs| == |keys|
      ensures forall i :: 0 <= i < |keys| ==> vs[i] == entries[keys[i]]
    {
      seq(|keys|, i requires 0 <= i < |keys| => entries[keys[i]])
    }
  }

  /** `new Map()`, and what `m.clear()` leaves. */
  function Empty<K(==,!new), V>(): (m: OrderedMap<K, V>)
    ensures m.Valid() && m.Values() == []
    ensures forall k :: m.Get(k) == None
  {
    OrderedMap([], map[])
  }

  /** Setting a new key appends its value to the iteration and leaves the
      values already there in place. */
  lemma SetNewKeyAppends<K(!new), V>(m: OrderedMap<K, V>, k: K, v: V)
    requires m.Valid() && m.Get(k) == None
    ensures m.Set(k, v).Values() == m.Values() + [v]
  {
    var m' := m.Set(k, v);
    assert forall i :: 0 <= i < |m.keys| ==> m.keys[i] != k;
  }
}
