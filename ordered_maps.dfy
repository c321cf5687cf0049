/**
 * The JavaScript `Map` as the Huffman engine uses it: a dictionary whose
 * entries are listed in the order in which their keys were first set.
 * Setting an existing key replaces its value and keeps its position.
 */
module OrderedMaps {
  import opened Sequences
  import opened Wrappers

  /** One entry of `getKeyValuePairs`: the JavaScript object `{ key, value }`. */
  datatype KeyValue<K, V> = KeyValue(key: K, value: V)

  datatype OrdMap<K(==,!new), V> = OrdMap(keys: seq<K>, values: map<K, V>) {

    /** Every key is listed exactly once, and only keys are listed. */
    ghost predicate Valid() {
      NoDup(keys) && forall k :: k in values <==> k in keys
    }

    /** `map.get(k)`, with `undefined` as `None`: a value exactly for the listed keys. */
    function Get(k: K): (v: Option<V>)
      ensures Valid() ==> (v.Some? <==> k in keys)
    {
      if k in values then Some(values[k]) else None
    }

    /** `map.set(k, v)`. */
    function Set(k: K, v: V): (m: OrdMap<K, V>)
      requires Valid()
      ensures m.Valid()
      ensures m.Get(k) == Some(v)
      ensures forall j :: j != k ==> m.Get(j) == Get(j)
      ensures keys <= m.keys
      ensures |m.keys| == if k in values then |keys| else |keys| + 1
    {
      OrdMap(if k in values then keys else keys + [k], values[k := v])
    }
  }

  /** `new Map()`. */
  function EmptyMap<K(==,!new), V>(): (m: OrdMap<K, V>)
    ensures m.Valid() && m.keys == []
    ensures forall k :: m.Get(k) == None
  {
    OrdMap([], map[])
  }

  /**
   * `getKeyValuePairs(map)`: `Array.from(map.entries())` turned into
   * `{ key, value }` objects.
   */
  function GetKeyValuePairs<K(==,!new), V>(m: OrdMap<K, V>): (pairs: seq<KeyValue<K, V>>)
    requires m.Valid()
    ensures |pairs| == |m.keys|
    ensures forall i :: 0 <= i < |pairs| ==> pairs[i].key == m.keys[i] && m.Get(pairs[i].key) == Some(pairs[i].value)
    ensures forall k :: k in m.values ==> exists i :: 0 <= i < |pairs| && pairs[i].key == k
    ensures forall i, j :: 0 <= i < j < |pairs| ==> pairs[i].key != pairs[j].key
  {
    seq(|m.keys|, i requires 0 <= i < |m.keys| => KeyValue(m.keys[i], m.values[m.keys[i]]))
  }
}
