/**
 * A map keyed by a pair of keys, stored as a map from the first key to an
 * inner map from the second key to the value (jtstest DoubleKeyMap).
 */
module DoubleKeyMaps {
  import opened Wrappers

  /** The value stored for (key1, key2) in a two-level map, or None (Java null). */
  function Entry<K1(==), K2(==), V>(top: map<K1, map<K2, V>>, key1: K1, key2: K2): (r: Option<V>)
    ensures r.None? <==> key1 !in top || key2 !in top[key1]
    ensures r.Some? ==> r.value == top[key1][key2]
  {
    if key1 in top && key2 in top[key1] then Some(top[key1][key2]) else None
  }

  /** The inner map of key1, empty when key1 has none. */
  function KeyMap<K1(==), K2(==), V>(top: map<K1, map<K2, V>>, key1: K1): map<K2, V>
  {
    if key1 in top then top[key1] else map[]
  }

  /** The two-level map after storing value under (key1, key2). */
  function Stored<K1(==), K2(==), V>(top: map<K1, map<K2, V>>, key1: K1, key2: K2, value: V): map<K1, map<K2, V>>
  {
    top[key1 := KeyMap(top, key1)[key2 := value]]
  }

  /** A stored value is read back. */
  lemma GetAfterPut<K1, K2, V>(top: map<K1, map<K2, V>>, key1: K1, key2: K2, value: V)
    ensures Entry(Stored(top, key1, key2, value), key1, key2) == Some(value)
    ensures key1 in Stored(top, key1, key2, value)
  {
  }

  /** Storing a value leaves every other pair as it was, also under the same first key. */
  lemma PutKeepsOthers<K1, K2, V>(top: map<K1, map<K2, V>>, key1: K1, key2: K2, value: V, k1: K1, k2: K2)
    requires k1 != key1 || k2 != key2
    ensures Entry(Stored(top, key1, key2, value), k1, k2) == Entry(top, k1, k2)
  {
  }

  /** Storing a value adds key1 to the first-level keys and nothing else. */
  lemma PutKeySet<K1, K2, V>(top: map<K1, map<K2, V>>, key1: K1, key2: K2, value: V)
    ensures Stored(top, key1, key2, value).Keys == top.Keys + {key1}
    ensures KeyMap(Stored(top, key1, key2, value), key1).Keys == KeyMap(top, key1).Keys + {key2}
  {
  }

  class DoubleKeyMap<K1(==), K2(==), V> {
    var topMap: map<K1, map<K2, V>>

    constructor()
      ensures topMap == map[]
    {
      topMap := map[];
    }

    /** createKeyMap: register an empty inner map for key1 and return it. */
    method CreateKeyMap(key1: K1) returns (m: map<K2, V>)
      modifies this
      ensures m == map[] && topMap == old(topMap)[key1 := map[]]
    {
      m := map[];
      topMap := topMap[key1 := m];
    }

    /** put: store value under (key1, key2), creating the inner map of key1 when it is missing. */
    method Put(key1: K1, key2: K2, value: V)
      modifies this
      ensures topMap == Stored(old(topMap), key1, key2, value)
    {
      var keyMap: map<K2, V>;
      if key1 in topMap {
        keyMap := topMap[key1];
      } else {
        keyMap := CreateKeyMap(key1);
      }
      topMap := topMap[key1 := keyMap[key2 := value]];
    }

    /** get: the value under (key1, key2), None when either key is absent. */
    method Get(key1: K1, key2: K2) returns (r: Option<V>)
      ensures r == Entry(topMap, key1, key2)
    {
      if key1 !in topMap {
        return None;
      }
      var keyMap := topMap[key1];
      if key2 !in keyMap {
        return None;
      }
      return Some(keyMap[key2]);
    }

    /** keySet(): the first-level keys. */
    method KeySet() returns (s: set<K1>)
      ensures forall k :: k in s <==> k in topMap
    {
      s := topMap.Keys;
    }

    /** keySet(key): the second-level keys under key, empty when key is absent. */
    method KeySetOf(key: K1) returns (s: set<K2>)
      ensures key !in topMap ==> s == {}
      ensures forall k :: k in s <==> Entry(topMap, key, k).Some?
    {
      if key !in topMap {
        return {};
      }
      s := topMap[key].Keys;
    }

    /**
     * values(key1): the values under key1, one per second-level key, empty
     * when key1 is absent; keys lists the second-level keys in the order the
     * values come.
     */
    method Values(key1: K1) returns (vs: seq<V>, ghost keys: seq<K2>)
      ensures key1 !in topMap ==> vs == []
      ensures |vs| == |keys| == |KeyMap(topMap, key1)|
      ensures forall i, j :: 0 <= i < j < |keys| ==> keys[i] != keys[j]
      ensures forall k :: k in keys <==> Entry(topMap, key1, k).Some?
      ensures forall i :: 0 <= i < |keys| ==> Entry(topMap, key1, keys[i]) == Some(vs[i])
    {
      if key1 !in topMap {
        return [], [];
      }
      var keyMap := topMap[key1];
      var rest := keyMap;
      vs, keys := [], [];
      while rest != map[]
        invariant forall k :: k in keyMap <==> k in rest || k in keys
        invariant forall k :: k in rest ==> k !in keys && rest[k] == keyMap[k]
        invariant forall i, j :: 0 <= i < j < |keys| ==> keys[i] != keys[j]
        invariant |vs| == |keys| && |keys| + |rest.Keys| == |keyMap.Keys|
        invariant forall i :: 0 <= i < |keys| ==> keys[i] in keyMap && keyMap[keys[i]] == vs[i]
        decreases |rest.Keys|
      {
        var k :| k in rest;
        vs, keys := vs + [rest[k]], keys + [k];
        assert rest.Keys - {k} == (rest - {k}).Keys;
        rest := rest - {k};
      }
      assert rest.Keys == {};
    }
  }
}
