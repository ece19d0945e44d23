/**
 * Insertion-ordered dictionaries, as the Python code relies on them: the keys in the
 * order they were first inserted, paired with the key-to-value map.
 */
module OrderedDicts {

  datatype Option<T> = None | Some(value: T)

  /** The keys are pairwise distinct. */
  ghost predicate Distinct<K>(s: seq<K>)
  {
    forall i, j :: 0 <= i < j < |s| ==> s[i] != s[j]
  }

  datatype KeyedMap<K, V> = KeyedMap(keys: seq<K>, values: map<K, V>)
  {
    /** Every key occurs once in the key order, and the key order lists exactly the map's keys. */
    ghost predicate Valid()
    {
      && Distinct(keys)
      && (forall k :: k in values ==> k in keys)
      && (forall i :: 0 <= i < |keys| ==> keys[i] in values)
    }
  }

  /** A Python dict: a well-formed insertion-ordered map. */
  type ODict<K, V> = d: KeyedMap<K, V> | d.Valid() witness KeyedMap([], map[])

  function Empty<K, V>(): (d: ODict<K, V>)
    ensures d.keys == [] && d.values == map[]
  {
    KeyedMap([], map[])
  }

  /**
   * `d[k] = v`: the value of `k` becomes `v` (the last write wins), every other key keeps
   * its value, and a key already present keeps its place in the key order while a new key
   * goes last.
   */
  function Put<K, V>(d: ODict<K, V>, k: K, v: V): (r: ODict<K, V>)
    ensures k in r.values && r.values[k] == v
    ensures r.values.Keys == d.values.Keys + {k}
    ensures forall j :: j != k && j in d.values ==> r.values[j] == d.values[j]
    ensures k in d.values ==> r.keys == d.keys
    ensures k !in d.values ==> r.keys == d.keys + [k]
  {
    if k in d.values then
      KeyedMap(d.keys, d.values[k := v])
    else
      var r := KeyedMap(d.keys + [k], d.values[k := v]);
      assert r.Valid() by {
        forall i, j | 0 <= i < j < |r.keys| ensures r.keys[i] != r.keys[j] {
          if j == |d.keys| {
            assert d.keys[i] in d.keys;
          }
        }
      }
      r
  }

  /** The value stored under `k`, or `default` when `k` is absent (a `defaultdict` read). */
  function GetOr<K, V>(d: ODict<K, V>, k: K, default: V): V
  {
    if k in d.values then d.values[k] else default
  }
}
