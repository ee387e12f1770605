/** Python's insertion-ordered `dict`, for the dictionaries whose iteration order the core depends on. */
module OrderedMap {

  /** The entries of a dict and its keys in first-insertion order. */
  datatype OMap<K(==), V> = OMap(keys: seq<K>, vals: map<K, V>) {
    /** Every key is listed once, and the listed keys are exactly the keys of the entries. */
    ghost predicate Valid() {
      && (forall i, j :: 0 <= i < j < |keys| ==> keys[i] != keys[j])
      && vals.Keys == (set k | k in keys)
    }
  }

  /** `{}`. */
  function Empty<K(==), V>(): (r: OMap<K, V>)
    ensures r.Valid() && r.vals == map[]
  {
    OMap([], map[])
  }

  /**
   * `d[k] = v`: the entry for `k` becomes `v`; a key already present keeps its
   * place in the iteration order, a new key goes last.
   */
  function Put<K(==), V>(d: OMap<K, V>, k: K, v: V): (r: OMap<K, V>)
    ensures d.Valid() ==> r.Valid()
    ensures r.vals == d.vals[k := v]
    ensures k in d.vals ==> r.keys == d.keys
    ensures k !in d.vals ==> r.keys == d.keys + [k]
  {
    OMap(if k in d.vals then d.keys else d.keys + [k], d.vals[k := v])
  }
}
