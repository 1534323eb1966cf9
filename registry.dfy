/** A `BTreeMap<K, String>` from codes to country names, seen as the sequence
    of its entries in iteration (ascending key) order, and the first-match
    name search both country-code registries run over it. */
module Registry {
  import opened Wrappers
  import opened Text

  datatype Entry<K> = Entry(key: K, name: string)

  /** `contains_key`. */
  predicate HasKey<K(==)>(entries: seq<Entry<K>>, k: K) {
    exists i :: 0 <= i < |entries| && entries[i].key == k
  }

  /** The keys of the map. */
  function Keys<K(==)>(entries: seq<Entry<K>>): set<K> {
    set i | 0 <= i < |entries| :: entries[i].key
  }

  /** Entry `i` is the first, in iteration order, whose name contains `q`. */
  ghost predicate FirstMatch<K>(entries: seq<Entry<K>>, q: string, i: int) {
    && 0 <= i < |entries|
    && Contains(entries[i].name, q)
    && forall j :: 0 <= j < i ==> !Contains(entries[j].name, q)
  }

  /** The `for (k, v) in map.iter()` loop of `find`: returns the key of the
      first entry whose name contains `q`, or `None` when no name does. */
  method FindFirst<K>(entries: seq<Entry<K>>, q: string) returns (r: Option<K>)
    ensures r.None? <==> forall i :: 0 <= i < |entries| ==> !Contains(entries[i].name, q)
    ensures r.Some? ==> exists i :: FirstMatch(entries, q, i) && entries[i].key == r.value
  {
    var i := 0;
    while i < |entries|
      invariant 0 <= i <= |entries|
      invariant forall j :: 0 <= j < i ==> !Contains(entries[j].name, q)
    {
      if Contains(entries[i].name, q) {
        assert FirstMatch(entries, q, i);
        return Some(entries[i].key);
      }
      i := i + 1;
    }
    return None;
  }
}
