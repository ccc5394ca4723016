/** A JavaScript object used as a dictionary from strings to arrays: the key-to-list map and the
    order in which keys were first added (the order `Object.keys` reports them in). */
module Dict {

  datatype Dict<V> = Dict(entries: map<string, seq<V>>, keys: seq<string>)
  {
    /** The key order lists each key of `entries` once. */
    ghost predicate Valid()
    {
      && (forall i :: 0 <= i < |keys| ==> keys[i] !in keys[..i])
      && (forall k :: k in entries <==> k in keys)
    }
  }

  function Empty<V>(): (d: Dict<V>)
    ensures d.Valid() && d.entries == map[] && d.keys == []
  {
    Dict(map[], [])
  }

  /** The list under `k`, or the empty list when `k` is absent. */
  function Get<V>(d: Dict<V>, k: string): seq<V>
  {
    if k in d.entries then d.entries[k] else []
  }

  /** `if (!d[k]) d[k] = []; d[k].push(v)`. */
  function Push<V>(d: Dict<V>, k: string, v: V): (r: Dict<V>)
    ensures Get(r, k) == Get(d, k) + [v]
    ensures forall k' :: k' != k ==> Get(r, k') == Get(d, k')
    ensures r.entries.Keys == d.entries.Keys + {k}
    ensures r.keys == if k in d.entries then d.keys else d.keys + [k]
    ensures d.Valid() ==> r.Valid()
  {
    if k in d.entries then Dict(d.entries[k := d.entries[k] + [v]], d.keys)
    else Dict(d.entries[k := [v]], d.keys + [k])
  }

  /** `if (!d[k]) d[k] = []; if (!d[k].includes(v)) d[k].push(v)`. */
  function PushUnique<V(==)>(d: Dict<V>, k: string, v: V): (r: Dict<V>)
    ensures Get(r, k) == if v in Get(d, k) then Get(d, k) else Get(d, k) + [v]
    ensures forall k' :: k' != k ==> Get(r, k') == Get(d, k')
    ensures r.entries.Keys == d.entries.Keys + {k}
    ensures r.keys == if k in d.entries then d.keys else d.keys + [k]
    ensures d.Valid() ==> r.Valid()
  {
    if v in Get(d, k) then d else Push(d, k, v)
  }

  /** No list of `d` holds a value twice. */
  ghost predicate ListsDistinct<V>(d: Dict<V>)
  {
    forall k :: k in d.entries ==> Distinct(d.entries[k])
  }

  ghost predicate Distinct<V>(s: seq<V>)
  {
    forall i, j :: 0 <= i < j < |s| ==> s[i] != s[j]
  }

  /** Appending a value the list does not hold keeps it free of repeats. */
  lemma {:induction false} DistinctSnoc<V>(s: seq<V>, v: V)
    requires Distinct(s) && v !in s
    ensures Distinct(s + [v])
  {
    var t := s + [v];
    forall i, j | 0 <= i < j < |t| ensures t[i] != t[j] {
      assert t[i] == s[i];
      if j < |s| {
        assert t[j] == s[j];
      }
    }
  }

  /** `PushUnique` keeps every list free of repeats. */
  lemma {:induction false} PushUniqueDistinct<V>(d: Dict<V>, k: string, v: V)
    requires ListsDistinct(d)
    ensures ListsDistinct(PushUnique(d, k, v))
  {
    var r := PushUnique(d, k, v);
    forall k' | k' in r.entries ensures Distinct(r.entries[k']) {
      assert r.entries[k'] == Get(r, k');
      if k' in d.entries {
        assert Get(d, k') == d.entries[k'];
      } else {
        assert Get(d, k') == [];
      }
      if k' == k && v !in Get(d, k) {
        DistinctSnoc(Get(d, k), v);
      }
    }
  }
}
