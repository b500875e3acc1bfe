/**
 A Python dict as the drive tables use it: keys in order of first insertion, and values
 that may be None.  A key whose value is None is a tombstone; get() cannot tell it from a
 missing key, a loop over the items can.
 */
module Dicts {
  import opened Alerts

  datatype Dict<V> = Dict(keys: seq<string>, entries: map<string, Option<V>>)

  ghost predicate Valid<V>(d: Dict<V>) {
    && (forall i, j :: 0 <= i < j < |d.keys| ==> d.keys[i] != d.keys[j])
    && (forall k :: k in d.keys <==> k in d.entries)
  }

  function Empty<V>(): Dict<V> {
    Dict([], map[])
  }

  /** d.get(k): None for a missing key and for a tombstone. */
  function Get<V>(d: Dict<V>, k: string): Option<V> {
    if k in d.entries then d.entries[k] else None
  }

  /** d[k] = v: a new key goes to the end, a known key keeps its place. */
  function Put<V>(d: Dict<V>, k: string, v: Option<V>): (r: Dict<V>)
    ensures Valid(d) ==> Valid(r)
  {
    Dict(if k in d.entries then d.keys else d.keys + [k], d.entries[k := v])
  }

  predicate NoTombstones<V>(d: Dict<V>) {
    forall k :: k in d.entries ==> d.entries[k].Some?
  }

  lemma {:induction false} GetPut<V>(d: Dict<V>, k: string, v: Option<V>, j: string)
    ensures Get(Put(d, k, v), j) == if j == k then v else Get(d, j)
  {
  }
}
