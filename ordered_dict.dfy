/**
 * Python's `dict` as the summariser uses it: string keys and string values,
 * kept in insertion order; assigning to an existing key replaces its value
 * where it stands.
 */
module OrderedDicts {
  import opened Wrappers

  datatype Entry = Entry(key: string, value: string)

  /** A dict as the sequence of its items, in iteration order. */
  type Dict = seq<Entry>

  /** `list(d.keys())`. */
  function Keys(d: Dict): (ks: seq<string>)
    ensures |ks| == |d| && forall i :: 0 <= i < |d| ==> ks[i] == d[i].key
  {
    seq(|d|, i requires 0 <= i < |d| => d[i].key)
  }

  /** No key appears twice, as in every Python dict. */
  predicate DistinctKeys(d: Dict) {
    forall i, j :: 0 <= i < j < |d| ==> d[i].key != d[j].key
  }

  /** The position of key `k`, if present. */
  function Position(d: Dict, k: string): (r: Option<nat>)
    ensures r.None? <==> k !in Keys(d)
    ensures r.Some? ==> r.value < |d| && d[r.value].key == k
    ensures r.Some? ==> forall j :: 0 <= j < r.value ==> d[j].key != k
  {
    if |d| == 0 then None
    else if d[0].key == k then Some(0)
    else match Position(d[1..], k)
      case None =>
        assert Keys(d) == [d[0].key] + Keys(d[1..]);
        None
      case Some(i) => Some(i + 1)
  }

  /** `d[k] = v`. */
  function Put(d: Dict, k: string, v: string): Dict {
    match Position(d, k)
    case Some(i) => d[i := Entry(k, v)]
    case None => d + [Entry(k, v)]
  }

  /**
   * Assignment to a dict: a new key goes to the end, an existing key keeps its
   * place and takes the new value, every other entry stays as it was.
   */
  lemma PutSpec(d: Dict, k: string, v: string)
    ensures var r := Put(d, k, v);
      && (k in Keys(d) ==> Keys(r) == Keys(d))
      && (k !in Keys(d) ==> Keys(r) == Keys(d) + [k])
      && (DistinctKeys(d) ==> DistinctKeys(r))
      && (forall i :: 0 <= i < |r| && r[i].key != k ==> r[i] == d[i])
      && (DistinctKeys(d) ==> forall i :: 0 <= i < |r| && r[i].key == k ==> r[i].value == v)
  {
  }
}
