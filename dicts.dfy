/** A Python dict as the script uses it: `d[k] = v` overwrites the value of
    an existing key in place and appends a new key at the end, so that
    `d.keys()` lists every key once, in the order it was first assigned. */
module Dicts {
  import opened Seqs

  datatype Dict<K(==), V> = Dict(order: seq<K>, at: map<K, V>) {

    /** Every key is listed once, and the listed keys are the map's keys. */
    ghost predicate Valid() {
      && Distinct(order)
      && (forall k | k in at :: k in order)
      && (forall k | k in order :: k in at)
    }

    /** `d[k] = v`. */
    function Put(k: K, v: V): (d: Dict<K, V>)
      requires Valid()
      ensures d.Valid()
      ensures d.at == at[k := v]
      ensures k in at ==> d.order == order
      ensures k !in at ==> d.order == order + [k]
    {
      if k in at then Dict(order, at[k := v]) else Dict(order + [k], at[k := v])
    }
  }

  /** `dict()`. */
  function Empty<K(==), V>(): (d: Dict<K, V>)
    ensures d.Valid() && d.order == []
  {
    Dict([], map[])
  }
}
