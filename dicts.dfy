/**
 * Python's dict with string keys, as the program uses it: a finite map that remembers the order in which its keys were
 * first inserted. Assigning to a key that is already present replaces the value and keeps the key's
 * position; a new key goes to the end. Iterating over `values()` follows that order.
 */
module Dicts {
  import opened Wrappers

  datatype Dict<V> = Dict(order: seq<string>, m: map<string, V>) {

    /** The keys listed in `order` are distinct and are exactly the keys of `m`. */
    ghost predicate Valid()
    {
      && (forall i, j :: 0 <= i < j < |order| ==> order[i] != order[j])
      && (forall k :: k in m <==> k in order)
    }

    /** `d.get(k)`. */
    function Get(k: string): Option<V>
    {
      if k in m then Some(m[k]) else None
    }

    /** `d[k] = v`. */
    function Put(k: string, v: V): (r: Dict<V>)
      ensures Valid() ==> r.Valid()
      ensures r.Get(k) == Some(v)
      ensures forall y :: y != k ==> r.Get(y) == Get(y)
      ensures k in m ==> r.order == order
      ensures k !in m ==> r.order == order + [k]
    {
      if k in m then Dict(order, m[k := v]) else Dict(order + [k], m[k := v])
    }

    /** `list(d.values())`, in insertion order. */
    function Values(): (r: seq<V>)
      requires Valid()
      ensures |r| == |order| == |m|
      ensures forall i :: 0 <= i < |order| ==> r[i] == m[order[i]]
    {
      DistinctSize(order, m);
      seq(|order|, i requires 0 <= i < |order| => m[order[i]])
    }
  }

  /** `{}`. */
  function Empty<V>(): (r: Dict<V>)
    ensures r.Valid() && |r.order| == 0 && forall k :: r.Get(k).None?
  {
    Dict([], map[])
  }

  /** A duplicate-free listing of a map's keys has as many entries as the map. */
  lemma DistinctSize<V>(order: seq<string>, m: map<string, V>)
    requires forall i, j :: 0 <= i < j < |order| ==> order[i] != order[j]
    requires forall k :: k in m <==> k in order
    ensures |order| == |m|
  {
    DistinctCount(order, m.Keys);
  }

  /** A duplicate-free listing of a set has as many entries as the set. */
  lemma {:induction false} DistinctCount(order: seq<string>, keys: set<string>)
    requires forall i, j :: 0 <= i < j < |order| ==> order[i] != order[j]
    requires forall k :: k in keys <==> k in order
    ensures |order| == |keys|
  {
    if |order| == 0 {
      assert keys == {};
    } else {
      var last := order[|order| - 1];
      var rest := order[..|order| - 1];
      forall k ensures k in keys - {last} <==> k in rest {
        if k in rest {
          var i :| 0 <= i < |rest| && rest[i] == k;
          assert order[i] == k;
        }
        if k in keys - {last} {
          var i :| 0 <= i < |order| && order[i] == k;
          assert i != |order| - 1;
          assert rest[i] == k;
        }
      }
      DistinctCount(rest, keys - {last});
    }
  }
}
