/** The part of Python's `collections.OrderedDict` the generator relies on:
    a table from path to an optional extension list that remembers the order
    in which its keys were first inserted. */
module OrderedDicts {

  datatype Option<T> = None | Some(value: T)

  /** `keys` is the iteration order, `vals` the lookup. */
  datatype OrderedDict = OrderedDict(keys: seq<string>, vals: map<string, Option<seq<string>>>)
  {
    /** Every key occurs once in the order, and the order lists exactly the
        keys of the lookup. */
    ghost predicate Valid()
    {
      && (forall a, b :: 0 <= a < b < |keys| ==> keys[a] != keys[b])
      && (forall k :: k in vals <==> k in keys)
    }

    /** Every key in the order can be looked up. */
    ghost predicate Listed()
    {
      forall k :: k in keys ==> k in vals
    }

    /** `d[k] = v`: a key already present keeps its place in the order and only
        its value is replaced; a new key goes to the end. */
    function Assign(k: string, v: Option<seq<string>>): (r: OrderedDict)
      ensures r.vals == vals[k := v]
      ensures k in vals ==> r.keys == keys
      ensures k !in vals ==> r.keys == keys + [k]
    {
      if k in vals then OrderedDict(keys, vals[k := v])
      else OrderedDict(keys + [k], vals[k := v])
    }
  }

  /** Assigning keeps every key once in the order and the order in step
      with the lookup. */
  lemma AssignValid(d: OrderedDict, k: string, v: Option<seq<string>>)
    requires d.Valid()
    ensures d.Assign(k, v).Valid()
  {
  }

  /** `OrderedDict()`. */
  const EMPTY: OrderedDict := OrderedDict([], map[])
}
