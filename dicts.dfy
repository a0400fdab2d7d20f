/** Python's insertion-ordered `dict`, for the dictionaries whose iteration order the script relies on. */
module Dicts {

  /** A dict with string keys, as its keys in insertion order and the key-to-value mapping. */
  datatype Dict<V> = Dict(order: seq<string>, entries: map<string, V>) {

    /** Every key is listed once, and exactly the mapped keys are listed. */
    ghost predicate Valid() {
      && (forall i, j :: 0 <= i < j < |order| ==> order[i] != order[j])
      && (forall k :: k in entries <==> k in order)
    }

    /** `d[k] = v`: a key already present keeps its place, a new key goes last. */
    function Set(k: string, v: V): (d: Dict<V>)
      requires Valid()
      ensures d.Valid()
      ensures d.order == if k in entries then order else order + [k]
      ensures d.entries == entries[k := v]
    {
      Dict(if k in entries then order else order + [k], entries[k := v])
    }

    /** `d.values()`, in key order. */
    function Values(): (vs: seq<V>)
      requires Valid()
      ensures |vs| == |order|
      ensures forall i :: 0 <= i < |order| ==> order[i] in entries && vs[i] == entries[order[i]]
    {
      seq(|order|, i requires 0 <= i < |order| => entries[order[i]])
    }
  }

  /** The empty dict. */
  function Empty<V>(): (d: Dict<V>)
    ensures d.Valid() && d.order == []
  {
    Dict([], map[])
  }

  /** The elements of `s` in the order of their first occurrence: the key order of a dict
      filled by assigning the elements of `s` one after another. */
  function Dedup(s: seq<string>): (r: seq<string>)
    ensures forall i, j :: 0 <= i < j < |r| ==> r[i] != r[j]
    ensures forall k :: k in r <==> k in s
  {
    if s == [] then []
    else
      var p := Dedup(s[..|s| - 1]);
      assert s == s[..|s| - 1] + [s[|s| - 1]];
      if s[|s| - 1] in p then p else p + [s[|s| - 1]]
  }

  /** Concatenation is associative (stated for the solver once, generically). */
  lemma AppendAssoc<T>(a: seq<T>, b: seq<T>, c: seq<T>)
    ensures (a + b) + c == a + (b + c)
  {
  }

  /** `s` concatenated `n` times. */
  function Repeat<T>(s: seq<T>, n: nat): (r: seq<T>)
    ensures |r| == |s| * n
  {
    if n == 0 then [] else Repeat(s, n - 1) + s
  }
}
