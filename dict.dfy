/** An insertion-ordered dictionary: the model of a JavaScript object whose
    string keys are enumerated (Object.keys, Object.values, Object.entries)
    in insertion order. Assigning to an existing key keeps its position;
    assigning to a new key appends it; `delete` removes it. JavaScript lists
    integer-like keys first, in ascending order; the model assumes there are
    none. Group ids (`always-on`, `group-…`) and extension ids (letters) are
    never integer-like; error messages and permission or type names are
    assumed not to be. */
module Dicts {

  datatype Dict<V> = Dict(keys: seq<string>, items: map<string, V>) {

    /** The key sequence has no repetitions and enumerates exactly the keys of the map. */
    ghost predicate Valid() {
      && (forall i, j :: 0 <= i < j < |keys| ==> keys[i] != keys[j])
      && (forall k :: k in items <==> k in keys)
    }

    /** Object.values: the values in key order. */
    function Values(): (vs: seq<V>)
      requires Valid()
      ensures |vs| == |keys|
      ensures forall i :: 0 <= i < |keys| ==> vs[i] == items[keys[i]]
    {
      seq(|keys|, i requires 0 <= i < |keys| => items[keys[i]])
    }

    /** `obj[k] = v` */
    function Put(k: string, v: V): (d: Dict<V>)
      requires Valid()
      ensures d.Valid()
      ensures d.items == items[k := v]
      ensures k in items ==> d.keys == keys
      ensures k !in items ==> d.keys == keys + [k]
    {
      if k in items then Dict(keys, items[k := v]) else Dict(keys + [k], items[k := v])
    }

    /** `delete obj[k]` */
    function Remove(k: string): (d: Dict<V>)
      requires Valid()
      ensures d.Valid()
      ensures d.items == items - {k}
      ensures d.keys == Without(keys, k)
    {
      WithoutFacts(keys, k);
      Dict(Without(keys, k), items - {k})
    }
  }

  /** The empty object `{}`. */
  function Empty<V>(): (d: Dict<V>)
    ensures d.Valid() && d.keys == [] && d.items == map[]
  {
    Dict([], map[])
  }

  /** The sequence with every occurrence of `x` dropped, order kept. */
  function Without(s: seq<string>, x: string): seq<string>
  {
    if s == [] then [] else (if s[0] == x then [] else [s[0]]) + Without(s[1..], x)
  }

  lemma {:induction false} WithoutFacts(s: seq<string>, x: string)
    ensures forall y :: y in Without(s, x) <==> y in s && y != x
    ensures (forall i, j :: 0 <= i < j < |s| ==> s[i] != s[j]) ==>
              (forall i, j :: 0 <= i < j < |Without(s, x)| ==> Without(s, x)[i] != Without(s, x)[j])
  {
    if s != [] {
      WithoutFacts(s[1..], x);
      var w := Without(s, x);
      if (forall i, j :: 0 <= i < j < |s| ==> s[i] != s[j]) {
        assert forall i, j :: 0 <= i < j < |s[1..]| ==> s[1..][i] != s[1..][j] by {
          forall i, j | 0 <= i < j < |s[1..]| ensures s[1..][i] != s[1..][j] {
            assert s[1..][i] == s[i + 1] && s[1..][j] == s[j + 1];
          }
        }
        assert s[0] !in s[1..];
      }
    }
  }
}
