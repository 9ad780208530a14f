/** Counting dictionaries: a JavaScript object whose values are counts,
    bumped with `counts[key] = (counts[key] || 0) + 1`. */
module Tallies {
  import opened Dicts
  import opened Seqs

  /** `counts[key] || 0` */
  function Tally(counts: Dict<nat>, key: string): nat {
    if key in counts.items then counts.items[key] else 0
  }

  /** `counts[key] = (counts[key] || 0) + 1` */
  function Bump(counts: Dict<nat>, key: string): (r: Dict<nat>)
    requires counts.Valid()
    ensures r.Valid()
  {
    counts.Put(key, Tally(counts, key) + 1)
  }

  /** Bumping every key of `keys`, in order. */
  function BumpAll(counts: Dict<nat>, keys: seq<string>): (r: Dict<nat>)
    requires counts.Valid()
    ensures r.Valid()
    decreases |keys|
  {
    if keys == [] then counts else Bump(BumpAll(counts, keys[..|keys| - 1]), keys[|keys| - 1])
  }

  /** `keys.forEach(k => counts[k] = (counts[k] || 0) + 1)` */
  method BumpEach(counts: Dict<nat>, keys: seq<string>) returns (r: Dict<nat>)
    requires counts.Valid()
    ensures r == BumpAll(counts, keys)
  {
    r := counts;
    for j := 0 to |keys|
      invariant r == BumpAll(counts, keys[..j])
    {
      assert keys[..j + 1][..j] == keys[..j];
      r := Bump(r, keys[j]);
    }
    assert keys[..|keys|] == keys;
  }

  /** After bumping, each key's count has grown by its number of occurrences
      in `keys`, and the keys present are the old ones and those of `keys`. */
  lemma {:induction false} BumpAllTally(counts: Dict<nat>, keys: seq<string>, k: string)
    requires counts.Valid()
    ensures Tally(BumpAll(counts, keys), k) == Tally(counts, k) + Occurrences(keys, k)
    ensures k in BumpAll(counts, keys).items <==> k in counts.items || k in keys
    decreases |keys|
  {
    if keys != [] {
      var init := keys[..|keys| - 1];
      assert keys == init + [keys[|keys| - 1]];
      BumpAllTally(counts, init, k);
      OccurrencesSnoc(init, keys[|keys| - 1], k);
    }
  }

  /** Bumping `a` and then `b` is bumping `a + b`. */
  lemma {:induction false} BumpAllAppend(counts: Dict<nat>, a: seq<string>, b: seq<string>)
    requires counts.Valid()
    ensures BumpAll(BumpAll(counts, a), b) == BumpAll(counts, a + b)
    decreases |b|
  {
    if b == [] {
      assert a + b == a;
    } else {
      var init := b[..|b| - 1];
      BumpAllAppend(counts, a, init);
      assert (a + b)[..|a + b| - 1] == a + init;
    }
  }

  /** The sum of the counts stored under `keys`. */
  function SumOf(keys: seq<string>, items: map<string, nat>): nat
    requires forall k :: k in keys ==> k in items
  {
    if keys == [] then 0 else items[keys[0]] + SumOf(keys[1..], items)
  }

  /** The sum of all counts. */
  function Total(d: Dict<nat>): nat
    requires d.Valid()
  {
    SumOf(d.keys, d.items)
  }

  /** Every bump adds one to the sum, so bumping `keys` adds their number. */
  lemma {:induction false} TotalBumpAll(counts: Dict<nat>, keys: seq<string>)
    requires counts.Valid()
    ensures Total(BumpAll(counts, keys)) == Total(counts) + |keys|
    decreases |keys|
  {
    if keys != [] {
      var prev := BumpAll(counts, keys[..|keys| - 1]);
      TotalBumpAll(counts, keys[..|keys| - 1]);
      TotalBump(prev, keys[|keys| - 1]);
    }
  }

  lemma TotalBump(d: Dict<nat>, key: string)
    requires d.Valid()
    ensures Total(Bump(d, key)) == Total(d) + 1
  {
    if key in d.items {
      TotalBumpPresent(d, key);
    } else {
      TotalBumpAbsent(d, key);
    }
  }

  lemma TotalBumpPresent(d: Dict<nat>, key: string)
    requires d.Valid() && key in d.items
    ensures Total(Bump(d, key)) == Total(d) + 1
  {
    assert Bump(d, key).keys == d.keys;
    assert Bump(d, key).items == d.items[key := d.items[key] + 1];
    SumBumpOne(d.keys, d.items, key);
  }

  lemma TotalBumpAbsent(d: Dict<nat>, key: string)
    requires d.Valid() && key !in d.items
    ensures Total(Bump(d, key)) == Total(d) + 1
  {
    var r := Bump(d, key);
    assert r.keys == d.keys + [key] && r.items == d.items[key := 1];
    SumSnoc(d.keys, key, r.items);
    SumFrame(d.keys, d.items, key, 1);
  }

  lemma {:induction false} SumSnoc(keys: seq<string>, x: string, items: map<string, nat>)
    requires forall k :: k in keys ==> k in items
    requires x in items
    ensures SumOf(keys + [x], items) == SumOf(keys, items) + items[x]
  {
    if keys != [] {
      assert (keys + [x])[1..] == keys[1..] + [x];
      SumSnoc(keys[1..], x, items);
    }
  }

  /** Changing the count of a key not listed leaves the sum alone. */
  lemma {:induction false} SumFrame(keys: seq<string>, items: map<string, nat>, k: string, v: nat)
    requires forall j :: j in keys ==> j in items
    requires k !in keys
    ensures SumOf(keys, items[k := v]) == SumOf(keys, items)
  {
    if keys != [] {
      SumFrame(keys[1..], items, k, v);
    }
  }

  /** Adding one to the count of a key listed once adds one to the sum. */
  lemma {:induction false} SumBumpOne(keys: seq<string>, items: map<string, nat>, k: string)
    requires forall j :: j in keys ==> j in items
    requires forall i, j :: 0 <= i < j < |keys| ==> keys[i] != keys[j]
    requires k in keys
    ensures SumOf(keys, items[k := items[k] + 1]) == SumOf(keys, items) + 1
  {
    var rest := keys[1..];
    assert forall i, j :: 0 <= i < j < |rest| ==> rest[i] != rest[j] by {
      forall i, j | 0 <= i < j < |rest| ensures rest[i] != rest[j] {
        assert rest[i] == keys[i + 1] && rest[j] == keys[j + 1];
      }
    }
    if keys[0] == k {
      assert k !in rest by {
        forall j | 0 <= j < |rest| ensures rest[j] != k {
          assert rest[j] == keys[j + 1];
        }
      }
      SumFrame(rest, items, k, items[k] + 1);
    } else {
      SumBumpOne(rest, items, k);
    }
  }
}
