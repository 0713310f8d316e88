/** Python dictionaries as association lists.  A `dict` remembers the order in
    which its keys were first inserted, and iteration follows that order; a
    sequence of pairs keeps exactly that information, so "determinism" of
    anything that iterates a dictionary can be stated and proved. */
module Dicts {
  import opened Wrappers

  /** An insertion-ordered dictionary from strings to `V`. */
  type Dict<V> = seq<(string, V)>

  /** The keys in iteration order, as `d.keys()`. */
  function Keys<V>(d: Dict<V>): (ks: seq<string>)
    ensures |ks| == |d|
    ensures forall i :: 0 <= i < |d| ==> ks[i] == d[i].0
  {
    if |d| == 0 then [] else [d[0].0] + Keys(d[1..])
  }

  /** No key occurs twice, which every Python `dict` guarantees. */
  predicate UniqueKeys<V>(d: Dict<V>) {
    forall i, j :: 0 <= i < j < |d| ==> d[i].0 != d[j].0
  }

  /** `d.get(k)`: the value stored under `k`, if any. */
  function Get<V>(d: Dict<V>, k: string): (r: Option<V>)
    ensures r.Some? <==> k in Keys(d)
  {
    if |d| == 0 then None
    else if d[0].0 == k then Some(d[0].1)
    else Get(d[1..], k)
  }

  /** A found value is stored at some index under that key. */
  lemma {:induction false} GetIndex<V>(d: Dict<V>, k: string) returns (i: nat)
    requires Get(d, k).Some?
    ensures i < |d| && d[i] == (k, Get(d, k).value)
  {
    if d[0].0 == k {
      i := 0;
    } else {
      var j := GetIndex(d[1..], k);
      i := j + 1;
    }
  }

  /** A found value is stored under its key. */
  lemma GetFound<V>(d: Dict<V>, k: string)
    ensures Get(d, k).Some? ==> (k, Get(d, k).value) in d
  {
    if Get(d, k).Some? {
      var i := GetIndex(d, k);
    }
  }

  /** With unique keys, the entry at any index is what a lookup of its key finds. */
  lemma {:induction false} GetAtIndex<V>(d: Dict<V>, i: nat)
    requires UniqueKeys(d)
    requires i < |d|
    ensures Get(d, d[i].0) == Some(d[i].1)
  {
    if i > 0 {
      assert d[0].0 != d[i].0;
      GetAtIndex(d[1..], i - 1);
    }
  }

  /** `d[k] = v`: replaces the value in place when `k` is present (keeping its
      position), and otherwise appends a new last entry. */
  function Put<V>(d: Dict<V>, k: string, v: V): (r: Dict<V>)
    ensures k in Keys(d) ==> Keys(r) == Keys(d)
    ensures k !in Keys(d) ==> r == d + [(k, v)]
  {
    if |d| == 0 then [(k, v)]
    else if d[0].0 == k then [(k, v)] + d[1..]
    else
      var rest := Put(d[1..], k, v);
      assert Keys(d) == [d[0].0] + Keys(d[1..]);
      [d[0]] + rest
  }

  /** The keys of a concatenation are the first part's keys, then the second's. */
  lemma KeysConcat<V>(a: Dict<V>, b: Dict<V>)
    ensures Keys(a + b) == Keys(a) + Keys(b)
  {
    forall i | 0 <= i < |a + b|
      ensures Keys(a + b)[i] == (Keys(a) + Keys(b))[i]
    {
    }
  }

  /** Appending a fresh key keeps the keys unique. */
  lemma {:induction false} AppendFreshKey<V>(d: Dict<V>, k: string, v: V)
    requires UniqueKeys(d)
    requires k !in Keys(d)
    ensures UniqueKeys(d + [(k, v)])
  {
    var e := d + [(k, v)];
    forall i, j | 0 <= i < j < |e|
      ensures e[i].0 != e[j].0
    {
      if j == |d| {
        assert Keys(d)[i] == d[i].0;
      }
    }
  }

  /** Looking up in a concatenation finds the first part's entry first. */
  lemma {:induction false} GetAppend<V>(a: Dict<V>, b: Dict<V>, k: string)
    ensures Get(a + b, k) == if Get(a, k).Some? then Get(a, k) else Get(b, k)
  {
    if |a| > 0 {
      assert (a + b)[1..] == a[1..] + b;
      GetAppend(a[1..], b, k);
    } else {
      assert a + b == b;
    }
  }

  /** Storing again under the key of a fresh last entry replaces that entry. */
  lemma {:induction false} PutLast<V>(d: Dict<V>, k: string, v: V, v': V)
    requires k !in Keys(d)
    ensures Put(d + [(k, v)], k, v') == d + [(k, v')]
  {
    if |d| > 0 {
      assert Keys(d)[0] == d[0].0;
      assert d + [(k, v)] == [d[0]] + (d[1..] + [(k, v)]);
      assert d + [(k, v')] == [d[0]] + (d[1..] + [(k, v')]);
      KeysTail(d, k);
      PutLast(d[1..], k, v, v');
      PutCons(d[0], d[1..] + [(k, v)], k, v');
    } else {
      assert d + [(k, v)] == [(k, v)];
    }
  }

  /** Storing under a key other than the first entry's leaves that entry first. */
  lemma PutCons<V>(x: (string, V), rest: Dict<V>, k: string, v: V)
    requires x.0 != k
    ensures Put([x] + rest, k, v) == [x] + Put(rest, k, v)
  {
    assert ([x] + rest)[0] == x && ([x] + rest)[1..] == rest;
  }

  /** A key absent from a dictionary is absent from its tail. */
  lemma KeysTail<V>(d: Dict<V>, k: string)
    requires |d| > 0 && k !in Keys(d)
    ensures k !in Keys(d[1..])
  {
    forall i | 0 <= i < |d[1..]|
      ensures Keys(d[1..])[i] != k
    {
      assert Keys(d)[i + 1] == d[i + 1].0;
    }
  }

  /** A prefix of a dictionary is a dictionary. */
  lemma UniquePrefix<V>(d: Dict<V>, n: nat)
    requires UniqueKeys(d)
    requires n <= |d|
    ensures UniqueKeys(d[..n])
  {
  }
}
