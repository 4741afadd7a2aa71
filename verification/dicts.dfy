/** Python dictionaries with string keys, as the insertion-ordered list of
    their entries: iteration, `str(d)` and `sorted(d.items())` all see this
    order, so the model keeps it. */
module Dicts {
  import opened Wrappers

  datatype Entry<V> = Entry(key: string, value: V)

  type Dict<V> = seq<Entry<V>>

  function Keys<V>(d: Dict<V>): (ks: seq<string>)
    ensures |ks| == |d|
    ensures forall i :: 0 <= i < |d| ==> ks[i] == d[i].key
  {
    seq(|d|, i requires 0 <= i < |d| => d[i].key)
  }

  /** `k in d` */
  predicate HasKey<V>(d: Dict<V>, k: string) {
    k in Keys(d)
  }

  /** No key occurs twice: every real Python dict satisfies this. */
  predicate DistinctKeys<V>(d: Dict<V>) {
    forall i, j :: 0 <= i < j < |d| ==> d[i].key != d[j].key
  }

  /** `d.get(k)`: the value under `k`, if any. */
  function Lookup<V>(d: Dict<V>, k: string): Option<V>
    decreases |d|
  {
    if d == [] then None
    else if d[0].key == k then Some(d[0].value)
    else Lookup(d[1..], k)
  }

  /** `d[k] = v`: an existing key keeps its place and takes the new value, a
      new key goes to the end. */
  function Put<V>(d: Dict<V>, k: string, v: V): Dict<V>
    decreases |d|
  {
    if d == [] then [Entry(k, v)]
    else if d[0].key == k then [Entry(k, v)] + d[1..]
    else [d[0]] + Put(d[1..], k, v)
  }

  /** `d.update(u)` (and, from `{}`, a dict comprehension): `u`'s entries
      are put one after the other, in order. */
  function Update<V>(d: Dict<V>, u: Dict<V>): Dict<V>
    decreases |u|
  {
    if u == [] then d
    else Put(Update(d, u[..|u| - 1]), u[|u| - 1].key, u[|u| - 1].value)
  }

  /** The value of the last entry of `u` under `k`: the one a dict built
      from `u` keeps. */
  function LastValue<V>(u: Dict<V>, k: string): Option<V>
    decreases |u|
  {
    if u == [] then None
    else if u[|u| - 1].key == k then Some(u[|u| - 1].value)
    else LastValue(u[..|u| - 1], k)
  }

  lemma {:induction false} LookupFindsKey<V>(d: Dict<V>, k: string)
    ensures Lookup(d, k).Some? <==> HasKey(d, k)
    decreases |d|
  {
    if d != [] && d[0].key != k {
      LookupFindsKey(d[1..], k);
      assert Keys(d) == [d[0].key] + Keys(d[1..]);
    }
  }

  /** In a dict without repeated keys, the lookup finds the entry's value. */
  lemma {:induction false} LookupAt<V>(d: Dict<V>, i: nat)
    requires DistinctKeys(d) && i < |d|
    ensures Lookup(d, d[i].key) == Some(d[i].value)
    decreases i
  {
    if i > 0 {
      LookupAt(d[1..], i - 1);
    }
  }

  /** `d[k] = v` sets `k` and leaves every other key alone. */
  lemma {:induction false} PutLookup<V>(d: Dict<V>, k: string, v: V)
    ensures Lookup(Put(d, k, v), k) == Some(v)
    ensures forall k' :: k' != k ==> Lookup(Put(d, k, v), k') == Lookup(d, k')
    decreases |d|
  {
    if d != [] && d[0].key != k {
      PutLookup(d[1..], k, v);
    }
  }

  /** `d[k] = v` on an existing key keeps every entry's key in place. */
  lemma {:induction false} PutKeepsPlaces<V>(d: Dict<V>, k: string, v: V)
    requires HasKey(d, k)
    ensures |Put(d, k, v)| == |d|
    ensures forall i :: 0 <= i < |d| ==> Put(d, k, v)[i].key == d[i].key
    decreases |d|
  {
    var j :| 0 <= j < |d| && Keys(d)[j] == k;
    if d[0].key != k {
      assert Keys(d[1..])[j - 1] == k;
      PutKeepsPlaces(d[1..], k, v);
      var p := Put(d, k, v);
      assert p == [d[0]] + Put(d[1..], k, v);
      forall i | 0 < i < |d| ensures p[i].key == d[i].key {
        assert p[i] == Put(d[1..], k, v)[i - 1];
      }
    }
  }

  /** `d[k] = v` keeps the order of the keys, appending `k` when it is new. */
  lemma PutKeys<V>(d: Dict<V>, k: string, v: V)
    ensures Keys(Put(d, k, v)) == if HasKey(d, k) then Keys(d) else Keys(d) + [k]
  {
    var p := Put(d, k, v);
    if HasKey(d, k) {
      PutKeepsPlaces(d, k, v);
      assert Keys(p) == Keys(d);
    } else {
      PutAppends(d, k, v);
      assert Keys(p) == Keys(d) + [k];
    }
  }

  /** Putting a new key appends its entry. */
  lemma {:induction false} PutAppends<V>(d: Dict<V>, k: string, v: V)
    requires !HasKey(d, k)
    ensures Put(d, k, v) == d + [Entry(k, v)]
    decreases |d|
  {
    if d != [] {
      assert Keys(d) == [d[0].key] + Keys(d[1..]);
      PutAppends(d[1..], k, v);
      assert d == [d[0]] + d[1..];
    }
  }

  lemma PutDistinct<V>(d: Dict<V>, k: string, v: V)
    requires DistinctKeys(d)
    ensures DistinctKeys(Put(d, k, v))
  {
    PutKeys(d, k, v);
    var p := Put(d, k, v);
    assert forall i :: 0 <= i < |p| ==> p[i].key == Keys(p)[i];
    if !HasKey(d, k) {
      assert forall i :: 0 <= i < |d| ==> d[i].key != k;
    }
  }

  /** After `d.update(u)`: a key of `u` has its last value in `u`, any other
      key its value in `d`. */
  lemma {:induction false} UpdateLookup<V>(d: Dict<V>, u: Dict<V>)
    ensures forall k :: Lookup(Update(d, u), k)
                        == if LastValue(u, k).Some? then LastValue(u, k) else Lookup(d, k)
    decreases |u|
  {
    if u != [] {
      var init, last := u[..|u| - 1], u[|u| - 1];
      UpdateLookup(d, init);
      PutLookup(Update(d, init), last.key, last.value);
    }
  }

  /** After `d.update(u)`: `d`'s keys keep their places at the front, the
      keys are those of `d` and `u`, and none is repeated when none was. */
  lemma UpdateKeys<V>(d: Dict<V>, u: Dict<V>)
    ensures |Update(d, u)| >= |d| && Keys(Update(d, u))[..|d|] == Keys(d)
    ensures forall k :: HasKey(Update(d, u), k) <==> HasKey(d, k) || HasKey(u, k)
    ensures DistinctKeys(d) ==> DistinctKeys(Update(d, u))
  {
    UpdatePrefix(d, u);
    UpdateHasKey(d, u);
    if DistinctKeys(d) {
      UpdateDistinct(d, u);
    }
  }

  lemma {:induction false} UpdatePrefix<V>(d: Dict<V>, u: Dict<V>)
    ensures |Update(d, u)| >= |d| && Keys(Update(d, u))[..|d|] == Keys(d)
    decreases |u|
  {
    if u != [] {
      var init, last := u[..|u| - 1], u[|u| - 1];
      var mid := Update(d, init);
      UpdatePrefix(d, init);
      PutKeys(mid, last.key, last.value);
      assert Keys(Update(d, u))[..|d|] == Keys(mid)[..|d|];
    }
  }

  lemma {:induction false} UpdateHasKey<V>(d: Dict<V>, u: Dict<V>)
    ensures forall k :: HasKey(Update(d, u), k) <==> HasKey(d, k) || HasKey(u, k)
    decreases |u|
  {
    if u != [] {
      var init, last := u[..|u| - 1], u[|u| - 1];
      var mid := Update(d, init);
      UpdateHasKey(d, init);
      PutKeys(mid, last.key, last.value);
      assert Keys(u) == Keys(init) + [last.key];
      forall k ensures HasKey(Update(d, u), k) <==> HasKey(d, k) || HasKey(u, k) {
        assert HasKey(u, k) <==> HasKey(init, k) || k == last.key;
        assert HasKey(Update(d, u), k) <==> HasKey(mid, k) || k == last.key;
      }
    }
  }

  lemma {:induction false} UpdateDistinct<V>(d: Dict<V>, u: Dict<V>)
    requires DistinctKeys(d)
    ensures DistinctKeys(Update(d, u))
    decreases |u|
  {
    if u != [] {
      var init, last := u[..|u| - 1], u[|u| - 1];
      UpdateDistinct(d, init);
      PutDistinct(Update(d, init), last.key, last.value);
    }
  }

  /** In a dict without repeated keys the last value is the only one. */
  lemma {:induction false} LastValueIsLookup<V>(u: Dict<V>, k: string)
    requires DistinctKeys(u)
    ensures LastValue(u, k) == Lookup(u, k)
    decreases |u|
  {
    if u != [] {
      var init := u[..|u| - 1];
      LastValueIsLookup(init, k);
      if u[|u| - 1].key == k {
        LookupAt(u, |u| - 1);
      } else {
        LookupOfSnoc(init, u[|u| - 1], k);
        assert u == init + [u[|u| - 1]];
      }
    }
  }

  lemma {:induction false} LookupOfSnoc<V>(d: Dict<V>, e: Entry<V>, k: string)
    requires e.key != k
    ensures Lookup(d + [e], k) == Lookup(d, k)
    decreases |d|
  {
    if d != [] {
      assert (d + [e])[1..] == d[1..] + [e];
      LookupOfSnoc(d[1..], e, k);
    }
  }
}
