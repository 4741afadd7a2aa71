/** Python's `list.sort(key=...)` and `sorted(...)`: a stable sort. It is
    modelled as insertion sort over a strict "sorts before" relation
    `before`: `key(a) < key(b)` for an ascending sort, `key(b) < key(a)` for
    `reverse=True` (Python keeps equal keys in their original order in both
    directions). */
module Sorting {

  /** `before` is asymmetric and its complement is transitive: the shape of
      every "key(a) < key(b)" relation over a total order of keys. */
  ghost predicate StrictWeakOrder<T(!new)>(before: (T, T) -> bool) {
    && (forall a, b :: before(a, b) ==> !before(b, a))
    && (forall a, b, c :: before(a, c) ==> before(a, b) || before(b, c))
  }

  /** No element sorts before an earlier one. */
  predicate Ordered<T>(s: seq<T>, before: (T, T) -> bool) {
    forall i, j :: 0 <= i < j < |s| ==> !before(s[j], s[i])
  }

  /** Neither sorts before the other: equal keys. */
  predicate Tied<T>(a: T, b: T, before: (T, T) -> bool) {
    !before(a, b) && !before(b, a)
  }

  predicate Distinct<T(==)>(s: seq<T>) {
    forall i, j :: 0 <= i < j < |s| ==> s[i] != s[j]
  }

  /** `x` goes in front of the first element that does not sort before it. */
  function Insert<T>(x: T, t: seq<T>, before: (T, T) -> bool): (r: seq<T>)
    ensures |r| == |t| + 1
    decreases |t|
  {
    if t == [] || !before(t[0], x) then [x] + t
    else [t[0]] + Insert(x, t[1..], before)
  }

  function Sort<T>(s: seq<T>, before: (T, T) -> bool): (r: seq<T>)
    ensures |r| == |s|
    decreases |s|
  {
    if s == [] then [] else Insert(s[0], Sort(s[1..], before), before)
  }

  /** Where `Insert` puts `x`. */
  function InsertPos<T>(x: T, t: seq<T>, before: (T, T) -> bool): nat
    decreases |t|
  {
    if t == [] || !before(t[0], x) then 0 else 1 + InsertPos(x, t[1..], before)
  }

  lemma {:induction false} InsertSplit<T>(x: T, t: seq<T>, before: (T, T) -> bool)
    ensures InsertPos(x, t, before) <= |t|
    ensures var k := InsertPos(x, t, before);
            && Insert(x, t, before) == t[..k] + [x] + t[k..]
            && (forall m :: 0 <= m < k ==> before(t[m], x))
            && (k < |t| ==> !before(t[k], x))
    decreases |t|
  {
    if t != [] && before(t[0], x) {
      InsertSplit(x, t[1..], before);
      var k := InsertPos(x, t[1..], before);
      assert t[..k + 1] == [t[0]] + t[1..][..k];
      assert t[k + 1..] == t[1..][k..];
    }
  }

  lemma {:induction false} InsertPermutes<T>(x: T, t: seq<T>, before: (T, T) -> bool)
    ensures |Insert(x, t, before)| == |t| + 1
    ensures multiset(Insert(x, t, before)) == multiset(t) + multiset{x}
    decreases |t|
  {
    if t != [] && before(t[0], x) {
      InsertPermutes(x, t[1..], before);
      assert t == [t[0]] + t[1..];
    }
  }

  /** Sorting only rearranges. */
  lemma {:induction false} SortPermutes<T>(s: seq<T>, before: (T, T) -> bool)
    ensures |Sort(s, before)| == |s|
    ensures multiset(Sort(s, before)) == multiset(s)
    decreases |s|
  {
    if s != [] {
      SortPermutes(s[1..], before);
      InsertPermutes(s[0], Sort(s[1..], before), before);
      assert s == [s[0]] + s[1..];
    }
  }

  /** Element by element, where `Insert` leaves things. */
  lemma InsertAt<T>(x: T, t: seq<T>, before: (T, T) -> bool, m: nat)
    requires m <= |t|
    ensures InsertPos(x, t, before) <= |t| && |Insert(x, t, before)| == |t| + 1
    ensures Insert(x, t, before)[m] == if m < InsertPos(x, t, before) then t[m]
                                       else if m == InsertPos(x, t, before) then x
                                       else t[m - 1]
  {
    InsertSplit(x, t, before);
  }

  lemma InsertOrdered<T(!new)>(x: T, t: seq<T>, before: (T, T) -> bool)
    requires StrictWeakOrder(before)
    requires Ordered(t, before)
    ensures Ordered(Insert(x, t, before), before)
  {
    InsertSplit(x, t, before);
    var k := InsertPos(x, t, before);
    var r := Insert(x, t, before);
    assert forall i :: 0 <= i < |r| ==> r[i] == if i < k then t[i] else if i == k then x else t[i - 1];
    forall i, j | 0 <= i < j < |r|
      ensures !before(r[j], r[i])
    {
      if j == k {
        assert before(t[i], x);
      } else if i == k {
        assert !before(t[k], x);
        if j - 1 > k { assert !before(t[j - 1], t[k]); }
      }
    }
  }

  /** The result is in order. */
  lemma {:induction false} SortOrdered<T(!new)>(s: seq<T>, before: (T, T) -> bool)
    requires StrictWeakOrder(before)
    ensures Ordered(Sort(s, before), before)
    decreases |s|
  {
    if s != [] {
      SortOrdered(s[1..], before);
      InsertOrdered(s[0], Sort(s[1..], before), before);
    }
  }

  /** `x` precedes `y` in `r`. */
  ghost predicate Precedes<T>(r: seq<T>, x: T, y: T) {
    exists p, q :: 0 <= p < q < |r| && r[p] == x && r[q] == y
  }

  /** An inserted element goes in front of every element tied with it. */
  lemma InsertBeforeTied<T>(x: T, t: seq<T>, y: T, before: (T, T) -> bool)
    requires y in t && Tied(x, y, before)
    ensures Precedes(Insert(x, t, before), x, y)
  {
    InsertSplit(x, t, before);
    var k, r := InsertPos(x, t, before), Insert(x, t, before);
    var q :| 0 <= q < |t| && t[q] == y;
    InsertAt(x, t, before, k);
    InsertAt(x, t, before, q + 1);
    assert r[k] == x && r[q + 1] == y;
  }

  /** Inserting keeps the relative order of the elements already there. */
  lemma InsertKeepsOrder<T>(x: T, t: seq<T>, a: T, b: T, before: (T, T) -> bool)
    requires Precedes(t, a, b)
    ensures Precedes(Insert(x, t, before), a, b)
  {
    InsertSplit(x, t, before);
    var k, r := InsertPos(x, t, before), Insert(x, t, before);
    var p, q :| 0 <= p < q < |t| && t[p] == a && t[q] == b;
    var p', q' := if p < k then p else p + 1, if q < k then q else q + 1;
    InsertAt(x, t, before, p');
    InsertAt(x, t, before, q');
    assert r[p'] == a && r[q'] == b;
  }

  /** Stability: of two tied elements, the earlier one stays in front. */
  lemma {:induction false} SortStable<T(!new)>(s: seq<T>, before: (T, T) -> bool, i: nat, j: nat)
    requires i < j < |s| && Tied(s[i], s[j], before)
    ensures Precedes(Sort(s, before), s[i], s[j])
    decreases |s|
  {
    var t := Sort(s[1..], before);
    if i == 0 {
      SortPermutes(s[1..], before);
      assert s[j] in multiset(t) by { assert s[j] == s[1..][j - 1]; }
      InsertBeforeTied(s[0], t, s[j], before);
    } else {
      SortStable(s[1..], before, i - 1, j - 1);
      InsertKeepsOrder(s[0], t, s[i], s[j], before);
    }
  }

  lemma {:induction false} DistinctOnce<T>(s: seq<T>, x: T)
    requires Distinct(s)
    ensures multiset(s)[x] <= 1
    decreases |s|
  {
    if s != [] {
      DistinctOnce(s[1..], x);
      assert s == [s[0]] + s[1..];
      if s[0] == x {
        assert x !in s[1..];
      }
    }
  }

  lemma CountsTwice<T>(r: seq<T>, i: nat, j: nat)
    requires i < j < |r| && r[i] == r[j]
    ensures multiset(r)[r[i]] >= 2
  {
    assert r == r[..i] + [r[i]] + r[i + 1..j] + [r[j]] + r[j + 1..];
  }

  /** Sorting keeps elements distinct. */
  lemma SortDistinct<T>(s: seq<T>, before: (T, T) -> bool)
    requires Distinct(s)
    ensures Distinct(Sort(s, before))
  {
    var r := Sort(s, before);
    SortPermutes(s, before);
    forall i, j | 0 <= i < j < |r|
      ensures r[i] != r[j]
    {
      if r[i] == r[j] {
        CountsTwice(r, i, j);
        DistinctOnce(s, r[i]);
      }
    }
  }

  lemma {:induction false} InsertBeforeLast<T>(y: T, t: seq<T>, x: T, before: (T, T) -> bool)
    requires !before(x, y)
    ensures Insert(y, t + [x], before) == Insert(y, t, before) + [x]
    decreases |t|
  {
    if t != [] {
      assert (t + [x])[0] == t[0] && (t + [x])[1..] == t[1..] + [x];
      if before(t[0], y) {
        InsertBeforeLast(y, t[1..], x, before);
      }
    }
  }

  /** An element appended after everything it does not sort before ends up
      last: a newcomer with the largest key stays at the end. */
  lemma {:induction false} SortAppendLast<T>(s: seq<T>, x: T, before: (T, T) -> bool)
    requires forall y :: y in s ==> !before(x, y)
    ensures Sort(s + [x], before) == Sort(s, before) + [x]
    decreases |s|
  {
    if s != [] {
      assert (s + [x])[0] == s[0] && (s + [x])[1..] == s[1..] + [x];
      SortAppendLast(s[1..], x, before);
      InsertBeforeLast(s[0], Sort(s[1..], before), x, before);
    } else {
      assert [] + [x] == [x];
    }
  }
}
