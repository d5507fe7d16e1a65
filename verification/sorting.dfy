/**
 * `Array.prototype.sort` with a comparator, as a stable insertion sort over sequences.
 * A comparator is represented by its "strictly before" relation `lt`; JavaScript's
 * sort is stable, so elements that neither precedes keep their input order.
 */
module Sorting {

  /** `lt` is irreflexive and transitive, and "not before" is transitive too:
      the relation every consistent JavaScript comparator induces. */
  ghost predicate StrictWeakOrder<T(!new)>(lt: (T, T) -> bool) {
    && (forall x :: !lt(x, x))
    && (forall x, y, z :: lt(x, y) && lt(y, z) ==> lt(x, z))
    && (forall x, y, z :: !lt(x, y) && !lt(y, z) ==> !lt(x, z))
  }

  /** A strict weak order in which any two distinct elements are ordered. */
  ghost predicate StrictTotalOrder<T(!new)>(lt: (T, T) -> bool) {
    && StrictWeakOrder(lt)
    && (forall x, y :: x != y ==> lt(x, y) || lt(y, x))
  }

  /** No element is strictly before an element to its left. */
  ghost predicate SortedBy<T>(xs: seq<T>, lt: (T, T) -> bool) {
    forall i, j :: 0 <= i < j < |xs| ==> !lt(xs[j], xs[i])
  }

  /** Puts `x` in front of the first element of `ys` that is not strictly before it. */
  function Insert<T(!new)>(x: T, ys: seq<T>, lt: (T, T) -> bool): (r: seq<T>)
    ensures multiset(r) == multiset(ys) + multiset{x}
    ensures StrictWeakOrder(lt) && SortedBy(ys, lt) ==> SortedBy(r, lt)
  {
    if |ys| == 0 || !lt(ys[0], x) then
      InsertFrontSorted(x, ys, lt);
      [x] + ys
    else
      var tail := Insert(x, ys[1..], lt);
      assert ys == [ys[0]] + ys[1..];
      InsertBehindSorted(x, ys, tail, lt);
      [ys[0]] + tail
  }

  lemma InsertFrontSorted<T(!new)>(x: T, ys: seq<T>, lt: (T, T) -> bool)
    requires |ys| == 0 || !lt(ys[0], x)
    ensures StrictWeakOrder(lt) && SortedBy(ys, lt) ==> SortedBy([x] + ys, lt)
  {
    if StrictWeakOrder(lt) && SortedBy(ys, lt) {
      var r := [x] + ys;
      forall i, j | 0 <= i < j < |r|
        ensures !lt(r[j], r[i])
      {
        if i == 0 {
          assert r[j] == ys[j - 1];
          if j > 1 {
            assert !lt(ys[j - 1], ys[0]);
          }
        }
      }
    }
  }

  lemma InsertBehindSorted<T(!new)>(x: T, ys: seq<T>, tail: seq<T>, lt: (T, T) -> bool)
    requires |ys| > 0 && lt(ys[0], x)
    requires multiset(tail) == multiset(ys[1..]) + multiset{x}
    requires StrictWeakOrder(lt) && SortedBy(ys[1..], lt) ==> SortedBy(tail, lt)
    ensures StrictWeakOrder(lt) && SortedBy(ys, lt) ==> SortedBy([ys[0]] + tail, lt)
  {
    if StrictWeakOrder(lt) && SortedBy(ys, lt) {
      assert SortedBy(ys[1..], lt);
      var r := [ys[0]] + tail;
      forall k | 0 <= k < |tail|
        ensures !lt(tail[k], ys[0])
      {
        assert tail[k] in multiset(tail);
        if tail[k] != x {
          assert tail[k] in multiset(ys[1..]);
          var j :| 0 <= j < |ys[1..]| && ys[1..][j] == tail[k];
          assert ys[j + 1] == tail[k];
        }
      }
      forall i, j | 0 <= i < j < |r|
        ensures !lt(r[j], r[i])
      {
        if i == 0 {
          assert r[j] == tail[j - 1];
        } else {
          assert r[i] == tail[i - 1] && r[j] == tail[j - 1];
        }
      }
    }
  }

  /** The stable sort of `xs` by `lt`: a permutation of `xs`, and ordered whenever `lt`
      is a strict weak order. */
  function Sort<T(!new)>(xs: seq<T>, lt: (T, T) -> bool): (r: seq<T>)
    ensures multiset(r) == multiset(xs)
    ensures |r| == |xs|
    ensures StrictWeakOrder(lt) ==> SortedBy(r, lt)
  {
    if |xs| == 0 then []
    else
      assert xs == [xs[0]] + xs[1..];
      var r := Insert(xs[0], Sort(xs[1..], lt), lt);
      assert |r| == |multiset(r)|;
      r
  }

  /** Sorting an already ordered sequence returns it unchanged. */
  lemma {:induction false} SortOfSorted<T(!new)>(xs: seq<T>, lt: (T, T) -> bool)
    requires SortedBy(xs, lt)
    ensures Sort(xs, lt) == xs
  {
    if |xs| > 0 {
      assert SortedBy(xs[1..], lt);
      SortOfSorted(xs[1..], lt);
      assert xs == [xs[0]] + xs[1..];
      if |xs| > 1 {
        assert !lt(xs[1..][0], xs[0]);
      }
    }
  }

  /** Nothing is before itself, and of two different elements one is before the other. */
  ghost predicate Trichotomous<T(!new)>(lt: (T, T) -> bool) {
    && (forall x :: !lt(x, x))
    && (forall x, y :: x != y ==> lt(x, y) || lt(y, x))
  }

  /** Two ordered arrangements of one non-empty multiset start with the same element. */
  lemma SortedSameHead<T(!new)>(a: seq<T>, b: seq<T>, lt: (T, T) -> bool)
    requires Trichotomous(lt)
    requires SortedBy(a, lt) && SortedBy(b, lt)
    requires |a| > 0 && multiset(a) == multiset(b)
    ensures |b| > 0 && a[0] == b[0]
  {
    assert a[0] in multiset(b);
    var j :| 0 <= j < |b| && b[j] == a[0];
    assert b[0] in multiset(a);
    var i :| 0 <= i < |a| && a[i] == b[0];
    assert !lt(b[j], b[0]) by {
      if j > 0 {
        assert !lt(b[j], b[0]);
      }
    }
    assert !lt(a[i], a[0]) by {
      if i > 0 {
        assert !lt(a[i], a[0]);
      }
    }
  }

  /** Under a strict total order there is only one ordered arrangement of a multiset. */
  lemma {:induction false} SortedUnique<T(!new)>(a: seq<T>, b: seq<T>, lt: (T, T) -> bool)
    requires Trichotomous(lt)
    requires SortedBy(a, lt) && SortedBy(b, lt)
    requires multiset(a) == multiset(b)
    ensures a == b
    decreases |a|
  {
    assert |a| == |multiset(a)| == |b|;
    if |a| > 0 {
      SortedSameHead(a, b, lt);
      SortedTail(a, lt);
      SortedTail(b, lt);
      SortedUnique(a[1..], b[1..], lt);
      assert a == [a[0]] + a[1..] && b == [b[0]] + b[1..];
    }
  }

  /** Dropping the first element keeps a sequence ordered and removes one copy of that
      element. */
  lemma SortedTail<T>(a: seq<T>, lt: (T, T) -> bool)
    requires |a| > 0 && SortedBy(a, lt)
    ensures SortedBy(a[1..], lt)
    ensures multiset(a[1..]) == multiset(a) - multiset{a[0]}
  {
    assert a == [a[0]] + a[1..];
    assert multiset(a) == multiset{a[0]} + multiset(a[1..]);
  }

  /** The sort of a sequence is the one ordered arrangement of its elements. */
  lemma SortCharacterized<T(!new)>(xs: seq<T>, ys: seq<T>, lt: (T, T) -> bool)
    requires StrictTotalOrder(lt)
    requires SortedBy(ys, lt) && multiset(ys) == multiset(xs)
    ensures Sort(xs, lt) == ys
  {
    SortedUnique(Sort(xs, lt), ys, lt);
  }

  /** Two relations that agree on every pair sort every sequence alike. */
  lemma {:induction false} SortCongruent<T(!new)>(xs: seq<T>, lt1: (T, T) -> bool, lt2: (T, T) -> bool)
    requires forall x, y :: lt1(x, y) == lt2(x, y)
    ensures Sort(xs, lt1) == Sort(xs, lt2)
  {
    if |xs| > 0 {
      SortCongruent(xs[1..], lt1, lt2);
      InsertCongruent(xs[0], Sort(xs[1..], lt1), lt1, lt2);
    }
  }

  lemma {:induction false} InsertCongruent<T(!new)>(x: T, ys: seq<T>, lt1: (T, T) -> bool, lt2: (T, T) -> bool)
    requires forall x, y :: lt1(x, y) == lt2(x, y)
    ensures Insert(x, ys, lt1) == Insert(x, ys, lt2)
  {
    if |ys| > 0 {
      InsertCongruent(x, ys[1..], lt1, lt2);
    }
  }

  /** A relation that never holds leaves every sequence in its input order. */
  lemma SortUnordered<T(!new)>(xs: seq<T>, lt: (T, T) -> bool)
    requires forall x, y :: !lt(x, y)
    ensures Sort(xs, lt) == xs
  {
    SortOfSorted(xs, lt);
  }

  /** Comparing by a key under a strict total order on keys is a strict weak order, and so
      is comparing by the key in reverse. */
  lemma ByKeyIsWeakOrder<T(!new), K(!new)>(key: T -> K, lt: (K, K) -> bool)
    requires StrictTotalOrder(lt)
    ensures StrictWeakOrder((a: T, b: T) => lt(key(a), key(b)))
    ensures StrictWeakOrder((a: T, b: T) => lt(key(b), key(a)))
  {
  }
}
