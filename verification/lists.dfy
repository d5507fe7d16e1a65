/**
 * The array methods the application leans on — `filter`, `some`, and summing with
 * `reduce` — over sequences, each tied to a declarative description of its result.
 */
module Lists {

  /** `a` can be obtained from `b` by deleting elements: it keeps their relative order. */
  ghost predicate IsSubsequence<T>(a: seq<T>, b: seq<T>)
    decreases |b|
  {
    if |a| == 0 then true
    else if |b| == 0 then false
    else (a[0] == b[0] && IsSubsequence(a[1..], b[1..])) || IsSubsequence(a, b[1..])
  }

  /** Every sequence is a subsequence of itself. */
  lemma {:induction false} SubsequenceReflexive<T>(a: seq<T>)
    ensures IsSubsequence(a, a)
  {
    if |a| > 0 {
      SubsequenceReflexive(a[1..]);
    }
  }

  /** `xs.some(p)`. */
  function Any<T>(xs: seq<T>, p: T -> bool): (b: bool)
    ensures b <==> exists i :: 0 <= i < |xs| && p(xs[i])
  {
    if |xs| == 0 then false
    else if p(xs[0]) then true
    else
      var b := Any(xs[1..], p);
      assert forall i :: 1 <= i < |xs| ==> xs[i] == xs[1..][i - 1];
      b
  }

  /** `xs.filter(p)`: only elements satisfying `p`, in their original order. */
  function Filter<T>(xs: seq<T>, p: T -> bool): (r: seq<T>)
    ensures |r| <= |xs|
    ensures forall i :: 0 <= i < |r| ==> p(r[i])
    ensures IsSubsequence(r, xs)
  {
    if |xs| == 0 then []
    else
      var rest := Filter(xs[1..], p);
      if p(xs[0]) then
        assert ([xs[0]] + rest)[1..] == rest;
        [xs[0]] + rest
      else
        rest
  }

  /** Every element satisfying `p` survives the filter exactly as often as it occurs. */
  lemma {:induction false} FilterCount<T>(xs: seq<T>, p: T -> bool, x: T)
    ensures multiset(Filter(xs, p))[x] == if p(x) then multiset(xs)[x] else 0
  {
    if |xs| > 0 {
      FilterCount(xs[1..], p, x);
      assert xs == [xs[0]] + xs[1..];
    }
  }

  /** Membership after filtering. */
  lemma FilterMember<T>(xs: seq<T>, p: T -> bool, x: T)
    ensures x in Filter(xs, p) <==> x in xs && p(x)
  {
    FilterCount(xs, p, x);
    assert x in Filter(xs, p) <==> multiset(Filter(xs, p))[x] > 0;
  }

  /** Filtering keeps a sequence whole exactly when all its elements pass. */
  lemma {:induction false} FilterAll<T>(xs: seq<T>, p: T -> bool)
    ensures Filter(xs, p) == xs <==> forall i :: 0 <= i < |xs| ==> p(xs[i])
  {
    if |xs| > 0 {
      FilterAll(xs[1..], p);
      assert forall i :: 1 <= i < |xs| ==> xs[i] == xs[1..][i - 1];
      if !p(xs[0]) {
        assert |Filter(xs, p)| <= |xs[1..]| < |xs|;
      }
    }
  }

  /** Filtering twice by the same predicate is filtering once. */
  lemma FilterIdempotent<T>(xs: seq<T>, p: T -> bool)
    ensures Filter(Filter(xs, p), p) == Filter(xs, p)
  {
    FilterAll(Filter(xs, p), p);
  }

  /** Filtering by a weaker test and then a stronger one is filtering by the stronger. */
  lemma {:induction false} FilterNarrow<T>(xs: seq<T>, weak: T -> bool, strong: T -> bool)
    requires forall x :: strong(x) ==> weak(x)
    ensures Filter(Filter(xs, weak), strong) == Filter(xs, strong)
  {
    if |xs| > 0 {
      FilterNarrow(xs[1..], weak, strong);
    }
  }

  /** Filtering distributes over concatenation. */
  lemma {:induction false} FilterAppend<T>(xs: seq<T>, ys: seq<T>, p: T -> bool)
    ensures Filter(xs + ys, p) == Filter(xs, p) + Filter(ys, p)
  {
    if |xs| > 0 {
      FilterAppend(xs[1..], ys, p);
      assert (xs + ys)[1..] == xs[1..] + ys;
    } else {
      assert xs + ys == ys;
    }
  }

  /** `xs.reduce((acc, x) => acc + x, 0)`. */
  function Sum(xs: seq<int>): int {
    if |xs| == 0 then 0 else xs[0] + Sum(xs[1..])
  }

  /** The sum of a concatenation is the sum of the parts. */
  lemma {:induction false} SumAppend(xs: seq<int>, ys: seq<int>)
    ensures Sum(xs + ys) == Sum(xs) + Sum(ys)
  {
    if |xs| > 0 {
      SumAppend(xs[1..], ys);
      assert (xs + ys)[1..] == xs[1..] + ys;
    } else {
      assert xs + ys == ys;
    }
  }

  /** A sum of `n` copies of `k`. */
  lemma {:induction false} SumConstant(xs: seq<int>, k: int)
    requires forall i :: 0 <= i < |xs| ==> xs[i] == k
    ensures Sum(xs) == |xs| * k
  {
    if |xs| > 0 {
      SumConstant(xs[1..], k);
    }
  }

  /** No element occurs twice. */
  predicate Distinct<T(==)>(xs: seq<T>) {
    forall i, j :: 0 <= i < j < |xs| ==> xs[i] != xs[j]
  }

  /** A sequence has no repeated element exactly when no element occurs more than once. */
  lemma {:induction false} DistinctMultiset<T>(xs: seq<T>)
    ensures Distinct(xs) <==> forall x :: multiset(xs)[x] <= 1
  {
    if |xs| > 0 {
      var t := xs[1..];
      DistinctMultiset(t);
      assert xs == [xs[0]] + t;
      assert multiset(xs) == multiset{xs[0]} + multiset(t);
      if Distinct(xs) {
        assert Distinct(t) by {
          forall i, j | 0 <= i < j < |t| ensures t[i] != t[j] {
            assert t[i] == xs[i + 1] && t[j] == xs[j + 1];
          }
        }
        assert xs[0] !in t by {
          assert forall j :: 0 <= j < |t| ==> t[j] == xs[j + 1];
        }
      } else {
        var i, j :| 0 <= i < j < |xs| && xs[i] == xs[j];
        if i == 0 {
          assert xs[j] in t;
          assert multiset(xs)[xs[0]] >= 2;
        } else {
          assert t[i - 1] == t[j - 1];
          assert !Distinct(t);
          var x :| multiset(t)[x] > 1;
          assert multiset(xs)[x] > 1;
        }
      }
    }
  }

  /** `[...new Set(xs)]`: each value once, at the place it first occurs. */
  function Dedupe<T(==)>(xs: seq<T>): (r: seq<T>)
    ensures Distinct(r)
    ensures forall i :: 0 <= i < |r| ==> r[i] in xs
    ensures forall i :: 0 <= i < |xs| ==> xs[i] in r
    ensures IsSubsequence(r, xs)
    decreases |xs|
  {
    if |xs| == 0 then []
    else
      var init := xs[..|xs| - 1];
      var r := Dedupe(init);
      assert forall i :: 0 <= i < |init| ==> xs[i] == init[i];
      assert xs == init + [xs[|xs| - 1]];
      SubsequenceSnoc(r, init, xs[|xs| - 1]);
      if xs[|xs| - 1] in r then r
      else
        SubsequenceExtend(r, init, xs[|xs| - 1]);
        r + [xs[|xs| - 1]]
  }

  /** The position of the first occurrence of `x` in `xs`. */
  function FirstIndex<T(==)>(xs: seq<T>, x: T): (j: nat)
    requires x in xs
    ensures j < |xs| && xs[j] == x
    ensures forall i :: 0 <= i < j ==> xs[i] != x
  {
    if xs[0] == x then 0 else 1 + FirstIndex(xs[1..], x)
  }

  /** Adding an element at the end does not move an earlier first occurrence. */
  lemma FirstIndexSnoc<T>(xs: seq<T>, y: T, x: T)
    requires x in xs
    ensures x in xs + [y] && FirstIndex(xs + [y], x) == FirstIndex(xs, x)
  {
    var j := FirstIndex(xs, x);
    assert (xs + [y])[j] == x;
  }

  /** `Dedupe` keeps the values in the order in which they first occur. */
  lemma {:induction false} DedupeFirstOrder<T>(xs: seq<T>)
    ensures forall a, b :: 0 <= a < b < |Dedupe(xs)| ==>
      FirstIndex(xs, Dedupe(xs)[a]) < FirstIndex(xs, Dedupe(xs)[b])
    decreases |xs|
  {
    if |xs| > 0 {
      var init, x := xs[..|xs| - 1], xs[|xs| - 1];
      var r0 := Dedupe(init);
      DedupeFirstOrder(init);
      assert xs == init + [x];
      forall y | y in r0 ensures y in xs && FirstIndex(xs, y) == FirstIndex(init, y) {
        FirstIndexSnoc(init, x, y);
      }
      if x !in r0 {
        assert x !in init;
        assert FirstIndex(xs, x) == |xs| - 1;
      }
    }
  }

  /** A subsequence of `b` is a subsequence of `b` with one more element at the end. */
  lemma {:induction false} SubsequenceSnoc<T>(a: seq<T>, b: seq<T>, x: T)
    requires IsSubsequence(a, b)
    ensures IsSubsequence(a, b + [x])
    decreases |b|
  {
    if |a| > 0 && |b| > 0 {
      assert (b + [x])[1..] == b[1..] + [x];
      if a[0] == b[0] && IsSubsequence(a[1..], b[1..]) {
        SubsequenceSnoc(a[1..], b[1..], x);
      } else {
        SubsequenceSnoc(a, b[1..], x);
      }
    }
  }

  /** Extending both sequences by the same element keeps the subsequence relation. */
  lemma {:induction false} SubsequenceExtend<T>(a: seq<T>, b: seq<T>, x: T)
    requires IsSubsequence(a, b)
    ensures IsSubsequence(a + [x], b + [x])
    decreases |b|
  {
    if |a| == 0 {
      assert a + [x] == [x];
      SubsequenceLast(b, x);
    } else {
      assert |b| > 0;
      assert (a + [x])[1..] == a[1..] + [x];
      assert (b + [x])[1..] == b[1..] + [x];
      if a[0] == b[0] && IsSubsequence(a[1..], b[1..]) {
        SubsequenceExtend(a[1..], b[1..], x);
      } else {
        SubsequenceExtend(a, b[1..], x);
      }
    }
  }

  /** A single element is a subsequence of any sequence ending in it. */
  lemma {:induction false} SubsequenceLast<T>(b: seq<T>, x: T)
    ensures IsSubsequence([x], b + [x])
    decreases |b|
  {
    if |b| > 0 {
      assert (b + [x])[1..] == b[1..] + [x];
      SubsequenceLast(b[1..], x);
    } else {
      assert IsSubsequence([x][1..], []);
    }
  }

  /** The groups of `gs` laid end to end, in order. */
  function Flatten<T>(gs: seq<seq<T>>): seq<T> {
    if |gs| == 0 then [] else gs[0] + Flatten(gs[1..])
  }

  /** The total length of the first `j` groups: where group `j` starts once laid out. */
  function Place<T>(gs: seq<seq<T>>, j: nat): nat
    requires j <= |gs|
  {
    if j == 0 then 0 else Place(gs, j - 1) + |gs[j - 1]|
  }

  /** Element `i` of `r` is element `k` of some group `j`, sitting at that group's place. */
  ghost predicate FromGroup<T>(r: seq<T>, gs: seq<seq<T>>, i: nat)
    requires i < |r|
  {
    exists j, k :: 0 <= j < |gs| && 0 <= k < |gs[j]| && i == Place(gs, j) + k && r[i] == gs[j][k]
  }

  /** Element `k` of group `j` sits in `r` at that group's place. */
  ghost predicate AtPlace<T>(r: seq<T>, gs: seq<seq<T>>, j: nat, k: nat)
    requires j < |gs| && k < |gs[j]|
  {
    Place(gs, j) + k < |r| && r[Place(gs, j) + k] == gs[j][k]
  }

  /** `r` holds exactly the elements of the groups, group after group: as many elements
      as the groups hold together, each group's elements at its place, and nothing else. */
  ghost predicate LaidOut<T>(r: seq<T>, gs: seq<seq<T>>) {
    && |r| == Place(gs, |gs|)
    && (forall j, k :: 0 <= j < |gs| && 0 <= k < |gs[j]| ==> AtPlace(r, gs, j, k))
    && (forall i :: 0 <= i < |r| ==> FromGroup(r, gs, i))
  }

  /** Element `k` of group `j` of a laid-out sequence, at its place. */
  lemma LaidOutAt<T>(r: seq<T>, gs: seq<seq<T>>, j: nat, k: nat)
    requires LaidOut(r, gs) && j < |gs| && k < |gs[j]|
    ensures Place(gs, j) + k < |r| && r[Place(gs, j) + k] == gs[j][k]
  {
    assert AtPlace(r, gs, j, k);
  }

  /** Past the first group, every place moves by the first group's length. */
  lemma {:induction false} PlaceShift<T>(gs: seq<seq<T>>, j: nat)
    requires 1 <= j <= |gs|
    ensures Place(gs, j) == |gs[0]| + Place(gs[1..], j - 1)
  {
    if j > 1 {
      PlaceShift(gs, j - 1);
      assert gs[1..][j - 2] == gs[j - 1];
    }
  }

  /** Placing the first group in front of a layout of the other groups places every group. */
  lemma LaidOutConsPlaced<T>(rest: seq<T>, gs: seq<seq<T>>, j: nat, k: nat)
    requires |gs| > 0 && LaidOut(rest, gs[1..]) && j < |gs| && k < |gs[j]|
    ensures AtPlace(gs[0] + rest, gs, j, k)
  {
    var r := gs[0] + rest;
    if j == 0 {
      assert r[k] == gs[0][k];
    } else {
      PlaceShift(gs, j);
      assert gs[1..][j - 1] == gs[j];
      LaidOutAt(rest, gs[1..], j - 1, k);
      assert r[Place(gs, j) + k] == rest[Place(gs[1..], j - 1) + k];
    }
  }

  /** In front of a layout of the other groups, the first group leaves every element
      coming from some group. */
  lemma LaidOutConsFromGroup<T>(rest: seq<T>, gs: seq<seq<T>>, i: nat)
    requires |gs| > 0 && LaidOut(rest, gs[1..]) && i < |gs[0] + rest|
    ensures FromGroup(gs[0] + rest, gs, i)
  {
    var head, r := gs[0], gs[0] + rest;
    if i < |head| {
      assert r[i] == gs[0][i] && i == Place(gs, 0) + i;
    } else {
      assert FromGroup(rest, gs[1..], i - |head|);
      var j, k :| 0 <= j < |gs[1..]| && 0 <= k < |gs[1..][j]|
        && i - |head| == Place(gs[1..], j) + k && rest[i - |head|] == gs[1..][j][k];
      PlaceShift(gs, j + 1);
      assert r[i] == gs[j + 1][k];
    }
  }

  /** A layout of all groups is the first group followed by a layout of the others. */
  lemma LaidOutCons<T>(rest: seq<T>, gs: seq<seq<T>>)
    requires |gs| > 0 && LaidOut(rest, gs[1..])
    ensures LaidOut(gs[0] + rest, gs)
  {
    var r := gs[0] + rest;
    PlaceShift(gs, |gs|);
    forall j, k | 0 <= j < |gs| && 0 <= k < |gs[j]| ensures AtPlace(r, gs, j, k) {
      LaidOutConsPlaced(rest, gs, j, k);
    }
    forall i | 0 <= i < |r| ensures FromGroup(r, gs, i) {
      LaidOutConsFromGroup(rest, gs, i);
    }
  }

  /** Flattening lays the groups out. */
  lemma {:induction false} FlattenLaidOut<T>(gs: seq<seq<T>>)
    ensures LaidOut(Flatten(gs), gs)
  {
    if |gs| > 0 {
      FlattenLaidOut(gs[1..]);
      LaidOutCons(Flatten(gs[1..]), gs);
    }
  }
}
