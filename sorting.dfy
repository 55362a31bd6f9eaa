/**
 * Python's `sorted()` / `list.sort()` as a stable insertion sort over a total preorder
 * `le`, with the facts the rest of the model needs: the result is sorted, is a
 * permutation of the input, leaves sorted input alone, and starts with the first
 * minimal element of the input.
 */
module Sorting {
  import opened Options

  ghost predicate TotalPreorder<T(!new)>(le: (T, T) -> bool) {
    && (forall a, b :: le(a, b) || le(b, a))
    && (forall a, b, c :: le(a, b) && le(b, c) ==> le(a, c))
  }

  ghost predicate Antisymmetric<T(!new)>(le: (T, T) -> bool) {
    forall a, b :: le(a, b) && le(b, a) ==> a == b
  }

  ghost predicate SortedBy<T>(xs: seq<T>, le: (T, T) -> bool) {
    forall i, j :: 0 <= i < j < |xs| ==> le(xs[i], xs[j])
  }

  /** Inserts `x` before the first element it is `le` to (so `x` precedes its equals). */
  function Insert<T>(x: T, xs: seq<T>, le: (T, T) -> bool): (r: seq<T>)
    ensures |r| == |xs| + 1
    ensures multiset(r) == multiset(xs) + multiset{x}
  {
    if xs == [] then [x]
    else if le(x, xs[0]) then [x] + xs
    else
      assert xs == [xs[0]] + xs[1..];
      [xs[0]] + Insert(x, xs[1..], le)
  }

  /** `sorted(xs, key=...)`: stable insertion sort. */
  function Sort<T>(xs: seq<T>, le: (T, T) -> bool): (r: seq<T>)
    ensures |r| == |xs|
    ensures multiset(r) == multiset(xs)
  {
    if xs == [] then []
    else
      assert xs == [xs[0]] + xs[1..];
      Insert(xs[0], Sort(xs[1..], le), le)
  }

  lemma {:induction false} InsertSorted<T(!new)>(x: T, xs: seq<T>, le: (T, T) -> bool)
    requires TotalPreorder(le)
    requires SortedBy(xs, le)
    ensures SortedBy(Insert(x, xs, le), le)
  {
    if xs != [] && !le(x, xs[0]) {
      var tail := xs[1..];
      assert SortedBy(tail, le);
      InsertSorted(x, tail, le);
      var r := Insert(x, tail, le);
      assert le(xs[0], x);
      HeadBelowInsert(x, xs, r, le);
      SortedCons(xs[0], r, le);
    }
  }

  /** The head of a sorted list is below everything inserting an element above it gives after it. */
  lemma HeadBelowInsert<T(!new)>(x: T, xs: seq<T>, r: seq<T>, le: (T, T) -> bool)
    requires SortedBy(xs, le) && xs != [] && le(xs[0], x) && r == Insert(x, xs[1..], le)
    ensures forall j :: 0 <= j < |r| ==> le(xs[0], r[j])
  {
    var tail := xs[1..];
    forall j | 0 <= j < |r| ensures le(xs[0], r[j]) {
      assert r[j] in multiset(r);
      assert r[j] in multiset(tail) + multiset{x};
      if r[j] != x {
        assert r[j] in tail;
        var k :| 0 <= k < |tail| && tail[k] == r[j];
        assert xs[k + 1] == r[j];
      }
    }
  }

  /** An element below every element of a sorted list can go in front of it. */
  lemma SortedCons<T>(h: T, r: seq<T>, le: (T, T) -> bool)
    requires SortedBy(r, le) && forall j :: 0 <= j < |r| ==> le(h, r[j])
    ensures SortedBy([h] + r, le)
  {
    var full := [h] + r;
    forall i, j | 0 <= i < j < |full| ensures le(full[i], full[j]) {
      if i == 0 {
        assert full[j] == r[j - 1];
      } else {
        assert full[i] == r[i - 1] && full[j] == r[j - 1];
      }
    }
  }

  lemma {:induction false} SortIsSorted<T(!new)>(xs: seq<T>, le: (T, T) -> bool)
    requires TotalPreorder(le)
    ensures SortedBy(Sort(xs, le), le)
  {
    if xs != [] {
      SortIsSorted(xs[1..], le);
      InsertSorted(xs[0], Sort(xs[1..], le), le);
    }
  }

  lemma {:induction false} SortOfSorted<T(!new)>(xs: seq<T>, le: (T, T) -> bool)
    requires SortedBy(xs, le)
    ensures Sort(xs, le) == xs
  {
    if xs != [] {
      assert SortedBy(xs[1..], le);
      SortOfSorted(xs[1..], le);
      if |xs| > 1 {
        assert le(xs[0], xs[1]);
        assert xs[1..][0] == xs[1];
      }
      assert xs == [xs[0]] + xs[1..];
    }
  }

  lemma PreorderReflexive<T(!new)>(x: T, le: (T, T) -> bool)
    requires TotalPreorder(le)
    ensures le(x, x)
  {
    var y := x;
    assert le(x, y) || le(y, x);
  }

  lemma SortedHeadIsLeast<T>(a: seq<T>, x: T, le: (T, T) -> bool)
    requires SortedBy(a, le)
    requires le(x, x)
    requires x in multiset(a)
    ensures le(a[0], x)
  {
    var i :| 0 <= i < |a| && a[i] == x;
    if i > 0 { assert le(a[0], a[i]); }
  }

  lemma MultisetOfTail<T>(a: seq<T>)
    requires a != []
    ensures multiset(a[1..]) == multiset(a) - multiset{a[0]}
  {
    assert a == [a[0]] + a[1..];
  }

  /** Two sorted sequences with the same elements are equal, when `le` is antisymmetric. */
  lemma {:induction false} SortedUnique<T(!new)>(a: seq<T>, b: seq<T>, le: (T, T) -> bool)
    requires TotalPreorder(le) && Antisymmetric(le)
    requires SortedBy(a, le) && SortedBy(b, le)
    requires multiset(a) == multiset(b)
    ensures a == b
    decreases |a|
  {
    if a != [] {
      assert |b| == |multiset(b)| == |multiset(a)| == |a|;
      SameHead(a, b, le);
      MultisetOfTail(a);
      MultisetOfTail(b);
      SortedTail(a, le);
      SortedTail(b, le);
      SortedUnique(a[1..], b[1..], le);
      ConsEqual(a, b);
    }
  }

  lemma SortedTail<T>(a: seq<T>, le: (T, T) -> bool)
    requires SortedBy(a, le) && a != []
    ensures SortedBy(a[1..], le)
  {
    forall i, j | 0 <= i < j < |a[1..]| ensures le(a[1..][i], a[1..][j]) {
      assert a[1..][i] == a[i + 1] && a[1..][j] == a[j + 1];
    }
  }

  lemma ConsEqual<T>(a: seq<T>, b: seq<T>)
    requires a != [] && b != [] && a[0] == b[0] && a[1..] == b[1..]
    ensures a == b
  {
    assert a == [a[0]] + a[1..] && b == [b[0]] + b[1..];
  }

  /** Two non-empty sorted sequences with the same elements start alike, when `le` is antisymmetric. */
  lemma SameHead<T(!new)>(a: seq<T>, b: seq<T>, le: (T, T) -> bool)
    requires TotalPreorder(le) && Antisymmetric(le)
    requires SortedBy(a, le) && SortedBy(b, le)
    requires multiset(a) == multiset(b) && a != [] && b != []
    ensures a[0] == b[0]
  {
    PreorderReflexive(a[0], le);
    PreorderReflexive(b[0], le);
    assert a[0] in multiset(a);
    assert b[0] in multiset(b);
    SortedHeadIsLeast(b, a[0], le);
    SortedHeadIsLeast(a, b[0], le);
  }

  /** Sorting depends only on the multiset of elements (for an antisymmetric order). */
  lemma SortPermutationInvariant<T(!new)>(xs: seq<T>, ys: seq<T>, le: (T, T) -> bool)
    requires TotalPreorder(le) && Antisymmetric(le)
    requires multiset(xs) == multiset(ys)
    ensures Sort(xs, le) == Sort(ys, le)
  {
    SortIsSorted(xs, le);
    SortIsSorted(ys, le);
    SortedUnique(Sort(xs, le), Sort(ys, le), le);
  }

  /** Index of the first element that no later or earlier element is strictly below. */
  function FirstMinIndex<T>(xs: seq<T>, le: (T, T) -> bool): (k: nat)
    requires xs != []
    ensures k < |xs|
  {
    if |xs| == 1 then 0
    else
      var k := FirstMinIndex(xs[1..], le);
      if le(xs[0], xs[1..][k]) then 0 else k + 1
  }

  ghost predicate IsFirstMin<T>(xs: seq<T>, k: int, le: (T, T) -> bool) {
    && 0 <= k < |xs|
    && (forall j :: 0 <= j < |xs| ==> le(xs[k], xs[j]))
    && (forall j :: 0 <= j < k ==> !le(xs[j], xs[k]))
  }

  lemma {:induction false} FirstMinIndexIsFirstMin<T(!new)>(xs: seq<T>, le: (T, T) -> bool)
    requires TotalPreorder(le)
    requires xs != []
    ensures IsFirstMin(xs, FirstMinIndex(xs, le), le)
  {
    if |xs| > 1 {
      var t := xs[1..];
      FirstMinIndexIsFirstMin(t, le);
      var k := FirstMinIndex(t, le);
      if le(xs[0], t[k]) {
        forall j | 0 <= j < |xs| ensures le(xs[0], xs[j]) {
          if j > 0 {
            assert le(t[k], t[j - 1]);
          }
        }
      } else {
        assert le(t[k], xs[0]);
        forall j | 0 <= j < |xs| ensures le(xs[k + 1], xs[j]) {
          if j > 0 {
            assert xs[j] == t[j - 1];
          }
        }
        forall j | 0 <= j < k + 1 ensures !le(xs[j], xs[k + 1]) {
          if j > 0 {
            assert xs[j] == t[j - 1];
          }
        }
      }
    }
  }

  /** A new element strictly below the current first minimum becomes the first minimum. */
  lemma FirstMinExtendLower<T(!new)>(xs: seq<T>, k: int, x: T, le: (T, T) -> bool)
    requires TotalPreorder(le) && IsFirstMin(xs, k, le) && !le(xs[k], x)
    ensures IsFirstMin(xs + [x], |xs|, le)
  {
    var ys := xs + [x];
    assert le(x, xs[k]);
    forall j | 0 <= j < |ys| ensures le(ys[|xs|], ys[j]) {
      if j < |xs| {
        assert le(xs[k], ys[j]);
      }
    }
    forall j | 0 <= j < |xs| ensures !le(ys[j], ys[|xs|]) {
      assert le(xs[k], ys[j]);
    }
  }

  /** A new element not below the current first minimum leaves it in place. */
  lemma FirstMinExtendKeep<T>(xs: seq<T>, k: int, x: T, le: (T, T) -> bool)
    requires IsFirstMin(xs, k, le) && le(xs[k], x)
    ensures IsFirstMin(xs + [x], k, le)
  {
    var ys := xs + [x];
    forall j | 0 <= j < |ys| ensures le(ys[k], ys[j]) {
      if j < |xs| {
        assert ys[j] == xs[j];
      }
    }
  }

  /** The first minimum of a list is unique. */
  lemma FirstMinUnique<T>(xs: seq<T>, a: int, b: int, le: (T, T) -> bool)
    requires IsFirstMin(xs, a, le) && IsFirstMin(xs, b, le)
    ensures a == b
  {
    var xa, xb := xs[a], xs[b];
    assert le(xa, xb) && le(xb, xa);
  }

  /** A scan's state: `best` is the first minimum `xs[k]` of what it has met, None when it met nothing. */
  ghost predicate FirstSoFar<T>(xs: seq<T>, best: Option<T>, k: int, le: (T, T) -> bool) {
    (best.None? <==> xs == []) && (best.Some? ==> IsFirstMin(xs, k, le) && best.value == xs[k])
  }

  /** At the end of the scan `best` is the element at `FirstMinIndex`. */
  lemma FirstSoFarIsFirstMinIndex<T(!new)>(xs: seq<T>, best: Option<T>, k: int, le: (T, T) -> bool)
    requires TotalPreorder(le) && FirstSoFar(xs, best, k, le)
    ensures best == if xs == [] then None else Some(xs[FirstMinIndex(xs, le)])
  {
    if xs != [] {
      FirstMinIndexIsFirstMin(xs, le);
      FirstMinUnique(xs, k, FirstMinIndex(xs, le), le);
    }
  }

  /** The stable sort starts with the first minimal element of its input. */
  lemma {:induction false} SortHeadIsFirstMin<T(!new)>(xs: seq<T>, le: (T, T) -> bool)
    requires TotalPreorder(le)
    requires xs != []
    ensures Sort(xs, le)[0] == xs[FirstMinIndex(xs, le)]
  {
    if |xs| > 1 {
      var t := xs[1..];
      SortHeadIsFirstMin(t, le);
      var st := Sort(t, le);
      var k := FirstMinIndex(t, le);
      assert st != [];
      assert st[0] == t[k];
      if le(xs[0], t[k]) {
        assert Sort(xs, le) == Insert(xs[0], st, le);
      } else {
        assert Sort(xs, le) == [st[0]] + Insert(xs[0], st[1..], le);
      }
    }
  }
}
