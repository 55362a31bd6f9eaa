/**
 * List comprehensions over sequences: `[y for x in xs for y in f(x)]` as a
 * flat map, with the facts the rule-merging proofs need about it.
 */
module Sequences {
  import opened Options

  /** The concatenation of `f(x)` over `xs`, in order. */
  function FlatMap<A, B>(xs: seq<A>, f: A -> seq<B>): seq<B> {
    if xs == [] then [] else FlatMap(xs[..|xs| - 1], f) + f(xs[|xs| - 1])
  }

  /** The block function of `[g(x) for x in xs if g(x) is not None]`. */
  function Keep<A, B>(g: A -> Option<B>): A -> seq<B> {
    x => if g(x).Some? then [g(x).value] else []
  }

  /** The block function of a flat map followed by another. */
  function Compose<A, B, C>(f: A -> seq<B>, g: B -> seq<C>): A -> seq<C> {
    x => FlatMap(f(x), g)
  }

  /** No element occurs twice. */
  predicate Distinct<T(==)>(xs: seq<T>) {
    forall i, j :: 0 <= i < j < |xs| ==> xs[i] != xs[j]
  }

  /** A prefix one longer is the prefix with the next element appended. */
  lemma PrefixSnoc<T>(xs: seq<T>, i: int)
    requires 0 <= i < |xs|
    ensures xs[..i + 1] == xs[..i] + [xs[i]]
  {
  }

  /** The prefix as long as the sequence is the sequence. */
  lemma PrefixFull<T>(xs: seq<T>, i: int)
    requires i == |xs|
    ensures xs[..i] == xs
  {
  }

  /** Dropping a proper prefix keeps the last element. */
  lemma SnocAt<T>(front: seq<T>, x: T, i: int)
    requires 0 <= i <= |front|
    ensures (front + [x])[i] == if i < |front| then front[i] else x
  {
  }

  lemma LastOfDrop<T>(xs: seq<T>, j: int)
    requires 0 <= j < |xs|
    ensures xs[j..][|xs[j..]| - 1] == xs[|xs| - 1]
  {
  }

  /** No two elements share a key. */
  predicate DistinctBy<T, K(==)>(xs: seq<T>, key: T -> K) {
    forall i, j :: 0 <= i < j < |xs| ==> key(xs[i]) != key(xs[j])
  }

  /** An element whose key none of `rest` has keeps the keys distinct when put in front. */
  lemma ConsDistinctBy<T, K>(x: T, rest: seq<T>, key: T -> K)
    requires DistinctBy(rest, key) && forall y :: y in rest ==> key(y) != key(x)
    ensures DistinctBy([x] + rest, key)
  {
    var r := [x] + rest;
    forall i, j | 0 <= i < j < |r| ensures key(r[i]) != key(r[j]) {
      assert r[j] == rest[j - 1];
      if i == 0 {
        assert rest[j - 1] in rest;
      } else {
        assert r[i] == rest[i - 1];
      }
    }
  }

  /** Some present value of `ns` satisfies `f`. */
  predicate AnyPresent<T>(ns: seq<Option<T>>, f: T -> bool) {
    exists k :: 0 <= k < |ns| && ns[k].Some? && f(ns[k].value)
  }

  lemma AnyPresentSnoc<T>(ns: seq<Option<T>>, f: T -> bool)
    requires ns != []
    ensures AnyPresent(ns, f) <==> AnyPresent(ns[..|ns| - 1], f) || (ns[|ns| - 1].Some? && f(ns[|ns| - 1].value))
  {
    var init := ns[..|ns| - 1];
    if AnyPresent(ns, f) {
      var k :| 0 <= k < |ns| && ns[k].Some? && f(ns[k].value);
      if k < |init| {
        assert init[k] == ns[k];
      }
    }
    if AnyPresent(init, f) {
      var k :| 0 <= k < |init| && init[k].Some? && f(init[k].value);
      assert ns[k] == init[k];
    }
  }

  /** Two lists whose entries are present together and satisfy `f` together agree on `AnyPresent`. */
  lemma AnyPresentSame<T>(ns1: seq<Option<T>>, ns2: seq<Option<T>>, f: T -> bool)
    requires |ns1| == |ns2|
    requires forall k :: 0 <= k < |ns1| ==> ns1[k].Some? == ns2[k].Some? && (ns1[k].Some? ==> f(ns1[k].value) == f(ns2[k].value))
    ensures AnyPresent(ns1, f) == AnyPresent(ns2, f)
  {
    if AnyPresent(ns1, f) {
      var k :| 0 <= k < |ns1| && ns1[k].Some? && f(ns1[k].value);
      assert ns2[k].Some? && f(ns2[k].value);
    }
    if AnyPresent(ns2, f) {
      var k :| 0 <= k < |ns2| && ns2[k].Some? && f(ns2[k].value);
      assert ns1[k].Some? && f(ns1[k].value);
    }
  }

  lemma FlatMapOne<A, B>(x: A, f: A -> seq<B>)
    ensures FlatMap([x], f) == f(x)
  {
    assert [x][..0] == [];
  }

  lemma FlatMapSnoc<A, B>(xs: seq<A>, x: A, f: A -> seq<B>)
    ensures FlatMap(xs + [x], f) == FlatMap(xs, f) + f(x)
  {
    assert (xs + [x])[..|xs|] == xs;
  }

  lemma {:induction false} FlatMapAppend<A, B>(xs: seq<A>, ys: seq<A>, f: A -> seq<B>)
    ensures FlatMap(xs + ys, f) == FlatMap(xs, f) + FlatMap(ys, f)
    decreases |ys|
  {
    if ys != [] {
      var init := ys[..|ys| - 1];
      var y := ys[|ys| - 1];
      assert ys == init + [y];
      assert xs + ys == (xs + init) + [y];
      FlatMapAppend(xs, init, f);
      FlatMapSnoc(xs + init, y, f);
      FlatMapSnoc(init, y, f);
    } else {
      assert xs + ys == xs;
    }
  }

  /** The flat map depends only on the multiset of its input, up to reordering of its output. */
  lemma {:induction false} FlatMapPermutation<A, B>(xs: seq<A>, ys: seq<A>, f: A -> seq<B>)
    requires multiset(xs) == multiset(ys)
    ensures multiset(FlatMap(xs, f)) == multiset(FlatMap(ys, f))
    decreases |xs|
  {
    if xs == [] {
      assert |ys| == |multiset(ys)| == 0;
    } else {
      var n := |xs| - 1;
      var x := xs[n];
      assert xs == xs[..n] + [x];
      assert multiset(xs) == multiset(xs[..n]) + multiset{x};
      assert x in multiset(ys);
      var k :| 0 <= k < |ys| && ys[k] == x;
      var rest := RemoveAt(ys, k);
      FlatMapPermutation(xs[..n], rest, f);
      FlatMapSnoc(xs[..n], x, f);
      FlatMapRemoveAt(ys, k, f);
    }
  }

  /** `ys` without its element at `k`. */
  function RemoveAt<T>(ys: seq<T>, k: int): (r: seq<T>)
    requires 0 <= k < |ys|
    ensures multiset(r) == multiset(ys) - multiset{ys[k]}
  {
    assert ys == ys[..k] + [ys[k]] + ys[k + 1..];
    ys[..k] + ys[k + 1..]
  }

  lemma FlatMapRemoveAt<A, B>(ys: seq<A>, k: int, f: A -> seq<B>)
    requires 0 <= k < |ys|
    ensures multiset(FlatMap(ys, f)) == multiset(FlatMap(RemoveAt(ys, k), f)) + multiset(f(ys[k]))
  {
    FlatMapAround(ys, k, f);
    MultisetMiddle(FlatMap(ys[..k], f), f(ys[k]), FlatMap(ys[k + 1..], f));
  }

  /** The flat map splits around position `k`, with and without the block of `ys[k]`. */
  lemma FlatMapAround<A, B>(ys: seq<A>, k: int, f: A -> seq<B>)
    requires 0 <= k < |ys|
    ensures FlatMap(ys, f) == FlatMap(ys[..k], f) + f(ys[k]) + FlatMap(ys[k + 1..], f)
    ensures FlatMap(RemoveAt(ys, k), f) == FlatMap(ys[..k], f) + FlatMap(ys[k + 1..], f)
  {
    SplitAt(ys, k);
    FlatMapThree(ys[..k], ys[k], ys[k + 1..], f);
    FlatMapAppend(ys[..k], ys[k + 1..], f);
  }

  lemma SplitAt<T>(ys: seq<T>, k: int)
    requires 0 <= k < |ys|
    ensures ys == ys[..k] + [ys[k]] + ys[k + 1..]
    ensures RemoveAt(ys, k) == ys[..k] + ys[k + 1..]
  {
  }

  lemma FlatMapThree<A, B>(a: seq<A>, x: A, b: seq<A>, f: A -> seq<B>)
    ensures FlatMap(a + [x] + b, f) == FlatMap(a, f) + f(x) + FlatMap(b, f)
  {
    FlatMapAppend(a + [x], b, f);
    FlatMapSnoc(a, x, f);
  }

  lemma MultisetMiddle<T>(a: seq<T>, m: seq<T>, b: seq<T>)
    ensures multiset(a + m + b) == multiset(a + b) + multiset(m)
  {
  }

  /** An element whose block is empty can be removed without changing the flat map. */
  lemma FlatMapDrop<A, B>(xs: seq<A>, k: int, f: A -> seq<B>)
    requires 0 <= k < |xs| && f(xs[k]) == []
    ensures FlatMap(RemoveAt(xs, k), f) == FlatMap(xs, f)
  {
    FlatMapAround(xs, k, f);
    assert FlatMap(xs[..k], f) + f(xs[k]) == FlatMap(xs[..k], f);
  }

  /** Blocks that agree on the elements give the same flat map. */
  lemma {:induction false} FlatMapCongruence<A, B>(xs: seq<A>, f: A -> seq<B>, g: A -> seq<B>)
    requires forall i :: 0 <= i < |xs| ==> f(xs[i]) == g(xs[i])
    ensures FlatMap(xs, f) == FlatMap(xs, g)
  {
    if xs != [] {
      FlatMapCongruence(xs[..|xs| - 1], f, g);
    }
  }

  /** An element of the flat map comes from the block of some input element, and conversely. */
  lemma {:induction false} FlatMapMember<A, B>(xs: seq<A>, f: A -> seq<B>, y: B)
    ensures y in FlatMap(xs, f) <==> exists i :: 0 <= i < |xs| && y in f(xs[i])
  {
    if xs != [] {
      var n := |xs| - 1;
      var front := xs[..n];
      assert FlatMap(xs, f) == FlatMap(front, f) + f(xs[n]);
      FlatMapMember(front, f, y);
      if y in FlatMap(xs, f) {
        if y in FlatMap(front, f) {
          var i :| 0 <= i < n && y in f(front[i]);
          assert front[i] == xs[i];
        } else {
          assert y in f(xs[n]);
        }
      } else {
        forall i | 0 <= i < |xs| ensures y !in f(xs[i]) {
          if i < n {
            assert front[i] == xs[i];
          }
        }
      }
    }
  }

  /** A flat map of a flat map is one flat map with composed blocks. */
  lemma {:induction false} FlatMapCompose<A, B, C>(xs: seq<A>, f: A -> seq<B>, g: B -> seq<C>)
    ensures FlatMap(FlatMap(xs, f), g) == FlatMap(xs, Compose(f, g))
  {
    if xs != [] {
      var n := |xs| - 1;
      FlatMapCompose(xs[..n], f, g);
      FlatMapAppend(FlatMap(xs[..n], f), f(xs[n]), g);
    }
  }

  /** Over distinct keys, when every block but the one of `p` is empty, the flat map is the block of `p` (if `p` is a key). */
  lemma {:induction false} FlatMapSingle<A, B>(xs: seq<A>, f: A -> seq<B>, p: A)
    requires Distinct(xs)
    requires forall i :: 0 <= i < |xs| && xs[i] != p ==> f(xs[i]) == []
    ensures FlatMap(xs, f) == if p in xs then f(p) else []
  {
    if xs != [] {
      var n := |xs| - 1;
      var init := xs[..n];
      assert forall i :: 0 <= i < |init| ==> init[i] == xs[i];
      FlatMapSingle(init, f, p);
      assert xs == init + [xs[n]];
      if xs[n] == p {
        assert p !in init;
      }
    }
  }

  /** When every block is empty, so is the flat map. */
  lemma {:induction false} FlatMapNothing<A, B>(xs: seq<A>, f: A -> seq<B>)
    requires forall i :: 0 <= i < |xs| ==> f(xs[i]) == []
    ensures FlatMap(xs, f) == []
  {
    if xs != [] {
      FlatMapNothing(xs[..|xs| - 1], f);
    }
  }

  /** When every block is its element alone, the flat map is its input. */
  lemma {:induction false} FlatMapIdentity<A>(xs: seq<A>, f: A -> seq<A>)
    requires forall i :: 0 <= i < |xs| ==> f(xs[i]) == [xs[i]]
    ensures FlatMap(xs, f) == xs
  {
    if xs != [] {
      var n := |xs| - 1;
      FlatMapIdentity(xs[..n], f);
      assert xs == xs[..n] + [xs[n]];
    }
  }

  /** In a sequence without repeats every element occurs once. */
  lemma {:induction false} DistinctCount<T>(xs: seq<T>, x: T)
    requires Distinct(xs)
    ensures multiset(xs)[x] == if x in xs then 1 else 0
  {
    if xs != [] {
      var n := |xs| - 1;
      var init := xs[..n];
      assert xs == init + [xs[n]];
      DistinctCount(init, x);
      if xs[n] == x {
        assert x !in init;
      }
    }
  }

  /** Two sequences without repeats and with the same elements are permutations of each other. */
  lemma DistinctSameElements<T>(xs: seq<T>, ys: seq<T>)
    requires Distinct(xs) && Distinct(ys)
    requires forall x :: x in xs <==> x in ys
    ensures multiset(xs) == multiset(ys)
  {
    forall x ensures multiset(xs)[x] == multiset(ys)[x] {
      DistinctCount(xs, x);
      DistinctCount(ys, x);
    }
  }
}
