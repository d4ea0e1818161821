/** Sums of non-negative weights over a sequence, accumulated from the left
    like `Array.prototype.reduce((a, x) => a + w(x), 0)`. Every total in the
    flight model (node traffic, total flights, airport volumes) is one of these. */
module Sums {

  function SumBy<T>(s: seq<T>, w: T -> nat): nat
  {
    if s == [] then 0 else SumBy(s[..|s| - 1], w) + w(s[|s| - 1])
  }

  /** A sum over a concatenation is the sum of the two parts. */
  lemma {:induction false} SumByConcat<T>(a: seq<T>, b: seq<T>, w: T -> nat)
    ensures SumBy(a + b, w) == SumBy(a, w) + SumBy(b, w)
  {
    if b == [] {
      assert a + b == a;
    } else {
      var b' := b[..|b| - 1];
      assert (a + b)[..|a + b| - 1] == a + b';
      SumByConcat(a, b', w);
    }
  }

  /** Weights that agree on every element give the same sum. */
  lemma {:induction false} SumByExt<T>(s: seq<T>, f: T -> nat, g: T -> nat)
    requires forall k :: 0 <= k < |s| ==> f(s[k]) == g(s[k])
    ensures SumBy(s, f) == SumBy(s, g)
  {
    if s != [] {
      SumByExt(s[..|s| - 1], f, g);
    }
  }

  /** Summing a pointwise sum of weights is adding the two sums. */
  lemma {:induction false} SumByAdd<T>(s: seq<T>, h: T -> nat, f: T -> nat, g: T -> nat)
    requires forall k :: 0 <= k < |s| ==> h(s[k]) == f(s[k]) + g(s[k])
    ensures SumBy(s, h) == SumBy(s, f) + SumBy(s, g)
  {
    if s != [] {
      SumByAdd(s[..|s| - 1], h, f, g);
    }
  }

  /** Two pairs of weights with the same pointwise sum have the same total. */
  lemma {:induction false} SumByBalance<T>(s: seq<T>, f: T -> nat, g: T -> nat, h: T -> nat, u: T -> nat)
    requires forall k :: 0 <= k < |s| ==> f(s[k]) + g(s[k]) == h(s[k]) + u(s[k])
    ensures SumBy(s, f) + SumBy(s, g) == SumBy(s, h) + SumBy(s, u)
  {
    if s != [] {
      SumByBalance(s[..|s| - 1], f, g, h, u);
    }
  }

  /** A pointwise smaller weight gives a smaller sum. */
  lemma {:induction false} SumByMonotone<T>(s: seq<T>, f: T -> nat, g: T -> nat)
    requires forall k :: 0 <= k < |s| ==> f(s[k]) <= g(s[k])
    ensures SumBy(s, f) <= SumBy(s, g)
  {
    if s != [] {
      SumByMonotone(s[..|s| - 1], f, g);
    }
  }

  /** Weights that vanish everywhere sum to zero. */
  lemma {:induction false} SumByZero<T>(s: seq<T>, w: T -> nat)
    requires forall k :: 0 <= k < |s| ==> w(s[k]) == 0
    ensures SumBy(s, w) == 0
  {
    if s != [] {
      SumByZero(s[..|s| - 1], w);
    }
  }

  /** When only the element at position `k` has a weight, the sum is that weight. */
  lemma SumByOnly<T>(s: seq<T>, w: T -> nat, k: nat)
    requires k < |s|
    requires forall j :: 0 <= j < |s| && j != k ==> w(s[j]) == 0
    ensures SumBy(s, w) == w(s[k])
  {
    var before, after := s[..k], s[k + 1..];
    assert s == before + [s[k]] + after;
    forall j | 0 <= j < |before| ensures w(before[j]) == 0 {
      assert before[j] == s[j];
    }
    forall j | 0 <= j < |after| ensures w(after[j]) == 0 {
      assert after[j] == s[k + 1 + j];
    }
    SumByZero(before, w);
    SumByZero(after, w);
    SumByConcat(before + [s[k]], after, w);
    SumByConcat(before, [s[k]], w);
    assert SumBy([s[k]], w) == w(s[k]) by {
      assert [s[k]][..0] == [];
    }
  }

  /** Taking out the element at `k` takes its weight out of the sum. */
  lemma SumByRemove<T>(b: seq<T>, k: nat, w: T -> nat)
    requires k < |b|
    ensures SumBy(b, w) == SumBy(b[..k] + b[k + 1..], w) + w(b[k])
  {
    var before, x, after := b[..k], b[k], b[k + 1..];
    assert b == before + [x] + after;
    SumByConcat(before, after, w);
    SumByConcat(before + [x], after, w);
    SumByConcat(before, [x], w);
    assert SumBy([x], w) == w(x) by {
      assert [x][..0] == [];
    }
  }

  /** Removing the same element from two equal multisets leaves equal
      multisets. */
  lemma MultisetRemove<T>(a': seq<T>, x: T, b: seq<T>, k: nat)
    requires k < |b| && b[k] == x && multiset(a' + [x]) == multiset(b)
    ensures multiset(a') == multiset(b[..k] + b[k + 1..])
  {
    var before, after := b[..k], b[k + 1..];
    assert b == before + [x] + after;
    var b' := before + after;
    assert multiset(a') + multiset{x} == multiset(b') + multiset{x};
    assert forall y :: multiset(a')[y] == (multiset(a') + multiset{x})[y] - multiset{x}[y];
  }

  /** The sum does not depend on the order of the elements. */
  lemma {:induction false} SumByPermutation<T>(a: seq<T>, b: seq<T>, w: T -> nat)
    requires multiset(a) == multiset(b)
    ensures SumBy(a, w) == SumBy(b, w)
  {
    if a == [] {
      assert |b| == |multiset(b)| == 0;
    } else {
      var x, a' := a[|a| - 1], a[..|a| - 1];
      assert a == a' + [x];
      assert x in multiset(b);
      var k :| 0 <= k < |b| && b[k] == x;
      MultisetRemove(a', x, b, k);
      SumByPermutation(a', b[..k] + b[k + 1..], w);
      SumByRemove(b, k, w);
    }
  }
}
