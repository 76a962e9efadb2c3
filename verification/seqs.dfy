/** Sequence helpers: JavaScript's `array.filter(x => x !== v)` and the order it keeps. */
module Seqs {

  /** `a` is `b` with some elements left out, the rest in their original order. */
  ghost predicate SubsequenceOf<T>(a: seq<T>, b: seq<T>)
    decreases |b|
  {
    if a == [] then true
    else if b == [] then false
    else if a[0] == b[0] then SubsequenceOf(a[1..], b[1..])
    else SubsequenceOf(a, b[1..])
  }

  /** `xs.filter(y => y !== x)`: every occurrence of `x` removed, every other element kept,
      as often as it occurred and in its original order. */
  function Without<T(==)>(xs: seq<T>, x: T): (r: seq<T>)
    ensures multiset(r) == multiset(xs)[x := 0]
    ensures SubsequenceOf(r, xs)
  {
    if xs == [] then []
    else
      var rest := Without(xs[1..], x);
      assert xs == [xs[0]] + xs[1..];
      assert multiset(rest)[x] == 0;
      assert x !in rest;
      if xs[0] == x then rest else [xs[0]] + rest
  }

  /** Filtering out a value that is absent changes nothing, and only then. */
  lemma {:induction false} WithoutAbsent<T>(xs: seq<T>, x: T)
    ensures Without(xs, x) == xs <==> x !in xs
  {
    if x in xs {
      assert multiset(xs)[x] > 0;
      assert multiset(Without(xs, x))[x] == 0;
    } else if xs != [] {
      WithoutAbsent(xs[1..], x);
    }
  }

  /** A value that occurs nowhere in `xs` stays absent after filtering, and a value that was
      present survives filtering out any other value. */
  lemma WithoutMembership<T>(xs: seq<T>, x: T, y: T)
    ensures y in Without(xs, x) <==> y in xs && y != x
  {
    assert y in Without(xs, x) <==> multiset(Without(xs, x))[y] > 0;
    assert y in xs <==> multiset(xs)[y] > 0;
  }

  predicate Distinct<T(==)>(xs: seq<T>) {
    forall i, j :: 0 <= i < j < |xs| ==> xs[i] != xs[j]
  }

  /** Filtering keeps a sequence free of repetitions. */
  lemma {:induction false} WithoutDistinct<T>(xs: seq<T>, x: T)
    requires Distinct(xs)
    ensures Distinct(Without(xs, x))
  {
    if xs != [] {
      WithoutDistinct(xs[1..], x);
      var rest := Without(xs[1..], x);
      if xs[0] != x {
        WithoutMembership(xs[1..], x, xs[0]);
        assert xs[0] !in rest;
        assert Without(xs, x) == [xs[0]] + rest;
      }
    }
  }

  /** Filtering distributes over concatenation. */
  lemma {:induction false} WithoutAppend<T>(xs: seq<T>, ys: seq<T>, x: T)
    ensures Without(xs + ys, x) == Without(xs, x) + Without(ys, x)
  {
    if xs == [] {
      assert xs + ys == ys;
    } else {
      assert (xs + ys)[1..] == xs[1..] + ys;
      WithoutAppend(xs[1..], ys, x);
    }
  }

  /** Filtering twice is filtering once. */
  lemma WithoutIdempotent<T>(xs: seq<T>, x: T)
    ensures Without(Without(xs, x), x) == Without(xs, x)
  {
    WithoutMembership(xs, x, x);
    WithoutAbsent(Without(xs, x), x);
  }
}
