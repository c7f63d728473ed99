/** Sums over sequences. */
module Sums {
  import opened Ordering

  function Min(a: nat, b: nat): nat { if a < b then a else b }

  function SumOver<T>(xs: seq<T>, f: T -> int): int {
    if xs == [] then 0 else SumOver(xs[..|xs| - 1], f) + f(xs[|xs| - 1])
  }

  lemma {:induction false} SumSame<T>(xs: seq<T>, f: T -> int, g: T -> int)
    requires forall x :: x in xs ==> f(x) == g(x)
    ensures SumOver(xs, f) == SumOver(xs, g)
  {
    if xs != [] {
      SumSame(xs[..|xs| - 1], f, g);
    }
  }

  /** Adding d at x adds d to the sum, if x is a member. */
  lemma {:induction false} SumBump<T(!new)>(xs: seq<T>, f: T -> int, g: T -> int, x: T, d: int)
    requires Distinct(xs)
    requires forall n :: g(n) == f(n) + if n == x then d else 0
    ensures SumOver(xs, g) == SumOver(xs, f) + if x in xs then d else 0
  {
    if xs != [] {
      var k := |xs| - 1;
      assert xs == xs[..k] + [xs[k]];
      SumBump(xs[..k], f, g, x, d);
    }
  }

  lemma {:induction false} SumZero<T(!new)>(xs: seq<T>, f: T -> int)
    requires forall x :: f(x) == 0
    ensures SumOver(xs, f) == 0
  {
    if xs != [] {
      SumZero(xs[..|xs| - 1], f);
    }
  }

  lemma {:induction false} SumConcat<T>(xs: seq<T>, ys: seq<T>, f: T -> int)
    ensures SumOver(xs + ys, f) == SumOver(xs, f) + SumOver(ys, f)
  {
    if ys == [] {
      assert xs + ys == xs;
    } else {
      var k := |ys| - 1;
      SumConcat(xs, ys[..k], f);
      assert (xs + ys)[..|xs| + k] == xs + ys[..k];
    }
  }

  lemma SumAppend<T>(xs: seq<T>, x: T, f: T -> int)
    ensures SumOver(xs + [x], f) == SumOver(xs, f) + f(x)
  {
    assert (xs + [x])[..|xs|] == xs;
  }
}
