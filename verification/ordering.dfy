/** Sorting under a caller's comparison, as the Go library's sort.Slice and sort.Strings
    do it. The comparison only has to be total on the elements that are sorted. */
module Ordering {

  /** `less` is a strict order, and it ranks any two different members of `xs`. */
  ghost predicate Orders<T(!new)>(less: (T, T) -> bool, xs: seq<T>) {
    && (forall a, b :: less(a, b) ==> !less(b, a))
    && (forall a, b, c :: less(a, b) && less(b, c) ==> less(a, c))
    && (forall a, b :: a in xs && b in xs && a != b ==> less(a, b) || less(b, a))
  }

  /** The same for the members of a set. */
  ghost predicate OrdersSet<T(!new)>(less: (T, T) -> bool, s: set<T>) {
    && (forall a, b :: less(a, b) ==> !less(b, a))
    && (forall a, b, c :: less(a, b) && less(b, c) ==> less(a, c))
    && (forall a, b :: a in s && b in s && a != b ==> less(a, b) || less(b, a))
  }

  lemma OrdersMembers<T(!new)>(less: (T, T) -> bool, s: set<T>, xs: seq<T>)
    requires OrdersSet(less, s) && forall x :: x in xs ==> x in s
    ensures Orders(less, xs)
  {
  }

  ghost predicate AtMost<T(!new)>(less: (T, T) -> bool, a: T, b: T) {
    a == b || less(a, b)
  }

  ghost predicate Sorted<T(!new)>(less: (T, T) -> bool, xs: seq<T>) {
    forall i, j :: 0 <= i < j < |xs| ==> AtMost(less, xs[i], xs[j])
  }

  function Insert<T>(x: T, xs: seq<T>, less: (T, T) -> bool): (r: seq<T>)
    ensures multiset(r) == multiset{x} + multiset(xs)
    ensures |r| == |xs| + 1
  {
    if xs == [] || less(x, xs[0]) then
      [x] + xs
    else
      assert xs == [xs[0]] + xs[1..];
      [xs[0]] + Insert(x, xs[1..], less)
  }

  function Sort<T>(xs: seq<T>, less: (T, T) -> bool): (r: seq<T>)
    ensures multiset(r) == multiset(xs)
    ensures |r| == |xs|
  {
    if xs == [] then
      []
    else
      assert xs == [xs[0]] + xs[1..];
      Insert(xs[0], Sort(xs[1..], less), less)
  }

  lemma SameMembers<T>(xs: seq<T>, ys: seq<T>)
    requires multiset(xs) == multiset(ys)
    ensures |xs| == |ys|
    ensures forall x :: x in xs <==> x in ys
  {
    assert |multiset(xs)| == |multiset(ys)|;
    forall x ensures x in xs <==> x in ys {
      assert x in xs <==> x in multiset(xs);
    }
  }

  lemma {:induction false} InsertSorts<T(!new)>(x: T, xs: seq<T>, less: (T, T) -> bool)
    requires Orders(less, [x] + xs) && Sorted(less, xs)
    ensures Sorted(less, Insert(x, xs, less))
  {
    if xs == [] || less(x, xs[0]) {
    } else {
      var rest := xs[1..];
      InsertSorts(x, rest, less);
      var r := Insert(x, rest, less);
      SameMembers(r, [x] + rest);
      forall i | 0 <= i < |r| ensures AtMost(less, xs[0], r[i]) {
        assert r[i] in [x] + rest;
        if r[i] != x {
          var k :| 0 <= k < |rest| && rest[k] == r[i];
          assert xs[k + 1] == r[i];
        } else {
          assert x in [x] + xs && xs[0] in [x] + xs;
        }
      }
    }
  }

  /** The sorted sequence is in order and holds the same elements as often. */
  lemma {:induction false} SortSorts<T(!new)>(xs: seq<T>, less: (T, T) -> bool)
    requires Orders(less, xs)
    ensures Sorted(less, Sort(xs, less)) && multiset(Sort(xs, less)) == multiset(xs)
  {
    if xs != [] {
      SortSorts(xs[1..], less);
      var r := Sort(xs[1..], less);
      SameMembers(r, xs[1..]);
      InsertSorts(xs[0], r, less);
    }
  }

  lemma SortedHeadsAgree<T(!new)>(xs: seq<T>, ys: seq<T>, less: (T, T) -> bool)
    requires forall a, b :: less(a, b) ==> !less(b, a)
    requires Sorted(less, xs) && Sorted(less, ys)
    requires xs != [] && ys != [] && xs[0] in ys && ys[0] in xs
    ensures xs[0] == ys[0]
  {
    var i :| 0 <= i < |ys| && ys[i] == xs[0];
    var j :| 0 <= j < |xs| && xs[j] == ys[0];
    assert i > 0 ==> AtMost(less, ys[0], ys[i]);
    assert j > 0 ==> AtMost(less, xs[0], xs[j]);
  }

  lemma TailMultiset<T>(xs: seq<T>)
    requires xs != []
    ensures multiset(xs[1..]) == multiset(xs) - multiset{xs[0]}
  {
    assert xs == [xs[0]] + xs[1..];
  }

  /** There is only one way to put a multiset in order. */
  lemma {:induction false} SortedIsUnique<T(!new)>(xs: seq<T>, ys: seq<T>, less: (T, T) -> bool)
    requires forall a, b :: less(a, b) ==> !less(b, a)
    requires Sorted(less, xs) && Sorted(less, ys)
    requires multiset(xs) == multiset(ys)
    ensures xs == ys
  {
    SameMembers(xs, ys);
    if xs != [] {
      SortedHeadsAgree(xs, ys, less);
      TailMultiset(xs);
      TailMultiset(ys);
      SortedIsUnique(xs[1..], ys[1..], less);
      assert xs == [xs[0]] + xs[1..] && ys == [ys[0]] + ys[1..];
    }
  }

  /** Sorting forgets the order of its input. */
  lemma SortForgetsOrder<T(!new)>(xs: seq<T>, ys: seq<T>, less: (T, T) -> bool)
    requires Orders(less, xs) && multiset(xs) == multiset(ys)
    ensures Sort(xs, less) == Sort(ys, less)
  {
    SameMembers(xs, ys);
    SortSorts(xs, less);
    SortSorts(ys, less);
    SameMembers(Sort(xs, less), xs);
    SortedIsUnique(Sort(xs, less), Sort(ys, less), less);
  }

  ghost predicate Transitive<T(!new)>(less: (T, T) -> bool) {
    forall a, b, c :: less(a, b) && less(b, c) ==> less(a, c)
  }

  /** Nothing comes before anything smaller. */
  ghost predicate Ascends<T>(less: (T, T) -> bool, xs: seq<T>) {
    forall i, j :: 0 <= i < j < |xs| ==> !less(xs[j], xs[i])
  }

  lemma AscendsInFront<T>(x: T, xs: seq<T>, less: (T, T) -> bool)
    requires Ascends(less, xs) && forall y :: y in xs ==> !less(y, x)
    ensures Ascends(less, [x] + xs)
  {
    var r := [x] + xs;
    forall i, j | 0 <= i < j < |r| ensures !less(r[j], r[i]) {
      assert r[j] == xs[j - 1] && xs[j - 1] in xs;
      assert i > 0 ==> r[i] == xs[i - 1];
    }
  }

  lemma FirstIsLeast<T>(xs: seq<T>, less: (T, T) -> bool)
    requires xs != [] && Ascends(less, xs)
    ensures forall y :: y in xs[1..] ==> !less(y, xs[0])
    ensures Ascends(less, xs[1..])
  {
    forall y | y in xs[1..] ensures !less(y, xs[0]) {
      var i :| 0 <= i < |xs| - 1 && xs[1..][i] == y;
      assert xs[i + 1] == y;
    }
  }

  lemma {:induction false} InsertAscends<T(!new)>(x: T, xs: seq<T>, less: (T, T) -> bool)
    requires Transitive(less) && (forall a :: !less(a, a)) && Ascends(less, xs)
    ensures Ascends(less, Insert(x, xs, less))
  {
    if xs == [] {
      AscendsInFront(x, xs, less);
    } else {
      FirstIsLeast(xs, less);
      assert xs == [xs[0]] + xs[1..];
      if less(x, xs[0]) {
        AscendsInFront(x, xs, less);
      } else {
        var rest := xs[1..];
        InsertAscends(x, rest, less);
        SameMembers(Insert(x, rest, less), [x] + rest);
        AscendsInFront(xs[0], Insert(x, rest, less), less);
      }
    }
  }

  /** Sorting puts nothing before anything smaller, even where the comparison does not tell elements apart. */
  lemma {:induction false} SortAscends<T(!new)>(xs: seq<T>, less: (T, T) -> bool)
    requires Transitive(less) && forall a :: !less(a, a)
    ensures Ascends(less, Sort(xs, less))
  {
    if xs != [] {
      SortAscends(xs[1..], less);
      InsertAscends(xs[0], Sort(xs[1..], less), less);
    }
  }

  // ----- sequences without repetition

  ghost predicate Distinct<T(!new)>(xs: seq<T>) {
    forall i, j :: 0 <= i < j < |xs| ==> xs[i] != xs[j]
  }

  function SetOf<T>(xs: seq<T>): set<T> {
    set x | x in xs
  }

  lemma {:induction false} DistinctSize<T(!new)>(xs: seq<T>)
    requires Distinct(xs)
    ensures |SetOf(xs)| == |xs|
  {
    if xs != [] {
      var k := |xs| - 1;
      DistinctSize(xs[..k]);
      assert SetOf(xs) == SetOf(xs[..k]) + {xs[k]};
    }
  }

  lemma {:induction false} DistinctCounts<T(!new)>(xs: seq<T>)
    requires Distinct(xs)
    ensures forall x :: multiset(xs)[x] <= 1
  {
    if xs != [] {
      var k := |xs| - 1;
      DistinctCounts(xs[..k]);
      assert xs == xs[..k] + [xs[k]];
    }
  }

  lemma DistinctConcat<T(!new)>(xs: seq<T>, ys: seq<T>)
    requires Distinct(xs) && Distinct(ys) && forall x :: x in xs ==> x !in ys
    ensures Distinct(xs + ys)
  {
    forall i, j | 0 <= i < j < |xs + ys| ensures (xs + ys)[i] != (xs + ys)[j] {
      assert i < |xs| ==> xs[i] in xs;
      assert j >= |xs| ==> ys[j - |xs|] in ys;
    }
  }

  lemma SortedDistinct<T(!new)>(xs: seq<T>, less: (T, T) -> bool)
    requires Distinct(xs)
    ensures Distinct(Sort(xs, less))
  {
    var s := Sort(xs, less);
    DistinctCounts(xs);
    forall i, j | 0 <= i < j < |s| ensures s[i] != s[j] {
      TwiceCounts(s, i, j);
    }
  }

  lemma TwiceCounts<T(!new)>(s: seq<T>, i: nat, j: nat)
    requires i < j < |s|
    ensures s[i] == s[j] ==> multiset(s)[s[j]] > 1
  {
    assert s == s[..j] + s[j..];
    assert s[..j][i] == s[i] && s[j..][0] == s[j];
    assert s[i] in multiset(s[..j]) && s[j] in multiset(s[j..]);
  }

  lemma SubsetSize<T>(a: set<T>, b: set<T>)
    requires a <= b
    ensures |a| <= |b|
    ensures a < b ==> |a| < |b|
  {
    assert b == a + (b - a);
  }

  /** The members of a set as Go hands out map keys: in no particular order. */
  method InAnyOrder<T(!new)>(s: set<T>) returns (xs: seq<T>)
    ensures Distinct(xs) && SetOf(xs) == s
  {
    xs := [];
    var rest := s;
    while rest != {}
      invariant rest <= s && Distinct(xs) && SetOf(xs) == s - rest
      decreases rest
    {
      var x :| x in rest;
      assert SetOf(xs + [x]) == SetOf(xs) + {x};
      xs := xs + [x];
      rest := rest - {x};
    }
  }

  // ----- filtering

  function Filter<T>(xs: seq<T>, keep: T -> bool): seq<T> {
    if xs == [] then []
    else
      var front := Filter(xs[..|xs| - 1], keep);
      if keep(xs[|xs| - 1]) then front + [xs[|xs| - 1]] else front
  }

  lemma {:induction false} FilterExactly<T(!new)>(xs: seq<T>, keep: T -> bool)
    ensures forall x :: x in Filter(xs, keep) <==> x in xs && keep(x)
    ensures Distinct(xs) ==> Distinct(Filter(xs, keep))
  {
    if xs != [] {
      var k := |xs| - 1;
      FilterExactly(xs[..k], keep);
      assert xs == xs[..k] + [xs[k]];
      assert Distinct(xs) ==> forall x :: x in xs[..k] ==> x != xs[k];
    }
  }

  /** The positions of what is kept. */
  function Positions<T>(xs: seq<T>, keep: T -> bool): seq<nat> {
    if xs == [] then []
    else
      var front := Positions(xs[..|xs| - 1], keep);
      if keep(xs[|xs| - 1]) then front + [|xs| - 1] else front
  }

  ghost predicate PicksAll<T>(xs: seq<T>, keep: T -> bool, picks: seq<nat>) {
    && (forall i :: i in picks <==> 0 <= i < |xs| && keep(xs[i]))
    && (forall i, j :: 0 <= i < j < |picks| ==> picks[i] < picks[j])
  }

  ghost predicate Picked<T>(xs: seq<T>, picks: seq<nat>, kept: seq<T>) {
    |kept| == |picks| && forall i :: 0 <= i < |picks| ==> picks[i] < |xs| && kept[i] == xs[picks[i]]
  }

  lemma PickOneMore<T>(xs: seq<T>, x: T, keep: T -> bool, picks: seq<nat>)
    requires PicksAll(xs, keep, picks)
    ensures PicksAll(xs + [x], keep, if keep(x) then picks + [|xs|] else picks)
  {
    assert forall i :: 0 <= i < |picks| ==> picks[i] in picks;
    assert forall i :: 0 <= i < |xs| ==> (xs + [x])[i] == xs[i];
  }

  lemma PickedOneMore<T>(xs: seq<T>, x: T, picks: seq<nat>, kept: seq<T>)
    requires Picked(xs, picks, kept)
    ensures Picked(xs + [x], picks, kept) && Picked(xs + [x], picks + [|xs|], kept + [x])
  {
  }

  /** Filtering keeps exactly the elements at the positions that qualify, in their order. */
  lemma {:induction false} FilterInOrder<T>(xs: seq<T>, keep: T -> bool)
    ensures PicksAll(xs, keep, Positions(xs, keep)) && Picked(xs, Positions(xs, keep), Filter(xs, keep))
  {
    if xs != [] {
      var k := |xs| - 1;
      FilterInOrder(xs[..k], keep);
      PickOneMore(xs[..k], xs[k], keep, Positions(xs[..k], keep));
      PickedOneMore(xs[..k], xs[k], Positions(xs[..k], keep), Filter(xs[..k], keep));
      assert xs == xs[..k] + [xs[k]];
    }
  }

  /** And each as often as it came. */
  lemma {:induction false} FilterCounts<T>(xs: seq<T>, keep: T -> bool, x: T)
    ensures multiset(Filter(xs, keep))[x] == if keep(x) then multiset(xs)[x] else 0
  {
    if xs != [] {
      var k := |xs| - 1;
      FilterCounts(xs[..k], keep, x);
      assert xs == xs[..k] + [xs[k]];
    }
  }
}
