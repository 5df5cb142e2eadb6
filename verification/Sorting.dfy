/** Stable sorting by an order that is handed in. */
module Sorting {
  import opened Seqs

  /** Stable insertion: `x` goes before the first element it may precede. */
  function Placed<T>(x: T, xs: seq<T>, before: (T, T) -> bool): (r: seq<T>)
    ensures multiset(r) == multiset(xs) + multiset{x}
  {
    if xs == [] || before(x, xs[0]) then [x] + xs
    else
      assert xs == [xs[0]] + xs[1..];
      [xs[0]] + Placed(x, xs[1..], before)
  }

  function Sorted<T>(xs: seq<T>, before: (T, T) -> bool): (r: seq<T>)
    ensures multiset(r) == multiset(xs)
  {
    if xs == [] then []
    else
      assert xs == [xs[0]] + xs[1..];
      Placed(xs[0], Sorted(xs[1..], before), before)
  }

  ghost predicate Ordered<T>(xs: seq<T>, before: (T, T) -> bool) {
    forall i, j :: 0 <= i < j < |xs| ==> before(xs[i], xs[j])
  }

  ghost predicate TotalPreorder<T(!new)>(before: (T, T) -> bool) {
    && (forall x, y :: before(x, y) || before(y, x))
    && forall x, y, z :: before(x, y) && before(y, z) ==> before(x, z)
  }

  lemma {:induction false} SortedIsOrdered<T(!new)>(xs: seq<T>, before: (T, T) -> bool)
    requires TotalPreorder(before)
    ensures Ordered(Sorted(xs, before), before)
  {
    if xs != [] {
      SortedIsOrdered(xs[1..], before);
      PlacedIsOrdered(xs[0], Sorted(xs[1..], before), before);
    }
  }

  lemma {:induction false} PlacedIsOrdered<T(!new)>(x: T, xs: seq<T>, before: (T, T) -> bool)
    requires TotalPreorder(before) && Ordered(xs, before)
    ensures Ordered(Placed(x, xs, before), before)
  {
    if xs != [] && !before(x, xs[0]) {
      PlacedIsOrdered(x, xs[1..], before);
      var rest := Placed(x, xs[1..], before);
      forall j | 0 <= j < |rest|
        ensures before(xs[0], rest[j])
      {
        assert rest[j] in multiset(xs[1..]) + multiset{x};
      }
    }
  }

  lemma {:induction false} SortedLength<T>(xs: seq<T>, before: (T, T) -> bool)
    ensures |Sorted(xs, before)| == |xs|
  {
    assert |multiset(Sorted(xs, before))| == |multiset(xs)|;
  }

  function Where<T>(keep: T -> bool, xs: seq<T>): seq<T> {
    if xs == [] then [] else (if keep(xs[0]) then [xs[0]] else []) + Where(keep, xs[1..])
  }

  /** Elements the order does not tell apart stay in their order. */
  lemma {:induction false} SortedIsStable<T(!new)>(xs: seq<T>, before: (T, T) -> bool, tie: T -> bool)
    requires forall x, y :: tie(x) && tie(y) ==> before(x, y)
    ensures Where(tie, Sorted(xs, before)) == Where(tie, xs)
  {
    if xs != [] {
      SortedIsStable(xs[1..], before, tie);
      PlacedIsStable(xs[0], Sorted(xs[1..], before), before, tie);
    }
  }

  lemma {:induction false} PlacedIsStable<T(!new)>(x: T, xs: seq<T>, before: (T, T) -> bool, tie: T -> bool)
    requires forall y, z :: tie(y) && tie(z) ==> before(y, z)
    ensures Where(tie, Placed(x, xs, before)) == (if tie(x) then [x] else []) + Where(tie, xs)
  {
    if xs == [] || before(x, xs[0]) {
      assert ([x] + xs)[1..] == xs;
    } else {
      PlacedIsStable(x, xs[1..], before, tie);
      assert Placed(x, xs, before)[1..] == Placed(x, xs[1..], before);
      assert !tie(x) || !tie(xs[0]);
      NothingMore(Where(tie, xs[1..]));
    }
  }
}
