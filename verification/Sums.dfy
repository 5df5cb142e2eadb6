/** Finite sums of reals, the algebra the resampler's proofs run on. */
module Sums {

  ghost function Sum(n: nat, f: int -> real): real {
    if n == 0 then 0.0 else Sum(n - 1, f) + f(n - 1)
  }

  lemma {:induction false} SumEq(n: nat, f: int -> real, g: int -> real)
    requires forall i :: 0 <= i < n ==> f(i) == g(i)
    ensures Sum(n, f) == Sum(n, g)
  {
    if n > 0 {
      SumEq(n - 1, f, g);
    }
  }

  lemma {:induction false} SumAdd(n: nat, f: int -> real, g: int -> real)
    ensures Sum(n, i => f(i) + g(i)) == Sum(n, f) + Sum(n, g)
  {
    if n > 0 {
      SumAdd(n - 1, f, g);
    }
  }

  lemma {:induction false} SumScale(n: nat, c: real, f: int -> real)
    ensures Sum(n, i => c * f(i)) == c * Sum(n, f)
  {
    if n > 0 {
      SumScale(n - 1, c, f);
      assert c * (Sum(n - 1, f) + f(n - 1)) == c * Sum(n - 1, f) + c * f(n - 1);
    }
  }

  lemma {:induction false} SumMono(n: nat, f: int -> real, g: int -> real)
    requires forall i :: 0 <= i < n ==> f(i) <= g(i)
    ensures Sum(n, f) <= Sum(n, g)
  {
    if n > 0 {
      SumMono(n - 1, f, g);
    }
  }

  /** The first term taken off the front instead of the last off the back. */
  lemma {:induction false} SumFront(n: nat, f: int -> real)
    requires n > 0
    ensures Sum(n, f) == f(0) + Sum(n - 1, i => f(i + 1))
  {
    if n > 1 {
      SumFront(n - 1, f);
    }
  }

  lemma {:induction false} SumReverse(n: nat, f: int -> real)
    ensures Sum(n, i => f(n - 1 - i)) == Sum(n, f)
  {
    if n > 0 {
      var g := i => f(n - 1 - i);
      SumFront(n, g);
      SumEq(n - 1, i => g(i + 1), i => f(n - 2 - i));
      SumReverse(n - 1, f);
      SumEq(n - 1, i => f(n - 2 - i), i => f(n - 1 - 1 - i));
    }
  }

  /** A difference of neighbours telescopes. */
  lemma {:induction false} SumTelescopes(n: nat, f: int -> real, c: int -> real)
    requires forall i :: 0 <= i < n ==> f(i) == c(i + 1) - c(i)
    ensures Sum(n, f) == c(n) - c(0)
  {
    if n > 0 {
      SumTelescopes(n - 1, f, c);
      assert f(n - 1) == c(n - 1 + 1) - c(n - 1);
    }
  }

  /** Summing by rows or by columns is the same. */
  lemma {:induction false} SumSwap(m: nat, n: nat, f: (int, int) -> real)
    ensures Sum(m, i => Sum(n, j => f(i, j))) == Sum(n, j => Sum(m, i => f(i, j)))
  {
    var byRow := i => Sum(n, j => f(i, j));
    var byCol := j => Sum(m, i => f(i, j));
    if m == 0 {
      SumScale(n, 0.0, byCol);
      SumEq(n, byCol, j => 0.0 * byCol(j));
    } else {
      SumSwap(m - 1, n, f);
      var shorter := j => Sum(m - 1, i => f(i, j));
      var last := j => f(m - 1, j);
      SumAdd(n, shorter, last);
      forall j | 0 <= j < n
        ensures byCol(j) == shorter(j) + last(j)
      {
        SumEq(m - 1, i => f(i, j), i => f(i, j));
      }
      SumEq(n, byCol, j => shorter(j) + last(j));
    }
  }
}
