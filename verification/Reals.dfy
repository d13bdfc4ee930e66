/** The larger of two numbers, and finite sums of real-valued functions over integer ranges. */
module Reals {

  function Max(a: real, b: real): real { if a >= b then a else b }

  lemma {:induction false} ProductNonnegative(x: real, y: real)
    requires x >= 0.0 && y >= 0.0
    ensures x * y >= 0.0
  {
  }

  lemma {:induction false} ProductPositive(x: real, y: real)
    requires x > 0.0 && y > 0.0
    ensures x * y > 0.0
  {
  }

  lemma {:induction false} QuotientIs(a: real, d: real, q: real)
    requires d != 0.0 && q * d == a
    ensures a / d == q
  {
    var p := a / d;
    assert p * d == a;
    assert (p - q) * d == p * d - q * d == 0.0;
  }

  lemma {:induction false} SameSign(x: real, m: real)
    requires m > 0.0
    ensures x >= 0.0 <==> x * m >= 0.0
  {
  }

  lemma {:induction false} Distribute(x: real, y: real, t: real)
    ensures (y - x) * t == y * t - x * t
  {
  }

  lemma {:induction false} OrderWithoutFactor(x: real, y: real, t: real)
    requires t > 0.0 && x * t <= y * t
    ensures x <= y
  {
    Distribute(x, y, t);
    SameSign(y - x, t);
  }

  function Sum(f: int -> real, lo: int, hi: int): real
    decreases hi - lo
  {
    if hi <= lo then 0.0 else Sum(f, lo, hi - 1) + f(hi - 1)
  }

  lemma {:induction false} SumCongruent(f: int -> real, g: int -> real, lo: int, hi: int)
    requires forall k | lo <= k < hi :: f(k) == g(k)
    ensures Sum(f, lo, hi) == Sum(g, lo, hi)
    decreases hi - lo
  {
    if lo < hi { SumCongruent(f, g, lo, hi - 1); }
  }

  lemma {:induction false} SumMonotone(f: int -> real, g: int -> real, lo: int, hi: int)
    requires forall k | lo <= k < hi :: f(k) <= g(k)
    ensures Sum(f, lo, hi) <= Sum(g, lo, hi)
    decreases hi - lo
  {
    if lo < hi { SumMonotone(f, g, lo, hi - 1); }
  }

  lemma {:induction false} SumZero(f: int -> real, lo: int, hi: int)
    requires forall k | lo <= k < hi :: f(k) == 0.0
    ensures Sum(f, lo, hi) == 0.0
    decreases hi - lo
  {
    if lo < hi { SumZero(f, lo, hi - 1); }
  }

  lemma {:induction false} SumNonnegative(f: int -> real, lo: int, hi: int)
    requires forall k | lo <= k < hi :: f(k) >= 0.0
    ensures Sum(f, lo, hi) >= 0.0
  {
    SumZero(_ => 0.0, lo, hi);
    SumMonotone(_ => 0.0, f, lo, hi);
  }

  lemma {:induction false} SumScale(f: int -> real, g: int -> real, c: real, lo: int, hi: int)
    requires forall k | lo <= k < hi :: g(k) == c * f(k)
    ensures Sum(g, lo, hi) == c * Sum(f, lo, hi)
    decreases hi - lo
  {
    if lo < hi {
      SumScale(f, g, c, lo, hi - 1);
      assert c * (Sum(f, lo, hi - 1) + f(hi - 1)) == c * Sum(f, lo, hi - 1) + c * f(hi - 1);
    }
  }

  lemma {:induction false} SumAdd(f: int -> real, g: int -> real, h: int -> real, lo: int, hi: int)
    requires forall k | lo <= k < hi :: h(k) == f(k) + g(k)
    ensures Sum(h, lo, hi) == Sum(f, lo, hi) + Sum(g, lo, hi)
    decreases hi - lo
  {
    if lo < hi { SumAdd(f, g, h, lo, hi - 1); }
  }

  lemma {:induction false} SumSplit(f: int -> real, lo: int, mid: int, hi: int)
    requires lo <= mid <= hi
    ensures Sum(f, lo, hi) == Sum(f, lo, mid) + Sum(f, mid, hi)
    decreases hi - mid
  {
    if mid < hi { SumSplit(f, lo, mid, hi - 1); }
  }

  lemma {:induction false} SumShift(f: int -> real, g: int -> real, d: int, lo: int, hi: int)
    requires forall k | lo <= k < hi :: g(k) == f(k + d)
    ensures Sum(g, lo, hi) == Sum(f, lo + d, hi + d)
    decreases hi - lo
  {
    if lo < hi { SumShift(f, g, d, lo, hi - 1); }
  }

  /** Rows first or columns first. */
  lemma {:induction false} SumSwap(f: (int, int) -> real, rows: int -> real, cols: int -> real, a: int, b: int,
          c: int, d: int)
    requires forall i | a <= i < b :: rows(i) == Sum(j => f(i, j), c, d)
    requires forall j | c <= j < d :: cols(j) == Sum(i => f(i, j), a, b)
    ensures Sum(rows, a, b) == Sum(cols, c, d)
    decreases b - a
  {
    if b <= a {
      SumZero(cols, c, d);
    } else {
      var cols' := j => Sum(i => f(i, j), a, b - 1);
      SumSwap(f, rows, cols', a, b - 1, c, d);
      SumAdd(cols', j => f(b - 1, j), cols, c, d);
    }
  }
}
