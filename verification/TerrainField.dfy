/** Zero-padded separable convolution on a square grid, as functions on fields.
    A field gives every cell a real; outside the grid the terrain code reads nothing, so 0. */
module TerrainField {
  import opened Reals

  /** Field values are indexed row first, as `[y * GRID + x]` is. */
  type Field = (int, int) -> real

  datatype Kernel = Kernel(radius: int, taps: seq<real>) {
    ghost predicate Valid() {
      radius >= 0 && |taps| == 2 * radius + 1 && (forall k :: Tap(k) >= 0.0) && Total() > 0.0
    }

    function Tap(k: int): real {
      if 0 <= k + radius < |taps| then taps[k + radius] else 0.0
    }

    /** `ksum`. */
    function Total(): real { Sum(Weights(), -radius, radius + 1) }

    function Weights(): int -> real { k => Tap(k) }
  }

  predicate InGrid(g: int, y: int, x: int) { 0 <= y < g && 0 <= x < g }

  ghost predicate ZeroOutside(g: int, f: Field) {
    forall y, x :: !InGrid(g, y, x) ==> f(y, x) == 0.0
  }

  ghost predicate Nonnegative(f: Field) { forall y, x :: f(y, x) >= 0.0 }

  ghost predicate AtMost(f: Field, h: Field) { forall y, x :: f(y, x) <= h(y, x) }

  function RowTaps(kern: Kernel, f: Field, y: int, x: int): int -> real { k => f(y, x + k) * kern.Tap(k) }

  function ColumnTaps(kern: Kernel, f: Field, y: int, x: int): int -> real { k => f(y + k, x) * kern.Tap(k) }

  function RowPassAt(kern: Kernel, g: int, f: Field, y: int, x: int): real
    requires kern.Total() != 0.0
  {
    if InGrid(g, y, x) then Sum(RowTaps(kern, f, y, x), -kern.radius, kern.radius + 1) / kern.Total() else 0.0
  }

  function ColumnPassAt(kern: Kernel, g: int, f: Field, y: int, x: int): real
    requires kern.Total() != 0.0
  {
    if InGrid(g, y, x) then Sum(ColumnTaps(kern, f, y, x), -kern.radius, kern.radius + 1) / kern.Total() else 0.0
  }

  ghost function RowPass(kern: Kernel, g: int, f: Field): Field
    requires kern.Valid()
  {
    (y, x) => RowPassAt(kern, g, f, y, x)
  }

  ghost function ColumnPass(kern: Kernel, g: int, f: Field): Field
    requires kern.Valid()
  {
    (y, x) => ColumnPassAt(kern, g, f, y, x)
  }

  /** What the two passes of `blur` compute. */
  ghost function Blur(kern: Kernel, g: int, f: Field): Field
    requires kern.Valid()
  {
    ColumnPass(kern, g, RowPass(kern, g, f))
  }

  // ------------------------------------------------------------------ direct convolution

  function DirectRow(kern: Kernel, f: Field, y: int, x: int, ky: int): int -> real {
    kx => f(y + ky, x + kx) * (kern.Tap(ky) * kern.Tap(kx))
  }

  function DirectRows(kern: Kernel, f: Field, y: int, x: int): int -> real {
    ky => Sum(DirectRow(kern, f, y, x, ky), -kern.radius, kern.radius + 1)
  }

  /** The plain two-dimensional convolution with the outer-product kernel. */
  function Direct(kern: Kernel, f: Field, y: int, x: int): real
    requires kern.Total() != 0.0
  {
    Sum(DirectRows(kern, f, y, x), -kern.radius, kern.radius + 1) / (kern.Total() * kern.Total())
  }

  lemma {:induction false} DivisionChain(a: real, t: real, c: real)
    requires t != 0.0
    ensures (a / t) * c == (1.0 / t) * (c * a)
  {
    var q, u := a / t, 1.0 / t;
    assert q * t == a && u * t == 1.0;
    assert u * (c * a) == u * (c * (q * t)) == (u * t) * (c * q) == q * c;
  }

  lemma {:induction false} QuotientTwice(a: real, b: real, t: real)
    requires t != 0.0 && b == (1.0 / t) * a
    ensures b / t == a / (t * t)
  {
    var u, p := 1.0 / t, b / t;
    assert u * t == 1.0 && p * t == b;
    assert b * t == (u * t) * a == a;
    assert p * (t * t) == (p * t) * t == a;
    QuotientIs(a, t * t, p);
  }

  lemma {:induction false} TapsTwice(v: real, a: real, b: real)
    ensures v * (a * b) == a * (v * b)
  {
  }

  /** One tap of the column pass over the row pass, as a row of the direct convolution. */
  lemma {:induction false} ColumnOfRows(kern: Kernel, g: int, f: Field, y: int, x: int, ky: int)
    requires kern.Valid() && ZeroOutside(g, f) && 0 <= x < g
    ensures RowPass(kern, g, f)(y + ky, x) * kern.Tap(ky)
         == (1.0 / kern.Total()) * Sum(DirectRow(kern, f, y, x, ky), -kern.radius, kern.radius + 1)
  {
    var r, row, c, t := kern.radius, RowTaps(kern, f, y + ky, x), kern.Tap(ky), kern.Total();
    var direct := DirectRow(kern, f, y, x, ky);
    if !InGrid(g, y + ky, x) { SumZero(row, -r, r + 1); }
    hide Sum, Kernel.Tap, Kernel.Total, ZeroOutside;
    forall kx | -r <= kx < r + 1 ensures direct(kx) == c * row(kx) {
      TapsTwice(f(y + ky, x + kx), c, kern.Tap(kx));
    }
    SumScale(row, direct, c, -r, r + 1);
    hide RowTaps, DirectRow;
    DivisionChain(Sum(row, -r, r + 1), t, c);
  }

  /** The separable two-pass blur is the direct convolution divided by `ksum` squared. */
  lemma {:induction false} BlurIsDirectConvolution(kern: Kernel, g: int, f: Field, y: int, x: int)
    requires kern.Valid() && ZeroOutside(g, f) && InGrid(g, y, x)
    ensures Blur(kern, g, f)(y, x) == Direct(kern, f, y, x)
  {
    hide Sum, Kernel.Tap, Kernel.Total, RowPassAt;
    forall ky
      ensures ColumnTaps(kern, RowPass(kern, g, f), y, x)(ky) == (1.0 / kern.Total()) * DirectRows(kern, f, y, x)(ky)
    {
      ColumnOfRows(kern, g, f, y, x, ky);
    }
    ScaledTwice(ColumnTaps(kern, RowPass(kern, g, f), y, x), DirectRows(kern, f, y, x), kern.Total(), kern.radius);
  }

  lemma {:induction false} ScaledTwice(columns: int -> real, rows: int -> real, t: real, r: int)
    requires t != 0.0 && forall k :: columns(k) == (1.0 / t) * rows(k)
    ensures Sum(columns, -r, r + 1) / t == Sum(rows, -r, r + 1) / (t * t)
  {
    hide Sum;
    SumScale(rows, columns, 1.0 / t, -r, r + 1);
    QuotientTwice(Sum(rows, -r, r + 1), Sum(columns, -r, r + 1), t);
  }

  // ------------------------------------------------------------------ linearity and order

  ghost function Combine(a: real, f: Field, b: real, h: Field): Field { (y, x) => a * f(y, x) + b * h(y, x) }

  lemma {:induction false} LinearSum(f: int -> real, h: int -> real, m: int -> real, a: real, b: real, lo: int, hi: int)
    requires forall k | lo <= k < hi :: m(k) == a * f(k) + b * h(k)
    ensures Sum(m, lo, hi) == a * Sum(f, lo, hi) + b * Sum(h, lo, hi)
  {
    var af, bh := k => a * f(k), k => b * h(k);
    SumScale(f, af, a, lo, hi);
    SumScale(h, bh, b, lo, hi);
    SumAdd(af, bh, m, lo, hi);
  }

  lemma {:induction false} LinearQuotient(a: real, u: real, b: real, v: real, t: real)
    requires t != 0.0
    ensures (a * u + b * v) / t == a * (u / t) + b * (v / t)
  {
    var p, q := u / t, v / t;
    assert p * t == u && q * t == v;
    assert (a * p + b * q) * t == a * (p * t) + b * (q * t);
  }

  lemma {:induction false} LinearTap(a: real, u: real, b: real, v: real, w: real)
    ensures (a * u + b * v) * w == a * (u * w) + b * (v * w)
  {
  }

  lemma {:induction false} RowPassLinear(kern: Kernel, g: int, a: real, f: Field, b: real, h: Field, m: Field)
    requires kern.Valid() && forall y, x :: m(y, x) == a * f(y, x) + b * h(y, x)
    ensures forall y, x :: RowPass(kern, g, m)(y, x) == a * RowPass(kern, g, f)(y, x) + b * RowPass(kern, g, h)(y, x)
  {
    hide Sum, Kernel.Tap, Kernel.Total;
    var r := kern.radius;
    forall y, x
      ensures RowPassAt(kern, g, m, y, x) == a * RowPassAt(kern, g, f, y, x) + b * RowPassAt(kern, g, h, y, x)
    {
      var tf, th := RowTaps(kern, f, y, x), RowTaps(kern, h, y, x);
      forall k | -r <= k < r + 1 ensures RowTaps(kern, m, y, x)(k) == a * tf(k) + b * th(k) {
        LinearTap(a, f(y, x + k), b, h(y, x + k), kern.Tap(k));
      }
      LinearSum(tf, th, RowTaps(kern, m, y, x), a, b, -r, r + 1);
      LinearQuotient(a, Sum(tf, -r, r + 1), b, Sum(th, -r, r + 1), kern.Total());
    }
  }

  lemma {:induction false} ColumnPassLinear(kern: Kernel, g: int, a: real, f: Field, b: real, h: Field, m: Field)
    requires kern.Valid() && forall y, x :: m(y, x) == a * f(y, x) + b * h(y, x)
    ensures forall y, x ::
      ColumnPass(kern, g, m)(y, x) == a * ColumnPass(kern, g, f)(y, x) + b * ColumnPass(kern, g, h)(y, x)
  {
    hide Sum, Kernel.Tap, Kernel.Total;
    var r := kern.radius;
    forall y, x
      ensures ColumnPassAt(kern, g, m, y, x) == a * ColumnPassAt(kern, g, f, y, x) + b * ColumnPassAt(kern, g, h, y, x)
    {
      var tf, th := ColumnTaps(kern, f, y, x), ColumnTaps(kern, h, y, x);
      forall k | -r <= k < r + 1 ensures ColumnTaps(kern, m, y, x)(k) == a * tf(k) + b * th(k) {
        LinearTap(a, f(y + k, x), b, h(y + k, x), kern.Tap(k));
      }
      LinearSum(tf, th, ColumnTaps(kern, m, y, x), a, b, -r, r + 1);
      LinearQuotient(a, Sum(tf, -r, r + 1), b, Sum(th, -r, r + 1), kern.Total());
    }
  }

  lemma {:induction false} BlurLinear(kern: Kernel, g: int, a: real, f: Field, b: real, h: Field)
    requires kern.Valid()
    ensures forall y, x ::
      Blur(kern, g, Combine(a, f, b, h))(y, x) == a * Blur(kern, g, f)(y, x) + b * Blur(kern, g, h)(y, x)
  {
    RowPassLinear(kern, g, a, f, b, h, Combine(a, f, b, h));
    ColumnPassLinear(kern, g, a, RowPass(kern, g, f), b, RowPass(kern, g, h), RowPass(kern, g, Combine(a, f, b, h)));
  }

  lemma {:induction false} PassNonnegative(kern: Kernel, g: int, f: Field)
    requires kern.Valid() && Nonnegative(f)
    ensures Nonnegative(RowPass(kern, g, f)) && Nonnegative(ColumnPass(kern, g, f))
  {
    var r := kern.radius;
    forall y, x ensures RowPassAt(kern, g, f, y, x) >= 0.0 && ColumnPassAt(kern, g, f, y, x) >= 0.0 {
      SumNonnegative(RowTaps(kern, f, y, x), -r, r + 1);
      SumNonnegative(ColumnTaps(kern, f, y, x), -r, r + 1);
    }
  }

  lemma {:induction false} BlurNonnegative(kern: Kernel, g: int, f: Field)
    requires kern.Valid() && Nonnegative(f)
    ensures Nonnegative(Blur(kern, g, f))
  {
    PassNonnegative(kern, g, f);
    PassNonnegative(kern, g, RowPass(kern, g, f));
  }

  /** More mass in every cell never lowers the blurred surface. */
  lemma {:induction false} BlurMonotone(kern: Kernel, g: int, f: Field, h: Field)
    requires kern.Valid() && AtMost(f, h)
    ensures AtMost(Blur(kern, g, f), Blur(kern, g, h))
  {
    BlurLinear(kern, g, 1.0, h, -1.0, f);
    BlurNonnegative(kern, g, Combine(1.0, h, -1.0, f));
    forall y, x ensures Blur(kern, g, f)(y, x) <= Blur(kern, g, h)(y, x) {
      assert Blur(kern, g, Combine(1.0, h, -1.0, f))(y, x) >= 0.0;
    }
  }

  // ------------------------------------------------------------------ mass

  function RowSum(f: Field, g: int, y: int): real { Sum(x => f(y, x), 0, g) }

  function ColumnSum(f: Field, g: int, x: int): real { Sum(y => f(y, x), 0, g) }

  function Mass(f: Field, g: int): real { Sum(y => RowSum(f, g, y), 0, g) }

  lemma {:induction false} MassByColumns(f: Field, g: int)
    ensures Mass(f, g) == Sum(x => ColumnSum(f, g, x), 0, g)
  {
    SumSwap(f, y => RowSum(f, g, y), x => ColumnSum(f, g, x), 0, g, 0, g);
  }

  /** The line `s` holds nothing outside `[lo, hi)`. */
  ghost predicate Within(s: int -> real, lo: int, hi: int) { forall x :: !(lo <= x < hi) ==> s(x) == 0.0 }

  lemma {:induction false} WindowSum(s: int -> real, g: int, k: int, r: int)
    requires g >= 0 && -r <= k <= r && Within(s, 0, g) && forall x :: s(x) >= 0.0
    ensures Sum(s, k, g + k) <= Sum(s, 0, g)
    ensures Within(s, r, g - r) ==> Sum(s, k, g + k) == Sum(s, 0, g)
  {
    var lo, hi := if k < 0 then k else 0, if k < 0 then g else g + k;
    SumSplit(s, lo, k, hi);
    SumSplit(s, k, g + k, hi);
    SumSplit(s, lo, 0, hi);
    SumSplit(s, 0, g, hi);
    SumZero(s, lo, 0);
    SumZero(s, g, hi);
    SumNonnegative(s, lo, k);
    SumNonnegative(s, g + k, hi);
    if Within(s, r, g - r) {
      SumZero(s, lo, k);
      SumZero(s, g + k, hi);
    }
  }

  function LineTaps(kern: Kernel, s: int -> real, x: int): int -> real { k => s(x + k) * kern.Tap(k) }

  function Moved(s: int -> real, k: int): int -> real { x => s(x + k) }

  /** Summing the taps of every cell is summing one shifted, weighted copy of the line per tap. */
  lemma {:induction false} LineMassByTaps(kern: Kernel, s: int -> real, g: int)
    requires kern.Valid() && g >= 0
    ensures Sum(LinePass(kern, s), 0, g) == Sum(TapWindows(kern, s, g), -kern.radius, kern.radius + 1)
  {
    hide Sum, Kernel.Tap, Kernel.Total;
    var f := (x, k) => s(x + k) * kern.Tap(k);
    var u, v := LinePass(kern, s), TapWindows(kern, s, g);
    forall k ensures v(k) == Sum(x => f(x, k), 0, g) {
      SumShift(s, Moved(s, k), k, 0, g);
      SumScale(Moved(s, k), x => f(x, k), kern.Tap(k), 0, g);
    }
    forall x ensures u(x) == Sum(k => f(x, k), -kern.radius, kern.radius + 1) {
      SumCongruent(LineTaps(kern, s, x), k => f(x, k), -kern.radius, kern.radius + 1);
    }
    SumSwap(f, u, v, 0, g, -kern.radius, kern.radius + 1);
  }

  function LinePass(kern: Kernel, s: int -> real): int -> real {
    x => Sum(LineTaps(kern, s, x), -kern.radius, kern.radius + 1)
  }

  function TapWindows(kern: Kernel, s: int -> real, g: int): int -> real { k => kern.Tap(k) * Sum(s, k, g + k) }

  function TapShares(kern: Kernel, mass: real): int -> real { k => mass * kern.Tap(k) }

  /** One pass over one line loses mass only over the border. */
  lemma {:induction false} LineMass(kern: Kernel, s: int -> real, o: int -> real, g: int)
    requires kern.Valid() && g >= 0 && Within(s, 0, g) && forall x :: s(x) >= 0.0
    requires forall x | 0 <= x < g :: o(x) == LinePass(kern, s)(x) / kern.Total()
    ensures Sum(o, 0, g) <= Sum(s, 0, g)
    ensures Within(s, kern.radius, g - kern.radius) ==> Sum(o, 0, g) == Sum(s, 0, g)
  {
    hide Sum, LinePass, LineTaps, Kernel.Total;
    TapsCarryMass(kern, s, g);
    SumQuotient(LinePass(kern, s), o, kern.Total(), Sum(s, 0, g), g);
  }

  lemma {:induction false} SumQuotient(u: int -> real, o: int -> real, t: real, mass: real, g: int)
    requires t > 0.0 && forall x | 0 <= x < g :: o(x) == u(x) / t
    requires Sum(u, 0, g) <= mass * t
    ensures Sum(o, 0, g) <= mass
    ensures Sum(u, 0, g) == mass * t ==> Sum(o, 0, g) == mass
  {
    hide Sum;
    var c := 1.0 / t;
    forall x | 0 <= x < g ensures o(x) == c * u(x) { DivisionChain(u(x), t, 1.0); }
    SumScale(u, o, c, 0, g);
    assert Sum(o, 0, g) == c * Sum(u, 0, g);
    QuotientBound(Sum(u, 0, g), mass, t, c);
  }

  lemma {:induction false} WindowShare(kern: Kernel, s: int -> real, g: int, k: int)
    requires kern.Valid() && g >= 0 && Within(s, 0, g) && (forall x :: s(x) >= 0.0) && -kern.radius <= k <= kern.radius
    ensures TapWindows(kern, s, g)(k) <= TapShares(kern, Sum(s, 0, g))(k)
    ensures Within(s, kern.radius, g - kern.radius) ==> TapWindows(kern, s, g)(k) == TapShares(kern, Sum(s, 0, g))(k)
  {
    hide Sum, Kernel.Total, Kernel.Tap;
    WindowSum(s, g, k, kern.radius);
    TapTimes(kern.Tap(k), Sum(s, k, g + k), Sum(s, 0, g));
  }

  /** The line pass as a sum over taps of one window each, and the shares the windows cannot exceed. */
  lemma {:induction false} WindowsAndShares(kern: Kernel, s: int -> real, g: int)
    returns (v: int -> real, w: int -> real)
    requires kern.Valid() && g >= 0 && Within(s, 0, g) && forall x :: s(x) >= 0.0
    ensures Sum(LinePass(kern, s), 0, g) == Sum(v, -kern.radius, kern.radius + 1)
    ensures Sum(w, -kern.radius, kern.radius + 1) == Sum(s, 0, g) * kern.Total()
    ensures forall k | -kern.radius <= k < kern.radius + 1 :: v(k) <= w(k)
    ensures Within(s, kern.radius, g - kern.radius) ==> forall k | -kern.radius <= k < kern.radius + 1 :: v(k) == w(k)
  {
    hide Sum, Kernel.Total;
    v, w := TapWindows(kern, s, g), TapShares(kern, Sum(s, 0, g));
    LineMassByTaps(kern, s, g);
    TapSharesTotal(kern, Sum(s, 0, g));
    forall k | -kern.radius <= k < kern.radius + 1
      ensures v(k) <= w(k) && (Within(s, kern.radius, g - kern.radius) ==> v(k) == w(k))
    {
      WindowShare(kern, s, g, k);
    }
  }

  lemma {:induction false} TapsCarryMass(kern: Kernel, s: int -> real, g: int)
    requires kern.Valid() && g >= 0 && Within(s, 0, g) && forall x :: s(x) >= 0.0
    ensures Sum(LinePass(kern, s), 0, g) <= Sum(s, 0, g) * kern.Total()
    ensures Within(s, kern.radius, g - kern.radius) ==> Sum(LinePass(kern, s), 0, g) == Sum(s, 0, g) * kern.Total()
  {
    var v, w := WindowsAndShares(kern, s, g);
    SumMonotone(v, w, -kern.radius, kern.radius + 1);
    if Within(s, kern.radius, g - kern.radius) { SumCongruent(v, w, -kern.radius, kern.radius + 1); }
  }

  lemma {:induction false} TapSharesTotal(kern: Kernel, mass: real)
    ensures Sum(TapShares(kern, mass), -kern.radius, kern.radius + 1) == mass * kern.Total()
  {
    hide Sum;
    var total := Sum(kern.Weights(), -kern.radius, kern.radius + 1);
    assert kern.Total() == total;
    SumScale(kern.Weights(), TapShares(kern, mass), mass, -kern.radius, kern.radius + 1);
    assert Sum(TapShares(kern, mass), -kern.radius, kern.radius + 1) == mass * total;
  }

  lemma {:induction false} TapTimes(w: real, a: real, b: real)
    requires w >= 0.0 && a <= b
    ensures w * a <= b * w && (a == b ==> w * a == b * w)
  {
    assert w * (b - a) >= 0.0;
  }

  lemma {:induction false} QuotientBound(a: real, b: real, t: real, u: real)
    requires t > 0.0 && u * t == 1.0 && a <= b * t
    ensures u * a <= b && (a == b * t ==> u * a == b)
  {
    assert u > 0.0;
    assert u * (b * t) == b * (u * t);
    assert u * (b * t - a) >= 0.0;
    assert u * (b * t - a) == u * (b * t) - u * a;
  }

  /** All mass lies at least one kernel radius away from the border. */
  ghost predicate Interior(f: Field, g: int, r: int) {
    forall y, x :: !(r <= y < g - r && r <= x < g - r) ==> f(y, x) == 0.0
  }

  lemma {:induction false} RowPassMass(kern: Kernel, g: int, f: Field)
    requires kern.Valid() && g >= 0 && ZeroOutside(g, f) && Nonnegative(f)
    ensures Mass(RowPass(kern, g, f), g) <= Mass(f, g)
    ensures Interior(f, g, kern.radius) ==> Mass(RowPass(kern, g, f), g) == Mass(f, g)
  {
    var h := RowPass(kern, g, f);
    forall y | 0 <= y < g
      ensures RowSum(h, g, y) <= RowSum(f, g, y)
      ensures Interior(f, g, kern.radius) ==> RowSum(h, g, y) == RowSum(f, g, y)
    {
      var line := x => f(y, x);
      forall x | 0 <= x < g
        ensures h(y, x) == Sum(LineTaps(kern, line, x), -kern.radius, kern.radius + 1) / kern.Total()
      {
        SumCongruent(RowTaps(kern, f, y, x), LineTaps(kern, line, x), -kern.radius, kern.radius + 1);
      }
      LineMass(kern, line, x => h(y, x), g);
    }
    SumMonotone(y => RowSum(h, g, y), y => RowSum(f, g, y), 0, g);
    if Interior(f, g, kern.radius) { SumCongruent(y => RowSum(h, g, y), y => RowSum(f, g, y), 0, g); }
  }

  lemma {:induction false} ColumnPassMass(kern: Kernel, g: int, f: Field)
    requires kern.Valid() && g >= 0 && ZeroOutside(g, f) && Nonnegative(f)
    ensures Mass(ColumnPass(kern, g, f), g) <= Mass(f, g)
    ensures (forall y, x :: !(kern.radius <= y < g - kern.radius) ==> f(y, x) == 0.0)
        ==> Mass(ColumnPass(kern, g, f), g) == Mass(f, g)
  {
    var h := ColumnPass(kern, g, f);
    var inside := forall y, x :: !(kern.radius <= y < g - kern.radius) ==> f(y, x) == 0.0;
    forall x | 0 <= x < g
      ensures ColumnSum(h, g, x) <= ColumnSum(f, g, x)
      ensures inside ==> ColumnSum(h, g, x) == ColumnSum(f, g, x)
    {
      var line := y => f(y, x);
      forall y | 0 <= y < g
        ensures h(y, x) == Sum(LineTaps(kern, line, y), -kern.radius, kern.radius + 1) / kern.Total()
      {
        SumCongruent(ColumnTaps(kern, f, y, x), LineTaps(kern, line, y), -kern.radius, kern.radius + 1);
      }
      LineMass(kern, line, y => h(y, x), g);
    }
    MassByColumns(f, g);
    MassByColumns(h, g);
    SumMonotone(x => ColumnSum(h, g, x), x => ColumnSum(f, g, x), 0, g);
    if inside { SumCongruent(x => ColumnSum(h, g, x), x => ColumnSum(f, g, x), 0, g); }
  }

  /** Blurring never creates mass, and loses none while all of it is a kernel radius from the border. */
  lemma {:induction false} BlurMass(kern: Kernel, g: int, f: Field)
    requires kern.Valid() && g >= 0 && ZeroOutside(g, f) && Nonnegative(f)
    ensures Mass(Blur(kern, g, f), g) <= Mass(f, g)
    ensures Interior(f, g, kern.radius) ==> Mass(Blur(kern, g, f), g) == Mass(f, g)
  {
    var h := RowPass(kern, g, f);
    PassNonnegative(kern, g, f);
    RowPassMass(kern, g, f);
    if Interior(f, g, kern.radius) {
      forall y, x | !(kern.radius <= y < g - kern.radius) ensures h(y, x) == 0.0 {
        SumZero(RowTaps(kern, f, y, x), -kern.radius, kern.radius + 1);
      }
    }
    ColumnPassMass(kern, g, h);
  }
}
