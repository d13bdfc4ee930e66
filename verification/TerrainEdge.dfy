/** The land of one point. Its blurred density is a product of two Gaussian profiles, one along each axis, and that
    is enough to see at which points of the plane the land of some corpus lies below the ground. */
module TerrainEdge {
  import opened Reals
  import opened Terrain
  import opened TerrainField

  // ------------------------------------------------------------------ one point

  /** A layout whose grid cells are its integer points. */
  const CELLS := Bounds(0.0, 0.0, 149.0, 149.0)

  function LonePoint(cx: int, cy: int): TPoint { TPoint("", "", 0, cx as real, cy as real, [], []) }

  function LoneCorpus(cx: int, cy: int): Corpus { Corpus([LonePoint(cx, cy)], _ => 0, map[]) }

  /** A unit in one cell. */
  ghost predicate IsLone(f: Field, cx: int, cy: int) {
    forall y, x :: f(y, x) == if y == cy && x == cx then 1.0 else 0.0
  }

  lemma {:induction false} CellOf(v: int, p: TPoint)
    requires 0 <= v < GRID
    ensures p.x == v as real ==> CellX(CELLS, p) == v
    ensures p.y == v as real ==> CellY(CELLS, p) == v
  {
    assert SpanMax(CELLS) == 149.0;
    var q := (v as real - 74.5) / 149.0;
    assert Sx(CELLS, v as real) == q * SIZE == Sy(CELLS, v as real);
    assert q * SIZE / SIZE == q && (q + 0.5) * 149.0 == v as real;
  }

  lemma {:induction false} DepositedOne(p: TPoint, w: TPoint -> real, y: int, x: int)
    requires w(p) == 1.0
    ensures Deposited(CELLS, [p], w, y, x) == if CellY(CELLS, p) == y && CellX(CELLS, p) == x then 1.0 else 0.0
  {
    hide CellX, CellY;
    assert [p][..0] == [];
  }

  lemma {:induction false} LoneDeposit(cx: int, cy: int)
    requires InGrid(GRID, cy, cx)
    ensures IsLone(Deposits(CELLS, LoneCorpus(cx, cy).points, LoneCorpus(cx, cy).WeightOf(DensityMetric)), cx, cy)
  {
    var p, w := LonePoint(cx, cy), LoneCorpus(cx, cy).WeightOf(DensityMetric);
    hide CellX, CellY, Deposited;
    CellOf(cx, p);
    CellOf(cy, p);
    assert w(p) == 1.0;
    forall y, x ensures Deposits(CELLS, [p], w)(y, x) == if y == cy && x == cx then 1.0 else 0.0 {
      DepositedOne(p, w, y, x);
    }
  }

  // ------------------------------------------------------------------ its density

  /** The part of a point's weight that the blur carries `k` cells along one axis. */
  function Share(kern: Kernel, k: int): real
    requires kern.Total() != 0.0
  {
    kern.Tap(k) / kern.Total()
  }

  function Times(a: real, b: real): real { a * b }

  lemma {:induction false} SingleTerm(f: int -> real, lo: int, hi: int, k: int)
    requires forall j | lo <= j < hi && j != k :: f(j) == 0.0
    ensures Sum(f, lo, hi) == if lo <= k < hi then f(k) else 0.0
    decreases hi - lo
  {
    if lo < hi { SingleTerm(f, lo, hi - 1, k); }
  }

  lemma {:induction false} RowOfLone(kern: Kernel, f: Field, cx: int, cy: int, y: int, x: int)
    requires kern.Valid() && IsLone(f, cx, cy) && InGrid(GRID, cy, cx) && 0 <= x < GRID
    ensures RowPassAt(kern, GRID, f, y, x) == if y == cy then Share(kern, cx - x) else 0.0
  {
    var taps := RowTaps(kern, f, y, x);
    forall k ensures taps(k) == if y == cy && k == cx - x then kern.Tap(cx - x) else 0.0 {
      assert f(y, x + k) == if y == cy && k == cx - x then 1.0 else 0.0;
    }
    SingleTerm(taps, -kern.radius, kern.radius + 1, cx - x);
  }

  lemma {:induction false} ColumnOfLone(kern: Kernel, pass: Field, s: real, cy: int, y: int, x: int)
    requires kern.Valid() && InGrid(GRID, y, x) && forall y' :: pass(y', x) == if y' == cy then s else 0.0
    ensures ColumnPassAt(kern, GRID, pass, y, x) == s * Share(kern, cy - y)
  {
    var taps, tap, r := ColumnTaps(kern, pass, y, x), kern.Tap(cy - y), kern.radius;
    assert !(-r <= cy - y < r + 1) ==> tap == 0.0;
    hide Kernel.Tap, Kernel.Total, Sum;
    forall k ensures taps(k) == if k == cy - y then s * tap else 0.0 {
      assert pass(y + k, x) == if k == cy - y then s else 0.0;
    }
    hide ColumnTaps;
    SingleTerm(taps, -r, r + 1, cy - y);
    QuotientOfProduct(s, tap, kern.Total());
  }

  lemma {:induction false} QuotientOfProduct(a: real, b: real, t: real)
    requires t != 0.0
    ensures a * b / t == a * (b / t)
  {
    var q := b / t;
    assert a * b == a * (q * t) == (a * q) * t;
  }

  lemma {:induction false} BlurOfLone(kern: Kernel, f: Field, cx: int, cy: int, y: int, x: int)
    requires kern.Valid() && IsLone(f, cx, cy) && InGrid(GRID, cy, cx) && InGrid(GRID, y, x)
    ensures Blur(kern, GRID, f)(y, x) == Times(Share(kern, cx - x), Share(kern, cy - y))
  {
    hide RowPassAt, ColumnPassAt, Share, IsLone;
    var pass := RowPass(kern, GRID, f);
    forall y' ensures pass(y', x) == if y' == cy then Share(kern, cx - x) else 0.0 {
      RowOfLone(kern, f, cx, cy, y', x);
    }
    ColumnOfLone(kern, pass, Share(kern, cx - x), cy, y, x);
  }

  lemma {:induction false} DensityOfLone(kern: Kernel, cx: int, cy: int, y: int, x: int)
    requires kern.Valid() && InGrid(GRID, cy, cx) && InGrid(GRID, y, x)
    ensures Density(kern, CELLS, LoneCorpus(cx, cy).points, LoneCorpus(cx, cy).WeightOf(DensityMetric))(y, x)
         == Times(Share(kern, cx - x), Share(kern, cy - y))
  {
    var c := LoneCorpus(cx, cy);
    hide Deposits, Blur, IsLone, Share;
    LoneDeposit(cx, cy);
    BlurOfLone(kern, Deposits(CELLS, c.points, c.WeightOf(DensityMetric)), cx, cy, y, x);
  }

  // ------------------------------------------------------------------ its land

  /** The land of a corpus seen through no filter. */
  ghost function Land(kern: Kernel, b: Bounds, c: Corpus, metric: Metric, fullMax: real, wx: real, wz: real): real
    requires kern.Valid() && fullMax > 0.0
  {
    HeightAt(Density(kern, b, c.points, c.WeightOf(metric)), fullMax, wx, wz)
  }

  /** One axis of the land of a point in cell `c`. */
  function Profile(kern: Kernel, c: int, v: real): real
    requires kern.Total() != 0.0
  {
    var f := GridCoord(v);
    var at := ClampCell(f.Floor);
    Lerp(Share(kern, c - at), Share(kern, c - NextCell(at)), f - at as real)
  }

  lemma {:induction false} BilinearOfProduct(a: real, a': real, b: real, b': real, tx: real, tz: real)
    ensures Bilinear(Times(a, b), Times(a', b), Times(a, b'), Times(a', b'), tx, tz)
         == Times(Lerp(a, a', tx), Lerp(b, b', tz))
  {
    BilinearIsTwoLerps(a * b, a' * b, a * b', a' * b', tx, tz);
    var l := Lerp(a, a', tx);
    assert Lerp(a * b, a' * b, tx) == l * b && Lerp(a * b', a' * b', tx) == l * b';
    assert Lerp(l * b, l * b', tz) == l * Lerp(b, b', tz);
  }

  /** The corner sum of a field that is a product of shares. */
  lemma {:induction false} CornersOfLone(kern: Kernel, d: Field, cx: int, cy: int, wx: real, wz: real)
    requires kern.Valid()
    requires forall y, x | InGrid(GRID, y, x) :: d(y, x) == Times(Share(kern, cx - x), Share(kern, cy - y))
    ensures var fx, fz := GridCoord(wx), GridCoord(wz);
      var x0, z0 := ClampCell(fx.Floor), ClampCell(fz.Floor);
      var x1, z1 := NextCell(x0), NextCell(z0);
      Bilinear(d(z0, x0), d(z0, x1), d(z1, x0), d(z1, x1), fx - x0 as real, fz - z0 as real)
        == Times(Profile(kern, cx, wx), Profile(kern, cy, wz))
  {
    var fx, fz := GridCoord(wx), GridCoord(wz);
    var x0, z0 := ClampCell(fx.Floor), ClampCell(fz.Floor);
    var x1, z1 := NextCell(x0), NextCell(z0);
    assert InGrid(GRID, z0, x0) && InGrid(GRID, z0, x1) && InGrid(GRID, z1, x0) && InGrid(GRID, z1, x1);
    var a, a', b, b' := Share(kern, cx - x0), Share(kern, cx - x1), Share(kern, cy - z0), Share(kern, cy - z1);
    var tx, tz := fx - x0 as real, fz - z0 as real;
    hide Times, Lerp, Share;
    assert d(z0, x0) == Times(a, b) && d(z0, x1) == Times(a', b);
    assert d(z1, x0) == Times(a, b') && d(z1, x1) == Times(a', b');
    assert Profile(kern, cx, wx) == Lerp(a, a', tx) && Profile(kern, cy, wz) == Lerp(b, b', tz);
    hide *;
    BilinearOfProduct(a, a', b, b', tx, tz);
  }

  lemma {:induction false} LandOfLone(kern: Kernel, cx: int, cy: int, fullMax: real, wx: real, wz: real)
    requires kern.Valid() && InGrid(GRID, cy, cx) && fullMax > 0.0
    ensures Land(kern, CELLS, LoneCorpus(cx, cy), DensityMetric, fullMax, wx, wz)
         == Times(Profile(kern, cx, wx), Profile(kern, cy, wz)) / fullMax * HEIGHT
  {
    hide GridCoord, Bilinear, Profile, Share, Density, Times;
    var c := LoneCorpus(cx, cy);
    var d := Density(kern, CELLS, c.points, c.WeightOf(DensityMetric));
    forall y, x | InGrid(GRID, y, x) ensures d(y, x) == Times(Share(kern, cx - x), Share(kern, cy - y)) {
      DensityOfLone(kern, cx, cy, y, x);
    }
    CornersOfLone(kern, d, cx, cy, wx, wz);
  }

  // ------------------------------------------------------------------ below the ground

  /** A symmetric kernel that reaches 11 cells and no farther. */
  ghost predicate Reaches(kern: Kernel) {
    && kern.Valid() && kern.Tap(1) == kern.Tap(-1)
    && forall k :: if -11 <= k <= 11 then kern.Tap(k) > 0.0 else kern.Tap(k) == 0.0
  }

  lemma {:induction false} GaussianReaches(exp: real -> real)
    requires forall v :: exp(v) > 0.0
    ensures Reaches(Gaussian(exp))
  {
    GaussianIsValid(exp);
    var kern := Gaussian(exp);
    assert kern.radius == Ceil(SIGMA * 3.0) == 11;
    forall k ensures kern.Tap(k) == if -11 <= k <= 11 then GaussTap(exp, k) else 0.0 {}
  }

  lemma {:induction false} ShareSign(kern: Kernel, k: int)
    requires Reaches(kern)
    ensures if -11 <= k <= 11 then Share(kern, k) > 0.0 else Share(kern, k) == 0.0
  {
  }

  /** Past the edge the profile of a point in cell 12 is negative: its kernel misses cell 0 and meets cell 1. */
  lemma {:induction false} NegativeProfile(kern: Kernel, v: real)
    requires Reaches(kern) && v < -SIZE / 2.0
    ensures Profile(kern, 12, v) < 0.0
  {
    CoordCells(v);
    ShareSign(kern, 12);
    ShareSign(kern, 11);
    var t := GridCoord(v);
    hide Share, GridCoord, Reaches;
    ProductPositive(Share(kern, 11), -t);
  }

  /** Every coordinate has a cell whose profile is positive there. */
  lemma {:induction false} PositiveProfile(kern: Kernel, v: real) returns (c: int)
    requires Reaches(kern)
    ensures 0 <= c < GRID && Profile(kern, c, v) > 0.0
  {
    CoordCells(v);
    var f := GridCoord(v);
    var at := ClampCell(f.Floor);
    var t, s0, s1 := f - at as real, Share(kern, 0), Share(kern, 1);
    ShareSign(kern, 0);
    ShareSign(kern, 1);
    assert Share(kern, -1) == s1;
    hide Share, GridCoord, Reaches, Lerp;
    c := at;
    if NextCell(at) == at {
      LerpConstant(s0, t);
    } else {
      if t < 0.0 && s0 < s1 { c := 1; }
      PositiveLerp(s0, s1, t);
    }
  }

  lemma {:induction false} PositiveLerp(a: real, b: real, t: real)
    requires a > 0.0 && b > 0.0 && t < 1.0
    ensures 0.0 <= t || a >= b ==> Lerp(a, b, t) > 0.0
    ensures 0.0 > t && a < b ==> Lerp(b, a, t) > 0.0
  {
    if 0.0 <= t {
      var least := if a <= b then a else b;
      LerpBetween(least, least, a, b, t);
      LerpConstant(least, t);
    } else {
      var more, less := if a >= b then a else b, if a >= b then b else a;
      ProductNonnegative(more - less, -t);
      assert Lerp(more, less, t) == more + (more - less) * -t;
    }
  }

  lemma {:induction false} ProductNegative(a: real, b: real, m: real)
    requires a < 0.0 && b > 0.0 && m > 0.0
    ensures Times(a, b) / m * HEIGHT < 0.0 && Times(b, a) / m * HEIGHT < 0.0
  {
    ProductPositive(-a, b);
    var q := a * b / m;
    assert q * m == a * b;
  }

  /** Past the left or the upper edge one point of weight 1 is enough for a negative height, on any scale. */
  lemma {:induction false} CorpusBelowGround(kern: Kernel, fullMax: real, wx: real, wz: real)
    returns (cx: int, cy: int)
    requires Reaches(kern) && fullMax > 0.0 && !NotBeforeMesh(wx, wz)
    ensures InGrid(GRID, cy, cx) && Land(kern, CELLS, LoneCorpus(cx, cy), DensityMetric, fullMax, wx, wz) < 0.0
  {
    assert kern.Valid();
    hide Land, Profile, Reaches;
    if wx < -SIZE / 2.0 {
      cx := 12;
      NegativeProfile(kern, wx);
      cy := PositiveProfile(kern, wz);
    } else {
      cx := PositiveProfile(kern, wx);
      cy := 12;
      NegativeProfile(kern, wz);
    }
    LoneBelowGround(kern, cx, cy, fullMax, wx, wz);
  }

  lemma {:induction false} LoneBelowGround(kern: Kernel, cx: int, cy: int, fullMax: real, wx: real, wz: real)
    requires kern.Valid() && InGrid(GRID, cy, cx) && fullMax > 0.0
    requires Profile(kern, cx, wx) < 0.0 < Profile(kern, cy, wz) || Profile(kern, cy, wz) < 0.0 < Profile(kern, cx, wx)
    ensures Land(kern, CELLS, LoneCorpus(cx, cy), DensityMetric, fullMax, wx, wz) < 0.0
  {
    LandOfLone(kern, cx, cy, fullMax, wx, wz);
    var p, q := Profile(kern, cx, wx), Profile(kern, cy, wz);
    hide Land, Profile, Kernel.Valid, Times;
    if p < 0.0 { ProductNegative(p, q, fullMax); } else { ProductNegative(q, p, fullMax); }
  }

  lemma {:induction false} LandAboveGround(kern: Kernel, b: Bounds, c: Corpus, metric: Metric, fullMax: real,
          wx: real, wz: real)
    requires kern.Valid() && fullMax > 0.0 && NotBeforeMesh(wx, wz)
    ensures Land(kern, b, c, metric, fullMax, wx, wz) >= 0.0
  {
    hide HeightAt, Density;
    SelectAll(c.points);
    DensityGrows(kern, b, c.points, c.WeightOf(metric), _ => true, _ => true);
    var d := Density(kern, b, c.points, c.WeightOf(metric));
    assert Nonnegative(d);
    HeightMonotone((y, x) => 0.0, d, fullMax, wx, wz);
    HeightOfConstant(0.0, fullMax, wx, wz);
  }

  /** The land of every corpus, in every layout and metric, is on or above the ground exactly at the points not
      before the mesh. */
  lemma {:induction false} LandAboveGroundIff(exp: real -> real, fullMax: real, wx: real, wz: real)
    requires (forall v :: exp(v) > 0.0) && fullMax > 0.0
    ensures Gaussian(exp).Valid()
    ensures (forall b: Bounds, c: Corpus, metric: Metric :: Land(Gaussian(exp), b, c, metric, fullMax, wx, wz) >= 0.0)
        <==> NotBeforeMesh(wx, wz)
  {
    GaussianReaches(exp);
    var kern := Gaussian(exp);
    hide Land, Gaussian;
    if NotBeforeMesh(wx, wz) {
      forall b: Bounds, c: Corpus, metric: Metric ensures Land(kern, b, c, metric, fullMax, wx, wz) >= 0.0 {
        LandAboveGround(kern, b, c, metric, fullMax, wx, wz);
      }
    } else {
      var cx, cy := CorpusBelowGround(kern, fullMax, wx, wz);
    }
  }
}
