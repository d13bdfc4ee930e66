/** The terrain's kernel-density land: flat grids filled in place, blurred in two passes,
    normalised once per metric over the whole corpus and sampled bilinearly. */
module Terrain {
  import opened Collections
  import opened Lexicographic
  import opened Options
  import opened Reals
  import opened StableSort
  import opened TerrainField

  const SIZE: real := 220.0
  const GRID: int := 150
  const HEIGHT: real := 42.0
  const SIGMA: real := 3.4

  function Ceil(v: real): int { -((-v).Floor) }

  function Round(v: real): int { (v + 0.5).Floor }

  // ------------------------------------------------------------------ kernel

  /** `Math.exp(-(i * i) / (2 * SIGMA * SIGMA))`. */
  function GaussTap(exp: real -> real, i: int): real { exp(-(i * i) as real / (2.0 * SIGMA * SIGMA)) }

  function Gaussian(exp: real -> real): Kernel {
    var r := Ceil(SIGMA * 3.0);
    Kernel(r, seq(2 * r + 1, t requires 0 <= t < 2 * r + 1 => GaussTap(exp, t - r)))
  }

  method MakeKernel(exp: real -> real) returns (kern: Kernel, ksum: real)
    ensures kern == Gaussian(exp) && ksum == kern.Total()
  {
    var r := Ceil(SIGMA * 3.0);
    var taps := [];
    var i := -r;
    while i <= r
      invariant -r <= i <= r + 1 && |taps| == i + r
      invariant forall t | 0 <= t < |taps| :: taps[t] == GaussTap(exp, t - r)
    {
      taps := taps + [GaussTap(exp, i)];
      i := i + 1;
    }
    kern, ksum, i := Kernel(r, taps), 0.0, -r;
    while i <= r
      invariant -r <= i <= r + 1 && ksum == Sum(kern.Weights(), -r, i)
    {
      ksum := ksum + taps[i + r];
      i := i + 1;
    }
  }

  lemma {:induction false} PositiveSum(f: int -> real, lo: int, hi: int)
    requires lo < hi && forall k | lo <= k < hi :: f(k) > 0.0
    ensures Sum(f, lo, hi) > 0.0
    decreases hi - lo
  {
    if lo < hi - 1 { PositiveSum(f, lo, hi - 1); }
  }

  /** `exp` being positive everywhere is all the terrain needs of it. */
  lemma {:induction false} GaussianIsValid(exp: real -> real)
    requires forall v :: exp(v) > 0.0
    ensures Gaussian(exp).Valid()
  {
    var kern := Gaussian(exp);
    forall k | -kern.radius <= k < kern.radius + 1 ensures kern.Tap(k) > 0.0 {
      assert kern.Tap(k) == GaussTap(exp, k);
    }
    PositiveSum(kern.Weights(), -kern.radius, kern.radius + 1);
  }

  // ------------------------------------------------------------------ blur, in place

  function CellAt(s: seq<real>, y: int, x: int): real
    requires |s| == GRID * GRID
  {
    if InGrid(GRID, y, x) then s[y * GRID + x] else 0.0
  }

  ghost function Cells(s: seq<real>): Field
    requires |s| == GRID * GRID
  {
    (y, x) => CellAt(s, y, x)
  }

  method RowTapLoop(kern: Kernel, src: array<real>, y: int, x: int) returns (s: real)
    requires kern.Valid() && src.Length == GRID * GRID && InGrid(GRID, y, x)
    ensures s == Sum(RowTaps(kern, Cells(src[..]), y, x), -kern.radius, kern.radius + 1)
  {
    s := 0.0;
    var k := -kern.radius;
    while k <= kern.radius
      invariant -kern.radius <= k <= kern.radius + 1
      invariant s == Sum(RowTaps(kern, Cells(src[..]), y, x), -kern.radius, k)
    {
      var xx := x + k;
      if xx >= 0 && xx < GRID { s := s + src[y * GRID + xx] * kern.taps[k + kern.radius]; }
      k := k + 1;
    }
  }

  method ColumnTapLoop(kern: Kernel, h: array<real>, y: int, x: int) returns (s: real)
    requires kern.Valid() && h.Length == GRID * GRID && InGrid(GRID, y, x)
    ensures s == Sum(ColumnTaps(kern, Cells(h[..]), y, x), -kern.radius, kern.radius + 1)
  {
    s := 0.0;
    var k := -kern.radius;
    while k <= kern.radius
      invariant -kern.radius <= k <= kern.radius + 1
      invariant s == Sum(ColumnTaps(kern, Cells(h[..]), y, x), -kern.radius, k)
    {
      var yy := y + k;
      if yy >= 0 && yy < GRID { s := s + h[yy * GRID + x] * kern.taps[k + kern.radius]; }
      k := k + 1;
    }
  }

  /** The cells before `(y, x)` in row-major order. */
  predicate Before(y': int, x': int, y: int, x: int) { y' < y || (y' == y && x' < x) }

  method BlurRows(kern: Kernel, src: array<real>) returns (h: array<real>)
    requires kern.Valid() && src.Length == GRID * GRID
    ensures fresh(h) && h.Length == GRID * GRID
    ensures forall y, x | InGrid(GRID, y, x) :: h[y * GRID + x] == RowPassAt(kern, GRID, Cells(src[..]), y, x)
  {
    h := new real[GRID * GRID];
    for y := 0 to GRID
      invariant forall y', x' | InGrid(GRID, y', x') && y' < y ::
          h[y' * GRID + x'] == RowPassAt(kern, GRID, Cells(src[..]), y', x')
    {
      for x := 0 to GRID
        invariant forall y', x' | InGrid(GRID, y', x') && Before(y', x', y, x) ::
          h[y' * GRID + x'] == RowPassAt(kern, GRID, Cells(src[..]), y', x')
      {
        var s := RowTapLoop(kern, src, y, x);
        h[y * GRID + x] := s / kern.Total();
      }
    }
  }

  method BlurColumns(kern: Kernel, h: array<real>) returns (o: array<real>)
    requires kern.Valid() && h.Length == GRID * GRID
    ensures fresh(o) && o.Length == GRID * GRID
    ensures forall y, x | InGrid(GRID, y, x) :: o[y * GRID + x] == ColumnPassAt(kern, GRID, Cells(h[..]), y, x)
  {
    o := new real[GRID * GRID];
    for y := 0 to GRID
      invariant forall y', x' | InGrid(GRID, y', x') && y' < y ::
          o[y' * GRID + x'] == ColumnPassAt(kern, GRID, Cells(h[..]), y', x')
    {
      for x := 0 to GRID
        invariant forall y', x' | InGrid(GRID, y', x') && Before(y', x', y, x) ::
          o[y' * GRID + x'] == ColumnPassAt(kern, GRID, Cells(h[..]), y', x')
      {
        var s := ColumnTapLoop(kern, h, y, x);
        o[y * GRID + x] := s / kern.Total();
      }
    }
  }

  lemma {:induction false} ColumnPassCongruent(kern: Kernel, f: Field, h: Field)
    requires kern.Valid() && forall y, x :: f(y, x) == h(y, x)
    ensures forall y, x :: ColumnPassAt(kern, GRID, f, y, x) == ColumnPassAt(kern, GRID, h, y, x)
  {
    forall y, x ensures ColumnPassAt(kern, GRID, f, y, x) == ColumnPassAt(kern, GRID, h, y, x) {
      SumCongruent(ColumnTaps(kern, f, y, x), ColumnTaps(kern, h, y, x), -kern.radius, kern.radius + 1);
    }
  }

  method BlurGrid(kern: Kernel, src: array<real>) returns (o: array<real>)
    requires kern.Valid() && src.Length == GRID * GRID
    ensures fresh(o) && o.Length == GRID * GRID
    ensures forall y, x | InGrid(GRID, y, x) :: o[y * GRID + x] == Blur(kern, GRID, Cells(src[..]))(y, x)
  {
    var h := BlurRows(kern, src);
    o := BlurColumns(kern, h);
    ColumnPassCongruent(kern, Cells(h[..]), RowPass(kern, GRID, Cells(src[..])));
  }

  // ------------------------------------------------------------------ points to density

  /** A terrain point; an absent date is the empty string. */
  datatype TPoint = TPoint(id: string, date: string, themeId: int, x: real, y: real, tags: seq<string>,
      tagsInferred: seq<string>)

  datatype Bounds = Bounds(minx: real, miny: real, maxx: real, maxy: real)

  function SpanMax(b: Bounds): (span: real)
    ensures span > 0.0 && span >= b.maxx - b.minx && span >= b.maxy - b.miny
  {
    Max(Max(b.maxx - b.minx, b.maxy - b.miny), 0.000001)
  }

  function Sx(b: Bounds, v: real): real { ((v - b.minx) - (b.maxx - b.minx) / 2.0) / SpanMax(b) * SIZE }

  function Sy(b: Bounds, v: real): real { ((v - b.miny) - (b.maxy - b.miny) / 2.0) / SpanMax(b) * SIZE }

  /** `Math.min(GRID - 1, Math.max(0, i))`. */
  function ClampCell(i: int): (c: int)
    ensures 0 <= c < GRID
  {
    var low := if i > 0 then i else 0;
    if low < GRID - 1 then low else GRID - 1
  }

  function CellX(b: Bounds, p: TPoint): int { ClampCell(Round((Sx(b, p.x) / SIZE + 0.5) * (GRID - 1) as real)) }

  function CellY(b: Bounds, p: TPoint): int { ClampCell(Round((Sy(b, p.y) / SIZE + 0.5) * (GRID - 1) as real)) }

  /** Total positive weight of the points that fall into a cell. */
  function Deposited(b: Bounds, pts: seq<TPoint>, w: TPoint -> real, y: int, x: int): real {
    if pts == [] then 0.0
    else
      var p := pts[|pts| - 1];
      var rest := Deposited(b, pts[..|pts| - 1], w, y, x);
      if w(p) > 0.0 && CellY(b, p) == y && CellX(b, p) == x then rest + w(p) else rest
  }

  ghost function Deposits(b: Bounds, pts: seq<TPoint>, w: TPoint -> real): Field {
    (y, x) => if InGrid(GRID, y, x) then Deposited(b, pts, w, y, x) else 0.0
  }

  ghost function Density(kern: Kernel, b: Bounds, pts: seq<TPoint>, w: TPoint -> real): Field
    requires kern.Valid()
  {
    Blur(kern, GRID, Deposits(b, pts, w))
  }

  lemma {:induction false} BlurCongruent(kern: Kernel, f: Field, h: Field)
    requires kern.Valid() && forall y, x :: f(y, x) == h(y, x)
    ensures forall y, x :: Blur(kern, GRID, f)(y, x) == Blur(kern, GRID, h)(y, x)
  {
    BlurMonotone(kern, GRID, f, h);
    BlurMonotone(kern, GRID, h, f);
  }

  method DepositLoop(b: Bounds, pts: seq<TPoint>, w: TPoint -> real) returns (grid: array<real>)
    ensures fresh(grid) && grid.Length == GRID * GRID
    ensures forall y, x | InGrid(GRID, y, x) :: grid[y * GRID + x] == Deposited(b, pts, w, y, x)
  {
    grid := new real[GRID * GRID](_ => 0.0);
    for n := 0 to |pts|
      invariant forall y, x | InGrid(GRID, y, x) :: grid[y * GRID + x] == Deposited(b, pts[..n], w, y, x)
    {
      var p := pts[n];
      assert pts[..n + 1][..n] == pts[..n];
      if w(p) <= 0.0 { continue; }
      var gx, gy := CellX(b, p), CellY(b, p);
      grid[gy * GRID + gx] := grid[gy * GRID + gx] + w(p);
    }
    assert pts[..|pts|] == pts;
  }

  method DensityFor(kern: Kernel, b: Bounds, pts: seq<TPoint>, w: TPoint -> real) returns (dens: array<real>)
    requires kern.Valid()
    ensures fresh(dens) && dens.Length == GRID * GRID
    ensures forall y, x | InGrid(GRID, y, x) :: dens[y * GRID + x] == Density(kern, b, pts, w)(y, x)
  {
    var grid := DepositLoop(b, pts, w);
    dens := BlurGrid(kern, grid);
    BlurCongruent(kern, Cells(grid[..]), Deposits(b, pts, w));
  }

  // ------------------------------------------------------------------ filters only remove mass

  lemma {:induction false} DepositedGrows(b: Bounds, pts: seq<TPoint>, w: TPoint -> real, few: TPoint -> bool,
          many: TPoint -> bool, y: int, x: int)
    requires forall p :: few(p) ==> many(p)
    ensures 0.0 <= Deposited(b, Filter(pts, few), w, y, x) <= Deposited(b, Filter(pts, many), w, y, x)
  {
    if pts != [] {
      var init, p := pts[..|pts| - 1], pts[|pts| - 1];
      DepositedGrows(b, init, w, few, many, y, x);
      assert (Filter(init, few) + [p])[..|Filter(init, few)|] == Filter(init, few);
      assert (Filter(init, many) + [p])[..|Filter(init, many)|] == Filter(init, many);
    }
  }

  lemma {:induction false} SelectAll(pts: seq<TPoint>)
    ensures Filter(pts, _ => true) == pts
  {
    if pts != [] { SelectAll(pts[..|pts| - 1]); }
  }

  /** Fewer visible points never raise the density anywhere, whatever the weights. */
  lemma {:induction false} DensityGrows(kern: Kernel, b: Bounds, pts: seq<TPoint>, w: TPoint -> real,
          few: TPoint -> bool, many: TPoint -> bool)
    requires kern.Valid() && forall p :: few(p) ==> many(p)
    ensures Nonnegative(Density(kern, b, Filter(pts, few), w))
    ensures AtMost(Density(kern, b, Filter(pts, few), w), Density(kern, b, Filter(pts, many), w))
  {
    forall y, x
      ensures 0.0 <= Deposits(b, Filter(pts, few), w)(y, x) <= Deposits(b, Filter(pts, many), w)(y, x)
    {
      DepositedGrows(b, pts, w, few, many, y, x);
    }
    BlurNonnegative(kern, GRID, Deposits(b, Filter(pts, few), w));
    BlurMonotone(kern, GRID, Deposits(b, Filter(pts, few), w), Deposits(b, Filter(pts, many), w));
  }

  // ------------------------------------------------------------------ sampling the land

  function GridCoord(v: real): real { (v / SIZE + 0.5) * (GRID - 1) as real }

  function NextCell(c: int): int { if c + 1 < GRID - 1 then c + 1 else GRID - 1 }

  /** The weighted corner sum of the source. */
  function Bilinear(a: real, b: real, c: real, d: real, tx: real, tz: real): real {
    a * (1.0 - tx) * (1.0 - tz) + b * tx * (1.0 - tz) + c * (1.0 - tx) * tz + d * tx * tz
  }

  function HeightAt(dens: Field, fullMax: real, wx: real, wz: real): real
    requires fullMax > 0.0
  {
    var fx, fz := GridCoord(wx), GridCoord(wz);
    var x0, z0 := ClampCell(fx.Floor), ClampCell(fz.Floor);
    var x1, z1 := NextCell(x0), NextCell(z0);
    var v := Bilinear(dens(z0, x0), dens(z0, x1), dens(z1, x0), dens(z1, x1), fx - x0 as real, fz - z0 as real);
    v / fullMax * HEIGHT
  }

  method SampleHeight(dens: array<real>, fullMax: real, wx: real, wz: real, ghost d: Field) returns (height: real)
    requires dens.Length == GRID * GRID && fullMax > 0.0
    requires forall y, x | InGrid(GRID, y, x) :: dens[y * GRID + x] == d(y, x)
    ensures height == HeightAt(d, fullMax, wx, wz)
  {
    var fx, fz := GridCoord(wx), GridCoord(wz);
    var x0, z0 := ClampCell(fx.Floor), ClampCell(fz.Floor);
    var x1, z1 := NextCell(x0), NextCell(z0);
    var tx, tz := fx - x0 as real, fz - z0 as real;
    var v := Bilinear(dens[z0 * GRID + x0], dens[z0 * GRID + x1], dens[z1 * GRID + x0], dens[z1 * GRID + x1], tx, tz);
    height := v / fullMax * HEIGHT;
  }

  function Lerp(a: real, b: real, t: real): real { a * (1.0 - t) + b * t }

  lemma {:induction false} BilinearIsTwoLerps(a: real, b: real, c: real, d: real, tx: real, tz: real)
    ensures Bilinear(a, b, c, d, tx, tz) == Lerp(Lerp(a, b, tx), Lerp(c, d, tx), tz)
  {
    var s, u := 1.0 - tx, 1.0 - tz;
    assert Lerp(a, b, tx) * u == a * s * u + b * tx * u;
    assert Lerp(c, d, tx) * tz == c * s * tz + d * tx * tz;
  }

  /** Between the corners, or where both corners are the same. */
  lemma {:induction false} LerpMonotone(a: real, b: real, a': real, b': real, t: real)
    requires a <= a' && b <= b' && (0.0 <= t <= 1.0 || (a == b && a' == b'))
    ensures Lerp(a, b, t) <= Lerp(a', b', t)
  {
    if a == b && a' == b' {
      LerpConstant(a, t);
      LerpConstant(a', t);
    } else {
      LerpBetween(a, b, a', b', t);
    }
  }

  lemma {:induction false} LerpConstant(a: real, t: real)
    ensures Lerp(a, a, t) == a
  {
  }

  lemma {:induction false} LerpBetween(a: real, b: real, a': real, b': real, t: real)
    requires a <= a' && b <= b' && 0.0 <= t <= 1.0
    ensures Lerp(a, b, t) <= Lerp(a', b', t)
  {
    assert (a' - a) * (1.0 - t) >= 0.0;
    assert (b' - b) * t >= 0.0;
    assert Lerp(a', b', t) - Lerp(a, b, t) == (a' - a) * (1.0 - t) + (b' - b) * t;
  }

  lemma {:induction false} BilinearMonotone(a: real, b: real, c: real, d: real, a': real, b': real, c': real,
          d': real, tx: real, tz: real)
    requires a <= a' && b <= b' && c <= c' && d <= d'
    requires 0.0 <= tx <= 1.0 || (a == b && c == d && a' == b' && c' == d')
    requires 0.0 <= tz <= 1.0 || (a == c && b == d && a' == c' && b' == d')
    ensures Bilinear(a, b, c, d, tx, tz) <= Bilinear(a', b', c', d', tx, tz)
  {
    BilinearIsTwoLerps(a, b, c, d, tx, tz);
    BilinearIsTwoLerps(a', b', c', d', tx, tz);
    LerpMonotone(a, b, a', b', tx);
    LerpMonotone(c, d, c', d', tx);
    hide Lerp, Bilinear;
    LerpMonotone(Lerp(a, b, tx), Lerp(c, d, tx), Lerp(a', b', tx), Lerp(c', d', tx), tz);
  }

  lemma {:induction false} BilinearConstant(k: real, tx: real, tz: real)
    ensures Bilinear(k, k, k, k, tx, tz) == k
  {
    BilinearIsTwoLerps(k, k, k, k, tx, tz);
    assert Lerp(k, k, tx) == k;
    assert Lerp(k, k, tz) == k;
  }

  /** The square the terrain mesh covers. */
  predicate InBounds(v: real) { -SIZE / 2.0 <= v <= SIZE / 2.0 }

  /** Not past the left or the upper edge of the mesh. Past the other two both corners are the last cell. */
  predicate NotBeforeMesh(wx: real, wz: real) { wx >= -SIZE / 2.0 && wz >= -SIZE / 2.0 }

  lemma {:induction false} CoordCells(v: real)
    ensures var f := GridCoord(v);
      var c := ClampCell(f.Floor);
      var t := f - c as real;
      && (v >= -SIZE / 2.0 ==> 0.0 <= t < 1.0 || NextCell(c) == c)
      && (v < -SIZE / 2.0 ==> c == 0 && NextCell(c) == 1 && t < 0.0)
  {
    assert v / SIZE * SIZE == v;
    assert v >= -SIZE / 2.0 <==> v / SIZE >= -0.5;
  }

  lemma {:induction false} ScaleOrder(u: real, v: real, m: real)
    requires m > 0.0 && u <= v
    ensures u / m * HEIGHT <= v / m * HEIGHT
  {
    var p, q := u / m, v / m;
    assert p * m == u && q * m == v;
    assert (q - p) * m == v - u;
  }

  /** Raising the density nowhere lowers the land, at any point not before the mesh. */
  lemma {:induction false} HeightMonotone(d: Field, e: Field, fullMax: real, wx: real, wz: real)
    requires fullMax > 0.0 && NotBeforeMesh(wx, wz)
    requires forall y, x | InGrid(GRID, y, x) :: d(y, x) <= e(y, x)
    ensures HeightAt(d, fullMax, wx, wz) <= HeightAt(e, fullMax, wx, wz)
  {
    hide Bilinear;
    CoordCells(wx);
    CoordCells(wz);
    hide GridCoord;
    var fx, fz := GridCoord(wx), GridCoord(wz);
    var x0, z0 := ClampCell(fx.Floor), ClampCell(fz.Floor);
    var x1, z1 := NextCell(x0), NextCell(z0);
    var tx, tz := fx - x0 as real, fz - z0 as real;
    BilinearMonotone(d(z0, x0), d(z0, x1), d(z1, x0), d(z1, x1), e(z0, x0), e(z0, x1), e(z1, x0), e(z1, x1), tx, tz);
    ScaleOrder(Bilinear(d(z0, x0), d(z0, x1), d(z1, x0), d(z1, x1), tx, tz),
               Bilinear(e(z0, x0), e(z0, x1), e(z1, x0), e(z1, x1), tx, tz), fullMax);
  }

  lemma {:induction false} HeightOfConstant(k: real, fullMax: real, wx: real, wz: real)
    requires fullMax > 0.0
    ensures HeightAt((y, x) => k, fullMax, wx, wz) == k / fullMax * HEIGHT
  {
    var fx, fz := GridCoord(wx), GridCoord(wz);
    var x0, z0 := ClampCell(fx.Floor), ClampCell(fz.Floor);
    BilinearConstant(k, fx - x0 as real, fz - z0 as real);
  }

  ghost predicate WithinScale(d: Field, fullMax: real) {
    forall y, x | InGrid(GRID, y, x) :: 0.0 <= d(y, x) <= fullMax
  }

  lemma {:induction false} HeightInRange(d: Field, fullMax: real, wx: real, wz: real)
    requires fullMax > 0.0 && NotBeforeMesh(wx, wz) && WithinScale(d, fullMax)
    ensures 0.0 <= HeightAt(d, fullMax, wx, wz) <= HEIGHT
  {
    HeightMonotone((y, x) => 0.0, d, fullMax, wx, wz);
    HeightMonotone(d, (y, x) => fullMax, fullMax, wx, wz);
    HeightOfConstant(0.0, fullMax, wx, wz);
    HeightOfConstant(fullMax, fullMax, wx, wz);
  }

  /** The field that is empty along the left edge and full elsewhere, and the same along the upper edge. */
  ghost function LeftEmpty(fullMax: real): Field { (y, x) => if x == 0 then 0.0 else fullMax }

  ghost function UpperEmpty(fullMax: real): Field { (y, x) => if y == 0 then 0.0 else fullMax }

  /** Past the left or the upper edge the first two cells extrapolate below the ground. */
  lemma {:induction false} HeightOutOfBounds(fullMax: real, wx: real, wz: real)
    requires fullMax > 0.0 && !NotBeforeMesh(wx, wz)
    ensures WithinScale(LeftEmpty(fullMax), fullMax) && WithinScale(UpperEmpty(fullMax), fullMax)
    ensures wx < -SIZE / 2.0 ==> HeightAt(LeftEmpty(fullMax), fullMax, wx, wz) < 0.0
    ensures wz < -SIZE / 2.0 ==> HeightAt(UpperEmpty(fullMax), fullMax, wx, wz) < 0.0
  {
    CoordCells(wx);
    CoordCells(wz);
    var fx, fz := GridCoord(wx), GridCoord(wz);
    var x0, z0 := ClampCell(fx.Floor), ClampCell(fz.Floor);
    var tx, tz := fx - x0 as real, fz - z0 as real;
    hide GridCoord, Bilinear;
    if wx < -SIZE / 2.0 { SlopeBelow(fullMax, tx, tz); }
    if wz < -SIZE / 2.0 { SlopeBelow(fullMax, tz, tx); }
  }

  lemma {:induction false} SlopeBelow(m: real, t: real, u: real)
    requires m > 0.0 && t < 0.0
    ensures Bilinear(0.0, m, 0.0, m, t, u) / m * HEIGHT < 0.0
    ensures Bilinear(0.0, 0.0, m, m, u, t) / m * HEIGHT < 0.0
  {
    BilinearIsTwoLerps(0.0, m, 0.0, m, t, u);
    BilinearIsTwoLerps(0.0, 0.0, m, m, u, t);
    LerpConstant(m * t, u);
    LerpConstant(0.0, u);
    LerpConstant(m, u);
    assert Lerp(0.0, m, t) == m * t;
    assert m * t / m == t;
  }

  /** All fields on the scale give a height in range at a point exactly when it is not before the mesh. */
  lemma {:induction false} HeightInRangeIff(fullMax: real, wx: real, wz: real)
    requires fullMax > 0.0
    ensures (forall d: Field | WithinScale(d, fullMax) :: 0.0 <= HeightAt(d, fullMax, wx, wz) <= HEIGHT)
        <==> NotBeforeMesh(wx, wz)
  {
    hide HeightAt, LeftEmpty, UpperEmpty;
    if NotBeforeMesh(wx, wz) {
      forall d: Field | WithinScale(d, fullMax) ensures 0.0 <= HeightAt(d, fullMax, wx, wz) <= HEIGHT {
        HeightInRange(d, fullMax, wx, wz);
      }
    } else {
      HeightOutOfBounds(fullMax, wx, wz);
    }
  }

  /** The same points are those at which more density never lowers the land. */
  lemma {:induction false} HeightMonotoneIff(fullMax: real, wx: real, wz: real)
    requires fullMax > 0.0
    ensures (forall d: Field, e: Field | OnGridAtMost(d, e) ::
        HeightAt(d, fullMax, wx, wz) <= HeightAt(e, fullMax, wx, wz))
      <==> NotBeforeMesh(wx, wz)
  {
    hide HeightAt;
    if NotBeforeMesh(wx, wz) {
      forall d: Field, e: Field | OnGridAtMost(d, e)
        ensures HeightAt(d, fullMax, wx, wz) <= HeightAt(e, fullMax, wx, wz)
      {
        HeightMonotone(d, e, fullMax, wx, wz);
      }
    } else {
      HeightOutOfBounds(fullMax, wx, wz);
      HeightOfConstant(0.0, fullMax, wx, wz);
      assert OnGridAtMost((y, x) => 0.0, LeftEmpty(fullMax)) && OnGridAtMost((y, x) => 0.0, UpperEmpty(fullMax));
    }
  }

  ghost predicate OnGridAtMost(d: Field, e: Field) { forall y, x | InGrid(GRID, y, x) :: d(y, x) <= e(y, x) }

  /** Every point inside the layout bounds lands on the mesh. */
  lemma {:induction false} PointsLandInBounds(b: Bounds, v: real)
    ensures b.minx <= v <= b.maxx ==> InBounds(Sx(b, v))
    ensures b.miny <= v <= b.maxy ==> InBounds(Sy(b, v))
  {
    HalfSpan(v - b.minx, b.maxx - b.minx, SpanMax(b));
    HalfSpan(v - b.miny, b.maxy - b.miny, SpanMax(b));
  }

  lemma {:induction false} HalfSpan(offset: real, width: real, span: real)
    requires span > 0.0 && span >= width
    ensures 0.0 <= offset <= width ==> InBounds((offset - width / 2.0) / span * SIZE)
  {
    var q := (offset - width / 2.0) / span;
    assert q * span == offset - width / 2.0;
    if 0.0 <= offset <= width {
      assert (0.5 - q) * span >= 0.0 && (q + 0.5) * span >= 0.0;
    }
  }

  // ------------------------------------------------------------------ metrics

  datatype Metric = DensityMetric | Recency | Influence

  /** From 0.15 at the oldest day of the corpus to 1 at the newest. */
  function Ramp(days: int, span: int): real
    requires span > 0
  {
    0.15 + 0.85 * (days as real / span as real)
  }

  /** What the metrics read: all points, epoch days of dates, and citation counts by case id. */
  datatype Corpus = Corpus(points: seq<TPoint>, asDay: string -> int, cites: map<string, nat>) {
    function Dated(): seq<string> { SelectDates(points) }

    function Lo(): int { var d := Sort(Dated(), LexLe); asDay(if d == [] then "" else d[0]) }

    function Hi(): int { var d := Sort(Dated(), LexLe); asDay(if d == [] then "" else d[|d| - 1]) }

    function RecencyWeight(p: TPoint): real {
      if p.date == "" || Hi() <= Lo() then 0.15 else Ramp(asDay(p.date) - Lo(), Hi() - Lo())
    }

    function InfluenceWeight(p: TPoint): real { if p.id in cites then cites[p.id] as real else 0.0 }

    function WeightOf(metric: Metric): TPoint -> real {
      match metric
      case DensityMetric => _ => 1.0
      case Recency => p => RecencyWeight(p)
      case Influence => p => InfluenceWeight(p)
    }
  }

  function SelectDates(pts: seq<TPoint>): (dates: seq<string>)
    ensures forall p | p in pts && p.date != "" :: p.date in dates
    ensures forall d | d in dates :: d != ""
  {
    if pts == [] then [] else if pts[0].date != "" then [pts[0].date] + SelectDates(pts[1..]) else SelectDates(pts[1..])
  }

  /** Epoch days follow the order of the date strings. */
  ghost predicate DaysFollowDates(c: Corpus) {
    forall a, b | a in c.Dated() && b in c.Dated() && LexLe(a, b) :: c.asDay(a) <= c.asDay(b)
  }

  /** Whatever the dates say, malformed ones included: where the first and last sorted dates span no day every
      weight is the baseline. Otherwise a dated point weighs between 0.15 and 1 exactly when its day lies in the
      span, 1 exactly on the last day, and no more than another exactly when its day is no later. */
  lemma {:induction false} RecencyFollowsDays(c: Corpus, p: TPoint, q: TPoint)
    requires p.date != "" && q.date != ""
    ensures 0.15 <= c.RecencyWeight(p) <= 1.0 <==> c.Hi() <= c.Lo() || c.Lo() <= c.asDay(p.date) <= c.Hi()
    ensures c.RecencyWeight(p) == 1.0 <==> c.Lo() < c.Hi() && c.asDay(p.date) == c.Hi()
    ensures c.RecencyWeight(p) <= c.RecencyWeight(q) <==> c.Hi() <= c.Lo() || c.asDay(p.date) <= c.asDay(q.date)
  {
    RecencyCases(c, p);
    RecencyCases(c, q);
    var n := c.Hi() - c.Lo();
    hide Corpus.Lo, Corpus.Hi, Corpus.RecencyWeight, Ramp;
    if n > 0 { RampCompares(c.asDay(p.date) - c.Lo(), c.asDay(q.date) - c.Lo(), n); }
  }

  lemma {:induction false} RampCompares(a: int, b: int, n: int)
    requires n > 0
    ensures 0.15 <= Ramp(a, n) <==> 0 <= a
    ensures Ramp(a, n) <= 1.0 <==> a <= n
    ensures Ramp(a, n) == 1.0 <==> a == n
    ensures Ramp(a, n) <= Ramp(b, n) <==> a <= b
  {
    RampValue(a, n);
    var p, q, m := a as real / n as real, b as real / n as real, n as real;
    assert p * m == a as real && q * m == b as real && (q - p) * m == q * m - p * m;
    assert (p - 1.0) * m == p * m - m;
    SameSign(q - p, m);
    SameSign(p - 1.0, m);
  }

  lemma {:induction false} DateOfPoint(pts: seq<TPoint>, date: string) returns (p: TPoint)
    requires date in SelectDates(pts)
    ensures p in pts && p.date == date
  {
    if pts[0].date == date { p := pts[0]; } else { p := DateOfPoint(pts[1..], date); }
  }

  /** Recency tells no points of a dated corpus apart exactly when the sorted dates span no day. */
  lemma {:induction false} RecencyFlatIff(c: Corpus)
    requires c.Dated() != []
    ensures (forall p | p in c.points :: c.RecencyWeight(p) == 0.15) <==> c.Hi() <= c.Lo()
  {
    LexIsTotalPreorder();
    hide LexLe;
    SortEnds(c.Dated(), c.Dated()[0], LexLe);
    var d := Sort(c.Dated(), LexLe);
    var last := DateOfPoint(c.points, d[|d| - 1]);
    assert last.date in c.Dated() && c.asDay(last.date) == c.Hi();
    hide Corpus.Lo, Corpus.Hi, Corpus.Dated;
    RecencyFollowsDays(c, last, last);
  }

  /** A malformed date that sorts behind all others ends the corpus on day 0: with no earlier first day every
      point falls back to the baseline. */
  lemma {:induction false} MalformedLastFlattens(c: Corpus, p: TPoint, q: TPoint)
    requires p in c.points && p.date != "" && c.asDay(p.date) == 0 && forall d | d in c.Dated() :: LexLe(d, p.date)
    ensures c.Hi() == 0 && (c.Lo() >= 0 ==> c.RecencyWeight(q) == 0.15)
  {
    LexIsTotalPreorder();
    assert p.date in c.Dated();
    SortEnds(c.Dated(), p.date, LexLe);
    var d := Sort(c.Dated(), LexLe);
    LexTotal(d[|d| - 1], p.date);
  }

  lemma {:induction false} RampValue(days: int, span: int)
    requires span > 0
    ensures Ramp(days, span) * span as real == 0.15 * span as real + 0.85 * days as real
    ensures 0.15 <= Ramp(days, span) <==> 0 <= days
    ensures Ramp(days, span) <= 1.0 <==> days <= span
    ensures Ramp(days, span) == 0.15 + 0.85 * (days as real / span as real)
  {
    var q, m := days as real / span as real, span as real;
    assert q * m == days as real;
    assert (1.0 - q) * m == m - q * m;
    SameSign(q, m);
    SameSign(1.0 - q, m);
    assert (0.15 + 0.85 * q) * m == 0.15 * m + 0.85 * (q * m);
  }

  /** The source gives a malformed date day 0. Such a point weighs less than an undated one exactly when the
      sorted dates span a day and begin after day 0, and it drops out of the land exactly when moreover the
      span is no longer than 17/3 of its start. */
  lemma {:induction false} MalformedDateSinks(c: Corpus, p: TPoint)
    requires p in c.points && p.date != "" && c.asDay(p.date) == 0
    ensures c.RecencyWeight(p) < 0.15 <==> 0 < c.Lo() < c.Hi()
    ensures c.RecencyWeight(p) <= 0.0 <==> 0 < c.Lo() < c.Hi() && 3 * (c.Hi() - c.Lo()) <= 17 * c.Lo()
  {
    RecencyCases(c, p);
    var lo, n := c.Lo(), c.Hi() - c.Lo();
    hide Corpus.Lo, Corpus.Hi, Corpus.RecencyWeight;
    if n > 0 {
      RampValue(-lo, n);
      var r := Ramp(-lo, n);
      assert (-r) * n as real == -(r * n as real);
      SameSign(-r, n as real);
    }
  }

  /** Recency lies between 0.15 and 1. */
  lemma {:induction false} RecencyRange(c: Corpus, p: TPoint)
    requires DaysFollowDates(c) && p in c.points
    ensures 0.15 <= c.RecencyWeight(p) <= 1.0
  {
    if c.Lo() < c.Hi() && p.date != "" {
      DayRange(c, p);
      RecencyCases(c, p);
      hide Corpus.Lo, Corpus.Hi, Corpus.Dated, DaysFollowDates, Corpus.RecencyWeight, Ramp;
      RampOrder(c.asDay(p.date) - c.Lo(), c.Hi() - c.Lo(), c.Hi() - c.Lo());
    }
  }

  /** The newest point weighs 1 as soon as the corpus spans a day. */
  lemma {:induction false} RecencyOfNewest(c: Corpus, p: TPoint)
    requires DaysFollowDates(c) && p in c.points && p.date != "" && c.Lo() < c.Hi()
    requires forall d | d in c.Dated() :: LexLe(d, p.date)
    ensures c.RecencyWeight(p) == 1.0
  {
    NewestDay(c, p);
    RecencyCases(c, p);
    hide Corpus.Lo, Corpus.Hi, Corpus.Dated, DaysFollowDates, Corpus.RecencyWeight, Ramp;
    RampOrder(0, 0, c.Hi() - c.Lo());
  }

  lemma {:induction false} RecencyCases(c: Corpus, p: TPoint)
    requires p.date != ""
    ensures if c.Lo() < c.Hi() then c.RecencyWeight(p) == Ramp(c.asDay(p.date) - c.Lo(), c.Hi() - c.Lo())
        else c.RecencyWeight(p) == 0.15
  {
    hide Corpus.Lo, Corpus.Hi, Ramp;
  }

  lemma {:induction false} DatesOrderDays(c: Corpus, p: TPoint, q: TPoint)
    requires DaysFollowDates(c) && p in c.points && q in c.points
    requires p.date != "" && q.date != "" && LexLe(p.date, q.date)
    ensures c.asDay(p.date) <= c.asDay(q.date)
  {
    assert p.date in c.Dated() && q.date in c.Dated();
  }

  lemma {:induction false} RampOrder(a: int, b: int, n: int)
    requires 0 <= a <= b <= n && n > 0
    ensures 0.15 <= Ramp(a, n) <= Ramp(b, n) <= Ramp(n, n) == 1.0
  {
    hide Ramp;
    RampCompares(a, b, n);
    RampCompares(b, n, n);
    RampCompares(n, n, n);
  }

  lemma {:induction false} DayRange(c: Corpus, p: TPoint)
    requires DaysFollowDates(c) && p in c.points && p.date != ""
    ensures c.Lo() <= c.asDay(p.date) <= c.Hi()
  {
    LexIsTotalPreorder();
    hide LexLe;
    assert p.date in c.Dated();
    SortEnds(c.Dated(), p.date, LexLe);
    var d := Sort(c.Dated(), LexLe);
    assert c.asDay(d[0]) <= c.asDay(p.date) <= c.asDay(d[|d| - 1]);
  }

  lemma {:induction false} NewestDay(c: Corpus, p: TPoint)
    requires DaysFollowDates(c) && p in c.points && p.date != ""
    requires forall d | d in c.Dated() :: LexLe(d, p.date)
    ensures c.asDay(p.date) == c.Hi()
  {
    DayRange(c, p);
    LexIsTotalPreorder();
    hide LexLe;
    assert p.date in c.Dated();
    SortEnds(c.Dated(), p.date, LexLe);
  }

  /** A later date never weighs less. */
  lemma {:induction false} RecencyMonotone(c: Corpus, p: TPoint, q: TPoint)
    requires DaysFollowDates(c) && p in c.points && q in c.points
    requires p.date != "" && q.date != "" && LexLe(p.date, q.date)
    ensures c.RecencyWeight(p) <= c.RecencyWeight(q)
  {
    hide Corpus.Lo, Corpus.Hi, Corpus.Dated, DaysFollowDates, Corpus.RecencyWeight, Ramp, LexLe;
    DatesOrderDays(c, p, q);
    DayRange(c, p);
    DayRange(c, q);
    RecencyCases(c, p);
    RecencyCases(c, q);
    if c.Lo() < c.Hi() {
      RampOrder(c.asDay(p.date) - c.Lo(), c.asDay(q.date) - c.Lo(), c.Hi() - c.Lo());
    }
  }

  // ------------------------------------------------------------------ the scene

  /** Passes the date cutoff, the theme filter and the tag filter. */
  predicate Keeps(f: LandFilter, p: TPoint) {
    && (p.date == "" || LexLe(p.date, f.cutoff))
    && (f.themeId == None || p.themeId == f.themeId.value)
    && (f.tag == None || f.tag.value in p.tags || f.tag.value in p.tagsInferred)
  }

  datatype LandFilter = LandFilter(cutoff: string, themeId: Option<int>, tag: Option<string>) {
    function Keep(): TPoint -> bool { p => Keeps(this, p) }
  }

  /** `m` is the larger of 1e-6 and the greatest cell of `d`. */
  ghost predicate IsFullMax(m: real, d: Field) {
    && m >= 0.000001
    && (forall y, x | InGrid(GRID, y, x) :: d(y, x) <= m)
    && (m == 0.000001 || exists y, x :: InGrid(GRID, y, x) && d(y, x) == m)
  }

  method MaxLoop(dens: array<real>, ghost d: Field) returns (m: real)
    requires dens.Length == GRID * GRID
    requires forall y, x | InGrid(GRID, y, x) :: dens[y * GRID + x] == d(y, x)
    ensures IsFullMax(m, d)
  {
    m := 0.000001;
    ghost var at := -1;
    for i := 0 to dens.Length
      invariant m >= 0.000001 && forall j | 0 <= j < i :: dens[j] <= m
      invariant -1 <= at < i && if at == -1 then m == 0.000001 else dens[at] == m
    {
      if dens[i] >= m { at := i; }
      m := Max(m, dens[i]);
    }
    if at >= 0 {
      var y, x := at / GRID, at % GRID;
      assert InGrid(GRID, y, x) && d(y, x) == dens[y * GRID + x] == m;
    }
  }

  class TerrainScene {
    const kern: Kernel
    const bounds: Bounds
    const corpus: Corpus
    /** Horizontal positions of the mesh vertices; `land` holds their heights. */
    const meshX: seq<real>
    const meshZ: seq<real>
    const land: array<real>
    var fullMaxCache: map<Metric, real>

    ghost predicate Valid()
      reads this
    {
      && kern.Valid() && |meshX| == |meshZ| == land.Length
      && forall m | m in fullMaxCache :: IsFullMax(fullMaxCache[m], FullDensity(m))
    }

    ghost function FullDensity(metric: Metric): Field
      requires kern.Valid()
    {
      Density(kern, bounds, corpus.points, corpus.WeightOf(metric))
    }

    ghost function FilteredDensity(metric: Metric, filter: LandFilter): Field
      requires kern.Valid()
    {
      Density(kern, bounds, Filter(corpus.points, filter.Keep()), corpus.WeightOf(metric))
    }

    /** `heights` is the land as the filter shapes it for the metric. */
    ghost predicate Shows(metric: Metric, filter: LandFilter, heights: seq<real>) {
      && kern.Valid() && |heights| == |meshX| == |meshZ|
      && exists m :: m > 0.0 && IsFullMax(m, FullDensity(metric)) && ShowsOn(metric, filter, heights, m)
    }

    ghost predicate ShowsOn(metric: Metric, filter: LandFilter, heights: seq<real>, fullMax: real)
      requires kern.Valid() && |heights| == |meshX| == |meshZ| && fullMax > 0.0
    {
      forall i | 0 <= i < |heights| ::
        heights[i] == HeightAt(FilteredDensity(metric, filter), fullMax, meshX[i], meshZ[i])
    }

    constructor (kern: Kernel, bounds: Bounds, corpus: Corpus, meshX: seq<real>, meshZ: seq<real>)
      requires kern.Valid() && |meshX| == |meshZ|
      ensures Valid() && fresh(land) && fullMaxCache == map[]
      ensures this.kern == kern && this.bounds == bounds && this.corpus == corpus && this.meshX == meshX
          && this.meshZ == meshZ
    {
      this.kern, this.bounds, this.corpus := kern, bounds, corpus;
      this.meshX, this.meshZ, land := meshX, meshZ, new real[|meshX|];
      fullMaxCache := map[];
    }

    method FullMaxFor(metric: Metric) returns (m: real)
      requires Valid()
      modifies this`fullMaxCache
      ensures Valid() && m > 0.0 && IsFullMax(m, FullDensity(metric))
      ensures metric in fullMaxCache && fullMaxCache[metric] == m
      ensures forall k | k in old(fullMaxCache) :: k in fullMaxCache && fullMaxCache[k] == old(fullMaxCache)[k]
    {
      if metric in fullMaxCache {
        m := fullMaxCache[metric];
      } else {
        var dens := DensityFor(kern, bounds, corpus.points, corpus.WeightOf(metric));
        m := MaxLoop(dens, FullDensity(metric));
        fullMaxCache := fullMaxCache[metric := m];
      }
    }

    /** Reshape the land to what passes the filter, on the metric's fixed scale. */
    method ApplyFilter(metric: Metric, filter: LandFilter)
      requires Valid()
      modifies this`fullMaxCache, land
      ensures Valid() && metric in fullMaxCache && fullMaxCache[metric] > 0.0
      ensures forall k | k in old(fullMaxCache) :: k in fullMaxCache && fullMaxCache[k] == old(fullMaxCache)[k]
      ensures forall i | 0 <= i < land.Length ::
        land[i] == HeightAt(FilteredDensity(metric, filter), fullMaxCache[metric], meshX[i], meshZ[i])
      ensures Shows(metric, filter, land[..])
    {
      hide HeightAt, Density, Filter, IsFullMax, Corpus.WeightOf;
      var vis := Filter(corpus.points, filter.Keep());
      var dens := DensityFor(kern, bounds, vis, corpus.WeightOf(metric));
      var fullMax := FullMaxFor(metric);
      for i := 0 to land.Length
        invariant Valid() && metric in fullMaxCache && fullMaxCache[metric] == fullMax > 0.0
        invariant forall k | k in old(fullMaxCache) :: k in fullMaxCache && fullMaxCache[k] == old(fullMaxCache)[k]
        invariant forall y, x | InGrid(GRID, y, x) :: dens[y * GRID + x] == FilteredDensity(metric, filter)(y, x)
        invariant forall j | 0 <= j < i :: 
            land[j] == HeightAt(FilteredDensity(metric, filter), fullMax, meshX[j], meshZ[j])
      {
        land[i] := SampleHeight(dens, fullMax, meshX[i], meshZ[i], FilteredDensity(metric, filter));
      }
      assert ShowsOn(metric, filter, land[..], fullMax);
    }
  }

  /** On a metric's fixed scale every filter gives heights in range, and a wider filter never
      lowers the land: a later cutoff makes the terrain grow, never rescale. */
  lemma {:induction false} TerrainGrows(kern: Kernel, b: Bounds, c: Corpus, metric: Metric, few: LandFilter,
          many: LandFilter, fullMax: real, wx: real, wz: real)
    requires kern.Valid() && NotBeforeMesh(wx, wz)
    requires IsFullMax(fullMax, Density(kern, b, c.points, c.WeightOf(metric)))
    requires many.(cutoff := few.cutoff) == few && LexLe(few.cutoff, many.cutoff)
    ensures 0.0 <= HeightAt(Density(kern, b, Filter(c.points, few.Keep()), c.WeightOf(metric)), fullMax, wx, wz)
         <= HeightAt(Density(kern, b, Filter(c.points, many.Keep()), c.WeightOf(metric)), fullMax, wx, wz)
         <= HEIGHT
  {
    var w := c.WeightOf(metric);
    forall p: TPoint ensures few.Keep()(p) ==> many.Keep()(p) {
      if few.Keep()(p) && p.date != "" { LexTransitive(p.date, few.cutoff, many.cutoff); }
    }
    DensityGrows(kern, b, c.points, w, few.Keep(), many.Keep());
    DensityGrows(kern, b, c.points, w, many.Keep(), _ => true);
    SelectAll(c.points);
    HeightInRange(Density(kern, b, Filter(c.points, few.Keep()), w), fullMax, wx, wz);
    HeightInRange(Density(kern, b, Filter(c.points, many.Keep()), w), fullMax, wx, wz);
    HeightMonotone(Density(kern, b, Filter(c.points, few.Keep()), w),
        Density(kern, b, Filter(c.points, many.Keep()), w), fullMax, wx, wz);
  }

  lemma {:induction false} FullMaxUnique(m: real, n: real, d: Field)
    requires IsFullMax(m, d) && IsFullMax(n, d)
    ensures m == n
  {
  }

  /** Of two lands the same scene has shown for one metric, the one with the later cutoff is nowhere
      lower, and both lie between 0 and HEIGHT. The mesh covers the square of side SIZE. */
  lemma {:induction false} LandGrows(scene: TerrainScene, metric: Metric, few: LandFilter, many: LandFilter,
          earlier: seq<real>, later: seq<real>)
    requires scene.Shows(metric, few, earlier) && scene.Shows(metric, many, later)
    requires many.(cutoff := few.cutoff) == few && LexLe(few.cutoff, many.cutoff)
    requires forall i | 0 <= i < |scene.meshX| && i < |scene.meshZ| ::
        InBounds(scene.meshX[i]) && InBounds(scene.meshZ[i])
    ensures |earlier| == |later| && forall i | 0 <= i < |earlier| :: 0.0 <= earlier[i] <= later[i] <= HEIGHT
  {
    hide IsFullMax, Density, HeightAt, Corpus.WeightOf;
    var m :| m > 0.0 && IsFullMax(m, scene.FullDensity(metric)) && scene.ShowsOn(metric, few, earlier, m);
    var n :| n > 0.0 && IsFullMax(n, scene.FullDensity(metric)) && scene.ShowsOn(metric, many, later, n);
    FullMaxUnique(m, n, scene.FullDensity(metric));
    forall i | 0 <= i < |earlier| ensures 0.0 <= earlier[i] <= later[i] <= HEIGHT {
      TerrainGrows(scene.kern, scene.bounds, scene.corpus, metric, few, many, m, scene.meshX[i], scene.meshZ[i]);
    }
  }
}
