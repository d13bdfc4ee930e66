/** Where things are on the terrain mesh: one scale for both axes, the cell nearest to a point, what a filtered corpus
    leaves in a cell, and the height between four cells. */
module TerrainMesh {
  import opened Collections
  import opened Lexicographic
  import opened Options
  import opened Reals
  import opened Terrain
  import opened TerrainField

  // ------------------------------------------------------------------ one scale

  /** Both axes are scaled alike: equal distances in the layout are equal distances on the mesh. */
  lemma {:induction false} ScaleIsUniform(b: Bounds, u: real, v: real, s: real, t: real)
    requires u - v == s - t
    ensures Sx(b, u) - Sx(b, v) == Sy(b, s) - Sy(b, t)
  {
    Scaled(u - b.minx - (b.maxx - b.minx) / 2.0, v - b.minx - (b.maxx - b.minx) / 2.0, SpanMax(b));
    Scaled(s - b.miny - (b.maxy - b.miny) / 2.0, t - b.miny - (b.maxy - b.miny) / 2.0, SpanMax(b));
  }

  lemma {:induction false} Scaled(p: real, q: real, span: real)
    requires span > 0.0
    ensures p / span * SIZE - q / span * SIZE == (p - q) / span * SIZE
  {
    var a, b, c := p / span, q / span, (p - q) / span;
    assert a * span == p && b * span == q && c * span == p - q;
    assert (a - b - c) * span == 0.0;
  }

  /** The longer side of the layout fills the mesh, and the middle of the layout is the middle of the mesh. */
  lemma {:induction false} LongerSideFills(b: Bounds)
    ensures Sx(b, (b.minx + b.maxx) / 2.0) == 0.0 == Sy(b, (b.miny + b.maxy) / 2.0)
    ensures b.maxx - b.minx >= b.maxy - b.miny && b.maxx - b.minx >= 0.000001 ==>
      Sx(b, b.minx) == -110.0 && Sx(b, b.maxx) == 110.0
    ensures b.maxy - b.miny >= b.maxx - b.minx && b.maxy - b.miny >= 0.000001 ==>
      Sy(b, b.miny) == -110.0 && Sy(b, b.maxy) == 110.0
  {
    HalfOf(b.maxx - b.minx);
    HalfOf(b.maxy - b.miny);
  }

  lemma {:induction false} HalfOf(w: real)
    ensures w > 0.0 ==> (w / 2.0) / w == 0.5 && (-w / 2.0) / w == -0.5
  {
  }

  // ------------------------------------------------------------------ the nearest cell

  /** The mesh coordinate of a column or row of cells. */
  function CellAtMesh(c: int): real { (c as real / (GRID - 1) as real - 0.5) * SIZE }

  function Away(v: real, c: int): real { if v >= CellAtMesh(c) then v - CellAtMesh(c) else CellAtMesh(c) - v }

  /** No column is nearer to mesh coordinate `v`, and one that is equally near comes before. */
  ghost predicate IsNearest(v: real, c: int) {
    && 0 <= c < GRID
    && forall k | 0 <= k < GRID && k != c :: Away(v, c) < Away(v, k) || (Away(v, c) == Away(v, k) && k < c)
  }

  lemma {:induction false} NearestIsUnique(v: real, c: int, d: int)
    requires IsNearest(v, c) && IsNearest(v, d)
    ensures c == d
  {
    var _, _ := Away(v, c), Away(v, d);
  }

  /** What the source rounds and clamps. */
  function Rounded(v: real): int { ClampCell(Round((v / SIZE + 0.5) * (GRID - 1) as real)) }

  lemma {:induction false} AwayInCells(v: real, c: int)
    ensures var f := (v / SIZE + 0.5) * (GRID - 1) as real;
      Away(v, c) * (GRID - 1) as real == (if f >= c as real then f - c as real else c as real - f) * SIZE
  {
    var f := (v / SIZE + 0.5) * (GRID - 1) as real;
    assert (v - CellAtMesh(c)) * 149.0 == (f - c as real) * SIZE;
  }

  lemma {:induction false} RoundedIsNearest(v: real)
    ensures IsNearest(v, Rounded(v))
  {
    var f, c := (v / SIZE + 0.5) * (GRID - 1) as real, Rounded(v);
    AwayInCells(v, c);
    forall k | 0 <= k < GRID && k != c ensures Away(v, c) < Away(v, k) || (Away(v, c) == Away(v, k) && k < c) {
      AwayInCells(v, k);
    }
  }

  /** In every layout a point is deposited in the cell nearest to where the layout puts it on the mesh. */
  lemma {:induction false} PointsGoToTheNearestCell(b: Bounds, p: TPoint, y: int, x: int)
    ensures IsNearest(Sy(b, p.y), y) && IsNearest(Sx(b, p.x), x) <==> CellY(b, p) == y && CellX(b, p) == x
  {
    RoundedIsNearest(Sy(b, p.y));
    RoundedIsNearest(Sx(b, p.x));
    assert CellY(b, p) == Rounded(Sy(b, p.y)) && CellX(b, p) == Rounded(Sx(b, p.x));
    hide IsNearest, Sx, Sy, Rounded;
    if IsNearest(Sy(b, p.y), y) { NearestIsUnique(Sy(b, p.y), y, CellY(b, p)); }
    if IsNearest(Sx(b, p.x), x) { NearestIsUnique(Sx(b, p.x), x, CellX(b, p)); }
  }

  // ------------------------------------------------------------------ what a filter leaves in a cell

  lemma {:induction false} DepositedIsSum(b: Bounds, pts: seq<TPoint>, keep: TPoint -> bool, w: TPoint -> real, y: int,
          x: int, part: int -> real)
    requires forall k | 0 <= k < |pts| ::
      part(k) == (if keep(pts[k]) && w(pts[k]) > 0.0 && CellY(b, pts[k]) == y && CellX(b, pts[k]) == x
                  then w(pts[k]) else 0.0)
    ensures Deposited(b, Filter(pts, keep), w, y, x) == Sum(part, 0, |pts|)
  {
    hide CellX, CellY;
    if pts != [] {
      var n := |pts| - 1;
      var init := Filter(pts[..n], keep);
      assert forall k | 0 <= k < n :: pts[..n][k] == pts[k];
      DepositedIsSum(b, pts[..n], keep, w, y, x, part);
      assert (init + [pts[n]])[..|init|] == init;
    }
  }

  /** A cell holds the weights of the points of the corpus that are dated no later than the cutoff or not at all, have
      the filter's theme and tag if it names one, and are nearer to this cell than to any other. */
  lemma {:induction false} FilterLeaves(b: Bounds, c: Corpus, filter: LandFilter, w: TPoint -> real, y: int, x: int,
          part: int -> real)
    requires InGrid(GRID, y, x) && forall k | 0 <= k < |c.points| :: part(k) == (var p := c.points[k];
      if (p.date == "" || !LexLe(filter.cutoff, p.date) || p.date == filter.cutoff)
         && (filter.themeId == None || filter.themeId == Some(p.themeId))
         && (filter.tag == None || filter.tag.value in p.tags + p.tagsInferred)
         && IsNearest(Sy(b, p.y), y) && IsNearest(Sx(b, p.x), x)
      then Max(0.0, w(p)) else 0.0)
    ensures Deposits(b, Filter(c.points, filter.Keep()), w)(y, x) == Sum(part, 0, |c.points|)
  {
    LexIsTotalPreorder();
    forall k | 0 <= k < |c.points| ensures part(k) == (var p := c.points[k];
      if filter.Keep()(p) && w(p) > 0.0 && CellY(b, p) == y && CellX(b, p) == x then w(p) else 0.0)
    {
      PointsGoToTheNearestCell(b, c.points[k], y, x);
    }
    hide LexLe, IsNearest, Sx, Sy, CellX, CellY, Keeps;
    DepositedIsSum(b, c.points, filter.Keep(), w, y, x, part);
  }

  /** What a point weighs: 1, its citations, or between 0.15 on the first and 1 on the last day of the corpus. */
  lemma {:induction false} MetricWeights(c: Corpus, p: TPoint)
    ensures c.WeightOf(DensityMetric)(p) == 1.0
    ensures c.WeightOf(Influence)(p) == (if p.id in c.cites then c.cites[p.id] as real else 0.0)
    ensures p.date == "" || c.Hi() <= c.Lo() ==> c.WeightOf(Recency)(p) == 0.15
    ensures p.date != "" && c.Lo() < c.Hi() ==>
      (c.WeightOf(Recency)(p) - 0.15) * (c.Hi() - c.Lo()) as real == 0.85 * (c.asDay(p.date) - c.Lo()) as real
  {
    if p.date != "" && c.Lo() < c.Hi() {
      RecencyCases(c, p);
      var days, span := c.asDay(p.date) - c.Lo(), c.Hi() - c.Lo();
      hide Corpus.Lo, Corpus.Hi, Corpus.RecencyWeight, Ramp;
      RampValue(days, span);
      assert (Ramp(days, span) - 0.15) * span as real == Ramp(days, span) * span as real - 0.15 * span as real;
    }
  }

  // ------------------------------------------------------------------ the kernel

  /** The kernel reaches 11 cells; its weights are those of a Gaussian of 3.4 cells, and fall away from the middle. */
  lemma {:induction false} GaussianTaps(exp: real -> real, k: int)
    ensures Gaussian(exp).radius == 11
    ensures Gaussian(exp).Tap(k) == if -11 <= k <= 11 then exp(-(k * k) as real / 23.12) else 0.0
    ensures Gaussian(exp).Tap(k) == Gaussian(exp).Tap(-k)
    ensures (forall u, v :: u < v ==> exp(u) < exp(v)) && 0 <= k < 11 ==>
      Gaussian(exp).Tap(k + 1) < Gaussian(exp).Tap(k)
  {
    assert Ceil(SIGMA * 3.0) == 11 && 2.0 * SIGMA * SIGMA == 23.12;
    assert (-k) * (-k) == k * k;
    var kern := Gaussian(exp);
    forall i | -11 <= i <= 11 ensures kern.Tap(i) == GaussTap(exp, i) {}
    if 0 <= k < 11 {
      assert (k + 1) * (k + 1) == k * k + 2 * k + 1;
      assert -((k + 1) * (k + 1)) as real / 23.12 < -(k * k) as real / 23.12;
    }
  }

  // ------------------------------------------------------------------ the height between four cells

  /** Over a cell the land is the density there on the metric's scale; between four cells it is their mean, weighted by
      the position between them. */
  lemma {:induction false} HeightBetweenCells(d: Field, fullMax: real, z: int, x: int, t: real, u: real)
    requires fullMax > 0.0 && 0 <= z < 149 && 0 <= x < 149 && 0.0 <= t < 1.0 && 0.0 <= u < 1.0
    ensures var step := SIZE / (GRID - 1) as real;
      HeightAt(d, fullMax, CellAtMesh(x) + t * step, CellAtMesh(z) + u * step)
        == ((1.0 - u) * ((1.0 - t) * d(z, x) + t * d(z, x + 1)) + u * ((1.0 - t) * d(z + 1, x) + t * d(z + 1, x + 1)))
           / fullMax * 42.0
  {
    var step := SIZE / (GRID - 1) as real;
    CoordBetween(x, t);
    CoordBetween(z, u);
    hide GridCoord, CellAtMesh;
    BilinearIsTwoLerps(d(z, x), d(z, x + 1), d(z + 1, x), d(z + 1, x + 1), t, u);
  }

  lemma {:induction false} CoordBetween(c: int, t: real)
    requires 0 <= c < GRID - 1 && 0.0 <= t < 1.0
    ensures var f := GridCoord(CellAtMesh(c) + t * (SIZE / (GRID - 1) as real));
      f == c as real + t && ClampCell(f.Floor) == c && NextCell(c) == c + 1
  {
  }
}
