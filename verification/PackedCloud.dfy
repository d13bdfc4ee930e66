/** The packed-cloud layout: communities as disjoint discs found by walking an Archimedean
    spiral, unclustered nodes on a ring just outside the cloud. Arithmetic is over `real`. */
module PackedCloud {
  import opened CommunityOrder
  import opened Lexicographic
  import opened Reals
  import opened StableSort

  /** The floating-point library as functions. `Lawful` lists all that is assumed of them. */
  datatype RealMath = RealMath(cos: real -> real, sin: real -> real, sqrt: real -> real, hypot: (real, real) -> real,
      pi: real) {
    ghost predicate CircleLaw(t: real) { cos(t) * cos(t) + sin(t) * sin(t) == 1.0 }

    ghost predicate SqrtLaw(v: real) { v >= 0.0 ==> sqrt(v) >= 0.0 && sqrt(v) * sqrt(v) == v }

    ghost predicate HypotLaw(x: real, y: real) { hypot(x, y) >= 0.0 && hypot(x, y) * hypot(x, y) == x * x + y * y }

    ghost predicate Lawful() {
      && (forall t :: CircleLaw(t))
      && (forall v :: SqrtLaw(v))
      && (forall x, y :: HypotLaw(x, y))
    }
  }

  datatype Point = Point(x: real, y: real)

  datatype Disc = Disc(c: int, x: real, y: real, r: real)

  // ------------------------------------------------------------------ plane geometry

  lemma {:induction false} HypotLaws(m: RealMath, x: real, y: real)
    requires m.Lawful()
    ensures m.hypot(x, y) >= 0.0 && m.hypot(x, y) * m.hypot(x, y) == x * x + y * y
  {
    assert m.HypotLaw(x, y);
  }

  lemma {:induction false} SquareOrder(a: real, b: real)
    requires b >= 0.0 && a * a <= b * b
    ensures a <= b
  {
    if a > b {
      assert (a - b) * (a + b) == a * a - b * b;
      ProductPositive(a - b, a + b);
    }
  }

  lemma {:induction false} SquareIdentity(cx: real, cy: real, px: real, py: real)
    ensures (cx * px + cy * py) * (cx * px + cy * py) <= (cx * cx + cy * cy) * (px * px + py * py)
  {
    var d := cx * py - cy * px;
    assert (cx * cx + cy * cy) * (px * px + py * py) == (cx * px + cy * py) * (cx * px + cy * py) + d * d;
    assert d * d >= 0.0;
  }

  /** Cauchy and Schwarz. */
  lemma {:induction false} DotBound(m: RealMath, cx: real, cy: real, px: real, py: real)
    requires m.Lawful()
    ensures cx * px + cy * py <= m.hypot(cx, cy) * m.hypot(px, py)
  {
    var a, b := m.hypot(cx, cy), m.hypot(px, py);
    HypotLaws(m, cx, cy);
    HypotLaws(m, px, py);
    SquareIdentity(cx, cy, px, py);
    assert (a * b) * (a * b) == (a * a) * (b * b);
    assert a * b >= 0.0;
    SquareOrder(cx * px + cy * py, a * b);
  }

  lemma {:induction false} ReverseTriangle(m: RealMath, cx: real, cy: real, px: real, py: real)
    requires m.Lawful()
    ensures m.hypot(cx - px, cy - py) >= m.hypot(cx, cy) - m.hypot(px, py)
  {
    var a, b, d := m.hypot(cx, cy), m.hypot(px, py), m.hypot(cx - px, cy - py);
    HypotLaws(m, cx, cy);
    HypotLaws(m, px, py);
    HypotLaws(m, cx - px, cy - py);
    DotBound(m, cx, cy, px, py);
    var dot := cx * px + cy * py;
    assert d * d == a * a + b * b - 2.0 * dot;
    assert (a - b) * (a - b) == a * a + b * b - 2.0 * (a * b);
    SquareOrder(a - b, d);
  }

  function Scaled(radius: real, c: real, s: real): Point { Point(radius * c, radius * s) }

  function Polar(m: RealMath, radius: real, angle: real): Point {
    Scaled(radius, m.cos(angle), m.sin(angle))
  }

  lemma {:induction false} UnitScaled(m: RealMath, radius: real, c: real, s: real)
    requires m.Lawful() && radius >= 0.0 && c * c + s * s == 1.0
    ensures m.hypot(Scaled(radius, c, s).x, Scaled(radius, c, s).y) == radius
  {
    HypotLaws(m, radius * c, radius * s);
    assert (radius * c) * (radius * c) + (radius * s) * (radius * s) == (radius * radius) * (c * c + s * s);
    assert (radius * radius) * (c * c + s * s) == radius * radius;
    SquareOrder(m.hypot(radius * c, radius * s), radius);
    SquareOrder(radius, m.hypot(radius * c, radius * s));
  }

  lemma {:induction false} PolarHypot(m: RealMath, radius: real, angle: real)
    requires m.Lawful() && radius >= 0.0
    ensures m.hypot(Polar(m, radius, angle).x, Polar(m, radius, angle).y) == radius
  {
    assert m.CircleLaw(angle);
    UnitScaled(m, radius, m.cos(angle), m.sin(angle));
  }

  // ------------------------------------------------------------------ the spiral

  /** Disc radius of a community with `n` members. */
  function BlobR(m: RealMath, nodeRadius: real, n: int): real {
    nodeRadius * m.sqrt(n as real) * 1.45 + 10.0
  }

  function Seat(m: RealMath, k: nat): Point {
    Polar(m, 6.0 * (0.22 * k as real), 0.22 * k as real)
  }

  predicate ClearOf(m: RealMath, placed: seq<Disc>, at: Point, r: real) {
    forall i | 0 <= i < |placed| :: m.hypot(at.x - placed[i].x, at.y - placed[i].y) >= r + placed[i].r
  }

  /** `k` is the first step of the spiral at which a disc of radius `r` is clear of `placed`. */
  ghost predicate FirstClear(m: RealMath, placed: seq<Disc>, r: real, k: nat) {
    && k >= 1 && ClearOf(m, placed, Seat(m, k), r)
    && forall j: nat | 1 <= j < k :: !ClearOf(m, placed, Seat(m, j), r)
  }

  /** Smallest disc about the origin that holds every placed disc. */
  function Extent(m: RealMath, placed: seq<Disc>): real {
    if placed == [] then 0.0
    else
      var p := placed[|placed| - 1];
      var rest, reach := Extent(m, placed[..|placed| - 1]), m.hypot(p.x, p.y) + p.r;
      if reach > rest then reach else rest
  }

  lemma {:induction false} ExtentCovers(m: RealMath, placed: seq<Disc>, i: nat)
    requires i < |placed|
    ensures m.hypot(placed[i].x, placed[i].y) + placed[i].r <= Extent(m, placed)
  {
    if i < |placed| - 1 { ExtentCovers(m, placed[..|placed| - 1], i); }
  }

  lemma {:induction false} SeatDistance(m: RealMath, k: nat)
    requires m.Lawful()
    ensures m.hypot(Seat(m, k).x, Seat(m, k).y) == 6.0 * (0.22 * k as real)
  {
    PolarHypot(m, 6.0 * (0.22 * k as real), 0.22 * k as real);
  }

  /** A seat as far out as the cloud plus the new disc is free: the search must end. */
  lemma {:induction false} FarSeatIsClear(m: RealMath, placed: seq<Disc>, r: real, k: nat)
    requires m.Lawful() && 6.0 * (0.22 * k as real) >= Extent(m, placed) + r
    ensures ClearOf(m, placed, Seat(m, k), r)
  {
    SeatDistance(m, k);
    forall i | 0 <= i < |placed|
      ensures m.hypot(Seat(m, k).x - placed[i].x, Seat(m, k).y - placed[i].y) >= r + placed[i].r
    {
      ReverseTriangle(m, Seat(m, k).x, Seat(m, k).y, placed[i].x, placed[i].y);
      ExtentCovers(m, placed, i);
    }
  }

  ghost predicate IsFirstClearSeat(m: RealMath, placed: seq<Disc>, r: real, at: Point) {
    exists k: nat :: at == Seat(m, k) && FirstClear(m, placed, r, k)
  }

  /** The unbounded search loop of the source, with its termination argument. */
  method FindSeat(m: RealMath, placed: seq<Disc>, r: real) returns (at: Point)
    requires m.Lawful()
    ensures IsFirstClearSeat(m, placed, r, at)
  {
    var theta := 0.0;
    ghost var k: nat := 0;
    while true
      invariant theta == 0.22 * k as real
      invariant forall j: nat | 1 <= j <= k :: !ClearOf(m, placed, Seat(m, j), r)
      decreases k == 0, Extent(m, placed) + r - 6.0 * theta + 2.0
    {
      if 6.0 * theta >= Extent(m, placed) + r && k >= 1 {
        FarSeatIsClear(m, placed, r, k);
        assert false;
      }
      theta := theta + 0.22;
      k := k + 1;
      var rad := 6.0 * theta;
      at := Polar(m, rad, theta);
      if ClearOf(m, placed, at, r) {
        assert at == Seat(m, k) && FirstClear(m, placed, r, k);
        return;
      }
    }
  }

  // ------------------------------------------------------------------ packing

  ghost predicate PlacedGreedily(m: RealMath, placed: seq<Disc>, steps: seq<nat>, i: nat)
    requires i < |placed| == |steps|
  {
    FirstClear(m, placed[..i], placed[i].r, steps[i])
  }

  /** Disc `i` sits at spiral step `steps[i]`: the first at the origin, every later one at the
      first step clear of all discs placed before it. */
  ghost predicate IsPacking(m: RealMath, nodeRadius: real, order: seq<Community>, placed: seq<Disc>, steps: seq<nat>) {
    && |placed| == |steps| == |order|
    && (forall i | 0 <= i < |order| ::
          placed[i] == Disc(order[i].id, Seat(m, steps[i]).x, Seat(m, steps[i]).y, BlobR(m, nodeRadius, order[i].size)))
    && (|order| > 0 ==> steps[0] == 0)
    && forall i | 1 <= i < |order| :: PlacedGreedily(m, placed, steps, i)
  }

  method Pack(m: RealMath, nodeRadius: real, order: seq<Community>) returns (placed: seq<Disc>)
    requires m.Lawful()
    ensures exists steps :: IsPacking(m, nodeRadius, order, placed, steps)
  {
    placed := [];
    ghost var steps: seq<nat> := [];
    for n := 0 to |order|
      invariant IsPacking(m, nodeRadius, order[..n], placed, steps)
    {
      var r := BlobR(m, nodeRadius, order[n].size);
      ghost var before, stepsBefore := placed, steps;
      if placed == [] {
        placed, steps := [Disc(order[n].id, 0.0, 0.0, r)], [0];
      } else {
        var at := FindSeat(m, placed, r);
        ghost var k: nat :| at == Seat(m, k) && FirstClear(m, placed, r, k);
        placed, steps := placed + [Disc(order[n].id, at.x, at.y, r)], steps + [k];
      }
      forall i | 1 <= i <= n ensures PlacedGreedily(m, placed, steps, i) {
        assert placed[..i] == before[..i];
        assert i < n ==> PlacedGreedily(m, before, stepsBefore, i);
      }
    }
    assert order[..|order|] == order;
  }

  lemma {:induction false} DiscsDisjoint(m: RealMath, nodeRadius: real, order: seq<Community>, placed: seq<Disc>,
          steps: seq<nat>, i: nat, j: nat)
    requires m.Lawful() && IsPacking(m, nodeRadius, order, placed, steps) && i < |placed| && j < |placed| && i != j
    ensures m.hypot(placed[i].x - placed[j].x, placed[i].y - placed[j].y) >= placed[i].r + placed[j].r
  {
    if i < j {
      assert PlacedGreedily(m, placed, steps, j);
      assert placed[..j][i] == placed[i];
      HypotSymmetric(m, placed[i].x - placed[j].x, placed[i].y - placed[j].y);
    } else {
      assert PlacedGreedily(m, placed, steps, i);
      assert placed[..i][j] == placed[j];
    }
  }

  lemma {:induction false} HypotSymmetric(m: RealMath, dx: real, dy: real)
    requires m.Lawful()
    ensures m.hypot(-dx, -dy) == m.hypot(dx, dy)
  {
    assert (-dx) * (-dx) == dx * dx && (-dy) * (-dy) == dy * dy;
    HypotLaws(m, -dx, -dy);
    HypotLaws(m, dx, dy);
    SquareOrder(m.hypot(-dx, -dy), m.hypot(dx, dy));
    SquareOrder(m.hypot(dx, dy), m.hypot(-dx, -dy));
  }

  /** The order alone fixes the packing. */
  lemma {:induction false} PackingUnique(m: RealMath, nodeRadius: real, order: seq<Community>,
                                         p: seq<Disc>, sp: seq<nat>, q: seq<Disc>, sq: seq<nat>, n: nat)
    requires IsPacking(m, nodeRadius, order, p, sp) && IsPacking(m, nodeRadius, order, q, sq)
    requires n <= |order|
    ensures p[..n] == q[..n]
  {
    if n > 0 {
      PackingUnique(m, nodeRadius, order, p, sp, q, sq, n - 1);
      if n > 1 {
        assert PlacedGreedily(m, p, sp, n - 1) && PlacedGreedily(m, q, sq, n - 1);
      }
      assert p[..n] == p[..n - 1] + [p[n - 1]] && q[..n] == q[..n - 1] + [q[n - 1]];
    }
  }

  lemma {:induction false} SamePacking(m: RealMath, nodeRadius: real, order: seq<Community>, p: seq<Disc>,
          sp: seq<nat>, q: seq<Disc>, sq: seq<nat>)
    requires IsPacking(m, nodeRadius, order, p, sp) && IsPacking(m, nodeRadius, order, q, sq)
    ensures p == q
  {
    PackingUnique(m, nodeRadius, order, p, sp, q, sq, |order|);
    assert p[..|order|] == p && q[..|order|] == q;
  }

  /** What a packing is, in coordinates: disc `i` stands at step `k` of the spiral r = 6 t, t = 0.22 k, and the first
      disc at the origin. Apart from a rim of 10 its area grows with the members. */
  lemma {:induction false} PackingInCoordinates(m: RealMath, nodeRadius: real, order: seq<Community>,
          placed: seq<Disc>, steps: seq<nat>, i: nat)
    requires m.Lawful() && IsPacking(m, nodeRadius, order, placed, steps) && i < |order|
    ensures |placed| == |steps| == |order| && placed[i].c == order[i].id
    ensures var t := 0.22 * steps[i] as real;
      placed[i].x == 6.0 * t * m.cos(t) && placed[i].y == 6.0 * t * m.sin(t)
    ensures if i == 0 then placed[i].x == placed[i].y == 0.0 else steps[i] > 0
    ensures nodeRadius >= 0.0 && order[i].size >= 0 ==>
      && placed[i].r >= 10.0
      && (placed[i].r - 10.0) * (placed[i].r - 10.0) == 1.45 * 1.45 * nodeRadius * nodeRadius * order[i].size as real
  {
    if i > 0 { assert PlacedGreedily(m, placed, steps, i); }
    if nodeRadius >= 0.0 && order[i].size >= 0 { BlobArea(m, nodeRadius, order[i].size); }
    hide RealMath.Lawful, BlobR;
  }

  lemma {:induction false} SeatAt(m: RealMath, k: nat)
    ensures var t := 0.22 * k as real; Seat(m, k) == Point(6.0 * t * m.cos(t), 6.0 * t * m.sin(t))
  {
  }

  /** Every earlier step of the spiral is too close to a disc placed before. */
  lemma {:induction false} EarlierStepIsBlocked(m: RealMath, nodeRadius: real, order: seq<Community>,
          placed: seq<Disc>, steps: seq<nat>, i: nat, k: nat) returns (j: nat)
    requires IsPacking(m, nodeRadius, order, placed, steps) && 0 < i < |order| && 0 < k < steps[i]
    ensures j < i <= |placed|
    ensures var t := 0.22 * k as real;
      m.hypot(6.0 * t * m.cos(t) - placed[j].x, 6.0 * t * m.sin(t) - placed[j].y) < placed[i].r + placed[j].r
  {
    j := StepIsBlocked(m, placed, steps, i, k) by { assert PlacedGreedily(m, placed, steps, i); }
    hide IsPacking, Seat;
    SeatAt(m, k);
  }

  lemma {:induction false} StepIsBlocked(m: RealMath, placed: seq<Disc>, steps: seq<nat>, i: nat, k: nat)
    returns (j: nat)
    requires i < |placed| == |steps| && PlacedGreedily(m, placed, steps, i) && 0 < k < steps[i]
    ensures j < i
    ensures m.hypot(Seat(m, k).x - placed[j].x, Seat(m, k).y - placed[j].y) < placed[i].r + placed[j].r
  {
    hide Seat;
    assert !ClearOf(m, placed[..i], Seat(m, k), placed[i].r);
    j :| 0 <= j < i && m.hypot(Seat(m, k).x - placed[j].x, Seat(m, k).y - placed[j].y) < placed[i].r + placed[j].r;
  }

  lemma {:induction false} BlobArea(m: RealMath, nodeRadius: real, n: int)
    requires m.Lawful() && nodeRadius >= 0.0 && n >= 0
    ensures var rim := BlobR(m, nodeRadius, n) - 10.0;
      rim >= 0.0 && rim * rim == 1.45 * 1.45 * nodeRadius * nodeRadius * n as real
  {
    assert m.SqrtLaw(n as real);
    var q := m.sqrt(n as real);
    assert BlobR(m, nodeRadius, n) - 10.0 == nodeRadius * q * 1.45;
    ProductNonnegative(nodeRadius, q);
    assert (nodeRadius * q) * (nodeRadius * q) == nodeRadius * nodeRadius * (q * q);
  }

  // ------------------------------------------------------------------ size of the cloud

  lemma {:induction false} BlobMonotone(m: RealMath, nodeRadius: real, a: int, b: int)
    requires m.Lawful() && nodeRadius >= 0.0 && 0 <= a <= b
    ensures 10.0 <= BlobR(m, nodeRadius, a) <= BlobR(m, nodeRadius, b)
  {
    var x, y := m.sqrt(a as real), m.sqrt(b as real);
    assert m.SqrtLaw(a as real) && m.SqrtLaw(b as real);
    SquareOrder(x, y);
    assert nodeRadius * x >= 0.0;
    assert nodeRadius * (y - x) >= 0.0;
    assert nodeRadius * y == nodeRadius * x + nodeRadius * (y - x);
  }

  /** r0 plus, for every later disc, its diameter and one step of the spiral. */
  function RadiusBudget(m: RealMath, nodeRadius: real, order: seq<Community>): real {
    if order == [] then 0.0
    else
      var r := BlobR(m, nodeRadius, order[|order| - 1].size);
      if |order| == 1 then r else RadiusBudget(m, nodeRadius, order[..|order| - 1]) + 2.0 * r + 1.32
  }

  lemma {:induction false} FirstClearIsNear(m: RealMath, placed: seq<Disc>, r: real, k: nat)
    requires m.Lawful() && FirstClear(m, placed, r, k) && Extent(m, placed) + r >= 0.0
    ensures 1.32 * k as real <= Extent(m, placed) + r + 1.32
  {
    if k > 1 && 1.32 * (k - 1) as real > Extent(m, placed) + r {
      FarSeatIsClear(m, placed, r, k - 1);
    }
  }

  lemma {:induction false} PackingPrefix(m: RealMath, nodeRadius: real, order: seq<Community>, placed: seq<Disc>,
          steps: seq<nat>, n: nat)
    requires IsPacking(m, nodeRadius, order, placed, steps) && n <= |order|
    ensures IsPacking(m, nodeRadius, order[..n], placed[..n], steps[..n])
  {
    forall i | 1 <= i < n ensures PlacedGreedily(m, placed[..n], steps[..n], i) {
      assert PlacedGreedily(m, placed, steps, i) && placed[..n][..i] == placed[..i];
    }
  }

  lemma {:induction false} ExtentBound(m: RealMath, nodeRadius: real, order: seq<Community>, placed: seq<Disc>,
          steps: seq<nat>)
    requires m.Lawful() && nodeRadius >= 0.0 && IsPacking(m, nodeRadius, order, placed, steps)
    requires forall c | c in order :: c.size > 0
    ensures 0.0 <= Extent(m, placed) <= RadiusBudget(m, nodeRadius, order)
  {
    if order != [] {
      var n := |order| - 1;
      PackingPrefix(m, nodeRadius, order, placed, steps, n);
      ExtentBound(m, nodeRadius, order[..n], placed[..n], steps[..n]);
      assert order[n] in order;
      BlobMonotone(m, nodeRadius, order[n].size, order[n].size);
      SeatDistance(m, steps[n]);
      if n > 0 {
        assert PlacedGreedily(m, placed, steps, n);
        FirstClearIsNear(m, placed[..n], placed[n].r, steps[n]);
      }
    }
  }

  /** What is clear of a cloud is clear, if not larger, of the discs placed first. */
  lemma {:induction false} StillClear(m: RealMath, placed: seq<Disc>, i: nat, at: Point, r: real, smaller: real)
    requires i <= |placed| && ClearOf(m, placed, at, r) && smaller <= r
    ensures ClearOf(m, placed[..i], at, smaller)
  {
  }

  /** Of two communities, the one placed later and not smaller sits strictly farther out. */
  lemma {:induction false} LaterSitsFarther(m: RealMath, nodeRadius: real, order: seq<Community>, placed: seq<Disc>,
          steps: seq<nat>, i: nat, j: nat)
    requires m.Lawful() && nodeRadius >= 0.0 && IsPacking(m, nodeRadius, order, placed, steps)
    requires i < j < |order| && 0 < order[i].size <= order[j].size
    ensures m.hypot(placed[i].x, placed[i].y) < m.hypot(placed[j].x, placed[j].y)
  {
    SeatDistance(m, steps[i]);
    SeatDistance(m, steps[j]);
    BlobMonotone(m, nodeRadius, order[i].size, order[j].size);
    assert PlacedGreedily(m, placed, steps, j);
    if i > 0 {
      assert PlacedGreedily(m, placed, steps, i);
      StillClear(m, placed[..j], i, Seat(m, steps[j]), placed[j].r, placed[i].r);
      assert placed[..j][..i] == placed[..i];
      if steps[i] == steps[j] {
        DiscsDisjoint(m, nodeRadius, order, placed, steps, i, j);
        HypotLaws(m, 0.0, 0.0);
        SquareOrder(m.hypot(0.0, 0.0), 0.0);
      }
    }
  }

  // ------------------------------------------------------------------ the outer ring

  function RingAngle(m: RealMath, i: nat, n: nat): real {
    ((i as real + 0.5) / Max(1.0, n as real)) * 2.0 * m.pi
  }

  function RingSeat(m: RealMath, outer: real, i: nat, n: nat): Point {
    Polar(m, outer, RingAngle(m, i, n))
  }

  /** The seat table after the first `k` assignments. */
  function RingTable(m: RealMath, outer: real, ids: seq<string>, k: nat): map<string, Point>
    requires k <= |ids|
  {
    if k == 0 then map[] else RingTable(m, outer, ids, k - 1)[ids[k - 1] := RingSeat(m, outer, k - 1, |ids|)]
  }

  method OuterRing(m: RealMath, outer: real, unclusteredIds: seq<string>) returns (byId: map<string, Point>)
    ensures byId == RingTable(m, outer, Sort(unclusteredIds, LexLe), |Sort(unclusteredIds, LexLe)|)
  {
    byId := map[];
    var ids := Sort(unclusteredIds, LexLe);
    for i := 0 to |ids|
      invariant byId == RingTable(m, outer, ids, i)
    {
      byId := byId[ids[i] := RingSeat(m, outer, i, |ids|)];
    }
  }

  lemma {:induction false} RingTableSeats(m: RealMath, outer: real, ids: seq<string>, k: nat)
    requires m.Lawful() && outer >= 0.0 && k <= |ids|
    ensures forall id :: id in RingTable(m, outer, ids, k) <==> id in ids[..k]
    ensures forall id | id in RingTable(m, outer, ids, k) ::
      var p := RingTable(m, outer, ids, k)[id]; m.hypot(p.x, p.y) == outer
    ensures (forall i, j | 0 <= i < j < k :: ids[i] != ids[j]) ==>
      forall i | 0 <= i < k :: ids[i] in RingTable(m, outer, ids, k)
          && RingTable(m, outer, ids, k)[ids[i]] == RingSeat(m, outer, i, |ids|)
  {
    RingTableIds(m, outer, ids, k);
    RingTableOnRing(m, outer, ids, k);
    if forall i, j | 0 <= i < j < k :: ids[i] != ids[j] { RingTableInOrder(m, outer, ids, k); }
  }

  lemma {:induction false} RingTableIds(m: RealMath, outer: real, ids: seq<string>, k: nat)
    requires k <= |ids|
    ensures forall id :: id in RingTable(m, outer, ids, k) <==> id in ids[..k]
  {
    hide RingSeat;
    if k > 0 {
      RingTableIds(m, outer, ids, k - 1);
      assert ids[..k] == ids[..k - 1] + [ids[k - 1]];
    }
  }

  lemma {:induction false} RingTableOnRing(m: RealMath, outer: real, ids: seq<string>, k: nat)
    requires m.Lawful() && outer >= 0.0 && k <= |ids|
    ensures forall id | id in RingTable(m, outer, ids, k) ::
      var p := RingTable(m, outer, ids, k)[id]; m.hypot(p.x, p.y) == outer
  {
    if k > 0 {
      RingTableOnRing(m, outer, ids, k - 1);
      PolarHypot(m, outer, RingAngle(m, k - 1, |ids|));
      var p := RingSeat(m, outer, k - 1, |ids|);
      assert m.hypot(p.x, p.y) == outer;
      hide RealMath.Lawful, RingSeat;
    }
  }

  lemma {:induction false} RingTableInOrder(m: RealMath, outer: real, ids: seq<string>, k: nat)
    requires k <= |ids| && forall i, j | 0 <= i < j < k :: ids[i] != ids[j]
    ensures forall i | 0 <= i < k ::
      ids[i] in RingTable(m, outer, ids, k) && RingTable(m, outer, ids, k)[ids[i]] == RingSeat(m, outer, i, |ids|)
  {
    hide RingSeat;
    if k > 0 { RingTableInOrder(m, outer, ids, k - 1); }
  }

  lemma {:induction false} RingMembers(m: RealMath, outer: real, ids: seq<string>, id: string)
    requires m.Lawful() && outer >= 0.0 && id in ids
    ensures var sorted := Sort(ids, LexLe);
      var table := RingTable(m, outer, sorted, |sorted|);
      id in table && m.hypot(table[id].x, table[id].y) == outer
  {
    var sorted := Sort(ids, LexLe);
    SortMembers(ids, LexLe);
    assert id in multiset(ids) && id in sorted;
    RingTableSeats(m, outer, sorted, |sorted|);
    assert sorted[..|sorted|] == sorted;
  }

  /** A direction determines its angle within one turn. */
  ghost predicate TurnsOnce(m: RealMath) {
    m.pi > 0.0 && forall s, t ::
      0.0 <= s < 2.0 * m.pi && 0.0 <= t < 2.0 * m.pi && m.cos(s) == m.cos(t) && m.sin(s) == m.sin(t) ==> s == t
  }

  lemma {:induction false} RingAngleTimes(m: RealMath, i: nat, n: nat)
    requires i < n
    ensures RingAngle(m, i, n) * n as real == (2 * i + 1) as real * m.pi
    ensures m.pi > 0.0 ==> 0.0 <= RingAngle(m, i, n) < 2.0 * m.pi
  {
    var q, t := (i as real + 0.5) / n as real, n as real;
    assert q * t == i as real + 0.5;
    assert RingAngle(m, i, n) == q * 2.0 * m.pi;
    assert (q * 2.0 * m.pi) * t == (q * t) * 2.0 * m.pi;
    if m.pi > 0.0 {
      SameSign(q, t);
      assert (1.0 - q) * t == t - q * t > 0.0;
      SameSign(1.0 - q, t);
      ProductNonnegative(q, 2.0 * m.pi);
      ProductPositive(1.0 - q, 2.0 * m.pi);
    }
  }

  /** The ring seats sorted distinct ids evenly: with n of them the i-th stands at (2 i + 1) pi / n, so neighbours are
      2 pi / n apart and no two ids share a point. */
  lemma {:induction false} RingIsEvenlySpaced(m: RealMath, outer: real, ids: seq<string>, i: nat) returns (angle: real)
    requires m.Lawful() && outer >= 0.0 && i < |ids| && forall j, k | 0 <= j < k < |ids| :: ids[j] != ids[k]
    ensures angle * |ids| as real == (2 * i + 1) as real * m.pi
    ensures var table := RingTable(m, outer, ids, |ids|);
      ids[i] in table && table[ids[i]] == Point(outer * m.cos(angle), outer * m.sin(angle))
    ensures m.pi > 0.0 ==> 0.0 <= angle < 2.0 * m.pi
  {
    angle := RingAngle(m, i, |ids|);
    RingAngleTimes(m, i, |ids|);
    RingTableSeats(m, outer, ids, |ids|);
  }

  lemma {:induction false} SameFactor(f: real, a: real, b: real)
    requires f != 0.0 && f * a == f * b
    ensures a == b
  {
    assert f * (a - b) == 0.0;
  }

  lemma {:induction false} AnglesDiffer(pi: real, n: real, a: real, b: real, i: int, j: int)
    requires pi != 0.0 && i != j && a * n == (2 * i + 1) as real * pi && b * n == (2 * j + 1) as real * pi
    ensures a != b
  {
    if a == b { SameFactor(pi, (2 * i + 1) as real, (2 * j + 1) as real); }
  }

  lemma {:induction false} DirectionsDiffer(m: RealMath, outer: real, a: real, b: real)
    requires TurnsOnce(m) && outer != 0.0 && a != b && 0.0 <= a < 2.0 * m.pi && 0.0 <= b < 2.0 * m.pi
    ensures Point(outer * m.cos(a), outer * m.sin(a)) != Point(outer * m.cos(b), outer * m.sin(b))
  {
    var x, y, u, v := m.cos(a), m.sin(a), m.cos(b), m.sin(b);
    assert x != u || y != v;
    hide TurnsOnce;
    if outer * x == outer * u && outer * y == outer * v {
      SameFactor(outer, x, u);
      SameFactor(outer, y, v);
    }
  }

  lemma {:induction false} RingAnglesDiffer(m: RealMath, outer: real, ids: seq<string>, i: nat, j: nat)
    returns (a: real, b: real)
    requires m.Lawful() && m.pi > 0.0 && outer >= 0.0 && i < |ids| && j < |ids| && i != j
    requires forall j, k | 0 <= j < k < |ids| :: ids[j] != ids[k]
    ensures a != b && 0.0 <= a < 2.0 * m.pi && 0.0 <= b < 2.0 * m.pi
    ensures var table := RingTable(m, outer, ids, |ids|);
      && ids[i] in table && table[ids[i]] == Point(outer * m.cos(a), outer * m.sin(a))
      && ids[j] in table && table[ids[j]] == Point(outer * m.cos(b), outer * m.sin(b))
  {
    hide RealMath.Lawful, RingTable;
    a := RingIsEvenlySpaced(m, outer, ids, i);
    b := RingIsEvenlySpaced(m, outer, ids, j);
    AnglesDiffer(m.pi, |ids| as real, a, b, i, j);
  }

  lemma {:induction false} RingSeatsDiffer(m: RealMath, outer: real, ids: seq<string>, i: nat, j: nat)
    requires m.Lawful() && TurnsOnce(m) && outer > 0.0 && i < |ids| && j < |ids| && i != j
    requires forall j, k | 0 <= j < k < |ids| :: ids[j] != ids[k]
    ensures var table := RingTable(m, outer, ids, |ids|);
      ids[i] in table && ids[j] in table && table[ids[i]] != table[ids[j]]
  {
    assert m.pi > 0.0;
    hide RealMath.Lawful, TurnsOnce, RingTable;
    var a, b := RingAnglesDiffer(m, outer, ids, i, j);
    DirectionsDiffer(m, outer, a, b);
  }

  // ------------------------------------------------------------------ the whole layout

  datatype RadialAnchors = RadialAnchors(radius: real, byCluster: map<int, Point>, byId: map<string, Point>)

  function Centers(placed: seq<Disc>): map<int, Point> {
    if placed == [] then map[]
    else
      var p := placed[|placed| - 1];
      Centers(placed[..|placed| - 1])[p.c := Point(p.x, p.y)]
  }

  function Assemble(m: RealMath, placed: seq<Disc>, sortedIds: seq<string>): RadialAnchors {
    var radius := Max(60.0, Extent(m, placed));
    RadialAnchors(radius, Centers(placed), RingTable(m, radius + 26.0, sortedIds, |sortedIds|))
  }

  ghost predicate IsLayoutBy(m: RealMath, nodeRadius: real, sizes: seq<Community>, ids: seq<string>, affinity: Affinity,
                             a: RadialAnchors, order: seq<Community>, placed: seq<Disc>, steps: seq<nat>) {
    && IsGreedyOrder(affinity, Members(Nonempty(sizes)), order)
    && IsPacking(m, nodeRadius, order, placed, steps)
    && a == Assemble(m, placed, Sort(ids, LexLe))
  }

  ghost predicate IsLayout(m: RealMath, nodeRadius: real, sizes: seq<Community>, ids: seq<string>,
          affinity: Affinity, a: RadialAnchors) {
    exists order, placed, steps :: IsLayoutBy(m, nodeRadius, sizes, ids, affinity, a, order, placed, steps)
  }

  method ComputeRadialAnchors(m: RealMath, clusterSizes: seq<Community>, unclusteredIds: seq<string>,
          affinity: Affinity, nodeRadius: real)
    returns (a: RadialAnchors)
    requires m.Lawful() && DistinctIds(clusterSizes)
    ensures IsLayout(m, nodeRadius, clusterSizes, unclusteredIds, affinity, a)
  {
    var order := PlacementOrder(clusterSizes, affinity);
    var placed := Pack(m, nodeRadius, order);
    ghost var steps :| IsPacking(m, nodeRadius, order, placed, steps);
    hide RealMath.Lawful, IsGreedyOrder, IsPacking, Nonempty, Members, RingTable, Sort, Extent, Centers;
    NoDiscs(m);
    var extent, byCluster := 0.0, map[];
    for i := 0 to |placed|
      invariant extent == Extent(m, placed[..i]) && byCluster == Centers(placed[..i])
    {
      DiscStep(m, placed, i);
      extent := Max(extent, m.hypot(placed[i].x, placed[i].y) + placed[i].r);
      byCluster := byCluster[placed[i].c := Point(placed[i].x, placed[i].y)];
    }
    assert placed[..|placed|] == placed;
    var radius := Max(60.0, extent);
    var byId := OuterRing(m, radius + 26.0, unclusteredIds);
    a := RadialAnchors(radius, byCluster, byId);
    assert IsLayoutBy(m, nodeRadius, clusterSizes, unclusteredIds, affinity, a, order, placed, steps);
  }

  lemma {:induction false} NoDiscs(m: RealMath)
    ensures Extent(m, []) == 0.0 && Centers([]) == map[]
  {
  }

  lemma {:induction false} DiscStep(m: RealMath, placed: seq<Disc>, i: nat)
    requires i < |placed|
    ensures Extent(m, placed[..i + 1])
         == Max(Extent(m, placed[..i]), m.hypot(placed[i].x, placed[i].y) + placed[i].r)
    ensures Centers(placed[..i + 1]) == Centers(placed[..i])[placed[i].c := Point(placed[i].x, placed[i].y)]
  {
    assert placed[..i + 1][..i] == placed[..i];
  }

  lemma {:induction false} CentersAt(placed: seq<Disc>, i: nat)
    requires i < |placed| && forall a, b | 0 <= a < b < |placed| :: placed[a].c != placed[b].c
    ensures placed[i].c in Centers(placed) && Centers(placed)[placed[i].c] == Point(placed[i].x, placed[i].y)
  {
    if i < |placed| - 1 { CentersAt(placed[..|placed| - 1], i); }
  }

  /** Where community `c` ended up. */
  lemma {:induction false} CommunityPlaced(m: RealMath, nodeRadius: real, sizes: seq<Community>, ids: seq<string>,
          affinity: Affinity, a: RadialAnchors,
                        order: seq<Community>, placed: seq<Disc>, steps: seq<nat>, c: Community) returns (i: nat)
    requires DistinctIds(sizes) && IsLayoutBy(m, nodeRadius, sizes, ids, affinity, a, order, placed, steps)
    requires c in Nonempty(sizes)
    ensures i < |placed| && order[i] == c && placed[i].c == c.id && placed[i].r == BlobR(m, nodeRadius, c.size)
    ensures c.id in a.byCluster && a.byCluster[c.id] == Point(placed[i].x, placed[i].y)
  {
    assert c in order;
    i :| 0 <= i < |order| && order[i] == c;
    forall x, y | 0 <= x < y < |placed| ensures placed[x].c != placed[y].c {
      assert order[x] in Members(Nonempty(sizes)) && order[y] in Members(Nonempty(sizes));
      var u :| 0 <= u < |Nonempty(sizes)| && Nonempty(sizes)[u] == order[x];
      var v :| 0 <= v < |Nonempty(sizes)| && Nonempty(sizes)[v] == order[y];
      assert u != v;
    }
    CentersAt(placed, i);
  }

  /** Discs of different communities never overlap, and each lies inside the reported radius. */
  lemma {:induction false} CloudIsDisjoint(m: RealMath, nodeRadius: real, sizes: seq<Community>, ids: seq<string>,
          affinity: Affinity, a: RadialAnchors,
                        c: Community, d: Community)
    requires m.Lawful() && DistinctIds(sizes) && IsLayout(m, nodeRadius, sizes, ids, affinity, a)
    requires c in Nonempty(sizes) && d in Nonempty(sizes) && c != d
    ensures c.id in a.byCluster && d.id in a.byCluster
    ensures var p, q := a.byCluster[c.id], a.byCluster[d.id];
      && m.hypot(p.x - q.x, p.y - q.y) >= BlobR(m, nodeRadius, c.size) + BlobR(m, nodeRadius, d.size)
      && m.hypot(p.x, p.y) + BlobR(m, nodeRadius, c.size) <= a.radius
  {
    InsideRadius(m, nodeRadius, sizes, ids, affinity, a, c);
    var order, placed: seq<Disc>, steps :| IsLayoutBy(m, nodeRadius, sizes, ids, affinity, a, order, placed, steps);
    hide RealMath.Lawful, IsGreedyOrder, IsPacking, Nonempty, Members, Centers, Extent, RingTable, BlobR, Assemble;
    var i := CommunityPlaced(m, nodeRadius, sizes, ids, affinity, a, order, placed, steps, c);
    var j := CommunityPlaced(m, nodeRadius, sizes, ids, affinity, a, order, placed, steps, d);
    DiscsDisjoint(m, nodeRadius, order, placed, steps, i, j);
  }

  lemma {:induction false} InsideRadius(m: RealMath, nodeRadius: real, sizes: seq<Community>, ids: seq<string>,
          affinity: Affinity, a: RadialAnchors, c: Community)
    requires DistinctIds(sizes) && IsLayout(m, nodeRadius, sizes, ids, affinity, a) && c in Nonempty(sizes)
    ensures c.id in a.byCluster
    ensures m.hypot(a.byCluster[c.id].x, a.byCluster[c.id].y) + BlobR(m, nodeRadius, c.size) <= a.radius
  {
    var order, placed: seq<Disc>, steps :| IsLayoutBy(m, nodeRadius, sizes, ids, affinity, a, order, placed, steps);
    hide IsGreedyOrder, IsPacking, RingTable, Centers, Nonempty, Members, Extent, BlobR;
    var i := CommunityPlaced(m, nodeRadius, sizes, ids, affinity, a, order, placed, steps, c);
    ExtentCovers(m, placed, i);
  }

  lemma {:induction false} SeatOnRing(m: RealMath, nodeRadius: real, sizes: seq<Community>, ids: seq<string>,
          affinity: Affinity, a: RadialAnchors, id: string)
    requires m.Lawful() && IsLayout(m, nodeRadius, sizes, ids, affinity, a) && id in ids
    ensures id in a.byId && m.hypot(a.byId[id].x, a.byId[id].y) == a.radius + 26.0
  {
    var order, placed: seq<Disc>, steps :| IsLayoutBy(m, nodeRadius, sizes, ids, affinity, a, order, placed, steps);
    hide IsGreedyOrder, IsPacking, RingTable, Centers, Extent;
    RingMembers(m, a.radius + 26.0, ids, id);
  }

  /** Every unclustered node has a seat on the ring, 26 clear of the edge of every disc. */
  lemma {:induction false} RingIsOutside(m: RealMath, nodeRadius: real, sizes: seq<Community>, ids: seq<string>,
          affinity: Affinity, a: RadialAnchors,
                      c: Community, id: string)
    requires m.Lawful() && DistinctIds(sizes) && IsLayout(m, nodeRadius, sizes, ids, affinity, a)
    requires c in Nonempty(sizes) && id in ids
    ensures id in a.byId && c.id in a.byCluster
    ensures var s, p := a.byId[id], a.byCluster[c.id];
      && m.hypot(s.x, s.y) == a.radius + 26.0
      && m.hypot(s.x - p.x, s.y - p.y) >= BlobR(m, nodeRadius, c.size) + 26.0
  {
    InsideRadius(m, nodeRadius, sizes, ids, affinity, a, c);
    SeatOnRing(m, nodeRadius, sizes, ids, affinity, a, id);
    var s, p := a.byId[id], a.byCluster[c.id];
    ReverseTriangle(m, s.x, s.y, p.x, p.y);
  }

  /** The reported radius is bounded by the discs alone. */
  lemma {:induction false} CloudIsCompact(m: RealMath, nodeRadius: real, sizes: seq<Community>, ids: seq<string>,
          affinity: Affinity, a: RadialAnchors,
                       order: seq<Community>)
    requires m.Lawful() && nodeRadius >= 0.0 && IsLayout(m, nodeRadius, sizes, ids, affinity, a)
    requires IsGreedyOrder(affinity, Members(Nonempty(sizes)), order)
    ensures 60.0 <= a.radius <= Max(60.0, RadiusBudget(m, nodeRadius, order))
  {
    var order', placed, steps :| IsLayoutBy(m, nodeRadius, sizes, ids, affinity, a, order', placed, steps);
    SameGreedyOrder(affinity, Members(Nonempty(sizes)), order, order');
    ExtentBound(m, nodeRadius, order, placed, steps);
  }

  /** The layout depends on the contents of its inputs, not on how they are enumerated. */
  lemma {:induction false} LayoutIsDeterministic(m: RealMath, nodeRadius: real, affinity: Affinity,
          sizes1: seq<Community>, ids1: seq<string>, a: RadialAnchors,
                              sizes2: seq<Community>, ids2: seq<string>, b: RadialAnchors)
    requires multiset(sizes1) == multiset(sizes2) && multiset(ids1) == multiset(ids2)
    requires IsLayout(m, nodeRadius, sizes1, ids1, affinity, a) && IsLayout(m, nodeRadius, sizes2, ids2, affinity, b)
    ensures a == b
  {
    var o1, p1, s1 :| IsLayoutBy(m, nodeRadius, sizes1, ids1, affinity, a, o1, p1, s1);
    var o2, p2, s2 :| IsLayoutBy(m, nodeRadius, sizes2, ids2, affinity, b, o2, p2, s2);
    assert o1 == o2 by { PlacementIgnoresEnumeration(affinity, sizes1, sizes2, o1, o2); }
    assert p1 == p2 by { SamePacking(m, nodeRadius, o1, p1, s1, p2, s2); }
    assert Sort(ids1, LexLe) == Sort(ids2, LexLe) by { SortedIdsAgree(ids1, ids2); }
  }

  lemma {:induction false} SortedIdsAgree(a: seq<string>, b: seq<string>)
    requires multiset(a) == multiset(b)
    ensures Sort(a, LexLe) == Sort(b, LexLe)
  {
    LexIsTotalPreorder();
    SortIsStable(a, LexLe);
    SortIsStable(b, LexLe);
    SortMembers(a, LexLe);
    SortMembers(b, LexLe);
    OrderedUnique(Sort(a, LexLe), Sort(b, LexLe), LexLe);
  }

  /** The unclustered nodes of a layout, in id order, stand around the ring 26 outside the reported radius. */
  lemma {:induction false} LayoutSeatsIds(m: RealMath, nodeRadius: real, sizes: seq<Community>, ids: seq<string>,
          affinity: Affinity, a: RadialAnchors, inOrder: seq<string>, i: nat) returns (angle: real)
    requires m.Lawful() && IsLayout(m, nodeRadius, sizes, ids, affinity, a)
    requires multiset(inOrder) == multiset(ids) && Ordered(inOrder, LexLe) && i < |inOrder|
    requires forall j, k | 0 <= j < k < |inOrder| :: inOrder[j] != inOrder[k]
    ensures angle * |ids| as real == (2 * i + 1) as real * m.pi
    ensures inOrder[i] in a.byId
    ensures var outer := a.radius + 26.0;
      a.byId[inOrder[i]] == Point(outer * m.cos(angle), outer * m.sin(angle))
  {
    hide IsLayout, RingTable, LexLe, Ordered, RealMath.Lawful;
    LayoutRing(m, nodeRadius, sizes, ids, affinity, a, inOrder);
    angle := RingIsEvenlySpaced(m, a.radius + 26.0, inOrder, i);
  }

  /** No two of them share a point. */
  lemma {:induction false} LayoutSeatsDiffer(m: RealMath, nodeRadius: real, sizes: seq<Community>, ids: seq<string>,
          affinity: Affinity, a: RadialAnchors, inOrder: seq<string>, i: nat, j: nat)
    requires m.Lawful() && TurnsOnce(m) && IsLayout(m, nodeRadius, sizes, ids, affinity, a)
    requires multiset(inOrder) == multiset(ids) && Ordered(inOrder, LexLe) && i < j < |inOrder|
    requires forall j, k | 0 <= j < k < |inOrder| :: inOrder[j] != inOrder[k]
    ensures inOrder[i] in a.byId && inOrder[j] in a.byId && a.byId[inOrder[i]] != a.byId[inOrder[j]]
  {
    hide IsLayout, RingTable, LexLe, Ordered, RealMath.Lawful, TurnsOnce;
    LayoutRing(m, nodeRadius, sizes, ids, affinity, a, inOrder);
    RingSeatsDiffer(m, a.radius + 26.0, inOrder, i, j);
  }

  lemma {:induction false} LayoutRing(m: RealMath, nodeRadius: real, sizes: seq<Community>, ids: seq<string>,
          affinity: Affinity, a: RadialAnchors, inOrder: seq<string>)
    requires IsLayout(m, nodeRadius, sizes, ids, affinity, a)
    requires multiset(inOrder) == multiset(ids) && Ordered(inOrder, LexLe)
    ensures a.radius >= 60.0 && |inOrder| == |ids|
    ensures a.byId == RingTable(m, a.radius + 26.0, inOrder, |inOrder|)
  {
    hide IsGreedyOrder, IsPacking, RingTable, Centers, Extent, LexLe, Sort, Ordered, Nonempty, Members;
    InOrderIsSorted(ids, inOrder);
    var order, placed: seq<Disc>, steps :| IsLayoutBy(m, nodeRadius, sizes, ids, affinity, a, order, placed, steps);
  }

  lemma {:induction false} InOrderIsSorted(ids: seq<string>, inOrder: seq<string>)
    requires multiset(inOrder) == multiset(ids) && Ordered(inOrder, LexLe)
    ensures Sort(ids, LexLe) == inOrder && |inOrder| == |ids|
  {
    LexIsTotalPreorder();
    SortIsStable(ids, LexLe);
    SortMembers(ids, LexLe);
    OrderedUnique(Sort(ids, LexLe), inOrder, LexLe);
  }

  lemma {:induction false} ExtentIsReached(m: RealMath, placed: seq<Disc>) returns (i: nat)
    requires Extent(m, placed) > 0.0
    ensures i < |placed| && m.hypot(placed[i].x, placed[i].y) + placed[i].r == Extent(m, placed)
  {
    var n := |placed| - 1;
    i := n;
    if m.hypot(placed[n].x, placed[n].y) + placed[n].r < Extent(m, placed) { i := ExtentIsReached(m, placed[..n]); }
  }

  lemma {:induction false} CentersAre(placed: seq<Disc>)
    ensures Centers(placed).Keys == set p | p in placed :: p.c
  {
    if placed != [] {
      var n := |placed| - 1;
      CentersAre(placed[..n]);
      assert placed == placed[..n] + [placed[n]];
    }
  }

  /** The layout seats exactly the nonempty communities, and its radius is the least one of at least 60 that holds
      every disc: beyond 60 some disc touches it. */
  lemma {:induction false} LayoutIsTight(m: RealMath, nodeRadius: real, sizes: seq<Community>, ids: seq<string>,
          affinity: Affinity, a: RadialAnchors)
    requires DistinctIds(sizes) && IsLayout(m, nodeRadius, sizes, ids, affinity, a)
    ensures a.byCluster.Keys == set c | c in sizes && c.size > 0 :: c.id
    ensures a.radius >= 60.0
    ensures a.radius > 60.0 ==> exists c ::
      c in Nonempty(sizes) && c.id in a.byCluster
      && m.hypot(a.byCluster[c.id].x, a.byCluster[c.id].y) + BlobR(m, nodeRadius, c.size) == a.radius
  {
    var order, placed: seq<Disc>, steps :| IsLayoutBy(m, nodeRadius, sizes, ids, affinity, a, order, placed, steps);
    assert a.byCluster == Centers(placed) && a.radius == Max(60.0, Extent(m, placed));
    hide IsGreedyOrder, IsPacking, Centers, Extent, RingTable, BlobR, Assemble, Nonempty;
    PlacedAreNonempty(m, nodeRadius, sizes, affinity, order, placed, steps);
    CentersAre(placed);
    if a.radius > 60.0 {
      var i := ExtentIsReached(m, placed);
      var c := order[i];
      var k := CommunityPlaced(m, nodeRadius, sizes, ids, affinity, a, order, placed, steps, c);
      assert k == i;
    }
  }

  lemma {:induction false} PlacedAreNonempty(m: RealMath, nodeRadius: real, sizes: seq<Community>, affinity: Affinity,
          order: seq<Community>, placed: seq<Disc>, steps: seq<nat>)
    requires IsGreedyOrder(affinity, Members(Nonempty(sizes)), order)
    requires IsPacking(m, nodeRadius, order, placed, steps)
    ensures |placed| == |order| && forall i, j | 0 <= i < j < |order| :: order[i] != order[j]
    ensures forall i | 0 <= i < |order| ::
      placed[i].r == BlobR(m, nodeRadius, order[i].size) && order[i] in Nonempty(sizes)
    ensures (set p | p in placed :: p.c) == set c | c in sizes && c.size > 0 :: c.id
  {
    hide PlacedGreedily, PickBeats, BlobR, Seat;
    forall i | 0 <= i < |order| ensures order[i] in Nonempty(sizes) { assert order[i] in order; }
    assert forall i | 0 <= i < |order| :: placed[i].c == order[i].id;
    assert forall c :: c in order <==> c in sizes && c.size > 0;
    hide IsPacking, IsGreedyOrder, Nonempty;
    SameIds(sizes, order, placed);
  }

  lemma {:induction false} SameIds(sizes: seq<Community>, order: seq<Community>, placed: seq<Disc>)
    requires |placed| == |order| && forall i | 0 <= i < |order| :: placed[i].c == order[i].id
    requires forall c :: c in order <==> c in sizes && c.size > 0
    ensures (set p | p in placed :: p.c) == set c | c in sizes && c.size > 0 :: c.id
  {
    forall c | c in order ensures c.id in (set p | p in placed :: p.c) {
      var i :| 0 <= i < |order| && order[i] == c;
      assert placed[i] in placed;
    }
    forall p | p in placed ensures p.c in (set c | c in sizes && c.size > 0 :: c.id) {
      var i :| 0 <= i < |placed| && placed[i] == p;
      assert order[i] in order;
    }
  }

  /** Every community of a layout is centred at a step of the spiral r = 6 t, t = 0.22 k, the largest at the origin. */
  lemma {:induction false} LayoutPlacesCommunity(m: RealMath, nodeRadius: real, sizes: seq<Community>,
          ids: seq<string>, affinity: Affinity, a: RadialAnchors, c: Community) returns (k: nat)
    requires m.Lawful() && DistinctIds(sizes) && IsLayout(m, nodeRadius, sizes, ids, affinity, a)
    requires c in sizes && c.size > 0
    ensures c.id in a.byCluster
    ensures var t := 0.22 * k as real;
      a.byCluster[c.id].x == 6.0 * t * m.cos(t) && a.byCluster[c.id].y == 6.0 * t * m.sin(t)
    ensures (forall d | d in sizes && d != c :: d.size < c.size || (d.size == c.size && c.id < d.id)) ==> k == 0
  {
    var order, placed: seq<Disc>, steps :| IsLayoutBy(m, nodeRadius, sizes, ids, affinity, a, order, placed, steps);
    hide RealMath.Lawful, IsGreedyOrder, IsPacking, Nonempty, Members, Centers, Extent, RingTable, BlobR, Assemble;
    assert c in Nonempty(sizes);
    var i := CommunityPlaced(m, nodeRadius, sizes, ids, affinity, a, order, placed, steps, c);
    PackingInCoordinates(m, nodeRadius, order, placed, steps, i);
    k := steps[i];
    LargestIsFirst(affinity, sizes, order, c, i);
    if i == 0 { assert k == 0 by { FirstStep(m, nodeRadius, order, placed, steps); } }
  }

  lemma {:induction false} FirstStep(m: RealMath, nodeRadius: real, order: seq<Community>, placed: seq<Disc>,
          steps: seq<nat>)
    requires IsPacking(m, nodeRadius, order, placed, steps) && order != []
    ensures |steps| == |order| && steps[0] == 0
  {
  }

  lemma {:induction false} LargestIsFirst(affinity: Affinity, sizes: seq<Community>, order: seq<Community>,
          c: Community, i: nat)
    requires IsGreedyOrder(affinity, Members(Nonempty(sizes)), order) && i < |order| && order[i] == c
    ensures (forall d | d in sizes && d != c :: d.size < c.size || (d.size == c.size && c.id < d.id)) ==> i == 0
  {
    assert order[i] in order && order[0] in order;
    GreedyStartsWithLargest(affinity, Members(Nonempty(sizes)), order, c);
    assert order[0] in sizes;
  }
}
