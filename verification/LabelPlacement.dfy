/** The label pass of the knowledge graph: a ranked, budgeted, collision-free choice of labels. */
module LabelPlacement {
  import opened Collections
  import opened Options
  import opened StableSort

  datatype GraphNode = GraphNode(id: string, isSource: bool, name: string, importance: Option<real>, x: Option<real>,
      y: Option<real>)

  datatype Transform = Transform(a: real, b: real, c: real, d: real, e: real, f: real)

  /** What one frame reads; `textWidth` is the canvas's text measure. */
  datatype Frame = Frame(
    focusId: Option<string>, selectedId: Option<string>, hoverId: Option<string>, adjacency: map<string, set<string>>,
    fullscreen: bool, zoom: real, transform: Transform, width: real, height: real, textWidth: string -> real)

  datatype Box = Box(x0: real, y0: real, x1: real, y1: real)

  datatype Label = Label(node: GraphNode, box: Box)

  const LABEL_BASE_ZOOM: real := 1.9

  function OrZero(v: Option<real>): real { if v.Some? then v.value else 0.0 }

  predicate Forced(fr: Frame, n: GraphNode) {
    || fr.focusId == Some(n.id) || fr.selectedId == Some(n.id) || fr.hoverId == Some(n.id)
    || (fr.hoverId.Some? && fr.hoverId.value in fr.adjacency && n.id in fr.adjacency[fr.hoverId.value])
  }

  function NodeRadius(fr: Frame, n: GraphNode): real {
    if fr.focusId == Some(n.id) then 9.0
    else if n.isSource then 4.0 + 4.0 * OrZero(n.importance)
    else 3.0 + 6.0 * OrZero(n.importance)
  }

  predicate ShouldLabel(fr: Frame, n: GraphNode) { fr.zoom >= LABEL_BASE_ZOOM * (1.0 - 0.7 * OrZero(n.importance)) }

  /** A zero canvas size falls back to the transform's scale. */
  predicate OnScreen(fr: Frame, x: real, y: real) {
    var m := fr.transform;
    var w, h := if fr.width != 0.0 then fr.width else m.a, if fr.height != 0.0 then fr.height else m.d;
    var sx, sy := m.a * x + m.c * y + m.e, m.b * x + m.d * y + m.f;
    sx >= -20.0 && sx <= w + 20.0 && sy >= -20.0 && sy <= h + 20.0
  }

  /** An unforced node that may be labelled at all. */
  predicate Eligible(fr: Frame, n: GraphNode) { OnScreen(fr, OrZero(n.x), OrZero(n.y)) && ShouldLabel(fr, n) }

  function Shown(name: string): string { if |name| > 42 then name[..41] + ['\U{2026}'] else name }

  function BoxOf(fr: Frame, n: GraphNode): Box
    requires fr.zoom > 0.0
  {
    var fontSize, pad := 12.0 / fr.zoom, 2.0 / fr.zoom;
    var x, tw := OrZero(n.x), fr.textWidth(Shown(n.name));
    var ly := OrZero(n.y) + NodeRadius(fr, n) + fontSize;
    Box(x - tw / 2.0 - pad, ly - fontSize - pad, x + tw / 2.0 + pad, ly + pad)
  }

  predicate Overlap(a: Box, b: Box) { a.x0 < b.x1 && a.x1 > b.x0 && a.y0 < b.y1 && a.y1 > b.y0 }

  /** The sort of the pass: forced nodes first, then importance descending. */
  predicate RanksBefore(fr: Frame, a: GraphNode, b: GraphNode) {
    if Forced(fr, a) != Forced(fr, b) then Forced(fr, a) else OrZero(a.importance) >= OrZero(b.importance)
  }

  function Ranking(fr: Frame): (GraphNode, GraphNode) -> bool { (a, b) => RanksBefore(fr, a, b) }

  function Budget(fr: Frame): nat { if fr.fullscreen then 40 else 22 }

  function CountFree(fr: Frame, placed: seq<Label>): nat {
    if placed == [] then 0
    else CountFree(fr, placed[..|placed| - 1]) + (if Forced(fr, placed[|placed| - 1].node) then 0 else 1)
  }

  // ------------------------------------------------------------------ what a frame guarantees

  ghost predicate OverlapsOnlyForced(fr: Frame, placed: seq<Label>) {
    forall i, j | 0 <= i < j < |placed| && Overlap(placed[j].box, placed[i].box) ::
        Forced(fr, placed[i].node) && Forced(fr, placed[j].node)
  }

  /** Labels are at their boxes, and the unforced ones were allowed. */
  ghost predicate WellPlaced(fr: Frame, placed: seq<Label>)
    requires fr.zoom > 0.0
  {
    forall p | p in placed ::
      p.box == BoxOf(fr, p.node) && (!Forced(fr, p.node) ==> fr.hoverId == None && Eligible(fr, p.node))
  }

  /** Every placed label ranks no lower than `n`. */
  ghost predicate AllRankBefore(fr: Frame, placed: seq<Label>, n: GraphNode) {
    forall p | p in placed :: RanksBefore(fr, p.node, n)
  }

  ghost predicate Labelled(placed: seq<Label>, n: GraphNode) { exists p :: p in placed && p.node == n }

  /** A placed label that ranks no lower stands in the way of `n`. */
  ghost predicate Blocked(fr: Frame, placed: seq<Label>, n: GraphNode)
    requires fr.zoom > 0.0
  {
    exists p :: p in placed && Overlap(BoxOf(fr, n), p.box) && RanksBefore(fr, p.node, n)
  }

  /** The budget was spent, all of it on labels that rank no lower than `n`. */
  ghost predicate CutOff(fr: Frame, placed: seq<Label>, n: GraphNode) {
    CountFree(fr, placed) == Budget(fr) && AllRankBefore(fr, placed, n)
  }

  /** Why `n` has a label, or why not. */
  ghost predicate Accounted(fr: Frame, placed: seq<Label>, n: GraphNode)
    requires fr.zoom > 0.0
  {
    && (Forced(fr, n) ==> Labelled(placed, n))
    && (!Forced(fr, n) && fr.hoverId == None && Eligible(fr, n) ==>
          Labelled(placed, n) || Blocked(fr, placed, n) || CutOff(fr, placed, n))
  }

  /** The nodes of the labels, in order, form a subsequence of the ranked nodes. */
  ghost predicate InRankOrder(fr: Frame, placed: seq<Label>) {
    forall i, j | 0 <= i < j < |placed| :: RanksBefore(fr, placed[i].node, placed[j].node)
  }

  lemma {:induction false} RankingIsPreorder(fr: Frame)
    ensures TotalPreorder(Ranking(fr))
  {
  }

  /** Why `n` has a label or is blocked, whatever the budget. */
  ghost predicate Settled(fr: Frame, placed: seq<Label>, n: GraphNode)
    requires fr.zoom > 0.0
  {
    && (Forced(fr, n) ==> Labelled(placed, n))
    && (!Forced(fr, n) && fr.hoverId == None && Eligible(fr, n) ==> Labelled(placed, n) || Blocked(fr, placed, n))
  }

  function NodesOf(placed: seq<Label>): seq<GraphNode> {
    if placed == [] then [] else NodesOf(placed[..|placed| - 1]) + [placed[|placed| - 1].node]
  }

  lemma {:induction false} SettledGrows(fr: Frame, placed: seq<Label>, n: GraphNode, later: Label)
    requires fr.zoom > 0.0 && Settled(fr, placed, n)
    ensures Settled(fr, placed + [later], n)
  {
    assert forall p :: p in placed ==> p in placed + [later];
  }

  /** The checks of one placement: what the frame keeps when a label is pushed. */
  ghost predicate MayPush(fr: Frame, placed: seq<Label>, p: Label)
    requires fr.zoom > 0.0
  {
    && p.box == BoxOf(fr, p.node) && AllRankBefore(fr, placed, p.node)
    && (Forced(fr, p.node) || (
          && fr.hoverId == None && Eligible(fr, p.node) && CountFree(fr, placed) < Budget(fr)
          && forall q | q in placed :: !Overlap(p.box, q.box)))
  }

  ghost predicate Frameworthy(fr: Frame, placed: seq<Label>)
    requires fr.zoom > 0.0
  {
    OverlapsOnlyForced(fr, placed) && WellPlaced(fr, placed) && InRankOrder(fr, placed)
        && CountFree(fr, placed) <= Budget(fr)
  }

  lemma {:induction false} PushKeeps(fr: Frame, placed: seq<Label>, p: Label)
    requires fr.zoom > 0.0 && Frameworthy(fr, placed) && MayPush(fr, placed, p)
    ensures Frameworthy(fr, placed + [p])
    ensures CountFree(fr, placed + [p]) == CountFree(fr, placed) + (if Forced(fr, p.node) then 0 else 1)
    ensures NodesOf(placed + [p]) == NodesOf(placed) + [p.node]
  {
    hide BoxOf, Overlap, Eligible, Forced;
    var all := placed + [p];
    assert all[..|placed|] == placed;
    forall i, j | 0 <= i < j < |all| && Overlap(all[j].box, all[i].box)
      ensures Forced(fr, all[i].node) && Forced(fr, all[j].node)
    {
      if j == |placed| { assert placed[i] in placed; }
    }
    forall i, j | 0 <= i < j < |all| ensures RanksBefore(fr, all[i].node, all[j].node) {
      if j == |placed| { assert placed[i] in placed; }
    }
  }

  /** A node behind everything placed, when the budget is gone: so is every later node. */
  lemma {:induction false} RestIsCutOff(fr: Frame, placed: seq<Label>, ranked: seq<GraphNode>, k: nat, i: nat)
    requires fr.zoom > 0.0 && k <= i < |ranked| && Ordered(ranked, Ranking(fr)) && !Forced(fr, ranked[k])
    requires AllRankBefore(fr, placed, ranked[k]) && CountFree(fr, placed) == Budget(fr)
    ensures Accounted(fr, placed, ranked[i])
  {
    hide BoxOf, Overlap, Eligible, Forced;
    assert k < i ==> Ranking(fr)(ranked[k], ranked[i]);
    forall p | p in placed ensures RanksBefore(fr, p.node, ranked[i]) {}
  }

  /** The loop over the ranked nodes. */
  method DrawRanked(fr: Frame, ranked: seq<GraphNode>) returns (placed: seq<Label>)
    requires fr.zoom > 0.0 && Ordered(ranked, Ranking(fr))
    ensures Frameworthy(fr, placed)
    ensures forall i | 0 <= i < |ranked| :: Accounted(fr, placed, ranked[i])
    ensures multiset(NodesOf(placed)) <= multiset(ranked)
  {
    hide BoxOf, Overlap, Eligible, Forced, Settled, Accounted, Frameworthy, Ordered, RanksBefore, AllRankBefore,
        NodesOf, CountFree, MayPush;
    placed := [];
    var budget: int := Budget(fr);
    EmptyFrame(fr, ranked);
    var k := 0;
    while k < |ranked|
      invariant 0 <= k <= |ranked| && Frameworthy(fr, placed) && budget == Budget(fr) - CountFree(fr, placed) >= 0
      invariant forall i | 0 <= i < k :: Settled(fr, placed, ranked[i])
      invariant forall i | k <= i < |ranked| :: AllRankBefore(fr, placed, ranked[i])
      invariant multiset(NodesOf(placed)) <= multiset(ranked[..k])
    {
      var n := ranked[k];
      assert ranked[..k + 1] == ranked[..k] + [n];
      var isForced := Forced(fr, n);
      if !isForced {
        if fr.hoverId.Some? || (budget > 0 && !Eligible(fr, n)) {
          SettledByHover(fr, placed, n);
          k := k + 1;
          continue;
        }
        if budget <= 0 { break; }
      }
      var box := BoxOf(fr, n);
      if !isForced && exists q | q in placed :: Overlap(box, q.box) {
        SettledByBlock(fr, placed, n);
      } else {
        PushKeeps(fr, placed, Label(n, box)) by { MayPushHere(fr, placed, n); }
        AllSettledStill(fr, placed, ranked, k, Label(n, box));
        AllRankStill(fr, placed, ranked, k, Label(n, box));
        placed := placed + [Label(n, box)];
        if !isForced { budget := budget - 1; }
      }
      k := k + 1;
    }
    AllAccounted(fr, placed, ranked, k);
    assert ranked == ranked[..k] + ranked[k..];
  }

  lemma {:induction false} AllAccounted(fr: Frame, placed: seq<Label>, ranked: seq<GraphNode>, k: nat)
    requires fr.zoom > 0.0 && k <= |ranked| && Ordered(ranked, Ranking(fr))
    requires forall i | 0 <= i < k :: Settled(fr, placed, ranked[i])
    requires k < |ranked| ==> !Forced(fr, ranked[k]) && AllRankBefore(fr, placed, ranked[k])
    requires k < |ranked| ==> CountFree(fr, placed) == Budget(fr)
    ensures forall i | 0 <= i < |ranked| :: Accounted(fr, placed, ranked[i])
  {
    forall i | 0 <= i < |ranked| ensures Accounted(fr, placed, ranked[i]) {
      if i < k { SettledIsAccounted(fr, placed, ranked[i]); } else { RestIsCutOff(fr, placed, ranked, k, i); }
    }
  }

  /** The whole pass over one frame. */
  method DrawLabels(fr: Frame, nodes: seq<GraphNode>) returns (placed: seq<Label>)
    requires fr.zoom > 0.0
    ensures Frameworthy(fr, placed)
    ensures forall n | n in nodes :: Accounted(fr, placed, n)
    ensures multiset(NodesOf(placed)) <= multiset(nodes)
  {
    var ranked := Sort(nodes, Ranking(fr));
    RankingIsPreorder(fr);
    SortIsStable(nodes, Ranking(fr));
    SortMembers(nodes, Ranking(fr));
    hide Frameworthy, Accounted, Sort, TotalPreorder, Ordered;
    placed := DrawRanked(fr, ranked);
    forall n | n in nodes ensures Accounted(fr, placed, n) { assert n in multiset(nodes) && n in ranked; }
  }

  lemma {:induction false} MayPushHere(fr: Frame, placed: seq<Label>, n: GraphNode)
    requires fr.zoom > 0.0 && AllRankBefore(fr, placed, n)
    requires Forced(fr, n) || (fr.hoverId == None && Eligible(fr, n) && CountFree(fr, placed) < Budget(fr)
        && !exists q | q in placed :: Overlap(BoxOf(fr, n), q.box))
    ensures MayPush(fr, placed, Label(n, BoxOf(fr, n)))
  {
  }

  lemma {:induction false} AllSettledStill(fr: Frame, placed: seq<Label>, ranked: seq<GraphNode>, k: nat, p: Label)
    requires fr.zoom > 0.0 && k < |ranked| && p.node == ranked[k]
    requires forall i | 0 <= i < k :: Settled(fr, placed, ranked[i])
    ensures forall i | 0 <= i <= k :: Settled(fr, placed + [p], ranked[i])
  {
    forall i | 0 <= i <= k ensures Settled(fr, placed + [p], ranked[i]) {
      if i < k { SettledGrows(fr, placed, ranked[i], p); } else { SettledByLabel(fr, placed, p); }
    }
  }

  lemma {:induction false} EmptyFrame(fr: Frame, ranked: seq<GraphNode>)
    requires fr.zoom > 0.0
    ensures Frameworthy(fr, []) && CountFree(fr, []) == 0 && NodesOf([]) == []
    ensures forall i | 0 <= i < |ranked| :: AllRankBefore(fr, [], ranked[i])
  {
  }

  lemma {:induction false} SettledByHover(fr: Frame, placed: seq<Label>, n: GraphNode)
    requires fr.zoom > 0.0 && !Forced(fr, n) && (fr.hoverId.Some? || !Eligible(fr, n))
    ensures Settled(fr, placed, n)
  {
  }

  lemma {:induction false} SettledByBlock(fr: Frame, placed: seq<Label>, n: GraphNode)
    requires fr.zoom > 0.0 && !Forced(fr, n) && AllRankBefore(fr, placed, n)
    requires exists q | q in placed :: Overlap(BoxOf(fr, n), q.box)
    ensures Settled(fr, placed, n)
  {
  }

  lemma {:induction false} SettledByLabel(fr: Frame, placed: seq<Label>, p: Label)
    requires fr.zoom > 0.0
    ensures Settled(fr, placed + [p], p.node)
  {
    assert p in placed + [p];
  }

  lemma {:induction false} SettledIsAccounted(fr: Frame, placed: seq<Label>, n: GraphNode)
    requires fr.zoom > 0.0 && Settled(fr, placed, n)
    ensures Accounted(fr, placed, n)
  {
  }

  lemma {:induction false} AllRankStill(fr: Frame, placed: seq<Label>, ranked: seq<GraphNode>, k: nat, p: Label)
    requires k < |ranked| && p.node == ranked[k] && Ordered(ranked, Ranking(fr))
    requires forall i | k <= i < |ranked| :: AllRankBefore(fr, placed, ranked[i])
    ensures forall i | k < i < |ranked| :: AllRankBefore(fr, placed + [p], ranked[i])
  {
    forall i | k < i < |ranked| ensures AllRankBefore(fr, placed + [p], ranked[i]) {
      assert Ranking(fr)(ranked[k], ranked[i]);
      assert AllRankBefore(fr, placed, ranked[i]);
    }
  }

  // ------------------------------------------------------------------ the frame, in coordinates

  /** Where a node is drawn: its place, the radius of its dot, the width of its shortened name, and its importance. */
  datatype Marker = Marker(x: real, y: real, r: real, w: real, importance: real)

  ghost predicate IsMarker(fr: Frame, n: GraphNode, m: Marker) {
    && m.x == (match n.x case Some(x) => x case None => 0.0)
    && m.y == (match n.y case Some(y) => y case None => 0.0)
    && m.importance == (match n.importance case Some(i) => i case None => 0.0)
    && (if fr.focusId == Some(n.id) then m.r == 9.0
        else if n.isSource then m.r == 4.0 + 4.0 * m.importance
        else m.r == 3.0 + 6.0 * m.importance)
    && m.w == fr.textWidth(if |n.name| <= 42 then n.name else n.name[..41] + "\U{2026}")
  }

  /** Neither focused nor selected nor hovered over, and no neighbour of a node that is. */
  predicate IsFree(fr: Frame, n: GraphNode) {
    && fr.focusId != Some(n.id) && fr.selectedId != Some(n.id)
    && match fr.hoverId
       case None => true
       case Some(h) => h != n.id && (h in fr.adjacency ==> n.id !in fr.adjacency[h])
  }

  function Free(fr: Frame): Label -> bool { (p: Label) => IsFree(fr, p.node) }

  lemma {:induction false} FreeIff(fr: Frame, n: GraphNode)
    ensures IsFree(fr, n) <==> !Forced(fr, n)
  {
  }

  /** While the pointer is on a node exactly the focus, the selection, the node and its neighbours are labelled. */
  lemma {:induction false} HoverLabelsNeighbours(fr: Frame, nodes: seq<GraphNode>, placed: seq<Label>, n: GraphNode)
    requires fr.zoom > 0.0 && fr.hoverId.Some? && Frameworthy(fr, placed) && n in nodes && Accounted(fr, placed, n)
    ensures Labelled(placed, n) <==> !IsFree(fr, n)
  {
    FreeIff(fr, n);
    hide Forced, BoxOf, Eligible;
  }

  /** Two labels of which one is free keep 4 pixels apart sideways, or 16 pixels from line to line. */
  lemma {:induction false} LabelsAreApart(fr: Frame, placed: seq<Label>, i: nat, j: nat, a: Marker, b: Marker)
    requires fr.zoom > 0.0 && Frameworthy(fr, placed) && i < j < |placed|
    requires IsFree(fr, placed[i].node) || IsFree(fr, placed[j].node)
    requires IsMarker(fr, placed[i].node, a) && IsMarker(fr, placed[j].node, b)
    ensures var sideways, down := (a.w + b.w) / 2.0 + 4.0 / fr.zoom, 16.0 / fr.zoom;
      || a.x - b.x >= sideways || b.x - a.x >= sideways
      || (a.y + a.r) - (b.y + b.r) >= down || (b.y + b.r) - (a.y + a.r) >= down
  {
    FreeIff(fr, placed[i].node);
    FreeIff(fr, placed[j].node);
    assert placed[i] in placed && placed[j] in placed;
    assert !Overlap(placed[j].box, placed[i].box);
    BoxAround(fr, placed[i].node, a);
    BoxAround(fr, placed[j].node, b);
    hide BoxOf, Frameworthy, IsFree, Forced, IsMarker;
    Pixels(fr.zoom);
  }

  lemma {:induction false} Pixels(zoom: real)
    requires zoom > 0.0
    ensures 4.0 / zoom == 2.0 * (2.0 / zoom) && 16.0 / zoom == 12.0 / zoom + 2.0 * (2.0 / zoom)
  {
    var u := 1.0 / zoom;
    assert u * zoom == 1.0;
    assert (2.0 * u) * zoom == 2.0 && (4.0 * u) * zoom == 4.0 && (12.0 * u) * zoom == 12.0 && (16.0 * u) * zoom == 16.0;
  }

  /** The label stands below the dot, in a box of one line and 2 pixels around. */
  lemma {:induction false} BoxAround(fr: Frame, n: GraphNode, m: Marker)
    requires fr.zoom > 0.0 && IsMarker(fr, n, m)
    ensures var b, pad := BoxOf(fr, n), 2.0 / fr.zoom;
      && b.x0 == m.x - m.w / 2.0 - pad && b.x1 == m.x + m.w / 2.0 + pad
      && b.y0 == m.y + m.r - pad && b.y1 == m.y + m.r + 12.0 / fr.zoom + pad
  {
    assert Shown(n.name) == if |n.name| <= 42 then n.name else n.name[..41] + "\U{2026}";
  }

  /** An unforced node may be labelled where it is less than 20 pixels off the canvas, and when the zoom is past the
      threshold of its importance. */
  ghost predicate IsVisible(fr: Frame, m: Marker) {
    var t, width, height := fr.transform, if fr.width != 0.0 then fr.width else fr.transform.a,
        if fr.height != 0.0 then fr.height else fr.transform.d;
    && -20.0 <= t.a * m.x + t.c * m.y + t.e <= width + 20.0
    && -20.0 <= t.b * m.x + t.d * m.y + t.f <= height + 20.0
    && fr.zoom >= 1.9 - 1.33 * m.importance
  }

  lemma {:induction false} VisibleIff(fr: Frame, n: GraphNode, m: Marker)
    requires IsMarker(fr, n, m)
    ensures IsVisible(fr, m) <==> Eligible(fr, n)
  {
    assert LABEL_BASE_ZOOM * (1.0 - 0.7 * m.importance) == 1.9 - 1.33 * m.importance;
  }

  /** Free labels are drawn only without a pointer on a node, and only where they are visible; no more than 22 of them,
      or 40 on the full screen. */
  lemma {:induction false} FreeLabelsAreVisible(fr: Frame, placed: seq<Label>, i: nat, m: Marker)
    requires fr.zoom > 0.0 && Frameworthy(fr, placed) && i < |placed|
    requires IsFree(fr, placed[i].node) && IsMarker(fr, placed[i].node, m)
    ensures fr.hoverId == None && IsVisible(fr, m)
    ensures |Positions(placed, Free(fr))| <= if fr.fullscreen then 40 else 22
  {
    FreeIff(fr, placed[i].node);
    VisibleIff(fr, placed[i].node, m);
    assert placed[i] in placed;
    FreeCount(fr, placed);
    hide BoxOf, Eligible, Forced;
  }

  lemma {:induction false} FreeCount(fr: Frame, placed: seq<Label>)
    ensures CountFree(fr, placed) == |Positions(placed, Free(fr))|
  {
    if placed != [] {
      FreeCount(fr, placed[..|placed| - 1]);
      PositionsStep(placed, Free(fr));
      FreeIff(fr, placed[|placed| - 1].node);
      hide Positions, Forced, IsFree;
    }
  }

  /** A visible free node goes without a label only if a label of a forced or no less important node stands in its way,
      or the 22 or 40 free labels have all gone to nodes no less important. */
  lemma {:induction false} UnlabelledBecause(fr: Frame, placed: seq<Label>, n: GraphNode, m: Marker)
    requires fr.zoom > 0.0 && fr.hoverId == None && Accounted(fr, placed, n) && !Labelled(placed, n)
    requires IsFree(fr, n) && IsMarker(fr, n, m) && IsVisible(fr, m)
    ensures (exists p :: p in placed && Overlap(BoxOf(fr, n), p.box) && NoLessImportant(fr, p.node, m.importance))
      || (|Positions(placed, Free(fr))| == (if fr.fullscreen then 40 else 22)
          && forall p | p in placed :: NoLessImportant(fr, p.node, m.importance))
  {
    FreeIff(fr, n);
    VisibleIff(fr, n, m);
    FreeCount(fr, placed);
    forall p | p in placed && RanksBefore(fr, p.node, n) ensures NoLessImportant(fr, p.node, m.importance) {
      FreeIff(fr, p.node);
    }
    hide Forced, IsFree, Eligible, BoxOf, Overlap, NoLessImportant, RanksBefore, IsVisible, IsMarker, Positions;
  }

  ghost predicate NoLessImportant(fr: Frame, n: GraphNode, importance: real) {
    !IsFree(fr, n) || (match n.importance case Some(i) => i >= importance case None => 0.0 >= importance)
  }

  /** Labels are drawn forced ones first, then the more important before the less important. */
  lemma {:induction false} LabelsInOrder(fr: Frame, placed: seq<Label>, i: nat, j: nat, a: Marker, b: Marker)
    requires fr.zoom > 0.0 && Frameworthy(fr, placed) && i < j < |placed|
    requires IsMarker(fr, placed[i].node, a) && IsMarker(fr, placed[j].node, b)
    ensures IsFree(fr, placed[i].node) ==> IsFree(fr, placed[j].node)
    ensures IsFree(fr, placed[i].node) == IsFree(fr, placed[j].node) ==> a.importance >= b.importance
  {
    FreeIff(fr, placed[i].node);
    FreeIff(fr, placed[j].node);
    assert RanksBefore(fr, placed[i].node, placed[j].node);
  }
}
