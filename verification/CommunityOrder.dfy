/** The affinity-greedy order in which the packed-cloud layout places communities. */
module CommunityOrder {
  import opened Reals
  import opened StableSort

  /** One entry of the cluster-size map. */
  datatype Community = Community(id: int, size: int)

  /** Cross-edge weights; a missing row or cell counts as 0, a missing table is empty. */
  type Affinity = map<int, map<int, real>>

  function Weight(affinity: Affinity, c: int, placed: int): real {
    if c in affinity && placed in affinity[c] then affinity[c][placed] else 0.0
  }

  /** Total weight between `c` and the communities already in `order`. */
  function Score(affinity: Affinity, c: int, order: seq<Community>): real {
    if order == [] then 0.0
    else Score(affinity, c, order[..|order| - 1]) + Weight(affinity, c, order[|order| - 1].id)
  }

  /** Lexicographic comparison by affinity to the placed, then size, then smaller id. */
  predicate Beats(affinity: Affinity, order: seq<Community>, a: Community, b: Community) {
    var sa, sb := Score(affinity, a.id, order), Score(affinity, b.id, order);
    sa > sb || (sa == sb && (a.size > b.size || (a.size == b.size && a.id < b.id)))
  }

  predicate DistinctIds(s: seq<Community>) {
    forall i, j | 0 <= i < j < |s| :: s[i].id != s[j].id
  }

  /** Pick `i` beats the later pick `j` at the moment `i` was chosen. */
  ghost predicate PickBeats(affinity: Affinity, order: seq<Community>, i: nat, j: nat)
    requires i < j < |order|
  {
    Beats(affinity, order[..i], order[i], order[j])
  }

  /** `order` lists `communities` once each, and every pick beats all that are still unplaced. */
  ghost predicate IsGreedyOrder(affinity: Affinity, communities: set<Community>, order: seq<Community>) {
    && (forall c :: c in order <==> c in communities)
    && (forall i, j | 0 <= i < j < |order| :: order[i] != order[j])
    && forall i, j | 0 <= i < j < |order| :: PickBeats(affinity, order, i, j)
  }

  function Nonempty(s: seq<Community>): (r: seq<Community>)
    ensures forall c :: c in r <==> c in s && c.size > 0
    ensures DistinctIds(s) ==> DistinctIds(r)
  {
    if s == [] then []
    else
      var rest := Nonempty(s[1..]);
      if s[0].size > 0 then [s[0]] + rest else rest
  }

  /** The comparator that chooses the first community: size descending, id ascending. */
  predicate LargerFirst(a: Community, b: Community) {
    a.size > b.size || (a.size == b.size && a.id <= b.id)
  }

  lemma {:induction false} SortedHeadIsLargest(s: seq<Community>)
    requires s != []
    ensures var sorted := Sort(s, LargerFirst);
      sorted != [] && sorted[0] in s && forall c | c in s :: LargerFirst(sorted[0], c)
  {
    SortEnds(s, s[0], LargerFirst);
    forall c | c in s ensures LargerFirst(Sort(s, LargerFirst)[0], c) { SortEnds(s, c, LargerFirst); }
  }

  /** With nothing placed every score is 0, so the sort and the greedy rule agree on the first pick. */
  lemma {:induction false} FirstBeatsRest(affinity: Affinity, s: seq<Community>, first: Community)
    requires DistinctIds(s) && first in s && forall c | c in s :: LargerFirst(first, c)
    ensures forall c | c in s && c != first :: Beats(affinity, [], first, c)
  {
  }

  function Without(s: seq<Community>, id: int): (r: seq<Community>)
    ensures forall c :: c in r <==> c in s && c.id != id
    ensures DistinctIds(s) ==> DistinctIds(r)
    ensures |r| <= |s| && ((exists c :: c in s && c.id == id) ==> |r| < |s|)
  {
    if s == [] then []
    else
      var rest := Without(s[1..], id);
      if s[0].id == id then rest else [s[0]] + rest
  }

  /** The inner loop: scan the unplaced communities for the best next pick. */
  method PickNext(affinity: Affinity, order: seq<Community>, remaining: seq<Community>) returns (best: Community)
    requires remaining != [] && DistinctIds(remaining)
    ensures best in remaining
    ensures forall c | c in remaining && c != best :: Beats(affinity, order, best, c)
  {
    best := remaining[0];
    var bestScore := ScoreLoop(affinity, best.id, order);
    for k := 1 to |remaining|
      invariant best in remaining[..k]
      invariant bestScore == Score(affinity, best.id, order)
      invariant forall j | 0 <= j < k && remaining[j] != best :: Beats(affinity, order, best, remaining[j])
    {
      var c := remaining[k];
      var score := ScoreLoop(affinity, c.id, order);
      if score > bestScore || (score == bestScore && (c.size > best.size || (c.size == best.size && c.id < best.id))) {
        best, bestScore := c, score;
      }
    }
  }

  method ScoreLoop(affinity: Affinity, c: int, order: seq<Community>) returns (score: real)
    ensures score == Score(affinity, c, order)
  {
    score := 0.0;
    for k := 0 to |order|
      invariant score == Score(affinity, c, order[..k])
    {
      assert order[..k + 1][..k] == order[..k];
      score := score + Weight(affinity, c, order[k].id);
    }
    assert order[..|order|] == order;
  }

  ghost function Members(s: seq<Community>): set<Community> { set c | c in s }

  /** The whole placement order, for one enumeration of the cluster-size map. */
  method PlacementOrder(clusterSizes: seq<Community>, affinity: Affinity) returns (order: seq<Community>)
    requires DistinctIds(clusterSizes)
    ensures IsGreedyOrder(affinity, Members(Nonempty(clusterSizes)), order)
  {
    hide Beats, Score, Nonempty, Sort;
    var entries := Nonempty(clusterSizes);
    order := [];
    if entries == [] { return; }
    SortedHeadIsLargest(entries);
    var first := Sort(entries, LargerFirst)[0];
    FirstBeatsRest(affinity, entries, first);
    order := [first];
    var remaining := Without(entries, first.id);
    while remaining != []
      invariant DistinctIds(remaining)
      invariant forall c :: c in entries <==> c in order || c in remaining
      invariant forall c :: c in order ==> c !in remaining
      invariant forall i, j | 0 <= i < j < |order| :: order[i] != order[j]
      invariant forall i, j | 0 <= i < j < |order| :: PickBeats(affinity, order, i, j)
      invariant forall i, c | 0 <= i < |order| && c in remaining :: Beats(affinity, order[..i], order[i], c)
      decreases |remaining|
    {
      var best := PickNext(affinity, order, remaining);
      ghost var before := order;
      order := order + [best];
      remaining := Without(remaining, best.id);
      assert forall i | 0 <= i < |order| :: order[..i] == before[..i];
      forall i, j | 0 <= i < j < |order| ensures PickBeats(affinity, order, i, j) {
        assert j < |before| ==> PickBeats(affinity, before, i, j);
      }
    }
  }

  /** Two greedy orders of the same communities agree, however they were found. */
  lemma {:induction false} GreedyOrderUnique(affinity: Affinity, communities: set<Community>, a: seq<Community>,
          b: seq<Community>, k: nat)
    requires IsGreedyOrder(affinity, communities, a) && IsGreedyOrder(affinity, communities, b)
    requires k <= |a|
    ensures k <= |b| && a[..k] == b[..k]
  {
    if k > 0 {
      GreedyOrderUnique(affinity, communities, a, b, k - 1);
      var prefix := a[..k - 1];
      var x := a[k - 1];
      var j := UnplacedAt(affinity, communities, b, k - 1, prefix, x);
      var y := b[k - 1];
      var i := UnplacedAt(affinity, communities, a, k - 1, prefix, y);
      assert i == k - 1 || PickBeats(affinity, a, k - 1, i);
      assert j == k - 1 || PickBeats(affinity, b, k - 1, j);
      assert a[..k] == prefix + [x] && b[..k] == prefix + [y];
    }
  }

  /** A community outside the first `k` picks is picked later. */
  lemma {:induction false} UnplacedAt(affinity: Affinity, communities: set<Community>, order: seq<Community>, k: nat,
          prefix: seq<Community>, x: Community) returns (j: nat)
    requires IsGreedyOrder(affinity, communities, order)
    requires k <= |order| && order[..k] == prefix && x in communities && x !in prefix
    ensures k <= j < |order| && order[j] == x
  {
    assert x in order;
    j :| 0 <= j < |order| && order[j] == x;
  }

  /** The placement order does not depend on the order in which the map is enumerated. */
  lemma {:induction false} PlacementIgnoresEnumeration(affinity: Affinity, m1: seq<Community>, m2: seq<Community>,
          a: seq<Community>, b: seq<Community>)
    requires multiset(m1) == multiset(m2)
    requires IsGreedyOrder(affinity, Members(Nonempty(m1)), a)
    requires IsGreedyOrder(affinity, Members(Nonempty(m2)), b)
    ensures a == b
  {
    assert forall c :: c in m1 <==> c in multiset(m1);
    assert forall c :: c in m2 <==> c in multiset(m2);
    assert Members(Nonempty(m1)) == Members(Nonempty(m2));
    SameGreedyOrder(affinity, Members(Nonempty(m1)), a, b);
  }

  lemma {:induction false} SameGreedyOrder(affinity: Affinity, communities: set<Community>, a: seq<Community>,
          b: seq<Community>)
    requires IsGreedyOrder(affinity, communities, a) && IsGreedyOrder(affinity, communities, b)
    ensures a == b
  {
    GreedyOrderUnique(affinity, communities, a, b, |a|);
    GreedyOrderUnique(affinity, communities, b, a, |b|);
  }

  /** The first pick is the largest community, the lowest id among equals. */
  lemma {:induction false} GreedyStartsWithLargest(affinity: Affinity, communities: set<Community>,
          order: seq<Community>, c: Community)
    requires IsGreedyOrder(affinity, communities, order) && c in communities
    ensures order != [] && (c == order[0] || order[0].size > c.size || (order[0].size == c.size && order[0].id < c.id))
  {
    assert c in order;
    var j :| 0 <= j < |order| && order[j] == c;
    if j > 0 { assert PickBeats(affinity, order, 0, j); }
  }

  // ------------------------------------------------------------------ the order, in terms of the weight table

  lemma {:induction false} ScoreIsSum(affinity: Affinity, c: int, order: seq<Community>, weights: int -> real)
    requires forall k | 0 <= k < |order| ::
      weights(k) == if c in affinity && order[k].id in affinity[c] then affinity[c][order[k].id] else 0.0
    ensures Score(affinity, c, order) == Sum(weights, 0, |order|)
  {
    if order != [] {
      var n := |order| - 1;
      assert forall k | 0 <= k < n :: order[..n][k] == order[k];
      ScoreIsSum(affinity, c, order[..n], weights);
    }
  }

  /** Of any two picks the earlier one has at least the other's total weight to everything placed before it;
      between equal totals it is the larger, and between equal sizes it has the smaller id. */
  lemma {:induction false} PicksAreMostConnected(affinity: Affinity, communities: set<Community>, order: seq<Community>,
          i: nat, j: nat, mine: int -> real, others: int -> real)
    requires IsGreedyOrder(affinity, communities, order) && i < j < |order|
    requires forall k | 0 <= k < i :: var row, cell := order[i].id, order[k].id;
      mine(k) == if row in affinity && cell in affinity[row] then affinity[row][cell] else 0.0
    requires forall k | 0 <= k < i :: var row, cell := order[j].id, order[k].id;
      others(k) == if row in affinity && cell in affinity[row] then affinity[row][cell] else 0.0
    ensures var a, b := Sum(mine, 0, i), Sum(others, 0, i);
      && a >= b
      && (a == b ==> order[i].size >= order[j].size)
      && (a == b && order[i].size == order[j].size ==> order[i].id < order[j].id)
  {
    assert PickBeats(affinity, order, i, j);
    assert forall k | 0 <= k < i :: order[..i][k] == order[k];
    ScoreIsSum(affinity, order[i].id, order[..i], mine);
    ScoreIsSum(affinity, order[j].id, order[..i], others);
  }

  /** The community with the heaviest weight to the largest one is placed next to it, as the second pick. */
  lemma {:induction false} HeaviestNeighbourIsSecond(affinity: Affinity, communities: set<Community>,
          order: seq<Community>, largest: Community, c: Community)
    requires IsGreedyOrder(affinity, communities, order) && largest in communities && c in communities && c != largest
    requires forall d | d in communities && d != largest ::
      d.size < largest.size || (d.size == largest.size && largest.id < d.id)
    requires forall d | d in communities && d != largest && d != c ::
      (if d.id in affinity && largest.id in affinity[d.id] then affinity[d.id][largest.id] else 0.0)
        < (if c.id in affinity && largest.id in affinity[c.id] then affinity[c.id][largest.id] else 0.0)
    ensures |order| >= 2 && order[0] == largest && order[1] == c
  {
    GreedyStartsWithLargest(affinity, communities, order, largest);
    assert order[0] in order && c in order;
    var j :| 0 <= j < |order| && order[j] == c;
    if j > 1 {
      var d := order[1];
      assert d in order && d in communities;
      PicksAreMostConnected(affinity, communities, order, 1, j,
          _ => if d.id in affinity && largest.id in affinity[d.id] then affinity[d.id][largest.id] else 0.0,
          _ => if c.id in affinity && largest.id in affinity[c.id] then affinity[c.id][largest.id] else 0.0);
    }
  }
}
