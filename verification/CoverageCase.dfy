/** Scoring one case: which accepted units cover which gold spans, strictly and with neighbours. */
module CoverageCase {
  import opened Collections
  import opened MarkdownLinks
  import opened Options
  import opened ParagraphBlocks
  import opened SourceSpans
  import opened Strings

  datatype Gold = Gold(name: string, phrase: string)

  datatype UnitRange = UnitRange(id: string, range: Option<Span>, quote: string)

  datatype Row = Row(name: string, anchorFound: bool, covered: bool, coveredStrict: bool, coveringUnits: seq<string>)

  predicate Overlaps(a: Option<Span>, b: Option<Span>) {
    a.Some? && b.Some? && a.value.0 < b.value.1 && b.value.0 < a.value.1
  }

  /** Index of the first block that holds the start of the span. */
  function HomeOf(blocks: seq<Span>, span: Span): (i: nat)
    ensures i <= |blocks|
    ensures i < |blocks| ==> blocks[i].0 <= span.0 < blocks[i].1
    ensures forall k | 0 <= k < i :: !(blocks[k].0 <= span.0 < blocks[k].1)
  {
    if blocks == [] || blocks[0].0 <= span.0 < blocks[0].1 then 0 else 1 + HomeOf(blocks[1..], span)
  }

  function BlockOf(blocks: seq<Span>, span: Option<Span>): Option<Span> {
    if span == None then None
    else
      var i := HomeOf(blocks, span.value);
      if i < |blocks| then Some(blocks[i]) else span
  }

  function BlockWindow(blocks: seq<Span>, span: Option<Span>): Option<Span> {
    if span == None then None
    else
      var i := HomeOf(blocks, span.value);
      if i == |blocks| then span
      else Some((blocks[if i > 0 then i - 1 else 0].0, blocks[if i + 1 < |blocks| then i + 1 else |blocks| - 1].1))
  }

  /** The anchor's own block lies inside its window, and both hold the start of the anchor. */
  lemma {:induction false} BlockInsideWindow(blocks: seq<Span>, span: Span)
    requires Separated(blocks)
    ensures var b, w := BlockOf(blocks, Some(span)).value, BlockWindow(blocks, Some(span)).value;
      w.0 <= b.0 <= span.0 && b.1 <= w.1
  {
  }

  /** Whatever overlaps the block overlaps the window. */
  lemma {:induction false} StrictOverlapIsOverlap(blocks: seq<Span>, span: Option<Span>, range: Option<Span>)
    requires Separated(blocks)
    ensures Overlaps(BlockOf(blocks, span), range) ==> Overlaps(BlockWindow(blocks, span), range)
  {
    if span.Some? { BlockInsideWindow(blocks, span.value); }
  }

  /** One text, normalised, contains the other; an empty one contains and is contained in nothing. */
  predicate QuoteContains(fold: char -> string, phrase: string, quote: string) {
    var p, q := Norm(fold, StripLinks(phrase)), Norm(fold, StripLinks(quote));
    (p != [] && Contains(q, p)) || (q != [] && Contains(p, q))
  }

  predicate Covers(fold: char -> string, target: Option<Span>, phrase: string, u: UnitRange) {
    Overlaps(target, u.range) || QuoteContains(fold, phrase, u.quote)
  }

  function IdsCovering(fold: char -> string, target: Option<Span>, phrase: string, units: seq<UnitRange>): seq<string> {
    if units == [] then []
    else
      var rest, u := IdsCovering(fold, target, phrase, units[..|units| - 1]), units[|units| - 1];
      if Covers(fold, target, phrase, u) then rest + [u.id] else rest
  }

  function RowOf(fold: char -> string, source: string, blocks: seq<Span>, units: seq<UnitRange>, g: Gold): Row {
    var gspan := FindSpan(fold, source, g.phrase);
    var strict := IdsCovering(fold, BlockOf(blocks, gspan), g.phrase, units);
    var adjacent := IdsCovering(fold, BlockWindow(blocks, gspan), g.phrase, units);
    Row(g.name, gspan.Some?, adjacent != [], strict != [], adjacent)
  }

  /** All covering ids of all rows, one after the other. */
  function AllCovering(rows: seq<Row>): seq<string> {
    if rows == [] then [] else AllCovering(rows[..|rows| - 1]) + rows[|rows| - 1].coveringUnits
  }

  function InvalidAnchors(rows: seq<Row>): seq<string> {
    if rows == [] then []
    else
      var rest, r := InvalidAnchors(rows[..|rows| - 1]), rows[|rows| - 1];
      if r.anchorFound then rest else rest + [r.name]
  }

  /** How often each unit id covers a gold span. */
  ghost predicate Tallies(counts: map<string, nat>, units: seq<UnitRange>, ids: seq<string>) {
    && (forall u | u in units :: u.id in counts)
    && forall id | id in counts :: counts[id] == multiset(ids)[id]
  }

  function ZeroCounts(units: seq<UnitRange>): (counts: map<string, nat>)
    ensures Tallies(counts, units, [])
  {
    if units == [] then map[] else ZeroCounts(units[..|units| - 1])[units[|units| - 1].id := 0]
  }

  /** The inner loop: the covering units of one gold span, tallied as they are found. */
  method CoverOne(fold: char -> string, gblock: Option<Span>, gwin: Option<Span>, phrase: string, units: seq<UnitRange>,
                  counts: map<string, nat>, ghost earlier: seq<string>)
    returns (strict: seq<string>, adjacent: seq<string>, counts': map<string, nat>)
    requires Tallies(counts, units, earlier)
    ensures strict == IdsCovering(fold, gblock, phrase, units) && adjacent == IdsCovering(fold, gwin, phrase, units)
    ensures Tallies(counts', units, earlier + adjacent)
  {
    hide IdsCovering, Tallies, Overlaps, QuoteContains;
    strict, adjacent, counts' := [], [], counts;
    assert earlier + adjacent == earlier;
    NothingCovered(fold, gblock, phrase);
    NothingCovered(fold, gwin, phrase);
    for k := 0 to |units|
      invariant strict == IdsCovering(fold, gblock, phrase, units[..k])
      invariant adjacent == IdsCovering(fold, gwin, phrase, units[..k])
      invariant Tallies(counts', units, earlier + adjacent)
    {
      var u := units[k];
      CoveringStep(fold, gblock, phrase, units, k);
      CoveringStep(fold, gwin, phrase, units, k);
      TallyStep(counts', units, earlier + adjacent, k);
      if Overlaps(gblock, u.range) || QuoteContains(fold, phrase, u.quote) { strict := strict + [u.id]; }
      if Overlaps(gwin, u.range) || QuoteContains(fold, phrase, u.quote) {
        assert earlier + (adjacent + [u.id]) == (earlier + adjacent) + [u.id];
        adjacent := adjacent + [u.id];
        counts' := counts'[u.id := counts'[u.id] + 1];
      }
    }
    assert units[..|units|] == units;
  }

  lemma {:induction false} NothingCovered(fold: char -> string, target: Option<Span>, phrase: string)
    ensures IdsCovering(fold, target, phrase, []) == []
  {
  }

  lemma {:induction false} CoveringStep(fold: char -> string, target: Option<Span>, phrase: string,
          units: seq<UnitRange>, k: nat)
    requires k < |units|
    ensures var before := IdsCovering(fold, target, phrase, units[..k]);
      IdsCovering(fold, target, phrase, units[..k + 1]) ==
        if Covers(fold, target, phrase, units[k]) then before + [units[k].id] else before
  {
    assert units[..k + 1][..k] == units[..k];
  }

  lemma {:induction false} TallyStep(counts: map<string, nat>, units: seq<UnitRange>, ids: seq<string>, k: nat)
    requires k < |units| && Tallies(counts, units, ids)
    ensures var id := units[k].id; id in counts && Tallies(counts[id := counts[id] + 1], units, ids + [id])
  {
    assert units[k] in units;
  }

  /** One gold span: its anchor, its block and window, and its row. */
  method CoverGold(fold: char -> string, source: string, blocks: seq<Span>, units: seq<UnitRange>, g: Gold,
                   counts: map<string, nat>, ghost earlier: seq<string>)
    returns (row: Row, counts': map<string, nat>)
    requires Tallies(counts, units, earlier)
    ensures row == RowOf(fold, source, blocks, units, g)
    ensures Tallies(counts', units, earlier + row.coveringUnits)
  {
    hide IdsCovering, FindSpan, Tallies, BlockOf, BlockWindow;
    var gspan := FindSpanOf(fold, source, g.phrase);
    var gblock, gwin := BlockOf(blocks, gspan), BlockWindow(blocks, gspan);
    var strict, adjacent;
    strict, adjacent, counts' := CoverOne(fold, gblock, gwin, g.phrase, units, counts, earlier);
    row := Row(g.name, gspan.Some?, |adjacent| > 0, |strict| > 0, adjacent);
  }

  /** Rows, invalid anchors and tallies of one case. */
  method RunCase(fold: char -> string, source: string, golds: seq<Gold>, units: seq<UnitRange>)
    returns (rows: seq<Row>, invalid: seq<string>, counts: map<string, nat>, ghost blocks: seq<Span>)
    ensures AreParagraphs(source, blocks) && Separated(blocks) && |rows| == |golds|
    ensures forall k | 0 <= k < |golds| :: rows[k] == RowOf(fold, source, blocks, units, golds[k])
    ensures invalid == InvalidAnchors(rows)
    ensures Tallies(counts, units, AllCovering(rows))
  {
    hide RowOf, Separated, ListsRuns, IsRun, SplitLines, Tallies, LineStart, LineEnd;
    var paragraphs, runs := Paragraphs(source);
    BlocksAreSeparated(SplitLines(source), paragraphs, runs);
    blocks := paragraphs;
    rows, invalid := [], [];
    counts := ZeroCounts(units);
    for k := 0 to |golds|
      invariant |rows| == k && forall j | 0 <= j < k :: rows[j] == RowOf(fold, source, blocks, units, golds[j])
      invariant invalid == InvalidAnchors(rows)
      invariant Tallies(counts, units, AllCovering(rows))
    {
      var row;
      row, counts := CoverGold(fold, source, paragraphs, units, golds[k], counts, AllCovering(rows));
      if !row.anchorFound { invalid := invalid + [row.name]; }
      assert (rows + [row])[..k] == rows;
      rows := rows + [row];
    }
  }

  // ------------------------------------------------------------------ the rows, in bytes and positions

  /** Two nonempty ranges overlap exactly when they share a byte. */
  lemma {:induction false} OverlapsIff(a: Span, b: Span)
    requires a.0 < a.1 && b.0 < b.1
    ensures Overlaps(Some(a), Some(b)) <==> exists byte :: Inside(a, byte) && Inside(b, byte)
  {
    if Overlaps(Some(a), Some(b)) {
      var byte := if a.0 >= b.0 then a.0 else b.0;
      assert Inside(a, byte) && Inside(b, byte);
    }
  }

  predicate Inside(s: Span, byte: nat) { s.0 <= byte < s.1 }

  /** The strict target is the paragraph that holds the start of the anchor; the window also takes in the paragraph
      before and the one after. Outside all paragraphs both are the anchor itself. */
  lemma {:induction false} TargetsAre(blocks: seq<Span>, span: Span, i: nat)
    requires Separated(blocks) && i <= |blocks|
    requires if i < |blocks| then Inside(blocks[i], span.0) else forall b | b in blocks :: !Inside(b, span.0)
    ensures BlockOf(blocks, Some(span)) == Some(if i < |blocks| then blocks[i] else span)
    ensures i == |blocks| ==> BlockWindow(blocks, Some(span)) == Some(span)
    ensures i < |blocks| ==> BlockWindow(blocks, Some(span)) == Some((
      blocks[if i == 0 then i else i - 1].0, blocks[if i + 1 == |blocks| then i else i + 1].1))
  {
    var home := HomeOf(blocks, span);
    assert home < |blocks| ==> blocks[home] in blocks;
    assert i < |blocks| ==> home <= i;
  }

  /** One normalised text is not empty and lies inside the other. */
  lemma {:induction false} QuoteContainsIff(fold: char -> string, phrase: string, quote: string)
    ensures var p, q := Norm(fold, StripLinks(phrase)), Norm(fold, StripLinks(quote));
      QuoteContains(fold, phrase, quote)
      <==> (p != [] && exists i: nat :: OccursAt(q, p, i)) || (q != [] && exists i: nat :: OccursAt(p, q, i))
  {
    var p, q := Norm(fold, StripLinks(phrase)), Norm(fold, StripLinks(quote));
    ContainsIff(q, p);
    ContainsIff(p, q);
    hide Norm, StripLinks, Contains, OccursAt;
  }

  function CoveredBy(fold: char -> string, target: Option<Span>, phrase: string): UnitRange -> bool {
    u => Covers(fold, target, phrase, u)
  }

  function IdOf(u: UnitRange): string { u.id }

  function NameOf(r: Row): string { r.name }

  predicate IsInvalid(r: Row) { !r.anchorFound }

  predicate IsCovered(r: Row) { r.covered }

  predicate IsCoveredStrictly(r: Row) { r.coveredStrict }

  function Lists(id: string): Row -> bool { (r: Row) => id in r.coveringUnits }

  lemma {:induction false} IdsCoveringAre(fold: char -> string, target: Option<Span>, phrase: string,
          units: seq<UnitRange>) returns (at: seq<nat>)
    ensures ListsKept(units, CoveredBy(fold, target, phrase), at)
    ensures NamedAt(units, IdOf, at, IdsCovering(fold, target, phrase, units))
  {
    at := [];
    if units != [] {
      var n := |units| - 1;
      at := IdsCoveringAre(fold, target, phrase, units[..n]);
      hide Covers, ListsKept, NamedAt;
      ListsKeptStep(units, CoveredBy(fold, target, phrase), at);
      NamedStill(units, IdOf, at, IdsCovering(fold, target, phrase, units[..n]));
      if Covers(fold, target, phrase, units[n]) { at := at + [n]; }
    }
  }

  /** For an anchor in paragraph `i` the covering units are, in order, those that meet the paragraphs from the one
      before to the one after. */
  lemma {:induction false} RowOfAnchor(fold: char -> string, source: string, blocks: seq<Span>, units: seq<UnitRange>,
          g: Gold, i: nat) returns (at: seq<nat>)
    requires Separated(blocks) && i < |blocks| && FindSpan(fold, source, g.phrase).Some?
    requires Inside(blocks[i], FindSpan(fold, source, g.phrase).value.0)
    ensures var row := RowOf(fold, source, blocks, units, g);
      && row.name == g.name && row.anchorFound && (row.covered <==> at != []) && |row.coveringUnits| == |at|
      && forall r | 0 <= r < |at| :: at[r] < |units| && row.coveringUnits[r] == units[at[r]].id
    ensures forall r, q | 0 <= r < q < |at| :: at[r] < at[q]
    ensures var lo, hi := blocks[if i == 0 then i else i - 1].0, blocks[if i + 1 == |blocks| then i else i + 1].1;
      (forall k: nat :: k in at <==> k < |units| && Meets(fold, lo, hi, g.phrase, units[k]))
  {
    var span := FindSpan(fold, source, g.phrase);
    TargetsAre(blocks, span.value, i);
    var near := BlockWindow(blocks, span);
    hide Norm, StripLinks, FindSpan, QuoteContains, IdsCovering, BlockWindow, BlockOf, Separated;
    at := IdsCoveringAre(fold, near, g.phrase, units);
    assert RowOf(fold, source, blocks, units, g).coveringUnits == IdsCovering(fold, near, g.phrase, units);
    assert forall u :: Covers(fold, near, g.phrase, u) <==> Meets(fold, near.value.0, near.value.1, g.phrase, u);
    hide RowOf, Covers, Meets;
  }

  /** Strictly covered means that some unit meets the anchor's own paragraph. */
  lemma {:induction false} StrictRowOfAnchor(fold: char -> string, source: string, blocks: seq<Span>,
          units: seq<UnitRange>, g: Gold, i: nat)
    requires Separated(blocks) && i < |blocks| && FindSpan(fold, source, g.phrase).Some?
    requires Inside(blocks[i], FindSpan(fold, source, g.phrase).value.0)
    ensures RowOf(fold, source, blocks, units, g).coveredStrict
      <==> exists u :: u in units && Meets(fold, blocks[i].0, blocks[i].1, g.phrase, u)
  {
    var span := FindSpan(fold, source, g.phrase);
    TargetsAre(blocks, span.value, i);
    var own := BlockOf(blocks, span);
    hide Norm, StripLinks, FindSpan, QuoteContains, IdsCovering, BlockWindow, BlockOf, Separated;
    var strict := IdsCoveringAre(fold, own, g.phrase, units);
    assert RowOf(fold, source, blocks, units, g).coveredStrict <==> strict != [];
    if strict != [] { assert Covers(fold, own, g.phrase, units[strict[0]]) && units[strict[0]] in units; }
    if u :| u in units && Meets(fold, blocks[i].0, blocks[i].1, g.phrase, u) {
      var k: nat :| k < |units| && units[k] == u;
      assert k in strict;
    }
  }

  /** A phrase that is not found covers nothing but by its text. */
  lemma {:induction false} RowWithoutAnchor(fold: char -> string, source: string, blocks: seq<Span>,
          units: seq<UnitRange>, g: Gold)
    requires FindSpan(fold, source, g.phrase) == None
    ensures var row := RowOf(fold, source, blocks, units, g);
      && !row.anchorFound && row.coveredStrict == row.covered
      && (row.covered <==> exists u :: u in units && QuoteContains(fold, g.phrase, u.quote))
  {
    hide Norm, StripLinks, FindSpan, QuoteContains, IdsCovering;
    var at := IdsCoveringAre(fold, None, g.phrase, units);
    if at != [] { assert Covers(fold, None, g.phrase, units[at[0]]) && units[at[0]] in units; }
    if u :| u in units && QuoteContains(fold, g.phrase, u.quote) {
      var k: nat :| k < |units| && units[k] == u;
      assert k in at;
    }
  }

  /** The unit's range overlaps the bytes from `lo` to `hi`, or one of the texts contains the other. */
  predicate Meets(fold: char -> string, lo: nat, hi: nat, phrase: string, u: UnitRange) {
    (u.range.Some? && u.range.value.0 < hi && lo < u.range.value.1) || QuoteContains(fold, phrase, u.quote)
  }

  /** The invalid anchors are, in order, the names of the rows whose phrase was not found. */
  lemma {:induction false} InvalidAnchorsAre(rows: seq<Row>) returns (at: seq<nat>)
    ensures ListsKept(rows, IsInvalid, at)
    ensures NamedAt(rows, NameOf, at, InvalidAnchors(rows))
  {
    at := [];
    if rows != [] {
      var n := |rows| - 1;
      at := InvalidAnchorsAre(rows[..n]);
      hide ListsKept, NamedAt;
      ListsKeptStep(rows, IsInvalid, at);
      NamedStill(rows, NameOf, at, InvalidAnchors(rows[..n]));
      if !rows[n].anchorFound { at := at + [n]; }
    }
  }

  /** A unit listed at most once in each row is tallied once for every row it covers. */
  lemma {:induction false} TallyCountsRows(rows: seq<Row>, id: string)
    requires forall k | 0 <= k < |rows| :: multiset(rows[k].coveringUnits)[id] <= 1
    ensures multiset(AllCovering(rows))[id] == |Positions(rows, Lists(id))|
  {
    if rows != [] {
      var n := |rows| - 1;
      TallyCountsRows(rows[..n], id);
      assert id in rows[n].coveringUnits <==> multiset(rows[n].coveringUnits)[id] == 1;
      PositionsStep(rows, Lists(id));
      hide Positions;
    }
  }

  // ------------------------------------------------------------------ recall

  lemma {:induction false} StrictIdsAreCovering(fold: char -> string, blocks: seq<Span>, span: Option<Span>,
          phrase: string, units: seq<UnitRange>)
    requires Separated(blocks)
    ensures multiset(IdsCovering(fold, BlockOf(blocks, span), phrase, units))
         <= multiset(IdsCovering(fold, BlockWindow(blocks, span), phrase, units))
  {
    if units != [] {
      StrictIdsAreCovering(fold, blocks, span, phrase, units[..|units| - 1]);
      StrictOverlapIsOverlap(blocks, span, units[|units| - 1].range);
    }
  }

  /** A row covered strictly is covered with neighbours. */
  lemma {:induction false} StrictRowIsCovered(fold: char -> string, source: string, blocks: seq<Span>,
          units: seq<UnitRange>, g: Gold)
    requires Separated(blocks)
    ensures var row := RowOf(fold, source, blocks, units, g); row.coveredStrict ==> row.covered
  {
    var gspan := FindSpan(fold, source, g.phrase);
    StrictIdsAreCovering(fold, blocks, gspan, g.phrase, units);
    var strict := IdsCovering(fold, BlockOf(blocks, gspan), g.phrase, units);
    if strict != [] { assert strict[0] in multiset(strict); }
  }

  function CountCovered(rows: seq<Row>): nat {
    if rows == [] then 0 else CountCovered(rows[..|rows| - 1]) + (if rows[|rows| - 1].covered then 1 else 0)
  }

  function CountStrict(rows: seq<Row>): nat {
    if rows == [] then 0 else CountStrict(rows[..|rows| - 1]) + (if rows[|rows| - 1].coveredStrict then 1 else 0)
  }

  lemma {:induction false} CountsAre(rows: seq<Row>)
    ensures CountCovered(rows) == |Positions(rows, IsCovered)|
    ensures CountStrict(rows) == |Positions(rows, IsCoveredStrictly)|
  {
    if rows != [] {
      var n := |rows| - 1;
      CountsAre(rows[..n]);
      PositionsStep(rows, IsCovered);
      PositionsStep(rows, IsCoveredStrictly);
      hide Positions;
    }
  }

  function Recall(covered: nat, total: nat): real { if total == 0 then 0.0 else covered as real / total as real }

  lemma {:induction false} CountsOrdered(rows: seq<Row>)
    requires forall r | r in rows :: r.coveredStrict ==> r.covered
    ensures CountStrict(rows) <= CountCovered(rows) <= |rows|
  {
    if rows != [] {
      assert forall r | r in rows[..|rows| - 1] :: r in rows;
      CountsOrdered(rows[..|rows| - 1]);
      assert rows[|rows| - 1] in rows;
    }
  }

  /** Strict recall never exceeds recall with neighbours, and both lie between 0 and 1. */
  lemma {:induction false} StrictRecallIsLower(fold: char -> string, source: string, blocks: seq<Span>,
          units: seq<UnitRange>, golds: seq<Gold>, rows: seq<Row>)
    requires Separated(blocks) && |rows| == |golds|
    requires forall k | 0 <= k < |golds| :: rows[k] == RowOf(fold, source, blocks, units, golds[k])
    ensures 0.0 <= Recall(CountStrict(rows), |rows|) <= Recall(CountCovered(rows), |rows|) <= 1.0
  {
    forall r | r in rows ensures r.coveredStrict ==> r.covered {
      var k :| 0 <= k < |rows| && rows[k] == r;
      StrictRowIsCovered(fold, source, blocks, units, golds[k]);
    }
    CountsOrdered(rows);
    if rows != [] { QuotientOrder(CountStrict(rows), CountCovered(rows), |rows|); }
  }

  lemma {:induction false} QuotientOrder(a: nat, b: nat, n: nat)
    requires a <= b <= n && n > 0
    ensures 0.0 <= Recall(a, n) <= Recall(b, n) <= 1.0
  {
    var p, q, m := a as real / n as real, b as real / n as real, n as real;
    assert p * m == a as real && q * m == b as real;
    assert (q - p) * m >= 0.0 && (1.0 - q) * m >= 0.0;
  }
}
