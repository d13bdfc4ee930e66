/** The live process graph: progress hits, tool trails and citations folded into nodes and edges,
    and settled positions handed over between renders. */
module ProcessGraph {
  import opened Collections
  import opened JsText
  import opened Options
  import opened Strings

  // ------------------------------------------------------------------ inputs

  /** An absent source id is the empty string. */
  datatype Hit = Hit(kind: string, id: string, name: string, sourceId: string)

  datatype AskEvent = AskEvent(event: string, hits: Option<seq<Hit>>)

  datatype TraceEntry = TraceEntry(hits: Option<seq<Hit>>)

  datatype Citation = Citation(id: string, kind: string, title: string)

  datatype Feed = Feed(events: seq<AskEvent>, toolTrace: seq<TraceEntry>, citations: seq<Citation>)

  // ------------------------------------------------------------------ keys

  function NodeKey(kind: string, id: string): string {
    if kind == "source" && !("source:" <= id) then "source:" + id
    else if kind == "claim" && !("claim:" <= id) && !("ck-" <= id) then "claim:" + id
    else if kind == "claim" && "ck-" <= id then "claim:" + id
    else if ':' in id then id
    else kind + ":" + id
  }

  function HitKey(h: Hit): string { NodeKey(h.kind, h.id) }

  /** The hit names a source other than itself. */
  predicate HasSource(h: Hit) { h.sourceId != "" && h.kind != "source" }

  function SourceKey(h: Hit): string { NodeKey("source", h.sourceId) }

  function KeysOfHit(h: Hit): seq<string> { if HasSource(h) then [HitKey(h), SourceKey(h)] else [HitKey(h)] }

  function FirstToken(s: string): string { if s == [] || IsSpace(s[0]) then [] else [s[0]] + FirstToken(s[1..]) }

  /** `replace(/^<|>$/g, '')`. */
  function Unbracket(s: string): string {
    var t := if s != [] && s[0] == '<' then s[1..] else s;
    if t != [] && t[|t| - 1] == '>' then t[..|t| - 1] else t
  }

  function CitationKind(c: Citation): string {
    if c.kind != "" then c.kind
    else
      var k := IndexOf(c.id, ':');
      if k < |c.id| then c.id[..k] else "claim"
  }

  function CitationToken(c: Citation): string {
    var k := IndexOf(c.id, ':');
    Unbracket(FirstToken(Trim(if k < |c.id| then c.id[k + 1..] else c.id)))
  }

  function CitationNodeId(c: Citation): string {
    if CitationKind(c) == "source" || CitationKind(c) == "claim" then CitationToken(c) else c.id
  }

  function CitationKey(c: Citation): string { NodeKey(CitationKind(c), CitationNodeId(c)) }

  // ------------------------------------------------------------------ the graph

  datatype Physics = Physics(x: real, y: real, vx: real, vy: real)

  datatype ProcessNode = ProcessNode(id: string, kind: string, name: string, cited: bool, hit: bool,
      physics: Option<Physics>)

  datatype EdgeType = Cites | From

  datatype ProcessEdge = ProcessEdge(source: string, target: string, edgeType: EdgeType)

  function TypeName(t: EdgeType): string { if t == Cites then "cites" else "from" }

  /** The string by which edges are told apart. */
  function EdgeKey(e: ProcessEdge): string { TypeName(e.edgeType) + "|" + e.source + "|" + e.target }

  function Ids(nodes: seq<ProcessNode>): seq<string> { seq(|nodes|, k requires 0 <= k < |nodes| => nodes[k].id) }

  function FindNode(nodes: seq<ProcessNode>, key: string): (k: nat)
    ensures k <= |nodes| && (k < |nodes| ==> nodes[k].id == key) && forall i | 0 <= i < k :: nodes[i].id != key
  {
    if nodes == [] || nodes[0].id == key then 0 else 1 + FindNode(nodes[1..], key)
  }

  /** An empty label, a bare id or a stub. */
  predicate Weak(id: string, name: string) { name == "" || name == id || "source " <= name }

  /** The label of a source known only by its id. */
  function Stub(sourceId: string): string {
    "source " + (if |sourceId| > 12 then sourceId[..12] else sourceId) + ['\U{2026}']
  }

  function BetterName(n: ProcessNode, name: string): string {
    if name != "" && Weak(n.id, n.name) then name else n.name
  }

  function Upserted(nodes: seq<ProcessNode>, kind: string, id: string, name: string, cited: bool): seq<ProcessNode> {
    var key := NodeKey(kind, id);
    var k := FindNode(nodes, key);
    if k < |nodes| then
      nodes[k := nodes[k].(cited := nodes[k].cited || cited, hit := true, name := BetterName(nodes[k], name))]
    else nodes + [ProcessNode(key, kind, if name != "" then name else key, cited, true, None)]
  }

  /** Keys in order of first appearance. */
  function FirstSeen(keys: seq<string>): seq<string> {
    if keys == [] then []
    else
      var before, last := FirstSeen(keys[..|keys| - 1]), keys[|keys| - 1];
      if last in before then before else before + [last]
  }

  /** Edges in order of first appearance of their key, without self-loops. */
  function FirstEdges(wanted: seq<ProcessEdge>): seq<ProcessEdge> {
    if wanted == [] then []
    else
      var before, e := FirstEdges(wanted[..|wanted| - 1]), wanted[|wanted| - 1];
      if e.source == e.target || EdgeKey(e) in EdgeKeys(before) then before else before + [e]
  }

  function EdgeKeys(edges: seq<ProcessEdge>): set<string> { set e | e in edges :: EdgeKey(e) }

  // ------------------------------------------------------------------ what a feed asks for

  function HitsOf(hits: Option<seq<Hit>>): seq<Hit> { if hits.Some? then hits.value else [] }

  function EventHits(events: seq<AskEvent>): seq<Hit> {
    if events == [] then []
    else
      var e := events[|events| - 1];
      EventHits(events[..|events| - 1]) + (if e.event == "tool_finished" then HitsOf(e.hits) else [])
  }

  function TraceHits(trace: seq<TraceEntry>): seq<Hit> {
    if trace == [] then [] else TraceHits(trace[..|trace| - 1]) + HitsOf(trace[|trace| - 1].hits)
  }

  function AllHits(feed: Feed): seq<Hit> { EventHits(feed.events) + TraceHits(feed.toolTrace) }

  function HitKeys(hits: seq<Hit>): seq<string> {
    if hits == [] then [] else HitKeys(hits[..|hits| - 1]) + KeysOfHit(hits[|hits| - 1])
  }

  function WantedEdges(hits: seq<Hit>): seq<ProcessEdge> {
    if hits == [] then []
    else
      var before, h := WantedEdges(hits[..|hits| - 1]), hits[|hits| - 1];
      if HasSource(h) then before + [ProcessEdge(HitKey(h), SourceKey(h), if h.kind == "claim" then Cites else From)]
          else before
  }

  function CitationKeys(citations: seq<Citation>): seq<string> {
    if citations == [] then []
    else CitationKeys(citations[..|citations| - 1]) + [CitationKey(citations[|citations| - 1])]
  }

  /** A label given to a key. */
  datatype Naming = Naming(key: string, name: string)

  function HitNames(hits: seq<Hit>): seq<Naming> {
    if hits == [] then []
    else
      var h := hits[|hits| - 1];
      HitNames(hits[..|hits| - 1]) + [Naming(HitKey(h), h.name)]
  }

  function CitationNaming(c: Citation): Naming { Naming(CitationKey(c), if c.title != "" then c.title else c.id) }

  function CitationNames(citations: seq<Citation>): seq<Naming> {
    if citations == [] then []
    else CitationNames(citations[..|citations| - 1]) + [CitationNaming(citations[|citations| - 1])]
  }

  function FeedNames(feed: Feed): seq<Naming> { HitNames(AllHits(feed)) + CitationNames(feed.citations) }

  /** The first label given to `key` that is not weak. */
  function HumanName(names: seq<Naming>, key: string): Option<string> {
    if names == [] then None
    else
      var before, last := HumanName(names[..|names| - 1], key), names[|names| - 1];
      if before == None && last.key == key && !Weak(key, last.name) then Some(last.name) else before
  }

  predicate NameFits(n: ProcessNode, human: Option<string>) {
    match human
    case Some(name) => n.name == name
    case None => Weak(n.id, n.name)
  }

  /** Every node carries the first human label it was given; without one, a weak label. */
  ghost predicate Named(nodes: seq<ProcessNode>, names: seq<Naming>) {
    && (forall n | n in nodes :: NameFits(n, HumanName(names, n.id)))
    && forall x | x in names :: x.key in Ids(nodes)
  }

  function FeedKeys(feed: Feed): seq<string> { HitKeys(AllHits(feed)) + CitationKeys(feed.citations) }

  // ------------------------------------------------------------------ the builder

  class GraphBuilder {
    var nodes: seq<ProcessNode>
    var edges: seq<ProcessEdge>
    var edgeSeen: set<string>

    /** The graph after the node keys, wanted edges, citation keys and labels given. */
    ghost predicate Holds(keys: seq<string>, wanted: seq<ProcessEdge>, cited: seq<string>, names: seq<Naming>)
      reads this
    {
      && Ids(nodes) == FirstSeen(keys)
      && edges == FirstEdges(wanted) && edgeSeen == EdgeKeys(edges)
      && (forall n | n in nodes :: n.hit && n.physics == None && (n.cited <==> n.id in cited))
      && (forall c | c in cited :: c in keys)
      && Named(nodes, names)
    }

    constructor ()
      ensures Holds([], [], [], [])
    {
      nodes, edges, edgeSeen := [], [], {};
    }

    method UpsertNode(kind: string, id: string, name: string, cite: bool,
                      ghost keys: seq<string>, ghost wanted: seq<ProcessEdge>, ghost cited: seq<string>,
                      ghost names: seq<Naming>)
      requires Holds(keys, wanted, cited, names)
      modifies this`nodes
      ensures nodes == Upserted(old(nodes), kind, id, name, cite)
      ensures Holds(keys + [NodeKey(kind, id)], wanted, if cite then cited + [NodeKey(kind, id)] else cited,
                    names + [Naming(NodeKey(kind, id), name)])
    {
      UpsertKeeps(nodes, kind, id, name, cite, keys, cited);
      FirstSeenLaws(keys);
      UpsertNames(nodes, kind, id, name, cite, names);
      hide NodeKey, Upserted, FirstSeen, FirstEdges, EdgeKeys, Named, Ids, Distinct;
      Store(kind, id, name, cite);
    }

    method Store(kind: string, id: string, name: string, cite: bool)
      modifies this`nodes
      ensures nodes == Upserted(old(nodes), kind, id, name, cite)
    {
      hide NodeKey, Weak;
      var key := NodeKey(kind, id);
      var k := FindNode(nodes, key);
      if k < |nodes| {
        var existing := nodes[k];
        if cite { existing := existing.(cited := true); }
        existing := existing.(hit := true, name := BetterName(existing, name));
        nodes := nodes[k := existing];
      } else {
        nodes := nodes + [ProcessNode(key, kind, if name != "" then name else key, cite, true, None)];
      }
    }

    method AddEdge(e: ProcessEdge, ghost keys: seq<string>, ghost wanted: seq<ProcessEdge>, ghost cited: seq<string>,
            ghost names: seq<Naming>)
      requires Holds(keys, wanted, cited, names)
      modifies this`edges, this`edgeSeen
      ensures Holds(keys, wanted + [e], cited, names)
    {
      FirstEdgesStep(wanted, e);
      EdgeKeysStep(edges, e);
      hide EdgeKey, EdgeKeys, FirstEdges, FirstSeen, Named;
      if e.source == e.target { return; }
      var k := EdgeKey(e);
      if k in edgeSeen { return; }
      edgeSeen := edgeSeen + {k};
      edges := edges + [e];
    }

    method IngestHit(h: Hit, ghost keys: seq<string>, ghost wanted: seq<ProcessEdge>, ghost names: seq<Naming>)
      requires Holds(keys, wanted, [], names)
      modifies this
      ensures Holds(keys + KeysOfHit(h), wanted + WantedEdges([h]), [], names + [Naming(HitKey(h), h.name)])
    {
      hide Holds, NodeKey;
      UpsertNode(h.kind, h.id, h.name, false, keys, wanted, [], names);
      ghost var keys1, names1 := keys + [HitKey(h)], names + [Naming(HitKey(h), h.name)];
      assert [h][..0] == [];
      if h.sourceId != "" && h.kind != "source" {
        var srcKey := NodeKey("source", h.sourceId);
        EnsureSource(h.sourceId, keys1, wanted, names1);
        var e := ProcessEdge(NodeKey(h.kind, h.id), srcKey, if h.kind == "claim" then Cites else From);
        AddEdge(e, keys1 + [srcKey], wanted, [], names1);
        assert keys1 + [srcKey] == keys + KeysOfHit(h);
        assert WantedEdges([h]) == [e];
      } else {
        assert wanted + WantedEdges([h]) == wanted;
      }
    }

    /** Stub the source node if only its id is known. */
    method EnsureSource(sourceId: string, ghost keys: seq<string>, ghost wanted: seq<ProcessEdge>,
            ghost names: seq<Naming>)
      requires Holds(keys, wanted, [], names)
      modifies this`nodes
      ensures Holds(keys + [NodeKey("source", sourceId)], wanted, [], names)
    {
      hide NodeKey, Named, Stub;
      var srcKey := NodeKey("source", sourceId);
      if FindNode(nodes, srcKey) == |nodes| {
        UpsertNode("source", sourceId, Stub(sourceId), false, keys, wanted, [], names);
        StubNamesNothing(nodes, names, srcKey, sourceId);
      } else {
        SeenAlready(nodes, keys, srcKey);
      }
    }
  }

  predicate Distinct(keys: seq<string>) { forall i, j | 0 <= i < j < |keys| :: keys[i] != keys[j] }

  /** First appearances: the same members, each once. */
  lemma {:induction false} FirstSeenLaws(keys: seq<string>)
    ensures Distinct(FirstSeen(keys)) && forall k :: k in FirstSeen(keys) <==> k in keys
  {
    if keys != [] {
      FirstSeenLaws(keys[..|keys| - 1]);
      assert keys == keys[..|keys| - 1] + [keys[|keys| - 1]];
    }
  }

  lemma {:induction false} UpsertIds(nodes: seq<ProcessNode>, kind: string, id: string, name: string, cite: bool)
    ensures var key, after := NodeKey(kind, id), Upserted(nodes, kind, id, name, cite);
      Ids(after) == if key in Ids(nodes) then Ids(nodes) else Ids(nodes) + [key]
  {
    var key := NodeKey(kind, id);
    hide NodeKey;
    var k := FindNode(nodes, key);
    if k < |nodes| { assert Ids(nodes)[k] == key; }
  }

  lemma {:induction false} UpsertKeeps(nodes: seq<ProcessNode>, kind: string, id: string, name: string, cite: bool,
          keys: seq<string>, cited: seq<string>)
    requires Ids(nodes) == FirstSeen(keys) && forall c | c in cited :: c in keys
    requires forall n | n in nodes :: n.hit && n.physics == None && (n.cited <==> n.id in cited)
    ensures var key, after := NodeKey(kind, id), Upserted(nodes, kind, id, name, cite);
      && Ids(after) == FirstSeen(keys + [key])
      && forall n | n in after :: n.hit && n.physics == None
           && (n.cited <==> n.id in (if cite then cited + [key] else cited))
  {
    var key, after := NodeKey(kind, id), Upserted(nodes, kind, id, name, cite);
    UpsertIds(nodes, kind, id, name, cite);
    assert (keys + [key])[..|keys|] == keys;
    FirstSeenLaws(keys);
    FirstSeenLaws(keys + [key]);
    CitationsKept(nodes, kind, id, name, cite, cited);
  }

  lemma {:induction false} CitationsKept(nodes: seq<ProcessNode>, kind: string, id: string, name: string, cite: bool,
          cited: seq<string>)
    requires Distinct(Ids(nodes)) && forall n | n in nodes :: n.hit && n.physics == None && (n.cited <==> n.id in cited)
    requires NodeKey(kind, id) !in Ids(nodes) ==> NodeKey(kind, id) !in cited
    ensures var key, after := NodeKey(kind, id), Upserted(nodes, kind, id, name, cite);
      forall n | n in after ::
        n.hit && n.physics == None && (n.cited <==> n.id in (if cite then cited + [key] else cited))
  {
    var key, after := NodeKey(kind, id), Upserted(nodes, kind, id, name, cite);
    hide NodeKey, BetterName;
    var k := FindNode(nodes, key);
    forall i | 0 <= i < |after|
      ensures after[i].hit && after[i].physics == None
      ensures after[i].cited <==> after[i].id in (if cite then cited + [key] else cited)
    {
      if i < |nodes| {
        assert nodes[i] in nodes && Ids(nodes)[i] == nodes[i].id;
        if k < |nodes| { assert Ids(nodes)[k] == key; }
      }
    }
  }

  /** One upsert keeps the first human label of every node. */
  lemma {:induction false} UpsertNames(nodes: seq<ProcessNode>, kind: string, id: string, name: string, cite: bool,
          names: seq<Naming>)
    requires Distinct(Ids(nodes)) && Named(nodes, names)
    ensures Named(Upserted(nodes, kind, id, name, cite), names + [Naming(NodeKey(kind, id), name)])
  {
    var key, after := NodeKey(kind, id), Upserted(nodes, kind, id, name, cite);
    var names' := names + [Naming(key, name)];
    UpsertIds(nodes, kind, id, name, cite);
    hide NodeKey, Weak, HumanName;
    var k := FindNode(nodes, key);
    if k < |nodes| { assert Ids(nodes)[k] == key; }
    if k == |nodes| { NeverNamed(names, key, Ids(nodes)); }
    forall i | 0 <= i < |after| ensures NameFits(after[i], HumanName(names', after[i].id)) {
      if i < |nodes| {
        assert nodes[i] in nodes && Ids(nodes)[i] == nodes[i].id;
        assert NameFits(nodes[i], HumanName(names, nodes[i].id));
        WeakCases(nodes[i].id, name);
        HumanIsNotWeak(names, nodes[i].id);
        HumanStep(names, Naming(key, name), nodes[i].id);
      } else {
        WeakCases(key, name);
        HumanStep(names, Naming(key, name), key);
      }
    }
  }

  lemma {:induction false} HumanStep(names: seq<Naming>, x: Naming, key: string)
    ensures HumanName(names + [x], key) ==
      if HumanName(names, key) == None && x.key == key && !Weak(key, x.name) then Some(x.name)
          else HumanName(names, key)
  {
    assert (names + [x])[..|names|] == names;
  }

  lemma {:induction false} WeakCases(id: string, name: string)
    ensures Weak(id, "") && Weak(id, id)
  {
  }

  lemma {:induction false} HumanIsNotWeak(names: seq<Naming>, key: string)
    ensures HumanName(names, key).Some? ==> !Weak(key, HumanName(names, key).value)
  {
    hide Weak;
    if names != [] { HumanIsNotWeak(names[..|names| - 1], key); }
  }

  lemma {:induction false} NeverNamed(names: seq<Naming>, key: string, ids: seq<string>)
    requires key !in ids && forall x | x in names :: x.key in ids
    ensures HumanName(names, key) == None
  {
    if names != [] {
      assert forall x | x in names[..|names| - 1] :: x in names;
      NeverNamed(names[..|names| - 1], key, ids);
      assert names[|names| - 1] in names;
    }
  }

  /** A stub is no human label. */
  lemma {:induction false} StubNamesNothing(nodes: seq<ProcessNode>, names: seq<Naming>, key: string, sourceId: string)
    requires Named(nodes, names + [Naming(key, Stub(sourceId))])
    ensures Named(nodes, names)
  {
    var names' := names + [Naming(key, Stub(sourceId))];
    assert names'[..|names|] == names && Weak(key, Stub(sourceId));
    forall n | n in nodes ensures NameFits(n, HumanName(names, n.id)) {
      assert NameFits(n, HumanName(names', n.id));
    }
    assert forall x | x in names :: x in names';
  }

  lemma {:induction false} SeenAlready(nodes: seq<ProcessNode>, keys: seq<string>, key: string)
    requires Ids(nodes) == FirstSeen(keys) && FindNode(nodes, key) < |nodes|
    ensures FirstSeen(keys + [key]) == FirstSeen(keys)
  {
    assert (keys + [key])[..|keys|] == keys;
    assert Ids(nodes)[FindNode(nodes, key)] == key;
  }

  // ------------------------------------------------------------------ the whole fold

  lemma {:induction false} Associate(a: seq<string>, b: seq<string>, c: seq<string>)
    ensures (a + b) + c == a + (b + c)
  {
  }

  lemma {:induction false} HitKeysConcat(a: seq<Hit>, b: seq<Hit>)
    ensures HitKeys(a + b) == HitKeys(a) + HitKeys(b)
  {
    hide KeysOfHit;
    if b == [] {
      assert a + b == a;
    } else {
      HitKeysConcat(a, b[..|b| - 1]);
      InitOfConcat(a, b);
      Associate(HitKeys(a), HitKeys(b[..|b| - 1]), KeysOfHit(b[|b| - 1]));
    }
  }

  lemma {:induction false} WantedConcat(a: seq<Hit>, b: seq<Hit>)
    ensures WantedEdges(a + b) == WantedEdges(a) + WantedEdges(b)
  {
    hide HitKey, SourceKey, HasSource;
    if b == [] {
      assert a + b == a;
    } else {
      WantedConcat(a, b[..|b| - 1]);
      InitOfConcat(a, b);
    }
  }

  lemma {:induction false} HitNamesConcat(a: seq<Hit>, b: seq<Hit>)
    ensures HitNames(a + b) == HitNames(a) + HitNames(b)
  {
    hide HitKey;
    if b == [] {
      assert a + b == a;
    } else {
      HitNamesConcat(a, b[..|b| - 1]);
      InitOfConcat(a, b);
    }
  }

  lemma {:induction false} HitsConcat(a: seq<Hit>, b: seq<Hit>)
    ensures HitKeys(a + b) == HitKeys(a) + HitKeys(b) && WantedEdges(a + b) == WantedEdges(a) + WantedEdges(b)
    ensures HitNames(a + b) == HitNames(a) + HitNames(b)
  {
    HitKeysConcat(a, b);
    WantedConcat(a, b);
    HitNamesConcat(a, b);
  }

  lemma {:induction false} HitsStep(a: seq<Hit>, h: Hit)
    ensures HitKeys(a + [h]) == HitKeys(a) + KeysOfHit(h) && WantedEdges(a + [h]) == WantedEdges(a) + WantedEdges([h])
    ensures HitNames(a + [h]) == HitNames(a) + [Naming(HitKey(h), h.name)]
  {
    HitsConcat(a, [h]);
    assert [h][..0] == [] && HitKeys([h]) == HitKeys([]) + KeysOfHit(h);
  }

  method IngestHits(g: GraphBuilder, hits: seq<Hit>, ghost before: seq<Hit>)
    requires g.Holds(HitKeys(before), WantedEdges(before), [], HitNames(before))
    modifies g
    ensures g.Holds(HitKeys(before + hits), WantedEdges(before + hits), [], HitNames(before + hits))
  {
    hide GraphBuilder.Holds, KeysOfHit, HitKeys, WantedEdges, HitNames;
    assert before + hits[..0] == before;
    for k := 0 to |hits|
      invariant g.Holds(HitKeys(before + hits[..k]), WantedEdges(before + hits[..k]), [], HitNames(before + hits[..k]))
    {
      HitsStep(before + hits[..k], hits[k]);
      assert before + hits[..k] + [hits[k]] == before + hits[..k + 1];
      g.IngestHit(hits[k], HitKeys(before + hits[..k]), WantedEdges(before + hits[..k]), HitNames(before + hits[..k]));
    }
    assert hits[..|hits|] == hits;
  }

  method IngestEvents(g: GraphBuilder, events: seq<AskEvent>)
    requires g.Holds([], [], [], [])
    modifies g
    ensures g.Holds(HitKeys(EventHits(events)), WantedEdges(EventHits(events)), [], HitNames(EventHits(events)))
  {
    hide GraphBuilder.Holds, KeysOfHit, Named;
    assert events[..0] == [];
    for k := 0 to |events|
      invariant g.Holds(HitKeys(EventHits(events[..k])), WantedEdges(EventHits(events[..k])), [],
          HitNames(EventHits(events[..k])))
    {
      var ev := events[k];
      assert events[..k + 1][..k] == events[..k];
      ghost var before := EventHits(events[..k]);
      if ev.event == "tool_finished" && ev.hits.Some? {
        IngestHits(g, ev.hits.value, before);
      } else {
        assert before + [] == before;
      }
    }
    assert events[..|events|] == events;
  }

  method IngestTrace(g: GraphBuilder, trace: seq<TraceEntry>, ghost before: seq<Hit>)
    requires g.Holds(HitKeys(before), WantedEdges(before), [], HitNames(before))
    modifies g
    ensures g.Holds(HitKeys(before + TraceHits(trace)), WantedEdges(before + TraceHits(trace)), [],
        HitNames(before + TraceHits(trace)))
  {
    hide GraphBuilder.Holds, HitKeys, WantedEdges, HitNames;
    assert before + TraceHits([]) == before && trace[..0] == [];
    for k := 0 to |trace|
      invariant g.Holds(HitKeys(before + TraceHits(trace[..k])), WantedEdges(before + TraceHits(trace[..k])), [],
          HitNames(before + TraceHits(trace[..k])))
    {
      assert trace[..k + 1][..k] == trace[..k];
      ghost var soFar := TraceHits(trace[..k]);
      var hits := HitsOf(trace[k].hits);
      IngestHits(g, hits, before + soFar);
      assert before + soFar + hits == before + (soFar + hits);
    }
    assert trace[..|trace|] == trace;
  }

  method BuildProcessGraph(feed: Feed) returns (nodes: seq<ProcessNode>, edges: seq<ProcessEdge>)
    ensures Ids(nodes) == FirstSeen(FeedKeys(feed)) && edges == FirstEdges(WantedEdges(AllHits(feed)))
    ensures forall n | n in nodes :: n.hit && n.physics == None && (n.cited <==> n.id in CitationKeys(feed.citations))
    ensures forall n | n in nodes :: NameFits(n, HumanName(FeedNames(feed), n.id))
  {
    hide FirstSeen, FirstEdges, HitKeys, WantedEdges, EventHits, TraceHits, CitationKeys, HitNames, CitationNames,
        HumanName;
    var g := new GraphBuilder();
    IngestEvents(g, feed.events);
    IngestTrace(g, feed.toolTrace, EventHits(feed.events));
    IngestCitations(g, feed);
    nodes, edges := g.nodes, g.edges;
  }

  method IngestCitations(g: GraphBuilder, feed: Feed)
    requires g.Holds(HitKeys(AllHits(feed)), WantedEdges(AllHits(feed)), [], HitNames(AllHits(feed)))
    modifies g
    ensures g.Holds(FeedKeys(feed), WantedEdges(AllHits(feed)), CitationKeys(feed.citations), FeedNames(feed))
  {
    ghost var hitKeys, wanted, hitNames := HitKeys(AllHits(feed)), WantedEdges(AllHits(feed)), HitNames(AllHits(feed));
    hide GraphBuilder.Holds, CitationKind, CitationNodeId, NodeKey;
    assert hitKeys + [] == hitKeys && hitNames + [] == hitNames && feed.citations[..0] == [];
    for k := 0 to |feed.citations|
      invariant g.Holds(hitKeys + CitationKeys(feed.citations[..k]), wanted, CitationKeys(feed.citations[..k]),
          hitNames + CitationNames(feed.citations[..k]))
    {
      var c := feed.citations[k];
      assert feed.citations[..k + 1][..k] == feed.citations[..k];
      ghost var seen, named := CitationKeys(feed.citations[..k]), CitationNames(feed.citations[..k]);
      assert hitKeys + seen + [CitationKey(c)] == hitKeys + (seen + [CitationKey(c)]);
      assert hitNames + named + [CitationNaming(c)] == hitNames + (named + [CitationNaming(c)]);
      g.UpsertNode(CitationKind(c), CitationNodeId(c), if c.title != "" then c.title else c.id, true,
        hitKeys + seen, wanted, seen, hitNames + named);
    }
    assert feed.citations[..|feed.citations|] == feed.citations;
  }

  // ------------------------------------------------------------------ what every graph satisfies

  lemma {:induction false} FirstEdgesStep(wanted: seq<ProcessEdge>, e: ProcessEdge)
    ensures FirstEdges(wanted + [e]) ==
      if e.source == e.target || EdgeKey(e) in EdgeKeys(FirstEdges(wanted)) then FirstEdges(wanted)
          else FirstEdges(wanted) + [e]
  {
    hide EdgeKey, EdgeKeys;
    assert (wanted + [e])[..|wanted|] == wanted;
  }

  lemma {:induction false} EdgeKeysStep(edges: seq<ProcessEdge>, e: ProcessEdge)
    ensures EdgeKeys(edges + [e]) == EdgeKeys(edges) + {EdgeKey(e)}
  {
    hide EdgeKey;
  }

  predicate DistinctKeys(edges: seq<ProcessEdge>) {
    forall i, j | 0 <= i < j < |edges| :: EdgeKey(edges[i]) != EdgeKey(edges[j])
  }

  lemma {:induction false} DistinctKeysStep(edges: seq<ProcessEdge>, e: ProcessEdge)
    requires DistinctKeys(edges) && EdgeKey(e) !in EdgeKeys(edges)
    ensures DistinctKeys(edges + [e])
  {
    hide EdgeKey;
    assert forall i | 0 <= i < |edges| :: edges[i] in edges && EdgeKey(edges[i]) in EdgeKeys(edges);
  }

  /** Kept edges are wanted and no self-loops, their keys differ, and no wanted key is missing. */
  lemma {:induction false} FirstEdgesLaws(wanted: seq<ProcessEdge>)
    ensures forall e | e in FirstEdges(wanted) :: e in wanted && e.source != e.target
    ensures DistinctKeys(FirstEdges(wanted))
    ensures forall e | e in wanted && e.source != e.target :: EdgeKey(e) in EdgeKeys(FirstEdges(wanted))
  {
    if wanted != [] {
      var before, e := wanted[..|wanted| - 1], wanted[|wanted| - 1];
      FirstEdgesLaws(before);
      assert wanted == before + [e];
      FirstEdgesStep(before, e);
      EdgeKeysStep(FirstEdges(before), e);
      hide EdgeKey, EdgeKeys, FirstEdges, DistinctKeys;
      if EdgeKey(e) !in EdgeKeys(FirstEdges(before)) { DistinctKeysStep(FirstEdges(before), e); }
    }
  }

  lemma {:induction false} WantedEndpoints(hits: seq<Hit>, e: ProcessEdge)
    requires e in WantedEdges(hits)
    ensures e.source in HitKeys(hits) && e.target in HitKeys(hits)
  {
    var before, h := hits[..|hits| - 1], hits[|hits| - 1];
    if e in WantedEdges(before) { WantedEndpoints(before, e); }
  }

  /** Unique node ids; unique edges without self-loops, both ends present. */
  lemma {:induction false} GraphIsWellFormed(feed: Feed, nodes: seq<ProcessNode>, edges: seq<ProcessEdge>)
    requires Ids(nodes) == FirstSeen(FeedKeys(feed)) && edges == FirstEdges(WantedEdges(AllHits(feed)))
    ensures forall i, j | 0 <= i < j < |nodes| :: nodes[i].id != nodes[j].id
    ensures forall i, j | 0 <= i < j < |edges| :: edges[i] != edges[j]
    ensures forall e | e in edges :: e.source != e.target && e.source in Ids(nodes) && e.target in Ids(nodes)
  {
    FirstSeenLaws(FeedKeys(feed));
    FirstEdgesLaws(WantedEdges(AllHits(feed)));
    forall i, j | 0 <= i < j < |nodes| ensures nodes[i].id != nodes[j].id { assert Ids(nodes)[i] != Ids(nodes)[j]; }
    forall e | e in edges ensures e.source in Ids(nodes) && e.target in Ids(nodes) {
      WantedEndpoints(AllHits(feed), e);
    }
  }

  ghost predicate AllKept(wanted: seq<ProcessEdge>) {
    forall e | e in wanted && e.source != e.target :: e in FirstEdges(wanted)
  }

  ghost predicate KeysDistinct(wanted: seq<ProcessEdge>) {
    forall e, f | e in wanted && f in wanted && e.source != e.target && f.source != f.target
        && EdgeKey(e) == EdgeKey(f) ::
      e == f
  }

  /** No wanted edge is lost exactly when no two different ones share their key. */
  lemma {:induction false} EdgesCompleteIff(wanted: seq<ProcessEdge>)
    ensures AllKept(wanted) <==> KeysDistinct(wanted)
  {
    hide EdgeKey;
    FirstEdgesLaws(wanted);
    var kept := FirstEdges(wanted);
    if AllKept(wanted) {
      forall e, f | e in wanted && f in wanted && e.source != e.target && f.source != f.target
          && EdgeKey(e) == EdgeKey(f)
        ensures e == f
      {
        var i :| 0 <= i < |kept| && kept[i] == e;
        var j :| 0 <= j < |kept| && kept[j] == f;
      }
    }
    if KeysDistinct(wanted) {
      forall e | e in wanted && e.source != e.target ensures e in kept {
        assert EdgeKey(e) in EdgeKeys(kept);
        var f :| f in kept && EdgeKey(f) == EdgeKey(e);
      }
    }
  }

  // ------------------------------------------------------------------ edges that share a key

  function EdgeOf(h: Hit): ProcessEdge {
    ProcessEdge(HitKey(h), SourceKey(h), if h.kind == "claim" then Cites else From)
  }

  /** The hit asks for an edge that is no self-loop. */
  predicate Links(h: Hit) { HasSource(h) && HitKey(h) != SourceKey(h) }

  lemma {:induction false} WantedByHits(hits: seq<Hit>, e: ProcessEdge)
    ensures e in WantedEdges(hits) <==> exists h :: h in hits && HasSource(h) && EdgeOf(h) == e
  {
    if hits != [] {
      var before, h := hits[..|hits| - 1], hits[|hits| - 1];
      WantedByHits(before, e);
      hide HitKey, SourceKey, HasSource;
      assert hits == before + [h];
      assert WantedEdges(hits) == if HasSource(h) then WantedEdges(before) + [EdgeOf(h)] else WantedEdges(before);
      assert forall g :: g in hits <==> g in before || g == h;
    }
  }

  lemma {:induction false} SourceKeyPrefix(h: Hit)
    ensures "source:" <= SourceKey(h)
  {
  }

  /** The edges of `g` and `h` are of one type, and the key of `g`'s node goes on, after a bar, with
      what the key of `h`'s source begins with, the rest being the key of `g`'s source. */
  predicate Clash(h: Hit, g: Hit) {
    && EdgeOf(h).edgeType == EdgeOf(g).edgeType
    && HitKey(h) + "|" <= HitKey(g)
    && SourceKey(h) == HitKey(g)[|HitKey(h)| + 1..] + "|" + SourceKey(g)
  }

  lemma {:induction false} KeyRest(e: ProcessEdge, f: ProcessEdge)
    ensures EdgeKey(e) == EdgeKey(f) <==>
      e.edgeType == f.edgeType && e.source + "|" + e.target == f.source + "|" + f.target
  {
    var a, b := EdgeKey(e), EdgeKey(f);
    assert a[0] == TypeName(e.edgeType)[0] && b[0] == TypeName(f.edgeType)[0];
    assert "cites"[0] == 'c' && "from"[0] == 'f';
    var t, u := TypeName(e.edgeType) + "|", TypeName(f.edgeType) + "|";
    assert a == t + (e.source + "|" + e.target) && b == u + (f.source + "|" + f.target);
    if a == b {
      assert a[|t|..] == e.source + "|" + e.target && b[|u|..] == f.source + "|" + f.target;
    }
  }

  /** Two ways of writing one text around a bar, the first cut no later. */
  lemma {:induction false} SplitsAgree(s: string, t: string, s': string, t': string)
    requires |s| <= |s'|
    ensures s + "|" + t == s' + "|" + t' <==>
      (s == s' && t == t') || (s + "|" <= s' && t == s'[|s| + 1..] + "|" + t')
  {
    var x, y, n := s + "|" + t, s' + "|" + t', |s|;
    assert x[..n] == s && x[n] == '|' && x[n + 1..] == t;
    assert y[..|s'|] == s' && y[|s'|] == '|' && y[|s'| + 1..] == t';
    if |s| == |s'| {
      if x == y { assert s == x[..n] == y[..n] == s'; }
    } else {
      var u := s'[n + 1..];
      assert y[n + 1..] == u + "|" + t';
      if s + "|" <= s' && t == u + "|" + t' {
        assert s' == (s + "|") + u;
        assert x == (s + "|") + (u + "|" + t') == y;
      }
      if x == y {
        assert s'[..n + 1] == y[..n + 1] == x[..n + 1] == s + "|";
      }
    }
  }

  /** Keys of edges between ids without a bar tell the edges apart. */
  lemma {:induction false} EdgeKeyInjective(e: ProcessEdge, f: ProcessEdge)
    requires '|' !in e.source && '|' !in f.source && EdgeKey(e) == EdgeKey(f)
    ensures e == f
  {
    KeyRest(e, f);
    hide EdgeKey;
    if |e.source| <= |f.source| {
      SplitsAgree(e.source, e.target, f.source, f.target);
      BarInside(e.source, f.source);
    } else {
      SplitsAgree(f.source, f.target, e.source, e.target);
      BarInside(f.source, e.source);
    }
  }

  lemma {:induction false} BarInside(s: string, t: string)
    ensures s + "|" <= t ==> '|' in t
  {
    if s + "|" <= t { assert t[|s|] == (s + "|")[|s|]; }
  }

  /** Different edges of two hits share a key exactly when the hits clash, one way or the other. */
  lemma {:induction false} SharedKeyIff(h: Hit, g: Hit)
    ensures EdgeOf(h) != EdgeOf(g) && EdgeKey(EdgeOf(h)) == EdgeKey(EdgeOf(g)) <==> Clash(h, g) || Clash(g, h)
  {
    KeyRest(EdgeOf(h), EdgeOf(g));
    hide HitKey, SourceKey, EdgeKey;
    var s, t, s', t' := HitKey(h), SourceKey(h), HitKey(g), SourceKey(g);
    if |s| <= |s'| { SplitsAgree(s, t, s', t'); } else { SplitsAgree(s', t', s, t); }
  }

  /** A text has the prefix of a source key in front of a bar, or not at all. */
  lemma {:induction false} BarEndsPrefix(s: string, t: string)
    ensures "source:" <= s <==> "source:" <= s + "|" + t
  {
    var u := s + "|" + t;
    assert u[|s|] == '|' && u[..|s|] == s;
    assert forall k | 0 <= k < 7 :: "source:"[k] != '|';
    assert |s| >= 7 ==> s[..7] == u[..7];
  }

  lemma {:induction false} NestedBehind(s: string, u: string)
    requires "source:" <= u
    ensures Nested(s + "|" + u)
  {
    var key := s + "|" + u;
    assert key[|s|..] == "|" + u && "|source:" == "|" + "source:" && u == "source:" + u[7..];
    assert key[|s|..] == "|source:" + u[7..];
  }

  /** A clash needs the key of a node and the key of a source that both nest a source key. */
  lemma {:induction false} ClashNeedsNesting(h: Hit, g: Hit)
    requires Clash(h, g)
    ensures Nested(HitKey(g)) && Nested(SourceKey(h))
  {
    SourceKeyPrefix(h);
    SourceKeyPrefix(g);
    hide HitKey, SourceKey, Nested;
    var u := HitKey(g)[|HitKey(h)| + 1..];
    BarEndsPrefix(u, SourceKey(g));
    assert HitKey(g) == HitKey(h) + "|" + u;
    NestedBehind(HitKey(h), u);
    NestedBehind(u, SourceKey(g));
  }

  ghost predicate NoClash(hits: seq<Hit>) {
    forall h, g | h in hits && g in hits && Links(h) && Links(g) :: !Clash(h, g)
  }

  lemma {:induction false} DistinctMeansNoClash(hits: seq<Hit>, h: Hit, g: Hit)
    requires KeysDistinct(WantedEdges(hits)) && h in hits && g in hits && Links(h) && Links(g)
    ensures !Clash(h, g)
  {
    SharedKeyIff(h, g);
    WantedByHits(hits, EdgeOf(h));
    WantedByHits(hits, EdgeOf(g));
    hide HitKey, SourceKey, EdgeKey, Clash, WantedEdges;
  }

  lemma {:induction false} NoClashMeansDistinct(hits: seq<Hit>, e: ProcessEdge, f: ProcessEdge)
    requires NoClash(hits) && e in WantedEdges(hits) && f in WantedEdges(hits)
    requires e.source != e.target && f.source != f.target && EdgeKey(e) == EdgeKey(f)
    ensures e == f
  {
    WantedByHits(hits, e);
    WantedByHits(hits, f);
    hide HitKey, SourceKey, EdgeKey, Clash, WantedEdges;
    var h :| h in hits && HasSource(h) && EdgeOf(h) == e;
    var g :| g in hits && HasSource(g) && EdgeOf(g) == f;
    SharedKeyIff(h, g);
  }

  /** The graph of a feed holds every edge its hits ask for exactly when no two of its linking hits clash. */
  lemma {:induction false} FeedKeepsEdgesIff(feed: Feed)
    ensures AllKept(WantedEdges(AllHits(feed))) <==> NoClash(AllHits(feed))
  {
    var hits, wanted := AllHits(feed), WantedEdges(AllHits(feed));
    EdgesCompleteIff(wanted);
    hide HitKey, SourceKey, EdgeKey, Clash, AllHits, FirstEdges, WantedEdges, Links;
    if NoClash(hits) {
      forall e, f | e in wanted && f in wanted && e.source != e.target && f.source != f.target
          && EdgeKey(e) == EdgeKey(f)
        ensures e == f
      {
        NoClashMeansDistinct(hits, e, f);
      }
    }
    if KeysDistinct(wanted) {
      forall h, g | h in hits && g in hits && Links(h) && Links(g) ensures !Clash(h, g) {
        DistinctMeansNoClash(hits, h, g);
      }
    }
  }

  /** A bar, and then the prefix of a source key. */
  predicate Nested(key: string) { exists i: nat :: i <= |key| && "|source:" <= key[i..] }

  /** So nothing is lost while no source's key, or no node's key, nests a source key behind a bar. */
  lemma {:induction false} PlainKeysKeepEdges(feed: Feed)
    requires (forall h | h in AllHits(feed) :: !Nested(SourceKey(h)))
        || (forall h | h in AllHits(feed) :: !Nested(HitKey(h)))
    ensures AllKept(WantedEdges(AllHits(feed)))
  {
    FeedKeepsEdgesIff(feed);
    hide HitKey, SourceKey, AllHits, WantedEdges, FirstEdges, Clash;
    forall h, g | h in AllHits(feed) && g in AllHits(feed) && Links(h) && Links(g) ensures !Clash(h, g) {
      if Clash(h, g) { ClashNeedsNesting(h, g); }
    }
  }

  lemma {:induction false} CardKey(id: string)
    requires ':' in id
    ensures NodeKey("card", id) == id
  {
    assert "card"[0] == 'c' && "source"[0] == 's' && |"claim"| == 5;
  }

  /** Feeds that lose an edge: a card and a source whose ids nest, against a second card and source that
      split the same text elsewhere, as `card:a` with `b|source:c` against `card:a|source:b` with `c`. */
  lemma {:induction false} BarsCollide(card: string, b: string, c: string, name: string)
    requires ':' in card && c != "" && !("source:" <= card) && !("source:" <= b) && !("source:" <= c)
    ensures var first := Hit("card", card, name, b + "|" + "source:" + c);
      var second := Hit("card", card + "|" + "source:" + b, name, c);
      var feed := Feed([AskEvent("tool_finished", Some([first, second]))], [], []);
      && EdgeOf(first) in WantedEdges(AllHits(feed)) && EdgeOf(second) in WantedEdges(AllHits(feed))
      && Links(second) && EdgeOf(first) != EdgeOf(second)
      && FirstEdges(WantedEdges(AllHits(feed))) == [EdgeOf(first)]
  {
    var first := Hit("card", card, name, b + "|" + "source:" + c);
    var second := Hit("card", card + "|" + "source:" + b, name, c);
    NestedIdsClash(card, b, c, name);
    SharedKeyIff(first, second);
    TwoHits(first, second);
  }

  lemma {:induction false} NestedIdsClash(card: string, b: string, c: string, name: string)
    requires ':' in card && c != "" && !("source:" <= card) && !("source:" <= b) && !("source:" <= c)
    ensures var first := Hit("card", card, name, b + "|" + "source:" + c);
      var second := Hit("card", card + "|" + "source:" + b, name, c);
      Clash(first, second) && Links(first) && Links(second)
  {
    var first := Hit("card", card, name, b + "|" + "source:" + c);
    var second := Hit("card", card + "|" + "source:" + b, name, c);
    assert second.id == card + "|" + ("source:" + b) && first.sourceId == b + "|" + ("source:" + c);
    BarEndsPrefix(card, "source:" + b);
    BarEndsPrefix(b, "source:" + c);
    CardLinks(first);
    CardLinks(second);
    assert "card" != "claim" by { assert |"card"| == 4 && |"claim"| == 5; }
    hide HitKey, SourceKey, Links;
    assert HitKey(second)[..|card| + 1] == card + "|" && HitKey(second)[|card| + 1..] == "source:" + b;
    assert SourceKey(first) == "source:" + b + "|" + ("source:" + c);
  }

  /** The keys of a card and of its source, neither of which names a source by prefix. */
  lemma {:induction false} CardLinks(h: Hit)
    requires h.kind == "card" && ':' in h.id && h.sourceId != "" && !("source:" <= h.id) && !("source:" <= h.sourceId)
    ensures HitKey(h) == h.id && SourceKey(h) == "source:" + h.sourceId && Links(h)
  {
    CardKey(h.id);
    assert |"card"| == 4 && |"source"| == 6;
    hide NodeKey;
    assert "source:" <= "source:" + h.sourceId;
  }

  /** Two hits of one feed whose edges differ and share a key. */
  lemma {:induction false} TwoHits(first: Hit, second: Hit)
    requires Links(first) && Links(second) && EdgeKey(EdgeOf(first)) == EdgeKey(EdgeOf(second))
    ensures var feed := Feed([AskEvent("tool_finished", Some([first, second]))], [], []);
      && WantedEdges(AllHits(feed)) == [EdgeOf(first), EdgeOf(second)]
      && FirstEdges(WantedEdges(AllHits(feed))) == [EdgeOf(first)]
  {
    hide HitKey, SourceKey, EdgeKey;
    var hits, edges := [first, second], [EdgeOf(first), EdgeOf(second)];
    var events := [AskEvent("tool_finished", Some(hits))];
    assert events[..0] == [] && EventHits(events) == [] + hits && AllHits(Feed(events, [], [])) == hits;
    assert hits[..1] == [first] && [first][..0] == [];
    assert WantedEdges([first]) == [EdgeOf(first)] && WantedEdges(hits) == edges;
    assert edges[..1] == [EdgeOf(first)] && [EdgeOf(first)][..0] == [];
    assert EdgeKeys([]) == {} && FirstEdges([EdgeOf(first)]) == [EdgeOf(first)];
    assert EdgeKey(EdgeOf(first)) in EdgeKeys([EdgeOf(first)]);
  }

  // ------------------------------------------------------------------ growing feeds

  lemma {:induction false} FirstSeenGrows(a: seq<string>, b: seq<string>)
    ensures FirstSeen(a) <= FirstSeen(a + b)
  {
    if b == [] {
      assert a + b == a;
    } else {
      FirstSeenGrows(a, b[..|b| - 1]);
      assert (a + b)[..|a + b| - 1] == a + b[..|b| - 1];
    }
  }

  lemma {:induction false} EventHitsGrow(a: seq<AskEvent>, b: seq<AskEvent>) returns (more: seq<Hit>)
    ensures EventHits(a + b) == EventHits(a) + more
  {
    if b == [] {
      assert a + b == a;
      more := [];
    } else {
      more := EventHitsGrow(a, b[..|b| - 1]);
      assert (a + b)[..|a + b| - 1] == a + b[..|b| - 1];
      var e := b[|b| - 1];
      more := more + (if e.event == "tool_finished" then HitsOf(e.hits) else []);
    }
  }

  /** While a turn is live - events only, and only ever more of them - earlier node ids stay, in
      place, in front of later ones. */
  lemma {:induction false} LiveIdsArePrefix(events: seq<AskEvent>, later: seq<AskEvent>)
    ensures FirstSeen(FeedKeys(Feed(events, [], []))) <= FirstSeen(FeedKeys(Feed(events + later, [], [])))
  {
    var more := EventHitsGrow(events, later);
    HitsConcat(EventHits(events), more);
    assert EventHits(events) + TraceHits([]) == EventHits(events);
    assert EventHits(events + later) + TraceHits([]) == EventHits(events + later);
    var keys := HitKeys(EventHits(events));
    assert keys + CitationKeys([]) == keys
        && HitKeys(EventHits(events + later)) + CitationKeys([]) == keys + HitKeys(more);
    FirstSeenGrows(keys, HitKeys(more));
  }

  /** Every key the earlier feed had, the later one has. */
  predicate Grows(earlier: Feed, later: Feed) {
    earlier.events <= later.events && earlier.toolTrace <= later.toolTrace && earlier.citations <= later.citations
  }

  lemma {:induction false} TraceHitsGrow(a: seq<TraceEntry>, b: seq<TraceEntry>) returns (more: seq<Hit>)
    ensures TraceHits(a + b) == TraceHits(a) + more
  {
    if b == [] {
      assert a + b == a;
      more := [];
    } else {
      more := TraceHitsGrow(a, b[..|b| - 1]);
      assert (a + b)[..|a + b| - 1] == a + b[..|b| - 1];
      more := more + HitsOf(b[|b| - 1].hits);
    }
  }

  lemma {:induction false} CitationKeysGrow(a: seq<Citation>, b: seq<Citation>) returns (more: seq<string>)
    ensures CitationKeys(a + b) == CitationKeys(a) + more
  {
    hide CitationKey;
    if b == [] {
      assert a + b == a;
      more := [];
    } else {
      more := CitationKeysGrow(a, b[..|b| - 1]);
      assert (a + b)[..|a + b| - 1] == a + b[..|b| - 1];
      more := more + [CitationKey(b[|b| - 1])];
    }
  }

  lemma {:induction false} GrowingKeys(earlier: Feed, later: Feed)
    requires Grows(earlier, later)
    ensures forall k | k in FeedKeys(earlier) :: k in FeedKeys(later)
  {
    hide HitKeys, CitationKeys, EventHits, TraceHits, WantedEdges;
    var moreEvents := EventHitsGrow(earlier.events, later.events[|earlier.events|..]);
    var moreTrace := TraceHitsGrow(earlier.toolTrace, later.toolTrace[|earlier.toolTrace|..]);
    var moreCited := CitationKeysGrow(earlier.citations, later.citations[|earlier.citations|..]);
    assert earlier.events + later.events[|earlier.events|..] == later.events;
    assert earlier.toolTrace + later.toolTrace[|earlier.toolTrace|..] == later.toolTrace;
    assert earlier.citations + later.citations[|earlier.citations|..] == later.citations;
    HitsConcat(EventHits(earlier.events), TraceHits(earlier.toolTrace));
    HitsConcat(EventHits(later.events), TraceHits(later.toolTrace));
    HitsConcat(EventHits(earlier.events), moreEvents);
    HitsConcat(TraceHits(earlier.toolTrace), moreTrace);
  }

  function Members(s: seq<string>): set<string> { set k | k in s }

  lemma {:induction false} DistinctSize(s: seq<string>)
    requires Distinct(s)
    ensures |Members(s)| == |s|
  {
    if s != [] {
      var init, last := s[..|s| - 1], s[|s| - 1];
      DistinctSize(init);
      assert Members(s) == Members(init) + {last} && last !in Members(init);
    }
  }

  /** However a feed grows - events, tool trail or citations - an unchanged node count means an unchanged
      set of nodes: reheating only on growth misses nothing. */
  lemma {:induction false} SameCountSameNodes(earlier: Feed, later: Feed)
    requires Grows(earlier, later)
    ensures var a, b := FirstSeen(FeedKeys(earlier)), FirstSeen(FeedKeys(later));
      && Members(a) <= Members(b) && |a| <= |b| && (|a| == |b| ==> Members(a) == Members(b))
  {
    var a, b := FirstSeen(FeedKeys(earlier)), FirstSeen(FeedKeys(later));
    FirstSeenLaws(FeedKeys(earlier));
    FirstSeenLaws(FeedKeys(later));
    GrowingKeys(earlier, later);
    DistinctSize(a);
    DistinctSize(b);
    if |a| == |b| { SubsetOfSameSize(Members(a), Members(b)); }
    SubsetSize(Members(a), Members(b));
  }

  // ------------------------------------------------------------------ physics hand-over

  function PreservePhysics(nodes: seq<ProcessNode>, prevNodes: seq<ProcessNode>): (r: seq<ProcessNode>)
    ensures |r| == |nodes|
  {
    seq(|nodes|, k requires 0 <= k < |nodes| =>
      var p := FindNode(prevNodes, nodes[k].id);
      if p < |prevNodes| then nodes[k].(physics := prevNodes[p].physics) else nodes[k])
  }

  /** The refreshed nodes keep their order and contents; nodes seen before take over their position and
      velocity, new ones have none. */
  lemma {:induction false} PhysicsCarriedOver(nodes: seq<ProcessNode>, prev: seq<ProcessNode>, k: nat)
    requires k < |nodes| && nodes[k].physics == None && Distinct(Ids(prev))
    ensures var r := PreservePhysics(nodes, prev)[k];
      && r.(physics := None) == nodes[k]
      && (forall p | p in prev && p.id == r.id :: r.physics == p.physics)
      && (nodes[k].id !in Ids(prev) ==> r.physics == None)
  {
    var i := FindNode(prev, nodes[k].id);
    forall p | p in prev && p.id == nodes[k].id ensures i < |prev| && prev[i] == p {
      var j :| 0 <= j < |prev| && prev[j] == p;
      assert Ids(prev)[j] == p.id;
      assert i < |prev| && Ids(prev)[i] == nodes[k].id;
    }
    if i < |prev| { assert Ids(prev)[i] == nodes[k].id; }
  }

  /** A refresh that does not change the node count finds a settled position for every node. */
  lemma {:induction false} QuietRefreshKeepsLayout(earlier: Feed, later: Feed, prev: seq<ProcessNode>,
          nodes: seq<ProcessNode>, k: nat)
    requires Grows(earlier, later) && Ids(prev) == FirstSeen(FeedKeys(earlier))
        && Ids(nodes) == FirstSeen(FeedKeys(later))
    requires |nodes| == |prev| && k < |nodes| && forall n | n in nodes :: n.physics == None
    ensures exists p | p in prev :: p.id == nodes[k].id && PreservePhysics(nodes, prev)[k].physics == p.physics
  {
    hide FirstSeen, FeedKeys, Grows;
    SameCountSameNodes(earlier, later);
    FirstSeenLaws(FeedKeys(earlier));
    assert Ids(nodes)[k] in Members(Ids(nodes)) && Ids(nodes)[k] in Members(Ids(prev));
    var i :| 0 <= i < |Ids(prev)| && Ids(prev)[i] == nodes[k].id;
    assert prev[i] in prev && nodes[k] in nodes;
    PhysicsCarriedOver(nodes, prev, k);
  }

  // ------------------------------------------------------------------ keys and what a hit asks for

  /** A key is its own key. */
  lemma {:induction false} NodeKeyIsStable(kind: string, id: string)
    ensures NodeKey(kind, NodeKey(kind, id)) == NodeKey(kind, id)
  {
    var key := NodeKey(kind, id);
    assert kind == "source" ==> "source:" <= key;
    assert kind == "claim" && !("claim:" <= id) ==> key == "claim:" + id && key[1] == 'l' && key[5] == ':';
    assert kind == "claim" && "claim:" <= id ==> id[1] == 'l' && id[5] == ':' && key == id;
    assert kind != "source" && kind != "claim" && ':' !in id ==> key[|kind|] == ':';
  }

  /** An id with and without its kind in front names one node, under the kind and the bare id. Of the other kinds only
      ids with a colon are keys themselves. */
  lemma {:induction false} NodeKeyNamesKind(kind: string, id: string)
    ensures (kind == "source" || kind == "claim") && !(kind + ":" <= id) ==>
      NodeKey(kind, id) == NodeKey(kind, kind + ":" + id) == kind + ":" + id
    ensures kind != "source" && kind != "claim" ==> NodeKey(kind, id) == if ':' in id then id else kind + ":" + id
  {
    var full := kind + ":" + id;
    if kind == "source" || kind == "claim" {
      assert full[|kind|] == ':' && full[..|kind| + 1] == kind + ":" && full[1] == kind[1] != 'k';
    }
  }

  /** Wherever it stands a hit asks for its own node, and, unless it is a source or names none, for its source's node
      behind it and the edge between the two: a claim cites, anything else is from it. */
  lemma {:induction false} HitAsksFor(before: seq<Hit>, h: Hit, after: seq<Hit>)
    ensures var links := h.sourceId != "" && h.kind != "source";
      var node, source := NodeKey(h.kind, h.id), NodeKey("source", h.sourceId);
      && HitKeys(before + [h] + after) == HitKeys(before) + (if links then [node, source] else [node]) + HitKeys(after)
      && WantedEdges(before + [h] + after) == WantedEdges(before)
           + (if links then [ProcessEdge(node, source, if h.kind == "claim" then Cites else From)] else [])
           + WantedEdges(after)
  {
    hide NodeKey;
    WantedConcat(before + [h], after);
    WantedConcat(before, [h]);
    HitKeysConcat(before + [h], after);
    HitKeysConcat(before, [h]);
    assert [h][..0] == [];
  }

  lemma {:induction false} EventHitsConcat(a: seq<AskEvent>, b: seq<AskEvent>)
    ensures EventHits(a + b) == EventHits(a) + EventHits(b)
  {
    if b == [] {
      assert a + b == a;
    } else {
      InitOfConcat(a, b);
      EventHitsConcat(a, b[..|b| - 1]);
    }
  }

  /** Of the progress events only those named `tool_finished` contribute, each its hits in its place. */
  lemma {:induction false} EventContributes(before: seq<AskEvent>, e: AskEvent, after: seq<AskEvent>)
    ensures EventHits(before + [e] + after) == EventHits(before)
      + (if e.event == "tool_finished" && e.hits.Some? then e.hits.value else []) + EventHits(after)
  {
    EventHitsConcat(before + [e], after);
    EventHitsConcat(before, [e]);
    assert [e][..0] == [];
  }

  /** The first label that is neither empty nor the key nor a stub is the one a node shows. */
  lemma {:induction false} FirstHumanName(names: seq<Naming>, key: string, k: nat)
    requires k < |names| && names[k].key == key && IsHuman(key, names[k].name)
    requires forall j | 0 <= j < k && names[j].key == key :: !IsHuman(key, names[j].name)
    ensures HumanName(names, key) == Some(names[k].name)
  {
    var n := |names| - 1;
    NoHumanName(names[..k], key);
    if k < n { FirstHumanName(names[..n], key, k); }
  }

  predicate IsHuman(key: string, name: string) { name != "" && name != key && !("source " <= name) }

  lemma {:induction false} NoHumanName(names: seq<Naming>, key: string)
    requires forall x | x in names && x.key == key :: !IsHuman(key, x.name)
    ensures HumanName(names, key) == None
  {
    if names != [] {
      var n := |names| - 1;
      assert names[n] in names && forall x | x in names[..n] :: x in names;
      NoHumanName(names[..n], key);
    }
  }

  // ------------------------------------------------------------------ citations

  lemma {:induction false} FirstTokenOf(w: string, s: string)
    requires (forall c | c in w :: !IsSpace(c)) && (s == [] || IsSpace(s[0]))
    ensures FirstToken(w + s) == w
  {
    if w == [] {
      assert w + s == s;
    } else {
      assert w[0] in w && (w + s)[0] == w[0] && (w + s)[1..] == w[1..] + s;
      FirstTokenOf(w[1..], s);
    }
  }

  lemma {:induction false} RTrimKeepsWord(w: string, tail: string) returns (rest: string)
    requires w != [] && !IsSpace(w[|w| - 1]) && (tail == [] || IsSpace(tail[0]))
    ensures RTrim(w + tail) == w + rest && (rest == [] || IsSpace(rest[0]))
  {
    if tail == [] {
      rest := [];
      assert w + tail == w;
    } else if IsSpace(tail[|tail| - 1]) {
      assert (w + tail)[..|w + tail| - 1] == w + tail[..|tail| - 1];
      rest := RTrimKeepsWord(w, tail[..|tail| - 1]);
    } else {
      rest := tail;
    }
  }

  /** A token without white space and angle brackets of its own. */
  predicate IsToken(t: string) { t != [] && (forall c | c in t :: !IsSpace(c)) && t[0] != '<' && t[|t| - 1] != '>' }

  /** A citation of a source or a claim finds the node of the hit with that id, whatever white space or angle brackets
      stand around the id and whatever follows it. The id stands behind the first colon, if there is one; the kind is
      the citation's own, or else what stands before the colon, or else a claim. */
  lemma {:induction false} CitationFindsNode(c: Citation, kind: string, before: string, pad: string, open: string,
          token: string, close: string, tail: string)
    requires kind == "source" || kind == "claim"
    requires Blank(pad) && (open == "" || open == "<") && IsToken(token) && (close == "" || close == ">")
    requires tail == [] || IsSpace(tail[0])
    requires var rest := pad + (open + token + close) + tail;
      if ':' in c.id then ':' !in before && c.id == before + [':'] + rest else c.id == rest
    requires kind == if c.kind != "" then c.kind else if ':' in c.id then before else "claim"
    ensures CitationKey(c) == NodeKey(kind, token)
  {
    var w := open + token + close;
    CitationParts(c, before, pad + w + tail);
    TokenOf(pad, w, tail);
    hide NodeKey, Trim, FirstToken, CitationToken, CitationKind, Unbracket;
    Unbracketed(open, token, close);
  }

  lemma {:induction false} CitationParts(c: Citation, before: string, rest: string)
    requires if ':' in c.id then ':' !in before && c.id == before + [':'] + rest else c.id == rest
    ensures CitationKind(c) == if c.kind != "" then c.kind else if ':' in c.id then before else "claim"
    ensures CitationToken(c) == Unbracket(FirstToken(Trim(rest)))
  {
    hide Trim, FirstToken, Unbracket, IndexOf;
    if ':' in c.id {
      IndexOfFirst(before, ':', rest);
      assert c.id[..|before|] == before && c.id[|before| + 1..] == rest;
    }
    assert c.id[..|c.id|] == c.id;
  }

  /** Any other kind is cited by its whole id. */
  lemma {:induction false} OtherCitationFindsNode(c: Citation)
    requires c.kind != "" && c.kind != "source" && c.kind != "claim"
    ensures CitationKey(c) == NodeKey(c.kind, c.id)
  {
    hide NodeKey, CitationToken;
  }

  lemma {:induction false} TokenOf(pad: string, w: string, tail: string)
    requires Blank(pad) && w != [] && (forall c | c in w :: !IsSpace(c)) && (tail == [] || IsSpace(tail[0]))
    ensures FirstToken(Trim(pad + w + tail)) == w
  {
    assert w[0] in w && w[|w| - 1] in w && pad + w + tail == pad + (w + tail) && (w + tail)[0] == w[0];
    LTrimOf(pad, w + tail);
    var rest := RTrimKeepsWord(w, tail);
    FirstTokenOf(w, rest);
  }

  lemma {:induction false} Unbracketed(open: string, token: string, close: string)
    requires (open == "" || open == "<") && IsToken(token) && (close == "" || close == ">")
    ensures Unbracket(open + token + close) == token
  {
    var s := open + token + close;
    assert s[0] == (if open == "" then token[0] else '<');
    var t := if open == "" then s else s[1..];
    assert t == token + close;
  }

  lemma {:induction false} CitationNamesConcat(a: seq<Citation>, b: seq<Citation>)
    ensures CitationNames(a + b) == CitationNames(a) + CitationNames(b)
    ensures CitationKeys(a + b) == CitationKeys(a) + CitationKeys(b)
  {
    hide CitationKey;
    if b == [] {
      assert a + b == a;
    } else {
      CitationNamesConcat(a, b[..|b| - 1]);
      InitOfConcat(a, b);
    }
  }

  /** A hit gives its node its own label, a citation its title, or its id when it has none. */
  lemma {:induction false} LabelsGiven(hits: seq<Hit>, h: Hit, more: seq<Hit>, citations: seq<Citation>, c: Citation,
          others: seq<Citation>)
    ensures HitNames(hits + [h] + more) == HitNames(hits) + [Naming(NodeKey(h.kind, h.id), h.name)] + HitNames(more)
    ensures CitationNames(citations + [c] + others) == CitationNames(citations)
      + [Naming(CitationKey(c), if c.title == "" then c.id else c.title)] + CitationNames(others)
    ensures CitationKeys(citations + [c] + others) == CitationKeys(citations) + [CitationKey(c)] + CitationKeys(others)
  {
    hide NodeKey, CitationKey;
    HitNamesConcat(hits + [h], more);
    HitNamesConcat(hits, [h]);
    CitationNamesConcat(citations + [c], others);
    CitationNamesConcat(citations, [c]);
    assert [h][..0] == [] && [c][..0] == [];
  }
}
