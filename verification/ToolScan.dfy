/** The failure and success counters of the transcript scanners, and what they count. */
module ToolScan {
  import opened Collections
  import Strings

  // ------------------------------------------------------------------ histories

  datatype Kind = Denied | Hooked | Failed | Succeeded

  /** One resolved tool result. Denials and hook blocks are errors that no success can fix. */
  datatype Outcome = Outcome(tool: string, kind: Kind)

  type History = seq<Outcome>

  predicate Fails(o: Outcome, tool: string) { o == Outcome(tool, Failed) }

  predicate Succeeds(o: Outcome, tool: string) { o == Outcome(tool, Succeeded) }

  /** Failures of `tool` that no later success has closed. */
  function Open(h: History, tool: string): nat {
    if h == [] then 0
    else
      var before, last := Open(h[..|h| - 1], tool), h[|h| - 1];
      if Fails(last, tool) then before + 1
      else if Succeeds(last, tool) && before > 0 then before - 1
      else before
  }

  /** Successes that close an open failure of their tool. */
  function Fixes(h: History): nat {
    if h == [] then 0
    else
      var before, last := h[..|h| - 1], h[|h| - 1];
      if last.kind == Succeeded && Open(before, last.tool) > 0 then Fixes(before) + 1 else Fixes(before)
  }

  function CountKind(h: History, k: Kind): nat {
    if h == [] then 0 else CountKind(h[..|h| - 1], k) + (if h[|h| - 1].kind == k then 1 else 0)
  }

  /** The latest countable result of `tool` is a failure. */
  predicate LastFailed(h: History, tool: string) {
    h != [] &&
    var last := h[|h| - 1];
    Fails(last, tool) || (!Succeeds(last, tool) && LastFailed(h[..|h| - 1], tool))
  }

  /** Position `i` begins a maximal run of failures of its tool. */
  predicate RunStart(h: History, i: nat) {
    i < |h| && h[i].kind == Failed && !LastFailed(h[..i], h[i].tool)
  }

  function RunStarts(h: History): set<nat> { set i: nat | i < |h| && RunStart(h, i) }

  // ------------------------------------------------------------------ matchings

  /** Pairs failures with later successes of the same tool, one to one. */
  ghost predicate IsMatching(h: History, m: map<nat, nat>) {
    && (forall i | i in m :: i < m[i] < |h| && h[i].kind == Failed && Succeeds(h[m[i]], h[i].tool))
    && (forall i, j | i in m && j in m && i != j :: m[i] != m[j])
  }

  function Failures(h: History, tool: string): set<nat> { set i: nat | i < |h| && Fails(h[i], tool) }

  /** What one more result adds to the failures of a tool. */
  lemma {:induction false} FailuresStep(h: History, tool: string)
    requires h != []
    ensures var n := |h| - 1;
      Failures(h, tool) == if Fails(h[n], tool) then Failures(h[..n], tool) + {n} else Failures(h[..n], tool)
    ensures |h| - 1 !in Failures(h[..|h| - 1], tool)
  {
  }

  lemma {:induction false} OfToolStep(h: History, tool: string)
    requires h != []
    ensures var n := |h| - 1;
      OfTool(h, tool) == if h[n].tool == tool then OfTool(h[..n], tool) + {n} else OfTool(h[..n], tool)
    ensures |h| - 1 !in OfTool(h[..|h| - 1], tool) && Failures(h[..|h| - 1], tool) <= OfTool(h[..|h| - 1], tool)
  {
  }

  predicate Closes(h: History) {
    h != [] && h[|h| - 1].kind == Succeeded && Open(h[..|h| - 1], h[|h| - 1].tool) > 0
  }

  /** Matching the failures in `keys` leaves exactly the open failures of `tool` unmatched. */
  ghost predicate LeavesOpen(h: History, keys: set<nat>, tool: string) {
    |Failures(h, tool) - keys| == Open(h, tool)
  }

  lemma {:induction false} LeavesOpenStep(h: History, keys: set<nat>, tool: string)
    requires h != [] && |h| - 1 !in keys && LeavesOpen(h[..|h| - 1], keys, tool)
    requires Closes(h) ==> tool != h[|h| - 1].tool
    ensures LeavesOpen(h, keys, tool)
  {
    hide Failures;
    var n := |h| - 1;
    FailuresStep(h, tool);
    if Fails(h[n], tool) {
      assert Failures(h, tool) - keys == (Failures(h[..n], tool) - keys) + {n};
    }
  }

  lemma {:induction false} RemoveOne(s: set<nat>, keys: set<nat>, i: nat)
    requires i !in keys
    ensures |s - (keys + {i})| == |s - keys| - (if i in s then 1 else 0)
  {
    if i in s {
      assert s - (keys + {i}) == (s - keys) - {i};
    } else {
      assert s - (keys + {i}) == s - keys;
    }
  }

  lemma {:induction false} OpenAfterClose(h: History, tool: string)
    requires Closes(h)
    ensures Open(h, tool) == Open(h[..|h| - 1], tool) - (if tool == h[|h| - 1].tool then 1 else 0)
    ensures Failures(h, tool) == Failures(h[..|h| - 1], tool)
  {
  }

  lemma {:induction false} LeavesOpenClose(h: History, keys: set<nat>, i: nat, tool: string)
    requires Closes(h) && LeavesOpen(h[..|h| - 1], keys, tool)
    requires i in Failures(h[..|h| - 1], h[|h| - 1].tool) - keys
    ensures LeavesOpen(h, keys + {i}, tool)
  {
    var n, last := |h| - 1, h[|h| - 1];
    assert i in Failures(h[..n], tool) <==> tool == last.tool;
    OpenAfterClose(h, tool);
    hide Failures, Open, Closes;
    RemoveOne(Failures(h[..n], tool), keys, i);
  }

  lemma {:induction false} Spare(h: History, keys: set<nat>, tool: string) returns (i: nat)
    requires LeavesOpen(h, keys, tool) && Open(h, tool) > 0
    ensures i in Failures(h, tool) - keys
  {
    var spare := Failures(h, tool) - keys;
    i :| i in spare;
  }

  lemma {:induction false} MatchingKeep(h: History, m: map<nat, nat>)
    requires h != [] && IsMatching(h[..|h| - 1], m)
    ensures IsMatching(h, m) && |h| - 1 !in m
  {
  }

  lemma {:induction false} MatchingClose(h: History, m: map<nat, nat>, i: nat)
    requires Closes(h) && IsMatching(h[..|h| - 1], m) && i in Failures(h[..|h| - 1], h[|h| - 1].tool) - m.Keys
    ensures IsMatching(h, m[i := |h| - 1]) && |m[i := |h| - 1]| == |m| + 1
  {
  }

  /** The scanner's count is reached by a matching that leaves exactly the open failures unmatched. */
  lemma {:induction false} BestMatching(h: History) returns (m: map<nat, nat>)
    ensures IsMatching(h, m) && |m| == Fixes(h)
    ensures forall tool :: LeavesOpen(h, m.Keys, tool)
  {
    if h == [] {
      m := map[];
    } else {
      hide Failures, IsMatching, LeavesOpen;
      var n, last := |h| - 1, h[|h| - 1];
      var m0 := BestMatching(h[..n]);
      if Closes(h) {
        var i := Spare(h[..n], m0.Keys, last.tool);
        m := m0[i := n];
        MatchingClose(h, m0, i);
        assert m.Keys == m0.Keys + {i};
        forall tool ensures LeavesOpen(h, m.Keys, tool) { LeavesOpenClose(h, m0.Keys, i, tool); }
      } else {
        m := m0;
        MatchingKeep(h, m);
        forall tool ensures LeavesOpen(h, m.Keys, tool) { LeavesOpenStep(h, m0.Keys, tool); }
      }
    }
  }

  /** A vertex cover of all failure-success pairs, no larger than the scanner's count. */
  function Cover(h: History): set<nat> {
    if h == [] then {}
    else
      var n, last := |h| - 1, h[|h| - 1];
      var before := Cover(h[..n]);
      if last.kind != Succeeded then before
      else if Open(h[..n], last.tool) > 0 then before + {n}
      else (before - OfTool(h[..n], last.tool)) + Failures(h[..n], last.tool)
  }

  function OfTool(h: History, tool: string): set<nat> { set i: nat | i < |h| && h[i].tool == tool }

  /** The cover holds as many results of `tool` as the scanner has closed failures of it. */
  ghost predicate CoversClosed(h: History, tool: string) {
    |Cover(h) * OfTool(h, tool)| + Open(h, tool) == |Failures(h, tool)|
  }

  lemma {:induction false} CoverStep(h: History)
    requires h != []
    ensures var n, last := |h| - 1, h[|h| - 1];
      Cover(h) == if last.kind != Succeeded then Cover(h[..n])
                  else if Closes(h) then Cover(h[..n]) + {n}
                  else (Cover(h[..n]) - OfTool(h[..n], last.tool)) + Failures(h[..n], last.tool)
  {
  }

  lemma {:induction false} OtherTool(h: History, tool: string, other: string)
    requires tool != other
    ensures OfTool(h, tool) !! OfTool(h, other) && OfTool(h, tool) !! Failures(h, other)
  {
  }

  lemma {:induction false} CoversClosedStep(h: History, tool: string)
    requires h != [] && CoversClosed(h[..|h| - 1], tool) && |h| - 1 !in Cover(h[..|h| - 1])
    ensures CoversClosed(h, tool)
  {
    var n, last := |h| - 1, h[|h| - 1];
    FailuresStep(h, tool);
    OfToolStep(h, tool);
    OfToolStep(h, last.tool);
    FailuresStep(h, last.tool);
    CoverStep(h);
    var cover, mine, its, failures := Cover(h[..n]), OfTool(h[..n], tool), OfTool(h[..n], last.tool),
        Failures(h[..n], last.tool);
    if tool != last.tool { OtherTool(h[..n], tool, last.tool); }
    hide Failures, OfTool, Cover, Closes;
    CutNew(cover, mine, n);
    if last.kind == Succeeded { CutSwapped(cover, mine, its, failures, n); }
  }

  /** A new index inside or outside a part of the cover. */
  lemma {:induction false} CutNew(cover: set<nat>, part: set<nat>, n: nat)
    requires n !in cover && n !in part
    ensures |(cover + {n}) * (part + {n})| == |cover * part| + 1
    ensures (cover + {n}) * part == cover * part && cover * (part + {n}) == cover * part
  {
    assert (cover + {n}) * (part + {n}) == (cover * part) + {n};
  }

  /** Trading one tool's share of the cover for its failures changes that tool's share only. */
  lemma {:induction false} CutSwapped(cover: set<nat>, part: set<nat>, swapped: set<nat>, share: set<nat>, n: nat)
    requires n !in cover && n !in part && n !in swapped && share <= swapped
    requires part == swapped || part !! swapped
    ensures part == swapped ==> ((cover - swapped) + share) * (part + {n}) == share
    ensures part !! swapped ==> ((cover - swapped) + share) * part == cover * part
  {
  }

  /** Trading the part of a set inside `part` for an equally large subset of `part`. */
  lemma {:induction false} SwapShare(s: set<nat>, part: set<nat>, share: set<nat>)
    requires share <= part && |s * part| == |share|
    ensures |(s - part) + share| == |s|
  {
    assert s == (s - part) + (s * part);
    assert (s - part) !! share;
  }

  lemma {:induction false} CoverSize(h: History)
    ensures forall i | i in Cover(h) :: i < |h|
    ensures |Cover(h)| == Fixes(h)
    ensures forall tool :: CoversClosed(h, tool)
  {
    if h != [] {
      var n, last := |h| - 1, h[|h| - 1];
      CoverSize(h[..n]);
      hide OfTool, Failures;
      forall tool ensures CoversClosed(h, tool) { CoversClosedStep(h, tool); }
      if last.kind == Succeeded && !Closes(h) {
        OfToolStep(h, last.tool);
        FailuresStep(h, last.tool);
        assert CoversClosed(h[..n], last.tool);
        SwapShare(Cover(h[..n]), OfTool(h[..n], last.tool), Failures(h[..n], last.tool));
      }
    }
  }

  lemma {:induction false} CoverCovers(h: History, i: nat, j: nat)
    requires i < j < |h| && h[i].kind == Failed && Succeeds(h[j], h[i].tool)
    ensures i in Cover(h) || j in Cover(h)
  {
    var n := |h| - 1;
    if j < n {
      CoverCovers(h[..n], i, j);
    }
  }

  lemma {:induction false} InjectiveImage(m: map<nat, nat>, keys: set<nat>)
    requires keys <= m.Keys && forall i, j | i in keys && j in keys && i != j :: m[i] != m[j]
    ensures |set i | i in keys :: m[i]| == |keys|
  {
    if keys != {} {
      var k :| k in keys;
      InjectiveImage(m, keys - {k});
      assert (set i | i in keys :: m[i]) == (set i | i in keys - {k} :: m[i]) + {m[k]};
    }
  }

  /** A set that meets every pair of a one-to-one pairing is at least as large as the pairing. */
  lemma {:induction false} CoverBound(m: map<nat, nat>, cover: set<nat>, left: set<nat>, image: set<nat>)
    requires forall i, j | i in m && j in m && i != j :: m[i] != m[j]
    requires left == m.Keys * cover && image == (set i | i in m.Keys - cover :: m[i])
    requires image <= cover && left !! image
    ensures |m| <= |cover|
  {
    InjectiveImage(m, m.Keys - cover);
    SubsetSize(left + image, cover);
    assert m.Keys == left + (m.Keys - cover);
    assert |m| == |m.Keys|;
  }

  /** No matching has more pairs than the scanner counts. */
  lemma {:induction false} MatchingBound(h: History, m: map<nat, nat>)
    requires IsMatching(h, m)
    ensures |m| <= Fixes(h)
  {
    CoverSize(h);
    var cover := Cover(h);
    forall i | i in m.Keys - cover ensures m[i] in cover { CoverCovers(h, i, m[i]); }
    hide Cover, Fixes;
    var image := set i | i in m.Keys - cover :: m[i];
    assert forall i | i in image :: h[i].kind == Succeeded;
    CoverBound(m, cover, m.Keys * cover, image);
  }

  // ------------------------------------------------------------------ suffixes and runs

  /** Failures minus successes of `tool`. */
  function Balance(h: History, tool: string): int {
    if h == [] then 0
    else
      var last := h[|h| - 1];
      Balance(h[..|h| - 1], tool) + (if Fails(last, tool) then 1 else if Succeeds(last, tool) then -1 else 0)
  }

  /** The open count is the greatest balance of any suffix; the empty suffix floors it at 0. */
  lemma {:induction false} OpenIsMaximalSuffix(h: History, tool: string) returns (k: nat)
    ensures k <= |h| && Open(h, tool) == Balance(h[k..], tool)
    ensures forall j: nat | j <= |h| :: Balance(h[j..], tool) <= Open(h, tool)
  {
    if h == [] {
      k := 0;
    } else {
      var n := |h| - 1;
      k := OpenIsMaximalSuffix(h[..n], tool);
      if Succeeds(h[n], tool) && Open(h[..n], tool) == 0 { k := |h|; }
      forall j: nat | j <= n ensures h[j..][..n - j] == h[..n][j..] {}
    }
  }

  lemma {:induction false} RunStartsStep(h: History)
    requires h != []
    ensures var n := |h| - 1; RunStarts(h) == RunStarts(h[..n]) + (if RunStart(h, n) then {n} else {})
  {
    var n := |h| - 1;
    assert forall i | 0 <= i <= n :: h[..n][..i] == h[..i];
  }

  // ------------------------------------------------------------------ the Claude scanner

  const DENY_MARKERS: seq<string> := [
    "user doesn't want", "user rejected", "permission denied by user",
    "denied by user", "declined", "rejected this tool"]

  const HOOK_MARKERS: seq<string> := ["hook blocked", "blocked by hook", "posttooluse", "pretooluse"]

  predicate HasAny(text: string, markers: seq<string>) {
    exists k | 0 <= k < |markers| :: Strings.Contains(text, markers[k])
  }

  /** The content items the counters look at; `text` is the lower-cased result text. */
  datatype Item = ToolUse(id: string, name: string) | ToolResult(toolUseId: string, isError: bool, text: string)

  function Classify(isError: bool, text: string): Kind {
    if !isError then Succeeded
    else if HasAny(text, DENY_MARKERS) then Denied
    else if HasAny(text, HOOK_MARKERS) then Hooked
    else Failed
  }

  function Lookup(names: map<string, string>, id: string): string { if id in names then names[id] else "?" }

  /** Ids seen so far, and the results resolved against the ids known when they arrived. */
  function NamesOf(items: seq<Item>): map<string, string> {
    if items == [] then map[]
    else
      var names, last := NamesOf(items[..|items| - 1]), items[|items| - 1];
      if last.ToolUse? then names[last.id := last.name] else names
  }

  function Resolve(items: seq<Item>): History {
    if items == [] then []
    else
      var h, last := Resolve(items[..|items| - 1]), items[|items| - 1];
      if last.ToolUse? then h
      else h + [Outcome(Lookup(NamesOf(items[..|items| - 1]), last.toolUseId), Classify(last.isError, last.text))]
  }

  ghost function SumValues(m: map<string, nat>): nat {
    if m == map[] then 0 else var k :| k in m; m[k] + SumValues(m - {k})
  }

  lemma {:induction false} SumValuesRemove(m: map<string, nat>, k: string)
    requires k in m
    ensures SumValues(m) == m[k] + SumValues(m - {k})
    decreases |m|
  {
    var j :| j in m && SumValues(m) == m[j] + SumValues(m - {j});
    if j != k {
      SumValuesRemove(m - {j}, k);
      SumValuesRemove(m - {k}, j);
      assert m - {j} - {k} == m - {k} - {j};
    }
  }

  lemma {:induction false} SumValuesUpdate(m: map<string, nat>, k: string, v: nat)
    ensures SumValues(m[k := v]) == SumValues(m) - (if k in m then m[k] else 0) + v
  {
    var m' := m[k := v];
    SumValuesRemove(m', k);
    if k in m {
      SumValuesRemove(m, k);
      assert m' - {k} == m - {k};
    } else {
      assert m' - {k} == m;
    }
  }

  /** How each declarative count moves when a result arrives. */
  lemma {:induction false} HistoryStep(h: History, o: Outcome)
    ensures var h' := h + [o];
      && (forall t :: Open(h', t) == if Fails(o, t) then Open(h, t) + 1
           else if Succeeds(o, t) && Open(h, t) > 0 then Open(h, t) - 1 else Open(h, t))
      && (forall t :: LastFailed(h', t) <==> Fails(o, t) || (!Succeeds(o, t) && LastFailed(h, t)))
      && Fixes(h') == Fixes(h) + (if o.kind == Succeeded && Open(h, o.tool) > 0 then 1 else 0)
      && |RunStarts(h')| == |RunStarts(h)| + (if o.kind == Failed && !LastFailed(h, o.tool) then 1 else 0)
      && forall k :: CountKind(h', k) == CountKind(h, k) + (if o.kind == k then 1 else 0)
  {
    var h' := h + [o];
    assert h'[..|h|] == h;
    RunStartsStep(h');
    assert RunStart(h', |h|) <==> o.kind == Failed && !LastFailed(h, o.tool);
  }

  class ClaudeScanner {
    var toolNameById: map<string, string>
    var failedTools: map<string, nat>
    var inFailureRun: set<string>
    var toolError: nat
    var d4Deny: nat
    var d5Hook: nat
    var d1Clusters: nat
    var d1ErrorFix: nat

    /** The counters after reading `items`, each with its declarative meaning. */
    ghost predicate Counts(items: seq<Item>)
      reads this
    {
      toolNameById == NamesOf(items) && CountsHistory(Resolve(items))
    }

    constructor ()
      ensures Counts([])
    {
      toolNameById, failedTools, inFailureRun := map[], map[], {};
      toolError, d4Deny, d5Hook, d1Clusters, d1ErrorFix := 0, 0, 0, 0, 0;
    }

    method Take(item: Item, ghost before: seq<Item>)
      requires Counts(before)
      modifies this
      ensures Counts(before + [item])
    {
      assert (before + [item])[..|before|] == before;
      match item
      case ToolUse(id, name) =>
        toolNameById := toolNameById[id := name];
      case ToolResult(id, isError, text) =>
        var name := Lookup(toolNameById, id);
        TakeResult(name, Classify(isError, text), Resolve(before));
    }

    /** The branches of the scanner, over resolved results. */
    method TakeResult(name: string, kind: Kind, ghost h: History)
      requires CountsHistory(h)
      modifies this
      ensures CountsHistory(h + [Outcome(name, kind)]) && toolNameById == old(toolNameById)
    {
      match kind
      case Denied =>
        HistoryStep(h, Outcome(name, Denied));
        hide Open, Fixes, LastFailed, RunStarts, CountKind, SumValues;
        toolError, d4Deny := toolError + 1, d4Deny + 1;
      case Hooked =>
        HistoryStep(h, Outcome(name, Hooked));
        hide Open, Fixes, LastFailed, RunStarts, CountKind, SumValues;
        toolError, d5Hook := toolError + 1, d5Hook + 1;
      case Failed =>
        TakeFailure(name, h);
      case Succeeded =>
        TakeSuccess(name, h);
    }

    method TakeFailure(name: string, ghost h: History)
      requires CountsHistory(h)
      modifies this
      ensures CountsHistory(h + [Outcome(name, Failed)]) && toolNameById == old(toolNameById)
    {
      HistoryStep(h, Outcome(name, Failed));
      hide Open, Fixes, LastFailed, RunStarts, CountKind, SumValues;
      var open := if name in failedTools then failedTools[name] else 0;
      toolError := toolError + 1;
      SumValuesUpdate(failedTools, name, open + 1);
      failedTools := failedTools[name := open + 1];
      if name !in inFailureRun {
        inFailureRun, d1Clusters := inFailureRun + {name}, d1Clusters + 1;
      }
    }

    method TakeSuccess(name: string, ghost h: History)
      requires CountsHistory(h)
      modifies this
      ensures CountsHistory(h + [Outcome(name, Succeeded)]) && toolNameById == old(toolNameById)
    {
      HistoryStep(h, Outcome(name, Succeeded));
      hide Open, Fixes, LastFailed, RunStarts, CountKind, SumValues;
      var open := if name in failedTools then failedTools[name] else 0;
      if open > 0 {
        SumValuesUpdate(failedTools, name, open - 1);
        failedTools := failedTools[name := open - 1];
        inFailureRun, d1ErrorFix := inFailureRun - {name}, d1ErrorFix + 1;
      } else {
        inFailureRun := inFailureRun - {name};
      }
    }

    ghost predicate CountsHistory(h: History)
      reads this
    {
      && (forall t :: (if t in failedTools then failedTools[t] else 0) == Open(h, t))
      && (forall t :: t in inFailureRun <==> LastFailed(h, t))
      && d1Clusters == |RunStarts(h)|
      && d1ErrorFix == Fixes(h)
      && d4Deny == CountKind(h, Denied) && d5Hook == CountKind(h, Hooked)
      && toolError == |h| - CountKind(h, Succeeded)
      && toolError == d4Deny + d5Hook + d1ErrorFix + SumValues(failedTools)
    }

    method Scan(items: seq<Item>)
      requires Counts([])
      modifies this
      ensures Counts(items)
    {
      for k := 0 to |items|
        invariant Counts(items[..k])
      {
        assert items[..k + 1] == items[..k] + [items[k]];
        Take(items[k], items[..k]);
      }
      assert items[..|items|] == items;
    }
  }

  /** `d1_error_fix` is the size of a maximum one-to-one matching of failures to later successes. */
  lemma {:induction false} ErrorFixIsMaximumMatching(h: History)
    ensures exists m :: IsMatching(h, m) && |m| == Fixes(h)
    ensures forall m | IsMatching(h, m) :: |m| <= Fixes(h)
  {
    var best := BestMatching(h);
    forall m | IsMatching(h, m) ensures |m| <= Fixes(h) { MatchingBound(h, m); }
  }

  // ------------------------------------------------------------------ the Codex scanner

  /** The exit code captured from one command output, as digits; `None` when no exit line is found. */
  datatype Output = NoExit | Exit(code: string)

  /** The same outputs as results of a single tool. Any code but the text "0" is a failure. */
  function AsHistory(outputs: seq<Output>, tool: string): History {
    if outputs == [] then []
    else
      var h, last := AsHistory(outputs[..|outputs| - 1], tool), outputs[|outputs| - 1];
      match last
      case NoExit => h
      case Exit(code) => h + [Outcome(tool, if code != "0" then Failed else Succeeded)]
  }

  /** Failures that arrive while nothing is open: what Codex counts as clusters. */
  function OpenRises(h: History): set<nat> {
    set i: nat | i < |h| && h[i].kind == Failed && Open(h[..i], h[i].tool) == 0
  }

  /** Failures that begin a run while an earlier failure is still open. */
  function Reopened(h: History): set<nat> { set i: nat | i < |h| && RunStart(h, i) && Open(h[..i], h[i].tool) > 0 }

  lemma {:induction false} OpenRisesStep(h: History, o: Outcome)
    ensures |OpenRises(h + [o])| == |OpenRises(h)| + (if o.kind == Failed && Open(h, o.tool) == 0 then 1 else 0)
  {
    var h', n := h + [o], |h|;
    assert h'[..n] == h && forall i | 0 <= i <= n :: h'[..i] == h[..i];
    assert OpenRises(h') == OpenRises(h) + (if o.kind == Failed && Open(h, o.tool) == 0 then {n} else {});
  }

  class CodexScanner {
    const tool: string
    var openFailures: nat
    var toolError: nat
    var d1Clusters: nat
    var d1ErrorFix: nat

    ghost predicate Counts(outputs: seq<Output>)
      reads this
    {
      CountsHistory(AsHistory(outputs, tool))
    }

    constructor (tool: string)
      ensures Counts([]) && this.tool == tool
    {
      this.tool, openFailures, toolError, d1Clusters, d1ErrorFix := tool, 0, 0, 0, 0;
    }

    method Take(output: Output, ghost before: seq<Output>)
      requires Counts(before)
      modifies this
      ensures Counts(before + [output])
    {
      match output
      case NoExit =>
        assert (before + [output])[..|before|] == before;
      case Exit(code) =>
        AsHistoryStep(before, output, tool);
        TakeExit(code, AsHistory(before, tool));
    }

    method TakeExit(code: string, ghost h: History)
      requires CountsHistory(h)
      modifies this
      ensures CountsHistory(h + [Outcome(tool, if code != "0" then Failed else Succeeded)])
    {
      HistoryStep(h, Outcome(tool, if code != "0" then Failed else Succeeded));
      OpenRisesStep(h, Outcome(tool, if code != "0" then Failed else Succeeded));
      hide Open, Fixes, OpenRises, CountKind, LastFailed, RunStarts;
      if code != "0" {
        toolError := toolError + 1;
        if openFailures == 0 { d1Clusters := d1Clusters + 1; }
        openFailures := openFailures + 1;
      } else if openFailures > 0 {
        openFailures, d1ErrorFix := openFailures - 1, d1ErrorFix + 1;
      } else {
        openFailures := 0;
      }
    }

    ghost predicate CountsHistory(h: History)
      reads this
    {
      && openFailures == Open(h, tool) && d1ErrorFix == Fixes(h)
      && toolError == CountKind(h, Failed) && d1Clusters == |OpenRises(h)|
    }

    method Scan(outputs: seq<Output>)
      requires Counts([])
      modifies this
      ensures Counts(outputs)
    {
      for k := 0 to |outputs|
        invariant Counts(outputs[..k])
      {
        assert outputs[..k + 1] == outputs[..k] + [outputs[k]];
        Take(outputs[k], outputs[..k]);
      }
      assert outputs[..|outputs|] == outputs;
    }
  }

  lemma {:induction false} OpenFollowsFailure(h: History, tool: string)
    requires LastFailed(h, tool)
    ensures Open(h, tool) > 0
  {
    if !Fails(h[|h| - 1], tool) { OpenFollowsFailure(h[..|h| - 1], tool); }
  }

  /** On one stream Codex counts the runs of the documented definition, less those that begin while
      an earlier failure is still open. */
  lemma {:induction false} CodexClusters(h: History)
    ensures |RunStarts(h)| == |OpenRises(h)| + |Reopened(h)|
    ensures |OpenRises(h)| <= |RunStarts(h)|
    ensures |OpenRises(h)| == |RunStarts(h)| <==> Reopened(h) == {}
  {
    forall i: nat | i < |h| && h[i].kind == Failed && Open(h[..i], h[i].tool) == 0 ensures RunStart(h, i) {
      if LastFailed(h[..i], h[i].tool) { OpenFollowsFailure(h[..i], h[i].tool); }
    }
    assert RunStarts(h) == OpenRises(h) + Reopened(h) && OpenRises(h) !! Reopened(h);
  }

  /** Two failures, one success, one failure: two runs, of which Codex counts one. */
  lemma {:induction false} CodexUndercounts()
    ensures exists outputs :: var h := AsHistory(outputs, "shell"); |RunStarts(h)| == 2 && |OpenRises(h)| == 1
  {
    var f, s := Outcome("shell", Failed), Outcome("shell", Succeeded);
    hide RunStarts, OpenRises;
    UndercountOf(f, s);
    var outputs := [] + [Exit("1")] + [Exit("1")] + [Exit("0")] + [Exit("1")];
    AsHistoryStep([], Exit("1"), "shell");
    AsHistoryStep([] + [Exit("1")], Exit("1"), "shell");
    AsHistoryStep([] + [Exit("1")] + [Exit("1")], Exit("0"), "shell");
    AsHistoryStep([] + [Exit("1")] + [Exit("1")] + [Exit("0")], Exit("1"), "shell");
    assert AsHistory(outputs, "shell") == [] + [f] + [f] + [s] + [f];
  }

  lemma {:induction false} UndercountOf(f: Outcome, s: Outcome)
    requires f.kind == Failed && s == f.(kind := Succeeded)
    ensures |RunStarts([] + [f] + [f] + [s] + [f])| == 2 && |OpenRises([] + [f] + [f] + [s] + [f])| == 1
  {
    assert RunStarts([]) == {} && OpenRises([]) == {};
    hide RunStarts, OpenRises;
    HistoryStep([], f);
    HistoryStep([] + [f], f);
    HistoryStep([] + [f] + [f], s);
    HistoryStep([] + [f] + [f] + [s], f);
    OpenRisesStep([], f);
    OpenRisesStep([] + [f], f);
    OpenRisesStep([] + [f] + [f], s);
    OpenRisesStep([] + [f] + [f] + [s], f);
  }

  lemma {:induction false} AsHistoryStep(outputs: seq<Output>, o: Output, tool: string)
    requires o.Exit?
    ensures AsHistory(outputs + [o], tool)
         == AsHistory(outputs, tool) + [Outcome(tool, if o.code != "0" then Failed else Succeeded)]
  {
    assert (outputs + [o])[..|outputs|] == outputs;
  }

  /** Fed the same single-tool stream, both scanners pair the same failures; Codex never counts more
      clusters, and as many exactly when no run begins over an open failure. */
  lemma {:induction false} ScannersAgree(claude: ClaudeScanner, codex: CodexScanner, items: seq<Item>,
          outputs: seq<Output>)
    requires claude.Counts(items) && codex.Counts(outputs) && Resolve(items) == AsHistory(outputs, codex.tool)
    ensures codex.d1ErrorFix == claude.d1ErrorFix && codex.toolError == claude.toolError
    ensures codex.d1Clusters <= claude.d1Clusters
    ensures codex.d1Clusters == claude.d1Clusters <==> Reopened(Resolve(items)) == {}
  {
    hide RunStarts, OpenRises, Reopened, SumValues;
    CodexClusters(Resolve(items));
    AsHistoryKinds(outputs, codex.tool);
  }

  lemma {:induction false} AsHistoryKinds(outputs: seq<Output>, tool: string)
    ensures var h := AsHistory(outputs, tool); |h| == CountKind(h, Failed) + CountKind(h, Succeeded)
  {
    if outputs != [] {
      AsHistoryKinds(outputs[..|outputs| - 1], tool);
    }
  }
}
