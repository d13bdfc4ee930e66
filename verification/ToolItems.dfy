/** What the transcript scanners count, by positions in the transcript: which tool a result belongs to, what kind it is,
    and which failures and successes can be paired. */
module ToolItems {
  import opened Collections
  import opened Strings
  import opened ToolScan

  // ------------------------------------------------------------------ one result

  /** Before position `k` the latest tool use with this id has this name, or there is none and the name is `?`. */
  ghost predicate AnnouncedAs(items: seq<Item>, k: nat, id: string, name: string)
    requires k <= |items|
  {
    || (exists j :: 0 <= j < k && items[j] == ToolUse(id, name) && NoneSince(items, j, k, id))
    || (name == "?" && NoneSince(items, -1, k, id))
  }

  predicate NoneSince(items: seq<Item>, j: int, k: nat, id: string)
    requires -1 <= j && k <= |items|
  {
    forall i | j < i < k && items[i].ToolUse? :: items[i].id != id
  }

  lemma {:induction false} AnnouncedOnce(items: seq<Item>, k: nat, id: string, a: string, b: string)
    requires k <= |items| && AnnouncedAs(items, k, id, a) && AnnouncedAs(items, k, id, b)
    ensures a == b
  {
  }

  ghost predicate Mentions(text: string, markers: seq<string>) {
    exists marker, i: nat :: marker in markers && OccursAt(text, marker, i)
  }

  /** Item `k` is a result of this kind: a success, an error that mentions a denial, one that mentions no denial but a
      hook, or any other error. */
  ghost predicate HasKind(items: seq<Item>, k: nat, kind: Kind) {
    && k < |items| && items[k].ToolResult?
    && var r := items[k];
       match kind
       case Succeeded => !r.isError
       case Denied => r.isError && Mentions(r.text, DENY_MARKERS)
       case Hooked => r.isError && !Mentions(r.text, DENY_MARKERS) && Mentions(r.text, HOOK_MARKERS)
       case Failed => r.isError && !Mentions(r.text, DENY_MARKERS) && !Mentions(r.text, HOOK_MARKERS)
  }

  lemma {:induction false} HasAnyIff(text: string, markers: seq<string>)
    ensures HasAny(text, markers) <==> Mentions(text, markers)
  {
    hide Contains, OccursAt;
    if HasAny(text, markers) {
      var k :| 0 <= k < |markers| && Contains(text, markers[k]);
      ContainsIff(text, markers[k]);
      var i: nat :| OccursAt(text, markers[k], i);
      assert markers[k] in markers;
    }
    if marker, i: nat :| marker in markers && OccursAt(text, marker, i) {
      var k :| 0 <= k < |markers| && markers[k] == marker;
      ContainsIff(text, marker);
    }
  }

  lemma {:induction false} ClassifyIff(items: seq<Item>, k: nat, kind: Kind)
    requires k < |items| && items[k].ToolResult?
    ensures HasKind(items, k, kind) <==> Classify(items[k].isError, items[k].text) == kind
  {
    HasAnyIff(items[k].text, DENY_MARKERS);
    HasAnyIff(items[k].text, HOOK_MARKERS);
    hide HasAny, Mentions;
  }

  lemma {:induction false} NamesAre(items: seq<Item>, k: nat, id: string)
    requires k <= |items|
    ensures AnnouncedAs(items, k, id, Lookup(NamesOf(items[..k]), id))
    ensures id !in NamesOf(items[..k]) ==> NoneSince(items, -1, k, id)
  {
    if k > 0 {
      NamesAre(items, k - 1, id);
      assert items[..k][..k - 1] == items[..k - 1];
      var last := items[k - 1];
      if last.ToolUse? && last.id == id {
        assert last == ToolUse(id, last.name);
      } else if id in NamesOf(items[..k - 1]) {
        var name := NamesOf(items[..k - 1])[id];
        if j :| 0 <= j < k - 1 && items[j] == ToolUse(id, name) && NoneSince(items, j, k - 1, id) {
          assert NoneSince(items, j, k, id);
        }
      }
    }
  }

  // ------------------------------------------------------------------ the resolved history

  /** `at` lists the positions of the results of `items`, in order. */
  ghost predicate ListsResults(items: seq<Item>, at: seq<nat>) {
    && (forall r | 0 <= r < |at| :: at[r] < |items| && items[at[r]].ToolResult?)
    && (forall r, q | 0 <= r < q < |at| :: at[r] < at[q])
    && forall k | 0 <= k < |items| && items[k].ToolResult? :: k in at
  }

  ghost predicate ResolvedAt(items: seq<Item>, k: nat, o: Outcome) {
    HasKind(items, k, o.kind) && AnnouncedAs(items, k, items[k].toolUseId, o.tool)
  }

  ghost predicate IsResolution(items: seq<Item>, at: seq<nat>) {
    && ListsResults(items, at) && |at| == |Resolve(items)|
    && forall r | 0 <= r < |at| :: ResolvedAt(items, at[r], Resolve(items)[r])
  }

  /** The `r`-th resolved outcome is that of the `r`-th result in the transcript: its name is the one announced last
      under its id before it. */
  lemma {:induction false} ResolvedByPosition(items: seq<Item>) returns (at: seq<nat>)
    ensures IsResolution(items, at)
  {
    if items == [] {
      at := [];
    } else {
      var n, last := |items| - 1, items[|items| - 1];
      at := ResolvedByPosition(items[..n]);
      forall r | 0 <= r < |at| ensures ResolvedAt(items, at[r], Resolve(items[..n])[r]) {
        assert ResolvedAt(items[..n], at[r], Resolve(items[..n])[r]);
        ResolvedStill(items, n, at[r], Resolve(items[..n])[r]);
      }
      if last.ToolResult? {
        NamesAre(items, n, last.toolUseId);
        ClassifyIff(items, n, Classify(last.isError, last.text));
        at := at + [n];
      }
      hide Resolve, Classify, AnnouncedAs, HasKind, ResolvedAt, Lookup, NamesOf;
      assert forall k | 0 <= k < n :: items[..n][k] == items[k];
    }
  }

  /** What a result is does not depend on what follows it. */
  lemma {:induction false} ResolvedStill(items: seq<Item>, n: nat, k: nat, o: Outcome)
    requires k < n <= |items| && ResolvedAt(items[..n], k, o)
    ensures ResolvedAt(items, k, o)
  {
    var id := items[k].toolUseId;
    if j :| 0 <= j < k && items[..n][j] == ToolUse(id, o.tool) && NoneSince(items[..n], j, k, id) {
      assert items[j] == ToolUse(id, o.tool) && NoneSince(items, j, k, id);
    } else {
      assert NoneSince(items[..n], -1, k, id);
    }
  }

  // ------------------------------------------------------------------ pairing failures with successes

  ghost predicate SameTool(items: seq<Item>, i: nat, j: nat)
    requires i < |items| && items[i].ToolResult? && j < |items| && items[j].ToolResult?
  {
    exists name ::
      AnnouncedAs(items, i, items[i].toolUseId, name) && AnnouncedAs(items, j, items[j].toolUseId, name)
  }

  ghost predicate PairHere(items: seq<Item>, i: nat, j: nat) {
    HasKind(items, i, Failed) && HasKind(items, j, Succeeded) && SameTool(items, i, j)
  }

  /** Pairs failed results with later successes announced under the same name, one to one. */
  ghost predicate PairsFixes(items: seq<Item>, m: map<nat, nat>) {
    OneToOne(m) && forall i | i in m :: i < m[i] && PairHere(items, i, m[i])
  }

  ghost predicate Renames(f: map<nat, nat>, m: map<nat, nat>) {
    && (forall i | i in m :: i in f && m[i] in f)
    && (forall i, j | i in f && j in f && f[i] == f[j] :: i == j)
  }

  /** `r` is the pairing `m` under the numbers that `f` gives. */
  ghost predicate IsRenamed(f: map<nat, nat>, m: map<nat, nat>, r: map<nat, nat>)
    requires Renames(f, m)
  {
    && (forall i | i in m :: f[i] in r && r[f[i]] == f[m[i]])
    && (forall k | k in r :: exists i :: i in m && k == f[i])
  }

  lemma {:induction false} RenamedKeys(f: map<nat, nat>, m: map<nat, nat>, r: map<nat, nat>)
    requires Renames(f, m) && IsRenamed(f, m, r)
    ensures r.Keys == set i | i in m.Keys :: f[i]
  {
  }

  lemma {:induction false} RenamedSize(f: map<nat, nat>, m: map<nat, nat>, r: map<nat, nat>)
    requires Renames(f, m) && IsRenamed(f, m, r)
    ensures |r| == |m|
  {
    RenamedKeys(f, m, r);
    hide IsRenamed;
    InjectiveImage(f, m.Keys);
    assert |r| == |r.Keys| && |m| == |m.Keys|;
  }

  /** A one-to-one pairing of `p` pairs becomes one of `q` pairs under other numbers. */
  lemma {:induction false} Renamed(f: map<nat, nat>, m: map<nat, nat>, p: (nat, nat) -> bool, q: (nat, nat) -> bool)
    returns (r: map<nat, nat>)
    requires Renames(f, m) && (forall i | i in m :: p(i, m[i])) && OneToOne(m)
    requires forall i, j | i in f && j in f && p(i, j) :: q(f[i], f[j])
    ensures |r| == |m| && OneToOne(r) && forall k | k in r :: q(k, r[k])
  {
    r := map i | i in m :: f[i] := f[m[i]];
    RenamedSize(f, m, r);
    RenamedInjective(f, m, r);
  }

  ghost predicate OneToOne(m: map<nat, nat>) { forall i, j | i in m && j in m && i != j :: m[i] != m[j] }

  /** Different pairs stay different. */
  lemma {:induction false} RenamedInjective(f: map<nat, nat>, m: map<nat, nat>, r: map<nat, nat>)
    requires Renames(f, m) && IsRenamed(f, m, r) && OneToOne(m)
    ensures OneToOne(r)
  {
    forall k, l | k in r && l in r && k != l ensures r[k] != r[l] {
      var i :| i in m && k == f[i];
      var j :| j in m && l == f[j];
    }
  }

  lemma {:induction false} MatchingOverItems(items: seq<Item>, at: seq<nat>, m: map<nat, nat>)
    returns (r: map<nat, nat>)
    requires IsResolution(items, at) && IsMatching(Resolve(items), m)
    ensures PairsFixes(items, r) && |r| == |m|
  {
    var f := map i: nat | i < |at| :: at[i];
    var h := Resolve(items);
    PositionsDiffer(items, at);
    hide Resolve, ListsResults, ResolvedAt, PairHere;
    var p, q := (i: nat, j: nat) => Fixed(h, i, j), (i: nat, j: nat) => i < j && PairHere(items, i, j);
    forall i, j | i in f && j in f && p(i, j) ensures q(f[i], f[j]) {
      PairOfOutcomes(items, h, at[i], at[j], i, j);
    }
    r := Renamed(f, m, p, q);
    assert forall k | k in r :: q(k, r[k]);
  }

  ghost predicate Fixed(h: History, i: nat, j: nat) {
    i < j < |h| && h[i].kind == Failed && Succeeds(h[j], h[i].tool)
  }

  lemma {:induction false} PositionsDiffer(items: seq<Item>, at: seq<nat>)
    requires ListsResults(items, at)
    ensures forall a, b | 0 <= a < |at| && 0 <= b < |at| :: at[a] == at[b] ==> a == b
    ensures forall a, b | 0 <= a < |at| && 0 <= b < |at| :: a < b <==> at[a] < at[b]
  {
  }

  lemma {:induction false} PairOfOutcomes(items: seq<Item>, h: History, i: nat, j: nat, a: nat, b: nat)
    requires a < |h| && b < |h| && ResolvedAt(items, i, h[a]) && ResolvedAt(items, j, h[b])
    ensures PairHere(items, i, j) <==> h[a].kind == Failed && Succeeds(h[b], h[a].tool)
  {
    assert i < |items| && items[i].ToolResult? && j < |items| && items[j].ToolResult?;
    hide HasKind, AnnouncedAs;
    if PairHere(items, i, j) {
      OutcomeIs(items, i, h[a], Failed);
      OutcomeIs(items, j, h[b], Succeeded);
      var name :| AnnouncedAs(items, i, items[i].toolUseId, name) && AnnouncedAs(items, j, items[j].toolUseId, name);
      AnnouncedOnce(items, i, items[i].toolUseId, name, h[a].tool);
      AnnouncedOnce(items, j, items[j].toolUseId, name, h[b].tool);
    }
  }

  lemma {:induction false} MatchingOverHistory(items: seq<Item>, at: seq<nat>, m: map<nat, nat>)
    returns (r: map<nat, nat>)
    requires IsResolution(items, at) && PairsFixes(items, m)
    ensures IsMatching(Resolve(items), r) && |r| == |m|
  {
    PositionsDiffer(items, at);
    var f := IndexOfPosition(at);
    var h := Resolve(items);
    var p, q := (i: nat, j: nat) => i < j && PairHere(items, i, j), (i: nat, j: nat) => Fixed(h, i, j);
    hide Resolve, HasKind, SameTool, ListsResults, PairHere;
    forall i, j | i in f && j in f && p(i, j) ensures q(f[i], f[j]) {
      IndexedPair(items, h, at, i, j, f[i], f[j]);
    }
    hide ResolvedAt, Fixed;
    forall i | i in m ensures i in f && m[i] in f && p(i, m[i]) { PairIsListed(items, at, i, m[i]); }
    r := Renamed(f, m, p, q);
    FixedIsMatching(h, r, q);
  }

  lemma {:induction false} IndexedPair(items: seq<Item>, h: History, at: seq<nat>, i: nat, j: nat, a: nat, b: nat)
    requires |at| == |h| && a < |h| && b < |h| && at[a] == i && at[b] == j && i < j && PairHere(items, i, j)
    requires forall r, q | 0 <= r < |at| && 0 <= q < |at| :: r < q <==> at[r] < at[q]
    requires ResolvedAt(items, i, h[a]) && ResolvedAt(items, j, h[b])
    ensures Fixed(h, a, b)
  {
    PairOfOutcomes(items, h, i, j, a, b);
  }

  lemma {:induction false} FixedIsMatching(h: History, r: map<nat, nat>, q: (nat, nat) -> bool)
    requires OneToOne(r) && (forall k | k in r :: q(k, r[k])) && forall i, j :: q(i, j) ==> Fixed(h, i, j)
    ensures IsMatching(h, r)
  {
  }

  lemma {:induction false} IndexOfPosition(at: seq<nat>) returns (f: map<nat, nat>)
    requires forall a, b | 0 <= a < |at| && 0 <= b < |at| :: at[a] == at[b] ==> a == b
    ensures forall k :: k in f <==> k in at
    ensures forall k | k in f :: f[k] < |at| && at[f[k]] == k
  {
    f := map[];
    if at != [] {
      var n := |at| - 1;
      f := IndexOfPosition(at[..n]);
      f := f[at[n] := n];
      assert forall k :: k in at <==> k in at[..n] || k == at[n];
    }
  }

  lemma {:induction false} PairIsListed(items: seq<Item>, at: seq<nat>, i: nat, j: nat)
    requires ListsResults(items, at) && PairHere(items, i, j)
    ensures i in at && j in at
  {
  }

  lemma {:induction false} OutcomeIs(items: seq<Item>, k: nat, o: Outcome, kind: Kind)
    requires ResolvedAt(items, k, o) && HasKind(items, k, kind)
    ensures o.kind == kind
  {
  }

  /** `d1_error_fix` is the size of a largest one-to-one pairing of failed results with later successes announced
      under the same name. */
  lemma {:induction false} ErrorFixPairsItems(scanner: ClaudeScanner, items: seq<Item>)
    requires scanner.Counts(items)
    ensures exists m :: PairsFixes(items, m) && |m| == scanner.d1ErrorFix
    ensures forall m | PairsFixes(items, m) :: |m| <= scanner.d1ErrorFix
  {
    var at := ResolvedByPosition(items);
    hide PairsFixes, IsMatching, Fixes, IsResolution;
    var best := BestMatching(Resolve(items));
    var over := MatchingOverItems(items, at, best);
    forall m | PairsFixes(items, m) ensures |m| <= scanner.d1ErrorFix {
      var r := MatchingOverHistory(items, at, m);
      MatchingBound(Resolve(items), r);
    }
  }

  // ------------------------------------------------------------------ the other counts

  function KindAt(items: seq<Item>, kind: Kind): set<nat> {
    set k: nat | k < |items| && IsOfKind(items[k], kind)
  }

  predicate IsOfKind(item: Item, kind: Kind) { item.ToolResult? && Classify(item.isError, item.text) == kind }

  lemma {:induction false} KindAtStep(items: seq<Item>, kind: Kind)
    requires items != []
    ensures var n := |items| - 1; var init := KindAt(items[..n], kind);
      n !in init && KindAt(items, kind) == if IsOfKind(items[n], kind) then init + {n} else init
  {
    hide Classify;
  }

  lemma {:induction false} KindCount(items: seq<Item>, kind: Kind)
    ensures |KindAt(items, kind)| == CountKind(Resolve(items), kind)
  {
    if items != [] {
      var n, last := |items| - 1, items[|items| - 1];
      KindCount(items[..n], kind);
      KindAtStep(items, kind);
      hide Classify, KindAt;
    }
  }

  lemma {:induction false} ResultCount(items: seq<Item>)
    ensures |Resolve(items)| == |set k: nat | k < |items| && items[k].ToolResult?|
  {
    if items != [] {
      var n, last := |items| - 1, items[|items| - 1];
      ResultCount(items[..n]);
      assert (set k: nat | k < |items| && items[k].ToolResult?)
        == (set k: nat | k < n && items[..n][k].ToolResult?) + (if last.ToolResult? then {n} else {});
    }
  }

  /** The denial, hook and error counters count the results of their kind. */
  lemma {:induction false} CountersCountItems(scanner: ClaudeScanner, items: seq<Item>, denied: set<nat>,
          hooked: set<nat>, errors: set<nat>)
    requires scanner.Counts(items)
    requires forall k: nat :: k in denied <==> HasKind(items, k, Denied)
    requires forall k: nat :: k in hooked <==> HasKind(items, k, Hooked)
    requires forall k: nat :: k in errors <==> k < |items| && items[k].ToolResult? && items[k].isError
    ensures scanner.d4Deny == |denied| && scanner.d5Hook == |hooked| && scanner.toolError == |errors|
  {
    KindCount(items, Denied);
    KindCount(items, Hooked);
    KindCount(items, Succeeded);
    ResultCount(items);
    KindAtIs(items, Denied, denied);
    KindAtIs(items, Hooked, hooked);
    var results := set k: nat | k < |items| && items[k].ToolResult?;
    assert results == errors + KindAt(items, Succeeded) && errors !! KindAt(items, Succeeded);
  }

  lemma {:induction false} KindAtIs(items: seq<Item>, kind: Kind, s: set<nat>)
    requires forall k: nat :: k in s <==> HasKind(items, k, kind)
    ensures s == KindAt(items, kind)
  {
    forall k: nat | k < |items| && items[k].ToolResult? ensures k in s <==> k in KindAt(items, kind) {
      ClassifyIff(items, k, kind);
    }
  }

  /** A failure begins a run exactly when every earlier failure of its tool has a success of the tool after it. */
  lemma {:induction false} RunStartIff(h: History, i: nat)
    requires i < |h| && h[i].kind == Failed
    ensures RunStart(h, i) <==> forall j: nat | j < i && Fails(h[j], h[i].tool) :: SucceedsBetween(h, h[i].tool, j, i)
  {
    LastFailedIff(h, h[i].tool, i);
  }

  ghost predicate SucceedsBetween(h: History, tool: string, j: nat, n: nat)
    requires n <= |h|
  {
    exists k :: j < k < n && Succeeds(h[k], tool)
  }

  lemma {:induction false} LastFailedIff(h: History, tool: string, n: nat)
    requires n <= |h|
    ensures LastFailed(h[..n], tool) <==> exists j: nat :: j < n && Fails(h[j], tool) && !SucceedsBetween(h, tool, j, n)
  {
    if n > 0 {
      LastFailedIff(h, tool, n - 1);
      assert h[..n][..n - 1] == h[..n - 1];
      if j: nat :| j < n - 1 && Fails(h[j], tool) && !SucceedsBetween(h, tool, j, n - 1) {
        if !Succeeds(h[n - 1], tool) { assert !SucceedsBetween(h, tool, j, n); }
      }
      forall j: nat | j < n && Fails(h[j], tool) && !SucceedsBetween(h, tool, j, n) ensures LastFailed(h[..n], tool) {
        assert j < n - 1 ==> !SucceedsBetween(h, tool, j, n - 1);
      }
    }
  }

  // ------------------------------------------------------------------ Codex outputs

  predicate HasExit(o: Output) { o != NoExit }

  function Reading(tool: string): Output -> Outcome {
    o => Outcome(tool, if o == Exit("0") then Succeeded else Failed)
  }

  /** The Codex scanner reads its outputs with an exit line in order, and only the code `0` is a success. */
  lemma {:induction false} ExitsByPosition(outputs: seq<Output>, tool: string) returns (at: seq<nat>)
    ensures ListsKept(outputs, HasExit, at)
    ensures NamedAt(outputs, Reading(tool), at, AsHistory(outputs, tool))
  {
    at := [];
    if outputs != [] {
      var n := |outputs| - 1;
      at := ExitsByPosition(outputs[..n], tool);
      hide ListsKept, NamedAt;
      ListsKeptStep(outputs, HasExit, at);
      NamedStill(outputs, Reading(tool), at, AsHistory(outputs[..n], tool));
      if outputs[n] != NoExit { at := at + [n]; }
    }
  }
}
