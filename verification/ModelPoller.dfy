/** The shared model poller: loads in any number and order, one adaptive timer, focus and refresh
    events, unmount. Loads and timers get fresh numbers; the browser picks which event comes next. */
module ModelPoller {
  import opened Options

  /** What the poller reads of a fetched model, and the rest of it. */
  datatype IndexModel = IndexModel(lastRunStatus: Option<string>, body: int)

  datatype ModelState = ModelState(model: Option<IndexModel>, error: Option<string>, loading: bool)

  const IDLE_POLL_MS: nat := 60000
  const RUNNING_POLL_MS: nat := 12000

  function PollIntervalFor(model: Option<IndexModel>): nat {
    if model.Some? && model.value.lastRunStatus == Some("running") then RUNNING_POLL_MS else IDLE_POLL_MS
  }

  // ------------------------------------------------------------------ the protocol

  datatype Event =
    | Succeed(load: nat, model: IndexModel)
    | Fail(load: nat, error: string)
    | TimerFires(timer: nat)
    | Focus
    | Refresh
    | Unmount

  /** `armed` maps pending timers to their delay; `inFlight` maps running loads to their `initial` flag. */
  datatype Snapshot = Snapshot(
    staticMode: bool, cancelled: bool, timer: Option<nat>, listening: bool,
    armed: map<nat, nat>, nextTimer: nat, inFlight: map<nat, bool>, nextLoad: nat, state: ModelState)

  function Mounted(staticMode: bool): Snapshot {
    Snapshot(staticMode, false, None, !staticMode, map[], 0, map[0 := true], 1, ModelState(None, None, true))
  }

  /** Only pending things happen: no response without a load, no tick without a timer. */
  predicate Enabled(s: Snapshot, e: Event) {
    match e
    case Succeed(load, _) => load in s.inFlight
    case Fail(load, _) => load in s.inFlight
    case TimerFires(timer) => timer in s.armed
    case Focus => s.listening
    case Refresh => s.listening
    case Unmount => !s.cancelled
  }

  function StartLoad(s: Snapshot): Snapshot {
    s.(inFlight := s.inFlight[s.nextLoad := false], nextLoad := s.nextLoad + 1)
  }

  function ClearTimer(s: Snapshot): Snapshot { if s.timer.Some? then s.(armed := s.armed - {s.timer.value}) else s }

  function Scheduled(s: Snapshot, model: Option<IndexModel>): Snapshot {
    if s.cancelled || s.staticMode then s
    else
      var c := ClearTimer(s);
      c.(timer := Some(c.nextTimer), armed := c.armed[c.nextTimer := PollIntervalFor(model)],
          nextTimer := c.nextTimer + 1)
  }

  function Apply(s: Snapshot, e: Event): Snapshot
    requires Enabled(s, e)
  {
    match e
    case Succeed(load, model) =>
      var t := s.(inFlight := s.inFlight - {load});
      if s.cancelled then t else Scheduled(t.(state := ModelState(Some(model), None, false)), Some(model))
    case Fail(load, error) =>
      var t := s.(inFlight := s.inFlight - {load});
      if s.cancelled then t
      else Scheduled(if s.inFlight[load] then t.(state := ModelState(None, Some(error), false)) else t, None)
    case TimerFires(timer) => StartLoad(s.(armed := s.armed - {timer}))
    case Focus => StartLoad(s)
    case Refresh => StartLoad(s)
    case Unmount => ClearTimer(s.(cancelled := true, listening := false))
  }

  ghost predicate ValidRun(staticMode: bool, run: seq<Event>)
    decreases run, 0
  {
    run == []
    || (ValidRun(staticMode, run[..|run| - 1]) && Enabled(After(staticMode, run[..|run| - 1]), run[|run| - 1]))
  }

  ghost function After(staticMode: bool, run: seq<Event>): Snapshot
    requires ValidRun(staticMode, run)
    decreases run, 1
  {
    if run == [] then Mounted(staticMode) else Apply(After(staticMode, run[..|run| - 1]), run[|run| - 1])
  }

  // ------------------------------------------------------------------ the provider, as the effect runs it

  class ModelProvider {
    const staticMode: bool
    var cancelled: bool
    var timer: Option<nat>
    var listening: bool
    var armed: map<nat, nat>
    var nextTimer: nat
    var inFlight: map<nat, bool>
    var nextLoad: nat
    var state: ModelState

    ghost function Snap(): Snapshot
      reads this
    {
      Snapshot(staticMode, cancelled, timer, listening, armed, nextTimer, inFlight, nextLoad, state)
    }

    constructor (staticMode: bool)
      ensures Snap() == Mounted(staticMode)
    {
      this.staticMode := staticMode;
      cancelled, timer, armed, nextTimer := false, None, map[], 0;
      inFlight, nextLoad, state := map[], 0, ModelState(None, None, true);
      listening := false;
      new;
      Load(true);
      if !staticMode { listening := true; }
    }

    method Load(initial: bool)
      modifies this
      ensures Snap() == old(Snap()).(inFlight := old(inFlight)[old(nextLoad) := initial], nextLoad := old(nextLoad) + 1)
    {
      inFlight, nextLoad := inFlight[nextLoad := initial], nextLoad + 1;
    }

    method Schedule(model: Option<IndexModel>)
      modifies this
      ensures Snap() == Scheduled(old(Snap()), model)
    {
      if cancelled { return; }
      if staticMode { return; }
      if timer.Some? { armed := armed - {timer.value}; }
      timer, armed, nextTimer := Some(nextTimer), armed[nextTimer := PollIntervalFor(model)], nextTimer + 1;
    }

    method OnSuccess(load: nat, model: IndexModel)
      requires load in inFlight
      modifies this
      ensures Snap() == Apply(old(Snap()), Succeed(load, model))
    {
      inFlight := inFlight - {load};
      if cancelled { return; }
      state := ModelState(Some(model), None, false);
      Schedule(Some(model));
    }

    method OnFailure(load: nat, error: string)
      requires load in inFlight
      modifies this
      ensures Snap() == Apply(old(Snap()), Fail(load, error))
    {
      var initial := inFlight[load];
      inFlight := inFlight - {load};
      if cancelled { return; }
      if initial { state := ModelState(None, Some(error), false); }
      Schedule(None);
    }

    method OnTimer(id: nat)
      requires id in armed
      modifies this
      ensures Snap() == Apply(old(Snap()), TimerFires(id))
    {
      armed := armed - {id};
      Load(false);
    }

    method OnFocus()
      requires listening
      modifies this
      ensures Snap() == Apply(old(Snap()), Focus) == Apply(old(Snap()), Refresh)
    {
      Load(false);
    }

    method Cleanup()
      requires !cancelled
      modifies this
      ensures Snap() == Apply(old(Snap()), Unmount)
    {
      cancelled := true;
      listening := false;
      if timer.Some? { armed := armed - {timer.value}; }
    }
  }

  // ------------------------------------------------------------------ what every run keeps

  ghost predicate Safe(s: Snapshot) {
    // At most one timer is armed, the one the effect remembers, and numbers are never reused.
    && (forall t | t in s.armed :: s.timer == Some(t))
    && (forall t | t in s.armed :: t < s.nextTimer) && (s.timer.Some? ==> s.timer.value < s.nextTimer)
    && (forall l | l in s.inFlight :: l < s.nextLoad) && s.nextLoad > 0
    // Polling never dies while mounted, and never outlives the mount.
    && (!s.cancelled && !s.staticMode ==> s.listening && (s.armed != map[] || s.inFlight != map[]))
    && (s.cancelled ==> s.armed == map[] && !s.listening)
    // A static site loads once and never polls.
    && (s.staticMode ==> s.armed == map[] && s.timer == None && !s.listening && s.nextLoad == 1)
    // Only load 0 is initial; until something settles, the first load is still out.
    && (forall l | l in s.inFlight :: s.inFlight[l] <==> l == 0)
    && (!s.cancelled && s.state.loading ==> 0 in s.inFlight)
  }

  lemma {:induction false} SafeStep(s: Snapshot, e: Event)
    requires Safe(s) && Enabled(s, e)
    ensures Safe(Apply(s, e))
  {
    var s' := Apply(s, e);
    if !s'.cancelled && !s'.staticMode {
      match e
      case Succeed(_, _) => assert s'.timer.value in s'.armed;
      case Fail(_, _) => assert s'.timer.value in s'.armed;
      case TimerFires(_) => assert s.nextLoad in s'.inFlight;
      case Focus => assert s.nextLoad in s'.inFlight;
      case Refresh => assert s.nextLoad in s'.inFlight;
    }
  }

  lemma {:induction false} EveryRunIsSafe(staticMode: bool, run: seq<Event>)
    requires ValidRun(staticMode, run)
    ensures Safe(After(staticMode, run)) && |After(staticMode, run).armed| <= 1
  {
    if run != [] {
      EveryRunIsSafe(staticMode, run[..|run| - 1]);
      SafeStep(After(staticMode, run[..|run| - 1]), run[|run| - 1]);
    }
    AtMostOne(After(staticMode, run));
  }

  lemma {:induction false} AtMostOne(s: Snapshot)
    requires Safe(s)
    ensures |s.armed| <= 1
  {
    if s.armed != map[] {
      var t :| t in s.armed;
      assert s.armed.Keys == {t};
      assert |s.armed| == |s.armed.Keys|;
    }
  }

  // ------------------------------------------------------------------ what the page shows

  /** Event `k` may write state: a response before unmount that is a success or the initial failure. */
  predicate IsWrite(run: seq<Event>, k: nat) {
    k < |run| && Unmount !in run[..k] && (run[k].Succeed? || (run[k].Fail? && run[k].load == 0))
  }

  function Written(e: Event): ModelState
    requires e.Succeed? || e.Fail?
  {
    if e.Succeed? then ModelState(Some(e.model), None, false) else ModelState(None, Some(e.error), false)
  }

  lemma {:induction false} CancelledByUnmount(staticMode: bool, run: seq<Event>)
    requires ValidRun(staticMode, run)
    ensures After(staticMode, run).cancelled <==> Unmount in run
  {
    if run != [] {
      CancelledByUnmount(staticMode, run[..|run| - 1]);
      assert run == run[..|run| - 1] + [run[|run| - 1]];
    }
  }

  /** An event that is not a write leaves the page alone; a write shows what it carries. */
  lemma {:induction false} PageStep(staticMode: bool, run: seq<Event>)
    requires ValidRun(staticMode, run) && run != []
    ensures After(staticMode, run).state ==
      if IsWrite(run, |run| - 1) then Written(run[|run| - 1]) else After(staticMode, run[..|run| - 1]).state
  {
    CancelledByUnmount(staticMode, run[..|run| - 1]);
    EveryRunIsSafe(staticMode, run[..|run| - 1]);
  }

  /** The page shows the last write of the run. */
  lemma {:induction false} PageShowsLastWrite(staticMode: bool, run: seq<Event>, k: nat)
    requires ValidRun(staticMode, run) && IsWrite(run, k)
    requires forall j: nat | k < j < |run| :: !IsWrite(run, j)
    ensures After(staticMode, run).state == Written(run[k])
  {
    PageStep(staticMode, run);
    if k < |run| - 1 {
      var init := run[..|run| - 1];
      assert forall j: nat | j < |init| :: init[..j] == run[..j];
      assert forall j: nat | j < |init| :: IsWrite(init, j) <==> IsWrite(run, j);
      PageShowsLastWrite(staticMode, init, k);
    }
  }

  /** Until there is a write, the page shows the loading gate. */
  lemma {:induction false} PageLoadsUntilWrite(staticMode: bool, run: seq<Event>)
    requires ValidRun(staticMode, run) && forall j: nat | j < |run| :: !IsWrite(run, j)
    ensures After(staticMode, run).state == ModelState(None, None, true)
  {
    if run != [] {
      PageStep(staticMode, run);
      var init := run[..|run| - 1];
      assert forall j: nat | j < |init| :: init[..j] == run[..j];
      assert forall j: nat | j < |init| :: IsWrite(init, j) <==> IsWrite(run, j);
      PageLoadsUntilWrite(staticMode, init);
    }
  }

  /** A failure changes the page exactly when it is the first load's and the page is still mounted:
      every other failure keeps the last good model. */
  lemma {:induction false} FailureKeepsLastGoodModel(staticMode: bool, run: seq<Event>, load: nat, error: string)
    requires ValidRun(staticMode, run) && Enabled(After(staticMode, run), Fail(load, error))
    ensures Apply(After(staticMode, run), Fail(load, error)).state == After(staticMode, run).state
      <==> load != 0 || Unmount in run
  {
    CancelledByUnmount(staticMode, run);
    EveryRunIsSafe(staticMode, run);
    FirstLoadSettlesOnce(staticMode, run);
  }

  /** An error on the page means the first load is back. */
  ghost predicate ErrorMeansSettled(s: Snapshot) {
    && (0 in s.inFlight ==> s.state.error == None)
    && (s.state.model == None && s.state.error == None ==> s.state.loading)
  }

  lemma {:induction false} FirstLoadSettlesOnce(staticMode: bool, run: seq<Event>)
    requires ValidRun(staticMode, run)
    ensures ErrorMeansSettled(After(staticMode, run))
  {
    if run != [] {
      FirstLoadSettlesOnce(staticMode, run[..|run| - 1]);
      EveryRunIsSafe(staticMode, run[..|run| - 1]);
      ErrorStep(After(staticMode, run[..|run| - 1]), run[|run| - 1]);
    }
  }

  lemma {:induction false} ErrorStep(s: Snapshot, e: Event)
    requires Safe(s) && Enabled(s, e) && ErrorMeansSettled(s)
    ensures ErrorMeansSettled(Apply(s, e))
  {
  }

  lemma {:induction false} Extend(staticMode: bool, run: seq<Event>, e: Event)
    requires ValidRun(staticMode, run) && Enabled(After(staticMode, run), e)
    ensures ValidRun(staticMode, run + [e]) && After(staticMode, run + [e]) == Apply(After(staticMode, run), e)
  {
    assert (run + [e])[..|run|] == run;
  }

  /** The exception is reachable: a focus load succeeds, then the first load fails and blanks the page. */
  lemma {:induction false} LateInitialFailureBlanksPage(model: IndexModel, error: string)
    ensures var run := [] + [Focus] + [Succeed(1, model)] + [Fail(0, error)];
      ValidRun(false, run) && After(false, run).state == ModelState(None, Some(error), false)
  {
    Extend(false, [], Focus);
    Extend(false, [] + [Focus], Succeed(1, model));
    Extend(false, [] + [Focus] + [Succeed(1, model)], Fail(0, error));
  }

  /** Responses are shown in the order they arrive: an older response can replace a newer one. */
  lemma {:induction false} StaleResponseWins(older: IndexModel, newer: IndexModel)
    ensures var run := [] + [Focus] + [Succeed(1, newer)] + [Succeed(0, older)];
      ValidRun(false, run) && After(false, run).state.model == Some(older)
  {
    Extend(false, [], Focus);
    Extend(false, [] + [Focus], Succeed(1, newer));
    Extend(false, [] + [Focus] + [Succeed(1, newer)], Succeed(0, older));
  }

  // ------------------------------------------------------------------ which answer is shown

  /** Event `k` puts a fetched model on the page. */
  predicate IsAnswer(run: seq<Event>, k: nat) { IsWrite(run, k) && run[k].Succeed? }

  /** The load whose model is on the page. */
  function ShownLoad(run: seq<Event>): Option<nat> {
    if run == [] then None
    else
      var n := |run| - 1;
      if IsAnswer(run, n) then Some(run[n].load) else if IsWrite(run, n) then None else ShownLoad(run[..n])
  }

  /** The latest-started of the loads that put a model on the page. */
  function FreshestLoad(run: seq<Event>): Option<nat> {
    if run == [] then None
    else
      var n := |run| - 1;
      var before := FreshestLoad(run[..n]);
      if IsAnswer(run, n) && (before == None || before.value <= run[n].load) then Some(run[n].load) else before
  }

  lemma {:induction false} WritesOfPrefix(run: seq<Event>, n: nat)
    requires n <= |run|
    ensures forall k: nat | k < n :: IsWrite(run[..n], k) == IsWrite(run, k)
  {
    assert forall k: nat | k < n :: run[..n][..k] == run[..k];
  }

  /** `ShownLoad` is what the page shows: the model a success of that load carried, or none. */
  lemma {:induction false} PageShowsLoad(staticMode: bool, run: seq<Event>)
    requires ValidRun(staticMode, run)
    ensures ShownLoad(run) == None ==> After(staticMode, run).state.model == None
    ensures ShownLoad(run).Some? ==> exists k: nat ::
      IsAnswer(run, k) && run[k].load == ShownLoad(run).value && After(staticMode, run).state == Written(run[k])
  {
    if run != [] {
      var n := |run| - 1;
      PageStep(staticMode, run);
      PageShowsLoad(staticMode, run[..n]);
      WritesOfPrefix(run, n);
      if !IsWrite(run, n) && ShownLoad(run).Some? {
        var k: nat :| IsAnswer(run[..n], k) && run[..n][k].load == ShownLoad(run).value
                      && After(staticMode, run[..n]).state == Written(run[..n][k]);
        assert IsAnswer(run, k) && run[k] == run[..n][k];
      }
    }
  }

  /** `FreshestLoad` is the greatest number among the loads that put a model on the page. */
  lemma {:induction false} FreshestIsGreatest(run: seq<Event>)
    ensures forall k: nat | IsAnswer(run, k) :: FreshestLoad(run).Some? && run[k].load <= FreshestLoad(run).value
    ensures FreshestLoad(run).Some? ==> exists k: nat :: IsAnswer(run, k) && run[k].load == FreshestLoad(run).value
  {
    if run != [] {
      var n := |run| - 1;
      FreshestIsGreatest(run[..n]);
      WritesOfPrefix(run, n);
      if FreshestLoad(run).Some? && FreshestLoad(run) == FreshestLoad(run[..n]) {
        var k: nat :| IsAnswer(run[..n], k) && run[..n][k].load == FreshestLoad(run).value;
        assert IsAnswer(run, k) && run[k] == run[..n][k];
      }
    }
  }

  /** Write `k` is an answer at least as fresh as every answer, or a failure of a run without answers. */
  ghost predicate Outdates(run: seq<Event>, k: nat)
    requires IsWrite(run, k)
  {
    forall j: nat | IsAnswer(run, j) :: run[k].Succeed? && run[j].load <= run[k].load
  }

  /** The last write decides: the page shows the latest-started answer exactly when the last write is an
      answer no earlier one outdates, or a failure with no answer before it. */
  lemma {:induction false} FreshestIsShownIff(run: seq<Event>, k: nat)
    requires IsWrite(run, k) && forall j: nat | k < j < |run| :: !IsWrite(run, j)
    ensures ShownLoad(run) == FreshestLoad(run) <==> Outdates(run, k)
  {
    FreshestIsGreatest(run);
    ShownIsLastWrite(run, k);
    assert IsAnswer(run, k) <==> run[k].Succeed?;
  }

  lemma {:induction false} ShownIsLastWrite(run: seq<Event>, k: nat)
    requires IsWrite(run, k) && forall j: nat | k < j < |run| :: !IsWrite(run, j)
    ensures ShownLoad(run) == if run[k].Succeed? then Some(run[k].load) else None
  {
    var n := |run| - 1;
    if k < n {
      WritesOfPrefix(run, n);
      ShownIsLastWrite(run[..n], k);
    }
  }

  /** Once a model is on the page, whatever is written next is the answer of a load started later. */
  ghost predicate AnswersInOrder(run: seq<Event>) {
    forall j: nat, k: nat | j < k && IsAnswer(run, j) && IsWrite(run, k) ::
        run[k].Succeed? && run[j].load <= run[k].load
  }

  /** The page shows the latest-started answer all along exactly when answers arrive in the order their
      loads were started and the first load does not fail after one. */
  lemma {:induction false} AlwaysFreshestIff(run: seq<Event>)
    ensures (forall n: nat | n <= |run| :: ShownLoad(run[..n]) == FreshestLoad(run[..n])) <==> AnswersInOrder(run)
  {
    if forall n: nat | n <= |run| :: ShownLoad(run[..n]) == FreshestLoad(run[..n]) {
      forall j: nat, k: nat | j < k && IsAnswer(run, j) && IsWrite(run, k)
        ensures run[k].Succeed? && run[j].load <= run[k].load
      {
        var sofar := run[..k + 1];
        WritesOfPrefix(run, k + 1);
        FreshestIsGreatest(sofar);
        assert IsAnswer(sofar, j) && sofar[j] == run[j] && sofar[k] == run[k];
        ShownIsLastWrite(sofar, k);
      }
    }
    if AnswersInOrder(run) {
      forall n: nat | n <= |run| ensures ShownLoad(run[..n]) == FreshestLoad(run[..n]) { InOrderShowsFreshest(run, n); }
    }
  }

  lemma {:induction false} InOrderShowsFreshest(run: seq<Event>, n: nat)
    requires AnswersInOrder(run) && n <= |run|
    ensures ShownLoad(run[..n]) == FreshestLoad(run[..n])
  {
    if n > 0 {
      InOrderShowsFreshest(run, n - 1);
      var sofar := run[..n];
      assert sofar[..n - 1] == run[..n - 1] && sofar[n - 1] == run[n - 1];
      WritesOfPrefix(run, n);
      WritesOfPrefix(run, n - 1);
      FreshestIsGreatest(run[..n - 1]);
      if IsWrite(run, n - 1) && FreshestLoad(run[..n - 1]).Some? {
        var j: nat :| IsAnswer(run[..n - 1], j) && run[..n - 1][j].load == FreshestLoad(run[..n - 1]).value;
        assert IsAnswer(run, j) && run[j] == run[..n - 1][j];
      }
    }
  }

  /** After unmount nothing is written and nothing is armed; the loading gate never comes back. */
  lemma {:induction false} LaterEvents(staticMode: bool, run: seq<Event>, n: nat)
    requires ValidRun(staticMode, run) && n <= |run|
    ensures ValidRun(staticMode, run[..n])
    ensures Unmount in run[..n] ==>
      After(staticMode, run).state == After(staticMode, run[..n]).state && After(staticMode, run).armed == map[]
    ensures !After(staticMode, run[..n]).state.loading ==> !After(staticMode, run).state.loading
  {
    PrefixValid(staticMode, run, n);
    CancelledByUnmount(staticMode, run[..n]);
    EveryRunIsSafe(staticMode, run[..n]);
    StatesFrom(staticMode, run, n);
  }

  lemma {:induction false} StatesFrom(staticMode: bool, run: seq<Event>, n: nat)
    requires ValidRun(staticMode, run) && n <= |run| && ValidRun(staticMode, run[..n])
    ensures var s, t := After(staticMode, run[..n]), After(staticMode, run);
      && (s.cancelled ==> t.cancelled && t.state == s.state && t.armed == map[])
      && (!s.state.loading ==> !t.state.loading)
  {
    if n < |run| {
      var init := run[..|run| - 1];
      assert init[..n] == run[..n];
      StatesFrom(staticMode, init, n);
      EveryRunIsSafe(staticMode, init);
      QuietStep(After(staticMode, init), run[|run| - 1]);
    } else {
      assert run[..n] == run;
      EveryRunIsSafe(staticMode, run);
    }
  }

  lemma {:induction false} QuietStep(s: Snapshot, e: Event)
    requires Safe(s) && Enabled(s, e)
    ensures s.cancelled ==> Apply(s, e).cancelled && Apply(s, e).state == s.state && Apply(s, e).armed == map[]
    ensures !s.state.loading ==> !Apply(s, e).state.loading
  {
  }

  lemma {:induction false} PrefixValid(staticMode: bool, run: seq<Event>, n: nat)
    requires ValidRun(staticMode, run) && n <= |run|
    ensures ValidRun(staticMode, run[..n])
  {
    if n < |run| {
      PrefixValid(staticMode, run[..|run| - 1], n);
      assert run[..|run| - 1][..n] == run[..n];
    } else {
      assert run[..n] == run;
    }
  }

  // ------------------------------------------------------------------ cadence

  /** What the latest response carried; a failure carries nothing. */
  function LastSettled(run: seq<Event>): Option<IndexModel> {
    if run == [] then None
    else
      match run[|run| - 1]
      case Succeed(_, model) => Some(model)
      case Fail(_, _) => None
      case _ => LastSettled(run[..|run| - 1])
  }

  /** The armed timer always waits the interval of the latest response: 12 s while a run is going, 60 s otherwise. */
  lemma {:induction false} TimerFollowsLatestResponse(staticMode: bool, run: seq<Event>)
    requires ValidRun(staticMode, run)
    ensures forall t | t in After(staticMode, run).armed ::
      After(staticMode, run).armed[t] == PollIntervalFor(LastSettled(run))
  {
    if run != [] {
      var n := |run| - 1;
      var s, e, t := After(staticMode, run[..n]), run[n], After(staticMode, run);
      TimerFollowsLatestResponse(staticMode, run[..n]);
      EveryRunIsSafe(staticMode, run[..n]);
      DelayStep(s, e);
      assert t == Apply(s, e);
      hide After, ValidRun, Safe, Apply, Enabled, PollIntervalFor;
    }
  }

  lemma {:induction false} DelayStep(s: Snapshot, e: Event)
    requires Safe(s) && Enabled(s, e)
    ensures forall t | t in Apply(s, e).armed ::
      if IsResponse(e) then Apply(s, e).armed[t] == PollIntervalFor(if e.Succeed? then Some(e.model) else None)
      else t in s.armed && Apply(s, e).armed[t] == s.armed[t]
  {
    hide PollIntervalFor;
  }

  predicate IsResponse(e: Event) { e.Succeed? || e.Fail? }

  /** Event `k` is the latest response of the run. */
  ghost predicate LastResponse(run: seq<Event>, k: nat) {
    k < |run| && IsResponse(run[k]) && forall j | k < j < |run| :: !IsResponse(run[j])
  }

  lemma {:induction false} LastSettledIs(run: seq<Event>) returns (k: nat)
    ensures LastSettled(run).Some? ==> LastResponse(run, k) && run[k].Succeed? && run[k].model == LastSettled(run).value
    ensures LastSettled(run) == None ==> forall j: nat | LastResponse(run, j) :: run[j].Fail?
  {
    k := 0;
    if run != [] {
      var n := |run| - 1;
      if IsResponse(run[n]) {
        k := n;
      } else {
        k := LastSettledIs(run[..n]);
        forall j: nat | LastResponse(run, j) && LastSettled(run) == None ensures run[j].Fail? {
          assert LastResponse(run[..n], j);
        }
      }
    }
  }

  lemma {:induction false} LastResponseOnce(run: seq<Event>, j: nat, k: nat)
    requires LastResponse(run, j) && LastResponse(run, k)
    ensures j == k
  {
  }

  /** A timer is armed exactly while mounted on a live site, after a response since which no timer has gone off. */
  lemma {:induction false} TimerArmedIff(staticMode: bool, run: seq<Event>)
    requires ValidRun(staticMode, run)
    ensures After(staticMode, run).staticMode == staticMode
    ensures After(staticMode, run).armed != map[] <==> !staticMode && Unmount !in run && AwaitsTimer(run)
  {
    if run != [] {
      var n := |run| - 1;
      var s, e, t := After(staticMode, run[..n]), run[n], After(staticMode, run);
      TimerArmedIff(staticMode, run[..n]);
      EveryRunIsSafe(staticMode, run[..n]);
      CancelledByUnmount(staticMode, run);
      AwaitsStep(run);
      ArmedStep(s, e);
      assert t == Apply(s, e) && Enabled(s, e);
      assert Unmount in run[..n] ==> Unmount in run;
      hide AwaitsTimer, Safe, Apply, After, ValidRun, Enabled;
    }
  }

  ghost predicate AwaitsTimer(run: seq<Event>) {
    exists k: nat :: LastResponse(run, k) && forall j | k < j < |run| :: !run[j].TimerFires?
  }

  lemma {:induction false} AwaitsStep(run: seq<Event>)
    requires run != []
    ensures var n := |run| - 1;
      AwaitsTimer(run) <==> IsResponse(run[n]) || (!run[n].TimerFires? && AwaitsTimer(run[..n]))
  {
    var n := |run| - 1;
    if IsResponse(run[n]) {
      assert LastResponse(run, n);
    } else {
      forall k: nat ensures LastResponse(run, k) <==> LastResponse(run[..n], k) {}
    }
  }

  lemma {:induction false} ArmedStep(s: Snapshot, e: Event)
    requires Safe(s) && Enabled(s, e)
    ensures Apply(s, e).staticMode == s.staticMode
    ensures Apply(s, e).armed != map[] <==>
      !s.staticMode && !Apply(s, e).cancelled && (IsResponse(e) || (!e.TimerFires? && s.armed != map[]))
  {
    if !s.staticMode && !s.cancelled && IsResponse(e) {
      assert s.nextTimer in Apply(s, e).armed;
    }
  }

  /** The armed timer waits 12 s exactly when the latest response is a model whose run is going, and 60 s otherwise,
      so after every failure too. */
  lemma {:induction false} TimerDelay(staticMode: bool, run: seq<Event>, timer: nat, k: nat)
    requires ValidRun(staticMode, run) && timer in After(staticMode, run).armed && LastResponse(run, k)
    ensures After(staticMode, run).armed[timer] ==
      if run[k].Succeed? && run[k].model.lastRunStatus == Some("running") then 12000 else 60000
  {
    TimerFollowsLatestResponse(staticMode, run);
    var j := LastSettledIs(run);
    if LastSettled(run).Some? { LastResponseOnce(run, j, k); }
  }

  // ------------------------------------------------------------------ loads

  predicate StartsLoad(e: Event) { e == Focus || e == Refresh || e.TimerFires? }

  lemma {:induction false} StartsStep(run: seq<Event>)
    requires run != []
    ensures var n := |run| - 1; var before := set k: nat | k < n && StartsLoad(run[..n][k]);
      n !in before
      && (set k: nat | k < |run| && StartsLoad(run[k])) == if StartsLoad(run[n]) then before + {n} else before
  {
  }

  lemma {:induction false} LoadStep(s: Snapshot, e: Event)
    requires Enabled(s, e) && Safe(s)
    ensures Apply(s, e).nextLoad == s.nextLoad + (if StartsLoad(e) then 1 else 0)
    ensures forall load :: load in Apply(s, e).inFlight <==>
      (load in s.inFlight && (IsResponse(e) ==> e.load != load)) || (StartsLoad(e) && load == s.nextLoad)
    ensures IsResponse(e) ==> e.load < s.nextLoad
  {
  }

  ghost predicate Answered(run: seq<Event>, load: nat) {
    exists k :: 0 <= k < |run| && IsResponse(run[k]) && run[k].load == load
  }

  lemma {:induction false} AnsweredStep(run: seq<Event>, load: nat)
    requires run != []
    ensures var n := |run| - 1;
      Answered(run, load) <==> Answered(run[..n], load) || (IsResponse(run[n]) && run[n].load == load)
  {
    var n := |run| - 1;
    if k :| 0 <= k < n && IsResponse(run[..n][k]) && run[..n][k].load == load { assert run[k] == run[..n][k]; }
    if k :| 0 <= k < |run| && IsResponse(run[k]) && run[k].load == load && k < n { assert run[..n][k] == run[k]; }
  }

  /** Every focus, refresh and tick starts one load, and a load is in flight until it is answered. */
  lemma {:induction false} LoadsStarted(staticMode: bool, run: seq<Event>)
    requires ValidRun(staticMode, run)
    ensures After(staticMode, run).nextLoad == 1 + |set k: nat | k < |run| && StartsLoad(run[k])|
    ensures forall load: nat | Answered(run, load) :: load < After(staticMode, run).nextLoad
    ensures forall load: nat ::
      load in After(staticMode, run).inFlight <==> load < After(staticMode, run).nextLoad && !Answered(run, load)
  {
    if run != [] {
      var n := |run| - 1;
      var s, e, t := After(staticMode, run[..n]), run[n], After(staticMode, run);
      LoadsStarted(staticMode, run[..n]);
      EveryRunIsSafe(staticMode, run[..n]);
      LoadStep(s, e);
      StartsStep(run);
      assert t == Apply(s, e) && Enabled(s, e);
      hide Answered, Safe, Apply, After, ValidRun, Enabled, StartsLoad, IsResponse;
      forall load: nat ensures Answered(run, load) ==> load < t.nextLoad
        ensures load in t.inFlight <==> load < t.nextLoad && !Answered(run, load)
      {
        AnsweredStep(run, load);
      }
    }
  }
}
