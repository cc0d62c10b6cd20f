/**
 The bounded parallel loop, in its two versions: internal/forge/client.go rechecks for
 a failure between taking a slot and launching, internal/backup/sync.go does not. One
 state machine over the launcher's and the workers' steps, with a flag for the recheck.
 */
module ParallelLoop {

  datatype Config = Config(concurrency: nat, items: nat, rechecks: bool)

  datatype Worker =
    | Running(item: nat)
    | Finished(item: nat, ok: bool)   // the callback has returned, its slot is not yet given back
    | Released(item: nat, ok: bool)

  datatype Launcher = TestContext | TestFailure | Acquire | Recheck | Launch | Wait | Returned(ok: bool)

  /** slots counts the tokens in the channel, failed says firstErr is set, workers are in launch order. */
  datatype State = State(launcher: Launcher, slots: nat, failed: bool, cancelled: bool, workers: seq<Worker>)

  datatype Action =
    | TestTheContext | TestForFailure | TakeSlot | SeeCancelled | RecheckFailure | LaunchWorker
    | Finish(worker: nat, ok: bool) | Release(worker: nat) | Return | Cancel

  function Init(): State {
    State(TestContext, 0, false, false, [])
  }

  predicate AllReleased(workers: seq<Worker>) {
    forall i :: 0 <= i < |workers| ==> workers[i].Released?
  }

  predicate Enabled(c: Config, s: State, a: Action) {
    match a
    case TestTheContext => s.launcher.TestContext?
    case TestForFailure => s.launcher.TestFailure?
    case TakeSlot => s.launcher.Acquire? && s.slots < c.concurrency
    case SeeCancelled => s.launcher.Acquire? && s.cancelled
    case RecheckFailure => s.launcher.Recheck?
    case LaunchWorker => s.launcher.Launch?
    case Finish(i, _) => i < |s.workers| && s.workers[i].Running?
    case Release(i) => i < |s.workers| && s.workers[i].Finished? && s.slots > 0
    case Return => s.launcher.Wait? && AllReleased(s.workers)
    case Cancel => true
  }

  function Apply(c: Config, s: State, a: Action): State
    requires Enabled(c, s, a)
  {
    match a
    case TestTheContext =>
      if |s.workers| >= c.items then s.(launcher := Wait)
      else if s.cancelled then s.(launcher := Wait, failed := true)
      else s.(launcher := TestFailure)
    case TestForFailure => s.(launcher := if s.failed then Wait else Acquire)
    case TakeSlot => s.(launcher := if c.rechecks then Recheck else Launch, slots := s.slots + 1)
    case SeeCancelled => s.(launcher := if c.rechecks then Recheck else Launch, failed := true)
    case RecheckFailure => s.(launcher := if s.failed then Wait else Launch)
    case LaunchWorker => s.(launcher := TestContext, workers := s.workers + [Running(|s.workers|)])
    case Finish(i, ok) => s.(workers := s.workers[i := Finished(s.workers[i].item, ok)], failed := s.failed || !ok)
    case Release(i) => s.(workers := s.workers[i := Released(s.workers[i].item, s.workers[i].ok)], slots := s.slots - 1)
    case Return => s.(launcher := Returned(!s.failed && !s.cancelled))
    case Cancel => s.(cancelled := true)
  }

  /** States joined by enabled actions, in any interleaving. */
  ghost predicate Path(c: Config, states: seq<State>, actions: seq<Action>) {
    && |states| == |actions| + 1
    && forall k :: 0 <= k < |actions| ==>
         Enabled(c, states[k], actions[k]) && states[k + 1] == Apply(c, states[k], actions[k])
  }

  ghost predicate Run(c: Config, states: seq<State>, actions: seq<Action>) {
    Path(c, states, actions) && states[0] == Init()
  }

  ghost predicate Reachable(c: Config, s: State) {
    exists states, actions :: Run(c, states, actions) && states[|actions|] == s
  }

  lemma InitIsReachable(c: Config)
    ensures Reachable(c, Init())
  {
    assert Run(c, [Init()], []);
  }

  lemma StepIsReachable(c: Config, s: State, a: Action)
    requires Reachable(c, s) && Enabled(c, s, a)
    ensures Reachable(c, Apply(c, s, a))
  {
    hide Enabled, Apply;
    var states, actions :| Run(c, states, actions) && states[|actions|] == s;
    assert Run(c, states + [Apply(c, s, a)], actions + [a]);
  }

  // ---- the invariant ----

  /** Workers whose slot is not given back yet. */
  function Active(workers: seq<Worker>): nat {
    if workers == [] then 0
    else Active(workers[..|workers| - 1]) + (if workers[|workers| - 1].Released? then 0 else 1)
  }

  function RunningCount(workers: seq<Worker>): nat {
    if workers == [] then 0
    else RunningCount(workers[..|workers| - 1]) + (if workers[|workers| - 1].Running? then 1 else 0)
  }

  /** Worker i works on item i, so no item starts twice. */
  predicate OneEach(c: Config, s: State) {
    && |s.workers| <= c.items
    && (forall i :: 0 <= i < |s.workers| ==> s.workers[i].item == i)
    && (s.launcher in {TestFailure, Acquire, Recheck, Launch} ==> |s.workers| < c.items)
    && (s.launcher.Returned? ==> AllReleased(s.workers))
  }

  predicate Outcomes(c: Config, s: State) {
    && (!s.failed ==> forall i :: 0 <= i < |s.workers| && !s.workers[i].Running? ==> s.workers[i].ok)
    && (s.failed ==> s.cancelled || exists i :: 0 <= i < |s.workers| && !s.workers[i].Running? && !s.workers[i].ok)
    && (s.launcher.Wait? && !s.failed ==> |s.workers| == c.items)
    && (s.launcher.Returned? && s.launcher.ok ==> !s.failed && |s.workers| == c.items)
    && (s.launcher.Returned? && !s.launcher.ok ==> s.failed || s.cancelled)
  }

  /** The tokens in the channel: one per active worker, and the launcher's own between taking a slot and launching. */
  predicate Tokens(c: Config, s: State) {
    && s.slots <= c.concurrency
    && match s.launcher
       case TestContext => s.slots == Active(s.workers)
       case TestFailure => s.slots == Active(s.workers)
       case Acquire => s.slots == Active(s.workers)
       case Recheck => s.slots == Active(s.workers) + 1 || (s.failed && s.slots == Active(s.workers))
       case Launch => s.slots == Active(s.workers) + 1
       case Wait => Active(s.workers) <= s.slots <= Active(s.workers) + 1
       case Returned(_) => Active(s.workers) <= s.slots <= Active(s.workers) + 1
  }

  /** The token count is only promised with the recheck, or while nothing was cancelled. */
  predicate Inv(c: Config, s: State) {
    OneEach(c, s) && Outcomes(c, s) && (c.rechecks || !s.cancelled ==> Tokens(c, s))
  }

  lemma {:induction false} ActiveUpdate(workers: seq<Worker>, i: nat, w: Worker)
    requires i < |workers|
    ensures Active(workers[i := w]) ==
            Active(workers) - (if workers[i].Released? then 0 else 1) + (if w.Released? then 0 else 1)
    ensures RunningCount(workers[i := w]) ==
            RunningCount(workers) - (if workers[i].Running? then 1 else 0) + (if w.Running? then 1 else 0)
    decreases |workers|
  {
    var n := |workers| - 1;
    if i == n {
      assert workers[i := w][..n] == workers[..n];
    } else {
      assert workers[i := w][..n] == workers[..n][i := w];
      ActiveUpdate(workers[..n], i, w);
    }
  }

  lemma {:induction false} SomeAreActive(workers: seq<Worker>)
    ensures Active(workers) == 0 <==> AllReleased(workers)
    ensures RunningCount(workers) <= Active(workers) <= |workers|
  {
    if workers != [] {
      SomeAreActive(workers[..|workers| - 1]);
    }
  }

  lemma ActiveAppend(workers: seq<Worker>, item: nat)
    ensures Active(workers + [Running(item)]) == Active(workers) + 1
    ensures RunningCount(workers + [Running(item)]) == RunningCount(workers) + 1
  {
  }

  lemma WorkerStepCounts(c: Config, s: State, a: Action)
    requires Enabled(c, s, a) && (a.Finish? || a.Release? || a.LaunchWorker?)
    ensures Active(Apply(c, s, a).workers) ==
            Active(s.workers) + (if a.LaunchWorker? then 1 else if a.Release? then -1 else 0)
  {
    hide Active, RunningCount;
    if a.LaunchWorker? {
      ActiveAppend(s.workers, |s.workers|);
    } else {
      ActiveUpdate(s.workers, a.worker, Apply(c, s, a).workers[a.worker]);
    }
  }

  lemma StepKeepsTokens(c: Config, s: State, a: Action)
    requires Tokens(c, s) && Enabled(c, s, a) && (c.rechecks || !a.SeeCancelled?)
    ensures Tokens(c, Apply(c, s, a))
  {
    hide Active;
    if a.Finish? || a.Release? || a.LaunchWorker? {
      WorkerStepCounts(c, s, a);
    }
  }

  lemma StepKeepsInv(c: Config, s: State, a: Action)
    requires Inv(c, s) && Enabled(c, s, a)
    ensures Inv(c, Apply(c, s, a))
  {
    hide Tokens, Active;
    StepKeepsOutcomes(c, s, a);
    if c.rechecks || !Apply(c, s, a).cancelled {
      StepKeepsTokens(c, s, a);
    }
  }

  lemma StepKeepsOutcomes(c: Config, s: State, a: Action)
    requires OneEach(c, s) && Outcomes(c, s) && Enabled(c, s, a)
    ensures Outcomes(c, Apply(c, s, a))
  {
    var t := Apply(c, s, a);
    if s.failed && !s.cancelled {
      var i :| 0 <= i < |s.workers| && !s.workers[i].Running? && !s.workers[i].ok;
      assert t.workers[i].ok == s.workers[i].ok;
    } else if a.Finish? {
      assert t.workers[a.worker].ok == a.ok;
    }
  }

  lemma {:induction false} RunKeepsInv(c: Config, states: seq<State>, actions: seq<Action>, k: nat)
    requires Run(c, states, actions) && k <= |actions|
    ensures Inv(c, states[k])
  {
    hide Inv, Enabled, Apply;
    if k == 0 {
      InitHolds(c);
    } else {
      RunKeepsInv(c, states, actions, k - 1);
      StepKeepsInv(c, states[k - 1], actions[k - 1]);
    }
  }

  lemma InitHolds(c: Config)
    ensures Inv(c, Init())
  {
  }

  lemma ReachableInv(c: Config, s: State)
    requires Reachable(c, s)
    ensures Inv(c, s)
  {
    hide Inv;
    var states, actions :| Run(c, states, actions) && states[|actions|] == s;
    RunKeepsInv(c, states, actions, |actions|);
  }

  // ---- what every interleaving keeps ----

  /**
   With the recheck, at most the configured number of callbacks are in flight and every active
   worker's slot is there to give back.
   */
  lemma InFlightIsBounded(c: Config, s: State)
    requires Reachable(c, s) && (c.rechecks || !s.cancelled)
    ensures RunningCount(s.workers) <= c.concurrency
    ensures forall i :: 0 <= i < |s.workers| && s.workers[i].Finished? ==> Enabled(c, s, Release(i))
  {
    hide Active, RunningCount, Reachable;
    ReachableInv(c, s);
    SomeAreActive(s.workers);
    assert Active(s.workers) <= s.slots;
  }

  /** Items start in order and no two workers have the same, whatever is cancelled. */
  lemma EachItemStartsOnce(c: Config, s: State)
    requires Reachable(c, s)
    ensures |s.workers| <= c.items && forall i :: 0 <= i < |s.workers| ==> s.workers[i].item == i
    ensures forall i, j :: 0 <= i < j < |s.workers| ==> s.workers[i].item != s.workers[j].item
  {
    hide Reachable, Tokens;
    ReachableInv(c, s);
  }

  /** A nil result means every item was given to the callback and it succeeded on each. */
  lemma NilMeansAllSucceeded(c: Config, s: State)
    requires Reachable(c, s) && s.launcher == Returned(true)
    ensures |s.workers| == c.items
    ensures forall i :: 0 <= i < c.items ==> s.workers[i] == Released(i, true)
  {
    hide Reachable, Tokens;
    ReachableInv(c, s);
  }

  /** And an error means the run was cancelled or a callback failed. */
  lemma ErrorHasACause(c: Config, s: State)
    requires Reachable(c, s) && s.launcher == Returned(false)
    ensures s.cancelled || exists i :: 0 <= i < |s.workers| && s.workers[i].Released? && !s.workers[i].ok
  {
    hide Reachable, Tokens;
    ReachableInv(c, s);
  }

  lemma CancellationStays(c: Config, s: State, a: Action)
    requires s.cancelled && Enabled(c, s, a)
    ensures var t := Apply(c, s, a);
            t.cancelled && (t.launcher == Returned(true) ==> s.launcher == Returned(true))
  {
  }

  /** A cancellation before the call returns is surfaced: it returns an error, even if every item succeeded. */
  lemma {:induction false} CancelledRunFails(c: Config, states: seq<State>, actions: seq<Action>, j: nat, k: nat)
    requires Run(c, states, actions) && j <= k <= |actions|
    requires states[j].cancelled && !states[j].launcher.Returned?
    ensures states[k].cancelled && states[k].launcher != Returned(true)
  {
    hide Enabled, Apply;
    if j < k {
      CancelledRunFails(c, states, actions, j, k - 1);
      CancellationStays(c, states[k - 1], actions[k - 1]);
    }
  }

  /** Past the last look at the failure: about to launch, or without the recheck already waiting for a slot. */
  predicate PastTheTest(c: Config, s: State) {
    s.launcher.Launch? || (!c.rechecks && s.launcher.Acquire?)
  }

  /** Workers launched, and the one the launcher is already committed to. */
  function Committed(c: Config, s: State): nat {
    |s.workers| + if PastTheTest(c, s) then 1 else 0
  }

  lemma FailureCommitsNoMore(c: Config, s: State, a: Action)
    requires s.failed && Enabled(c, s, a)
    ensures var t := Apply(c, s, a); t.failed && |s.workers| <= |t.workers| && Committed(c, t) <= Committed(c, s)
  {
  }

  /**
   From the moment a failure is set no run of either version launches anything more, except
   the one worker the launcher may already be committed to.
   */
  lemma {:induction false} FailureStopsLaunching(c: Config, states: seq<State>, actions: seq<Action>, j: nat, k: nat)
    requires Run(c, states, actions) && j <= k <= |actions| && states[j].failed
    ensures states[k].failed && |states[j].workers| <= |states[k].workers|
    ensures Committed(c, states[k]) <= Committed(c, states[j])
    ensures !PastTheTest(c, states[j]) ==> |states[k].workers| == |states[j].workers|
  {
    hide Enabled, Apply;
    if j < k {
      FailureStopsLaunching(c, states, actions, j, k - 1);
      FailureCommitsNoMore(c, states[k - 1], actions[k - 1]);
    }
  }

  // ---- progress ----

  lemma NotAllReleased(workers: seq<Worker>) returns (i: nat)
    requires !AllReleased(workers)
    ensures i < |workers| && !workers[i].Released?
  {
    i :| i < |workers| && !workers[i].Released?;
  }

  lemma ActiveCanMove(c: Config, s: State) returns (a: Action)
    requires Tokens(c, s) && !AllReleased(s.workers)
    ensures (a.Finish? || a.Release?) && Enabled(c, s, a)
  {
    hide AllReleased, RunningCount;
    SomeAreActive(s.workers);
    var i := NotAllReleased(s.workers);
    a := if s.workers[i].Running? then Finish(i, true) else Release(i);
  }

  /** While the tokens add up there is a step forward that sees no cancellation. */
  lemma TokensLetItMove(c: Config, s: State) returns (a: Action)
    requires Tokens(c, s) && c.concurrency >= 1 && !s.launcher.Returned?
    ensures !a.Cancel? && !a.SeeCancelled? && Enabled(c, s, a)
  {
    hide Active, AllReleased;
    SomeAreActive(s.workers);
    if !AllReleased(s.workers) && (s.launcher.Wait? || s.launcher.Acquire?) {
      a := ActiveCanMove(c, s);
    } else {
      match s.launcher
      case TestContext => a := TestTheContext;
      case TestFailure => a := TestForFailure;
      case Acquire => a := TakeSlot;
      case Recheck => a := RecheckFailure;
      case Launch => a := LaunchWorker;
      case Wait => a := Return;
    }
  }

  /** Some step other than a cancellation is possible until the call returns. */
  lemma NeverStuck(c: Config, s: State) returns (a: Action)
    requires Reachable(c, s) && c.concurrency >= 1 && (c.rechecks || !s.cancelled) && !s.launcher.Returned?
    ensures !a.Cancel? && Enabled(c, s, a)
  {
    hide Reachable, Tokens;
    ReachableInv(c, s);
    a := TokensLetItMove(c, s);
  }

  function WorkersRank(workers: seq<Worker>): nat {
    if workers == [] then 0
    else WorkersRank(workers[..|workers| - 1]) + WorkerRank(workers[|workers| - 1])
  }

  function WorkerRank(w: Worker): nat {
    match w case Running(_) => 2 case Finished(_, _) => 1 case Released(_, _) => 0
  }

  function LauncherRank(l: Launcher): nat {
    match l
    case TestContext => 5
    case TestFailure => 4
    case Acquire => 3
    case Recheck => 2
    case Launch => 1
    case Wait => 1
    case Returned(_) => 0
  }

  function Rank(c: Config, s: State): int {
    7 * (c.items - |s.workers|) + LauncherRank(s.launcher) + WorkersRank(s.workers)
  }

  lemma {:induction false} RankUpdate(workers: seq<Worker>, i: nat, w: Worker)
    requires i < |workers|
    ensures WorkersRank(workers[i := w]) == WorkersRank(workers) - WorkerRank(workers[i]) + WorkerRank(w)
    decreases |workers|
  {
    var n := |workers| - 1;
    if i == n {
      assert workers[i := w][..n] == workers[..n];
    } else {
      assert workers[i := w][..n] == workers[..n][i := w];
      RankUpdate(workers[..n], i, w);
    }
  }

  /** Every step but a cancellation lowers the rank. */
  lemma StepLowersRank(c: Config, s: State, a: Action)
    requires Inv(c, s) && Enabled(c, s, a)
    ensures 0 <= Rank(c, s) && Rank(c, Init()) == 7 * c.items + 5
    ensures if a.Cancel? then Rank(c, Apply(c, s, a)) == Rank(c, s) else Rank(c, Apply(c, s, a)) < Rank(c, s)
  {
    var t := Apply(c, s, a);
    if a.LaunchWorker? {
      assert t.workers[..|s.workers|] == s.workers;
    } else if a.Finish? || a.Release? {
      hide WorkersRank;
      RankUpdate(s.workers, a.worker, t.workers[a.worker]);
    }
  }

  function OwnActions(actions: seq<Action>): nat {
    if actions == [] then 0
    else OwnActions(actions[..|actions| - 1]) + (if actions[|actions| - 1].Cancel? then 0 else 1)
  }

  /** Every run of either version stops moving within seven steps an item and five more. */
  lemma {:induction false} RunsEnd(c: Config, states: seq<State>, actions: seq<Action>)
    requires Run(c, states, actions)
    ensures OwnActions(actions) + Rank(c, states[|actions|]) <= 7 * c.items + 5
    ensures OwnActions(actions) <= 7 * c.items + 5
  {
    hide Enabled, Apply, Rank, Inv;
    InitHolds(c);
    RunKeepsInv(c, states, actions, |actions|);
    StepLowersRank(c, states[|actions|], Cancel) by {
      CancelIsEnabled(c, states[|actions|]);
    }
    if actions != [] {
      var n := |actions| - 1;
      assert Run(c, states[..n + 1], actions[..n]);
      RunsEnd(c, states[..n + 1], actions[..n]);
      RunKeepsInv(c, states, actions, n);
      StepLowersRank(c, states[n], actions[n]);
    }
  }

  lemma CancelIsEnabled(c: Config, s: State)
    ensures Enabled(c, s, Cancel)
  {
  }

  // ---- the version without the recheck ----

  /**
   Cancelled while waiting for its first slot, the launcher starts a worker that holds
   none; that worker then waits for ever to give one back.
   */
  lemma WithoutRecheckCanStick(c: Config) returns (s: State)
    requires !c.rechecks && c.items >= 1
    ensures Reachable(c, s) && !s.launcher.Returned?
    ensures forall a: Action :: Enabled(c, s, a) ==> a.Cancel?
  {
    hide Reachable;
    InitIsReachable(c);
    var s0 := Init();
    StepIsReachable(c, s0, TestTheContext);
    var s1 := Apply(c, s0, TestTheContext);
    StepIsReachable(c, s1, TestForFailure);
    var s2 := Apply(c, s1, TestForFailure);
    StepIsReachable(c, s2, Cancel);
    var s3 := Apply(c, s2, Cancel);
    StepIsReachable(c, s3, SeeCancelled);
    var s4 := Apply(c, s3, SeeCancelled);
    StepIsReachable(c, s4, LaunchWorker);
    var s5 := Apply(c, s4, LaunchWorker);
    StepIsReachable(c, s5, Finish(0, true));
    var s6 := Apply(c, s5, Finish(0, true));
    StepIsReachable(c, s6, TestTheContext);
    s := Apply(c, s6, TestTheContext);
    assert s.workers == [Finished(0, true)] && s.slots == 0 && s.launcher.Wait?;
    assert !s.workers[0].Released?;
  }

  ghost predicate CanMove(c: Config, s: State) {
    exists a: Action :: !a.Cancel? && Enabled(c, s, a)
  }

  /** On the parallel path the loop is free of deadlock exactly when it rechecks. */
  lemma DeadlockFreeIffRechecks(c: Config)
    requires c.concurrency >= 2 && c.items >= 2
    ensures (forall s :: Reachable(c, s) && !s.launcher.Returned? ==> CanMove(c, s)) <==> c.rechecks
  {
    hide Reachable, Enabled;
    if c.rechecks {
      forall s | Reachable(c, s) && !s.launcher.Returned? ensures CanMove(c, s) {
        var a := NeverStuck(c, s);
      }
    } else {
      var s := WithoutRecheckCanStick(c);
    }
  }

  // ---- which runs can still return ----

  ghost predicate ReturnsBy(c: Config, s: State, states: seq<State>, actions: seq<Action>) {
    Path(c, states, actions) && states[0] == s && states[|actions|].launcher.Returned?
  }

  /** The call can still come back from here, with the right interleaving. */
  ghost predicate CanReturn(c: Config, s: State) {
    exists states, actions :: ReturnsBy(c, s, states, actions)
  }

  lemma {:induction false} RunKeepsTokens(c: Config, states: seq<State>, actions: seq<Action>, k: nat)
    requires Run(c, states, actions) && k <= |actions| && (c.rechecks || SeeCancelled !in actions)
    ensures Tokens(c, states[k])
  {
    hide Tokens, Enabled, Apply;
    if k == 0 {
      InitHasTokens(c);
    } else {
      RunKeepsTokens(c, states, actions, k - 1);
      StepKeepsTokens(c, states[k - 1], actions[k - 1]);
    }
  }

  lemma InitHasTokens(c: Config)
    ensures Tokens(c, Init())
  {
  }

  lemma {:induction false} TokensLetItReturn(c: Config, s: State)
    requires Inv(c, s) && Tokens(c, s) && c.concurrency >= 1
    ensures CanReturn(c, s)
    decreases Rank(c, s)
  {
    hide Tokens, Inv, Enabled, Apply, Rank;
    if s.launcher.Returned? {
      assert ReturnsBy(c, s, [s], []);
    } else {
      var a := TokensLetItMove(c, s);
      var t := Apply(c, s, a);
      StepKeepsInv(c, s, a);
      StepKeepsTokens(c, s, a);
      StepLowersRank(c, s, a);
      TokensLetItReturn(c, t);
      var states, actions :| ReturnsBy(c, t, states, actions);
      assert ReturnsBy(c, s, [s] + states, [a] + actions);
    }
  }

  /** A token is missing: the launcher is about to start a worker without one, or has. */
  predicate Short(s: State) {
    && s.cancelled
    && match s.launcher
       case Launch => s.slots == Active(s.workers)
       case TestContext => s.slots + 1 == Active(s.workers)
       case Wait => s.slots + 1 == Active(s.workers)
       case _ => false
  }

  lemma StaysShort(c: Config, s: State, a: Action)
    requires Short(s) && Enabled(c, s, a)
    ensures Short(Apply(c, s, a))
  {
    hide Active, AllReleased;
    SomeAreActive(s.workers);
    if a.Finish? || a.Release? || a.LaunchWorker? {
      WorkerStepCounts(c, s, a);
    }
  }

  /** The first cancellation seen while waiting for a slot leaves the tokens one short for good. */
  lemma {:induction false} SeenOnceIsShort(c: Config, states: seq<State>, actions: seq<Action>)
    requires !c.rechecks && Run(c, states, actions) && SeeCancelled in actions
    ensures Short(states[|actions|])
  {
    hide Enabled, Apply, Short, Tokens;
    var n := |actions| - 1;
    assert Run(c, states[..n + 1], actions[..n]);
    assert actions == actions[..n] + [actions[n]];
    if SeeCancelled in actions[..n] {
      SeenOnceIsShort(c, states[..n + 1], actions[..n]);
      StaysShort(c, states[n], actions[n]);
    } else {
      RunKeepsTokens(c, states[..n + 1], actions[..n], n);
      SeeingIsShort(c, states[n]);
    }
  }

  lemma SeeingIsShort(c: Config, s: State)
    requires !c.rechecks && Tokens(c, s) && Enabled(c, s, SeeCancelled)
    ensures Short(Apply(c, s, SeeCancelled))
  {
  }

  lemma {:induction false} ShortNeverReturns(c: Config, states: seq<State>, actions: seq<Action>, k: nat)
    requires Path(c, states, actions) && k <= |actions| && Short(states[0])
    ensures Short(states[k]) && !states[k].launcher.Returned?
  {
    if k > 0 {
      hide Short, Enabled, Apply;
      ShortNeverReturns(c, states, actions, k - 1);
      StaysShort(c, states[k - 1], actions[k - 1]);
    }
  }

  /**
   Exactly the runs that can still return: all of them with the recheck; without it those
   in which the launcher never saw the cancellation while it waited for a slot.
   */
  lemma ReturnsIff(c: Config, states: seq<State>, actions: seq<Action>)
    requires Run(c, states, actions) && c.concurrency >= 1
    ensures CanReturn(c, states[|actions|]) <==> c.rechecks || SeeCancelled !in actions
  {
    hide Inv, Tokens, Short, Enabled, Apply;
    var s := states[|actions|];
    if c.rechecks || SeeCancelled !in actions {
      RunKeepsInv(c, states, actions, |actions|);
      RunKeepsTokens(c, states, actions, |actions|);
      TokensLetItReturn(c, s);
    } else {
      SeenOnceIsShort(c, states, actions);
      forall states', actions' ensures !ReturnsBy(c, s, states', actions') {
        if ReturnsBy(c, s, states', actions') {
          ShortNeverReturns(c, states', actions', |actions'|);
        }
      }
    }
  }

  // ---- the sequential path ----

  /** With one slot or at most one item both versions loop: the first cancellation or failure seen stops it. */
  method ForEachSequential(items: nat, cancelled: nat -> bool, succeeds: nat -> bool) returns (ok: bool, started: nat)
    ensures started <= items
    ensures forall i :: 0 <= i < started ==> !cancelled(i)
    ensures ok <==> started == items && forall i :: 0 <= i < items ==> succeeds(i)
    ensures !ok ==> (started < items && cancelled(started)) || (started > 0 && !succeeds(started - 1))
    ensures forall i :: 0 <= i < started - 1 ==> succeeds(i)
  {
    started := 0;
    while started < items
      invariant started <= items
      invariant forall i :: 0 <= i < started ==> !cancelled(i) && succeeds(i)
    {
      if cancelled(started) {
        return false, started;
      }
      started := started + 1;
      if !succeeds(started - 1) {
        return false, started;
      }
    }
    ok := true;
  }
}
