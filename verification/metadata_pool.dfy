/**
 Backing up one metadata collection (internal/backup/metadata.go, syncCollection and
 processItem): a lister feeding a bounded channel, workers uploading one document per
 item, cancellation at any moment. Every interleaving of their steps is a run.
 */
module MetadataPool {
  import opened Collections

  /** Items are told apart by number; nothing here looks inside one. */
  type Item = nat

  /**
   The configured concurrency is the number of workers and the channel's capacity. The
   program is the gated version: the manifest upload looks at the cancellation first.
   */
  datatype Config = Config(workers: nat, slug: Item -> string, gated: bool)
  {
    predicate Valid() { workers >= 1 }
  }

  datatype Lister = Listing | Offering(item: Item) | Ended(failed: bool)

  datatype Worker = Idle | Processing(item: Item) | Uploaded(item: Item) | Failing(item: Item) | Exited

  /** The channel is open while Producing; Writing has passed the manifest upload's cancellation check. */
  datatype Phase = Producing | Draining | Writing | Reconciling | Returned(completed: bool)

  datatype State = State(
    lister: Lister, channel: seq<Item>, workers: seq<Worker>, phase: Phase,
    offered: set<Item>,      // every item the listing has produced so far
    uploaded: set<Item>,     // items whose document the store accepted
    fetched: set<string>,    // recorded slugs
    cancelled: bool, anyItemFailed: bool)

  datatype Action =
    | Offer(item: Item) | Send | GiveUp | EndListing(failed: bool)
    | CloseItems
    | Take(worker: nat) | Leave(worker: nat)
    | Upload(worker: nat, ok: bool) | Record(worker: nat) | Settle(worker: nat)
    | Conclude | WriteManifest(ok: bool) | Cancel

  function Init(c: Config): State {
    State(Listing, [], seq(c.workers, _ => Idle), Producing, {}, {}, {}, false, false)
  }

  predicate AllExited(workers: seq<Worker>) {
    forall i :: 0 <= i < |workers| ==> workers[i].Exited?
  }

  predicate Enabled(c: Config, s: State, a: Action) {
    match a
    case Offer(_) => s.lister.Listing?
    case Send => s.lister.Offering? && |s.channel| < c.workers
    case GiveUp => s.lister.Offering? && s.cancelled
    case EndListing(_) => s.lister.Listing?
    case CloseItems => s.phase.Producing? && s.lister.Ended?
    case Take(i) => i < |s.workers| && s.workers[i].Idle? && s.channel != []
    case Leave(i) => i < |s.workers| && s.workers[i].Idle? && s.channel == [] && !s.phase.Producing?
    case Upload(i, _) => i < |s.workers| && s.workers[i].Processing?
    case Record(i) => i < |s.workers| && s.workers[i].Uploaded?
    case Settle(i) => i < |s.workers| && s.workers[i].Failing?
    case Conclude => s.phase.Draining? && AllExited(s.workers) && s.lister.Ended?
    case WriteManifest(_) => s.phase.Writing?
    case Cancel => true
  }

  function Apply(c: Config, s: State, a: Action): State
    requires Enabled(c, s, a)
  {
    match a
    case Offer(item) => s.(lister := Offering(item), offered := s.offered + {item})
    case Send => s.(lister := Listing, channel := s.channel + [s.lister.item])
    case GiveUp => s.(lister := Listing)   // the provider client sees the cancellation error and may do anything next
    case EndListing(failed) => s.(lister := Ended(failed))
    case CloseItems => s.(phase := Draining)
    case Take(i) => s.(workers := s.workers[i := Processing(s.channel[0])], channel := s.channel[1..])
    case Leave(i) => s.(workers := s.workers[i := Exited])
    case Upload(i, ok) =>
      var item := s.workers[i].item;
      if ok then s.(workers := s.workers[i := Uploaded(item)], uploaded := s.uploaded + {item})
      else s.(workers := s.workers[i := Failing(item)])
    case Record(i) => s.(workers := s.workers[i := Idle], fetched := s.fetched + {c.slug(s.workers[i].item)})
    case Settle(i) =>
      if s.cancelled then s.(workers := s.workers[i := Exited])
      else s.(workers := s.workers[i := Idle], anyItemFailed := true)
    case Conclude => s.(phase := if s.lister.failed || (c.gated && s.cancelled) then Returned(false) else Writing)
    case WriteManifest(ok) =>
      s.(phase := if !ok then Returned(false) else if s.anyItemFailed then Returned(true) else Reconciling)
    case Cancel => s.(cancelled := true)
  }

  ghost predicate Run(c: Config, states: seq<State>, actions: seq<Action>) {
    && |states| == |actions| + 1 && states[0] == Init(c)
    && forall k :: 0 <= k < |actions| ==>
         Enabled(c, states[k], actions[k]) && states[k + 1] == Apply(c, states[k], actions[k])
  }

  ghost predicate Reachable(c: Config, s: State) {
    exists states, actions :: Run(c, states, actions) && states[|actions|] == s
  }

  // ---- where every listed item is ----

  predicate Holds(w: Worker, item: Item) {
    (w.Processing? || w.Uploaded? || w.Failing?) && w.item == item
  }

  /** In the lister's hand, in the channel, or with a worker. */
  ghost predicate InFlight(s: State, item: Item) {
    || (s.lister.Offering? && s.lister.item == item)
    || item in s.channel
    || exists i :: 0 <= i < |s.workers| && Holds(s.workers[i], item)
  }

  predicate IsRecorded(c: Config, s: State, item: Item) {
    item in s.uploaded && c.slug(item) in s.fetched
  }

  /** Unless the run was cancelled or an item failed, every listed item is on its way or recorded. */
  ghost predicate Tracked(c: Config, s: State) {
    s.cancelled || s.anyItemFailed || forall item :: item in s.offered ==> InFlight(s, item) || IsRecorded(c, s, item)
  }

  predicate UploadedFirst(s: State) {
    forall i :: 0 <= i < |s.workers| && s.workers[i].Uploaded? ==> s.workers[i].item in s.uploaded
  }

  predicate Shape(c: Config, s: State) {
    && |s.workers| == c.workers && |s.channel| <= c.workers
    && (!s.phase.Producing? ==> s.lister.Ended?)
    && (!s.cancelled ==>
          forall i :: 0 <= i < |s.workers| && s.workers[i].Exited? ==> !s.phase.Producing? && s.channel == [])
  }

  /** What held when the pool was found drained, without a listing error or a cancellation, holds ever after. */
  ghost predicate Complete(c: Config, s: State) {
    c.gated && (s.phase.Writing? || s.phase.Reconciling?) ==>
      && AllExited(s.workers) && s.lister == Ended(false)
      && (s.phase.Reconciling? ==> !s.anyItemFailed)
      && (s.anyItemFailed || forall item :: item in s.offered ==> IsRecorded(c, s, item))
  }

  ghost predicate Inv(c: Config, s: State) {
    Shape(c, s) && UploadedFirst(s) && Tracked(c, s) && Complete(c, s)
  }

  // ---- every step keeps it ----

  lemma InHand(s: State, i: nat, item: Item)
    requires i < |s.workers| && Holds(s.workers[i], item)
    ensures InFlight(s, item)
  {
  }

  /** A step of the lister loses no item: offering and sending keep it in flight, giving up needs a cancellation. */
  lemma ListerKeepsTracked(c: Config, s: State, a: Action)
    requires Tracked(c, s) && Enabled(c, s, a) && (a.Offer? || a.Send? || a.GiveUp? || a.EndListing?)
    ensures Tracked(c, Apply(c, s, a))
  {
  }

  /** A step of worker i loses no item either: what it held it still holds, has recorded, or has failed on. */
  lemma WorkerKeepsTracked(c: Config, s: State, a: Action, i: nat)
    requires Tracked(c, s) && UploadedFirst(s) && Enabled(c, s, a)
    requires a == Take(i) || a == Leave(i) || (a.Upload? && a.worker == i) || a == Record(i) || a == Settle(i)
    ensures Tracked(c, Apply(c, s, a))
  {
    var t := Apply(c, s, a);
    forall item | item in t.offered && !t.cancelled && !t.anyItemFailed
      ensures InFlight(t, item) || IsRecorded(c, t, item)
    {
      if IsRecorded(c, s, item) {
      } else if s.lister.Offering? && s.lister.item == item {
      } else if item in s.channel {
        if a == Take(i) && s.channel[0] == item {
          InHand(t, i, item);
        } else {
          StillQueued(s.channel, item);
        }
      } else {
        var j :| 0 <= j < |s.workers| && Holds(s.workers[j], item);
        if j != i || a.Upload? {
          InHand(t, j, item);
        } else {
          assert a == Record(i) && s.workers[i].item == item;
        }
      }
    }
  }

  lemma StillQueued(channel: seq<Item>, item: Item)
    requires item in channel
    ensures channel[0] == item || item in channel[1..]
  {
  }

  lemma StepKeepsTracked(c: Config, s: State, a: Action)
    requires Tracked(c, s) && UploadedFirst(s) && Enabled(c, s, a)
    ensures Tracked(c, Apply(c, s, a))
  {
    hide InFlight, IsRecorded;
    match a {
      case Offer(_) => ListerKeepsTracked(c, s, a);
      case Send => ListerKeepsTracked(c, s, a);
      case GiveUp => ListerKeepsTracked(c, s, a);
      case EndListing(_) => ListerKeepsTracked(c, s, a);
      case Take(i) => WorkerKeepsTracked(c, s, a, i);
      case Leave(i) => WorkerKeepsTracked(c, s, a, i);
      case Upload(i, _) => WorkerKeepsTracked(c, s, a, i);
      case Record(i) => WorkerKeepsTracked(c, s, a, i);
      case Settle(i) => WorkerKeepsTracked(c, s, a, i);
      case _ => SameTracking(c, s, a);
    }
  }

  lemma SameTracking(c: Config, s: State, a: Action)
    requires Tracked(c, s) && Enabled(c, s, a) && (a.CloseItems? || a.Conclude? || a.WriteManifest? || a.Cancel?)
    ensures Tracked(c, Apply(c, s, a))
  {
  }

  lemma StepKeepsShape(c: Config, s: State, a: Action)
    requires c.Valid() && Shape(c, s) && UploadedFirst(s) && Enabled(c, s, a)
    ensures Shape(c, Apply(c, s, a)) && UploadedFirst(Apply(c, s, a))
  {
  }

  /** Concluding with neither a listing error nor a cancellation finds nothing in flight. */
  lemma DrainedIsComplete(c: Config, s: State)
    requires c.Valid() && Shape(c, s) && Tracked(c, s) && Enabled(c, s, Conclude)
    requires !s.lister.failed && !s.cancelled && !s.anyItemFailed
    ensures forall item :: item in s.offered ==> IsRecorded(c, s, item)
  {
    hide IsRecorded;
    assert s.workers[0].Exited? && s.channel == [];
    forall item ensures !InFlight(s, item) {
    }
  }

  lemma StepKeepsComplete(c: Config, s: State, a: Action)
    requires c.Valid() && Shape(c, s) && Tracked(c, s) && Complete(c, s) && Enabled(c, s, a)
    ensures Complete(c, Apply(c, s, a))
  {
    hide Tracked;
    if a.Conclude? && c.gated && !s.lister.failed && !s.cancelled && !s.anyItemFailed {
      DrainedIsComplete(c, s);
    }
  }

  lemma StepKeepsInv(c: Config, s: State, a: Action)
    requires c.Valid() && Inv(c, s) && Enabled(c, s, a)
    ensures Inv(c, Apply(c, s, a))
  {
    StepKeepsTracked(c, s, a);
    StepKeepsComplete(c, s, a);
    StepKeepsShape(c, s, a);
    hide Shape, UploadedFirst, Tracked, Complete, Apply, Enabled;
  }

  lemma InitHolds(c: Config)
    requires c.Valid()
    ensures Inv(c, Init(c))
  {
  }

  lemma {:induction false} RunKeepsInv(c: Config, states: seq<State>, actions: seq<Action>, k: nat)
    requires c.Valid() && Run(c, states, actions) && k <= |actions|
    ensures Inv(c, states[k])
  {
    hide Inv, Enabled, Apply;
    if k == 0 {
      InitHolds(c);
    } else {
      RunKeepsInv(c, states, actions, k - 1);
      StepKeepsInv(c, states[k - 1], actions[k - 1]);
    }
  }

  lemma ReachableInv(c: Config, s: State)
    requires c.Valid() && Reachable(c, s)
    ensures Inv(c, s)
  {
    hide Inv;
    var states, actions :| Run(c, states, actions) && states[|actions|] == s;
    RunKeepsInv(c, states, actions, |actions|);
  }

  // ---- what that buys ----

  /**
   Reconciliation, the only step that deletes, is reached only when the listing ended
   without error and the document of every item it produced was uploaded and its slug
   recorded, whatever was cancelled and however the steps interleaved.
   */
  lemma DeletesOnlyAfterACompletePass(c: Config, s: State)
    requires c.Valid() && c.gated && Reachable(c, s) && s.phase.Reconciling?
    ensures s.lister == Ended(false) && !s.anyItemFailed
    ensures forall item :: item in s.offered ==> item in s.uploaded && c.slug(item) in s.fetched
  {
    hide Reachable, Shape, UploadedFirst, Tracked;
    ReachableInv(c, s);
  }

  /** The item a worker has, or a stand-in. */
  function InHands(w: Worker, other: Item): Item {
    if w.Processing? || w.Uploaded? || w.Failing? then w.item else other
  }

  /** However slow the workers are, the listing runs ahead of them by no more than the channel and one item. */
  lemma BacklogIsBounded(c: Config, s: State, items: set<Item>)
    requires c.Valid() && Reachable(c, s) && forall item :: item in items ==> InFlight(s, item)
    ensures |items| <= 2 * c.workers + 1
  {
    ReachableInv(c, s);
    hide Reachable, Tracked, Complete, UploadedFirst;
    var offering := if s.lister.Offering? then s.lister.item else 0;
    var hands := seq(|s.workers|, i requires 0 <= i < |s.workers| => InHands(s.workers[i], offering));
    var all := s.channel + hands + [offering];
    assert all[|all| - 1] == offering;
    assert forall i :: 0 <= i < |hands| ==> hands[i] in all;
    forall item | item in items ensures item in SetOf(all) {
      if i :| 0 <= i < |s.workers| && Holds(s.workers[i], item) {
        assert hands[i] == item;
      }
    }
    SetSize(all);
    Contained(items, SetOf(all));
  }

  predicate Succeeded(s: State) {
    s.phase.Reconciling? || s.phase == Returned(true)
  }

  lemma VerdictStep(c: Config, s: State, a: Action)
    requires Enabled(c, s, a)
    ensures var t := Apply(c, s, a);
            && (Succeeded(t) <==> Succeeded(s) || a == WriteManifest(true))
            && (t.phase.Writing? || Succeeded(t) ==> s.phase.Writing? || Succeeded(s) || s.lister == Ended(false))
            && (s.lister.Ended? ==> t.lister == s.lister)
            && (t.phase == Returned(true) ==> s.phase == Returned(true) || s.anyItemFailed)
            && (s.anyItemFailed ==> t.anyItemFailed)
  {
  }

  /**
   A pass succeeds exactly when its manifest was stored, which takes a listing that ended without
   error but not that every item was backed up; it then stops short of reconciling only over a
   failed item.
   */
  lemma {:induction false} SucceedsIff(c: Config, states: seq<State>, actions: seq<Action>, k: nat)
    requires Run(c, states, actions) && k <= |actions|
    ensures Succeeded(states[k]) <==> WriteManifest(true) in actions[..k]
    ensures states[k].phase.Writing? || Succeeded(states[k]) ==> states[k].lister == Ended(false)
    ensures states[k].phase == Returned(true) ==> states[k].anyItemFailed
  {
    if k > 0 {
      hide Enabled, Apply, Succeeded;
      SucceedsIff(c, states, actions, k - 1);
      VerdictStep(c, states[k - 1], actions[k - 1]);
      assert actions[..k] == actions[..k - 1] + [actions[k - 1]];
    }
  }

  lemma SomeWorkerRemains(workers: seq<Worker>) returns (i: nat)
    requires !AllExited(workers)
    ensures i < |workers| && !workers[i].Exited?
  {
    i :| i < |workers| && !workers[i].Exited?;
  }

  /** Cancelled or not, some step of the pool's own is always possible until it returns or reconciles. */
  lemma NeverStuck(c: Config, s: State) returns (a: Action)
    requires c.Valid() && Reachable(c, s) && !s.phase.Returned? && !s.phase.Reconciling?
    ensures !a.Cancel? && Enabled(c, s, a)
  {
    hide Reachable, Tracked, Complete, UploadedFirst;
    ReachableInv(c, s);
    if s.phase.Writing? {
      a := WriteManifest(true);
    } else if s.lister.Listing? {
      a := EndListing(false);
    } else if s.lister.Offering? && (s.cancelled || |s.channel| < c.workers) {
      a := if s.cancelled then GiveUp else Send;
    } else if s.phase.Producing? && s.lister.Ended? {
      a := CloseItems;
    } else if AllExited(s.workers) {
      assert s.workers[0].Exited?;
      a := Conclude;
    } else {
      var i := SomeWorkerRemains(s.workers);
      match s.workers[i]
      case Idle => a := if s.channel == [] then Leave(i) else Take(i);
      case Processing(_) => a := Upload(i, true);
      case Uploaded(_) => a := Record(i);
      case Failing(_) => a := Settle(i);
    }
  }

  // ---- why the gate matters ----

  lemma InitIsReachable(c: Config)
    ensures Reachable(c, Init(c))
  {
    assert Run(c, [Init(c)], []);
  }

  lemma StepIsReachable(c: Config, s: State, a: Action)
    requires Reachable(c, s) && Enabled(c, s, a)
    ensures Reachable(c, Apply(c, s, a))
  {
    hide Enabled, Apply;
    var states, actions :| Run(c, states, actions) && states[|actions|] == s;
    assert Run(c, states + [Apply(c, s, a)], actions + [a]);
  }

  /** With the channel closed and empty, the workers after the first leave one by one. */
  lemma {:induction false} OthersLeave(c: Config, s: State, left: nat) returns (t: State)
    requires Reachable(c, s) && s.phase.Draining? && s.channel == []
    requires left < |s.workers| && s.workers[0].Exited?
    requires forall i :: 0 < i < |s.workers| ==> s.workers[i] == if i <= left then Idle else Exited
    ensures Reachable(c, t) && AllExited(t.workers)
    ensures t == s.(workers := t.workers)
    decreases left
  {
    hide Reachable;
    if left == 0 {
      t := s;
    } else {
      StepIsReachable(c, s, Leave(left));
      t := OthersLeave(c, Apply(c, s, Leave(left)), left - 1);
    }
  }

  /** The first worker takes the only item, fails on it because of the cancellation, and leaves without a word. */
  lemma SilentExit(c: Config) returns (s: State)
    requires c.Valid()
    ensures Reachable(c, s) && s.phase.Draining? && s.channel == [] && s.lister == Ended(false) && s.cancelled
    ensures s.offered == {0} && s.uploaded == {} && !s.anyItemFailed
    ensures s.workers == Init(c).workers[0 := Exited]
  {
    hide Reachable;
    InitIsReachable(c);
    var s0 := Init(c);
    StepIsReachable(c, s0, Offer(0));
    var s1 := Apply(c, s0, Offer(0));
    StepIsReachable(c, s1, Send);
    var s2 := Apply(c, s1, Send);
    StepIsReachable(c, s2, EndListing(false));
    var s3 := Apply(c, s2, EndListing(false));
    StepIsReachable(c, s3, CloseItems);
    var s4 := Apply(c, s3, CloseItems);
    StepIsReachable(c, s4, Cancel);
    var s5 := Apply(c, s4, Cancel);
    StepIsReachable(c, s5, Take(0));
    var s6 := Apply(c, s5, Take(0));
    StepIsReachable(c, s6, Upload(0, false));
    var s7 := Apply(c, s6, Upload(0, false));
    StepIsReachable(c, s7, Settle(0));
    s := Apply(c, s7, Settle(0));
  }

  lemma WithoutGateDeletesLive(c: Config) returns (s: State)
    requires c.Valid() && !c.gated
    ensures Reachable(c, s) && s.phase.Reconciling? && 0 in s.offered && 0 !in s.uploaded
  {
    hide Reachable;
    var s0 := SilentExit(c);
    var s1 := OthersLeave(c, s0, c.workers - 1);
    StepIsReachable(c, s1, Conclude);
    var s2 := Apply(c, s1, Conclude);
    StepIsReachable(c, s2, WriteManifest(true));
    s := Apply(c, s2, WriteManifest(true));
  }

  // ---- and a clean pass does reconcile ----

  /** Nothing went wrong, nothing is under way, and these items are recorded. */
  ghost predicate Resting(c: Config, s: State, items: set<Item>) {
    && Reachable(c, s) && s.lister == Listing && s.channel == [] && s.phase == Producing
    && s.workers == Init(c).workers && s.offered == items == s.uploaded
    && !s.cancelled && !s.anyItemFailed
  }

  /** One item through the first worker. */
  lemma ItemIsBackedUp(c: Config, s: State, items: set<Item>, item: Item) returns (t: State)
    requires c.Valid() && Resting(c, s, items)
    ensures Resting(c, t, items + {item})
  {
    hide Reachable;
    StepIsReachable(c, s, Offer(item));
    var s1 := Apply(c, s, Offer(item));
    StepIsReachable(c, s1, Send);
    var s2 := Apply(c, s1, Send);
    StepIsReachable(c, s2, Take(0));
    var s3 := Apply(c, s2, Take(0));
    StepIsReachable(c, s3, Upload(0, true));
    var s4 := Apply(c, s3, Upload(0, true));
    StepIsReachable(c, s4, Record(0));
    t := Apply(c, s4, Record(0));
    assert t.workers == Init(c).workers;
  }

  lemma {:induction false} ItemsAreBackedUp(c: Config, items: set<Item>) returns (s: State)
    requires c.Valid()
    ensures Resting(c, s, items)
  {
    if items == {} {
      InitIsReachable(c);
      s := Init(c);
    } else {
      hide Resting;
      var item :| item in items;
      var before := ItemsAreBackedUp(c, items - {item});
      s := ItemIsBackedUp(c, before, items - {item}, item);
      assert items - {item} + {item} == items;
    }
  }

  /** Whatever the items, a pass over them that nothing disturbs reaches the reconciliation. */
  lemma CleanPassReconciles(c: Config, items: set<Item>) returns (s: State)
    requires c.Valid()
    ensures Reachable(c, s) && s.phase.Reconciling? && s.offered == items
  {
    hide Reachable;
    var s0 := ItemsAreBackedUp(c, items);
    StepIsReachable(c, s0, EndListing(false));
    var s1 := Apply(c, s0, EndListing(false));
    StepIsReachable(c, s1, CloseItems);
    var s2 := Apply(c, s1, CloseItems);
    StepIsReachable(c, s2, Leave(0));
    var s3 := OthersLeave(c, Apply(c, s2, Leave(0)), c.workers - 1);
    StepIsReachable(c, s3, Conclude);
    var s4 := Apply(c, s3, Conclude);
    StepIsReachable(c, s4, WriteManifest(true));
    s := Apply(c, s4, WriteManifest(true));
  }

  ghost predicate PassWasComplete(s: State) {
    forall item :: item in s.offered ==> item in s.uploaded
  }

  /**
   A worker that leaves silently is harmless exactly because the manifest upload is gated on the
   same cancellation.
   */
  lemma SafeIffGated(c: Config)
    requires c.Valid()
    ensures (forall s :: Reachable(c, s) && s.phase.Reconciling? ==> PassWasComplete(s)) <==> c.gated
  {
    hide Reachable;
    if c.gated {
      forall s | Reachable(c, s) && s.phase.Reconciling? ensures PassWasComplete(s) {
        DeletesOnlyAfterACompletePass(c, s);
      }
    } else {
      var s := WithoutGateDeletesLive(c);
    }
  }
}
