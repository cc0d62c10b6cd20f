/**
 What a download pass, the refresh of lapsed links and an answered chunk deliver, in
 terms of what the endpoint said and the transfers did at their own ticks
 (internal/lfs/batch.go, downloadObjects; internal/lfs/lfs.go, downloadChunk).
 */
module LfsDelivery {
  import opened Wrappers
  import opened Text
  import opened LfsBatch
  import opened LfsFetch
  import opened LfsTheorems

  // ---- one object of the answer ----

  /** The endpoint will serve this oid: no error, a link, and a SHA-256 name that is the oid in some letter case. */
  predicate Offers(o: ReplyObject, oid: string) {
    && o.error.None? && o.download.Some? && o.download.value.href != ""
    && IsSha256Hex(o.oid) && ToLower(o.oid) == oid
  }

  /** Strictly before the stated instant; with none stated, unless the relative expiry is negative. */
  predicate IsFresh(link: Action, now: int) {
    match link.expiresAt
    case Some(at) => now < at
    case None => link.expiresIn >= 0
  }

  /** The transfer streams what the oid is the digest of, and the file gets its name. */
  predicate Arrives(w: World, at: nat, oid: string) {
    var t := w.transfer(at, oid);
    t.Streamed? && t.renamed && w.digest(t.body) == oid
  }

  lemma AnsweredIff(requested: set<string>, o: ReplyObject, oid: string)
    ensures Answered(requested, o) == Some(oid) <==> oid in requested && Offers(o, oid)
  {
  }

  // ---- every object is attempted ----

  ghost predicate CancelledDuring(w: World, tick: nat, count: nat) {
    exists at :: tick <= at < tick + count && w.cancelled(at)
  }

  /** A pass stops only over a cancellation, and object i has tick i of it. */
  lemma {:induction false} PassTicks(w: World, wanted: map<string, int>, store: Store, tick: nat,
                                     objects: seq<ReplyObject>)
    ensures var p := AfterObjects(w, wanted, store, tick, objects);
            && (p.stopped <==> CancelledDuring(w, tick, |objects|))
            && (!p.stopped ==> p.tick == tick + |objects|)
  {
    if objects != [] {
      hide Answered, Expired, IsCached, AfterDownload;
      var n := |objects| - 1;
      PassTicks(w, wanted, store, tick, objects[..n]);
      assert CancelledDuring(w, tick, n + 1) <==> CancelledDuring(w, tick, n) || w.cancelled(tick + n);
    }
  }

  /** Without a cancellation the four lists account for every object of the reply, failed transfers included. */
  lemma PassAttemptsAll(w: World, wanted: map<string, int>, store: Store, tick: nat, objects: seq<ReplyObject>)
    requires !CancelledDuring(w, tick, |objects|)
    ensures var p := AfterObjects(w, wanted, store, tick, objects);
            && |p.settled| + |p.expired| + |p.unavailable| + |p.failed| == |objects|
            && forall e :: e in p.failed ==> e.TransferFailed?
  {
    PassTicks(w, wanted, store, tick, objects);
    PassCounts(w, wanted, store, tick, objects);
    FailuresAreTransfers(w, wanted, store, tick, objects);
  }

  lemma {:induction false} FailuresAreTransfers(w: World, wanted: map<string, int>, store: Store, tick: nat,
                                                objects: seq<ReplyObject>)
    ensures var p := AfterObjects(w, wanted, store, tick, objects);
            !p.stopped ==> forall e :: e in p.failed ==> e.TransferFailed?
  {
    if objects != [] {
      hide Answered, Expired, IsCached;
      FailuresAreTransfers(w, wanted, store, tick, objects[..|objects| - 1]);
    }
  }

  /** Object i of a pass that is not cancelled before it, as the step that handles it. */
  ghost function Before(w: World, wanted: map<string, int>, store: Store, tick: nat, objects: seq<ReplyObject>,
                        i: nat): Pass
    requires i < |objects|
  {
    AfterObjects(w, wanted, store, tick, objects[..i])
  }

  lemma StepAt(w: World, wanted: map<string, int>, store: Store, tick: nat, objects: seq<ReplyObject>, i: nat)
    requires i < |objects|
    ensures AfterObjects(w, wanted, store, tick, objects[..i + 1]) ==
            AfterObject(w, wanted, Before(w, wanted, store, tick, objects, i), objects[i])
    ensures var p := Before(w, wanted, store, tick, objects, i);
            !CancelledDuring(w, tick, i) ==> !p.stopped && p.tick == tick + i
  {
    hide AfterObject;
    assert objects[..i + 1][..i] == objects[..i];
    PassTicks(w, wanted, store, tick, objects[..i]);
  }

  lemma {:induction false} HeldStays(w: World, wanted: map<string, int>, store: Store, tick: nat,
                                     objects: seq<ReplyObject>, n: nat, oid: string)
    requires n <= |objects| && Held(AfterObjects(w, wanted, store, tick, objects[..n]).store, oid)
    ensures Held(AfterObjects(w, wanted, store, tick, objects).store, oid)
  {
    if n == |objects| {
      assert objects[..n] == objects;
    } else {
      hide AfterObject;
      var last := |objects| - 1;
      assert objects[..last][..n] == objects[..n];
      HeldStays(w, wanted, store, tick, objects[..last], n, oid);
      ObjectGrows(w, wanted, AfterObjects(w, wanted, store, tick, objects[..last]), objects[last]);
    }
  }

  lemma ObjectStores(w: World, wanted: map<string, int>, p: Pass, o: ReplyObject, oid: string)
    requires !p.stopped && !w.cancelled(p.tick) && oid in wanted && Offers(o, oid)
    requires IsFresh(o.download.value, w.now(p.tick)) && Arrives(w, p.tick, oid)
    ensures Held(AfterObject(w, wanted, p, o).store, oid)
  {
  }

  /**
   A requested object that the reply serves under a fresh link, and whose own transfer
   succeeds, is held after the pass, whatever became of the others.
   */
  lemma PassStores(w: World, wanted: map<string, int>, store: Store, tick: nat, objects: seq<ReplyObject>,
                   i: nat, oid: string)
    requires i < |objects| && !CancelledDuring(w, tick, i + 1)
    requires oid in wanted && Offers(objects[i], oid)
    requires IsFresh(objects[i].download.value, w.now(tick + i)) && Arrives(w, tick + i, oid)
    ensures Held(AfterObjects(w, wanted, store, tick, objects).store, oid)
  {
    hide AfterObject, AfterObjects, Offers, IsFresh, Arrives;
    StepAt(w, wanted, store, tick, objects, i);
    ObjectStores(w, wanted, Before(w, wanted, store, tick, objects, i), objects[i], oid);
    HeldStays(w, wanted, store, tick, objects, i + 1, oid);
  }

  // ---- who is in which list ----

  /** The names of the objects the reply will not serve, in its order. */
  function Refusals(requested: set<string>, objects: seq<ReplyObject>): seq<string> {
    if objects == [] then []
    else
      var last := objects[|objects| - 1];
      var before := Refusals(requested, objects[..|objects| - 1]);
      if ToLower(last.oid) in requested && Offers(last, ToLower(last.oid)) then before else before + [last.oid]
  }

  /** Unavailable are exactly the objects the reply will not serve. */
  lemma {:induction false} PassRefuses(w: World, wanted: map<string, int>, store: Store, tick: nat,
                                       objects: seq<ReplyObject>)
    requires !CancelledDuring(w, tick, |objects|)
    ensures AfterObjects(w, wanted, store, tick, objects).unavailable == Refusals(wanted.Keys, objects)
  {
    if objects != [] {
      var n := |objects| - 1;
      PassRefuses(w, wanted, store, tick, objects[..n]);
      PassTicks(w, wanted, store, tick, objects[..n]);
      AnsweredIff(wanted.Keys, objects[n], ToLower(objects[n].oid));
      hide Expired, IsCached, AfterDownload, Offers, Answered;
      AnsweredSpelling(wanted.Keys, objects[n]);
    }
  }

  lemma AnsweredSpelling(requested: set<string>, o: ReplyObject)
    ensures Answered(requested, o).Some? ==> Answered(requested, o) == Some(ToLower(o.oid))
  {
  }

  /** The length a request records for an oid: the pointer's own, or the reply's when the pointer states none. */
  predicate Records(wanted: map<string, int>, o: ReplyObject, oid: string, size: int) {
    oid in wanted && size == if wanted[oid] > 0 then wanted[oid] else o.size
  }

  /** An object is sent back only because its own link had lapsed, with the length on record. */
  lemma {:induction false} LapsedHasCause(w: World, wanted: map<string, int>, store: Store, tick: nat,
                                          objects: seq<ReplyObject>, e: Pointer) returns (i: nat)
    requires e in AfterObjects(w, wanted, store, tick, objects).expired
    ensures i < |objects| && Offers(objects[i], e.oid) && Records(wanted, objects[i], e.oid, e.size)
    ensures !IsFresh(objects[i].download.value, w.now(tick + i))
  {
    var n := |objects| - 1;
    if e in AfterObjects(w, wanted, store, tick, objects[..n]).expired {
      hide AfterObject, Offers, IsFresh;
      i := LapsedHasCause(w, wanted, store, tick, objects[..n], e);
    } else {
      hide IsCached, AfterDownload;
      i := n;
      PassTicks(w, wanted, store, tick, objects[..n]);
    }
  }

  /** A failed transfer is one the reply served under a fresh link and that did not arrive. */
  lemma {:induction false} FailureHasCause(w: World, wanted: map<string, int>, store: Store, tick: nat,
                                           objects: seq<ReplyObject>, oid: string) returns (i: nat)
    requires TransferFailed(oid) in AfterObjects(w, wanted, store, tick, objects).failed
    ensures i < |objects| && oid in wanted && Offers(objects[i], oid)
    ensures IsFresh(objects[i].download.value, w.now(tick + i)) && !Arrives(w, tick + i, oid)
  {
    var n := |objects| - 1;
    if TransferFailed(oid) in AfterObjects(w, wanted, store, tick, objects[..n]).failed {
      hide AfterObject, Offers, IsFresh, Arrives;
      i := FailureHasCause(w, wanted, store, tick, objects[..n], oid);
    } else {
      hide IsCached;
      i := n;
      PassTicks(w, wanted, store, tick, objects[..n]);
    }
  }

  // ---- what the store already holds ----

  /**
   An object held in the recorded length is left alone: no transfer touches it, and it is
   neither sent back nor failed, whatever its link and its transfer are worth.
   */
  lemma {:induction false} HeldIsLeftAlone(w: World, wanted: map<string, int>, store: Store, tick: nat,
                                           objects: seq<ReplyObject>, oid: string, content: Bytes)
    requires oid in store && store[oid] == File(content)
    requires forall i, size ::
               0 <= i < |objects| && Offers(objects[i], oid) && Records(wanted, objects[i], oid, size) ==>
               size == 0 || size == |content|
    ensures var p := AfterObjects(w, wanted, store, tick, objects);
            && oid in p.store && p.store[oid] == File(content)
            && (forall e :: e in p.expired ==> e.oid != oid) && TransferFailed(oid) !in p.failed
  {
    if objects != [] {
      var n := |objects| - 1;
      assert forall i :: 0 <= i < n ==> objects[..n][i] == objects[i];
      hide AfterObject;
      HeldIsLeftAlone(w, wanted, store, tick, objects[..n], oid, content);
      ObjectLeavesAlone(w, wanted, AfterObjects(w, wanted, store, tick, objects[..n]), objects[n], oid, content);
    }
  }

  lemma ObjectLeavesAlone(w: World, wanted: map<string, int>, p: Pass, o: ReplyObject, oid: string, content: Bytes)
    requires oid in p.store && p.store[oid] == File(content)
    requires forall size :: Offers(o, oid) && Records(wanted, o, oid, size) ==> size == 0 || size == |content|
    requires (forall e :: e in p.expired ==> e.oid != oid) && TransferFailed(oid) !in p.failed
    ensures var q := AfterObject(w, wanted, p, o);
            && oid in q.store && q.store[oid] == File(content)
            && (forall e :: e in q.expired ==> e.oid != oid) && TransferFailed(oid) !in q.failed
  {
    AnsweredIff(wanted.Keys, o, oid);
    if oid in wanted && Offers(o, oid) {
      assert Records(wanted, o, oid, ResolvedSize(wanted, oid, o.size));
    }
    hide Offers, Expired;
  }

  predicate SameEntry(before: Store, after: Store, oid: string) {
    (oid in before <==> oid in after) && (oid in before ==> before[oid] == after[oid])
  }

  /** Objects that are not this one do not touch its entry. */
  lemma {:induction false} EntryStays(w: World, wanted: map<string, int>, store: Store, tick: nat,
                                      objects: seq<ReplyObject>, n: nat, oid: string)
    requires n <= |objects| && forall j :: n <= j < |objects| ==> !Offers(objects[j], oid)
    ensures SameEntry(AfterObjects(w, wanted, store, tick, objects[..n]).store,
                      AfterObjects(w, wanted, store, tick, objects).store, oid)
  {
    if n == |objects| {
      assert objects[..n] == objects;
    } else {
      hide Offers;
      var last := |objects| - 1;
      assert objects[..last][..n] == objects[..n];
      EntryStays(w, wanted, store, tick, objects[..last], n, oid);
      OthersDoNotTouch(w, wanted, AfterObjects(w, wanted, store, tick, objects[..last]), objects[last], oid);
      hide AfterObject;
    }
  }

  lemma OthersDoNotTouch(w: World, wanted: map<string, int>, p: Pass, o: ReplyObject, oid: string)
    requires !Offers(o, oid)
    ensures SameEntry(p.store, AfterObject(w, wanted, p, o).store, oid)
  {
    AnsweredIff(wanted.Keys, o, oid);
    hide Answered, Offers, Expired, IsCached;
  }

  /** What is not held in the recorded length is fetched anew, and the store then has the new content. */
  lemma MisfitIsReplaced(w: World, wanted: map<string, int>, store: Store, tick: nat, objects: seq<ReplyObject>,
                         i: nat, oid: string, size: int)
    requires i < |objects| && !CancelledDuring(w, tick, i + 1)
    requires Records(wanted, objects[i], oid, size)
    requires Offers(objects[i], oid) && forall j :: 0 <= j < |objects| && j != i ==> !Offers(objects[j], oid)
    requires IsFresh(objects[i].download.value, w.now(tick + i)) && Arrives(w, tick + i, oid)
    requires Held(store, oid) ==> size != 0 && |store[oid].content| != size
    ensures var after := AfterObjects(w, wanted, store, tick, objects).store;
            oid in after && after[oid] == File(w.transfer(tick + i, oid).body)
  {
    hide AfterObjects, AfterObject, Offers, IsFresh, Arrives;
    var before := Before(w, wanted, store, tick, objects, i);
    NothingHandled(w, wanted, store, tick, objects);
    EntryStays(w, wanted, store, tick, objects[..i], 0, oid);
    StepAt(w, wanted, store, tick, objects, i);
    ObjectReplaces(w, wanted, before, objects[i], oid, size);
    EntryStays(w, wanted, store, tick, objects, i + 1, oid);
  }

  lemma NothingHandled(w: World, wanted: map<string, int>, store: Store, tick: nat, objects: seq<ReplyObject>)
    ensures AfterObjects(w, wanted, store, tick, objects[..0]).store == store
  {
  }

  lemma ObjectReplaces(w: World, wanted: map<string, int>, p: Pass, o: ReplyObject, oid: string, size: int)
    requires !p.stopped && !w.cancelled(p.tick) && Records(wanted, o, oid, size) && Offers(o, oid)
    requires IsFresh(o.download.value, w.now(p.tick)) && Arrives(w, p.tick, oid)
    requires Held(p.store, oid) ==> size != 0 && |p.store[oid].content| != size
    ensures var after := AfterObject(w, wanted, p, o).store;
            oid in after && after[oid] == File(w.transfer(p.tick, oid).body)
  {
  }

  // ---- the refresh ----

  /** What the endpoint answers when the lapsed objects are asked about again. */
  function Reissued(w: World, at: nat, expired: seq<Pointer>): Option<seq<ReplyObject>> {
    match w.batchReply(at, expired)
    case NoResponse => None
    case Response(status, decoded) =>
      if status == 200 && decoded.Some? && |decoded.value| == |expired| then decoded else None
  }

  lemma ReissuedIs(w: World, st: State, expired: seq<Pointer>)
    ensures var result := AfterBatch(w, st, expired, true).1;
            && (result.Scheduled? <==> Reissued(w, st.tick, expired).Some?)
            && (result.Scheduled? ==> Reissued(w, st.tick, expired) == Some(result.objects))
  {
  }

  /** Each object of the answer is one that was asked for, under a fresh link, and arrives. */
  ghost predicate AllArrive(w: World, asked: seq<Pointer>, objects: seq<ReplyObject>, tick: nat) {
    forall i :: 0 <= i < |objects| ==>
      var oid := ToLower(objects[i].oid);
      && oid in OidSet(asked) && Offers(objects[i], oid)
      && IsFresh(objects[i].download.value, w.now(tick + i)) && Arrives(w, tick + i, oid)
  }

  predicate AnswersEach(asked: seq<Pointer>, objects: seq<ReplyObject>) {
    forall p :: p in asked ==> exists i :: 0 <= i < |objects| && Offers(objects[i], p.oid)
  }

  /** Each object is one that was asked for, and arrives unless its link has lapsed. */
  ghost predicate ArriveOrLapse(w: World, asked: seq<Pointer>, objects: seq<ReplyObject>, tick: nat) {
    forall i :: 0 <= i < |objects| ==>
      var oid := ToLower(objects[i].oid);
      && oid in OidSet(asked) && Offers(objects[i], oid)
      && (IsFresh(objects[i].download.value, w.now(tick + i)) ==> Arrives(w, tick + i, oid))
  }

  lemma {:induction false} ExpiredStays(w: World, wanted: map<string, int>, store: Store, tick: nat,
                                        objects: seq<ReplyObject>, n: nat)
    requires n <= |objects|
    ensures AfterObjects(w, wanted, store, tick, objects[..n]).expired
            <= AfterObjects(w, wanted, store, tick, objects).expired
  {
    if n == |objects| {
      assert objects[..n] == objects;
    } else {
      var last := |objects| - 1;
      assert objects[..last][..n] == objects[..n];
      ExpiredStays(w, wanted, store, tick, objects[..last], n);
      ExpiredGrows(w, wanted, AfterObjects(w, wanted, store, tick, objects[..last]), objects[last]);
      hide AfterObject;
    }
  }

  lemma ExpiredGrows(w: World, wanted: map<string, int>, p: Pass, o: ReplyObject)
    ensures p.expired <= AfterObject(w, wanted, p, o).expired
  {
    hide Answered, Expired, IsCached, AfterDownload;
  }

  lemma ObjectSendsBack(w: World, wanted: map<string, int>, p: Pass, o: ReplyObject, oid: string)
    requires !p.stopped && !w.cancelled(p.tick) && oid in wanted && Offers(o, oid)
    requires !IsFresh(o.download.value, w.now(p.tick))
    ensures var q := AfterObject(w, wanted, p, o);
            Held(q.store, oid) || (q.expired != [] && q.expired[|q.expired| - 1].oid == oid)
  {
  }

  /** An object served under a lapsed link is sent back, unless it is held. */
  lemma PassSendsBack(w: World, wanted: map<string, int>, store: Store, tick: nat, objects: seq<ReplyObject>,
                      i: nat, oid: string)
    requires i < |objects| && !CancelledDuring(w, tick, i + 1)
    requires oid in wanted && Offers(objects[i], oid) && !IsFresh(objects[i].download.value, w.now(tick + i))
    ensures var p := AfterObjects(w, wanted, store, tick, objects);
            Held(p.store, oid) || oid in OidSet(p.expired)
  {
    hide AfterObject, AfterObjects, Offers, IsFresh;
    StepAt(w, wanted, store, tick, objects, i);
    ObjectSendsBack(w, wanted, Before(w, wanted, store, tick, objects, i), objects[i], oid);
    var q := AfterObjects(w, wanted, store, tick, objects[..i + 1]);
    if Held(q.store, oid) {
      HeldStays(w, wanted, store, tick, objects, i + 1, oid);
    } else {
      ExpiredStays(w, wanted, store, tick, objects, i + 1);
      var p := AfterObjects(w, wanted, store, tick, objects);
      var k := |q.expired| - 1;
      assert p.expired[..|q.expired|][k] == q.expired[k];
      assert p.expired[k] in p.expired;
    }
  }

  lemma NothingFails(w: World, st: State, asked: seq<Pointer>, objects: seq<ReplyObject>)
    requires ArriveOrLapse(w, asked, objects, st.tick) && !CancelledDuring(w, st.tick, |objects|)
    ensures PassOver(w, st, asked, objects).failed == []
  {
    hide AfterObjects, Offers, IsFresh, Arrives;
    var p := PassOver(w, st, asked, objects);
    if p.failed != [] {
      PassAttemptsAll(w, WantedSizes(asked), st.store, st.tick, objects);
      assert p.failed[0] in p.failed;
      var oid := p.failed[0].oid;
      var i := FailureHasCause(w, WantedSizes(asked), st.store, st.tick, objects, oid);
      OfferedSpelling(objects[i], oid);
    }
  }

  /** A pass over such an answer stores everything asked for or sends it back, and reports nothing else. */
  lemma LapsingPass(w: World, st: State, asked: seq<Pointer>, objects: seq<ReplyObject>)
    requires ArriveOrLapse(w, asked, objects, st.tick) && AnswersEach(asked, objects)
    requires !CancelledDuring(w, st.tick, |objects|)
    ensures var p := PassOver(w, st, asked, objects);
            && p.unavailable == [] && p.failed == []
            && forall q :: q in asked ==> Held(p.store, q.oid) || q.oid in OidSet(p.expired)
  {
    hide AfterObjects, ArriveOrLapse, AnswersEach, CancelledDuring, Held;
    NothingFails(w, st, asked, objects);
    NothingUnavailable(w, st, asked, objects);
    forall q | q in asked ensures var p := PassOver(w, st, asked, objects);
                                  Held(p.store, q.oid) || q.oid in OidSet(p.expired)
    {
      HeldOrSentBack(w, st, asked, objects, q);
    }
  }

  lemma NothingUnavailable(w: World, st: State, asked: seq<Pointer>, objects: seq<ReplyObject>)
    requires ArriveOrLapse(w, asked, objects, st.tick) && !CancelledDuring(w, st.tick, |objects|)
    ensures PassOver(w, st, asked, objects).unavailable == []
  {
    hide AfterObjects, Offers, IsFresh, Arrives, CancelledDuring;
    PassRefuses(w, WantedSizes(asked), st.store, st.tick, objects);
    NothingRefused(OidSet(asked), objects);
  }

  lemma ArrivesUnlessLapsed(w: World, asked: seq<Pointer>, objects: seq<ReplyObject>, tick: nat, i: nat, oid: string)
    requires ArriveOrLapse(w, asked, objects, tick) && i < |objects| && Offers(objects[i], oid)
    ensures IsFresh(objects[i].download.value, w.now(tick + i)) ==> Arrives(w, tick + i, oid)
  {
    hide IsFresh, Arrives;
  }

  lemma HeldOrSentBack(w: World, st: State, asked: seq<Pointer>, objects: seq<ReplyObject>, q: Pointer)
    requires ArriveOrLapse(w, asked, objects, st.tick) && AnswersEach(asked, objects)
    requires !CancelledDuring(w, st.tick, |objects|) && q in asked
    ensures var p := PassOver(w, st, asked, objects); Held(p.store, q.oid) || q.oid in OidSet(p.expired)
  {
    hide AfterObjects, ArriveOrLapse, Offers, IsFresh, Arrives, CancelledDuring, Held;
    var i :| 0 <= i < |objects| && Offers(objects[i], q.oid);
    hide AnswersEach;
    OfferedSpelling(objects[i], q.oid);
    ArrivesUnlessLapsed(w, asked, objects, st.tick, i, q.oid);
    CancelledSooner(w, st.tick, i + 1, |objects|);
    if IsFresh(objects[i].download.value, w.now(st.tick + i)) {
      PassStores(w, WantedSizes(asked), st.store, st.tick, objects, i, q.oid);
    } else {
      PassSendsBack(w, WantedSizes(asked), st.store, st.tick, objects, i, q.oid);
    }
  }

  lemma CancelledSooner(w: World, tick: nat, count: nat, more: nat)
    requires count <= more && !CancelledDuring(w, tick, more)
    ensures !CancelledDuring(w, tick, count)
  {
  }

  /** And with every link fresh, it stores everything asked for. */
  lemma ArrivingPass(w: World, st: State, asked: seq<Pointer>, objects: seq<ReplyObject>)
    requires AllArrive(w, asked, objects, st.tick) && AnswersEach(asked, objects)
    requires !CancelledDuring(w, st.tick, |objects|)
    ensures var p := PassOver(w, st, asked, objects);
            && p.expired == [] && p.unavailable == [] && p.failed == []
            && forall q :: q in asked ==> Held(p.store, q.oid)
  {
    hide AfterObjects, Offers, IsFresh, Arrives, AnswersEach, CancelledDuring;
    LapsingPass(w, st, asked, objects);
    var p := PassOver(w, st, asked, objects);
    if p.expired != [] {
      assert p.expired[0] in p.expired;
      var i := LapsedHasCause(w, WantedSizes(asked), st.store, st.tick, objects, p.expired[0]);
    }
  }

  lemma OfferedSpelling(o: ReplyObject, oid: string)
    requires Offers(o, oid)
    ensures ToLower(o.oid) == oid && o.download.Some?
  {
  }

  lemma {:induction false} NothingRefused(requested: set<string>, objects: seq<ReplyObject>)
    requires forall i :: 0 <= i < |objects| ==>
               ToLower(objects[i].oid) in requested && Offers(objects[i], ToLower(objects[i].oid))
    ensures Refusals(requested, objects) == []
  {
    if objects != [] {
      hide Offers;
      NothingRefused(requested, objects[..|objects| - 1]);
    }
  }

  /**
   When the second request is answered for each lapsed object, under links that are fresh by
   then and transfers that succeed, every one of them is held and none is counted.
   */
  lemma RefreshDelivers(w: World, st: State, expired: seq<Pointer>, objects: seq<ReplyObject>)
    requires expired != [] && Reissued(w, st.tick, expired) == Some(objects)
    requires AllArrive(w, expired, objects, st.tick + 1) && AnswersEach(expired, objects)
    requires !CancelledDuring(w, st.tick + 1, |objects|)
    ensures var r := AfterRefresh(w, st, expired);
            && r.reasons == [] && r.unavailable == [] && r.failed == []
            && forall e :: e in expired ==> Held(r.st.store, e.oid)
  {
    hide AllArrive, AnswersEach, CancelledDuring, AfterObjects;
    ReissuedIs(w, st, expired);
    ArrivingPass(w, AfterBatch(w, st, expired, true).0, expired, objects);
  }

  /** An object is counted as lapsed only if the second answer gave it a lapsed link too. */
  lemma LapsedTwice(w: World, st: State, expired: seq<Pointer>, oid: string) returns (i: nat)
    requires Lapsed(oid) in AfterRefresh(w, st, expired).reasons
    ensures var objects := Reissued(w, st.tick, expired);
            && objects.Some? && i < |objects.value| && Offers(objects.value[i], oid)
            && !IsFresh(objects.value[i].download.value, w.now(st.tick + 1 + i))
  {
    hide AfterObjects, Offers, IsFresh, Reissued;
    ReissuedIs(w, st, expired);
    var (asked, result) := AfterBatch(w, st, expired, true);
    assert result.Scheduled?;
    var second := PassOver(w, asked, expired, result.objects);
    var e :| e in second.expired && e.oid == oid;
    i := LapsedHasCause(w, WantedSizes(expired), asked.store, asked.tick, result.objects, e);
  }

  /** And it has no fresh link exactly when the second request itself was not answered. */
  lemma NoFreshUrlIff(w: World, st: State, expired: seq<Pointer>, oid: string)
    ensures (exists cause :: NoFreshUrl(oid, cause) in AfterRefresh(w, st, expired).reasons)
            <==> oid in OidSet(expired) && Reissued(w, st.tick, expired).None?
  {
    hide AfterObjects, Reissued;
    ReissuedIs(w, st, expired);
    var (asked, result) := AfterBatch(w, st, expired, true);
    if expired != [] && result.Refused? {
      var reasons := NoFreshUrls(expired, result.error);
      assert forall k :: 0 <= k < |expired| ==> reasons[k] == NoFreshUrl(expired[k].oid, result.error);
      if oid in OidSet(expired) {
        var k :| 0 <= k < |expired| && expired[k].oid == oid;
        assert reasons[k] in reasons;
      }
    }
  }

  // ---- an answered chunk ----

  /** Whatever became of the others and of the refresh, what arrived in the first pass is held at the end. */
  lemma ChunkStores(w: World, st: State, want: seq<Pointer>, objects: seq<ReplyObject>, i: nat, oid: string)
    requires i < |objects| && !CancelledDuring(w, st.tick, i + 1)
    requires oid in OidSet(want) && Offers(objects[i], oid)
    requires IsFresh(objects[i].download.value, w.now(st.tick + i)) && Arrives(w, st.tick + i, oid)
    ensures Held(DownloadChunk(w, st, want, objects).0.store, oid)
  {
    hide AfterObjects, Offers, IsFresh, Arrives, CancelledDuring;
    PassStores(w, WantedSizes(want), st.store, st.tick, objects, i, oid);
    RefreshKeeps(w, AfterPass(w, st, want, objects), PassOver(w, st, want, objects).expired);
  }

  /**
   Lapsed links cost nothing: when the reply serves every object asked for, each by an
   arriving transfer or under a lapsed link, and the one further request for the lapsed ones
   is answered under fresh links that arrive, everything is held and nothing is reported.
   */
  lemma ChunkDelivers(w: World, st: State, want: seq<Pointer>, objects: seq<ReplyObject>, again: seq<ReplyObject>)
    requires ArriveOrLapse(w, want, objects, st.tick) && AnswersEach(want, objects)
    requires !CancelledDuring(w, st.tick, |objects|)
    requires var expired, at := PassOver(w, st, want, objects).expired, st.tick + |objects|;
             expired != [] ==>
               && Reissued(w, at, expired) == Some(again)
               && AllArrive(w, expired, again, at + 1) && AnswersEach(expired, again)
               && !CancelledDuring(w, at + 1, |again|)
    ensures var (end, outcome, error) := DownloadChunk(w, st, want, objects);
            && error.None? && outcome.unavailable == 0 && outcome.rejected == 0
            && forall p :: p in want ==> Held(end.store, p.oid)
  {
    hide AfterObjects, AllArrive, AnswersEach, ArriveOrLapse, CancelledDuring, Reissued, GrowsSoundly;
    PassTicks(w, WantedSizes(want), st.store, st.tick, objects);
    LapsingPass(w, st, want, objects);
    var first, here := PassOver(w, st, want, objects), AfterPass(w, st, want, objects);
    RefreshKeeps(w, here, first.expired);
    if first.expired != [] {
      RefreshDelivers(w, here, first.expired, again);
    }
    var end := DownloadChunk(w, st, want, objects).0;
    forall p | p in want ensures Held(end.store, p.oid) {
      if Held(first.store, p.oid) {
        GrownIsHeld(w, first.store, end.store, OidSet(first.expired), p.oid);
      }
    }
  }

  lemma GrownIsHeld(w: World, before: Store, after: Store, names: set<string>, oid: string)
    requires GrowsSoundly(w, before, after, names) && Held(before, oid)
    ensures Held(after, oid)
  {
  }
}
