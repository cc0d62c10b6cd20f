/**
 What fetching guarantees: nothing is silently lost, refusals are recognised
 exactly, the number of requests is bounded, and stored content is always the
 content its name is the digest of.
 */
module LfsTheorems {
  import opened Wrappers
  import opened Collections
  import opened LfsBatch
  import opened LfsFetch

  // ---- the request log ----

  ghost predicate Extends(before: State, after: State) {
    before.log <= after.log
  }

  /** The requests made between two states; every fetch only ever extends the log. */
  ghost function Requests(before: State, after: State): seq<BatchEvent> {
    if Extends(before, after) then after.log[|before.log|..] else []
  }

  lemma RequestsCompose(a: State, b: State, c: State)
    requires Extends(a, b) && Extends(b, c)
    ensures Extends(a, c) && Requests(a, c) == Requests(a, b) + Requests(b, c)
  {
  }

  predicate IsRefresh(e: BatchEvent) { e.refresh }
  predicate IsPrimary(e: BatchEvent) { !e.refresh }
  predicate IsServed(e: BatchEvent) { !e.refresh && e.result.Scheduled? }
  predicate WasRejected(e: BatchEvent) { e.result.Refused? && e.result.error.BatchRejected? }

  function CountIf(log: seq<BatchEvent>, p: BatchEvent -> bool): nat {
    if log == [] then 0
    else CountIf(log[..|log| - 1], p) + (if p(log[|log| - 1]) then 1 else 0)
  }

  lemma {:induction false} CountAdds(a: seq<BatchEvent>, b: seq<BatchEvent>, p: BatchEvent -> bool)
    ensures CountIf(a + b, p) == CountIf(a, p) + CountIf(b, p)
  {
    if b == [] {
      assert a + b == a;
    } else {
      assert (a + b)[..|a + b| - 1] == a + b[..|b| - 1];
      CountAdds(a, b[..|b| - 1], p);
    }
  }

  lemma {:induction false} CountTotal(log: seq<BatchEvent>)
    ensures CountIf(log, IsPrimary) + CountIf(log, IsRefresh) == |log|
  {
    if log != [] {
      CountTotal(log[..|log| - 1]);
    }
  }

  // ---- one answered chunk ----

  lemma GrowsWiden(w: World, before: Store, after: Store, names: set<string>, more: set<string>)
    requires GrowsSoundly(w, before, after, names) && names <= more
    ensures GrowsSoundly(w, before, after, more)
  {
  }

  /** The refresh changes the store soundly and sends at most one request, for requested objects only. */
  lemma RefreshKeeps(w: World, st: State, expired: seq<Pointer>)
    ensures var r := AfterRefresh(w, st, expired);
            && Extends(st, r.st)
            && GrowsSoundly(w, st.store, r.st.store, OidSet(expired))
            && |Requests(st, r.st)| == (if expired == [] then 0 else 1)
            && (forall e :: e in Requests(st, r.st) ==> e.refresh && e.asked == expired)
            && (forall e :: e in r.failed ==> e.Cancelled? || e.TransferFailed?)
            && |r.reasons| + |r.unavailable| <= |expired|
            && (expired == [] ==> r.reasons == [] && r.unavailable == [] && r.failed == [])
  {
    if expired != [] {
      var (asked, result) := AfterBatch(w, st, expired, true);
      if result.Scheduled? {
        PassGrows(w, WantedSizes(expired), asked.store, asked.tick, result.objects);
        PassCounts(w, WantedSizes(expired), asked.store, asked.tick, result.objects);
      }
    }
  }

  /** The state after the first pass of an answered chunk, before the refresh. */
  ghost function AfterPass(w: World, st: State, want: seq<Pointer>, objects: seq<ReplyObject>): State {
    var first := PassOver(w, st, want, objects);
    State(first.store, first.tick, st.log)
  }

  ghost function Refreshed(w: World, st: State, want: seq<Pointer>, objects: seq<ReplyObject>): Refresh {
    AfterRefresh(w, AfterPass(w, st, want, objects), PassOver(w, st, want, objects).expired)
  }

  /** An answered chunk changes the store soundly. */
  lemma DownloadChunkGrows(w: World, st: State, want: seq<Pointer>, objects: seq<ReplyObject>)
    ensures GrowsSoundly(w, st.store, DownloadChunk(w, st, want, objects).0.store, OidSet(want))
  {
    var first := PassOver(w, st, want, objects);
    PassGrows(w, WantedSizes(want), st.store, st.tick, objects);
    PassCounts(w, WantedSizes(want), st.store, st.tick, objects);
    var here := AfterPass(w, st, want, objects);
    RefreshKeeps(w, here, first.expired);
    var end := Refreshed(w, st, want, objects).st.store;
    assert OidSet(first.expired) <= OidSet(want);
    GrowsWiden(w, here.store, end, OidSet(first.expired), OidSet(want));
    GrowsTransitively(w, st.store, here.store, end, OidSet(want));
  }

  /** An answered chunk sends at most one more request: the refresh, for objects it was asked about. */
  lemma DownloadChunkAsks(w: World, st: State, want: seq<Pointer>, objects: seq<ReplyObject>)
    ensures var end := DownloadChunk(w, st, want, objects).0;
            && Extends(st, end)
            && |Requests(st, end)| <= 1
            && (forall e :: e in Requests(st, end) ==>
                  e.refresh && OidSet(e.asked) <= OidSet(want) && 0 < |e.asked| <= |objects|)
  {
    var first := PassOver(w, st, want, objects);
    PassCounts(w, WantedSizes(want), st.store, st.tick, objects);
    RefreshKeeps(w, AfterPass(w, st, want, objects), first.expired);
    assert OidSet(first.expired) <= OidSet(want);
  }

  /** What an answered chunk reports: never a refusal, never a rejection, and never silence. */
  lemma DownloadChunkReports(w: World, st: State, want: seq<Pointer>, objects: seq<ReplyObject>)
    ensures var (_, outcome, error) := DownloadChunk(w, st, want, objects);
            var failed := PassOver(w, st, want, objects).failed + Refreshed(w, st, want, objects).failed;
            var refused := PassOver(w, st, want, objects).unavailable + Refreshed(w, st, want, objects).unavailable;
            && (outcome.answered <==> |refused| < |objects|)
            && (error.Some? <==> failed != [])
            && (error.Some? ==> error.value == ChunkFailed(|failed|, |objects|, failed[0]) && !IsRefusal(error.value))
            && outcome.rejected == 0 && outcome.unavailable <= |objects|
            && (outcome.skipped.Some? <==> outcome.unavailable > 0)
            && (objects != [] ==> outcome.answered || outcome.unavailable > 0)
  {
    var first := PassOver(w, st, want, objects);
    PassCounts(w, WantedSizes(want), st.store, st.tick, objects);
    RefreshKeeps(w, AfterPass(w, st, want, objects), first.expired);
    var failed := first.failed + Refreshed(w, st, want, objects).failed;
    if failed != [] {
      assert failed[0] in failed;
    }
  }

  // ---- counting what is missing ----

  /** The requested oids the store does not hold. */
  ghost function Missing(store: Store, ps: seq<Pointer>): set<string> {
    set p | p in ps && !Held(store, p.oid) :: p.oid
  }

  ghost predicate NamesOnce(e: BatchEvent) {
    e.result.Scheduled? ==> Distinct(AnsweredOids(OidSet(e.asked), e.result.objects))
  }

  ghost predicate AllNameOnce(log: seq<BatchEvent>) {
    forall e :: e in log ==> NamesOnce(e)
  }

  lemma OidSetIsSet(ps: seq<Pointer>)
    ensures OidSet(ps) == SetOf(Oids(ps))
  {
  }

  /** What is neither settled nor sent back is exactly as much as was unavailable. */
  lemma PigeonholeCount(want: seq<Pointer>, settled: seq<string>, expired: seq<Pointer>, unavailable: nat)
    requires Distinct(Oids(want)) && Distinct(settled + Oids(expired))
    requires |settled| + |expired| + unavailable == |want|
    requires SetOf(settled) + OidSet(expired) <= OidSet(want)
    ensures |OidSet(want) - SetOf(settled) - OidSet(expired)| == unavailable
  {
    hide Distinct;
    var done := settled + Oids(expired);
    OidSetIsSet(want);
    OidSetIsSet(expired);
    SetSize(Oids(want));
    SetSize(done);
    assert SetOf(done) == SetOf(settled) + OidSet(expired);
    assert OidSet(want) - SetOf(settled) - OidSet(expired) == OidSet(want) - SetOf(done);
  }

  lemma MissingIsUnsettled(w: World, st: State, want: seq<Pointer>, objects: seq<ReplyObject>)
    ensures var p := PassOver(w, st, want, objects);
            Missing(p.store, want) <= OidSet(want) - SetOf(p.settled)
  {
    PassGrows(w, WantedSizes(want), st.store, st.tick, objects);
  }

  /**
   The pigeonhole: a pass over as many objects as were asked for, each named
   once, misses no more oids than it reports unavailable or sends back lapsed.
   */
  lemma PassMisses(w: World, st: State, want: seq<Pointer>, objects: seq<ReplyObject>)
    requires |objects| == |want| && Distinct(Oids(want)) && Distinct(AnsweredOids(OidSet(want), objects))
    ensures var p := PassOver(w, st, want, objects);
            p.failed == [] ==>
              && |Missing(p.store, want) - OidSet(p.expired)| <= |p.unavailable|
              && Distinct(Oids(p.expired)) && OidSet(p.expired) <= OidSet(want)
  {
    var p := PassOver(w, st, want, objects);
    PassCounts(w, WantedSizes(want), st.store, st.tick, objects);
    if p.failed == [] {
      assert Distinct(p.settled + Oids(p.expired)) by {
        PassIsDistinct(w, WantedSizes(want), st.store, st.tick, objects);
      }
      DistinctParts(p.settled, Oids(p.expired));
      PigeonholeCount(want, p.settled, p.expired, |p.unavailable|);
      var left := OidSet(want) - SetOf(p.settled) - OidSet(p.expired);
      MissingIsUnsettled(w, st, want, objects);
      Contained(Missing(p.store, want) - OidSet(p.expired), left);
    }
  }

  /** After the refresh, no more lapsed oids are missing than it reports. */
  lemma RefreshMisses(w: World, st: State, expired: seq<Pointer>)
    requires Distinct(Oids(expired))
    requires Extends(st, AfterRefresh(w, st, expired).st)
    requires AllNameOnce(Requests(st, AfterRefresh(w, st, expired).st))
    ensures var r := AfterRefresh(w, st, expired);
            r.failed == [] ==> |Missing(r.st.store, expired)| <= |r.reasons| + |r.unavailable|
  {
    var r := AfterRefresh(w, st, expired);
    if expired == [] {
      assert Missing(r.st.store, expired) == {};
    } else {
      var (asked, result) := AfterBatch(w, st, expired, true);
      if result.Refused? {
        OidSetIsSet(expired);
        SetSize(Oids(expired));
        Contained(Missing(r.st.store, expired), OidSet(expired));
      } else {
        assert asked.log[|st.log|..][0] == BatchEvent(expired, result, true);
        assert NamesOnce(Requests(st, r.st)[0]);
        PassMisses(w, asked, expired, result.objects);
        var second := PassOver(w, asked, expired, result.objects);
        OidSetIsSet(second.expired);
        SetSize(Oids(second.expired));
        var missing := Missing(r.st.store, expired);
        assert missing <= (missing - OidSet(second.expired)) + OidSet(second.expired);
        Contained(missing, (missing - OidSet(second.expired)) + OidSet(second.expired));
      }
    }
  }

  /** An answered chunk without a failed transfer reports at least as many objects as it misses. */
  lemma DownloadChunkMisses(w: World, st: State, want: seq<Pointer>, objects: seq<ReplyObject>)
    requires |objects| == |want| && Distinct(Oids(want)) && Distinct(AnsweredOids(OidSet(want), objects))
    requires Extends(st, DownloadChunk(w, st, want, objects).0)
    requires AllNameOnce(Requests(st, DownloadChunk(w, st, want, objects).0))
    ensures var (end, outcome, error) := DownloadChunk(w, st, want, objects);
            error.None? ==> |Missing(end.store, want)| <= outcome.unavailable
  {
    var (end, outcome, error) := DownloadChunk(w, st, want, objects);
    var first := PassOver(w, st, want, objects);
    var here := AfterPass(w, st, want, objects);
    var again := Refreshed(w, st, want, objects);
    assert end == again.st && (error.None? ==> first.failed == [] && again.failed == []);
    assert outcome.unavailable == |again.reasons| + |first.unavailable| + |again.unavailable|;
    if error.None? {
      PassMisses(w, st, want, objects);
      RefreshKeeps(w, here, first.expired);
      assert Requests(here, end) == Requests(st, end);
      RefreshMisses(w, here, first.expired);
      MissingSplits(w, here.store, end.store, want, first.expired);
    }
  }

  lemma MissingSplits(w: World, before: Store, after: Store, want: seq<Pointer>, expired: seq<Pointer>)
    requires GrowsSoundly(w, before, after, OidSet(expired))
    ensures |Missing(after, want)| <= |Missing(before, want) - OidSet(expired)| + |Missing(after, expired)|
  {
    var rest := Missing(before, want) - OidSet(expired);
    var late := Missing(after, expired);
    forall oid | oid in Missing(after, want) ensures oid in rest + late {
      if oid in OidSet(expired) {
        var p :| p in expired && p.oid == oid;
      }
    }
    Contained(Missing(after, want), rest + late);
  }

  // ---- narrowing ----

  /** The parts of a rejected chunk wider than one pointer, named for the proofs below. */
  ghost function LeftHalf(w: World, st: State, ps: seq<Pointer>): (State, Outcome, Option<Error>)
    requires |ps| > 1
  {
    FetchChunk(w, AfterBatch(w, st, ps, false).0, ps[..|ps| / 2])
  }

  ghost function RightHalf(w: World, st: State, ps: seq<Pointer>): (State, Outcome, Option<Error>)
    requires |ps| > 1
  {
    FetchChunk(w, LeftHalf(w, st, ps).0, ps[|ps| / 2..])
  }

  ghost predicate Splits(w: World, st: State, ps: seq<Pointer>) {
    && |ps| > 1
    && var result := AfterBatch(w, st, ps, false).1;
       result.Refused? && result.error.BatchRejected?
  }

  lemma SplitUnfolds(w: World, st: State, ps: seq<Pointer>)
    requires Splits(w, st, ps)
    ensures var (_, left, leftError) := LeftHalf(w, st, ps);
            var (end, right, rightError) := RightHalf(w, st, ps);
            var rejection := AfterBatch(w, st, ps, false).1.error;
            var (outcome, error) := MergeHalves(left, leftError, right, rightError, rejection);
            FetchChunk(w, st, ps) == (end, outcome, error)
  {
  }

  lemma HalvesCover(ps: seq<Pointer>, middle: nat)
    requires middle <= |ps|
    ensures OidSet(ps) == OidSet(ps[..middle]) + OidSet(ps[middle..])
    ensures Distinct(Oids(ps)) ==> Distinct(Oids(ps[..middle])) && Distinct(Oids(ps[middle..]))
    ensures forall p :: p in ps <==> p in ps[..middle] || p in ps[middle..]
  {
  }

  /** Every request a chunk makes asks for some of its pointers, and no more than it was given. */
  lemma {:induction false} FetchChunkAsks(w: World, st: State, ps: seq<Pointer>)
    requires ps != []
    ensures var end := FetchChunk(w, st, ps).0;
            && Extends(st, end)
            && forall e :: e in Requests(st, end) ==> 0 < |e.asked| <= |ps| && OidSet(e.asked) <= OidSet(ps)
    decreases |ps|
  {
    hide DownloadChunk;
    var (asked, result) := AfterBatch(w, st, ps, false);
    if result.Scheduled? {
      DownloadChunkAsks(w, asked, ps, result.objects);
      RequestsCompose(st, asked, FetchChunk(w, st, ps).0);
    } else if Splits(w, st, ps) {
      SplitUnfolds(w, st, ps);
      var mid, end := LeftHalf(w, st, ps).0, RightHalf(w, st, ps).0;
      FetchChunkAsks(w, asked, ps[..|ps| / 2]);
      FetchChunkAsks(w, mid, ps[|ps| / 2..]);
      HalvesCover(ps, |ps| / 2);
      RequestsCompose(asked, mid, end);
      RequestsCompose(st, asked, end);
    }
  }

  /** Whatever a chunk fetch changes in the store is an asked-for object whose digest was verified. */
  lemma {:induction false} FetchChunkGrows(w: World, st: State, ps: seq<Pointer>)
    requires ps != []
    ensures GrowsSoundly(w, st.store, FetchChunk(w, st, ps).0.store, OidSet(ps))
    decreases |ps|
  {
    hide DownloadChunk;
    var (asked, result) := AfterBatch(w, st, ps, false);
    if result.Scheduled? {
      DownloadChunkGrows(w, asked, ps, result.objects);
    } else if Splits(w, st, ps) {
      SplitUnfolds(w, st, ps);
      var mid, end := LeftHalf(w, st, ps).0, RightHalf(w, st, ps).0;
      FetchChunkGrows(w, asked, ps[..|ps| / 2]);
      FetchChunkGrows(w, mid, ps[|ps| / 2..]);
      HalvesCover(ps, |ps| / 2);
      GrowsWiden(w, asked.store, mid.store, OidSet(ps[..|ps| / 2]), OidSet(ps));
      GrowsWiden(w, mid.store, end.store, OidSet(ps[|ps| / 2..]), OidSet(ps));
      GrowsTransitively(w, st.store, mid.store, end.store, OidSet(ps));
    }
  }

  /** A chunk counts each pointer lost at most once, and names a first casualty exactly when it counts one. */
  lemma {:induction false} CasualtiesAreCounted(w: World, st: State, ps: seq<Pointer>)
    requires ps != []
    ensures var outcome := FetchChunk(w, st, ps).1;
            && outcome.unavailable + outcome.rejected <= |ps|
            && (outcome.skipped.Some? <==> outcome.unavailable + outcome.rejected > 0)
    decreases |ps|
  {
    hide DownloadChunk;
    var (asked, result) := AfterBatch(w, st, ps, false);
    if result.Scheduled? {
      DownloadChunkReports(w, asked, ps, result.objects);
    } else if Splits(w, st, ps) {
      SplitUnfolds(w, st, ps);
      CasualtiesAreCounted(w, asked, ps[..|ps| / 2]);
      CasualtiesAreCounted(w, LeftHalf(w, st, ps).0, ps[|ps| / 2..]);
      assert FetchChunk(w, st, ps).1 == LeftHalf(w, st, ps).1.Absorb(RightHalf(w, st, ps).1);
    }
  }

  ghost predicate Refuses(error: Option<Error>) {
    error.Some? && IsRefusal(error.value)
  }

  ghost predicate AllRejections(log: seq<BatchEvent>) {
    forall e :: e in log ==> WasRejected(e)
  }

  lemma RejectionsConcatenate(first: BatchEvent, a: seq<BatchEvent>, b: seq<BatchEvent>)
    requires WasRejected(first)
    ensures AllRejections([first] + (a + b)) <==> AllRejections(a) && AllRejections(b)
  {
  }

  /** The requests of a chunk that was split: its own, then each half's. */
  lemma SplitRequests(w: World, st: State, ps: seq<Pointer>)
    requires Splits(w, st, ps)
    ensures var (asked, result) := AfterBatch(w, st, ps, false);
            var mid, end := LeftHalf(w, st, ps).0, FetchChunk(w, st, ps).0;
            && WasRejected(BatchEvent(ps, result, false))
            && Extends(asked, mid) && Extends(mid, end) && Extends(st, end)
            && Requests(st, end) == [BatchEvent(ps, result, false)] + (Requests(asked, mid) + Requests(mid, end))
  {
    var (asked, result) := AfterBatch(w, st, ps, false);
    var mid, end := LeftHalf(w, st, ps).0, RightHalf(w, st, ps).0;
    SplitUnfolds(w, st, ps);
    assert Extends(asked, mid) by { FetchChunkAsks(w, asked, ps[..|ps| / 2]); }
    assert Extends(mid, end) by { FetchChunkAsks(w, mid, ps[|ps| / 2..]); }
    RequestsCompose(asked, mid, end);
    RequestsCompose(st, asked, end);
    assert Requests(st, asked) == [BatchEvent(ps, result, false)];
  }

  /** The requests of an answered chunk: its own, then the refresh if there was one. */
  lemma ServedRequests(w: World, st: State, ps: seq<Pointer>)
    requires ps != [] && AfterBatch(w, st, ps, false).1.Scheduled?
    ensures var (asked, result) := AfterBatch(w, st, ps, false);
            var end := FetchChunk(w, st, ps).0;
            && Extends(st, asked) && Extends(asked, end) && Extends(st, end)
            && Requests(st, end) == [BatchEvent(ps, result, false)] + Requests(asked, end)
            && |Requests(asked, end)| <= 1
            && forall e :: e in Requests(asked, end) ==> e.refresh
  {
    var (asked, result) := AfterBatch(w, st, ps, false);
    DownloadChunkAsks(w, asked, ps, result.objects);
  }

  /** A chunk reports nothing only if the endpoint answered for some object, and refuses only if it answered none. */
  lemma {:induction false} SilenceMeansAnswered(w: World, st: State, ps: seq<Pointer>)
    requires ps != []
    ensures var (_, outcome, error) := FetchChunk(w, st, ps);
            && (error.None? ==> outcome.answered || outcome.unavailable > 0)
            && (Refuses(error) ==> !outcome.answered && outcome.unavailable == 0)
    decreases |ps|
  {
    hide DownloadChunk;
    var (asked, result) := AfterBatch(w, st, ps, false);
    if result.Scheduled? {
      DownloadChunkReports(w, asked, ps, result.objects);
    } else if Splits(w, st, ps) {
      SplitUnfolds(w, st, ps);
      SilenceMeansAnswered(w, asked, ps[..|ps| / 2]);
      SilenceMeansAnswered(w, LeftHalf(w, st, ps).0, ps[|ps| / 2..]);
    }
  }

  lemma MergeRefuses(left: Outcome, leftError: Option<Error>, right: Outcome, rightError: Option<Error>,
                     rejection: Error)
    requires leftError.None? ==> left.answered || left.unavailable > 0
    requires Refuses(leftError) ==> !left.answered && left.unavailable == 0
    requires rightError.None? ==> right.answered || right.unavailable > 0
    requires Refuses(rightError) ==> !right.answered && right.unavailable == 0
    ensures Refuses(MergeHalves(left, leftError, right, rightError, rejection).1) <==>
            Refuses(leftError) && Refuses(rightError)
  {
  }

  /** A pair of halves refuses exactly when both do. */
  lemma SplitRefuses(w: World, st: State, ps: seq<Pointer>)
    requires Splits(w, st, ps)
    ensures Refuses(FetchChunk(w, st, ps).2) <==> Refuses(LeftHalf(w, st, ps).2) && Refuses(RightHalf(w, st, ps).2)
  {
    hide DownloadChunk;
    SplitUnfolds(w, st, ps);
    var (asked, result) := AfterBatch(w, st, ps, false);
    var (mid, left, leftError) := LeftHalf(w, st, ps);
    var (_, right, rightError) := RightHalf(w, st, ps);
    SilenceMeansAnswered(w, asked, ps[..|ps| / 2]);
    SilenceMeansAnswered(w, mid, ps[|ps| / 2..]);
    MergeRefuses(left, leftError, right, rightError, result.error);
  }

  /** A refusal is recognised exactly: the chunk reports one if and only if every request it made was rejected. */
  lemma {:induction false} RefusalIsExact(w: World, st: State, ps: seq<Pointer>)
    requires ps != []
    ensures var (end, outcome, error) := FetchChunk(w, st, ps);
            Refuses(error) <==> AllRejections(Requests(st, end))
    decreases |ps|
  {
    hide DownloadChunk;
    var (asked, result) := AfterBatch(w, st, ps, false);
    var end := FetchChunk(w, st, ps).0;
    assert Extends(st, end) by { FetchChunkAsks(w, st, ps); }
    if result.Scheduled? {
      ServedRequests(w, st, ps);
      DownloadChunkReports(w, asked, ps, result.objects);
      assert Requests(st, end)[0] in Requests(st, end);
    } else if Splits(w, st, ps) {
      SplitRequests(w, st, ps);
      SplitRefuses(w, st, ps);
      assert end == RightHalf(w, st, ps).0 by { SplitUnfolds(w, st, ps); }
      var mid := LeftHalf(w, st, ps).0;
      RefusalIsExact(w, asked, ps[..|ps| / 2]);
      RefusalIsExact(w, mid, ps[|ps| / 2..]);
      RejectionsConcatenate(BatchEvent(ps, result, false), Requests(asked, mid), Requests(mid, end));
    } else {
      assert Requests(st, end) == [BatchEvent(ps, result, false)];
      assert Requests(st, end)[0] in Requests(st, end);
    }
  }

  /** A refused chunk counts every pointer rejected, leaves the store alone and cost exactly 2n - 1 requests. */
  lemma {:induction false} RefusalCostsNothing(w: World, st: State, ps: seq<Pointer>)
    requires ps != [] && Refuses(FetchChunk(w, st, ps).2)
    ensures var (end, outcome, error) := FetchChunk(w, st, ps);
            && outcome.rejected == |ps| && end.store == st.store
            && |end.log| == |st.log| + 2 * |ps| - 1
    decreases |ps|
  {
    hide DownloadChunk;
    var (asked, result) := AfterBatch(w, st, ps, false);
    if result.Scheduled? {
      DownloadChunkReports(w, asked, ps, result.objects);
    } else if Splits(w, st, ps) {
      SplitUnfolds(w, st, ps);
      SplitRefuses(w, st, ps);
      RefusalCostsNothing(w, asked, ps[..|ps| / 2]);
      RefusalCostsNothing(w, LeftHalf(w, st, ps).0, ps[|ps| / 2..]);
    }
  }

  lemma CountsAdd(a: seq<BatchEvent>, b: seq<BatchEvent>)
    ensures CountIf(a + b, IsPrimary) == CountIf(a, IsPrimary) + CountIf(b, IsPrimary)
    ensures CountIf(a + b, IsRefresh) == CountIf(a, IsRefresh) + CountIf(b, IsRefresh)
    ensures CountIf(a + b, IsServed) == CountIf(a, IsServed) + CountIf(b, IsServed)
  {
    CountAdds(a, b, IsPrimary);
    CountAdds(a, b, IsRefresh);
    CountAdds(a, b, IsServed);
  }

  lemma CountOne(e: BatchEvent)
    ensures CountIf([e], IsPrimary) == (if e.refresh then 0 else 1)
    ensures CountIf([e], IsRefresh) == (if e.refresh then 1 else 0)
    ensures CountIf([e], IsServed) == (if IsServed(e) then 1 else 0)
  {
  }

  lemma CountRefreshes(log: seq<BatchEvent>)
    requires |log| <= 1 && forall e :: e in log ==> e.refresh
    ensures CountIf(log, IsPrimary) == 0 && CountIf(log, IsRefresh) <= 1 && CountIf(log, IsServed) == 0
  {
  }

  /** Narrowing n pointers costs at most 2n - 1 requests, and refreshes at most one per answered request. */
  lemma {:induction false} NarrowingIsBounded(w: World, st: State, ps: seq<Pointer>)
    requires ps != []
    ensures var sent := Requests(st, FetchChunk(w, st, ps).0);
            && CountIf(sent, IsPrimary) <= 2 * |ps| - 1
            && CountIf(sent, IsRefresh) <= CountIf(sent, IsServed) <= |ps|
            && |sent| <= 3 * |ps| - 1
    decreases |ps|
  {
    hide DownloadChunk;
    var (asked, result) := AfterBatch(w, st, ps, false);
    var end := FetchChunk(w, st, ps).0;
    assert Extends(st, end) by { FetchChunkAsks(w, st, ps); }
    var own := BatchEvent(ps, result, false);
    CountOne(own);
    CountTotal(Requests(st, end));
    if result.Scheduled? {
      ServedRequests(w, st, ps);
      CountRefreshes(Requests(asked, end));
      CountsAdd([own], Requests(asked, end));
    } else if Splits(w, st, ps) {
      SplitRequests(w, st, ps);
      SplitUnfolds(w, st, ps);
      var mid := LeftHalf(w, st, ps).0;
      NarrowingIsBounded(w, asked, ps[..|ps| / 2]);
      NarrowingIsBounded(w, mid, ps[|ps| / 2..]);
      CountsAdd(Requests(asked, mid), Requests(mid, end));
      CountsAdd([own], Requests(asked, mid) + Requests(mid, end));
    } else {
      assert Requests(st, end) == [own];
    }
  }

  /** Every chunk begins with a batch request of its own. */
  lemma OwnRequestIsFirst(w: World, st: State, ps: seq<Pointer>)
    requires ps != []
    ensures CountIf(Requests(st, FetchChunk(w, st, ps).0), IsPrimary) >= 1
  {
    hide DownloadChunk;
    var (asked, result) := AfterBatch(w, st, ps, false);
    var end := FetchChunk(w, st, ps).0;
    var own := BatchEvent(ps, result, false);
    CountOne(own);
    if result.Scheduled? {
      ServedRequests(w, st, ps);
      CountsAdd([own], Requests(asked, end));
    } else if Splits(w, st, ps) {
      SplitRequests(w, st, ps);
      var mid := LeftHalf(w, st, ps).0;
      CountsAdd([own], Requests(asked, mid) + Requests(mid, end));
    } else {
      assert Requests(st, end) == [own];
    }
  }

  /** A reply that rejects the request as it was put, and one that answers for as many objects as were asked for. */
  predicate RejectsShape(reply: HttpReply) {
    reply.Response? && reply.status in {400, 406, 413, 415, 422}
  }

  predicate Answers(asked: seq<Pointer>, reply: HttpReply) {
    reply.Response? && reply.status == 200 && reply.decoded.Some? && |reply.decoded.value| == |asked|
  }

  /**
   What one batch reply decides for its chunk: further batch requests follow exactly
   when a chunk of several pointers was rejected for its shape, and a reply that is
   neither that nor an answer for every pointer fails the chunk outright, with nothing
   fetched and nothing else asked.
   */
  lemma BatchReplyDecides(w: World, st: State, ps: seq<Pointer>)
    requires ps != []
    ensures var reply := w.batchReply(st.tick, ps);
            var (end, _, error) := FetchChunk(w, st, ps);
            && (CountIf(Requests(st, end), IsPrimary) > 1 <==> |ps| > 1 && RejectsShape(reply))
            && (!RejectsShape(reply) && !Answers(ps, reply) ==>
                  !NoFailure(error) && end.store == st.store && |Requests(st, end)| == 1)
  {
    hide DownloadChunk, Extends;
    var (asked, result) := AfterBatch(w, st, ps, false);
    var end := FetchChunk(w, st, ps).0;
    var own := BatchEvent(ps, result, false);
    CountOne(own);
    if result.Scheduled? {
      ServedRequests(w, st, ps);
      CountRefreshes(Requests(asked, end));
      CountsAdd([own], Requests(asked, end));
    } else if Splits(w, st, ps) {
      SplitRequests(w, st, ps);
      var mid := LeftHalf(w, st, ps).0;
      OwnRequestIsFirst(w, asked, ps[..|ps| / 2]);
      CountsAdd(Requests(asked, mid), Requests(mid, end));
      CountsAdd([own], Requests(asked, mid) + Requests(mid, end));
    } else {
      OnlyOwnRequest(w, st, ps);
    }
  }

  /** A refusal carries the status that the endpoint rejected the whole chunk with. */
  lemma RefusalNamesItsStatus(w: World, st: State, ps: seq<Pointer>)
    requires ps != [] && Refuses(FetchChunk(w, st, ps).2)
    ensures var reply := w.batchReply(st.tick, ps);
            && RejectsShape(reply)
            && FetchChunk(w, st, ps).2.value ==
                 if |ps| == 1 then NarrowedToSingleton(BatchRejected(reply.status))
                 else AllRejected(BatchRejected(reply.status))
  {
    hide DownloadChunk;
    var (asked, result) := AfterBatch(w, st, ps, false);
    if result.Scheduled? {
      DownloadChunkReports(w, asked, ps, result.objects);
    } else if Splits(w, st, ps) {
      SplitUnfolds(w, st, ps);
    }
  }

  lemma OnlyOwnRequest(w: World, st: State, ps: seq<Pointer>)
    requires ps != [] && AfterBatch(w, st, ps, false).1.Refused? && !Splits(w, st, ps)
    ensures Requests(st, FetchChunk(w, st, ps).0) == [BatchEvent(ps, AfterBatch(w, st, ps, false).1, false)]
  {
  }

  lemma MissingShrinks(w: World, before: Store, after: Store, names: set<string>, ps: seq<Pointer>)
    requires GrowsSoundly(w, before, after, names)
    ensures Missing(after, ps) <= Missing(before, ps) && |Missing(after, ps)| <= |Missing(before, ps)|
  {
    assert forall oid :: Held(before, oid) ==> Held(after, oid);
    Contained(Missing(after, ps), Missing(before, ps));
  }

  lemma MissingUnion(store: Store, ps: seq<Pointer>, middle: nat)
    requires middle <= |ps|
    ensures |Missing(store, ps)| <= |Missing(store, ps[..middle])| + |Missing(store, ps[middle..])|
  {
    HalvesCover(ps, middle);
    assert Missing(store, ps) == Missing(store, ps[..middle]) + Missing(store, ps[middle..]);
  }

  /**
   Nothing is lost unreported: unless a chunk fails outright, the oids its
   narrowing leaves out of the store are no more than the objects it counts as
   unavailable or rejected.
   */
  lemma {:induction false} NothingIsLost(w: World, st: State, ps: seq<Pointer>)
    requires ps != [] && Distinct(Oids(ps))
    requires AllNameOnce(Requests(st, FetchChunk(w, st, ps).0))
    ensures var (end, outcome, error) := FetchChunk(w, st, ps);
            NoFailure(error) ==> |Missing(end.store, ps)| <= outcome.unavailable + outcome.rejected
    decreases |ps|
  {
    hide DownloadChunk;
    var (asked, result) := AfterBatch(w, st, ps, false);
    var (end, outcome, error) := FetchChunk(w, st, ps);
    if result.Scheduled? {
      ServedRequests(w, st, ps);
      assert NamesOnce(Requests(st, end)[0]);
      DownloadChunkReports(w, asked, ps, result.objects);
      DownloadChunkMisses(w, asked, ps, result.objects);
    } else if Splits(w, st, ps) {
      SplitUnfolds(w, st, ps);
      SplitRequests(w, st, ps);
      var mid := LeftHalf(w, st, ps).0;
      var a, b := ps[..|ps| / 2], ps[|ps| / 2..];
      HalvesCover(ps, |ps| / 2);
      NothingIsLost(w, asked, a);
      NothingIsLost(w, mid, b);
      FetchChunkGrows(w, mid, b);
      MissingShrinks(w, mid.store, end.store, OidSet(b), a);
      MissingUnion(end.store, ps, |ps| / 2);
    } else if |ps| == 1 {
      OidSetIsSet(ps);
      SetSize(Oids(ps));
      Contained(Missing(end.store, ps), OidSet(ps));
    }
  }
}
