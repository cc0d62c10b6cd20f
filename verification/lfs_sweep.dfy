/**
 The guarantees of a whole repository's fetch: what a nil error means, how many
 requests it costs, what it still stores when the endpoint limits or refuses
 batches, and exactly when the reply-count check is enough.
 */
module LfsSweep {
  import opened Wrappers
  import opened Text
  import opened Collections
  import opened LfsBatch
  import opened LfsFetch
  import opened LfsTheorems

  // ---- one step of the sweep ----

  ghost function Slice(ps: seq<Pointer>, start: nat): seq<Pointer>
    requires start < |ps|
  {
    ps[start..ChunkEnd(ps, start)]
  }

  /** The chunk the sweep fetches at start, after its look at the context. */
  ghost function ChunkAt(w: World, st: State, ps: seq<Pointer>, start: nat): (State, Outcome, Option<Error>)
    requires start < |ps|
  {
    FetchChunk(w, st.(tick := st.tick + 1), Slice(ps, start))
  }

  /** The sweep goes on after a chunk unless this is its second failure. */
  ghost predicate GoesOn(w: World, st: State, ps: seq<Pointer>, start: nat, firstError: Option<Error>) {
    && start < |ps|
    && !w.cancelled(st.tick)
    && (ChunkAt(w, st, ps, start).2.None? || firstError.None?)
  }

  lemma SweepStep(w: World, st: State, ps: seq<Pointer>, start: nat, total: Outcome, firstError: Option<Error>)
    requires start < |ps|
    ensures w.cancelled(st.tick) ==>
              SweepFrom(w, st, ps, start, total, firstError) == (st.(tick := st.tick + 1), total, Some(Cancelled))
    ensures GoesOn(w, st, ps, start, firstError) ==>
              var (next, outcome, error) := ChunkAt(w, st, ps, start);
              SweepFrom(w, st, ps, start, total, firstError)
              == SweepFrom(w, next, ps, start + BATCH_OBJECT_LIMIT, total.Absorb(outcome),
                           if error.None? then firstError else error)
    ensures !w.cancelled(st.tick) && !GoesOn(w, st, ps, start, firstError) ==>
              var (next, outcome, error) := ChunkAt(w, st, ps, start);
              SweepFrom(w, st, ps, start, total, firstError)
              == (next, total.Absorb(outcome), firstError) && firstError.Some?
  {
  }

  /** A chunk past the last one changes nothing. */
  lemma SweepPastEnd(w: World, st: State, ps: seq<Pointer>, start: nat, total: Outcome, firstError: Option<Error>)
    requires start >= |ps|
    ensures SweepFrom(w, st, ps, start, total, firstError) == (st, total, Conclude(ps, total, firstError))
    ensures SweepFrom(w, st, ps, |ps|, total, firstError) == SweepFrom(w, st, ps, start, total, firstError)
  {
  }

  lemma SliceOf(ps: seq<Pointer>, start: nat)
    requires start < |ps|
    ensures 0 < |Slice(ps, start)| <= BATCH_OBJECT_LIMIT
    ensures OidSet(Slice(ps, start)) <= OidSet(ps)
    ensures Distinct(Oids(ps)) ==> Distinct(Oids(Slice(ps, start)))
    ensures start + BATCH_OBJECT_LIMIT < |ps| ==> |Slice(ps, start)| == BATCH_OBJECT_LIMIT
    ensures start + BATCH_OBJECT_LIMIT >= |ps| ==> start + |Slice(ps, start)| == |ps|
  {
  }

  // ---- what every sweep keeps ----

  /** Every request asks for at most a hundred of the repository's own pointers. */
  lemma {:induction false} SweepAsks(w: World, st: State, ps: seq<Pointer>, start: nat, total: Outcome,
                                     firstError: Option<Error>)
    ensures var end := SweepFrom(w, st, ps, start, total, firstError).0;
            && Extends(st, end)
            && forall e :: e in Requests(st, end) ==>
                 1 <= |e.asked| <= 100 && OidSet(e.asked) <= OidSet(ps)
    decreases |ps| - start
  {
    hide FetchChunk;
    if start < |ps| {
      SweepStep(w, st, ps, start, total, firstError);
      SliceOf(ps, start);
      FetchChunkAsks(w, st.(tick := st.tick + 1), Slice(ps, start));
      if GoesOn(w, st, ps, start, firstError) {
        var (next, outcome, error) := ChunkAt(w, st, ps, start);
        var sum, first := total.Absorb(outcome), if error.None? then firstError else error;
        SweepAsks(w, next, ps, start + BATCH_OBJECT_LIMIT, sum, first);
        RequestsCompose(st, next, SweepFrom(w, next, ps, start + BATCH_OBJECT_LIMIT, sum, first).0);
      }
    }
  }

  /** Whatever a sweep changes in the store is one of the repository's objects, with its digest verified. */
  lemma {:induction false} SweepGrows(w: World, st: State, ps: seq<Pointer>, start: nat, total: Outcome,
                                      firstError: Option<Error>)
    ensures GrowsSoundly(w, st.store, SweepFrom(w, st, ps, start, total, firstError).0.store, OidSet(ps))
    decreases |ps| - start
  {
    hide FetchChunk;
    if start < |ps| {
      SweepStep(w, st, ps, start, total, firstError);
      SliceOf(ps, start);
      var (next, outcome, error) := ChunkAt(w, st, ps, start);
      FetchChunkGrows(w, st.(tick := st.tick + 1), Slice(ps, start));
      GrowsWiden(w, st.store, next.store, OidSet(Slice(ps, start)), OidSet(ps));
      if GoesOn(w, st, ps, start, firstError) {
        var sum, first := total.Absorb(outcome), if error.None? then firstError else error;
        SweepGrows(w, next, ps, start + BATCH_OBJECT_LIMIT, sum, first);
        GrowsTransitively(w, st.store, next.store,
                          SweepFrom(w, next, ps, start + BATCH_OBJECT_LIMIT, sum, first).0.store, OidSet(ps));
      }
    }
  }

  /** A sound store stays sound over a whole fetch, and keeps every object it held. */
  lemma FetchKeepsStoreSound(w: World, st: State, ps: seq<Pointer>)
    requires Sound(w, st.store)
    ensures var after := FetchBatches(w, st, ps).0.store;
            && Sound(w, after)
            && (forall oid :: Held(st.store, oid) ==> Held(after, oid))
            && after.Keys <= st.store.Keys + OidSet(ps)
  {
    SweepGrows(w, st, ps, 0, EMPTY, None);
    GrowsKeepsSound(w, st.store, FetchBatches(w, st, ps).0.store, OidSet(ps));
  }

  /** At most two requests a pointer, and refreshes at most one per answered request. */
  ghost predicate WithinBudget(sent: seq<BatchEvent>, pointers: int) {
    && CountIf(sent, IsPrimary) <= 2 * pointers
    && CountIf(sent, IsRefresh) <= CountIf(sent, IsServed) <= pointers
    && |sent| <= 3 * pointers
  }

  lemma BudgetsAdd(a: seq<BatchEvent>, m: nat, b: seq<BatchEvent>, n: nat)
    requires WithinBudget(a, m) && WithinBudget(b, n)
    ensures WithinBudget(a + b, m + n)
  {
    CountsAdd(a, b);
  }

  lemma ChunkWithinBudget(w: World, st: State, ps: seq<Pointer>)
    requires ps != []
    ensures Extends(st, FetchChunk(w, st, ps).0)
    ensures WithinBudget(Requests(st, FetchChunk(w, st, ps).0), |ps|)
  {
    hide FetchChunk;
    FetchChunkAsks(w, st, ps);
    NarrowingIsBounded(w, st, ps);
  }

  /**
   Even against an endpoint that rejects everything, a sweep costs at most two requests a
   pointer, refreshes aside.
   */
  lemma {:induction false} SweepIsBounded(w: World, st: State, ps: seq<Pointer>, start: nat, total: Outcome,
                                          firstError: Option<Error>)
    requires start <= |ps|
    ensures var end := SweepFrom(w, st, ps, start, total, firstError).0;
            Extends(st, end) && WithinBudget(Requests(st, end), |ps| - start)
    decreases |ps| - start
  {
    hide FetchChunk, SweepFrom;
    var end := SweepFrom(w, st, ps, start, total, firstError).0;
    if start == |ps| {
      SweepPastEnd(w, st, ps, start, total, firstError);
      assert Requests(st, end) == [];
    } else {
      SweepStep(w, st, ps, start, total, firstError);
      SliceOf(ps, start);
      var here, slice := st.(tick := st.tick + 1), Slice(ps, start);
      var (next, outcome, error) := ChunkAt(w, st, ps, start);
      ChunkWithinBudget(w, here, slice);
      assert Requests(here, next) == Requests(st, next);
      if w.cancelled(st.tick) {
        assert Requests(st, end) == [];
      } else if GoesOn(w, st, ps, start, firstError) {
        var sum, first := total.Absorb(outcome), if error.None? then firstError else error;
        var rest := ChunkEnd(ps, start);
        SweepPastEnd(w, next, ps, if rest < |ps| then |ps| else start + BATCH_OBJECT_LIMIT, sum, first);
        assert end == SweepFrom(w, next, ps, rest, sum, first).0;
        SweepIsBounded(w, next, ps, rest, sum, first);
        RequestsCompose(st, next, end);
        BudgetsAdd(Requests(st, next), |slice|, Requests(next, end), |ps| - rest);
      }
    }
  }

  /** The first object passed over stays the one that is named. */
  lemma {:induction false} FirstReasonStays(w: World, st: State, ps: seq<Pointer>, start: nat, total: Outcome,
                                            firstError: Option<Error>)
    requires total.skipped.Some?
    ensures SweepFrom(w, st, ps, start, total, firstError).1.skipped == total.skipped
    decreases |ps| - start
  {
    hide FetchChunk;
    if start < |ps| {
      SweepStep(w, st, ps, start, total, firstError);
      if GoesOn(w, st, ps, start, firstError) {
        var (next, outcome, error) := ChunkAt(w, st, ps, start);
        FirstReasonStays(w, next, ps, start + BATCH_OBJECT_LIMIT, total.Absorb(outcome),
                         if error.None? then firstError else error);
      }
    }
  }

  // ---- what the returned error means ----

  ghost function Casualties(o: Outcome): nat { o.unavailable + o.rejected }

  /** The sweep's own two verdicts: nothing missing, or so many missing. */
  ghost predicate Accounted(error: Option<Error>) {
    error.None? || error.value.ObjectsMissing?
  }

  /** A remembered failure is what the sweep reports, unless it is cancelled. */
  lemma {:induction false} FailureIsReported(w: World, st: State, ps: seq<Pointer>, start: nat, total: Outcome,
                                             firstError: Option<Error>)
    requires firstError.Some? && !firstError.value.ObjectsMissing?
    ensures !Accounted(SweepFrom(w, st, ps, start, total, firstError).2)
    decreases |ps| - start
  {
    hide FetchChunk;
    if start < |ps| {
      SweepStep(w, st, ps, start, total, firstError);
      if GoesOn(w, st, ps, start, firstError) {
        var (next, outcome, error) := ChunkAt(w, st, ps, start);
        FailureIsReported(w, next, ps, start + BATCH_OBJECT_LIMIT, total.Absorb(outcome), firstError);
      }
    }
  }

  lemma {:induction false} ChunkErrorKinds(w: World, st: State, ps: seq<Pointer>)
    requires ps != []
    ensures var error := FetchChunk(w, st, ps).2; error.Some? ==> !error.value.ObjectsMissing?
    decreases |ps|
  {
    var (asked, result) := AfterBatch(w, st, ps, false);
    if Splits(w, st, ps) {
      SplitUnfolds(w, st, ps);
      ChunkErrorKinds(w, asked, ps[..|ps| / 2]);
      ChunkErrorKinds(w, LeftHalf(w, st, ps).0, ps[|ps| / 2..]);
    }
  }

  lemma NamesOnceSplits(a: State, b: State, c: State)
    requires Extends(a, b) && Extends(b, c) && AllNameOnce(Requests(a, c))
    ensures AllNameOnce(Requests(a, b)) && AllNameOnce(Requests(b, c))
  {
  }

  /**
   An error about missing objects says how many of how many, and names the first of them; what
   else can go wrong, it is not that error.
   */
  lemma {:induction false} MissingIsExplained(w: World, st: State, ps: seq<Pointer>, start: nat, total: Outcome,
                                              firstError: Option<Error>)
    requires firstError.Some? ==> !firstError.value.ObjectsMissing?
    requires total.skipped.Some? <==> Casualties(total) > 0
    ensures var (_, outcome, error) := SweepFrom(w, st, ps, start, total, firstError);
            error.Some? && error.value.ObjectsMissing? ==>
              outcome.skipped.Some? && error == Some(ObjectsMissing(Casualties(outcome), |ps|, outcome.skipped))
    decreases |ps| - start
  {
    hide FetchChunk;
    if start < |ps| {
      SweepStep(w, st, ps, start, total, firstError);
      if GoesOn(w, st, ps, start, firstError) {
        var here := st.(tick := st.tick + 1);
        var (next, outcome, error) := ChunkAt(w, st, ps, start);
        CasualtiesAreCounted(w, here, Slice(ps, start));
        ChunkErrorKinds(w, here, Slice(ps, start));
        MissingIsExplained(w, next, ps, start + BATCH_OBJECT_LIMIT, total.Absorb(outcome),
                           if error.None? then firstError else error);
      }
    }
  }

  /** What a chunk that did not fail leaves missing for good is no more than what it counts. */
  lemma ChunkAccounts(w: World, st: State, ps: seq<Pointer>, start: nat, total: Outcome)
    requires start < |ps| && Distinct(Oids(ps)) && NoFailure(ChunkAt(w, st, ps, start).2)
    requires Extends(st, ChunkAt(w, st, ps, start).0) && AllNameOnce(Requests(st, ChunkAt(w, st, ps, start).0))
    ensures var (next, part, _) := ChunkAt(w, st, ps, start);
            var end := SweepFrom(w, next, ps, start + BATCH_OBJECT_LIMIT, total.Absorb(part), None).0;
            |Missing(end.store, Slice(ps, start))| <= Casualties(part)
  {
    hide FetchChunk, SweepFrom;
    var (next, part, _) := ChunkAt(w, st, ps, start);
    var end := SweepFrom(w, next, ps, start + BATCH_OBJECT_LIMIT, total.Absorb(part), None).0;
    var here := st.(tick := st.tick + 1);
    SliceOf(ps, start);
    assert Requests(here, next) == Requests(st, next);
    NothingIsLost(w, here, Slice(ps, start));
    SweepGrows(w, next, ps, start + BATCH_OBJECT_LIMIT, total.Absorb(part), None);
    MissingShrinks(w, next.store, end.store, OidSet(ps), Slice(ps, start));
  }

  /** From any point of a sweep, what goes missing afterwards is no more than what it counts afterwards. */
  lemma {:induction false} SweepAccounts(w: World, st: State, ps: seq<Pointer>, start: nat, total: Outcome,
                                         firstError: Option<Error>)
    requires start <= |ps| && Distinct(Oids(ps)) && firstError.None?
    requires Extends(st, SweepFrom(w, st, ps, start, total, firstError).0)
    requires AllNameOnce(Requests(st, SweepFrom(w, st, ps, start, total, firstError).0))
    ensures var (end, outcome, error) := SweepFrom(w, st, ps, start, total, firstError);
            Accounted(error) ==>
              && |Missing(end.store, ps[start..])| + Casualties(total) <= Casualties(outcome)
              && (error.None? ==> Casualties(outcome) == 0)
              && (error.Some? ==> error.value.missing == Casualties(outcome))
    decreases |ps| - start
  {
    hide FetchChunk;
    var (end, outcome, error) := SweepFrom(w, st, ps, start, total, firstError);
    if start == |ps| {
      assert Missing(end.store, ps[start..]) == {};
    } else if Accounted(error) {
      SweepStep(w, st, ps, start, total, firstError);
      var (next, part, partError) := ChunkAt(w, st, ps, start);
      var here, rest := st.(tick := st.tick + 1), start + BATCH_OBJECT_LIMIT;
      if partError.Some? {
        ChunkErrorKinds(w, here, Slice(ps, start));
        FailureIsReported(w, next, ps, rest, total.Absorb(part), partError);
      }
      assert Extends(here, next) by { FetchChunkAsks(w, here, Slice(ps, start)); }
      assert Extends(next, end) by { SweepAsks(w, next, ps, rest, total.Absorb(part), None); }
      NamesOnceSplits(here, next, end);
      ChunkAccounts(w, st, ps, start, total);
      if rest < |ps| {
        SweepAccounts(w, next, ps, rest, total.Absorb(part), None);
        SplitTail(end.store, ps, start, rest);
      } else {
        assert Slice(ps, start) == ps[start..];
      }
    }
  }

  lemma SplitTail(store: Store, ps: seq<Pointer>, start: nat, rest: nat)
    requires start <= rest <= |ps|
    ensures |Missing(store, ps[start..])| <= |Missing(store, ps[start..rest])| + |Missing(store, ps[rest..])|
  {
    var tail := ps[start..];
    assert tail[..rest - start] == ps[start..rest] && tail[rest - start..] == ps[rest..];
    MissingUnion(store, tail, rest - start);
  }

  /**
   A fetch that returns no error holds every requested object, whatever mix of
   narrowing, refreshing and caching it took; a fetch that reports so many objects
   missing misses no more than that. The replies are only assumed to answer for each
   oid at most once: the client itself checks no more than their number.
   */
  lemma FetchIsComplete(w: World, st: State, ps: seq<Pointer>)
    requires Distinct(Oids(ps))
    requires AllNameOnce(Requests(st, FetchBatches(w, st, ps).0))
    ensures var (end, outcome, error) := FetchBatches(w, st, ps);
            && (error.None? ==> (forall p :: p in ps ==> Held(end.store, p.oid)) && Casualties(outcome) == 0)
            && (error.Some? && error.value.ObjectsMissing? ==> |Missing(end.store, ps)| <= error.value.missing)
  {
    hide SweepFrom, AllNameOnce, Requests, Distinct;
    var (end, outcome, error) := FetchBatches(w, st, ps);
    assert Extends(st, end) by { SweepAsks(w, st, ps, 0, EMPTY, None); }
    SweepAccounts(w, st, ps, 0, EMPTY, None);
    assert ps[0..] == ps;
    if error.None? {
      assert Missing(end.store, ps) == {};
      forall p | p in ps ensures Held(end.store, p.oid) {
        assert p.oid !in Missing(end.store, ps);
      }
    }
  }

  /** Every object a clean fetch into a sound store answers for is the content its name is the digest of. */
  lemma FetchIsVerified(w: World, st: State, ps: seq<Pointer>)
    requires Distinct(Oids(ps)) && Sound(w, st.store)
    requires AllNameOnce(Requests(st, FetchBatches(w, st, ps).0))
    requires FetchBatches(w, st, ps).2.None?
    ensures var after := FetchBatches(w, st, ps).0.store;
            forall p :: p in ps ==> p.oid in after && after[p.oid].File? && w.digest(after[p.oid].content) == p.oid
  {
    FetchIsComplete(w, st, ps);
    FetchKeepsStoreSound(w, st, ps);
  }

  // ---- the reply-count check ----

  /** A pass over an answer whose every object was settled. */
  ghost predicate CleanPass(p: Pass) {
    p.failed == [] && p.expired == [] && p.unavailable == []
  }

  /** A clean pass settles exactly what the reply answers for, and that is every object of it. */
  lemma {:induction false} CleanPassSettles(w: World, wanted: map<string, int>, store: Store, tick: nat,
                                            objects: seq<ReplyObject>)
    requires CleanPass(AfterObjects(w, wanted, store, tick, objects))
    ensures var p := AfterObjects(w, wanted, store, tick, objects);
            !p.stopped && p.settled == AnsweredOids(wanted.Keys, objects) && |p.settled| == |objects|
  {
    if objects != [] {
      var n := |objects| - 1;
      var before := AfterObjects(w, wanted, store, tick, objects[..n]);
      ObjectWasClean(w, wanted, before, objects[n]);
      hide AfterObject, Answered;
      CleanPassSettles(w, wanted, store, tick, objects[..n]);
    }
  }

  /** A pass still clean after an object was clean before it, and settled it. */
  lemma ObjectWasClean(w: World, wanted: map<string, int>, p: Pass, o: ReplyObject)
    requires CleanPass(AfterObject(w, wanted, p, o))
    ensures CleanPass(p)
    ensures !p.stopped ==>
              var q, answer := AfterObject(w, wanted, p, o), Answered(wanted.Keys, o);
              !q.stopped && answer.Some? && q.settled == p.settled + [answer.value]
  {
  }

  ghost predicate AllHeld(store: Store, ps: seq<Pointer>) {
    forall p :: p in ps ==> Held(store, p.oid)
  }

  /**
   Exactly when checking only the number of objects in a reply suffices. Over any
   store, a clean pass leaves every requested object there if and only if the reply
   answers for each one that was not there before; over a store holding none of them,
   if and only if the reply names none twice.
   */
  lemma CountCheckSufficesIff(w: World, st: State, want: seq<Pointer>, objects: seq<ReplyObject>)
    requires CleanPass(PassOver(w, st, want, objects))
    ensures AllHeld(PassOver(w, st, want, objects).store, want) <==>
              forall p :: p in want && !Held(st.store, p.oid) ==> p.oid in AnsweredOids(OidSet(want), objects)
    ensures |objects| == |want| && Distinct(Oids(want)) && (forall p :: p in want ==> !Held(st.store, p.oid)) ==>
              (AllHeld(PassOver(w, st, want, objects).store, want) <==> Distinct(AnsweredOids(OidSet(want), objects)))
  {
    var sizes := WantedSizes(want);
    var named := AnsweredOids(sizes.Keys, objects);
    PassAdds(w, sizes, st.store, st.tick, objects);
    PassGrows(w, sizes, st.store, st.tick, objects);
    PassCounts(w, sizes, st.store, st.tick, objects);
    CleanPassSettles(w, sizes, st.store, st.tick, objects);
    assert OidSet(want) == sizes.Keys;
    hide AnsweredOids, AfterObjects, Distinct, WantedSizes;
    if |objects| == |want| && Distinct(Oids(want)) && (forall p :: p in want ==> !Held(st.store, p.oid)) {
      NamesAllIffDistinct(want, named);
    }
  }

  /** As many names as pointers, all of them the pointers': they name each pointer exactly when none is repeated. */
  lemma NamesAllIffDistinct(want: seq<Pointer>, named: seq<string>)
    requires Distinct(Oids(want)) && |named| == |want|
    requires forall oid :: oid in named ==> oid in OidSet(want)
    ensures (forall p :: p in want ==> p.oid in named) <==> Distinct(named)
  {
    SetSize(Oids(want));
    SetSize(named);
    OidSetIsSet(want);
    assert SetOf(named) <= OidSet(want);
    hide Distinct;
    if forall p :: p in want ==> p.oid in named {
      assert SetOf(named) == OidSet(want);
    } else {
      var p :| p in want && p.oid !in named;
      Smaller(SetOf(named), OidSet(want), p.oid);
    }
  }

  function Repeat(c: char): (s: string)
    ensures IsSha256Hex(s) <==> IsHexDigit(c)
    ensures |s| == 64 && s[0] == c
  {
    var s := seq(64, _ => c);
    assert s[0] == c;
    s
  }

  /** An endpoint that schedules the first requested object as often as it was asked for objects. */
  function ForgetfulWorld(): World {
    var only := ReplyObject(Repeat('a'), 0, None, Some(Action("url", None, 0)));
    World(
      (_: Bytes) => Repeat('a'),
      (_: nat, asked: seq<Pointer>) => Response(200, Some(seq(|asked|, _ => only))),
      (_: nat, _: string) => Streamed([], true),
      (_: nat) => false,
      (_: nat) => 0)
  }

  /** Its one pass over two pointers settles the first twice. */
  lemma ForgetfulPass(a: string, b: string)
    requires a == Repeat('a') && b == Repeat('b')
    ensures var only := ReplyObject(a, 0, None, Some(Action("url", None, 0)));
            AfterObjects(ForgetfulWorld(), WantedSizes([Pointer(a, 0), Pointer(b, 0)]), map[], 2, [only, only])
            == Pass(map[a := File([])], 4, [], [], [], [a, a], false)
  {
    var w := ForgetfulWorld();
    var ps := [Pointer(a, 0), Pointer(b, 0)];
    var only := ReplyObject(a, 0, None, Some(Action("url", None, 0)));
    assert ps[..1] == [ps[0]] && ps[..1][..0] == [];
    assert WantedSizes([ps[0]]) == map[a := 0];
    assert WantedSizes(ps) == map[a := 0, b := 0];
    assert ToLower(a) == a;
    assert [only][..0] == [] && [only, only][..1] == [only];
    var p0 := AfterObjects(w, WantedSizes(ps), map[], 2, []);
    var p1 := AfterObjects(w, WantedSizes(ps), map[], 2, [only]);
    assert Answered({a, b}, only) == Some(a);
    assert WantedSizes(ps).Keys == {a, b};
    assert w.transfer(p0.tick, a) == Streamed([], true);
    assert AfterDownload(w, map[], 2, a) == (map[a := File([])], None);
    assert p1 == AfterObject(w, WantedSizes(ps), p0, only);
    assert p1 == Pass(map[a := File([])], 3, [], [], [], [a], false);
  }

  lemma ForgetfulChunk(a: string, b: string, st: State)
    requires a == Repeat('a') && b == Repeat('b') && st.store == map[] && st.tick == 1
    ensures var (end, outcome, error) := FetchChunk(ForgetfulWorld(), st, [Pointer(a, 0), Pointer(b, 0)]);
            end.store == map[a := File([])] && error.None? && outcome.unavailable == outcome.rejected == 0
  {
    hide AfterObjects, WantedSizes;
    var w := ForgetfulWorld();
    var ps := [Pointer(a, 0), Pointer(b, 0)];
    var only := ReplyObject(a, 0, None, Some(Action("url", None, 0)));
    var (asked, result) := AfterBatch(w, st, ps, false);
    assert seq(2, _ => only) == [only, only];
    assert result == Scheduled([only, only]);
    ForgetfulPass(a, b);
    assert PassOver(w, asked, ps, [only, only]).store == map[a := File([])];
  }

  lemma OneChunkFetch(w: World, st: State, ps: seq<Pointer>)
    requires 0 < |ps| <= BATCH_OBJECT_LIMIT && !w.cancelled(st.tick)
    requires var (_, outcome, error) := FetchChunk(w, st.(tick := st.tick + 1), ps);
             error.None? && outcome.unavailable == outcome.rejected == 0
    ensures FetchBatches(w, st, ps).0 == FetchChunk(w, st.(tick := st.tick + 1), ps).0
    ensures FetchBatches(w, st, ps).2.None?
  {
    hide FetchChunk;
    assert Slice(ps, 0) == ps;
    SweepStep(w, st, ps, 0, EMPTY, None);
  }

  /** Without that assumption the guarantee fails: this fetch of two objects returns no error and stores one. */
  lemma RepeatedNamesLoseObjects()
    ensures var ps := [Pointer(Repeat('a'), 0), Pointer(Repeat('b'), 0)];
            var (end, _, error) := FetchBatches(ForgetfulWorld(), State(map[], 0, []), ps);
            Distinct(Oids(ps)) && error.None? && !Held(end.store, ps[1].oid)
  {
    var w := ForgetfulWorld();
    var a, b := Repeat('a'), Repeat('b');
    var ps := [Pointer(a, 0), Pointer(b, 0)];
    var st := State(map[], 0, []);
    ForgetfulChunk(a, b, st.(tick := 1));
    OneChunkFetch(w, st, ps);
    assert a[0] != b[0];
  }
}
