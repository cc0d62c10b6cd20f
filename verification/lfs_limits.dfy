/**
 Narrowing against an endpoint with an object limit and some objects it refuses
 outright: every other object is stored, the refused ones are counted exactly, and
 the sweep stops exactly at its second chunk of nothing but refused objects.
 */
module LfsLimits {
  import opened Wrappers
  import opened Text
  import opened Collections
  import opened LfsBatch
  import opened LfsFetch
  import opened LfsTheorems
  import opened LfsSweep

  /** Each requested object is scheduled once, under a URL that never lapses. */
  ghost predicate ServesAll(w: World, asked: seq<Pointer>, objects: seq<ReplyObject>) {
    && |objects| == |asked|
    && Distinct(AnsweredOids(OidSet(asked), objects))
    && forall o :: o in objects ==>
         && Answered(OidSet(asked), o).Some?
         && forall at: nat :: !Expired(o.download.value, w.now(at))
  }

  predicate TooMuch(asked: seq<Pointer>, limit: nat, poison: set<string>) {
    |asked| > limit || exists p :: p in asked && p.oid in poison
  }

  /** A batch the client can send for a repository with these objects: some of them, each once. */
  predicate CanAsk(asked: seq<Pointer>, known: set<string>) {
    asked != [] && Distinct(Oids(asked)) && OidSet(asked) <= known
  }

  /** Every object it does not refuse can be fetched at any time. */
  ghost predicate Delivers(w: World, oids: set<string>) {
    && (forall at: nat :: !w.cancelled(at))
    && (forall at: nat, oid :: oid in oids ==>
          var t := w.transfer(at, oid); t.Streamed? && t.renamed && w.digest(t.body) == oid)
  }

  /**
   To a client of a repository with these objects: rejects a batch exactly when it is
   over the limit or names a poison oid, and serves it otherwise.
   */
  ghost predicate LimitedEndpoint(w: World, limit: nat, poison: set<string>, known: set<string>) {
    && Delivers(w, known - poison)
    && forall at: nat, asked: seq<Pointer> :: CanAsk(asked, known) ==>
         var result := Settle(asked, w.batchReply(at, asked));
         if TooMuch(asked, limit, poison) then result.Refused? && result.error.BatchRejected?
         else result.Scheduled? && ServesAll(w, asked, result.objects)
  }

  function Poisoned(ps: seq<Pointer>, poison: set<string>): nat {
    if ps == [] then 0
    else Poisoned(ps[..|ps| - 1], poison) + (if ps[|ps| - 1].oid in poison then 1 else 0)
  }

  predicate AllPoison(ps: seq<Pointer>, poison: set<string>) {
    forall p :: p in ps ==> p.oid in poison
  }

  lemma {:induction false} PoisonedAdds(a: seq<Pointer>, b: seq<Pointer>, poison: set<string>)
    ensures Poisoned(a + b, poison) == Poisoned(a, poison) + Poisoned(b, poison)
  {
    if b == [] {
      assert a + b == a;
    } else {
      assert (a + b)[..|a + b| - 1] == a + b[..|b| - 1];
      PoisonedAdds(a, b[..|b| - 1], poison);
    }
  }

  lemma {:induction false} PoisonedNone(ps: seq<Pointer>, poison: set<string>)
    requires forall p :: p in ps ==> p.oid !in poison
    ensures Poisoned(ps, poison) == 0
  {
    if ps != [] {
      PoisonedNone(ps[..|ps| - 1], poison);
    }
  }

  // ---- one chunk ----

  lemma {:induction false} ServedPassIsClean(w: World, wanted: map<string, int>, store: Store, tick: nat,
                                             objects: seq<ReplyObject>)
    requires Delivers(w, wanted.Keys)
    requires forall o :: o in objects ==>
               && Answered(wanted.Keys, o).Some?
               && forall at: nat :: !Expired(o.download.value, w.now(at))
    ensures CleanPass(AfterObjects(w, wanted, store, tick, objects))
  {
    if objects != [] {
      var n := |objects| - 1;
      ServedPassIsClean(w, wanted, store, tick, objects[..n]);
      assert objects[n] in objects;
    }
  }

  /** A served chunk stores everything it asked for and reports nothing. */
  lemma ServedChunkStoresAll(w: World, st: State, want: seq<Pointer>, objects: seq<ReplyObject>)
    requires Delivers(w, OidSet(want)) && want != [] && Distinct(Oids(want)) && ServesAll(w, want, objects)
    ensures var (end, outcome, error) := DownloadChunk(w, st, want, objects);
            && error.None? && outcome.unavailable == 0 && outcome.rejected == 0
            && forall p :: p in want ==> Held(end.store, p.oid)
  {
    ServedPassIsClean(w, WantedSizes(want), st.store, st.tick, objects);
    PassMisses(w, st, want, objects);
    var after := PassOver(w, st, want, objects).store;
    assert Missing(after, want) == {};
    forall p | p in want ensures Held(after, p.oid) {
      assert p.oid !in Missing(after, want);
    }
  }

  ghost predicate HoldsServable(store: Store, ps: seq<Pointer>, poison: set<string>) {
    forall p :: p in ps && p.oid !in poison ==> Held(store, p.oid)
  }

  /** One pointer or one split: what the endpoint's rule means for a chunk. */
  lemma LimitedReply(w: World, st: State, ps: seq<Pointer>, limit: nat, poison: set<string>, known: set<string>)
    requires LimitedEndpoint(w, limit, poison, known) && limit >= 1 && CanAsk(ps, known)
    ensures var result := AfterBatch(w, st, ps, false).1;
            && (TooMuch(ps, limit, poison) ==> result.Refused? && result.error.BatchRejected?)
            && (!TooMuch(ps, limit, poison) ==> result.Scheduled? && ServesAll(w, ps, result.objects))
            && (|ps| == 1 && TooMuch(ps, limit, poison) ==> ps[0].oid in poison)
            && (!TooMuch(ps, limit, poison) ==> Delivers(w, OidSet(ps)))
  {
  }

  /**
   Narrowing loses nothing: every object the endpoint would serve is stored, the
   rejected count is exactly the number of refused objects, and the chunk fails
   if and only if all of its objects are refused ones.
   */
  lemma {:induction false} NarrowingStoresTheRest(w: World, st: State, ps: seq<Pointer>, limit: nat,
                                                  poison: set<string>, known: set<string>)
    requires LimitedEndpoint(w, limit, poison, known) && limit >= 1 && CanAsk(ps, known)
    ensures var (end, outcome, error) := FetchChunk(w, st, ps);
            && HoldsServable(end.store, ps, poison)
            && outcome.rejected == Poisoned(ps, poison) && outcome.unavailable == 0
            && NoFailure(error) && (error.Some? <==> AllPoison(ps, poison))
    decreases |ps|
  {
    hide DownloadChunk;
    var (asked, result) := AfterBatch(w, st, ps, false);
    LimitedReply(w, st, ps, limit, poison, known);
    if result.Scheduled? {
      ServedChunkStoresAll(w, asked, ps, result.objects);
      PoisonedNone(ps, poison);
      assert ps[0] in ps;
    } else if |ps| == 1 {
      assert ps[..0] == [] && Poisoned(ps, poison) == 1;
    } else {
      NarrowHalves(w, st, ps, limit, poison, known);
    }
  }

  /** The rejected counts add up, and the pair fails exactly when both halves are all refused. */
  lemma MergedCounts(a: seq<Pointer>, b: seq<Pointer>, left: Outcome, leftError: Option<Error>,
                     right: Outcome, rightError: Option<Error>, rejection: Error, poison: set<string>)
    requires left.rejected == Poisoned(a, poison) && left.unavailable == 0
    requires right.rejected == Poisoned(b, poison) && right.unavailable == 0
    requires NoFailure(leftError) && (leftError.Some? <==> AllPoison(a, poison))
    requires NoFailure(rightError) && (rightError.Some? <==> AllPoison(b, poison))
    requires left.answered <==> leftError.None?
    requires right.answered <==> rightError.None?
    ensures var (outcome, error) := MergeHalves(left, leftError, right, rightError, rejection);
            && outcome.rejected == Poisoned(a + b, poison) && outcome.unavailable == 0
            && NoFailure(error) && (error.Some? <==> AllPoison(a + b, poison))
  {
    PoisonedAdds(a, b, poison);
    assert AllPoison(a + b, poison) <==> AllPoison(a, poison) && AllPoison(b, poison);
  }

  lemma HoldsLonger(w: World, before: Store, after: Store, names: set<string>, a: seq<Pointer>, b: seq<Pointer>,
                    poison: set<string>)
    requires GrowsSoundly(w, before, after, names)
    requires HoldsServable(before, a, poison) && HoldsServable(after, b, poison)
    ensures HoldsServable(after, a + b, poison)
  {
  }

  lemma {:induction false} NarrowHalves(w: World, st: State, ps: seq<Pointer>, limit: nat, poison: set<string>,
                                        known: set<string>)
    requires LimitedEndpoint(w, limit, poison, known) && limit >= 1 && CanAsk(ps, known) && Splits(w, st, ps)
    ensures var (end, outcome, error) := FetchChunk(w, st, ps);
            && HoldsServable(end.store, ps, poison)
            && outcome.rejected == Poisoned(ps, poison) && outcome.unavailable == 0
            && NoFailure(error) && (error.Some? <==> AllPoison(ps, poison))
    decreases |ps|, 0
  {
    hide FetchChunk;
    var a, b := ps[..|ps| / 2], ps[|ps| / 2..];
    var (asked, result) := AfterBatch(w, st, ps, false);
    var (mid, left, leftError) := LeftHalf(w, st, ps);
    var (end, right, rightError) := RightHalf(w, st, ps);
    assert ps == a + b;
    assert CanAsk(a, known) && CanAsk(b, known) by { HalvesCover(ps, |ps| / 2); }
    NarrowingStoresTheRest(w, asked, a, limit, poison, known);
    NarrowingStoresTheRest(w, mid, b, limit, poison, known);
    FetchChunkGrows(w, mid, b);
    HoldsLonger(w, mid.store, end.store, OidSet(b), a, b, poison);
    SilenceMeansAnswered(w, asked, a);
    SilenceMeansAnswered(w, mid, b);
    MergedCounts(a, b, left, leftError, right, rightError, result.error, poison);
    SplitUnfolds(w, st, ps);
  }

  // ---- the sweep ----

  /** How far the sweep gets: through its second chunk of nothing but refused objects, or to the end. */
  function Reach(ps: seq<Pointer>, poison: set<string>, start: nat, failedOnce: bool): (r: nat)
    requires start <= |ps|
    ensures start <= r <= |ps|
    decreases |ps| - start
  {
    if start == |ps| then |ps|
    else
      var end := ChunkEnd(ps, start);
      if !AllPoison(ps[start..end], poison) then Reach(ps, poison, end, failedOnce)
      else if failedOnce then end
      else Reach(ps, poison, end, true)
  }

  function FailingChunks(ps: seq<Pointer>, poison: set<string>, start: nat): nat
    requires start <= |ps|
    decreases |ps| - start
  {
    if start == |ps| then 0
    else
      var end := ChunkEnd(ps, start);
      FailingChunks(ps, poison, end) + (if AllPoison(ps[start..end], poison) then 1 else 0)
  }

  lemma {:induction false} FewFailuresReachTheEnd(ps: seq<Pointer>, poison: set<string>, start: nat, failedOnce: bool)
    requires start <= |ps|
    requires FailingChunks(ps, poison, start) + (if failedOnce then 1 else 0) <= 1
    ensures Reach(ps, poison, start, failedOnce) == |ps|
    decreases |ps| - start
  {
    if start < |ps| {
      var end := ChunkEnd(ps, start);
      FewFailuresReachTheEnd(ps, poison, end, failedOnce || AllPoison(ps[start..end], poison));
    }
  }

  lemma ChunkStores(w: World, st: State, slice: seq<Pointer>, limit: nat, poison: set<string>, known: set<string>)
    requires LimitedEndpoint(w, limit, poison, known) && limit >= 1 && CanAsk(slice, known)
    ensures var (next, _, error) := FetchChunk(w, st, slice);
            && GrowsSoundly(w, st.store, next.store, OidSet(slice))
            && HoldsServable(next.store, slice, poison)
            && (error.Some? <==> AllPoison(slice, poison))
  {
    hide FetchChunk;
    FetchChunkGrows(w, st, slice);
    NarrowingStoresTheRest(w, st, slice, limit, poison, known);
  }

  lemma ChunkAtStores(w: World, st: State, ps: seq<Pointer>, start: nat, limit: nat, poison: set<string>,
                      known: set<string>)
    requires LimitedEndpoint(w, limit, poison, known) && limit >= 1 && Distinct(Oids(ps)) && OidSet(ps) <= known
    requires start < |ps|
    ensures var (next, _, error) := ChunkAt(w, st, ps, start);
            && GrowsSoundly(w, st.store, next.store, OidSet(Slice(ps, start)))
            && HoldsServable(next.store, Slice(ps, start), poison)
            && (error.Some? <==> AllPoison(Slice(ps, start), poison))
  {
    hide FetchChunk, LimitedEndpoint, GrowsSoundly, HoldsServable, AllPoison, Distinct;
    SliceOf(ps, start);
    ChunkStores(w, st.(tick := st.tick + 1), Slice(ps, start), limit, poison, known);
  }

  /** The sweep stores every servable object up to its reach and asks for nothing beyond it. */
  lemma {:induction false} SweepStoresReached(
    w: World, st: State, ps: seq<Pointer>, start: nat, total: Outcome, firstError: Option<Error>,
    limit: nat, poison: set<string>, known: set<string>)
    requires LimitedEndpoint(w, limit, poison, known) && limit >= 1 && Distinct(Oids(ps)) && OidSet(ps) <= known
    requires start <= |ps|
    ensures var end := SweepFrom(w, st, ps, start, total, firstError).0;
            var reach := Reach(ps, poison, start, firstError.Some?);
            && HoldsServable(end.store, ps[start..reach], poison)
            && GrowsSoundly(w, st.store, end.store, OidSet(ps[start..reach]))
    decreases |ps| - start
  {
    hide FetchChunk;
    var reach := Reach(ps, poison, start, firstError.Some?);
    if start == |ps| {
      assert ps[start..reach] == [];
    } else {
      var (next, outcome, error) := ChunkAt(w, st, ps, start);
      var stop := ChunkEnd(ps, start);
      ChunkAtStores(w, st, ps, start, limit, poison, known);
      SweepStep(w, st, ps, start, total, firstError);
      if GoesOn(w, st, ps, start, firstError) {
        var sum, first := total.Absorb(outcome), if error.None? then firstError else error;
        if stop == |ps| {
          SweepPastEnd(w, next, ps, start + BATCH_OBJECT_LIMIT, sum, first);
        }
        SweepStoresReached(w, next, ps, stop, sum, first, limit, poison, known);
        var end := SweepFrom(w, next, ps, stop, sum, first).0;
        JoinReached(w, st.store, next.store, end.store, ps, start, stop, reach, poison);
      } else {
        assert reach == stop;
      }
    }
  }

  lemma JoinReached(w: World, a: Store, b: Store, c: Store, ps: seq<Pointer>, start: nat, stop: nat, reach: nat,
                    poison: set<string>)
    requires start <= stop <= reach <= |ps|
    requires GrowsSoundly(w, a, b, OidSet(ps[start..stop])) && HoldsServable(b, ps[start..stop], poison)
    requires GrowsSoundly(w, b, c, OidSet(ps[stop..reach])) && HoldsServable(c, ps[stop..reach], poison)
    ensures GrowsSoundly(w, a, c, OidSet(ps[start..reach])) && HoldsServable(c, ps[start..reach], poison)
  {
    assert ps[start..reach] == ps[start..stop] + ps[stop..reach];
    var names := OidSet(ps[start..reach]);
    assert OidSet(ps[start..stop]) <= names && OidSet(ps[stop..reach]) <= names;
    GrowsWiden(w, a, b, OidSet(ps[start..stop]), names);
    GrowsWiden(w, b, c, OidSet(ps[stop..reach]), names);
    GrowsTransitively(w, a, b, c, names);
  }

  // ---- what the sweep reports ----

  lemma ChunkAtReports(w: World, st: State, ps: seq<Pointer>, start: nat, limit: nat, poison: set<string>,
                       known: set<string>)
    requires LimitedEndpoint(w, limit, poison, known) && limit >= 1
    requires Distinct(Oids(ps)) && OidSet(ps) <= known && start < |ps|
    ensures var (_, outcome, error) := ChunkAt(w, st, ps, start);
            && outcome.unavailable == 0
            && Poisoned(ps[..start], poison) + outcome.rejected == Poisoned(ps[..ChunkEnd(ps, start)], poison)
            && NoFailure(error) && (error.Some? <==> AllPoison(Slice(ps, start), poison))
  {
    hide FetchChunk, LimitedEndpoint, HoldsServable, AllPoison, Poisoned, Distinct, IsRefusal;
    SliceOf(ps, start);
    NarrowingStoresTheRest(w, st.(tick := st.tick + 1), Slice(ps, start), limit, poison, known);
    PoisonedAdds(ps[..start], Slice(ps, start), poison);
    assert ps[..ChunkEnd(ps, start)] == ps[..start] + Slice(ps, start);
  }

  /**
   From any point the sweep reports a refusal exactly when one is remembered or a chunk of
   nothing but refused objects is still to come; and it counts the refused objects it reached.
   */
  lemma {:induction false} SweepReports(
    w: World, st: State, ps: seq<Pointer>, start: nat, total: Outcome, firstError: Option<Error>,
    limit: nat, poison: set<string>, known: set<string>)
    requires LimitedEndpoint(w, limit, poison, known) && limit >= 1
    requires Distinct(Oids(ps)) && OidSet(ps) <= known && start <= |ps|
    requires NoFailure(firstError) && total.unavailable == 0 && total.rejected == Poisoned(ps[..start], poison)
    ensures var (_, outcome, error) := SweepFrom(w, st, ps, start, total, firstError);
            && outcome.unavailable == 0
            && outcome.rejected == Poisoned(ps[..Reach(ps, poison, start, firstError.Some?)], poison)
            && (if firstError.Some? || FailingChunks(ps, poison, start) > 0 then error.Some? && IsRefusal(error.value)
                else error == Conclude(ps, outcome, None))
    decreases |ps| - start
  {
    hide FetchChunk, Poisoned, IsRefusal, AllPoison;
    if start < |ps| {
      var (next, outcome, error) := ChunkAt(w, st, ps, start);
      var stop := ChunkEnd(ps, start);
      ChunkAtReports(w, st, ps, start, limit, poison, known);
      SweepStep(w, st, ps, start, total, firstError);
      if GoesOn(w, st, ps, start, firstError) {
        var sum, first := total.Absorb(outcome), if error.None? then firstError else error;
        if stop == |ps| {
          SweepPastEnd(w, next, ps, start + BATCH_OBJECT_LIMIT, sum, first);
        }
        SweepReports(w, next, ps, stop, sum, first, limit, poison, known);
      }
    }
  }

  /** A chunk of nothing but refused objects has one. */
  lemma {:induction false} FailingIsPoisoned(ps: seq<Pointer>, poison: set<string>, start: nat)
    requires start <= |ps| && FailingChunks(ps, poison, start) > 0
    ensures exists p :: p in ps && p.oid in poison
    decreases |ps| - start
  {
    var end := ChunkEnd(ps, start);
    if AllPoison(ps[start..end], poison) {
      assert ps[start] in ps[start..end] && ps[start] in ps;
    } else {
      FailingIsPoisoned(ps, poison, end);
    }
  }

  lemma {:induction false} PoisonedSome(ps: seq<Pointer>, poison: set<string>)
    requires exists p :: p in ps && p.oid in poison
    ensures Poisoned(ps, poison) > 0
  {
    var n := |ps| - 1;
    if ps[n].oid !in poison {
      var p :| p in ps && p.oid in poison;
      assert p in ps[..n];
      PoisonedSome(ps[..n], poison);
    }
  }

  /**
   Exactly what a repository's fetch stores from such an endpoint: every servable
   object before the sweep's stopping point, and nothing after it. With at most one
   chunk of nothing but refused objects there is no stopping point. And exactly what it
   returns: nil when nothing is refused, a refusal when a chunk is all refused, and
   otherwise the number of refused objects as missing.
   */
  lemma FetchStoresTheRest(w: World, st: State, ps: seq<Pointer>, limit: nat, poison: set<string>, known: set<string>)
    requires LimitedEndpoint(w, limit, poison, known) && limit >= 1 && Distinct(Oids(ps)) && OidSet(ps) <= known
    ensures var after := FetchBatches(w, st, ps).0.store;
            var reach := Reach(ps, poison, 0, false);
            && HoldsServable(after, ps[..reach], poison)
            && (forall oid :: oid !in OidSet(ps[..reach]) ==>
                  (oid in after <==> oid in st.store) && (oid in after ==> after[oid] == st.store[oid]))
            && (FailingChunks(ps, poison, 0) <= 1 ==> HoldsServable(after, ps, poison))
    ensures var error, refused := FetchBatches(w, st, ps).2, Poisoned(ps, poison);
            && (error.None? <==> refused == 0)
            && (FailingChunks(ps, poison, 0) > 0 ==> error.Some? && IsRefusal(error.value))
            && (FailingChunks(ps, poison, 0) == 0 && refused > 0 ==>
                  && error.Some? && error.value.ObjectsMissing?
                  && error.value.missing == refused && error.value.total == |ps|)
  {
    SweepStoresReached(w, st, ps, 0, EMPTY, None, limit, poison, known);
    var reach := Reach(ps, poison, 0, false);
    assert ps[0..reach] == ps[..reach];
    if FailingChunks(ps, poison, 0) <= 1 {
      FewFailuresReachTheEnd(ps, poison, 0, false);
      assert ps[..reach] == ps;
    }
    FetchReports(w, st, ps, limit, poison, known);
  }

  lemma FetchReports(w: World, st: State, ps: seq<Pointer>, limit: nat, poison: set<string>, known: set<string>)
    requires LimitedEndpoint(w, limit, poison, known) && limit >= 1 && Distinct(Oids(ps)) && OidSet(ps) <= known
    ensures var error, refused := FetchBatches(w, st, ps).2, Poisoned(ps, poison);
            && (error.None? <==> refused == 0)
            && (FailingChunks(ps, poison, 0) > 0 ==> error.Some? && IsRefusal(error.value))
            && (FailingChunks(ps, poison, 0) == 0 && refused > 0 ==>
                  && error.Some? && error.value.ObjectsMissing?
                  && error.value.missing == refused && error.value.total == |ps|)
  {
    hide LimitedEndpoint, SweepFrom, IsRefusal, Distinct;
    SweepReports(w, st, ps, 0, EMPTY, None, limit, poison, known);
    if FailingChunks(ps, poison, 0) > 0 {
      FailingIsPoisoned(ps, poison, 0);
      PoisonedSome(ps, poison);
    } else {
      FewFailuresReachTheEnd(ps, poison, 0, false);
      assert ps[..|ps|] == ps;
    }
  }

  // ---- such endpoints exist ----

  function Ascii(s: string): (b: Bytes)
    ensures |b| == |s|
  {
    seq(|s|, i requires 0 <= i < |s| => if (s[i] as int) < 256 then (s[i] as int) as Byte else 0)
  }

  function Chars(b: Bytes): string {
    seq(|b|, i requires 0 <= i < |b| => (b[i] as int) as char)
  }

  function Schedule(asked: seq<Pointer>): seq<ReplyObject> {
    seq(|asked|, i requires 0 <= i < |asked| =>
      ReplyObject(asked[i].oid, asked[i].size, None, Some(Action("url", None, 0))))
  }

  /** An endpoint with this limit and these refusals, whose objects are the texts of their own names. */
  function LimitedWorld(limit: nat, poison: set<string>): World {
    World(
      (body: Bytes) => Chars(body),
      (_: nat, asked: seq<Pointer>) =>
        if TooMuch(asked, limit, poison) then Response(422, None) else Response(200, Some(Schedule(asked))),
      (_: nat, oid: string) => Streamed(Ascii(oid), true),
      (_: nat) => false,
      (_: nat) => 0)
  }

  lemma {:induction false} ScheduleAnswers(requested: set<string>, asked: seq<Pointer>)
    requires forall p :: p in asked ==> IsCanonicalOid(p.oid) && p.oid in requested
    ensures AnsweredOids(requested, Schedule(asked)) == Oids(asked)
    ensures forall o :: o in Schedule(asked) ==>
              Answered(requested, o).Some? && o.download.value == Action("url", None, 0)
  {
    if asked != [] {
      var n := |asked| - 1;
      ScheduleAnswers(requested, asked[..n]);
      assert Schedule(asked)[..n] == Schedule(asked[..n]);
      assert asked[n] in asked;
      assert Oids(asked) == Oids(asked[..n]) + [asked[n].oid];
    }
  }

  lemma NameIsItsDigest(oid: string)
    requires IsCanonicalOid(oid)
    ensures Chars(Ascii(oid)) == oid
  {
  }

  /** Whatever the limit, the refusals and the repository's objects, some endpoint follows the rule. */
  lemma LimitedEndpointsExist(limit: nat, poison: set<string>, known: set<string>)
    requires forall oid :: oid in known ==> IsCanonicalOid(oid)
    ensures LimitedEndpoint(LimitedWorld(limit, poison), limit, poison, known)
  {
    var w := LimitedWorld(limit, poison);
    hide TooMuch, IsCanonicalOid, AnsweredOids, Answered;
    forall at: nat, oid | oid in known - poison
      ensures var t := w.transfer(at, oid); t.Streamed? && t.renamed && w.digest(t.body) == oid
    {
      NameIsItsDigest(oid);
    }
    forall at: nat, asked: seq<Pointer> | CanAsk(asked, known)
      ensures var result := Settle(asked, w.batchReply(at, asked));
              if TooMuch(asked, limit, poison) then result.Refused? && result.error.BatchRejected?
              else result.Scheduled? && ServesAll(w, asked, result.objects)
    {
      assert forall p :: p in asked ==> p.oid in OidSet(asked);
      ScheduleAnswers(OidSet(asked), asked);
    }
  }
}
