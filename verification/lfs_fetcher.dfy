/**
 The fetcher as the program runs it: a store directory mutated in place, a
 recursive chunk fetch and a loop over chunks. Every method computes exactly what
 its specification in LfsBatch or LfsFetch says; LfsTheorems proves what that means.
 */
module LfsFetcher {
  import opened Wrappers
  import opened LfsBatch
  import opened LfsFetch

  class Fetcher {
    const world: World
    var store: Store
    var tick: nat
    var log: seq<BatchEvent>

    constructor (world: World, store: Store)
      ensures this.world == world && Now() == State(store, 0, [])
    {
      this.world, this.store, this.tick, this.log := world, store, 0, [];
    }

    function Now(): State
      reads this
    {
      State(store, tick, log)
    }

    method Batch(asked: seq<Pointer>, refresh: bool) returns (result: BatchResult)
      modifies this
      ensures (Now(), result) == AfterBatch(world, old(Now()), asked, refresh)
    {
      result := Settle(asked, world.batchReply(tick, asked));
      tick, log := tick + 1, log + [BatchEvent(asked, result, refresh)];
    }

    /** Streams to a temporary file, compares the digest, then renames over the object's name. */
    method DownloadObject(oid: string, at: nat) returns (error: Option<Error>)
      modifies this`store
      ensures (store, error) == AfterDownload(world, old(store), at, oid)
      ensures var t := world.transfer(at, oid);
              && (error.None? <==> t.Streamed? && t.renamed && world.digest(t.body) == oid)
              && (error.None? ==> store == old(store)[oid := File(t.body)])
      ensures error.None? ==> oid in store && store[oid].File? && world.digest(store[oid].content) == oid
      ensures error.None? ==> forall other :: other != oid ==>
                (other in store <==> other in old(store)) && (other in store ==> store[other] == old(store)[other])
      ensures error.Some? ==> store == old(store)
    {
      match world.transfer(at, oid)
      case Broken => return Some(TransferFailed(oid));
      case Streamed(body, renamed) =>
        var actual := world.digest(body);
        if actual != oid {
          return Some(TransferFailed(oid));
        }
        if !renamed {
          return Some(TransferFailed(oid));
        }
        store := store[oid := File(body)];
        return None;
    }

    method SizeTable(want: seq<Pointer>) returns (wanted: map<string, int>)
      ensures wanted == WantedSizes(want)
      ensures forall i :: 0 <= i < |want| && (forall j :: i < j < |want| ==> want[j].oid != want[i].oid) ==>
                want[i].oid in wanted && wanted[want[i].oid] == want[i].size
    {
      wanted := map[];
      for i := 0 to |want|
        invariant wanted == WantedSizes(want[..i])
      {
        assert want[..i + 1][..i] == want[..i];
        wanted := wanted[want[i].oid := want[i].size];
      }
      assert want[..|want|] == want;
      forall i | 0 <= i < |want| && (forall j :: i < j < |want| ==> want[j].oid != want[i].oid)
        ensures want[i].oid in wanted && wanted[want[i].oid] == want[i].size
      {
        LastSizeWins(want, i);
      }
    }

    method DownloadObjects(want: seq<Pointer>, objects: seq<ReplyObject>)
      returns (expired: seq<Pointer>, unavailable: seq<string>, failed: seq<Error>)
      modifies this`store, this`tick
      ensures var p := AfterObjects(world, WantedSizes(want), old(store), old(tick), objects);
              && store == p.store && tick == p.tick
              && expired == p.expired && unavailable == p.unavailable && failed == p.failed
    {
      hide IsCached, Expired, ResolvedSize, Answered, AfterDownload, WantedSizes, OidSet;
      var wanted := SizeTable(want);
      expired, unavailable, failed := [], [], [];
      ghost var settled: seq<string> := [];
      ghost var first, start := store, tick;
      for i := 0 to |objects|
        invariant AfterObjects(world, wanted, first, start, objects[..i])
                  == Pass(store, tick, expired, unavailable, failed, settled, false)
      {
        assert objects[..i + 1][..i] == objects[..i];
        var o := objects[i];
        var at := tick;
        tick := tick + 1;
        if world.cancelled(at) {
          failed := failed + [Cancelled];
          StoppedStays(world, wanted, first, start, objects, i + 1);
          return;
        }
        var answer := Answered(wanted.Keys, o);
        if answer.None? {
          unavailable := unavailable + [o.oid];
          continue;
        }
        var oid := answer.value;
        var size := ResolvedSize(wanted, oid, o.size);
        if IsCached(store, oid, size) {
          settled := settled + [oid];
          continue;
        }
        if Expired(o.download.value, world.now(at)) {
          expired := expired + [Pointer(oid, size)];
          continue;
        }
        var error := DownloadObject(oid, at);
        if error.Some? {
          failed := failed + [error.value];
        } else {
          settled := settled + [oid];
        }
      }
      assert objects[..|objects|] == objects;
    }

    /** Counts each passed-over object, keeping the first reason. */
    static method Record(before: Outcome, reasons: seq<Reason>) returns (outcome: Outcome)
      ensures outcome == RecordAll(before, reasons)
    {
      outcome := before;
      for i := 0 to |reasons|
        invariant outcome == RecordAll(before, reasons[..i])
      {
        assert reasons[..i + 1][..i] == reasons[..i];
        outcome := outcome.RecordUnavailable(reasons[i]);
      }
      assert reasons[..|reasons|] == reasons;
    }

    /** Asks once more about the lapsed objects and downloads what comes back. */
    method RefreshExpired(expired: seq<Pointer>)
      returns (reasons: seq<Reason>, unavailable: seq<string>, failed: seq<Error>)
      modifies this
      ensures Refresh(Now(), reasons, unavailable, failed) == AfterRefresh(world, old(Now()), expired)
    {
      reasons, unavailable, failed := [], [], [];
      if |expired| > 0 {
        var rescheduled := Batch(expired, true);
        match rescheduled {
          case Refused(cause) =>
            reasons := NoFreshUrls(expired, cause);
          case Scheduled(reissued) =>
            var lapsed;
            lapsed, unavailable, failed := DownloadObjects(expired, reissued);
            reasons := LapsedAgain(lapsed);
        }
      }
    }

    method DownloadChunk(want: seq<Pointer>, objects: seq<ReplyObject>) returns (outcome: Outcome, error: Option<Error>)
      modifies this
      ensures (Now(), outcome, error) == LfsFetch.DownloadChunk(world, old(Now()), want, objects)
    {
      var expired, unavailable, failed := DownloadObjects(want, objects);
      var reasons, againUnavailable, againFailed := RefreshExpired(expired);
      unavailable := unavailable + againUnavailable;
      failed := failed + againFailed;
      outcome := Record(EMPTY, reasons + NotServed(unavailable));
      outcome := outcome.(answered := |objects| > |unavailable|);
      if |failed| > 0 {
        error := Some(ChunkFailed(|failed|, |objects|, failed[0]));
      } else {
        error := None;
      }
    }

    method FetchChunk(ps: seq<Pointer>) returns (outcome: Outcome, error: Option<Error>)
      requires ps != []
      modifies this
      ensures (Now(), outcome, error) == LfsFetch.FetchChunk(world, old(Now()), ps)
      decreases |ps|
    {
      hide LfsFetch.DownloadChunk;
      var result := Batch(ps, false);
      if result.Scheduled? {
        outcome, error := DownloadChunk(ps, result.objects);
        return;
      }
      var rejection := result.error;
      if !rejection.BatchRejected? {
        return EMPTY, Some(rejection);
      }
      if |ps| > 1 {
        var middle := |ps| / 2;
        var firstError;
        outcome, firstError := FetchChunk(ps[..middle]);
        if firstError.Some? && !IsRefusal(firstError.value) {
          var rest, _ := FetchChunk(ps[middle..]);
          return outcome.Absorb(rest), firstError;
        }
        var rest, restError := FetchChunk(ps[middle..]);
        outcome := outcome.Absorb(rest);
        if restError.Some? && !IsRefusal(restError.value) {
          return outcome, restError;
        }
        if firstError.None? && restError.None? {
          return outcome, None;
        }
        return outcome, RefuseOrReport(outcome, rejection);
      }
      return Outcome(0, 1, false, Some(SingleRejected(ps[0].oid))), Some(NarrowedToSingleton(rejection));
    }

    method FetchBatches(ps: seq<Pointer>) returns (total: Outcome, error: Option<Error>)
      modifies this
      ensures (Now(), total, error) == LfsFetch.FetchBatches(world, old(Now()), ps)
    {
      hide LfsFetch.FetchChunk;
      total := EMPTY;
      var firstError: Option<Error> := None;
      var start := 0;
      while start < |ps|
        invariant SweepFrom(world, Now(), ps, start, total, firstError) == LfsFetch.FetchBatches(world, old(Now()), ps)
        decreases |ps| - start
      {
        var end := ChunkEnd(ps, start);
        var at := tick;
        tick := tick + 1;
        if world.cancelled(at) {
          return total, Some(Cancelled);
        }
        var outcome, chunkError := FetchChunk(ps[start..end]);
        total := total.Absorb(outcome);
        if chunkError.Some? {
          if firstError.Some? {
            return total, Conclude(ps, total, firstError);
          }
          firstError := chunkError;
        }
        start := start + BATCH_OBJECT_LIMIT;
      }
      error := Conclude(ps, total, firstError);
    }
  }

  /** Once a cancelled pass has stopped, the rest of the answer changes nothing. */
  lemma {:induction false} StoppedStays(
    w: World, wanted: map<string, int>, store: Store, tick: nat, objects: seq<ReplyObject>, n: nat)
    requires n <= |objects| && AfterObjects(w, wanted, store, tick, objects[..n]).stopped
    ensures AfterObjects(w, wanted, store, tick, objects) == AfterObjects(w, wanted, store, tick, objects[..n])
  {
    if n == |objects| {
      assert objects[..n] == objects;
    } else {
      assert objects[..|objects| - 1][..n] == objects[..n];
      StoppedStays(w, wanted, store, tick, objects[..|objects| - 1], n);
    }
  }
}
