/**
 Fetching a repository's objects (internal/lfs/lfs.go): one chunk's downloads
 with a single refresh of lapsed URLs, the narrowing of rejected chunks, and the
 sweep over chunks. These are the specifications the Fetcher class meets.
 */
module LfsFetch {
  import opened Wrappers
  import opened LfsBatch

  const BATCH_OBJECT_LIMIT: nat := 100

  /** What a chunk could not fetch, and whether the endpoint answered for any of it. */
  datatype Outcome = Outcome(unavailable: nat, rejected: nat, answered: bool, skipped: Option<Reason>) {
    function RecordUnavailable(reason: Reason): Outcome {
      this.(unavailable := unavailable + 1, skipped := if skipped.None? then Some(reason) else skipped)
    }

    function Absorb(half: Outcome): Outcome {
      Outcome(unavailable + half.unavailable, rejected + half.rejected, answered || half.answered,
              if skipped.None? then half.skipped else skipped)
    }
  }

  const EMPTY := Outcome(0, 0, false, None)

  function RecordAll(o: Outcome, reasons: seq<Reason>): (r: Outcome)
    ensures r.unavailable == o.unavailable + |reasons| && r.rejected == o.rejected && r.answered == o.answered
    ensures r.skipped == if o.skipped.None? && reasons != [] then Some(reasons[0]) else o.skipped
  {
    if reasons == [] then o
    else
      assert |reasons| > 1 ==> reasons[..|reasons| - 1][0] == reasons[0];
      RecordAll(o, reasons[..|reasons| - 1]).RecordUnavailable(reasons[|reasons| - 1])
  }

  // ---- one answered chunk ----

  function NoFreshUrls(expired: seq<Pointer>, cause: Error): (r: seq<Reason>)
    ensures |r| == |expired|
  {
    seq(|expired|, i requires 0 <= i < |expired| => NoFreshUrl(expired[i].oid, cause))
  }

  function LapsedAgain(expired: seq<Pointer>): (r: seq<Reason>)
    ensures |r| == |expired|
  {
    seq(|expired|, i requires 0 <= i < |expired| => Lapsed(expired[i].oid))
  }

  function NotServed(unavailable: seq<string>): (r: seq<Reason>)
    ensures |r| == |unavailable|
  {
    seq(|unavailable|, i requires 0 <= i < |unavailable| => Unserved(unavailable[i]))
  }

  function PassOver(w: World, st: State, want: seq<Pointer>, objects: seq<ReplyObject>): Pass {
    AfterObjects(w, WantedSizes(want), st.store, st.tick, objects)
  }

  /** What the single refresh of the lapsed objects adds to the first pass. */
  datatype Refresh = Refresh(st: State, reasons: seq<Reason>, unavailable: seq<string>, failed: seq<Error>)

  function AfterRefresh(w: World, st: State, expired: seq<Pointer>): Refresh {
    if expired == [] then Refresh(st, [], [], [])
    else
      var (asked, result) := AfterBatch(w, st, expired, true);
      match result
      case Refused(error) => Refresh(asked, NoFreshUrls(expired, error), [], [])
      case Scheduled(objects) =>
        var second := PassOver(w, asked, expired, objects);
        var st' := State(second.store, second.tick, asked.log);
        Refresh(st', LapsedAgain(second.expired), second.unavailable, second.failed)
  }

  function DownloadChunk(w: World, st: State, want: seq<Pointer>, objects: seq<ReplyObject>)
    : (State, Outcome, Option<Error>)
  {
    var first := PassOver(w, st, want, objects);
    var again := AfterRefresh(w, State(first.store, first.tick, st.log), first.expired);
    var unavailable := first.unavailable + again.unavailable;
    var failed := first.failed + again.failed;
    var outcome := RecordAll(EMPTY, again.reasons + NotServed(unavailable)).(answered := |objects| > |unavailable|);
    (again.st, outcome, if failed == [] then None else Some(ChunkFailed(|failed|, |objects|, failed[0])))
  }

  // ---- narrowing ----

  /** errors.Is against the two refusal sentinels, through the wrapping chain. */
  predicate IsRefusal(e: Error) {
    e.NarrowedToSingleton? || e.AllRejected? || (e.ChunkFailed? && IsRefusal(e.first))
  }

  predicate NoFailure(e: Option<Error>) {
    e.None? || IsRefusal(e.value)
  }

  function RefuseOrReport(outcome: Outcome, rejection: Error): Option<Error> {
    if outcome.answered || outcome.unavailable > 0 then None else Some(AllRejected(rejection))
  }

  /** Both halves are always tried; this settles what the pair reports. */
  function MergeHalves(left: Outcome, leftError: Option<Error>, right: Outcome, rightError: Option<Error>,
                       rejection: Error)
    : (Outcome, Option<Error>)
  {
    var outcome := left.Absorb(right);
    if !NoFailure(leftError) then (outcome, leftError)
    else if !NoFailure(rightError) then (outcome, rightError)
    else if leftError.None? && rightError.None? then (outcome, None)
    else (outcome, RefuseOrReport(outcome, rejection))
  }

  function FetchChunk(w: World, st: State, ps: seq<Pointer>): (State, Outcome, Option<Error>)
    requires ps != []
    decreases |ps|
  {
    var (asked, result) := AfterBatch(w, st, ps, false);
    match result
    case Scheduled(objects) => DownloadChunk(w, asked, ps, objects)
    case Refused(rejection) =>
      if !rejection.BatchRejected? then (asked, EMPTY, Some(rejection))
      else if |ps| > 1 then
        var middle := |ps| / 2;
        var (mid, left, leftError) := FetchChunk(w, asked, ps[..middle]);
        var (end, right, rightError) := FetchChunk(w, mid, ps[middle..]);
        var (outcome, error) := MergeHalves(left, leftError, right, rightError, rejection);
        (end, outcome, error)
      else
        (asked, Outcome(0, 1, false, Some(SingleRejected(ps[0].oid))), Some(NarrowedToSingleton(rejection)))
  }

  // ---- the sweep ----

  function ChunkEnd(ps: seq<Pointer>, start: nat): nat {
    if start + BATCH_OBJECT_LIMIT < |ps| then start + BATCH_OBJECT_LIMIT else |ps|
  }

  function Conclude(ps: seq<Pointer>, total: Outcome, firstError: Option<Error>): Option<Error> {
    if firstError.Some? then firstError
    else if total.unavailable + total.rejected > 0 then
      Some(ObjectsMissing(total.unavailable + total.rejected, |ps|, total.skipped))
    else None
  }

  function SweepFrom(w: World, st: State, ps: seq<Pointer>, start: nat, total: Outcome, firstError: Option<Error>)
    : (State, Outcome, Option<Error>)
    decreases |ps| - start
  {
    if start >= |ps| then (st, total, Conclude(ps, total, firstError))
    else if w.cancelled(st.tick) then (st.(tick := st.tick + 1), total, Some(Cancelled))
    else
      var (next, outcome, error) := FetchChunk(w, st.(tick := st.tick + 1), ps[start..ChunkEnd(ps, start)]);
      var sum := total.Absorb(outcome);
      if error.None? then SweepFrom(w, next, ps, start + BATCH_OBJECT_LIMIT, sum, firstError)
      else if firstError.Some? then (next, sum, Conclude(ps, sum, firstError))
      else SweepFrom(w, next, ps, start + BATCH_OBJECT_LIMIT, sum, error)
  }

  function FetchBatches(w: World, st: State, ps: seq<Pointer>): (State, Outcome, Option<Error>) {
    SweepFrom(w, st, ps, 0, EMPTY, None)
  }
}
