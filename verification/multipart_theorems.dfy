/**
 What a multipart upload guarantees in every interleaving: it completes only with
 the whole stream, aborts on any failure, never gets stuck, ends, and bounds its
 buffers.
 */
module MultipartTheorems {
  import opened Wrappers
  import opened Collections
  import opened Multipart
  import opened MultipartInvariants

  // ---- the completed object ----

  function Consecutive(n: nat): (r: seq<nat>)
    ensures |r| == n && forall i :: 0 <= i < n ==> r[i] == i + 1
  {
    seq(n, i => i + 1)
  }

  /** The object the server assembles from the parts it is told to join, in that order. */
  function Assemble(stored: map<nat, seq<Byte>>, parts: seq<nat>): seq<Byte>
    requires forall n :: n in parts ==> n in stored
  {
    if parts == [] then []
    else
      assert forall n :: n in parts[..|parts| - 1] ==> n in parts;
      Assemble(stored, parts[..|parts| - 1]) + stored[parts[|parts| - 1]]
  }

  lemma {:induction false} RecordedIsMultiplicity(results: seq<nat>, x: nat)
    ensures Recorded(results, x) == multiset(results)[x]
  {
    if results != [] {
      var n := |results| - 1;
      RecordedIsMultiplicity(results[..n], x);
      assert results == results[..n] + [results[n]];
    }
  }

  /** A sorted list holding each number from 1 to n exactly once is 1, 2, ..., n. */
  lemma {:induction false} SortedIsConsecutive(parts: seq<nat>, n: nat)
    requires Sorted(parts)
    requires forall x: nat :: Recorded(parts, x) == One(1 <= x <= n)
    ensures parts == Consecutive(n)
  {
    if parts == [] {
      assert Recorded(parts, 1) == One(1 <= 1 <= n);
    } else {
      var k := |parts| - 1;
      var last, init := parts[k], parts[..k];
      assert Recorded(parts, last) >= 1;
      assert 1 <= last <= n;
      RecordedIsMember(parts, n);
      forall x: nat ensures Recorded(init, x) == One(1 <= x <= n - 1) {
        assert Recorded(parts, x) == One(1 <= x <= n);
      }
      SortedIsConsecutive(init, n - 1);
      assert parts == init + [last];
      assert Consecutive(n) == Consecutive(n - 1) + [n];
    }
  }

  lemma {:induction false} RecordedIsMember(parts: seq<nat>, x: nat)
    requires Recorded(parts, x) > 0
    ensures x in parts
  {
    if parts[|parts| - 1] != x {
      RecordedIsMember(parts[..|parts| - 1], x);
    }
  }

  lemma {:induction false} PartsConcatenate(u: Upload, s: State, k: nat)
    requires u.Valid() && forall n :: 1 <= n <= k ==> IsStored(u, s, n)
    ensures forall n :: n in Consecutive(k) ==> n in s.stored
    ensures Assemble(s.stored, Consecutive(k)) == u.body[..Bound(u, k)]
  {
    forall n | n in Consecutive(k) ensures n in s.stored {
      assert IsStored(u, s, n);
    }
    if k > 0 {
      PartsConcatenate(u, s, k - 1);
      assert Consecutive(k)[..k - 1] == Consecutive(k - 1);
      assert IsStored(u, s, k);
      TakeMore(u.body, Bound(u, k - 1), Bound(u, k));
    }
  }

  lemma TakeMore(body: seq<Byte>, a: nat, b: nat)
    requires a <= b <= |body|
    ensures body[..b] == body[..a] + body[a..b]
  {
  }

  /** Once the upload decided to complete, the parts it lists are all the parts, in order. */
  lemma CompletingListsAll(u: Upload, s: State)
    requires Inv(u, s) && (s.phase.Completing? || s.phase.Completed?)
    ensures s.phase.parts == Consecutive(s.sent)
    ensures forall n :: 1 <= n <= s.sent ==> IsStored(u, s, n)
  {
    hide Reads, Owned, PartBytes, IsStored;
    var parts := s.phase.parts;
    forall x: nat ensures Recorded(parts, x) == One(1 <= x <= s.sent) {
      NothingInHand(s.workers, NumberOf, x);
      assert Places(s, x) == Recorded(s.results, x);
      RecordedIsMultiplicity(parts, x);
      RecordedIsMultiplicity(s.results, x);
    }
    SortedIsConsecutive(parts, s.sent);
    forall n | 1 <= n <= s.sent ensures IsStored(u, s, n) {
      assert parts[n - 1] == n;
      assert n in multiset(parts);
      assert n in s.results;
    }
  }

  predicate WellSized(u: Upload, s: State, n: nat) {
    n in s.stored && 0 < |s.stored[n]| <= u.partSize && (n < s.sent ==> |s.stored[n]| == u.partSize)
  }

  /** The stream is a whole number of parts long. */
  ghost predicate WholeParts(u: Upload) {
    exists k: nat :: Start(u, k) == |u.body|
  }

  /** The parts queued so far start inside the stream, so all but the last are full. */
  lemma FullParts(u: Upload, s: State)
    requires Inv(u, s) && (s.phase.Completing? || s.phase.Completed?)
    ensures forall n: nat :: 1 <= n <= s.sent ==> WellSized(u, s, n)
  {
    hide Owned, Accounted, Shape;
    CompletingListsAll(u, s);
    forall n: nat | 1 <= n <= s.sent ensures WellSized(u, s, n) {
      assert IsStored(u, s, n);
      StartGrows(u, n - 1, s.sent - 1);
      StartGrows(u, n, s.sent);
      if n < s.sent {
        StartGrows(u, n, s.sent - 1);
      }
    }
  }

  lemma {:induction false} StartGrows(u: Upload, k: nat, n: nat)
    requires u.Valid() && k <= n
    ensures Start(u, k) <= Start(u, n)
  {
    if k < n {
      StartGrows(u, k, n - 1);
    }
  }

  /** A stream that ends inside its last part is not a whole number of parts. */
  lemma EndsInsideAPart(u: Upload, last: nat)
    requires u.Valid() && last >= 1 && Start(u, last - 1) < |u.body| < Start(u, last)
    ensures !WholeParts(u)
  {
    forall k: nat ensures Start(u, k) != |u.body| {
      if k < last {
        StartGrows(u, k, last - 1);
      } else {
        StartGrows(u, last, k);
      }
    }
  }

  lemma PassesForEndIff(u: Upload, partway: bool)
    ensures u.PassesForEnd(partway) <==>
              u.ending in {Clean, Broken(WrapsEof)} || (u.ending == Broken(UnexpectedEof) && partway)
  {
  }

  lemma CompletesOnceEnded(u: Upload, s: State)
    requires u.Valid() && Inv(u, s) && (s.phase.Completing? || s.phase.Completed?)
    ensures u.PassesForEnd(!WholeParts(u))
  {
    hide Owned, Accounted, Faithful;
    if |u.body| != Start(u, s.sent) {
      EndsInsideAPart(u, s.sent);
    }
  }

  /**
   In every interleaving, completion is asked for only with parts 1..k that
   together are the whole stream, each but the last a full part; and only if the
   stream ended cleanly, or with an error of its own that wraps io.EOF, or with an
   io.ErrUnexpectedEOF partway into a part.
   */
  lemma CompletesOnlyTheWholeStream(u: Upload, s: State)
    requires u.Valid() && Reachable(u, s) && (s.phase.Completing? || s.phase.Completed?)
    ensures s.phase.parts == Consecutive(s.sent)
    ensures forall n: nat :: 1 <= n <= s.sent ==> WellSized(u, s, n)
    ensures forall n :: n in s.phase.parts ==> n in s.stored
    ensures Assemble(s.stored, s.phase.parts) == u.body
    ensures u.ending in {Clean, Broken(WrapsEof)} || (u.ending == Broken(UnexpectedEof) && !WholeParts(u))
  {
    ReachableInv(u, s);
    CompletingListsAll(u, s);
    FullParts(u, s);
    PartsConcatenate(u, s, s.sent);
    assert u.body[..|u.body|] == u.body;
    CompletesOnceEnded(u, s);
    PassesForEndIff(u, !WholeParts(u));
    hide Inv, IsStored, WholeParts;
  }

  /** A part failed, or the producer is done with an error. */
  predicate Doomed(s: State) {
    s.failed || (s.producer.Finished? && !s.producer.verdict.NoError?)
  }

  lemma StaysDoomed(u: Upload, s: State, a: Action)
    requires Enabled(u, s, a) && Doomed(s)
    ensures Doomed(Apply(u, s, a))
  {
  }

  /**
   From the moment a part fails or the producer gives up, over a broken stream or a
   cancellation, no run ever asks for completion again, and once it is over it has aborted.
   */
  lemma {:induction false} FailuresAbort(u: Upload, states: seq<State>, actions: seq<Action>, j: nat, k: nat)
    requires u.Valid() && Run(u, states, actions) && j <= k <= |actions| && Doomed(states[j])
    ensures Doomed(states[k]) && !states[k].phase.Completing? && !states[k].phase.Completed?
    ensures Terminal(states[k]) ==> states[k].phase.Aborted?
  {
    hide Enabled, Apply, Doomed;
    if j < k {
      FailuresAbort(u, states, actions, j, k - 1);
      StaysDoomed(u, states[k - 1], actions[k - 1]);
    }
    hide Run;
    RunKeepsInv(u, states, actions, k);
    DoomedDoesNotComplete(u, states[k]);
  }

  lemma DoomedDoesNotComplete(u: Upload, s: State)
    requires Inv(u, s) && Doomed(s)
    ensures !s.phase.Completing? && !s.phase.Completed?
  {
  }

  lemma AcceptedStep(u: Upload, s: State, a: Action)
    requires Enabled(u, s, a)
    ensures Apply(u, s, a).phase.Completed? <==> s.phase.Completed? || a == Complete(true)
  {
  }

  /** An upload counts as stored exactly when the server accepted its completion. */
  lemma {:induction false} CompletedIffAccepted(u: Upload, states: seq<State>, actions: seq<Action>, k: nat)
    requires Run(u, states, actions) && k <= |actions|
    ensures states[k].phase.Completed? <==> Complete(true) in actions[..k]
  {
    if k > 0 {
      hide Enabled, Apply;
      CompletedIffAccepted(u, states, actions, k - 1);
      AcceptedStep(u, states[k - 1], actions[k - 1]);
      assert actions[..k] == actions[..k - 1] + [actions[k - 1]];
    }
  }

  /** A worker with a failed part on its hands, or gone. */
  predicate Stopped(s: State, i: nat) {
    i < |s.workers| && (s.workers[i].Exited? || (s.workers[i].Uploaded? && !s.workers[i].ok))
  }

  lemma StaysStopped(u: Upload, s: State, a: Action, i: nat)
    requires Enabled(u, s, a) && Stopped(s, i)
    ensures Stopped(Apply(u, s, a), i) && a != Take(i) && (a.Put? ==> a.worker != i)
  {
  }

  lemma FailedPutStops(u: Upload, s: State, i: nat)
    requires Enabled(u, s, Put(i, false))
    ensures Stopped(Apply(u, s, Put(i, false)), i)
  {
  }

  /** A worker uploads nothing after a part of its own has failed. */
  lemma {:induction false} FailedWorkersStop(u: Upload, states: seq<State>, actions: seq<Action>,
                                             i: nat, j: nat, k: nat)
    requires Run(u, states, actions) && j < k <= |actions| && actions[j] == Put(i, false)
    ensures Stopped(states[k], i)
    ensures k < |actions| ==> actions[k] != Take(i) && (actions[k].Put? ==> actions[k].worker != i)
  {
    hide Enabled, Apply, Stopped;
    if j + 1 < k {
      FailedWorkersStop(u, states, actions, i, j, k - 1);
      StaysStopped(u, states[k - 1], actions[k - 1], i);
    } else {
      FailedPutStops(u, states[j], i);
    }
    if k < |actions| {
      StaysStopped(u, states[k], actions[k], i);
    }
  }

  /** A cancelled producer need not wait for room: it can give up at once, and the upload is then doomed. */
  lemma CancelledCanStop(u: Upload, s: State) returns (t: State)
    requires Reachable(u, s) && s.cancelled && s.producer.Offering?
    ensures Reachable(u, t) && Doomed(t) && t.queue == s.queue && t.sent == s.sent
    ensures t == s.(producer := Finished(CancelError), pool := s.pool + {s.producer.job.buffer})
  {
    hide Reachable;
    StepIsReachable(u, s, GiveUpCancelled);
    t := Apply(u, s, GiveUpCancelled);
  }

  /** The producer's errors have their causes. */
  lemma GivingUpHasACause(u: Upload, s: State)
    requires u.Valid() && Reachable(u, s)
    ensures s.producer == Finished(CancelError) ==> s.cancelled
    ensures s.producer == Finished(StreamError) ==> u.ending.Broken?
    ensures s.producer == Finished(WorkerError) ==> s.failed
  {
    ReachableInv(u, s);
  }

  /** done is closed once, by the first failure. */
  lemma DoneClosesOnce(u: Upload, s: State)
    requires u.Valid() && Reachable(u, s)
    ensures s.doneCloses <= 1 && (s.doneCloses == 1 <==> s.failed)
  {
    ReachableInv(u, s);
  }

  // ---- buffers ----

  function QueueBuffers(queue: seq<Job>): (r: set<nat>)
    ensures |r| <= |queue| && forall b: nat :: b in r <==> Queued(queue, JobBuffer, b) > 0
  {
    if queue == [] then {} else QueueBuffers(queue[..|queue| - 1]) + {queue[|queue| - 1].buffer}
  }

  function WorkerBuffers(workers: seq<Worker>): (r: set<nat>)
    ensures |r| <= |workers| && forall b: nat :: b in r <==> InHand(workers, BufferOf, b) > 0
  {
    if workers == [] then {}
    else
      var rest, w := WorkerBuffers(workers[..|workers| - 1]), workers[|workers| - 1];
      if w.Uploading? then rest + {w.job.buffer} else rest
  }

  function ProducerBuffers(p: Producer): set<nat> {
    match p
    case Filling(b) => {b}
    case Offering(job, _) => {job.buffer}
    case _ => {}
  }

  /** The buffers in use. */
  function LiveBuffers(s: State): set<nat> {
    ProducerBuffers(s.producer) + QueueBuffers(s.queue) + WorkerBuffers(s.workers)
  }

  /**
   No buffer is ever in two hands, and at most twice as many are in use as there
   are workers: one a worker, one fewer queued, and the one being filled.
   */
  lemma BuffersAreBounded(u: Upload, s: State)
    requires u.Valid() && Reachable(u, s)
    ensures |LiveBuffers(s)| <= 2 * u.workers
    ensures forall b: nat :: b in LiveBuffers(s) <==> Uses(s, b) > 0
    ensures forall b: nat :: Owners(s, b) <= 1
  {
    ReachableInv(u, s);
  }

  // ---- no run gets stuck, and every run ends ----

  function Insert(x: nat, sorted: seq<nat>): seq<nat> {
    if sorted == [] || x <= sorted[0] then [x] + sorted else [sorted[0]] + Insert(x, sorted[1..])
  }

  lemma {:induction false} InsertAdds(x: nat, sorted: seq<nat>)
    ensures multiset(Insert(x, sorted)) == multiset(sorted) + multiset{x}
  {
    if sorted != [] && x > sorted[0] {
      assert sorted == [sorted[0]] + sorted[1..];
      InsertAdds(x, sorted[1..]);
    }
  }

  lemma {:induction false} InsertKeepsSorted(x: nat, sorted: seq<nat>)
    requires Sorted(sorted)
    ensures Sorted(Insert(x, sorted))
    ensures forall i :: 0 <= i < |Insert(x, sorted)| ==> Insert(x, sorted)[i] == x || Insert(x, sorted)[i] in sorted
  {
    if sorted != [] && x > sorted[0] {
      InsertKeepsSorted(x, sorted[1..]);
    }
  }

  /** The completed parts can always be sorted by number. */
  lemma {:induction false} CanSort(s: seq<nat>) returns (r: seq<nat>)
    ensures Sorted(r) && multiset(r) == multiset(s)
  {
    if s == [] {
      r := [];
    } else {
      assert s == [s[0]] + s[1..];
      var rest := CanSort(s[1..]);
      InsertAdds(s[0], rest);
      InsertKeepsSorted(s[0], rest);
      r := Insert(s[0], rest);
    }
  }

  /** A worker that is not gone can always do something: only an idle one waits, for a job or for the queue's end. */
  lemma WorkerCanMove(u: Upload, s: State, i: nat) returns (a: Action)
    requires Inv(u, s) && i < |s.workers| && !s.workers[i].Exited?
    requires s.workers[i].Idle? ==> s.queue != [] || !s.phase.Producing?
    ensures !IsEnvironment(a) && Enabled(u, s, a)
  {
    match s.workers[i]
    case Idle => a := if s.queue != [] then Take(i) else Leave(i);
    case Uploading(job) =>
      assert Carries(u, s, job, s.sent);
      a := Put(i, true);
    case Uploaded(_, _) => a := Settle(i);
  }

  /** Until it has completed or aborted, an upload always has a next action of its own: it never deadlocks. */
  lemma NeverStuck(u: Upload, s: State) returns (a: Action)
    requires u.Valid() && Reachable(u, s) && !Terminal(s)
    ensures !IsEnvironment(a) && Enabled(u, s, a)
  {
    ReachableInv(u, s);
    match s.phase
    case Producing =>
      match s.producer {
        case Reading =>
          var b := FreshNumber(s.buffers.Keys);
          a := AcquireNew(b, seq(u.partSize, _ => 0));
        case Filling(b) =>
          assert Owners(s, b) > 0;
          a := Read;
        case Finished(_) => a := CloseJobs;
        case Offering(_, _) =>
          if |s.queue| + 1 < u.workers {
            a := Send;
          } else if !s.workers[0].Exited? {
            a := WorkerCanMove(u, s, 0);
          } else {
            a := GiveUpFailed;
          }
      }
    case Draining =>
      if AllExited(s.workers) {
        var sorted := CanSort(s.results);
        a := Decide(sorted);
      } else {
        var i :| 0 <= i < |s.workers| && !s.workers[i].Exited?;
        a := WorkerCanMove(u, s, i);
      }
    case Completing(_) => a := Complete(true);
  }

  function WorkerRank(w: Worker): nat {
    match w
    case Idle => 1
    case Uploading(_) => 3
    case Uploaded(_, _) => 2
    case Exited => 0
  }

  function WorkersRank(workers: seq<Worker>): nat {
    if workers == [] then 0 else WorkersRank(workers[..|workers| - 1]) + WorkerRank(workers[|workers| - 1])
  }

  function ProducerRank(p: Producer): nat {
    match p
    case Reading => 2
    case Filling(_) => 1
    case Offering(_, _) => 6
    case Finished(_) => 0
  }

  function PhaseRank(p: Phase): nat {
    match p
    case Producing => 3
    case Draining => 2
    case Completing(_) => 1
    case _ => 0
  }

  /** How many more actions of its own an upload can take at most. */
  function Rank(u: Upload, s: State): nat {
    10 * (if s.offset <= |u.body| then |u.body| - s.offset else 0)
    + ProducerRank(s.producer) + 3 * |s.queue| + WorkersRank(s.workers) + PhaseRank(s.phase)
  }

  lemma {:induction false} WorkersRankUpdate(workers: seq<Worker>, i: nat, w: Worker)
    requires i < |workers|
    ensures WorkersRank(workers[i := w]) == WorkersRank(workers) - WorkerRank(workers[i]) + WorkerRank(w)
    decreases |workers|
  {
    var n := |workers| - 1;
    if i == n {
      assert workers[i := w][..n] == workers[..n];
    } else {
      assert workers[i := w][..n] == workers[..n][i := w];
      WorkersRankUpdate(workers[..n], i, w);
    }
  }

  lemma ReadLowersRank(u: Upload, s: State)
    requires Inv(u, s) && Enabled(u, s, Read)
    ensures Rank(u, Apply(u, s, Read)) < Rank(u, s)
  {
    hide Reads, Shape, Owned, Accounted, Faithful, WorkersRank;
  }

  lemma WorkerLowersRank(u: Upload, s: State, a: Action)
    requires Enabled(u, s, a) && (a.Take? || a.Leave? || a.Put? || a.Settle?)
    ensures Rank(u, Apply(u, s, a)) < Rank(u, s)
  {
    hide WorkersRank;
    var t := Apply(u, s, a);
    WorkersRankUpdate(s.workers, a.worker, t.workers[a.worker]);
    assert t.workers == s.workers[a.worker := t.workers[a.worker]];
  }

  lemma StepLowersRank(u: Upload, s: State, a: Action)
    requires Inv(u, s) && Enabled(u, s, a)
    ensures IsEnvironment(a) ==> Rank(u, Apply(u, s, a)) == Rank(u, s)
    ensures !IsEnvironment(a) ==> Rank(u, Apply(u, s, a)) < Rank(u, s)
  {
    hide Inv, WorkersRank;
    if a.Read? {
      ReadLowersRank(u, s);
    } else if a.Take? || a.Leave? || a.Put? || a.Settle? {
      WorkerLowersRank(u, s, a);
    }
  }

  function OwnActions(actions: seq<Action>): nat {
    if actions == [] then 0
    else OwnActions(actions[..|actions| - 1]) + (if IsEnvironment(actions[|actions| - 1]) then 0 else 1)
  }

  /** Every run ends: no interleaving has more actions of the upload's own than its initial rank. */
  lemma {:induction false} RunsEnd(u: Upload, states: seq<State>, actions: seq<Action>)
    requires u.Valid() && Run(u, states, actions)
    ensures OwnActions(actions) + Rank(u, states[|actions|]) <= Rank(u, Init(u))
    decreases |actions|
  {
    if actions != [] {
      var n := |actions| - 1;
      assert Run(u, states[..n + 1], actions[..n]);
      RunsEnd(u, states[..n + 1], actions[..n]);
      RunKeepsInv(u, states, actions, n);
      hide Run, Inv, Rank;
      StepLowersRank(u, states[n], actions[n]);
    }
  }

  // ---- where the comments and the code differ ----

  /** Reading, queueing and taking one full part, when there is room. */
  lemma NextPart(u: Upload, s: State, b: nat) returns (t: State)
    requires u.Valid() && Reachable(u, s) && s.producer.Reading? && |s.queue| + 1 < u.workers
    requires b !in s.buffers && s.offset + u.partSize <= |u.body|
    ensures Reachable(u, t) && t.producer.Reading? && t.sent == s.sent + 1 && t.offset == s.offset + u.partSize
    ensures t.queue == s.queue + [Job(s.sent + 1, b, u.partSize)] && t.workers == s.workers
    ensures t.buffers.Keys == s.buffers.Keys + {b} && |t.buffers[b]| == u.partSize
    ensures t.results == s.results && t.failed == s.failed && t.phase == s.phase
  {
    var empty: seq<Byte> := seq(u.partSize, _ => 0);
    hide Reachable;
    StepIsReachable(u, s, AcquireNew(b, empty));
    var s1 := Apply(u, s, AcquireNew(b, empty));
    StepIsReachable(u, s1, Read);
    var s2 := Apply(u, s1, Read);
    StepIsReachable(u, s2, Send);
    t := Apply(u, s2, Send);
  }

  /** The same, with the part taken at once by an idle worker. */
  lemma NextPartTaken(u: Upload, s: State, b: nat, i: nat) returns (t: State)
    requires u.Valid() && Reachable(u, s) && s.producer.Reading? && s.queue == []
    requires b !in s.buffers && s.offset + u.partSize <= |u.body|
    requires i < |s.workers| && s.workers[i].Idle?
    ensures Reachable(u, t) && t.producer.Reading? && t.sent == s.sent + 1 && t.offset == s.offset + u.partSize
    ensures t.queue == [] && t.workers == s.workers[i := Uploading(Job(s.sent + 1, b, u.partSize))]
    ensures t.buffers.Keys == s.buffers.Keys + {b}
  {
    var s1 := NextPart(u, s, b);
    hide Reachable;
    StepIsReachable(u, s1, Take(i));
    t := Apply(u, s1, Take(i));
  }

  lemma NextBuffer(u: Upload, s: State, b: nat) returns (t: State)
    requires u.Valid() && Reachable(u, s) && s.producer.Reading? && b !in s.buffers
    ensures Reachable(u, t) && t.producer == Filling(b) && t.queue == s.queue && t.workers == s.workers
    ensures b in t.buffers && |t.buffers[b]| == u.partSize
    ensures t.results == s.results && t.failed == s.failed && t.phase == s.phase
    ensures t.sent == s.sent && t.offset == s.offset
  {
    hide Reachable;
    var empty: seq<Byte> := seq(u.partSize, _ => 0);
    StepIsReachable(u, s, AcquireNew(b, empty));
    t := Apply(u, s, AcquireNew(b, empty));
  }

  /** With two workers four buffers can be in use at once, one more than the parallelism plus one of the comment. */
  lemma FourBuffersLive(u: Upload) returns (s: State)
    requires u.Valid() && u.workers == 2 && |u.body| >= 3 * u.partSize
    ensures Reachable(u, s) && LiveBuffers(s) == {0, 1, 2, 3}
  {
    var s0 := Init(u);
    InitIsReachable(u);
    hide Reachable, LiveBuffers, Enabled, Apply;
    var s1 := NextPartTaken(u, s0, 0, 0);
    var s2 := NextPartTaken(u, s1, 1, 1);
    var s3 := NextPart(u, s2, 2);
    s := NextBuffer(u, s3, 3);
    FourHands(s, u.partSize);
  }

  lemma FourHands(s: State, length: nat)
    requires s.producer == Filling(3) && s.queue == [Job(3, 2, length)]
    requires s.workers == [Uploading(Job(1, 0, length)), Uploading(Job(2, 1, length))]
    ensures LiveBuffers(s) == {0, 1, 2, 3}
  {
    assert s.queue[..0] == [];
    assert s.workers[..1] == [s.workers[0]] && s.workers[..1][..0] == [];
    assert QueueBuffers(s.queue) == {2};
    assert WorkerBuffers(s.workers) == {0, 1};
  }

  // ---- exactly which streams can complete ----

  predicate AllIdle(workers: seq<Worker>) {
    forall i :: 0 <= i < |workers| ==> workers[i].Idle?
  }

  /** Between parts: k full parts are uploaded and recorded in order, and nothing is in flight. */
  ghost predicate Resting(u: Upload, s: State, k: nat) {
    && Reachable(u, s) && s.phase.Producing? && !s.failed && s.queue == []
    && |s.workers| == u.workers && AllIdle(s.workers)
    && s.sent == k && s.results == Consecutive(k)
  }

  /** One worker takes, uploads and records the only queued part. */
  lemma UploadQueued(u: Upload, s: State, job: Job) returns (t: State)
    requires u.Valid() && Reachable(u, s) && s.queue == [job] && |s.workers| == u.workers && AllIdle(s.workers)
    requires job.buffer in s.buffers && job.length <= |s.buffers[job.buffer]|
    ensures Reachable(u, t) && t.queue == [] && t.workers == s.workers && t.results == s.results + [job.number]
    ensures t.producer == s.producer && t.phase == s.phase && t.failed == s.failed
    ensures t.sent == s.sent && t.offset == s.offset
  {
    hide Reachable;
    StepIsReachable(u, s, Take(0));
    var s1 := Apply(u, s, Take(0));
    StepIsReachable(u, s1, Put(0, true));
    var s2 := Apply(u, s1, Put(0, true));
    StepIsReachable(u, s2, Settle(0));
    t := Apply(u, s2, Settle(0));
  }

  lemma ConsecutiveSnoc(k: nat)
    ensures Consecutive(k + 1) == Consecutive(k) + [k + 1]
  {
  }

  lemma {:induction false} FullPartsUpload(u: Upload, k: nat) returns (s: State)
    requires u.Valid() && Start(u, k) <= |u.body|
    ensures Resting(u, s, k) && s.producer.Reading? && s.offset == Start(u, k)
  {
    if k == 0 {
      s := Init(u);
      InitIsReachable(u);
    } else {
      var s0 := FullPartsUpload(u, k - 1);
      hide Reachable;
      var b := FreshNumber(s0.buffers.Keys);
      var s1 := NextPart(u, s0, b);
      s := UploadQueued(u, s1, Job(k, b, u.partSize));
      ConsecutiveSnoc(k - 1);
    }
  }

  /** The last read: either the short final part, or nothing at all. */
  lemma LastPartUploads(u: Upload, k: nat) returns (s: State, parts: nat)
    requires u.Valid() && Start(u, k) <= |u.body| < Start(u, k + 1)
    requires u.PassesForEnd(Start(u, k) < |u.body|)
    ensures Resting(u, s, parts) && s.producer == Finished(NoError)
  {
    var s0 := FullPartsUpload(u, k);
    hide Reachable, AllIdle;
    var b := FreshNumber(s0.buffers.Keys);
    var s1 := NextBuffer(u, s0, b);
    var s2 := LastRead(u, s1, b, k);
    if Start(u, k) == |u.body| {
      s, parts := s2, k;
    } else {
      var job := s2.producer.job;
      StepIsReachable(u, s2, Send);
      var s3 := Apply(u, s2, Send);
      hide Apply, Enabled, Start;
      assert s3.queue == [job];
      s := UploadQueued(u, s3, job);
      parts := k + 1;
      ConsecutiveSnoc(k);
    }
  }

  /** The read at the stream's end: nothing more, or the short last part. */
  lemma LastRead(u: Upload, s: State, b: nat, k: nat) returns (t: State)
    requires u.Valid() && Reachable(u, s) && s.producer == Filling(b) && b in s.buffers && |s.buffers[b]| == u.partSize
    requires s.sent == k && s.offset == Start(u, k) <= |u.body| < Start(u, k + 1)
    requires u.PassesForEnd(Start(u, k) < |u.body|)
    ensures Reachable(u, t) && t.queue == s.queue && t.workers == s.workers && t.results == s.results
    ensures t.failed == s.failed && t.phase == s.phase && t.sent == s.sent
    ensures if Start(u, k) == |u.body| then t.producer == Finished(NoError)
            else t.producer.Offering? && t.producer.next == Return(NoError) && t.producer.job.number == k + 1
                 && t.producer.job.buffer in t.buffers && t.producer.job.length <= |t.buffers[t.producer.job.buffer]|
  {
    hide Reachable;
    StepIsReachable(u, s, Read);
    t := Apply(u, s, Read);
  }

  /** Once the queue is closed and empty, the idle workers leave one after another. */
  lemma {:induction false} WorkersLeave(u: Upload, s: State, left: nat) returns (t: State)
    requires u.Valid() && Reachable(u, s) && s.phase.Draining? && s.queue == [] && left <= |s.workers|
    requires forall i :: 0 <= i < |s.workers| ==> if i < left then s.workers[i].Idle? else s.workers[i].Exited?
    ensures Reachable(u, t) && AllExited(t.workers)
    ensures t.phase == s.phase && t.results == s.results && t.failed == s.failed && t.producer == s.producer
    decreases left
  {
    if left == 0 {
      t := s;
    } else {
      hide Reachable;
      StepIsReachable(u, s, Leave(left - 1));
      t := WorkersLeave(u, Apply(u, s, Leave(left - 1)), left - 1);
    }
  }

  lemma RestingCompletes(u: Upload, s: State, k: nat) returns (t: State)
    requires u.Valid() && Resting(u, s, k) && s.producer == Finished(NoError)
    ensures Reachable(u, t) && t.phase == Completed(Consecutive(k))
  {
    hide Reachable;
    StepIsReachable(u, s, CloseJobs);
    var s1 := WorkersLeave(u, Apply(u, s, CloseJobs), |s.workers|);
    var decide := Decide(Consecutive(k));
    StepIsReachable(u, s1, decide);
    var s2 := Apply(u, s1, decide);
    StepIsReachable(u, s2, Complete(true));
    t := Apply(u, s2, Complete(true));
  }

  lemma {:induction false} LastStart(u: Upload, k: nat) returns (last: nat)
    requires u.Valid() && Start(u, k) <= |u.body|
    ensures Start(u, last) <= |u.body| < Start(u, last + 1)
    decreases |u.body| - Start(u, k)
  {
    if |u.body| < Start(u, k + 1) {
      last := k;
    } else {
      last := LastStart(u, k + 1);
    }
  }

  /**
   Exactly which streams can complete: those that end cleanly, those whose own error
   wraps io.EOF, and those whose error is an io.ErrUnexpectedEOF partway into a part. The
   second and third kinds are stored truncated as if they were whole.
   */
  lemma CanCompleteIff(u: Upload)
    requires u.Valid()
    ensures (exists s :: Reachable(u, s) && s.phase.Completed?) <==>
              u.ending in {Clean, Broken(WrapsEof)} || (u.ending == Broken(UnexpectedEof) && !WholeParts(u))
  {
    hide Reachable;
    PassesForEndIff(u, !WholeParts(u));
    if u.PassesForEnd(!WholeParts(u)) {
      var k := LastStart(u, 0);
      var s0, parts := LastPartUploads(u, k);
      var s := RestingCompletes(u, s0, parts);
      assert Reachable(u, s) && s.phase.Completed?;
    }
    if s :| Reachable(u, s) && s.phase.Completed? {
      CompletesOnlyTheWholeStream(u, s);
    }
  }

  /** A body that breaks with any other error is never stored: no interleaving so much as asks for completion. */
  lemma OtherErrorsNeverComplete(u: Upload, s: State)
    requires u.Valid() && u.ending == Broken(OtherError) && Reachable(u, s)
    ensures !s.phase.Completing? && !s.phase.Completed?
    ensures Terminal(s) ==> s.phase.Aborted?
  {
    if s.phase.Completing? || s.phase.Completed? {
      CompletesOnlyTheWholeStream(u, s);
    }
  }
}
