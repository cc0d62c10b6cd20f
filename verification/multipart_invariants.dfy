/**
 What every action of a multipart upload keeps: the parts are consecutive pieces
 of the stream, every buffer has one owner, and each queued part is in exactly one
 place until a failure.
 */
module MultipartInvariants {
  import opened Wrappers
  import opened Multipart

  // ---- the pieces of the stream ----

  function Start(u: Upload, k: nat): nat {
    if k == 0 then 0 else Start(u, k - 1) + u.partSize
  }

  function Bound(u: Upload, k: nat): (b: nat)
    ensures b <= |u.body|
  {
    if Start(u, k) < |u.body| then Start(u, k) else |u.body|
  }

  /** Part k of the stream, counting from one. */
  function PartBytes(u: Upload, k: nat): seq<Byte>
    requires k >= 1
  {
    u.body[Bound(u, k - 1)..Bound(u, k)]
  }

  // ---- who owns what, and where each part is ----

  function JobBuffer(job: Job): nat { job.buffer }

  function JobNumber(job: Job): nat { job.number }

  function BufferOf(w: Worker): (b: int)
    ensures w.Uploading? ==> b == JobBuffer(w.job)
  {
    if w.Uploading? then w.job.buffer else -1
  }

  function NumberOf(w: Worker): (n: int)
    ensures w.Uploading? ==> n == JobNumber(w.job)
  {
    match w
    case Uploading(job) => job.number
    case Uploaded(number, _) => number
    case _ => -1
  }

  function One(holds: bool): nat { if holds then 1 else 0 }

  /** How many queued jobs have x for their buffer or number. */
  function Queued(queue: seq<Job>, of: Job -> nat, x: nat): nat {
    if queue == [] then 0 else Queued(queue[..|queue| - 1], of, x) + One(of(queue[|queue| - 1]) == x)
  }

  /** How many workers have x in hand. */
  function InHand(workers: seq<Worker>, of: Worker -> int, x: nat): nat {
    if workers == [] then 0 else InHand(workers[..|workers| - 1], of, x) + One(of(workers[|workers| - 1]) == x)
  }

  function Recorded(results: seq<nat>, x: nat): nat {
    if results == [] then 0 else Recorded(results[..|results| - 1], x) + One(results[|results| - 1] == x)
  }

  predicate ProducerHas(p: Producer, b: nat) {
    (p.Filling? && p.buffer == b) || (p.Offering? && p.job.buffer == b)
  }

  /** How often a buffer is in use: being filled, queued, or being uploaded. */
  function Uses(s: State, b: nat): nat {
    One(ProducerHas(s.producer, b)) + Queued(s.queue, JobBuffer, b) + InHand(s.workers, BufferOf, b)
  }

  function Owners(s: State, b: nat): nat {
    One(b in s.pool) + Uses(s, b)
  }

  /** In how many places a part is: recorded, queued, or with a worker. */
  function Places(s: State, n: nat): nat {
    Recorded(s.results, n) + Queued(s.queue, JobNumber, n) + InHand(s.workers, NumberOf, n)
  }

  lemma {:induction false} InHandUpdate(workers: seq<Worker>, of: Worker -> int, x: nat, i: nat, w: Worker)
    requires i < |workers|
    ensures InHand(workers[i := w], of, x) == InHand(workers, of, x) - One(of(workers[i]) == x) + One(of(w) == x)
    ensures One(of(workers[i]) == x) <= InHand(workers, of, x)
    decreases |workers|
  {
    var n := |workers| - 1;
    if i == n {
      assert workers[i := w][..n] == workers[..n];
    } else {
      assert workers[i := w][..n] == workers[..n][i := w];
      InHandUpdate(workers[..n], of, x, i, w);
    }
  }

  lemma {:induction false} QueueHead(queue: seq<Job>, of: Job -> nat, x: nat)
    requires queue != []
    ensures Queued(queue, of, x) == One(of(queue[0]) == x) + Queued(queue[1..], of, x)
  {
    var n := |queue| - 1;
    if n == 0 {
      assert queue[..0] == [] && queue[1..] == [];
    } else {
      QueueHead(queue[..n], of, x);
      assert queue[..n][1..] == queue[1..][..n - 1];
    }
  }

  lemma QueueSnoc(queue: seq<Job>, of: Job -> nat, x: nat, job: Job)
    ensures Queued(queue + [job], of, x) == Queued(queue, of, x) + One(of(job) == x)
  {
  }

  lemma RecordedSnoc(results: seq<nat>, x: nat, n: nat)
    ensures Recorded(results + [n], x) == Recorded(results, x) + One(n == x)
  {
  }

  // ---- the invariants ----

  ghost predicate Reads(u: Upload, s: State) {
    && s.offset <= |u.body|
    && (s.sent > 0 ==> Start(u, s.sent - 1) < |u.body|)
    && match s.producer
       case Reading => s.offset == Start(u, s.sent)
       case Filling(_) => s.offset == Start(u, s.sent)
       case Offering(job, next) =>
         && job.number == s.sent + 1
         && Start(u, s.sent) < |u.body|
         && s.offset == Bound(u, s.sent + 1) && job.length == s.offset - Start(u, s.sent)
         && (next.ReadOn? <==> Start(u, s.sent + 1) <= |u.body|)
         && (next == Return(NoError) ==> u.PassesForEnd(true))
         && (next.Return? ==> next.verdict.NoError? || (next.verdict.StreamError? && u.ending.Broken?))
       case Finished(verdict) =>
         && (verdict.NoError? ==>
               && Bound(u, s.sent) == |u.body|
               && u.PassesForEnd(|u.body| != Start(u, s.sent)))
         && (verdict.StreamError? ==> u.ending.Broken?)
         && (verdict.CancelError? ==> s.cancelled)
         && (verdict.WorkerError? ==> s.failed)
  }

  ghost predicate Shape(u: Upload, s: State) {
    && |s.workers| == u.workers && |s.queue| < u.workers
    && s.doneCloses == (if s.failed then 1 else 0)
    && ((exists i :: 0 <= i < |s.workers| && s.workers[i].Exited?) && !s.failed ==>
          !s.phase.Producing? && s.queue == [])
    && (!s.phase.Producing? ==> s.producer.Finished?)
    && (s.phase.Completing? || s.phase.Completed? ==>
          && !Aborts(s) && AllExited(s.workers) && s.queue == []
          && Sorted(s.phase.parts) && multiset(s.phase.parts) == multiset(s.results))
  }

  /** Every buffer has at most one owner, and every owned buffer is a whole part long. */
  ghost predicate Owned(u: Upload, s: State) {
    && (forall b :: Owners(s, b) <= 1)
    && (forall b :: Owners(s, b) > 0 ==> b in s.buffers)
    && (forall b :: b in s.buffers ==> |s.buffers[b]| == u.partSize)
  }

  /** Until a failure, each part queued so far is in exactly one place. */
  ghost predicate Accounted(s: State) {
    s.failed || forall n: nat :: Places(s, n) == One(1 <= n <= s.sent)
  }

  ghost predicate Carries(u: Upload, s: State, job: Job, last: nat) {
    && 1 <= job.number <= last
    && job.buffer in s.buffers && job.length <= |s.buffers[job.buffer]|
    && s.buffers[job.buffer][..job.length] == PartBytes(u, job.number)
  }

  ghost predicate IsStored(u: Upload, s: State, number: nat) {
    number >= 1 && number in s.stored && s.stored[number] == PartBytes(u, number)
  }

  /** Every part in a buffer is the right piece of the stream, and so is every part the server accepted. */
  ghost predicate Faithful(u: Upload, s: State) {
    && (s.producer.Offering? ==> Carries(u, s, s.producer.job, s.sent + 1))
    && (forall job :: job in s.queue ==> Carries(u, s, job, s.sent))
    && (forall i :: 0 <= i < |s.workers| && s.workers[i].Uploading? ==> Carries(u, s, s.workers[i].job, s.sent))
    && (forall i :: 0 <= i < |s.workers| && s.workers[i].Uploaded? && s.workers[i].ok ==>
          IsStored(u, s, s.workers[i].number))
    && (forall n :: n in s.results ==> IsStored(u, s, n))
  }

  ghost predicate Inv(u: Upload, s: State) {
    u.Valid() && Reads(u, s) && Shape(u, s) && Owned(u, s) && Accounted(s) && Faithful(u, s)
  }

  // ---- each invariant is kept ----

  lemma ReadKeepsReads(u: Upload, s: State)
    requires u.Valid() && Reads(u, s) && Enabled(u, s, Read)
    ensures Reads(u, Apply(u, s, Read))
  {
  }

  lemma SendKeepsReads(u: Upload, s: State)
    requires u.Valid() && Reads(u, s) && Enabled(u, s, Send)
    ensures Reads(u, Apply(u, s, Send))
  {
  }

  /** The reads depend only on the producer and on two flags that never go back. */
  lemma SameReads(u: Upload, s: State, t: State)
    requires Reads(u, s)
    requires t.producer == s.producer && t.offset == s.offset && t.sent == s.sent
    requires (s.cancelled ==> t.cancelled) && (s.failed ==> t.failed)
    ensures Reads(u, t)
  {
  }

  lemma KeepsReads(u: Upload, s: State, a: Action)
    requires u.Valid() && Reads(u, s) && Shape(u, s) && Enabled(u, s, a)
    ensures Reads(u, Apply(u, s, a))
  {
    if a.Read? {
      ReadKeepsReads(u, s);
    } else if a.Send? {
      SendKeepsReads(u, s);
    } else if !a.AcquirePooled? && !a.AcquireNew? && !a.GiveUpFailed? && !a.GiveUpCancelled? {
      hide Reads, Shape;
      SameReads(u, s, Apply(u, s, a));
    }
  }

  lemma KeepsShape(u: Upload, s: State, a: Action)
    requires u.Valid() && Shape(u, s) && Enabled(u, s, a)
    ensures Shape(u, Apply(u, s, a))
  {
    if a.Decide? {
      assert s.workers[0].Exited?;
    }
  }

  lemma WorkerKeepsOwners(u: Upload, s: State, a: Action, b: nat)
    requires Owners(s, b) <= 1 && Enabled(u, s, a) && (a.Take? || a.Leave? || a.Put? || a.Settle?)
    ensures Owners(Apply(u, s, a), b) == Owners(s, b)
  {
    hide Queued, InHand;
    var t := Apply(u, s, a);
    InHandUpdate(s.workers, BufferOf, b, a.worker, t.workers[a.worker]);
    if a.Take? {
      QueueHead(s.queue, JobBuffer, b);
    }
  }

  /** Buffers only change hands: each has as many owners as before, except for a new or a dropped one. */
  lemma KeepsOwners(u: Upload, s: State, a: Action, b: nat)
    requires Owners(s, b) <= 1 && Enabled(u, s, a)
    ensures Owners(Apply(u, s, a), b) == Owners(s, b) + One(a.AcquireNew? && a.buffer == b)
                                       - One(a == DropPooled(b))
  {
    hide Queued, InHand;
    if a.Take? || a.Leave? || a.Put? || a.Settle? {
      hide Owners;
      WorkerKeepsOwners(u, s, a, b);
    } else if a.Send? {
      QueueSnoc(s.queue, JobBuffer, b, s.producer.job);
    }
  }

  lemma KeepsOwned(u: Upload, s: State, a: Action)
    requires u.Valid() && Owned(u, s) && Enabled(u, s, a)
    ensures Owned(u, Apply(u, s, a))
  {
    hide Owners;
    var t := Apply(u, s, a);
    forall b: nat ensures Owners(t, b) <= 1 && (Owners(t, b) > 0 ==> b in t.buffers) {
      KeepsOwners(u, s, a, b);
    }
  }

  lemma WorkerKeepsPlaces(u: Upload, s: State, a: Action, n: nat)
    requires Enabled(u, s, a) && !Apply(u, s, a).failed && (a.Take? || a.Leave? || a.Put? || a.Settle?)
    ensures Places(Apply(u, s, a), n) == Places(s, n)
  {
    hide Queued, InHand, Recorded;
    var t := Apply(u, s, a);
    InHandUpdate(s.workers, NumberOf, n, a.worker, t.workers[a.worker]);
    if a.Take? {
      QueueHead(s.queue, JobNumber, n);
    } else if a.Settle? {
      RecordedSnoc(s.results, n, s.workers[a.worker].number);
    }
  }

  lemma KeepsPlaces(u: Upload, s: State, a: Action, n: nat)
    requires Enabled(u, s, a) && !Apply(u, s, a).failed
    requires s.producer.Offering? ==> s.producer.job.number == s.sent + 1
    ensures Places(Apply(u, s, a), n) == Places(s, n) + One(a.Send? && n == s.sent + 1)
  {
    hide Queued, InHand, Recorded;
    if a.Take? || a.Leave? || a.Put? || a.Settle? {
      hide Places;
      WorkerKeepsPlaces(u, s, a, n);
    } else if a.Send? {
      QueueSnoc(s.queue, JobNumber, n, s.producer.job);
    }
  }

  lemma KeepsAccounted(u: Upload, s: State, a: Action)
    requires Reads(u, s) && Accounted(s) && Enabled(u, s, a)
    ensures Accounted(Apply(u, s, a))
  {
    hide Places;
    var t := Apply(u, s, a);
    if !t.failed {
      forall n: nat ensures Places(t, n) == One(1 <= n <= t.sent) {
        KeepsPlaces(u, s, a, n);
      }
    }
  }

  lemma {:induction false} QueuedMember(queue: seq<Job>, of: Job -> nat, k: nat)
    requires k < |queue|
    ensures Queued(queue, of, of(queue[k])) >= 1
    decreases |queue|
  {
    if k < |queue| - 1 {
      QueuedMember(queue[..|queue| - 1], of, k);
    }
  }

  /** While a buffer is being filled, no queued job and no worker has it. */
  lemma FillingIsPrivate(u: Upload, s: State)
    requires Owned(u, s) && s.producer.Filling?
    ensures forall job :: job in s.queue ==> job.buffer != s.producer.buffer
    ensures forall i :: 0 <= i < |s.workers| && s.workers[i].Uploading? ==> s.workers[i].job.buffer != s.producer.buffer
  {
    hide Queued, InHand;
    var b := s.producer.buffer;
    assert Owners(s, b) <= 1;
    forall job | job in s.queue ensures job.buffer != b {
      var k :| 0 <= k < |s.queue| && s.queue[k] == job;
      QueuedMember(s.queue, JobBuffer, k);
    }
    forall i | 0 <= i < |s.workers| && s.workers[i].Uploading? ensures s.workers[i].job.buffer != b {
      InHandUpdate(s.workers, BufferOf, b, i, Idle);
    }
  }

  /** The part just read is the next piece of the stream. */
  lemma ReadsTheNextPart(u: Upload, s: State)
    requires u.Valid() && Enabled(u, s, Read) && Apply(u, s, Read).producer.Offering?
    requires s.offset == Start(u, s.sent)
    ensures var t := Apply(u, s, Read); Carries(u, t, t.producer.job, t.sent + 1)
  {
    var t := Apply(u, s, Read);
    var bytes := u.body[s.offset..t.offset];
    assert PartBytes(u, s.sent + 1) == bytes;
    var buffer := s.buffers[s.producer.buffer];
    assert Overwrite(buffer, bytes)[..|bytes|] == bytes;
  }

  /** A change to a buffer no queued job and no worker has leaves every part as it was. */
  lemma OthersKeepTheirParts(u: Upload, s: State, t: State, b: nat)
    requires Faithful(u, s)
    requires t.queue == s.queue && t.workers == s.workers && t.sent == s.sent
    requires t.stored == s.stored && t.results == s.results
    requires t.producer.Offering? ==> Carries(u, t, t.producer.job, t.sent + 1)
    requires forall x :: x in s.buffers && x != b ==> x in t.buffers && t.buffers[x] == s.buffers[x]
    requires forall job :: job in s.queue ==> job.buffer != b
    requires forall i :: 0 <= i < |s.workers| && s.workers[i].Uploading? ==> s.workers[i].job.buffer != b
    ensures Faithful(u, t)
  {
  }

  /** Acquiring or filling a buffer touches no part that is queued or being uploaded. */
  lemma FillKeepsFaithful(u: Upload, s: State, a: Action)
    requires Inv(u, s) && Enabled(u, s, a) && (a.AcquirePooled? || a.AcquireNew? || a.Read?)
    ensures Faithful(u, Apply(u, s, a))
  {
    hide PartBytes, Accounted, Shape;
    var t := Apply(u, s, a);
    if a.Read? {
      FillingIsPrivate(u, s);
      if t.producer.Offering? {
        ReadsTheNextPart(u, s);
      }
      hide Owned, Reads, Carries, IsStored;
      OthersKeepTheirParts(u, s, t, s.producer.buffer);
    } else if a.AcquireNew? {
      hide Owned, Reads, IsStored;
      assert forall job :: job in s.queue ==> Carries(u, s, job, s.sent);
      OthersKeepTheirParts(u, s, t, a.buffer);
    }
  }

  lemma SendKeepsFaithful(u: Upload, s: State)
    requires Faithful(u, s) && Enabled(u, s, Send)
    ensures Faithful(u, Apply(u, s, Send))
  {
  }

  /** UploadPart stores the right piece: its buffer still holds what was read into it. */
  lemma PutKeepsFaithful(u: Upload, s: State, i: nat, ok: bool)
    requires Faithful(u, s) && Enabled(u, s, Put(i, ok))
    ensures Faithful(u, Apply(u, s, Put(i, ok)))
  {
    hide PartBytes;
    var t := Apply(u, s, Put(i, ok));
    assert Carries(u, s, s.workers[i].job, s.sent);
    assert forall n :: IsStored(u, s, n) ==> IsStored(u, t, n);
  }

  /** Handing a part on, recording it or dropping it changes no buffer and nothing stored. */
  lemma HandedOnFaithfully(u: Upload, s: State, t: State)
    requires Faithful(u, s) && t.buffers == s.buffers && t.stored == s.stored && t.sent == s.sent
    requires t.producer.Offering? ==> t.producer == s.producer
    requires forall job :: job in t.queue ==> job in s.queue
    requires |t.workers| == |s.workers|
    requires forall i :: 0 <= i < |t.workers| && t.workers[i].Uploading? ==>
              t.workers[i] == s.workers[i] || t.workers[i].job in s.queue
    requires forall i :: 0 <= i < |t.workers| && t.workers[i].Uploaded? ==> t.workers[i] == s.workers[i]
    requires forall n :: n in t.results ==> n in s.results || IsStored(u, s, n)
    ensures Faithful(u, t)
  {
    hide PartBytes;
    assert forall job, last :: Carries(u, s, job, last) <==> Carries(u, t, job, last);
    assert forall n :: IsStored(u, s, n) <==> IsStored(u, t, n);
    hide Carries, IsStored;
  }

  lemma WorkerHandsOn(u: Upload, s: State, a: Action)
    requires Faithful(u, s) && Enabled(u, s, a) && (a.Take? || a.Leave? || a.Settle?)
    ensures Faithful(u, Apply(u, s, a))
  {
    hide Carries, IsStored;
    assert a.Take? ==> s.queue[0] in s.queue;
    assert a.Settle? && s.workers[a.worker].ok ==> IsStored(u, s, s.workers[a.worker].number);
    hide Faithful;
    HandedOnFaithfully(u, s, Apply(u, s, a));
  }

  /** Moving a part along, storing it and recording it keep it the right piece of the stream. */
  lemma MoveKeepsFaithful(u: Upload, s: State, a: Action)
    requires Faithful(u, s) && Enabled(u, s, a) && !a.AcquirePooled? && !a.AcquireNew? && !a.Read?
    ensures Faithful(u, Apply(u, s, a))
  {
    hide Faithful;
    if a.Send? {
      SendKeepsFaithful(u, s);
    } else if a.Put? {
      PutKeepsFaithful(u, s, a.worker, a.ok);
    } else if a.Take? || a.Leave? || a.Settle? {
      WorkerHandsOn(u, s, a);
    } else {
      HandedOnFaithfully(u, s, Apply(u, s, a));
    }
  }

  lemma StepKeepsInv(u: Upload, s: State, a: Action)
    requires Inv(u, s) && Enabled(u, s, a)
    ensures Inv(u, Apply(u, s, a))
  {
    hide Reads, Shape, Owned, Accounted, Faithful;
    KeepsReads(u, s, a);
    KeepsShape(u, s, a);
    KeepsOwned(u, s, a);
    KeepsAccounted(u, s, a);
    if a.AcquirePooled? || a.AcquireNew? || a.Read? {
      FillKeepsFaithful(u, s, a);
    } else {
      MoveKeepsFaithful(u, s, a);
    }
  }

  lemma {:induction false} NothingInHand(workers: seq<Worker>, of: Worker -> int, x: nat)
    requires forall i :: 0 <= i < |workers| ==> of(workers[i]) == -1
    ensures InHand(workers, of, x) == 0
  {
    if workers != [] {
      NothingInHand(workers[..|workers| - 1], of, x);
    }
  }

  lemma InitInv(u: Upload)
    requires u.Valid()
    ensures Inv(u, Init(u))
  {
    var s := Init(u);
    forall x: nat ensures Owners(s, x) == 0 && Places(s, x) == 0 {
      NothingInHand(s.workers, BufferOf, x);
      NothingInHand(s.workers, NumberOf, x);
    }
  }

  /** Every state of every run keeps the invariants. */
  lemma {:induction false} RunKeepsInv(u: Upload, states: seq<State>, actions: seq<Action>, k: nat)
    requires u.Valid() && Run(u, states, actions) && k < |states|
    ensures Inv(u, states[k])
  {
    hide Inv;
    if k == 0 {
      InitInv(u);
    } else {
      RunKeepsInv(u, states, actions, k - 1);
      StepKeepsInv(u, states[k - 1], actions[k - 1]);
    }
  }

  lemma ReachableInv(u: Upload, s: State)
    requires u.Valid() && Reachable(u, s)
    ensures Inv(u, s)
  {
    hide Inv;
    var states, actions :| Run(u, states, actions) && states[|actions|] == s;
    RunKeepsInv(u, states, actions, |actions|);
  }
}
