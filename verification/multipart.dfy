/**
 One multipart upload (internal/store/upload.go): a producer that reads the
 stream into pooled buffers, a bounded queue, and workers that upload parts,
 interleaved one action at a time. The stream is its bytes and how it ends; which
 action comes next, and how the server answers, is left open.
 */
module Multipart {
  import opened Wrappers

  /** What errors.Is finds in the body's own error: io.EOF beneath a wrapping, io.ErrUnexpectedEOF, or neither. */
  datatype Breakage = WrapsEof | UnexpectedEof | OtherError

  /** How the stream ends after its bytes: with a bare io.EOF, or with an error of its own. */
  datatype Ending = Clean | Broken(breakage: Breakage)

  /** The program's own constants are parts of 16 MiB and two workers. */
  datatype Upload = Upload(body: seq<Byte>, ending: Ending, partSize: nat, workers: nat) {
    predicate Valid() { partSize >= 1 && workers >= 2 }

    /** Whether the producer takes the ending for a clean one, when it meets it partway into a part or at its start. */
    predicate PassesForEnd(partway: bool) {
      match ending
      case Clean => true
      case Broken(WrapsEof) => true
      case Broken(UnexpectedEof) => partway
      case Broken(OtherError) => false
    }
  }

  /** A part: its number, the buffer it was read into, and how much of the buffer it fills. */
  datatype Job = Job(number: nat, buffer: nat, length: nat)

  datatype Verdict = NoError | StreamError | CancelError | WorkerError

  /** What the producer does once its part is queued. */
  datatype Next = ReadOn | Return(verdict: Verdict)

  datatype Producer =
    | Reading
    | Filling(buffer: nat)
    | Offering(job: Job, next: Next)
    | Finished(verdict: Verdict)

  datatype Worker = Idle | Uploading(job: Job) | Uploaded(number: nat, ok: bool) | Exited

  datatype Phase = Producing | Draining | Completing(parts: seq<nat>) | Completed(parts: seq<nat>) | Aborted

  /**
   sent counts the parts queued so far and offset the bytes read; stored is what
   the server holds for each part it accepted; results are the completed parts in
   the order the workers recorded them; doneCloses counts closings of done.
   */
  datatype State = State(
    producer: Producer,
    sent: nat,
    offset: nat,
    queue: seq<Job>,
    workers: seq<Worker>,
    buffers: map<nat, seq<Byte>>,
    pool: set<nat>,
    stored: map<nat, seq<Byte>>,
    results: seq<nat>,
    failed: bool,
    doneCloses: nat,
    cancelled: bool,
    phase: Phase)

  function Init(u: Upload): State {
    State(Reading, 0, 0, [], seq(u.workers, _ => Idle), map[], {}, map[], [], false, 0, false, Producing)
  }

  datatype Action =
    | AcquirePooled(buffer: nat)
    | AcquireNew(buffer: nat, contents: seq<Byte>)
    | Read
    | Send
    | GiveUpFailed
    | GiveUpCancelled
    | CloseJobs
    | Take(worker: nat)
    | Leave(worker: nat)
    | Put(worker: nat, ok: bool)
    | Settle(worker: nat)
    | Decide(sorted: seq<nat>)
    | Complete(ok: bool)
    | Cancel
    | DropPooled(buffer: nat)

  // ---- what each action does ----

  /** io.ReadFull into a buffer of partSize: how many bytes it gets. */
  function ReadLength(u: Upload, offset: nat): nat
    requires offset <= |u.body|
  {
    if |u.body| - offset < u.partSize then |u.body| - offset else u.partSize
  }

  /** What the error of that read makes the producer do; a full part hides it until the next read. */
  function AfterRead(u: Upload, offset: nat): Next
    requires offset <= |u.body|
  {
    if |u.body| - offset >= u.partSize then ReadOn
    else if u.PassesForEnd(offset < |u.body|) then Return(NoError)
    else Return(StreamError)
  }

  function Overwrite(buffer: seq<Byte>, bytes: seq<Byte>): seq<Byte>
    requires |bytes| <= |buffer|
  {
    bytes + buffer[|bytes|..]
  }

  predicate Sorted(parts: seq<nat>) {
    forall i, j :: 0 <= i < j < |parts| ==> parts[i] <= parts[j]
  }

  predicate AllExited(workers: seq<Worker>) {
    forall i :: 0 <= i < |workers| ==> workers[i].Exited?
  }

  predicate Aborts(s: State) {
    s.failed || !(s.producer.Finished? && s.producer.verdict.NoError?)
  }

  predicate Enabled(u: Upload, s: State, a: Action) {
    match a
    case AcquirePooled(b) => s.producer.Reading? && b in s.pool
    case AcquireNew(b, contents) => s.producer.Reading? && b !in s.buffers && |contents| == u.partSize
    case Read =>
      && s.producer.Filling? && s.offset <= |u.body|
      && s.producer.buffer in s.buffers && |s.buffers[s.producer.buffer]| == u.partSize
    case Send => s.producer.Offering? && |s.queue| + 1 < u.workers
    case GiveUpFailed => s.producer.Offering? && s.doneCloses > 0
    case GiveUpCancelled => s.producer.Offering? && s.cancelled
    case CloseJobs => s.phase.Producing? && s.producer.Finished?
    case Take(i) => i < |s.workers| && s.workers[i].Idle? && s.queue != []
    case Leave(i) => i < |s.workers| && s.workers[i].Idle? && s.queue == [] && !s.phase.Producing?
    case Put(i, _) =>
      && i < |s.workers| && s.workers[i].Uploading?
      && var job := s.workers[i].job; job.buffer in s.buffers && job.length <= |s.buffers[job.buffer]|
    case Settle(i) => i < |s.workers| && s.workers[i].Uploaded?
    case Decide(sorted) =>
      && s.phase.Draining? && AllExited(s.workers)
      && (Aborts(s) || (Sorted(sorted) && multiset(sorted) == multiset(s.results)))
    case Complete(_) => s.phase.Completing?
    case Cancel => true
    case DropPooled(b) => b in s.pool
  }

  function Apply(u: Upload, s: State, a: Action): State
    requires Enabled(u, s, a)
  {
    match a
    case AcquirePooled(b) => s.(producer := Filling(b), pool := s.pool - {b})
    case AcquireNew(b, contents) => s.(producer := Filling(b), buffers := s.buffers[b := contents])
    case Read =>
      var b, n, next := s.producer.buffer, ReadLength(u, s.offset), AfterRead(u, s.offset);
      if n == 0 && next.Return? then s.(producer := Finished(next.verdict), pool := s.pool + {b})
      else
        s.(producer := Offering(Job(s.sent + 1, b, n), next),
           offset := s.offset + n,
           buffers := s.buffers[b := Overwrite(s.buffers[b], u.body[s.offset..s.offset + n])])
    case Send =>
      s.(producer := if s.producer.next.ReadOn? then Reading else Finished(s.producer.next.verdict),
         sent := s.sent + 1,
         queue := s.queue + [s.producer.job])
    case GiveUpFailed => s.(producer := Finished(WorkerError), pool := s.pool + {s.producer.job.buffer})
    case GiveUpCancelled => s.(producer := Finished(CancelError), pool := s.pool + {s.producer.job.buffer})
    case CloseJobs => s.(phase := Draining)
    case Take(i) => s.(workers := s.workers[i := Uploading(s.queue[0])], queue := s.queue[1..])
    case Leave(i) => s.(workers := s.workers[i := Exited])
    case Put(i, ok) =>
      // UploadPart has returned: an accepted part is the buffer's current bytes, and the buffer is pooled again.
      var job := s.workers[i].job;
      s.(workers := s.workers[i := Uploaded(job.number, ok)],
         pool := s.pool + {job.buffer},
         stored := if ok then s.stored[job.number := s.buffers[job.buffer][..job.length]] else s.stored)
    case Settle(i) =>
      if s.workers[i].ok then
        s.(workers := s.workers[i := Idle], results := s.results + [s.workers[i].number])
      else
        s.(workers := s.workers[i := Exited], failed := true,
           doneCloses := if s.failed then s.doneCloses else s.doneCloses + 1)
    case Decide(sorted) => s.(phase := if Aborts(s) then Aborted else Completing(sorted))
    case Complete(ok) => s.(phase := if ok then Completed(s.phase.parts) else Aborted)
    case Cancel => s.(cancelled := true)
    case DropPooled(b) => s.(pool := s.pool - {b})
  }

  /** The caller's cancellation and the pool's collections; everything else is the upload's own doing. */
  predicate IsEnvironment(a: Action) {
    a.Cancel? || a.DropPooled?
  }

  predicate Terminal(s: State) {
    s.phase.Completed? || s.phase.Aborted?
  }

  /** A run: states joined by enabled actions, in any interleaving. */
  ghost predicate Run(u: Upload, states: seq<State>, actions: seq<Action>) {
    && |states| == |actions| + 1 && states[0] == Init(u)
    && forall k :: 0 <= k < |actions| ==>
         Enabled(u, states[k], actions[k]) && states[k + 1] == Apply(u, states[k], actions[k])
  }

  /** Some run ends in this state; every prefix of a run is a run, so this is every state of every run. */
  ghost predicate Reachable(u: Upload, s: State) {
    exists states, actions :: Run(u, states, actions) && states[|actions|] == s
  }

  lemma InitIsReachable(u: Upload)
    ensures Reachable(u, Init(u))
  {
    assert Run(u, [Init(u)], []);
  }

  lemma StepIsReachable(u: Upload, s: State, a: Action)
    requires Reachable(u, s) && Enabled(u, s, a)
    ensures Reachable(u, Apply(u, s, a))
  {
    hide Enabled, Apply;
    var states, actions :| Run(u, states, actions) && states[|actions|] == s;
    assert Run(u, states + [Apply(u, s, a)], actions + [a]);
  }
}
