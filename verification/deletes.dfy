/**
 Batched deletion (internal/store/ops.go, DeleteObjects; internal/store/storage.go,
 execute). The storage provider and the cancellation signal are oracles indexed by a
 tick that every question advances.
 */
module Deletes {
  import opened Wrappers
  import opened Text
  import opened Collections

  const DELETE_BATCH_SIZE: nat := 1000
  const MAX_ATTEMPTS: nat := 5

  datatype Request = Bulk(keys: seq<string>) | Single(key: string)
  {
    function Keys(): seq<string> {
      if Bulk? then keys else [key]
    }
  }

  /**
   The error text names a malformed or unsupported bulk request; a status came with the error or
   not; the connection failed.
   */
  datatype StorageError = StorageError(schema: bool, status: Option<int>, transport: bool)

  /** Even a successful bulk reply can list keys it refused to delete. */
  datatype Reply = Acknowledged(refused: set<string>) | Failed(error: StorageError)

  /** A request, the tick it was sent at, and what came back. */
  datatype Exchange = Exchange(at: nat, request: Request, reply: Reply)

  datatype Failure = Cancelled | SchemaRejected | Reported

  datatype World = World(reply: (nat, Request) -> Reply, cancelled: nat -> bool)

  predicate IsRetryableStatus(status: int) {
    status == 429 || status == 500 || status == 502 || status == 503 || status == 504
  }

  /** Worth another attempt: a retryable status, or no status and a broken connection. */
  predicate IsTransient(error: StorageError) {
    && !error.schema
    && if error.status.Some? then error.status.value in {429, 500, 502, 503, 504} else error.transport
  }

  // ---- what a log of exchanges achieved ----

  function Acked(exchange: Exchange): seq<string> {
    if exchange.reply.Acknowledged? then exchange.request.Keys() else []
  }

  /** The keys whose deletion the provider acknowledged, in order. */
  function AckedKeys(sent: seq<Exchange>): seq<string> {
    if sent == [] then [] else AckedKeys(sent[..|sent| - 1]) + Acked(sent[|sent| - 1])
  }

  lemma AckedSnoc(sent: seq<Exchange>, last: Exchange)
    ensures AckedKeys([]) == [] && AckedKeys(sent + [last]) == AckedKeys(sent) + Acked(last)
  {
    assert (sent + [last])[..|sent|] == sent;
  }

  lemma {:induction false} AckedConcat(a: seq<Exchange>, b: seq<Exchange>)
    ensures AckedKeys(a + b) == AckedKeys(a) + AckedKeys(b)
    decreases |b|
  {
    hide AckedKeys, Acked;
    if b == [] {
      assert AckedKeys([]) == [] by { AckedSnoc([], Exchange(0, Single(""), Acknowledged({}))); }
      assert a + b == a;
    } else {
      var front, last := b[..|b| - 1], b[|b| - 1];
      AckedConcat(a, front);
      AckedSnoc(a + front, last);
      AckedSnoc(front, last);
      assert a + b == a + front + [last] && b == front + [last];
    }
  }

  predicate RejectsSchema(exchange: Exchange) {
    exchange.request.Bulk? && exchange.reply.Failed? && exchange.reply.error.schema
  }

  predicate OnlySingles(sent: seq<Exchange>) {
    forall i :: 0 <= i < |sent| ==> sent[i].request.Single?
  }

  /** Every bulk request is within the provider's limit and not empty. */
  predicate BulksAreSized(sent: seq<Exchange>) {
    forall i :: 0 <= i < |sent| && sent[i].request.Bulk? ==> 1 <= |sent[i].request.keys| <= 1000
  }

  /** After a bulk request is rejected for its shape, only single deletes follow. */
  predicate SwitchesOnce(sent: seq<Exchange>) {
    forall i, j :: 0 <= i < j < |sent| && RejectsSchema(sent[i]) ==> sent[j].request.Single?
  }

  /**
   The log is what the provider really answered between two ticks, in order, and each request
   passed the cancellation gate.
   */
  predicate Genuine(world: World, from: nat, to: nat, sent: seq<Exchange>) {
    && from <= to
    && (forall i :: 0 <= i < |sent| ==> from < sent[i].at < to)
    && (forall i :: 0 <= i < |sent| ==> sent[i].reply == world.reply(sent[i].at, sent[i].request))
    && (forall i :: 0 <= i < |sent| ==> !world.cancelled(sent[i].at - 1))
    && (forall i, j :: 0 <= i < j < |sent| ==> sent[i].at < sent[j].at)
  }

  predicate WasCancelled(world: World, from: nat, to: nat) {
    exists t :: from <= t < to && world.cancelled(t)
  }

  lemma CancelledAt(world: World, from: nat, to: nat, t: nat)
    requires from <= t < to && world.cancelled(t)
    ensures WasCancelled(world, from, to)
  {
  }

  /** Two logs in succession are one log. */
  lemma Chain(world: World, a: nat, b: nat, c: nat, first: seq<Exchange>, second: seq<Exchange>)
    requires Genuine(world, a, b, first) && Genuine(world, b, c, second)
    ensures Genuine(world, a, c, first + second)
    ensures WasCancelled(world, b, c) ==> WasCancelled(world, a, c)
  {
  }

  lemma NothingSent(world: World, from: nat, to: nat)
    requires from <= to
    ensures Genuine(world, from, to, [])
  {
  }

  lemma OneSent(world: World, at: nat, request: Request)
    requires at > 0 && !world.cancelled(at - 1)
    ensures Genuine(world, at - 1, at + 1, [Exchange(at, request, world.reply(at, request))])
  {
  }

  predicate NeverRejected(sent: seq<Exchange>) {
    forall i :: 0 <= i < |sent| ==> !RejectsSchema(sent[i])
  }

  /** The last reply was an error. */
  predicate EndsFailed(sent: seq<Exchange>) {
    sent != [] && sent[|sent| - 1].reply.Failed?
  }

  // ---- one operation under the retry policy ----

  /** What the retry policy promises of the attempts made for one request. */
  predicate Attempts(request: Request, failure: Option<Failure>, sent: seq<Exchange>) {
    && |sent| <= 5
    && (forall i :: 0 <= i < |sent| ==> sent[i].request == request)
    && (forall i :: 0 <= i < |sent| - 1 ==> sent[i].reply.Failed? && IsTransient(sent[i].reply.error))
    && (sent == [] ==> failure == Some(Cancelled))
    && (sent != [] ==>
          var last := sent[|sent| - 1].reply;
          && (failure.None? <==> last.Acknowledged?)
          && (failure == Some(SchemaRejected) <==> last.Failed? && last.error.schema)
          && (failure == Some(Cancelled) ==> last.Failed? && IsTransient(last.error))
          && (failure == Some(Reported) ==> last.Failed? && (!IsTransient(last.error) || |sent| == 5)))
  }

  method Execute(world: World, now: nat, request: Request)
    returns (failure: Option<Failure>, sent: seq<Exchange>, later: nat)
    ensures Attempts(request, failure, sent)
    ensures Genuine(world, now, later, sent)
    ensures failure == Some(Cancelled) ==> WasCancelled(world, now, later)
    ensures world.cancelled(now) ==> sent == [] && failure == Some(Cancelled)
    ensures now < later
  {
    hide Genuine, WasCancelled, Attempts;
    sent, later := [], now;
    NothingSent(world, now, now);
    var attempt := 1;
    while attempt <= MAX_ATTEMPTS
      invariant 1 <= attempt <= MAX_ATTEMPTS && |sent| == attempt - 1 && now <= later
      invariant attempt == 1 ==> later == now
      invariant attempt > 1 ==> !world.cancelled(now)
      invariant Genuine(world, now, later, sent) && AllTransient(request, sent)
    {
      if world.cancelled(later) {
        CancelledAt(world, now, later + 1, later);
        Pause(world, now, later, sent);
        GivesUp(request, sent);
        return Some(Cancelled), sent, later + 1;
      }
      var reply := world.reply(later + 1, request);
      var exchange := Exchange(later + 1, request, reply);
      OneSent(world, later + 1, request);
      Chain(world, now, later, later + 2, sent, [exchange]);
      LastAttempt(request, sent, exchange);
      sent, later := sent + [exchange], later + 2;
      if reply.Acknowledged? {
        return None, sent, later;
      }
      if reply.error.schema {
        return Some(SchemaRejected), sent, later;
      }
      if reply.error.status.Some? {
        if !IsRetryableStatus(reply.error.status.value) || attempt == MAX_ATTEMPTS {
          break;
        }
      } else if !reply.error.transport || attempt == MAX_ATTEMPTS {
        break;
      }
      Pause(world, now, later, sent);
      later := later + 1;
      if world.cancelled(later - 1) {
        CancelledAt(world, now, later, later - 1);
        GivesUp(request, sent);
        return Some(Cancelled), sent, later;
      }
      attempt := attempt + 1;
    }
    return Some(Reported), sent, later;
  }

  predicate AllTransient(request: Request, sent: seq<Exchange>) {
    forall i :: 0 <= i < |sent| ==>
      sent[i].request == request && sent[i].reply.Failed? && IsTransient(sent[i].reply.error)
  }

  /** Waiting sends nothing. */
  lemma Pause(world: World, from: nat, to: nat, sent: seq<Exchange>)
    requires Genuine(world, from, to, sent)
    ensures Genuine(world, from, to + 1, sent)
  {
  }

  lemma GivesUp(request: Request, sent: seq<Exchange>)
    requires AllTransient(request, sent) && |sent| <= MAX_ATTEMPTS
    ensures Attempts(request, Some(Cancelled), sent)
  {
  }

  /** What one more attempt means: it ends the matter, or it is worth repeating and attempts are left. */
  lemma LastAttempt(request: Request, sent: seq<Exchange>, last: Exchange)
    requires AllTransient(request, sent) && |sent| < MAX_ATTEMPTS && last.request == request
    ensures var all := sent + [last];
            && (last.reply.Acknowledged? ==> Attempts(request, None, all))
            && (last.reply.Failed? && last.reply.error.schema ==> Attempts(request, Some(SchemaRejected), all))
            && (last.reply.Failed? && !last.reply.error.schema &&
                (!IsTransient(last.reply.error) || |all| == MAX_ATTEMPTS) ==>
                  Attempts(request, Some(Reported), all))
            && (last.reply.Failed? && IsTransient(last.reply.error) ==> AllTransient(request, all))
  {
  }

  /** The attempts for one request acknowledge its keys exactly when they succeed. */
  lemma AttemptsAck(request: Request, failure: Option<Failure>, sent: seq<Exchange>)
    requires Attempts(request, failure, sent)
    ensures AckedKeys(sent) == if failure.None? then request.Keys() else []
  {
    hide IsTransient;
    if sent != [] {
      var before, last := sent[..|sent| - 1], sent[|sent| - 1];
      NothingAcked(before);
      assert AckedKeys(sent) == [] + Acked(last) == Acked(last);
      hide AckedKeys;
    }
  }

  lemma AttemptsAreAlike(request: Request, failure: Option<Failure>, sent: seq<Exchange>)
    requires Attempts(request, failure, sent)
    ensures request.Single? ==> OnlySingles(sent)
    ensures request.Bulk? && 1 <= |request.keys| <= DELETE_BATCH_SIZE ==> BulksAreSized(sent)
  {
    hide IsTransient;
  }

  /** Only the last attempt can be rejected for its shape: such a rejection is not retried. */
  lemma AttemptsSwitch(request: Request, failure: Option<Failure>, sent: seq<Exchange>)
    requires Attempts(request, failure, sent)
    ensures SwitchesOnce(sent)
    ensures request.Bulk? && failure != Some(SchemaRejected) ==> NeverRejected(sent)
  {
    assert forall i :: 0 <= i < |sent| - 1 ==> !RejectsSchema(sent[i]);
  }

  lemma {:induction false} NothingAcked(sent: seq<Exchange>)
    requires forall i :: 0 <= i < |sent| ==> sent[i].reply.Failed?
    ensures AckedKeys(sent) == []
  {
    if sent != [] {
      NothingAcked(sent[..|sent| - 1]);
    }
  }

  // ---- key by key ----

  lemma SinglesConcat(a: seq<Exchange>, b: seq<Exchange>)
    requires OnlySingles(a) && OnlySingles(b)
    ensures OnlySingles(a + b)
  {
  }

  /** An error other than a cancellation came with the last reply. */
  lemma FailureIsReported(request: Request, failure: Option<Failure>, sent: seq<Exchange>, more: seq<Exchange>)
    requires Attempts(request, failure, more) && failure.Some? && failure != Some(Cancelled)
    ensures EndsFailed(more) && EndsFailed(sent + more)
  {
  }

  lemma EndsAlike(sent: seq<Exchange>, more: seq<Exchange>)
    requires EndsFailed(more)
    ensures EndsFailed(sent + more)
  {
  }

  lemma OneSingle(batch: seq<string>, i: nat, sent: seq<Exchange>, failure: Option<Failure>, more: seq<Exchange>)
    requires i < |batch| && OnlySingles(sent) && AckedKeys(sent) == batch[..i]
    requires Attempts(Single(batch[i]), failure, more)
    ensures OnlySingles(sent + more)
    ensures failure.None? ==> AckedKeys(sent + more) == batch[..i + 1]
    ensures failure.Some? ==> AckedKeys(sent + more) < batch
  {
    hide AckedKeys, Attempts, OnlySingles, BulksAreSized, SwitchesOnce, NeverRejected;
    AttemptsAck(Single(batch[i]), failure, more);
    AttemptsAreAlike(Single(batch[i]), failure, more);
    AckedConcat(sent, more);
    SinglesConcat(sent, more);
    assert batch[..i + 1] == batch[..i] + [batch[i]];
    assert batch[..i] + [] == batch[..i];
  }

  method DeleteObjectsIndividually(world: World, now: nat, batch: seq<string>)
    returns (failure: Option<Failure>, sent: seq<Exchange>, later: nat)
    ensures OnlySingles(sent)
    ensures failure.None? ==> AckedKeys(sent) == batch
    ensures failure.Some? ==> AckedKeys(sent) < batch
    ensures Genuine(world, now, later, sent)
    ensures failure == Some(Cancelled) ==> WasCancelled(world, now, later)
    ensures failure.Some? && failure != Some(Cancelled) ==> EndsFailed(sent)
  {
    sent, later := [], now;
    NothingSent(world, now, now);
    for i := 0 to |batch|
      invariant OnlySingles(sent) && AckedKeys(sent) == batch[..i] && Genuine(world, now, later, sent)
    {
      hide AckedKeys, Attempts, OnlySingles, Genuine, WasCancelled, EndsFailed;
      Pause(world, now, later, sent);
      later := later + 1;
      if world.cancelled(later - 1) {
        CancelledAt(world, now, later, later - 1);
        return Some(Cancelled), sent, later;
      }
      var error, exchanges, after := Execute(world, later, Single(batch[i]));
      Chain(world, now, later, after, sent, exchanges);
      OneSingle(batch, i, sent, error, exchanges);
      if error.Some? && error != Some(Cancelled) {
        FailureIsReported(Single(batch[i]), error, sent, exchanges);
      }
      sent, later := sent + exchanges, after;
      if error.Some? {
        return error, sent, later;
      }
    }
    assert batch[..|batch|] == batch;
    failure := None;
  }

  // ---- what is to be deleted ----

  function TrimKey(key: string): string {
    TrimSlashes(TrimSpace(key))
  }

  /** The trimmed keys that are not empty, each at its first occurrence. */
  function Normalized(objectKeys: seq<string>): seq<string> {
    if objectKeys == [] then []
    else
      var n := |objectKeys| - 1;
      var before := Normalized(objectKeys[..n]);
      var trimmed := TrimKey(objectKeys[n]);
      if trimmed == "" || trimmed in before then before else before + [trimmed]
  }

  function Trimmed(objectKeys: seq<string>): seq<string> {
    seq(|objectKeys|, i requires 0 <= i < |objectKeys| => TrimKey(objectKeys[i]))
  }

  /** Every distinct trimmed key that is not empty is there, once, and nothing else. */
  lemma {:induction false} NormalizedIsExact(objectKeys: seq<string>)
    ensures Distinct(Normalized(objectKeys))
    ensures forall key :: key in Normalized(objectKeys) <==> key != "" && key in Trimmed(objectKeys)
  {
    hide TrimKey;
    if objectKeys != [] {
      var n := |objectKeys| - 1;
      NormalizedIsExact(objectKeys[..n]);
      assert Trimmed(objectKeys) == Trimmed(objectKeys[..n]) + [TrimKey(objectKeys[n])];
      hide Trimmed;
    }
  }

  /** First occurrences keep their order: a prefix of the input normalizes to a prefix of the result. */
  lemma {:induction false} NormalizedKeepsOrder(objectKeys: seq<string>, n: nat)
    requires n <= |objectKeys|
    ensures Normalized(objectKeys[..n]) <= Normalized(objectKeys)
  {
    hide TrimKey;
    var last := |objectKeys| - 1;
    if n <= last {
      NormalizedKeepsOrder(objectKeys[..last], n);
      assert objectKeys[..last][..n] == objectKeys[..n];
    } else {
      assert objectKeys[..n] == objectKeys;
    }
  }

  /** A space, or one of the five control characters from tab to carriage return. */
  predicate IsBlank(c: char) {
    c as int in {9, 10, 11, 12, 13, 32}
  }

  /** Surrounding white space goes first, then the slashes at either end of what is left. */
  lemma TrimKeyIs(space: string, slashes: string, core: string, slashes': string, space': string)
    requires core != "" && core[0] != '/' && core[|core| - 1] != '/'
    requires forall i :: 0 <= i < |space| ==> IsBlank(space[i])
    requires forall i :: 0 <= i < |space'| ==> IsBlank(space'[i])
    requires forall i :: 0 <= i < |slashes| ==> slashes[i] == '/'
    requires forall i :: 0 <= i < |slashes'| ==> slashes'[i] == '/'
    requires slashes == "" ==> !IsBlank(core[0])
    requires slashes' == "" ==> !IsBlank(core[|core| - 1])
    ensures TrimKey(space + (slashes + core + slashes') + space') == core
  {
    hide Trim;
    TrimsEnds(space, slashes + core + slashes', space', IsSpace);
    TrimsEnds(slashes, core, slashes', IsSlash);
  }

  predicate IsPlain(key: string) {
    key != "" && TrimKey(key) == key
  }

  /** Distinct keys that are already trimmed and not empty are deleted exactly as given. */
  lemma {:induction false} PlainKeysAreKept(objectKeys: seq<string>)
    requires Distinct(objectKeys) && forall i :: 0 <= i < |objectKeys| ==> IsPlain(objectKeys[i])
    ensures Normalized(objectKeys) == objectKeys
  {
    hide TrimKey;
    if objectKeys != [] {
      var n := |objectKeys| - 1;
      PlainKeysAreKept(objectKeys[..n]);
      assert objectKeys == objectKeys[..n] + [objectKeys[n]];
    }
  }

  lemma {:induction false} NormalizedIsShorter(objectKeys: seq<string>)
    ensures |Normalized(objectKeys)| <= |objectKeys|
    ensures Normalized(objectKeys) == objectKeys ==> forall i :: 0 <= i < |objectKeys| ==> IsPlain(objectKeys[i])
  {
    hide TrimKey;
    if objectKeys != [] {
      var n := |objectKeys| - 1;
      NormalizedIsShorter(objectKeys[..n]);
      if Normalized(objectKeys) == objectKeys {
        assert objectKeys[..n] == Normalized(objectKeys[..n]);
        assert forall i :: 0 <= i < n ==> objectKeys[..n][i] == objectKeys[i];
      }
    }
  }

  /** What is asked for is what was given exactly when the keys are distinct, not empty and already trimmed. */
  lemma TakenLiterallyIff(objectKeys: seq<string>)
    ensures Normalized(objectKeys) == objectKeys <==>
              Distinct(objectKeys) && forall i :: 0 <= i < |objectKeys| ==> IsPlain(objectKeys[i])
  {
    hide IsPlain, Normalized;
    NormalizedIsShorter(objectKeys);
    NormalizedIsExact(objectKeys);
    if Distinct(objectKeys) && forall i :: 0 <= i < |objectKeys| ==> IsPlain(objectKeys[i]) {
      PlainKeysAreKept(objectKeys);
    }
  }

  method Normalize(objectKeys: seq<string>) returns (keys: seq<string>)
    ensures keys == Normalized(objectKeys)
  {
    hide TrimKey;
    keys := [];
    var seen := {};
    for i := 0 to |objectKeys|
      invariant keys == Normalized(objectKeys[..i])
      invariant forall key :: key in seen <==> key in keys
    {
      var trimmed := TrimKey(objectKeys[i]);
      assert objectKeys[..i + 1][..i] == objectKeys[..i];
      if trimmed == "" || trimmed in seen {
        continue;
      }
      seen, keys := seen + {trimmed}, keys + [trimmed];
    }
    assert objectKeys[..|objectKeys|] == objectKeys;
  }

  // ---- the whole call ----

  /**
   What holds between two batches: the keys so far are acknowledged, and after a rejection only
   single deletes were sent.
   */
  predicate Progress(keys: seq<string>, start: nat, useSingleObjectDeletes: bool, sent: seq<Exchange>) {
    && start <= |keys| && AckedKeys(sent) == keys[..start]
    && BulksAreSized(sent) && SwitchesOnce(sent)
    && (!useSingleObjectDeletes ==> NeverRejected(sent))
  }

  lemma OneByOne(keys: seq<string>, start: nat, end: nat, useSingle: bool, sent: seq<Exchange>, more: seq<Exchange>)
    requires Progress(keys, start, useSingle, sent) && start <= end <= |keys| && OnlySingles(more)
    ensures AckedKeys(more) == keys[start..end] ==> Progress(keys, end, true, sent + more)
    ensures BulksAreSized(sent + more) && SwitchesOnce(sent + more)
    ensures AckedKeys(more) < keys[start..end] ==> AckedKeys(sent + more) < keys
  {
    hide AckedKeys;
    AckedConcat(sent, more);
    var batch := keys[start..end];
    assert keys[..start] + batch == keys[..end];
    assert AckedKeys(more) < batch ==>
             forall i :: 0 <= i < |AckedKeys(more)| ==> AckedKeys(more)[i] == batch[..|AckedKeys(more)|][i];
  }

  lemma OneBulk(keys: seq<string>, start: nat, end: nat, sent: seq<Exchange>, failure: Option<Failure>,
                more: seq<Exchange>)
    requires Progress(keys, start, false, sent) && start < end <= |keys| && end <= start + DELETE_BATCH_SIZE
    requires Attempts(Bulk(keys[start..end]), failure, more)
    ensures failure.None? ==> Progress(keys, end, false, sent + more)
    ensures failure == Some(SchemaRejected) ==> Progress(keys, start, true, sent + more)
    ensures failure.Some? ==> AckedKeys(sent + more) < keys && BulksAreSized(sent + more) && SwitchesOnce(sent + more)
  {
    hide AckedKeys, IsTransient;
    AttemptsAck(Bulk(keys[start..end]), failure, more);
    AttemptsAreAlike(Bulk(keys[start..end]), failure, more);
    AttemptsSwitch(Bulk(keys[start..end]), failure, more);
    AckedConcat(sent, more);
    assert keys[..start] + keys[start..end] == keys[..end];
  }

  /**
   On success the acknowledged keys are exactly the normalized ones, in order; on any
   failure they are a proper prefix of them. A bulk request holds 1 to 1000 keys, and
   once one is rejected for its shape no other follows: what it held is redone key by key.
   */
  method DeleteObjects(world: World, now: nat, objectKeys: seq<string>)
    returns (failure: Option<Failure>, sent: seq<Exchange>, later: nat)
    ensures failure.None? ==> AckedKeys(sent) == Normalized(objectKeys)
    ensures failure.Some? ==> AckedKeys(sent) < Normalized(objectKeys)
    ensures BulksAreSized(sent) && SwitchesOnce(sent)
    ensures Genuine(world, now, later, sent)
    ensures failure == Some(Cancelled) ==> WasCancelled(world, now, later)
    ensures failure.Some? && failure != Some(Cancelled) ==> EndsFailed(sent)
  {
    var keys := Normalize(objectKeys);
    sent, later := [], now;
    NothingSent(world, now, now);
    var useSingleObjectDeletes := false;
    var start := 0;
    while start < |keys|
      invariant Progress(keys, start, useSingleObjectDeletes, sent) && Genuine(world, now, later, sent)
      decreases |keys| - start
    {
      hide AckedKeys, Attempts, Progress, OnlySingles, BulksAreSized, SwitchesOnce, Genuine, WasCancelled, EndsFailed;
      var end := if start + DELETE_BATCH_SIZE < |keys| then start + DELETE_BATCH_SIZE else |keys|;
      var batch := keys[start..end];
      if !useSingleObjectDeletes {
        var error, exchanges, after := Execute(world, later, Bulk(batch));
        OneBulk(keys, start, end, sent, error, exchanges);
        Chain(world, now, later, after, sent, exchanges);
        if error.Some? && error != Some(Cancelled) {
          FailureIsReported(Bulk(batch), error, sent, exchanges);
        }
        sent, later := sent + exchanges, after;
        if error.None? {
          start := end;
          continue;
        }
        if error != Some(SchemaRejected) {
          return error, sent, later;
        }
        useSingleObjectDeletes := true;
      }
      var error, exchanges, after := DeleteObjectsIndividually(world, later, batch);
      OneByOne(keys, start, end, useSingleObjectDeletes, sent, exchanges);
      Chain(world, now, later, after, sent, exchanges);
      if error.Some? && error != Some(Cancelled) {
        EndsAlike(sent, exchanges);
      }
      sent, later := sent + exchanges, after;
      if error.Some? {
        return error, sent, later;
      }
      start := end;
    }
    assert keys[..start] == keys;
    failure := None;
  }

  /**
   Once a bulk request was rejected for its shape, everything not acknowledged before it is
   acknowledged key by key after it.
   */
  lemma RejectedIsRedoneSingly(keys: seq<string>, sent: seq<Exchange>, i: nat)
    requires AckedKeys(sent) == keys && SwitchesOnce(sent)
    requires i < |sent| && RejectsSchema(sent[i])
    ensures OnlySingles(sent[i + 1..])
    ensures AckedKeys(sent[..i]) <= keys && AckedKeys(sent[i + 1..]) == keys[|AckedKeys(sent[..i])|..]
  {
    hide AckedKeys, RejectsSchema;
    var before, own, after := sent[..i], [sent[i]], sent[i + 1..];
    assert sent == before + (own + after);
    AckedConcat(before, own + after);
    AckedConcat(own, after);
    OneRejection(sent[i]);
    assert AckedKeys(before) + AckedKeys(after) == keys;
  }

  lemma OneRejection(exchange: Exchange)
    requires RejectsSchema(exchange)
    ensures AckedKeys([exchange]) == []
  {
    assert [exchange][..0] == [];
  }

  // ---- what really went ----

  function Gone(exchange: Exchange): set<string> {
    if exchange.reply.Acknowledged? then (set key | key in exchange.request.Keys()) - exchange.reply.refused else {}
  }

  function Removed(sent: seq<Exchange>): set<string> {
    if sent == [] then {} else Removed(sent[..|sent| - 1]) + Gone(sent[|sent| - 1])
  }

  /** No acknowledged bulk reply carried a refusal of one of its own keys. */
  predicate NothingRefused(sent: seq<Exchange>) {
    forall i, key :: 0 <= i < |sent| && sent[i].reply.Acknowledged? && key in sent[i].request.Keys() ==>
      key !in sent[i].reply.refused
  }

  /** No successful reply refused this key. */
  predicate NotRefused(sent: seq<Exchange>, key: string) {
    forall i :: 0 <= i < |sent| && sent[i].reply.Acknowledged? && key in sent[i].request.Keys() ==>
      key !in sent[i].reply.refused
  }

  /** One acknowledged key is gone unless a reply refused it, whatever happened to the others. */
  lemma {:induction false} AckedIsRemoved(sent: seq<Exchange>, key: string)
    requires key in AckedKeys(sent) && NotRefused(sent, key)
    ensures key in Removed(sent)
  {
    var front, last := sent[..|sent| - 1], sent[|sent| - 1];
    assert forall i :: 0 <= i < |front| ==> front[i] == sent[i];
    if key in AckedKeys(front) {
      AckedIsRemoved(front, key);
    } else {
      assert key in Acked(last);
    }
  }

  /** A key acknowledged once is gone only if no reply refused it. */
  lemma {:induction false} RemovedIsNotRefused(sent: seq<Exchange>, key: string)
    requires Distinct(AckedKeys(sent)) && key in Removed(sent)
    ensures NotRefused(sent, key)
  {
    var front, last := sent[..|sent| - 1], sent[|sent| - 1];
    assert front + [last] == sent;
    assert forall i :: 0 <= i < |front| ==> sent[i] == front[i];
    DistinctParts(AckedKeys(front), Acked(last));
    if key in Removed(front) {
      RemovedIsNotRefused(front, key);
      RemovedAreAcked(front);
      assert key !in Acked(last);
    } else {
      UnackedIsNotRefused(front, key);
    }
  }

  /** No successful reply answers for a key that none acknowledged. */
  lemma {:induction false} UnackedIsNotRefused(sent: seq<Exchange>, key: string)
    requires key !in AckedKeys(sent)
    ensures NotRefused(sent, key)
  {
    if sent != [] {
      var front := sent[..|sent| - 1];
      assert forall i :: 0 <= i < |front| ==> sent[i] == front[i];
      UnackedIsNotRefused(front, key);
    }
  }

  lemma {:induction false} RemovedAreAcked(sent: seq<Exchange>)
    ensures Removed(sent) <= set key | key in AckedKeys(sent)
  {
    if sent != [] {
      RemovedAreAcked(sent[..|sent| - 1]);
    }
  }

  /** After a successful delete a key asked for is gone exactly when no reply refused it. */
  lemma AckedIsGoneIff(sent: seq<Exchange>, key: string)
    requires Distinct(AckedKeys(sent))
    ensures key in AckedKeys(sent) ==> (key in Removed(sent) <==> NotRefused(sent, key))
  {
    hide AckedKeys, Removed, NotRefused, Distinct;
    if key in AckedKeys(sent) && NotRefused(sent, key) {
      AckedIsRemoved(sent, key);
    }
    if key in Removed(sent) {
      RemovedIsNotRefused(sent, key);
    }
  }

  /**
   The refusals inside a successful bulk reply are dropped unread, so success means
   "deleted" exactly when no reply carried one.
   */
  lemma {:induction false} SuccessDeletesIff(sent: seq<Exchange>)
    requires Distinct(AckedKeys(sent))
    ensures Removed(sent) == (set key | key in AckedKeys(sent)) <==> NothingRefused(sent)
  {
    if sent != [] {
      hide NothingRefused, Gone, Acked, Distinct;
      var front, last := sent[..|sent| - 1], sent[|sent| - 1];
      DistinctParts(AckedKeys(front), Acked(last));
      SuccessDeletesIff(front);
      RemovedAreAcked(front);
      RefusedNowOrBefore(front, last);
      LastRefused(last);
      assert front + [last] == sent;
      UnionIsWhole(Removed(front), Gone(last), AckedKeys(front), Acked(last));
    }
  }

  lemma LastRefused(last: Exchange)
    ensures NothingRefused([last]) <==> Gone(last) == set key | key in Acked(last)
    ensures Gone(last) <= set key | key in Acked(last)
  {
    assert NothingRefused([last]) <==>
             (last.reply.Acknowledged? ==>
                forall key :: key in last.request.Keys() ==> key !in last.reply.refused) by {
      assert [last][0] == last;
    }
  }

  lemma RefusedNowOrBefore(front: seq<Exchange>, last: Exchange)
    ensures NothingRefused(front + [last]) <==> NothingRefused(front) && NothingRefused([last])
  {
    var sent := front + [last];
    assert sent[|front|] == [last][0] == last;
    assert forall i :: 0 <= i < |front| ==> sent[i] == front[i];
  }

  /** Two parts of two disjoint lists make up both exactly when each makes up its own. */
  lemma UnionIsWhole(a: set<string>, b: set<string>, before: seq<string>, now: seq<string>)
    requires a <= (set key | key in before) && b <= (set key | key in now)
    requires forall i, j :: 0 <= i < |before| && 0 <= j < |now| ==> before[i] != now[j]
    ensures a + b == (set key | key in before + now) <==> a == (set key | key in before) && b == (set key | key in now)
  {
  }

  // ---- a provider that refuses everything and says so ----

  /** Never cancelled, and every reply a success that refuses these keys. */
  function StubbornWorld(refused: set<string>): World {
    World((at, request) => Acknowledged(refused), at => false)
  }

  lemma {:induction false} NothingGone(sent: seq<Exchange>, refused: set<string>)
    requires forall i :: 0 <= i < |sent| ==> sent[i].reply == Acknowledged(refused)
    ensures Removed(sent) !! refused
  {
    if sent != [] {
      NothingGone(sent[..|sent| - 1], refused);
    }
  }

  /** Whatever list is given, the delete can return nil with every key acknowledged and none of them gone. */
  method RefusalsGoUnnoticed(objectKeys: seq<string>) returns (failure: Option<Failure>, sent: seq<Exchange>)
    ensures failure.None? && AckedKeys(sent) == Normalized(objectKeys) && Removed(sent) == {}
  {
    hide Normalized, AckedKeys, Removed, BulksAreSized, SwitchesOnce;
    var keys := Normalize(objectKeys);
    var world := StubbornWorld(SetOf(keys));
    var later;
    failure, sent, later := DeleteObjects(world, 0, objectKeys);
    NothingGone(sent, SetOf(keys));
    RemovedAreAcked(sent);
  }
}
