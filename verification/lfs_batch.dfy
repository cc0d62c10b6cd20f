/**
 The Git LFS batch exchange and one download pass over its answer
 (internal/lfs/batch.go). The endpoint, the transfers, the digest, the clock and
 the context are the World: functions of a tick that advances with every
 interaction, so they may answer differently each time they are asked.
 */
module LfsBatch {
  import opened Wrappers
  import opened Text
  import opened Collections

  type Bytes = seq<Byte>

  datatype Pointer = Pointer(oid: string, size: int)

  /** expiresAt is the parsed RFC 3339 instant, None when absent or unparseable. */
  datatype Action = Action(href: string, expiresAt: Option<int>, expiresIn: int)

  datatype ReplyObject = ReplyObject(oid: string, size: int, error: Option<string>, download: Option<Action>)

  /** decoded is None when the body is not a batch response. */
  datatype HttpReply = NoResponse | Response(status: int, decoded: Option<seq<ReplyObject>>)

  /** Broken stands for every failure before the digest is compared. */
  datatype Transfer = Broken | Streamed(body: Bytes, renamed: bool)

  datatype World = World(
    digest: Bytes -> string,
    batchReply: (nat, seq<Pointer>) -> HttpReply,
    transfer: (nat, string) -> Transfer,
    cancelled: nat -> bool,
    now: nat -> int)

  /** What the store directory holds under an object's name. */
  datatype Entry = File(content: Bytes) | NotRegular

  type Store = map<string, Entry>

  datatype Error =
    | Cancelled
    | RequestFailed
    | BatchRejected(status: int)
    | NarrowedToSingleton(cause: Error)
    | AllRejected(cause: Error)
    | TransferFailed(oid: string)
    | ChunkFailed(failed: nat, scheduled: nat, first: Error)
    | ObjectsMissing(missing: nat, total: nat, skipped: Option<Reason>)

  /** Why an object was passed over; the endpoint, not this client, is at fault. */
  datatype Reason =
    | Unserved(named: string)
    | NoFreshUrl(oid: string, cause: Error)
    | Lapsed(oid: string)
    | SingleRejected(oid: string)

  datatype BatchResult = Scheduled(objects: seq<ReplyObject>) | Refused(error: Error)

  /** One batch request and how it was settled. */
  datatype BatchEvent = BatchEvent(asked: seq<Pointer>, result: BatchResult, refresh: bool)

  datatype State = State(store: Store, tick: nat, log: seq<BatchEvent>)

  // ---- the batch request ----

  predicate DescribesRequestShape(status: int) {
    status in {400, 406, 413, 415, 422}
  }

  function Settle(asked: seq<Pointer>, reply: HttpReply): (r: BatchResult)
    ensures r.Scheduled? ==> |r.objects| == |asked|
  {
    if reply.NoResponse? then Refused(RequestFailed)
    else if reply.status != 200 then
      if DescribesRequestShape(reply.status) then Refused(BatchRejected(reply.status)) else Refused(RequestFailed)
    else if reply.decoded.None? || |reply.decoded.value| != |asked| then Refused(RequestFailed)
    else Scheduled(reply.decoded.value)
  }

  function AfterBatch(w: World, st: State, asked: seq<Pointer>, refresh: bool): (r: (State, BatchResult))
    ensures r.1.Scheduled? ==> |r.1.objects| == |asked|
  {
    var result := Settle(asked, w.batchReply(st.tick, asked));
    (st.(tick := st.tick + 1, log := st.log + [BatchEvent(asked, result, refresh)]), result)
  }

  // ---- one object of the answer ----

  function Oids(ps: seq<Pointer>): (r: seq<string>)
    ensures |r| == |ps| && forall i :: 0 <= i < |ps| ==> r[i] == ps[i].oid
  {
    seq(|ps|, i requires 0 <= i < |ps| => ps[i].oid)
  }

  function OidSet(ps: seq<Pointer>): set<string> {
    set p | p in ps :: p.oid
  }

  /** The oid-to-size table of a request; a later pointer overrides an earlier one. */
  function WantedSizes(want: seq<Pointer>): (m: map<string, int>)
    ensures m.Keys == OidSet(want)
  {
    if want == [] then map[]
    else
      var n := |want| - 1;
      assert want == want[..n] + [want[n]];
      WantedSizes(want[..n])[want[n].oid := want[n].size]
  }

  lemma {:induction false} LastSizeWins(want: seq<Pointer>, i: nat)
    requires i < |want| && forall j :: i < j < |want| ==> want[j].oid != want[i].oid
    ensures WantedSizes(want)[want[i].oid] == want[i].size
  {
    var n := |want| - 1;
    assert want == want[..n] + [want[n]];
    if i < n {
      assert want[..n][i] == want[i] && want[n].oid != want[i].oid;
      hide OidSet;
      LastSizeWins(want[..n], i);
    }
  }

  /** The canonical oid the endpoint answered for, or None when it will not serve the object. */
  function Answered(requested: set<string>, o: ReplyObject): (r: Option<string>)
    ensures r.Some? ==> r.value == ToLower(o.oid) && r.value in requested && o.download.Some?
  {
    if o.error.Some? then None
    else if o.download.None? || o.download.value.href == "" then None
    else if !IsSha256Hex(o.oid) || ToLower(o.oid) !in requested then None
    else Some(ToLower(o.oid))
  }

  /** A stated expiry instant is authoritative; otherwise a negative relative one has lapsed. */
  predicate Expired(a: Action, now: int) {
    if a.expiresAt.Some? then a.expiresAt.value <= now else a.expiresIn < 0
  }

  function ResolvedSize(wanted: map<string, int>, oid: string, stated: int): int {
    if oid in wanted && wanted[oid] > 0 then wanted[oid] else stated
  }

  predicate IsCached(store: Store, oid: string, size: int) {
    oid in store && store[oid].File? && (size == 0 || |store[oid].content| == size)
  }

  /** One object's transfer: the digest is verified before the file is renamed into place. */
  function AfterDownload(w: World, store: Store, tick: nat, oid: string): (r: (Store, Option<Error>)) {
    match w.transfer(tick, oid)
    case Broken => (store, Some(TransferFailed(oid)))
    case Streamed(body, renamed) =>
      if w.digest(body) == oid && renamed then (store[oid := File(body)], None)
      else (store, Some(TransferFailed(oid)))
  }

  // ---- one pass over the answer ----

  /** settled lists the oids found cached or stored by this pass. */
  datatype Pass = Pass(
    store: Store,
    tick: nat,
    expired: seq<Pointer>,
    unavailable: seq<string>,
    failed: seq<Error>,
    settled: seq<string>,
    stopped: bool)

  function AfterObject(w: World, wanted: map<string, int>, p: Pass, o: ReplyObject): Pass {
    if p.stopped then p
    else if w.cancelled(p.tick) then p.(tick := p.tick + 1, failed := p.failed + [Cancelled], stopped := true)
    else
      var q := p.(tick := p.tick + 1);
      match Answered(wanted.Keys, o)
      case None => q.(unavailable := p.unavailable + [o.oid])
      case Some(oid) =>
        var size := ResolvedSize(wanted, oid, o.size);
        if IsCached(p.store, oid, size) then q.(settled := p.settled + [oid])
        else if Expired(o.download.value, w.now(p.tick)) then q.(expired := p.expired + [Pointer(oid, size)])
        else
          var (store, error) := AfterDownload(w, p.store, p.tick, oid);
          match error
          case None => q.(store := store, settled := p.settled + [oid])
          case Some(e) => q.(store := store, failed := p.failed + [e])
  }

  function AfterObjects(w: World, wanted: map<string, int>, store: Store, tick: nat, objects: seq<ReplyObject>): Pass {
    if objects == [] then Pass(store, tick, [], [], [], [], false)
    else
      AfterObject(w, wanted, AfterObjects(w, wanted, store, tick, objects[..|objects| - 1]), objects[|objects| - 1])
  }

  // ---- what a pass keeps ----

  predicate Held(store: Store, oid: string) {
    oid in store && store[oid].File?
  }

  /** Every regular file is the content its name is the digest of. */
  ghost predicate Sound(w: World, store: Store) {
    forall oid :: Held(store, oid) ==> w.digest(store[oid].content) == oid
  }

  /** Nothing is lost, and whatever changed has a requested name that is its digest. */
  ghost predicate GrowsSoundly(w: World, before: Store, after: Store, names: set<string>) {
    && before.Keys <= after.Keys <= before.Keys + names
    && forall oid :: oid in after ==>
         || (oid in before && after[oid] == before[oid])
         || (oid in names && after[oid].File? && w.digest(after[oid].content) == oid)
  }

  lemma GrowsTransitively(w: World, a: Store, b: Store, c: Store, names: set<string>)
    requires GrowsSoundly(w, a, b, names) && GrowsSoundly(w, b, c, names)
    ensures GrowsSoundly(w, a, c, names)
  {
  }

  lemma GrowsKeepsSound(w: World, before: Store, after: Store, names: set<string>)
    requires GrowsSoundly(w, before, after, names) && Sound(w, before)
    ensures Sound(w, after)
  {
  }

  lemma InsertDistinct<T>(a: seq<T>, b: seq<T>, x: T)
    requires Distinct(a + b) && x !in a + b
    ensures Distinct(a + [x] + b)
  {
    var s, t := a + b, a + [x] + b;
    forall i, j | 0 <= i < j < |t| ensures t[i] != t[j] {
      assert i < |a| ==> t[i] == s[i];
      assert i > |a| ==> t[i] == s[i - 1];
      assert j < |a| ==> t[j] == s[j];
      assert j > |a| ==> t[j] == s[j - 1];
    }
  }

  /** The oids the reply answers for, in the store's spelling; entries that serve nothing requested name none. */
  function AnsweredOids(requested: set<string>, objects: seq<ReplyObject>): seq<string> {
    if objects == [] then []
    else
      var before := AnsweredOids(requested, objects[..|objects| - 1]);
      match Answered(requested, objects[|objects| - 1])
      case None => before
      case Some(oid) => before + [oid]
  }

  /** One object's handling grows the store soundly and keeps what is held; whatever it settles is held. */
  lemma ObjectGrows(w: World, wanted: map<string, int>, p: Pass, o: ReplyObject)
    ensures var q := AfterObject(w, wanted, p, o);
            && GrowsSoundly(w, p.store, q.store, wanted.Keys)
            && (forall oid :: Held(p.store, oid) ==> Held(q.store, oid))
            && (q.settled == p.settled || (Held(q.store, ToLower(o.oid)) && q.settled == p.settled + [ToLower(o.oid)]))
  {
  }

  /** Every pass grows the store soundly, and holds what it settled. */
  lemma {:induction false} PassGrows(w: World, wanted: map<string, int>, store: Store, tick: nat,
                                     objects: seq<ReplyObject>)
    ensures var p := AfterObjects(w, wanted, store, tick, objects);
            && GrowsSoundly(w, store, p.store, wanted.Keys)
            && (forall oid :: oid in p.settled ==> Held(p.store, oid))
  {
    if objects != [] {
      var n := |objects| - 1;
      PassGrows(w, wanted, store, tick, objects[..n]);
      var before := AfterObjects(w, wanted, store, tick, objects[..n]);
      var p := AfterObjects(w, wanted, store, tick, objects);
      assert p == AfterObject(w, wanted, before, objects[n]);
      ObjectGrows(w, wanted, before, objects[n]);
      GrowsTransitively(w, store, before.store, p.store, wanted.Keys);
    }
  }

  /** A pass settles only what the reply answers for, and brings nothing else into the store. */
  lemma {:induction false} PassAdds(w: World, wanted: map<string, int>, store: Store, tick: nat,
                                    objects: seq<ReplyObject>)
    ensures var p := AfterObjects(w, wanted, store, tick, objects);
            && (forall oid :: oid in p.settled ==> oid in AnsweredOids(wanted.Keys, objects))
            && (forall oid :: Held(p.store, oid) ==> Held(store, oid) || oid in p.settled)
  {
    if objects != [] {
      var n := |objects| - 1;
      PassAdds(w, wanted, store, tick, objects[..n]);
      ObjectAdds(w, wanted, AfterObjects(w, wanted, store, tick, objects[..n]), objects[n]);
      hide AfterObject;
    }
  }

  /**
   Handling an object settles or sends back at most the oid it is answered under, and stores
   nothing it does not settle.
   */
  lemma ObjectAdds(w: World, wanted: map<string, int>, p: Pass, o: ReplyObject)
    ensures var q, answer := AfterObject(w, wanted, p, o), Answered(wanted.Keys, o);
            && (|| (q.settled == p.settled && Oids(q.expired) == Oids(p.expired))
                || (answer.Some? && q.settled == p.settled + [answer.value] && Oids(q.expired) == Oids(p.expired))
                || (answer.Some? && q.settled == p.settled && Oids(q.expired) == Oids(p.expired) + [answer.value]))
            && (forall oid :: Held(q.store, oid) ==> Held(p.store, oid) || oid in q.settled)
  {
  }

  /** Handling an object adds to exactly one of the four lists, unless the pass is stopped. */
  lemma ObjectCounts(w: World, wanted: map<string, int>, p: Pass, o: ReplyObject)
    ensures var q := AfterObject(w, wanted, p, o);
            && (forall oid :: oid in q.settled ==> oid in p.settled || oid in wanted)
            && (forall e :: e in q.expired ==> e in p.expired || e.oid in wanted)
            && (forall e :: e in q.failed ==> e in p.failed || e.Cancelled? || e.TransferFailed?)
            && (q.stopped && !p.stopped ==> q.failed != []) && (p.stopped ==> q == p)
            && (!q.stopped ==> |q.settled| + |q.expired| + |q.unavailable| + |q.failed|
                               == |p.settled| + |p.expired| + |p.unavailable| + |p.failed| + 1)
            && |q.expired| + |q.unavailable| <= |p.expired| + |p.unavailable| + 1
  {
  }

  /**
   The four lists of a pass account for every object unless it was cancelled,
   which leaves an error; only requested objects are sent back as lapsed.
   */
  lemma {:induction false} PassCounts(w: World, wanted: map<string, int>, store: Store, tick: nat,
                                      objects: seq<ReplyObject>)
    ensures var p := AfterObjects(w, wanted, store, tick, objects);
            && (forall oid :: oid in p.settled ==> oid in wanted)
            && (forall e :: e in p.expired ==> e.oid in wanted)
            && (forall e :: e in p.failed ==> e.Cancelled? || e.TransferFailed?)
            && (p.stopped ==> p.failed != [])
            && (!p.stopped ==> |p.settled| + |p.expired| + |p.unavailable| + |p.failed| == |objects|)
            && |p.expired| + |p.unavailable| <= |objects|
  {
    if objects != [] {
      var n := |objects| - 1;
      PassCounts(w, wanted, store, tick, objects[..n]);
      ObjectCounts(w, wanted, AfterObjects(w, wanted, store, tick, objects[..n]), objects[n]);
      hide AfterObject;
    }
  }

  lemma AddOnce(a: seq<string>, b: seq<string>, a': seq<string>, b': seq<string>, x: string)
    requires Distinct(a + b) && x !in a + b
    requires (a' == a && b' == b) || (a' == a + [x] && b' == b) || (a' == a && b' == b + [x])
    ensures Distinct(a' + b')
    ensures forall y :: y in a' + b' ==> y == x || y in a + b
  {
    if a' != a {
      InsertDistinct(a, b, x);
    } else if b' != b {
      assert a + b + [] == a + b;
      InsertDistinct(a + b, [], x);
      assert a' + b' == a + b + [x] + [];
    }
  }

  /** When the reply answers for each oid at most once, no oid is settled or sent back twice. */
  lemma {:induction false} PassIsDistinct(w: World, wanted: map<string, int>, store: Store, tick: nat,
                                          objects: seq<ReplyObject>)
    requires Distinct(AnsweredOids(wanted.Keys, objects))
    ensures var p := AfterObjects(w, wanted, store, tick, objects);
            && Distinct(p.settled + Oids(p.expired))
            && forall oid :: oid in p.settled + Oids(p.expired) ==> oid in AnsweredOids(wanted.Keys, objects)
  {
    if objects != [] {
      var n := |objects| - 1;
      var oids := AnsweredOids(wanted.Keys, objects);
      var before := AfterObjects(w, wanted, store, tick, objects[..n]);
      var p := AfterObjects(w, wanted, store, tick, objects);
      var answer := Answered(wanted.Keys, objects[n]);
      hide AfterObject, Answered;
      if answer.Some? {
        DistinctInit(oids);
      }
      PassIsDistinct(w, wanted, store, tick, objects[..n]);
      ObjectAdds(w, wanted, before, objects[n]);
      if answer.Some? {
        AddOnce(before.settled, Oids(before.expired), p.settled, Oids(p.expired), answer.value);
      }
    }
  }
}
