/**
 The scan over the whole history (internal/lfs/scan.go, collectPointers): every ref's
 tip, every commit behind it, every tree of those, and what a finished scan means for
 the fetch that follows.
 */
module Collect {
  import opened Wrappers
  import opened Text
  import opened Collections
  import opened LfsBatch
  import opened PointerFile
  import opened Scan
  import LfsFetch
  import LfsTheorems
  import LfsSweep

  datatype ScanResult = Scanned(pointers: seq<Pointer>, skipped: seq<Node>) | Interrupted | TreeUnreadable(tree: Hash)

  ghost predicate RootTreesReadable(repo: Repo)
    requires repo.Valid()
  {
    forall c :: Reached(repo, CommitNode(c)) && c in repo.commits ==> repo.commits[c].tree in repo.trees
  }

  predicate HasUnreadableTree(repo: Repo, c: Hash, tree: Hash) {
    c in repo.commits && repo.commits[c].tree == tree && tree !in repo.trees
  }

  predicate Known(h: Hash, seenCommits: set<Hash>, queue: seq<Hash>) {
    h in seenCommits || h in queue
  }

  /** A seen commit is unreadable, or its tree is walked and its parents are known. */
  predicate CommitDone(repo: Repo, c: Hash, seenCommits: set<Hash>, queue: seq<Hash>, seenTrees: set<Hash>) {
    c in repo.commits ==>
      && repo.commits[c].tree in seenTrees && repo.commits[c].tree in repo.trees
      && forall i :: 0 <= i < |repo.commits[c].parents| && repo.commits[c].parents[i] != 0 ==>
           Known(repo.commits[c].parents[i], seenCommits, queue)
  }

  ghost predicate Queued(repo: Repo, seenCommits: set<Hash>, queue: seq<Hash>)
    requires repo.Valid()
  {
    && (forall h :: h in queue ==> Reached(repo, CommitNode(h)))
    && (forall h :: h in seenCommits ==> Reached(repo, CommitNode(h)))
    && (forall n :: IsRoot(repo, n) ==> Known(n.hash, seenCommits, queue))
  }

  ghost predicate CommitsDone(repo: Repo, seenCommits: set<Hash>, queue: seq<Hash>, seenTrees: set<Hash>) {
    forall c :: c in seenCommits ==> CommitDone(repo, c, seenCommits, queue, seenTrees)
  }

  /** The tips of the refs that are neither symbolic nor remote. */
  method QueueTips(repo: Repo, cancelled: nat -> bool) returns (tips: Option<seq<Hash>>)
    requires repo.Valid()
    ensures tips.None? <==> exists i :: 0 <= i < |repo.refs| && IsLocal(repo.refs[i]) && cancelled(i)
    ensures tips.Some? ==> forall h :: h in tips.value <==> IsRoot(repo, CommitNode(h))
  {
    var queue := [];
    for i := 0 to |repo.refs|
      invariant forall j :: 0 <= j < i && IsLocal(repo.refs[j]) ==> !cancelled(j)
      invariant forall h :: h in queue <==>
        h != 0 && exists j :: 0 <= j < i && IsLocal(repo.refs[j]) && Peel(repo, repo.refs[j].hash) == h
    {
      var ref := repo.refs[i];
      if ref.symbolic || ref.remote {
        continue;
      }
      var tip := Peel(repo, ref.hash);
      if tip != 0 {
        queue := queue + [tip];
      }
      if cancelled(i) {
        return None;
      }
    }
    tips := Some(queue);
  }

  /** A commit's parents not seen yet go on the queue. */
  method Enqueue(parents: seq<Hash>, seenCommits: set<Hash>, queue0: seq<Hash>) returns (queue: seq<Hash>)
    ensures forall h :: h in queue0 ==> h in queue
    ensures forall h :: h in queue ==> h in queue0 || (h != 0 && h in parents)
    ensures forall i :: 0 <= i < |parents| && parents[i] != 0 ==> Known(parents[i], seenCommits, queue)
  {
    queue := queue0;
    for i := 0 to |parents|
      invariant forall h :: h in queue0 ==> h in queue
      invariant forall h :: h in queue ==> h in queue0 || (h != 0 && h in parents)
      invariant forall j :: 0 <= j < i && parents[j] != 0 ==> Known(parents[j], seenCommits, queue)
    {
      if parents[i] != 0 && parents[i] !in seenCommits {
        queue := queue + [parents[i]];
      }
    }
  }

  lemma QueueMoves(repo: Repo, seenCommits: set<Hash>, queue: seq<Hash>, seenTrees: set<Hash>,
                   hash: Hash, queue': seq<Hash>, seenTrees': set<Hash>)
    requires CommitsDone(repo, seenCommits, queue + [hash], seenTrees)
    requires seenTrees <= seenTrees' && forall h :: h in queue ==> h in queue'
    requires CommitDone(repo, hash, seenCommits + {hash}, queue', seenTrees')
    ensures CommitsDone(repo, seenCommits + {hash}, queue', seenTrees')
  {
  }

  lemma QueueStaysReached(repo: Repo, seenCommits: set<Hash>, queue: seq<Hash>, hash: Hash, queue': seq<Hash>)
    requires repo.Valid() && Queued(repo, seenCommits, queue + [hash])
    requires forall h :: h in queue ==> h in queue'
    requires forall h :: h in queue' ==>
              h in queue || (hash in repo.commits && h != 0 && h in repo.commits[hash].parents)
    ensures Queued(repo, seenCommits + {hash}, queue')
  {
    hide Reached, IsRoot;
    forall h | h in queue' && h !in queue ensures Reached(repo, CommitNode(h)) {
      EdgeIsReached(repo, CommitNode(hash), CommitNode(h));
    }
  }

  // ---- a finished walk ----

  predicate Seen(n: Node, seenCommits: set<Hash>, seenTrees: set<Hash>, seenBlobs: set<Hash>) {
    match n
    case CommitNode(h) => h in seenCommits
    case TreeNode(h) => h in seenTrees
    case BlobNode(h) => h in seenBlobs
  }

  function SeenNodes(seenCommits: set<Hash>, seenTrees: set<Hash>, seenBlobs: set<Hash>): (s: set<Node>)
    ensures forall n :: n in s <==> Seen(n, seenCommits, seenTrees, seenBlobs)
  {
    (set h | h in seenCommits :: CommitNode(h)) + (set h | h in seenTrees :: TreeNode(h))
    + (set h | h in seenBlobs :: BlobNode(h))
  }

  lemma FinishedIsClosed(repo: Repo, seenCommits: set<Hash>, seenTrees: set<Hash>, seenBlobs: set<Hash>)
    requires repo.Valid() && Queued(repo, seenCommits, [])
    requires CommitsDone(repo, seenCommits, [], seenTrees) && Covered(repo, seenTrees, seenBlobs, [])
    ensures Closed(repo, SeenNodes(seenCommits, seenTrees, seenBlobs))
  {
  }

  lemma FinishedIsExact(repo: Repo, seenCommits: set<Hash>, seenTrees: set<Hash>, seenBlobs: set<Hash>,
                        seenPointers: set<string>,
                        pointers: seq<Pointer>, skipped: seq<Node>)
    requires repo.Valid() && Queued(repo, seenCommits, [])
    requires CommitsDone(repo, seenCommits, [], seenTrees) && Covered(repo, seenTrees, seenBlobs, [])
    requires Tally(repo, seenTrees, seenBlobs, seenPointers, pointers, skipped)
    requires AllReached(repo, seenTrees, seenBlobs)
    ensures ExactScan(repo, pointers, skipped) && RootTreesReadable(repo)
  {
    hide Reached, Closed, Covered, SeenNodes, Tally, CommitsDone, Queued, IsRoot, ExactScan, AllReached;
    var s := SeenNodes(seenCommits, seenTrees, seenBlobs);
    FinishedIsClosed(repo, seenCommits, seenTrees, seenBlobs);
    forall n | Reached(repo, n) ensures Seen(n, seenCommits, seenTrees, seenBlobs) {
      ClosedHoldsReached(repo, s, n);
    }
    ReachedIsSeen(repo, seenCommits, seenTrees, seenBlobs);
    TallyIsExact(repo, seenCommits, seenTrees, seenBlobs, seenPointers, pointers, skipped);
    ReadableRoots(repo, seenCommits, seenTrees);
  }

  lemma ReachedIsSeen(repo: Repo, seenCommits: set<Hash>, seenTrees: set<Hash>, seenBlobs: set<Hash>)
    requires repo.Valid() && Queued(repo, seenCommits, []) && AllReached(repo, seenTrees, seenBlobs)
    requires forall n :: Reached(repo, n) ==> Seen(n, seenCommits, seenTrees, seenBlobs)
    ensures forall n :: Reached(repo, n) <==> Seen(n, seenCommits, seenTrees, seenBlobs)
  {
  }

  lemma TallyIsExact(repo: Repo, seenCommits: set<Hash>, seenTrees: set<Hash>, seenBlobs: set<Hash>,
                     seenPointers: set<string>,
                     pointers: seq<Pointer>, skipped: seq<Node>)
    requires repo.Valid() && Tally(repo, seenTrees, seenBlobs, seenPointers, pointers, skipped)
    requires forall n :: Reached(repo, n) <==> Seen(n, seenCommits, seenTrees, seenBlobs)
    ensures ExactScan(repo, pointers, skipped)
  {
    hide Reached, BlobPointer, Oids, Distinct;
  }

  lemma ReadableRoots(repo: Repo, seenCommits: set<Hash>, seenTrees: set<Hash>)
    requires repo.Valid() && CommitsDone(repo, seenCommits, [], seenTrees)
    requires forall c :: Reached(repo, CommitNode(c)) ==> c in seenCommits
    ensures RootTreesReadable(repo)
  {
  }

  /**
   The whole scan: exact when it finishes, and it finishes unless it is cancelled or
   the root tree of a reached commit cannot be read.
   */
  method CollectPointers(repo: Repo, cancelled: nat -> bool) returns (result: ScanResult)
    requires repo.Valid()
    ensures result.Scanned? ==> ExactScan(repo, result.pointers, result.skipped) && RootTreesReadable(repo)
    ensures result.TreeUnreadable? ==>
              exists c :: Reached(repo, CommitNode(c)) && HasUnreadableTree(repo, c, result.tree)
    ensures result.Interrupted? ==> exists k :: cancelled(k)
  {
    hide Reached, Queued, CommitsDone, CommitDone, Covered, IsRoot, ExactScan, RootTreesReadable, Tally, AllReached;
    var scanner := new Scanner(repo);
    var tips := QueueTips(repo, cancelled);
    if tips.None? {
      return Interrupted;
    }
    var queue := tips.value;
    var seenCommits: set<Hash> := {};
    var tick: nat := |repo.refs|;
    StartsQueued(repo, queue);
    NothingSeen(repo);
    while |queue| > 0
      invariant scanner.Valid() && scanner.repo == repo && fresh(scanner)
      invariant Covered(repo, scanner.seenTrees, scanner.seenBlobs, [])
      invariant Queued(repo, seenCommits, queue) && CommitsDone(repo, seenCommits, queue, scanner.seenTrees)
      decreases repo.commits.Keys - seenCommits, |queue|
    {
      hide Scanner.Valid;
      tick := tick + 1;
      if cancelled(tick) {
        return Interrupted;
      }
      var hash := queue[|queue| - 1];
      var rest := queue[..|queue| - 1];
      assert rest + [hash] == queue;
      if hash in seenCommits {
        AlreadySeen(repo, seenCommits, rest, hash, scanner.seenTrees);
        queue := rest;
        continue;
      }
      ghost var trees, before := scanner.seenTrees, seenCommits;
      seenCommits := seenCommits + {hash};
      QueuedIsReached(repo, before, rest, hash);
      if hash !in repo.commits {
        UnreadableIsDone(repo, hash, seenCommits, rest, trees);
        QueueMoves(repo, before, rest, trees, hash, rest, trees);
        QueueStaysReached(repo, before, rest, hash, rest);
        assert repo.commits.Keys - seenCommits == repo.commits.Keys - before;
        queue := rest;
        continue;
      }
      var commit := repo.commits[hash];
      TreeIsReached(repo, hash);
      var ok := scanner.ScanTree(commit.tree);
      if !ok {
        return TreeUnreadable(commit.tree);
      }
      queue := Enqueue(commit.parents, seenCommits, rest);
      ScannedIsDone(repo, hash, seenCommits, queue, scanner.seenTrees);
      QueueMoves(repo, before, rest, trees, hash, queue, scanner.seenTrees);
      QueueStaysReached(repo, before, rest, hash, queue);
      assert hash in repo.commits.Keys - before;
    }
    assert queue == [];
    FinishedIsExact(repo, seenCommits, scanner.seenTrees, scanner.seenBlobs, scanner.seenPointers,
                    scanner.pointers, scanner.skipped);
    result := Scanned(scanner.pointers, scanner.skipped);
  }

  lemma StartsQueued(repo: Repo, queue: seq<Hash>)
    requires repo.Valid() && forall h :: h in queue <==> IsRoot(repo, CommitNode(h))
    ensures Queued(repo, {}, queue)
  {
    hide Reached;
    forall h | h in queue ensures Reached(repo, CommitNode(h)) {
      RootIsReached(repo, CommitNode(h));
    }
    forall n | IsRoot(repo, n) ensures n.hash in queue {
      assert n == CommitNode(n.hash);
    }
  }

  lemma NothingSeen(repo: Repo)
    ensures forall queue :: CommitsDone(repo, {}, queue, {})
    ensures Covered(repo, {}, {}, [])
  {
  }

  lemma AlreadySeen(repo: Repo, seenCommits: set<Hash>, rest: seq<Hash>, hash: Hash, seenTrees: set<Hash>)
    requires repo.Valid() && hash in seenCommits
    requires Queued(repo, seenCommits, rest + [hash]) && CommitsDone(repo, seenCommits, rest + [hash], seenTrees)
    ensures Queued(repo, seenCommits, rest) && CommitsDone(repo, seenCommits, rest, seenTrees)
  {
    hide Reached, IsRoot;
    assert forall h :: Known(h, seenCommits, rest + [hash]) ==> Known(h, seenCommits, rest);
  }

  lemma QueuedIsReached(repo: Repo, seenCommits: set<Hash>, rest: seq<Hash>, hash: Hash)
    requires repo.Valid() && Queued(repo, seenCommits, rest + [hash])
    ensures Reached(repo, CommitNode(hash))
  {
  }

  lemma UnreadableIsDone(repo: Repo, hash: Hash, seenCommits: set<Hash>, queue: seq<Hash>, seenTrees: set<Hash>)
    requires hash !in repo.commits
    ensures CommitDone(repo, hash, seenCommits, queue, seenTrees)
  {
  }

  lemma ScannedIsDone(repo: Repo, hash: Hash, seenCommits: set<Hash>, queue: seq<Hash>, seenTrees: set<Hash>)
    requires hash in repo.commits && repo.commits[hash].tree in seenTrees && repo.commits[hash].tree in repo.trees
    requires forall i :: 0 <= i < |repo.commits[hash].parents| && repo.commits[hash].parents[i] != 0 ==>
               Known(repo.commits[hash].parents[i], seenCommits, queue)
    ensures CommitDone(repo, hash, seenCommits, queue, seenTrees)
  {
  }

  lemma TreeIsReached(repo: Repo, hash: Hash)
    requires repo.Valid() && Reached(repo, CommitNode(hash)) && hash in repo.commits
    ensures Reached(repo, TreeNode(repo.commits[hash].tree))
  {
    hide Reached;
    EdgeIsReached(repo, CommitNode(hash), TreeNode(repo.commits[hash].tree));
  }

  // ---- what the fetch may rely on, and what the two achieve together ----

  /**
   What a finished scan hands on: each oid once, in the spelling the store is keyed by, with a
   size that fits 64 bits.
   */
  lemma ScannedPointersAreSound(repo: Repo, pointers: seq<Pointer>, skipped: seq<Node>)
    requires repo.Valid() && ExactScan(repo, pointers, skipped)
    ensures Distinct(Oids(pointers))
    ensures forall p :: p in pointers ==> IsCanonicalOid(p.oid) && 0 <= p.size <= MAX_INT64
  {
    hide Reached, IsCanonicalOid, PointerIn, Distinct, Oids;
    forall p | p in pointers ensures IsCanonicalOid(p.oid) && 0 <= p.size <= MAX_INT64 {
      var h :| Reached(repo, BlobNode(h)) && BlobPointer(repo, h) == Some(p);
      ParsedIsCanonical(repo.blobs[h].content);
    }
  }

  /** No genuine pointer file is passed over: each one reached and readable is reported, however large its object. */
  lemma PointerFilesAreReported(repo: Repo, pointers: seq<Pointer>, skipped: seq<Node>, h: Hash, p: Pointer)
    requires repo.Valid() && ExactScan(repo, pointers, skipped)
    requires IsCanonicalOid(p.oid) && 0 <= p.size <= MAX_INT64
    requires Reached(repo, BlobNode(h)) && h in repo.blobs && repo.blobs[h] == Blob(Render(p), true)
    ensures BlobPointer(repo, h) == Some(p) && p.oid in Oids(pointers)
  {
    hide Reached, Oids, PointerIn, IsCanonicalOid, Render, Distinct;
    RenderRoundTrip(p);
    RenderIsShort(p);
  }

  /**
   Scan and fetch together: when the fetch of what a finished scan found returned no
   error, every object named by a small readable pointer file that a local ref reaches
   through readable commits and trees is in the store, and its content is what its name is
   the digest of. Reaching stops at a commit that cannot be read.
   */
  lemma BackupHoldsEveryReachedObject(repo: Repo, pointers: seq<Pointer>, skipped: seq<Node>, w: World, st: State,
                                      h: Hash)
    requires repo.Valid() && ExactScan(repo, pointers, skipped)
    requires Sound(w, st.store) && LfsFetch.FetchBatches(w, st, pointers).2.None?
    requires LfsTheorems.AllNameOnce(LfsTheorems.Requests(st, LfsFetch.FetchBatches(w, st, pointers).0))
    requires Reached(repo, BlobNode(h)) && BlobPointer(repo, h).Some?
    ensures var oid, after := BlobPointer(repo, h).value.oid, LfsFetch.FetchBatches(w, st, pointers).0.store;
            oid in after && after[oid].File? && w.digest(after[oid].content) == oid
  {
    hide Reached, BlobPointer, Sound, Distinct, LfsFetch.FetchBatches, LfsTheorems.AllNameOnce, LfsTheorems.Requests;
    LfsSweep.FetchIsVerified(w, st, pointers);
    var oid := BlobPointer(repo, h).value.oid;
    var i :| 0 <= i < |Oids(pointers)| && Oids(pointers)[i] == oid;
    assert pointers[i] in pointers;
  }

  /** Told by the file alone: whatever pointer file Git LFS wrote and a ref reaches, its object is in the store. */
  lemma BackupHoldsEveryPointerFile(repo: Repo, pointers: seq<Pointer>, skipped: seq<Node>, w: World, st: State,
                                    h: Hash, p: Pointer)
    requires repo.Valid() && ExactScan(repo, pointers, skipped)
    requires Sound(w, st.store) && LfsFetch.FetchBatches(w, st, pointers).2.None?
    requires LfsTheorems.AllNameOnce(LfsTheorems.Requests(st, LfsFetch.FetchBatches(w, st, pointers).0))
    requires IsCanonicalOid(p.oid) && 0 <= p.size <= MAX_INT64
    requires Reached(repo, BlobNode(h)) && h in repo.blobs && repo.blobs[h] == Blob(Render(p), true)
    ensures var after := LfsFetch.FetchBatches(w, st, pointers).0.store;
            p.oid in after && after[p.oid].File? && w.digest(after[p.oid].content) == p.oid
  {
    hide Reached, BlobPointer, ExactScan, Sound, Distinct, IsCanonicalOid, Render, LfsFetch.FetchBatches,
      LfsTheorems.AllNameOnce, LfsTheorems.Requests;
    PointerFilesAreReported(repo, pointers, skipped, h, p);
    BackupHoldsEveryReachedObject(repo, pointers, skipped, w, st, h);
  }
}
