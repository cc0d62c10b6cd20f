/**
 What a scan loses without a word (internal/lfs/scan.go, collectPointers and
 peelToCommitHash): a commit or a ref's tip that cannot be read is passed over and in no
 list. Exactly when a finished scan of a partly fetched repository is the scan of the
 whole one.
 */
module ScanLoss {
  import opened Wrappers
  import opened Text
  import opened Collections
  import opened LfsBatch
  import opened PointerFile
  import opened Scan
  import Collect
  import LfsFetch
  import LfsTheorems

  // ---- more of the same repository ----

  predicate IsKnown(repo: Repo, h: Hash) {
    h in repo.commits || h in repo.tags || h in repo.trees || h in repo.blobs
  }

  /** An object name is the digest of one object, so of one kind; none is the zero hash. */
  predicate OneKind(repo: Repo) {
    && repo.commits.Keys !! repo.tags.Keys !! repo.trees.Keys !! repo.blobs.Keys
    && !IsKnown(repo, 0)
  }

  /** The same repository with perhaps more of its objects there. */
  ghost predicate Completes(repo: Repo, whole: Repo) {
    && whole.Valid() && OneKind(whole) && whole.refs == repo.refs
    && (forall h :: h in repo.commits ==> h in whole.commits && whole.commits[h] == repo.commits[h])
    && (forall h :: h in repo.tags ==> h in whole.tags && whole.tags[h] == repo.tags[h])
    && (forall h :: h in repo.trees ==> h in whole.trees && whole.trees[h] == repo.trees[h])
    && (forall h :: h in repo.blobs ==> h in whole.blobs && MoreOf(repo.blobs[h], whole.blobs[h]))
  }

  predicate MoreOf(blob: Blob, whole: Blob) {
    whole.content == blob.content && (blob.opens ==> whole.opens)
  }

  // ---- what the program cannot see it is missing ----

  /** The hash at which a ref's chain of annotated tags ends, as far as it can be followed. */
  function TipEnd(repo: Repo, h: Hash): Hash
    requires repo.Valid()
    decreases repo.depth(h)
  {
    if h !in repo.commits && h in repo.tags && repo.tags[h].kind.ToTag? then TipEnd(repo, repo.tags[h].target) else h
  }

  /** No local ref's chain ends at an object that is not there. */
  predicate AllTipsKnown(repo: Repo)
    requires repo.Valid()
  {
    forall i :: 0 <= i < |repo.refs| && IsLocal(repo.refs[i]) ==>
      TipEnd(repo, repo.refs[i].hash) == 0 || IsKnown(repo, TipEnd(repo, repo.refs[i].hash))
  }

  /** No reached commit is an object that is not there. */
  ghost predicate AllCommitsKnown(repo: Repo)
    requires repo.Valid()
  {
    forall h :: Reached(repo, CommitNode(h)) ==> IsKnown(repo, h)
  }

  /**
   After a finished scan, everything reached was read exactly when nothing was skipped and every
   reached commit was read.
   */
  lemma AllReadIff(repo: Repo, pointers: seq<Pointer>, skipped: seq<Node>)
    requires repo.Valid() && ExactScan(repo, pointers, skipped)
    ensures (forall n :: Reached(repo, n) ==> !Unreadable(repo, n)) <==>
              skipped == [] && forall h :: Reached(repo, CommitNode(h)) ==> h in repo.commits
  {
    hide Reached, BlobPointer, Distinct, Oids;
    if skipped != [] {
      assert skipped[0] in skipped;
    }
  }

  // ---- reaching in part and in whole ----

  lemma {:induction false} PeelKept(repo: Repo, whole: Repo, h: Hash)
    requires repo.Valid() && Completes(repo, whole)
    ensures Peel(repo, h) != 0 ==> Peel(whole, h) == Peel(repo, h)
    ensures TipEnd(repo, h) == 0 || IsKnown(repo, TipEnd(repo, h)) ==> Peel(whole, h) == Peel(repo, h)
    decreases repo.depth(h)
  {
    if h !in repo.commits && h in repo.tags && repo.tags[h].kind.ToTag? {
      PeelKept(repo, whole, repo.tags[h].target);
    }
  }

  lemma RootKept(repo: Repo, whole: Repo, n: Node)
    requires repo.Valid() && Completes(repo, whole)
    ensures IsRoot(repo, n) ==> IsRoot(whole, n)
    ensures AllTipsKnown(repo) && IsRoot(whole, n) ==> IsRoot(repo, n)
  {
    hide Peel, TipEnd;
    forall i | 0 <= i < |repo.refs| && IsLocal(repo.refs[i])
      ensures Peel(repo, repo.refs[i].hash) != 0 || AllTipsKnown(repo) ==>
                Peel(whole, repo.refs[i].hash) == Peel(repo, repo.refs[i].hash)
    {
      PeelKept(repo, whole, repo.refs[i].hash);
    }
    hide Completes;
    if IsRoot(repo, n) {
      var i :| 0 <= i < |repo.refs| && IsLocal(repo.refs[i]) && Peel(repo, repo.refs[i].hash) == n.hash;
      assert Peel(whole, repo.refs[i].hash) == n.hash;
    }
  }

  lemma EdgeKept(repo: Repo, whole: Repo, from: Node, to: Node)
    requires repo.Valid() && Completes(repo, whole)
    ensures HasEdge(repo, from, to) ==> HasEdge(whole, from, to)
    ensures IsKnown(repo, from.hash) && !(from.TreeNode? && Unreadable(repo, from)) && HasEdge(whole, from, to) ==>
              HasEdge(repo, from, to)
  {
  }

  lemma ReachedKept(repo: Repo, whole: Repo, n: Node)
    requires repo.Valid() && Completes(repo, whole) && Reached(repo, n)
    ensures Reached(whole, n)
  {
    hide HasEdge, IsRoot, Completes;
    var path :| IsPath(repo, path) && path[|path| - 1] == n;
    assert whole.Valid() by { CompletesIsValid(repo, whole); }
    RootKept(repo, whole, path[0]);
    forall i | 0 <= i < |path| - 1 ensures HasEdge(whole, path[i], path[i + 1]) {
      EdgeKept(repo, whole, path[i], path[i + 1]);
    }
    assert IsPath(whole, path);
  }

  lemma CompletesIsValid(repo: Repo, whole: Repo)
    requires Completes(repo, whole)
    ensures whole.Valid()
  {
  }

  /**
   When nothing was skipped and no tip and no reached commit is missing, the whole repository
   reaches nothing more.
   */
  lemma {:induction false} NothingMoreReached(repo: Repo, whole: Repo, path: seq<Node>, k: nat)
    requires repo.Valid() && Completes(repo, whole) && AllTipsKnown(repo) && AllCommitsKnown(repo)
    requires forall h :: Reached(repo, TreeNode(h)) ==> h in repo.trees
    requires IsPath(whole, path) && k < |path|
    ensures Reached(repo, path[k])
  {
    hide HasEdge, IsRoot, AllTipsKnown, Reached, Completes;
    if k == 0 {
      RootKept(repo, whole, path[0]);
      RootIsReached(repo, path[0]);
    } else {
      NothingMoreReached(repo, whole, path, k - 1);
      var from, to := path[k - 1], path[k];
      assert HasEdge(whole, path[k - 1], path[k - 1 + 1]);
      BlobsLeadNowhere(whole, from, to);
      EdgeKept(repo, whole, from, to);
      EdgeIsReached(repo, from, to);
    }
  }

  lemma BlobsLeadNowhere(repo: Repo, from: Node, to: Node)
    requires HasEdge(repo, from, to)
    ensures !from.BlobNode?
  {
  }

  /**
   A scan that skipped nothing, of a repository in which no local tip and no reached commit
   is missing, is also the scan of every completion of it.
   */
  lemma NothingIsLost(repo: Repo, whole: Repo, pointers: seq<Pointer>)
    requires repo.Valid() && ExactScan(repo, pointers, []) && AllTipsKnown(repo) && AllCommitsKnown(repo)
    requires Completes(repo, whole)
    ensures forall n :: Reached(whole, n) <==> Reached(repo, n)
    ensures ExactScan(whole, pointers, [])
  {
    hide AllTipsKnown, AllCommitsKnown, PointerIn, Distinct, Oids, IsRoot, HasEdge, OneKind, Repo.Valid;
    forall n | Reached(repo, n) && !n.CommitNode? ensures !Unreadable(repo, n) {
      assert n !in [];
    }
    assert forall h :: Reached(repo, TreeNode(h)) ==> h in repo.trees;
    forall n ensures Reached(whole, n) <==> Reached(repo, n) {
      if Reached(repo, n) {
        ReachedKept(repo, whole, n);
      }
      if Reached(whole, n) {
        var path :| IsPath(whole, path) && path[|path| - 1] == n;
        NothingMoreReached(repo, whole, path, |path| - 1);
      }
    }
    hide Reached;
    forall h | Reached(repo, BlobNode(h)) ensures BlobPointer(whole, h) == BlobPointer(repo, h) {
      assert !Unreadable(repo, BlobNode(h));
    }
    forall n | Reached(whole, n) && !n.CommitNode? ensures !Unreadable(whole, n) {
      assert !Unreadable(repo, n);
    }
    hide BlobPointer, Unreadable, Completes;
  }

  // ---- and otherwise it can lose anything ----

  /** The repository with one missing commit there: its tree holds one file and nothing else. */
  function Restored(repo: Repo, commit: Hash, tree: Hash, blob: Hash, content: string): Repo {
    repo.(commits := repo.commits[commit := Commit(tree, [])],
          trees := repo.trees[tree := [TreeEntry(Mode.File, blob)]],
          blobs := repo.blobs[blob := Blob(content, true)])
  }

  lemma RestoredCompletes(repo: Repo, commit: Hash, tree: Hash, blob: Hash, content: string)
    requires repo.Valid() && OneKind(repo) && commit != 0 && !IsKnown(repo, commit)
    requires 0 < tree < blob && tree != commit && blob != commit && !IsKnown(repo, tree) && !IsKnown(repo, blob)
    ensures Completes(repo, Restored(repo, commit, tree, blob, content))
  {
  }

  lemma RestoredReaches(repo: Repo, commit: Hash, tree: Hash, blob: Hash, content: string)
    requires var whole := Restored(repo, commit, tree, blob, content);
             whole.Valid() && Reached(whole, CommitNode(commit))
    requires |content| <= POINTER_MAX_BYTES
    ensures var whole := Restored(repo, commit, tree, blob, content);
            Reached(whole, BlobNode(blob)) && BlobPointer(whole, blob) == PointerIn(content)
  {
    hide Reached, PointerIn;
    var whole := Restored(repo, commit, tree, blob, content);
    EdgeIsReached(whole, CommitNode(commit), TreeNode(tree));
    assert Names(whole.trees[tree][0], BlobNode(blob));
    EdgeIsReached(whole, TreeNode(tree), BlobNode(blob));
  }

  lemma {:induction false} PeelsToRestored(repo: Repo, whole: Repo, h: Hash)
    requires repo.Valid() && whole.Valid() && whole.tags == repo.tags && whole.depth == repo.depth
    requires TipEnd(repo, h) !in repo.tags && TipEnd(repo, h) !in repo.commits
    requires whole.commits.Keys == repo.commits.Keys + {TipEnd(repo, h)}
    ensures Peel(whole, h) == TipEnd(repo, h)
    decreases repo.depth(h)
  {
    if h !in repo.commits && h in repo.tags && repo.tags[h].kind.ToTag? {
      PeelsToRestored(repo, whole, repo.tags[h].target);
    }
  }

  lemma TwoFreshHashes(repo: Repo, commit: Hash) returns (tree: Hash, blob: Hash)
    ensures 0 < tree < blob && tree != commit && blob != commit && !IsKnown(repo, tree) && !IsKnown(repo, blob)
  {
    var used := repo.commits.Keys + repo.tags.Keys + repo.trees.Keys + repo.blobs.Keys + {commit};
    var above := FreshNumber(used);
    tree, blob := above + 1, above + 2;
    assert tree !in used && blob !in used;
  }

  lemma RestoredTip(repo: Repo, i: nat, tree: Hash, blob: Hash, content: string)
    requires repo.Valid() && i < |repo.refs| && IsLocal(repo.refs[i])
    requires var commit := TipEnd(repo, repo.refs[i].hash);
             && commit != 0 && !IsKnown(repo, commit)
             && Restored(repo, commit, tree, blob, content).Valid()
    ensures var commit := TipEnd(repo, repo.refs[i].hash);
            Reached(Restored(repo, commit, tree, blob, content), CommitNode(commit))
  {
    hide Reached;
    var commit := TipEnd(repo, repo.refs[i].hash);
    var whole := Restored(repo, commit, tree, blob, content);
    PeelsToRestored(repo, whole, repo.refs[i].hash);
    assert whole.refs[i] == repo.refs[i];
    RootIsReached(whole, CommitNode(commit));
  }

  lemma ReachedIsNotZero(repo: Repo, h: Hash)
    requires repo.Valid() && Reached(repo, CommitNode(h))
    ensures h != 0
  {
    var path :| IsPath(repo, path) && path[|path| - 1] == CommitNode(h);
    if |path| > 1 {
      assert HasEdge(repo, path[|path| - 2], path[|path| - 2 + 1]);
    }
  }

  /** More of the same repository, with a file that reads like this one. */
  ghost predicate HidesFile(repo: Repo, whole: Repo, blob: Hash, content: string) {
    Completes(repo, whole) && Reached(whole, BlobNode(blob)) && BlobPointer(whole, blob) == PointerIn(content)
  }

  /**
   Whatever small file is given, a pointer or not, some completion of a repository that
   misses a tip or a reached commit has it.
   */
  lemma AnythingCanBeLost(repo: Repo, content: string)
    requires repo.Valid() && OneKind(repo) && |content| <= POINTER_MAX_BYTES
    requires !AllTipsKnown(repo) || !AllCommitsKnown(repo)
    ensures exists whole, blob :: HidesFile(repo, whole, blob, content)
  {
    hide Completes, Restored, PointerIn, OneKind, BlobPointer, Repo.Valid;
    if !AllCommitsKnown(repo) {
      hide Reached;
      var commit :| Reached(repo, CommitNode(commit)) && !IsKnown(repo, commit);
      ReachedIsNotZero(repo, commit);
      var tree, file := TwoFreshHashes(repo, commit);
      var whole := Restored(repo, commit, tree, file, content);
      RestoredCompletes(repo, commit, tree, file, content);
      CompletesIsValid(repo, whole);
      ReachedKept(repo, whole, CommitNode(commit));
      RestoredReaches(repo, commit, tree, file, content);
      assert HidesFile(repo, whole, file, content);
    } else {
      hide Reached;
      var i :| 0 <= i < |repo.refs| && IsLocal(repo.refs[i]) && TipEnd(repo, repo.refs[i].hash) != 0
               && !IsKnown(repo, TipEnd(repo, repo.refs[i].hash));
      var commit := TipEnd(repo, repo.refs[i].hash);
      var tree, file := TwoFreshHashes(repo, commit);
      var whole := Restored(repo, commit, tree, file, content);
      RestoredCompletes(repo, commit, tree, file, content);
      CompletesIsValid(repo, whole);
      RestoredTip(repo, i, tree, file, content);
      RestoredReaches(repo, commit, tree, file, content);
      assert HidesFile(repo, whole, file, content);
    }
  }

  /** Whatever else the repository holds, this is the scan of it. */
  ghost predicate ScansEveryCompletion(repo: Repo, pointers: seq<Pointer>) {
    forall whole :: Completes(repo, whole) ==> ExactScan(whole, pointers, [])
  }

  lemma NothingIsEverLost(repo: Repo, pointers: seq<Pointer>)
    requires repo.Valid() && ExactScan(repo, pointers, []) && AllTipsKnown(repo) && AllCommitsKnown(repo)
    ensures ScansEveryCompletion(repo, pointers)
  {
    hide ExactScan, AllTipsKnown, AllCommitsKnown;
    forall whole | Completes(repo, whole) ensures ExactScan(whole, pointers, []) {
      hide Completes;
      NothingIsLost(repo, whole, pointers);
    }
  }

  lemma ScansThisCompletion(repo: Repo, whole: Repo, pointers: seq<Pointer>)
    requires Completes(repo, whole)
    ensures whole.Valid() && (ScansEveryCompletion(repo, pointers) ==> ExactScan(whole, pointers, []))
  {
    hide ExactScan;
  }

  /**
   Exactly when a scan with an empty skip list may be trusted: it is the scan of every
   completion of the repository if and only if every local ref's chain of tags and every
   reached commit is there. The program checks neither.
   */
  lemma NothingIsLostIff(repo: Repo, pointers: seq<Pointer>, content: string)
    requires repo.Valid() && OneKind(repo) && ExactScan(repo, pointers, [])
    requires |content| <= POINTER_MAX_BYTES && PointerIn(content).Some?
    requires PointerIn(content).value.oid !in Oids(pointers)
    ensures ScansEveryCompletion(repo, pointers) <==> AllTipsKnown(repo) && AllCommitsKnown(repo)
  {
    hide ScansEveryCompletion, Completes, AllTipsKnown, AllCommitsKnown, OneKind, BlobPointer, PointerIn, Reached, Oids,
      Distinct, Repo.Valid;
    if AllTipsKnown(repo) && AllCommitsKnown(repo) {
      NothingIsEverLost(repo, pointers);
    } else {
      AnythingCanBeLost(repo, content);
      var whole, blob :| HidesFile(repo, whole, blob, content);
      ScansThisCompletion(repo, whole, pointers);
    }
  }

  // ---- the smallest such repository ----

  /** A tag on one commit, whose tree holds one file. */
  function Tagged(content: string): Repo {
    Repo([Ref(1, false, false)], map[2 := Commit(3, [])], map[1 := Tag(ToCommit, 2)],
         map[3 := [TreeEntry(Mode.File, 4)]], map[4 := Blob(content, true)], _ => 0)
  }

  /** The same, fetched without the commit and what is behind it. */
  function TagAlone(): Repo {
    Repo([Ref(1, false, false)], map[], map[1 := Tag(ToCommit, 2)], map[], map[], _ => 0)
  }

  /** The scan of the second finishes with nothing found and nothing skipped, though it reached the missing commit. */
  lemma LostCommitGoesUnnoticed(content: string)
    requires |content| <= POINTER_MAX_BYTES
    ensures var repo, whole := TagAlone(), Tagged(content);
            && repo.Valid() && whole.Valid() && Completes(repo, whole)
            && Reached(repo, CommitNode(2)) && Unreadable(repo, CommitNode(2))
            && ExactScan(repo, [], []) && Collect.RootTreesReadable(repo)
            && Reached(whole, BlobNode(4)) && BlobPointer(whole, 4) == PointerIn(content)
  {
    var repo, whole := TagAlone(), Tagged(content);
    hide PointerIn, Reached;
    assert Peel(repo, repo.refs[0].hash) == 2 && Peel(whole, whole.refs[0].hash) == 2;
    RootIsReached(repo, CommitNode(2));
    RootIsReached(whole, CommitNode(2));
    EdgeIsReached(whole, CommitNode(2), TreeNode(3));
    assert Names(whole.trees[3][0], BlobNode(4));
    EdgeIsReached(whole, TreeNode(3), BlobNode(4));
    forall n | Reached(repo, n) ensures n == CommitNode(2) {
      ClosedHoldsReached(repo, {CommitNode(2)}, n);
    }
  }

  // ---- the backup of the whole repository ----

  /**
   When the scan skipped nothing, no local tip and no reached commit was missing, and the
   fetch returned no error, the store holds every object named by a small readable pointer
   file of the whole repository.
   */
  lemma BackupHoldsTheWholeRepository(repo: Repo, whole: Repo, pointers: seq<Pointer>, w: World, st: State, h: Hash)
    requires repo.Valid() && ExactScan(repo, pointers, []) && AllTipsKnown(repo) && AllCommitsKnown(repo)
    requires Completes(repo, whole)
    requires Sound(w, st.store) && LfsFetch.FetchBatches(w, st, pointers).2.None?
    requires LfsTheorems.AllNameOnce(LfsTheorems.Requests(st, LfsFetch.FetchBatches(w, st, pointers).0))
    requires Reached(whole, BlobNode(h)) && BlobPointer(whole, h).Some?
    ensures var oid, after := BlobPointer(whole, h).value.oid, LfsFetch.FetchBatches(w, st, pointers).0.store;
            oid in after && after[oid].File? && w.digest(after[oid].content) == oid
  {
    hide Reached, BlobPointer, Sound, ExactScan, Completes, AllTipsKnown, AllCommitsKnown, Repo.Valid,
      LfsFetch.FetchBatches, LfsTheorems.AllNameOnce, LfsTheorems.Requests;
    CompletesIsValid(repo, whole);
    NothingIsLost(repo, whole, pointers);
    Collect.BackupHoldsEveryReachedObject(whole, pointers, [], w, st, h);
  }
}
