/**
 Scanning a repository for pointers (internal/lfs/scan.go, collectPointers, scanTree,
 peelToCommitHash): a walk over commits, trees and blobs that may be missing or
 unreadable, each inspected once across all refs.
 */
module Scan {
  import opened Wrappers
  import opened Collections
  import opened LfsBatch
  import opened PointerFile

  /** Object names; zero is Go's zero hash. */
  type Hash = nat

  const POINTER_MAX_BYTES: nat := 4096

  datatype Mode = Dir | File | Other

  datatype TreeEntry = TreeEntry(mode: Mode, hash: Hash)

  /** opens is false when the blob is there but reading its content fails. */
  datatype Blob = Blob(content: string, opens: bool)

  datatype Commit = Commit(tree: Hash, parents: seq<Hash>)

  datatype Target = ToCommit | ToTag | ToOther

  datatype Tag = Tag(kind: Target, target: Hash)

  datatype Ref = Ref(hash: Hash, symbolic: bool, remote: bool)

  /**
   What the object database answers; a hash in none of the maps is an object it cannot
   read. Tags name their target by content, so a chain of them ends: depth says how far.
   */
  datatype Repo = Repo(refs: seq<Ref>, commits: map<Hash, Commit>, tags: map<Hash, Tag>,
                       trees: map<Hash, seq<TreeEntry>>, blobs: map<Hash, Blob>, depth: Hash -> nat)
  {
    ghost predicate Valid() {
      forall h :: h in tags && tags[h].kind.ToTag? ==> depth(tags[h].target) < depth(h)
    }
  }

  /** The commit a ref's tip designates, through any number of annotated tags; zero when there is none. */
  function Peel(repo: Repo, hash: Hash): Hash
    requires repo.Valid()
    decreases repo.depth(hash)
  {
    if hash in repo.commits then hash
    else if hash !in repo.tags then 0
    else
      var tag := repo.tags[hash];
      match tag.kind
      case ToCommit => tag.target
      case ToTag => Peel(repo, tag.target)
      case ToOther => 0
  }

  // ---- what a ref reaches ----

  datatype Node = CommitNode(hash: Hash) | TreeNode(hash: Hash) | BlobNode(hash: Hash)

  predicate IsLocal(ref: Ref) { !ref.symbolic && !ref.remote }

  predicate IsRoot(repo: Repo, n: Node)
    requires repo.Valid()
  {
    && n.CommitNode? && n.hash != 0
    && exists i :: 0 <= i < |repo.refs| && IsLocal(repo.refs[i]) && Peel(repo, repo.refs[i].hash) == n.hash
  }

  predicate Names(entry: TreeEntry, n: Node) {
    (entry.mode.Dir? && n == TreeNode(entry.hash)) || (entry.mode.File? && n == BlobNode(entry.hash))
  }

  /** One step down from a readable object. */
  predicate HasEdge(repo: Repo, from: Node, to: Node) {
    match from
    case CommitNode(h) =>
      && h in repo.commits
      && (|| to == TreeNode(repo.commits[h].tree)
          || (to.CommitNode? && to.hash != 0 && to.hash in repo.commits[h].parents))
    case TreeNode(h) => h in repo.trees && exists i :: 0 <= i < |repo.trees[h]| && Names(repo.trees[h][i], to)
    case BlobNode(_) => false
  }

  ghost predicate IsPath(repo: Repo, path: seq<Node>)
    requires repo.Valid()
  {
    && path != [] && IsRoot(repo, path[0])
    && forall i :: 0 <= i < |path| - 1 ==> HasEdge(repo, path[i], path[i + 1])
  }

  ghost predicate Reached(repo: Repo, n: Node)
    requires repo.Valid()
  {
    exists path :: IsPath(repo, path) && path[|path| - 1] == n
  }

  lemma RootIsReached(repo: Repo, n: Node)
    requires repo.Valid() && IsRoot(repo, n)
    ensures Reached(repo, n)
  {
    assert IsPath(repo, [n]);
  }

  lemma EdgeIsReached(repo: Repo, from: Node, to: Node)
    requires repo.Valid() && Reached(repo, from) && HasEdge(repo, from, to)
    ensures Reached(repo, to)
  {
    hide HasEdge, IsRoot;
    var path :| IsPath(repo, path) && path[|path| - 1] == from;
    assert IsPath(repo, path + [to]);
  }

  /**
   It has the peeled tip of every ref of the repository's own, every readable commit's tree
   and parents, every readable tree's subtrees and files.
   */
  ghost predicate Closed(repo: Repo, s: set<Node>)
    requires repo.Valid()
  {
    && (forall i :: 0 <= i < |repo.refs| && !repo.refs[i].symbolic && !repo.refs[i].remote ==>
          Peel(repo, repo.refs[i].hash) == 0 || CommitNode(Peel(repo, repo.refs[i].hash)) in s)
    && (forall h :: h in repo.commits && CommitNode(h) in s ==>
          && TreeNode(repo.commits[h].tree) in s
          && forall parent :: parent in repo.commits[h].parents && parent != 0 ==> CommitNode(parent) in s)
    && (forall h, entry :: h in repo.trees && TreeNode(h) in s && entry in repo.trees[h] ==>
          && (entry.mode.Dir? ==> TreeNode(entry.hash) in s)
          && (entry.mode.File? ==> BlobNode(entry.hash) in s))
  }

  lemma ClosedStep(repo: Repo, s: set<Node>, from: Node, to: Node)
    requires repo.Valid() && Closed(repo, s) && from in s && HasEdge(repo, from, to)
    ensures to in s
  {
    hide Peel;
  }

  lemma {:induction false} ClosedHoldsPaths(repo: Repo, s: set<Node>, path: seq<Node>, k: nat)
    requires repo.Valid() && Closed(repo, s) && IsPath(repo, path) && k < |path|
    ensures path[k] in s
  {
    hide HasEdge;
    if k > 0 {
      hide Closed;
      ClosedHoldsPaths(repo, s, path, k - 1);
      assert HasEdge(repo, path[k - 1], path[k - 1 + 1]);
      ClosedStep(repo, s, path[k - 1], path[k]);
    }
  }

  /** A set with the roots and every step down holds everything reached: a ref reaches no more than it must. */
  lemma ClosedHoldsReached(repo: Repo, s: set<Node>, n: Node)
    requires repo.Valid() && Closed(repo, s) && Reached(repo, n)
    ensures n in s
  {
    hide Closed;
    var path :| IsPath(repo, path) && path[|path| - 1] == n;
    ClosedHoldsPaths(repo, s, path, |path| - 1);
  }

  /** And no less: the tips of the program's own refs, whole histories, whole trees. */
  lemma ReachedGoesOn(repo: Repo, h: Hash)
    requires repo.Valid()
    ensures forall i :: 0 <= i < |repo.refs| && !repo.refs[i].symbolic && !repo.refs[i].remote ==>
              Peel(repo, repo.refs[i].hash) == 0 || Reached(repo, CommitNode(Peel(repo, repo.refs[i].hash)))
    ensures h in repo.commits && Reached(repo, CommitNode(h)) ==>
              && Reached(repo, TreeNode(repo.commits[h].tree))
              && forall parent :: parent in repo.commits[h].parents && parent != 0 ==> Reached(repo, CommitNode(parent))
    ensures h in repo.trees && Reached(repo, TreeNode(h)) ==>
              forall entry :: entry in repo.trees[h] ==>
                && (entry.mode.Dir? ==> Reached(repo, TreeNode(entry.hash)))
                && (entry.mode.File? ==> Reached(repo, BlobNode(entry.hash)))
  {
    hide Reached, Peel;
    forall i | 0 <= i < |repo.refs| && IsLocal(repo.refs[i]) && Peel(repo, repo.refs[i].hash) != 0
      ensures Reached(repo, CommitNode(Peel(repo, repo.refs[i].hash)))
    {
      RootIsReached(repo, CommitNode(Peel(repo, repo.refs[i].hash)));
    }
    if h in repo.commits && Reached(repo, CommitNode(h)) {
      EdgeIsReached(repo, CommitNode(h), TreeNode(repo.commits[h].tree));
      forall parent | parent in repo.commits[h].parents && parent != 0 ensures Reached(repo, CommitNode(parent)) {
        EdgeIsReached(repo, CommitNode(h), CommitNode(parent));
      }
    }
    if h in repo.trees && Reached(repo, TreeNode(h)) {
      forall i | 0 <= i < |repo.trees[h]| && repo.trees[h][i].mode.Dir?
        ensures Reached(repo, TreeNode(repo.trees[h][i].hash))
      {
        EdgeIsReached(repo, TreeNode(h), TreeNode(repo.trees[h][i].hash));
      }
      forall i | 0 <= i < |repo.trees[h]| && repo.trees[h][i].mode.File?
        ensures Reached(repo, BlobNode(repo.trees[h][i].hash))
      {
        EdgeIsReached(repo, TreeNode(h), BlobNode(repo.trees[h][i].hash));
      }
    }
  }

  /**
   A tip peels to the commit at the end of its chain of annotated tags, however long; to
   none when the chain ends at another kind of object or at one that cannot be read.
   */
  lemma {:induction false} PeelFollowsTags(repo: Repo, chain: seq<Hash>)
    requires repo.Valid() && chain != []
    requires forall i :: 0 <= i < |chain| - 1 ==>
               chain[i] in repo.tags && chain[i] !in repo.commits && repo.tags[chain[i]] == Tag(ToTag, chain[i + 1])
    ensures var last := chain[|chain| - 1];
            && (last in repo.commits ==> Peel(repo, chain[0]) == last)
            && (last !in repo.commits && last in repo.tags && repo.tags[last].kind.ToCommit? ==>
                  Peel(repo, chain[0]) == repo.tags[last].target)
            && (last !in repo.commits && last in repo.tags && repo.tags[last].kind.ToOther? ==>
                  Peel(repo, chain[0]) == 0)
            && (last !in repo.commits && last !in repo.tags ==> Peel(repo, chain[0]) == 0)
    decreases |chain|
  {
    if |chain| > 1 {
      PeelFollowsTags(repo, chain[1..]);
    }
  }

  // ---- what the scan reports ----

  predicate IsSmall(blob: Blob) { |blob.content| <= POINTER_MAX_BYTES }

  /** Objects the scan cannot look into although it would have to. */
  predicate Unreadable(repo: Repo, n: Node) {
    match n
    case CommitNode(h) => h !in repo.commits
    case TreeNode(h) => h !in repo.trees
    case BlobNode(h) => h !in repo.blobs || (IsSmall(repo.blobs[h]) && !repo.blobs[h].opens)
  }

  function BlobPointer(repo: Repo, h: Hash): Option<Pointer> {
    if h in repo.blobs && IsSmall(repo.blobs[h]) && repo.blobs[h].opens then PointerIn(repo.blobs[h].content) else None
  }

  /** A readable blob of up to 4096 bytes is parsed, a longer one never is, nor need it be readable. */
  lemma ParsedUpTo4096(repo: Repo, h: Hash)
    requires h in repo.blobs
    ensures var blob := repo.blobs[h];
            && BlobPointer(repo, h) == (if blob.opens && |blob.content| <= 4096 then PointerIn(blob.content) else None)
            && (Unreadable(repo, BlobNode(h)) <==> !blob.opens && |blob.content| <= 4096)
  {
    hide PointerIn;
  }

  /**
   Exactly the pointers of the reached small readable blobs, each oid once, and exactly
   the reached trees and blobs that could not be read, each once. Reaching stops at a
   commit that cannot be read, and no list names it.
   */
  ghost predicate ExactScan(repo: Repo, pointers: seq<Pointer>, skipped: seq<Node>)
    requires repo.Valid()
  {
    && Distinct(Oids(pointers)) && Distinct(skipped)
    && (forall p :: p in pointers ==> exists h :: Reached(repo, BlobNode(h)) && BlobPointer(repo, h) == Some(p))
    && (forall h :: Reached(repo, BlobNode(h)) && BlobPointer(repo, h).Some? ==>
          BlobPointer(repo, h).value.oid in Oids(pointers))
    && (forall n :: n in skipped <==> Reached(repo, n) && Unreadable(repo, n) && !n.CommitNode?)
  }

  /** The same account, of the trees and blobs seen so far. */
  ghost predicate Tally(repo: Repo, seenTrees: set<Hash>, seenBlobs: set<Hash>, seenPointers: set<string>,
                        pointers: seq<Pointer>, skipped: seq<Node>)
  {
    && Distinct(Oids(pointers)) && Distinct(skipped)
    && (forall oid :: oid in seenPointers <==> oid in Oids(pointers))
    && (forall p :: p in pointers ==> exists h :: h in seenBlobs && BlobPointer(repo, h) == Some(p))
    && (forall h :: h in seenBlobs && BlobPointer(repo, h).Some? ==> BlobPointer(repo, h).value.oid in Oids(pointers))
    && (forall n :: n in skipped <==>
          Unreadable(repo, n) && ((n.TreeNode? && n.hash in seenTrees) || (n.BlobNode? && n.hash in seenBlobs)))
  }

  ghost predicate AllReached(repo: Repo, seenTrees: set<Hash>, seenBlobs: set<Hash>)
    requires repo.Valid()
  {
    && (forall h :: h in seenTrees ==> Reached(repo, TreeNode(h)))
    && (forall h :: h in seenBlobs ==> Reached(repo, BlobNode(h)))
  }

  predicate EntrySeen(entry: TreeEntry, seenTrees: set<Hash>, seenBlobs: set<Hash>) {
    && (entry.mode.Dir? ==> entry.hash in seenTrees)
    && (entry.mode.File? ==> entry.hash in seenBlobs)
  }

  predicate Expanded(repo: Repo, h: Hash, seenTrees: set<Hash>, seenBlobs: set<Hash>)
    requires h in repo.trees
  {
    forall i :: 0 <= i < |repo.trees[h]| ==> EntrySeen(repo.trees[h][i], seenTrees, seenBlobs)
  }

  /** Every seen tree is expanded, skipped, or still open. */
  ghost predicate Covered(repo: Repo, seenTrees: set<Hash>, seenBlobs: set<Hash>, open: seq<Hash>) {
    forall h :: h in seenTrees && h in repo.trees && h !in open ==> Expanded(repo, h, seenTrees, seenBlobs)
  }

  // ---- single steps ----

  lemma SeeReadableTree(repo: Repo, seenTrees: set<Hash>, seenBlobs: set<Hash>, seenPointers: set<string>,
                        pointers: seq<Pointer>, skipped: seq<Node>, h: Hash)
    requires Tally(repo, seenTrees, seenBlobs, seenPointers, pointers, skipped) && h in repo.trees
    ensures Tally(repo, seenTrees + {h}, seenBlobs, seenPointers, pointers, skipped)
  {
  }

  lemma SkipTree(repo: Repo, seenTrees: set<Hash>, seenBlobs: set<Hash>, seenPointers: set<string>,
                 pointers: seq<Pointer>, skipped: seq<Node>, h: Hash)
    requires Tally(repo, seenTrees, seenBlobs, seenPointers, pointers, skipped) && h !in seenTrees && h !in repo.trees
    ensures Tally(repo, seenTrees + {h}, seenBlobs, seenPointers, pointers, skipped + [TreeNode(h)])
  {
  }

  lemma SkipBlob(repo: Repo, seenTrees: set<Hash>, seenBlobs: set<Hash>, seenPointers: set<string>,
                 pointers: seq<Pointer>, skipped: seq<Node>, h: Hash)
    requires Tally(repo, seenTrees, seenBlobs, seenPointers, pointers, skipped) && h !in seenBlobs
    requires Unreadable(repo, BlobNode(h))
    ensures Tally(repo, seenTrees, seenBlobs + {h}, seenPointers, pointers, skipped + [BlobNode(h)])
  {
  }

  /** A readable blob adds its pointer unless there is none or its oid is known. */
  lemma SeeBlob(repo: Repo, seenTrees: set<Hash>, seenBlobs: set<Hash>, seenPointers: set<string>,
                pointers: seq<Pointer>, skipped: seq<Node>, h: Hash)
    requires Tally(repo, seenTrees, seenBlobs, seenPointers, pointers, skipped) && !Unreadable(repo, BlobNode(h))
    ensures BlobPointer(repo, h).None? || BlobPointer(repo, h).value.oid in seenPointers ==>
              Tally(repo, seenTrees, seenBlobs + {h}, seenPointers, pointers, skipped)
    ensures BlobPointer(repo, h).Some? && BlobPointer(repo, h).value.oid !in seenPointers ==>
              var p := BlobPointer(repo, h).value;
              Tally(repo, seenTrees, seenBlobs + {h}, seenPointers + {p.oid}, pointers + [p], skipped)
  {
    hide Distinct, Oids, BlobPointer;
    if BlobPointer(repo, h).Some? && BlobPointer(repo, h).value.oid !in seenPointers {
      var p := BlobPointer(repo, h).value;
      OidsSnoc(pointers, p);
      DistinctSnoc(Oids(pointers), p.oid);
    }
  }

  lemma OidsSnoc(pointers: seq<Pointer>, p: Pointer)
    ensures Oids(pointers + [p]) == Oids(pointers) + [p.oid]
  {
  }

  lemma CoveredGrows(repo: Repo, seenTrees: set<Hash>, seenBlobs: set<Hash>, open: seq<Hash>,
                     seenTrees': set<Hash>, seenBlobs': set<Hash>, open': seq<Hash>)
    requires Covered(repo, seenTrees, seenBlobs, open)
    requires seenTrees <= seenTrees' && seenBlobs <= seenBlobs' && forall h :: h in open ==> h in open'
    requires forall h :: h in seenTrees' - seenTrees && h in repo.trees ==> h in open'
    ensures Covered(repo, seenTrees', seenBlobs', open')
  {
  }

  // ---- the walk over one tree ----

  class Scanner {
    const repo: Repo
    var seenTrees: set<Hash>
    var seenBlobs: set<Hash>
    var seenPointers: set<string>
    var pointers: seq<Pointer>
    var skipped: seq<Node>

    /** The account is exact for what was seen, and nothing unreached was seen. */
    ghost predicate Valid()
      reads this
      requires repo.Valid()
    {
      && Tally(repo, seenTrees, seenBlobs, seenPointers, pointers, skipped)
      && AllReached(repo, seenTrees, seenBlobs)
    }

    constructor (repo: Repo)
      requires repo.Valid()
      ensures this.repo == repo && Valid() && seenTrees == {} && seenBlobs == {}
    {
      this.repo := repo;
      seenTrees, seenBlobs, seenPointers, pointers, skipped := {}, {}, {}, [], [];
    }

    method VisitBlob(hash: Hash)
      requires repo.Valid() && Valid() && Reached(repo, BlobNode(hash))
      modifies this
      ensures Valid() && seenTrees == old(seenTrees) && seenBlobs == old(seenBlobs) + {hash}
    {
      hide Tally, Reached, PointerIn;
      if hash in seenBlobs {
        assert seenBlobs + {hash} == seenBlobs;
        return;
      }
      ghost var before := seenBlobs;
      seenBlobs := seenBlobs + {hash};
      if hash !in repo.blobs {
        SkipBlob(repo, seenTrees, before, seenPointers, pointers, skipped, hash);
        skipped := skipped + [BlobNode(hash)];
        return;
      }
      var blob := repo.blobs[hash];
      if |blob.content| > POINTER_MAX_BYTES {
        SeeBlob(repo, seenTrees, before, seenPointers, pointers, skipped, hash);
        return;
      }
      if !blob.opens {
        SkipBlob(repo, seenTrees, before, seenPointers, pointers, skipped, hash);
        skipped := skipped + [BlobNode(hash)];
        return;
      }
      SeeBlob(repo, seenTrees, before, seenPointers, pointers, skipped, hash);
      var parsed := ParsePointer(blob.content);
      if parsed.Some? && parsed.value.oid !in seenPointers {
        seenPointers := seenPointers + {parsed.value.oid};
        pointers := pointers + [parsed.value];
      }
    }

    /** The tree is to be walked when it is new and can be read. */
    method VisitDir(hash: Hash) returns (push: bool)
      requires repo.Valid() && Valid() && Reached(repo, TreeNode(hash))
      modifies this
      ensures Valid() && seenBlobs == old(seenBlobs) && seenTrees == old(seenTrees) + {hash}
      ensures push <==> hash !in old(seenTrees) && hash in repo.trees
    {
      hide Tally, Reached;
      if hash in seenTrees {
        assert seenTrees + {hash} == seenTrees;
        return false;
      }
      ghost var before := seenTrees;
      seenTrees := seenTrees + {hash};
      if hash !in repo.trees {
        SkipTree(repo, before, seenBlobs, seenPointers, pointers, skipped, hash);
        skipped := skipped + [TreeNode(hash)];
        return false;
      }
      SeeReadableTree(repo, before, seenBlobs, seenPointers, pointers, skipped, hash);
      push := true;
    }

    /** All entries of one tree: everything it names is seen, and its new readable subtrees are pending. */
    method ScanEntries(current: Hash, pending0: seq<Hash>) returns (pending: seq<Hash>)
      requires repo.Valid() && Valid() && current in repo.trees && Reached(repo, TreeNode(current))
      requires forall h :: h in pending0 ==> h in repo.trees && h in seenTrees
      requires Covered(repo, seenTrees, seenBlobs, pending0 + [current])
      modifies this
      ensures Valid() && old(seenTrees) <= seenTrees && old(seenBlobs) <= seenBlobs
      ensures forall h :: h in pending ==> h in repo.trees && h in seenTrees
      ensures Covered(repo, seenTrees, seenBlobs, pending)
      ensures repo.trees.Keys - seenTrees < repo.trees.Keys - old(seenTrees)
              || (repo.trees.Keys - seenTrees == repo.trees.Keys - old(seenTrees) && pending == pending0)
    {
      hide Valid, Reached, Covered, Expanded;
      pending := pending0;
      var entries := repo.trees[current];
      for i := 0 to |entries|
        invariant Valid() && old(seenTrees) <= seenTrees && old(seenBlobs) <= seenBlobs
        invariant forall h :: h in pending ==> h in repo.trees && h in seenTrees
        invariant Covered(repo, seenTrees, seenBlobs, pending + [current])
        invariant forall j :: 0 <= j < i ==> EntrySeen(entries[j], seenTrees, seenBlobs)
        invariant repo.trees.Keys - seenTrees < repo.trees.Keys - old(seenTrees)
                  || (repo.trees.Keys - seenTrees == repo.trees.Keys - old(seenTrees) && pending == pending0)
      {
        var entry := entries[i];
        ghost var trees, blobs, open := seenTrees, seenBlobs, pending + [current];
        if entry.mode.Dir? {
          ChildIsReached(repo, current, i, TreeNode(entry.hash));
          var push := VisitDir(entry.hash);
          if push {
            pending := pending + [entry.hash];
            assert entry.hash in repo.trees.Keys - trees;
          } else {
            assert repo.trees.Keys - seenTrees == repo.trees.Keys - trees;
          }
        } else if entry.mode.File? {
          ChildIsReached(repo, current, i, BlobNode(entry.hash));
          VisitBlob(entry.hash);
        }
        CoveredGrows(repo, trees, blobs, open, seenTrees, seenBlobs, pending + [current]);
      }
      CloseCurrent(repo, seenTrees, seenBlobs, pending, current);
    }

    /** Walks a readable root tree to the end; an unreadable one changes nothing. */
    method ScanTree(treeHash: Hash) returns (ok: bool)
      requires repo.Valid() && Valid() && Reached(repo, TreeNode(treeHash))
      requires Covered(repo, seenTrees, seenBlobs, [])
      modifies this
      ensures Valid() && Covered(repo, seenTrees, seenBlobs, [])
      ensures old(seenTrees) <= seenTrees && old(seenBlobs) <= seenBlobs
      ensures ok <==> treeHash in repo.trees
      ensures ok ==> treeHash in seenTrees
    {
      hide Covered, Reached;
      if treeHash !in repo.trees {
        return false;
      }
      var pending := [treeHash];
      SeeReadableTree(repo, seenTrees, seenBlobs, seenPointers, pointers, skipped, treeHash);
      CoveredGrows(repo, seenTrees, seenBlobs, [], seenTrees + {treeHash}, seenBlobs, pending);
      seenTrees := seenTrees + {treeHash};
      hide Valid, Tally, AllReached;
      while |pending| > 0
        invariant Valid() && old(seenTrees) <= seenTrees && old(seenBlobs) <= seenBlobs && treeHash in seenTrees
        invariant forall h :: h in pending ==> h in repo.trees && h in seenTrees
        invariant Covered(repo, seenTrees, seenBlobs, pending)
        decreases repo.trees.Keys - seenTrees, |pending|
      {
        var current := pending[|pending| - 1];
        assert pending[..|pending| - 1] + [current] == pending;
        SeenIsReached(current);
        pending := ScanEntries(current, pending[..|pending| - 1]);
      }
      assert pending == [];
      ok := true;
    }

    lemma SeenIsReached(h: Hash)
      requires repo.Valid() && Valid() && h in seenTrees
      ensures Reached(repo, TreeNode(h))
    {
    }
  }

  lemma ChildIsReached(repo: Repo, current: Hash, i: nat, child: Node)
    requires repo.Valid() && current in repo.trees && Reached(repo, TreeNode(current))
    requires i < |repo.trees[current]| && Names(repo.trees[current][i], child)
    ensures Reached(repo, child)
  {
    hide Reached;
    EdgeIsReached(repo, TreeNode(current), child);
  }

  lemma CloseCurrent(repo: Repo, seenTrees: set<Hash>, seenBlobs: set<Hash>, pending: seq<Hash>, current: Hash)
    requires Covered(repo, seenTrees, seenBlobs, pending + [current]) && current in repo.trees
    requires forall j :: 0 <= j < |repo.trees[current]| ==> EntrySeen(repo.trees[current][j], seenTrees, seenBlobs)
    ensures Covered(repo, seenTrees, seenBlobs, pending)
  {
  }
}
