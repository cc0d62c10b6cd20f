/**
 Retention end to end (internal/backup/retention.go, apply, with
 internal/store/ops.go): the plan of one run handed to one batched delete.
 */
module RetentionDelete {
  import opened Wrappers
  import opened Text
  import opened Collections
  import opened Keys
  import opened Retention
  import opened RetentionPlan
  import opened RetentionRun
  import Deletes

  datatype Outcome =
    | ListingFailed
    | DeleteFailed(failure: Deletes.Failure)
    | Pruned(snapshots: nat, orphans: nat, repositories: nat)

  /** List, decide, delete: the counts are reported only when the whole delete succeeded. */
  method Apply(world: Deletes.World, now: nat, repositories: Option<seq<string>>, snippets: Option<seq<string>>,
               cutoff: Instant, minimum: nat)
    returns (outcome: Outcome, sent: seq<Deletes.Exchange>, later: nat, ghost plan: Plan)
    requires repositories.Some? ==> IsListing(repositories.value, "repositories/")
    requires snippets.Some? ==> IsListing(snippets.value, "snippets/")
    ensures outcome.ListingFailed? <==> repositories.None? || snippets.None?
    ensures outcome.ListingFailed? ==> sent == []
    ensures Deletes.Genuine(world, now, later, sent)
    ensures !outcome.ListingFailed? ==> Decided(plan, repositories.value, snippets.value, cutoff, minimum)
    ensures outcome.Pruned? ==>
              && Deletes.AckedKeys(sent) == Deletes.Normalized(plan.KeysToDelete())
              && outcome == Pruned(|plan.expired|, |plan.orphans|, |plan.emptied|)
    ensures outcome.DeleteFailed? ==> Deletes.AckedKeys(sent) < Deletes.Normalized(plan.KeysToDelete())
  {
    hide ValidPlan, Deletes.AckedKeys, Deletes.Genuine, IsListing, Distinct;
    plan := Plan([], [], {});
    sent, later := [], now;
    Deletes.NothingSent(world, now, now);
    var decided := Decide(repositories, snippets, cutoff, minimum);
    if decided.None? {
      return ListingFailed, [], now, plan;
    }
    plan := decided.value;
    var keysToDelete := decided.value.KeysToDelete();
    if |keysToDelete| > 0 {
      var failure, exchanges, after := Deletes.DeleteObjects(world, now, keysToDelete);
      sent, later := exchanges, after;
      if failure.Some? {
        return DeleteFailed(failure.value), sent, later, plan;
      }
    } else {
      NothingAcked();
    }
    outcome := Pruned(|decided.value.expired|, |decided.value.orphans|, |decided.value.emptied|);
  }

  lemma NothingAcked()
    ensures Deletes.AckedKeys([]) == []
  {
  }

  // ---- which keys the delete takes literally ----

  /** A listed key that ends in neither a slash nor white space is deleted as it stands. */
  lemma ListedKeysArePlain(key: string, root: string)
    requires root == REPOSITORIES_PREFIX || root == SNIPPETS_PREFIX
    requires HasPrefix(key, root) && key[|key| - 1] != '/' && !IsSpace(key[|key| - 1])
    ensures Deletes.IsPlain(key)
  {
    FirstChar(key, root);
    TrimStable(key, IsSpace);
    TrimStable(key, IsSlash);
  }

  /** Every archive is: its name ends in the archive suffix. */
  lemma ArchivesArePlain(key: string, root: string)
    requires root == REPOSITORIES_PREFIX || root == SNIPPETS_PREFIX
    requires HasPrefix(key, root) && IsArchive(key)
    ensures Deletes.IsPlain(key)
  {
    hide Deletes.IsPlain;
    SuffixLast(key, ARCHIVE_SUFFIX);
    ListedKeysArePlain(key, root);
  }

  /** But a folder marker is not: deleting "key/" asks the provider to delete the object "key". */
  lemma MarkersHitTheirObject(key: string)
    requires key != "" && key[0] != '/' && !IsSpace(key[0]) && key[|key| - 1] != '/'
    ensures Deletes.TrimKey(key + "/") == key
  {
    hide Trim;
    TrimStable(key + "/", IsSpace);
    DropLast(key);
  }

  lemma DropLast(key: string)
    requires key != "" && key[0] != '/' && key[|key| - 1] != '/'
    ensures TrimSlashes(key + "/") == key
  {
  }

  // ---- what a planned delete asks for ----

  /** A plan one run may decide on for these two listings. */
  ghost predicate Decided(plan: Plan, repositories: seq<string>, snippets: seq<string>, cutoff: Instant, minimum: nat) {
    && IsListing(repositories, "repositories/") && IsListing(snippets, "snippets/")
    && Distinct(plan.KeysToDelete())
    && ValidPlan(SetOf(repositories + snippets), cutoff, minimum,
                 SetOf(plan.expired), SetOf(plan.orphans), plan.emptied)
  }

  lemma ExpiredArePlain(plan: Plan, repositories: seq<string>, snippets: seq<string>, cutoff: Instant, minimum: nat,
                        key: string)
    requires Decided(plan, repositories, snippets, cutoff, minimum) && key in plan.expired
    ensures IsArchive(key) && Deletes.IsPlain(key)
  {
    hide ExactExpiry, Reclaimable, Deletes.IsPlain, IsArchive, HasPrefix;
    assert key in SetOf(plan.expired) && key in SetOf(repositories + snippets);
    if key in repositories {
      ArchivesArePlain(key, REPOSITORIES_PREFIX);
    } else {
      ArchivesArePlain(key, SNIPPETS_PREFIX);
    }
  }

  /** The planned archives head the list the provider is asked for, as they stand and in their order. */
  lemma ArchivesHeadTheList(plan: Plan, repositories: seq<string>, snippets: seq<string>, cutoff: Instant, minimum: nat)
    requires Decided(plan, repositories, snippets, cutoff, minimum)
    ensures plan.expired <= Deletes.Normalized(plan.KeysToDelete())
  {
    hide Deletes.IsPlain, Deletes.Normalized, IsArchive;
    var keys := plan.KeysToDelete();
    forall i | 0 <= i < |plan.expired| ensures Deletes.IsPlain(plan.expired[i]) {
      ExpiredArePlain(plan, repositories, snippets, cutoff, minimum, plan.expired[i]);
    }
    assert Distinct(keys) && keys[..|plan.expired|] == plan.expired;
    hide Decided;
    DistinctParts(plan.expired, plan.orphans);
    Deletes.PlainKeysAreKept(plan.expired);
    Deletes.NormalizedKeepsOrder(keys, |plan.expired|);
  }

  /** An orphan whose trimmed key is an archive no one decided to delete. */
  predicate TrimsToALiveArchive(plan: Plan, orphan: string) {
    IsArchive(Deletes.TrimKey(orphan)) && Deletes.TrimKey(orphan) !in plan.expired
  }

  /**
   The archives the provider is asked to delete are exactly the planned ones if and only
   if no planned orphan trims to another archive.
   */
  lemma AsksForExpiredArchivesIff(plan: Plan, repositories: seq<string>, snippets: seq<string>, cutoff: Instant,
                                  minimum: nat)
    requires Decided(plan, repositories, snippets, cutoff, minimum)
    ensures (forall key :: IsArchive(key) ==> (key in Deletes.Normalized(plan.KeysToDelete()) <==> key in plan.expired))
            <==> forall orphan :: orphan in plan.orphans ==> !TrimsToALiveArchive(plan, orphan)
  {
    hide Deletes.TrimKey, Deletes.Normalized, IsArchive, Decided;
    ArchivesHeadTheList(plan, repositories, snippets, cutoff, minimum);
    NoBlankArchive();
    forall key ensures key in Deletes.Normalized(plan.KeysToDelete()) <==>
                         || key in plan.expired
                         || (key != "" && exists orphan :: orphan in plan.orphans && Deletes.TrimKey(orphan) == key)
    {
      AskedFor(plan, repositories, snippets, cutoff, minimum, key);
    }
  }

  lemma NoBlankArchive()
    ensures !IsArchive("")
  {
  }

  lemma TrimmedParts(expired: seq<string>, orphans: seq<string>, key: string)
    requires forall i :: 0 <= i < |expired| ==> Deletes.TrimKey(expired[i]) == expired[i]
    ensures key in Deletes.Trimmed(expired + orphans) <==>
              key in expired || exists orphan :: orphan in orphans && Deletes.TrimKey(orphan) == key
  {
    hide Deletes.TrimKey;
    var keys := expired + orphans;
    if key in Deletes.Trimmed(keys) {
      var i :| 0 <= i < |keys| && Deletes.TrimKey(keys[i]) == key;
      assert keys[i] == if i < |expired| then expired[i] else orphans[i - |expired|];
    }
    if key in expired {
      var i :| 0 <= i < |expired| && expired[i] == key;
      assert Deletes.Trimmed(keys)[i] == key;
    }
    if orphan :| orphan in orphans && Deletes.TrimKey(orphan) == key {
      var j :| 0 <= j < |orphans| && orphans[j] == orphan;
      assert Deletes.Trimmed(keys)[|expired| + j] == key;
    }
  }

  lemma AskedFor(plan: Plan, repositories: seq<string>, snippets: seq<string>, cutoff: Instant, minimum: nat,
                 key: string)
    requires Decided(plan, repositories, snippets, cutoff, minimum)
    ensures key in Deletes.Normalized(plan.KeysToDelete()) <==>
              || key in plan.expired
              || (key != "" && exists orphan :: orphan in plan.orphans && Deletes.TrimKey(orphan) == key)
  {
    hide Deletes.TrimKey, Deletes.Normalized, Deletes.Trimmed, Decided, IsArchive;
    Deletes.NormalizedIsExact(plan.KeysToDelete());
    forall i | 0 <= i < |plan.expired| ensures Deletes.TrimKey(plan.expired[i]) == plan.expired[i] != "" {
      ExpiredArePlain(plan, repositories, snippets, cutoff, minimum, plan.expired[i]);
    }
    TrimmedParts(plan.expired, plan.orphans, key);
  }

  /** With a minimum of one or more there are no orphans, and the planned archives are all that is asked for. */
  lemma MinimumAsksForArchivesOnly(plan: Plan, repositories: seq<string>, snippets: seq<string>, cutoff: Instant,
                                   minimum: nat)
    requires Decided(plan, repositories, snippets, cutoff, minimum) && minimum >= 1
    ensures Deletes.Normalized(plan.KeysToDelete()) == plan.expired
  {
    hide Deletes.IsPlain, Deletes.Normalized, IsArchive;
    MinimumSparesTheRest(SetOf(repositories + snippets), cutoff, minimum,
                         SetOf(plan.expired), SetOf(plan.orphans), plan.emptied);
    forall i | 0 <= i < |plan.expired| ensures Deletes.IsPlain(plan.expired[i]) {
      ExpiredArePlain(plan, repositories, snippets, cutoff, minimum, plan.expired[i]);
    }
    if plan.orphans != [] {
      SomeKey(plan.orphans);
      assert false;
    }
    assert plan.KeysToDelete() == plan.expired;
    Deletes.PlainKeysAreKept(plan.expired);
  }

  lemma SomeKey(keys: seq<string>)
    requires keys != []
    ensures SetOf(keys) != {}
  {
    assert keys[0] in SetOf(keys);
  }

  /**
   Without a minimum the condition can fail: emptying a repository takes the folder
   marker inside its issues with it, and so a younger archive of another repository
   that the marker is named after.
   */
  lemma MarkersTakeLiveArchives(prefix: string, aged: int, live: int, cutoff: Instant,
                                expired: set<string>, orphans: set<string>, emptied: set<string>)
    requires HasPrefix(prefix, REPOSITORIES_PREFIX) && prefix[|prefix| - 1] != '/'
    requires 0 < aged <= MAX_INT64 && 0 < live <= MAX_INT64 && IsOlder(aged, cutoff) && !IsOlder(live, cutoff)
    requires var gone, kept := BuildArchiveObjectKey(prefix, aged), BuildArchiveObjectKey(prefix + "/issues", live);
             ValidPlan({gone, kept, kept + "/"}, cutoff, 0, expired, orphans, emptied)
    ensures var kept := BuildArchiveObjectKey(prefix + "/issues", live);
            && IsArchive(kept) && kept !in expired && !IsOlder(Stamp(kept), cutoff)
            && kept + "/" in orphans && Deletes.TrimKey(kept + "/") == kept
  {
    hide BuildArchiveObjectKey, TryGetArchiveTimestamp, GetParentPrefix, HasPrefix, IsOlder, Reclaimable, ExactExpiry,
      TrimSlashes, Deletes.TrimKey;
    var gone, kept := BuildArchiveObjectKey(prefix, aged), BuildArchiveObjectKey(prefix + "/issues", live);
    var bucket := {gone, kept, kept + "/"};
    FirstChar(prefix, REPOSITORIES_PREFIX);
    TwoRepositories(prefix);
    ArchiveRoundTrip(prefix, aged);
    ArchiveRoundTrip(prefix + "/issues", live);
    MarkerOf(prefix, live);
    if kept in expired {
      DeletedLeavesTheMinimum(bucket, cutoff, 0, expired, orphans, emptied, kept);
      assert false;
    }
    if gone !in expired {
      KeptIsProtected(bucket, cutoff, 0, expired, orphans, emptied, gone);
      assert false;
    }
    assert Archives(bucket, prefix) == {gone} == Archives(expired, prefix);
    assert prefix in emptied;
    MarkerIsReclaimable(prefix, kept + "/", emptied);
  }

  lemma TwoRepositories(prefix: string)
    requires prefix != "" && prefix[0] != '/' && prefix[|prefix| - 1] != '/'
    ensures TrimSlashes(prefix) == prefix && TrimSlashes(prefix + "/issues") == prefix + "/issues" != prefix
  {
    hide Trim;
    TrimStable(prefix, IsSlash);
    TrimStable(prefix + "/issues", IsSlash);
  }

  /** The marker is no archive, trims to the archive, and lies inside the issues of the outer repository. */
  lemma MarkerOf(prefix: string, live: int)
    requires prefix != "" && prefix[0] == 'r'
    ensures var marker := BuildArchiveObjectKey(prefix + "/issues", live) + "/";
            && !IsArchive(marker) && Deletes.TrimKey(marker) == BuildArchiveObjectKey(prefix + "/issues", live)
            && HasPrefix(marker, prefix + "/issues/") && !HasPrefix(marker, "/")
  {
    hide Trim, FormatInt, Deletes.TrimKey;
    var kept := BuildArchiveObjectKey(prefix + "/issues", live);
    TrimStable(prefix + "/issues", IsSlash);
    var marker := kept + "/";
    assert kept[0] == 'r' && kept[|kept| - 1] == 'z';
    MarkersHitTheirObject(kept);
    if HasSuffix(marker, ARCHIVE_SUFFIX) {
      SuffixLast(marker, ARCHIVE_SUFFIX);
      assert false;
    }
    assert marker[..|prefix| + 8] == prefix + "/issues/";
    NotPrefix(marker, "/", 0);
  }

  lemma MarkerIsReclaimable(prefix: string, marker: string, emptied: set<string>)
    requires prefix in emptied && HasPrefix(marker, prefix + "/issues/") && !HasPrefix(marker, "/")
    ensures Reclaimable(marker, emptied)
  {
    hide HasPrefix, GetParentPrefix;
    assert prefix + "/" + ISSUES + "/" == prefix + "/issues/";
    assert ISSUES in Segments();
  }

  // ---- a run that succeeded, and one that did not ----

  /**
   After a successful delete whose replies refused none of the planned archives, a second
   run over what is left, with the same cutoff, plans nothing, whatever became of the
   planned orphans and of the objects their keys trim to.
   */
  lemma RunsAreStable(repositories: seq<string>, snippets: seq<string>, cutoff: Instant, minimum: nat, plan: Plan,
                      sent: seq<Deletes.Exchange>, again: Plan)
    requires Decided(plan, repositories, snippets, cutoff, minimum)
    requires Deletes.AckedKeys(sent) == Deletes.Normalized(plan.KeysToDelete())
    requires forall key :: key in plan.expired ==> Deletes.NotRefused(sent, key)
    requires ValidPlan(SetOf(repositories + snippets) - Deletes.Removed(sent), cutoff, minimum,
                       SetOf(again.expired), SetOf(again.orphans), again.emptied)
    ensures again.KeysToDelete() == []
  {
    hide ValidPlan, IsListing, Deletes.NotRefused, Deletes.AckedKeys, Deletes.Normalized, Deletes.Removed, Distinct;
    ArchivesHeadTheList(plan, repositories, snippets, cutoff, minimum);
    forall key | key in plan.expired ensures key in Deletes.Removed(sent) {
      Deletes.AckedIsRemoved(sent, key);
    }
    SecondRunIsEmpty(SetOf(repositories + snippets), cutoff, minimum,
                     SetOf(plan.expired), SetOf(plan.orphans), plan.emptied,
                     Deletes.Removed(sent), SetOf(again.expired), SetOf(again.orphans), again.emptied);
    if again.expired != [] {
      SomeKey(again.expired);
      assert false;
    }
    if again.orphans != [] {
      SomeKey(again.orphans);
      assert false;
    }
  }

  /** However far a delete got, it asked for nothing but planned archives until every one of them was acknowledged. */
  lemma ArchivesGoFirst(repositories: seq<string>, snippets: seq<string>, cutoff: Instant, minimum: nat, plan: Plan,
                        sent: seq<Deletes.Exchange>, other: string)
    requires Decided(plan, repositories, snippets, cutoff, minimum)
    requires Deletes.AckedKeys(sent) <= Deletes.Normalized(plan.KeysToDelete())
    requires other in Deletes.AckedKeys(sent) && other !in plan.expired
    ensures plan.expired <= Deletes.AckedKeys(sent)
  {
    hide Decided, Deletes.AckedKeys, Deletes.Normalized;
    ArchivesHeadTheList(plan, repositories, snippets, cutoff, minimum);
    PrefixesNest(plan.expired, Deletes.AckedKeys(sent), Deletes.Normalized(plan.KeysToDelete()));
  }

  /** Of two prefixes of a list, one with something the other lacks is the longer. */
  lemma PrefixesNest(a: seq<string>, b: seq<string>, whole: seq<string>)
    requires a <= whole && b <= whole
    ensures (exists x :: x in b && x !in a) ==> a <= b
  {
    assert |b| <= |a| ==> forall i :: 0 <= i < |b| ==> b[i] == a[i];
  }
}
