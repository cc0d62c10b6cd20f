/**
 What a retention run may decide (internal/backup/retention.go, apply), as a relation
 on the bucket, and what such a plan guarantees for every bucket, cutoff and minimum.
 */
module RetentionPlan {
  import opened Collections
  import opened Keys
  import opened Retention

  // ---- the plan as a relation on the bucket ----

  /** What a run may decide: ties are free, everything else is determined. */
  ghost predicate ValidPlan(bucket: set<string>, cutoff: Instant, minimum: nat,
                            expired: set<string>, orphans: set<string>, emptied: set<string>)
  {
    && (forall key :: key in expired ==> key in bucket && IsArchive(key))
    && (forall prefix :: ExactExpiry(Archives(bucket, prefix), Archives(expired, prefix), cutoff, minimum))
    && (forall prefix :: prefix in emptied <==> Archives(bucket, prefix) == Archives(expired, prefix) != {})
    && (forall key :: key in orphans <==> key in bucket && !IsArchive(key) && Reclaimable(key, emptied))
  }

  ghost function NoOlder(group: set<string>, key: string): set<string> {
    set other | other in group && other != key && Stamp(other) >= Stamp(key)
  }

  ghost function Newer(group: set<string>, key: string): set<string> {
    set other | other in group && Stamp(other) > Stamp(key)
  }

  /** The protected choice outlives every expired archive, and is none of it older. */
  lemma ChosenOutlive(group: set<string>, gone: set<string>, cutoff: Instant, minimum: nat, key: string)
    requires ExactExpiry(group, gone, cutoff, minimum) && key in gone
    ensures IsOlder(Stamp(key), cutoff) && |NoOlder(group - gone, key)| >= minimum
  {
    hide IsOlder, Stamp;
    var chosen :| Newest(chosen, group, minimum) && ExpiresAllBut(chosen, group, gone, cutoff);
    Smaller(chosen, group, key);
    Contained(chosen, NoOlder(group - gone, key));
  }

  lemma ArchivesAfter(bucket: set<string>, expired: set<string>, orphans: set<string>, prefix: string)
    requires forall key :: key in orphans ==> !IsArchive(key)
    ensures Archives(bucket - expired - orphans, prefix) == Archives(bucket, prefix) - Archives(expired, prefix)
  {
    hide IsArchive, GetParentPrefix;
  }

  /** Every deleted archive is older than the cutoff and leaves the minimum behind, none of them older than it. */
  lemma DeletedLeavesTheMinimum(bucket: set<string>, cutoff: Instant, minimum: nat,
                                expired: set<string>, orphans: set<string>, emptied: set<string>, key: string)
    requires ValidPlan(bucket, cutoff, minimum, expired, orphans, emptied) && key in expired
    ensures IsOlder(Stamp(key), cutoff)
    ensures |NoOlder(Archives(bucket - expired - orphans, GetParentPrefix(key)), key)| >= minimum
  {
    hide IsOlder, Stamp, IsArchive, GetParentPrefix, Reclaimable, ExactExpiry, NoOlder;
    var prefix := GetParentPrefix(key);
    assert key in Archives(expired, prefix);
    ArchivesAfter(bucket, expired, orphans, prefix);
    ChosenOutlive(Archives(bucket, prefix), Archives(expired, prefix), cutoff, minimum, key);
  }

  /** An expired archive is kept only when fewer than the minimum of its repository are strictly newer. */
  lemma KeptIsProtected(bucket: set<string>, cutoff: Instant, minimum: nat,
                        expired: set<string>, orphans: set<string>, emptied: set<string>, key: string)
    requires ValidPlan(bucket, cutoff, minimum, expired, orphans, emptied)
    requires key in bucket - expired && IsArchive(key) && IsOlder(Stamp(key), cutoff)
    ensures |Newer(Archives(bucket, GetParentPrefix(key)), key)| < minimum
  {
    hide IsOlder, Stamp, GetParentPrefix, Reclaimable;
    var prefix := GetParentPrefix(key);
    var group := Archives(bucket, prefix);
    var gone := Archives(expired, prefix);
    assert ExactExpiry(group, gone, cutoff, minimum);
    var chosen :| Newest(chosen, group, minimum) && ExpiresAllBut(chosen, group, gone, cutoff);
    assert key in chosen;
    Smaller(Newer(group, key), chosen, key);
  }

  /**
   With no two archives of a repository equally old, the plan is determined: an archive goes
   exactly when it is older and the minimum is newer.
   */
  lemma DistinctStampsAreExact(bucket: set<string>, cutoff: Instant, minimum: nat,
                               expired: set<string>, orphans: set<string>, emptied: set<string>, key: string)
    requires ValidPlan(bucket, cutoff, minimum, expired, orphans, emptied)
    requires key in bucket && IsArchive(key)
    requires forall other :: other in Archives(bucket, GetParentPrefix(key)) && other != key ==>
              Stamp(other) != Stamp(key)
    ensures key in expired <==>
              IsOlder(Stamp(key), cutoff) && |Newer(Archives(bucket, GetParentPrefix(key)), key)| >= minimum
  {
    hide IsOlder, Stamp, GetParentPrefix, ValidPlan;
    if key in expired {
      DeletedLeavesTheMinimum(bucket, cutoff, minimum, expired, orphans, emptied, key);
      Contained(NoOlder(Archives(bucket - expired - orphans, GetParentPrefix(key)), key),
                Newer(Archives(bucket, GetParentPrefix(key)), key));
    } else if IsOlder(Stamp(key), cutoff) {
      KeptIsProtected(bucket, cutoff, minimum, expired, orphans, emptied, key);
    }
  }

  /** A minimum of one or more empties no repository, so it deletes nothing but archives. */
  lemma MinimumSparesTheRest(bucket: set<string>, cutoff: Instant, minimum: nat,
                             expired: set<string>, orphans: set<string>, emptied: set<string>)
    requires ValidPlan(bucket, cutoff, minimum, expired, orphans, emptied)
    requires minimum >= 1
    ensures emptied == {} && orphans == {}
  {
  }

  // ---- running it again ----

  /**
   The newest of what is left protect the same old archives the first choice did,
   however ties fall and whatever else has gone.
   */
  lemma NothingLeftToExpire(group: set<string>, gone: set<string>, left: set<string>, again: set<string>,
                            cutoff: Instant, minimum: nat)
    requires ExactExpiry(group, gone, cutoff, minimum) && left <= group - gone
    requires ExactExpiry(left, again, cutoff, minimum)
    ensures again == {}
  {
    hide IsOlder, Stamp;
    var chosen :| Newest(chosen, group, minimum) && ExpiresAllBut(chosen, group, gone, cutoff);
    var kept :| Newest(kept, left, minimum) && ExpiresAllBut(kept, left, again, cutoff);
    forall key | key in left - kept ensures !IsOlder(Stamp(key), cutoff) {
      if key in chosen {
        Smaller(kept, left, key);
        Smaller(chosen - {key}, chosen, key);
        var other := OneMore(chosen - {key}, kept);
        assert other in group - chosen;
        assert Stamp(key) == Stamp(other);
      }
    }
  }

  lemma ArchivesLeft(bucket: set<string>, expired: set<string>, removed: set<string>, prefix: string)
    requires expired <= removed
    ensures Archives(bucket - removed, prefix) <= Archives(bucket, prefix) - Archives(expired, prefix)
  {
    hide IsArchive, GetParentPrefix;
  }

  /**
   Once the archives of a plan are gone, whatever else went with them, the same cutoff
   finds nothing more to delete. For a complete delete this is stability; for one that
   failed after the archives it means the remaining orphans are never found again.
   */
  lemma SecondRunIsEmpty(bucket: set<string>, cutoff: Instant, minimum: nat,
                         expired: set<string>, orphans: set<string>, emptied: set<string>, removed: set<string>,
                         expired': set<string>, orphans': set<string>, emptied': set<string>)
    requires ValidPlan(bucket, cutoff, minimum, expired, orphans, emptied) && expired <= removed
    requires ValidPlan(bucket - removed, cutoff, minimum, expired', orphans', emptied')
    ensures expired' == {} && orphans' == {} && emptied' == {}
  {
    hide ExactExpiry, IsArchive, GetParentPrefix;
    forall prefix ensures Archives(expired', prefix) == {} {
      ArchivesLeft(bucket, expired, removed, prefix);
      NothingLeftToExpire(Archives(bucket, prefix), Archives(expired, prefix), Archives(bucket - removed, prefix),
                          Archives(expired', prefix), cutoff, minimum);
    }
    forall key ensures key !in expired' {
      assert key !in Archives(expired', GetParentPrefix(key));
    }
    assert emptied' == {};
  }

  /**
   Under any later cutoff and minimum, a repository emptied once is never emptied again: what
   the failed delete left of it stays.
   */
  lemma EmptiedOnlyOnce(bucket: set<string>, cutoff: Instant, minimum: nat,
                        expired: set<string>, orphans: set<string>, emptied: set<string>, removed: set<string>,
                        cutoff': Instant, minimum': nat,
                        expired': set<string>, orphans': set<string>, emptied': set<string>)
    requires ValidPlan(bucket, cutoff, minimum, expired, orphans, emptied) && expired <= removed
    requires ValidPlan(bucket - removed, cutoff', minimum', expired', orphans', emptied')
    ensures emptied !! emptied'
  {
    hide ExactExpiry, IsArchive, GetParentPrefix, Reclaimable;
    forall prefix | prefix in emptied ensures prefix !in emptied' {
      ArchivesLeft(bucket, expired, removed, prefix);
    }
  }

  /**
   After a delete that removed no matter what, a second run with the same cutoff sees an
   emptied repository as emptied again, and so finds its other objects, exactly when at
   least one of its archives is still there.
   */
  lemma FoundAgainIff(bucket: set<string>, cutoff: Instant, minimum: nat,
                      expired: set<string>, orphans: set<string>, emptied: set<string>, removed: set<string>,
                      expired': set<string>, orphans': set<string>, emptied': set<string>, prefix: string)
    requires ValidPlan(bucket, cutoff, minimum, expired, orphans, emptied) && prefix in emptied
    requires ValidPlan(bucket - removed, cutoff, minimum, expired', orphans', emptied')
    ensures prefix in emptied' <==> Archives(bucket - removed, prefix) != {}
  {
    EmptyingNeedsNoMinimum(bucket, cutoff, minimum, expired, orphans, emptied);
    var group, left := Archives(bucket, prefix), Archives(bucket - removed, prefix);
    assert ExactExpiry(group, Archives(expired, prefix), cutoff, 0);
    assert ExactExpiry(left, Archives(expired', prefix), cutoff, 0);
    hide Reclaimable, IsArchive, GetParentPrefix;
    assert left <= group;
    AllGo(group, left, Archives(expired', prefix), cutoff);
  }

  lemma EmptyingNeedsNoMinimum(bucket: set<string>, cutoff: Instant, minimum: nat,
                              expired: set<string>, orphans: set<string>, emptied: set<string>)
    requires ValidPlan(bucket, cutoff, minimum, expired, orphans, emptied) && emptied != {}
    ensures minimum == 0
  {
  }

  lemma AllGo(group: set<string>, left: set<string>, again: set<string>, cutoff: Instant)
    requires left <= group && ExactExpiry(group, group, cutoff, 0) && ExactExpiry(left, again, cutoff, 0)
    ensures again == left
  {
  }
}
