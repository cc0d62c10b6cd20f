/**
 Retention deletes the other objects of an emptied repository by their keys alone
 (internal/backup/retention.go). A key can lie under two repositories' rules at once, one
 of them still with archives: exactly when their prefixes nest in a collection.
 */
module RetentionOverlap {
  import opened Text
  import opened Keys
  import opened Retention
  import opened RetentionPlan

  /** The rule for one repository. */
  ghost predicate BelongsTo(key: string, prefix: string) { Reclaimable(key, {prefix}) }

  predicate InCollection(key: string, prefix: string) {
    !HasPrefix(key, "/") && exists segment :: segment in Segments() && HasPrefix(key, prefix + "/" + segment + "/")
  }

  /** One prefix is a collection of the other, or lies deeper in one. */
  predicate Inside(inner: string, outer: string) {
    exists segment :: segment in Segments() && HasPrefix(inner + "/", outer + "/" + segment + "/")
  }

  lemma BelongsToIs(key: string, prefix: string)
    ensures BelongsTo(key, prefix) <==> GetParentPrefix(key) == prefix || InCollection(key, prefix)
  {
    hide HasPrefix, GetParentPrefix;
    assert prefix in {prefix};
  }

  /** A repository set takes what its members take. */
  lemma TakenByOne(key: string, emptied: set<string>)
    ensures Reclaimable(key, emptied) <==> exists prefix :: prefix in emptied && BelongsTo(key, prefix)
  {
    hide HasPrefix, GetParentPrefix, Reclaimable;
    if Reclaimable(key, emptied) {
      var prefix := TakesIt(key, emptied);
    }
    forall prefix | prefix in emptied && BelongsTo(key, prefix) ensures Reclaimable(key, emptied) {
      TakesMore(key, {prefix}, emptied);
    }
  }

  lemma TakesIt(key: string, emptied: set<string>) returns (prefix: string)
    requires Reclaimable(key, emptied)
    ensures prefix in emptied && BelongsTo(key, prefix)
  {
    hide HasPrefix, GetParentPrefix;
    if GetParentPrefix(key) in emptied {
      prefix := GetParentPrefix(key);
    } else {
      var segment;
      prefix, segment :| prefix in emptied && segment in Segments() && HasPrefix(key, prefix + "/" + segment + "/");
      assert prefix in {prefix};
    }
  }

  lemma TakesMore(key: string, few: set<string>, many: set<string>)
    requires few <= many && Reclaimable(key, few)
    ensures Reclaimable(key, many)
  {
    hide HasPrefix, GetParentPrefix;
  }

  // ---- two rules for one key ----

  /** Of two prefixes of one key, the shorter is a prefix of the longer. */
  lemma PrefixesNest(key: string, short: string, long: string)
    requires HasPrefix(key, short) && HasPrefix(key, long) && |short| <= |long|
    ensures HasPrefix(long, short)
  {
  }

  lemma PrefixOfPrefix(key: string, middle: string, short: string)
    requires HasPrefix(key, middle) && HasPrefix(middle, short)
    ensures HasPrefix(key, short)
  {
  }

  /** Everything under a repository's rule that does not start with a slash has its prefix and a slash before it. */
  lemma IsUnder(key: string, prefix: string)
    requires BelongsTo(key, prefix) && !HasPrefix(key, "/")
    ensures HasPrefix(key, prefix + "/") || (prefix == "" && GetParentPrefix(key) == "")
  {
    BelongsToIs(key, prefix);
    if GetParentPrefix(key) == prefix {
      var slash := LastIndex(key, '/');
      if slash > 0 {
        assert key[..slash + 1] == prefix + "/";
      }
    } else {
      var segment :| segment in Segments() && HasPrefix(key, prefix + "/" + segment + "/");
      PrefixOfPrefix(key, prefix + "/" + segment + "/", prefix + "/");
    }
  }

  /** Within the inner repository both rules hold. */
  lemma InnerIsShared(key: string, inner: string, outer: string)
    requires Inside(inner, outer) && BelongsTo(key, inner) && !HasPrefix(key, "/")
    ensures BelongsTo(key, outer)
  {
    hide GetParentPrefix, BelongsTo;
    var segment :| segment in Segments() && HasPrefix(inner + "/", outer + "/" + segment + "/");
    IsUnder(key, inner);
    assert inner != "";
    PrefixOfPrefix(key, inner + "/", outer + "/" + segment + "/");
    BelongsToIs(key, outer);
  }

  /** A direct child of one repository inside a collection of another. */
  lemma ChildInside(key: string, inner: string, outer: string)
    requires GetParentPrefix(key) == inner && InCollection(key, outer)
    ensures Inside(inner, outer)
  {
    var segment :| segment in Segments() && HasPrefix(key, outer + "/" + segment + "/");
    var whole := outer + "/" + segment + "/";
    assert key[..|whole|][|whole| - 1] == '/';
    LastIndexAtLeast(key, '/', |whole| - 1);
    var slash := LastIndex(key, '/');
    assert key[..slash + 1] == inner + "/";
    PrefixesNest(key, whole, inner + "/");
  }

  /** Two collections that share a key are the same or nest. */
  lemma CollectionsNest(key: string, p: string, q: string)
    requires InCollection(key, p) && InCollection(key, q) && p != q
    ensures Inside(p, q) || Inside(q, p)
  {
    var s :| s in Segments() && HasPrefix(key, p + "/" + s + "/");
    var t :| t in Segments() && HasPrefix(key, q + "/" + t + "/");
    if |p + "/" + s| <= |q + "/" + t| {
      PrefixesNest(key, p + "/" + s + "/", q + "/" + t + "/");
      LongerIsInside(q, t, p, s);
    } else {
      PrefixesNest(key, q + "/" + t + "/", p + "/" + s + "/");
      LongerIsInside(p, s, q, t);
    }
  }

  /** Between a prefix and the end of its collection there is no slash. */
  lemma CollectionSlashes(prefix: string, segment: string)
    requires segment in Segments()
    ensures var whole := prefix + "/" + segment + "/";
            && whole[|prefix|] == '/' && whole[..|prefix|] == prefix
            && forall k :: |prefix| < k < |whole| - 1 ==> whole[k] != '/'
  {
    var whole := prefix + "/" + segment + "/";
    assert forall c :: c in segment ==> c != '/';
    assert forall k :: |prefix| < k < |whole| - 1 ==> whole[k] == segment[k - |prefix| - 1];
  }

  lemma LongerIsInside(inner: string, t: string, outer: string, s: string)
    requires s in Segments() && t in Segments() && inner != outer
    requires HasPrefix(inner + "/" + t + "/", outer + "/" + s + "/")
    ensures Inside(inner, outer)
  {
    var long, short := inner + "/" + t + "/", outer + "/" + s + "/";
    var end := |short| - 1;
    assert long[end] == long[..|short|][end] == '/';
    CollectionSlashes(inner, t);
    if end > |inner| {
      assert long == short;
      SameCollection(inner, t, outer, s);
    } else {
      assert (inner + "/")[..|short|] == long[..|short|];
    }
  }

  /** A collection prefix has one owner. */
  lemma SameCollection(p: string, s: string, q: string, t: string)
    requires s in Segments() && t in Segments() && p + "/" + s + "/" == q + "/" + t + "/"
    ensures p == q
  {
    CollectionSlashes(p, s);
    CollectionSlashes(q, t);
    hide Segments;
    assert |p| == |q|;
  }

  /** Exactly which keys two repositories share: those of the inner one when their prefixes nest, otherwise none. */
  lemma SharedIff(key: string, p: string, q: string)
    requires p != q
    ensures BelongsTo(key, p) && BelongsTo(key, q) <==>
              !HasPrefix(key, "/") && ((Inside(q, p) && BelongsTo(key, q)) || (Inside(p, q) && BelongsTo(key, p)))
  {
    hide GetParentPrefix, HasPrefix, BelongsTo, Inside;
    if BelongsTo(key, p) && BelongsTo(key, q) {
      BelongsToIs(key, p);
      BelongsToIs(key, q);
      if GetParentPrefix(key) == p {
        ChildInside(key, p, q);
      } else if GetParentPrefix(key) == q {
        ChildInside(key, q, p);
      } else {
        CollectionsNest(key, p, q);
      }
    } else if !HasPrefix(key, "/") {
      if Inside(q, p) && BelongsTo(key, q) {
        InnerIsShared(key, q, p);
      }
      if Inside(p, q) && BelongsTo(key, p) {
        InnerIsShared(key, p, q);
      }
    }
  }

  // ---- what that means for a plan ----

  /** A repository that keeps an archive. */
  predicate IsLive(bucket: set<string>, expired: set<string>, prefix: string) {
    Archives(bucket - expired, prefix) != {}
  }

  /** A listed object that is no archive and belongs to the inner of two repositories. */
  ghost predicate ListedWithin(bucket: set<string>, key: string, inner: string, outer: string) {
    && key in bucket && !IsArchive(key) && !HasPrefix(key, "/")
    && Inside(inner, outer) && BelongsTo(key, inner)
  }

  lemma EmptiedIsNotLive(bucket: set<string>, cutoff: Instant, minimum: nat,
                         expired: set<string>, orphans: set<string>, emptied: set<string>, prefix: string)
    requires ValidPlan(bucket, cutoff, minimum, expired, orphans, emptied) && prefix in emptied
    ensures !IsLive(bucket, expired, prefix)
  {
    hide IsArchive, GetParentPrefix, ExactExpiry, Reclaimable;
    ArchivesLeft(bucket, expired, expired, prefix);
  }

  /**
   A plan takes an object of a repository that keeps an archive if and only if an emptied
   repository and a kept one nest, one of them in a collection of the other, with an
   object of the inner one listed.
   */
  lemma TakesFromTheLivingIff(bucket: set<string>, cutoff: Instant, minimum: nat,
                              expired: set<string>, orphans: set<string>, emptied: set<string>)
    requires ValidPlan(bucket, cutoff, minimum, expired, orphans, emptied)
    ensures (exists key, live :: key in orphans && IsLive(bucket, expired, live) && BelongsTo(key, live)) <==>
              exists key, gone, live :: gone in emptied && IsLive(bucket, expired, live) &&
                (ListedWithin(bucket, key, gone, live) || ListedWithin(bucket, key, live, gone))
  {
    hide IsArchive, ExactExpiry, Reclaimable, BelongsTo, IsLive, Inside, HasPrefix;
    if key, live :| key in orphans && IsLive(bucket, expired, live) && BelongsTo(key, live) {
      TakenByOne(key, emptied);
      var gone :| gone in emptied && BelongsTo(key, gone);
      EmptiedIsNotLive(bucket, cutoff, minimum, expired, orphans, emptied, gone);
      SharedIff(key, gone, live);
      assert ListedWithin(bucket, key, gone, live) || ListedWithin(bucket, key, live, gone);
    }
    if key, gone, live :| gone in emptied && IsLive(bucket, expired, live) &&
                          (ListedWithin(bucket, key, gone, live) || ListedWithin(bucket, key, live, gone))
    {
      EmptiedIsNotLive(bucket, cutoff, minimum, expired, orphans, emptied, gone);
      SharedIff(key, gone, live);
      TakenByOne(key, emptied);
      assert key in orphans && BelongsTo(key, live);
    }
  }

  /**
   Such a repository loses every other object listed under it, whatever its archives:
   with a young archive it stays live and its metadata goes all the same.
   */
  lemma NestedRepositoryIsStripped(bucket: set<string>, cutoff: Instant, minimum: nat,
                                   expired: set<string>, orphans: set<string>, emptied: set<string>,
                                   gone: string, live: string, kept: string, key: string)
    requires ValidPlan(bucket, cutoff, minimum, expired, orphans, emptied)
    requires gone in emptied && ListedWithin(bucket, key, live, gone)
    requires kept in Archives(bucket, live) && !IsOlder(Stamp(kept), cutoff)
    ensures key in orphans && IsLive(bucket, expired, live)
  {
    hide IsArchive, BelongsTo, GetParentPrefix, Reclaimable, Inside, IsOlder, ExactExpiry, HasPrefix;
    InnerIsShared(key, live, gone);
    TakenByOne(key, emptied);
    if kept in expired {
      DeletedLeavesTheMinimum(bucket, cutoff, minimum, expired, orphans, emptied, kept);
    }
    assert kept in Archives(bucket - expired, live);
  }

  lemma ParentOfChild(prefix: string, name: string)
    requires prefix != "" && '/' !in name
    ensures GetParentPrefix(prefix + "/" + name) == prefix
  {
    var key := prefix + "/" + name;
    assert key[|prefix| + 1..] == name;
    LastIndexIs(key, '/', |prefix|);
  }

  /** Its repository metadata, say, when the one is named after a collection of the other. */
  lemma MetadataIsWithin(bucket: set<string>, prefix: string, segment: string)
    requires prefix != "" && prefix[0] != '/' && segment in Segments()
    requires prefix + "/" + segment + "/" + METADATA_NAME in bucket
    ensures ListedWithin(bucket, prefix + "/" + segment + "/" + METADATA_NAME, prefix + "/" + segment, prefix)
  {
    hide GetParentPrefix, TryGetArchiveTimestamp, Segments;
    var live := prefix + "/" + segment;
    var key := live + "/" + METADATA_NAME;
    ParentOfChild(live, METADATA_NAME);
    BelongsToIs(key, live);
    AppendedSuffix(live + "/" + "metadata", ".json");
    assert key == live + "/" + "metadata" + ".json";
    JsonIsNotArchive(key);
    assert key[0] == prefix[0];
    assert HasPrefix(live + "/", prefix + "/" + segment + "/");
  }
}
