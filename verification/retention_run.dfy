/**
 The retention run step by step (internal/backup/retention.go, apply): classify the
 two listings, prune each repository, collect the orphans. Its result is a valid plan.
 */
module RetentionRun {
  import opened Wrappers
  import opened Text
  import opened Collections
  import opened Keys
  import opened Retention
  import opened RetentionPlan

  const REPOSITORIES_PREFIX: string := "repositories/"
  const SNIPPETS_PREFIX: string := "snippets/"

  // ---- classification ----

  /** Every archive is filed once under its repository, everything else is set aside. */
  ghost predicate Classified(keys: seq<string>, groups: map<string, seq<string>>, others: seq<string>) {
    && (forall prefix :: prefix in groups ==> Distinct(groups[prefix]))
    && (forall prefix :: prefix in groups ==> SetOf(groups[prefix]) == Archives(SetOf(keys), prefix) != {})
    && (forall prefix :: prefix !in groups ==> Archives(SetOf(keys), prefix) == {})
    && Distinct(others)
    && (forall key :: key in others <==> key in keys && !IsArchive(key))
  }

  lemma ArchivesAppend(keys: seq<string>, key: string, prefix: string)
    ensures Archives(SetOf(keys + [key]), prefix) ==
            if IsArchive(key) && GetParentPrefix(key) == prefix then Archives(SetOf(keys), prefix) + {key}
            else Archives(SetOf(keys), prefix)
  {
  }

  lemma ClassifiedAppend(keys: seq<string>, groups: map<string, seq<string>>, others: seq<string>, key: string)
    requires Classified(keys, groups, others) && key !in keys
    ensures IsArchive(key) ==>
              var prefix := GetParentPrefix(key);
              var group := if prefix in groups then groups[prefix] else [];
              Classified(keys + [key], groups[prefix := group + [key]], others)
    ensures !IsArchive(key) ==> Classified(keys + [key], groups, others + [key])
  {
    hide IsArchive, GetParentPrefix, Archives, Distinct;
    forall prefix ensures Archives(SetOf(keys + [key]), prefix) ==
            if IsArchive(key) && GetParentPrefix(key) == prefix then Archives(SetOf(keys), prefix) + {key}
            else Archives(SetOf(keys), prefix)
    {
      ArchivesAppend(keys, key, prefix);
    }
    if IsArchive(key) {
      var prefix := GetParentPrefix(key);
      var before := if prefix in groups then groups[prefix] else [];
      FiledAreListed(keys, prefix, before, key);
      DistinctSnoc(before, key);
    } else {
      DistinctSnoc(others, key);
    }
  }

  lemma FiledAreListed(keys: seq<string>, prefix: string, before: seq<string>, key: string)
    requires before == [] || SetOf(before) == Archives(SetOf(keys), prefix)
    requires key !in keys
    ensures key !in before && Distinct<string>([])
  {
    hide IsArchive, GetParentPrefix;
    assert forall k :: k in before ==> k in SetOf(before);
  }

  method Classify(objectKeys: seq<string>, groups0: map<string, seq<string>>, others0: seq<string>,
                  ghost seen: seq<string>)
    returns (groups: map<string, seq<string>>, others: seq<string>)
    requires Classified(seen, groups0, others0) && Distinct(seen + objectKeys)
    ensures Classified(seen + objectKeys, groups, others)
  {
    hide Classified, Archives, IsArchive, GetParentPrefix;
    groups, others := groups0, others0;
    assert seen + objectKeys[..0] == seen;
    for i := 0 to |objectKeys|
      invariant Classified(seen + objectKeys[..i], groups, others)
    {
      var objectKey := objectKeys[i];
      assert seen + objectKeys[..i + 1] == seen + objectKeys[..i] + [objectKey];
      assert objectKey !in seen + objectKeys[..i] by {
        assert forall j :: 0 <= j < |seen| + i ==> (seen + objectKeys)[j] == (seen + objectKeys[..i])[j];
        assert (seen + objectKeys)[|seen| + i] == objectKey;
      }
      ClassifiedAppend(seen + objectKeys[..i], groups, others, objectKey);
      if !IsArchive(objectKey) {
        others := others + [objectKey];
        continue;
      }
      var repositoryPrefix := GetParentPrefix(objectKey);
      var group := if repositoryPrefix in groups then groups[repositoryPrefix] else [];
      groups := groups[repositoryPrefix := group + [objectKey]];
    }
    assert objectKeys[..|objectKeys|] == objectKeys;
  }

  // ---- one repository ----

  predicate NewestFirst(ordered: seq<string>) {
    forall i, j :: 0 <= i < j < |ordered| ==> Stamp(ordered[i]) >= Stamp(ordered[j])
  }

  lemma SetCons(head: string, tail: seq<string>)
    ensures SetOf([head] + tail) == {head} + SetOf(tail)
  {
  }

  lemma SortedCons(head: string, tail: seq<string>)
    requires NewestFirst(tail) && forall key :: key in SetOf(tail) ==> Stamp(head) >= Stamp(key)
    ensures NewestFirst([head] + tail)
  {
  }

  lemma SortedTail(ordered: seq<string>)
    requires NewestFirst(ordered) && ordered != []
    ensures NewestFirst(ordered[1..])
    ensures forall key :: key in SetOf(ordered[1..]) ==> Stamp(ordered[0]) >= Stamp(key)
  {
  }

  function Inserted(ordered: seq<string>, key: string): (r: seq<string>)
    ensures SetOf(r) == SetOf(ordered) + {key} && |r| == |ordered| + 1
  {
    if ordered == [] || Stamp(key) >= Stamp(ordered[0]) then
      SetCons(key, ordered);
      [key] + ordered
    else
      var rest := Inserted(ordered[1..], key);
      SetCons(ordered[0], ordered[1..]);
      SetCons(ordered[0], rest);
      assert [ordered[0]] + ordered[1..] == ordered;
      [ordered[0]] + rest
  }

  lemma {:induction false} InsertedIsSorted(ordered: seq<string>, key: string)
    requires NewestFirst(ordered)
    ensures NewestFirst(Inserted(ordered, key))
  {
    hide Stamp, SetOf, NewestFirst;
    if ordered == [] {
      NothingIsSorted(key);
    } else {
      SortedTail(ordered);
      assert [ordered[0]] + ordered[1..] == ordered;
      SetCons(ordered[0], ordered[1..]);
      if Stamp(key) >= Stamp(ordered[0]) {
        SortedCons(key, ordered);
      } else {
        InsertedIsSorted(ordered[1..], key);
        SortedCons(ordered[0], Inserted(ordered[1..], key));
      }
    }
  }

  lemma NothingIsSorted(key: string)
    ensures NewestFirst([key] + [])
  {
  }

  /** Any sort will do; callers rely only on the order and the members. */
  function Sorted(snapshots: seq<string>): (r: seq<string>)
    ensures SetOf(r) == SetOf(snapshots) && |r| == |snapshots| && NewestFirst(r)
  {
    if snapshots == [] then []
    else
      assert SetOf(snapshots) == {snapshots[0]} + SetOf(snapshots[1..]);
      var rest := Sorted(snapshots[1..]);
      InsertedIsSorted(rest, snapshots[0]);
      Inserted(rest, snapshots[0])
  }

  lemma TopIsNewest(ordered: seq<string>, count: nat, minimum: nat)
    requires Distinct(ordered) && NewestFirst(ordered) && count == Least(minimum, |ordered|)
    ensures Newest(SetOf(ordered[..count]), SetOf(ordered), minimum)
    ensures SetOf(ordered) - SetOf(ordered[..count]) == SetOf(ordered[count..])
  {
    hide Stamp;
    SetSize(ordered);
    assert Distinct(ordered[..count]);
    SetSize(ordered[..count]);
    TopIsRest(ordered, count);
  }

  lemma TopIsRest(ordered: seq<string>, count: nat)
    requires Distinct(ordered) && count <= |ordered|
    ensures SetOf(ordered[..count]) <= SetOf(ordered)
    ensures SetOf(ordered) - SetOf(ordered[..count]) == SetOf(ordered[count..])
  {
  }

  /** Newest first, protect the minimum, expire what is older than the cutoff. */
  method Prune(snapshots: seq<string>, cutoff: Instant, minimum: nat) returns (expired: seq<string>)
    requires Distinct(snapshots)
    ensures Distinct(expired) && ExactExpiry(SetOf(snapshots), SetOf(expired), cutoff, minimum)
  {
    hide IsOlder, Stamp, Inserted, Sorted, Newest, NewestFirst;
    var ordered := Sorted(snapshots);
    SetSize(snapshots);
    SetSize(ordered);
    var protectedCount := Least(minimum, |ordered|);
    TopIsNewest(ordered, protectedCount, minimum);
    var rest := ordered[protectedCount..];
    expired := [];
    for i := 0 to |rest|
      invariant Distinct(expired)
      invariant forall key :: key in expired <==> key in rest[..i] && IsOlder(Stamp(key), cutoff)
    {
      if IsOlder(Stamp(rest[i]), cutoff) {
        expired := expired + [rest[i]];
      }
    }
    assert ExpiresAllBut(SetOf(ordered[..protectedCount]), SetOf(ordered), SetOf(expired), cutoff);
  }

  // ---- the run ----

  datatype Plan = Plan(expired: seq<string>, orphans: seq<string>, emptied: set<string>)
  {
    /** What is handed to one batched delete, archives first. */
    function KeysToDelete(): seq<string> { expired + orphans }
  }

  /** A listing names each key once, and only keys under its root. */
  predicate IsListing(keys: seq<string>, root: string) {
    Distinct(keys) && forall i :: 0 <= i < |keys| ==> HasPrefix(keys[i], root)
  }

  lemma RootsAreDisjoint(first: seq<string>, second: seq<string>)
    requires IsListing(first, REPOSITORIES_PREFIX) && IsListing(second, SNIPPETS_PREFIX)
    ensures Distinct([] + first) && Distinct([] + first + second)
  {
    var keys := first + second;
    forall i, j | 0 <= i < j < |keys| ensures keys[i] != keys[j] {
      if i < |first| <= j {
        FirstChar(first[i], REPOSITORIES_PREFIX);
        FirstChar(second[j - |first|], SNIPPETS_PREFIX);
      }
    }
    assert [] + first == first && [] + first + second == keys;
  }

  lemma FirstChar(key: string, prefix: string)
    requires HasPrefix(key, prefix) && prefix != ""
    ensures key != "" && key[0] == prefix[0]
  {
  }

  /** The part of a plan that concerns the repositories already visited. */
  ghost predicate PrunedSoFar(bucket: set<string>, cutoff: Instant, minimum: nat, visited: set<string>,
                              expired: set<string>, emptied: set<string>)
  {
    && (forall key :: key in expired ==> key in bucket && IsArchive(key) && GetParentPrefix(key) in visited)
    && (forall prefix :: prefix in visited ==>
          ExactExpiry(Archives(bucket, prefix), Archives(expired, prefix), cutoff, minimum))
    && (forall prefix :: prefix in emptied <==>
          prefix in visited && Archives(bucket, prefix) == Archives(expired, prefix))
  }

  lemma PrunedStep(bucket: set<string>, cutoff: Instant, minimum: nat, visited: set<string>,
                   expired: set<string>, emptied: set<string>, prefix: string, gone: set<string>)
    requires PrunedSoFar(bucket, cutoff, minimum, visited, expired, emptied)
    requires prefix !in visited && ExactExpiry(Archives(bucket, prefix), gone, cutoff, minimum)
    ensures PrunedSoFar(bucket, cutoff, minimum, visited + {prefix}, expired + gone,
                        if gone == Archives(bucket, prefix) then emptied + {prefix} else emptied)
    ensures expired !! gone
  {
    hide IsArchive, GetParentPrefix, Newest;
    forall other ensures Archives(expired + gone, other) == if other == prefix then gone else Archives(expired, other) {
    }
    hide ExactExpiry;
  }

  lemma DistinctJoin(a: seq<string>, b: seq<string>)
    requires Distinct(a) && Distinct(b) && SetOf(a) !! SetOf(b)
    ensures Distinct(a + b) && SetOf(a + b) == SetOf(a) + SetOf(b)
  {
    forall i, j | 0 <= i < j < |a + b| ensures (a + b)[i] != (a + b)[j] {
      if i < |a| <= j {
        assert a[i] in SetOf(a) && b[j - |a|] in SetOf(b);
      }
    }
  }

  method PruneAll(groups: map<string, seq<string>>, cutoff: Instant, minimum: nat, ghost bucket: seq<string>,
                  ghost others: seq<string>)
    returns (expired: seq<string>, emptied: set<string>)
    requires Classified(bucket, groups, others)
    ensures Distinct(expired) && PrunedSoFar(SetOf(bucket), cutoff, minimum, groups.Keys, SetOf(expired), emptied)
  {
    hide ExactExpiry, IsArchive, GetParentPrefix;
    expired, emptied := [], {};
    var left := groups.Keys;
    while left != {}
      invariant left <= groups.Keys && Distinct(expired)
      invariant PrunedSoFar(SetOf(bucket), cutoff, minimum, groups.Keys - left, SetOf(expired), emptied)
    {
      var repositoryPrefix :| repositoryPrefix in left;
      hide PrunedSoFar, Archives;
      var snapshots := groups[repositoryPrefix];
      var gone := Prune(snapshots, cutoff, minimum);
      PrunedStep(SetOf(bucket), cutoff, minimum, groups.Keys - left, SetOf(expired), emptied, repositoryPrefix,
                 SetOf(gone));
      DistinctJoin(expired, gone);
      SameSize(gone, snapshots, cutoff, minimum);
      expired := expired + gone;
      if |gone| == |snapshots| {
        emptied := emptied + {repositoryPrefix};
      }
      assert groups.Keys - left + {repositoryPrefix} == groups.Keys - (left - {repositoryPrefix});
      left := left - {repositoryPrefix};
    }
    assert groups.Keys - left == groups.Keys;
  }

  lemma Missing(part: set<string>, whole: set<string>) returns (key: string)
    requires part < whole
    ensures key in whole - part
  {
    key :| key in whole && key !in part;
  }

  lemma SameSize(gone: seq<string>, snapshots: seq<string>, cutoff: Instant, minimum: nat)
    requires Distinct(gone) && Distinct(snapshots) && ExactExpiry(SetOf(snapshots), SetOf(gone), cutoff, minimum)
    ensures |gone| == |snapshots| <==> SetOf(gone) == SetOf(snapshots)
  {
    hide Newest, IsOlder, Stamp, Distinct;
    SetSize(gone);
    SetSize(snapshots);
    if SetOf(gone) != SetOf(snapshots) {
      var key := Missing(SetOf(gone), SetOf(snapshots));
      Smaller(SetOf(gone), SetOf(snapshots), key);
    }
  }

  lemma PrunedIsValid(keys: seq<string>, groups: map<string, seq<string>>, others: seq<string>, cutoff: Instant,
                      minimum: nat,
                      expired: set<string>, orphans: set<string>, emptied: set<string>)
    requires Classified(keys, groups, others)
    requires PrunedSoFar(SetOf(keys), cutoff, minimum, groups.Keys, expired, emptied)
    requires forall key :: key in orphans <==> key in others && Reclaimable(key, emptied)
    ensures ValidPlan(SetOf(keys), cutoff, minimum, expired, orphans, emptied)
  {
    hide IsArchive, GetParentPrefix, Reclaimable, Distinct;
    forall prefix ensures ExactExpiry(Archives(SetOf(keys), prefix), Archives(expired, prefix), cutoff, minimum) {
      if prefix !in groups {
        assert Archives(SetOf(keys), prefix) == {} == Archives(expired, prefix);
        assert Newest({}, {}, minimum) && ExpiresAllBut({}, {}, {}, cutoff);
      }
    }
  }

  /** The keys set aside that a repository's emptying takes with it. */
  method CollectOrphans(nonArchiveKeys: seq<string>, emptied: set<string>) returns (orphans: seq<string>)
    requires Distinct(nonArchiveKeys)
    ensures Distinct(orphans) && forall key :: key in orphans <==> key in nonArchiveKeys && Reclaimable(key, emptied)
  {
    hide Reclaimable, CollectionPrefixes;
    var collections := CollectionPrefixes(emptied);
    orphans := [];
    for i := 0 to |nonArchiveKeys|
      invariant Distinct(orphans)
      invariant forall key :: key in orphans <==> key in nonArchiveKeys[..i] && Reclaimable(key, emptied)
    {
      var reclaimable := IsReclaimableOrphan(nonArchiveKeys[i], emptied, collections);
      if reclaimable {
        orphans := orphans + [nonArchiveKeys[i]];
      }
    }
    assert nonArchiveKeys[..|nonArchiveKeys|] == nonArchiveKeys;
  }

  /**
   Nothing is decided unless both listings succeeded, and what is
   decided is a valid plan of the two listings' keys, each key once.
   */
  method Decide(repositories: Option<seq<string>>, snippets: Option<seq<string>>, cutoff: Instant, minimum: nat)
    returns (plan: Option<Plan>)
    requires repositories.Some? ==> IsListing(repositories.value, "repositories/")
    requires snippets.Some? ==> IsListing(snippets.value, "snippets/")
    ensures plan.Some? <==> repositories.Some? && snippets.Some?
    ensures plan.Some? ==>
              && Distinct(plan.value.KeysToDelete())
              && ValidPlan(SetOf(repositories.value + snippets.value), cutoff, minimum,
                           SetOf(plan.value.expired), SetOf(plan.value.orphans), plan.value.emptied)
  {
    if repositories.None? || snippets.None? {
      return None;
    }
    hide Classified, PrunedSoFar, Reclaimable, ValidPlan, IsArchive, IsListing;
    RootsAreDisjoint(repositories.value, snippets.value);
    ghost var keys := [] + repositories.value + snippets.value;
    NothingClassified();
    var groups, others := Classify(repositories.value, map[], [], []);
    groups, others := Classify(snippets.value, groups, others, [] + repositories.value);
    var expired, emptied := PruneAll(groups, cutoff, minimum, keys, others);
    OthersAreDistinct(keys, groups, others);
    hide Distinct;
    var orphans := CollectOrphans(others, emptied);
    PrunedIsValid(keys, groups, others, cutoff, minimum, SetOf(expired), SetOf(orphans), emptied);
    assert keys == repositories.value + snippets.value;
    PlanIsDistinct(SetOf(keys), cutoff, minimum, expired, orphans, emptied);
    plan := Some(Plan(expired, orphans, emptied));
  }

  lemma NothingClassified()
    ensures Classified([], map[], []) && Distinct<string>([])
  {
  }

  lemma OthersAreDistinct(keys: seq<string>, groups: map<string, seq<string>>, others: seq<string>)
    requires Classified(keys, groups, others)
    ensures Distinct(others)
  {
  }

  lemma PlanIsDistinct(bucket: set<string>, cutoff: Instant, minimum: nat,
                       expired: seq<string>, orphans: seq<string>, emptied: set<string>)
    requires ValidPlan(bucket, cutoff, minimum, SetOf(expired), SetOf(orphans), emptied)
    requires Distinct(expired) && Distinct(orphans)
    ensures Distinct(expired + orphans)
  {
    hide ExactExpiry, Archives, IsArchive, Reclaimable;
    assert SetOf(expired) !! SetOf(orphans);
    DistinctJoin(expired, orphans);
  }
}
