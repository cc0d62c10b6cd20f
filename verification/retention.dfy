/**
 Retention (internal/backup/retention.go): which archives expire, which
 repositories that empties, and which other objects go with them. The plan is
 specified on the bucket as a set of keys; the order of equally old archives is left
 open, as the program's unstable sort leaves it.
 */
module Retention {
  import opened Text
  import opened Keys

  // ---- time ----

  /** Seconds from the year 1 to 1970, added to a Unix time with 64-bit wrap-around. */
  const UNIX_TO_INTERNAL: int := 62135596800

  datatype Instant = Instant(seconds: int, nanos: nat)

  function Wrap64(n: int): (r: int)
    ensures MIN_INT64 <= r <= MAX_INT64
    ensures MIN_INT64 <= n <= MAX_INT64 ==> r == n
  {
    (n - MIN_INT64) % 0x1_0000_0000_0000_0000 + MIN_INT64
  }

  /** time.Unix(timestamp, 0).Before(cutoff). */
  predicate IsOlder(timestamp: int, cutoff: Instant) {
    var seconds := Wrap64(timestamp + UNIX_TO_INTERNAL);
    var limit := cutoff.seconds + UNIX_TO_INTERNAL;
    seconds < limit || (seconds == limit && cutoff.nanos > 0)
  }

  /**
   Exactly when the comparison is right for a cutoff after the year 1: up to the
   timestamp whose shift to the year 1 still fits 64 bits. Later ones wrap to the
   distant past and always count as older.
   */
  lemma OlderIsRightIff(timestamp: int, cutoff: Instant)
    requires 0 < timestamp <= MAX_INT64 && cutoff.nanos < 1_000_000_000
    requires -62135596800 < cutoff.seconds <= 0x7FFF_FFFF_FFFF_FFFF - 62135596800
    ensures (IsOlder(timestamp, cutoff) <==> timestamp * 1_000_000_000 < cutoff.seconds * 1_000_000_000 + cutoff.nanos)
            <==> timestamp <= 0x7FFF_FFFF_FFFF_FFFF - 62135596800
  {
  }

  // ---- the bucket ----

  predicate IsArchive(key: string) {
    TryGetArchiveTimestamp(key).Some?
  }

  function Stamp(key: string): int {
    if IsArchive(key) then TryGetArchiveTimestamp(key).value else 0
  }

  /** The archives directly under a repository prefix. */
  function Archives(bucket: set<string>, prefix: string): set<string> {
    set key | key in bucket && IsArchive(key) && GetParentPrefix(key) == prefix
  }

  function Least(a: nat, b: nat): nat { if a < b then a else b }

  /** A choice of the newest archives to protect, as many as the minimum or as there are; ties fall either way. */
  ghost predicate Newest(chosen: set<string>, group: set<string>, minimum: nat) {
    && chosen <= group && |chosen| == Least(minimum, |group|)
    && forall x, y :: x in chosen && y in group - chosen ==> Stamp(x) >= Stamp(y)
  }

  /** With this choice protected, exactly the other archives older than the cutoff expire. */
  ghost predicate ExpiresAllBut(chosen: set<string>, group: set<string>, expired: set<string>, cutoff: Instant) {
    && expired <= group
    && forall key :: key in group ==> (key in expired <==> key !in chosen && IsOlder(Stamp(key), cutoff))
  }

  ghost predicate ExactExpiry(group: set<string>, expired: set<string>, cutoff: Instant, minimum: nat) {
    exists chosen :: Newest(chosen, group, minimum) && ExpiresAllBut(chosen, group, expired, cutoff)
  }

  // ---- which other objects go ----

  function Segments(): set<string> {
    {ISSUES, MERGE_REQUESTS, RELEASES}
  }

  function CollectionPrefixes(emptied: set<string>): set<string> {
    set prefix, segment | prefix in emptied && segment in Segments() :: prefix + "/" + segment
  }

  /** The quantified rule: a direct child of an emptied repository, or anywhere inside one of its three collections. */
  ghost predicate Reclaimable(key: string, emptied: set<string>) {
    || GetParentPrefix(key) in emptied
    || (!HasPrefix(key, "/") &&
        exists prefix, segment :: prefix in emptied && segment in Segments() &&
          HasPrefix(key, prefix + "/" + segment + "/"))
  }

  predicate CutBy(key: string, i: int, collections: set<string>) {
    0 < i < |key| && key[i] == '/' && key[..i] in collections
  }

  /** A cut of the key at one of its slashes is a collection prefix exactly when the key lies inside that collection. */
  lemma CutIsInside(key: string, emptied: set<string>)
    ensures (exists i :: CutBy(key, i, CollectionPrefixes(emptied))) && !HasPrefix(key, "/") ==>
              exists prefix, segment :: prefix in emptied && segment in Segments() &&
                HasPrefix(key, prefix + "/" + segment + "/")
    ensures forall prefix, segment ::
              prefix in emptied && segment in Segments() && HasPrefix(key, prefix + "/" + segment + "/") ==>
              CutBy(key, |prefix| + 1 + |segment|, CollectionPrefixes(emptied))
  {
    if i :| CutBy(key, i, CollectionPrefixes(emptied)) {
      var prefix, segment :| prefix in emptied && segment in Segments() && prefix + "/" + segment == key[..i];
      assert key[..i + 1] == prefix + "/" + segment + "/";
      assert HasPrefix(key, prefix + "/" + segment + "/");
    }
    forall prefix, segment | prefix in emptied && segment in Segments() && HasPrefix(key, prefix + "/" + segment + "/")
      ensures CutBy(key, |prefix| + 1 + |segment|, CollectionPrefixes(emptied))
    {
      var whole := prefix + "/" + segment + "/";
      var i := |whole| - 1;
      assert key[..|whole|][i] == '/';
      assert key[..i] == key[..|whole|][..i] == prefix + "/" + segment;
      assert prefix + "/" + segment in CollectionPrefixes(emptied);
    }
  }

  lemma ReclaimableByCut(key: string, emptied: set<string>)
    ensures Reclaimable(key, emptied) <==>
              || GetParentPrefix(key) in emptied
              || (!HasPrefix(key, "/") && exists i :: CutBy(key, i, CollectionPrefixes(emptied)))
  {
    CutIsInside(key, emptied);
  }

  /** The rule with its names: metadata.json and the like, and everything in issues, merge requests and releases. */
  lemma EmptyingTakes(key: string, emptied: set<string>)
    ensures Reclaimable(key, emptied) <==>
              || GetParentPrefix(key) in emptied
              || (!HasPrefix(key, "/") &&
                  exists prefix :: prefix in emptied && TakesInside(key, prefix))
  {
    hide HasPrefix, GetParentPrefix;
    assert "issues" in Segments() && "merge-requests" in Segments() && "releases" in Segments();
  }

  predicate TakesInside(key: string, prefix: string) {
    || HasPrefix(key, prefix + "/" + "issues" + "/")
    || HasPrefix(key, prefix + "/" + "merge-requests" + "/")
    || HasPrefix(key, prefix + "/" + "releases" + "/")
  }

  lemma UnderCollection(key: string, prefix: string, segment: string, rest: string)
    requires prefix != "" && prefix[0] != '/' && segment in Segments() && key == prefix + "/" + segment + "/" + rest
    ensures Reclaimable(key, {prefix})
  {
    hide GetParentPrefix;
    var collection := prefix + "/" + segment + "/";
    assert key[..|collection|] == collection && key[0] == prefix[0];
  }

  /** Everything that was stored for a repository beside its archives goes with its last archive. */
  lemma BuiltObjectsAreReclaimed(prefix: string, segment: string, identifier: string, name: string)
    requires TrimSlashes(prefix) != "" && segment in Segments()
    ensures var emptied, collection := {TrimSlashes(prefix)}, BuildCollectionPrefix(prefix, segment);
            && Reclaimable(BuildRepositoryMetadataObjectKey(prefix), emptied)
            && Reclaimable(BuildDocumentObjectKey(collection, identifier), emptied)
            && Reclaimable(BuildManifestObjectKey(collection), emptied)
            && Reclaimable(BuildAttachmentObjectKey(collection, identifier, name), emptied)
  {
    hide TrimLeft, TrimRight, GetParentPrefix, Segments, Reclaimable;
    var head, collection := TrimSlashes(prefix), BuildCollectionPrefix(prefix, segment);
    MetadataIsChild(prefix);
    assert BuildDocumentObjectKey(collection, identifier) == head + "/" + segment + "/" + (identifier + ".json");
    UnderCollection(BuildDocumentObjectKey(collection, identifier), head, segment, identifier + ".json");
    UnderCollection(BuildManifestObjectKey(collection), head, segment, MANIFEST_NAME);
    var place := ATTACHMENTS + "/" + identifier + "/" + name;
    assert BuildAttachmentObjectKey(collection, identifier, name) == head + "/" + segment + "/" + place;
    UnderCollection(BuildAttachmentObjectKey(collection, identifier, name), head, segment, place);
  }

  lemma MetadataIsChild(prefix: string)
    requires TrimSlashes(prefix) != ""
    ensures Reclaimable(BuildRepositoryMetadataObjectKey(prefix), {TrimSlashes(prefix)})
  {
    hide Trim, HasPrefix, Segments, LastIndex;
    var head := TrimSlashes(prefix);
    var key := head + "/" + METADATA_NAME;
    LastSlash(head, METADATA_NAME);
    assert BuildRepositoryMetadataObjectKey(prefix) == key && key[..|head|] == head;
  }

  lemma LeadingSlash(key: string)
    ensures HasPrefix(key, "/") <==> Index(key, '/') == 0
  {
  }

  /** No slash lies between one found and the next one found after it. */
  lemma NoCutBetween(key: string, i: nat, collections: set<string>)
    requires i < |key|
    ensures var next := Index(key[i + 1..], '/');
            forall j :: i < j && (next < 0 || j < i + 1 + next) ==> !CutBy(key, j, collections)
  {
  }

  /** Walks the key's own ancestors, shortest first, instead of every emptied repository. */
  method IsReclaimableOrphan(key: string, emptied: set<string>, collections: set<string>) returns (reclaimable: bool)
    requires collections == CollectionPrefixes(emptied)
    ensures reclaimable <==> Reclaimable(key, emptied)
  {
    hide Reclaimable, HasPrefix, GetParentPrefix, CollectionPrefixes;
    ReclaimableByCut(key, emptied);
    LeadingSlash(key);
    if GetParentPrefix(key) in emptied {
      return true;
    }
    var i := Index(key, '/');
    while i > 0
      invariant i < |key|
      invariant i > 0 ==> key[i] == '/' && !HasPrefix(key, "/")
      invariant forall j :: 0 < j < i ==> !CutBy(key, j, collections)
      invariant i <= 0 ==> HasPrefix(key, "/") || forall j :: !CutBy(key, j, collections)
      decreases |key| - i
    {
      if key[..i] in collections {
        assert CutBy(key, i, collections);
        return true;
      }
      NoCutBetween(key, i, collections);
      var next := Index(key[i + 1..], '/');
      if next < 0 {
        break;
      }
      i := next + i + 1;
    }
    return false;
  }

  /**
   What lies under a repository's nested snippets does not notice that repository's
   emptying: it goes only if something else in the emptied set takes it.
   */
  lemma SnippetsSurvive(prefix: string, rest: string, emptied: set<string>)
    ensures var key := prefix + "/snippets/" + rest;
            Reclaimable(key, emptied) <==> Reclaimable(key, emptied - {prefix})
  {
    hide HasPrefix, LastIndex;
    var key := prefix + "/snippets/" + rest;
    var deepest := |prefix| + 9;
    assert key[deepest] == '/';
    LastIndexAtLeast(key, '/', deepest);
    assert key[|prefix| + 1] == 's';
    forall segment | segment in Segments() ensures !HasPrefix(key, prefix + "/" + segment + "/") {
      var inside := prefix + "/" + segment + "/";
      assert inside[|prefix| + 1] == segment[0] != 's';
      NotPrefix(key, inside, |prefix| + 1);
    }
  }
}
