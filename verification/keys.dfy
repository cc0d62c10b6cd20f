/**
 The object-key grammar (internal/paths/keys.go): how archive, document, manifest
 and attachment keys are built, and what retention reads back out of them.
 */
module Keys {
  import opened Wrappers
  import opened Text

  const ARCHIVE_SUFFIX: string := "_repo.tar.gz"
  const METADATA_NAME: string := "metadata.json"
  const MANIFEST_NAME: string := "index.json"
  const ATTACHMENTS: string := "attachments"
  const ISSUES: string := "issues"
  const MERGE_REQUESTS: string := "merge-requests"
  const RELEASES: string := "releases"

  function BuildArchiveObjectKey(prefix: string, timestamp: int): string {
    TrimSlashes(prefix) + "/" + FormatInt(timestamp) + ARCHIVE_SUFFIX
  }

  function BuildRepositoryMetadataObjectKey(prefix: string): string {
    TrimSlashes(prefix) + "/" + METADATA_NAME
  }

  function BuildCollectionPrefix(prefix: string, segment: string): string {
    TrimSlashes(prefix) + "/" + segment
  }

  function BuildDocumentObjectKey(collection: string, identifier: string): string {
    collection + "/" + identifier + ".json"
  }

  function BuildManifestObjectKey(collection: string): string {
    collection + "/" + MANIFEST_NAME
  }

  function BuildAttachmentObjectKey(collection: string, identifier: string, fileName: string): string {
    collection + "/" + ATTACHMENTS + "/" + identifier + "/" + fileName
  }

  function Leaf(key: string): string {
    key[LastIndex(key, '/') + 1..]
  }

  /** A slash-free suffix of a key lies within its leaf, so slicing it off the leaf is always in bounds. */
  lemma SuffixIsInLeaf(key: string, suffix: string)
    requires HasSuffix(key, suffix) && '/' !in suffix
    ensures |suffix| <= |Leaf(key)| && HasSuffix(Leaf(key), suffix)
  {
  }

  function TryGetArchiveTimestamp(key: string): (r: Option<int>)
    ensures r.Some? ==> 0 < r.value <= MAX_INT64
  {
    if !HasSuffix(key, ARCHIVE_SUFFIX) then None
    else
      SuffixIsInLeaf(key, ARCHIVE_SUFFIX);
      var leaf := Leaf(key);
      var timestamp := ParseInt64(leaf[..|leaf| - |ARCHIVE_SUFFIX|]);
      if timestamp.None? || timestamp.value <= 0 then None else timestamp
  }

  function GetParentPrefix(key: string): string {
    var slash := LastIndex(key, '/');
    if slash <= 0 then "" else key[..slash]
  }

  /** The listing prefix: surrounding slashes trimmed, then exactly one trailing slash; blank stays blank. */
  function EnsurePrefix(keyOrPrefix: string): string {
    var value := TrimSlashes(keyOrPrefix);
    if TrimSpace(value) == "" then "" else value + "/"
  }

  // ---- what the grammar guarantees ----

  /** The last slash of a prefix joined with a slash-free leaf is the joint. */
  lemma LastSlash(head: string, leaf: string)
    requires '/' !in leaf
    ensures LastIndex(head + "/" + leaf, '/') == |head|
    ensures Leaf(head + "/" + leaf) == leaf
  {
    var key := head + "/" + leaf;
    assert key[|head| + 1..] == leaf;
    LastIndexIs(key, '/', |head|);
  }

  /** Retention reads back exactly the timestamp and the repository prefix an archive key was built from. */
  lemma ArchiveRoundTrip(prefix: string, timestamp: int)
    requires 0 < timestamp <= MAX_INT64
    ensures TryGetArchiveTimestamp(BuildArchiveObjectKey(prefix, timestamp)) == Some(timestamp)
    ensures GetParentPrefix(BuildArchiveObjectKey(prefix, timestamp)) == TrimSlashes(prefix)
  {
    hide TrimSlashes, FormatInt, ParseInt64, TryGetArchiveTimestamp;
    var head, digits := TrimSlashes(prefix), FormatInt(timestamp);
    ParseFormat(timestamp);
    JoinedLater(head, "/", digits, ARCHIVE_SUFFIX);
    ArchiveShape(head, digits);
    HeadOf(head, "/", digits + ARCHIVE_SUFFIX);
  }

  lemma JoinedLater(a: string, b: string, c: string, d: string)
    ensures a + b + (c + d) == a + b + c + d
  {
  }

  lemma HeadOf(head: string, joint: string, leaf: string)
    ensures (head + joint + leaf)[..|head|] == head
  {
  }

  /** A key ending in a numeral and the archive suffix decodes to what the numeral parses to. */
  lemma ArchiveShape(head: string, digits: string)
    requires AllDigits(digits)
    ensures var key := head + "/" + (digits + ARCHIVE_SUFFIX);
            && LastIndex(key, '/') == |head|
            && TryGetArchiveTimestamp(key) ==
               (if ParseInt64(digits).None? || ParseInt64(digits).value <= 0 then None else ParseInt64(digits))
  {
    hide ParseInt64;
    var leaf := digits + ARCHIVE_SUFFIX;
    var key := head + "/" + leaf;
    assert '/' !in leaf;
    LastSlash(head, leaf);
    AppendedSuffix(digits, ARCHIVE_SUFFIX);
    assert HasSuffix(key, ARCHIVE_SUFFIX) by {
      AppendedSuffix(head + "/" + digits, ARCHIVE_SUFFIX);
      JoinedLater(head, "/", digits, ARCHIVE_SUFFIX);
    }
  }

  lemma LeafOf(key: string)
    ensures key == key[..LastIndex(key, '/') + 1] + Leaf(key) && '/' !in Leaf(key)
    ensures LastIndex(key, '/') >= 0 ==> key[LastIndex(key, '/')] == '/'
  {
  }

  /** The archives are exactly the keys whose last segment is a positive number followed by the suffix. */
  lemma ArchiveIsExact(key: string, timestamp: int)
    ensures TryGetArchiveTimestamp(key) == Some(timestamp) <==>
              exists folder, numeral :: IsArchiveName(key, folder, numeral, timestamp)
  {
    hide ParseInt64, HasSuffix;
    if TryGetArchiveTimestamp(key) == Some(timestamp) {
      SuffixIsInLeaf(key, ARCHIVE_SUFFIX);
      LeafOf(key);
      var leaf := Leaf(key);
      var numeral := WithoutSuffix(leaf);
      assert IsArchiveName(key, key[..LastIndex(key, '/') + 1], numeral, timestamp);
    }
    forall folder, numeral | IsArchiveName(key, folder, numeral, timestamp)
      ensures TryGetArchiveTimestamp(key) == Some(timestamp)
    {
      NameIsArchive(key, folder, numeral, timestamp);
    }
  }

  /** A folder or none, a numeral, and the suffix. */
  predicate IsArchiveName(key: string, folder: string, numeral: string, timestamp: int) {
    && key == folder + (numeral + "_repo.tar.gz") && (folder == "" || folder[|folder| - 1] == '/')
    && '/' !in numeral && ParseInt64(numeral) == Some(timestamp) && timestamp > 0
  }

  lemma WithoutSuffix(leaf: string) returns (stem: string)
    requires HasSuffix(leaf, ARCHIVE_SUFFIX)
    ensures leaf == stem + "_repo.tar.gz" && stem == leaf[..|leaf| - |ARCHIVE_SUFFIX|]
    ensures '/' !in leaf ==> '/' !in stem
  {
    stem := leaf[..|leaf| - |ARCHIVE_SUFFIX|];
  }

  lemma NameIsArchive(key: string, folder: string, numeral: string, timestamp: int)
    requires IsArchiveName(key, folder, numeral, timestamp)
    ensures TryGetArchiveTimestamp(key) == Some(timestamp)
  {
    hide ParseInt64, Leaf, LastIndex;
    var leaf := numeral + ARCHIVE_SUFFIX;
    NoSlashInSuffix(numeral);
    LeafIs(folder, leaf);
    assert HasSuffix(key, ARCHIVE_SUFFIX) by {
      AppendedSuffix(folder + numeral, ARCHIVE_SUFFIX);
      assert folder + numeral + ARCHIVE_SUFFIX == key;
    }
    hide HasSuffix;
    assert leaf[..|numeral|] == numeral && |leaf| - |ARCHIVE_SUFFIX| == |numeral|;
  }

  lemma NoSlashInSuffix(numeral: string)
    requires '/' !in numeral
    ensures '/' !in numeral + ARCHIVE_SUFFIX
  {
  }

  lemma LeafIs(folder: string, leaf: string)
    requires '/' !in leaf && (folder == "" || folder[|folder| - 1] == '/')
    ensures Leaf(folder + leaf) == leaf
  {
    hide LastIndex;
    var key := folder + leaf;
    assert forall i :: |folder| <= i < |key| ==> key[i] in leaf;
    assert folder != "" ==> key[|folder| - 1] == '/';
    assert LastIndex(key, '/') == |folder| - 1;
  }

  /** No two snapshots of slash-trimmed prefixes share a key. */
  lemma ArchiveKeysAreUnique(prefix: string, timestamp: int, prefix': string, timestamp': int)
    requires 0 < timestamp <= MAX_INT64 && 0 < timestamp' <= MAX_INT64
    requires BuildArchiveObjectKey(prefix, timestamp) == BuildArchiveObjectKey(prefix', timestamp')
    ensures TrimSlashes(prefix) == TrimSlashes(prefix') && timestamp == timestamp'
  {
    ArchiveRoundTrip(prefix, timestamp);
    ArchiveRoundTrip(prefix', timestamp');
  }

  /** JSON objects are never archives: documents, manifests and the repository's metadata. */
  lemma JsonIsNotArchive(key: string)
    requires HasSuffix(key, ".json")
    ensures TryGetArchiveTimestamp(key).None?
  {
  }

  lemma BuiltJsonIsNotArchive(prefix: string, collection: string, identifier: string)
    ensures TryGetArchiveTimestamp(BuildDocumentObjectKey(collection, identifier)).None?
    ensures TryGetArchiveTimestamp(BuildManifestObjectKey(collection)).None?
    ensures TryGetArchiveTimestamp(BuildRepositoryMetadataObjectKey(prefix)).None?
  {
  }

  /** An attachment leaf of eight hex characters, a dash and a name is never an archive, whatever the name ends in. */
  lemma AttachmentIsNotArchive(collection: string, identifier: string, hash: string, name: string)
    requires |hash| == 8 && (forall i :: 0 <= i < 8 ==> IsHexDigit(hash[i])) && '/' !in name
    ensures TryGetArchiveTimestamp(BuildAttachmentObjectKey(collection, identifier, hash + "-" + name)).None?
  {
    var leaf := hash + "-" + name;
    var head := collection + "/" + ATTACHMENTS + "/" + identifier;
    assert BuildAttachmentObjectKey(collection, identifier, leaf) == head + "/" + leaf;
    hide ParseInt64;
    assert '/' !in leaf && leaf[8] == '-';
    LastSlash(head, leaf);
    DashedLeafIsNotArchive(head + "/" + leaf, 8);
  }

  /** A leaf with a dash after its first character is no archive name: no numeral has one there, nor does the suffix. */
  lemma DashedLeafIsNotArchive(key: string, dash: nat)
    requires 0 < dash < |Leaf(key)| && Leaf(key)[dash] == '-'
    ensures TryGetArchiveTimestamp(key).None?
  {
    hide ParseInt64;
    if HasSuffix(key, ARCHIVE_SUFFIX) {
      SuffixIsInLeaf(key, ARCHIVE_SUFFIX);
      var leaf := Leaf(key);
      var stem := |leaf| - |ARCHIVE_SUFFIX|;
      NoDashInSuffix(leaf, dash);
      var text := leaf[..stem];
      assert text[dash] == '-';
      assert ParseInt64(text).Some? ==> IsDigit(text[dash]);
    }
  }

  lemma NoDashInSuffix(leaf: string, dash: nat)
    requires HasSuffix(leaf, ARCHIVE_SUFFIX) && dash < |leaf| && leaf[dash] == '-'
    ensures dash < |leaf| - |ARCHIVE_SUFFIX|
  {
  }
}
