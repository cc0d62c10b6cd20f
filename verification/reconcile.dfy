/**
 Reconciliation of a stored collection (internal/backup/metadata.go, reconcile and
 reconcilableSlug): which stored objects belong to which item, and which of them are
 deleted after a complete pass.
 */
module Reconcile {
  import opened Wrappers
  import opened Text
  import opened Keys
  import Deletes
  import MetadataPool
  import Names

  /** A usable item slug: the program's own slugs are all of this kind. */
  predicate IsSlug(slug: string) {
    slug != "" && '/' !in slug
  }

  /** The item an object belongs to, from its key relative to the collection. */
  function ReconcilableSlug(relative: string): Option<string> {
    var firstSlash := Index(relative, '/');
    if firstSlash < 0 then
      if !HasSuffix(relative, ".json") then None
      else Nonempty(relative[..|relative| - 5])
    else if relative[..firstSlash] != ATTACHMENTS then None
    else
      var afterAttachments := relative[firstSlash + 1..];
      var nextSlash := Index(afterAttachments, '/');
      if nextSlash < 0 then Nonempty(afterAttachments)
      else Nonempty(afterAttachments[..nextSlash])
  }

  function Nonempty(slug: string): Option<string> {
    if slug == "" then None else Some(slug)
  }

  // ---- the key language ----

  predicate IsDocumentOf(relative: string, slug: string) {
    relative == slug + ".json"
  }

  predicate IsAttachmentOf(relative: string, slug: string) {
    relative == ATTACHMENTS + "/" + slug || HasPrefix(relative, ATTACHMENTS + "/" + slug + "/")
  }

  lemma DocumentHasSlug(slug: string)
    requires IsSlug(slug)
    ensures ReconcilableSlug(slug + ".json") == Some(slug)
  {
  }

  lemma AttachmentHasSlug(relative: string, slug: string)
    requires IsSlug(slug) && IsAttachmentOf(relative, slug)
    ensures ReconcilableSlug(relative) == Some(slug)
  {
    hide Index;
    if relative == ATTACHMENTS + "/" + slug {
      FirstCut(ATTACHMENTS, '/', slug);
    } else {
      var inside := ATTACHMENTS + "/" + slug + "/";
      var rest := relative[|inside|..];
      assert relative == ATTACHMENTS + "/" + (slug + "/" + rest) by {
        assert relative == inside + rest;
      }
      FirstCut(ATTACHMENTS, '/', slug + "/" + rest);
      FirstCut(slug, '/', rest);
    }
  }

  lemma SlugHasShape(relative: string)
    requires ReconcilableSlug(relative).Some?
    ensures var slug := ReconcilableSlug(relative).value;
            IsSlug(slug) && (IsDocumentOf(relative, slug) || IsAttachmentOf(relative, slug))
  {
    var firstSlash := Index(relative, '/');
    if firstSlash < 0 {
      var slug := relative[..|relative| - 5];
      assert relative == slug + relative[|relative| - 5..];
    } else {
      var after := relative[firstSlash + 1..];
      var nextSlash := Index(after, '/');
      hide Index;
      assert relative == relative[..firstSlash] + [relative[firstSlash]] + after;
      if nextSlash >= 0 {
        assert after == after[..nextSlash] + "/" + after[nextSlash + 1..];
        InsideOf(relative, after[..nextSlash], after[nextSlash + 1..]);
      }
    }
  }

  lemma InsideOf(relative: string, slug: string, rest: string)
    requires relative == ATTACHMENTS + "/" + (slug + "/" + rest)
    ensures HasPrefix(relative, ATTACHMENTS + "/" + slug + "/")
  {
  }

  /**
   An object belongs to a slug exactly when it is that item's document, or its attachment
   folder, or lies in that folder.
   */
  lemma SlugIsExact(relative: string, slug: string)
    ensures ReconcilableSlug(relative) == Some(slug) <==>
              IsSlug(slug) && (IsDocumentOf(relative, slug) || IsAttachmentOf(relative, slug))
  {
    hide ReconcilableSlug, IsAttachmentOf, IsSlug;
    if IsSlug(slug) && IsDocumentOf(relative, slug) {
      DocumentHasSlug(slug);
    }
    if IsSlug(slug) && IsAttachmentOf(relative, slug) {
      AttachmentHasSlug(relative, slug);
    }
    if ReconcilableSlug(relative) == Some(slug) {
      SlugHasShape(relative);
    }
  }

  // ---- which objects are stale ----

  /** Declaratively: not the manifest, and the document or an attachment of an item that was not fetched. */
  ghost predicate IsStale(key: string, fetched: set<string>, collection: string, manifest: string) {
    && key != manifest
    && HasPrefix(key, collection + "/")
    && exists slug :: IsSlug(slug) && slug !in fetched
         && (IsDocumentOf(key[|collection| + 1..], slug) || IsAttachmentOf(key[|collection| + 1..], slug))
  }

  lemma StaleBySlug(key: string, fetched: set<string>, collection: string, manifest: string)
    ensures IsStale(key, fetched, collection, manifest) <==>
              && key != manifest && HasPrefix(key, collection + "/")
              && var slug := ReconcilableSlug(key[|collection| + 1..]); slug.Some? && slug.value !in fetched
  {
    hide ReconcilableSlug, IsAttachmentOf, IsDocumentOf, IsSlug;
    if HasPrefix(key, collection + "/") {
      var relative := key[|collection| + 1..];
      forall slug ensures ReconcilableSlug(relative) == Some(slug) <==>
                            IsSlug(slug) && (IsDocumentOf(relative, slug) || IsAttachmentOf(relative, slug))
      {
        SlugIsExact(relative, slug);
      }
    }
  }

  /** The listing prefix of a collection under a repository is the collection and one slash. */
  lemma CollectionListing(prefix: string, segment: string)
    requires (exists c :: c in prefix && !IsSlash(c)) && segment in {ISSUES, MERGE_REQUESTS, RELEASES}
    ensures EnsurePrefix(BuildCollectionPrefix(prefix, segment)) == BuildCollectionPrefix(prefix, segment) + "/"
  {
    hide Trim, TrimSpace;
    var collection := BuildCollectionPrefix(prefix, segment);
    CollectionEnds(prefix, segment);
    TrimStable(collection, IsSlash);
    NotBlank(collection);
  }

  lemma CollectionEnds(prefix: string, segment: string)
    requires (exists c :: c in prefix && !IsSlash(c)) && segment in {ISSUES, MERGE_REQUESTS, RELEASES}
    ensures var collection := BuildCollectionPrefix(prefix, segment);
            !IsSlash(collection[0]) && !IsSlash(collection[|collection| - 1]) && !IsSpace(collection[|collection| - 1])
  {
  }

  lemma NotBlank(s: string)
    requires s != "" && !IsSpace(s[|s| - 1])
    ensures TrimSpace(s) != ""
  {
  }

  /** The keys a listing has of items that were not fetched. */
  method StaleKeys(fetched: set<string>, collection: string, manifest: string, existing: seq<string>)
    returns (keysToDelete: seq<string>)
    requires EnsurePrefix(collection) == collection + "/"
    ensures forall key :: key in keysToDelete <==> key in existing && IsStale(key, fetched, collection, manifest)
  {
    hide IsStale, ReconcilableSlug, EnsurePrefix, HasPrefix;
    keysToDelete := [];
    var normalizedPrefix := EnsurePrefix(collection);
    for i := 0 to |existing|
      invariant forall key :: key in keysToDelete <==>
                key in existing[..i] && IsStale(key, fetched, collection, manifest)
    {
      var objectKey := existing[i];
      StaleBySlug(objectKey, fetched, collection, manifest);
      PrefixFits(objectKey, normalizedPrefix);
      if objectKey != manifest && HasPrefix(objectKey, normalizedPrefix) {
        var slug := ReconcilableSlug(objectKey[|normalizedPrefix|..]);
        if slug.Some? && slug.value !in fetched {
          keysToDelete := keysToDelete + [objectKey];
        }
      }
    }
    assert existing[..|existing|] == existing;
  }

  /**
   List, choose the stale keys, delete them in one batched call; a failed listing deletes
   nothing. The program drops the delete's error, here a ghost: there is none exactly when
   every stale key was acknowledged.
   */
  method Reconcile(world: Deletes.World, now: nat, fetched: set<string>, collection: string, manifest: string,
                   existing: Option<seq<string>>)
    returns (keysToDelete: seq<string>, sent: seq<Deletes.Exchange>, later: nat, ghost failure: Option<Deletes.Failure>)
    requires EnsurePrefix(collection) == collection + "/"
    ensures existing.None? ==> keysToDelete == [] && sent == []
    ensures existing.Some? ==>
              forall key :: key in keysToDelete <==>
                key in existing.value && IsStale(key, fetched, collection, manifest)
    ensures Deletes.AckedKeys(sent) <= Deletes.Normalized(keysToDelete)
    ensures failure.None? <==> Deletes.AckedKeys(sent) == Deletes.Normalized(keysToDelete)
    ensures Deletes.Genuine(world, now, later, sent)
  {
    hide IsStale, EnsurePrefix, Deletes.Normalized, Deletes.Genuine;
    keysToDelete, sent, later, failure := [], [], now, None;
    NothingToDelete();
    Deletes.NothingSent(world, now, now);
    if existing.None? {
      return;
    }
    keysToDelete := StaleKeys(fetched, collection, manifest, existing.value);
    if |keysToDelete| > 0 {
      var error, exchanges, after := Deletes.DeleteObjects(world, now, keysToDelete);
      sent, later, failure := exchanges, after, error;
    }
  }

  lemma NothingToDelete()
    ensures Deletes.AckedKeys([]) == Deletes.Normalized([]) == []
  {
  }

  lemma PrefixFits(key: string, prefix: string)
    ensures HasPrefix(key, prefix) ==> |prefix| <= |key|
  {
  }

  // ---- what a successful reconcile leaves and removes ----

  lemma UnderCollection(collection: string, relative: string)
    ensures HasPrefix(collection + "/" + relative, collection + "/")
    ensures (collection + "/" + relative)[|collection| + 1..] == relative
  {
  }

  lemma AttachmentInFolder(slug: string, name: string)
    ensures IsAttachmentOf(ATTACHMENTS + "/" + slug + "/" + name, slug)
  {
  }

  /**
   The two builders and the reader agree: a built document or attachment is stale exactly when
   its item was not fetched.
   */
  lemma BuiltKeysAreStaleIff(fetched: set<string>, collection: string, slug: string, name: string)
    requires IsSlug(slug)
    ensures var manifest := BuildManifestObjectKey(collection);
            && (IsStale(BuildDocumentObjectKey(collection, slug), fetched, collection, manifest)
                <==> slug != "index" && slug !in fetched)
            && (IsStale(BuildAttachmentObjectKey(collection, slug, name), fetched, collection, manifest)
                <==> slug !in fetched)
            && !IsStale(manifest, fetched, collection, manifest)
  {
    hide IsStale, ReconcilableSlug, IsAttachmentOf;
    var manifest := BuildManifestObjectKey(collection);
    var document, attachment := slug + ".json", ATTACHMENTS + "/" + slug + "/" + name;
    DocumentHasSlug(slug);
    AttachmentInFolder(slug, name);
    AttachmentHasSlug(attachment, slug);
    UnderCollection(collection, document);
    UnderCollection(collection, attachment);
    BuiltKeysSplit(collection, slug, name);
    StaleBySlug(collection + "/" + document, fetched, collection, manifest);
    StaleBySlug(collection + "/" + attachment, fetched, collection, manifest);
    StaleBySlug(manifest, fetched, collection, manifest);
  }

  lemma BuiltKeysSplit(collection: string, slug: string, name: string)
    requires IsSlug(slug)
    ensures BuildDocumentObjectKey(collection, slug) == collection + "/" + (slug + ".json")
    ensures BuildAttachmentObjectKey(collection, slug, name) ==
            collection + "/" + (ATTACHMENTS + "/" + slug + "/" + name)
    ensures BuildDocumentObjectKey(collection, slug) == BuildManifestObjectKey(collection) <==> slug == "index"
    ensures BuildAttachmentObjectKey(collection, slug, name) != BuildManifestObjectKey(collection)
  {
    var document := collection + "/" + (slug + ".json");
    assert BuildDocumentObjectKey(collection, slug) == document;
    assert MANIFEST_NAME == "index" + ".json";
    if document == BuildManifestObjectKey(collection) {
      assert document[|collection| + 1..] == slug + ".json" == MANIFEST_NAME;
      assert (slug + ".json")[..|slug|] == slug == MANIFEST_NAME[..5];
    }
    assert BuildAttachmentObjectKey(collection, slug, name)[|collection| + 1] == 'a';
    assert BuildManifestObjectKey(collection)[|collection| + 1] == 'i';
  }

  /** Issue and merge request slugs are decimal numbers. */
  lemma NumberSlugIsUsable(number: int)
    ensures IsSlug(FormatInt(number)) && FormatInt(number) != "index"
  {
    hide FormatNat;
    var text := FormatInt(number);
    assert text[0] == '-' || IsDigit(text[0]);
    assert forall c :: c in text ==> c == '-' || IsDigit(c);
  }

  /** Release slugs are file-name segments, and never the manifest's base name. */
  lemma ReleaseSlugIsASlug(tag: string, shortHash: string)
    requires Names.IsShortHash(shortHash)
    ensures IsSlug(Names.ResolveReleaseSlug(tag, shortHash)) && Names.ResolveReleaseSlug(tag, shortHash) != "index"
  {
    Names.ReleaseSlugIsUsable(tag, shortHash);
  }

  /** A stored attachment never decodes as an archive, whatever its upload was called. */
  lemma StoredAttachmentIsNotArchive(collection: string, slug: string, shortHash: string, rawName: string)
    requires Names.IsShortHash(shortHash)
    ensures var leaf := Names.BuildStorageFileName(shortHash, rawName);
            TryGetArchiveTimestamp(BuildAttachmentObjectKey(collection, slug, leaf)).None?
  {
    hide TryGetArchiveTimestamp, Names.SanitizeFileName, BuildAttachmentObjectKey;
    Names.SanitizedIsSegment(rawName);
    Names.SegmentHasNoSlash(Names.SanitizeFileName(rawName));
    AttachmentIsNotArchive(collection, slug, shortHash, Names.SanitizeFileName(rawName));
  }

  // ---- what the batched delete makes of the stale keys ----

  /** Keys under the collection keep their beginning when they are trimmed. */
  predicate IsRooted(collection: string) {
    collection != "" && !IsSpace(collection[0]) && !IsSlash(collection[0])
  }

  lemma TrimIsPrefix(s: string, drop: char -> bool)
    requires s != "" && !drop(s[0])
    ensures Trim(s, drop) != "" && Trim(s, drop) <= s
    ensures !drop(s[|s| - 1]) ==> Trim(s, drop) == s
  {
    assert TrimLeft(s, drop) == s;
    assert s[0] in s;
    if !drop(s[|s| - 1]) {
      TrimStable(s, drop);
    }
  }

  /** Every collection a repository prefix gives is. */
  lemma CollectionsAreRooted(prefix: string, segment: string)
    requires HasPrefix(prefix, "repositories/")
    ensures IsRooted(BuildCollectionPrefix(prefix, segment))
  {
    hide Trim;
    BeginsWith(prefix, "repositories/");
    TrimIsPrefix(prefix, IsSlash);
    assert TrimSlashes(prefix)[0] == prefix[0] == 'r';
  }

  lemma BeginsWith(s: string, prefix: string)
    requires HasPrefix(s, prefix)
    ensures |prefix| <= |s| && forall i :: 0 <= i < |prefix| ==> s[i] == prefix[i]
  {
  }

  lemma TrimKeyIsPrefix(key: string)
    requires IsRooted(key)
    ensures Deletes.TrimKey(key) <= key
    ensures !IsSpace(key[|key| - 1]) && !IsSlash(key[|key| - 1]) ==> Deletes.IsPlain(key)
  {
    hide Trim;
    TrimIsPrefix(key, IsSpace);
    TrimIsPrefix(TrimSpace(key), IsSlash);
  }

  lemma UnderRooted(collection: string, key: string)
    requires IsRooted(collection) && HasPrefix(key, collection + "/")
    ensures IsRooted(key) && key == collection + "/" + key[|collection| + 1..]
  {
    assert key[..|collection| + 1][0] == collection[0];
  }

  /** What begins like a document's name does not begin like an attachment's place. */
  lemma DocumentIsNoAttachment(relative: string, slug: string, other: string)
    requires IsSlug(slug) && HasPrefix(relative, slug + ".json")
    ensures !IsAttachmentOf(relative, other)
  {
    hide HasPrefix;
    var document, folder := slug + ".json", ATTACHMENTS + "/";
    BeginsWith(relative, document);
    if |document| > 11 {
      assert document[11] != '/' == folder[11];
      NotPrefix(relative, folder, 11);
    } else {
      assert document[|slug|] == '.' != folder[|slug|];
      NotPrefix(relative, folder, |slug|);
    }
    AttachmentsAreInFolder(relative, other);
  }

  lemma AttachmentsAreInFolder(relative: string, slug: string)
    ensures IsAttachmentOf(relative, slug) ==> HasPrefix(relative, ATTACHMENTS + "/")
  {
    var folder := ATTACHMENTS + "/";
    assert (folder + slug)[..|folder|] == folder && (folder + slug + "/")[..|folder|] == folder;
    assert HasPrefix(relative, folder + slug + "/") ==>
             relative[..|folder + slug + "/"|][..|folder|] == relative[..|folder|];
  }

  /** No stale key trims to a fetched item's document, nor to the manifest. */
  lemma DocumentsAreSpared(fetched: set<string>, collection: string, key: string, slug: string)
    requires IsRooted(collection) && IsSlug(slug) && (slug in fetched || slug == "index")
    requires IsStale(key, fetched, collection, BuildManifestObjectKey(collection))
    ensures Deletes.TrimKey(key) != BuildDocumentObjectKey(collection, slug)
  {
    hide ReconcilableSlug, IsStale, IsAttachmentOf, Deletes.TrimKey, IsRooted;
    var document := BuildDocumentObjectKey(collection, slug);
    StaleBySlug(key, fetched, collection, BuildManifestObjectKey(collection));
    var relative := key[|collection| + 1..];
    UnderRooted(collection, key);
    TrimKeyIsPrefix(key);
    SlugHasShape(relative);
    var other := ReconcilableSlug(relative).value;
    if Deletes.TrimKey(key) == document {
      assert document == collection + "/" + (slug + ".json");
      SharedStart(collection + "/", slug + ".json", relative);
      DocumentIsNoAttachment(relative, slug, other);
      EndsInLetter(key, collection, other);
      WholeDocument(collection, slug, other);
      assert false;
    }
  }

  lemma SharedStart(head: string, a: string, b: string)
    requires head + a <= head + b
    ensures HasPrefix(b, a)
  {
    assert a == (head + a)[|head|..];
    assert b[..|a|] == (head + b)[..|head + a|][|head|..];
  }

  lemma EndsInLetter(key: string, collection: string, slug: string)
    requires key == collection + "/" + (slug + ".json")
    ensures key != "" && key[|key| - 1] == 'n'
  {
  }

  lemma WholeDocument(collection: string, slug: string, other: string)
    requires collection + "/" + (slug + ".json") == collection + "/" + (other + ".json")
    ensures slug == other
    ensures slug == "index" ==> collection + "/" + (slug + ".json") == BuildManifestObjectKey(collection)
  {
    var a, b := collection + "/" + (slug + ".json"), collection + "/" + (other + ".json");
    assert |a| == |b| && |slug| == |other|;
    assert a[|collection| + 1..] == slug + ".json" && b[|collection| + 1..] == other + ".json";
    assert (slug + ".json")[..|slug|] == slug && (other + ".json")[..|slug|] == other;
    assert "index" + ".json" == MANIFEST_NAME;
  }

  /** No stale key trims to an attachment of a fetched item. */
  lemma AttachmentsAreSpared(fetched: set<string>, collection: string, key: string, slug: string, name: string)
    requires IsRooted(collection) && IsSlug(slug) && slug in fetched
    requires IsStale(key, fetched, collection, BuildManifestObjectKey(collection))
    ensures Deletes.TrimKey(key) != BuildAttachmentObjectKey(collection, slug, name)
  {
    hide ReconcilableSlug, IsStale, Deletes.TrimKey, IsRooted;
    var attachment := ATTACHMENTS + "/" + slug + "/" + name;
    StaleBySlug(key, fetched, collection, BuildManifestObjectKey(collection));
    var relative := key[|collection| + 1..];
    UnderRooted(collection, key);
    TrimKeyIsPrefix(key);
    BuiltKeysSplit(collection, slug, name);
    if Deletes.TrimKey(key) == collection + "/" + attachment {
      SharedStart(collection + "/", attachment, relative);
      InFolder(relative, slug, name);
      AttachmentHasSlug(relative, slug);
      assert false;
    }
  }

  lemma InFolder(relative: string, slug: string, name: string)
    requires HasPrefix(relative, ATTACHMENTS + "/" + slug + "/" + name)
    ensures IsAttachmentOf(relative, slug)
  {
    var folder := ATTACHMENTS + "/" + slug + "/";
    assert relative[..|folder + name|][..|folder|] == folder;
    assert relative[..|folder|] == folder;
  }

  /** The delete of a set of stale keys asks for nothing of a fetched item and not for the manifest. */
  lemma FetchedAreSpared(fetched: set<string>, collection: string, keysToDelete: seq<string>, slug: string,
                         name: string)
    requires IsRooted(collection) && IsSlug(slug) && slug in fetched
    requires forall key :: key in keysToDelete ==> IsStale(key, fetched, collection, BuildManifestObjectKey(collection))
    ensures var asked := Deletes.Normalized(keysToDelete);
            && BuildManifestObjectKey(collection) !in asked
            && BuildDocumentObjectKey(collection, slug) !in asked
            && BuildAttachmentObjectKey(collection, slug, name) !in asked
  {
    hide IsStale, Deletes.TrimKey, Deletes.Normalized;
    Deletes.NormalizedIsExact(keysToDelete);
    forall key | key in keysToDelete
      ensures Deletes.TrimKey(key) !in {BuildManifestObjectKey(collection), BuildDocumentObjectKey(collection, slug),
                                       BuildAttachmentObjectKey(collection, slug, name)}
    {
      DocumentsAreSpared(fetched, collection, key, slug);
      DocumentsAreSpared(fetched, collection, key, "index");
      AttachmentsAreSpared(fetched, collection, key, slug, name);
      WholeDocument(collection, "index", "index");
    }
  }

  /** Documents and stored attachments are asked for as they stand. */
  lemma BuiltKeysArePlain(collection: string, slug: string, shortHash: string, rawName: string)
    requires IsRooted(collection)
    ensures Deletes.IsPlain(BuildDocumentObjectKey(collection, slug))
    ensures Deletes.IsPlain(BuildAttachmentObjectKey(collection, slug, Names.BuildStorageFileName(shortHash, rawName)))
  {
    hide Deletes.IsPlain, Names.SanitizeFileName;
    var document := BuildDocumentObjectKey(collection, slug);
    var name := Names.SanitizeFileName(rawName);
    var attachment := BuildAttachmentObjectKey(collection, slug, Names.BuildStorageFileName(shortHash, rawName));
    Names.SanitizedIsSegment(rawName);
    assert name[|name| - 1] in name;
    assert document[0] == collection[0] && document[|document| - 1] == 'n';
    assert attachment[0] == collection[0] && attachment[|attachment| - 1] == name[|name| - 1];
    TrimKeyIsPrefix(document);
    TrimKeyIsPrefix(attachment);
  }

  lemma PlainIsAsked(keysToDelete: seq<string>, key: string)
    ensures key in keysToDelete && Deletes.IsPlain(key) ==> key in Deletes.Normalized(keysToDelete)
  {
    hide Deletes.TrimKey, Deletes.Normalized;
    Deletes.NormalizedIsExact(keysToDelete);
    if key in keysToDelete && Deletes.IsPlain(key) {
      var i :| 0 <= i < |keysToDelete| && keysToDelete[i] == key;
      assert Deletes.Trimmed(keysToDelete)[i] == key;
    }
  }

  /**
   End to end, down to the provider: in any interleaving that reconciles, the delete asks
   for no listed item's document or attachment and not for the manifest, whatever the
   trimming of keys does; and it asks for every other item's document and stored
   attachments that the listing shows.
   */
  lemma ReconcileMirrorsTheListing(c: MetadataPool.Config, s: MetadataPool.State, collection: string,
                                   existing: seq<string>, keysToDelete: seq<string>,
                                   item: MetadataPool.Item, name: string,
                                   slug: string, shortHash: string, rawName: string)
    requires c.Valid() && c.gated && MetadataPool.Reachable(c, s) && s.phase.Reconciling? && IsRooted(collection)
    requires forall key :: key in keysToDelete <==>
               key in existing && IsStale(key, s.fetched, collection, BuildManifestObjectKey(collection))
    requires item in s.offered && IsSlug(c.slug(item)) && IsSlug(slug) && slug != "index"
    ensures var asked := Deletes.Normalized(keysToDelete);
            && BuildManifestObjectKey(collection) !in asked
            && BuildDocumentObjectKey(collection, c.slug(item)) !in asked
            && BuildAttachmentObjectKey(collection, c.slug(item), name) !in asked
    ensures var asked := Deletes.Normalized(keysToDelete);
            var document := BuildDocumentObjectKey(collection, slug);
            var leaf := Names.BuildStorageFileName(shortHash, rawName);
            var attachment := BuildAttachmentObjectKey(collection, slug, leaf);
            slug !in s.fetched ==>
              && (document in existing ==> document in asked)
              && (attachment in existing ==> attachment in asked)
  {
    hide MetadataPool.Reachable, IsStale, IsSlug, Deletes.Normalized, Deletes.IsPlain,
      BuildDocumentObjectKey, BuildAttachmentObjectKey;
    MetadataPool.DeletesOnlyAfterACompletePass(c, s);
    FetchedAreSpared(s.fetched, collection, keysToDelete, c.slug(item), name);
    if slug !in s.fetched {
      var leaf := Names.BuildStorageFileName(shortHash, rawName);
      BuiltKeysAreStaleIff(s.fetched, collection, slug, leaf);
      BuiltKeysArePlain(collection, slug, shortHash, rawName);
      if BuildDocumentObjectKey(collection, slug) in existing {
        PlainIsAsked(keysToDelete, BuildDocumentObjectKey(collection, slug));
      }
      if BuildAttachmentObjectKey(collection, slug, leaf) in existing {
        PlainIsAsked(keysToDelete, BuildAttachmentObjectKey(collection, slug, leaf));
      }
    }
  }

  /**
   What a reconcile does to the bucket: whatever it got done, no listed item's document or
   attachment is gone, nor the manifest; and if its delete succeeded, every other item's
   listed document and stored attachments are gone, except what the provider refused.
   */
  lemma SuccessfulReconcileMirrors(c: MetadataPool.Config, s: MetadataPool.State, collection: string,
                                   existing: seq<string>, keysToDelete: seq<string>, sent: seq<Deletes.Exchange>,
                                   item: MetadataPool.Item, name: string,
                                   slug: string, shortHash: string, rawName: string)
    requires c.Valid() && c.gated && MetadataPool.Reachable(c, s) && s.phase.Reconciling? && IsRooted(collection)
    requires forall key :: key in keysToDelete <==>
               key in existing && IsStale(key, s.fetched, collection, BuildManifestObjectKey(collection))
    requires item in s.offered && IsSlug(c.slug(item)) && IsSlug(slug) && slug != "index"
    requires Deletes.AckedKeys(sent) <= Deletes.Normalized(keysToDelete)
    ensures var gone := Deletes.Removed(sent);
            && BuildManifestObjectKey(collection) !in gone
            && BuildDocumentObjectKey(collection, c.slug(item)) !in gone
            && BuildAttachmentObjectKey(collection, c.slug(item), name) !in gone
    ensures var gone := Deletes.Removed(sent);
            var document := BuildDocumentObjectKey(collection, slug);
            var leaf := Names.BuildStorageFileName(shortHash, rawName);
            var attachment := BuildAttachmentObjectKey(collection, slug, leaf);
            slug !in s.fetched && Deletes.AckedKeys(sent) == Deletes.Normalized(keysToDelete) ==>
              && (document in existing ==> (document in gone <==> Deletes.NotRefused(sent, document)))
              && (attachment in existing ==> (attachment in gone <==> Deletes.NotRefused(sent, attachment)))
  {
    hide MetadataPool.Reachable, IsStale, IsSlug, IsRooted, Deletes.Normalized, Deletes.AckedKeys, Deletes.Removed,
      Deletes.NotRefused, BuildManifestObjectKey, BuildDocumentObjectKey, BuildAttachmentObjectKey,
      Names.BuildStorageFileName;
    ReconcileMirrorsTheListing(c, s, collection, existing, keysToDelete, item, name, slug, shortHash, rawName);
    Deletes.RemovedAreAcked(sent);
    Deletes.NormalizedIsExact(keysToDelete);
    if Deletes.AckedKeys(sent) == Deletes.Normalized(keysToDelete) {
      var leaf := Names.BuildStorageFileName(shortHash, rawName);
      Deletes.AckedIsGoneIff(sent, BuildDocumentObjectKey(collection, slug));
      Deletes.AckedIsGoneIff(sent, BuildAttachmentObjectKey(collection, slug, leaf));
    }
  }
}
