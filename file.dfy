/** The File entity of models/File.go: an in-memory record whose methods change
    its fields and then persist it with Save. Each operation has a pure effect
    function on (in-memory row, table) that its method is proved against; the
    lemmas below are stated on those functions. */
module Files {
  import opened Records
  import opened Storage

  // ---------------------------------------------------------------------------
  // Effects

  /** What an operation leaves behind: the in-memory record, the table, the error. */
  datatype Effect = Effect(file: Row, rows: seq<Row>, err: bool)

  /** File.Save (models/File.go:272-274): a failing Save writes nothing. */
  function SaveTo(rows: seq<Row>, f: Row, fails: bool): seq<Row>
  {
    if fails then rows else Put(rows, f)
  }

  /** Rename (models/File.go:189-192). */
  function Renamed(f: Row, rows: seq<Row>, newName: string, fails: bool): Effect
  {
    var g := f.(name := newName);
    Effect(g, SaveTo(rows, g, fails), fails)
  }

  /** SetVilibility (models/File.go:195-198): only IsPublic; the slug is kept. */
  function VisibilitySet(f: Row, rows: seq<Row>, visible: bool, fails: bool): Effect
  {
    var g := f.(isPublic := visible);
    Effect(g, SaveTo(rows, g, fails), fails)
  }

  /** AddTags (models/File.go:201-211): Save runs whatever the loop did. */
  function TagsAdded(f: Row, rows: seq<Row>, names: seq<string>, resolve: string -> Attr, fails: bool): Effect
  {
    var g := f.(tags := AddedAttrs(f.tags, names, resolve));
    Effect(g, SaveTo(rows, g, fails), fails)
  }

  /** AddGroups (models/File.go:237-247). */
  function GroupsAdded(f: Row, rows: seq<Row>, names: seq<string>, resolve: string -> Attr, fails: bool): Effect
  {
    var g := f.(groups := AddedAttrs(f.groups, names, resolve));
    Effect(g, SaveTo(rows, g, fails), fails)
  }

  /** RemoveTags (models/File.go:214-234): nothing happens unless a tag goes; then
      the persisted associations are cleared before the Save, so a failing Save
      leaves the row without tags. */
  function TagsRemoved(f: Row, rows: seq<Row>, names: seq<string>, fails: bool): Effect
  {
    if |f.tags| == 0 then Effect(f, rows, false)
    else
      var kept := Without(f.tags, names);
      if |kept| < |f.tags| then
        var g := f.(tags := kept);
        Effect(g, SaveTo(TagsCleared(rows, f.id), g, fails), fails)
      else Effect(f, rows, false)
  }

  /** RemoveGroups (models/File.go:250-269): as RemoveTags, except that it also
      saves when no group goes (but not when the file has no groups). */
  function GroupsRemoved(f: Row, rows: seq<Row>, names: seq<string>, fails: bool): Effect
  {
    if |f.groups| == 0 then Effect(f, rows, false)
    else
      var kept := Without(f.groups, names);
      if |kept| < |f.groups| then
        var g := f.(groups := kept);
        Effect(g, SaveTo(GroupsCleared(rows, f.id), g, fails), fails)
      else Effect(f, SaveTo(rows, f, fails), fails)
  }

  /** The tag half of UpdateNamespace (models/File.go:322-331): a non-empty tag list
      is resolved again by name and its old associations are cleared. */
  function TagsReresolved(f: Row, rows: seq<Row>, resolve: string -> Attr): Effect
  {
    if |f.tags| > 0 then Effect(f.(tags := Reresolved(f.tags, resolve)), TagsCleared(rows, f.id), false)
    else Effect(f, rows, false)
  }

  /** The group half of UpdateNamespace (models/File.go:334-343). */
  function GroupsReresolved(f: Row, rows: seq<Row>, resolve: string -> Attr): Effect
  {
    if |f.groups| > 0 then Effect(f.(groups := Reresolved(f.groups, resolve)), GroupsCleared(rows, f.id), false)
    else Effect(f, rows, false)
  }

  /** UpdateNamespace (models/File.go:314-347): the namespace id is set, non-empty
      tag and group lists are re-resolved in the new namespace (the old
      associations cleared), then the record is saved. */
  function NamespaceMoved(f: Row, rows: seq<Row>, ns: Namespace, resolveTag: string -> Attr,
                          resolveGroup: string -> Attr, fails: bool): Effect
  {
    var a := TagsReresolved(f.(namespaceId := ns.id), rows, resolveTag);
    var b := GroupsReresolved(a.file, a.rows, resolveGroup);
    Effect(b.file, SaveTo(b.rows, b.file, fails), fails)
  }

  /** The 25 characters of a generated public name (models/File.go:353). */
  const PublicNameLength := 25

  /** The slug Publish uses: the requested one, or the random draw when none is given. */
  function SlugFor(publicName: string, randomSlug: string): string
  {
    if |publicName| == 0 then randomSlug else publicName
  }

  datatype PublishEffect = PublishEffect(file: Row, rows: seq<Row>, conflict: bool, err: bool)

  /** Publish (models/File.go:350-371): the in-memory record is made public under the
      slug first; if a live row (this one included) already has the slug the
      result is a conflict and nothing is saved. A lookup error counts as "not found". */
  function Published(f: Row, rows: seq<Row>, publicName: string, randomSlug: string,
                     lookupFault: bool, saveFails: bool): PublishEffect
  {
    var slug := SlugFor(publicName, randomSlug);
    var g := f.(publicFilename := Some(slug), isPublic := true);
    if GetPublicFile(rows, slug, lookupFault).found then PublishEffect(g, rows, true, false)
    else PublishEffect(g, SaveTo(rows, g, saveFails), false, saveFails)
  }

  datatype DeleteEffect = DeleteEffect(file: Row, rows: seq<Row>, blobs: map<string, seq<byte>>, err: bool)

  /** Delete (models/File.go:165-186): the slug is freed and saved first; a failing
      Save stops everything. Removing the content file may fail (only logged); the
      row is then soft-deleted. */
  function Deleted(f: Row, rows: seq<Row>, blobs: map<string, seq<byte>>,
                   saveFails: bool, removeFails: bool, deleteFails: bool): DeleteEffect
  {
    DeleteEffect(f.(isPublic := false, publicFilename := None), DeletedRows(f, rows, saveFails, deleteFails),
                 DeletedBlobs(f, blobs, saveFails, removeFails), saveFails || deleteFails)
  }

  /** The table after Delete: the slug-free record saved, then soft-deleted. */
  function DeletedRows(f: Row, rows: seq<Row>, saveFails: bool, deleteFails: bool): seq<Row>
  {
    if saveFails then rows
    else
      var rows1 := Put(rows, f.(isPublic := false, publicFilename := None));
      if deleteFails then rows1 else SoftDeleted(rows1, f.id)
  }

  /** The storage files after Delete (os.Remove fails for a missing file too). */
  function DeletedBlobs(f: Row, blobs: map<string, seq<byte>>, saveFails: bool, removeFails: bool): map<string, seq<byte>>
  {
    if saveFails || removeFails || f.localName !in blobs then blobs else blobs - {f.localName}
  }

  /** Insert (models/File.go:46-79): groups, then tags, are looked up or created;
      the file row is then created with the uploader and the namespace. */
  function Inserted(f: Row, rows: seq<Row>, ns: Namespace, userId: nat,
                    lookupTag: string -> Option<Attr>, createTag: Attr -> Attr,
                    lookupGroup: string -> Option<Attr>, createGroup: Attr -> Attr, fails: bool): Effect
  {
    var g := f.(groups := Completed(f.groups, lookupGroup, createGroup),
                tags := Completed(f.tags, lookupTag, createTag), userId := userId);
    if fails then Effect(g, rows, true)
    else
      var h := g.(id := NextId(rows), namespaceId := ns.id);
      Effect(h, rows + [h], false)
  }

  // ---------------------------------------------------------------------------
  // Lemmas on the effects

  /** Every field but the name is kept, and a successful Save stores exactly the
      renamed record under its key. */
  lemma RenameChangesOnlyName(f: Row, rows: seq<Row>, newName: string)
    ensures Renamed(f, rows, newName, false).file.name == newName
    ensures Renamed(f, rows, newName, false).file.(name := f.name) == f
    ensures Renamed(f, rows, newName, false).file in Renamed(f, rows, newName, false).rows
    ensures forall x :: x in Renamed(f, rows, newName, false).rows && x.id == f.id ==> x.name == newName
  {
    PutContents(rows, f.(name := newName));
  }

  /** SetVilibility, for either value: only IsPublic changes, so the slug is
      kept (hiding a file keeps its slug reserved); a successful Save stores
      exactly the record with the new visibility; a failing one writes nothing. */
  lemma VisibilitySpec(f: Row, rows: seq<Row>, visible: bool, fails: bool)
    ensures VisibilitySet(f, rows, visible, fails).file == f.(isPublic := visible)
    ensures VisibilitySet(f, rows, visible, fails).file.publicFilename == f.publicFilename
    ensures VisibilitySet(f, rows, visible, fails).err == fails
    ensures fails ==> VisibilitySet(f, rows, visible, fails).rows == rows
    ensures !fails ==> VisibilitySet(f, rows, visible, fails).rows == Put(rows, f.(isPublic := visible))
    ensures !fails ==> forall x :: x in VisibilitySet(f, rows, visible, fails).rows <==>
                                   x == f.(isPublic := visible) || (x in rows && x.id != f.id)
  {
    PutContents(rows, f.(isPublic := visible));
  }

  /** AddTags: the old tags stay a prefix, every requested name is present, no
      name is appended twice or was there before, and nothing but the tags
      changes. A Save is always attempted, even when no tag was added. */
  lemma AddTagsSpec(f: Row, rows: seq<Row>, names: seq<string>, resolve: string -> Attr, fails: bool)
    requires NamePreserving(resolve)
    ensures f.tags <= TagsAdded(f, rows, names, resolve, fails).file.tags
    ensures forall n :: n in names ==> HasName(TagsAdded(f, rows, names, resolve, fails).file.tags, n)
    ensures var t := TagsAdded(f, rows, names, resolve, fails).file.tags;
      forall i, j :: |f.tags| <= i < j < |t| ==> t[i].name != t[j].name
    ensures var t := TagsAdded(f, rows, names, resolve, fails).file.tags;
      forall i :: |f.tags| <= i < |t| ==> !HasName(f.tags, t[i].name)
    ensures TagsAdded(f, rows, names, resolve, fails).file.(tags := f.tags) == f
    ensures TagsAdded(f, rows, names, resolve, fails).err == fails
    ensures !fails ==> TagsAdded(f, rows, names, resolve, fails).rows == Put(rows, TagsAdded(f, rows, names, resolve, fails).file)
  {
    AddedKeepsPrefix(f.tags, names, resolve);
    AddedCovers(f.tags, names, resolve);
    AddedFresh(f.tags, names, resolve);
  }

  /** RemoveTags: the new list is the old one without the named tags, in order;
      the table changes only when a tag went, and a non-matching or empty removal
      leaves record and table as they were. */
  lemma RemoveTagsSpec(f: Row, rows: seq<Row>, names: seq<string>, fails: bool)
    ensures TagsRemoved(f, rows, names, fails).file.tags == Without(f.tags, names)
    ensures TagsRemoved(f, rows, names, fails).file.(tags := f.tags) == f
    ensures (forall i :: 0 <= i < |f.tags| ==> f.tags[i].name !in names) ==>
              TagsRemoved(f, rows, names, fails) == Effect(f, rows, false)
    ensures (exists i :: 0 <= i < |f.tags| && f.tags[i].name in names) ==>
              TagsRemoved(f, rows, names, fails) ==
                Effect(f.(tags := Without(f.tags, names)),
                       SaveTo(TagsCleared(rows, f.id), f.(tags := Without(f.tags, names)), fails), fails)
  {
    WithoutLength(f.tags, names);
  }

  /** RemoveGroups: the same list result, but the record is saved on both branches
      once the file has a group. */
  lemma RemoveGroupsSpec(f: Row, rows: seq<Row>, names: seq<string>, fails: bool)
    ensures GroupsRemoved(f, rows, names, fails).file.groups == Without(f.groups, names)
    ensures GroupsRemoved(f, rows, names, fails).file.(groups := f.groups) == f
    ensures |f.groups| == 0 ==> GroupsRemoved(f, rows, names, fails) == Effect(f, rows, false)
    ensures (forall i :: 0 <= i < |f.groups| ==> f.groups[i].name !in names) && |f.groups| > 0 ==>
              GroupsRemoved(f, rows, names, fails) == Effect(f, SaveTo(rows, f, fails), fails)
  {
    WithoutLength(f.groups, names);
  }

  /** UpdateNamespace: the namespace is the new one; tags and groups keep their
      length, names and order and are resolved in the new namespace; empty lists
      stay empty; nothing else changes. */
  lemma MoveNamespaceSpec(f: Row, rows: seq<Row>, ns: Namespace, resolveTag: string -> Attr,
                          resolveGroup: string -> Attr, fails: bool)
    requires NamePreserving(resolveTag) && NamePreserving(resolveGroup)
    requires forall n :: resolveTag(n).namespaceId == ns.id
    requires forall n :: resolveGroup(n).namespaceId == ns.id
    ensures NamespaceMoved(f, rows, ns, resolveTag, resolveGroup, fails).file.namespaceId == ns.id
    ensures var t := NamespaceMoved(f, rows, ns, resolveTag, resolveGroup, fails).file.tags;
      |t| == |f.tags| && Names(t) == Names(f.tags) && forall i :: 0 <= i < |t| ==> t[i].namespaceId == ns.id
    ensures var g := NamespaceMoved(f, rows, ns, resolveTag, resolveGroup, fails).file.groups;
      |g| == |f.groups| && Names(g) == Names(f.groups) && forall i :: 0 <= i < |g| ==> g[i].namespaceId == ns.id
    ensures NamespaceMoved(f, rows, ns, resolveTag, resolveGroup, fails).file.(
              namespaceId := f.namespaceId, tags := f.tags, groups := f.groups) == f
  {
    var f1 := f.(namespaceId := ns.id);
    var a := TagsReresolved(f1, rows, resolveTag);
    ReresolvedSpec(f.tags, resolveTag, ns.id);
    assert a.file.(tags := f.tags) == f1;
    var b := GroupsReresolved(a.file, a.rows, resolveGroup);
    ReresolvedSpec(f.groups, resolveGroup, ns.id);
    assert b.file.(groups := f.groups) == a.file;
  }

  /** Publish: the file is public under the requested slug, or under the random one
      when none is requested. */
  lemma PublishSlug(f: Row, rows: seq<Row>, publicName: string, randomSlug: string, saveFails: bool)
    requires |randomSlug| == PublicNameLength
    ensures Published(f, rows, publicName, randomSlug, false, saveFails).file ==
              f.(publicFilename := Some(SlugFor(publicName, randomSlug)), isPublic := true)
    ensures |publicName| == 0 ==> |SlugFor(publicName, randomSlug)| == PublicNameLength
    ensures |publicName| > 0 ==> SlugFor(publicName, randomSlug) == publicName
  {
  }

  /** Publish: a slug some live row already has (this file's own included) is a
      conflict that leaves the table as it was; otherwise the public record is saved. */
  lemma PublishSpec(f: Row, rows: seq<Row>, publicName: string, randomSlug: string, saveFails: bool)
    ensures Published(f, rows, publicName, randomSlug, false, saveFails).conflict <==>
              exists i :: 0 <= i < |rows| && !rows[i].deleted && rows[i].publicFilename == Some(SlugFor(publicName, randomSlug))
    ensures Published(f, rows, publicName, randomSlug, false, saveFails).conflict ==>
              Published(f, rows, publicName, randomSlug, false, saveFails).rows == rows &&
              !Published(f, rows, publicName, randomSlug, false, saveFails).err
    ensures !Published(f, rows, publicName, randomSlug, false, saveFails).conflict ==>
              Published(f, rows, publicName, randomSlug, false, saveFails).rows ==
                SaveTo(rows, Published(f, rows, publicName, randomSlug, false, saveFails).file, saveFails) &&
              Published(f, rows, publicName, randomSlug, false, saveFails).err == saveFails
  {
    var slug := SlugFor(publicName, randomSlug);
    assert GetPublicFile(rows, slug, false).found <==> exists i :: 0 <= i < |rows| && SlugMatch(rows[i], slug);
  }

  /** A file that is already published under its slug gets a conflict when it is
      published under the same slug again. */
  lemma RepublishConflicts(f: Row, rows: seq<Row>, randomSlug: string)
    requires f in rows && !f.deleted && f.publicFilename.Some? && |f.publicFilename.value| > 0
    ensures Published(f, rows, f.publicFilename.value, randomSlug, false, false).conflict
  {
    var i :| 0 <= i < |rows| && rows[i] == f;
    assert SlugMatch(rows[i], f.publicFilename.value);
  }

  /** Delete with a failing Save changes neither table nor disk. */
  lemma DeleteSaveFailureSpec(f: Row, rows: seq<Row>, blobs: map<string, seq<byte>>, removeFails: bool, deleteFails: bool)
    ensures Deleted(f, rows, blobs, true, removeFails, deleteFails).rows == rows
    ensures Deleted(f, rows, blobs, true, removeFails, deleteFails).blobs == blobs
    ensures Deleted(f, rows, blobs, true, removeFails, deleteFails).err
  {
  }

  /** A soft delete marks every row with the key and keeps what the rows hold. */
  lemma SoftDeletedMarks(rows: seq<Row>, id: nat)
    requires forall i :: 0 <= i < |rows| && rows[i].id == id ==> rows[i].publicFilename.None?
    ensures var res := SoftDeleted(rows, id);
      forall i :: 0 <= i < |res| && res[i].id == id ==> res[i].publicFilename.None? && res[i].deleted
  {
  }

  /** Delete: the record loses its slug and visibility, and the content file goes
      unless its removal failed, which does not stop the row's deletion. */
  lemma DeleteSpec(f: Row, rows: seq<Row>, blobs: map<string, seq<byte>>, removeFails: bool, deleteFails: bool)
    ensures Deleted(f, rows, blobs, false, removeFails, deleteFails).file == f.(isPublic := false, publicFilename := None)
    ensures removeFails ==> Deleted(f, rows, blobs, false, removeFails, deleteFails).blobs == blobs
    ensures !removeFails ==> Deleted(f, rows, blobs, false, removeFails, deleteFails).blobs.Keys == blobs.Keys - {f.localName}
    ensures forall k :: k in Deleted(f, rows, blobs, false, removeFails, deleteFails).blobs ==>
              Deleted(f, rows, blobs, false, removeFails, deleteFails).blobs[k] == blobs[k]
    ensures Deleted(f, rows, blobs, false, removeFails, deleteFails).err == deleteFails
  {
  }

  /** After a Delete whose Save succeeded the table still holds the file's row,
      and every row with its key is without a slug and, unless the soft delete
      failed, marked deleted. */
  lemma DeleteMarksRow(f: Row, rows: seq<Row>, deleteFails: bool)
    ensures exists i :: 0 <= i < |DeletedRows(f, rows, false, deleteFails)| && DeletedRows(f, rows, false, deleteFails)[i].id == f.id
    ensures var res := DeletedRows(f, rows, false, deleteFails);
      forall i :: 0 <= i < |res| && res[i].id == f.id ==> res[i].publicFilename.None? && (res[i].deleted || deleteFails)
  {
    var g := f.(isPublic := false, publicFilename := None);
    var rows1 := Put(rows, g);
    PutStores(rows, g);
    var res := DeletedRows(f, rows, false, deleteFails);
    if !deleteFails {
      SoftDeletedMarks(rows1, f.id);
    }
    var k :| 0 <= k < |rows1| && rows1[k] == g;
    assert res[k].id == f.id;
  }

  // ---------------------------------------------------------------------------
  // Slug uniqueness

  /** The public_filename column's unique constraint. */
  ghost predicate SlugsUnique(rows: seq<Row>) {
    forall i, j :: 0 <= i < j < |rows| && rows[i].publicFilename.Some? ==> rows[i].publicFilename != rows[j].publicFilename
  }

  /** Soft-deleted rows hold no slug (Delete frees it before deleting). */
  ghost predicate DeletedHoldNoSlug(rows: seq<Row>) {
    forall i :: 0 <= i < |rows| && rows[i].deleted ==> rows[i].publicFilename.None?
  }

  /** Saving a record keeps both slug invariants when its slug, if any, belongs to
      no other row and it is not a deleted record holding one. */
  lemma PutKeepsSlugs(rows: seq<Row>, g: Row)
    requires WellFormed(rows) && SlugsUnique(rows) && DeletedHoldNoSlug(rows)
    requires g.deleted ==> g.publicFilename.None?
    requires g.publicFilename.Some? ==> forall i :: 0 <= i < |rows| && rows[i].id != g.id ==> rows[i].publicFilename != g.publicFilename
    ensures SlugsUnique(Put(rows, g)) && DeletedHoldNoSlug(Put(rows, g))
  {
    var res := Put(rows, g);
    if HasRow(rows, g.id) {
      assert forall i :: 0 <= i < |res| ==> res[i] == if rows[i].id == g.id then g else rows[i];
      forall i, j | 0 <= i < j < |res| && res[i].publicFilename.Some?
        ensures res[i].publicFilename != res[j].publicFilename
      {
        assert rows[i].id != rows[j].id;
      }
    } else {
      assert res == rows + [g];
    }
  }

  /** A soft delete keeps both slug invariants when the rows it marks hold no slug. */
  lemma SoftDeleteKeepsSlugs(rows: seq<Row>, id: nat)
    requires SlugsUnique(rows) && DeletedHoldNoSlug(rows)
    requires forall i :: 0 <= i < |rows| && rows[i].id == id ==> rows[i].publicFilename.None?
    ensures SlugsUnique(SoftDeleted(rows, id)) && DeletedHoldNoSlug(SoftDeleted(rows, id))
  {
    var res := SoftDeleted(rows, id);
    assert forall i :: 0 <= i < |res| ==> res[i] == if rows[i].id == id then rows[i].(deleted := true) else rows[i];
  }

  /** A Publish without conflict keeps slugs unique: its check looks at live rows
      only, and deleted rows hold no slug. */
  lemma PublishKeepsSlugsUnique(f: Row, rows: seq<Row>, publicName: string, randomSlug: string, saveFails: bool)
    requires WellFormed(rows) && !f.deleted
    requires SlugsUnique(rows) && DeletedHoldNoSlug(rows)
    ensures SlugsUnique(Published(f, rows, publicName, randomSlug, false, saveFails).rows)
    ensures DeletedHoldNoSlug(Published(f, rows, publicName, randomSlug, false, saveFails).rows)
  {
    var p := Published(f, rows, publicName, randomSlug, false, saveFails);
    var slug := SlugFor(publicName, randomSlug);
    if !p.conflict && !saveFails {
      forall i | 0 <= i < |rows| ensures rows[i].publicFilename != Some(slug) {
        if !rows[i].deleted { assert !SlugMatch(rows[i], slug); }
      }
      PutKeepsSlugs(rows, p.file);
    }
  }

  /** Delete keeps slugs unique and leaves its deleted row without a slug. */
  lemma DeleteKeepsSlugsUnique(f: Row, rows: seq<Row>, blobs: map<string, seq<byte>>,
                               saveFails: bool, removeFails: bool, deleteFails: bool)
    requires WellFormed(rows) && !f.deleted
    requires SlugsUnique(rows) && DeletedHoldNoSlug(rows)
    ensures SlugsUnique(Deleted(f, rows, blobs, saveFails, removeFails, deleteFails).rows)
    ensures DeletedHoldNoSlug(Deleted(f, rows, blobs, saveFails, removeFails, deleteFails).rows)
  {
    if !saveFails {
      var g := f.(isPublic := false, publicFilename := None);
      PutKeepsSlugs(rows, g);
      var rows1 := Put(rows, g);
      if !deleteFails {
        PutContents(rows, g);
        forall i | 0 <= i < |rows1| && rows1[i].id == f.id ensures rows1[i].publicFilename.None? {
          assert rows1[i] in rows1;
        }
        SoftDeleteKeepsSlugs(rows1, f.id);
      }
    }
  }

  /** The loops of UpdateNamespace (models/File.go:322-329, 334-341): each
      attribute looked up again by name. */
  method ResolveAll(s: seq<Attr>, resolve: string -> Attr) returns (res: seq<Attr>)
    ensures res == Reresolved(s, resolve)
  {
    res := [];
    var i := 0;
    while i < |s|
      invariant 0 <= i <= |s|
      invariant res == Reresolved(s[..i], resolve)
    {
      assert s[..i + 1][..i] == s[..i];
      res := res + [resolve(s[i].name)];
      i := i + 1;
    }
    assert s[..|s|] == s;
  }

  /** The loops of Insert (models/File.go:48-67): each attribute without an id is
      replaced by the stored one of that name, or created when the lookup fails. */
  method CompleteAll(s: seq<Attr>, lookup: string -> Option<Attr>, create: Attr -> Attr) returns (res: seq<Attr>)
    ensures res == Completed(s, lookup, create)
  {
    res := s;
    var i := 0;
    while i < |res|
      invariant 0 <= i <= |res| == |s|
      invariant res[..i] == Completed(s[..i], lookup, create)
      invariant res[i..] == s[i..]
    {
      assert s[..i + 1][..i] == s[..i];
      assert res[i] == s[i] by { assert res[i..][0] == s[i..][0]; }
      if res[i].id == 0 {
        match lookup(res[i].name) {
          case Some(found) => res := res[i := found];
          case None => res := res[i := create(res[i])];
        }
      }
      assert res[..i + 1] == res[..i] + [res[i]];
      i := i + 1;
    }
    assert res[..|res|] == res && s[..|s|] == s;
  }

  /** The loops of RemoveTags and RemoveGroups (models/File.go:220-225, 256-261):
      the attributes whose name is not to be removed, in order. */
  method Kept(s: seq<Attr>, names: seq<string>) returns (res: seq<Attr>)
    ensures res == Without(s, names)
  {
    res := [];
    var i := 0;
    while i < |s|
      invariant 0 <= i <= |s|
      invariant res == Without(s[..i], names)
    {
      assert s[..i + 1][..i] == s[..i];
      if s[i].name !in names {
        res := res + [s[i]];
      }
      i := i + 1;
    }
    assert s[..|s|] == s;
  }

  // ---------------------------------------------------------------------------
  // The in-memory record

  class File {
    var id: nat
    var name: string
    var localName: string
    var userId: nat
    var fileSize: int
    var fileType: string
    var isPublic: bool
    var publicFilename: Option<string>
    var groups: seq<Attr>
    var tags: seq<Attr>
    /** the loaded Namespace association; None when it was not preloaded */
    var namespace: Option<Namespace>
    var namespaceId: nat
    var deleted: bool

    /** The record as Save writes it. */
    function Row(): Row
      reads this`id, this`name, this`localName, this`userId, this`fileSize, this`fileType, this`isPublic,
            this`publicFilename, this`groups, this`tags, this`namespaceId, this`deleted
    {
      Records.Row(id, name, localName, userId, fileSize, fileType, isPublic, publicFilename,
                  groups, tags, namespaceId, deleted)
    }

    /** A record loaded from the table (with its preloaded namespace, if any). */
    constructor Load(r: Row, ns: Option<Namespace>)
      ensures Row() == r && namespace == ns
    {
      id, name, localName, userId := r.id, r.name, r.localName, r.userId;
      fileSize, fileType, isPublic, publicFilename := r.fileSize, r.fileType, r.isPublic, r.publicFilename;
      groups, tags, namespaceId, deleted := r.groups, r.tags, r.namespaceId, r.deleted;
      namespace := ns;
    }

    /** The models.File literal of UploadfileHandler (handlers/FileHandler.go:104-112). */
    constructor Draft(fileName: string, local: string, fileTags: seq<Attr>, fileGroups: seq<Attr>, ns: Namespace)
      ensures Row() == Records.Row(0, fileName, local, 0, 0, "", false, None, fileGroups, fileTags, 0, false)
      ensures namespace == Some(ns)
    {
      id, name, localName, userId := 0, fileName, local, 0;
      fileSize, fileType, isPublic, publicFilename := 0, "", false, None;
      groups, tags, namespaceId, deleted := fileGroups, fileTags, 0, false;
      namespace := Some(ns);
    }

    /** GetNamespace (models/File.go:82-87). */
    function GetNamespace(defaultNs: Namespace): (ns: Namespace)
      reads this`namespace
      ensures namespace.Some? ==> ns == namespace.value
      ensures namespace.None? ==> ns == defaultNs
    {
      match namespace
      case Some(n) => n
      case None => defaultNs
    }

    /** HasTag (models/File.go:145-152). */
    function HasTag(n: string): (r: bool)
      reads this`tags
      ensures r <==> exists i :: 0 <= i < |tags| && tags[i].name == n
    {
      HasName(tags, n)
    }

    /** HasGroup (models/File.go:155-162). */
    function HasGroup(n: string): (r: bool)
      reads this`groups
      ensures r <==> exists i :: 0 <= i < |groups| && groups[i].name == n
    {
      HasName(groups, n)
    }

    /** IsInTagList (models/File.go:90-99). */
    function IsInTagList(list: seq<Attr>): (r: bool)
      reads this`tags
      ensures r <==> exists i, j :: 0 <= i < |tags| && 0 <= j < |list| && tags[i].id == list[j].id
    {
      SharesId(tags, list)
    }

    /** IsInGroupList (models/File.go:102-111). */
    function IsInGroupList(list: seq<Attr>): (r: bool)
      reads this`groups
      ensures r <==> exists i, j :: 0 <= i < |groups| && 0 <= j < |list| && groups[i].id == list[j].id
    {
      SharesId(groups, list)
    }

    /** GetAttributes (models/File.go:37-43). */
    function GetAttributes(defaultNs: Namespace): (a: FileAttributes)
      reads this`tags, this`groups, this`namespace
      ensures |a.tags| == |tags| && |a.groups| == |groups|
      ensures forall i :: 0 <= i < |tags| ==> a.tags[i] == tags[i].name
      ensures forall i :: 0 <= i < |groups| ==> a.groups[i] == groups[i].name
      ensures a.namespace == if namespace.Some? then namespace.value.name else defaultNs.name
    {
      FileAttributes(Names(tags), Names(groups), GetNamespace(defaultNs).name)
    }

    method Save(db: Store, fails: bool) returns (err: bool)
      requires db.Valid() && id > 0
      modifies db
      ensures db.Valid()
      ensures err == fails && db.rows == SaveTo(old(db.rows), Row(), fails)
    {
      err := db.Save(Row(), fails);
    }

    method Rename(db: Store, newName: string, fails: bool) returns (err: bool)
      requires db.Valid() && id > 0
      modifies this`name, db
      ensures db.Valid()
      ensures Effect(Row(), db.rows, err) == Renamed(old(Row()), old(db.rows), newName, fails)
    {
      name := newName;
      err := Save(db, fails);
    }

    method SetVilibility(db: Store, newVisibility: bool, fails: bool) returns (err: bool)
      requires db.Valid() && id > 0
      modifies this`isPublic, db
      ensures db.Valid()
      ensures Effect(Row(), db.rows, err) == VisibilitySet(old(Row()), old(db.rows), newVisibility, fails)
    {
      isPublic := newVisibility;
      err := Save(db, fails);
    }

    /** `resolve` is GetTag in this file's namespace for the requesting user. */
    method AddTags(db: Store, tagsToAdd: seq<string>, resolve: string -> Attr, fails: bool) returns (err: bool)
      requires db.Valid() && id > 0
      modifies this`tags, db
      ensures db.Valid()
      ensures Effect(Row(), db.rows, err) == TagsAdded(old(Row()), old(db.rows), tagsToAdd, resolve, fails)
    {
      var i := 0;
      while i < |tagsToAdd|
        modifies this`tags
        invariant 0 <= i <= |tagsToAdd|
        invariant AddedAttrs(tags, tagsToAdd[i..], resolve) == AddedAttrs(old(tags), tagsToAdd, resolve)
      {
        var sTag := tagsToAdd[i];
        assert tagsToAdd[i..][1..] == tagsToAdd[i + 1..];
        if !HasTag(sTag) {
          var tag := resolve(sTag);
          tags := tags + [tag];
        }
        i := i + 1;
      }
      err := Save(db, fails);
    }

    method RemoveTags(db: Store, tagsToRemove: seq<string>, fails: bool) returns (err: bool)
      requires db.Valid() && id > 0
      modifies this`tags, db
      ensures db.Valid()
      ensures Effect(Row(), db.rows, err) == TagsRemoved(old(Row()), old(db.rows), tagsToRemove, fails)
    {
      if |tags| == 0 {
        return false;
      }
      var newTags := Kept(tags, tagsToRemove);
      if |newTags| < |tags| {
        db.ClearTags(id);
        tags := newTags;
        err := Save(db, fails);
        return;
      }
      err := false;
    }

    method AddGroups(db: Store, groupsToAdd: seq<string>, resolve: string -> Attr, fails: bool) returns (err: bool)
      requires db.Valid() && id > 0
      modifies this`groups, db
      ensures db.Valid()
      ensures Effect(Row(), db.rows, err) == GroupsAdded(old(Row()), old(db.rows), groupsToAdd, resolve, fails)
    {
      var i := 0;
      while i < |groupsToAdd|
        modifies this`groups
        invariant 0 <= i <= |groupsToAdd|
        invariant AddedAttrs(groups, groupsToAdd[i..], resolve) == AddedAttrs(old(groups), groupsToAdd, resolve)
      {
        var sGroup := groupsToAdd[i];
        assert groupsToAdd[i..][1..] == groupsToAdd[i + 1..];
        if !HasGroup(sGroup) {
          var group := resolve(sGroup);
          groups := groups + [group];
        }
        i := i + 1;
      }
      err := Save(db, fails);
    }

    method RemoveGroups(db: Store, groupsToRemove: seq<string>, fails: bool) returns (err: bool)
      requires db.Valid() && id > 0
      modifies this`groups, db
      ensures db.Valid()
      ensures Effect(Row(), db.rows, err) == GroupsRemoved(old(Row()), old(db.rows), groupsToRemove, fails)
    {
      if |groups| == 0 {
        return false;
      }
      var newGroups := Kept(groups, groupsToRemove);
      if |newGroups| < |groups| {
        db.ClearGroups(id);
        groups := newGroups;
        err := Save(db, fails);
        return;
      }
      err := Save(db, fails);
    }

    /** `resolveTag` / `resolveGroup` are GetTag / GetGroup in the new namespace. */
    method UpdateNamespace(db: Store, newNamespace: Namespace, resolveTag: string -> Attr,
                           resolveGroup: string -> Attr, fails: bool) returns (err: bool)
      requires db.Valid() && id > 0
      modifies this`namespace, this`namespaceId, this`tags, this`groups, db
      ensures db.Valid()
      ensures Effect(Row(), db.rows, err) == NamespaceMoved(old(Row()), old(db.rows), newNamespace, resolveTag, resolveGroup, fails)
      ensures namespace == Some(newNamespace)
    {
      namespace := Some(newNamespace);
      namespaceId := newNamespace.id;
      MoveTags(db, resolveTag);
      MoveGroups(db, resolveGroup);
      err := Save(db, fails);
    }

    /** The tag half of UpdateNamespace. */
    method MoveTags(db: Store, resolve: string -> Attr)
      requires db.Valid()
      modifies this`tags, db
      ensures db.Valid()
      ensures Effect(Row(), db.rows, false) == TagsReresolved(old(Row()), old(db.rows), resolve)
    {
      if |tags| > 0 {
        var newTags := ResolveAll(tags, resolve);
        db.ClearTags(id);
        tags := newTags;
      }
    }

    /** The group half of UpdateNamespace. */
    method MoveGroups(db: Store, resolve: string -> Attr)
      requires db.Valid()
      modifies this`groups, db
      ensures db.Valid()
      ensures Effect(Row(), db.rows, false) == GroupsReresolved(old(Row()), old(db.rows), resolve)
    {
      if |groups| > 0 {
        var newGroups := ResolveAll(groups, resolve);
        db.ClearGroups(id);
        groups := newGroups;
      }
    }

    /** `randomSlug` is gaw.RandString(25); `lookupFault` a store error of GetPublicFile. */
    method Publish(db: Store, publicName: string, randomSlug: string, lookupFault: bool, saveFails: bool)
      returns (conflict: bool, err: bool)
      requires db.Valid() && id > 0
      requires |randomSlug| == PublicNameLength
      modifies this`publicFilename, this`isPublic, db
      ensures db.Valid()
      ensures PublishEffect(Row(), db.rows, conflict, err) == Published(old(Row()), old(db.rows), publicName, randomSlug, lookupFault, saveFails)
    {
      ghost var p := Published(Row(), db.rows, publicName, randomSlug, lookupFault, saveFails);
      var slug := publicName;
      if |slug| == 0 {
        slug := randomSlug;
      }
      publicFilename := Some(slug);
      isPublic := true;
      assert Row() == p.file;
      var lookup := GetPublicFile(db.rows, slug, lookupFault);
      if lookup.found {
        return true, false;
      }
      conflict := false;
      err := Save(db, saveFails);
      assert db.rows == p.rows;
    }

    /** `disk` holds the storage files; the three flags are the answers of Save,
        os.Remove and the soft delete. */
    method Delete(db: Store, disk: Disk, saveFails: bool, removeFails: bool, deleteFails: bool)
      returns (err: bool)
      requires db.Valid() && id > 0
      modifies this`isPublic, this`publicFilename, db, disk
      ensures db.Valid()
      ensures DeleteEffect(Row(), db.rows, disk.blobs, err) == Deleted(old(Row()), old(db.rows), old(disk.blobs), saveFails, removeFails, deleteFails)
    {
      isPublic := false;
      publicFilename := None;
      err := Save(db, saveFails);
      if err {
        return;
      }
      var removeErr := disk.Remove(localName, removeFails);
      // a failed removal is only logged
      err := db.Delete(id, deleteFails);
    }

    /** `lookup*` is the by-name query of the loop, `create*` the entity's Insert. */
    method Insert(db: Store, user: nat, defaultNs: Namespace,
                  lookupTag: string -> Option<Attr>, createTag: Attr -> Attr,
                  lookupGroup: string -> Option<Attr>, createGroup: Attr -> Attr, fails: bool)
      returns (err: bool)
      requires db.Valid()
      modifies this`groups, this`tags, this`namespace, this`userId, this`id, this`namespaceId, db
      ensures db.Valid()
      ensures Effect(Row(), db.rows, err) == Inserted(old(Row()), old(db.rows), old(GetNamespace(defaultNs)), user,
                                lookupTag, createTag, lookupGroup, createGroup, fails)
    {
      ghost var ns0 := GetNamespace(defaultNs);
      ghost var e := Inserted(Row(), db.rows, ns0, user, lookupTag, createTag, lookupGroup, createGroup, fails);
      ghost var g := Row().(groups := Completed(groups, lookupGroup, createGroup),
                            tags := Completed(tags, lookupTag, createTag), userId := user);
      groups := CompleteAll(groups, lookupGroup, createGroup);
      tags := CompleteAll(tags, lookupTag, createTag);
      var ns := GetNamespace(defaultNs);
      namespace := Some(ns);
      userId := user;
      assert Row() == g;
      var newId;
      newId, err := db.Create(Row().(namespaceId := ns.id), fails);
      if !err {
        id := newId;
        namespaceId := ns.id;
        assert Row() == g.(id := newId, namespaceId := ns.id);
      }
      assert Row() == e.file && db.rows == e.rows && err == e.err;
    }
  }
}
