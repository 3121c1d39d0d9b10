/** Entities of the file engine (models/File.go) and the pure queries and list
    transformations that File.go runs over a file's tag and group slices. */
module Records {

  datatype Option<+T> = None | Some(value: T)

  /** One byte of file content. */
  type byte = b: int | 0 <= b < 256

  /** A namespace row: id, name and the owning user. */
  datatype Namespace = Namespace(id: nat, name: string, ownerId: nat)

  /** The requesting user as the handlers see it: its id, its role's rights, and
      MaxURLcontentSize when HasUploadLimit holds. */
  datatype User = User(
    id: nat,
    canUploadFiles: bool,
    allowedToUploadUrls: bool,
    canWriteForeignNamespace: bool,
    canReadForeignNamespace: bool,
    uploadLimit: Option<int>)

  /** Namespace.IsOwnedBy. */
  predicate IsOwnedBy(ns: Namespace, user: User) {
    ns.ownerId == user.id
  }

  /** A tag row or a group row; models.Tag and models.Group have this same shape. */
  datatype Attr = Attr(id: nat, name: string, namespaceId: nat)

  /** FileAttributes (models/File.go:30-34): names only. */
  datatype FileAttributes = FileAttributes(tags: seq<string>, groups: seq<string>, namespace: string)

  /** The columns of a file row together with its loaded tag and group associations.
      `publicFilename` is the nullable unique slug, `deleted` stands for deleted_at IS NOT NULL. */
  datatype Row = Row(
    id: nat,
    name: string,
    localName: string,
    userId: nat,
    fileSize: int,
    fileType: string,
    isPublic: bool,
    publicFilename: Option<string>,
    groups: seq<Attr>,
    tags: seq<Attr>,
    namespaceId: nat,
    deleted: bool)

  // ---------------------------------------------------------------------------
  // Searches

  /** HasTag / HasGroup: is some element named `n`? */
  function HasName(s: seq<Attr>, n: string): (r: bool)
    ensures r <==> exists i :: 0 <= i < |s| && s[i].name == n
  {
    if s == [] then false
    else
      assert forall i :: 1 <= i < |s| ==> s[i] == s[1..][i - 1];
      s[0].name == n || HasName(s[1..], n)
  }

  /** The inner loop of IsInTagList: does some element carry the id? */
  function HasId(s: seq<Attr>, id: nat): (r: bool)
    ensures r <==> exists j :: 0 <= j < |s| && s[j].id == id
  {
    if s == [] then false
    else
      assert forall j :: 1 <= j < |s| ==> s[j] == s[1..][j - 1];
      s[0].id == id || HasId(s[1..], id)
  }

  /** IsInTagList / IsInGroupList: do the two lists share an id? */
  function SharesId(a: seq<Attr>, b: seq<Attr>): (r: bool)
    ensures r <==> exists i, j :: 0 <= i < |a| && 0 <= j < |b| && a[i].id == b[j].id
  {
    if a == [] then false
    else
      assert forall i :: 1 <= i < |a| ==> a[i] == a[1..][i - 1];
      HasId(b, a[0].id) || SharesId(a[1..], b)
  }

  /** TagArrToStringArr / GroupArrToStringArr: the names, in order. */
  function Names(s: seq<Attr>): (r: seq<string>)
    ensures |r| == |s|
    ensures forall i :: 0 <= i < |s| ==> r[i] == s[i].name
  {
    if s == [] then [] else Names(s[..|s| - 1]) + [s[|s| - 1].name]
  }

  /** The resolver (GetTag / GetGroup) answers with an entity of the requested name. */
  ghost predicate NamePreserving(resolve: string -> Attr) {
    forall n :: resolve(n).name == n
  }

  // ---------------------------------------------------------------------------
  // AddTags / AddGroups (models/File.go:201-211, 237-247)

  /** The list after the add loop: each requested name not yet present is
      resolved and appended, in request order. */
  function AddedAttrs(s: seq<Attr>, names: seq<string>, resolve: string -> Attr): seq<Attr>
    decreases |names|
  {
    if names == [] then s
    else AddedAttrs(if HasName(s, names[0]) then s else s + [resolve(names[0])], names[1..], resolve)
  }

  /** The old list stays an unchanged prefix. */
  lemma {:induction false} AddedKeepsPrefix(s: seq<Attr>, names: seq<string>, resolve: string -> Attr)
    ensures s <= AddedAttrs(s, names, resolve)
    decreases |names|
  {
    if names != [] {
      var s1 := if HasName(s, names[0]) then s else s + [resolve(names[0])];
      AddedKeepsPrefix(s1, names[1..], resolve);
    }
  }

  /** Every requested name, and every name already present, is present afterwards. */
  lemma {:induction false} AddedCovers(s: seq<Attr>, names: seq<string>, resolve: string -> Attr)
    requires NamePreserving(resolve)
    ensures forall n :: n in names ==> HasName(AddedAttrs(s, names, resolve), n)
    ensures forall n :: HasName(s, n) ==> HasName(AddedAttrs(s, names, resolve), n)
    decreases |names|
  {
    if names != [] {
      var s1 := if HasName(s, names[0]) then s else s + [resolve(names[0])];
      assert HasName(s1, names[0]) by {
        if !HasName(s, names[0]) { assert s1[|s|].name == names[0]; }
      }
      assert forall n :: HasName(s, n) ==> HasName(s1, n) by {
        forall n | HasName(s, n) ensures HasName(s1, n) {
          var i :| 0 <= i < |s| && s[i].name == n;
          assert s1[i] == s[i];
        }
      }
      AddedCovers(s1, names[1..], resolve);
      forall n | n in names ensures HasName(AddedAttrs(s, names, resolve), n) {
        if n != names[0] { assert n in names[1..]; }
      }
    }
  }

  /** Appended elements carry requested names that were absent before, and no name
      is appended twice, however often it is repeated in the request. */
  lemma {:induction false} AddedFresh(s: seq<Attr>, names: seq<string>, resolve: string -> Attr)
    requires NamePreserving(resolve)
    ensures var r := AddedAttrs(s, names, resolve);
      (forall i :: |s| <= i < |r| ==> r[i].name in names && !HasName(s, r[i].name)) &&
      (forall i, j :: |s| <= i < j < |r| ==> r[i].name != r[j].name)
    decreases |names|
  {
    AddedKeepsPrefix(s, names, resolve);
    if names != [] {
      var s1 := if HasName(s, names[0]) then s else s + [resolve(names[0])];
      var r := AddedAttrs(s, names, resolve);
      AddedFresh(s1, names[1..], resolve);
      AddedKeepsPrefix(s1, names[1..], resolve);
      if s1 != s {
        assert r[|s|] == s1[|s|];
        forall j | |s| < j < |r| ensures r[|s|].name != r[j].name {
          assert s1[|s|].name == names[0];
          assert HasName(s1, names[0]);
        }
      }
    }
  }

  /** The list grows iff some requested name was absent (the didUpdate test of
      UpdateFileHandler for add steps). */
  lemma {:induction false} AddedGrowsIff(s: seq<Attr>, names: seq<string>, resolve: string -> Attr)
    ensures |AddedAttrs(s, names, resolve)| > |s| <==> exists n :: n in names && !HasName(s, n)
    decreases |names|
  {
    if names != [] {
      var n0 := names[0];
      if HasName(s, n0) {
        AddedGrowsIff(s, names[1..], resolve);
        assert forall n :: n in names && n != n0 ==> n in names[1..];
      } else {
        var s1 := s + [resolve(n0)];
        AddedKeepsPrefix(s1, names[1..], resolve);
        assert |AddedAttrs(s, names, resolve)| >= |s1|;
        assert n0 in names;
      }
    }
  }

  /** When every requested name is already present the list is unchanged. */
  lemma {:induction false} AddedNoop(s: seq<Attr>, names: seq<string>, resolve: string -> Attr)
    requires forall n :: n in names ==> HasName(s, n)
    ensures AddedAttrs(s, names, resolve) == s
    decreases |names|
  {
    if names != [] {
      assert names[0] in names;
      forall n | n in names[1..] ensures HasName(s, n) { assert n in names; }
      AddedNoop(s, names[1..], resolve);
    }
  }

  /** Adding the same names a second time changes nothing. */
  lemma AddedIdempotent(s: seq<Attr>, names: seq<string>, resolve: string -> Attr)
    requires NamePreserving(resolve)
    ensures AddedAttrs(AddedAttrs(s, names, resolve), names, resolve) == AddedAttrs(s, names, resolve)
  {
    AddedCovers(s, names, resolve);
    AddedNoop(AddedAttrs(s, names, resolve), names, resolve);
  }

  // ---------------------------------------------------------------------------
  // RemoveTags / RemoveGroups (models/File.go:214-234, 250-269)

  /** The list filtered to the elements whose name is not in `names`, order kept
      (built front to back, as the source's append loop does). */
  function Without(s: seq<Attr>, names: seq<string>): seq<Attr>
  {
    if s == [] then []
    else Without(s[..|s| - 1], names) + (if s[|s| - 1].name in names then [] else [s[|s| - 1]])
  }

  /** An element survives iff it was in the list and its name is not removed. */
  lemma {:induction false} WithoutMembers(s: seq<Attr>, names: seq<string>)
    ensures forall x :: x in Without(s, names) <==> x in s && x.name !in names
  {
    if s != [] {
      WithoutMembers(s[..|s| - 1], names);
      assert s == s[..|s| - 1] + [s[|s| - 1]];
    }
  }

  /** Filtering distributes over concatenation: the relative order is preserved. */
  lemma {:induction false} WithoutConcat(a: seq<Attr>, b: seq<Attr>, names: seq<string>)
    ensures Without(a + b, names) == Without(a, names) + Without(b, names)
    decreases |b|
  {
    if b == [] {
      assert a + b == a;
    } else {
      var b' := b[..|b| - 1];
      assert (a + b)[..|a + b| - 1] == a + b';
      WithoutConcat(a, b', names);
    }
  }

  /** The filter never grows the list, and it keeps the length exactly when no
      name matches, in which case it keeps the whole list. */
  lemma {:induction false} WithoutLength(s: seq<Attr>, names: seq<string>)
    ensures |Without(s, names)| <= |s|
    ensures |Without(s, names)| == |s| <==> forall i :: 0 <= i < |s| ==> s[i].name !in names
    ensures |Without(s, names)| == |s| ==> Without(s, names) == s
  {
    if s != [] {
      var p := s[..|s| - 1];
      var last := s[|s| - 1];
      WithoutLength(p, names);
      assert s == p + [last];
      assert forall i :: 0 <= i < |p| ==> p[i] == s[i];
      if last.name in names {
        assert Without(s, names) == Without(p, names);
      } else {
        assert Without(s, names) == Without(p, names) + [last];
      }
    }
  }

  /** An empty removal list leaves the list unchanged. */
  lemma WithoutNothing(s: seq<Attr>)
    ensures Without(s, []) == s
  {
    WithoutLength(s, []);
  }

  /** Removing the same names again changes nothing. */
  lemma WithoutIdempotent(s: seq<Attr>, names: seq<string>)
    ensures Without(Without(s, names), names) == Without(s, names)
  {
    var r := Without(s, names);
    WithoutMembers(s, names);
    assert forall i :: 0 <= i < |r| ==> r[i].name !in names by {
      forall i | 0 <= i < |r| ensures r[i].name !in names { assert r[i] in r; }
    }
    WithoutLength(r, names);
  }

  /** Removing names of which one is present shrinks the list; removing them a
      second time leaves it as it is. */
  lemma RemoveTwice(s: seq<Attr>, names: seq<string>, i: nat)
    requires i < |s| && s[i].name in names
    ensures |Without(s, names)| < |s|
    ensures |Without(Without(s, names), names)| == |Without(s, names)|
  {
    WithoutLength(s, names);
    WithoutIdempotent(s, names);
  }

  // ---------------------------------------------------------------------------
  // UpdateNamespace (models/File.go:314-347)

  /** Every element replaced by the resolver's answer for its name, in order. */
  function Reresolved(s: seq<Attr>, resolve: string -> Attr): seq<Attr>
  {
    if s == [] then [] else Reresolved(s[..|s| - 1], resolve) + [resolve(s[|s| - 1].name)]
  }

  /** Same length, and the element at i is the resolver's answer for s[i]'s name. */
  lemma {:induction false} ReresolvedPointwise(s: seq<Attr>, resolve: string -> Attr)
    ensures |Reresolved(s, resolve)| == |s|
    ensures forall i :: 0 <= i < |s| ==> Reresolved(s, resolve)[i] == resolve(s[i].name)
  {
    if s != [] {
      var p := s[..|s| - 1];
      ReresolvedPointwise(p, resolve);
      assert forall i :: 0 <= i < |p| ==> p[i] == s[i];
    }
  }

  /** With a name-preserving resolver the names and their order are kept, and with
      a resolver into namespace `nsId` every element lies in that namespace. */
  lemma ReresolvedSpec(s: seq<Attr>, resolve: string -> Attr, nsId: nat)
    requires NamePreserving(resolve)
    requires forall n :: resolve(n).namespaceId == nsId
    ensures |Reresolved(s, resolve)| == |s|
    ensures Names(Reresolved(s, resolve)) == Names(s)
    ensures forall i :: 0 <= i < |s| ==> Reresolved(s, resolve)[i].namespaceId == nsId
  {
    ReresolvedPointwise(s, resolve);
  }

  // ---------------------------------------------------------------------------
  // Insert's lookup-or-create loop (models/File.go:46-67)

  /** One element after the loop body: a loaded entity (id != 0) stays; otherwise
      the lookup by name replaces it, and when that fails it is created. */
  function LookupOrCreate(a: Attr, lookup: string -> Option<Attr>, create: Attr -> Attr): Attr
  {
    if a.id != 0 then a
    else match lookup(a.name)
      case Some(found) => found
      case None => create(a)
  }

  function Completed(s: seq<Attr>, lookup: string -> Option<Attr>, create: Attr -> Attr): seq<Attr>
  {
    if s == [] then [] else Completed(s[..|s| - 1], lookup, create) + [LookupOrCreate(s[|s| - 1], lookup, create)]
  }

  /** Length kept, every element resolved on its own, loaded entities untouched. */
  lemma {:induction false} CompletedPointwise(s: seq<Attr>, lookup: string -> Option<Attr>, create: Attr -> Attr)
    ensures |Completed(s, lookup, create)| == |s|
    ensures forall i :: 0 <= i < |s| ==> Completed(s, lookup, create)[i] == LookupOrCreate(s[i], lookup, create)
    ensures forall i :: 0 <= i < |s| && s[i].id != 0 ==> Completed(s, lookup, create)[i] == s[i]
  {
    if s != [] {
      var p := s[..|s| - 1];
      CompletedPointwise(p, lookup, create);
      assert forall i :: 0 <= i < |p| ==> p[i] == s[i];
    }
  }

  /** With oracles that keep the name and hand out non-zero ids the names are kept
      and every element afterwards has an id. */
  lemma CompletedSpec(s: seq<Attr>, lookup: string -> Option<Attr>, create: Attr -> Attr)
    requires forall n :: lookup(n).Some? ==> lookup(n).value.name == n && lookup(n).value.id != 0
    requires forall a :: create(a).name == a.name && create(a).id != 0
    ensures |Completed(s, lookup, create)| == |s|
    ensures forall i :: 0 <= i < |s| ==> Completed(s, lookup, create)[i].id != 0
    ensures Names(Completed(s, lookup, create)) == Names(s)
  {
    CompletedPointwise(s, lookup, create);
    var c := Completed(s, lookup, create);
    forall i | 0 <= i < |s| ensures c[i].name == s[i].name && c[i].id != 0 {
      assert c[i] == LookupOrCreate(s[i], lookup, create);
    }
    assert Names(c) == Names(s) by {
      assert forall i :: 0 <= i < |s| ==> Names(c)[i] == Names(s)[i];
    }
  }
}
