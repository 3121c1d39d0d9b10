/** The relational store as the file engine sees it: the files table as a sequence
    of rows in primary-key order, the writes gorm performs on it (Save, association
    Clear, soft delete, Create) and the queries of models/File.go and
    handlers/FileHandler.go. gorm's default scope hides soft-deleted rows from
    every query on File, so each query below looks at live rows only. */
module Storage {
  import opened Records

  /** Primary keys are positive and unique. */
  ghost predicate WellFormed(rows: seq<Row>) {
    && (forall i :: 0 <= i < |rows| ==> rows[i].id > 0)
    && (forall i, j :: 0 <= i < j < |rows| ==> rows[i].id != rows[j].id)
  }

  // ---------------------------------------------------------------------------
  // Generic row functions

  function HasRow(rows: seq<Row>, id: nat): (r: bool)
    ensures r <==> exists i :: 0 <= i < |rows| && rows[i].id == id
  {
    if rows == [] then false
    else
      assert forall i :: 1 <= i < |rows| ==> rows[i] == rows[1..][i - 1];
      rows[0].id == id || HasRow(rows[1..], id)
  }

  /** UPDATE ... WHERE id = `id`: `change` applied to every row with that key. */
  function Modified(rows: seq<Row>, id: nat, change: Row -> Row): (res: seq<Row>)
    ensures |res| == |rows|
    ensures forall i :: 0 <= i < |rows| ==> res[i] == if rows[i].id == id then change(rows[i]) else rows[i]
  {
    if rows == [] then []
    else
      var last := rows[|rows| - 1];
      Modified(rows[..|rows| - 1], id, change) + [if last.id == id then change(last) else last]
  }

  /** gorm's Save: update the row with the record's key, or insert it when none has it. */
  function Put(rows: seq<Row>, r: Row): (res: seq<Row>)
    ensures WellFormed(rows) && r.id > 0 ==> WellFormed(res)
  {
    if HasRow(rows, r.id) then Modified(rows, r.id, _ => r) else rows + [r]
  }

  /** After a Save every row with the record's key is the record, and the record is stored. */
  lemma PutStores(rows: seq<Row>, r: Row)
    ensures forall i :: 0 <= i < |Put(rows, r)| && Put(rows, r)[i].id == r.id ==> Put(rows, r)[i] == r
    ensures exists i :: 0 <= i < |Put(rows, r)| && Put(rows, r)[i] == r
  {
    var res := Put(rows, r);
    if HasRow(rows, r.id) {
      var k :| 0 <= k < |rows| && rows[k].id == r.id;
      assert res[k] == r;
    } else {
      assert res[|rows|] == r;
    }
  }

  /** After a Save the table holds the record and every other-keyed row it held,
      and nothing else. */
  lemma PutContents(rows: seq<Row>, r: Row)
    ensures forall x :: x in Put(rows, r) <==> x == r || (x in rows && x.id != r.id)
  {
    var res := Put(rows, r);
    if HasRow(rows, r.id) {
      var k :| 0 <= k < |rows| && rows[k].id == r.id;
      assert res[k] == r;
      forall x | x in rows && x.id != r.id ensures x in res {
        var i :| 0 <= i < |rows| && rows[i] == x;
        assert res[i] == x;
      }
    }
  }

  /** Association("Tags").Clear(): the row's tag associations are dropped. */
  function TagsCleared(rows: seq<Row>, id: nat): (res: seq<Row>)
    ensures WellFormed(rows) ==> WellFormed(res)
  {
    Modified(rows, id, (x: Row) => x.(tags := []))
  }

  /** Association("Groups").Clear(). */
  function GroupsCleared(rows: seq<Row>, id: nat): (res: seq<Row>)
    ensures WellFormed(rows) ==> WellFormed(res)
  {
    Modified(rows, id, (x: Row) => x.(groups := []))
  }

  /** db.Delete on a record with gorm.Model: deleted_at is set, the row stays. */
  function SoftDeleted(rows: seq<Row>, id: nat): (res: seq<Row>)
    ensures WellFormed(rows) ==> WellFormed(res)
  {
    Modified(rows, id, (x: Row) => x.(deleted := true))
  }

  /** The first row satisfying `p`. */
  function FirstWhere(rows: seq<Row>, p: Row -> bool): (r: Option<Row>)
    ensures r.None? <==> forall i :: 0 <= i < |rows| ==> !p(rows[i])
    ensures r.Some? ==> exists i :: 0 <= i < |rows| && rows[i] == r.value && p(r.value) &&
                                    forall j :: 0 <= j < i ==> !p(rows[j])
  {
    if rows == [] then None
    else if p(rows[0]) then Some(rows[0])
    else
      var r := FirstWhere(rows[1..], p);
      assert forall i :: 1 <= i < |rows| ==> rows[i] == rows[1..][i - 1];
      if r.Some? then
        var i :| 0 <= i < |rows[1..]| && rows[1..][i] == r.value && p(r.value) &&
                 forall j :: 0 <= j < i ==> !p(rows[1..][j]);
        assert rows[i + 1] == r.value;
        r
      else r
  }

  /** A row count with a WHERE condition `p`. */
  function CountWhere(rows: seq<Row>, p: Row -> bool): (n: nat)
    ensures n <= |rows|
    ensures n == 0 <==> forall i :: 0 <= i < |rows| ==> !p(rows[i])
  {
    if rows == [] then 0
    else
      var q := rows[..|rows| - 1];
      assert forall i :: 0 <= i < |q| ==> q[i] == rows[i];
      CountWhere(q, p) + (if p(rows[|rows| - 1]) then 1 else 0)
  }

  /** More than one row matches iff two distinct rows match. */
  lemma {:induction false} CountAboveOne(rows: seq<Row>, p: Row -> bool)
    ensures CountWhere(rows, p) > 1 <==> exists i, j :: 0 <= i < j < |rows| && p(rows[i]) && p(rows[j])
  {
    if rows != [] {
      var q := rows[..|rows| - 1];
      var k := |rows| - 1;
      CountAboveOne(q, p);
      assert forall i :: 0 <= i < |q| ==> q[i] == rows[i];
      if CountWhere(rows, p) > 1 {
        if !(CountWhere(q, p) > 1) {
          var i :| 0 <= i < |q| && p(q[i]);
          assert p(rows[i]) && p(rows[k]) && i < k;
        }
      }
    }
  }

  /** The rows satisfying `p`, in table order. */
  function Filter(rows: seq<Row>, p: Row -> bool): (res: seq<Row>)
    ensures |res| <= |rows|
    ensures forall x :: x in res <==> x in rows && p(x)
  {
    if rows == [] then []
    else
      var q := rows[..|rows| - 1];
      assert rows == q + [rows[|rows| - 1]];
      Filter(q, p) + (if p(rows[|rows| - 1]) then [rows[|rows| - 1]] else [])
  }

  /** The largest primary key (0 for an empty table). */
  function MaxId(rows: seq<Row>): (m: nat)
    ensures forall i :: 0 <= i < |rows| ==> rows[i].id <= m
  {
    if rows == [] then 0
    else
      var q := rows[..|rows| - 1];
      var m := MaxId(q);
      assert forall i :: 0 <= i < |q| ==> q[i] == rows[i];
      if rows[|rows| - 1].id > m then rows[|rows| - 1].id else m
  }

  /** The auto-increment key a Create hands out. */
  function NextId(rows: seq<Row>): nat
  {
    MaxId(rows) + 1
  }

  // ---------------------------------------------------------------------------
  // Facts about the writes

  /** A created row receives a key no existing row has, so the table stays well formed. */
  lemma NextIdFresh(rows: seq<Row>, r: Row)
    requires WellFormed(rows) && r.id == NextId(rows)
    ensures !HasRow(rows, r.id)
    ensures WellFormed(rows + [r])
  {
  }

  // ---------------------------------------------------------------------------
  // Queries

  /** The WHERE of GetCount (models/File.go:281-290): live, and the id when one is
      given. Name and namespace id come from a struct condition, which gorm drops
      for zero values, so an empty name or namespace id 0 matches every row. The
      uploader is not part of it. */
  predicate CountMatch(r: Row, name: string, nsId: nat, fileId: nat) {
    && !r.deleted
    && (name == "" || r.name == name)
    && (nsId == 0 || r.namespaceId == nsId)
    && (fileId == 0 || r.id == fileId)
  }

  /** File.GetCount (models/File.go:277-296) without its error path. */
  function GetCount(rows: seq<Row>, name: string, nsId: nat, fileId: nat): nat
  {
    CountWhere(rows, (r: Row) => CountMatch(r, name, nsId, fileId))
  }

  /** What the count means: zero iff no live row has the name in the namespace
      (and the id when given); above one iff two distinct rows do, which cannot
      happen once an id is given. */
  lemma GetCountSpec(rows: seq<Row>, name: string, nsId: nat, fileId: nat)
    ensures GetCount(rows, name, nsId, fileId) == 0 <==>
              forall i :: 0 <= i < |rows| ==> !CountMatch(rows[i], name, nsId, fileId)
    ensures GetCount(rows, name, nsId, fileId) > 1 <==>
              exists i, j :: 0 <= i < j < |rows| && CountMatch(rows[i], name, nsId, fileId) && CountMatch(rows[j], name, nsId, fileId)
    ensures WellFormed(rows) && fileId != 0 ==> GetCount(rows, name, nsId, fileId) <= 1
  {
    CountAboveOne(rows, (r: Row) => CountMatch(r, name, nsId, fileId));
  }

  /** The WHERE of FindFile (models/File.go:128-132): a raw condition on name,
      namespace id and uploader, plus the id when one is given. */
  predicate FindMatch(r: Row, name: string, nsId: nat, userId: nat, fileId: nat) {
    !r.deleted && r.name == name && r.namespaceId == nsId && r.userId == userId && (fileId == 0 || r.id == fileId)
  }

  /** FindFile (models/File.go:128-142): the first matching row; None is its
      record-not-found error. */
  function FindFile(rows: seq<Row>, name: string, nsId: nat, userId: nat, fileId: nat): Option<Row>
  {
    FirstWhere(rows, (r: Row) => FindMatch(r, name, nsId, userId, fileId))
  }

  /** The count of the local-name collision check (handlers/FileHandler.go:89). */
  function CountLocalName(rows: seq<Row>, localName: string): nat
  {
    CountWhere(rows, (r: Row) => !r.deleted && r.localName == localName)
  }

  /** The three results of GetPublicFile. */
  datatype PublicLookup = PublicLookup(file: Option<Row>, found: bool, failed: bool)

  predicate SlugMatch(r: Row, slug: string) {
    !r.deleted && r.publicFilename == Some(slug)
  }

  /** GetPublicFile (models/File.go:299-311): `fault` is a store error other than
      record-not-found. Every error path reports found == false. */
  function GetPublicFile(rows: seq<Row>, slug: string, fault: bool): (r: PublicLookup)
    ensures r.found ==> !r.failed
    ensures r.found <==> !fault && exists i :: 0 <= i < |rows| && SlugMatch(rows[i], slug)
    ensures r.file.Some? <==> r.found
    ensures r.found ==> r.file.value in rows && SlugMatch(r.file.value, slug)
    ensures r.failed <==> fault
  {
    if fault then PublicLookup(None, false, true)
    else
      match FirstWhere(rows, (x: Row) => SlugMatch(x, slug))
      case Some(x) => PublicLookup(Some(x), true, false)
      case None => PublicLookup(None, false, false)
  }

  /** SQL's `LIKE '%sub%'` read as plain substring containment. */
  function Contains(s: string, sub: string): (r: bool)
    ensures r <==> exists i :: 0 <= i <= |s| && sub <= s[i..]
    decreases |s|
  {
    if sub <= s then
      assert s[0..] == s;
      true
    else if s == [] then false
    else
      var r := Contains(s[1..], sub);
      assert forall i :: 1 <= i <= |s| ==> s[i..] == s[1..][i - 1..];
      r
  }

  /** The rows ListFilesHandler loads (handlers/FileHandler.go:209-218): live, in the
      namespace, and containing the name when one is given. */
  predicate ListMatch(r: Row, nsId: nat, name: string) {
    !r.deleted && r.namespaceId == nsId && (|name| == 0 || Contains(r.name, name))
  }

  function ListQuery(rows: seq<Row>, nsId: nat, name: string): seq<Row>
  {
    Filter(rows, (r: Row) => ListMatch(r, nsId, name))
  }

  // ---------------------------------------------------------------------------
  // The store object

  /** The database handle: the files table, changed in place by the writes above. */
  class Store {
    var rows: seq<Row>

    ghost predicate Valid()
      reads this
    {
      WellFormed(rows)
    }

    constructor (initial: seq<Row>)
      requires WellFormed(initial)
      ensures Valid() && rows == initial
    {
      rows := initial;
    }

    /** db.Save(record); `fails` is the store's answer. */
    method Save(r: Row, fails: bool) returns (err: bool)
      requires Valid() && r.id > 0
      modifies this
      ensures Valid()
      ensures err == fails
      ensures rows == if fails then old(rows) else Put(old(rows), r)
    {
      err := fails;
      if !fails {
        rows := Put(rows, r);
      }
    }

    /** db.Model(file).Association("Tags").Clear(); its error is ignored by every caller. */
    method ClearTags(id: nat)
      requires Valid()
      modifies this
      ensures Valid()
      ensures rows == TagsCleared(old(rows), id)
    {
      rows := TagsCleared(rows, id);
    }

    method ClearGroups(id: nat)
      requires Valid()
      modifies this
      ensures Valid()
      ensures rows == GroupsCleared(old(rows), id)
    {
      rows := GroupsCleared(rows, id);
    }

    method Delete(id: nat, fails: bool) returns (err: bool)
      requires Valid()
      modifies this
      ensures Valid()
      ensures err == fails
      ensures rows == if fails then old(rows) else SoftDeleted(old(rows), id)
    {
      err := fails;
      if !fails {
        rows := SoftDeleted(rows, id);
      }
    }

    /** db.Create(record): the record receives the next key and is appended. */
    method Create(r: Row, fails: bool) returns (id: nat, err: bool)
      requires Valid()
      modifies this
      ensures Valid()
      ensures err == fails
      ensures id == NextId(old(rows))
      ensures rows == if fails then old(rows) else old(rows) + [r.(id := id)]
    {
      id := NextId(rows);
      err := fails;
      if !fails {
        NextIdFresh(rows, r.(id := id));
        rows := rows + [r.(id := id)];
      }
    }
  }

  // ---------------------------------------------------------------------------
  // The content store

  /** Storage files on disk, keyed by a file's local name (config.GetStorageFile
      maps each local name to its own path). */
  class Disk {
    var blobs: map<string, seq<byte>>

    constructor (initial: map<string, seq<byte>>)
      ensures blobs == initial
    {
      blobs := initial;
    }

    /** os.Create: a new, empty file (an existing one is truncated). */
    method Create(key: string, fails: bool) returns (err: bool)
      modifies this
      ensures err == fails
      ensures blobs == if fails then old(blobs) else old(blobs)[key := []]
    {
      err := fails;
      if !fails {
        blobs := blobs[key := []];
      }
    }

    /** f.Write on the open file: all of `data` is appended, or nothing on error. */
    method Write(key: string, data: seq<byte>, fails: bool) returns (n: nat, err: bool)
      requires key in blobs
      modifies this
      ensures err == fails
      ensures n == if fails then 0 else |data|
      ensures blobs == if fails then old(blobs) else old(blobs)[key := old(blobs)[key] + data]
    {
      err := fails;
      n := 0;
      if !fails {
        blobs := blobs[key := blobs[key] + data];
        n := |data|;
      }
    }

    /** os.Remove: fails for a missing file or on the disk's own error. */
    method Remove(key: string, fails: bool) returns (err: bool)
      modifies this
      ensures err == (fails || key !in old(blobs))
      ensures blobs == if err then old(blobs) else old(blobs) - {key}
    {
      err := fails || key !in blobs;
      if !err {
        blobs := blobs - {key};
      }
    }
  }
}
