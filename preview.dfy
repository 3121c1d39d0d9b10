/** PrevievFileHandler (handlers/PreviewHandler.go:13-58): a public file is
    looked up by its slug and its content file is streamed back. */
module Preview {
  import opened Records
  import opened Storage
  import opened Files
  import opened Helpers

  /** What the client gets: net/http's 404 page, the "Server error" page, or the
      bytes of a file together with the record they come from, the Content-Type
      header set, and whether an error of the copy was logged. */
  datatype Page =
    | NotFoundPage
    | ServerErrorPage
    | Served(file: Row, contentType: Option<string>, writes: seq<seq<byte>>, errorLogged: bool)

  /** The handler as written, and as its error tests evidently intend (see
      StoreFaultIsNotFound and CopyErrorUnreported). */
  datatype Reading = AsWritten | Intended

  /** The Read results of an os.File over `data` with a buffer of `size` bytes:
      full buffers, then the rest, then (0, io.EOF); an empty buffer reads (0, nil).
      `writeFails(k)` says whether the k-th write to the client fails. */
  function FileChunks(data: seq<byte>, size: nat, writeFails: nat -> bool, k: nat): (chunks: seq<Chunk>)
    ensures forall j :: 0 <= j < |chunks| ==> |chunks[j].data| <= size && chunks[j].status == ReadOk
    ensures size > 0 ==> forall j :: 0 <= j < |chunks| ==> |chunks[j].data| > 0
    decreases |data|
  {
    if size == 0 then [Chunk([], ReadOk, false)]
    else if |data| == 0 then []
    else
      var n := if |data| < size then |data| else size;
      [Chunk(data[..n], ReadOk, writeFails(k))] + FileChunks(data[n..], size, writeFails, k + 1)
  }

  lemma FlattenCons(w: seq<byte>, rest: seq<seq<byte>>)
    ensures Flatten([w] + rest) == w + Flatten(rest)
  {
    assert ([w] + rest)[1..] == rest;
  }

  /** The Copy of a non-empty file with a non-empty buffer: its first chunk is
      written, then the rest of the file follows. */
  lemma CopyUnfolds(data: seq<byte>, size: nat, writeFails: nat -> bool, k: nat)
    requires size > 0 && |data| > 0 && !writeFails(k)
    ensures var n := if |data| < size then |data| else size;
      Copy(FileChunks(data, size, writeFails, k)) ==
        var rest := Copy(FileChunks(data[n..], size, writeFails, k + 1));
        CopyOutcome([data[..n]] + rest.writes, rest.err)
  {
    var n := if |data| < size then |data| else size;
    assert FileChunks(data, size, writeFails, k)[1..] == FileChunks(data[n..], size, writeFails, k + 1);
  }

  /** Copying a file with a non-empty buffer ends with io.EOF or with the
      writer's error, and the latter only when some write fails. */
  lemma {:induction false} FileCopyErr(data: seq<byte>, size: nat, writeFails: nat -> bool, k: nat)
    requires size > 0
    ensures Copy(FileChunks(data, size, writeFails, k)).err in {Eof, WriteFailed}
    ensures (forall j :: !writeFails(j)) ==> Copy(FileChunks(data, size, writeFails, k)).err == Eof
    decreases |data|
  {
    if |data| > 0 && !writeFails(k) {
      var n := if |data| < size then |data| else size;
      FileCopyErr(data[n..], size, writeFails, k + 1);
      CopyUnfolds(data, size, writeFails, k);
    }
  }

  /** Copying a file with a non-empty buffer delivers a prefix of it, and the
      whole file exactly when the copy ends with io.EOF. */
  lemma {:induction false} FileCopyData(data: seq<byte>, size: nat, writeFails: nat -> bool, k: nat)
    requires size > 0
    ensures Flatten(Copy(FileChunks(data, size, writeFails, k)).writes) <= data
    ensures Copy(FileChunks(data, size, writeFails, k)).err == Eof <==>
              Flatten(Copy(FileChunks(data, size, writeFails, k)).writes) == data
    decreases |data|
  {
    if |data| > 0 && !writeFails(k) {
      var n := if |data| < size then |data| else size;
      FileCopyData(data[n..], size, writeFails, k + 1);
      CopyUnfolds(data, size, writeFails, k);
      var rest := Copy(FileChunks(data[n..], size, writeFails, k + 1));
      FlattenCons(data[..n], rest.writes);
      assert data == data[..n] + data[n..];
    }
  }

  /** Both facts together. */
  lemma FileCopySpec(data: seq<byte>, size: nat, writeFails: nat -> bool, k: nat)
    requires size > 0
    ensures Flatten(Copy(FileChunks(data, size, writeFails, k)).writes) <= data
    ensures Copy(FileChunks(data, size, writeFails, k)).err == Eof <==>
              Flatten(Copy(FileChunks(data, size, writeFails, k)).writes) == data
    ensures Copy(FileChunks(data, size, writeFails, k)).err in {Eof, WriteFailed}
    ensures (forall j :: !writeFails(j)) ==> Copy(FileChunks(data, size, writeFails, k)).err == Eof
  {
    FileCopyErr(data, size, writeFails, k);
    FileCopyData(data, size, writeFails, k);
  }

  /** The Content-Type header is set from the stored type when there is one. */
  function ContentType(f: Row): (t: Option<string>)
    ensures t.Some? <==> |f.fileType| > 0
    ensures t.Some? ==> t.value == f.fileType
  {
    if |f.fileType| > 0 then Some(f.fileType) else None
  }

  /** The handler as a function of the table, the storage files, the store fault
      of the lookup, the configured buffer size and the client's write failures.
      As written the error test after the lookup cannot fire (GetPublicFile
      yields found == false on every error), and the one after the copy tests
      the error of os.Open, which is nil there. */
  function Previewed(reading: Reading, rows: seq<Row>, blobs: map<string, seq<byte>>, slug: string,
                     fault: bool, bufferSize: nat, writeFails: nat -> bool): (page: Page)
    ensures page.Served? ==> page.file in rows && SlugMatch(page.file, slug) && page.file.isPublic
    ensures page.Served? ==> page.file.localName in blobs && page.contentType == ContentType(page.file)
    ensures (forall i :: 0 <= i < |rows| ==> !SlugMatch(rows[i], slug)) ==> page == NotFoundPage || page == ServerErrorPage
    ensures (reading == AsWritten || !fault) && (forall i :: 0 <= i < |rows| ==> !SlugMatch(rows[i], slug)) ==>
              page == NotFoundPage
    ensures !fault && GetPublicFile(rows, slug, false).found && !GetPublicFile(rows, slug, false).file.value.isPublic ==>
              page == NotFoundPage
    ensures !fault && GetPublicFile(rows, slug, false).found && GetPublicFile(rows, slug, false).file.value.isPublic &&
            GetPublicFile(rows, slug, false).file.value.localName !in blobs ==>
              page == ServerErrorPage
  {
    var lookup := GetPublicFile(rows, slug, fault);
    if reading == Intended && lookup.failed then ServerErrorPage
    else if !lookup.found then NotFoundPage
    else
      var f := lookup.file.value;
      if !f.isPublic then NotFoundPage
      else if f.localName !in blobs then ServerErrorPage
      else
        var out := Copy(FileChunks(blobs[f.localName], bufferSize, writeFails, 0));
        Served(f, ContentType(f), out.writes, reading == Intended && out.err != Nil && out.err != Eof)
  }

  /** handlers/PreviewHandler.go:13-58. `fault` is a store error of the lookup;
      a missing content file is os.Open's error. */
  method PreviewFile(db: Store, disk: Disk, slug: string, fault: bool, bufferSize: nat, writeFails: nat -> bool)
    returns (page: Page)
    ensures page == Previewed(AsWritten, db.rows, disk.blobs, slug, fault, bufferSize, writeFails)
  {
    var lookup := GetPublicFile(db.rows, slug, fault);
    if !lookup.found {
      return NotFoundPage;
    }
    // the error test that follows cannot fire: found implies no error
    var file := lookup.file.value;
    if !file.isPublic {
      return NotFoundPage;
    }
    var contentType := ContentType(file);
    if file.localName !in disk.blobs {
      return ServerErrorPage;
    }
    var chunks := FileChunks(disk.blobs[file.localName], bufferSize, writeFails, 0);
    var writes, copyErr := BufferedCopy(bufferSize, chunks);
    // copyErr is dropped; the test after the copy re-reads os.Open's nil error
    page := Served(file, contentType, writes, false);
  }

  // ---------------------------------------------------------------------------
  // Properties

  /** With slugs unique, a live public file is what its slug serves, and with a
      non-empty buffer and no failing write the client gets exactly its bytes. */
  lemma PreviewServesFile(reading: Reading, rows: seq<Row>, blobs: map<string, seq<byte>>, r: Row, slug: string,
                          bufferSize: nat, writeFails: nat -> bool)
    requires SlugsUnique(rows) && r in rows && SlugMatch(r, slug) && r.isPublic && r.localName in blobs
    ensures Previewed(reading, rows, blobs, slug, false, bufferSize, writeFails).Served?
    ensures Previewed(reading, rows, blobs, slug, false, bufferSize, writeFails).file == r
    ensures bufferSize > 0 && (forall j :: !writeFails(j)) ==>
              Flatten(Previewed(reading, rows, blobs, slug, false, bufferSize, writeFails).writes) == blobs[r.localName]
  {
    var j :| 0 <= j < |rows| && rows[j] == r;
    var lookup := GetPublicFile(rows, slug, false);
    var x := lookup.file.value;
    var i :| 0 <= i < |rows| && rows[i] == x;
    if i < j || j < i {
      assert false;
    }
    if bufferSize > 0 {
      FileCopySpec(blobs[r.localName], bufferSize, writeFails, 0);
    }
  }

  /** What is served is always a prefix of the stored content file. */
  lemma ServedIsPrefix(reading: Reading, rows: seq<Row>, blobs: map<string, seq<byte>>, slug: string,
                       fault: bool, bufferSize: nat, writeFails: nat -> bool)
    requires Previewed(reading, rows, blobs, slug, fault, bufferSize, writeFails).Served?
    ensures var page := Previewed(reading, rows, blobs, slug, fault, bufferSize, writeFails);
      Flatten(page.writes) <= blobs[page.file.localName]
  {
    var page := Previewed(reading, rows, blobs, slug, fault, bufferSize, writeFails);
    if bufferSize > 0 {
      FileCopySpec(blobs[page.file.localName], bufferSize, writeFails, 0);
    }
  }

  /** What the client sees of a page (the log aside). */
  function Shown(page: Page): Page
  {
    match page
    case Served(f, t, w, _) => Served(f, t, w, false)
    case _ => page
  }

  /** As written a store error of the lookup is answered as "not found". */
  lemma StoreFaultIsNotFound(rows: seq<Row>, blobs: map<string, seq<byte>>, slug: string, bufferSize: nat, writeFails: nat -> bool)
    ensures Previewed(AsWritten, rows, blobs, slug, true, bufferSize, writeFails) == NotFoundPage
  {
  }

  /** As intended a store error gives the server error page, and nothing else
      changes. */
  lemma StoreFaultIsServerError(rows: seq<Row>, blobs: map<string, seq<byte>>, slug: string, fault: bool,
                                bufferSize: nat, writeFails: nat -> bool)
    ensures fault ==> Previewed(Intended, rows, blobs, slug, fault, bufferSize, writeFails) == ServerErrorPage
    ensures !fault ==> Shown(Previewed(Intended, rows, blobs, slug, fault, bufferSize, writeFails)) ==
                       Shown(Previewed(AsWritten, rows, blobs, slug, fault, bufferSize, writeFails))
  {
  }

  /** As written a client that drops the connection at the first write leaves no
      trace: the file is served with nothing written and no error logged. */
  lemma CopyErrorUnreported(rows: seq<Row>, blobs: map<string, seq<byte>>, r: Row, slug: string,
                            bufferSize: nat, writeFails: nat -> bool)
    requires SlugsUnique(rows) && r in rows && SlugMatch(r, slug) && r.isPublic && r.localName in blobs
    requires bufferSize > 0 && |blobs[r.localName]| > 0 && writeFails(0)
    ensures Previewed(AsWritten, rows, blobs, slug, false, bufferSize, writeFails) == Served(r, ContentType(r), [], false)
  {
    PreviewServesFile(AsWritten, rows, blobs, r, slug, bufferSize, writeFails);
  }

  /** As intended an error is logged exactly when the client did not get the
      whole file (for a non-empty buffer). */
  lemma CopyErrorLogged(rows: seq<Row>, blobs: map<string, seq<byte>>, slug: string, fault: bool,
                        bufferSize: nat, writeFails: nat -> bool)
    requires bufferSize > 0
    requires Previewed(Intended, rows, blobs, slug, fault, bufferSize, writeFails).Served?
    ensures var page := Previewed(Intended, rows, blobs, slug, fault, bufferSize, writeFails);
      page.errorLogged <==> Flatten(page.writes) != blobs[page.file.localName]
  {
    var page := Previewed(Intended, rows, blobs, slug, fault, bufferSize, writeFails);
    FileCopySpec(blobs[page.file.localName], bufferSize, writeFails, 0);
  }

  /** A Publish without conflict whose Save succeeds makes the file reachable
      under its slug. */
  lemma PublishThenPreview(f: Row, rows: seq<Row>, blobs: map<string, seq<byte>>, publicName: string, randomSlug: string,
                           bufferSize: nat, writeFails: nat -> bool)
    requires f.localName in blobs && !f.deleted
    requires !Published(f, rows, publicName, randomSlug, false, false).conflict
    ensures var p := Published(f, rows, publicName, randomSlug, false, false);
      var page := Previewed(AsWritten, p.rows, blobs, SlugFor(publicName, randomSlug), false, bufferSize, writeFails);
      page.Served? && page.file == p.file &&
      (bufferSize > 0 && (forall j :: !writeFails(j)) ==> Flatten(page.writes) == blobs[f.localName])
  {
    var p := Published(f, rows, publicName, randomSlug, false, false);
    var slug := SlugFor(publicName, randomSlug);
    PublishSpec(f, rows, publicName, randomSlug, false);
    PutContents(rows, p.file);
    var page := Previewed(AsWritten, p.rows, blobs, slug, false, bufferSize, writeFails);
    var lookup := GetPublicFile(p.rows, slug, false);
    assert p.file in p.rows && SlugMatch(p.file, slug);
    assert forall x :: x in p.rows && SlugMatch(x, slug) ==> x == p.file;
    if bufferSize > 0 {
      FileCopySpec(blobs[f.localName], bufferSize, writeFails, 0);
    }
  }

  /** After a Delete whose Save and soft delete succeed, no slug serves the file. */
  lemma DeleteThenPreview(reading: Reading, f: Row, rows: seq<Row>, blobs: map<string, seq<byte>>, removeFails: bool,
                          slug: string, fault: bool, bufferSize: nat, writeFails: nat -> bool)
    ensures var d := Deleted(f, rows, blobs, false, removeFails, false);
      var page := Previewed(reading, d.rows, d.blobs, slug, fault, bufferSize, writeFails);
      page.Served? ==> page.file.id != f.id
  {
    DeleteMarksRow(f, rows, false);
  }
}
