/** UploadfileHandler (handlers/FileHandler.go:15-160): validation, choice of a
    free local name, creation of the storage file, its content, and the Insert. */
module Upload {
  import opened Records
  import opened Storage
  import opened Files
  import opened Helpers

  datatype UploadType = FileUpload | UrlUpload | UnknownUpload

  /** The fields of the upload request the handler reads. */
  datatype UploadRequest = UploadRequest(
    uploadType: UploadType,
    data: seq<byte>,
    sum: string,
    name: string,
    url: string,
    attributes: FileAttributes)

  /** Everything the handler asks of code outside the model, as its answers. */
  datatype UploadOracles = UploadOracles(
    md5: seq<byte> -> string,                        // GetMD5Hash
    parseUrl: string -> Option<string>,              // url.Parse, as the scheme it finds
    randomName: string,                              // gaw.RandString(20)
    findNamespace: string -> Option<Namespace>,      // models.FindNamespace
    tagsFrom: (seq<string>, Namespace) -> seq<Attr>, // models.TagsFromStringArr
    groupsFrom: (seq<string>, Namespace) -> seq<Attr>,
    draws: seq<string>,                              // the gaw.RandString(40) of each attempt
    countFaults: seq<bool>,                          // attempts whose Count query fails
    createFails: bool,                               // os.Create
    writeFails: bool,                                // f.Write
    download: HttpResponse,                          // http.Get and the body stream
    closeFails: bool,                                // f.Close
    defaultNs: Namespace,
    lookupTag: string -> Option<Attr>, createTag: Attr -> Attr,
    lookupGroup: string -> Option<Attr>, createGroup: Attr -> Attr,
    insertFails: bool)                               // db.Create

  const RandomNameLength := 20
  const LocalNameLength := 40
  const NameAttempts := 5

  /** The random sources deliver strings of the lengths asked for, one per attempt. */
  predicate Drawn(o: UploadOracles) {
    |o.randomName| == RandomNameLength &&
    |o.draws| == NameAttempts && |o.countFaults| == NameAttempts &&
    forall i :: 0 <= i < |o.draws| ==> |o.draws[i]| == LocalNameLength
  }

  // ---------------------------------------------------------------------------
  // Local-name allocation

  /** The first draw the collision check accepts: one no live row uses as its
      local name, or one whose Count query failed (the count then stays 0). */
  function FreeName(rows: seq<Row>, draws: seq<string>, faults: seq<bool>): Option<string>
    requires |faults| == |draws|
  {
    if draws == [] then None
    else if faults[0] || CountLocalName(rows, draws[0]) == 0 then Some(draws[0])
    else FreeName(rows, draws[1..], faults[1..])
  }

  predicate Accepted(rows: seq<Row>, draw: string, fault: bool) {
    fault || CountLocalName(rows, draw) == 0
  }

  /** The allocator takes the first accepted draw, and finds none only when
      every draw collides. */
  lemma {:induction false} FreeNameSpec(rows: seq<Row>, draws: seq<string>, faults: seq<bool>)
    requires |faults| == |draws|
    ensures FreeName(rows, draws, faults).None? <==> forall i :: 0 <= i < |draws| ==> !Accepted(rows, draws[i], faults[i])
    ensures FreeName(rows, draws, faults).Some? ==>
              exists i :: 0 <= i < |draws| && FreeName(rows, draws, faults).value == draws[i] &&
                          Accepted(rows, draws[i], faults[i]) &&
                          forall k :: 0 <= k < i ==> !Accepted(rows, draws[k], faults[k])
  {
    if draws != [] && !Accepted(rows, draws[0], faults[0]) {
      FreeNameSpec(rows, draws[1..], faults[1..]);
      if FreeName(rows, draws, faults).Some? {
        var i :| 0 <= i < |draws[1..]| && FreeName(rows, draws, faults).value == draws[1..][i] &&
                 Accepted(rows, draws[1..][i], faults[1..][i]) &&
                 forall k :: 0 <= k < i ==> !Accepted(rows, draws[1..][k], faults[1..][k]);
        assert forall k :: 0 <= k < i + 1 ==> !Accepted(rows, draws[k], faults[k]) by {
          forall k | 1 <= k < i + 1
            ensures !Accepted(rows, draws[k], faults[k])
          {
            assert draws[k] == draws[1..][k - 1] && faults[k] == faults[1..][k - 1];
          }
        }
      }
    }
  }

  /** The retry loop of handlers/FileHandler.go:84-96. */
  method AllocateLocalName(db: Store, draws: seq<string>, faults: seq<bool>) returns (found: bool, localName: string)
    requires |draws| == NameAttempts && |faults| == NameAttempts
    ensures found <==> FreeName(db.rows, draws, faults).Some?
    ensures found ==> localName == FreeName(db.rows, draws, faults).value
  {
    found := false;
    localName := "";
    var i := 0;
    while i < NameAttempts
      invariant 0 <= i <= NameAttempts
      invariant FreeName(db.rows, draws[i..], faults[i..]) == FreeName(db.rows, draws, faults)
    {
      assert draws[i..][1..] == draws[i + 1..] && faults[i..][1..] == faults[i + 1..];
      localName := draws[i];
      var c := if faults[i] then 0 else CountLocalName(db.rows, localName);
      if c == 0 {
        found := true;
        return;
      }
      i := i + 1;
    }
  }

  // ---------------------------------------------------------------------------
  // The handler as a function of its inputs

  /** The validation switch (handlers/FileHandler.go:22-57). */
  function Validation(user: User, req: UploadRequest, o: UploadOracles): (r: Option<Reply>)
    ensures r.Some? ==> r.value.statusHeader == "0" && r.value.code in {StatusForbidden, StatusUnprocessableEntity}
    ensures req.uploadType == FileUpload && !user.canUploadFiles ==> r.Some? && r.value.code == StatusForbidden
    ensures req.uploadType == FileUpload && user.canUploadFiles ==>
              (r.Some? <==> o.md5(req.data) != req.sum) && (r.Some? ==> r.value.code == StatusUnprocessableEntity)
    ensures req.uploadType == UrlUpload && !user.allowedToUploadUrls ==> r.Some? && r.value.code == StatusForbidden
    ensures req.uploadType == UrlUpload && user.allowedToUploadUrls ==>
              (r.Some? <==> |req.url| == 0 || !IsValidHttpUrl(req.url, o.parseUrl)) &&
              (r.Some? ==> r.value.code == StatusUnprocessableEntity)
    ensures req.uploadType == UnknownUpload ==> r.Some? && r.value.code == StatusUnprocessableEntity
  {
    match req.uploadType
    case FileUpload =>
      if !user.canUploadFiles then
        Some(SendResponse(ResponseError, "not allowed to upload files", None, [StatusForbidden]))
      else if o.md5(req.data) != req.sum then
        Some(SendResponse(ResponseError, "Content wasn't delivered completely", None, [StatusUnprocessableEntity]))
      else None
    case UrlUpload =>
      if !user.allowedToUploadUrls then
        Some(SendResponse(ResponseError, "not allowed to upload urls", None, [StatusForbidden]))
      else if |req.url| == 0 || !IsValidHttpUrl(req.url, o.parseUrl) then
        Some(SendResponse(ResponseError, "missing or malformed url", None, [StatusUnprocessableEntity]))
      else None
    case UnknownUpload =>
      Some(SendResponse(ResponseError, "invalid upload type", None, [StatusUnprocessableEntity]))
  }

  /** The outcome of everything before os.Create. */
  datatype Admission =
    | Rejected(reply: Reply)
    | Admitted(name: string, ns: Namespace, tags: seq<Attr>, groups: seq<Attr>, localName: string)

  /** handlers/FileHandler.go:22-101: validation, the name, the namespace and its
      write check, the attributes, and the local name. */
  function Admit(rows: seq<Row>, user: User, req: UploadRequest, o: UploadOracles): (a: Admission)
    requires Drawn(o)
    ensures a.Rejected? ==> a.reply.statusHeader == "0"
    ensures Validation(user, req, o).Some? ==> a == Rejected(Validation(user, req, o).value)
    ensures Validation(user, req, o).None? && o.findNamespace(req.attributes.namespace).None? ==>
              a.Rejected? && a.reply.code == StatusNotFound
    ensures Validation(user, req, o).None? && o.findNamespace(req.attributes.namespace).Some? &&
            !IsOwnedBy(o.findNamespace(req.attributes.namespace).value, user) && !user.canWriteForeignNamespace ==>
              a.Rejected? && a.reply.code == StatusForbidden
    ensures Validation(user, req, o).None? && o.findNamespace(req.attributes.namespace).Some? &&
            (IsOwnedBy(o.findNamespace(req.attributes.namespace).value, user) || user.canWriteForeignNamespace) &&
            FreeName(rows, o.draws, o.countFaults).None? ==>
              a == Rejected(ServerError())
    ensures a.Admitted? ==>
              Validation(user, req, o).None? &&
              o.findNamespace(req.attributes.namespace) == Some(a.ns) &&
              (IsOwnedBy(a.ns, user) || user.canWriteForeignNamespace) &&
              a.name == (if |req.name| == 0 then o.randomName else req.name) && |a.name| > 0 &&
              Some(a.localName) == FreeName(rows, o.draws, o.countFaults) &&
              a.tags == o.tagsFrom(req.attributes.tags, a.ns) && a.groups == o.groupsFrom(req.attributes.groups, a.ns)
  {
    match Validation(user, req, o)
    case Some(r) => Rejected(r)
    case None =>
      var name := if |req.name| == 0 then o.randomName else req.name;
      match o.findNamespace(req.attributes.namespace)
      case None => Rejected(SendResponse(ResponseError, "namespace not found", None, [StatusNotFound]))
      case Some(ns) =>
        if !IsOwnedBy(ns, user) && !user.canWriteForeignNamespace then
          Rejected(SendResponse(ResponseError, "Write permission denied for foreign namespaces", None, [StatusForbidden]))
        else
          match FreeName(rows, o.draws, o.countFaults)
          case None => Rejected(ServerError())
          case Some(localName) =>
            Admitted(name, ns, o.tagsFrom(req.attributes.tags, ns), o.groupsFrom(req.attributes.groups, ns), localName)
  }

  /** The reply and the resulting table and storage files. */
  datatype UploadEffect = UploadEffect(reply: Reply, rows: seq<Row>, blobs: map<string, seq<byte>>)

  /** The models.File literal of handlers/FileHandler.go:104-112. */
  function DraftRow(a: Admission): Row
    requires a.Admitted?
  {
    Row(0, a.name, a.localName, 0, 0, "", false, None, a.groups, a.tags, 0, false)
  }

  /** handlers/FileHandler.go:145-159: close the storage file, then Insert. */
  function Committed(f: Row, ns: Namespace, rows: seq<Row>, blobs: map<string, seq<byte>>,
                     user: User, o: UploadOracles): UploadEffect
  {
    if o.closeFails then UploadEffect(ServerError(), rows, blobs)
    else
      var e := Inserted(f, rows, ns, user.id, o.lookupTag, o.createTag, o.lookupGroup, o.createGroup, o.insertFails);
      if e.err then UploadEffect(ServerError(), e.rows, blobs)
      else UploadEffect(SendResponse(ResponseSuccess, "", Some(UploadResponse(e.file.id)), []), e.rows, blobs)
  }

  /** handlers/FileHandler.go:121-143 for a URL upload, then the commit. */
  function UrlStored(f: Row, ns: Namespace, rows: seq<Row>, blobs: map<string, seq<byte>>,
                     user: User, o: UploadOracles): UploadEffect
    requires f.localName in blobs
  {
    var d := Downloaded(user.uploadLimit, o.download);
    var stored := Appended(blobs, f.localName, d.copied);
    if d.err.Some? then
      UploadEffect(SendResponse(ResponseError, d.err.value, None, [StatusBadRequest]), rows, stored)
    else if d.status > 299 || d.status < 200 then
      UploadEffect(SendResponse(ResponseError, "Non ok response: " + Itoa(d.status), None, [StatusBadRequest]), rows, stored)
    else
      Committed(f.(fileSize := |d.copied.value|), ns, rows, stored, user, o)
  }

  /** The whole handler after parseUserInput. */
  function Uploaded(rows: seq<Row>, blobs: map<string, seq<byte>>, user: User, req: UploadRequest, o: UploadOracles): UploadEffect
    requires Drawn(o)
  {
    var a := Admit(rows, user, req, o);
    if a.Rejected? then UploadEffect(a.reply, rows, blobs)
    else if o.createFails then UploadEffect(ServerError(), rows, blobs)
    else
      var f := DraftRow(a);
      var created := blobs[a.localName := []];
      if req.uploadType == FileUpload then
        if o.writeFails then UploadEffect(ServerError(), rows, created)
        else Committed(f.(fileSize := |req.data|), a.ns, rows, created[a.localName := req.data], user, o)
      else UrlStored(f, a.ns, rows, created, user, o)
  }

  // ---------------------------------------------------------------------------
  // Properties

  /** Every rejection before os.Create leaves the table and the storage files as
      they were. */
  lemma RejectionTouchesNothing(rows: seq<Row>, blobs: map<string, seq<byte>>, user: User, req: UploadRequest, o: UploadOracles)
    requires Drawn(o)
    requires Admit(rows, user, req, o).Rejected? || o.createFails
    ensures Uploaded(rows, blobs, user, req, o).rows == rows
    ensures Uploaded(rows, blobs, user, req, o).blobs == blobs
    ensures Uploaded(rows, blobs, user, req, o).reply.statusHeader == "0"
  {
  }

  /** Once the storage file exists, a failure leaves it in place (there is no
      cleanup) and adds no row. */
  lemma FailureKeepsStorageFile(rows: seq<Row>, blobs: map<string, seq<byte>>, user: User, req: UploadRequest, o: UploadOracles)
    requires Drawn(o)
    requires Admit(rows, user, req, o).Admitted? && !o.createFails
    requires Uploaded(rows, blobs, user, req, o).reply.statusHeader != "1"
    ensures Admit(rows, user, req, o).localName in Uploaded(rows, blobs, user, req, o).blobs
    ensures Uploaded(rows, blobs, user, req, o).rows == rows
  {
    var a := Admit(rows, user, req, o);
    var f := DraftRow(a);
    if req.uploadType != FileUpload {
      assert f.localName in blobs[a.localName := []];
    }
  }

  /** A URL upload whose download fails (http.Get, "File too large", the copy
      or the close) or answers a status outside 2xx is a 400; no row is added
      and the storage file stays, with whatever the copy wrote into it. */
  lemma DownloadFailureAnswers400(rows: seq<Row>, blobs: map<string, seq<byte>>, user: User, req: UploadRequest, o: UploadOracles)
    requires Drawn(o) && req.uploadType == UrlUpload
    requires Admit(rows, user, req, o).Admitted? && !o.createFails
    requires Downloaded(user.uploadLimit, o.download).err.Some? || !IsSuccess(Downloaded(user.uploadLimit, o.download).status)
    ensures Uploaded(rows, blobs, user, req, o).reply.code == StatusBadRequest
    ensures Uploaded(rows, blobs, user, req, o).reply.statusHeader == "0"
    ensures Uploaded(rows, blobs, user, req, o).rows == rows
    ensures Uploaded(rows, blobs, user, req, o).blobs ==
              Appended(blobs[Admit(rows, user, req, o).localName := []], Admit(rows, user, req, o).localName,
                       Downloaded(user.uploadLimit, o.download).copied)
  {
  }

  /** Once the storage file exists, a failing write, close or Insert answers
      the server error. */
  lemma StorageFailureAnswers500(rows: seq<Row>, blobs: map<string, seq<byte>>, user: User, req: UploadRequest, o: UploadOracles)
    requires Drawn(o)
    requires Admit(rows, user, req, o).Admitted? && !o.createFails
    ensures req.uploadType == FileUpload && o.writeFails ==> Uploaded(rows, blobs, user, req, o).reply == ServerError()
    ensures req.uploadType == FileUpload && !o.writeFails && (o.closeFails || o.insertFails) ==>
              Uploaded(rows, blobs, user, req, o).reply == ServerError()
    ensures req.uploadType == UrlUpload && Downloaded(user.uploadLimit, o.download).err.None? &&
            IsSuccess(Downloaded(user.uploadLimit, o.download).status) && (o.closeFails || o.insertFails) ==>
              Uploaded(rows, blobs, user, req, o).reply == ServerError()
  {
  }

  /** A successful upload appends one row: the next id, the chosen name and
      local name, the namespace and the uploader; the reply carries its id. */
  lemma SuccessInsertsRow(rows: seq<Row>, blobs: map<string, seq<byte>>, user: User, req: UploadRequest, o: UploadOracles)
    requires Drawn(o)
    requires Uploaded(rows, blobs, user, req, o).reply.statusHeader == "1"
    ensures Admit(rows, user, req, o).Admitted?
    ensures |Uploaded(rows, blobs, user, req, o).rows| == |rows| + 1
    ensures Uploaded(rows, blobs, user, req, o).rows[..|rows|] == rows
    ensures Uploaded(rows, blobs, user, req, o).rows[|rows|].id == NextId(rows)
    ensures Uploaded(rows, blobs, user, req, o).rows[|rows|].name == Admit(rows, user, req, o).name
    ensures Uploaded(rows, blobs, user, req, o).rows[|rows|].localName == Admit(rows, user, req, o).localName
    ensures Uploaded(rows, blobs, user, req, o).rows[|rows|].namespaceId == Admit(rows, user, req, o).ns.id
    ensures Uploaded(rows, blobs, user, req, o).rows[|rows|].userId == user.id
    ensures Uploaded(rows, blobs, user, req, o).reply.body == Json(UploadResponse(NextId(rows)))
  {
    var a := Admit(rows, user, req, o);
    var f := DraftRow(a);
    if req.uploadType == FileUpload {
      assert !o.writeFails;
    }
  }

  /** A successful file upload stores exactly the request's data under the new
      local name and records its length as the size. */
  lemma FileUploadStoresData(rows: seq<Row>, blobs: map<string, seq<byte>>, user: User, req: UploadRequest, o: UploadOracles)
    requires Drawn(o) && req.uploadType == FileUpload
    requires Uploaded(rows, blobs, user, req, o).reply.statusHeader == "1"
    ensures Admit(rows, user, req, o).Admitted?
    ensures Uploaded(rows, blobs, user, req, o).blobs == blobs[Admit(rows, user, req, o).localName := req.data]
    ensures Uploaded(rows, blobs, user, req, o).rows[|rows|].fileSize == |req.data|
    ensures o.md5(req.data) == req.sum && user.canUploadFiles
  {
  }

  /** A successful URL upload stores the body, cut at the user's limit. */
  lemma UrlUploadStoresBody(rows: seq<Row>, blobs: map<string, seq<byte>>, user: User, req: UploadRequest, o: UploadOracles)
    requires Drawn(o) && req.uploadType == UrlUpload
    requires Uploaded(rows, blobs, user, req, o).reply.statusHeader == "1"
    ensures Admit(rows, user, req, o).Admitted?
    ensures o.download.Response? && IsSuccess(o.download.statusCode)
    ensures Uploaded(rows, blobs, user, req, o).blobs ==
              blobs[Admit(rows, user, req, o).localName := Limited(o.download.body, user.uploadLimit)]
    ensures Uploaded(rows, blobs, user, req, o).rows[|rows|].fileSize == |Limited(o.download.body, user.uploadLimit)|
  {
    var a := Admit(rows, user, req, o);
    var created := blobs[a.localName := []];
    var d := Downloaded(user.uploadLimit, o.download);
    DownloadSpec(user.uploadLimit, o.download);
    assert created[a.localName] + d.copied.value == d.copied.value;
  }

  // ---------------------------------------------------------------------------
  // The handler

  method UploadFile(db: Store, disk: Disk, user: User, req: UploadRequest, o: UploadOracles) returns (reply: Reply)
    requires db.Valid() && Drawn(o)
    modifies db, disk
    ensures db.Valid()
    ensures UploadEffect(reply, db.rows, disk.blobs) == Uploaded(old(db.rows), old(disk.blobs), user, req, o)
  {
    ghost var a := Admit(db.rows, user, req, o);
    var rejection := Validation(user, req, o);
    if rejection.Some? {
      return rejection.value;
    }
    var name := req.name;
    if |name| == 0 {
      name := o.randomName;
    }
    var namespace := o.findNamespace(req.attributes.namespace);
    if namespace.None? {
      return SendResponse(ResponseError, "namespace not found", None, [StatusNotFound]);
    }
    var ns := namespace.value;
    if !IsOwnedBy(ns, user) && !user.canWriteForeignNamespace {
      return SendResponse(ResponseError, "Write permission denied for foreign namespaces", None, [StatusForbidden]);
    }
    var tags := o.tagsFrom(req.attributes.tags, ns);
    var groups := o.groupsFrom(req.attributes.groups, ns);
    var found, localName := AllocateLocalName(db, o.draws, o.countFaults);
    if !found {
      return ServerError();
    }
    assert a == Admitted(name, ns, tags, groups, localName);
    var file := new File.Draft(name, localName, tags, groups, ns);
    var createErr := disk.Create(localName, o.createFails);
    if createErr {
      return ServerError();
    }
    ghost var created := disk.blobs;
    assert created[localName] + req.data == req.data;
    reply := Fill(db, disk, file, user, req, o, a);
  }

  /** handlers/FileHandler.go:121-159, once the storage file is open. */
  method Fill(db: Store, disk: Disk, file: File, user: User, req: UploadRequest, o: UploadOracles, ghost a: Admission)
    returns (reply: Reply)
    requires db.Valid() && a.Admitted? && req.uploadType != UnknownUpload
    requires file.Row() == DraftRow(a) && file.namespace == Some(a.ns) && a.localName in disk.blobs
    modifies db, disk, file
    ensures db.Valid()
    ensures UploadEffect(reply, db.rows, disk.blobs) ==
              (if req.uploadType == FileUpload then
                 if o.writeFails then UploadEffect(ServerError(), old(db.rows), old(disk.blobs))
                 else Committed(DraftRow(a).(fileSize := |req.data|), a.ns, old(db.rows),
                                old(disk.blobs)[a.localName := old(disk.blobs)[a.localName] + req.data], user, o)
               else UrlStored(DraftRow(a), a.ns, old(db.rows), old(disk.blobs), user, o))
  {
    if req.uploadType == FileUpload {
      var size, writeErr := disk.Write(file.localName, req.data, o.writeFails);
      if writeErr {
        return ServerError();
      }
      file.fileSize := size;
    } else {
      var status, err := DownloadHttp(user.uploadLimit, o.download, disk, file.localName, file);
      if err.Some? {
        return SendResponse(ResponseError, err.value, None, [StatusBadRequest]);
      }
      if status > 299 || status < 200 {
        return SendResponse(ResponseError, "Non ok response: " + Itoa(status), None, [StatusBadRequest]);
      }
    }
    reply := Commit(db, file, user, o, a.ns, disk.blobs);
  }

  /** handlers/FileHandler.go:145-159. */
  method Commit(db: Store, file: File, user: User, o: UploadOracles, ghost ns: Namespace, ghost blobs: map<string, seq<byte>>)
    returns (reply: Reply)
    requires db.Valid() && file.namespace == Some(ns)
    modifies db, file
    ensures db.Valid()
    ensures UploadEffect(reply, db.rows, blobs) == Committed(old(file.Row()), ns, old(db.rows), blobs, user, o)
  {
    if o.closeFails {
      return ServerError();
    }
    var err := file.Insert(db, user.id, o.defaultNs, o.lookupTag, o.createTag, o.lookupGroup, o.createGroup, o.insertFails);
    if err {
      reply := ServerError();
    } else {
      reply := SendResponse(ResponseSuccess, "", Some(UploadResponse(file.id)), []);
    }
  }
}
