/** UpdateFileHandler (handlers/FileHandler.go:249-408): namespace, permission
    and action checks, resolution of the target file, then either Delete or the
    fixed sequence of update sub-actions with its `didUpdate` flag. */
module Update {
  import opened Records
  import opened Storage
  import opened Files
  import opened Helpers

  /** The update part of the request (the fields the handler reads). */
  datatype Updates = Updates(
    newName: string,
    isPublic: string,
    newNamespace: string,
    addTags: seq<string>,
    removeTags: seq<string>,
    addGroups: seq<string>,
    removeGroups: seq<string>)

  datatype UpdateRequest = UpdateRequest(fileId: nat, name: string, attributes: FileAttributes, updates: Updates)

  /** The answers of the code the handler calls outside the model. */
  datatype UpdateOracles = UpdateOracles(
    findNamespace: string -> Option<Namespace>,  // models.FindNamespace
    countFails: bool,                            // GetCount's error
    findFails: bool,                             // a FindFile error other than not found
    resolveTag: string -> Attr,                  // GetTag in the file's namespace
    resolveGroup: string -> Attr,                // GetGroup in the file's namespace
    renameFails: bool, visibilityFails: bool,    // the Save of each sub-action
    addTagsFails: bool, removeTagsFails: bool,
    addGroupsFails: bool, removeGroupsFails: bool,
    saveFails: bool, removeFails: bool, deleteFails: bool) // the three steps of Delete

  // ---------------------------------------------------------------------------
  // strconv.ParseBool

  function ParseBool(s: string): (r: Option<bool>)
    ensures r == Some(true) <==> s in ["1", "t", "T", "TRUE", "true", "True"]
    ensures r == Some(false) <==> s in ["0", "f", "F", "FALSE", "false", "False"]
  {
    if s in ["1", "t", "T", "TRUE", "true", "True"] then Some(true)
    else if s in ["0", "f", "F", "FALSE", "false", "False"] then Some(false)
    else None
  }

  // ---------------------------------------------------------------------------
  // Resolution of the target

  datatype Resolution =
    | Refused(reply: Reply)
    | Target(file: Row, ns: Namespace, isDelete: bool)

  /** handlers/FileHandler.go:256-311. */
  function Resolve(rows: seq<Row>, user: User, req: UpdateRequest, action: Option<string>, o: UpdateOracles): (r: Resolution)
    ensures r.Refused? ==> r.reply.statusHeader == "0"
    ensures o.findNamespace(req.attributes.namespace).None? || o.findNamespace(req.attributes.namespace).value.id == 0 ==>
              r == Refused(SendResponse(ResponseError, "Namespace not found", Some(HandlerFunc), []))
    ensures r.Target? ==>
              && o.findNamespace(req.attributes.namespace) == Some(r.ns) && r.ns.id != 0
              && (IsOwnedBy(r.ns, user) || user.canWriteForeignNamespace)
              && action.Some? && action.value in ["delete", "update"] && r.isDelete == (action.value == "delete")
              && !o.countFails && !o.findFails
              && GetCount(rows, req.name, r.ns.id, req.fileId) > 0
              && !(GetCount(rows, req.name, r.ns.id, req.fileId) > 1 && req.fileId == 0)
              && Some(r.file) == FindFile(rows, req.name, r.ns.id, user.id, req.fileId)
  {
    match o.findNamespace(req.attributes.namespace)
    case None => Refused(SendResponse(ResponseError, "Namespace not found", Some(HandlerFunc), []))
    case Some(ns) =>
      if ns.id == 0 then Refused(SendResponse(ResponseError, "Namespace not found", Some(HandlerFunc), []))
      else if !IsOwnedBy(ns, user) && !user.canWriteForeignNamespace then
        Refused(SendResponse(ResponseError, "Write permission denied for foreign namespaces", None, [StatusForbidden]))
      else if action.None? then Refused(SendResponse(ResponseError, "missing action", None, []))
      else if action.value !in ["delete", "update"] then Refused(SendResponse(ResponseError, "invalid action", None, []))
      else if o.countFails then Refused(ServerError())
      else
        var c := GetCount(rows, req.name, ns.id, req.fileId);
        if c > 1 && req.fileId == 0 then Refused(SendResponse(ResponseError, "multiple files with same name", None, []))
        else if c == 0 then Refused(SendResponse(ResponseError, "File not found", None, []))
        else
          match FindFile(rows, req.name, ns.id, user.id, req.fileId)
          case None => Refused(ServerError())
          case Some(f) => if o.findFails then Refused(ServerError()) else Target(f, ns, action.value == "delete")
  }

  /** As written a missing namespace passes http.NotFound as the payload, which
      encoding/json refuses: the client gets code 200 and no body, and only the
      encoding error is logged. */
  lemma MissingNamespaceAnswers200(rows: seq<Row>, user: User, req: UpdateRequest, action: Option<string>, o: UpdateOracles)
    requires o.findNamespace(req.attributes.namespace).None?
    ensures Resolve(rows, user, req, action, o).Refused?
    ensures Resolve(rows, user, req, action, o).reply.code == StatusOK
    ensures Resolve(rows, user, req, action, o).reply.body == NoBody
    ensures Resolve(rows, user, req, action, o).reply.logged
  {
  }

  /** The action checks: a missing action and one other than delete or update
      are refused with their messages, after the namespace checks. */
  lemma ActionChecks(rows: seq<Row>, user: User, req: UpdateRequest, action: Option<string>, o: UpdateOracles)
    requires o.findNamespace(req.attributes.namespace).Some? && o.findNamespace(req.attributes.namespace).value.id != 0
    requires IsOwnedBy(o.findNamespace(req.attributes.namespace).value, user) || user.canWriteForeignNamespace
    ensures action.None? ==> Resolve(rows, user, req, action, o) == Refused(SendResponse(ResponseError, "missing action", None, []))
    ensures action.Some? && action.value !in ["delete", "update"] ==>
              Resolve(rows, user, req, action, o) == Refused(SendResponse(ResponseError, "invalid action", None, []))
  {
  }

  /** The ambiguity checks: several live candidates with no id given, or none
      at all, are refused before FindFile runs. */
  lemma AmbiguityChecks(rows: seq<Row>, user: User, req: UpdateRequest, action: Option<string>, o: UpdateOracles)
    requires o.findNamespace(req.attributes.namespace).Some? && o.findNamespace(req.attributes.namespace).value.id != 0
    requires IsOwnedBy(o.findNamespace(req.attributes.namespace).value, user) || user.canWriteForeignNamespace
    requires action.Some? && action.value in ["delete", "update"] && !o.countFails
    ensures req.fileId == 0 &&
            (exists i, j :: 0 <= i < j < |rows| &&
                            CountMatch(rows[i], req.name, o.findNamespace(req.attributes.namespace).value.id, 0) &&
                            CountMatch(rows[j], req.name, o.findNamespace(req.attributes.namespace).value.id, 0)) ==>
              Resolve(rows, user, req, action, o) == Refused(SendResponse(ResponseError, "multiple files with same name", None, []))
    ensures (forall i :: 0 <= i < |rows| ==> !CountMatch(rows[i], req.name, o.findNamespace(req.attributes.namespace).value.id, req.fileId)) ==>
              Resolve(rows, user, req, action, o) == Refused(SendResponse(ResponseError, "File not found", None, []))
  {
    GetCountSpec(rows, req.name, o.findNamespace(req.attributes.namespace).value.id, req.fileId);
  }

  // ---------------------------------------------------------------------------
  // The update sub-actions

  /** How a sub-action's report enters `didUpdate`: the source overwrites it;
      accumulating is the evidently intended reading. */
  datatype FlagRule = Overwrite | Accumulate

  function Combine(rule: FlagRule, prev: bool, changed: bool): bool
  {
    match rule
    case Overwrite => changed
    case Accumulate => prev || changed
  }

  /** The state between sub-actions: the in-memory record, the table, the flag,
      and the reply of a sub-action that stopped the handler. */
  datatype Progress = Progress(file: Row, rows: seq<Row>, didUpdate: bool, halt: Option<Reply>)

  /** A sub-action's effect taken into the state: an error stops the handler with
      a server error and keeps what the failed call left in the table. */
  function After(rule: FlagRule, p: Progress, e: Effect, changed: bool): Progress
  {
    if e.err then Progress(e.file, e.rows, p.didUpdate, Some(ServerError()))
    else Progress(e.file, e.rows, Combine(rule, p.didUpdate, changed), None)
  }

  /** handlers/FileHandler.go:328-334. */
  function RenameStep(rule: FlagRule, p: Progress, u: Updates, fails: bool): Progress
  {
    if p.halt.Some? || |u.newName| == 0 then p
    else After(rule, p, Renamed(p.file, p.rows, u.newName, fails), true)
  }

  /** handlers/FileHandler.go:337-349. */
  function VisibilityStep(rule: FlagRule, p: Progress, u: Updates, fails: bool): Progress
  {
    if p.halt.Some? || |u.isPublic| == 0 then p
    else
      match ParseBool(u.isPublic)
      case None => p.(halt := Some(SendResponse(ResponseError, "isPublic must be a bool", None, [StatusUnprocessableEntity])))
      case Some(v) => After(rule, p, VisibilitySet(p.file, p.rows, v, fails), true)
  }

  /** handlers/FileHandler.go:357-364. */
  function AddTagsStep(rule: FlagRule, p: Progress, u: Updates, resolve: string -> Attr, fails: bool): Progress
  {
    if p.halt.Some? || |u.addTags| == 0 then p
    else
      var e := TagsAdded(p.file, p.rows, u.addTags, resolve, fails);
      After(rule, p, e, |e.file.tags| > |p.file.tags|)
  }

  /** handlers/FileHandler.go:367-374. */
  function RemoveTagsStep(rule: FlagRule, p: Progress, u: Updates, fails: bool): Progress
  {
    if p.halt.Some? || |u.removeTags| == 0 then p
    else
      var e := TagsRemoved(p.file, p.rows, u.removeTags, fails);
      After(rule, p, e, |e.file.tags| < |p.file.tags|)
  }

  /** handlers/FileHandler.go:377-384. */
  function AddGroupsStep(rule: FlagRule, p: Progress, u: Updates, resolve: string -> Attr, fails: bool): Progress
  {
    if p.halt.Some? || |u.addGroups| == 0 then p
    else
      var e := GroupsAdded(p.file, p.rows, u.addGroups, resolve, fails);
      After(rule, p, e, |e.file.groups| > |p.file.groups|)
  }

  /** handlers/FileHandler.go:387-394. */
  function RemoveGroupsStep(rule: FlagRule, p: Progress, u: Updates, fails: bool): Progress
  {
    if p.halt.Some? || |u.removeGroups| == 0 then p
    else
      var e := GroupsRemoved(p.file, p.rows, u.removeGroups, fails);
      After(rule, p, e, |e.file.groups| < |p.file.groups|)
  }

  /** The sub-actions in their fixed order (the namespace one is a no-op),
      each `FromX` running the sub-actions from X on. */
  function UpdateSteps(rule: FlagRule, f: Row, rows: seq<Row>, u: Updates, o: UpdateOracles): Progress
  {
    FromRename(rule, Progress(f, rows, false, None), u, o)
  }

  function FromRename(rule: FlagRule, p: Progress, u: Updates, o: UpdateOracles): Progress
  {
    FromVisibility(rule, RenameStep(rule, p, u, o.renameFails), u, o)
  }

  function FromVisibility(rule: FlagRule, p: Progress, u: Updates, o: UpdateOracles): Progress
  {
    FromAddTags(rule, VisibilityStep(rule, p, u, o.visibilityFails), u, o)
  }

  function FromAddTags(rule: FlagRule, p: Progress, u: Updates, o: UpdateOracles): Progress
  {
    FromRemoveTags(rule, AddTagsStep(rule, p, u, o.resolveTag, o.addTagsFails), u, o)
  }

  function FromRemoveTags(rule: FlagRule, p: Progress, u: Updates, o: UpdateOracles): Progress
  {
    FromAddGroups(rule, RemoveTagsStep(rule, p, u, o.removeTagsFails), u, o)
  }

  function FromAddGroups(rule: FlagRule, p: Progress, u: Updates, o: UpdateOracles): Progress
  {
    RemoveGroupsStep(rule, AddGroupsStep(rule, p, u, o.resolveGroup, o.addGroupsFails), u, o.removeGroupsFails)
  }

  /** Once a sub-action has stopped the handler, no later one runs. */
  lemma HaltedStays(rule: FlagRule, p: Progress, u: Updates, o: UpdateOracles)
    requires p.halt.Some?
    ensures FromRename(rule, p, u, o) == p
    ensures FromVisibility(rule, p, u, o) == p
    ensures FromAddTags(rule, p, u, o) == p
    ensures FromRemoveTags(rule, p, u, o) == p
    ensures FromAddGroups(rule, p, u, o) == p
  {
  }

  /** handlers/FileHandler.go:403-407. */
  function Finish(didUpdate: bool): (r: Reply)
    ensures r.statusHeader == "1" <==> didUpdate
    ensures r.code == StatusOK
  {
    if didUpdate then SendResponse(ResponseSuccess, "success", None, [])
    else SendResponse(ResponseError, "noting to do", None, [])
  }

  // ---------------------------------------------------------------------------
  // The handler as a function

  datatype UpdateEffect = UpdateEffect(reply: Reply, rows: seq<Row>, blobs: map<string, seq<byte>>)

  function Updated(rows: seq<Row>, blobs: map<string, seq<byte>>, user: User, req: UpdateRequest,
                   action: Option<string>, o: UpdateOracles): UpdateEffect
  {
    match Resolve(rows, user, req, action, o)
    case Refused(r) => UpdateEffect(r, rows, blobs)
    case Target(f, ns, isDelete) => Performed(f, rows, blobs, isDelete, req.updates, o)
  }

  // ---------------------------------------------------------------------------
  // Properties

  /** Every refusal comes before any write. */
  lemma RefusalTouchesNothing(rows: seq<Row>, blobs: map<string, seq<byte>>, user: User, req: UpdateRequest,
                              action: Option<string>, o: UpdateOracles)
    requires Resolve(rows, user, req, action, o).Refused?
    ensures Updated(rows, blobs, user, req, action, o).rows == rows
    ensures Updated(rows, blobs, user, req, action, o).blobs == blobs
    ensures Updated(rows, blobs, user, req, action, o).reply.statusHeader == "0"
  {
  }

  /** A delete whose three steps succeed answers "success", marks the file's row
      deleted and without slug, and removes the storage file. */
  lemma DeleteActionSpec(rows: seq<Row>, blobs: map<string, seq<byte>>, user: User, req: UpdateRequest,
                         action: Option<string>, o: UpdateOracles)
    requires Resolve(rows, user, req, action, o).Target? && Resolve(rows, user, req, action, o).isDelete
    requires !o.saveFails && !o.removeFails && !o.deleteFails
    ensures Updated(rows, blobs, user, req, action, o).reply == SendResponse(ResponseSuccess, "success", None, [])
    ensures forall i :: 0 <= i < |Updated(rows, blobs, user, req, action, o).rows| &&
                        Updated(rows, blobs, user, req, action, o).rows[i].id == Resolve(rows, user, req, action, o).file.id ==>
              Updated(rows, blobs, user, req, action, o).rows[i].deleted &&
              Updated(rows, blobs, user, req, action, o).rows[i].publicFilename.None?
    ensures Resolve(rows, user, req, action, o).file.localName !in Updated(rows, blobs, user, req, action, o).blobs
  {
    var f := Resolve(rows, user, req, action, o).file;
    DeleteMarksRow(f, rows, false);
  }

  /** Sub-actions that took effect stay persisted when a later one stops the handler:
      a rename followed by a visibility value that is not a bool answers 422
      with the renamed row stored. */
  lemma EarlierStepsPersist(f: Row, rows: seq<Row>, u: Updates, o: UpdateOracles)
    requires |u.newName| > 0 && !o.renameFails
    requires |u.isPublic| > 0 && ParseBool(u.isPublic).None?
    ensures UpdateSteps(Overwrite, f, rows, u, o).halt ==
              Some(SendResponse(ResponseError, "isPublic must be a bool", None, [StatusUnprocessableEntity]))
    ensures UpdateSteps(Overwrite, f, rows, u, o).rows == Put(rows, f.(name := u.newName))
  {
  }

  /** As written, a later sub-action that changes nothing overwrites the flag: a
      successful rename followed by adding tags the file already has answers
      "noting to do" although the rename is stored. */
  lemma OverwriteLosesRename(f: Row, rows: seq<Row>, u: Updates, o: UpdateOracles)
    requires |u.newName| > 0 && !o.renameFails && |u.isPublic| == 0
    requires |u.addTags| > 0 && !o.addTagsFails && forall n :: n in u.addTags ==> HasName(f.tags, n)
    requires |u.removeTags| == 0 && |u.addGroups| == 0 && |u.removeGroups| == 0
    ensures UpdateSteps(Overwrite, f, rows, u, o).halt.None?
    ensures !UpdateSteps(Overwrite, f, rows, u, o).didUpdate
    ensures Finish(UpdateSteps(Overwrite, f, rows, u, o).didUpdate).message == "noting to do"
    ensures exists i :: 0 <= i < |UpdateSteps(Overwrite, f, rows, u, o).rows| &&
                        UpdateSteps(Overwrite, f, rows, u, o).rows[i] == f.(name := u.newName)
  {
    var g := f.(name := u.newName);
    AddedNoop(g.tags, u.addTags, o.resolveTag);
    var rows2 := Put(Put(rows, g), g);
    PutStores(Put(rows, g), g);
    assert UpdateSteps(Overwrite, f, rows, u, o).rows == rows2;
  }

  /** Under the accumulating rule a sub-action keeps a raised flag. */
  lemma AccumulateKeepsFlag(p: Progress, e: Effect, changed: bool)
    requires p.didUpdate
    ensures After(Accumulate, p, e, changed).didUpdate
  {
  }

  /** With the flag accumulated, a run that is not stopped answers "success"
      whenever a rename was requested, whatever the later sub-actions report. */
  lemma AccumulateKeepsRename(f: Row, rows: seq<Row>, u: Updates, o: UpdateOracles)
    requires |u.newName| > 0
    requires UpdateSteps(Accumulate, f, rows, u, o).halt.None?
    ensures UpdateSteps(Accumulate, f, rows, u, o).didUpdate
    ensures Finish(UpdateSteps(Accumulate, f, rows, u, o).didUpdate).message == "success"
  {
    var p1 := RenameStep(Accumulate, Progress(f, rows, false, None), u, o.renameFails);
    AccumulateKeepsFlag(Progress(f, rows, false, None).(didUpdate := true),
                        Renamed(f, rows, u.newName, o.renameFails), true);
    assert p1.halt.None? ==> p1.didUpdate;
  }

  /** As written the count ignores the uploader while FindFile does not: when the
      only live file of that name belongs to someone else, the handler answers
      with a server error instead of "File not found". */
  lemma ForeignFileGivesServerError(rows: seq<Row>, user: User, req: UpdateRequest, action: Option<string>, o: UpdateOracles)
    requires o.findNamespace(req.attributes.namespace).Some? && o.findNamespace(req.attributes.namespace).value.id != 0
    requires IsOwnedBy(o.findNamespace(req.attributes.namespace).value, user) || user.canWriteForeignNamespace
    requires action.Some? && action.value in ["delete", "update"] && !o.countFails
    requires |rows| == 1 && req.fileId == 0 && rows[0].userId != user.id
    requires CountMatch(rows[0], req.name, o.findNamespace(req.attributes.namespace).value.id, 0)
    ensures Resolve(rows, user, req, action, o) == Refused(ServerError())
  {
    var nsId := o.findNamespace(req.attributes.namespace).value.id;
    GetCountSpec(rows, req.name, nsId, 0);
  }

  /** The count as evidently intended, under FindFile's own condition. */
  function OwnedCount(rows: seq<Row>, name: string, nsId: nat, userId: nat, fileId: nat): nat
  {
    CountWhere(rows, (r: Row) => FindMatch(r, name, nsId, userId, fileId))
  }

  /** With that count, "File not found" is answered exactly when FindFile finds
      nothing, so a live match always leads to a loaded file. */
  lemma OwnedCountAgreesWithFind(rows: seq<Row>, name: string, nsId: nat, userId: nat, fileId: nat)
    ensures OwnedCount(rows, name, nsId, userId, fileId) == 0 <==> FindFile(rows, name, nsId, userId, fileId).None?
    ensures OwnedCount(rows, name, nsId, userId, fileId) > 0 ==>
              FindFile(rows, name, nsId, userId, fileId).value in rows
  {
  }

  // ---------------------------------------------------------------------------
  // The handler

  method UpdateFile(db: Store, disk: Disk, user: User, req: UpdateRequest, action: Option<string>, o: UpdateOracles)
    returns (reply: Reply)
    requires db.Valid()
    modifies db, disk
    ensures db.Valid()
    ensures UpdateEffect(reply, db.rows, disk.blobs) == Updated(old(db.rows), old(disk.blobs), user, req, action, o)
  {
    var namespace := o.findNamespace(req.attributes.namespace);
    if namespace.None? || namespace.value.id == 0 {
      return SendResponse(ResponseError, "Namespace not found", Some(HandlerFunc), []);
    }
    var ns := namespace.value;
    if !IsOwnedBy(ns, user) && !user.canWriteForeignNamespace {
      return SendResponse(ResponseError, "Write permission denied for foreign namespaces", None, [StatusForbidden]);
    }
    if action.None? {
      return SendResponse(ResponseError, "missing action", None, []);
    }
    if action.value !in ["delete", "update"] {
      return SendResponse(ResponseError, "invalid action", None, []);
    }
    if o.countFails {
      return ServerError();
    }
    var c := GetCount(db.rows, req.name, ns.id, req.fileId);
    if c > 1 && req.fileId == 0 {
      return SendResponse(ResponseError, "multiple files with same name", None, []);
    }
    if c == 0 {
      return SendResponse(ResponseError, "File not found", None, []);
    }
    var found := FindFile(db.rows, req.name, ns.id, user.id, req.fileId);
    if found.None? || o.findFails {
      return ServerError();
    }
    var file := new File.Load(found.value, Some(ns));
    assert file.id > 0 by {
      assert found.value in db.rows;
    }
    assert Resolve(old(db.rows), user, req, action, o) == Target(found.value, ns, action.value == "delete");
    reply := Perform(db, disk, file, action.value == "delete", req.updates, o);
  }

  /** What happens once the target is resolved. */
  function Performed(f: Row, rows: seq<Row>, blobs: map<string, seq<byte>>, isDelete: bool,
                     u: Updates, o: UpdateOracles): UpdateEffect
  {
    if isDelete then
      var d := Deleted(f, rows, blobs, o.saveFails, o.removeFails, o.deleteFails);
      UpdateEffect(if d.err then ServerError() else Finish(true), d.rows, d.blobs)
    else
      var p := UpdateSteps(Overwrite, f, rows, u, o);
      UpdateEffect(if p.halt.Some? then p.halt.value else Finish(p.didUpdate), p.rows, blobs)
  }

  /** handlers/FileHandler.go:314-407. */
  method Perform(db: Store, disk: Disk, file: File, isDelete: bool, u: Updates, o: UpdateOracles) returns (reply: Reply)
    requires db.Valid() && file.id > 0
    modifies db, disk, file`name, file`isPublic, file`publicFilename, file`tags, file`groups
    ensures db.Valid()
    ensures UpdateEffect(reply, db.rows, disk.blobs) == Performed(old(file.Row()), old(db.rows), old(disk.blobs), isDelete, u, o)
  {
    var err := false;
    var didUpdate := false;
    if isDelete {
      err := file.Delete(db, disk, o.saveFails, o.removeFails, o.deleteFails);
      didUpdate := true;
    } else {
      var halt;
      halt, didUpdate := ApplyUpdates(db, file, u, o);
      if halt.Some? {
        return halt.value;
      }
    }
    if err {
      return ServerError();
    }
    reply := Finish(didUpdate);
  }

  /** The "update" branch (handlers/FileHandler.go:325-395): each stage runs one
      sub-action and, unless it stopped the handler, the stages after it. */
  method ApplyUpdates(db: Store, file: File, u: Updates, o: UpdateOracles) returns (halt: Option<Reply>, didUpdate: bool)
    requires db.Valid() && file.id > 0
    modifies db, file`name, file`isPublic, file`tags, file`groups
    ensures db.Valid()
    ensures Progress(file.Row(), db.rows, didUpdate, halt) == UpdateSteps(Overwrite, old(file.Row()), old(db.rows), u, o)
  {
    halt, didUpdate := Renaming(db, file, u, o, false);
  }

  method Renaming(db: Store, file: File, u: Updates, o: UpdateOracles, flag: bool) returns (halt: Option<Reply>, didUpdate: bool)
    requires db.Valid() && file.id > 0
    modifies db, file`name, file`isPublic, file`tags, file`groups
    ensures db.Valid()
    ensures Progress(file.Row(), db.rows, didUpdate, halt) == FromRename(Overwrite, Progress(old(file.Row()), old(db.rows), flag, None), u, o)
  {
    halt, didUpdate := None, flag;
    if |u.newName| > 0 {
      var err := file.Rename(db, u.newName, o.renameFails);
      if err {
        halt := Some(ServerError());
        HaltedStays(Overwrite, Progress(file.Row(), db.rows, didUpdate, halt), u, o);
        return;
      }
      didUpdate := true;
    }
    halt, didUpdate := Publicity(db, file, u, o, didUpdate);
  }

  method Publicity(db: Store, file: File, u: Updates, o: UpdateOracles, flag: bool) returns (halt: Option<Reply>, didUpdate: bool)
    requires db.Valid() && file.id > 0
    modifies db, file`isPublic, file`tags, file`groups
    ensures db.Valid()
    ensures Progress(file.Row(), db.rows, didUpdate, halt) == FromVisibility(Overwrite, Progress(old(file.Row()), old(db.rows), flag, None), u, o)
  {
    halt, didUpdate := None, flag;
    if |u.isPublic| > 0 {
      var newVisibility := ParseBool(u.isPublic);
      if newVisibility.None? {
        halt := Some(SendResponse(ResponseError, "isPublic must be a bool", None, [StatusUnprocessableEntity]));
        HaltedStays(Overwrite, Progress(file.Row(), db.rows, didUpdate, halt), u, o);
        return;
      }
      var err := file.SetVilibility(db, newVisibility.value, o.visibilityFails);
      if err {
        halt := Some(ServerError());
        HaltedStays(Overwrite, Progress(file.Row(), db.rows, didUpdate, halt), u, o);
        return;
      }
      didUpdate := true;
    }
    // the namespace sub-action is not implemented
    halt, didUpdate := TagAdding(db, file, u, o, didUpdate);
  }

  method TagAdding(db: Store, file: File, u: Updates, o: UpdateOracles, flag: bool) returns (halt: Option<Reply>, didUpdate: bool)
    requires db.Valid() && file.id > 0
    modifies db, file`tags, file`groups
    ensures db.Valid()
    ensures Progress(file.Row(), db.rows, didUpdate, halt) == FromAddTags(Overwrite, Progress(old(file.Row()), old(db.rows), flag, None), u, o)
  {
    halt, didUpdate := None, flag;
    if |u.addTags| > 0 {
      var currLenTags := |file.tags|;
      var err := file.AddTags(db, u.addTags, o.resolveTag, o.addTagsFails);
      if err {
        halt := Some(ServerError());
        HaltedStays(Overwrite, Progress(file.Row(), db.rows, didUpdate, halt), u, o);
        return;
      }
      didUpdate := |file.tags| > currLenTags;
    }
    halt, didUpdate := TagRemoval(db, file, u, o, didUpdate);
  }

  method TagRemoval(db: Store, file: File, u: Updates, o: UpdateOracles, flag: bool) returns (halt: Option<Reply>, didUpdate: bool)
    requires db.Valid() && file.id > 0
    modifies db, file`tags, file`groups
    ensures db.Valid()
    ensures Progress(file.Row(), db.rows, didUpdate, halt) == FromRemoveTags(Overwrite, Progress(old(file.Row()), old(db.rows), flag, None), u, o)
  {
    halt, didUpdate := None, flag;
    if |u.removeTags| > 0 {
      var currLenTags := |file.tags|;
      var err := file.RemoveTags(db, u.removeTags, o.removeTagsFails);
      if err {
        halt := Some(ServerError());
        HaltedStays(Overwrite, Progress(file.Row(), db.rows, didUpdate, halt), u, o);
        return;
      }
      didUpdate := |file.tags| < currLenTags;
    }
    halt, didUpdate := GroupAdding(db, file, u, o, didUpdate);
  }

  method GroupAdding(db: Store, file: File, u: Updates, o: UpdateOracles, flag: bool) returns (halt: Option<Reply>, didUpdate: bool)
    requires db.Valid() && file.id > 0
    modifies db, file`groups
    ensures db.Valid()
    ensures Progress(file.Row(), db.rows, didUpdate, halt) == FromAddGroups(Overwrite, Progress(old(file.Row()), old(db.rows), flag, None), u, o)
  {
    halt, didUpdate := None, flag;
    if |u.addGroups| > 0 {
      var currLenGroups := |file.groups|;
      var err := file.AddGroups(db, u.addGroups, o.resolveGroup, o.addGroupsFails);
      if err {
        return Some(ServerError()), didUpdate;
      }
      didUpdate := |file.groups| > currLenGroups;
    }
    halt, didUpdate := GroupRemoval(db, file, u, o.removeGroupsFails, didUpdate);
  }

  method GroupRemoval(db: Store, file: File, u: Updates, fails: bool, flag: bool) returns (halt: Option<Reply>, didUpdate: bool)
    requires db.Valid() && file.id > 0
    modifies db, file`groups
    ensures db.Valid()
    ensures Progress(file.Row(), db.rows, didUpdate, halt) == RemoveGroupsStep(Overwrite, Progress(old(file.Row()), old(db.rows), flag, None), u, fails)
  {
    halt, didUpdate := None, flag;
    if |u.removeGroups| > 0 {
      var currLenGroups := |file.groups|;
      var err := file.RemoveGroups(db, u.removeGroups, fails);
      if err {
        return Some(ServerError()), didUpdate;
      }
      didUpdate := |file.groups| < currLenGroups;
    }
  }
}
