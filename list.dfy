/** ListFilesHandler (handlers/FileHandler.go:163-246): namespace and permission
    checks, the tag and group filters, and the listing loop. */
module Listing {
  import opened Records
  import opened Storage
  import opened Helpers

  /** The fields of the list request the handler reads. */
  datatype ListRequest = ListRequest(name: string, attributes: FileAttributes, verbose: int)

  datatype ListOracles = ListOracles(
    findNamespace: string -> Option<Namespace>,         // models.FindNamespace
    findTags: (seq<string>, Namespace) -> seq<Attr>,    // models.FindTags
    findGroups: (seq<string>, Namespace) -> seq<Attr>,  // models.FindGroups
    defaultNs: Namespace)                               // models.DefaultNamespace

  /** The filter of handlers/FileHandler.go:224-226 on a loaded row: an empty
      filter list lets every row through, otherwise IsInTagList / IsInGroupList. */
  predicate PassesFilters(r: Row, tags: seq<Attr>, groups: seq<Attr>) {
    (|tags| == 0 || (|tags| > 0 && SharesId(r.tags, tags))) &&
    (|groups| == 0 || (|groups| > 0 && SharesId(r.groups, groups)))
  }

  /** The response item of handlers/FileHandler.go:227-236. Attributes are added
      above verbosity 1; the namespace is preloaded only above 2, so at 2 it is
      GetNamespace's default. */
  function Item(r: Row, verbose: int, ns: Namespace, defaultNs: Namespace): (item: ResponseItem)
    ensures item.id == r.id && item.name == r.name && item.size == r.fileSize
    ensures item.attributes.Some? <==> verbose > 1
    ensures verbose > 1 ==> item.attributes.value.tags == Names(r.tags) && item.attributes.value.groups == Names(r.groups)
    ensures verbose > 1 ==> item.attributes.value.namespace == (if verbose > 2 then ns.name else defaultNs.name)
  {
    var attributes := if verbose > 1 then
      Some(FileAttributes(Names(r.tags), Names(r.groups), if verbose > 2 then ns.name else defaultNs.name))
    else None;
    ResponseItem(r.id, r.name, r.fileSize, attributes)
  }

  /** The items the loop appends, in the order the query returns the rows. */
  function Listed(found: seq<Row>, tags: seq<Attr>, groups: seq<Attr>, verbose: int, ns: Namespace, defaultNs: Namespace)
    : seq<ResponseItem>
  {
    if found == [] then []
    else
      (if PassesFilters(found[0], tags, groups) then [Item(found[0], verbose, ns, defaultNs)] else []) +
      Listed(found[1..], tags, groups, verbose, ns, defaultNs)
  }

  /** The listing holds one item per passing row, in order, and nothing else. */
  lemma {:induction false} ListedSpec(found: seq<Row>, tags: seq<Attr>, groups: seq<Attr>, verbose: int, ns: Namespace, defaultNs: Namespace)
    ensures forall x :: x in Listed(found, tags, groups, verbose, ns, defaultNs) <==>
              exists i :: 0 <= i < |found| && PassesFilters(found[i], tags, groups) && x == Item(found[i], verbose, ns, defaultNs)
  {
    if found != [] {
      ListedSpec(found[1..], tags, groups, verbose, ns, defaultNs);
      assert forall i :: 1 <= i < |found| ==> found[i] == found[1..][i - 1];
      forall x | exists i :: 0 <= i < |found| && PassesFilters(found[i], tags, groups) && x == Item(found[i], verbose, ns, defaultNs)
        ensures x in Listed(found, tags, groups, verbose, ns, defaultNs)
      {
        var i :| 0 <= i < |found| && PassesFilters(found[i], tags, groups) && x == Item(found[i], verbose, ns, defaultNs);
        if i > 0 {
          assert found[1..][i - 1] == found[i];
        }
      }
    }
  }

  /** Verbosity changes what an item shows, never which rows are listed. */
  lemma {:induction false} VerbosityKeepsMembership(found: seq<Row>, tags: seq<Attr>, groups: seq<Attr>,
                                                    v1: int, v2: int, ns: Namespace, defaultNs: Namespace)
    ensures |Listed(found, tags, groups, v1, ns, defaultNs)| == |Listed(found, tags, groups, v2, ns, defaultNs)|
    ensures forall k :: 0 <= k < |Listed(found, tags, groups, v1, ns, defaultNs)| ==>
              Listed(found, tags, groups, v1, ns, defaultNs)[k].id == Listed(found, tags, groups, v2, ns, defaultNs)[k].id
  {
    if found != [] {
      VerbosityKeepsMembership(found[1..], tags, groups, v1, v2, ns, defaultNs);
    }
  }

  /** The checks before the query: the reply to send, or the namespace and the
      resolved filters to list with. */
  datatype Admission =
    | Refused(reply: Reply)
    | Listable(ns: Namespace, tags: seq<Attr>, groups: seq<Attr>)

  /** handlers/FileHandler.go:170-194. The not-found replies pass 404 as the
      payload, not as the status code. */
  function Admit(user: User, req: ListRequest, o: ListOracles): (a: Admission)
    ensures a.Refused? ==> a.reply.statusHeader == "0"
    ensures o.findNamespace(req.attributes.namespace).None? || o.findNamespace(req.attributes.namespace).value.id == 0 ==>
              a == Refused(SendResponse(ResponseError, "Namespace not found", Some(Number(404)), []))
    ensures a.Listable? ==>
              o.findNamespace(req.attributes.namespace) == Some(a.ns) && a.ns.id != 0 &&
              (IsOwnedBy(a.ns, user) || user.canReadForeignNamespace) &&
              a.tags == o.findTags(req.attributes.tags, a.ns) && a.groups == o.findGroups(req.attributes.groups, a.ns) &&
              (|a.tags| == 0 ==> |req.attributes.tags| == 0) && (|a.groups| == 0 ==> |req.attributes.groups| == 0)
  {
    match o.findNamespace(req.attributes.namespace)
    case None => Refused(SendResponse(ResponseError, "Namespace not found", Some(Number(404)), []))
    case Some(ns) =>
      if ns.id == 0 then Refused(SendResponse(ResponseError, "Namespace not found", Some(Number(404)), []))
      else if !IsOwnedBy(ns, user) && !user.canReadForeignNamespace then
        Refused(SendResponse(ResponseError, "Read permission denied for foreign namespaces", None, [StatusForbidden]))
      else
        var tags := o.findTags(req.attributes.tags, ns);
        if |tags| == 0 && |req.attributes.tags| > 0 then
          Refused(SendResponse(ResponseError, "No matching tag found", Some(Number(404)), []))
        else
          var groups := o.findGroups(req.attributes.groups, ns);
          if |groups| == 0 && |req.attributes.groups| > 0 then
            Refused(SendResponse(ResponseError, "No matching group found", Some(Number(404)), []))
          else Listable(ns, tags, groups)
  }

  /** What the handler sends. */
  function ListReply(rows: seq<Row>, user: User, req: ListRequest, o: ListOracles): Reply
  {
    match Admit(user, req, o)
    case Refused(r) => r
    case Listable(ns, tags, groups) =>
      var found := ListQuery(rows, ns.id, req.name);
      SendResponse(ResponseSuccess, "", Some(ListFileResponse(Listed(found, tags, groups, req.verbose, ns, o.defaultNs))), [])
  }

  /** A listed file is live, in the namespace, has the query in its name, and
      passes the tag and group filters; every such file is listed. */
  lemma ListSpec(rows: seq<Row>, user: User, req: ListRequest, o: ListOracles)
    requires Admit(user, req, o).Listable?
    ensures ListReply(rows, user, req, o).statusHeader == "1" && ListReply(rows, user, req, o).code == StatusOK
    ensures ListReply(rows, user, req, o).body.Json? && ListReply(rows, user, req, o).body.payload.ListFileResponse?
    ensures forall x :: x in ListReply(rows, user, req, o).body.payload.files <==>
              exists r :: r in rows && ListMatch(r, Admit(user, req, o).ns.id, req.name) &&
                          PassesFilters(r, Admit(user, req, o).tags, Admit(user, req, o).groups) &&
                          x == Item(r, req.verbose, Admit(user, req, o).ns, o.defaultNs)
  {
    var a := Admit(user, req, o);
    var found := ListQuery(rows, a.ns.id, req.name);
    var items := Listed(found, a.tags, a.groups, req.verbose, a.ns, o.defaultNs);
    ListedSpec(found, a.tags, a.groups, req.verbose, a.ns, o.defaultNs);
    assert forall r :: r in found <==> r in rows && ListMatch(r, a.ns.id, req.name);
    forall x
      ensures x in items <==> exists r :: r in rows && ListMatch(r, a.ns.id, req.name) &&
                                          PassesFilters(r, a.tags, a.groups) && x == Item(r, req.verbose, a.ns, o.defaultNs)
    {
      if x in items {
        var i :| 0 <= i < |found| && PassesFilters(found[i], a.tags, a.groups) && x == Item(found[i], req.verbose, a.ns, o.defaultNs);
        assert found[i] in found;
      }
      if exists r :: r in rows && ListMatch(r, a.ns.id, req.name) && PassesFilters(r, a.tags, a.groups) && x == Item(r, req.verbose, a.ns, o.defaultNs) {
        var r :| r in rows && ListMatch(r, a.ns.id, req.name) && PassesFilters(r, a.tags, a.groups) && x == Item(r, req.verbose, a.ns, o.defaultNs);
        assert r in found;
        var i :| 0 <= i < |found| && found[i] == r;
      }
    }
  }

  /** Tag names that resolve to nothing give the "No matching tag found" reply,
      whose HTTP code is 200 with the number 404 as its JSON body. */
  lemma UnknownTagsAnswer200(user: User, req: ListRequest, o: ListOracles)
    requires o.findNamespace(req.attributes.namespace).Some?
    requires o.findNamespace(req.attributes.namespace).value.id != 0
    requires IsOwnedBy(o.findNamespace(req.attributes.namespace).value, user)
    requires |req.attributes.tags| > 0 && o.findTags(req.attributes.tags, o.findNamespace(req.attributes.namespace).value) == []
    ensures Admit(user, req, o).Refused?
    ensures Admit(user, req, o).reply.code == StatusOK
    ensures Admit(user, req, o).reply.body == Json(Number(404))
    ensures Admit(user, req, o).reply.message == "No matching tag found"
  {
  }

  /** The not-found reply as evidently intended, with the code as the status:
      sent with code 404 and the message as the body. */
  function NotFoundReply(message: string): (r: Reply)
    ensures r.code == StatusNotFound && r.statusHeader == "0"
    ensures |message| > 0 ==> r.body == Line(message + "\n")
  {
    SendResponse(ResponseError, message, None, [StatusNotFound])
  }

  /** The listing of the rows from i on is the i-th row's item, if it passes,
      followed by the listing of the rows after it. */
  lemma ListedUnfolds(found: seq<Row>, i: nat, tags: seq<Attr>, groups: seq<Attr>, verbose: int, ns: Namespace, defaultNs: Namespace)
    requires i < |found|
    ensures Listed(found[i..], tags, groups, verbose, ns, defaultNs) ==
              (if PassesFilters(found[i], tags, groups) then [Item(found[i], verbose, ns, defaultNs)] else []) +
              Listed(found[i + 1..], tags, groups, verbose, ns, defaultNs)
  {
    assert found[i..][1..] == found[i + 1..];
  }

  /** The loop of handlers/FileHandler.go:222-241 over the query's rows. */
  method CollectItems(found: seq<Row>, tags: seq<Attr>, groups: seq<Attr>, verbose: int, ns: Namespace, defaultNs: Namespace)
    returns (retFiles: seq<ResponseItem>)
    ensures retFiles == Listed(found, tags, groups, verbose, ns, defaultNs)
  {
    retFiles := [];
    for i := 0 to |found|
      invariant retFiles + Listed(found[i..], tags, groups, verbose, ns, defaultNs) == Listed(found, tags, groups, verbose, ns, defaultNs)
    {
      var file := found[i];
      ListedUnfolds(found, i, tags, groups, verbose, ns, defaultNs);
      ghost var rest := Listed(found[i + 1..], tags, groups, verbose, ns, defaultNs);
      if PassesFilters(file, tags, groups) {
        var respItem := ItemFor(file, verbose, ns, defaultNs);
        assert retFiles + ([respItem] + rest) == (retFiles + [respItem]) + rest;
        retFiles := retFiles + [respItem];
      }
    }
  }

  /** handlers/FileHandler.go:227-236. */
  method ItemFor(file: Row, verbose: int, ns: Namespace, defaultNs: Namespace) returns (respItem: ResponseItem)
    ensures respItem == Item(file, verbose, ns, defaultNs)
  {
    respItem := ResponseItem(file.id, file.name, file.fileSize, None);
    if verbose > 1 {
      var namespace := if verbose > 2 then ns else defaultNs;
      respItem := respItem.(attributes := Some(FileAttributes(Names(file.tags), Names(file.groups), namespace.name)));
    }
  }

  /** ListFilesHandler after parseUserInput; it changes nothing. */
  method ListFiles(db: Store, user: User, req: ListRequest, o: ListOracles) returns (reply: Reply)
    ensures reply == ListReply(db.rows, user, req, o)
  {
    var namespace := o.findNamespace(req.attributes.namespace);
    if namespace.None? || namespace.value.id == 0 {
      return SendResponse(ResponseError, "Namespace not found", Some(Number(404)), []);
    }
    var ns := namespace.value;
    if !IsOwnedBy(ns, user) && !user.canReadForeignNamespace {
      return SendResponse(ResponseError, "Read permission denied for foreign namespaces", None, [StatusForbidden]);
    }
    var tags := o.findTags(req.attributes.tags, ns);
    if |tags| == 0 && |req.attributes.tags| > 0 {
      return SendResponse(ResponseError, "No matching tag found", Some(Number(404)), []);
    }
    var groups := o.findGroups(req.attributes.groups, ns);
    if |groups| == 0 && |req.attributes.groups| > 0 {
      return SendResponse(ResponseError, "No matching group found", Some(Number(404)), []);
    }
    var foundFiles := ListQuery(db.rows, ns.id, req.name);
    var retFiles := CollectItems(foundFiles, tags, groups, req.verbose, ns, o.defaultNs);
    reply := SendResponse(ResponseSuccess, "", Some(ListFileResponse(retFiles)), []);
  }
}
