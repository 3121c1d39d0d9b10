# DataManager file engine in Dafny

A model of the file engine of the DataManager server: the `File` record with
its tag and group lists, its operations on the files table (rename,
visibility, tags, groups, namespace migration, publish, delete, insert), the
request engines for upload, listing and update, the helpers they share
(`sendResponse`, `LogError`, `BufferedCopy`, the URL and user-agent tests,
`downloadHTTP`), and the public preview.

The model is split as follows:
- **records.dfy** (`Records`): the value types (namespace, user, tag or group, file row) and the list operations behind `AddTags`, `RemoveTags`, `UpdateNamespace` and `Insert`.
- **storage.dfy** (`Storage`):
  - the files table as a sequence of rows in id order;
  - gorm's save/insert/soft-delete semantics as a class `Store`;
  - the storage directory as a class `Disk`;
  - the queries `GetCount`, `FindFile`, `GetPublicFile` and the listing query.
- **file.dfy** (`Files`):
  - a class `File`, whose methods change fields in place and save to the store;
  - each method is proved against an effect function on (record, table), and the lemmas are stated on those functions.
- **functions.dfy** (`Helpers`): the helpers of `handlers/functions.go`.
- **upload.dfy** (`Upload`), **list.dfy** (`Listing`), **update.dfy** (`Update`), **preview.dfy** (`Preview`):
  - each handler is a method;
  - each method is proved equal to a function of the old table, the old storage files and the answers of the code outside the model.

The database, the file system, the clock, MD5, random strings, `url.Parse`,
`http.Get` and the tag/group/namespace lookups are parameters:
- a function value for each lookup;
- a boolean for each call that can fail;
- a sequence for the random draws of the local-name loop.

Behaviours of the code that the model keeps:
- gorm's default scope hides soft-deleted rows, so every query has `!deleted`.
- `GetCount` takes its name and namespace from a struct condition. gorm drops zero values from such conditions, so an empty name or namespace id 0 matches every live row. `FindFile` uses a raw condition, so it keeps both.
- A Count query that fails in the local-name loop leaves the count 0, and the draw is then accepted.
- At verbosity 2 the list items carry the default namespace's name, because the namespace is preloaded only above 2.
- `ListFilesHandler` passes 404 as the payload of its not-found replies. The HTTP code is therefore 200 and the body is the JSON number 404.
- `UpdateFileHandler` passes `http.NotFound` as the payload of "Namespace not found". encoding/json refuses to encode a function, so the reply has code 200 and no body, and the encoding error is logged.
- `ReturnRawByUseragent` lower-cases before testing the prefix. A user agent shorter than four characters is not raw.

## Model

| member | source | states |
|---|---|---|
| Records.HasName | models/File.go:145-162 | true iff some element of the list has the name (HasTag/HasGroup) |
| Records.HasId | models/File.go:90-111 | true iff some element of the list has the id |
| Records.SharesId | models/File.go:90-111 | true iff some element of the first list and some of the second have equal ids |
| Records.Names | models/File.go:37-43 | the names of a tag or group list, same length, element by element |
| Records.AddedKeepsPrefix | models/File.go:201-211 | the add loop keeps the old list as an unchanged prefix |
| Records.AddedCovers | models/File.go:201-211 | after the add loop every requested name and every old name is present |
| Records.AddedFresh | models/File.go:201-211 | the appended elements are new names from the request, pairwise distinct (a repeated or present name is appended at most once) |
| Records.AddedGrowsIff | models/File.go:201-211 | the list grows iff some requested name was missing |
| Records.AddedNoop | models/File.go:201-211 | when every requested name is already present the list is unchanged |
| Records.AddedIdempotent | models/File.go:201-211 | adding the same names a second time changes nothing |
| Records.WithoutMembers | models/File.go:214-234 | the removal keeps exactly the elements whose names are not in the removal list |
| Records.WithoutConcat | models/File.go:214-234 | the removal works element by element, so order is preserved |
| Records.WithoutLength | models/File.go:214-234 | the removal never grows the list, and keeps its length iff no name matches, in which case the list is unchanged |
| Records.WithoutNothing | models/File.go:214-234 | removing no names leaves the list unchanged |
| Records.WithoutIdempotent | models/File.go:214-234 | removing the same names twice is removing them once |
| Records.RemoveTwice | models/File.go:214-234 | a matching name shrinks the list, and a second removal does not |
| Records.ReresolvedPointwise | models/File.go:320-343 | re-resolution keeps the length and maps each element to the lookup of its name |
| Records.ReresolvedSpec | models/File.go:320-343 | re-resolved lists keep their names in order and all lie in the new namespace |
| Records.CompletedPointwise | models/File.go:46-67 | the lookup-or-create loop keeps the length, keeps elements that have an id, and replaces the rest by their lookup or creation |
| Records.CompletedSpec | models/File.go:46-67 | after the loop every element has an id and the names are unchanged |
| Storage.HasRow | models/File.go:272-274 | true iff some row has the key |
| Storage.Modified | models/File.go:272-274 | every row with the key is changed and every other row is kept, with the length unchanged |
| Storage.Put | models/File.go:272-274 | gorm's Save keeps the table well formed (positive, unique ids) |
| Storage.PutStores | models/File.go:272-274 | after a Save every row with the record's id is the record, and the record is stored |
| Storage.PutContents | models/File.go:272-274 | after a Save the table holds the record and exactly the other rows with other ids |
| Storage.TagsCleared | models/File.go:227-228 | clearing the tag association keeps the table well formed |
| Storage.GroupsCleared | models/File.go:263-264 | clearing the group association keeps the table well formed |
| Storage.SoftDeleted | models/File.go:184-185 | a soft delete keeps the table well formed |
| Storage.FirstWhere | models/File.go:136-139 | None iff no row matches; otherwise a matching row with no match before it (gorm's First) |
| Storage.CountWhere | models/File.go:293 | the count is at most the table size and zero iff nothing matches |
| Storage.CountAboveOne | models/File.go:293 | the count exceeds one iff two distinct rows match |
| Storage.Filter | handlers/FileHandler.go:218 | the result holds exactly the rows that match |
| Storage.MaxId | models/File.go:72-75 | every id is at most the maximum |
| Storage.NextIdFresh | models/File.go:72-75 | the id Create assigns is unused, and appending the row keeps the table well formed |
| Storage.GetCountSpec | models/File.go:277-296 | the count is zero iff no live row matches name, namespace and id; above one iff two rows do; at most one once an id is given |
| Storage.GetPublicFile | models/File.go:299-311 | found iff there is no store error and a live row has the slug; the row returned has the slug; every error path reports not found |
| Storage.Contains | handlers/FileHandler.go:211-213 | the LIKE '%sub%' test holds iff the substring occurs at some position |
| Storage.Store.Save | models/File.go:272-274 | the table becomes Put of the record unless the call fails |
| Storage.Store.ClearTags | models/File.go:228 | the table becomes TagsCleared |
| Storage.Store.ClearGroups | models/File.go:264 | the table becomes GroupsCleared |
| Storage.Store.Delete | models/File.go:184-185 | the rows with the key are marked deleted unless the call fails |
| Storage.Store.Create | models/File.go:72-75 | the row is appended under the next id unless the call fails |
| Storage.Disk.Create | handlers/FileHandler.go:114-118 | an empty storage file is created unless the call fails |
| Storage.Disk.Write | handlers/FileHandler.go:123 | the bytes are appended to the storage file unless the call fails |
| Storage.Disk.Remove | models/File.go:178-182 | the storage file is removed unless the call fails or the file is missing |
| Files.RenameChangesOnlyName | models/File.go:189-192 | Rename changes only the name, and every stored row of the file carries the new name |
| Files.VisibilitySpec | models/File.go:195-198 | for either value, SetVilibility changes only IsPublic, so the slug is kept; a successful Save stores exactly the record with the new visibility beside the other rows, a failing one writes nothing |
| Files.AddTagsSpec | models/File.go:201-211 | old tags are an unchanged prefix; every requested name is present; appended names are new and distinct; only the tags change; Save always runs |
| Files.RemoveTagsSpec | models/File.go:214-234 | the tags become the order-preserving filter; with no matching name nothing changes and nothing is saved; otherwise the association is cleared and the record saved |
| Files.RemoveGroupsSpec | models/File.go:250-269 | the groups become the filter; an empty group list changes nothing; a non-matching removal still saves |
| Files.MoveNamespaceSpec | models/File.go:314-347 | the namespace id is the new one; tags and groups keep length and names in order and lie in the new namespace; nothing else changes |
| Files.PublishSlug | models/File.go:350-371 | the record becomes public under the requested slug, or under a 25-character random one when none is given |
| Files.PublishSpec | models/File.go:350-371 | conflict iff a live row already has the slug (this file included), and then nothing is saved; otherwise the public record is saved |
| Files.RepublishConflicts | models/File.go:350-371 | publishing a published file under its own slug is a conflict |
| Files.DeleteSaveFailureSpec | models/File.go:165-177 | a failing Save aborts Delete with table and disk unchanged |
| Files.SoftDeletedMarks | models/File.go:184-185 | the soft delete marks every row with the key and keeps them slug-free |
| Files.DeleteSpec | models/File.go:165-186 | Delete frees the slug and visibility; a failed removal of the content file leaves the disk as it was without stopping the delete; nothing else on disk changes |
| Files.DeleteMarksRow | models/File.go:165-186 | after Delete the file's row is stored without a slug and marked deleted unless the soft delete failed |
| Files.PutKeepsSlugs | models/File.go:272-274 | a Save keeps slugs unique and deleted rows slug-free when no other row holds the record's slug and a deleted record holds none |
| Files.SoftDeleteKeepsSlugs | models/File.go:184-185 | the soft delete keeps both slug invariants |
| Files.PublishKeepsSlugsUnique | models/File.go:350-371 | Publish keeps slugs unique among all rows |
| Files.DeleteKeepsSlugsUnique | models/File.go:165-186 | Delete keeps slugs unique and deleted rows slug-free |
| Files.ResolveAll | models/File.go:320-338 | the re-resolution loops compute Reresolved |
| Files.CompleteAll | models/File.go:46-67 | the lookup-or-create loops compute Completed |
| Files.Kept | models/File.go:220-225 | the removal loops compute Without |
| Files.File.HasTag | models/File.go:145-152 | true iff some tag has the name |
| Files.File.HasGroup | models/File.go:155-162 | true iff some group has the name |
| Files.File.IsInTagList | models/File.go:90-99 | true iff some tag of the file and some tag of the list have equal ids |
| Files.File.IsInGroupList | models/File.go:102-111 | true iff some group of the file and some group of the list have equal ids |
| Files.File.Load | models/File.go:128-142 | the loaded file holds the row and the preloaded namespace |
| Files.File.Draft | handlers/FileHandler.go:103-112 | a draft has the name, local name, tags, groups and namespace and is otherwise zero |
| Files.File.GetNamespace | models/File.go:82-87 | the loaded namespace, or the default one when none is loaded |
| Files.File.GetAttributes | models/File.go:37-43 | the tag names and group names in order, and the namespace name |
| Files.File.Save | models/File.go:272-274 | the store holds the record unless Save fails |
| Files.File.Rename | models/File.go:189-192 | record and table are the Renamed effect |
| Files.File.SetVilibility | models/File.go:195-198 | record and table are the VisibilitySet effect |
| Files.File.AddTags | models/File.go:201-211 | record and table are the TagsAdded effect |
| Files.File.RemoveTags | models/File.go:214-234 | record and table are the TagsRemoved effect |
| Files.File.AddGroups | models/File.go:237-247 | record and table are the GroupsAdded effect |
| Files.File.RemoveGroups | models/File.go:250-269 | record and table are the GroupsRemoved effect |
| Files.File.UpdateNamespace | models/File.go:314-347 | record and table are the NamespaceMoved effect, and the namespace association is the new one |
| Files.File.MoveTags | models/File.go:320-330 | record and table are the TagsReresolved effect |
| Files.File.MoveGroups | models/File.go:333-343 | record and table are the GroupsReresolved effect |
| Files.File.Publish | models/File.go:350-371 | record, table and results are the Published effect |
| Files.File.Delete | models/File.go:165-186 | record, table and storage files are the Deleted effect |
| Files.File.Insert | models/File.go:46-79 | record and table are the Inserted effect |
| Helpers.LogError | handlers/functions.go:77-88 | true iff there is an error |
| Helpers.SendResponse | handlers/functions.go:23-47 | the status header is "1" iff the status is success; the code is 200 unless a code is given; a payload that encodes is the JSON body; else a non-empty message with a newline; an unencodable payload gives no body and a logged error |
| Helpers.ServerError | handlers/functions.go:72-74 | code 500, status "0", body "internal server error" |
| Helpers.PayloadWins | handlers/functions.go:36-44 | with an encodable payload the message does not reach the body and the code is as without one |
| Helpers.Itoa | handlers/FileHandler.go:140 | the decimal text of a number, with a minus sign for a negative one |
| Helpers.NatDigitsRoundTrip | handlers/FileHandler.go:140 | reading the digits back gives the number |
| Helpers.Lower | handlers/functions.go:279 | the ASCII lower-casing, character by character |
| Helpers.LowerIdempotent | handlers/functions.go:279 | lower-casing twice is lower-casing once |
| Helpers.LowerPrefix | handlers/functions.go:279 | lower-casing commutes with taking a prefix |
| Helpers.ReturnRawByUseragent | handlers/functions.go:278-281 | true iff the lower-cased agent starts with "curl" or "wget" |
| Helpers.UseragentIgnoresCase | handlers/functions.go:278-281 | the test does not depend on the agent's case |
| Helpers.IsValidHttpUrl | handlers/functions.go:91-101 | true iff parsing succeeds with scheme http or https |
| Helpers.ScanFindsColon | handlers/functions.go:93-101 | a scheme found by the scan is the lower-cased text before a colon |
| Helpers.ScanOverLetters | handlers/functions.go:93-101 | letters up to a colon are read as the scheme |
| Helpers.ScanSchemeSound | handlers/functions.go:93-101 | a scanned "http" or "https" scheme comes from a string starting with "http:" or "https:" in any case |
| Helpers.ScanSchemeComplete | handlers/functions.go:93-101 | a string starting with "http:" or "https:" in any case scans to "http" or "https" |
| Helpers.HttpUrlSpec | handlers/functions.go:91-101 | with url.Parse's control-character check and the scheme of section 3.1 of RFC 3986, a URL is accepted iff it has no control character before its fragment and starts with "http:" or "https:" in any case |
| Helpers.Copy | handlers/functions.go:187-207 | the copy makes at most one write per read |
| Helpers.CopySpec | handlers/functions.go:187-207 | the writes are the data of the leading reads that succeed with data and a successful write, in order; the copy ends with io.EOF when every read passes, and otherwise with the failure of the first read that does not |
| Helpers.CopyAll | handlers/functions.go:187-207 | on a stream whose reads and writes all succeed, the bytes written are the bytes read, and the copy ends with io.EOF |
| Helpers.BufferedCopy | handlers/functions.go:187-207 | the buffer loop computes Copy, and each write is at most the buffer size |
| Helpers.ServeFileStream | handlers/functions.go:210-217 | io.EOF is mapped to nil, other errors are kept |
| Helpers.Limited | handlers/functions.go:168-171 | LimitReader yields a prefix of the body of the limit's length, or all of it without a limit |
| Helpers.Truncated | handlers/functions.go:172-175 | the bytes io.Copy wrote before failing: a prefix of the given length, or everything when the source is shorter |
| Helpers.DownloadSpec | handlers/functions.go:145-184 | a non-2xx status is returned with no error and no body read; a declared length above the limit is "File too large"; a failing io.Copy returns its error and leaves a prefix of the limited body in the file; otherwise the copied bytes are the whole limited body |
| Helpers.DownloadHttp | handlers/functions.go:145-184 | status, error, storage file and FileSize are those of Downloaded; FileSize is the number of bytes copied |
| Upload.FreeNameSpec | handlers/FileHandler.go:84-101 | the allocator takes the first accepted draw, and finds none iff every draw collides |
| Upload.AllocateLocalName | handlers/FileHandler.go:84-96 | the retry loop succeeds iff FreeName finds a draw, and returns that draw |
| Upload.Validation | handlers/FileHandler.go:22-57 | permission errors are 403; an MD5 mismatch, a missing or invalid URL and an unknown type are 422 |
| Upload.Admit | handlers/FileHandler.go:22-101 | validation comes first; an unknown namespace is 404, a foreign one without write right 403; when all five draws collide the reply is the server error; an admitted upload has the given or random name, the allocated local name and the resolved attributes |
| Upload.RejectionTouchesNothing | handlers/FileHandler.go:22-119 | every refusal, and a failing os.Create, leaves table and disk unchanged |
| Upload.FailureKeepsStorageFile | handlers/FileHandler.go:115-155 | once the storage file is created, a later failure leaves it in place and the table unchanged |
| Upload.DownloadFailureAnswers400 | handlers/FileHandler.go:130-143 | a URL upload whose download fails or answers a non-2xx status is a 400 with no row added, and the storage file keeps what the copy wrote |
| Upload.StorageFailureAnswers500 | handlers/FileHandler.go:121-155 | a failed write of the data, a failed close of the storage file or a failed Insert answers the server error |
| Upload.SuccessInsertsRow | handlers/FileHandler.go:145-159 | a success appends one row under the next id with the name, local name, namespace and uploader, and answers with that id |
| Upload.FileUploadStoresData | handlers/FileHandler.go:121-129 | a successful file upload stores the data under the local name with the data's size |
| Upload.UrlUploadStoresBody | handlers/FileHandler.go:130-143 | a successful URL upload had a 2xx answer and stores its limited body |
| Upload.UploadFile | handlers/FileHandler.go:15-160 | reply, table and disk are the Uploaded function of the old state |
| Upload.Fill | handlers/FileHandler.go:121-159 | a failed write of a file upload answers a server error with table and disk as they were; otherwise the data is appended to the storage file under its size, or the URL body is downloaded, and the draft is committed |
| Upload.Commit | handlers/FileHandler.go:145-159 | reply and table are the Committed effect: a failed close or Insert is a server error, a success answers the new id |
| Listing.Item | handlers/FileHandler.go:227-236 | id, name and size of the row; attributes iff verbosity > 1, with the namespace's name above 2 and the default's at 2 |
| Listing.ListedSpec | handlers/FileHandler.go:222-241 | the listing holds exactly the items of the rows that pass the filters |
| Listing.VerbosityKeepsMembership | handlers/FileHandler.go:234-236 | verbosity changes no membership and no order |
| Listing.Admit | handlers/FileHandler.go:170-194 | an unknown namespace or id 0 is refused first with the reply carrying payload 404; a listable request has a readable namespace and resolved tags and groups, non-empty whenever names were given |
| Listing.ListSpec | handlers/FileHandler.go:163-246 | a listable request answers success with an item for exactly the live rows of the namespace whose name contains the query and that pass the tag and group filters |
| Listing.UnknownTagsAnswer200 | handlers/FileHandler.go:183-187 | tag names that resolve to nothing answer "No matching tag found" with code 200 and the JSON number 404 |
| Listing.NotFoundReply | handlers/FileHandler.go:185 | the evidently intended not-found reply has code 404 and the message as body |
| Listing.ListedUnfolds | handlers/FileHandler.go:222-241 | one step of the listing |
| Listing.CollectItems | handlers/FileHandler.go:222-241 | the loop computes Listed |
| Listing.ItemFor | handlers/FileHandler.go:227-236 | the item built is Item |
| Listing.ListFiles | handlers/FileHandler.go:163-246 | the reply is ListReply of the table |
| Update.ParseBool | handlers/FileHandler.go:338 | true for strconv's six true spellings, false for its six false ones, an error otherwise |
| Update.Resolve | handlers/FileHandler.go:256-311 | refusals are errors; a missing namespace is refused first; a target has a writable namespace, a valid action, one candidate or a given id, and is FindFile's row |
| Update.MissingNamespaceAnswers200 | handlers/FileHandler.go:256-260 | "Namespace not found" answers with code 200 and no body and logs an encoding error |
| Update.ActionChecks | handlers/FileHandler.go:268-280 | a missing action and one other than delete or update are refused |
| Update.AmbiguityChecks | handlers/FileHandler.go:282-304 | two candidates without an id are "multiple files with same name"; none is "File not found" |
| Update.HaltedStays | handlers/FileHandler.go:327-394 | once a sub-action stops the handler no later one runs |
| Update.Finish | handlers/FileHandler.go:403-407 | the reply is a success iff didUpdate, with code 200 |
| Update.RefusalTouchesNothing | handlers/FileHandler.go:256-311 | every refusal leaves table and disk unchanged |
| Update.DeleteActionSpec | handlers/FileHandler.go:318-322 | a delete that succeeds answers success, marks the row deleted without slug and removes its storage file |
| Update.EarlierStepsPersist | handlers/FileHandler.go:327-349 | a rename followed by a non-bool visibility answers 422 with the rename stored |
| Update.OverwriteLosesRename | handlers/FileHandler.go:356-364 | a stored rename followed by adding present tags answers "noting to do" |
| Update.AccumulateKeepsFlag | handlers/FileHandler.go:363 | under the accumulating rule a raised flag stays raised |
| Update.AccumulateKeepsRename | handlers/FileHandler.go:327-394 | under the accumulating rule a run that is not stopped answers success whenever a rename was requested |
| Update.ForeignFileGivesServerError | models/File.go:277-296 | when the only candidate belongs to another user the handler answers a server error |
| Update.OwnedCountAgreesWithFind | models/File.go:128-142 | the count under FindFile's condition is zero iff FindFile finds nothing |
| Update.UpdateFile | handlers/FileHandler.go:249-408 | reply, table and disk are the Updated function of the old state |
| Update.Perform | handlers/FileHandler.go:313-407 | the delete or the update steps, then the final reply |
| Update.ApplyUpdates | handlers/FileHandler.go:325-395 | record and table are UpdateSteps of the old state |
| Update.Renaming | handlers/FileHandler.go:328-334 | the rename step, then the rest |
| Update.Publicity | handlers/FileHandler.go:337-354 | the visibility step, then the rest |
| Update.TagAdding | handlers/FileHandler.go:357-364 | the add-tags step, then the rest |
| Update.TagRemoval | handlers/FileHandler.go:367-374 | the remove-tags step, then the rest |
| Update.GroupAdding | handlers/FileHandler.go:377-384 | the add-groups step, then the rest |
| Update.GroupRemoval | handlers/FileHandler.go:387-394 | the remove-groups step |
| Preview.FileChunks | handlers/PreviewHandler.go:42-49 | the reads of a file each fit the buffer, succeed, and are non-empty for a non-empty buffer |
| Preview.FileCopyErr | handlers/PreviewHandler.go:49 | the copy of a file ends with io.EOF or a write error, and io.EOF when no write fails |
| Preview.FileCopyData | handlers/PreviewHandler.go:49 | the copy delivers a prefix of the file, and all of it iff it ends with io.EOF |
| Preview.FileCopySpec | handlers/PreviewHandler.go:49 | the copy of a file delivers a prefix, all of it iff it ends with io.EOF, ends with io.EOF or a write error, and with io.EOF when no write fails |
| Preview.ContentType | handlers/PreviewHandler.go:37-39 | Content-Type is set, to the stored type, iff the type is non-empty |
| Preview.Previewed | handlers/PreviewHandler.go:13-58 | a served file has the slug, is live and public and has its content file, with its content type; an unknown slug is 404 (as written, or without a store error), a non-public match is 404, a public match without its content file is 500 |
| Preview.PreviewFile | handlers/PreviewHandler.go:13-58 | the page is Previewed of the table and disk |
| Preview.PreviewServesFile | handlers/PreviewHandler.go:13-58 | with unique slugs a public file is served under its slug, and without failing writes the client gets exactly its bytes |
| Preview.ServedIsPrefix | handlers/PreviewHandler.go:49 | what is served is a prefix of the stored file |
| Preview.StoreFaultIsNotFound | handlers/PreviewHandler.go:18-28 | a store error of the lookup answers 404 |
| Preview.StoreFaultIsServerError | handlers/PreviewHandler.go:24-28 | as intended a store error answers the server error page, and nothing else changes |
| Preview.CopyErrorUnreported | handlers/PreviewHandler.go:49-54 | a write failure at the first write serves nothing and logs nothing |
| Preview.CopyErrorLogged | handlers/PreviewHandler.go:49-54 | as intended an error is logged iff the client did not get the whole file |
| Preview.PublishThenPreview | handlers/PreviewHandler.go:18-49 | after a successful Publish without conflict the slug serves the published record and its bytes |
| Preview.DeleteThenPreview | handlers/PreviewHandler.go:18-34 | after a successful Delete no slug serves the file |

## Left out

- Request parsing (`parseUserInput`, `readRequestBody`) and `isStructInvalid`/`hasEmptyValue` use reflection and the HTTP body; the handlers start from parsed requests.
- The request fields come from what the handlers read, since models/Requests.go is out of step with the handlers.
- models/User.go, models/Namespace.go, models/Tag.go, models/Group.go and models/Response.go are not part of this model. Their queries and permission methods are parameters or plain fields of `User` and `Namespace`.
- `CreationDate` in list items comes from the clock and is left out.
- Go's distinction between a nil and an empty slice in JSON is not modelled.
- gorm: `LIKE` is read as substring containment without `%` or `_` wildcards. Errors of the list query are not modelled, because the handler ignores them.
- `Lower` is ASCII lower-casing. `strings.ToLower` also folds non-ASCII letters, which cannot change a "curl"/"wget" prefix test.
- `url.Parse` is a parameter of the upload handler. `SchemeOf` models its first steps: the refusal of a control character before the fragment, then the scheme. Its failures after the scheme (a bad host, port or escape) are not modelled, so `HttpUrlSpec` accepts some URLs such as "http://a%zz" (an invalid escape) that url.Parse refuses.
- A write to the storage file or to the client is all-or-nothing; a write that fails after writing part of its buffer is not modelled. A failing io.Copy in downloadHTTP is modelled as leaving a prefix of the body, of a length given by the response.
- `serveFileStream` (handlers/functions.go:210-217) and the preview (handlers/PreviewHandler.go:49) call `gaw.BufferedCopy` from a library that is not part of this model; it is assumed to be the same read/write loop as the local `BufferedCopy` at handlers/functions.go:187-207, and both are modelled by `Helpers.BufferedCopy` and `Helpers.Copy`.
- Storage.FirstWhere: reads the table order as gorm's primary-key order. Rows made by Create are appended under the next id (largest id plus one), so they stay in id order, but `WellFormed` does not require sorted ids, and a Save of a record whose id is absent appends it at the end whatever its id.
- Concurrency between requests and the uniqueness arbitration of the database are not modelled: one request runs at a time.
- The namespace sub-action of update is a TODO in the code and is modelled as doing nothing.
- `serveStaticFile`, templates and `autoSetContentType` are not part of the handlers modelled.
- Closing the file in the preview handler is not modelled; its error is only logged.
- Files.File.Insert: states the row and the table, not the in-memory `Namespace` association, which is only the default namespace set in place.
- Update.UpdateFile: follows the code's overwriting rule for `didUpdate`; the accumulating rule is proved about separately (see Findings).
- Preview.PreviewFile: follows the code's error tests; the intended ones are modelled by `Previewed(Intended, …)` (see Findings).

## Findings

| source | as written | input that shows it | evidently intended | confidence | as-written member | corrected member |
|---|---|---|---|---|---|---|
| handlers/FileHandler.go:363 | each tag or group sub-action overwrites `didUpdate` with its own result | a rename together with tags the file already has: the rename is stored but the answer is "noting to do" | `didUpdate` keeps an earlier change (`didUpdate = didUpdate \|\| …`) | high, not executed | Update.OverwriteLosesRename | Update.AccumulateKeepsRename |
| handlers/FileHandler.go:185 | the not-found replies of the listing pass 404 as the payload | tag names none of which exist: code 200 with body `404` | 404 as the HTTP code | high, not executed | Listing.UnknownTagsAnswer200 | Listing.NotFoundReply |
| handlers/FileHandler.go:258 | "Namespace not found" passes `http.NotFound` as the payload | an unknown namespace: code 200, no body, an encoding error logged | 404 as the HTTP code | high, not executed | Update.MissingNamespaceAnswers200 | Listing.NotFoundReply |
| models/File.go:281-290 | GetCount has no uploader condition while FindFile has | the only live file with the name belongs to another user: a server error instead of "File not found" | the count under FindFile's condition | medium, not executed | Update.ForeignFileGivesServerError | Update.OwnedCountAgreesWithFind |
| handlers/PreviewHandler.go:19-28 | `found` is tested before `err`, and GetPublicFile reports not found on every error | a store error during the lookup answers 404 | a store error answers 500 | high, not executed | Preview.StoreFaultIsNotFound | Preview.StoreFaultIsServerError |
| handlers/PreviewHandler.go:49-51 | the result of BufferedCopy is dropped and the test after it re-reads os.Open's nil error | a client that fails the first write: nothing is logged | the copy's error is logged | high, not executed | Preview.CopyErrorUnreported | Preview.CopyErrorLogged |
