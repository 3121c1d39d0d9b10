/** The helpers of handlers/functions.go: the response writer, error logging,
    the buffered stream copy, the URL and user-agent tests and the URL download. */
module Helpers {
  import opened Records
  import opened Storage
  import opened Files

  // ---------------------------------------------------------------------------
  // Errors and responses

  /** LogError (handlers/functions.go:77-88): an error is logged and reported as true. */
  function LogError(err: Option<string>): (logged: bool)
    ensures logged <==> err.Some?
    ensures !logged <==> err == None
  {
    match err
    case Some(_) => true
    case None => false
  }

  /** The two values of models.ResponseStatus. */
  const ResponseError := 0
  const ResponseSuccess := 1

  const StatusOK := 200
  const StatusBadRequest := 400
  const StatusForbidden := 403
  const StatusNotFound := 404
  const StatusUnprocessableEntity := 422
  const StatusInternalServerError := 500

  /** One entry of a file listing (models.FileResponseItem without its creation time). */
  datatype ResponseItem = ResponseItem(id: nat, name: string, size: int, attributes: Option<FileAttributes>)

  /** The payloads the handlers pass to sendResponse. `Number` is a bare integer
      and `HandlerFunc` a function value (http.NotFound), which encoding/json refuses. */
  datatype Payload =
    | UploadResponse(fileId: nat)
    | ListFileResponse(files: seq<ResponseItem>)
    | Number(n: int)
    | HandlerFunc

  predicate Encodable(p: Payload) {
    !p.HandlerFunc?
  }

  datatype Body = NoBody | Json(payload: Payload) | Line(text: string)

  /** What sendResponse puts on the wire: the HTTP code, the status and message
      headers, the body, and whether an encoding error was logged. */
  datatype Reply = Reply(code: int, statusHeader: string, message: string, body: Body, logged: bool)

  /** sendResponse (handlers/functions.go:23-47). */
  function SendResponse(status: int, message: string, payload: Option<Payload>, params: seq<int>): (r: Reply)
    ensures r.statusHeader == "1" <==> status == ResponseSuccess
    ensures r.statusHeader == "0" <==> status != ResponseSuccess
    ensures r.code == StatusOK <==> (|params| == 0 || params[0] == StatusOK)
    ensures |params| > 0 ==> r.code == params[0]
    ensures r.message == message
    ensures r.logged <==> payload == Some(HandlerFunc)
    ensures payload.Some? && Encodable(payload.value) ==> r.body == Json(payload.value)
    ensures payload.None? && |message| > 0 ==> r.body == Line(message + "\n")
    ensures r.body == NoBody <==> payload == Some(HandlerFunc) || (payload.None? && |message| == 0)
  {
    var code := if |params| > 0 then params[0] else StatusOK;
    var s := if status == 1 then "1" else "0";
    match payload
    case Some(p) =>
      if Encodable(p) then Reply(code, s, message, Json(p), false)
      else Reply(code, s, message, NoBody, true)
    case None =>
      if |message| > 0 then Reply(code, s, message, Line(message + "\n"), false)
      else Reply(code, s, message, NoBody, false)
  }

  /** sendServerError (handlers/functions.go:72-74). */
  function ServerError(): (r: Reply)
    ensures r.code == StatusInternalServerError && r.statusHeader == "0"
    ensures r.body == Line("internal server error\n")
  {
    SendResponse(ResponseError, "internal server error", None, [StatusInternalServerError])
  }

  /** A JSON reply's body is the payload, whatever the message. */
  lemma PayloadWins(status: int, message: string, p: Payload, params: seq<int>)
    requires Encodable(p)
    ensures SendResponse(status, message, Some(p), params).body == SendResponse(status, "", Some(p), params).body
    ensures SendResponse(status, message, Some(p), params).code == SendResponse(status, "", None, params).code
  {
  }

  // ---------------------------------------------------------------------------
  // Decimal rendering (strconv.Itoa)

  function Digit(d: int): (c: char)
    requires 0 <= d < 10
    ensures '0' <= c <= '9'
  {
    "0123456789"[d]
  }

  function NatDigits(n: nat): (s: string)
    ensures |s| > 0
    ensures forall i :: 0 <= i < |s| ==> '0' <= s[i] <= '9'
  {
    if n < 10 then [Digit(n)] else NatDigits(n / 10) + [Digit(n % 10)]
  }

  function Itoa(n: int): (s: string)
    ensures |s| > 0
    ensures n >= 0 ==> s == NatDigits(n)
    ensures n < 0 ==> s == "-" + NatDigits(-n)
  {
    if n < 0 then "-" + NatDigits(-n) else NatDigits(n)
  }

  /** Reading the digits back: the rendering loses nothing. */
  function DigitsValue(s: string): int
  {
    if s == [] then 0 else DigitsValue(s[..|s| - 1]) * 10 + (s[|s| - 1] as int - '0' as int)
  }

  lemma {:induction false} NatDigitsRoundTrip(n: nat)
    ensures DigitsValue(NatDigits(n)) == n
  {
    if n >= 10 {
      NatDigitsRoundTrip(n / 10);
      var s := NatDigits(n);
      assert s[..|s| - 1] == NatDigits(n / 10);
    }
  }

  // ---------------------------------------------------------------------------
  // ASCII lower case (strings.ToLower on the ASCII range)

  function LowerChar(c: char): (d: char)
    ensures 'A' <= c <= 'Z' ==> d as int == c as int + 32
    ensures !('A' <= c <= 'Z') ==> d == c
  {
    if 'A' <= c <= 'Z' then (c as int + 32) as char else c
  }

  function Lower(s: string): (r: string)
    ensures |r| == |s|
    ensures forall i :: 0 <= i < |s| ==> r[i] == LowerChar(s[i])
  {
    if s == [] then [] else [LowerChar(s[0])] + Lower(s[1..])
  }

  lemma LowerIdempotent(s: string)
    ensures Lower(Lower(s)) == Lower(s)
  {
  }

  lemma LowerPrefix(s: string, n: nat)
    requires n <= |s|
    ensures Lower(s)[..n] == Lower(s[..n])
  {
  }

  // ---------------------------------------------------------------------------
  // returnRawByUseragent

  /** returnRawByUseragent (handlers/functions.go:278-281). */
  function ReturnRawByUseragent(useragent: string): (raw: bool)
    ensures raw <==> |useragent| >= 4 && (Lower(useragent[..4]) == "curl" || Lower(useragent[..4]) == "wget")
  {
    var ua := Lower(useragent);
    if |ua| >= 4 then
      LowerPrefix(useragent, 4);
      "curl" <= ua || "wget" <= ua
    else false
  }

  /** The test ignores case: an agent and its lower-case form get the same answer. */
  lemma UseragentIgnoresCase(useragent: string)
    ensures ReturnRawByUseragent(Lower(useragent)) == ReturnRawByUseragent(useragent)
  {
    if |useragent| >= 4 {
      LowerPrefix(useragent, 4);
      LowerIdempotent(useragent[..4]);
    }
  }

  // ---------------------------------------------------------------------------
  // URL scheme allow-list

  /** AllowedSchemes (handlers/functions.go:91). */
  const AllowedSchemes: seq<string> := ["http", "https"]

  /** isValidHTTPURL (handlers/functions.go:93-101). `parse` stands for url.Parse
      and yields the parsed URL's scheme, or None when parsing fails. */
  function IsValidHttpUrl(inp: string, parse: string -> Option<string>): (valid: bool)
    ensures valid <==> parse(inp) == Some("http") || parse(inp) == Some("https")
  {
    match parse(inp)
    case None => false
    case Some(scheme) => scheme in AllowedSchemes
  }

  predicate IsAlpha(c: char) {
    'a' <= c <= 'z' || 'A' <= c <= 'Z'
  }

  predicate IsSchemeTail(c: char) {
    '0' <= c <= '9' || c == '+' || c == '-' || c == '.'
  }

  /** An ASCII control character: below space, or DEL. */
  predicate IsControl(c: char) {
    c < ' ' || c as int == 0x7F
  }

  /** url.Parse cuts off the fragment at the first "#" and refuses the rest
      when it holds a control character ("invalid control character in URL"). */
  predicate ControlBeforeFragment(s: string) {
    exists i :: 0 <= i < |s| && IsControl(s[i]) && forall k :: 0 <= k < i ==> s[k] != '#'
  }

  /** The first steps of url.Parse: the control-character check, then the scheme
      in the sense of section 3.1 of RFC 3986 (a letter, then letters, digits,
      "+", "-" or "."), ended by ":", lower-cased. None is a parse error (a
      control character, or "missing protocol scheme"); "" means the URL has
      no scheme. */
  function SchemeOf(s: string): Option<string>
  {
    if ControlBeforeFragment(s) then None else ScanScheme(s, 0)
  }

  function ScanScheme(s: string, i: nat): Option<string>
    requires i <= |s|
    decreases |s| - i
  {
    if i == |s| then Some("")
    else if IsAlpha(s[i]) then ScanScheme(s, i + 1)
    else if IsSchemeTail(s[i]) then (if i == 0 then Some("") else ScanScheme(s, i + 1))
    else if s[i] == ':' then (if i == 0 then None else Some(Lower(s[..i])))
    else Some("")
  }

  lemma {:induction false} ScanFindsColon(s: string, i: nat)
    requires i <= |s|
    requires ScanScheme(s, i).Some? && ScanScheme(s, i).value != ""
    ensures exists j :: i <= j < |s| && 0 < j && s[j] == ':' && ScanScheme(s, i).value == Lower(s[..j])
    decreases |s| - i
  {
    if IsAlpha(s[i]) || (IsSchemeTail(s[i]) && i > 0) {
      ScanFindsColon(s, i + 1);
    }
  }

  lemma {:induction false} ScanOverLetters(s: string, i: nat, j: nat)
    requires i <= j < |s| && 0 < j && s[j] == ':'
    requires forall k :: i <= k < j ==> IsAlpha(s[k])
    ensures ScanScheme(s, i) == Some(Lower(s[..j]))
    decreases j - i
  {
    if i < j {
      ScanOverLetters(s, i + 1, j);
    }
  }

  predicate HasHttpScheme(s: string) {
    (|s| > 4 && Lower(s[..4]) == "http" && s[4] == ':') ||
    (|s| > 5 && Lower(s[..5]) == "https" && s[5] == ':')
  }

  lemma LowerOfLetters(s: string, w: string)
    requires Lower(s) == w
    requires forall k :: 0 <= k < |w| ==> 'a' <= w[k] <= 'z'
    ensures forall k :: 0 <= k < |s| ==> IsAlpha(s[k])
  {
    forall k | 0 <= k < |s|
      ensures IsAlpha(s[k])
    {
      assert LowerChar(s[k]) == w[k];
    }
  }

  /** A scanned "http" or "https" scheme comes from a string that starts with
      "http:" or "https:", in any letter case. */
  lemma ScanSchemeSound(s: string)
    requires ScanScheme(s, 0) == Some("http") || ScanScheme(s, 0) == Some("https")
    ensures HasHttpScheme(s)
  {
    ScanFindsColon(s, 0);
    var j :| 0 <= j < |s| && 0 < j && s[j] == ':' && ScanScheme(s, 0).value == Lower(s[..j]);
    assert |Lower(s[..j])| == j;
  }

  /** A string that starts with "http:" or "https:", in any letter case, scans
      to the lower-cased scheme. */
  lemma ScanSchemeComplete(s: string)
    requires HasHttpScheme(s)
    ensures ScanScheme(s, 0) == Some("http") || ScanScheme(s, 0) == Some("https")
  {
    if |s| > 4 && Lower(s[..4]) == "http" && s[4] == ':' {
      LowerOfLetters(s[..4], "http");
      ScanOverLetters(s, 0, 4);
    } else {
      LowerOfLetters(s[..5], "https");
      ScanOverLetters(s, 0, 5);
    }
  }

  /** With the RFC 3986 scheme reading, exactly the URLs that start with "http:"
      or "https:", in any letter case, and hold no control character before
      their fragment pass the allow-list. */
  lemma HttpUrlSpec(s: string)
    ensures IsValidHttpUrl(s, SchemeOf) <==> !ControlBeforeFragment(s) && HasHttpScheme(s)
  {
    if ScanScheme(s, 0) == Some("http") || ScanScheme(s, 0) == Some("https") {
      ScanSchemeSound(s);
    }
    if HasHttpScheme(s) {
      ScanSchemeComplete(s);
    }
  }


  // ---------------------------------------------------------------------------
  // BufferedCopy

  /** The error a copy returns: nil, io.EOF, the reader's or the writer's error. */
  datatype StreamErr = Nil | Eof | ReadFailed | WriteFailed

  datatype ReadStatus = ReadOk | ReadEof | ReadError

  /** One Read call: the bytes it delivers and its error, and whether the
      writer's Write of those bytes fails. Reads past the last chunk return (0, io.EOF). */
  datatype Chunk = Chunk(data: seq<byte>, status: ReadStatus, writeFails: bool)

  datatype CopyOutcome = CopyOutcome(writes: seq<seq<byte>>, err: StreamErr)

  /** The read/write loop of BufferedCopy (handlers/functions.go:187-207) on a
      reader given as its sequence of Read results. */
  function Copy(chunks: seq<Chunk>): (r: CopyOutcome)
    ensures |r.writes| <= |chunks|
  {
    if |chunks| == 0 then CopyOutcome([], Eof)
    else
      var c := chunks[0];
      if c.status == ReadError then CopyOutcome([], ReadFailed)
      else if |c.data| == 0 then CopyOutcome([], if c.status == ReadEof then Eof else Nil)
      else if c.writeFails then CopyOutcome([], WriteFailed)
      else
        var rest := Copy(chunks[1..]);
        CopyOutcome([c.data] + rest.writes, rest.err)
  }

  /** A chunk that is read without error, is not empty, and is written. */
  predicate Passes(c: Chunk) {
    c.status != ReadError && |c.data| > 0 && !c.writeFails
  }

  /** Why the loop stops at a chunk that does not pass. */
  function StopReason(c: Chunk): StreamErr
  {
    if c.status == ReadError then ReadFailed
    else if |c.data| > 0 then WriteFailed
    else if c.status == ReadEof then Eof
    else Nil
  }

  /** The copy writes the data of the longest run of passing chunks, in order,
      and stops at the first chunk that does not pass with that chunk's reason
      (io.EOF when the reader runs dry). */
  lemma {:induction false} CopySpec(chunks: seq<Chunk>)
    ensures forall j :: 0 <= j < |Copy(chunks).writes| ==> Passes(chunks[j]) && Copy(chunks).writes[j] == chunks[j].data
    ensures |Copy(chunks).writes| == |chunks| ==> Copy(chunks).err == Eof
    ensures |Copy(chunks).writes| < |chunks| ==>
              !Passes(chunks[|Copy(chunks).writes|]) && Copy(chunks).err == StopReason(chunks[|Copy(chunks).writes|])
  {
    if |chunks| > 0 && Passes(chunks[0]) {
      CopySpec(chunks[1..]);
    }
  }

  function Flatten(s: seq<seq<byte>>): seq<byte>
  {
    if s == [] then [] else s[0] + Flatten(s[1..])
  }

  function Data(chunks: seq<Chunk>): seq<seq<byte>>
  {
    if chunks == [] then [] else [chunks[0].data] + Data(chunks[1..])
  }

  /** On a stream whose every read succeeds and is written, the bytes written are
      exactly the bytes read, in order, and the copy ends with io.EOF. */
  lemma {:induction false} CopyAll(chunks: seq<Chunk>)
    requires forall j :: 0 <= j < |chunks| ==> Passes(chunks[j])
    ensures Flatten(Copy(chunks).writes) == Flatten(Data(chunks))
    ensures Copy(chunks).err == Eof
  {
    if |chunks| > 0 {
      CopyAll(chunks[1..]);
    }
  }

  /** BufferedCopy (handlers/functions.go:187-207): every read goes into one
      buffer of `bufferSize` bytes, whose first n bytes are then written. */
  method BufferedCopy(bufferSize: nat, chunks: seq<Chunk>) returns (writes: seq<seq<byte>>, err: StreamErr)
    requires forall j :: 0 <= j < |chunks| ==> |chunks[j].data| <= bufferSize
    ensures CopyOutcome(writes, err) == Copy(chunks)
    ensures forall j :: 0 <= j < |writes| ==> |writes[j]| <= bufferSize
  {
    var buf := new byte[bufferSize];
    writes := [];
    var i := 0;
    while true
      invariant 0 <= i <= |chunks|
      invariant writes + Copy(chunks[i..]).writes == Copy(chunks).writes
      invariant Copy(chunks[i..]).err == Copy(chunks).err
      invariant forall j :: 0 <= j < |writes| ==> |writes[j]| <= bufferSize
      decreases |chunks| - i
    {
      // n, err = reader.Read(buf)
      var n: nat, status: ReadStatus;
      if i < |chunks| {
        var c := chunks[i];
        forall k | 0 <= k < |c.data| {
          buf[k] := c.data[k];
        }
        n, status := |c.data|, c.status;
        assert buf[..n] == c.data;
      } else {
        n, status := 0, ReadEof;
      }
      if status == ReadError {
        return writes, ReadFailed;
      }
      if n == 0 {
        err := if status == ReadEof then Eof else Nil;
        return;
      }
      if chunks[i].writeFails {
        return writes, WriteFailed;
      }
      assert Copy(chunks[i..]).writes == [buf[..n]] + Copy(chunks[i + 1..]).writes by {
        assert chunks[i..][1..] == chunks[i + 1..];
      }
      writes := writes + [buf[..n]];
      i := i + 1;
    }
  }

  /** serveFileStream (handlers/functions.go:210-217): io.EOF counts as success. */
  method ServeFileStream(bufferSize: nat, chunks: seq<Chunk>) returns (writes: seq<seq<byte>>, err: StreamErr)
    requires forall j :: 0 <= j < |chunks| ==> |chunks[j].data| <= bufferSize
    ensures writes == Copy(chunks).writes
    ensures err == if Copy(chunks).err == Eof then Nil else Copy(chunks).err
    ensures err != Eof
  {
    writes, err := BufferedCopy(bufferSize, chunks);
    if err == Eof {
      err := Nil;
    }
  }

  // ---------------------------------------------------------------------------
  // downloadHTTP

  /** What http.Get gives: its error, or a response with its status code, the
      declared Content-Length (-1 when unknown), the body, the error of
      io.Copy with the number of bytes it wrote before failing, and the error
      of closing the body. */
  datatype HttpResponse =
    | GetFailed(getError: string)
    | Response(statusCode: int, contentLength: int, body: seq<byte>, copyError: Option<string>,
                copiedBeforeError: nat, closeError: Option<string>)

  /** A successful status, section 15.3 of RFC 9110. */
  predicate IsSuccess(code: int) {
    200 <= code <= 299
  }

  const FileTooLarge := "File too large"

  /** io.LimitReader(body, n) read to the end; no limit reads all of it. */
  function Limited(body: seq<byte>, limit: Option<int>): (r: seq<byte>)
    ensures r <= body
    ensures limit.None? ==> r == body
    ensures limit.Some? && limit.value <= 0 ==> r == []
    ensures limit.Some? && 0 <= limit.value ==> |r| == if limit.value < |body| then limit.value else |body|
  {
    match limit
    case None => body
    case Some(n) => if n <= 0 then [] else if n < |body| then body[..n] else body
  }

  /** The first n bytes of s, or all of s when it is shorter. */
  function Truncated(s: seq<byte>, n: nat): (r: seq<byte>)
    ensures r <= s && |r| == if n < |s| then n else |s|
  {
    if n < |s| then s[..n] else s
  }

  /** downloadHTTP's answer: the returned status and error and the bytes it
      appended to the storage file (None when nothing was copied). */
  datatype DownloadOutcome = DownloadOutcome(status: int, err: Option<string>, copied: Option<seq<byte>>)

  /** downloadHTTP (handlers/functions.go:145-184); `limit` is the user's
      MaxURLcontentSize when HasUploadLimit holds. */
  function Downloaded(limit: Option<int>, res: HttpResponse): DownloadOutcome
  {
    match res
    case GetFailed(e) => DownloadOutcome(0, Some(e), None)
    case Response(code, length, body, copyError, partial, closeError) =>
      if !IsSuccess(code) then DownloadOutcome(code, None, None)
      else if limit.Some? && length > limit.value then DownloadOutcome(code, Some(FileTooLarge), None)
      else if copyError.Some? then DownloadOutcome(0, copyError, Some(Truncated(Limited(body, limit), partial)))
      else if closeError.Some? then DownloadOutcome(0, closeError, Some(Limited(body, limit)))
      else DownloadOutcome(code, None, Some(Limited(body, limit)))
  }

  /** The decisions of downloadHTTP: a non-2xx status is returned with no error
      and no body read; a declared length over the limit is "File too large"
      with nothing read; a failing io.Copy leaves a prefix of the (limited)
      body in the file; a successful download copies the whole limited body,
      and only then is the status a 2xx one with no error. */
  lemma DownloadSpec(limit: Option<int>, res: HttpResponse)
    ensures res.Response? && !IsSuccess(res.statusCode) ==>
              Downloaded(limit, res) == DownloadOutcome(res.statusCode, None, None)
    ensures res.Response? && IsSuccess(res.statusCode) && limit.Some? && res.contentLength > limit.value ==>
              Downloaded(limit, res) == DownloadOutcome(res.statusCode, Some(FileTooLarge), None)
    ensures Downloaded(limit, res).err.None? && IsSuccess(Downloaded(limit, res).status) ==>
              res.Response? && Downloaded(limit, res).copied == Some(Limited(res.body, limit))
    ensures Downloaded(limit, res).err.None? && res.Response? && IsSuccess(res.statusCode) ==>
              IsSuccess(Downloaded(limit, res).status)
    ensures res.Response? && IsSuccess(res.statusCode) && !(limit.Some? && res.contentLength > limit.value) &&
            res.copyError.Some? ==>
              Downloaded(limit, res).err == res.copyError && Downloaded(limit, res).copied.Some? &&
              Downloaded(limit, res).copied.value <= Limited(res.body, limit)
    ensures limit.Some? && Downloaded(limit, res).copied.Some? ==>
              |Downloaded(limit, res).copied.value| <= if limit.value < 0 then 0 else limit.value
  {
  }

  function Appended(blobs: map<string, seq<byte>>, key: string, data: Option<seq<byte>>): map<string, seq<byte>>
    requires key in blobs
  {
    match data
    case None => blobs
    case Some(d) => blobs[key := blobs[key] + d]
  }

  /** downloadHTTP itself: the body goes into the open storage file `key`, and
      FileSize is set to the bytes copied when the download succeeds. */
  method DownloadHttp(limit: Option<int>, res: HttpResponse, disk: Disk, key: string, file: File)
    returns (status: int, err: Option<string>)
    requires key in disk.blobs
    modifies disk, file`fileSize
    ensures status == Downloaded(limit, res).status && err == Downloaded(limit, res).err
    ensures disk.blobs == Appended(old(disk.blobs), key, Downloaded(limit, res).copied)
    ensures file.fileSize == if err.None? && Downloaded(limit, res).copied.Some?
                             then |Downloaded(limit, res).copied.value| else old(file.fileSize)
  {
    if res.GetFailed? {
      return 0, Some(res.getError);
    }
    if !IsSuccess(res.statusCode) {
      return res.statusCode, None;
    }
    if limit.Some? && res.contentLength > limit.value {
      return res.statusCode, Some(FileTooLarge);
    }
    var reader := Limited(res.body, limit);
    if res.copyError.Some? {
      var _, _ := disk.Write(key, Truncated(reader, res.copiedBeforeError), false);
      return 0, res.copyError;
    }
    var size, _ := disk.Write(key, reader, false);
    if res.closeError.Some? {
      return 0, res.closeError;
    }
    file.fileSize := size;
    return res.statusCode, None;
  }
}
