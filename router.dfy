/** The route `match` of `handle_request` and the handlers behind it. The
    routing key is the first path segment; the request method and version
    are never looked at. Where the source indexes past the end of a list or
    unwraps a missing value, the connection's thread panics and nothing is
    written: the model returns `Panicked` with the cause. The command line
    is the argument vector `args` (`std::env::args`), and the file system is
    `files`, a map from a path to the text of a file that opens and reads. */
module Router {
  import opened Wrappers
  import opened Text
  import opened Response
  import opened Request

  /** Where the source panics instead of answering. */
  datatype Panic =
    | NoRouteSegment       // `path_parts[0]` on an empty list
    | NoSecondSegment      // `path_parts[1]` in `echo` or `file`
    | NoUserAgent          // `unwrap()` of a failed `User-Agent` lookup
    | NoDirectoryArgument  // `argv[2]` with fewer than three arguments
    | ParseFailed(failure: ParseFailure)  // `parse_request(..).unwrap()`

  /** What the connection gets: the response text, or a panic and no reply. */
  datatype Reply = Sent(response: string) | Panicked(cause: Panic)

  /** `iter().find(|h| h.key == key)`: the first header whose key is
      exactly `key` (case-sensitive), or nothing when no key matches. */
  function FindHeader(headers: seq<Header>, key: string): (r: Option<Header>)
    ensures r.None? <==> forall i :: 0 <= i < |headers| ==> headers[i].key != key
    ensures r.Some? ==>
              exists i :: 0 <= i < |headers| && headers[i] == r.value && r.value.key == key &&
                forall j :: 0 <= j < i ==> headers[j].key != key
  {
    if headers == [] then None
    else if headers[0].key == key then Some(headers[0])
    else
      var r := FindHeader(headers[1..], key);
      assert forall i :: 0 <= i < |headers[1..]| ==> headers[1..][i] == headers[i + 1];
      if r.Some? then
        var i :| 0 <= i < |headers[1..]| && headers[1..][i] == r.value && r.value.key == key &&
                forall j :: 0 <= j < i ==> headers[1..][j].key != key;
        assert headers[i + 1] == r.value;
        assert forall j :: 0 <= j < i + 1 ==> headers[j].key != key;
        r
      else r
  }

  /** The two headers `echo` and `user_agent` send with a text body: the
      content type and the body's length in UTF-8 bytes, in decimal. */
  function TextFields(body: string): (fields: seq<Field>)
    ensures |fields| == 2 && fields[0] == ("Content-Type", "text/plain") && fields[1].0 == "Content-Length"
    ensures forall k :: 0 <= k < |fields[1].1| ==> IsDigit(fields[1].1[k])
    ensures DecimalValue(fields[1].1) == Utf8Len(body)
  {
    DecimalRoundTrip(Utf8Len(body));
    [("Content-Type", "text/plain"), ("Content-Length", NatToDecimal(Utf8Len(body)))]
  }

  /** `echo`: answers 200 with the second path segment as a plain-text
      body; panics when there is no second segment. */
  function Echo(request: RawHttpRequest): (r: Reply)
    ensures r.Panicked? <==> |request.pathParts| < 2
    ensures r.Panicked? ==> r.cause == NoSecondSegment
    ensures r.Sent? ==> StartsWith(r.response, StatusLine(StatusCode.Ok))
  {
    if |request.pathParts| < 2 then Panicked(NoSecondSegment)
    else
      var segment := request.pathParts[1];
      Sent(ConstructResponse(StatusCode.Ok, Some(TextFields(segment)), Some(segment)))
  }

  /** `user_agent`: answers 200 with the value of the first header keyed
      exactly `User-Agent` as a plain-text body; panics when there is none. */
  function UserAgent(request: RawHttpRequest): (r: Reply)
    ensures r.Panicked? <==> forall i :: 0 <= i < |request.headers| ==> request.headers[i].key != "User-Agent"
    ensures r.Panicked? ==> r.cause == NoUserAgent
    ensures r.Sent? ==> StartsWith(r.response, StatusLine(StatusCode.Ok))
  {
    match FindHeader(request.headers, "User-Agent")
    case None => Panicked(NoUserAgent)
    case Some(h) => Sent(ConstructResponse(StatusCode.Ok, Some(TextFields(h.value)), Some(h.value)))
  }

  /** `file`: the path is the third program argument followed directly by
      the second path segment. A file that opens is sent back with 200 as
      an octet stream; otherwise 404 with no headers and no body. */
  function File(request: RawHttpRequest, args: seq<string>, files: map<string, string>): (r: Reply)
    ensures r.Panicked? <==> |request.pathParts| < 2 || |args| < 3
    ensures r.Panicked? ==> r.cause == (if |request.pathParts| < 2 then NoSecondSegment else NoDirectoryArgument)
    ensures r.Sent? ==>
              var path := args[2] + request.pathParts[1];
              StartsWith(r.response, StatusLine(if path in files then StatusCode.Ok else StatusCode.NotFound))
  {
    if |request.pathParts| < 2 then Panicked(NoSecondSegment)
    else
      var fileName := request.pathParts[1];
      if |args| < 3 then Panicked(NoDirectoryArgument)
      else
        var dir := args[2];
        var path := dir + fileName;
        if path in files then
          var body := files[path];
          Sent(ConstructResponse(
            StatusCode.Ok,
            Some([("Content-Type", "application/octet-stream"), ("Content-Length", NatToDecimal(Utf8Len(body)))]),
            Some(body)))
        else
          Sent(ConstructResponse(StatusCode.NotFound, None, None))
  }

  /** The route `match` on the first path segment. It panics only when
      there is no segment at all or a handler does; every reply starts with
      a 200 or a 404 status line. */
  function Route(request: RawHttpRequest, args: seq<string>, files: map<string, string>): (r: Reply)
    ensures r == Panicked(NoRouteSegment) <==> request.pathParts == []
    ensures r.Sent? ==>
              StartsWith(r.response, StatusLine(StatusCode.Ok)) || StartsWith(r.response, StatusLine(StatusCode.NotFound))
  {
    if |request.pathParts| == 0 then Panicked(NoRouteSegment)
    else
      match request.pathParts[0]
      case "echo" => Echo(request)
      case "user-agent" => UserAgent(request)
      case "files" => File(request, args, files)
      case "" => Sent(ConstructResponse(StatusCode.Ok, None, None))
      case _ => Sent(ConstructResponse(StatusCode.NotFound, None, None))
  }

  /** What one connection gets for the lines it sends: the parse result is
      unwrapped, so a request line short of tokens or a panic in the header
      loop ends the thread before any routing; otherwise the route decides. */
  function Respond(lines: seq<string>, args: seq<string>, files: map<string, string>): (r: Reply)
    ensures (r.Panicked? && r.cause.ParseFailed?) <==> Parse(lines).Err?
    ensures r.Panicked? && r.cause.ParseFailed? ==> r.cause.failure == Parse(lines).error
    ensures r == Panicked(NoRouteSegment) <==> Parse(lines).Ok? && Parse(lines).value.pathParts == []
    ensures r.Sent? ==>
              StartsWith(r.response, StatusLine(StatusCode.Ok)) || StartsWith(r.response, StatusLine(StatusCode.NotFound))
  {
    match Parse(lines)
    case Err(e) => Panicked(ParseFailed(e))
    case Ok(request) => Route(request, args, files)
  }

  /** `handle_request` up to the write: parse, unwrap, route. */
  method HandleRequest(lines: seq<string>, args: seq<string>, files: map<string, string>) returns (reply: Reply)
    ensures reply == Respond(lines, args, files)
  {
    var parsed := ParseRequest(lines);
    if parsed.Err? {
      return Panicked(ParseFailed(parsed.error));
    }
    var request := parsed.value;
    reply := Route(request, args, files);
  }

  /** A target without any '/' leaves no path segment, so the route match
      panics on it. */
  lemma TargetWithoutSlash(lines: seq<string>, args: seq<string>, files: map<string, string>)
    requires Parse(lines).Ok? && '/' !in Parse(lines).value.path
    ensures Respond(lines, args, files) == Panicked(NoRouteSegment)
  {
    ParseResult(lines);
    OccurrencesAbsent(Parse(lines).value.path, '/');
  }

  // ---------------------------------------------------------------------
  // The route table and the handlers on the wire

  /** The root route answers 200 with no header fields; because the header
      text is a lone CRLF, a client finds the two bytes CRLF where the body
      starts. */
  lemma RootRoute(request: RawHttpRequest, args: seq<string>, files: map<string, string>)
    requires |request.pathParts| > 0 && request.pathParts[0] == ""
    ensures Route(request, args, files) == Sent(StatusLine(StatusCode.Ok) + "\r\n\r\n")
    ensures AfterHead(Route(request, args, files).response) == Some("\r\n")
  {
    ResponseWithoutHeaders(StatusCode.Ok, None);
    assert "\r\n" + None.GetOr("") == "\r\n";
  }

  /** Any first segment other than `echo`, `user-agent`, `files` and the
      empty one gets 404 with no header fields. */
  lemma UnknownRoute(request: RawHttpRequest, args: seq<string>, files: map<string, string>)
    requires |request.pathParts| > 0
    requires request.pathParts[0] != "echo" && request.pathParts[0] != "user-agent"
    requires request.pathParts[0] != "files" && request.pathParts[0] != ""
    ensures Route(request, args, files) == Sent(StatusLine(StatusCode.NotFound) + "\r\n\r\n")
  {
    ResponseWithoutHeaders(StatusCode.NotFound, None);
  }

  /** Routing looks at nothing but the path segments and headers: the
      method, the version and the raw target string play no part. */
  lemma RouteIgnoresMethod(request: RawHttpRequest, args: seq<string>, files: map<string, string>,
                           httpMethod: string, version: string, path: string)
    ensures Route(request, args, files)
            == Route(request.(httpMethod := httpMethod, version := version, path := path), args, files)
  {
  }

  /** A decimal length field holds no CR, so the plain-text fields are plain. */
  lemma TextFieldsPlain(body: string)
    ensures PlainFields(TextFields(body))
  {
    var digits := NatToDecimal(Utf8Len(body));
    assert forall i :: 0 <= i < |digits| ==> IsDigit(digits[i]);
    assert '\r' !in digits;
  }

  /** A plain-text reply on the wire: status 200, `Content-Type:
      text/plain`, `Content-Length` whose decimal value is the body's UTF-8
      length, an empty line, and the body, which is exactly what a client
      reads after the head. */
  lemma TextReply(body: string)
    ensures var r := ConstructResponse(StatusCode.Ok, Some(TextFields(body)), Some(body));
            && r == StatusLine(StatusCode.Ok)
                    + FieldLine(("Content-Type", "text/plain")) + "\r\n"
                    + FieldLine(("Content-Length", NatToDecimal(Utf8Len(body)))) + "\r\n"
                    + "\r\n" + body
            && AfterHead(r) == Some(body)
    ensures DecimalValue(NatToDecimal(Utf8Len(body))) == Utf8Len(body)
  {
    var fields := TextFields(body);
    var length := NatToDecimal(Utf8Len(body));
    ResponseWithTwoFields(StatusCode.Ok, fields[0], fields[1], body);
    TextFieldsPlain(body);
    DecimalRoundTrip(Utf8Len(body));
  }

  /** `/echo/<s>` answers 200 with body `s` and a `Content-Length` equal to
      the byte length of `s`. */
  lemma EchoRoute(request: RawHttpRequest, args: seq<string>, files: map<string, string>)
    requires |request.pathParts| >= 2 && request.pathParts[0] == "echo"
    ensures var s := request.pathParts[1];
            && Route(request, args, files).Sent?
            && AfterHead(Route(request, args, files).response) == Some(s)
            && Route(request, args, files).response
               == StatusLine(StatusCode.Ok)
                  + FieldLine(("Content-Type", "text/plain")) + "\r\n"
                  + FieldLine(("Content-Length", NatToDecimal(Utf8Len(s)))) + "\r\n"
                  + "\r\n" + s
  {
    TextReply(request.pathParts[1]);
  }

  /** `/user-agent` answers with the value of the first `User-Agent`
      header, compared case-sensitively, as the body; without one it panics. */
  lemma UserAgentRoute(request: RawHttpRequest, args: seq<string>, files: map<string, string>, i: nat)
    requires |request.pathParts| >= 1 && request.pathParts[0] == "user-agent"
    requires i < |request.headers| && request.headers[i].key == "User-Agent"
    requires forall j :: 0 <= j < i ==> request.headers[j].key != "User-Agent"
    ensures var v := request.headers[i].value;
            && Route(request, args, files).Sent?
            && AfterHead(Route(request, args, files).response) == Some(v)
            && Route(request, args, files).response
               == StatusLine(StatusCode.Ok)
                  + FieldLine(("Content-Type", "text/plain")) + "\r\n"
                  + FieldLine(("Content-Length", NatToDecimal(Utf8Len(v)))) + "\r\n"
                  + "\r\n" + v
  {
    var h := FindHeader(request.headers, "User-Agent");
    var k :| 0 <= k < |request.headers| && request.headers[k] == h.value && h.value.key == "User-Agent" &&
             forall j :: 0 <= j < k ==> request.headers[j].key != "User-Agent";
    assert k == i;
    TextReply(request.headers[i].value);
  }

  /** `/files/<name>` reads `args[2] + name`: a stored file comes back with
      200, its length and its text as body; a missing one gets 404 and,
      like every headerless reply, a stray CRLF after the head. */
  lemma FilesRoute(request: RawHttpRequest, args: seq<string>, files: map<string, string>)
    requires |request.pathParts| >= 2 && request.pathParts[0] == "files" && |args| >= 3
    ensures var path := args[2] + request.pathParts[1];
            var r := Route(request, args, files);
            && r.Sent?
            && (path in files ==>
                  && AfterHead(r.response) == Some(files[path])
                  && r.response == StatusLine(StatusCode.Ok)
                                   + FieldLine(("Content-Type", "application/octet-stream")) + "\r\n"
                                   + FieldLine(("Content-Length", NatToDecimal(Utf8Len(files[path])))) + "\r\n"
                                   + "\r\n" + files[path])
            && (path !in files ==>
                  && r.response == StatusLine(StatusCode.NotFound) + "\r\n\r\n"
                  && AfterHead(r.response) == Some("\r\n"))
  {
    var path := args[2] + request.pathParts[1];
    if path in files {
      var body := files[path];
      var fields := [("Content-Type", "application/octet-stream"), ("Content-Length", NatToDecimal(Utf8Len(body)))];
      var digits := NatToDecimal(Utf8Len(body));
      assert forall i :: 0 <= i < |digits| ==> IsDigit(digits[i]);
      assert '\r' !in digits;
      assert PlainFields(fields);
      ResponseWithTwoFields(StatusCode.Ok, fields[0], fields[1], body);
    } else {
      ResponseWithoutHeaders(StatusCode.NotFound, None);
      assert "\r\n" + None.GetOr("") == "\r\n";
    }
  }
}
