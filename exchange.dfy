/** Whole exchanges: request lines as a client sends them, parsed and
    routed, and the field-line format shared by the parser and the
    serialiser. */
module Exchange {
  import opened Wrappers
  import opened Text
  import opened Response
  import opened Request
  import opened Router

  /** A field the parser reads back intact: name and value are single
      tokens and the name has no colon. */
  predicate WellFormedField(h: Field) {
    && h.0 != [] && NoWhitespace(h.0) && ':' !in h.0
    && h.1 != [] && NoWhitespace(h.1)
  }

  /** The serialiser's field line for `h`, with its CRLF, as a client would
      send it. */
  function SentLine(h: Field): string {
    FieldLine(h) + "\r\n"
  }

  /** A token followed by CRLF is that one token. */
  lemma WordsWithLineBreak(s: string)
    ensures Words(s + "\r\n") == Words(s)
  {
    assert s + "\r\n" == s + ['\r'] + "\n";
    WordsSplitAt(s, '\r', "\n");
    assert Words("\n") == Words("");
  }

  lemma SentLineShape(k: string, v: string)
    ensures SentLine((k, v)) == (k + ":") + [' '] + (v + "\r\n")
  {
  }

  /** The field line `name: value` written by the serialiser is read back
      by the parser as the header it came from. */
  lemma FieldLineParsesBack(h: Field)
    requires WellFormedField(h)
    ensures |Words(SentLine(h))| >= 2
    ensures HeaderOf(SentLine(h)) == Header(h.0, h.1)
  {
    var (k, v) := h;
    assert Words(SentLine(h)) == [k + ":", v] by {
      SentLineShape(k, v);
      WordsSplitAt(k + ":", ' ', v + "\r\n");
      NoWhitespaceConcat(k, ":");
      WordsOfWord(k + ":");
      WordsWithLineBreak(v);
      WordsOfWord(v);
    }
    assert RemoveAll(k + ":", ':') == k by {
      RemoveAllAppend(k, ":", ':');
      RemoveAllAbsent(k, ':');
      assert RemoveAll(":", ':') == "";
    }
  }

  /** The lines a client sends: the request line, one line per field, and
      the empty line. */
  function RequestLines(requestLine: string, fields: seq<Field>): (lines: seq<string>)
    ensures |lines| == |fields| + 2
  {
    [requestLine] + seq(|fields|, i requires 0 <= i < |fields| => SentLine(fields[i])) + ["\r\n"]
  }

  function AsHeaders(fields: seq<Field>): seq<Header> {
    seq(|fields|, i requires 0 <= i < |fields| => Header(fields[i].0, fields[i].1))
  }

  lemma RequestLinesAt(requestLine: string, fields: seq<Field>, k: nat)
    ensures var lines := RequestLines(requestLine, fields);
            && lines[0] == requestLine
            && (k < |fields| ==> lines[1 + k] == SentLine(fields[k]))
            && lines[1 + |fields|] == "\r\n"
  {
  }

  lemma AsHeadersFrom(fields: seq<Field>, k: nat)
    requires k <= |fields|
    ensures k == |fields| ==> AsHeaders(fields)[k..] == []
    ensures k < |fields| ==>
              AsHeaders(fields)[k..] == [Header(fields[k].0, fields[k].1)] + AsHeaders(fields)[k + 1..]
  {
    if k < |fields| {
      var hs := AsHeaders(fields);
      assert hs[k..] == [hs[k]] + hs[k + 1..];
    }
  }

  lemma SentLineNotBlank(h: Field)
    requires WellFormedField(h)
    ensures !IsBlankLine(SentLine(h))
  {
    assert SentLine(h)[0] == h.0[0];
    assert !IsWhitespace(h.0[0]);
  }

  /** Header lines written in field-line form are all read back, in order,
      up to the empty line. */
  lemma {:induction false} HeaderLinesRoundTrip(requestLine: string, fields: seq<Field>, k: nat)
    requires k <= |fields|
    requires forall i :: 0 <= i < |fields| ==> WellFormedField(fields[i])
    ensures CollectHeaders(RequestLines(requestLine, fields), 1 + k) == Result.Ok(AsHeaders(fields)[k..])
    decreases |fields| - k
  {
    var lines := RequestLines(requestLine, fields);
    RequestLinesAt(requestLine, fields, k);
    AsHeadersFrom(fields, k);
    if k == |fields| {
      assert Line(lines, 1 + k) == "\r\n";
    } else {
      var h := fields[k];
      assert CollectHeaders(lines, 1 + k) == Prepend([Header(h.0, h.1)], CollectHeaders(lines, 2 + k)) by {
        FieldLineParsesBack(h);
        SentLineNotBlank(h);
        CollectHeadersStep(lines, 1 + k);
      }
      HeaderLinesRoundTrip(requestLine, fields, k + 1);
    }
  }

  /** The request target `/<segments joined by '/'>`. */
  function Target(segments: seq<string>): string {
    "/" + JoinWith(segments, "/")
  }

  /** The request line `<method> <target> <version>` and its CRLF. */
  function RequestLine(httpMethod: string, segments: seq<string>, version: string): string {
    httpMethod + " " + (Target(segments) + " " + (version + "\r\n"))
  }

  predicate Token(s: string) {
    s != [] && NoWhitespace(s)
  }

  lemma {:induction false} NoWhitespaceJoin(segments: seq<string>)
    requires forall i :: 0 <= i < |segments| ==> NoWhitespace(segments[i])
    ensures NoWhitespace(JoinWith(segments, "/"))
  {
    if |segments| > 1 {
      NoWhitespaceJoin(segments[1..]);
      assert NoWhitespace(segments[0]);
      NoWhitespaceConcat(segments[0], "/");
      NoWhitespaceConcat(segments[0] + "/", JoinWith(segments[1..], "/"));
    } else if |segments| == 1 {
      assert NoWhitespace(segments[0]);
    }
  }

  lemma TargetIsToken(segments: seq<string>)
    requires forall i :: 0 <= i < |segments| ==> NoWhitespace(segments[i])
    ensures Token(Target(segments))
  {
    NoWhitespaceJoin(segments);
    NoWhitespaceConcat("/", JoinWith(segments, "/"));
  }

  /** The request line splits into method, target and version. */
  lemma RequestLineWords(httpMethod: string, segments: seq<string>, version: string)
    requires Token(httpMethod) && Token(version)
    requires forall i :: 0 <= i < |segments| ==> NoWhitespace(segments[i])
    ensures Words(RequestLine(httpMethod, segments, version)) == [httpMethod, Target(segments), version]
  {
    var target := Target(segments);
    var tail := version + "\r\n";
    assert Words(tail) == [version] by {
      WordsWithLineBreak(version);
      WordsOfWord(version);
    }
    assert Words(target + [' '] + tail) == [target, version] by {
      WordsSplitAt(target, ' ', tail);
      TargetIsToken(segments);
      WordsOfWord(target);
    }
    assert Words(httpMethod + [' '] + (target + [' '] + tail)) == [httpMethod, target, version] by {
      WordsSplitAt(httpMethod, ' ', target + [' '] + tail);
      WordsOfWord(httpMethod);
    }
  }

  /** A well-formed request parses into its method, target, segments,
      version and headers, with an empty body. */
  lemma ParseWellFormed(httpMethod: string, segments: seq<string>, version: string, fields: seq<Field>)
    requires Token(httpMethod) && Token(version)
    requires |segments| >= 1
    requires forall i :: 0 <= i < |segments| ==> NoWhitespace(segments[i]) && '/' !in segments[i]
    requires forall i :: 0 <= i < |fields| ==> WellFormedField(fields[i])
    ensures var lines := RequestLines(RequestLine(httpMethod, segments, version), fields);
            Parse(lines) == Result.Ok(RawHttpRequest(
              httpMethod, Target(segments), segments, version, AsHeaders(fields), ""))
  {
    var requestLine := RequestLine(httpMethod, segments, version);
    var lines := RequestLines(requestLine, fields);
    RequestLineWords(httpMethod, segments, version);
    assert Line(lines, 0) == requestLine;
    HeaderLinesRoundTrip(requestLine, fields, 0);
    assert AsHeaders(fields)[0..] == AsHeaders(fields);
    PathPartsOfSegments(segments);
  }

  /** A literal segment followed by a caller's segment are both valid path
      segments. This only steers the solver: it restates the requires for the
      two-element list. */
  lemma SegmentsWith(literal: string, s: string)
    requires NoWhitespace(literal) && '/' !in literal
    requires NoWhitespace(s) && '/' !in s
    ensures var segments := [literal, s];
            forall i :: 0 <= i < |segments| ==> NoWhitespace(segments[i]) && '/' !in segments[i]
  {
  }

  /** Solver aid: the literal `echo` is a valid path segment. */
  lemma EchoIsSegment()
    ensures NoWhitespace("echo") && '/' !in "echo"
  {
    var e := "echo";
    assert e[0] == 'e' && e[1] == 'c' && e[2] == 'h' && e[3] == 'o';
  }

  /** Solver aid: the literal `user-agent` is a valid path segment. */
  lemma UserAgentIsSegment()
    ensures forall i :: 0 <= i < |["user-agent"]| ==> NoWhitespace(["user-agent"][i]) && '/' !in ["user-agent"][i]
  {
    var u := "user-agent";
    assert u == ['u', 's', 'e', 'r', '-', 'a', 'g', 'e', 'n', 't'];
  }

  /** Lines that parse into an echo request are answered with the
      plain-text reply for the second path segment. */
  lemma EchoReply(lines: seq<string>, request: RawHttpRequest, args: seq<string>, files: map<string, string>)
    requires Parse(lines) == Result.Ok(request)
    requires |request.pathParts| >= 2 && request.pathParts[0] == "echo"
    ensures && Parse(lines).Ok?
            && var reply := Route(Parse(lines).value, args, files);
            && reply.Sent?
            && StartsWith(reply.response, StatusLine(StatusCode.Ok))
            && AfterHead(reply.response) == Some(request.pathParts[1])
            && reply.response
               == StatusLine(StatusCode.Ok)
                  + FieldLine(("Content-Type", "text/plain")) + "\r\n"
                  + FieldLine(("Content-Length", NatToDecimal(Utf8Len(request.pathParts[1])))) + "\r\n"
                  + "\r\n" + request.pathParts[1]
  {
    EchoRoute(request, args, files);
  }

  /** `<method> /echo/<s> <version>` with any headers is answered with
      status 200, `Content-Type: text/plain`, a `Content-Length` field whose
      decimal value is the byte length of `s`, and body `s`. */
  lemma EchoExchange(httpMethod: string, s: string, version: string, fields: seq<Field>,
                     args: seq<string>, files: map<string, string>)
    requires Token(httpMethod) && Token(version)
    requires NoWhitespace(s) && '/' !in s
    requires forall i :: 0 <= i < |fields| ==> WellFormedField(fields[i])
    ensures var lines := RequestLines(RequestLine(httpMethod, ["echo", s], version), fields);
            && Parse(lines).Ok?
            && var reply := Route(Parse(lines).value, args, files);
            && reply.Sent?
            && StartsWith(reply.response, StatusLine(StatusCode.Ok))
            && AfterHead(reply.response) == Some(s)
            && reply.response
               == StatusLine(StatusCode.Ok)
                  + FieldLine(("Content-Type", "text/plain")) + "\r\n"
                  + FieldLine(("Content-Length", NatToDecimal(Utf8Len(s)))) + "\r\n"
                  + "\r\n" + s
            && DecimalValue(NatToDecimal(Utf8Len(s))) == Utf8Len(s)
  {
    var lines := RequestLines(RequestLine(httpMethod, ["echo", s], version), fields);
    EchoIsSegment();
    SegmentsWith("echo", s);
    ParseWellFormed(httpMethod, ["echo", s], version, fields);
    var request := RawHttpRequest(httpMethod, Target(["echo", s]), ["echo", s], version, AsHeaders(fields), "");
    EchoReply(lines, request, args, files);
    DecimalRoundTrip(Utf8Len(s));
  }

  /** Field `i` is the first whose name is `User-Agent` in the parsed
      headers too. */
  lemma FirstUserAgent(fields: seq<Field>, i: nat)
    requires i < |fields| && fields[i].0 == "User-Agent"
    requires forall j :: 0 <= j < i ==> fields[j].0 != "User-Agent"
    ensures var headers := AsHeaders(fields);
            && i < |headers| && headers[i].key == "User-Agent" && headers[i].value == fields[i].1
            && forall j :: 0 <= j < i ==> headers[j].key != "User-Agent"
  {
    var headers := AsHeaders(fields);
    forall j | 0 <= j < i
      ensures headers[j].key != "User-Agent"
    {
      assert headers[j].key == fields[j].0;
    }
  }

  /** Lines that parse into a user-agent request whose first `User-Agent`
      header is number `i` are answered with status 200 and that header's
      value as body. */
  lemma UserAgentReply(lines: seq<string>, request: RawHttpRequest, args: seq<string>,
                       files: map<string, string>, i: nat)
    requires Parse(lines) == Result.Ok(request)
    requires |request.pathParts| >= 1 && request.pathParts[0] == "user-agent"
    requires i < |request.headers| && request.headers[i].key == "User-Agent"
    requires forall j :: 0 <= j < i ==> request.headers[j].key != "User-Agent"
    ensures && Parse(lines).Ok?
            && var reply := Route(Parse(lines).value, args, files);
            && reply.Sent?
            && StartsWith(reply.response, StatusLine(StatusCode.Ok))
            && AfterHead(reply.response) == Some(request.headers[i].value)
            && reply.response
               == StatusLine(StatusCode.Ok)
                  + FieldLine(("Content-Type", "text/plain")) + "\r\n"
                  + FieldLine(("Content-Length", NatToDecimal(Utf8Len(request.headers[i].value)))) + "\r\n"
                  + "\r\n" + request.headers[i].value
  {
    UserAgentRoute(request, args, files, i);
  }

  /** `<method> /user-agent <version>` whose first `User-Agent` field is
      number `i` is answered with the plain-text reply for that field's value. */
  lemma UserAgentExchange(httpMethod: string, version: string, fields: seq<Field>, i: nat,
                          args: seq<string>, files: map<string, string>)
    requires Token(httpMethod) && Token(version)
    requires forall j :: 0 <= j < |fields| ==> WellFormedField(fields[j])
    requires i < |fields| && fields[i].0 == "User-Agent"
    requires forall j :: 0 <= j < i ==> fields[j].0 != "User-Agent"
    ensures var lines := RequestLines(RequestLine(httpMethod, ["user-agent"], version), fields);
            && Parse(lines).Ok?
            && var reply := Route(Parse(lines).value, args, files);
            && reply.Sent?
            && StartsWith(reply.response, StatusLine(StatusCode.Ok))
            && AfterHead(reply.response) == Some(fields[i].1)
            && reply.response
               == StatusLine(StatusCode.Ok)
                  + FieldLine(("Content-Type", "text/plain")) + "\r\n"
                  + FieldLine(("Content-Length", NatToDecimal(Utf8Len(fields[i].1)))) + "\r\n"
                  + "\r\n" + fields[i].1
  {
    var lines := RequestLines(RequestLine(httpMethod, ["user-agent"], version), fields);
    UserAgentIsSegment();
    ParseWellFormed(httpMethod, ["user-agent"], version, fields);
    var request := RawHttpRequest(httpMethod, Target(["user-agent"]), ["user-agent"], version, AsHeaders(fields), "");
    FirstUserAgent(fields, i);
    UserAgentReply(lines, request, args, files, i);
  }

  /** The same request without any `User-Agent` field makes the thread
      panic rather than answer. */
  lemma UserAgentMissing(httpMethod: string, version: string, fields: seq<Field>,
                         args: seq<string>, files: map<string, string>)
    requires Token(httpMethod) && Token(version)
    requires forall j :: 0 <= j < |fields| ==> WellFormedField(fields[j])
    requires forall j :: 0 <= j < |fields| ==> fields[j].0 != "User-Agent"
    ensures var lines := RequestLines(RequestLine(httpMethod, ["user-agent"], version), fields);
            && Parse(lines).Ok?
            && Route(Parse(lines).value, args, files) == Panicked(NoUserAgent)
  {
    UserAgentIsSegment();
    ParseWellFormed(httpMethod, ["user-agent"], version, fields);
    var request := Parse(RequestLines(RequestLine(httpMethod, ["user-agent"], version), fields)).value;
    assert request.headers == AsHeaders(fields);
  }
}
