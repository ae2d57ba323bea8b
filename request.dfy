/** The request parser. The connection's reader is replaced by the sequence
    of lines `read_line` would return, each still carrying its line break;
    reading past the last line yields the empty string, as `read_line` does
    at end of stream. The request line is split into method, target and
    version (RFC 9112 section 3), header lines are collected up to the first
    line that starts with CRLF (section 5), and the target is split into
    path segments. */
module Request {
  import opened Wrappers
  import opened Text

  datatype Header = Header(key: string, value: string)

  datatype RawHttpRequest = RawHttpRequest(
    httpMethod: string,
    path: string,
    pathParts: seq<string>,
    version: string,
    headers: seq<Header>,
    body: string)

  /** Why parsing stops. `InvalidRequestLine` is the error the parser
      returns; `IndexPanic(n)` is the out-of-bounds index on the token list
      of line `n` (an end-of-stream line or one with fewer than two tokens),
      which in the source panics and ends the connection's thread. */
  datatype ParseFailure = InvalidRequestLine | IndexPanic(line: nat)

  /** What `read_line` leaves in a fresh buffer for line `i`. */
  function Line(lines: seq<string>, i: nat): string {
    if i < |lines| then lines[i] else ""
  }

  /** The loop's stop test: the line starts with CRLF. */
  predicate IsBlankLine(line: string) {
    StartsWith(line, "\r\n")
  }

  /** One header line: the key is the first token with every ':' removed,
      the value is the second token alone; any later tokens are dropped. */
  function HeaderOf(line: string): (h: Header)
    requires |Words(line)| >= 2
    ensures ':' !in h.key
    ensures h.value != [] && NoWhitespace(h.value)
  {
    var parts := Words(line);
    WordsAreTokens(line);
    Header(RemoveAll(parts[0], ':'), parts[1])
  }

  /** Headers gathered so far, put in front of what the rest of the loop
      yields; a panic stays a panic. */
  function Prepend(done: seq<Header>, rest: Result<seq<Header>, ParseFailure>): Result<seq<Header>, ParseFailure> {
    match rest
    case Ok(hs) => Ok(done + hs)
    case Err(e) => Err(e)
  }

  lemma PrependTwice(a: seq<Header>, b: seq<Header>, rest: Result<seq<Header>, ParseFailure>)
    ensures Prepend(a, Prepend(b, rest)) == Prepend(a + b, rest)
  {
    if rest.Ok? {
      assert a + (b + rest.value) == (a + b) + rest.value;
    }
  }

  /** `h` is what the loop makes of header line `line`. */
  predicate ParsedFrom(h: Header, line: string) {
    |Words(line)| >= 2 && h == HeaderOf(line)
  }

  /** The header loop from line `i` on, as a recursive definition: the
      headers up to the first blank line, or the panic of the first line
      before it that has fewer than two tokens. */
  function CollectHeaders(lines: seq<string>, i: nat): Result<seq<Header>, ParseFailure>
    decreases |lines| - i
  {
    var line := Line(lines, i);
    if IsBlankLine(line) then Ok([])
    else if |Words(line)| < 2 then Err(IndexPanic(i))
    else
      Prepend([HeaderOf(line)], CollectHeaders(lines, i + 1))
  }

  /** One turn of the header loop on a line with two or more tokens. */
  lemma CollectHeadersStep(lines: seq<string>, i: nat)
    requires i < |lines| && !IsBlankLine(lines[i]) && |Words(lines[i])| >= 2
    ensures CollectHeaders(lines, i) == Prepend([HeaderOf(lines[i])], CollectHeaders(lines, i + 1))
  {
  }

  /** `split("/")` followed by `remove(0)`: the target's pieces without the
      one in front of the first '/'. There is one segment per '/'. */
  function PathParts(target: string): (parts: seq<string>)
    ensures |parts| == Occurrences(target, '/')
  {
    Split(target, '/')[1..]
  }

  /** `parse_request` as a function of the lines read. */
  function Parse(lines: seq<string>): (r: Result<RawHttpRequest, ParseFailure>)
    ensures r.Ok? ==> r.value.body == "" && |r.value.pathParts| == Occurrences(r.value.path, '/')
  {
    var requestLineParts := Words(Line(lines, 0));
    if |requestLineParts| < 3 then Err(InvalidRequestLine)
    else
      match CollectHeaders(lines, 1)
      case Err(e) => Err(e)
      case Ok(headers) =>
        Ok(RawHttpRequest(
          requestLineParts[0],
          requestLineParts[1],
          PathParts(requestLineParts[1]),
          requestLineParts[2],
          headers,
          ""))
  }


  /** `parse_request`: reads the request line, then header lines one at a
      time into a growing list until a line starting with CRLF, then splits
      the target. */
  method ParseRequest(lines: seq<string>) returns (r: Result<RawHttpRequest, ParseFailure>)
    ensures r == Parse(lines)
  {
    var requestLine := if 0 < |lines| then lines[0] else "";
    var requestLineParts := Words(requestLine);
    if |requestLineParts| < 3 {
      return Err(InvalidRequestLine);
    }
    assert requestLine == Line(lines, 0);
    var headers: seq<Header> := [];
    var i := 1;
    assert Prepend(headers, CollectHeaders(lines, i)) == CollectHeaders(lines, 1) by {
      var all := CollectHeaders(lines, 1);
      if all.Ok? {
        assert headers + all.value == all.value;
      }
    }
    while true
      invariant 1 <= i <= |lines| + 1
      invariant Prepend(headers, CollectHeaders(lines, i)) == CollectHeaders(lines, 1)
      decreases |lines| + 1 - i
    {
      var line := if i < |lines| then lines[i] else "";
      assert Line(lines, i) == line;
      if StartsWith(line, "\r\n") {
        break;
      }
      var headerParts := Words(line);
      if |headerParts| < 2 {
        return Err(IndexPanic(i));
      }
      PrependTwice(headers, [Header(RemoveAll(headerParts[0], ':'), headerParts[1])], CollectHeaders(lines, i + 1));
      headers := headers + [Header(RemoveAll(headerParts[0], ':'), headerParts[1])];
      i := i + 1;
    }
    assert headers + [] == headers;
    assert CollectHeaders(lines, 1) == Ok(headers);
    var pathParts := Split(requestLineParts[1], '/');
    pathParts := pathParts[1..];
    assert pathParts == PathParts(requestLineParts[1]);
    r := Ok(RawHttpRequest(
      requestLineParts[0],
      requestLineParts[1],
      pathParts,
      requestLineParts[2],
      headers,
      ""));
  }

  // ---------------------------------------------------------------------
  // What the parser promises

  /** Index of the first blank line at or after `i`, or `|lines|` when the
      stream ends first. */
  function Terminator(lines: seq<string>, i: nat): (t: nat)
    ensures t <= |lines|
    ensures i <= |lines| ==> i <= t
    ensures t < |lines| ==> i <= t && IsBlankLine(lines[t])
    ensures forall j :: i <= j < t ==> !IsBlankLine(lines[j])
    decreases |lines| - i
  {
    if i >= |lines| then |lines|
    else if IsBlankLine(lines[i]) then i
    else Terminator(lines, i + 1)
  }

  /** The header loop succeeds exactly when a blank line arrives and every
      line before it has at least two tokens. */
  lemma {:induction false} CollectHeadersOk(lines: seq<string>, i: nat)
    requires i <= |lines|
    ensures CollectHeaders(lines, i).Ok? <==>
              && Terminator(lines, i) < |lines|
              && forall j :: i <= j < Terminator(lines, i) ==> |Words(lines[j])| >= 2
    decreases |lines| - i
  {
    var t := Terminator(lines, i);
    if i == |lines| {
      assert Line(lines, i) == "";
    } else if IsBlankLine(lines[i]) {
      assert t == i;
    } else if |Words(lines[i])| < 2 {
      assert i < t;
    } else {
      CollectHeadersOk(lines, i + 1);
      assert t == Terminator(lines, i + 1);
      var r := CollectHeaders(lines, i + 1);
      assert CollectHeaders(lines, i) == Prepend([HeaderOf(lines[i])], r);
      if !r.Ok? && t < |lines| {
        var j :| i + 1 <= j < t && |Words(lines[j])| < 2;
      }
    }
  }

  /** When it succeeds it yields one header per line before the blank
      line, in the order received. */
  lemma {:induction false} CollectHeadersValue(lines: seq<string>, i: nat)
    requires i <= |lines|
    requires CollectHeaders(lines, i).Ok?
    ensures var hs := CollectHeaders(lines, i).value;
            && |hs| == Terminator(lines, i) - i
            && forall k :: 0 <= k < |hs| ==> ParsedFrom(hs[k], lines[i + k])
    decreases |lines| - i
  {
    if i < |lines| && !IsBlankLine(lines[i]) {
      assert |Words(lines[i])| >= 2;
      CollectHeadersStep(lines, i);
      var r := CollectHeaders(lines, i + 1).value;
      var hs := [HeaderOf(lines[i])] + r;
      assert CollectHeaders(lines, i) == Result.Ok(hs);
      CollectHeadersValue(lines, i + 1);
      assert Terminator(lines, i) == Terminator(lines, i + 1);
      forall k | 0 <= k < |hs|
        ensures ParsedFrom(hs[k], lines[i + k])
      {
        if k > 0 {
          assert hs[k] == r[k - 1];
          assert lines[i + k] == lines[(i + 1) + (k - 1)];
        }
      }
    }
  }

  /** Otherwise the loop panics on the first line before the blank one
      that is short of tokens, or at the end of the stream when no blank
      line arrives; never on the blank line itself. */
  lemma {:induction false} CollectHeadersPanics(lines: seq<string>, i: nat)
    requires i <= |lines|
    ensures CollectHeaders(lines, i).Err? ==>
              var n := CollectHeaders(lines, i).error;
              && n.IndexPanic?
              && i <= n.line <= Terminator(lines, i)
              && (n.line < Terminator(lines, i) || Terminator(lines, i) == |lines|)
              && |Words(Line(lines, n.line))| < 2
              && forall j :: i <= j < n.line ==> |Words(lines[j])| >= 2
    decreases |lines| - i
  {
    if i == |lines| {
      assert Line(lines, i) == "";
    } else if !IsBlankLine(lines[i]) && |Words(lines[i])| >= 2 {
      CollectHeadersPanics(lines, i + 1);
    }
  }

  /** `parse_request` fails with its error exactly when the request line
      has fewer than three whitespace-separated tokens; no header line can
      produce that error. */
  lemma ParseRejectsShortRequestLine(lines: seq<string>)
    ensures Parse(lines) == Err(InvalidRequestLine) <==> |Words(Line(lines, 0))| < 3
  {
    if |Words(Line(lines, 0))| >= 3 {
      CollectHeadersPanics(lines, 1);
    }
  }

  /** On success, method, target and version are the first three tokens of
      the request line (later tokens ignored), the path segments are the
      target split on '/' without the first piece, the headers are those
      of the header lines before the first blank line, and the body is
      empty. */
  lemma ParseResult(lines: seq<string>)
    requires Parse(lines).Ok?
    ensures var req := Parse(lines).value;
            var parts := Words(Line(lines, 0));
            && |parts| >= 3
            && req.httpMethod == parts[0] && req.path == parts[1] && req.version == parts[2]
            && req.pathParts == Split(req.path, '/')[1..]
            && req.body == ""
    ensures var req := Parse(lines).value;
            var t := Terminator(lines, 1);
            && t < |lines|
            && |req.headers| == t - 1
            && forall k :: 0 <= k < |req.headers| ==> ParsedFrom(req.headers[k], lines[1 + k])
  {
    CollectHeadersOk(lines, 1);
    CollectHeadersValue(lines, 1);
  }

  /** For a target that starts with '/', the path segments joined with '/'
      give back the target without its leading '/'. */
  lemma PathPartsRejoin(target: string)
    requires StartsWith(target, "/")
    ensures JoinWith(PathParts(target), "/") == target[1..]
  {
    assert target == [] + ['/'] + target[1..];
    SplitAfterPiece([], '/', target[1..]);
    assert PathParts(target) == Split(target[1..], '/');
    JoinOfSplit(target[1..], '/');
  }

  /** Conversely, a target built as '/' followed by '/'-free segments is
      split back into exactly those segments. */
  lemma PathPartsOfSegments(segments: seq<string>)
    requires |segments| >= 1
    requires forall i :: 0 <= i < |segments| ==> '/' !in segments[i]
    ensures PathParts("/" + JoinWith(segments, "/")) == segments
  {
    var target := "/" + JoinWith(segments, "/");
    assert target == [] + ['/'] + JoinWith(segments, "/");
    SplitAfterPiece([], '/', JoinWith(segments, "/"));
    SplitOfJoin(segments, '/');
  }
}
