/** The response serialiser: a status code, an optional list of header
    fields and an optional body become the text written to the socket. The
    lemmas state the wire format (RFC 9112 section 4 status line, section 5
    field lines, section 2.1 blank line before the body) and what a client
    that reads up to the first empty line then takes as the body. */
module Response {
  import opened Wrappers
  import opened Text

  /** The two statuses the server ever sends. */
  datatype StatusCode = Ok | NotFound

  /** `StatusCode::as_string`: the status code and reason phrase of the
      status line. Both are a three-digit code, a space and a phrase, with
      no line break inside, and different statuses give different text. */
  function AsString(code: StatusCode): (r: string)
    ensures code.Ok? ==> r == "200 OK"
    ensures code.NotFound? ==> r == "404 Not Found"
    ensures |r| > 4 && IsDigit(r[0]) && IsDigit(r[1]) && IsDigit(r[2]) && r[3] == ' '
    ensures '\r' !in r && '\n' !in r
  {
    match code
    case Ok => "200 OK"
    case NotFound => "404 Not Found"
  }

  /** `HTTP/1.1 <code> <reason>`: the status line without its terminator. */
  function StatusText(code: StatusCode): (r: string)
    ensures '\r' !in r
  {
    "HTTP/1.1 " + AsString(code)
  }

  /** The status line as it appears on the wire: one line, ended by its
      only CRLF. */
  function StatusLine(code: StatusCode): string {
    StatusText(code) + "\r\n"
  }

  lemma StatusLineIsOneLine(code: StatusCode)
    ensures var r := StatusLine(code);
            && StartsWith(r, "HTTP/1.1 ")
            && |r| >= 2 && r[|r| - 2..] == "\r\n" && '\r' !in r[..|r| - 2]
  {
    var r := StatusLine(code);
    assert r[..|r| - 2] == StatusText(code);
  }

  /** A header as the handlers hand it over: `(name, value)`. */
  type Field = (string, string)

  /** `format!("{}: {}", name, value)`. */
  function FieldLine(h: Field): (r: string)
    ensures |r| == |h.0| + 2 + |h.1|
    ensures '\r' !in h.0 && '\r' !in h.1 ==> '\r' !in r
  {
    h.0 + ": " + h.1
  }

  /** `construct_headers`: the field lines joined by CRLF, with one more
      CRLF after the last; nothing at all for an empty list. */
  function ConstructHeaders(headers: seq<Field>): (r: string)
    ensures r == "" <==> headers == []
  {
    if |headers| == 0 then ""
    else JoinWith(FieldLineList(headers), "\r\n") + "\r\n"
  }

  function FieldLineList(headers: seq<Field>): (lines: seq<string>)
    ensures |lines| == |headers|
    ensures forall i :: 0 <= i < |headers| ==> lines[i] == FieldLine(headers[i])
  {
    seq(|headers|, i requires 0 <= i < |headers| => FieldLine(headers[i]))
  }

  /** Reference rendering of a header section: each field as its own
      `name: value` line ended by CRLF, in the order given. */
  function FieldLines(headers: seq<Field>): string {
    if headers == [] then "" else FieldLine(headers[0]) + "\r\n" + FieldLines(headers[1..])
  }

  /** `construct_headers` renders exactly one CRLF-terminated line per
      field, in input order. */
  lemma {:induction false} ConstructHeadersIsFieldLines(headers: seq<Field>)
    ensures ConstructHeaders(headers) == FieldLines(headers)
  {
    if |headers| == 1 {
      assert headers[1..] == [];
    } else if |headers| > 1 {
      var lines := FieldLineList(headers);
      ConstructHeadersIsFieldLines(headers[1..]);
      assert lines[1..] == FieldLineList(headers[1..]);
      assert JoinWith(lines, "\r\n") == lines[0] + "\r\n" + JoinWith(lines[1..], "\r\n");
    }
  }

  /** `construct_response`: status line, then the rendered headers (a lone
      CRLF when there are none), a CRLF, then the body (empty when absent).
      The source wraps this in a `Result` that is always `Ok`; the model
      returns the text. It always starts with the status line and always
      ends with the body. */
  function ConstructResponse(code: StatusCode, headers: Option<seq<Field>>, body: Option<string>): (r: string)
    ensures StartsWith(r, StatusLine(code))
    ensures |r| >= |body.GetOr("")| && r[|r| - |body.GetOr("")|..] == body.GetOr("")
  {
    var status := StatusText(code);
    var headersStr := match headers
      case Some(hs) => ConstructHeaders(hs)
      case None => "\r\n";
    var b := match body
      case Some(b) => b
      case None => "";
    status + "\r\n" + headersStr + "\r\n" + b
  }

  // ---------------------------------------------------------------------
  // What a client reads as the body

  /** The text after the first empty line (`CRLF CRLF`), where an HTTP/1.1
      reader ends the head and starts the body; `None` when there is no
      empty line. */
  function AfterHead(s: string): Option<string>
    decreases |s|
  {
    if |s| < 4 then None
    else if s[..4] == "\r\n\r\n" then Some(s[4..])
    else AfterHead(s[1..])
  }

  lemma {:induction false} AfterHeadSkips(x: string, y: string)
    requires '\r' !in x
    ensures AfterHead(x + y) == AfterHead(y)
    decreases |x|
  {
    if x != [] {
      assert (x + y)[0] == x[0];
      assert (x + y)[1..] == x[1..] + y;
      AfterHeadSkips(x[1..], y);
    } else {
      assert x + y == y;
    }
  }

  lemma AfterHeadAtBlank(y: string)
    ensures AfterHead("\r\n\r\n" + y) == Some(y)
  {
    assert ("\r\n\r\n" + y)[..4] == "\r\n\r\n";
    assert ("\r\n\r\n" + y)[4..] == y;
  }

  lemma AfterHeadLineBreak(y: string)
    requires y != [] && y[0] != '\r'
    ensures AfterHead("\r\n" + y) == AfterHead(y)
  {
    var s := "\r\n" + y;
    if |s| >= 4 {
      assert s[2] != '\r';
      assert s[..4] != "\r\n\r\n";
    }
    assert s[1..] == "\n" + y;
    AfterHeadSkips("\n", y);
  }

  /** Field names and values without carriage returns. */
  predicate PlainFields(headers: seq<Field>) {
    forall i :: 0 <= i < |headers| ==> '\r' !in headers[i].0 && '\r' !in headers[i].1
  }

  /** After the status line, a header section of plain fields and its
      closing empty line hand the client exactly the body. */
  lemma {:induction false} AfterFieldLines(headers: seq<Field>, body: string)
    requires PlainFields(headers)
    ensures AfterHead("\r\n" + FieldLines(headers) + "\r\n" + body) == Some(body)
  {
    if headers == [] {
      assert "\r\n" + FieldLines(headers) + "\r\n" + body == "\r\n\r\n" + body;
      AfterHeadAtBlank(body);
    } else {
      var line := FieldLine(headers[0]);
      var rest := "\r\n" + FieldLines(headers[1..]) + "\r\n" + body;
      assert line == headers[0].0 + ": " + headers[0].1;
      assert '\r' !in line;
      assert "\r\n" + FieldLines(headers) + "\r\n" + body == "\r\n" + (line + rest);
      AfterHeadLineBreak(line + rest);
      AfterHeadSkips(line, rest);
      AfterFieldLines(headers[1..], body);
    }
  }

  // The three regrouping lemmas below only steer the solver: each is one
  // instance of the associativity of `+`, proved on abstract strings.

  lemma Regroup(a: string, b: string, c: string, d: string, e: string)
    ensures a + b + c + d + e == a + (b + c + d + e)
  {
  }

  lemma RegroupBreaks(a: string, x: string, b: string)
    ensures a + x + x + x + b == (a + x) + (x + x) + b
    ensures a + x + x + x + b == a + ((x + x) + (x + b))
  {
  }

  lemma RegroupTwoFields(s: string, f1: string, f2: string, x: string, b: string)
    ensures s + (f1 + x + (f2 + x)) + x + b == s + f1 + x + f2 + x + x + b
  {
  }

  /** With `Some(headers)` the response is the status line, one
      `name: value` CRLF line per field in order, an empty line and the
      body; a client reading it (fields free of CR) receives exactly the
      body. */
  lemma ResponseWithHeaders(code: StatusCode, headers: seq<Field>, body: Option<string>)
    ensures ConstructResponse(code, Some(headers), body)
            == StatusLine(code) + FieldLines(headers) + "\r\n" + body.GetOr("")
    ensures PlainFields(headers) ==>
              AfterHead(ConstructResponse(code, Some(headers), body)) == Some(body.GetOr(""))
  {
    var b := body.GetOr("");
    var status := StatusText(code);
    var fields := FieldLines(headers);
    ConstructHeadersIsFieldLines(headers);
    assert ConstructResponse(code, Some(headers), body) == status + "\r\n" + fields + "\r\n" + b;
    if PlainFields(headers) {
      Regroup(status, "\r\n", fields, "\r\n", b);
      AfterHeadSkips(status, "\r\n" + fields + "\r\n" + b);
      AfterFieldLines(headers, b);
    }
  }

  /** With `None` headers the header text is a lone CRLF, so an empty line
      follows the status line and a further CRLF precedes the body: the
      response differs from the one with `Some([])`, and a client reading it
      receives `"\r\n"` in front of the body. */
  lemma ResponseWithoutHeaders(code: StatusCode, body: Option<string>)
    ensures ConstructResponse(code, None, body) == StatusLine(code) + "\r\n\r\n" + body.GetOr("")
    ensures AfterHead(ConstructResponse(code, None, body)) == Some("\r\n" + body.GetOr(""))
    ensures ConstructResponse(code, None, body) != ConstructResponse(code, Some([]), body)
  {
    var b := body.GetOr("");
    var status := StatusText(code);
    var r := ConstructResponse(code, None, body);
    assert r == status + "\r\n" + "\r\n" + "\r\n" + b;
    RegroupBreaks(status, "\r\n", b);
    assert "\r\n" + "\r\n" == "\r\n\r\n";
    AfterHeadSkips(status, "\r\n\r\n" + ("\r\n" + b));
    AfterHeadAtBlank("\r\n" + b);
    assert |r| == |ConstructResponse(code, Some([]), body)| + 2;
  }

  /** The shape every handler with a body uses: two fields, then the body. */
  lemma ResponseWithTwoFields(code: StatusCode, first: Field, second: Field, body: string)
    ensures var r := ConstructResponse(code, Some([first, second]), Some(body));
            && r == StatusLine(code) + FieldLine(first) + "\r\n" + FieldLine(second) + "\r\n" + "\r\n" + body
            && (PlainFields([first, second]) ==> AfterHead(r) == Some(body))
  {
    var headers := [first, second];
    ResponseWithHeaders(code, headers, Some(body));
    assert FieldLines([second]) == FieldLine(second) + "\r\n" by {
      assert [second][1..] == [];
    }
    assert FieldLines(headers) == FieldLine(first) + "\r\n" + FieldLines([second]) by {
      assert headers[1..] == [second];
    }
    RegroupTwoFields(StatusLine(code), FieldLine(first), FieldLine(second), "\r\n", body);
  }
}
