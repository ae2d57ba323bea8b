# A verified model of a small HTTP/1.1 server's request path

The server (`src/main.rs`) accepts TCP connections and answers each one on
its own thread. It reads the request line and the header lines and splits
the target into path segments. It then routes on the first segment:

- `/` answers 200;
- `/echo/<s>` answers 200 with body `s`;
- `/user-agent` answers 200 with the `User-Agent` value as body;
- `/files/<name>` answers 200 with a file's text, or 404;
- any other route answers 404.

Responses are assembled by `construct_headers` and `construct_response`.

This project models that path in Dafny, one module per concern:

- `Text` (`text.dfy`): the Rust string operations the server relies on, each
  with the lemmas that pin down its meaning:
  - `split_whitespace` over the Unicode `White_Space` set;
  - `split('/')`, `join`, and `replace(":", "")`;
  - `usize::to_string`, and `String::len` as a UTF-8 byte count.
- `Response` (`response.dfy`): `StatusCode::as_string`, `construct_headers`,
  `construct_response`. There are also lemmas on the exact wire text, and on
  what an HTTP/1.1 client reading up to the first empty line (RFC 9112,
  section 2.1) takes as the body.
- `Request` (`request.dfy`): `parse_request`.
  - It is modelled over the sequence of lines `read_line` returns. Reading
    past the end yields `""`, as at end of stream.
  - The header loop is a method with a `while` loop, proved equal to the
    recursive definition `Parse`.
  - Lemmas characterise success, the error result, and the index panics.
- `Router` (`router.dfy`): the route `match` of `handle_request` and the
  handlers `echo`, `user_agent` and `file`.
  - A Rust panic (out-of-bounds index, `unwrap` of `None` or of an error) is
    the reply `Panicked(cause)`: the thread ends and nothing is written.
  - The command line is the argument vector `args`.
  - The file system is `files`, a map from a path to the text of a file that
    opens and reads.
- `Exchange` (`exchange.dfy`): whole exchanges. Well-formed request lines go
  through the parser, then the router, and come out as the response a
  client reads. It also covers the field-line round trip between the
  serialiser's `name: value` format and the parser.
- `Wrappers` (`wrappers.dfy`): `Option` and `Result`.

Three behaviours of the code are kept as written and proved as properties:

- With `None` headers, `construct_response` puts a lone CRLF where the
  header text goes. An empty line therefore follows the status line
  directly, and a further CRLF precedes the body. So for the root route,
  404 replies and missing files, a client reads the body as `"\r\n"`
  (`Response.ResponseWithoutHeaders`, `Router.RootRoute`,
  `Router.FilesRoute`).
- A target with no `/` leaves no path segment. The route `match` then
  indexes an empty list and the thread panics (`Router.TargetWithoutSlash`).
- Header lookup is by exact, case-sensitive key (`Router.FindHeader`).

The code has no `POST /files` upload and no 201, 405 or 500 reply. It has no
`Content-Encoding`, no request body bounded by `Content-Length`, and no
case-insensitive header lookup. Where a 4xx reply could be sent, it panics.
The model follows the code.

## Model

| member | source | states |
|---|---|---|
| Response.AsString | src/main.rs:22-27 | `Ok` is `200 OK` and `NotFound` is `404 Not Found`: a three-digit code, a space, and a phrase without CR or LF |
| Response.StatusLine | src/main.rs:68 | `HTTP/1.1 <code> <reason>` and CRLF; `Response.StatusLineIsOneLine` states that it starts with `HTTP/1.1 `, ends with CRLF and has no other CR |
| Response.StatusLineIsOneLine | src/main.rs:68 | the status line starts with `HTTP/1.1 `, ends with CRLF, and has no CR before that |
| Response.FieldLine | src/main.rs:58 | `format!("{}: {}")` of one field: the name, `: ` and the value, so its length is theirs plus two and it holds a CR only if the field does |
| Response.FieldLineList | src/main.rs:56-59 | the `map` over the fields: one line per field, in order, each the `FieldLine` of its field |
| Response.ConstructHeaders | src/main.rs:52-61 | the header text is empty exactly when the list of fields is empty |
| Response.ConstructHeadersIsFieldLines | src/main.rs:52-61 | the `join("\r\n") + "\r\n"` text equals one `name: value` CRLF line per field, in the given order |
| Response.ConstructResponse | src/main.rs:63-78 | every response starts with the status line `HTTP/1.1 <code> <reason>` CRLF and ends with the body, or with nothing when the body is `None` |
| Response.ResponseWithHeaders | src/main.rs:63-78 | with `Some(fields)`: status line, field lines, empty line, body; if no field contains CR, a client reads exactly the body after the head |
| Response.ResponseWithoutHeaders | src/main.rs:69-72 | with `None` headers: status line, then CRLF CRLF, then the body. A client reads `"\r\n"` before the body, and the text differs from the one for `Some([])` |
| Response.ResponseWithTwoFields | src/main.rs:63-78 | the exact wire text for the two-field responses the handlers build, and that a client reads exactly the body |
| Text.Words | src/main.rs:84-88 | `split_whitespace`; its meaning is pinned down by `Text.WordsAreTokens`, `Text.WordsSplitAt`, `Text.WordsOfWord` and `Text.WordsOfJoin` |
| Text.WordsAreTokens | src/main.rs:84-88 | every token of `split_whitespace` is non-empty and contains no whitespace |
| Text.WordsSplitAt | src/main.rs:84-88 | one whitespace character separates tokens: the tokens of `a c b` are those of `a` followed by those of `b` |
| Text.WordsOfWord | src/main.rs:84-88 | a non-empty whitespace-free string is exactly one token |
| Text.WordsOfJoin | src/main.rs:84-88 | tokens joined by single spaces split back into the same tokens |
| Text.JoinWith | src/main.rs:60 | `join(sep)`; pinned down by `Text.JoinOfSplit`, `Text.SplitOfJoin`, `Text.WordsOfJoin` and `Response.ConstructHeadersIsFieldLines` |
| Text.Split | src/main.rs:108-112 | `split('/')` gives one piece more than there are separators, and no piece contains the separator |
| Text.JoinOfSplit | src/main.rs:108-112 | joining the pieces of `split(sep)` with `sep` restores the string |
| Text.SplitOfJoin | src/main.rs:108-112 | splitting a join of separator-free pieces gives back the pieces |
| Text.RemoveAll | src/main.rs:103 | `replace(":", "")` leaves no `:`, and its length drops by the number of colons |
| Text.RemoveAllAppend | src/main.rs:103 | removing a character distributes over concatenation |
| Text.RemoveAllAbsent | src/main.rs:103 | removing a character that does not occur changes nothing |
| Text.NatToDecimal | src/main.rs:177 | `to_string` of a length is a non-empty string of digits, without a leading zero unless it is `0` |
| Text.DecimalRoundTrip | src/main.rs:177 | reading the decimal digits back gives the number |
| Text.Utf8Len | src/main.rs:177 | `len()` counts between one and four bytes per character, and equals the number of characters exactly when all are ASCII |
| Request.Line | src/main.rs:96-97 | the `i`-th line `read_line` fills; past the end of the stream it is empty |
| Request.IsBlankLine | src/main.rs:98 | the loop's stop test, `starts_with("\r\n")`; `Request.Terminator` and `Request.CollectHeadersOk` use it |
| Request.HeaderOf | src/main.rs:101-105 | the header key contains no `:`, and the value is a single non-empty token |
| Request.Parse | src/main.rs:80-122 | on success the body is empty and there is one segment per `/` in the target; `Request.ParseRejectsShortRequestLine` and `Request.ParseResult` describe its error and its result |
| Request.CollectHeaders | src/main.rs:95-106 | the header loop as recursion over line indices; `Request.CollectHeadersOk`, `Request.CollectHeadersValue` and `Request.CollectHeadersPanics` characterise success, value and panic line |
| Request.ParseRequest | src/main.rs:80-122 | the loop reading header lines one at a time computes `Parse` exactly: the same result, the same error and the same panic line |
| Request.Terminator | src/main.rs:95-100 | the header loop stops at the first line that starts with CRLF, or at the end of the stream |
| Request.CollectHeadersOk | src/main.rs:95-106 | the header loop succeeds if and only if a line starting with CRLF arrives, and every line before it has at least two tokens |
| Request.CollectHeadersValue | src/main.rs:95-106 | on success there is one header per line before the terminator, in order, each made from its own line |
| Request.CollectHeadersPanics | src/main.rs:101-104 | on failure the panic is an index panic on the first line with fewer than two tokens; that line comes before the terminator, or the stream ended with no terminator and it is the end of the stream |
| Request.ParseRejectsShortRequestLine | src/main.rs:84-91 | `parse_request` returns its error if and only if the request line has fewer than three tokens |
| Request.ParseResult | src/main.rs:108-121 | on success: method, target and version are the request line's first three tokens, the segments are the target split on `/` minus the first piece, the headers are as above, and the body is empty |
| Request.PathParts | src/main.rs:108-113 | there is one path segment per `/` in the target |
| Request.PathPartsRejoin | src/main.rs:108-113 | for a target starting with `/`, the segments joined by `/` give the rest of the target |
| Request.PathPartsOfSegments | src/main.rs:108-113 | a target `/` + `/`-free segments joined by `/` splits back into exactly those segments |
| Router.FindHeader | src/main.rs:185-189 | `find` returns `None` if and only if no key matches exactly; otherwise it returns the first header whose key matches |
| Router.TextFields | src/main.rs:173-179 | the two fields of a text reply: `Content-Type: text/plain`, then `Content-Length` with a digit string that reads back as the body's UTF-8 length |
| Router.Echo | src/main.rs:170-182 | `echo` panics if and only if there is no second segment; otherwise it answers 200 |
| Router.UserAgent | src/main.rs:184-200 | `user_agent` panics if and only if no header is keyed exactly `User-Agent`; otherwise it answers 200 |
| Router.File | src/main.rs:202-224 | `file` panics without a second segment, then without a third program argument. Otherwise it answers 200 if `args[2] + name` is a file, else 404 |
| Router.Route | src/main.rs:148-156 | the route match panics on its own if and only if there is no path segment; every reply starts with a 200 or a 404 status line |
| Router.Respond | src/main.rs:141-156 | a connection panics in parsing exactly when `parse_request` fails, with that failure. It panics at the route match exactly when parsing yields no segment. Any reply is 200 or 404 |
| Router.HandleRequest | src/main.rs:141-156 | parse, unwrap and route, computed by calling the parsing method, is `Respond` |
| Router.TargetWithoutSlash | src/main.rs:148 | a request whose target has no `/` makes the thread panic at the route match |
| Router.RootRoute | src/main.rs:154 | the empty first segment answers 200 with no fields, and a client reads `"\r\n"` as the body |
| Router.UnknownRoute | src/main.rs:155 | any other first segment answers 404 with no fields |
| Router.RouteIgnoresMethod | src/main.rs:145-146 | the reply does not depend on the method, the version or the raw target |
| Router.TextReply | src/main.rs:171-181 | a text reply is status 200, `Content-Type: text/plain`, a `Content-Length` whose value is the body's UTF-8 length, an empty line and the body; a client reads exactly the body |
| Router.EchoRoute | src/main.rs:170-182 | `/echo/<s>` is answered with that text reply for `s` |
| Router.UserAgentRoute | src/main.rs:184-200 | `/user-agent` is answered with that text reply for the value of the first `User-Agent` header |
| Router.FilesRoute | src/main.rs:202-224 | a stored file comes back as an octet stream with its length and its text; a missing one gets 404 and a `"\r\n"` body |
| Exchange.FieldLineParsesBack | src/main.rs:101-105 | a `name: value` line written as the serialiser writes fields is read back by the header loop as that header |
| Exchange.HeaderLinesRoundTrip | src/main.rs:95-106 | field lines followed by the empty line are all read back, in order |
| Exchange.RequestLineWords | src/main.rs:84-88 | `<method> <target> <version>` CRLF splits into exactly those three tokens |
| Exchange.ParseWellFormed | src/main.rs:80-122 | a well-formed request parses into its method, target, segments, version and headers, with an empty body |
| Exchange.EchoExchange | src/main.rs:170-182 | a well-formed `GET /echo/<s>` with any fields is answered 200 with the exact text: status line, `Content-Type: text/plain`, `Content-Length` with the decimal UTF-8 length of `s`, an empty line and `s`. The client reads body `s`, and the length field reads back as the byte length of `s` |
| Exchange.UserAgentExchange | src/main.rs:184-200 | a well-formed `/user-agent` request is answered 200 with the exact text of the text reply for the value of the first `User-Agent` field, and the client reads that value |
| Exchange.UserAgentMissing | src/main.rs:190 | the same request without a `User-Agent` field panics |

## Left out

- `main` (src/main.rs:124-139): binding the listener, accepting connections and spawning a thread per connection. These are I/O and concurrency.
- Writing the response to the socket, `flush`, and the `println!` logging (src/main.rs:143, 149, 158-167, 207, 211, 221). These are I/O. A write error panics after the reply is built, which the model does not show.
- `read_line` I/O errors and invalid UTF-8 on the socket (the `?` at src/main.rs:83 and 97). The model starts from the lines already read.
- The `Display` impl of `StatusCode` (src/main.rs:15-19) and the `FromIterator` impl of `Header` (src/main.rs:36-40). Neither is called on the request path.
- Router.File: a file that opens but cannot be read as UTF-8 text, or is a directory, panics at the `unwrap` at src/main.rs:209. The map `files` holds only files that open and read. Every other path is a failed open.
- Router.File: `std::env::args` is the parameter `args`, and the file system is the map `files`. Paths are compared as strings, so no normalisation and no symbolic links are modelled.
- Response.ConstructResponse: the source wraps the text in a `Result` that is always `Ok`. The model returns the text, so the `else` branch at src/main.rs:165-166 cannot happen.
- Request.ParseRequest: a `read_line` buffer holds one line with its line break. The model takes those lines as given and does not re-split a byte stream.
