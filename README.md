# rust_http_server: parsing, rendering and dispatch, in Dafny

This project models the wire-protocol core of a small HTTP/1.1 server
written in Rust. The server takes one request per TCP connection and
answers it. The model covers:

- **Parsing a request** (`src/parsing/request_parser.rs`).
  - The request line is read up to the first `\n` and decoded as UTF-8.
  - It is split on whitespace: a method from a fixed table of nine, then a target.
  - The target is split at its first `?` into a path and a query. The query's `&`-separated `key=value` pairs are inserted in order.
  - Header lines follow, until a line that is blank after trimming. Each line is split at its first `:` and the value is trimmed.
  - If `Content-Length` is a valid `usize` greater than 0, exactly that many body bytes are read.
  - The connection is a byte sequence. The buffered reader is a class holding the bytes and a position. The parse is a method whose result and final position equal those of a function of the bytes, `ParseSpec`.
- **The request value** (`src/parsing/http_request.rs`) and its getters.
- **The response** (`src/parsing/http_response.rs`).
  - A class with four fields and setters.
  - The three fillers: JSON, string and file.
  - `write_to_stream`: the status line, the header lines in `HashMap` order, `Content-Length`, the content type, a blank line, then the body.
- **Content-type inference** (`src/helpers.rs`) from the extension of a path. The extension is read the way `std::path::Path` reads it.
- **The server** (`src/server.rs`).
  - The route table and the static-file switch.
  - `handle_static`, `handle_request` and the per-connection loop of `run`. Each connection is proved to receive the serialization of `Dispatch` applied to its parsed request, or nothing when it does not parse.

Supporting modules:

- `Utf8`: UTF-8 encoding and decoding of `string`, with both round trips. This stands for `as_bytes` and the decoding done by `read_line`.
- `Text`: the standard-library string operations the code relies on: `trim`, `split_whitespace`, `find`, `rfind`, `splitn(2, _)`, `split`, and inserting into a map in order.
- `Decimal`: `Display` for unsigned integers, and `str::parse::<usize>` with a 64-bit `usize`.

### Behaviour that follows the code

The model follows the code in these places, where a reader might expect otherwise:

- End of input while reading headers ends the header block. It reads as an empty line, so it is not an error (`ParseProperties.HeadersEndAtEof`, `ParseProperties.ParseUnterminated`).
- `ContentTooLarge` and `GenericError` exist but are never produced, so the model's `ParseError` has no `GenericError`. Bytes after the body are left unread.
- The configured static folder is never joined to the request path. The file looked up is the request path itself, with `index.html` appended when the path ends in `/`. The folder's value is irrelevant; only whether one is set matters.
- Handlers return nothing. The response sent is the one the handler leaves behind. An unrouted path gets the fresh response, with status 0 and no body.
- The path is not required to start with `/`.
- With no content type set, `write_to_stream` writes the bare text `text/plain`. It writes no header name and no line end, so that text runs into the blank line that follows.
- The parser maps an `UnexpectedEof` from `read_line` to `MalformedRequest`. `read_line` never reports that error kind at the end of input, so that mapping is never taken. In the model the only `read_line` error is `InvalidData` (undecodable UTF-8), which becomes `StreamError`; the only `read_exact` error is `UnexpectedEof`, which becomes `ContentTooSmall`. In the code, socket read errors also become `StreamError`; see "## Left out".

## Model

| member | source | states |
|---|---|---|
| Utf8.EncodeCharSpec | src/parsing/http_response.rs:86-89 | an ASCII character encodes to the single byte of its code, and every byte of a longer encoding has its high bit set |
| Utf8.EncodeConcat | src/parsing/http_response.rs:29-46 | the bytes of a concatenation are the concatenation of the bytes, so pieces written one after another equal the encoding of the joined text |
| Utf8.DecodeEncode | src/parsing/request_parser.rs:51-57 | decoding the UTF-8 bytes of any string gives that string back |
| Utf8.EncodeDecode | src/parsing/request_parser.rs:92-98 | bytes that decode to a string are exactly that string's encoding |
| Utf8.AsciiIn | src/parsing/http_response.rs:38-42 | an ASCII byte occurs in a string's encoding exactly when its character occurs in the string |
| Utf8.NoLineBreak | src/parsing/http_response.rs:40 | a string without `\r` and `\n` encodes to bytes without 13 and 10 |
| Text.TrimStartSpec | src/parsing/request_parser.rs:105 | trimming the start removes exactly the leading whitespace: the result is a suffix, what was removed is all whitespace, and the result is empty or starts with a non-space |
| Text.TrimEndSpec | src/parsing/request_parser.rs:105 | trimming the end removes exactly the trailing whitespace, symmetrically |
| Text.TrimIsSlice | src/parsing/request_parser.rs:99-105 | `trim` returns a slice of its input with only whitespace outside it, and with non-space first and last characters |
| Text.TrimEmptyIff | src/parsing/request_parser.rs:99 | a line is blank after trimming exactly when it is all whitespace |
| Text.TrimOfTrimmed | src/parsing/request_parser.rs:105 | a string with non-space ends is unchanged by trimming |
| Text.TrimPadded | src/parsing/request_parser.rs:105 | a value padded with whitespace on both sides trims back to the value |
| Text.TokensAreWords | src/parsing/request_parser.rs:58 | every token of `split_whitespace` is non-empty and free of whitespace |
| Text.TokensEmptyIff | src/parsing/request_parser.rs:58-59 | there are no tokens exactly when the line is all whitespace |
| Text.TokensCons | src/parsing/request_parser.rs:58-72 | after leading whitespace, a word followed by whitespace or the end is the first token, and the rest follow |
| Text.FindSpec | src/parsing/request_parser.rs:73 | `find` is none exactly when the character is absent, else the index of its first occurrence |
| Text.RFindSpec | src/helpers.rs:4 | `rfind` is none exactly when the character is absent, else the index of its last occurrence |
| Text.SplitOnceSpec | src/parsing/request_parser.rs:83-85 | `splitn(2, c)` has a second part exactly when `c` occurs; then it splits at the first `c` and the first part has no `c` |
| Text.SplitOnceAtFirst | src/parsing/request_parser.rs:102-104 | a key without `c`, then `c`, then any value (which may hold `c`) splits back to that key and value |
| Text.SplitSpec | src/parsing/request_parser.rs:82 | the pieces of `split(c)` contain no `c` |
| Text.JoinSplit | src/parsing/request_parser.rs:82 | joining the pieces of `split(c)` with `c` gives the input back |
| Text.SplitJoin | src/parsing/request_parser.rs:82 | splitting pieces that contain no `c`, after joining them with `c`, gives the pieces back |
| Text.InsertAllLastWins | src/parsing/request_parser.rs:86-106 | after inserting pairs in order, a key is present exactly when some pair has it, and it maps to the value of its last pair |
| Decimal.DigitsIff | src/parsing/request_parser.rs:111 | the digit reader accepts exactly the all-digit strings, the empty string included (`ParseUsize` rejects the empty string itself) |
| Decimal.Display | src/parsing/http_response.rs:30-36 | `{}` of an unsigned number (the status, the body length) is at least one character, with no leading zero except for 0 itself |
| Decimal.DisplayDigits | src/parsing/http_response.rs:30-36 | `{}` of an unsigned number writes only decimal digits |
| Decimal.DigitsDisplay | src/parsing/http_response.rs:36 | reading back the digits `{}` writes gives the number |
| Decimal.ParseUsize | src/parsing/request_parser.rs:111 | `parse::<usize>` never yields more than the largest 64-bit `usize` |
| Decimal.ParseDisplay | src/parsing/request_parser.rs:109-112 | `parse::<usize>` reads back any number `{}` writes, up to the largest `usize` |
| Decimal.ParseUsizeAccepts | src/parsing/request_parser.rs:111 | a leading `+` and leading zeros are accepted |
| Decimal.ParseUsizeRejects | src/parsing/request_parser.rs:111 | the empty string, a bare `+`, a minus sign, a leading space and trailing junk are rejected |
| Decimal.ParseUsizeOverflow | src/parsing/request_parser.rs:111 | one more than the largest `usize` is rejected |
| Helpers.FileName | src/helpers.rs:4 | a path's file name, when it has one, is non-empty, has no `/`, and is not `.` or `..` |
| Helpers.Extension | src/helpers.rs:4 | an extension has no `.` and no `/` |
| Helpers.PathToMimetype | src/helpers.rs:3-15 | every path gets one of the nine content types of the table |
| Helpers.FileNameOfName | src/helpers.rs:4 | a name other than `.` and `..`, after a `/` or on its own, is the path's file name |
| Helpers.ExtensionOfName | src/helpers.rs:4 | the file name `stem.ext` has extension `ext` |
| Helpers.MimetypeOfName | src/helpers.rs:4-13 | for a file `stem.ext` each of the eight listed extensions (`jpg` and `jpeg` alike) gets its type, and every other extension gets `text/plain` |
| Helpers.MimetypeWithoutExtension | src/helpers.rs:13 | a path without an extension gets `text/plain` |
| Helpers.MimetypeLastExtension | src/helpers.rs:4-7 | only the last extension counts: `a.min.js` is JavaScript |
| Helpers.MimetypeCaseSensitive | src/helpers.rs:5-13 | matching is case-sensitive: `index.HTML` is `text/plain` |
| Helpers.MimetypeDotFile | src/helpers.rs:4 | a leading dot starts no extension: `/.html` is `text/plain` |
| Helpers.MimetypeTrailingSlash | src/helpers.rs:4-8 | a trailing `/` is skipped as `Path` skips it: `/img/logo.png/` is `image/png` |
| Helpers.MimetypeParentDir | src/helpers.rs:4 | a path ending in `..` has no file name and gets `text/plain` |
| Request.New | src/parsing/http_request.rs:15-49 | each getter returns what `new` was given |
| RequestParser.LineEnd | src/parsing/request_parser.rs:51 | the line read from a position ends within the input, and is empty only at the end of the input |
| RequestParser.LineEndSpec | src/parsing/request_parser.rs:92 | the line `read_line` takes holds no `\n` before its last byte, and ends with `\n` unless it runs to the end of the input |
| RequestParser.ReadLineAt | src/parsing/request_parser.rs:51-57 | reading a line never moves the position backwards or past the end |
| RequestParser.ReadLineAdvances | src/parsing/request_parser.rs:92-98 | reading a non-empty line moves the position forward |
| RequestParser.BufReader.ReadLine | src/parsing/request_parser.rs:91-98 | the scan loop returns the decoded line (`InvalidData` when the bytes are not UTF-8) and the position after it |
| RequestParser.BufReader.ReadExact | src/parsing/request_parser.rs:118-126 | the next `n` bytes when that many remain; otherwise `UnexpectedEof`, with everything left consumed |
| RequestParser.MethodFromTokenIff | src/parsing/request_parser.rs:60-71 | a token is recognised as a method exactly when it is that method's upper-case name |
| RequestParser.MethodTokenCaseSensitive | src/parsing/request_parser.rs:60-70 | lower-case and mixed-case names are not methods |
| RequestParser.TargetReassembles | src/parsing/request_parser.rs:73-81 | the path has no `?`, and the path, then `?` and the query when there is one, is the target again |
| RequestParser.SplitPairsIff | src/parsing/request_parser.rs:82-86 | splitting the pieces into pairs fails exactly when some piece has no `=`; otherwise each pair is its piece cut at its first `=` |
| RequestParser.QueryWithoutQuestionMark | src/parsing/request_parser.rs:79-80 | a target without `?` has an empty query |
| RequestParser.QueryMalformedIff | src/parsing/request_parser.rs:80-87 | with a `?`, the query is malformed exactly when one of its `&`-pieces has no `=` |
| RequestParser.QueryEmptyPieceMalformed | src/parsing/request_parser.rs:81-85 | a trailing `?`, and `&&` inside a query, make the request malformed |
| RequestParser.EmptyPieceBetween | src/parsing/request_parser.rs:82 | `&&` leaves an empty piece in the split |
| RequestParser.SplitPairsOfPieces | src/parsing/request_parser.rs:82-86 | written `key=value` pieces split back into their pairs |
| RequestParser.QueryOfPairs | src/parsing/request_parser.rs:73-88 | `path?k1=v1&…&kn=vn` parses back to the path and the pairs inserted in order |
| RequestParser.PiecesSplitBack | src/parsing/request_parser.rs:82 | written pairs joined with `&` split back into their pieces |
| RequestParser.HeaderEntrySpec | src/parsing/request_parser.rs:102-105 | a header line without `:` is rejected; otherwise the key has no `:`, and the value is the rest after the first `:`, trimmed |
| RequestParser.ScanHeaders | src/parsing/request_parser.rs:89-107 | the header loop ends within the input and never before where it started |
| RequestParser.ParseTarget | src/parsing/request_parser.rs:72-88 | the path and the query the target's specification gives |
| RequestParser.ParseQuery | src/parsing/request_parser.rs:79-88 | the insertion loop over the query's pieces computes the map of the pairs inserted in order, or none |
| RequestParser.ReadRequestLine | src/parsing/request_parser.rs:50-88 | reads and checks the request line, with its error and position as specified |
| RequestParser.ReadHeaders | src/parsing/request_parser.rs:89-107 | the header loop leaves the reader where the scan ends and returns the entries inserted in order, or the scan's error |
| RequestParser.ReadBody | src/parsing/request_parser.rs:109-127 | the body stage returns no body when `Content-Length` is 0, the next that many bytes when they are there, and `ContentTooSmall` with the input used up otherwise |
| RequestParser.Parse | src/parsing/request_parser.rs:45-128 | `parse` returns, and stops reading where, the stage-by-stage specification of the connection's bytes says |
| RequestParser.ParseAsWritten | src/parsing/request_parser.rs:109-118 | `parse` as written panics exactly when the request line and the headers read and `Content-Length` exceeds `isize::MAX`; otherwise it agrees with the corrected parse |
| ParseProperties.EmptyConnectionMalformed | src/parsing/request_parser.rs:50-59 | a connection that sends nothing is `MalformedRequest` |
| ParseProperties.BlankRequestLineMalformed | src/parsing/request_parser.rs:58-59 | a blank first line is `MalformedRequest`, after that line has been read |
| ParseProperties.RequestLineMethodChecked | src/parsing/request_parser.rs:58-71 | `InvalidMethod` exactly when the line has a first word and it is not a method, even when no target follows |
| ParseProperties.WordsMethodChecked | src/parsing/request_parser.rs:59-71 | on the words: `InvalidMethod` exactly when the first word is not a method |
| ParseProperties.RequestLineAccepted | src/parsing/request_parser.rs:58-88 | the line is accepted exactly when it has a method, a target and a well-formed query; extra words are ignored; the result is that method, path and query |
| ParseProperties.WordsAccepted | src/parsing/request_parser.rs:59-88 | the same on the words |
| ParseProperties.RequestLineErrors | src/parsing/request_parser.rs:58-85 | the request line is rejected only with `MalformedRequest` or `InvalidMethod` |
| ParseProperties.RequestLineNeverTooSmall | src/parsing/request_parser.rs:50-88 | the request-line stage never reports `ContentTooSmall` |
| ParseProperties.ScanNeverTooLarge | src/parsing/request_parser.rs:89-107 | the header loop never reports `ContentTooLarge` |
| ParseProperties.ScanNeverTooSmall | src/parsing/request_parser.rs:89-107 | the header loop never reports `ContentTooSmall` |
| ParseProperties.ParseNeverTooLarge | src/parsing/request_parser.rs:31 | `ContentTooLarge` is never returned |
| ParseProperties.ParsedRequestShape | src/parsing/request_parser.rs:109-127 | a parsed request's headers are the header lines inserted in order; it has a body exactly when `Content-Length` is positive, and the body is that many bytes right after the blank line, with reading stopping after them |
| ParseProperties.StagesOfParsed | src/parsing/request_parser.rs:45-128 | a parse that succeeds, or fails only on the body, went through a successful request line and header scan |
| ParseProperties.BodyShape | src/parsing/request_parser.rs:113-127 | a successful body stage keeps the headers and reads exactly `Content-Length` bytes, or none when it is 0 |
| ParseProperties.ContentTooSmallIff | src/parsing/request_parser.rs:118-126 | `ContentTooSmall` exactly when the headers promise more bytes than remain, and then everything has been read |
| ParseProperties.PanicOnlyWhereTooSmall | src/parsing/request_parser.rs:113-126 | on a connection shorter than `isize::MAX` bytes, the as-written panic happens only where the corrected parse answers `ContentTooSmall` after reading everything |
| ParseProperties.CapacityOverflowPanics | src/parsing/request_parser.rs:109-118 | a request line, then a `Content-Length` above `isize::MAX` that `parse::<usize>` accepts, makes the as-written parse panic whatever follows; the corrected parse answers `ContentTooSmall` when fewer bytes follow |
| ParseProperties.EncodeNoNewline | src/parsing/request_parser.rs:92 | text without `\n` encodes to bytes without `\n` |
| ParseProperties.ReadEncodedLine | src/parsing/request_parser.rs:92 | the encoding of a line ending in its only `\n` is read back by `read_line` as that line |
| ParseProperties.EncodedLineBytes | src/parsing/request_parser.rs:92 | such a line's encoding ends in its only newline byte and decodes back to the line |
| ParseProperties.HeaderLineEntry | src/parsing/request_parser.rs:99-106 | a well-formed `Key: value\r\n` line is not blank and reads back as that key and value |
| ParseProperties.HeaderLineEnds | src/parsing/request_parser.rs:92 | a well-formed header line ends with its only `\n` |
| ParseProperties.RenderedHeaders | src/parsing/request_parser.rs:89-107 | well-formed header lines followed by a blank line scan back to those headers, ending after the blank line |
| ParseProperties.HeadersEndAtEof | src/parsing/request_parser.rs:89-101 | at end of input the header loop's `read_line` gives an empty line, which ends the header block with no headers and no error |
| ParseProperties.ScanToEof | src/parsing/request_parser.rs:89-107 | well-formed header lines that run to the end of input, with no blank line, scan back as those headers in order, stopping at the end |
| ParseProperties.ParseUnterminated | src/parsing/request_parser.rs:45-126 | a request line, then header lines, then end of input is a request with those headers and no body when `Content-Length` is 0 or absent, and `ContentTooSmall` when it is positive; the whole input is consumed |
| ParseProperties.RequestLineParses | src/parsing/request_parser.rs:58-88 | `METHOD target HTTP/1.1` with a well-formed target parses to that method, path and query |
| ParseProperties.RenderedRequestLine | src/parsing/request_parser.rs:50-88 | such a request line at the start of a connection is read and accepted |
| ParseProperties.ContentLengthWrittenLast | src/parsing/request_parser.rs:106-112 | a `Content-Length` header written last with a decimal value sets the body length |
| ParseProperties.ParseRendered | src/parsing/request_parser.rs:45-128 | a request written out as request line, header lines, blank line and a body of `Content-Length` bytes parses back to that request, and reading stops at its last byte |
| ParseProperties.ParseLaidOut | src/parsing/request_parser.rs:45-128 | the same, with the request line, header block and body located in the connection |
| ParseProperties.RenderedAfterLine | src/parsing/request_parser.rs:89-127 | after an accepted request line, rendered headers and body complete the parse |
| ParseProperties.RenderedTail | src/parsing/request_parser.rs:109-127 | once the headers are scanned, a body of exactly `Content-Length` bytes completes the parse |
| Response.SerializeFrame | src/parsing/http_response.rs:29-46 | the status line comes first and the body, verbatim, last |
| Response.ContentLengthWritten | src/parsing/http_response.rs:36-37 | right after the header lines comes `Content-Length: ` and the body's length in decimal, whatever the headers hold |
| Response.ContentTypeSet | src/parsing/http_response.rs:38-39 | a set content type is written as a full `Content-Type: …\r\n` line |
| Response.ContentTypeUnset | src/parsing/http_response.rs:40 | an unset content type is written as bare text with no line break |
| Response.HttpResponse.constructor | src/parsing/http_response.rs:15-27 | the new response holds the four given fields |
| Response.HttpResponse.WriteToStream | src/parsing/http_response.rs:29-46 | the bytes written are the serialization in an order that visits every header key exactly once |
| Response.HttpResponse.SetHeader | src/parsing/http_response.rs:48-50 | inserts or overwrites one header; nothing else changes |
| Response.HttpResponse.SetBody | src/parsing/http_response.rs:52-54 | replaces the body; nothing else changes |
| Response.HttpResponse.SetStatus | src/parsing/http_response.rs:56-58 | replaces the status; nothing else changes |
| Response.HttpResponse.SetContentType | src/parsing/http_response.rs:60-62 | sets the content type; nothing else changes |
| Response.HttpResponse.WriteFromJson | src/parsing/http_response.rs:80-84 | the body becomes the JSON text's bytes and the type `application/json`; status and headers are kept |
| Response.HttpResponse.WriteFromString | src/parsing/http_response.rs:86-89 | the body becomes the string's UTF-8 bytes and the type `text/plain`; status and headers are kept |
| Response.HttpResponse.WriteFromFile | src/parsing/http_response.rs:91-106 | `NotFound` exactly when the file is missing, leaving the response untouched; otherwise the body is the file and the type is inferred from the path |
| Server.Server.constructor | src/server.rs:16-23 | a new server has no routes and no static folder |
| Server.Server.SetStaticAssetFolder | src/server.rs:25-27 | sets the folder and keeps the routes |
| Server.Server.AddHandler | src/server.rs:89-94 | registers the handler for the path, replacing an earlier one, and keeps the folder |
| Server.Server.HandleStatic | src/server.rs:29-49 | answers exactly when the folder is set and the file exists, and then writes the file's response; otherwise writes nothing |
| Server.Server.HandleRequest | src/server.rs:51-71 | writes the response `Dispatch` gives: the static file, else the routed handler's result on a fresh response, else the fresh response |
| Server.Server.HandleRoute | src/server.rs:57-68 | after a static miss: writes the routed handler's result on a fresh status-0 response when the path has a handler, else that fresh response unchanged |
| Server.Server.HandleConnection | src/server.rs:76-83 | a connection whose bytes do not parse gets nothing; otherwise it gets the dispatched response to its parsed request |
| Server.Server.Run | src/server.rs:73-87 | every connection, in turn, is served as `HandleConnection` specifies, and a failed parse does not stop the loop (the corrected behaviour of the finding below) |
| Server.Server.RunAsWritten | src/server.rs:73-87 | as written: the connections before the first one on which `parse` panics are served, and that one and every later one get nothing |
| Server.StaticTakesPrecedence | src/server.rs:51-55 | a static hit is answered with status 200, no headers, the file's bytes and its inferred type, whatever routes exist |
| Server.FolderNameIrrelevant | src/server.rs:34-43 | the folder's name never changes the answer, only whether one is set |
| Server.NoFolderNoFiles | src/server.rs:30-32 | without a static folder the filesystem is never consulted |
| Server.StaticMissFallsThrough | src/server.rs:43-46 | a static miss is answered as if no folder were set |
| Server.RoutedRunsHandler | src/server.rs:57-64 | a routed path gets its handler's result on a fresh status-0 response |
| Server.UnroutedIsFresh | src/server.rs:59-67 | an unrouted path gets the fresh status-0 response untouched |
| Server.RouteIgnoresMethod | src/server.rs:57-58 | routing depends on the path alone, never on the method |
| Server.LastRegistrationWins | src/server.rs:89-94 | registering a path twice keeps the later handler |
| Server.OtherRoutesUnchanged | src/server.rs:89-94 | registering one path leaves every other path's answer unchanged |

## Left out

- Sockets. `TcpListener::bind`, `incoming`, and the errors of `incoming` and `write_all` are not modelled. A connection is the sequence of bytes it sends. What is written back is a byte sequence. `Run` takes the accepted connections as a list.
- Read errors. A socket read error inside `read_line` or `read_exact` (a reset connection, say) becomes `StreamError` in the code. The model's connection is a finished byte sequence, so no such error occurs in it.
- Blocking reads. A read waits until bytes arrive or the peer closes. A client that keeps its connection open without sending blocks the single-threaded `run`. That is not modelled, because the model's connection is the bytes sent before end of input.
- Memory. `vec![0; n]` for a length up to `isize::MAX` can still fail to allocate, which aborts the process. Memory limits are not modelled, so the model reads such a body like any other.
- RequestParser.Parse: follows the corrected behaviour of the finding below. A `Content-Length` above `isize::MAX` is `ContentTooSmall` here, where the code panics; `RequestParser.ParseAsWritten` models the panic.
- RequestParser.ReadBody: the same; only `ParseAsWritten` models the capacity-overflow panic.
- ParseProperties.ContentTooSmallIff: the "exactly when" is about the corrected parse. It also covers lengths above `isize::MAX`, where the code panics instead.
- Server.Server.Run: the corrected loop, which goes on after such a connection. `Server.Server.RunAsWritten` models the code, which stops serving at the panic.
- Write errors. The server stops on a write error (the `?` in `handle_request` and `run`); the model has no write errors, so this path is not captured.
- `println!` on each connection is left out, since it has no effect on the protocol.
- Filesystem. The filesystem is a map from path to contents. Only a missing file (`NotFound`) is modelled. Errors from `open`, `metadata` and `read_exact` on a file that exists are not.
- JSON. The `json` crate's `to_string` is a function parameter of `WriteFromJson`.
- Handlers. A handler closure is a pure function from the request and the response it is lent to the response it leaves behind. Side effects outside the response are not modelled.
- `HashMap` iteration order is unspecified. `WriteToStream` returns the order it used as a ghost value. The server's contracts say that some complete order was used.
- The parser's own fields are left out: `State`, `buf`, `content_length` and `content_received`. `parse` resizes `buf` (src/parsing/request_parser.rs:46-48) and never uses it again; it never reads the other fields. `RequestParser::new` is folded into `Parse`, which takes the connection's bytes.
- The boxed `io::Error` inside `StreamError` is dropped: the model's `StreamError` carries nothing.
- `usize` is taken to be 64 bits wide; `u16` is the status type's range.
- Getters of `HttpResponse` and `HttpRequest` return a field and carry no contract of their own. `Request.New` states what they return.
- Server.Server.HandleRequest: the written bytes are stated up to the `HashMap` order of the response headers (`Writes`), not as one fixed byte sequence, because that order is not determined by the program.
- Server.Server.HandleStatic: the same, up to header order. The static response has no headers, so this loses nothing.

## Findings

| source | as written | input that shows it | evidently intended | confidence | as-written member | corrected member |
|---|---|---|---|---|---|---|
| src/parsing/request_parser.rs:118 | `vec![0; content_length]` allocates the declared body length before any byte is read, and panics with a capacity overflow when that length exceeds `isize::MAX`; the panic unwinds out of `run` (src/server.rs:73-87) and the server stops | a request line, then `Content-Length: 9223372036854775808` (any value from 2^63 to 2^64 - 1, all of which `parse::<usize>` accepts), then fewer bytes than that | a body that never arrives is rejected as `ContentTooSmall`, as `read_exact` reports for any shorter stream, and the server goes on to the next connection | not executed; medium | Server.Server.RunAsWritten | Server.Server.Run |

The as-written half is `RequestParser.ParseAsWritten`, where the panic is `None`, and `Server.Server.RunAsWritten`, which serves nothing from the panicking connection on. `ParseProperties.CapacityOverflowPanics` exhibits the input. The corrected half is `RequestParser.ParseSpec` with `RequestParser.Parse`, which the rest of the model uses. `ParseProperties.PanicOnlyWhereTooSmall` and `ParseProperties.ContentTooSmallIff` state what it does on such input. `Server.Server.Run` proves that every connection, including later ones, is served.

