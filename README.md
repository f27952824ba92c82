# WebServer request/response core in Dafny

A model of the protocol logic of `WebServer.java`, a small static-file HTTP
server that answers one connection at a time. The model covers four parts:

- **Request-line parser** (`Request`). `HttpRequest.parseRequest` accepts only
  `GET <target> HTTP/1.0` and `GET <target> HTTP/1.1`, a restricted form of
  the Request-Line in section 5.1 of RFC 2616.
  - The class `Request.HttpRequest` keeps the two fields `filePath` and
    `version`. `ParseRequest` assigns them in the order the Java code does,
    over the constructor's defaults (a null path and version `1.0`).
  - The function `Request.Parse` states, for any line and any prior field
    values, what the call returns and which field values it leaves. A return
    can be `Accepted`, `Rejected`, or one of the two runtime exceptions the
    code can throw.
  - Java's `String.split(" ")` is modelled in `JavaString` and proved inverse
    to joining with single spaces.
- **Response framing** (`Response`). Every response is the status line of
  section 6.1 of RFC 2616, then CR LF CR LF, then the body. The model covers:
  - `formHttpResponse` for 200 and 404, with the file-read outcome as an input;
  - the 400 response built inside `handleClientSocket`;
  - `concatenate` with its two `System.arraycopy` calls, over arrays;
  - `ReadReply`, a client-side reader that is the framing's inverse.
- **Error pages** (`Response`). `get404response` and `get400response` are
  fixed HTML templates with the path inserted verbatim; a null path prints as
  `null`.
- **Session** (`Session`). `handleClientSocket` serves one connection and
  re-enters itself while the request just answered said version `1.1`,
  persistence in the spirit of section 8.1 of RFC 2616.
  - `HandleClientSocket` is a loop over the results of the `readLine()` each
    call makes: a line, end of stream, or a failure (an I/O error, or the
    2000 ms timeout). Each call reads through a new `BufferedReader`, so the
    k-th result is what the k-th call's fresh reader returns.
  - It is proved equal to the recursive function `Serve`, which has the
    source's own recursive shape.
  - The filesystem is a function from path to `Option<bytes>`.
  - The output is the sequence of responses written, plus how the session
    ended: `Closed`; `Aborted`, when an exception escapes the first call,
    which nothing catches, so the server's accept loop dies; or
    `AwaitingInput`, when the given reads run out.

Behaviour of the code worth knowing, all of it kept in the model:

- End of stream (a null line) is answered with a 400 page, with version `1.0`
  and the path `null`, and the connection then closes.
- Only characters 0 to 7 of the third token are examined, so a longer token
  such as `HTTP/1.1xyz` is accepted.
- The 400 status line carries whatever version the parser assigned before
  rejecting the line; a version `1.1` assigned there also keeps the connection
  open.
- The only test on the line read is the identity comparison `header != ""`
  (WebServer.java:55). `readLine` returns a fresh string, so the test is always
  true and the empty line is parsed. `"".split(" ")` is `[""]`, so the empty
  line is rejected with the fields untouched, and it gets the 400 with the
  defaults (`Request.ParseEmptyLine`).
- Every request line gets a fresh `HttpRequest` (WebServer.java:47). Nothing
  carries over between requests except the persistence decision.

## Model

| member | source | states |
|---|---|---|
| `Bytes.GetBytesRoundTrip` | WebServer.java:123 | an ASCII string encoded by `getBytes()` decodes back to itself |
| `Bytes.GetBytesAppend` | WebServer.java:119-123 | encoding distributes over the string concatenations of the status line builders |
| `Bytes.EncodeControl` | WebServer.java:166 | a space, CR or LF byte in an encoded string comes only from that character |
| `JavaString.SplitTokens` | WebServer.java:206 | no token of `split(" ")` contains a space; the result is `[""]` exactly for the empty line; otherwise its last token is non-empty |
| `JavaString.SplitJoin` | WebServer.java:206 | the tokens joined by single spaces give the line without its trailing spaces (empty tokens between spaces are kept) |
| `JavaString.SplitCharacterization` | WebServer.java:206 | a line splits into a given token list (two or more tokens, no spaces inside, last non-empty) exactly when the line is those tokens joined by single spaces plus trailing spaces |
| `JavaString.SplitEmptyIff` | WebServer.java:206-208 | `split` yields no token exactly when the line is non-empty and made only of spaces |
| `JavaString.SplitKeepsOut` | WebServer.java:206 | a character absent from the line is absent from every token |
| `Request.HttpRequest.constructor` | WebServer.java:190-194 | a new request holds a null path and version `1.0` |
| `Request.HttpRequest.ParseRequest` | WebServer.java:204-223 | the status returned and the fields left are those of `Parse` on the old fields, including the field values at a throw |
| `Request.ParseAcceptsExactly` | WebServer.java:206-222 | a line is accepted exactly when, without trailing spaces, it is `GET <target> HTTP/<1.0 or 1.1><extra>` with a non-empty, space-free target and space-free extra |
| `Request.ParseRequestLine` | WebServer.java:213-214 | on such a line the path is the target minus its first character and the version is the one named |
| `Request.ParseGetLine` | WebServer.java:208-222 | for a `GET` line of three tokens: an empty target throws with fields untouched; a third token under 8 characters throws with the path already set; otherwise path and version are set, and acceptance holds exactly when the token begins `HTTP/` and names 1.0 or 1.1; a rejection keeps the salvaged fields |
| `Request.ParseRejectsOtherMethods` | WebServer.java:208-210 | a line not starting with `GET ` (other than blank ones) is rejected with the fields untouched |
| `Request.ParseRejectsTokenCount` | WebServer.java:208-210 | a line with a token count other than three is rejected with the fields untouched |
| `Request.ParseBlankLine` | WebServer.java:206-208 | reading the first token throws exactly for a non-empty line of only spaces |
| `Request.ParseEmptyLine` | WebServer.java:53-57 | the empty line, which the identity test lets through, is rejected with the fields untouched |
| `Request.ParseChecked` | WebServer.java:213-214 | the corrected parser never throws and agrees with the code wherever the code does not throw |
| `Response.ReadReplyFrame` | WebServer.java:119-125 | a client reading a framed response gets back exactly the version, the status and the body |
| `Response.FoundResponse` | WebServer.java:118-125 | a read file is sent as `HTTP/<version> 200 OK` CR LF CR LF and its bytes unchanged; dropping that prefix, or reading the reply, gives the file back |
| `Response.NotFoundResponse` | WebServer.java:127-135 | any read failure gives `HTTP/<version> 404 Not Found` CR LF CR LF followed by the 404 page for the path |
| `Response.BadRequestReply` | WebServer.java:64-71 | a rejected line gives `HTTP/<version> 400 Bad Request` CR LF CR LF followed by the 400 page |
| `Response.ErrorPagePath` | WebServer.java:155-181 | each error page is its fixed head, the path verbatim (`null` for a null path) and the fixed tail, and the path can be read back |
| `Response.ErrorPagesDistinct` | WebServer.java:159-173 | no 404 page equals any 400 page |
| `Response.NewBytes` | WebServer.java:123 | a new array holding the given bytes |
| `Response.ArrayCopy` | WebServer.java:149-150 | `System.arraycopy` replaces exactly the `length` bytes from `destPos` and nothing else |
| `Response.Concatenate` | WebServer.java:147-152 | a new array holding `buffer1` followed by `buffer2`, of length `buffer1.length + buffer2.length`; the inputs are not written |
| `Response.FormHttpResponse` | WebServer.java:110-137 | the array returned holds the 200 response for a read file and the 404 response otherwise |
| `Session.AnswerRequest` | WebServer.java:45-73 | one pass over a fresh request yields exactly the response (or exception) and persistence flag of `Exchange` |
| `Session.HandleClientSocket` | WebServer.java:43-91 | the responses sent and the way the session ends are those of the recursive `Serve` |
| `Session.ExchangePersistence` | WebServer.java:73-90 | after a response the connection stays open exactly when the request's version is `1.1`; end of stream gets the default 400 and closes; only a read failure or a parse exception ends a call without a response |
| `Session.ExchangeReply` | WebServer.java:59-73 | every response reads back with the request's version; its status is 200 (body is the file) exactly when accepted and read, 404 exactly when accepted but not read, 400 exactly when rejected or at end of stream |
| `Session.VersionPrintable` | WebServer.java:214 | every version put in a status line is free of spaces and carriage returns |
| `Session.ServeAnswersInOrder` | WebServer.java:73-90 | the k-th response answers the k-th read, and every response but the last was for a request with version `1.1` |
| `Session.ServeShape` | WebServer.java:73-90 | the count of responses and the session's end, in terms of the leading run of persistent requests; a timeout or error after a response closes with nothing more sent |
| `Session.AbortsOnlyAtFirstRead` | WebServer.java:76-82 | an exception takes the server down only at the first read or parse of a connection, before any response |
| `Session.ServeRepliesFramed` | WebServer.java:59-73 | every response of a session is a well-framed 200, 404 or 400 response |
| `Session.ExchangeRequestLine` | WebServer.java:56-62 | a well-formed request line (any space-free text after the version) is answered from the file its target names, in its version, persisting exactly for 1.1 |
| `Session.IndexScenario` | WebServer.java:118-125 | `GET /index.html HTTP/1.0` for a file holding `hi` gives exactly `HTTP/1.0 200 OK` CR LF CR LF `hi`, then the connection closes |
| `Session.PostScenario` | WebServer.java:61-71 | `POST / HTTP/1.0` gives the 400 response with version 1.0 and a null path, then the connection closes |
| `Session.MissingScenario` | WebServer.java:75-81 | `GET /missing.html HTTP/1.1` for a missing file gives a 1.1 404; a timeout on the next read closes with nothing more sent |
| `Session.KeepAliveScenario` | WebServer.java:75-78 | when the first call's reader returns a 1.1 request and the nested call's fresh reader a 1.0 request, two responses are sent, then the connection closes |
| `Session.EmptyTargetStopsServer` | WebServer.java:213 | as written: a first line `GET  HTTP/1.0` sends nothing and ends with the exception escaping the first call |
| `Session.ExchangeCheckedAnswersEveryLine` | WebServer.java:213-214 | corrected: every line read is answered, and the answer equals the code's wherever the code does not throw |
| `Session.ExchangeCheckedRejectsThrow` | WebServer.java:213-214 | corrected: a line on which the code throws gets the 400 for the fields assigned before the throw point |
| `Session.ServeCheckedKeepsServing` | WebServer.java:75-90 | corrected: no parse exception ends a session, so the server keeps serving; with no throwing line the corrected session equals the code's |
| `Session.EmptyTargetAnswered` | WebServer.java:213 | corrected: `GET  HTTP/1.0` gets the 400 response with the defaults and the connection closes |

## Left out

- `main`, its argument parsing and `System.exit(0)` (WebServer.java:9-21): process start-up.
- `start` with its `ServerSocket` accept loop and `connSocket.close()` (WebServer.java:23-37): socket I/O. A session that ends `Aborted` is where the exception leaves this loop.
- `sendHttpResponse` (WebServer.java:98-103): sending is appending to the output sequence. Write failures are not modelled.
- `Files.readAllBytes(Paths.get(path))` (WebServer.java:118): the read outcome comes from a function from path to `Option<bytes>`. Path resolution, `InvalidPathException` and every I/O error are folded into that outcome, as the code folds them into the 404 branch.
- `setSoTimeout(2000)` and the `close()` calls: timing and resource release (the `BufferedReader` is covered under Session.HandleClientSocket below). A timeout is one kind of read result. The first read has no timeout in the code, so there a failure stands for an I/O error.
- `System.out` logging, and the unused `headers` table (WebServer.java:188).
- `getBytes()` uses the platform charset. The model fixes it as US-ASCII, with `?` for a non-ASCII character.
- Response.ArrayCopy: requires two different arrays. Java's copy within one array, with overlap, is not modelled, and `concatenate` never does it.
- Request.Parse: a Dafny string is a sequence of Unicode scalar values, while Java indexes a `String` by UTF-16 code units. For a line holding a character outside the Basic Multilingual Plane the `substring` positions differ: `GET /a HTTP/1` followed by U+1F600 is rejected with a 400 by the code, but throws in the model, and `substring(1)` on a target starting with such a character leaves a lone surrogate (printed `?`) where the model drops the whole character. The model is exact for lines of BMP characters.
- Session.Serve: the keep-alive recursion has no depth bound here. The code recurses once per persistent request (WebServer.java:78), and a `StackOverflowError`, which `catch (Exception e)` does not catch, would leave `start` and stop the server after enough 1.1 requests on one connection. The JVM stack size is not modelled, so `Session.AbortsOnlyAtFirstRead` holds only below that depth.
- Session.HandleClientSocket: each call builds a new `BufferedReader` on the socket (WebServer.java:49), so whatever the previous call's reader buffered past its line (header lines, or a pipelined request line in the same segment) is lost, and the nested `readLine` waits for new bytes. The model takes as input what each call's reader returns, not the client's byte stream; the buffering and the loss are not modelled.
- Session.ServeRepliesFramed: assumes that no line holds a carriage return. `readLine` guarantees this, since it ends a line there.

## Findings

| source | as written | input that shows it | evidently intended | confidence | as-written member | corrected member |
|---|---|---|---|---|---|---|
| WebServer.java:213-214 | `substring(1)` on an empty target, or `substring(5,8)` on a third token under 8 characters, throws. Around the first `handleClientSocket` call nothing catches it, so no response is sent and the exception leaves `start`'s accept loop | first request line `GET  HTTP/1.0` (two spaces) | a malformed line is answered with 400 Bad Request and the server keeps serving | high; not executed | `Session.EmptyTargetStopsServer` | `Session.ServeCheckedKeepsServing` |

The session model keeps the code as written, because the model describes what the code does. `Request.ParseChecked`, `Session.ExchangeChecked` and `Session.ServeChecked` are the corrected parser, exchange and session.
