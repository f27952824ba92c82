/** `handleClientSocket`: one connection, answered request line by request
    line. The source re-enters itself for each further request on a
    persistent (HTTP/1.1) connection, in the spirit of section 8.1 of RFC 2616;
    here the re-entry is a loop, and the function Serve keeps the
    recursive shape. Reading a line, the filesystem and writing to the socket
    are inputs and an output sequence. */
module Session {
  import opened Wrappers
  import opened Bytes
  import opened JavaString
  import opened Request
  import opened Response

  /** What one `readLine()` on the connection gives. Each call of
      `handleClientSocket` reads through a new `BufferedReader`, so bytes the
      previous call's reader had buffered past its line are lost: the k-th
      element is what the k-th call's fresh reader returns, which is the
      client's k-th line only when the client sends each request line after
      the previous response and nothing after it in the same segment. */
  datatype ReadResult =
    | Line(text: string)   // a line, without its terminator
    | EndOfStream          // null: the client closed its side
    | ReadFailure          // an I/O error, or the 2000 ms timeout once the connection is persistent

  /** Why an exception left the outermost `handleClientSocket`, which nothing catches. */
  datatype Cause = ParseException(fault: Fault) | ReadException

  /** How the session ends. */
  datatype SessionEnd =
    | Closed               // the connection was closed normally
    | Aborted(cause: Cause) // an exception escaped the first call: the server stops
    | AwaitingInput        // the input ran out while the session waits for another line

  /** The responses written to the connection, in order, and how the session ended. */
  datatype Trace = Trace(sent: seq<seq<byte>>, end: SessionEnd)

  /** What reading a path from the working directory gives: the file's bytes or a failure. */
  type FileSystem = string -> Option<seq<byte>>

  /** `Files.readAllBytes(Paths.get(path))`; a null path fails like a missing file. */
  function ReadFile(fs: FileSystem, path: Option<string>): Option<seq<byte>>
  {
    match path
    case None => None
    case Some(p) => fs(p)
  }

  /** One request answered: the response and whether the connection persists,
      or the exception that ends the call. */
  datatype Step = Respond(response: seq<byte>, persist: bool) | Fail(cause: Cause)

  /** The response for the fields a request holds once parsing is over:
      the file's content or a 404 when the line was accepted, a 400 otherwise;
      the connection persists when the version is `1.1`. An exception that
      parsing raised ends the call instead. */
  function Answer(o: Outcome, fs: FileSystem): Step
  {
    match o.status
    case Threw(f) => Fail(ParseException(f))
    case Accepted => Respond(FormResponse(o.filePath, o.version, ReadFile(fs, o.filePath)), o.version == "1.1")
    case Rejected => Respond(BadRequestResponse(o.filePath, o.version), o.version == "1.1")
  }

  /** One call of `handleClientSocket` up to its persistence decision, on a fresh HttpRequest. */
  function Exchange(read: ReadResult, fs: FileSystem): Step
  {
    if read == ReadFailure then Fail(ReadException) else Answer(FieldsOf(read), fs)
  }

  /** The fields a request holds when the response is built: parsed from the
      line, or left at the constructor's defaults (and not valid) when the
      stream had ended and nothing was parsed. */
  function FieldsOf(read: ReadResult): Outcome
  {
    match read
    case Line(header) => Parse(header, None, DefaultVersion)
    case _ => Outcome(Rejected, None, DefaultVersion)
  }

  /** The session over the successive reads of the connection; `nested` says that this call runs
      inside an earlier one, whose handler catches what it throws. */
  function Serve(incoming: seq<ReadResult>, fs: FileSystem, nested: bool): Trace
    decreases |incoming|
  {
    if |incoming| == 0 then Trace([], AwaitingInput)
    else
      match Exchange(incoming[0], fs)
      case Fail(cause) => Trace([], if nested then Closed else Aborted(cause))
      case Respond(response, persist) =>
        if persist then
          var rest := Serve(incoming[1..], fs, true);
          Trace([response] + rest.sent, rest.end)
        else Trace([response], Closed)
  }

  /** One pass of `handleClientSocket` up to its persistence decision: reads
      nothing itself, is handed what `readLine()` gave, parses it into a fresh
      HttpRequest and builds the response (the 400 branch inline, as the source
      has it), or ends in the exception the parse or the read raised. */
  method AnswerRequest(read: ReadResult, fs: FileSystem) returns (step: Step)
    ensures step == Exchange(read, fs)
  {
    var request := new HttpRequest();
    var valid := false;
    match read {
      case ReadFailure =>
        return Fail(ReadException);
      case EndOfStream =>
      case Line(header) =>
        var status := request.ParseRequest(header);
        if status.Threw? {
          return Fail(ParseException(status.fault));
        }
        valid := status == Accepted;
    }
    var response: array<byte>;
    if valid {
      response := FormHttpResponse(request, ReadFile(fs, request.filePath));
    } else {
      var response400 := NewBytes(Get400Response(request.filePath));
      var str := NewBytes(GetBytes(StatusLine(request.version, BadRequestStatus)));
      response := Concatenate(str, response400);
    }
    return Respond(response[..], request.version == "1.1");
  }

  /** `handleClientSocket(client)`: answers the reads in order on one connection,
      going on only while the request just answered said version 1.1. */
  method HandleClientSocket(incoming: seq<ReadResult>, fs: FileSystem) returns (sent: seq<seq<byte>>, end: SessionEnd)
    ensures Trace(sent, end) == Serve(incoming, fs, false)
  {
    sent := [];
    var rest := incoming;
    var nested := false;
    while true
      invariant |rest| <= |incoming|
      invariant nested == (|rest| < |incoming|)
      invariant Serve(incoming, fs, false) == Trace(sent + Serve(rest, fs, nested).sent, Serve(rest, fs, nested).end)
      decreases |rest|
    {
      if rest == [] {
        end := AwaitingInput;
        return;
      }
      var step := AnswerRequest(rest[0], fs);
      ServeStep(rest, fs, nested, step);
      match step {
        case Fail(cause) =>
          end := if nested then Closed else Aborted(cause);
          return;
        case Respond(response, persist) =>
          if !persist {
            sent := sent + [response];
            end := Closed;
            return;
          }
          var later := Serve(rest[1..], fs, true);
          assert sent + ([response] + later.sent) == (sent + [response]) + later.sent;
          sent := sent + [response];
          rest := rest[1..];
          nested := true;
      }
    }
  }

  /** Serve with its first exchange unfolded, in terms of that exchange's step. */
  lemma ServeStep(rest: seq<ReadResult>, fs: FileSystem, nested: bool, step: Step)
    requires |rest| > 0 && Exchange(rest[0], fs) == step
    ensures step.Fail? ==> Serve(rest, fs, nested) == Trace([], if nested then Closed else Aborted(step.cause))
    ensures step.Respond? && !step.persist ==> Serve(rest, fs, nested) == Trace([step.response], Closed)
    ensures step.Respond? && step.persist ==>
      Serve(rest, fs, nested) == Trace([step.response] + Serve(rest[1..], fs, true).sent, Serve(rest[1..], fs, true).end)
  {
  }

  // ---------------------------------------------------------------------------
  // Properties of one exchange

  /** A line read from the connection never holds a carriage return: `readLine` ends the line there. */
  predicate FromReadLine(read: ReadResult)
  {
    read.Line? ==> '\r' !in read.text
  }

  /** Every version the server answers with is free of spaces and carriage returns. */
  lemma VersionPrintable(read: ReadResult)
    requires FromReadLine(read)
    ensures Printable(FieldsOf(read).version)
  {
    if read.Line? {
      var tokens := Split(read.text);
      SplitTokens(read.text);
      SplitKeepsOut(read.text, '\r');
      if |tokens| == 3 && |tokens[2]| >= 8 {
        assert forall j :: 5 <= j < 8 ==> tokens[2][j] in tokens[2];
      }
    }
  }

  /** The connection stays open after a response exactly when the request's
      version is `1.1`, a 400 for a rejected line with a salvaged `1.1` included;
      an ended stream is answered with the defaults and always closes. */
  lemma ExchangePersistence(read: ReadResult, fs: FileSystem)
    ensures Exchange(read, fs).Respond? ==> (Exchange(read, fs).persist <==> read.Line? && FieldsOf(read).version == "1.1")
    ensures read == EndOfStream ==> Exchange(read, fs) == Respond(BadRequestResponse(None, "1.0"), false)
    ensures Exchange(read, fs).Fail? <==> read == ReadFailure || FieldsOf(read).status.Threw?
  {
  }

  /** Every response is a status line a client can read back, and its status
      says why: 200 with the file's bytes as the body exactly when the line was
      accepted and the file read, 404 when it was accepted but the file could
      not be read, 400 when the line was rejected or the stream had ended. */
  lemma ExchangeReply(read: ReadResult, fs: FileSystem)
    requires FromReadLine(read)
    ensures Exchange(read, fs).Respond? ==>
      var o := FieldsOf(read);
      var file := ReadFile(fs, o.filePath);
      var rep := ReadReply(Exchange(read, fs).response);
      rep.Some? && rep.value.version == GetBytes(o.version) &&
      (rep.value.status == GetBytes(OkStatus) <==> o.status == Accepted && file.Some?) &&
      (rep.value.status == GetBytes(NotFoundStatus) <==> o.status == Accepted && file.None?) &&
      (rep.value.status == GetBytes(BadRequestStatus) <==> o.status != Accepted) &&
      (rep.value.status == GetBytes(OkStatus) ==> rep.value.body == file.value)
  {
    var o := FieldsOf(read);
    VersionPrintable(read);
    assert |GetBytes(OkStatus)| == 6 && |GetBytes(NotFoundStatus)| == 13 && |GetBytes(BadRequestStatus)| == 15;
    if Exchange(read, fs).Respond? {
      if o.status == Accepted {
        match ReadFile(fs, o.filePath)
        case Some(content) => FoundResponse(o.filePath, o.version, content);
        case None => NotFoundResponse(o.filePath, o.version);
      } else {
        BadRequestReply(o.filePath, o.version);
      }
    }
  }

  // ---------------------------------------------------------------------------
  // Properties of the session

  /** How many reads from the start are answered with the connection kept open. */
  function PersistentRun(incoming: seq<ReadResult>, fs: FileSystem): (n: nat)
    ensures n <= |incoming|
    decreases |incoming|
  {
    if |incoming| == 0 then 0
    else match Exchange(incoming[0], fs)
      case Respond(_, true) => 1 + PersistentRun(incoming[1..], fs)
      case _ => 0
  }

  /** The k-th response sent answers the k-th read, and every response but the
      last was sent for a request that kept the connection open. */
  lemma {:induction false} ServeAnswersInOrder(incoming: seq<ReadResult>, fs: FileSystem, nested: bool, k: nat)
    requires k < |Serve(incoming, fs, nested).sent|
    ensures k < |incoming| && Exchange(incoming[k], fs).Respond?
    ensures Serve(incoming, fs, nested).sent[k] == Exchange(incoming[k], fs).response
    ensures k + 1 < |Serve(incoming, fs, nested).sent| ==> Exchange(incoming[k], fs).persist
    decreases k
  {
    if k > 0 {
      assert Exchange(incoming[0], fs).Respond? && Exchange(incoming[0], fs).persist;
      ServeAnswersInOrder(incoming[1..], fs, true, k - 1);
    }
  }

  /** How many responses are sent and how the session ends, in terms of the
      run of persistent requests at the start: one more response if the read
      after the run is answered; closed after it, or by a failure while a
      persistent connection waits; aborted only when the very first read fails. */
  lemma {:induction false} ServeShape(incoming: seq<ReadResult>, fs: FileSystem, nested: bool)
    ensures var t, n := Serve(incoming, fs, nested), PersistentRun(incoming, fs);
      if n == |incoming| then |t.sent| == n && t.end == AwaitingInput
      else match Exchange(incoming[n], fs)
        case Respond(_, _) => |t.sent| == n + 1 && t.end == Closed
        case Fail(cause) => |t.sent| == n && t.end == (if nested || n > 0 then Closed else Aborted(cause))
    decreases |incoming|
  {
    if |incoming| > 0 {
      match Exchange(incoming[0], fs)
      case Respond(_, true) => ServeShape(incoming[1..], fs, true);
      case _ =>
    }
  }

  /** Nothing aborts a session once a response has been sent: only the first
      read, or the parse of the first line, can take the server down. */
  lemma AbortsOnlyAtFirstRead(incoming: seq<ReadResult>, fs: FileSystem, nested: bool)
    requires Serve(incoming, fs, nested).end.Aborted?
    ensures !nested && Serve(incoming, fs, nested).sent == []
    ensures |incoming| > 0 && Exchange(incoming[0], fs) == Fail(Serve(incoming, fs, nested).end.cause)
  {
    ServeShape(incoming, fs, nested);
  }

  /** Every response of a session is a well-framed 200, 404 or 400 response. */
  lemma ServeRepliesFramed(incoming: seq<ReadResult>, fs: FileSystem, nested: bool, k: nat)
    requires forall i :: 0 <= i < |incoming| ==> FromReadLine(incoming[i])
    requires k < |Serve(incoming, fs, nested).sent|
    ensures var rep := ReadReply(Serve(incoming, fs, nested).sent[k]);
      rep.Some? && rep.value.status in {GetBytes(OkStatus), GetBytes(NotFoundStatus), GetBytes(BadRequestStatus)}
  {
    ServeAnswersInOrder(incoming, fs, nested, k);
    ExchangeReply(incoming[k], fs);
  }

  // ---------------------------------------------------------------------------
  // Scenarios

  /** A well-formed request line is answered from the file its target names
      (first character removed), in the version it asks for, and persists
      exactly when that version is 1.1. */
  lemma ExchangeRequestLine(line: string, target: string, version: string, extra: string, fs: FileSystem)
    requires WellFormed(target, version, extra) && TrimRight(line) == RequestLine(target, version, extra)
    ensures Exchange(Line(line), fs) == Respond(FormResponse(Some(target[1..]), version, fs(target[1..])), version == "1.1")
  {
    ParseRequestLine(line, target, version, extra, None, DefaultVersion);
  }

  /** A response that closes the connection is the last one sent. */
  lemma ServeCloses(incoming: seq<ReadResult>, fs: FileSystem, nested: bool, response: seq<byte>)
    requires |incoming| > 0 && Exchange(incoming[0], fs) == Respond(response, false)
    ensures Serve(incoming, fs, nested) == Trace([response], Closed)
  {
  }

  /** A persistent response followed by a failed read is all that is sent. */
  lemma ServeThenTimeout(incoming: seq<ReadResult>, fs: FileSystem, response: seq<byte>)
    requires |incoming| > 1 && Exchange(incoming[0], fs) == Respond(response, true) && incoming[1] == ReadFailure
    ensures Serve(incoming, fs, false) == Trace([response], Closed)
  {
  }

  /** A persistent response followed by a closing one. */
  lemma ServeTwo(incoming: seq<ReadResult>, fs: FileSystem, first: seq<byte>, second: seq<byte>)
    requires |incoming| > 1 && Exchange(incoming[0], fs) == Respond(first, true) && Exchange(incoming[1], fs) == Respond(second, false)
    ensures Serve(incoming, fs, false) == Trace([first, second], Closed)
  {
    assert incoming[1..][0] == incoming[1];
    ServeCloses(incoming[1..], fs, true, second);
    assert Serve(incoming, fs, false) == Trace([first] + [second], Closed);
  }

  lemma IndexExchange(fs: FileSystem)
    ensures Exchange(Line("GET /index.html HTTP/1.0"), fs) == Respond(FormResponse(Some("index.html"), "1.0", fs("index.html")), false)
  {
    var line := "GET /index.html HTTP/1.0";
    assert line[|line| - 1] == '0';
    assert TrimRight(line) == RequestLine("/index.html", "1.0", "");
    assert "/index.html"[1..] == "index.html";
    ExchangeRequestLine(line, "/index.html", "1.0", "", fs);
  }

  lemma IndexBytes()
    ensures FormResponse(Some("index.html"), "1.0", Some(GetBytes("hi"))) == GetBytes("HTTP/1.0 200 OK\r\n\r\nhi")
  {
    assert StatusLine("1.0", OkStatus) == "HTTP/1.0 200 OK\r\n\r\n";
    GetBytesAppend("HTTP/1.0 200 OK\r\n\r\n", "hi");
  }

  /** `GET /index.html HTTP/1.0` for a file holding `hi` is answered with
      `HTTP/1.0 200 OK`, an empty line and `hi`, and the connection closes. */
  lemma IndexScenario(fs: FileSystem, rest: seq<ReadResult>)
    requires fs("index.html") == Some(GetBytes("hi"))
    ensures Serve([Line("GET /index.html HTTP/1.0")] + rest, fs, false) == Trace([GetBytes("HTTP/1.0 200 OK\r\n\r\nhi")], Closed)
  {
    IndexExchange(fs);
    IndexBytes();
    ServeCloses([Line("GET /index.html HTTP/1.0")] + rest, fs, false, GetBytes("HTTP/1.0 200 OK\r\n\r\nhi"));
  }

  lemma PostExchange(fs: FileSystem)
    ensures Exchange(Line("POST / HTTP/1.0"), fs) == Respond(BadRequestResponse(None, "1.0"), false)
  {
    var line := "POST / HTTP/1.0";
    assert line[|line| - 1] == '0';
    assert TrimRight(line) == line;
    assert line[0] == 'P';
    ParseRejectsOtherMethods(line, None, DefaultVersion);
  }

  /** `POST / HTTP/1.0` is answered with a 400 naming a null path, and the connection closes. */
  lemma PostScenario(fs: FileSystem, rest: seq<ReadResult>)
    ensures Serve([Line("POST / HTTP/1.0")] + rest, fs, false) == Trace([BadRequestResponse(None, "1.0")], Closed)
  {
    PostExchange(fs);
    ServeCloses([Line("POST / HTTP/1.0")] + rest, fs, false, BadRequestResponse(None, "1.0"));
  }

  lemma MissingExchange(fs: FileSystem)
    ensures Exchange(Line("GET /missing.html HTTP/1.1"), fs) == Respond(FormResponse(Some("missing.html"), "1.1", fs("missing.html")), true)
  {
    var line := "GET /missing.html HTTP/1.1";
    assert line[|line| - 1] == '1';
    assert TrimRight(line) == RequestLine("/missing.html", "1.1", "");
    assert "/missing.html"[1..] == "missing.html";
    ExchangeRequestLine(line, "/missing.html", "1.1", "", fs);
  }

  /** `GET /missing.html HTTP/1.1` for a missing file is answered with a 1.1
      404; the connection then waits, and a timeout closes it with nothing more sent. */
  lemma MissingScenario(fs: FileSystem, rest: seq<ReadResult>)
    requires fs("missing.html") == None
    ensures Serve([Line("GET /missing.html HTTP/1.1"), ReadFailure] + rest, fs, false) ==
      Trace([FormResponse(Some("missing.html"), "1.1", None)], Closed)
  {
    MissingExchange(fs);
    ServeThenTimeout([Line("GET /missing.html HTTP/1.1"), ReadFailure] + rest, fs, FormResponse(Some("missing.html"), "1.1", None));
  }

  lemma KeepAliveExchanges(fs: FileSystem)
    ensures Exchange(Line("GET /a HTTP/1.1"), fs) == Respond(FormResponse(Some("a"), "1.1", fs("a")), true)
    ensures Exchange(Line("GET /b HTTP/1.0"), fs) == Respond(FormResponse(Some("b"), "1.0", fs("b")), false)
  {
    var first, second := "GET /a HTTP/1.1", "GET /b HTTP/1.0";
    assert first[|first| - 1] == '1' && second[|second| - 1] == '0';
    assert TrimRight(first) == RequestLine("/a", "1.1", "");
    assert TrimRight(second) == RequestLine("/b", "1.0", "");
    ExchangeRequestLine(first, "/a", "1.1", "", fs);
    ExchangeRequestLine(second, "/b", "1.0", "", fs);
  }

  /** Two requests on one persistent connection: the first says 1.1, so the
      second is read and answered; it says 1.0, so the connection then closes. */
  lemma KeepAliveScenario(fs: FileSystem, rest: seq<ReadResult>)
    ensures Serve([Line("GET /a HTTP/1.1"), Line("GET /b HTTP/1.0")] + rest, fs, false) ==
      Trace([FormResponse(Some("a"), "1.1", fs("a")), FormResponse(Some("b"), "1.0", fs("b"))], Closed)
  {
    KeepAliveExchanges(fs);
    ServeTwo([Line("GET /a HTTP/1.1"), Line("GET /b HTTP/1.0")] + rest, fs, FormResponse(Some("a"), "1.1", fs("a")), FormResponse(Some("b"), "1.0", fs("b")));
  }

  // ---------------------------------------------------------------------------
  // An exception from the parser stops the server

  lemma ServeAborts(incoming: seq<ReadResult>, fs: FileSystem, cause: Cause)
    requires |incoming| > 0 && Exchange(incoming[0], fs) == Fail(cause)
    ensures Serve(incoming, fs, false) == Trace([], Aborted(cause))
  {
  }

  lemma EmptyTargetParse()
    ensures Parse("GET  HTTP/1.0", None, DefaultVersion) == Outcome(Threw(StringIndexOutOfBounds), None, DefaultVersion)
  {
    var line := "GET  HTTP/1.0";
    assert line[|line| - 1] == '0';
    assert TrimRight(line) == GetLine("", "HTTP/1.0");
    ParseGetLine(line, "", "HTTP/1.0", None, DefaultVersion);
  }

  lemma EmptyTargetExchange(fs: FileSystem)
    ensures Exchange(Line("GET  HTTP/1.0"), fs) == Fail(ParseException(StringIndexOutOfBounds))
  {
    EmptyTargetParse();
  }

  /** As written: a first line `GET  HTTP/1.0` (two spaces, so an empty target)
      makes `substring(1)` throw; nothing catches it around the first call, so
      no response is sent and the exception leaves the server's accept loop. */
  lemma EmptyTargetStopsServer(fs: FileSystem, rest: seq<ReadResult>)
    ensures Serve([Line("GET  HTTP/1.0")] + rest, fs, false) == Trace([], Aborted(ParseException(StringIndexOutOfBounds)))
  {
    EmptyTargetExchange(fs);
    ServeAborts([Line("GET  HTTP/1.0")] + rest, fs, ParseException(StringIndexOutOfBounds));
  }

  /** One exchange with the parser's exceptions turned into rejections. */
  function ExchangeChecked(read: ReadResult, fs: FileSystem): Step
  {
    match read
    case Line(header) => Answer(ParseChecked(header, None, DefaultVersion), fs)
    case _ => Exchange(read, fs)
  }

  /** Corrected: every line read is answered, a malformed one with a 400, and
      wherever the code as written does not throw the answer is the same. */
  lemma ExchangeCheckedAnswersEveryLine(read: ReadResult, fs: FileSystem)
    ensures read.Line? ==> ExchangeChecked(read, fs).Respond?
    ensures !(Exchange(read, fs).Fail? && Exchange(read, fs).cause.ParseException?) ==> ExchangeChecked(read, fs) == Exchange(read, fs)
  {
  }

  /** Corrected: a line on which the code as written throws is answered with
      the 400 page for the fields assigned before the throw point, persisting
      when that version is 1.1. */
  lemma ExchangeCheckedRejectsThrow(line: string, fs: FileSystem)
    requires Parse(line, None, DefaultVersion).status.Threw?
    ensures var o := Parse(line, None, DefaultVersion);
      ExchangeChecked(Line(line), fs) == Respond(BadRequestResponse(o.filePath, o.version), o.version == "1.1")
  {
  }

  /** The corrected session: the same recursion as Serve over ExchangeChecked. */
  function ServeChecked(incoming: seq<ReadResult>, fs: FileSystem, nested: bool): Trace
    decreases |incoming|
  {
    if |incoming| == 0 then Trace([], AwaitingInput)
    else
      match ExchangeChecked(incoming[0], fs)
      case Fail(cause) => Trace([], if nested then Closed else Aborted(cause))
      case Respond(response, persist) =>
        if persist then
          var rest := ServeChecked(incoming[1..], fs, true);
          Trace([response] + rest.sent, rest.end)
        else Trace([response], Closed)
  }

  /** A read on which the code as written raises no parse exception. */
  predicate ParseSafe(read: ReadResult, fs: FileSystem)
  {
    !(Exchange(read, fs).Fail? && Exchange(read, fs).cause.ParseException?)
  }

  /** Corrected: no parse exception ever ends a session, so the server goes on
      accepting connections; and where no read makes the code as written throw,
      the corrected session sends and ends exactly as the code does. */
  lemma {:induction false} ServeCheckedKeepsServing(incoming: seq<ReadResult>, fs: FileSystem, nested: bool)
    ensures !(ServeChecked(incoming, fs, nested).end.Aborted? && ServeChecked(incoming, fs, nested).end.cause.ParseException?)
    ensures (forall i :: 0 <= i < |incoming| ==> ParseSafe(incoming[i], fs)) ==> ServeChecked(incoming, fs, nested) == Serve(incoming, fs, nested)
    decreases |incoming|
  {
    if |incoming| > 0 {
      ExchangeCheckedAnswersEveryLine(incoming[0], fs);
      ServeCheckedKeepsServing(incoming[1..], fs, true);
      if forall i :: 0 <= i < |incoming| ==> ParseSafe(incoming[i], fs) {
        assert forall i :: 0 <= i < |incoming[1..]| ==> ParseSafe(incoming[1..][i], fs) by {
          forall i | 0 <= i < |incoming[1..]| ensures ParseSafe(incoming[1..][i], fs) {
            assert incoming[1..][i] == incoming[i + 1];
          }
        }
      }
    }
  }

  /** Corrected: the line that stops the server as written gets a 400 with the defaults. */
  lemma EmptyTargetAnswered(fs: FileSystem)
    ensures ExchangeChecked(Line("GET  HTTP/1.0"), fs) == Respond(BadRequestResponse(None, "1.0"), false)
  {
    EmptyTargetParse();
  }
}
