/** Response framing: the status line of section 6.1 of RFC 2616 (with no
    header fields, so the empty line follows it at once) and then the body;
    the 404 and 400 error pages; and the byte-array plumbing that joins them. */
module Response {
  import opened Wrappers
  import opened Bytes
  import opened Request

  const OkStatus: string := "200 OK"
  const NotFoundStatus: string := "404 Not Found"
  const BadRequestStatus: string := "400 Bad Request"

  const NotFoundHeading: string := "ERROR 404: PAGE NOT FOUND"
  const BadRequestHeading: string := "ERROR 400: BAD REQUEST"

  /** The status line for `version` and `status`, with the empty line that ends the header block. */
  function StatusLine(version: string, status: string): string
  {
    "HTTP/" + version + " " + status + "\r\n\r\n"
  }

  /** A whole response: the status line's bytes with the body after them. */
  function Frame(version: string, status: string, body: seq<byte>): seq<byte>
  {
    GetBytes(StatusLine(version, status)) + body
  }

  /** How Java's string concatenation prints a path that may be null. */
  function JavaText(path: Option<string>): string
  {
    match path
    case None => "null"
    case Some(p) => p
  }

  /** The text before and after the path in both error pages. */
  function PageHead(heading: string): string
  {
    "<html><h1>" + heading + "</h1><p>"
  }

  const PageTail: string := " page could not be found. Please try again.</p></html>\r\n"

  /** The HTML error page: a heading and the path inserted as it is, without escaping. */
  function ErrorPage(heading: string, path: Option<string>): string
  {
    PageHead(heading) + JavaText(path) + PageTail
  }

  /** `get404response(path)`. */
  function Get404Response(path: Option<string>): seq<byte>
  {
    GetBytes(ErrorPage(NotFoundHeading, path))
  }

  /** `get400response(path)`. */
  function Get400Response(path: Option<string>): seq<byte>
  {
    GetBytes(ErrorPage(BadRequestHeading, path))
  }

  /** What `formHttpResponse` sends for a request, given what reading its file
      gave: the file's bytes, or None for every kind of failure. */
  function FormResponse(path: Option<string>, version: string, read: Option<seq<byte>>): seq<byte>
  {
    match read
    case Some(content) => Frame(version, OkStatus, content)
    case None => Frame(version, NotFoundStatus, Get404Response(path))
  }

  /** The 400 response `handleClientSocket` builds for a line it does not accept. */
  function BadRequestResponse(path: Option<string>, version: string): seq<byte>
  {
    Frame(version, BadRequestStatus, Get400Response(path))
  }

  // ---------------------------------------------------------------------------
  // Reading a response back, as a client does

  /** A response taken apart: the version, the status (code and reason) and the body. */
  datatype Reply = Reply(version: seq<byte>, status: seq<byte>, body: seq<byte>)

  /** The first position at or after `from` that holds `b`. */
  function FindByte(s: seq<byte>, b: byte, from: nat): (r: Option<nat>)
    requires from <= |s|
    ensures r.Some? ==> from <= r.value < |s| && s[r.value] == b && forall j :: from <= j < r.value ==> s[j] != b
    ensures r.None? ==> forall j :: from <= j < |s| ==> s[j] != b
    decreases |s| - from
  {
    if from == |s| then None
    else if s[from] == b then Some(from)
    else FindByte(s, b, from + 1)
  }

  predicate BlankLineAt(s: seq<byte>, j: nat)
  {
    j + 4 <= |s| && s[j] == CR && s[j + 1] == LF && s[j + 2] == CR && s[j + 3] == LF
  }

  /** The first position at or after `from` where CR LF CR LF starts. */
  function FindBlankLine(s: seq<byte>, from: nat): (r: Option<nat>)
    requires from <= |s|
    ensures r.Some? ==> from <= r.value && BlankLineAt(s, r.value) && forall j :: from <= j < r.value ==> !BlankLineAt(s, j)
    ensures r.None? ==> forall j :: from <= j <= |s| ==> !BlankLineAt(s, j)
    decreases |s| - from
  {
    if from == |s| then None
    else if BlankLineAt(s, from) then Some(from)
    else FindBlankLine(s, from + 1)
  }

  /** A client's reading of a response: `HTTP/`, the version up to the first
      space, the status up to the first empty line, and the rest as the body. */
  function ReadReply(response: seq<byte>): Option<Reply>
  {
    if |response| < 5 || response[..5] != GetBytes("HTTP/") then None
    else match FindByte(response, SP, 5)
      case None => None
      case Some(i) =>
        match FindBlankLine(response, i + 1)
        case None => None
        case Some(j) => Some(Reply(response[5..i], response[i + 1..j], response[j + 4..]))
  }

  // ---------------------------------------------------------------------------
  // Properties of the framing

  /** A version free of spaces and carriage returns, as every version the server sends is. */
  predicate Printable(version: string)
  {
    ' ' !in version && '\r' !in version
  }

  lemma FirstByte(s: seq<byte>, b: byte, from: nat, k: nat)
    requires from <= k < |s| && s[k] == b
    requires forall j :: from <= j < k ==> s[j] != b
    ensures FindByte(s, b, from) == Some(k)
  {
  }

  lemma FirstBlankLine(s: seq<byte>, from: nat, k: nat)
    requires from <= k && BlankLineAt(s, k)
    requires forall j :: from <= j < k ==> s[j] != CR
    ensures FindBlankLine(s, from) == Some(k)
  {
  }

  /** The bytes `HTTP/` that open every response. */
  const HttpPrefix: seq<byte> := [72, 84, 84, 80, 47]

  const BlankLine: seq<byte> := [CR, LF, CR, LF]

  /** A framed response is `HTTP/`, the version, a space, the status, CR LF CR LF and the body. */
  lemma FrameLayout(version: string, status: string, body: seq<byte>)
    ensures Frame(version, status, body) == HttpPrefix + GetBytes(version) + [SP] + GetBytes(status) + BlankLine + body
  {
    GetBytesAppend("HTTP/" + version + " " + status, "\r\n\r\n");
    GetBytesAppend("HTTP/" + version + " ", status);
    GetBytesAppend("HTTP/" + version, " ");
    GetBytesAppend("HTTP/", version);
    assert GetBytes("HTTP/") == HttpPrefix;
    assert GetBytes("\r\n\r\n") == BlankLine;
    assert GetBytes(" ") == [SP];
  }

  /** A client reads back any version without spaces or CRs, any status without CRs and any body. */
  lemma ReadReplyLayout(v: seq<byte>, st: seq<byte>, body: seq<byte>)
    requires SP !in v && CR !in v && CR !in st
    ensures ReadReply(HttpPrefix + v + [SP] + st + BlankLine + body) == Some(Reply(v, st, body))
  {
    var f := HttpPrefix + v + [SP] + st + BlankLine + body;
    var i := 5 + |v|;
    var j := i + 1 + |st|;
    assert f[..5] == HttpPrefix;
    assert GetBytes("HTTP/") == HttpPrefix;
    forall k | 5 <= k < i ensures f[k] != SP {
      assert f[k] == v[k - 5];
    }
    assert f[i] == SP;
    FirstByte(f, SP, 5, i);
    forall k | i + 1 <= k < j ensures f[k] != CR {
      assert f[k] == st[k - i - 1];
    }
    assert f[j..j + 4] == BlankLine;
    FirstBlankLine(f, i + 1, j);
    assert f[5..i] == v && f[i + 1..j] == st && f[j + 4..] == body;
  }

  /** GetBytes yields a space or a CR only where the string has one. */
  lemma GetBytesControl(s: string)
    ensures SP in GetBytes(s) ==> ' ' in s
    ensures CR in GetBytes(s) ==> '\r' in s
  {
    if SP in GetBytes(s) {
      var k :| 0 <= k < |s| && GetBytes(s)[k] == SP;
      EncodeControl(s[k]);
    }
    if CR in GetBytes(s) {
      var k :| 0 <= k < |s| && GetBytes(s)[k] == CR;
      EncodeControl(s[k]);
    }
  }

  /** Round trip: a client reading a framed response gets back the version,
      the status and the body exactly. */
  lemma ReadReplyFrame(version: string, status: string, body: seq<byte>)
    requires Printable(version) && '\r' !in status
    ensures ReadReply(Frame(version, status, body)) == Some(Reply(GetBytes(version), GetBytes(status), body))
  {
    FrameLayout(version, status, body);
    GetBytesControl(version);
    GetBytesControl(status);
    ReadReplyLayout(GetBytes(version), GetBytes(status), body);
  }

  /** The status line spelled out: `HTTP/`, the version, then a literal tail. */
  lemma StatusLineTail(version: string, status: string, tail: string)
    requires tail == " " + status + "\r\n\r\n"
    ensures StatusLine(version, status) == "HTTP/" + version + tail
  {
  }

  /** A file that was read is sent as `HTTP/<version> 200 OK`, an empty line and
      the file's bytes unchanged: dropping that prefix gives the file back, and
      so does a client reading the response. */
  lemma FoundResponse(path: Option<string>, version: string, content: seq<byte>)
    requires Printable(version)
    ensures var r := FormResponse(path, version, Some(content));
      var prefix := GetBytes("HTTP/" + version + " 200 OK\r\n\r\n");
      |prefix| <= |r| && r[..|prefix|] == prefix && r[|prefix|..] == content &&
      ReadReply(r) == Some(Reply(GetBytes(version), GetBytes(OkStatus), content))
  {
    StatusLineTail(version, OkStatus, " 200 OK\r\n\r\n");
    ReadReplyFrame(version, OkStatus, content);
  }

  /** A file that could not be read, for whatever reason, is answered with
      `HTTP/<version> 404 Not Found` and the 404 page naming the path. */
  lemma NotFoundResponse(path: Option<string>, version: string)
    requires Printable(version)
    ensures var r := FormResponse(path, version, None);
      r == GetBytes("HTTP/" + version + " 404 Not Found\r\n\r\n") + Get404Response(path) &&
      ReadReply(r) == Some(Reply(GetBytes(version), GetBytes(NotFoundStatus), Get404Response(path)))
  {
    StatusLineTail(version, NotFoundStatus, " 404 Not Found\r\n\r\n");
    ReadReplyFrame(version, NotFoundStatus, Get404Response(path));
  }

  /** A rejected line is answered with `HTTP/<version> 400 Bad Request` and the 400 page. */
  lemma BadRequestReply(path: Option<string>, version: string)
    requires Printable(version)
    ensures var r := BadRequestResponse(path, version);
      r == GetBytes("HTTP/" + version + " 400 Bad Request\r\n\r\n") + Get400Response(path) &&
      ReadReply(r) == Some(Reply(GetBytes(version), GetBytes(BadRequestStatus), Get400Response(path)))
  {
    StatusLineTail(version, BadRequestStatus, " 400 Bad Request\r\n\r\n");
    ReadReplyFrame(version, BadRequestStatus, Get400Response(path));
  }

  // ---------------------------------------------------------------------------
  // Error pages

  /** A client's reading of an error page with a known heading: the text between the fixed head and tail. */
  function PagePath(page: seq<byte>, heading: string): Option<seq<byte>>
  {
    var head, tail := GetBytes(PageHead(heading)), GetBytes(PageTail);
    if |head| + |tail| <= |page| && page[..|head|] == head && page[|page| - |tail|..] == tail
    then Some(page[|head|..|page| - |tail|])
    else None
  }

  /** Both error pages carry the path verbatim (a null path as the text `null`)
      between their fixed head and tail. */
  lemma ErrorPagePath(heading: string, path: Option<string>)
    ensures PagePath(GetBytes(ErrorPage(heading, path)), heading) == Some(GetBytes(JavaText(path)))
    ensures path.None? ==> PagePath(GetBytes(ErrorPage(heading, path)), heading) == Some(GetBytes("null"))
  {
    var head, text, tail := GetBytes(PageHead(heading)), GetBytes(JavaText(path)), GetBytes(PageTail);
    GetBytesAppend(PageHead(heading) + JavaText(path), PageTail);
    GetBytesAppend(PageHead(heading), JavaText(path));
    var page := head + text + tail;
    assert page[..|head|] == head;
    assert page[|page| - |tail|..] == tail;
    assert page[|head|..|page| - |tail|] == text;
  }

  /** No 404 page is a 400 page: the two differ in their heading, whatever the paths. */
  lemma ErrorPagesDistinct(path1: Option<string>, path2: Option<string>)
    ensures Get404Response(path1) != Get400Response(path2)
  {
    var p1, p2 := ErrorPage(NotFoundHeading, path1), ErrorPage(BadRequestHeading, path2);
    assert p1[18] == '4' && p2[18] == '0';
    assert Get404Response(path1)[18] != Get400Response(path2)[18];
  }

  // ---------------------------------------------------------------------------
  // Byte arrays

  /** A new array holding `s`: what `getBytes()` and `readAllBytes` hand back. */
  method NewBytes(s: seq<byte>) returns (a: array<byte>)
    ensures fresh(a) && a[..] == s
  {
    a := new byte[|s|](i requires 0 <= i < |s| => s[i]);
  }

  /** `System.arraycopy` between two different arrays: `length` bytes of `src`
      from `srcPos` replace those of `dest` from `destPos`; nothing else changes. */
  method ArrayCopy(src: array<byte>, srcPos: nat, dest: array<byte>, destPos: nat, length: nat)
    requires src != dest
    requires srcPos + length <= src.Length && destPos + length <= dest.Length
    modifies dest
    ensures dest[..] == old(dest[..destPos]) + src[srcPos..srcPos + length] + old(dest[destPos + length..])
  {
    var i := 0;
    while i < length
      invariant 0 <= i <= length
      invariant forall k :: destPos <= k < destPos + i ==> dest[k] == src[srcPos + (k - destPos)]
      invariant forall k :: 0 <= k < dest.Length && !(destPos <= k < destPos + i) ==> dest[k] == old(dest[k])
    {
      dest[destPos + i] := src[srcPos + i];
      i := i + 1;
    }
    ghost var expected := old(dest[..destPos]) + src[srcPos..srcPos + length] + old(dest[destPos + length..]);
    assert |expected| == dest.Length;
    assert forall k :: 0 <= k < dest.Length ==> dest[k] == expected[k];
  }

  /** `concatenate`: a new array of `buffer1.length + buffer2.length` bytes,
      `buffer1` first and `buffer2` after it; neither input is changed. */
  method Concatenate(buffer1: array<byte>, buffer2: array<byte>) returns (r: array<byte>)
    ensures fresh(r)
    ensures r.Length == buffer1.Length + buffer2.Length
    ensures r[..] == buffer1[..] + buffer2[..]
  {
    r := new byte[buffer1.Length + buffer2.Length];
    ArrayCopy(buffer1, 0, r, 0, buffer1.Length);
    ArrayCopy(buffer2, 0, r, buffer1.Length, buffer2.Length);
    assert r[..] == r[..buffer1.Length] + r[buffer1.Length..];
  }

  /** `formHttpResponse(request)`, given what reading the request's file gave. */
  method FormHttpResponse(request: HttpRequest, read: Option<seq<byte>>) returns (response: array<byte>)
    ensures fresh(response)
    ensures response[..] == FormResponse(request.filePath, request.version, read)
  {
    match read {
      case Some(bytes) =>
        var content := NewBytes(bytes);
        var tempbuf := NewBytes(GetBytes(StatusLine(request.version, OkStatus)));
        response := Concatenate(tempbuf, content);
      case None =>
        var response404 := NewBytes(Get404Response(request.filePath));
        var str := NewBytes(GetBytes(StatusLine(request.version, NotFoundStatus)));
        response := Concatenate(str, response404);
    }
  }
}
