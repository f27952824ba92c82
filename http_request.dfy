/** `HttpRequest` and its request-line parser: a restricted form of the
    Request-Line of section 5.1 of RFC 2616 in which only
    `GET <target> HTTP/1.0` and `GET <target> HTTP/1.1` are accepted. */
module Request {
  import opened Wrappers
  import opened JavaString

  /** The runtime exceptions `parseRequest` raises on some lines instead of answering. */
  datatype Fault = ArrayIndexOutOfBounds | StringIndexOutOfBounds

  /** What one call of `parseRequest` ends with. */
  datatype Status = Accepted | Rejected | Threw(fault: Fault)

  /** The end of one call together with the two fields it leaves in the object. */
  datatype Outcome = Outcome(status: Status, filePath: Option<string>, version: string)

  /** The version a new HttpRequest holds until a line overwrites it. */
  const DefaultVersion: string := "1.0"

  predicate SupportedVersion(v: string)
  {
    v == "1.0" || v == "1.1"
  }

  /** `parseRequest(line)` on an object whose fields hold `filePath0` and
      `version0`: the fields are assigned in the order the code assigns them,
      so a throw or a late rejection leaves what was assigned before it. */
  function Parse(line: string, filePath0: Option<string>, version0: string): Outcome
  {
    var tokens := Split(line);
    if |tokens| == 0 then Outcome(Threw(ArrayIndexOutOfBounds), filePath0, version0)
    else if tokens[0] != "GET" || |tokens| != 3 then Outcome(Rejected, filePath0, version0)
    else if |tokens[1]| == 0 then Outcome(Threw(StringIndexOutOfBounds), filePath0, version0)
    else
      var path := Some(tokens[1][1..]);
      if |tokens[2]| < 8 then Outcome(Threw(StringIndexOutOfBounds), path, version0)
      else
        var version := tokens[2][5..8];
        var ok := tokens[2][..5] == "HTTP/" && SupportedVersion(version);
        Outcome(if ok then Accepted else Rejected, path, version)
  }

  /** The parser with its exceptions turned into rejections: the fields keep
      what was assigned before the point where the code as written throws. */
  function ParseChecked(line: string, filePath0: Option<string>, version0: string): (r: Outcome)
    ensures !r.status.Threw?
    ensures r.filePath == Parse(line, filePath0, version0).filePath && r.version == Parse(line, filePath0, version0).version
    ensures !Parse(line, filePath0, version0).status.Threw? ==> r == Parse(line, filePath0, version0)
  {
    var o := Parse(line, filePath0, version0);
    if o.status.Threw? then Outcome(Rejected, o.filePath, o.version) else o
  }

  /** A line of three tokens whose first is `GET`, written with single spaces. */
  function GetLine(target: string, token: string): string
  {
    "GET " + target + " " + token
  }

  /** The request line a client sends for `target` (leading separator included)
      and `version`; `extra` is whatever follows the version in its token. */
  function RequestLine(target: string, version: string, extra: string): string
  {
    GetLine(target, "HTTP/" + version + extra)
  }

  predicate WellFormed(target: string, version: string, extra: string)
  {
    |target| >= 1 && NoSpace(target) && SupportedVersion(version) && NoSpace(extra)
  }

  /** The request object: its path and version are written by ParseRequest over
      the defaults the constructor sets (the unused header table is not modelled). */
  class HttpRequest {
    var filePath: Option<string>
    var version: string

    constructor ()
      ensures filePath == None && version == DefaultVersion
    {
      filePath := None;
      version := DefaultVersion;
    }

    /** `parseRequest`: true (Accepted) only for a supported GET request line;
        the fields end as Parse says, a thrown exception included. */
    method ParseRequest(request: string) returns (status: Status)
      modifies this
      ensures Outcome(status, filePath, version) == Parse(request, old(filePath), old(version))
    {
      var line := Split(request);
      if |line| == 0 {
        return Threw(ArrayIndexOutOfBounds);
      }
      if line[0] != "GET" || |line| != 3 {
        return Rejected;
      }
      if |line[1]| == 0 {
        return Threw(StringIndexOutOfBounds);
      }
      filePath := Some(line[1][1..]);
      var last := line[|line| - 1];
      if |last| < 8 {
        return Threw(StringIndexOutOfBounds);
      }
      version := last[5..8];
      var protocol := last[..5];
      if protocol != "HTTP/" || !(version == "1.1" || version == "1.0") {
        return Rejected;
      }
      return Accepted;
    }
  }

  // ---------------------------------------------------------------------------
  // Properties of the parser

  lemma NoSpaceAppend(a: string, b: string)
    requires NoSpace(a) && NoSpace(b)
    ensures NoSpace(a + b)
  {
  }

  /** Every line whose tokens are `GET`, a target and a non-empty third token:
      an empty target throws before anything is assigned; a third token shorter
      than 8 characters throws after the path was assigned; otherwise the path
      and characters 5 to 7 of the third token are assigned, and the line is
      accepted exactly when the token starts with `HTTP/` and names 1.0 or 1.1
      (characters after the eighth are ignored). */
  lemma ParseGetLine(line: string, target: string, token: string, filePath0: Option<string>, version0: string)
    requires NoSpace(target) && NoSpace(token) && token != ""
    requires TrimRight(line) == GetLine(target, token)
    ensures var o := Parse(line, filePath0, version0);
      if target == "" then o == Outcome(Threw(StringIndexOutOfBounds), filePath0, version0)
      else if |token| < 8 then o == Outcome(Threw(StringIndexOutOfBounds), Some(target[1..]), version0)
      else
        o.filePath == Some(target[1..]) && o.version == token[5..8] &&
        (o.status == Accepted <==> token[..5] == "HTTP/" && SupportedVersion(token[5..8])) &&
        (o.status != Accepted ==> o.status == Rejected)
  {
    var ts := ["GET", target, token];
    GetLineSplit(line, target, token);
    assert Split(line) == ts;
  }

  /** The tokens of a three-token `GET` line. */
  lemma GetLineSplit(line: string, target: string, token: string)
    requires NoSpace(target) && NoSpace(token) && token != ""
    requires TrimRight(line) == GetLine(target, token)
    ensures Split(line) == ["GET", target, token]
  {
    var ts := ["GET", target, token];
    assert Join(ts) == GetLine(target, token) by {
      assert ts[1..] == [target, token] && [target, token][1..] == [token];
      assert Join([target, token]) == target + " " + token;
      assert Join(ts) == "GET" + " " + (target + " " + token);
    }
    assert SplitShaped(ts) by {
      assert NoSpace("GET") by { assert "GET" == ['G', 'E', 'T']; }
      assert forall i :: 0 <= i < |ts| ==> ts[i] in {"GET", target, token};
    }
    SplitCharacterization(line, ts);
  }

  /** Round trip: a well-formed request line, with any trailing spaces, is
      accepted, and the fields then hold its target without the first character
      and its version. */
  lemma ParseRequestLine(line: string, target: string, version: string, extra: string, filePath0: Option<string>, version0: string)
    requires WellFormed(target, version, extra)
    requires TrimRight(line) == RequestLine(target, version, extra)
    ensures Parse(line, filePath0, version0) == Outcome(Accepted, Some(target[1..]), version)
  {
    var token := "HTTP/" + version + extra;
    NoSpaceAppend("HTTP/" + version, extra);
    assert token[..5] == "HTTP/" && token[5..8] == version;
    ParseGetLine(line, target, token, filePath0, version0);
  }

  /** The parser accepts exactly the well-formed request lines followed by any number of spaces. */
  lemma ParseAcceptsExactly(line: string, filePath0: Option<string>, version0: string)
    ensures Parse(line, filePath0, version0).status == Accepted <==>
      exists target, version, extra :: WellFormed(target, version, extra) && TrimRight(line) == RequestLine(target, version, extra)
  {
    if Parse(line, filePath0, version0).status == Accepted {
      var t := Split(line);
      SplitTokens(line);
      SplitJoin(line);
      assert NoSpace(t[1]) && NoSpace(t[2]);
      var version, extra := t[2][5..8], t[2][8..];
      assert NoSpace(extra) by {
        assert forall i :: 0 <= i < |extra| ==> extra[i] == t[2][i + 8];
      }
      assert t[2] == "HTTP/" + version + extra;
      assert Join(t) == "GET" + " " + (t[1] + " " + t[2]) by {
        assert Join(t[2..]) == t[2];
      }
      assert TrimRight(line) == RequestLine(t[1], version, extra);
      assert WellFormed(t[1], version, extra);
    }
    if exists target, version, extra :: WellFormed(target, version, extra) && TrimRight(line) == RequestLine(target, version, extra) {
      var target, version, extra :| WellFormed(target, version, extra) && TrimRight(line) == RequestLine(target, version, extra);
      ParseRequestLine(line, target, version, extra, filePath0, version0);
    }
  }

  /** A line of nothing but spaces (at least one) has no tokens, and reading its
      first token throws; no other line makes the parser throw that exception. */
  lemma ParseBlankLine(line: string, filePath0: Option<string>, version0: string)
    ensures Parse(line, filePath0, version0).status == Threw(ArrayIndexOutOfBounds) <==> line != "" && TrimRight(line) == ""
    ensures line != "" && TrimRight(line) == "" ==> Parse(line, filePath0, version0) == Outcome(Threw(ArrayIndexOutOfBounds), filePath0, version0)
  {
    SplitEmptyIff(line);
  }

  /** The empty line splits into one empty token and is rejected with the fields untouched. */
  lemma ParseEmptyLine(filePath0: Option<string>, version0: string)
    ensures Parse("", filePath0, version0) == Outcome(Rejected, filePath0, version0)
  {
    assert ' ' !in "";
    assert Split("") == [""];
  }

  /** A line with some token whose token count is not three is rejected with the fields untouched. */
  lemma ParseRejectsTokenCount(line: string, filePath0: Option<string>, version0: string)
    requires TrimRight(line) != "" && |Split(line)| != 3
    ensures Parse(line, filePath0, version0) == Outcome(Rejected, filePath0, version0)
  {
    SplitEmptyIff(line);
  }

  /** A line that does not start with `GET ` (other than the empty line or one of only
      spaces) is rejected at the method check with the fields untouched. */
  lemma ParseRejectsOtherMethods(line: string, filePath0: Option<string>, version0: string)
    requires TrimRight(line) != ""
    requires !(|line| >= 4 && line[..4] == "GET ")
    ensures Parse(line, filePath0, version0) == Outcome(Rejected, filePath0, version0)
  {
    SplitEmptyIff(line);
    var t := Split(line);
    if |t| == 3 && t[0] == "GET" {
      GetTokenStartsLine(line);
      assert false;
    }
  }

  lemma GetTokenStartsLine(line: string)
    requires |Split(line)| == 3 && Split(line)[0] == "GET"
    ensures |line| >= 4 && line[..4] == "GET "
  {
    var t := Split(line);
    SplitJoin(line);
    TrimRightPrefix(line);
    assert Join(t) == "GET" + " " + Join(t[1..]);
    assert TrimRight(line)[..4] == "GET ";
  }
}
