/** Bytes on the wire and the `String.getBytes()` conversion the server applies
    to every status line and error page. The platform charset is taken to be
    US-ASCII: a character outside ASCII is encoded as '?', which is what Java's
    ASCII encoder substitutes for an unmappable character. */
module Bytes {

  /** One octet of a Java `byte[]`, in its unsigned reading. */
  type byte = b: int | 0 <= b < 256

  const SP: byte := 32
  const CR: byte := 13
  const LF: byte := 10

  /** The byte one character becomes. */
  function EncodeChar(c: char): byte
  {
    if c as int < 128 then c as int else '?' as int
  }

  /** `s.getBytes()` under US-ASCII. */
  function GetBytes(s: string): seq<byte>
  {
    seq(|s|, i requires 0 <= i < |s| => EncodeChar(s[i]))
  }

  predicate IsAscii(s: string)
  {
    forall i :: 0 <= i < |s| ==> s[i] as int < 128
  }

  /** Reading ASCII bytes back as characters: the partner of GetBytes. */
  function DecodeAscii(bs: seq<byte>): string
    requires forall i :: 0 <= i < |bs| ==> bs[i] < 128
  {
    seq(|bs|, i requires 0 <= i < |bs| => bs[i] as char)
  }

  /** Encoding is byte-per-character and every byte it yields is ASCII. */
  lemma GetBytesShape(s: string)
    ensures |GetBytes(s)| == |s|
    ensures forall i :: 0 <= i < |s| ==> GetBytes(s)[i] < 128
  {
  }

  /** An ASCII string survives the trip to bytes and back unchanged. */
  lemma GetBytesRoundTrip(s: string)
    requires IsAscii(s)
    ensures DecodeAscii(GetBytes(s)) == s
  {
    GetBytesShape(s);
    var d := DecodeAscii(GetBytes(s));
    forall i | 0 <= i < |s|
      ensures d[i] == s[i]
    {
      assert GetBytes(s)[i] == s[i] as int;
    }
  }

  /** Encoding distributes over the string concatenations of the status lines and pages. */
  lemma GetBytesAppend(a: string, b: string)
    ensures GetBytes(a + b) == GetBytes(a) + GetBytes(b)
  {
    assert |GetBytes(a + b)| == |GetBytes(a) + GetBytes(b)|;
    forall i | 0 <= i < |a + b|
      ensures GetBytes(a + b)[i] == (GetBytes(a) + GetBytes(b))[i]
    {
      if i < |a| {
        assert (a + b)[i] == a[i];
      } else {
        assert (a + b)[i] == b[i - |a|];
      }
    }
  }

  /** A space, a carriage return or a line feed byte comes only from that very character. */
  lemma EncodeControl(c: char)
    ensures EncodeChar(c) == SP <==> c == ' '
    ensures EncodeChar(c) == CR <==> c == '\r'
    ensures EncodeChar(c) == LF <==> c == '\n'
  {
  }
}
