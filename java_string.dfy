/** Java's `String.split(" ")` (one-character pattern, limit 0), the only
    library string operation whose semantics the request parser depends on:
    an empty piece between two spaces is kept, trailing empty pieces are
    dropped, and a string without any space splits into itself. */
module JavaString {

  /** All the pieces of `s` between its spaces, none dropped: one more piece than spaces. */
  function Segments(s: string): (r: seq<string>)
    ensures |r| >= 1
    decreases |s|
  {
    if |s| == 0 then [""]
    else if s[0] == ' ' then [""] + Segments(s[1..])
    else
      var rest := Segments(s[1..]);
      [[s[0]] + rest[0]] + rest[1..]
  }

  /** The pieces left once every trailing empty piece is removed. */
  function DropTrailingEmpty(ts: seq<string>): seq<string>
    decreases |ts|
  {
    if |ts| > 0 && ts[|ts| - 1] == "" then DropTrailingEmpty(ts[..|ts| - 1]) else ts
  }

  /** `s.split(" ")`. */
  function Split(s: string): seq<string>
  {
    if ' ' !in s then [s] else DropTrailingEmpty(Segments(s))
  }

  /** The tokens written back with one space between each two: the inverse of Split. */
  function Join(ts: seq<string>): string
    decreases |ts|
  {
    if |ts| == 0 then ""
    else if |ts| == 1 then ts[0]
    else ts[0] + " " + Join(ts[1..])
  }

  /** `s` without its trailing spaces. */
  function TrimRight(s: string): string
    decreases |s|
  {
    if |s| > 0 && s[|s| - 1] == ' ' then TrimRight(s[..|s| - 1]) else s
  }

  predicate NoSpace(t: string)
  {
    ' ' !in t
  }

  /** Tokens Split can produce when it yields two or more: no token holds a space, the last is not empty. */
  predicate SplitShaped(ts: seq<string>)
  {
    (forall i :: 0 <= i < |ts| ==> NoSpace(ts[i])) && |ts| >= 1 && ts[|ts| - 1] != ""
  }

  // ---------------------------------------------------------------------------
  // Segments

  lemma {:induction false} SegmentsJoin(s: string)
    ensures Join(Segments(s)) == s
    decreases |s|
  {
    if |s| > 0 {
      SegmentsJoin(s[1..]);
      var rest := Segments(s[1..]);
      if s[0] == ' ' {
        assert s == " " + s[1..];
      } else if |rest| == 1 {
        assert s == [s[0]] + rest[0];
      } else {
        assert rest == [rest[0]] + rest[1..];
        assert Join(rest) == rest[0] + " " + Join(rest[1..]);
        assert s == [s[0]] + s[1..];
      }
    }
  }

  lemma {:induction false} SegmentsNoSpace(s: string)
    ensures forall i :: 0 <= i < |Segments(s)| ==> NoSpace(Segments(s)[i])
    decreases |s|
  {
    if |s| > 0 {
      SegmentsNoSpace(s[1..]);
      var rest := Segments(s[1..]);
      if s[0] != ' ' {
        assert NoSpace(rest[0]);
        assert NoSpace([s[0]] + rest[0]);
      }
    }
  }

  /** A piece of space-free text followed by a space splits off as a whole segment. */
  lemma {:induction false} SegmentsAfterWord(a: string, b: string)
    requires NoSpace(a)
    ensures Segments(a + " " + b) == [a] + Segments(b)
    decreases |a|
  {
    var s := a + " " + b;
    if |a| == 0 {
      assert s == " " + b;
      assert s[1..] == b;
    } else {
      assert s[1..] == a[1..] + " " + b;
      assert s[0] == a[0];
      SegmentsAfterWord(a[1..], b);
      assert [a[0]] + a[1..] == a;
    }
  }

  lemma {:induction false} SegmentsOfWord(a: string)
    requires NoSpace(a)
    ensures Segments(a) == [a]
    decreases |a|
  {
    if |a| > 0 {
      SegmentsOfWord(a[1..]);
      assert [a[0]] + a[1..] == a;
    }
  }

  /** One more trailing space adds one trailing empty segment. */
  lemma {:induction false} SegmentsSpaceAtEnd(s: string)
    ensures Segments(s + " ") == Segments(s) + [""]
    decreases |s|
  {
    var t := s + " ";
    if |s| == 0 {
      assert t[1..] == "";
    } else {
      assert t[1..] == s[1..] + " ";
      SegmentsSpaceAtEnd(s[1..]);
    }
  }

  /** When `s` ends in a character other than a space, its last segment is not empty. */
  lemma {:induction false} SegmentsLastNonEmpty(s: string)
    requires |s| > 0 && s[|s| - 1] != ' '
    ensures Segments(s)[|Segments(s)| - 1] != ""
    decreases |s|
  {
    if |s| > 1 {
      SegmentsLastNonEmpty(s[1..]);
    }
  }

  lemma {:induction false} SegmentsOfJoin(ts: seq<string>)
    requires |ts| >= 1
    requires forall i :: 0 <= i < |ts| ==> NoSpace(ts[i])
    ensures Segments(Join(ts)) == ts
    decreases |ts|
  {
    if |ts| == 1 {
      SegmentsOfWord(ts[0]);
    } else {
      assert NoSpace(ts[0]);
      SegmentsAfterWord(ts[0], Join(ts[1..]));
      SegmentsOfJoin(ts[1..]);
    }
  }

  // ---------------------------------------------------------------------------
  // Dropping trailing empty segments

  lemma {:induction false} DropTrailingEmptyDrops(ts: seq<string>)
    ensures var r := DropTrailingEmpty(ts);
      |r| <= |ts| && r == ts[..|r|] && (|r| > 0 ==> r[|r| - 1] != "")
    decreases |ts|
  {
    if |ts| > 0 && ts[|ts| - 1] == "" {
      DropTrailingEmptyDrops(ts[..|ts| - 1]);
    }
  }

  /** The segments of `s` with the trailing empty ones dropped, written back, give `s` without trailing spaces. */
  lemma {:induction false} JoinDroppedSegments(s: string)
    ensures Join(DropTrailingEmpty(Segments(s))) == TrimRight(s)
    decreases |s|
  {
    if |s| > 0 && s[|s| - 1] == ' ' {
      var s' := s[..|s| - 1];
      assert s == s' + " ";
      SegmentsSpaceAtEnd(s');
      assert (Segments(s') + [""])[..|Segments(s')|] == Segments(s');
      JoinDroppedSegments(s');
    } else if |s| > 0 {
      SegmentsLastNonEmpty(s);
      SegmentsJoin(s);
    }
  }

  /** Dropping trailing spaces from `s` does not change the dropped segment list. */
  lemma {:induction false} DroppedSegmentsOfTrim(s: string)
    ensures DropTrailingEmpty(Segments(s)) == DropTrailingEmpty(Segments(TrimRight(s)))
    decreases |s|
  {
    if |s| > 0 && s[|s| - 1] == ' ' {
      var s' := s[..|s| - 1];
      assert s == s' + " ";
      SegmentsSpaceAtEnd(s');
      assert (Segments(s') + [""])[..|Segments(s')|] == Segments(s');
      DroppedSegmentsOfTrim(s');
    }
  }

  // ---------------------------------------------------------------------------
  // Split

  /** Every token Split yields is free of spaces, and no token but a lone empty one is empty at the end. */
  lemma SplitTokens(s: string)
    ensures forall i :: 0 <= i < |Split(s)| ==> NoSpace(Split(s)[i])
    ensures Split(s) == [""] <==> s == ""
    ensures s != "" && |Split(s)| > 0 ==> SplitShaped(Split(s))
  {
    if ' ' in s {
      SegmentsNoSpace(s);
      DropTrailingEmptyDrops(Segments(s));
      var r := DropTrailingEmpty(Segments(s));
      forall i | 0 <= i < |r| ensures NoSpace(r[i]) {
        assert r[i] == Segments(s)[i];
      }
    }
  }

  /** Writing the tokens back gives the line without its trailing spaces. */
  lemma SplitJoin(s: string)
    ensures Join(Split(s)) == TrimRight(s)
  {
    if ' ' in s {
      JoinDroppedSegments(s);
    } else {
      NoSpaceTrimmed(s);
    }
  }

  lemma {:induction false} NoSpaceTrimmed(s: string)
    requires ' ' !in s
    ensures TrimRight(s) == s
  {
    if |s| > 0 {
      assert s[|s| - 1] in s;
    }
  }

  /** TrimRight removes only spaces and only from the end. */
  lemma {:induction false} TrimRightPrefix(s: string)
    ensures var t := TrimRight(s);
      |t| <= |s| && t == s[..|t|] && (forall i :: |t| <= i < |s| ==> s[i] == ' ') && (|t| > 0 ==> t[|t| - 1] != ' ')
    decreases |s|
  {
    if |s| > 0 && s[|s| - 1] == ' ' {
      TrimRightPrefix(s[..|s| - 1]);
    }
  }

  /** Split and Join are inverse: a line splits into the tokens `ts` exactly when
      it is `ts` joined by single spaces, followed by nothing but spaces. */
  lemma SplitCharacterization(s: string, ts: seq<string>)
    requires |ts| >= 2 && SplitShaped(ts)
    ensures Split(s) == ts <==> TrimRight(s) == Join(ts)
  {
    if Split(s) == ts {
      SplitJoin(s);
    }
    if TrimRight(s) == Join(ts) {
      TrimRightPrefix(s);
      SegmentsOfJoin(ts);
      assert ' ' in Join(ts) by {
        assert Join(ts)[|ts[0]|] == ' ';
      }
      assert Join(ts) == s[..|Join(ts)|];
      assert s[|ts[0]|] == ' ';
      DroppedSegmentsOfTrim(s);
      assert ts[..|ts|] == ts;
    }
  }

  /** A line yields no token at all exactly when it is made of spaces only, and at least one. */
  lemma SplitEmptyIff(s: string)
    ensures Split(s) == [] <==> s != "" && TrimRight(s) == ""
  {
    SplitTokens(s);
    SplitJoin(s);
    var ts := Split(s);
    if |ts| >= 2 {
      assert Join(ts) == ts[0] + " " + Join(ts[1..]);
    } else if |ts| == 1 && s != "" {
      assert Join(ts) == ts[0];
    }
  }

  /** A character absent from a string is absent from every segment of it. */
  lemma {:induction false} SegmentsKeepOut(s: string, c: char)
    requires c !in s
    ensures forall i :: 0 <= i < |Segments(s)| ==> c !in Segments(s)[i]
    decreases |s|
  {
    if |s| > 0 {
      SegmentsKeepOut(s[1..], c);
    }
  }

  /** A character absent from a line is absent from every token Split yields. */
  lemma SplitKeepsOut(s: string, c: char)
    requires c !in s
    ensures forall i :: 0 <= i < |Split(s)| ==> c !in Split(s)[i]
  {
    if ' ' in s {
      SegmentsKeepOut(s, c);
      DropTrailingEmptyDrops(Segments(s));
      var r := DropTrailingEmpty(Segments(s));
      forall i | 0 <= i < |r| ensures c !in r[i] {
        assert r[i] == Segments(s)[i];
      }
    }
  }
}
