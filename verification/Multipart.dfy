/**
 The live view as a browser reads it: boundary line, header fields, as many bytes as the
 length announces, line end.
 */
module Multipart {
  import opened Words
  import opened Options
  import opened ByteStrings
  import opened Decimal
  import opened Frames
  import opened Http
  import opened Response

  const BOUNDARY: bytes := Ascii("--frame") + CRLF

  const IMAGE: bytes := Ascii("Content-Type: image/jpeg")

  /** One image part, and what follows it. */
  function ReadImage(s: bytes): Option<(bytes, bytes)> {
    if !(BOUNDARY <= s) then None
    else
      var t := s[|BOUNDARY|..];
      match HeaderEnd(t)
      case None => None
      case Some(h) =>
        match ContentLength(Lines(t[..h]))
        case None => None
        case Some(n) =>
          if IMAGE !in Lines(t[..h]) || |t| < h + 6 + n || t[h + 4 + n..h + 6 + n] != CRLF then None
          else Some((t[h + 4..h + 4 + n], t[h + 6 + n..]))
  }

  function ReadImages(s: bytes): Option<seq<bytes>>
    decreases |s|
  {
    if s == [] then Some([])
    else
      match ReadImage(s)
      case None => None
      case Some((jpeg, rest)) =>
        if |rest| >= |s| then None
        else
          match ReadImages(rest)
          case None => None
          case Some(jpegs) => Some([jpeg] + jpegs)
  }

  lemma HeadIs()
    ensures PART_HEAD == BOUNDARY + (IMAGE + (CRLF + Ascii("Content-Length: ")))
  {
    var a, b := Ascii("--frame\r\n"), Ascii("Content-Type: image/jpeg\r\n");
    assert a == BOUNDARY;
    TypeWithEnd();
    assert b == IMAGE + CRLF;
  }

  lemma TypeWithEnd()
    ensures Ascii("Content-Type: image/jpeg\r\n") == IMAGE + CRLF
  {
    var b, s, t := Ascii("Content-Type: image/jpeg\r\n"), "Content-Type: image/jpeg\r\n", "Content-Type: image/jpeg";
    assert |s| == 26 && |t| == 24;
    assert s[24] == '\r' && s[25] == '\n';
    assert s[..24] == t;
    forall i | 0 <= i < 24 ensures b[i] == IMAGE[i] {
      assert s[..24][i] == t[i];
    }
  }

  lemma ImageLine()
    ensures FragmentLength(IMAGE) == None && NoCrlf(IMAGE) && Lacks(IMAGE, LF)
  {
    hide Lines;
    AsciiLacks("Content-Type: image/jpeg", '\n');
    LacksNoCrlf(IMAGE);
    PlainLine(IMAGE);
    TypeIsNoLength();
    var one := [IMAGE];
    assert one[1..] == [] && ContentLength([]) == None;
  }

  lemma TypeIsNoLength()
    ensures LineLength(IMAGE) == None
  {
    hide ParseSize, TrimStart, TrimEnd;
    var name := Ascii("Content-Type");
    AsciiLacks("Content-Type", ':');
    assert IMAGE == name + ([0x3A] + Ascii(" image/jpeg"));
    IndexBehind(name, 0x3A, Ascii(" image/jpeg"));
    assert IMAGE[..12] == name && |LENGTH_NAME| == 14;
  }

  /** The header of a part for an image of `n` bytes. */
  function PartLines(n: nat): (lines: seq<bytes>)
    ensures |lines| == 2
  {
    [IMAGE, LengthLine(n)]
  }

  lemma PartIsMessage(jpeg: bytes, rest: bytes)
    ensures Part(jpeg) + rest == BOUNDARY + Message(PartLines(|jpeg|), jpeg + (CRLF + rest))
  {
    hide Print, PART_HEAD, IMAGE, BOUNDARY, Ascii;
    HeadIs();
    LengthTextIs(|jpeg|);
    var lines, digits := PartLines(|jpeg|), Print(|jpeg|);
    assert lines[1..] == [LengthLine(|jpeg|)];
    assert JoinCrlf(lines) == IMAGE + (CRLF + LengthLine(|jpeg|));
    var c := Ascii("Content-Length: ");
    assert Part(jpeg) + rest == BOUNDARY + (IMAGE + (CRLF + c)) + (digits + (BLANK_LINE + (jpeg + CRLF))) + rest;
    assert BOUNDARY + (IMAGE + (CRLF + c)) + (digits + (BLANK_LINE + (jpeg + CRLF))) + rest
        == BOUNDARY + ((IMAGE + (CRLF + (c + digits))) + (BLANK_LINE + (jpeg + (CRLF + rest))));
  }

  lemma PartLength(n: nat)
    requires n < USIZE
    ensures FirstLength(PartLines(n)) == Some(n) && Proper(PartLines(n))
  {
    hide Lines, IMAGE, LengthLine, FragmentLength, NoCrlf, Lacks;
    ImageLine();
    LengthLineReads(n);
    LacksNoCrlf(LengthLine(n));
    FragmentOfLengthLine(n);
    assert PartLines(n)[1..] == [LengthLine(n)];
  }

  lemma TypeIsShown(line: bytes)
    ensures IMAGE in Lines(IMAGE + (CRLF + line))
  {
    hide Lines, IMAGE, Lacks;
    ImageLine();
    PlainLine(IMAGE);
    LinesJoin(IMAGE + CRLF, line);
    assert IMAGE + (CRLF + line) == (IMAGE + CRLF) + line;
    assert Lines(IMAGE + (CRLF + line))[0] == IMAGE;
  }

  lemma HeaderReads(n: nat)
    requires n < USIZE
    ensures var h := JoinCrlf(PartLines(n));
      ContentLength(Lines(h)) == Some(n) && IMAGE in Lines(h) && Proper(PartLines(n))
  {
    hide Lines, IMAGE, LengthLine, FragmentLength, ContentLength, Proper, FirstLength;
    PartLength(n);
    HeaderLength(PartLines(n));
    TypeIsShown(LengthLine(n));
    assert PartLines(n)[1..] == [LengthLine(n)];
  }

  lemma PartIsRead(jpeg: bytes, rest: bytes)
    requires |jpeg| < USIZE
    ensures ReadImage(Part(jpeg) + rest) == Some((jpeg, rest))
  {
    hide Part, Lines, ContentLength, HeaderEnd, LengthLine, IMAGE, BOUNDARY, MessageLength, StopsAt, FirstLength,
      JoinCrlf, PartLines, Proper;
    var lines, body := PartLines(|jpeg|), jpeg + (CRLF + rest);
    var t, head := Message(lines, body), JoinCrlf(lines);
    PartIsMessage(jpeg, rest);
    HeaderReads(|jpeg|);
    MessageLengthOf(lines, body);
    var s, h, n := BOUNDARY + t, |head|, |jpeg|;
    assert s[|BOUNDARY|..] == t && BOUNDARY <= s;
    assert t[..h] == head && t[h + 4..] == body;
    assert t[h + 4..h + 4 + n] == jpeg && t[h + 4 + n..h + 6 + n] == CRLF && t[h + 6 + n..] == rest;
  }

  /** The browser shows exactly the images found. */
  lemma {:induction false} BrowserShowsImages(jpegs: seq<bytes>)
    requires forall k :: 0 <= k < |jpegs| ==> |jpegs[k]| < USIZE
    ensures ReadImages(Concat(Parts(jpegs))) == Some(jpegs)
  {
    hide ReadImage, Part;
    if jpegs != [] {
      var rest := Concat(Parts(jpegs[1..]));
      BrowserShowsImages(jpegs[1..]);
      PartIsRead(jpegs[0], rest);
      assert Parts(jpegs)[1..] == Parts(jpegs[1..]);
      assert Concat(Parts(jpegs)) == Part(jpegs[0]) + rest;
      PartIsThere(jpegs[0]);
      assert [jpegs[0]] + jpegs[1..] == jpegs;
    }
  }

  lemma PartIsThere(jpeg: bytes)
    ensures Part(jpeg) != []
  {
  }
}
