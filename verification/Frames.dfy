/** The live-view generator: it wraps every JPEG of the camera's stream in one part
    of a multipart response. */
module Frames {
  import opened Words
  import opened Options
  import opened ByteStrings
  import opened Decimal
  import opened Splitter

  const PART_HEAD: bytes :=
    Ascii("--frame\r\n") + Ascii("Content-Type: image/jpeg\r\n") + Ascii("Content-Length: ")

  function Part(jpeg: bytes): bytes {
    PART_HEAD + (Print(|jpeg|) + (BLANK_LINE + (jpeg + CRLF)))
  }

  function Parts(jpegs: seq<bytes>): seq<bytes> {
    if jpegs == [] then [] else [Part(jpegs[0])] + Parts(jpegs[1..])
  }

  /** The reads before the pipe closed. */
  function BeforeEof(chunks: seq<bytes>): seq<bytes> {
    if chunks == [] || chunks[0] == [] then [] else [chunks[0]] + BeforeEof(chunks[1..])
  }

  /** They are the reads up to the first empty one. */
  lemma {:induction false} BeforeEofIs(chunks: seq<bytes>)
    ensures var n := |BeforeEof(chunks)|;
      && n <= |chunks| && BeforeEof(chunks) == chunks[..n]
      && (forall i :: 0 <= i < n ==> chunks[i] != [])
      && (n < |chunks| ==> chunks[n] == [])
  {
    if chunks != [] && chunks[0] != [] {
      BeforeEofIs(chunks[1..]);
      var n := |BeforeEof(chunks[1..])|;
      assert chunks[..n + 1] == [chunks[0]] + chunks[1..][..n];
    }
  }

  lemma {:induction false} PartsJoin(one: seq<bytes>, two: seq<bytes>)
    ensures Parts(one + two) == Parts(one) + Parts(two)
  {
    hide Part;
    if one == [] {
      assert one + two == two;
    } else {
      PartsJoin(one[1..], two);
      assert (one + two)[1..] == one[1..] + two;
      assert [Part(one[0])] + (Parts(one[1..]) + Parts(two)) == [Part(one[0])] + Parts(one[1..]) + Parts(two);
    }
  }

  lemma PartsOfOne(jpeg: bytes)
    ensures Parts([jpeg]) == [Part(jpeg)]
  {
    hide Part;
    var one := [jpeg];
    assert one[1..] == [];
  }

  /** The inner loop: empty the buffer of complete files, then trim it. */
  method DrainBuffer(full: bytes) returns (parts: seq<bytes>, buffer: bytes)
    ensures parts == Parts(Jpegs(full))
    ensures buffer == Kept(Leftover(full))
  {
    hide MarkerAt, Find, Part, Jpegs, Leftover;
    parts, buffer := [], full;
    ghost var files: seq<bytes> := [];
    while true
      invariant parts == Parts(files)
      invariant files + Jpegs(buffer) == Jpegs(full)
      invariant Leftover(buffer) == Leftover(full)
      decreases |buffer|
    {
      var start := Find(buffer, SOI, 0);
      if start.None? {
        NoFile(buffer);
        assert files + [] == files;
        if |buffer| > 2 {
          buffer := buffer[|buffer| - 2..];
        }
        return;
      }
      MarkerEnd(buffer, start.value, SOI);
      var end := Find(buffer, EOI, start.value + 2);
      if end.None? {
        NoFile(buffer);
        assert files + [] == files;
        if start.value != 0 {
          buffer := buffer[start.value..];
        }
        return;
      }
      MarkerEnd(buffer, end.value, EOI);
      OneFile(buffer, start.value, end.value);
      var jpeg := buffer[start.value..end.value + 2];
      assert files + ([jpeg] + Jpegs(buffer[end.value + 2..])) == files + [jpeg] + Jpegs(buffer[end.value + 2..]);
      PartsJoin(files, [jpeg]);
      PartsOfOne(jpeg);
      buffer := buffer[end.value + 2..];
      files := files + [jpeg];
      parts := parts + [Part(jpeg)];
    }
  }

  lemma OneRead(buffer: bytes, chunks: seq<bytes>)
    requires chunks != [] && chunks[0] != []
    ensures var full := buffer + chunks[0];
      Parts(FromChunks(buffer, BeforeEof(chunks))) ==
        Parts(Jpegs(full)) + Parts(FromChunks(Kept(Leftover(full)), BeforeEof(chunks[1..])))
  {
    hide Jpegs, Kept, Leftover, Parts;
    var full, later := buffer + chunks[0], BeforeEof(chunks[1..]);
    assert BeforeEof(chunks) == [chunks[0]] + later;
    assert ([chunks[0]] + later)[1..] == later;
    PartsJoin(Jpegs(full), FromChunks(Kept(Leftover(full)), later));
  }

  lemma NothingRead(buffer: bytes, chunks: seq<bytes>)
    requires chunks == [] || chunks[0] == []
    ensures Parts(FromChunks(buffer, BeforeEof(chunks))) == []
  {
  }

  /** The generator, run to the end of the pipe: one part for each file of the
      stream, whatever the sizes of the reads. */
  method Frames(chunks: seq<bytes>) returns (parts: seq<bytes>)
    ensures parts == Parts(Jpegs(Concat(BeforeEof(chunks))))
  {
    hide Jpegs, Kept, Leftover, Parts, FromChunks, BeforeEof;
    var buffer: bytes := [];
    parts := [];
    var i := 0;
    ghost var _ := ChunkIndependence(BeforeEof(chunks));
    assert chunks[0..] == chunks;
    while i < |chunks|
      invariant 0 <= i <= |chunks|
      invariant Parts(FromChunks([], BeforeEof(chunks))) == parts + Parts(FromChunks(buffer, BeforeEof(chunks[i..])))
    {
      var chunk := chunks[i];
      if chunk == [] {
        break;
      }
      OneRead(buffer, chunks[i..]);
      assert chunks[i..][1..] == chunks[i + 1..];
      var found;
      found, buffer := DrainBuffer(buffer + chunk);
      parts := parts + found;
      i := i + 1;
    }
    NothingRead(buffer, chunks[i..]);
  }

  // ---- reading the response back ----

  function LeadingDigits(s: bytes): (n: nat)
    ensures n <= |s| && AllDigits(s[..n]) && (n < |s| ==> !IsDigit(s[n]))
  {
    if s == [] || !IsDigit(s[0]) then 0 else 1 + LeadingDigits(s[1..])
  }

  /** What a multipart client does with one part: trust the length, then skip to the next. */
  function ReadPart(s: bytes): Option<(bytes, bytes)> {
    if !(PART_HEAD <= s) then None
    else
      var t := s[|PART_HEAD|..];
      var n := LeadingDigits(t);
      var size := Value(t[..n]);
      if |t| < n + size + 6 || t[n..n + 4] != BLANK_LINE || t[n + 4 + size..n + 6 + size] != CRLF then None
      else Some((t[n + 4..n + 4 + size], t[n + 6 + size..]))
  }

  function ReadParts(s: bytes): Option<seq<bytes>>
    decreases |s|
  {
    if s == [] then Some([])
    else
      match ReadPart(s)
      case None => None
      case Some((jpeg, rest)) =>
        if |rest| >= |s| then None
        else
          match ReadParts(rest)
          case None => None
          case Some(jpegs) => Some([jpeg] + jpegs)
  }

  lemma {:induction false} DigitsThenOther(d: bytes, rest: bytes)
    requires AllDigits(d) && rest != [] && !IsDigit(rest[0])
    ensures LeadingDigits(d + rest) == |d|
  {
    if d == [] {
      assert d + rest == rest;
    } else {
      assert (d + rest)[1..] == d[1..] + rest;
      DigitsThenOther(d[1..], rest);
    }
  }

  lemma PartReads(jpeg: bytes, rest: bytes)
    ensures ReadPart(Part(jpeg) + rest) == Some((jpeg, rest))
  {
    hide Print, Value, LeadingDigits, PART_HEAD;
    var s := Part(jpeg) + rest;
    var d, tail := Print(|jpeg|), CRLF + rest;
    var after := BLANK_LINE + (jpeg + tail);
    var t := s[|PART_HEAD|..];
    assert t == d + after;
    DigitsThenOther(d, after);
    ValueOfPrint(|jpeg|);
    var n, size := |d|, |jpeg|;
    assert t[..n] == d;
    assert t[n..n + 4] == BLANK_LINE;
    assert t[n + 4..n + 4 + size] == jpeg;
    assert t[n + 4 + size..n + 6 + size] == CRLF;
    assert t[n + 6 + size..] == rest;
  }

  /** The client recovers exactly the files: the lengths in the part headers are right. */
  lemma {:induction false} ResponseReadsBack(jpegs: seq<bytes>)
    ensures ReadParts(Concat(Parts(jpegs))) == Some(jpegs)
  {
    hide ReadPart, Print;
    if jpegs != [] {
      var rest := Concat(Parts(jpegs[1..]));
      ResponseReadsBack(jpegs[1..]);
      PartReads(jpegs[0], rest);
      assert Parts(jpegs)[1..] == Parts(jpegs[1..]);
      assert Concat(Parts(jpegs)) == Part(jpegs[0]) + rest;
      assert [jpegs[0]] + jpegs[1..] == jpegs;
    }
  }
}
