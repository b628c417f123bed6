/**
 Rewriting a whole response: new body, new Content-Length, same other header lines.
 */
module Response {
  import opened Words
  import opened Options
  import opened Decimal
  import opened ByteStrings
  import opened Rewriter
  import opened Http

  predicate CrlfAt(s: bytes, i: nat) {
    i + 2 <= |s| && s[i] == CR && s[i + 1] == LF
  }

  /** `split("\r\n")` */
  function SplitCrlf(s: bytes): (lines: seq<bytes>)
    ensures |lines| > 0
    decreases |s|
  {
    SplitFrom(s, 0)
  }

  function SplitFrom(s: bytes, i: nat): (lines: seq<bytes>)
    requires i <= |s|
    ensures |lines| > 0
    decreases |s|, |s| - i
  {
    if i + 2 > |s| then [s]
    else if CrlfAt(s, i) then [s[..i]] + SplitFrom(s[i + 2..], 0)
    else SplitFrom(s, i + 1)
  }

  /** `join("\r\n")` */
  function JoinCrlf(lines: seq<bytes>): bytes
    requires |lines| > 0
  {
    if |lines| == 1 then lines[0] else lines[0] + (CRLF + JoinCrlf(lines[1..]))
  }

  const LENGTH_PREFIX: bytes := LENGTH_NAME + [0x3A]

  /** The line sets the length: its lower-case form starts with the header's name. */
  predicate SetsLength(line: bytes) {
    |line| >= |LENGTH_PREFIX| && SameIgnoringCase(line[..|LENGTH_PREFIX|], LENGTH_PREFIX)
  }

  function LengthLine(n: nat): bytes {
    Ascii("Content-Length") + ([0x3A] + ([0x20] + Print(n)))
  }

  function NewLine(line: bytes, n: nat): bytes {
    if SetsLength(line) then LengthLine(n) else line
  }

  function NewLines(lines: seq<bytes>, n: nat): (r: seq<bytes>)
    ensures |r| == |lines| && forall i :: 0 <= i < |r| ==> r[i] == NewLine(lines[i], n)
  {
    seq(|lines|, i requires 0 <= i < |lines| => NewLine(lines[i], n))
  }

  predicate AnySetsLength(lines: seq<bytes>) {
    exists i :: 0 <= i < |lines| && SetsLength(lines[i])
  }

  function NewHeader(lines: seq<bytes>, n: nat): (r: seq<bytes>)
    ensures |r| > 0
  {
    NewLines(lines, n) + (if AnySetsLength(lines) then [] else [LengthLine(n)])
  }

  function Message(lines: seq<bytes>, body: bytes): bytes
    requires |lines| > 0
  {
    JoinCrlf(lines) + (BLANK_LINE + body)
  }

  // ---- the blank line ----

  ghost predicate NoCrlf(line: bytes) {
    forall i: nat :: !CrlfAt(line, i)
  }

  /** Lines a header splits into: no CRLF inside, none empty but perhaps the first. */
  ghost predicate Proper(lines: seq<bytes>) {
    && |lines| > 0
    && (forall i :: 0 <= i < |lines| ==> NoCrlf(lines[i]))
    && (forall i :: 1 <= i < |lines| ==> lines[i] != [])
  }

  lemma NoBlankInLine(line: bytes, rest: bytes, k: nat)
    requires NoCrlf(line) && BlankAt(line + rest, k)
    requires |rest| >= 2 && rest[0] == CR && rest[1] == LF
    ensures k >= |line|
  {
    var s := line + rest;
    if k + 1 < |line| {
      assert CrlfAt(line, k);
    }
  }

  /** The first blank line of a message is the one after its header. */
  lemma {:induction false} MessageBlank(lines: seq<bytes>, body: bytes)
    requires Proper(lines)
    ensures FirstBlank(Message(lines, body), |JoinCrlf(lines)|)
    decreases |lines|
  {
    hide NoCrlf;
    var s := Message(lines, body);
    if |lines| == 1 {
      var rest := BLANK_LINE + body;
      assert BlankAt(s, |lines[0]|);
      forall k: nat | BlankAt(s, k) ensures k >= |lines[0]| {
        NoBlankInLine(lines[0], rest, k);
      }
    } else {
      var later := lines[1..];
      var t := Message(later, body);
      MessageBlank(later, body);
      var rest := CRLF + t;
      assert s == lines[0] + rest;
      var n := |lines[0]| + 2;
      assert s[n..] == t;
      var h := |JoinCrlf(lines)|;
      assert h == n + |JoinCrlf(later)|;
      BlankShift(s, n);
      assert BlankAt(t, h - n);
      NextLineNotBlank(later, body);
      forall k: nat | k < h ensures !BlankAt(s, k) {
        if BlankAt(s, k) {
          NoBlankInLine(lines[0], rest, k);
        }
      }
    }
  }

  lemma BlankShift(s: bytes, n: nat)
    requires n <= |s|
    ensures forall k: nat :: BlankAt(s[n..], k) == BlankAt(s, n + k)
    ensures forall k: nat :: n <= k ==> BlankAt(s, k) == BlankAt(s[n..], k - n)
  {
  }

  lemma NextLineNotBlank(lines: seq<bytes>, body: bytes)
    requires |lines| > 0 && lines[0] != [] && NoCrlf(lines[0])
    ensures var t := Message(lines, body); |t| >= 2 && !(t[0] == CR && t[1] == LF)
  {
    var t := Message(lines, body);
    var line := lines[0];
    var rest := if |lines| == 1 then BLANK_LINE + body else CRLF + (JoinCrlf(lines[1..]) + (BLANK_LINE + body));
    assert t == line + rest;
    if |line| == 1 {
      assert t[1] == rest[0] == CR;
    } else {
      assert t[1] == line[1] && !CrlfAt(line, 0);
    }
  }

  // ---- splitting ----

  /** No blank line before the end of `h`, when one follows it. */
  ghost predicate EndsAtBlank(h: bytes) {
    forall k: nat :: k < |h| ==> !BlankAt(h + BLANK_LINE, k)
  }

  lemma EndsAtBlankDrop(h: bytes, i: nat)
    requires EndsAtBlank(h) && CrlfAt(h, i)
    ensures EndsAtBlank(h[i + 2..])
    ensures h[i + 2..] != [] && !CrlfAt(h[i + 2..], 0)
  {
    var s, n := h + BLANK_LINE, i + 2;
    assert s[n..] == h[n..] + BLANK_LINE;
    BlankShift(s, n);
    assert !BlankAt(s, i);
    forall k: nat | k < |h[n..]| ensures !BlankAt(h[n..] + BLANK_LINE, k) {
      assert !BlankAt(s, n + k);
    }
  }

  lemma NoCrlfBefore(s: bytes, i: nat)
    requires i <= |s| && forall k: nat :: k < i ==> !CrlfAt(s, k)
    ensures NoCrlf(s[..i])
  {
    forall k: nat ensures !CrlfAt(s[..i], k) {
      assert CrlfAt(s[..i], k) ==> CrlfAt(s, k);
    }
  }

  /** A line put in front of lines that have no empty one. */
  lemma LineInFront(s: bytes, i: nat, later: seq<bytes>)
    requires CrlfAt(s, i) && NoCrlf(s[..i]) && Proper(later) && later[0] != [] && JoinCrlf(later) == s[i + 2..]
    ensures Proper([s[..i]] + later) && JoinCrlf([s[..i]] + later) == s
  {
    hide NoCrlf;
    var lines := [s[..i]] + later;
    assert lines[1..] == later;
    assert s == s[..i] + (CRLF + s[i + 2..]);
  }

  lemma ShortText(s: bytes, i: nat)
    requires i <= |s| < i + 2 && forall k: nat :: k < i ==> !CrlfAt(s, k)
    ensures NoCrlf(s) && JoinCrlf([s]) == s
  {
  }

  lemma {:induction false} SplitFromProper(s: bytes, i: nat)
    requires i <= |s| && EndsAtBlank(s) && forall k: nat :: k < i ==> !CrlfAt(s, k)
    ensures Proper(SplitFrom(s, i)) && JoinCrlf(SplitFrom(s, i)) == s
    ensures s != [] && !CrlfAt(s, 0) ==> SplitFrom(s, i)[0] != []
    decreases |s|, |s| - i
  {
    hide BlankAt, EndsAtBlank, CrlfAt, NoCrlf, JoinCrlf;
    if i + 2 > |s| {
      ShortText(s, i);
    } else if CrlfAt(s, i) {
      EndsAtBlankDrop(s, i);
      SplitFromProper(s[i + 2..], 0);
      NoCrlfBefore(s, i);
      LineInFront(s, i, SplitFrom(s[i + 2..], 0));
    } else {
      SplitFromProper(s, i + 1);
    }
  }

  /** Up to its first blank line a response splits into proper lines, losing nothing. */
  lemma HeaderSplits(data: bytes, h: nat)
    requires FirstBlank(data, h)
    ensures Proper(SplitCrlf(data[..h])) && JoinCrlf(SplitCrlf(data[..h])) == data[..h]
  {
    hide BlankAt;
    HeaderAndBlank(data, h);
    var head := data[..h];
    BlankTake(data, h + 4);
    assert EndsAtBlank(head);
    SplitFromProper(head, 0);
  }

  lemma HeaderAndBlank(data: bytes, h: nat)
    requires BlankAt(data, h)
    ensures h + 4 <= |data| && data[..h] + BLANK_LINE == data[..h + 4]
  {
  }

  // ---- the length ----

  /** The first readable length in a line, should it hide bare line feeds. */
  function FragmentLength(line: bytes): Option<nat> {
    ContentLength(Lines(line + CRLF))
  }

  function FirstLength(lines: seq<bytes>): Option<nat> {
    if lines == [] then None
    else if FragmentLength(lines[0]).Some? then FragmentLength(lines[0])
    else FirstLength(lines[1..])
  }

  /** A readable length that stands, behind a bare line feed, before the first line
      that sets the length. */
  function StrayLength(lines: seq<bytes>): Option<nat> {
    if lines == [] || SetsLength(lines[0]) then None
    else if FragmentLength(lines[0]).Some? then FragmentLength(lines[0])
    else StrayLength(lines[1..])
  }

  lemma {:induction false} IndexOfJoin(a: bytes, b: byte, rest: bytes)
    requires Lacks(a, b) && rest != [] && rest[0] == b
    ensures IndexOf(a + rest, b) == |a|
  {
    if a == [] {
      assert a + rest == rest;
    } else {
      assert (a + rest)[1..] == a[1..] + rest;
      assert (a + rest)[0] == a[0];
      IndexOfJoin(a[1..], b, rest);
    }
  }

  lemma LinesAt(s: bytes, n: nat)
    requires n < |s| && Lacks(s[..n], LF) && s[n] == LF
    ensures Lines(s) == [WithoutCr(s[..n])] + Lines(s[n + 1..])
  {
    assert s == s[..n] + s[n..];
    IndexOfJoin(s[..n], LF, s[n..]);
  }

  /** Line terminators separate: what ends with LF is cut on its own. */
  lemma {:induction false} LinesJoin(u: bytes, v: bytes)
    requires u != [] && u[|u| - 1] == LF
    ensures Lines(u + v) == Lines(u) + Lines(v)
    decreases |u|
  {
    hide Lines, IndexOf, WithoutCr;
    var n := IndexOf(u, LF);
    LinesAt(u, n);
    assert (u + v)[..n] == u[..n];
    LinesAt(u + v, n);
    assert (u + v)[n + 1..] == u[n + 1..] + v;
    var head, rest := [WithoutCr(u[..n])], u[n + 1..];
    if rest == [] {
      NoLines();
      assert rest + v == v && head + [] == head;
    } else {
      LinesJoin(rest, v);
      assert head + (Lines(rest) + Lines(v)) == head + Lines(rest) + Lines(v);
    }
  }

  lemma NoLines()
    ensures Lines([]) == []
  {
  }

  lemma {:induction false} LastLineLength(line: bytes)
    ensures ContentLength(Lines(line)) == FragmentLength(line)
    decreases |line|
  {
    hide Lines, ContentLength, FragmentLength, IndexOf;
    var n := IndexOf(line, LF);
    if n == |line| {
      assert line[..n] == line;
      PlainLineLength(line);
    } else {
      var head, rest := line[..n + 1], line[n + 1..];
      LinesJoin(head, rest);
      LinesJoin(head, rest + CRLF);
      assert line == head + rest && line + CRLF == head + (rest + CRLF);
      LastLineLength(rest);
      FragmentIs(line);
      FragmentIs(rest);
      ContentLengthJoin(Lines(head), Lines(rest));
      ContentLengthJoin(Lines(head), Lines(rest + CRLF));
    }
  }

  lemma PlainLineLength(line: bytes)
    requires Lacks(line, LF)
    ensures ContentLength(Lines(line)) == FragmentLength(line)
  {
    hide LineLength, Lines;
    PlainLine(line);
    NoLengthInNothing();
    assert ContentLength([]) == None;
    var one := [line];
    assert one[1..] == [];
  }

  lemma PlainLine(line: bytes)
    requires Lacks(line, LF)
    ensures Lines(line + CRLF) == [line] && Lines(line) == if line == [] then [] else [line]
  {
    var s, n := line + CRLF, |line| + 1;
    assert s == (line + [CR]) + [LF];
    IndexOfJoin(line + [CR], LF, [LF]);
    assert s[..n] == line + [CR] && s[n + 1..] == [];
    assert WithoutCr(line + [CR]) == line;
  }

  lemma NoLengthInNothing()
    ensures LineLength([]) == None
  {
  }

  lemma {:induction false} ContentLengthJoin(a: seq<bytes>, b: seq<bytes>)
    ensures ContentLength(a + b) == if ContentLength(a).Some? then ContentLength(a) else ContentLength(b)
  {
    hide LineLength;
    if a == [] {
      assert a + b == b;
    } else {
      assert (a + b)[1..] == a[1..] + b;
      ContentLengthJoin(a[1..], b);
    }
  }

  lemma {:induction false} HeaderLength(lines: seq<bytes>)
    requires |lines| > 0
    ensures ContentLength(Lines(JoinCrlf(lines))) == FirstLength(lines)
    decreases |lines|
  {
    hide Lines, ContentLength, FragmentLength;
    LastLineLength(lines[0]);
    if |lines| == 1 {
      assert lines[1..] == [];
    } else {
      var u, v := lines[0] + CRLF, JoinCrlf(lines[1..]);
      assert JoinCrlf(lines) == u + v;
      LinesJoin(u, v);
      ContentLengthJoin(Lines(u), Lines(v));
      HeaderLength(lines[1..]);
      FragmentIs(lines[0]);
    }
  }

  lemma FragmentIs(line: bytes)
    ensures FragmentLength(line) == ContentLength(Lines(line + CRLF))
  {
  }

  // ---- the new header ----

  lemma NamesHaveNoColon()
    ensures Lacks(LENGTH_NAME, 0x3A) && LENGTH_PREFIX == LENGTH_NAME + [0x3A]
    ensures |LENGTH_NAME| == 14 && forall i :: 0 <= i < 14 ==> Lower(LENGTH_NAME[i]) == LENGTH_NAME[i]
  {
  }

  lemma ColonIsCaseless(b: byte)
    ensures Lower(b) == 0x3A <==> b == 0x3A
  {
  }

  lemma SameCaseLacksColon(a: bytes, b: bytes)
    requires SameIgnoringCase(a, b) && Lacks(b, 0x3A)
    ensures Lacks(a, 0x3A)
  {
    forall i | 0 <= i < |a| ensures a[i] != 0x3A {
      ColonIsCaseless(a[i]);
      ColonIsCaseless(b[i]);
    }
  }

  /** Only a line that sets the length can have a readable one. */
  lemma LengthLinesSetIt(line: bytes)
    requires LineLength(line).Some?
    ensures SetsLength(line)
  {
    hide ParseSize, TrimStart, TrimEnd, LENGTH_NAME, LENGTH_PREFIX;
    NamesHaveNoColon();
    var n := IndexOf(line, 0x3A);
    assert line[..15] == line[..n] + [0x3A];
  }

  lemma LengthLineName()
    ensures SameIgnoringCase(Ascii("Content-Length"), LENGTH_NAME) && Lacks(Ascii("Content-Length"), LF)
  {
    AsciiLacks("Content-Length", '\n');
    var a, b := Ascii("Content-Length"), LENGTH_NAME;
    forall i | 0 <= i < 14 ensures Lower(a[i]) == Lower(b[i]) {
      assert a[i] == "Content-Length"[i] as int % 0x100 && b[i] == "content-length"[i] as int % 0x100;
    }
  }

  lemma TrimPrinted(d: bytes)
    requires d != [] && AllDigits(d)
    ensures TrimStart(TrimEnd([0x20] + d)) == d
  {
    var s := [0x20] + d;
    assert s[|s| - 1] == d[|d| - 1];
    assert s[1..] == d;
  }

  /** The line put in reads back as the length it was given. */
  lemma LengthLineReads(n: nat)
    requires n < USIZE
    ensures LineLength(LengthLine(n)) == Some(n)
    ensures Lacks(LengthLine(n), LF) && LengthLine(n) != []
  {
    hide ParseSize, TrimStart, TrimEnd, LENGTH_NAME, Ascii, Print, SameIgnoringCase;
    LengthLineName();
    NamesHaveNoColon();
    var name, rest := Ascii("Content-Length"), [0x3A] + ([0x20] + Print(n));
    SameCaseLacksColon(name, LENGTH_NAME);
    IndexOfJoin(name, 0x3A, rest);
    var line := LengthLine(n);
    assert line[..|name|] == name && line[|name| + 1..] == [0x20] + Print(n);
    TrimPrinted(Print(n));
    PrintParses(n);
  }

  lemma LengthLineSize(n: nat)
    ensures 0 < |LengthLine(n)| <= n + 17
  {
    PrintSize(n);
  }

  lemma FragmentOfLengthLine(n: nat)
    requires n < USIZE
    ensures FragmentLength(LengthLine(n)) == Some(n)
  {
    hide LineLength, LengthLine, Lines;
    LengthLineReads(n);
    PlainLine(LengthLine(n));
  }

  /** The length the new header announces: the true one, unless a stray line feed
      smuggles in another before it. */
  lemma {:induction false} NewHeaderLength(lines: seq<bytes>, n: nat)
    requires n < USIZE
    ensures FirstLength(NewHeader(lines, n))
         == if StrayLength(lines).Some? then StrayLength(lines) else Some(n)
    decreases |lines|
  {
    hide FragmentLength, LengthLine, SetsLength;
    FragmentOfLengthLine(n);
    var all := NewHeader(lines, n);
    if lines == [] {
      assert all == [LengthLine(n)];
    } else {
      if SetsLength(lines[0]) {
        assert all[0] == LengthLine(n);
      } else {
        assert AnySetsLength(lines) <==> AnySetsLength(lines[1..]) by {
          forall i | 1 <= i < |lines| && SetsLength(lines[i]) ensures AnySetsLength(lines[1..]) {
            assert SetsLength(lines[1..][i - 1]);
          }
        }
        assert all[0] == lines[0];
        assert all[1..] == NewHeader(lines[1..], n);
        NewHeaderLength(lines[1..], n);
      }
    }
  }

  lemma LacksNoCrlf(line: bytes)
    requires Lacks(line, LF)
    ensures NoCrlf(line)
  {
  }

  lemma NewHeaderProper(lines: seq<bytes>, n: nat)
    requires Proper(lines) && n < USIZE
    ensures Proper(NewHeader(lines, n))
  {
    hide LengthLine, SetsLength, NoCrlf;
    LengthLineReads(n);
    LacksNoCrlf(LengthLine(n));
    var all := NewHeader(lines, n);
    forall i | 0 <= i < |all| ensures NoCrlf(all[i]) && (i >= 1 ==> all[i] != []) {
      if i < |lines| {
        assert all[i] == NewLine(lines[i], n);
      }
    }
  }

  // ---- reframing ----

  /** Read from the front, `s` is one complete message to the engine's own test, which goes by
      Content-Length alone: every byte is needed and none is left over. */
  ghost predicate ExactlyOneMessage(s: bytes) {
    ResponseComplete(s) && forall k :: 0 <= k < |s| ==> !ResponseComplete(s[..k])
  }

  lemma MessageLengthOf(lines: seq<bytes>, body: bytes)
    requires Proper(lines)
    ensures var s := Message(lines, body);
      && HeaderEnd(s) == Some(|JoinCrlf(lines)|)
      && s[|JoinCrlf(lines)| + 4..] == body
      && MessageLength(s) ==
           Some(|JoinCrlf(lines)| + 4 + if FirstLength(lines).Some? then FirstLength(lines).value else 0)
      && StopsAt(s).Some?
  {
    hide Lines, ContentLength, FirstLength, BlankAt, JoinCrlf;
    var s, h := Message(lines, body), JoinCrlf(lines);
    MessageBlank(lines, body);
    HeaderEndIs(s, |h|);
    assert s[..|h|] == h;
    HeaderLength(lines);
  }

  lemma ExactlyOneWhen(s: bytes, stop: nat)
    requires StopsAt(s) == Some(stop)
    ensures ExactlyOneMessage(s) <==> stop == |s|
  {
    hide StopsAt, ResponseComplete;
    assert s[..|s|] == s;
    CompleteFrom(s, |s|, stop);
    forall k | 0 <= k < |s| ensures ResponseComplete(s[..k]) <==> k >= stop {
      CompleteFrom(s, k, stop);
    }
    if stop < |s| {
      assert ResponseComplete(s[..stop]);
    }
  }

  predicate StandsAt(s: bytes, i: nat, t: bytes) {
    i + |t| <= |s| && s[i..i + |t|] == t
  }

  predicate Contains(s: bytes, t: bytes) {
    exists i :: 0 <= i <= |s| && StandsAt(s, i, t)
  }

  const SUCCESS_LINES: seq<bytes> :=
    [Ascii("HTTP/1.1 200 OK"),
     Ascii("Content-Type: application/") + Ascii("soap+xml; charset=utf-8"),
     Ascii("Connection: close")]

  const SUCCESS_BODY: bytes := Concat(SUCCESS_PARTS)

  const SUCCESS_PARTS: seq<bytes> := DECLARATION + ENVELOPE + REPLY

  const DECLARATION: seq<bytes> :=
    [Ascii("<?xml version=\"1.0\" encoding=\""), Ascii("utf-8\" standalone=\"yes\" ?>")]

  const ENVELOPE: seq<bytes> :=
    [Ascii("<s:Envelope xmlns:s=\"http://"), Ascii("www.w3.org/2003/05/soap-envelope\"><s:Body>")]

  const REPLY: seq<bytes> :=
    [Ascii("<DeleteProfileResponse xmlns="), Ascii("\"http://www.onvif.org/ver10/media/wsdl\"/>"),
     Ascii("</s:Body></s:Envelope>")]

  const SUCCESS: bytes := Message(NewHeader(SUCCESS_LINES, |SUCCESS_BODY|), SUCCESS_BODY)

  predicate ReportsNoProfile(data: bytes) {
    Contains(data, Ascii("Profile token does not exist")) && Contains(data, Ascii("ter:NoProfile"))
  }

  /** Deleting a profile that is already gone counts as success. */
  function Normalized(data: bytes): bytes {
    if ReportsNoProfile(data) then SUCCESS else data
  }

  function ResponseRewritten(data: bytes, config: Config): bytes {
    match HeaderEnd(data)
    case None => Normalized(AuthoritiesReplaced(data, config))
    case Some(h) =>
      var body := AuthoritiesReplaced(data[h + 4..], config);
      Message(NewHeader(SplitCrlf(data[..h]), |body|), body)
  }

  /**
   A response with a header comes out with its first blank line where the new header
   ends and the rewritten body behind it. It announces the true length of that body
   unless a bare line feed hides another readable length ahead of the length lines;
   the old length may have been right, wrong, repeated or missing. And to the
   completeness test it is exactly one message if and only if the length announced is
   the true one; or, when the sum does not fit the word, if there is no body.
   */
  lemma Reframing(data: bytes, config: Config, h: nat)
    requires HeaderEnd(data) == Some(h)
    requires |AuthoritiesReplaced(data[h + 4..], config)| < USIZE
    ensures var out := ResponseRewritten(data, config);
      var body := AuthoritiesReplaced(data[h + 4..], config);
      var stray := StrayLength(SplitCrlf(data[..h]));
      var announced := if stray.Some? then stray.value else |body|;
      && HeaderEnd(out).Some? && out[HeaderEnd(out).value + 4..] == body
      && MessageLength(out) == Some(HeaderEnd(out).value + 4 + announced)
      && (ExactlyOneMessage(out) <==>
            if HeaderEnd(out).value + 4 + announced < USIZE then announced == |body| else body == [])
  {
    hide BlankAt, AuthoritiesReplaced, NewHeader, SplitCrlf, StrayLength, FirstLength, JoinCrlf, ExactlyOneMessage,
      MessageLength, Message, Normalized, Proper, HeaderEnd;
    var body := AuthoritiesReplaced(data[h + 4..], config);
    var lines := SplitCrlf(data[..h]);
    HeaderSplits(data, h);
    NewHeaderProper(lines, |body|);
    NewHeaderLength(lines, |body|);
    var header := NewHeader(lines, |body|);
    var out := Message(header, body);
    MessageLengthOf(header, body);
    ExactlyOneWhen(out, StopsAt(out).value);
    assert |out| == |JoinCrlf(header)| + 4 + |body|;
  }

  // ---- the other header lines ----

  lemma {:induction false} SplitLine(line: bytes, rest: bytes, i: nat)
    requires NoCrlf(line) && i <= |line|
    ensures SplitFrom(line + (CRLF + rest), i) == [line] + SplitFrom(rest, 0)
    decreases |line| - i
  {
    var s := line + (CRLF + rest);
    if i < |line| {
      assert !CrlfAt(line, i);
      assert !CrlfAt(s, i) by {
        assert s[i] == line[i] && (i + 1 < |line| ==> s[i + 1] == line[i + 1]);
        assert s[|line|] == CR;
      }
      SplitLine(line, rest, i + 1);
    } else {
      assert s[|line|] == CR && s[|line| + 1] == LF;
      assert s[..i] == line && s[i + 2..] == rest;
    }
  }

  /** Lines joined at CRLF split into the same lines. */
  lemma {:induction false} SplitOfJoined(lines: seq<bytes>)
    requires |lines| > 0 && forall i :: 0 <= i < |lines| ==> NoCrlf(lines[i])
    ensures SplitCrlf(JoinCrlf(lines)) == lines
    decreases |lines|
  {
    hide NoCrlf;
    if |lines| == 1 {
      SplitPlain(lines[0], 0);
    } else {
      SplitOfJoined(lines[1..]);
      SplitLine(lines[0], JoinCrlf(lines[1..]), 0);
    }
  }

  /** The field name in any case, with its colon. */
  predicate StartsWithLength(line: bytes) {
    |line| >= 15 && SameIgnoringCase(line[..15], Ascii("content-length:"))
  }

  predicate AnyStartsWithLength(lines: seq<bytes>) {
    exists i :: 0 <= i < |lines| && StartsWithLength(lines[i])
  }

  /** The lines of `before`, in order and byte for byte; but those that start with the length's
      name announce `n` instead, and one such line is added at the end if there was none. */
  ghost predicate LinesKept(before: seq<bytes>, after: seq<bytes>, n: nat) {
    && |after| == |before| + (if AnyStartsWithLength(before) then 0 else 1)
    && (forall i :: 0 <= i < |before| ==>
          after[i] == if StartsWithLength(before[i]) then Ascii("Content-Length: ") + Print(n) else before[i])
    && (!AnyStartsWithLength(before) ==> after[|before|] == Ascii("Content-Length: ") + Print(n))
  }

  lemma LengthTextIs(n: nat)
    ensures LengthLine(n) == Ascii("Content-Length: ") + Print(n)
  {
    var a := Ascii("Content-Length: ");
    assert Ascii("Content-Length") + ([0x3A] + [0x20]) == a;
    assert LengthLine(n) == (Ascii("Content-Length") + ([0x3A] + [0x20])) + Print(n);
  }

  lemma SetsLengthIs(line: bytes)
    ensures SetsLength(line) <==> StartsWithLength(line)
  {
    assert LENGTH_PREFIX == Ascii("content-length:");
  }

  lemma NewHeaderKeeps(lines: seq<bytes>, n: nat)
    ensures LinesKept(lines, NewHeader(lines, n), n)
  {
    hide SetsLength, StartsWithLength, LengthLine, Ascii, Print;
    LengthTextIs(n);
    var all := NewHeader(lines, n);
    forall i | 0 <= i < |lines| ensures SetsLength(lines[i]) <==> StartsWithLength(lines[i]) {
      SetsLengthIs(lines[i]);
    }
    assert AnySetsLength(lines) <==> AnyStartsWithLength(lines);
    forall i | 0 <= i < |lines| ensures all[i] == NewLine(lines[i], n) {
    }
  }

  /** Every header line of the response survives the rewriting, in its place and byte for
      byte, apart from those that set the length. */
  lemma HeaderLinesKept(data: bytes, config: Config, h: nat)
    requires HeaderEnd(data) == Some(h)
    requires |AuthoritiesReplaced(data[h + 4..], config)| < USIZE
    ensures var out := ResponseRewritten(data, config);
      && HeaderEnd(out).Some?
      && LinesKept(SplitCrlf(data[..h]), SplitCrlf(out[..HeaderEnd(out).value]),
           |AuthoritiesReplaced(data[h + 4..], config)|)
  {
    hide BlankAt, AuthoritiesReplaced, NewHeader, SplitCrlf, JoinCrlf, MessageLength, Normalized, HeaderEnd, LinesKept,
      NoCrlf;
    var body := AuthoritiesReplaced(data[h + 4..], config);
    var lines := SplitCrlf(data[..h]);
    HeaderSplits(data, h);
    NewHeaderProper(lines, |body|);
    var header := NewHeader(lines, |body|);
    MessageLengthOf(header, body);
    assert Message(header, body)[..|JoinCrlf(header)|] == JoinCrlf(header);
    SplitOfJoined(header);
    NewHeaderKeeps(lines, |body|);
  }

  lemma {:induction false} SplitPlain(s: bytes, i: nat)
    requires i <= |s| && NoCrlf(s)
    ensures SplitFrom(s, i) == [s]
    decreases |s| - i
  {
    if i + 2 <= |s| {
      assert !CrlfAt(s, i);
      SplitPlain(s, i + 1);
    }
  }

  lemma FragmentBehindLf(n: nat)
    requires n < USIZE
    ensures FragmentLength([0x41, LF] + LengthLine(n)) == Some(n)
  {
    hide LineLength, LengthLine, Lines;
    LengthLineReads(n);
    var u, v := [0x41, LF], LengthLine(n) + CRLF;
    assert (u + LengthLine(n)) + CRLF == u + v;
    LinesJoin(u, v);
    PlainLine(LengthLine(n));
    LetterHasNoLength();
    ContentLengthJoin(Lines(u), Lines(v));
  }

  lemma LetterHasNoLength()
    ensures ContentLength(Lines([0x41, LF])) == None
  {
    var u: bytes := [0x41, LF];
    LinesAt(u, 1);
    assert u[..1] == [0x41] && u[2..] == [];
    assert IndexOf([0x41], 0x3A) == 1;
  }

  lemma StrayLineSetsNothing(rest: bytes)
    ensures !SetsLength([0x41, LF] + rest)
  {
    NamesHaveNoColon();
    assert LENGTH_PREFIX[0] == 0x63;
  }

  lemma NothingToReplace(config: Config)
    ensures AuthoritiesReplaced([], config) == []
  {
    hide Rewritten;
    ShortTailUnchanged([], HTTP_SCHEME, LocalAuthority(config.host, config.onvifPort));
    ShortTailUnchanged([], RTSP_SCHEME, LocalAuthority(config.host, config.rtspPort));
  }

  const STRAY_HEADER: bytes := [0x41, LF] + LengthLine(9)

  lemma StrayHeaderHasNoCrlf()
    ensures NoCrlf(STRAY_HEADER)
  {
    hide LengthLine, LineLength;
    LengthLineReads(9);
    var line, rest := STRAY_HEADER, LengthLine(9);
    forall k: nat ensures !CrlfAt(line, k) {
      if 1 <= k && k + 1 < |line| {
        assert line[k + 1] == rest[k - 1];
      }
    }
  }

  lemma StrayHeaderIsOneLine()
    ensures NoCrlf(STRAY_HEADER)
    ensures HeaderEnd(STRAY_HEADER + BLANK_LINE) == Some(|STRAY_HEADER|)
    ensures SplitCrlf(STRAY_HEADER) == [STRAY_HEADER]
  {
    hide STRAY_HEADER, BlankAt, NoCrlf, HeaderEnd;
    var line := STRAY_HEADER;
    StrayHeaderHasNoCrlf();
    MessageBlank([line], []);
    assert Message([line], []) == line + BLANK_LINE;
    HeaderEndIs(line + BLANK_LINE, |line|);
    SplitPlain(line, 0);
  }

  lemma StrayOutputIsShort(config: Config)
    ensures HeaderEnd(STRAY_HEADER + BLANK_LINE).Some?
    ensures |ResponseRewritten(STRAY_HEADER + BLANK_LINE, config)| < 100
  {
    hide LengthLine, AuthoritiesReplaced, SetsLength, HeaderEnd, SplitCrlf, NoCrlf, JoinCrlf;
    var line := STRAY_HEADER;
    var data := line + BLANK_LINE;
    StrayHeaderIsOneLine();
    assert data[..|line|] == line && data[|line| + 4..] == [];
    NothingToReplace(config);
    LengthLineSize(9);
    LengthLineSize(0);
    JoinSize(NewHeader([line], 0), 28);
  }

  /** Without the condition the claim is false: this header, whose only line hides a
      length behind a bare line feed, comes out announcing nine bytes that never follow. */
  lemma StrayLengthMisleads(config: Config)
    ensures var data := STRAY_HEADER + BLANK_LINE; var out := ResponseRewritten(data, config);
      HeaderEnd(data).Some? && !ExactlyOneMessage(out) && MessageLength(out) == Some(|out| + 9)
  {
    hide LengthLine, ExactlyOneMessage, ResponseRewritten, AuthoritiesReplaced, FragmentLength, SetsLength, HeaderEnd,
      SplitCrlf, NoCrlf, MessageLength;
    var line := STRAY_HEADER;
    var data := line + BLANK_LINE;
    StrayHeaderIsOneLine();
    assert data[..|line|] == line && data[|line| + 4..] == [];
    StrayLineSetsNothing(LengthLine(9));
    FragmentBehindLf(9);
    NothingToReplace(config);
    var lines := [line];
    assert StrayLength(lines) == Some(9);
    Reframing(data, config, |line|);
    StrayOutputIsShort(config);
  }

  /** Announcing the largest length there is makes the sum wrap: the header alone is
      taken for the whole response, though 2^64 - 1 bytes are still to come. */
  lemma HugeLengthMisleads()
    ensures var data := LengthLine(USIZE - 1) + BLANK_LINE;
      ResponseComplete(data) && MessageLength(data) == Some(|data| + (USIZE - 1))
  {
    hide LengthLine, FragmentLength, JoinCrlf, ResponseComplete, MessageLength;
    var line := LengthLine(USIZE - 1);
    var lines := [line];
    LengthLineReads(USIZE - 1);
    LacksNoCrlf(line);
    FragmentOfLengthLine(USIZE - 1);
    JoinOne(line);
    var data := Message(lines, []);
    assert data == line + BLANK_LINE;
    MessageLengthOf(lines, []);
    CompleteFrom(data, |data|, |data|);
    assert data[..|data|] == data;
  }

  lemma JoinOne(line: bytes)
    ensures JoinCrlf([line]) == line
  {
  }

  /** Every line feed follows a carriage return. */
  predicate NoBareLf(s: bytes) {
    forall i :: 0 <= i < |s| && s[i] == LF ==> i > 0 && s[i - 1] == CR
  }

  lemma {:induction false} NoStrayLength(lines: seq<bytes>)
    requires forall i :: 0 <= i < |lines| ==> Lacks(lines[i], LF)
    ensures StrayLength(lines) == None
    decreases |lines|
  {
    hide LineLength, SetsLength, Lines, Lacks;
    if lines != [] && !SetsLength(lines[0]) {
      PlainLine(lines[0]);
      var one := [lines[0]];
      assert one[1..] == [];
      if LineLength(lines[0]).Some? {
        LengthLinesSetIt(lines[0]);
      }
      assert ContentLength([]) == None && ContentLength(one) == None;
      assert FragmentLength(lines[0]) == None;
      NoStrayLength(lines[1..]);
    }
  }

  lemma SuccessLinesPlain()
    ensures Proper(SUCCESS_LINES)
    ensures forall i :: 0 <= i < |SUCCESS_LINES| ==> Lacks(SUCCESS_LINES[i], LF)
  {
    hide NoCrlf, Lacks, Ascii;
    AsciiLacks("HTTP/1.1 200 OK", '\n');
    AsciiLacks("Content-Type: application/", '\n');
    AsciiLacks("soap+xml; charset=utf-8", '\n');
    LacksJoin(Ascii("Content-Type: application/"), Ascii("soap+xml; charset=utf-8"), LF);
    AsciiLacks("Connection: close", '\n');
    forall i | 0 <= i < 3 ensures Lacks(SUCCESS_LINES[i], LF) && NoCrlf(SUCCESS_LINES[i]) {
      assert SUCCESS_LINES[i] in SUCCESS_LINES;
      LacksNoCrlf(SUCCESS_LINES[i]);
    }
  }

  lemma SuccessIsOneMessage()
    ensures ExactlyOneMessage(SUCCESS) && HeaderEnd(SUCCESS).Some?
    ensures SUCCESS[HeaderEnd(SUCCESS).value + 4..] == SUCCESS_BODY
  {
    hide SUCCESS_BODY, SUCCESS_LINES, ExactlyOneMessage, MessageLength, FirstLength, StrayLength, JoinCrlf, Lacks,
      NewHeader, HeaderEnd;
    var n := |SUCCESS_BODY|;
    SuccessIsShort();
    SuccessLinesPlain();
    NoStrayLength(SUCCESS_LINES);
    NewHeaderProper(SUCCESS_LINES, n);
    NewHeaderLength(SUCCESS_LINES, n);
    MessageLengthOf(NewHeader(SUCCESS_LINES, n), SUCCESS_BODY);
    ExactlyOneWhen(SUCCESS, StopsAt(SUCCESS).value);
  }

  lemma SuccessIsShort()
    ensures |SUCCESS_BODY| <= 700
    ensures |SUCCESS| < USIZE
  {
    hide LengthLine, Ascii, Concat;
    var n := |SUCCESS_BODY|;
    ConcatSize(SUCCESS_PARTS, 100);
    LengthLineSize(n);
    JoinSize(NewHeader(SUCCESS_LINES, n), 1000);
  }

  lemma {:induction false} JoinSize(lines: seq<bytes>, bound: nat)
    requires |lines| > 0 && forall i :: 0 <= i < |lines| ==> |lines[i]| <= bound
    ensures |JoinCrlf(lines)| <= |lines| * (bound + 2)
    decreases |lines|
  {
    if |lines| > 1 {
      JoinSize(lines[1..], bound);
      assert |lines| * (bound + 2) == (|lines| - 1) * (bound + 2) + (bound + 2);
    }
  }

  lemma DeclarationLacksN()
    ensures forall i :: 0 <= i < |DECLARATION| ==> Lacks(DECLARATION[i], NO)
  {
    hide Lacks, Ascii;
    AsciiLacks("<?xml version=\"1.0\" encoding=\"", 'N');
    AsciiLacks("utf-8\" standalone=\"yes\" ?>", 'N');
  }

  lemma EnvelopeLacksN()
    ensures forall i :: 0 <= i < |ENVELOPE| ==> Lacks(ENVELOPE[i], NO)
  {
    hide Lacks, Ascii;
    AsciiLacks("<s:Envelope xmlns:s=\"http://", 'N');
    AsciiLacks("www.w3.org/2003/05/soap-envelope\"><s:Body>", 'N');
  }

  lemma ReplyLacksN()
    ensures forall i :: 0 <= i < |REPLY| ==> Lacks(REPLY[i], NO)
  {
    hide Lacks, Ascii;
    AsciiLacks("<DeleteProfileResponse xmlns=", 'N');
    AsciiLacks("\"http://www.onvif.org/ver10/media/wsdl\"/>", 'N');
    AsciiLacks("</s:Body></s:Envelope>", 'N');
  }

  lemma SuccessBodyLacksN()
    ensures Lacks(SUCCESS_BODY, NO)
  {
    hide Lacks, DECLARATION, ENVELOPE, REPLY;
    DeclarationLacksN();
    EnvelopeLacksN();
    ReplyLacksN();
    ConcatLacks(SUCCESS_PARTS, NO);
  }

  lemma SuccessLinesLackN()
    ensures forall i :: 0 <= i < |SUCCESS_LINES| ==> Lacks(SUCCESS_LINES[i], NO)
  {
    hide Lacks, Ascii;
    AsciiLacks("HTTP/1.1 200 OK", 'N');
    AsciiLacks("Content-Type: application/", 'N');
    AsciiLacks("soap+xml; charset=utf-8", 'N');
    LacksJoin(Ascii("Content-Type: application/"), Ascii("soap+xml; charset=utf-8"), NO);
    AsciiLacks("Connection: close", 'N');
    forall i | 0 <= i < |SUCCESS_LINES| ensures Lacks(SUCCESS_LINES[i], NO) {
      assert SUCCESS_LINES[i] in SUCCESS_LINES;
    }
  }

  /** The letter N, which the fault's code has and the success message lacks. */
  const NO: byte := 0x4E

  lemma LengthLineLacksN(n: nat)
    ensures Lacks(LengthLine(n), NO)
  {
    AsciiLacks("Content-Length", 'N');
  }

  lemma {:induction false} JoinLacks(lines: seq<bytes>, b: byte)
    requires |lines| > 0 && Lacks(CRLF, b) && forall i :: 0 <= i < |lines| ==> Lacks(lines[i], b)
    ensures Lacks(JoinCrlf(lines), b)
    decreases |lines|
  {
    hide Lacks;
    if |lines| > 1 {
      JoinLacks(lines[1..], b);
      LacksJoin(CRLF, JoinCrlf(lines[1..]), b);
      LacksJoin(lines[0], CRLF + JoinCrlf(lines[1..]), b);
    }
  }

  lemma LineEndsLackN()
    ensures Lacks(CRLF, NO) && Lacks(BLANK_LINE, NO)
  {
  }

  lemma LacksFault(s: bytes)
    requires Lacks(s, NO)
    ensures !ReportsNoProfile(s)
  {
    var t := Ascii("ter:NoProfile");
    assert t[4] == NO;
    forall i | 0 <= i <= |s| ensures !StandsAt(s, i, t) {
      assert i + |t| <= |s| ==> s[i..i + |t|][4] == s[i + 4];
    }
  }

  /** The success message is no fault: nothing the rewriter sends reports one. */
  lemma NormalizedReportsNothing(data: bytes)
    ensures !ReportsNoProfile(Normalized(data))
  {
    hide SUCCESS_BODY, SUCCESS_LINES, JoinCrlf, Lacks, LengthLine, ReportsNoProfile;
    var n := |SUCCESS_BODY|;
    SuccessBodyLacksN();
    SuccessLinesLackN();
    LengthLineLacksN(n);
    LineEndsLackN();
    var header := NewHeader(SUCCESS_LINES, n);
    forall i | 0 <= i < |header| ensures Lacks(header[i], NO) {
      assert i < |SUCCESS_LINES| ==> header[i] == NewLine(SUCCESS_LINES[i], n);
    }
    JoinLacks(header, NO);
    LacksJoin(BLANK_LINE, SUCCESS_BODY, NO);
    LacksJoin(JoinCrlf(header), BLANK_LINE + SUCCESS_BODY, NO);
    LacksFault(SUCCESS);
  }

  /** `phrase` stands somewhere in `data`. */
  ghost predicate Says(data: bytes, phrase: string) {
    exists before, behind :: data == before + Ascii(phrase) + behind
  }

  lemma SaysIsContains(data: bytes, phrase: string)
    ensures Says(data, phrase) <==> Contains(data, Ascii(phrase))
  {
    hide Ascii;
    var t := Ascii(phrase);
    if before, behind :| data == before + t + behind {
      assert StandsAt(data, |before|, t);
    }
    if i: nat :| i <= |data| && StandsAt(data, i, t) {
      assert data == data[..i] + t + data[i + |t|..];
    }
  }

  /** Only a response that says both phrases is taken for the fault, and any that does. */
  lemma NormalizedExactly(data: bytes)
    ensures Normalized(data) ==
      if Says(data, "Profile token does not exist") && Says(data, "ter:NoProfile") then SUCCESS else data
  {
    hide SUCCESS, Ascii, Says, Contains;
    SaysIsContains(data, "Profile token does not exist");
    SaysIsContains(data, "ter:NoProfile");
  }

  /** A response without a header is normalised by the rewriter and again by the
      writer: the second time changes nothing. */
  lemma NormalizedTwice(data: bytes)
    ensures Normalized(Normalized(data)) == Normalized(data)
  {
    NormalizedReportsNothing(data);
  }

  /** What the writer puts on the client's connection is always exactly one message,
      for every response whose header has no bare line feed. */
  lemma WriterSendsOneMessage(data: bytes, config: Config, h: nat)
    requires HeaderEnd(data) == Some(h) && NoBareLf(data[..h])
    requires |ResponseRewritten(data, config)| < USIZE
    ensures ExactlyOneMessage(Normalized(ResponseRewritten(data, config)))
  {
    hide AuthoritiesReplaced, ExactlyOneMessage, SplitCrlf, StrayLength, ReportsNoProfile, NoBareLf, BlankAt, SUCCESS;
    HeaderSplits(data, h);
    LinesLackLf(data[..h]);
    NoStrayLength(SplitCrlf(data[..h]));
    Reframing(data, config, h);
    SuccessIsOneMessage();
  }

  lemma LinesLackLf(s: bytes)
    requires NoBareLf(s)
    ensures forall i :: 0 <= i < |SplitCrlf(s)| ==> Lacks(SplitCrlf(s)[i], LF)
  {
    SplitLacksLf(s, 0);
  }

  lemma {:induction false} SplitLacksLf(s: bytes, i: nat)
    requires NoBareLf(s) && i <= |s| && forall k: nat :: k < i ==> !CrlfAt(s, k)
    ensures forall j :: 0 <= j < |SplitFrom(s, i)| ==> Lacks(SplitFrom(s, i)[j], LF)
    decreases |s|, |s| - i
  {
    if i + 2 > |s| {
      PlainBefore(s, |s|);
      assert s[..|s|] == s;
    } else if CrlfAt(s, i) {
      PlainBefore(s, i);
      SplitLacksLf(s[i + 2..], 0);
    } else {
      SplitLacksLf(s, i + 1);
    }
  }

  lemma PlainBefore(s: bytes, i: nat)
    requires NoBareLf(s) && i <= |s| && forall k: nat :: k < i ==> !CrlfAt(s, k)
    ensures Lacks(s[..i], LF)
  {
    forall k | 0 <= k < i ensures s[k] != LF {
      if k > 0 {
        assert !CrlfAt(s, k - 1);
      }
    }
  }

  // ---- the code that runs ----

  /** `normalize_no_profile_delete_response`: no fault passes; a fault becomes one complete
      message with the success body; everything else is left as it is. */
  method NormalizeResponse(data: bytes) returns (output: bytes)
    ensures !ReportsNoProfile(output) && output == Normalized(data)
    ensures ReportsNoProfile(data) ==>
      ExactlyOneMessage(output) && HeaderEnd(output).Some? && output[HeaderEnd(output).value + 4..] == SUCCESS_BODY
    ensures !ReportsNoProfile(data) ==> output == data
  {
    hide SUCCESS, Contains, HeaderEnd, ExactlyOneMessage, SUCCESS_BODY;
    SuccessIsOneMessage();
    NormalizedReportsNothing(data);
    if !Contains(data, Ascii("Profile token does not exist")) || !Contains(data, Ascii("ter:NoProfile")) {
      return data;
    }
    return SUCCESS;
  }

  /** The loop over the header lines: new length lines for old, one added if there is none. */
  method ReplaceLengthLines(lines: seq<bytes>, n: nat) returns (headerLines: seq<bytes>)
    ensures headerLines == NewHeader(lines, n)
  {
    hide SetsLength, LengthLine;
    var foundLength := false;
    headerLines := [];
    for i := 0 to |lines|
      invariant headerLines == NewLines(lines, n)[..i]
      invariant foundLength <==> exists j :: 0 <= j < i && SetsLength(lines[j])
    {
      if SetsLength(lines[i]) {
        headerLines := headerLines + [LengthLine(n)];
        foundLength := true;
      } else {
        headerLines := headerLines + [lines[i]];
      }
    }
    if !foundLength {
      headerLines := headerLines + [LengthLine(n)];
    }
  }

  /** `rewrite_http_response` */
  method RewriteResponse(data: bytes, config: Config) returns (output: bytes)
    ensures output == ResponseRewritten(data, config)
  {
    hide NewHeader, SplitCrlf, BlankAt, AuthoritiesReplaced, Normalized, FirstBlank;
    var headerEnd := HeaderEnd(data);
    if headerEnd.None? {
      output := ReplaceUrlAuthorities(data, config);
      output := NormalizeResponse(output);
      return;
    }
    var h := headerEnd.value;
    var body := ReplaceUrlAuthorities(data[h + 4..], config);
    var headerLines := ReplaceLengthLines(SplitCrlf(data[..h]), |body|);
    output := Message(headerLines, body);
  }

  /** What the writer sends for a response it has collected. */
  function Written(response: bytes, config: Config): bytes {
    if response == [] then [] else Normalized(ResponseRewritten(response, config))
  }

  /** The writer of an HTTP realm: collect one response, rewrite it, send it. */
  method WriteResponse(chunks: seq<bytes>, config: Config) returns (written: bytes)
    ensures written == Written(Concat(chunks[..Needed(chunks)]), config)
  {
    hide ResponseRewritten, ResponseComplete, Normalized, Needed;
    var response := CollectResponse(chunks);
    written := [];
    if response != [] {
      var rewritten := RewriteResponse(response, config);
      written := NormalizeResponse(rewritten);
    }
  }
}
