/**
 Which authorities a pass replaces, told by their bytes: those whose host is four runs of
 digits joined by dots, or "localhost" in any case.
 */
module Addresses {
  import opened Words
  import opened Options
  import opened Decimal
  import opened ByteStrings
  import opened Rewriter

  const DOT: bytes := [0x2E]
  const AT: bytes := [0x40]

  predicate Digits(s: bytes) {
    forall i :: 0 <= i < |s| ==> 0x30 <= s[i] <= 0x39
  }

  predicate IsQuad(host: bytes, a: bytes, b: bytes, c: bytes, d: bytes) {
    Digits(a) && Digits(b) && Digits(c) && Digits(d) && host == a + DOT + b + DOT + c + DOT + d
  }

  /** The letters of "localhost", each in either case. */
  predicate IsLocalhost(host: bytes) {
    var name := [0x6C, 0x6F, 0x63, 0x61, 0x6C, 0x68, 0x6F, 0x73, 0x74];
    |host| == 9 && forall i :: 0 <= i < 9 ==> host[i] == name[i] || host[i] as int == name[i] - 0x20
  }

  ghost predicate IsAddress(host: bytes) {
    IsLocalhost(host) || exists a, b, c, d :: IsQuad(host, a, b, c, d)
  }

  // ---- four runs of digits ----

  lemma {:induction false} DotsJoin(s: bytes, t: bytes)
    ensures Dots(s + t) == Dots(s) + Dots(t)
  {
    if s == [] {
      assert s + t == t;
    } else {
      assert (s + t)[0] == s[0] && (s + t)[1..] == s[1..] + t;
      DotsJoin(s[1..], t);
    }
  }

  lemma {:induction false} NoDots(s: bytes)
    requires Digits(s)
    ensures Dots(s) == 0
  {
    if s != [] {
      NoDots(s[1..]);
    }
  }

  lemma OneDot()
    ensures Dots(DOT) == 1
  {
    assert DOT[1..] == [];
  }

  predicate DigitsAndDots(s: bytes) {
    forall i :: 0 <= i < |s| ==> IsDigit(s[i]) || s[i] == 0x2E
  }

  /** Up to its first dot. */
  lemma {:induction false} FirstRun(s: bytes) returns (run: bytes, rest: bytes)
    requires DigitsAndDots(s) && Dots(s) > 0
    ensures Digits(run) && s == run + DOT + rest && DigitsAndDots(rest) && Dots(rest) == Dots(s) - 1
    decreases |s|
  {
    if s[0] == 0x2E {
      run, rest := [], s[1..];
    } else {
      var later;
      later, rest := FirstRun(s[1..]);
      run := [s[0]] + later;
      assert s == [s[0]] + s[1..];
    }
  }

  lemma {:induction false} OnlyDigits(s: bytes)
    requires DigitsAndDots(s) && Dots(s) == 0
    ensures Digits(s)
  {
    if s != [] {
      OnlyDigits(s[1..]);
      assert forall i :: 1 <= i < |s| ==> s[i] == s[1..][i - 1];
    }
  }

  lemma QuadOf(host: bytes)
    requires Ipv4Literal(host)
    ensures exists a, b, c, d :: IsQuad(host, a, b, c, d)
  {
    hide Dots;
    var a, host1 := FirstRun(host);
    var b, host2 := FirstRun(host1);
    var c, d := FirstRun(host2);
    OnlyDigits(d);
    assert host == a + DOT + b + DOT + c + DOT + d;
    assert IsQuad(host, a, b, c, d);
  }

  lemma QuadIsLiteral(host: bytes, a: bytes, b: bytes, c: bytes, d: bytes)
    requires IsQuad(host, a, b, c, d)
    ensures Ipv4Literal(host)
  {
    hide Dots;
    QuadBytes(host, a, b, c, d);
    NoDots(a);
    NoDots(b);
    NoDots(c);
    NoDots(d);
    OneDot();
    DotsJoin(a, DOT);
    DotsJoin(a + DOT, b);
    DotsJoin(a + DOT + b, DOT);
    DotsJoin(a + DOT + b + DOT, c);
    DotsJoin(a + DOT + b + DOT + c, DOT);
    DotsJoin(a + DOT + b + DOT + c + DOT, d);
  }

  lemma QuadBytes(host: bytes, a: bytes, b: bytes, c: bytes, d: bytes)
    requires IsQuad(host, a, b, c, d)
    ensures DigitsAndDots(host)
  {
    DigitsDotJoin(a, b);
    DigitsDotJoin(a + DOT + b, c);
    DigitsDotJoin(a + DOT + b + DOT + c, d);
  }

  lemma DigitsDotJoin(s: bytes, t: bytes)
    requires DigitsAndDots(s) && Digits(t)
    ensures DigitsAndDots(s + DOT + t)
  {
    forall i | 0 <= i < |s + DOT + t| ensures IsDigit((s + DOT + t)[i]) || (s + DOT + t)[i] == 0x2E {
    }
  }

  // ---- localhost ----

  lemma LocalhostIs(host: bytes)
    ensures SameIgnoringCase(host, Ascii("localhost")) <==> IsLocalhost(host)
  {
    var name := Ascii("localhost");
    assert name == [0x6C, 0x6F, 0x63, 0x61, 0x6C, 0x68, 0x6F, 0x73, 0x74];
    if |host| == 9 {
      forall i | 0 <= i < 9
        ensures Lower(host[i]) == Lower(name[i]) <==> host[i] == name[i] || host[i] as int == name[i] - 0x20
      {
        LetterCase(host[i], name[i]);
      }
    }
  }

  /** Letters, and nothing else, are compared without their case. */
  lemma LetterCase(b: byte, letter: byte)
    requires 0x61 <= letter <= 0x7A
    ensures Lower(b) == Lower(letter) <==> b == letter || b as int == letter - 0x20
  {
  }

  // ---- the parts of an authority ----

  /** `[user "@"] host [":" port]`, user and port perhaps missing. */
  predicate IsParts(authority: bytes, user: Option<bytes>, host: bytes, port: bytes) {
    && Lacks(host, 0x40) && Lacks(host, 0x3A) && Lacks(port, 0x40) && (port == [] || port[0] == 0x3A)
    && authority == (if user.Some? then user.value + AT + (host + port) else host + port)
  }

  lemma PartsHost(authority: bytes, user: Option<bytes>, host: bytes, port: bytes)
    requires IsParts(authority, user, host, port)
    ensures HostOf(authority) == host
  {
    if user.Some? {
      HostOfAuthority(user.value, host, port);
    } else {
      HostOfAuthority([], host, port);
    }
  }

  lemma {:induction false} BehindLastAt(s: bytes) returns (user: Option<bytes>)
    ensures Lacks(AfterLastAt(s), 0x40)
    ensures s == if user.Some? then user.value + AT + AfterLastAt(s) else AfterLastAt(s)
    decreases |s|
  {
    if s == [] {
      user := None;
    } else {
      var before, last := s[..|s| - 1], s[|s| - 1];
      assert s == before + [last];
      if last == 0x40 {
        user := Some(before);
        assert s == before + AT + [];
      } else {
        user := BehindLastAt(before);
      }
    }
  }

  lemma {:induction false} UpToColon(s: bytes) returns (port: bytes)
    ensures Lacks(BeforeFirstColon(s), 0x3A) && s == BeforeFirstColon(s) + port && (port == [] || port[0] == 0x3A)
  {
    if s == [] || s[0] == 0x3A {
      port := s;
    } else {
      port := UpToColon(s[1..]);
      assert s == [s[0]] + s[1..];
    }
  }

  /** Every authority has such parts. */
  lemma HasParts(authority: bytes) returns (user: Option<bytes>, host: bytes, port: bytes)
    ensures IsParts(authority, user, host, port)
  {
    user := BehindLastAt(authority);
    var s := AfterLastAt(authority);
    port := UpToColon(s);
    host := BeforeFirstColon(s);
    assert forall i :: 0 <= i < |host| ==> host[i] == s[i];
    assert forall i :: 0 <= i < |port| ==> port[i] == s[|host| + i];
  }

  /** An authority gives way to the new one if and only if its host is an address. */
  lemma ReplacedExactly(authority: bytes, user: Option<bytes>, host: bytes, port: bytes, mine: bytes)
    requires IsParts(authority, user, host, port)
    ensures NewAuthority(authority, mine) == if IsAddress(host) then mine else authority
  {
    hide HostOf, Ipv4Literal, IsParts, SameIgnoringCase, IsLocalhost;
    PartsHost(authority, user, host, port);
    LocalhostIs(host);
    if Ipv4Literal(host) {
      QuadOf(host);
    }
    if a, b, c, d :| IsQuad(host, a, b, c, d) {
      QuadIsLiteral(host, a, b, c, d);
    }
  }

  // ---- a URL in a text ----

  /** Slash, space, CR, LF, the quotes and the angle brackets end an authority. */
  lemma DelimitersAre(b: byte)
    ensures IsDelimiter(b) <==> b as char in "/ \r\n\"'<>"
  {
  }

  /** A pass at the first URL of its scheme: what leads up to the authority stays, the
      authority gives way if its host is an address, and the pass goes on behind it. */
  lemma UrlRewritten(
      text: bytes, authority: bytes, user: Option<bytes>, host: bytes, port: bytes, after: bytes,
      prefix: bytes, mine: bytes)
    requires prefix != [] && |text| >= |prefix| && FirstPrefix(text, prefix, |text| - |prefix|)
    requires IsParts(authority, user, host, port) && NoDelimiter(authority)
    requires after == [] || IsDelimiter(after[0])
    ensures Rewritten(text + (authority + after), prefix, mine)
         == text + ((if IsAddress(host) then mine else authority) + Rewritten(after, prefix, mine))
  {
    hide PrefixAt, FirstPrefix, Rewritten, NewAuthority, IsAddress, NoDelimiter, IsDelimiter, AuthorityLength, IsParts;
    var s, p := text + (authority + after), |text| - |prefix|;
    assert s[..|text|] == text && s[|text|..] == authority + after;
    FirstPrefixTake(text, prefix, p, s);
    FirstUrl(s, prefix, mine, p);
    AuthorityLengthIs(authority, after);
    assert s[|text|..|text| + |authority|] == authority && s[|text| + |authority|..] == after;
    ReplacedExactly(authority, user, host, port, mine);
  }

  /** `text` spells the scheme, each letter in either case. */
  predicate Spells(text: bytes, scheme: bytes) {
    && |text| == |scheme|
    && forall i :: 0 <= i < |text| ==>
         text[i] == scheme[i] || (0x61 <= scheme[i] <= 0x7A && text[i] as int == scheme[i] - 0x20)
  }

  /** The schemes are lower case; a byte that is no letter stands for itself. */
  lemma SpelledExactly(text: bytes, scheme: bytes)
    requires scheme == HTTP_SCHEME || scheme == RTSP_SCHEME
    ensures SameIgnoringCase(text, scheme) <==> Spells(text, scheme)
  {
    assert HTTP_SCHEME == [0x68, 0x74, 0x74, 0x70, 0x3A, 0x2F, 0x2F];
    assert RTSP_SCHEME == [0x72, 0x74, 0x73, 0x70, 0x3A, 0x2F, 0x2F];
    if |text| == 7 {
      forall i | 0 <= i < 7
        ensures Lower(text[i]) == Lower(scheme[i]) <==>
          text[i] == scheme[i] || (0x61 <= scheme[i] <= 0x7A && text[i] as int == scheme[i] - 0x20)
      {
        if i < 4 {
          LetterCase(text[i], scheme[i]);
        }
      }
    }
  }

  /** A scheme is found wherever it is spelled, and nowhere else. */
  lemma SchemeAt(s: bytes, i: nat, scheme: bytes)
    requires scheme == HTTP_SCHEME || scheme == RTSP_SCHEME
    ensures PrefixAt(s, i, scheme) <==> i + |scheme| <= |s| && Spells(s[i..i + |scheme|], scheme)
  {
    if i + |scheme| <= |s| {
      SpelledExactly(s[i..i + |scheme|], scheme);
    }
  }

  lemma SpelledFirst(text: bytes, scheme: bytes)
    requires (scheme == HTTP_SCHEME || scheme == RTSP_SCHEME) && Spells(text, scheme)
    ensures FirstPrefix(text, scheme, 0)
  {
    assert text[0..|scheme|] == text;
    SchemeAt(text, 0, scheme);
  }

  lemma HostAlone(host: bytes)
    requires Lacks(host, 0x40) && Lacks(host, 0x3A)
    ensures IsParts(host, None, host, [])
  {
    assert host + [] == host;
  }

  const W3: bytes := [0x77, 0x77, 0x77, 0x2E, 0x77, 0x33, 0x2E, 0x6F, 0x72, 0x67]
  const CAMERA: bytes := [0x31, 0x30, 0x2E, 0x30, 0x2E, 0x30, 0x2E, 0x32, 0x35]

  lemma W3IsNoAddress()
    ensures !IsAddress(W3)
  {
    if a, b, c, d :| IsQuad(W3, a, b, c, d) {
      QuadBytes(W3, a, b, c, d);
      assert IsDigit(W3[0]) || W3[0] == 0x2E;
    }
  }

  lemma CameraIsAddress()
    ensures IsAddress(CAMERA)
  {
    assert IsQuad(CAMERA, [0x31, 0x30], [0x30], [0x30], [0x32, 0x35]);
  }

  /** `http://www.w3.org`, the namespace of every SOAP envelope, stays as it is, however the
      scheme is spelled. */
  lemma NamespaceKept(text: bytes, after: bytes, mine: bytes)
    requires Spells(text, HTTP_SCHEME) && after != [] && after[0] == 0x2F
    ensures Rewritten(text + (W3 + after), HTTP_SCHEME, mine)
         == text + (W3 + Rewritten(after, HTTP_SCHEME, mine))
  {
    hide Rewritten, IsAddress, FirstPrefix;
    SpelledFirst(text, HTTP_SCHEME);
    HostAlone(W3);
    W3IsNoAddress();
    UrlRewritten(text, W3, None, W3, [], after, HTTP_SCHEME, mine);
  }

  /** `http://10.0.0.25` gets the local authority. */
  lemma CameraRewritten(text: bytes, after: bytes, mine: bytes)
    requires Spells(text, HTTP_SCHEME) && after != [] && after[0] == 0x2F
    ensures Rewritten(text + (CAMERA + after), HTTP_SCHEME, mine)
         == text + (mine + Rewritten(after, HTTP_SCHEME, mine))
  {
    hide Rewritten, IsAddress, FirstPrefix;
    SpelledFirst(text, HTTP_SCHEME);
    HostAlone(CAMERA);
    CameraIsAddress();
    UrlRewritten(text, CAMERA, None, CAMERA, [], after, HTTP_SCHEME, mine);
  }
}
