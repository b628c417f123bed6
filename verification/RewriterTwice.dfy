/**
 The two passes together: a second rewriting of the same text can change it again.
 When the first pass looks, a scheme may be hidden in the authority of another
 URL; when the second pass replaces that authority, it comes to light.
 */
module RewriterTwice {
  import opened Words
  import opened Decimal
  import opened ByteStrings
  import opened Rewriter
  import opened Seams

  lemma CleanIsUnchanged(s: bytes, prefix: bytes, authority: bytes)
    requires prefix != [] && Clean(Cut(s, prefix), authority)
    ensures Rewritten(s, prefix, authority) == s
  {
    hide Cut, WellCut;
    CutIsWellCut(s, prefix);
    CleanPieces(Cut(s, prefix), authority);
  }

  lemma {:induction false} CleanPieces(p: Pieces, authority: bytes)
    requires Clean(p, authority)
    ensures Replaced(p, authority) == p
  {
    hide Replaceable;
    if p.Url? {
      CleanPieces(p.rest, authority);
    }
  }

  // ---- the second rewriting, seen from the text ----

  /** Authorities of our own: no delimiter, a digit at the end. */
  predicate Own(authority: bytes) {
    NoDelimiter(authority) && authority != [] && IsDigit(authority[|authority| - 1])
  }

  lemma Distinct()
    ensures IsScheme(HTTP_SCHEME) && IsScheme(RTSP_SCHEME) && HTTP_SCHEME[0] != RTSP_SCHEME[0]
  {
  }

  lemma UrlEnds(carry: bytes, p: Pieces, own: bytes)
    requires p.Url? && own != [] && WellCut(p, own)
    ensures EndsWith(carry + p.text, own)
  {
    hide PrefixAt;
    PrefixInSecond(carry, p.text, |p.text| - |own|, own);
  }

  /** A pass keeps the first byte of a text. */
  lemma PassKeepsStart(s: bytes, prefix: bytes, authority: bytes)
    requires prefix != [] && (s == [] || IsDelimiter(s[0]))
    ensures var t := Rewritten(s, prefix, authority); t == [] || IsDelimiter(t[0])
  {
    hide Cut, WellCut, Replaced, Joined;
    CutIsWellCut(s, prefix);
    JoinedStart(Cut(s, prefix), prefix, authority);
  }

  lemma SameRun(a: bytes, b: bytes, c: bytes, d: bytes)
    requires NoDelimiter(a) && NoDelimiter(c) && a + b == c + d
    requires (b == [] || IsDelimiter(b[0])) && (d == [] || IsDelimiter(d[0]))
    ensures a == c
  {
    hide AuthorityLength, NoDelimiter, IsDelimiter;
    AuthorityLengthIs(a, b);
    AuthorityLengthIs(c, d);
    assert a == (a + b)[..|a|] && c == (c + d)[..|c|];
  }

  /** An authority of our own put in front of a text stays there and settles. */
  lemma OwnInFront(mine: bytes, s: bytes, prefix: bytes, authority: bytes)
    requires IsScheme(prefix) && Own(mine) && (s == [] || IsDelimiter(s[0]))
    ensures Rewritten(mine + s, prefix, authority) == mine + Rewritten(s, prefix, authority)
    ensures Clean(Cut(mine + s, prefix), authority) <==> Clean(Cut(s, prefix), authority)
  {
    hide Cut, NoStraddle, IsDelimiter;
    DigitStopsStraddle(mine, s, prefix);
    PassJoins(mine, s, prefix, authority);
    PlainCut(mine, prefix);
  }

  /** The first http authority that the second rewriting would change survives the rest
      of it: the text does not come out as it went in. `carry` is what has been kept. */
  lemma {:induction false} UnsettledChanges(
      carry: bytes, p: Pieces, own: bytes, mine: bytes, other: bytes, theirs: bytes)
    requires IsScheme(own) && IsScheme(other) && own[0] != other[0]
    requires WellCut(p, own) && Own(mine) && NoDelimiter(carry)
    requires Clean(Cut(carry + Joined(p), other), theirs)
    requires Rewritten(carry + Joined(Replaced(p, mine)), other, theirs) == carry + Joined(p)
    ensures Clean(p, mine)
    decreases p
  {
    hide Cut, WellCut, NoStraddle, Breaks, EndsWith, Replaceable, NoDelimiter, IsDelimiter, Rewritten;
    if p.Url? {
      var block, name := carry + p.text, NewAuthority(p.authority, mine);
      var behind, after := p.authority + Joined(p.rest), name + Joined(Replaced(p.rest, mine));
      WellCutUrl(p, own);
      UrlEnds(carry, p, own);
      SeamBehindScheme(block, behind, own, other);
      SeamBehindScheme(block, after, own, other);
      PassJoins(block, behind, other, theirs);
      PassJoins(block, after, other, theirs);
      assert carry + Joined(p) == block + behind;
      assert carry + Joined(Replaced(p, mine)) == block + after;
      CleanIsUnchanged(block, other, theirs);
      assert Rewritten(after, other, theirs) == behind by {
        assert (block + behind)[|block|..] == behind;
        assert (block + Rewritten(after, other, theirs))[|block|..] == Rewritten(after, other, theirs);
      }
      if name == p.authority {
        UnsettledChanges(p.authority, p.rest, own, mine, other, theirs);
      } else {
        var tail := Joined(Replaced(p.rest, mine));
        JoinedStart(p.rest, own, mine);
        OwnInFront(mine, tail, other, theirs);
        PassKeepsStart(tail, other, theirs);
        SameRun(mine, Rewritten(tail, other, theirs), p.authority, Joined(p.rest));
      }
    }
  }

  lemma WellCutUrl(p: Pieces, own: bytes)
    requires p.Url? && WellCut(p, own)
    ensures NoDelimiter(p.authority) && WellCut(p.rest, own)
    ensures Joined(p.rest) == [] || IsDelimiter(Joined(p.rest)[0])
  {
  }

  // ---- the second rewriting, seen from the input ----

  function FirstText(p: Pieces): bytes {
    match p
    case Last(text) => text
    case Url(text, _, _) => text
  }

  /** No authority that the second pass replaces hides a scheme whose disappearance
      would bring an address to light: it ends in `http:` with two slashes behind, and
      in the text behind, read on its own, some http URL names an address. */
  predicate NothingHidden(p: Pieces, http: bytes) {
    p.Url? ==>
      && (Replaceable(p.authority) && Hides(p.authority, FirstText(p.rest), HTTP_SCHEME) ==>
            Clean(Cut(FirstText(p.rest), HTTP_SCHEME), http))
      && NothingHidden(p.rest, http)
  }

  /** What becomes of the text up to the next URL when the authority before it changes. */
  lemma BlockClean(was: bytes, mine: bytes, text: bytes, prefix: bytes, authority: bytes)
    requires IsScheme(prefix) && NoDelimiter(was) && (mine == was || Own(mine))
    requires mine == was || text == [] || IsDelimiter(text[0])
    requires Clean(Cut(was + text, prefix), authority)
    ensures Clean(Cut(mine + text, prefix), authority)
        <==> (mine != was && Hides(was, text, prefix) ==> Clean(Cut(text, prefix), authority))
  {
    hide Cut, NoStraddle, IsDelimiter, Hides, NoDelimiter;
    if mine != was {
      OwnInFront(mine, text, prefix, authority);
      if !Hides(was, text, prefix) {
        OnlyHiddenStraddle(was, text, prefix);
        PassJoins(was, text, prefix, authority);
      }
    }
  }

  lemma OwnHidesNothing(mine: bytes, text: bytes, prefix: bytes)
    requires IsScheme(prefix) && Own(mine)
    ensures !Hides(mine, text, prefix)
  {
    assert |mine| >= 5 ==> mine[|mine| - 5..][4] == mine[|mine| - 1] && prefix[..5][4] == 0x3A;
  }

  lemma FirstTextStarts(p: Pieces, prefix: bytes)
    requires WellCut(p, prefix) && prefix != [] && (Joined(p) == [] || IsDelimiter(Joined(p)[0]))
    ensures FirstText(p) == [] || IsDelimiter(FirstText(p)[0])
  {
    hide PrefixAt;
    if p.Url? {
      assert Joined(p)[0] == p.text[0];
    }
  }

  /** The rewritten text is clean exactly when nothing was hidden in the text before. `was`
      stands in front of `p` there, `mine` in the rewritten text. */
  lemma {:induction false} HiddenMatters(was: bytes, mine: bytes, p: Pieces, http: bytes, rtsp: bytes)
    requires IsScheme(HTTP_SCHEME) && IsScheme(RTSP_SCHEME) && HTTP_SCHEME[0] != RTSP_SCHEME[0]
    requires WellCut(p, RTSP_SCHEME) && NoDelimiter(was) && (mine == was || Own(mine)) && Own(rtsp)
    requires mine == was || Joined(p) == [] || IsDelimiter(Joined(p)[0])
    requires Clean(Cut(was + Joined(p), HTTP_SCHEME), http)
    ensures Clean(Cut(mine + Joined(Replaced(p, rtsp)), HTTP_SCHEME), http)
        <==> (mine != was && Hides(was, FirstText(p), HTTP_SCHEME) ==> Clean(Cut(FirstText(p), HTTP_SCHEME), http))
             && NothingHidden(p, http)
    decreases p
  {
    hide Cut, WellCut, NoStraddle, Breaks, EndsWith, Replaceable, NoDelimiter, IsDelimiter, Rewritten, Hides, Clean,
      HTTP_SCHEME, RTSP_SCHEME, IsScheme, Own;
    SchemesAreThere();
    if mine != was {
      FirstTextStarts(p, RTSP_SCHEME);
    }
    match p
    case Last(text) =>
      BlockClean(was, mine, text, HTTP_SCHEME, http);
    case Url(text, authority, rest) =>
      var name := NewAuthority(authority, rtsp);
      var behind, after := authority + Joined(rest), name + Joined(Replaced(rest, rtsp));
      WellCutUrl(p, RTSP_SCHEME);
      UrlEnds(was, p, RTSP_SCHEME);
      UrlEnds(mine, p, RTSP_SCHEME);
      SeamBehindScheme(was + text, behind, RTSP_SCHEME, HTTP_SCHEME);
      SeamBehindScheme(mine + text, after, RTSP_SCHEME, HTTP_SCHEME);
      PassJoins(was + text, behind, HTTP_SCHEME, http);
      PassJoins(mine + text, after, HTTP_SCHEME, http);
      assert was + Joined(p) == (was + text) + behind;
      assert mine + Joined(Replaced(p, rtsp)) == (mine + text) + after;
      BlockClean(was, mine, text, HTTP_SCHEME, http);
      OwnHidesNothing(rtsp, FirstText(rest), HTTP_SCHEME);
      HiddenMatters(authority, name, rest, http, rtsp);
  }

  lemma OwnAuthority(host: bytes, port: nat)
    requires NoDelimiter(host)
    ensures Own(LocalAuthority(host, port))
  {
    hide NoDelimiter;
    LocalAuthorityHasNoDelimiter(host, port);
    var d := Print(port);
    assert LocalAuthority(host, port)[|LocalAuthority(host, port)| - 1] == d[|d| - 1];
  }

  /** Rewriting the rewritten text again changes nothing if and only if no http URL in it
      names an address any more. */
  lemma SettledExactly(data: bytes, config: Config)
    requires NoDelimiter(config.host)
    ensures var out := AuthoritiesReplaced(data, config);
      (AuthoritiesReplaced(out, config) == out) <==>
        Clean(Cut(out, HTTP_SCHEME), LocalAuthority(config.host, config.onvifPort))
  {
    hide Rewritten, Cut, Clean, LocalAuthority, NoDelimiter, WellCut, Own, HTTP_SCHEME, RTSP_SCHEME, IsScheme;
    var out := AuthoritiesReplaced(data, config);
    var http, rtsp := LocalAuthority(config.host, config.onvifPort), LocalAuthority(config.host, config.rtspPort);
    Distinct();
    OwnAuthority(config.host, config.onvifPort);
    OwnAuthority(config.host, config.rtspPort);
    SchemesAreThere();
    LocalAuthorityHasNoDelimiter(config.host, config.onvifPort);
    LocalAuthorityHasNoDelimiter(config.host, config.rtspPort);
    NoCameraStreamAddressLeft(data, config);
    if Clean(Cut(out, HTTP_SCHEME), http) {
      CleanIsUnchanged(out, HTTP_SCHEME, http);
      PassIsIdempotent(Rewritten(data, HTTP_SCHEME, http), RTSP_SCHEME, rtsp);
    } else if AuthoritiesReplaced(out, config) == out {
      var p := Cut(out, HTTP_SCHEME);
      CutIsWellCut(out, HTTP_SCHEME);
      RewrittenIs(out, HTTP_SCHEME, http);
      NothingInFront(out);
      NothingInFront(Rewritten(out, HTTP_SCHEME, http));
      NothingHasNoDelimiter();
      UnsettledChanges([], p, HTTP_SCHEME, http, RTSP_SCHEME, rtsp);
    }
  }

  lemma SchemesAreThere()
    ensures HTTP_SCHEME != [] && RTSP_SCHEME != []
  {
  }

  lemma RewrittenIs(s: bytes, prefix: bytes, authority: bytes)
    requires prefix != []
    ensures Rewritten(s, prefix, authority) == Joined(Replaced(Cut(s, prefix), authority))
  {
  }

  lemma NothingInFront(s: bytes)
    ensures [] + s == s
  {
  }

  lemma NothingHasNoDelimiter()
    ensures NoDelimiter([])
  {
  }

  /** Rewriting twice is rewriting once if and only if, in the text as the second pass
      finds it, no replaceable rtsp authority hides a scheme whose loss would bring an
      address to light. */
  lemma TwiceIsOnceExactly(data: bytes, config: Config)
    requires NoDelimiter(config.host)
    ensures var http := LocalAuthority(config.host, config.onvifPort);
      var between := Rewritten(data, HTTP_SCHEME, http);
      (AuthoritiesReplaced(AuthoritiesReplaced(data, config), config) == AuthoritiesReplaced(data, config)) <==>
        NothingHidden(Cut(between, RTSP_SCHEME), http)
  {
    hide Rewritten, Cut, Clean, LocalAuthority, NoDelimiter, WellCut, Own, HTTP_SCHEME, RTSP_SCHEME, IsScheme,
      NothingHidden;
    SchemesAreThere();
    var http, rtsp := LocalAuthority(config.host, config.onvifPort), LocalAuthority(config.host, config.rtspPort);
    var between := Rewritten(data, HTTP_SCHEME, http);
    Distinct();
    OwnAuthority(config.host, config.onvifPort);
    OwnAuthority(config.host, config.rtspPort);
    LocalAuthorityHasNoDelimiter(config.host, config.onvifPort);
    SettledExactly(data, config);
    PassLeavesNoAddress(data, HTTP_SCHEME, http);
    CutIsWellCut(between, RTSP_SCHEME);
    RewrittenIs(between, RTSP_SCHEME, rtsp);
    NothingInFront(between);
    NothingInFront(Rewritten(between, RTSP_SCHEME, rtsp));
    NothingHasNoDelimiter();
    HiddenMatters([], [], Cut(between, RTSP_SCHEME), http, rtsp);
  }

  // ---- a text that does not settle ----

  lemma NoMatch(s: bytes, n: nat, prefix: bytes)
    requires prefix != [] && forall k :: 0 <= k < n && k < |s| ==> Lower(s[k]) != Lower(prefix[0])
    ensures forall k: nat :: k < n ==> !PrefixAt(s, k, prefix)
  {
    forall k: nat | k < n ensures !PrefixAt(s, k, prefix) {
      assert k + |prefix| <= |s| ==> s[k..k + |prefix|][0] == s[k];
    }
  }

  lemma NoMatchAtAll(s: bytes, prefix: bytes)
    requires prefix != [] && forall k :: 0 <= k < |s| ==> Lower(s[k]) != Lower(prefix[0])
    ensures forall k: nat :: !PrefixAt(s, k, prefix)
  {
    NoMatch(s, |s|, prefix);
  }

  lemma MatchAtEnd(s: bytes, prefix: bytes)
    requires prefix != []
    ensures PrefixAt(s + prefix, |s|, prefix)
  {
    assert (s + prefix)[|s|..|s| + |prefix|] == prefix;
  }

  /** One URL after some text without its scheme, and text without it behind. */
  lemma OneUrl(before: bytes, prefix: bytes, original: bytes, after: bytes, authority: bytes)
    requires prefix != [] && NoDelimiter(original) && after != [] && IsDelimiter(after[0])
    requires forall k :: 0 <= k < |before| ==> Lower(before[k]) != Lower(prefix[0])
    requires forall k :: 0 <= k < |after| ==> Lower(after[k]) != Lower(prefix[0])
    ensures Rewritten(before + prefix + (original + after), prefix, authority)
         == before + prefix + (NewAuthority(original, authority) + after)
  {
    hide PrefixAt, NoDelimiter, IsDelimiter, Replaceable, Cut, Lower;
    var text := before + prefix;
    var tail := Last(after);
    var p := Url(text, original, tail);
    NoMatch(text, |before|, prefix);
    MatchAtEnd(before, prefix);
    NoMatchAtAll(after, prefix);
    assert Joined(tail) == after && |text| - |prefix| == |before|;
    assert WellCut(tail, prefix);
    assert WellCut(p, prefix);
    CutOfJoined(p, prefix);
    assert Replaced(tail, authority) == tail;
  }

  const COLON: bytes := [0x3A]
  const DOTS: bytes := [0x2E, 0x2E, 0x2E]
  const SLASHES: bytes := [0x2F, 0x2F]
  const SLASH: bytes := [0x2F]
  const HTTP: bytes := [0x68, 0x74, 0x74, 0x70]
  const RTSP: bytes := [0x72, 0x74, 0x73, 0x70]

  /** `rtsp://...:http://http://.../`: three dots are an IPv4 literal to the code. */
  const TWICE: bytes :=
    RTSP + COLON + SLASHES + DOTS + COLON + HTTP + COLON + SLASHES + HTTP + COLON + SLASHES + DOTS + SLASH

  /** 1.1.1.1, ports 2 and 3. */
  const LOCAL: Config := Config([0x31, 0x2E, 0x31, 0x2E, 0x31, 0x2E, 0x31], 2, 3)
  const LOCAL_HTTP: bytes := [0x31, 0x2E, 0x31, 0x2E, 0x31, 0x2E, 0x31, 0x3A, 0x32]
  const LOCAL_RTSP: bytes := [0x31, 0x2E, 0x31, 0x2E, 0x31, 0x2E, 0x31, 0x3A, 0x33]

  lemma Locals()
    ensures LocalAuthority(LOCAL.host, LOCAL.onvifPort) == LOCAL_HTTP
    ensures LocalAuthority(LOCAL.host, LOCAL.rtspPort) == LOCAL_RTSP
  {
    assert Print(2) == [0x32] && Print(3) == [0x33];
  }

  lemma Schemes()
    ensures HTTP_SCHEME == HTTP + COLON + SLASHES && RTSP_SCHEME == RTSP + COLON + SLASHES
  {
  }

  lemma DotsAreReplaceable()
    ensures Replaceable(DOTS) && Replaceable(DOTS + COLON + HTTP + COLON)
  {
    var two: bytes, one: bytes := [0x2E, 0x2E], [0x2E];
    assert DOTS[1..] == two && two[1..] == one && one[1..] == [];
    assert Dots(one) == 1 && Dots(two) == 2;
    HostOfAuthority([], DOTS, []);
    assert DOTS + [] == DOTS;
    HostOfAuthority([], DOTS, COLON + HTTP + COLON);
    assert DOTS + (COLON + HTTP + COLON) == DOTS + COLON + HTTP + COLON;
  }

  lemma HttpIsNotReplaceable()
    ensures !Replaceable(HTTP + COLON)
  {
    HostOfAuthority([], HTTP, COLON);
    assert HTTP[0] == 0x68;
    assert |Ascii("localhost")| == 9;
  }

  const ONCE: bytes := RTSP + COLON + SLASHES + LOCAL_RTSP + SLASHES + HTTP + COLON + SLASHES + DOTS + SLASH

  const AGAIN: bytes := RTSP + COLON + SLASHES + LOCAL_RTSP + SLASHES + HTTP + COLON + SLASHES + LOCAL_HTTP + SLASH

  lemma HttpPassOfTwice()
    ensures Rewritten(TWICE, HTTP + COLON + SLASHES, LOCAL_HTTP) == TWICE
  {
    hide Rewritten, Replaceable;
    HttpIsNotReplaceable();
    var before, after := RTSP + COLON + SLASHES + DOTS + COLON, SLASHES + DOTS + SLASH;
    OneUrl(before, HTTP + COLON + SLASHES, HTTP + COLON, after, LOCAL_HTTP);
    assert TWICE == before + (HTTP + COLON + SLASHES) + (HTTP + COLON + after);
  }

  lemma RtspPassOfTwice()
    ensures Rewritten(TWICE, RTSP + COLON + SLASHES, LOCAL_RTSP) == ONCE
  {
    hide Rewritten, Replaceable;
    DotsAreReplaceable();
    var original, after := DOTS + COLON + HTTP + COLON, SLASHES + HTTP + COLON + SLASHES + DOTS + SLASH;
    OneUrl([], RTSP + COLON + SLASHES, original, after, LOCAL_RTSP);
    assert TWICE == [] + (RTSP + COLON + SLASHES) + (original + after);
    assert ONCE == [] + (RTSP + COLON + SLASHES) + (LOCAL_RTSP + after);
  }

  lemma HttpPassOfOnce()
    ensures Rewritten(ONCE, HTTP + COLON + SLASHES, LOCAL_HTTP) == AGAIN
  {
    hide Rewritten, Replaceable;
    DotsAreReplaceable();
    var before := RTSP + COLON + SLASHES + LOCAL_RTSP + SLASHES;
    OneUrl(before, HTTP + COLON + SLASHES, DOTS, SLASH, LOCAL_HTTP);
    assert ONCE == before + (HTTP + COLON + SLASHES) + (DOTS + SLASH);
    assert AGAIN == before + (HTTP + COLON + SLASHES) + (LOCAL_HTTP + SLASH);
  }

  lemma RtspPassOfAgain()
    ensures Rewritten(AGAIN, RTSP + COLON + SLASHES, LOCAL_RTSP) == AGAIN
  {
    hide Rewritten, Replaceable;
    var after := SLASHES + HTTP + COLON + SLASHES + LOCAL_HTTP + SLASH;
    OneUrl([], RTSP + COLON + SLASHES, LOCAL_RTSP, after, LOCAL_RTSP);
    assert AGAIN == [] + (RTSP + COLON + SLASHES) + (LOCAL_RTSP + after);
  }

  /** Rewriting twice is not rewriting once. */
  lemma TwiceIsNotOnce()
    ensures AuthoritiesReplaced(AuthoritiesReplaced(TWICE, LOCAL), LOCAL) != AuthoritiesReplaced(TWICE, LOCAL)
  {
    hide Rewritten, ONCE, AGAIN, LocalAuthority, HTTP_SCHEME, RTSP_SCHEME;
    Schemes();
    Locals();
    HttpPassOfTwice();
    RtspPassOfTwice();
    HttpPassOfOnce();
    RtspPassOfAgain();
    OnceIsNotAgain();
  }

  lemma OnceIsNotAgain()
    ensures ONCE != AGAIN
  {
    assert |ONCE| != |AGAIN|;
  }
}
