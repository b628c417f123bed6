/**
 Rewriting the authorities of camera URLs (authority: section 3.2 of RFC 3986), one
 scheme a pass. `Pieces` cuts the text at its URLs; a pass replaces some of the
 authority pieces and nothing else.
 */
module Rewriter {
  import opened Words
  import opened Options
  import opened Decimal
  import opened ByteStrings

  /** `prefix` stands at `i`, whatever its case. */
  predicate PrefixAt(s: bytes, i: nat, prefix: bytes) {
    i + |prefix| <= |s| && SameIgnoringCase(s[i..i + |prefix|], prefix)
  }

  ghost predicate FirstPrefix(s: bytes, prefix: bytes, i: nat) {
    PrefixAt(s, i, prefix) && forall k: nat :: k < i ==> !PrefixAt(s, k, prefix)
  }

  function FindPrefix(s: bytes, prefix: bytes): (r: Option<nat>)
    ensures r.Some? ==> FirstPrefix(s, prefix, r.value)
    ensures r.None? ==> forall k: nat :: !PrefixAt(s, k, prefix)
  {
    FindPrefixFrom(s, prefix, 0)
  }

  function FindPrefixFrom(s: bytes, prefix: bytes, from: nat): (r: Option<nat>)
    requires forall k: nat :: k < from ==> !PrefixAt(s, k, prefix)
    ensures r.Some? ==> FirstPrefix(s, prefix, r.value)
    ensures r.None? ==> forall k: nat :: !PrefixAt(s, k, prefix)
    decreases |s| - from
  {
    if from + |prefix| > |s| then None
    else if PrefixAt(s, from, prefix) then Some(from)
    else FindPrefixFrom(s, prefix, from + 1)
  }

  /** Slash, space, CR, LF, both quotes and both angle brackets. */
  predicate IsDelimiter(b: byte) {
    b == 0x2F || b == 0x20 || b == 0x0D || b == 0x0A || b == 0x22 || b == 0x27 || b == 0x3C || b == 0x3E
  }

  predicate NoDelimiter(s: bytes) {
    forall i :: 0 <= i < |s| ==> !IsDelimiter(s[i])
  }

  /** How many bytes come before the first delimiter. */
  function AuthorityLength(s: bytes): (n: nat)
    ensures n <= |s| && NoDelimiter(s[..n]) && (n < |s| ==> IsDelimiter(s[n]))
  {
    if s == [] || IsDelimiter(s[0]) then 0 else 1 + AuthorityLength(s[1..])
  }

  /** After the last at-sign. */
  function AfterLastAt(s: bytes): bytes {
    if s == [] then []
    else if s[|s| - 1] == 0x40 then []
    else AfterLastAt(s[..|s| - 1]) + [s[|s| - 1]]
  }

  function BeforeFirstColon(s: bytes): bytes {
    if s == [] || s[0] == 0x3A then [] else [s[0]] + BeforeFirstColon(s[1..])
  }

  function HostOf(authority: bytes): bytes {
    BeforeFirstColon(AfterLastAt(authority))
  }

  function Dots(s: bytes): nat {
    if s == [] then 0 else (if s[0] == 0x2E then 1 else 0) + Dots(s[1..])
  }

  predicate Ipv4Literal(host: bytes) {
    (forall i :: 0 <= i < |host| ==> IsDigit(host[i]) || host[i] == 0x2E) && Dots(host) == 3
  }

  predicate Replaceable(authority: bytes) {
    Ipv4Literal(HostOf(authority)) || SameIgnoringCase(HostOf(authority), Ascii("localhost"))
  }

  // ---- what a pass does ----

  /** A text cut at its URLs: what leads up to each authority, and the authority. */
  datatype Pieces =
    | Last(text: bytes)
    | Url(text: bytes, authority: bytes, rest: Pieces)

  function Cut(s: bytes, prefix: bytes): Pieces
    requires prefix != []
    decreases |s|
  {
    match FindPrefix(s, prefix)
    case None => Last(s)
    case Some(p) =>
      var start := p + |prefix|;
      var end := start + AuthorityLength(s[start..]);
      Url(s[..start], s[start..end], Cut(s[end..], prefix))
  }

  function NewAuthority(original: bytes, authority: bytes): bytes {
    if Replaceable(original) then authority else original
  }

  function Replaced(p: Pieces, authority: bytes): Pieces {
    match p
    case Last(text) => p
    case Url(text, original, rest) => Url(text, NewAuthority(original, authority), Replaced(rest, authority))
  }

  function Joined(p: Pieces): bytes {
    match p
    case Last(text) => text
    case Url(text, authority, rest) => text + (authority + Joined(rest))
  }

  /** One pass: cut, replace the authorities that name an address, join. */
  function Rewritten(s: bytes, prefix: bytes, authority: bytes): bytes
    requires prefix != []
  {
    Joined(Replaced(Cut(s, prefix), authority))
  }

  lemma CutNone(s: bytes, prefix: bytes)
    requires prefix != [] && forall k: nat :: !PrefixAt(s, k, prefix)
    ensures Cut(s, prefix) == Last(s)
  {
    assert FindPrefix(s, prefix) == None;
  }

  lemma CutAt(s: bytes, prefix: bytes, p: nat)
    requires prefix != [] && FirstPrefix(s, prefix, p)
    ensures var start := p + |prefix|;
      start <= |s| && var end := start + AuthorityLength(s[start..]);
      Cut(s, prefix) == Url(s[..start], s[start..end], Cut(s[end..], prefix))
  {
    hide PrefixAt, AuthorityLength, FindPrefix, NoDelimiter, IsDelimiter;
    PrefixFits(s, prefix, p);
    assert FindPrefix(s, prefix) == Some(p);
  }

  lemma PrefixFits(s: bytes, prefix: bytes, p: nat)
    requires FirstPrefix(s, prefix, p)
    ensures p + |prefix| <= |s|
  {
  }

  /** What is between the schemes and what follows them, as the text has it. */
  ghost predicate WellCut(p: Pieces, prefix: bytes) {
    match p
    case Last(text) => forall k: nat :: !PrefixAt(text, k, prefix)
    case Url(text, authority, rest) =>
      && |text| >= |prefix| && FirstPrefix(text, prefix, |text| - |prefix|)
      && NoDelimiter(authority)
      && (Joined(rest) != [] ==> IsDelimiter(Joined(rest)[0]))
      && WellCut(rest, prefix)
  }

  lemma FirstPrefixTake(s: bytes, prefix: bytes, p: nat, t: bytes)
    requires FirstPrefix(s, prefix, p) && p + |prefix| <= |t|
    requires t[..p + |prefix|] == s[..p + |prefix|]
    ensures FirstPrefix(t, prefix, p)
  {
    hide SameIgnoringCase;
    var n := p + |prefix|;
    forall k: nat | k <= p ensures PrefixAt(t, k, prefix) == PrefixAt(s, k, prefix) {
      assert t[k..k + |prefix|] == t[..n][k..k + |prefix|];
      assert s[k..k + |prefix|] == s[..n][k..k + |prefix|];
    }
  }

  /** The authority that starts at `start` ends at a delimiter or with the text. */
  lemma AuthorityAt(s: bytes, start: nat)
    requires start <= |s|
    ensures var end := start + AuthorityLength(s[start..]);
      && end <= |s| && NoDelimiter(s[start..end])
      && s == s[..start] + (s[start..end] + s[end..])
      && (s[end..] != [] ==> IsDelimiter(s[end..][0]))
  {
    hide AuthorityLength, IsDelimiter;
    var n := AuthorityLength(s[start..]);
    assert s[start..][..n] == s[start..start + n];
    assert start + n < |s| ==> s[start + n..][0] == s[start..][n];
  }

  lemma {:induction false} CutIsWellCut(s: bytes, prefix: bytes)
    requires prefix != []
    ensures Joined(Cut(s, prefix)) == s && WellCut(Cut(s, prefix), prefix)
    decreases |s|
  {
    hide PrefixAt, AuthorityLength, FirstPrefix, Cut, NoDelimiter, IsDelimiter;
    match FindPrefix(s, prefix)
    case None =>
      CutNone(s, prefix);
    case Some(p) =>
      PrefixFits(s, prefix, p);
      CutAt(s, prefix, p);
      var start := p + |prefix|;
      var end := start + AuthorityLength(s[start..]);
      AuthorityAt(s, start);
      FirstPrefixTake(s, prefix, p, s[..start]);
      CutIsWellCut(s[end..], prefix);
      assert |s[..start]| - |prefix| == p;
  }

  lemma {:induction false} AuthorityLengthIs(a: bytes, rest: bytes)
    requires NoDelimiter(a) && (rest != [] ==> IsDelimiter(rest[0]))
    ensures AuthorityLength(a + rest) == |a|
  {
    if a == [] {
      assert a + rest == rest;
    } else {
      assert (a + rest)[1..] == a[1..] + rest;
      assert (a + rest)[0] == a[0];
      AuthorityLengthIs(a[1..], rest);
    }
  }

  /** Cutting is determined by its shape: a well-cut text cuts into the same pieces. */
  lemma {:induction false} CutOfJoined(p: Pieces, prefix: bytes)
    requires prefix != [] && WellCut(p, prefix)
    ensures Cut(Joined(p), prefix) == p
  {
    hide PrefixAt, AuthorityLength, FirstPrefix, Cut, NoDelimiter, IsDelimiter;
    match p
    case Last(text) =>
      CutNone(text, prefix);
    case Url(text, authority, rest) =>
      var s, tail := Joined(p), authority + Joined(rest);
      assert s[..|text|] == text && s[|text|..] == tail;
      FirstPrefixTake(text, prefix, |text| - |prefix|, s);
      AuthorityLengthIs(authority, Joined(rest));
      CutAt(s, prefix, |text| - |prefix|);
      assert s[|text|..|text| + |authority|] == authority;
      assert s[|text| + |authority|..] == Joined(rest);
      CutOfJoined(rest, prefix);
  }

  lemma JoinedStart(p: Pieces, prefix: bytes, authority: bytes)
    requires prefix != [] && WellCut(p, prefix)
    ensures var s, t := Joined(p), Joined(Replaced(p, authority)); (s == [] <==> t == []) && (s != [] ==> t[0] == s[0])
  {
    hide PrefixAt, Replaceable;
  }

  /** With an authority free of delimiters a pass changes authorities and nothing
      else: the result cuts into the same text with some authorities replaced. */
  lemma {:induction false} ReplacedIsWellCut(p: Pieces, prefix: bytes, authority: bytes)
    requires prefix != [] && WellCut(p, prefix) && NoDelimiter(authority)
    ensures WellCut(Replaced(p, authority), prefix)
  {
    hide PrefixAt, FirstPrefix, Replaceable, NoDelimiter, IsDelimiter;
    if p.Url? {
      ReplacedIsWellCut(p.rest, prefix, authority);
      JoinedStart(p.rest, prefix, authority);
    }
  }

  lemma PassReplacesAuthoritiesOnly(s: bytes, prefix: bytes, authority: bytes)
    requires prefix != [] && NoDelimiter(authority)
    ensures Joined(Cut(s, prefix)) == s
    ensures Cut(Rewritten(s, prefix, authority), prefix) == Replaced(Cut(s, prefix), authority)
  {
    hide Cut, Replaced, Joined, WellCut, NoDelimiter;
    CutIsWellCut(s, prefix);
    ReplacedIsWellCut(Cut(s, prefix), prefix, authority);
    CutOfJoined(Replaced(Cut(s, prefix), authority), prefix);
  }

  lemma {:induction false} ReplacedTwice(p: Pieces, authority: bytes)
    ensures Replaced(Replaced(p, authority), authority) == Replaced(p, authority)
  {
    hide Replaceable;
    if p.Url? {
      ReplacedTwice(p.rest, authority);
    }
  }

  /** A second run of the same pass changes nothing. */
  lemma PassIsIdempotent(s: bytes, prefix: bytes, authority: bytes)
    requires prefix != [] && NoDelimiter(authority)
    ensures Rewritten(Rewritten(s, prefix, authority), prefix, authority) == Rewritten(s, prefix, authority)
  {
    hide Cut, Replaced, Joined, NoDelimiter;
    PassReplacesAuthoritiesOnly(s, prefix, authority);
    ReplacedTwice(Cut(s, prefix), authority);
  }

  /** No authority of this scheme still names a camera address. */
  predicate Clean(p: Pieces, authority: bytes) {
    p.Url? ==> (p.authority == authority || !Replaceable(p.authority)) && Clean(p.rest, authority)
  }

  lemma {:induction false} ReplacedClean(p: Pieces, authority: bytes)
    ensures Clean(Replaced(p, authority), authority)
  {
    hide Replaceable;
    if p.Url? {
      ReplacedClean(p.rest, authority);
    }
  }

  lemma PassLeavesNoAddress(s: bytes, prefix: bytes, authority: bytes)
    requires prefix != [] && NoDelimiter(authority)
    ensures Clean(Cut(Rewritten(s, prefix, authority), prefix), authority)
  {
    hide Cut, Replaced, Joined, NoDelimiter, Clean;
    PassReplacesAuthoritiesOnly(s, prefix, authority);
    ReplacedClean(Cut(s, prefix), authority);
  }

  // ---- the loop over a buffer that changes length ----

  lemma ShortTailUnchanged(s: bytes, prefix: bytes, authority: bytes)
    requires prefix != [] && |s| <= |prefix|
    ensures Rewritten(s, prefix, authority) == s
  {
    hide SameIgnoringCase;
    match FindPrefix(s, prefix)
    case None =>
      CutNone(s, prefix);
    case Some(p) =>
      CutAt(s, prefix, p);
      NothingIsNoHost();
      CutNone([], prefix);
      assert p + |prefix| == |s|;
      assert s[..|s|] == s && s[|s|..] == [] && s[|s|..|s|] == [];
      var pieces := Url(s, [], Last([]));
      assert Cut(s, prefix) == pieces;
      assert NewAuthority([], authority) == [];
      assert Replaced(Last([]), authority) == Last([]);
      assert Replaced(pieces, authority) == pieces;
      assert Joined(Last([])) == [];
      assert s + ([] + []) == s;
  }

  lemma NothingIsNoHost()
    ensures !Replaceable([])
  {
    assert HostOf([]) == [];
    assert |Ascii("localhost")| == 9;
  }

  /** What the first URL contributes to a pass. */
  lemma FirstUrl(s: bytes, prefix: bytes, authority: bytes, p: nat)
    requires prefix != [] && FirstPrefix(s, prefix, p)
    ensures var start := p + |prefix|;
      start <= |s| && var end := start + AuthorityLength(s[start..]);
      end <= |s| &&
      Rewritten(s, prefix, authority)
        == s[..start] + (NewAuthority(s[start..end], authority) + Rewritten(s[end..], prefix, authority))
  {
    hide PrefixAt, FirstPrefix, Cut, Replaceable, AuthorityLength;
    PrefixFits(s, prefix, p);
    CutAt(s, prefix, p);
  }

  /** The splice loop of one scheme. */
  method ReplacePass(data: bytes, prefix: bytes, authority: bytes) returns (output: bytes)
    requires prefix != []
    ensures output == Rewritten(data, prefix, authority)
  {
    hide PrefixAt, FirstPrefix, Rewritten, Replaceable, AuthorityLength, IsDelimiter, NoDelimiter;
    output := data;
    var searchFrom := 0;
    ghost var rest := data;
    assert data[..0] + Rewritten(data, prefix, authority) == Rewritten(data, prefix, authority);
    while searchFrom + |prefix| < |output|
      invariant searchFrom <= |output| && output[searchFrom..] == rest
      invariant output[..searchFrom] + Rewritten(rest, prefix, authority) == Rewritten(data, prefix, authority)
      decreases |rest|
    {
      var relative := FindPrefix(output[searchFrom..], prefix);
      if relative.None? {
        NothingFound(rest, prefix, authority);
        assert output[..searchFrom] + output[searchFrom..] == output;
        return;
      }
      var p := relative.value;
      FirstUrl(rest, prefix, authority, p);
      var start := searchFrom + p + |prefix|;
      assert output[start..] == rest[p + |prefix|..];
      var end := start + AuthorityLength(output[start..]);
      var original := output[start..end];
      ghost var done, text, later := output[..searchFrom], rest[..p + |prefix|], output[end..];
      assert original == rest[p + |prefix|..p + |prefix| + (end - start)];
      assert later == rest[p + |prefix| + (end - start)..];
      assert output[..start] == done + text;
      JoinFour(done, text, NewAuthority(original, authority), Rewritten(later, prefix, authority));
      if Replaceable(original) {
        output := output[..start] + authority + output[end..];
        searchFrom := start + |authority|;
        assert output[..searchFrom] == done + text + authority;
      } else {
        searchFrom := end;
        assert output[..searchFrom] == done + text + original;
      }
      assert output[searchFrom..] == later;
      rest := later;
    }
    ShortTailUnchanged(rest, prefix, authority);
    assert output[..searchFrom] + output[searchFrom..] == output;
  }

  lemma NothingFound(s: bytes, prefix: bytes, authority: bytes)
    requires prefix != [] && forall k: nat :: !PrefixAt(s, k, prefix)
    ensures Rewritten(s, prefix, authority) == s
  {
    hide PrefixAt, Cut;
    CutNone(s, prefix);
  }

  lemma JoinFour(a: bytes, b: bytes, c: bytes, d: bytes)
    ensures a + (b + (c + d)) == a + b + c + d
  {
  }

  // ---- what the host of an authority is ----

  lemma {:induction false} AfterLastAtIs(user: bytes, rest: bytes)
    requires Lacks(rest, 0x40)
    ensures AfterLastAt(rest) == rest && AfterLastAt(user + [0x40] + rest) == rest
    decreases |rest|
  {
    var s, n := user + [0x40] + rest, |rest|;
    if n > 0 {
      AfterLastAtIs(user, rest[..n - 1]);
      assert s[..|s| - 1] == user + [0x40] + rest[..n - 1];
      assert rest[..n - 1] + [rest[n - 1]] == rest;
    } else {
      assert s[|s| - 1] == 0x40;
    }
  }

  lemma {:induction false} BeforeFirstColonIs(host: bytes, rest: bytes)
    requires Lacks(host, 0x3A) && (rest == [] || rest[0] == 0x3A)
    ensures BeforeFirstColon(host + rest) == host
  {
    if host == [] {
      assert host + rest == rest;
    } else {
      assert (host + rest)[1..] == host[1..] + rest;
      BeforeFirstColonIs(host[1..], rest);
      assert [host[0]] + host[1..] == host;
    }
  }

  /** The host looked at is the host of `[ user "@" ] host [ ":" port ]`. */
  lemma HostOfAuthority(user: bytes, host: bytes, port: bytes)
    requires Lacks(host, 0x40) && Lacks(host, 0x3A) && Lacks(port, 0x40)
    requires port == [] || port[0] == 0x3A
    ensures HostOf(host + port) == host && HostOf(user + [0x40] + (host + port)) == host
  {
    hide AfterLastAt, BeforeFirstColon;
    AfterLastAtIs(user, host + port);
    BeforeFirstColonIs(host, port);
  }

  // ---- both passes ----

  datatype Config = Config(host: bytes, onvifPort: nat, rtspPort: nat)

  const HTTP_SCHEME: bytes := Ascii("http://")

  const RTSP_SCHEME: bytes := Ascii("rtsp://")

  function LocalAuthority(host: bytes, port: nat): bytes {
    host + [0x3A] + Print(port)
  }

  lemma LocalAuthorityHasNoDelimiter(host: bytes, port: nat)
    requires NoDelimiter(host)
    ensures NoDelimiter(LocalAuthority(host, port))
  {
    var d := Print(port);
    assert forall i :: 0 <= i < |d| ==> IsDigit(d[i]);
  }

  function AuthoritiesReplaced(data: bytes, config: Config): bytes {
    Rewritten(
      Rewritten(data, HTTP_SCHEME, LocalAuthority(config.host, config.onvifPort)),
      RTSP_SCHEME, LocalAuthority(config.host, config.rtspPort))
  }

  method ReplaceUrlAuthorities(data: bytes, config: Config) returns (output: bytes)
    ensures output == AuthoritiesReplaced(data, config)
  {
    hide Rewritten;
    output := ReplacePass(data, HTTP_SCHEME, LocalAuthority(config.host, config.onvifPort));
    output := ReplacePass(output, RTSP_SCHEME, LocalAuthority(config.host, config.rtspPort));
  }

  /** Afterwards no stream URL names a camera address any more. */
  lemma NoCameraStreamAddressLeft(data: bytes, config: Config)
    requires NoDelimiter(config.host)
    ensures var local := LocalAuthority(config.host, config.rtspPort);
      Clean(Cut(AuthoritiesReplaced(data, config), RTSP_SCHEME), local)
  {
    hide Rewritten, Clean, Cut;
    LocalAuthorityHasNoDelimiter(config.host, config.rtspPort);
    PassLeavesNoAddress(
      Rewritten(data, HTTP_SCHEME, LocalAuthority(config.host, config.onvifPort)),
      RTSP_SCHEME, LocalAuthority(config.host, config.rtspPort));
  }
}
