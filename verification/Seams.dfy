/**
 Where a text may be taken apart without a pass noticing: the cut of the whole is then
 the cut of the two parts put together.
 */
module Seams {
  import opened Words
  import opened Options
  import opened Decimal
  import opened ByteStrings
  import opened Rewriter

  /** The pieces of one text followed by those of another. */
  function Append(p: Pieces, q: Pieces): Pieces {
    match p
    case Url(text, authority, rest) => Url(text, authority, Append(rest, q))
    case Last(text) =>
      match q
      case Last(more) => Last(text + more)
      case Url(more, authority, rest) => Url(text + more, authority, rest)
  }

  lemma {:induction false} AppendJoined(p: Pieces, q: Pieces)
    ensures Joined(Append(p, q)) == Joined(p) + Joined(q)
  {
    match p
    case Last(_) =>
    case Url(text, authority, rest) =>
      AppendJoined(rest, q);
      assert text + (authority + (Joined(rest) + Joined(q))) == text + (authority + Joined(rest)) + Joined(q);
  }

  lemma {:induction false} AppendReplaced(p: Pieces, q: Pieces, authority: bytes)
    ensures Replaced(Append(p, q), authority) == Append(Replaced(p, authority), Replaced(q, authority))
  {
    hide NewAuthority;
    if p.Url? {
      AppendReplaced(p.rest, q, authority);
    }
  }

  lemma {:induction false} AppendClean(p: Pieces, q: Pieces, authority: bytes)
    ensures Clean(Append(p, q), authority) <==> Clean(p, authority) && Clean(q, authority)
  {
    hide Replaceable;
    if p.Url? {
      AppendClean(p.rest, q, authority);
    }
  }

  /** No scheme begins in `a` and ends in `b`. */
  ghost predicate NoStraddle(a: bytes, b: bytes, prefix: bytes) {
    forall k: nat :: k < |a| && PrefixAt(a + b, k, prefix) ==> k + |prefix| <= |a|
  }

  predicate EndsWith(a: bytes, prefix: bytes) {
    |a| >= |prefix| && PrefixAt(a, |a| - |prefix|, prefix)
  }

  /** No authority reaches from `a` into `b`. */
  predicate Breaks(a: bytes, b: bytes, prefix: bytes) {
    || a == [] || b == [] || IsDelimiter(b[0])
    || (IsDelimiter(a[|a| - 1]) && !EndsWith(a, prefix))
  }

  lemma PrefixInFirst(a: bytes, b: bytes, k: nat, prefix: bytes)
    requires k + |prefix| <= |a|
    ensures PrefixAt(a + b, k, prefix) == PrefixAt(a, k, prefix)
  {
    assert (a + b)[k..k + |prefix|] == a[k..k + |prefix|];
  }

  lemma PrefixInSecond(a: bytes, b: bytes, k: nat, prefix: bytes)
    ensures PrefixAt(a + b, |a| + k, prefix) == PrefixAt(b, k, prefix)
  {
    assert k + |prefix| <= |b| ==> (a + b)[|a| + k..|a| + k + |prefix|] == b[k..k + |prefix|];
  }

  lemma NoPrefixBefore(a: bytes, b: bytes, prefix: bytes)
    requires NoStraddle(a, b, prefix) && forall k: nat :: !PrefixAt(a, k, prefix)
    ensures forall k: nat :: k < |a| ==> !PrefixAt(a + b, k, prefix)
  {
    hide PrefixAt;
    forall k: nat | k < |a| ensures !PrefixAt(a + b, k, prefix) {
      if PrefixAt(a + b, k, prefix) {
        PrefixInFirst(a, b, k, prefix);
      }
    }
  }

  lemma NoneInBoth(a: bytes, b: bytes, prefix: bytes)
    requires prefix != [] && NoStraddle(a, b, prefix)
    requires (forall k: nat :: !PrefixAt(a, k, prefix)) && (forall k: nat :: !PrefixAt(b, k, prefix))
    ensures Cut(a + b, prefix) == Last(a + b)
  {
    hide PrefixAt, Cut;
    NoPrefixBefore(a, b, prefix);
    forall k: nat ensures !PrefixAt(a + b, k, prefix) {
      if k >= |a| {
        PrefixInSecond(a, b, k - |a|, prefix);
      }
    }
    CutNone(a + b, prefix);
  }

  lemma FirstInSecond(a: bytes, b: bytes, prefix: bytes, p: nat)
    requires prefix != [] && NoStraddle(a, b, prefix)
    requires (forall k: nat :: !PrefixAt(a, k, prefix)) && FirstPrefix(b, prefix, p)
    ensures Cut(a + b, prefix) == Append(Last(a), Cut(b, prefix))
  {
    hide PrefixAt, Cut, AuthorityLength;
    NoPrefixBefore(a, b, prefix);
    PrefixInSecond(a, b, p, prefix);
    forall k: nat | k < |a| + p ensures !PrefixAt(a + b, k, prefix) {
      if k >= |a| {
        PrefixInSecond(a, b, k - |a|, prefix);
      }
    }
    PrefixFits(b, prefix, p);
    var start := p + |prefix|;
    var end := start + AuthorityLength(b[start..]);
    CutAt(b, prefix, p);
    CutAt(a + b, prefix, |a| + p);
    var s := a + b;
    assert s[|a| + start..] == b[start..] && s[..|a| + start] == a + b[..start];
    assert s[|a| + start..|a| + end] == b[start..end] && s[|a| + end..] == b[end..];
  }

  lemma DelimiterBehind(a: bytes, b: bytes, prefix: bytes, p: nat)
    requires FirstPrefix(a, prefix, p) && Breaks(a, b, prefix) && prefix != []
    ensures p + |prefix| <= |a|
    ensures var end := p + |prefix| + AuthorityLength(a[p + |prefix|..]);
      end <= |a| && var rest := a[end..] + b; rest != [] ==> IsDelimiter(rest[0])
  {
    hide PrefixAt, AuthorityLength, IsDelimiter;
    PrefixFits(a, prefix, p);
    var start := p + |prefix|;
    var n := AuthorityLength(a[start..]);
    var end := start + n;
    AuthorityAt(a, start);
    if end == |a| && n > 0 {
      assert a[|a| - 1] == a[start..end][n - 1];
    }
    if end < |a| {
      assert (a[end..] + b)[0] == a[end..][0];
    } else {
      assert a[end..] + b == b;
    }
  }

  lemma TailSplits(a: bytes, b: bytes, i: nat, j: nat)
    requires i <= j <= |a|
    ensures (a + b)[i..] == a[i..j] + (a[j..] + b)
  {
  }

  lemma AuthorityStays(a: bytes, b: bytes, prefix: bytes, p: nat)
    requires FirstPrefix(a, prefix, p) && Breaks(a, b, prefix) && prefix != []
    ensures p + |prefix| <= |a|
    ensures AuthorityLength((a + b)[p + |prefix|..]) == AuthorityLength(a[p + |prefix|..])
  {
    hide PrefixAt, AuthorityLength, IsDelimiter, FirstPrefix, Breaks, NoDelimiter;
    PrefixFits(a, prefix, p);
    var start := p + |prefix|;
    var end := start + AuthorityLength(a[start..]);
    AuthorityAt(a, start);
    var rest := a[end..] + b;
    DelimiterBehind(a, b, prefix, p);
    AuthorityLengthIs(a[start..end], rest);
    TailSplits(a, b, start, end);
  }

  lemma SeamBehind(a: bytes, b: bytes, prefix: bytes, end: nat)
    requires NoStraddle(a, b, prefix) && Breaks(a, b, prefix) && end <= |a|
    ensures NoStraddle(a[end..], b, prefix) && Breaks(a[end..], b, prefix)
  {
    hide PrefixAt, IsDelimiter;
    var later := a[end..];
    assert a == a[..end] + later && a + b == a[..end] + (later + b);
    forall k: nat | k < |later| && PrefixAt(later + b, k, prefix) ensures k + |prefix| <= |later| {
      PrefixInSecond(a[..end], later + b, k, prefix);
      assert PrefixAt(a + b, end + k, prefix);
    }
    if later != [] && |later| >= |prefix| {
      PrefixInSecond(a[..end], later, |later| - |prefix|, prefix);
    }
  }

  /** The cut of a text is that of its parts, where no scheme and no authority crosses. */
  lemma {:induction false} CutJoins(a: bytes, b: bytes, prefix: bytes)
    requires prefix != [] && NoStraddle(a, b, prefix) && Breaks(a, b, prefix)
    ensures Cut(a + b, prefix) == Append(Cut(a, prefix), Cut(b, prefix))
    decreases |a|
  {
    hide PrefixAt, Cut, AuthorityLength, NoStraddle, Breaks, FirstPrefix;
    match FindPrefix(a, prefix)
    case None =>
      CutNone(a, prefix);
      match FindPrefix(b, prefix) {
        case None =>
          CutNone(b, prefix);
          NoneInBoth(a, b, prefix);
        case Some(p) =>
          FirstInSecond(a, b, prefix, p);
      }
    case Some(p) =>
      AuthorityStays(a, b, prefix, p);
      var start := p + |prefix|;
      var end := start + AuthorityLength(a[start..]);
      assert (a + b)[..start] == a[..start];
      FirstPrefixTake(a, prefix, p, a + b);
      CutAt(a, prefix, p);
      CutAt(a + b, prefix, p);
      SeamBehind(a, b, prefix, end);
      CutJoins(a[end..], b, prefix);
      assert (a + b)[end..] == a[end..] + b && (a + b)[start..end] == a[start..end];
  }

  /** So a pass rewrites the parts one by one, and the whole is clean if both are. */
  lemma PassJoins(a: bytes, b: bytes, prefix: bytes, authority: bytes)
    requires prefix != [] && NoStraddle(a, b, prefix) && Breaks(a, b, prefix)
    ensures Rewritten(a + b, prefix, authority) == Rewritten(a, prefix, authority) + Rewritten(b, prefix, authority)
    ensures Clean(Cut(a + b, prefix), authority) <==>
      Clean(Cut(a, prefix), authority) && Clean(Cut(b, prefix), authority)
  {
    hide Cut, NoStraddle, Breaks, Clean, Joined, Replaced, Append;
    CutJoins(a, b, prefix);
    AppendReplaced(Cut(a, prefix), Cut(b, prefix), authority);
    AppendJoined(Replaced(Cut(a, prefix), authority), Replaced(Cut(b, prefix), authority));
    AppendClean(Cut(a, prefix), Cut(b, prefix), authority);
  }

  // ---- seams of URLs ----

  /** Four letters, a colon and two slashes. */
  predicate IsScheme(prefix: bytes) {
    && |prefix| == 7 && (forall i :: 0 <= i < 4 ==> 0x61 <= prefix[i] <= 0x7A)
    && prefix[4] == 0x3A && prefix[5] == 0x2F && prefix[6] == 0x2F
  }

  lemma MatchedByte(s: bytes, k: nat, prefix: bytes, i: nat)
    requires PrefixAt(s, k, prefix) && i < |prefix|
    ensures k + i < |s| && Lower(s[k + i]) == Lower(prefix[i])
  {
    assert s[k..k + |prefix|][i] == s[k + i];
  }

  /** A scheme that crossed would end its first part in one slash, not two. */
  lemma SlashesStopStraddle(a: bytes, b: bytes, prefix: bytes)
    requires IsScheme(prefix) && |a| >= 2 && a[|a| - 2] == 0x2F && a[|a| - 1] == 0x2F
    ensures NoStraddle(a, b, prefix)
  {
    hide PrefixAt;
    forall k: nat | k < |a| && PrefixAt(a + b, k, prefix) ensures k + |prefix| <= |a| {
      var j := |a| - k;
      if j < 7 {
        MatchedByte(a + b, k, prefix, j - 1);
        if j > 1 {
          MatchedByte(a + b, k, prefix, j - 2);
        }
      }
    }
  }

  lemma DigitStopsStraddle(a: bytes, b: bytes, prefix: bytes)
    requires IsScheme(prefix) && a != [] && IsDigit(a[|a| - 1])
    ensures NoStraddle(a, b, prefix)
  {
    hide PrefixAt;
    forall k: nat | k < |a| && PrefixAt(a + b, k, prefix) ensures k + |prefix| <= |a| {
      if |a| - k < 7 {
        MatchedByte(a + b, k, prefix, |a| - k - 1);
      }
    }
  }

  /** The end of `a` and the slashes behind it make up a scheme. */
  predicate Hides(a: bytes, b: bytes, prefix: bytes)
    requires IsScheme(prefix)
  {
    && |a| >= 5 && SameIgnoringCase(a[|a| - 5..], prefix[..5])
    && |b| >= 2 && b[0] == 0x2F && b[1] == 0x2F
  }

  /** A scheme begins in a text without delimiters only if it is hidden there. */
  lemma OnlyHiddenStraddle(a: bytes, b: bytes, prefix: bytes)
    requires IsScheme(prefix) && NoDelimiter(a) && (b == [] || IsDelimiter(b[0])) && !Hides(a, b, prefix)
    ensures NoStraddle(a, b, prefix)
  {
    hide PrefixAt;
    forall k: nat | k < |a| && PrefixAt(a + b, k, prefix) ensures k + |prefix| <= |a| {
      var j := |a| - k;
      if j < 7 {
        if j == 6 {
          MatchedByte(a + b, k, prefix, 5);
        } else if j == 5 {
          MatchedByte(a + b, k, prefix, 5);
          MatchedByte(a + b, k, prefix, 6);
          forall i | 0 <= i < 5 ensures Lower(a[|a| - 5..][i]) == Lower(prefix[..5][i]) {
            MatchedByte(a + b, k, prefix, i);
          }
        } else {
          MatchedByte(a + b, k, prefix, j);
        }
      }
    }
  }

  /** A text without slashes holds no scheme. */
  lemma PlainCut(a: bytes, prefix: bytes)
    requires IsScheme(prefix) && NoDelimiter(a)
    ensures Cut(a, prefix) == Last(a)
  {
    hide PrefixAt, Cut;
    forall k: nat ensures !PrefixAt(a, k, prefix) {
      if PrefixAt(a, k, prefix) {
        MatchedByte(a, k, prefix, 5);
      }
    }
    CutNone(a, prefix);
  }

  /** Behind one scheme there is a seam for the other. */
  lemma SeamBehindScheme(a: bytes, b: bytes, own: bytes, other: bytes)
    requires IsScheme(own) && IsScheme(other) && own[0] != other[0]
    requires EndsWith(a, own)
    ensures NoStraddle(a, b, other) && Breaks(a, b, other)
  {
    hide PrefixAt, NoStraddle;
    var k := |a| - 7;
    MatchedByte(a, k, own, 5);
    MatchedByte(a, k, own, 6);
    MatchedByte(a, k, own, 0);
    SlashesStopStraddle(a, b, other);
    if EndsWith(a, other) {
      MatchedByte(a, k, other, 0);
    }
  }
}
