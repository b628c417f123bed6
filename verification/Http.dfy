/**
 When a buffered HTTP response is complete: message body length by Content-Length
 (section 6.3 of RFC 9112, section 8.6 of RFC 9110), as the engine decides it.
 Header text is taken as its bytes.
 */
module Http {
  import opened Words
  import opened Options
  import opened Decimal
  import opened ByteStrings

  predicate BlankAt(s: bytes, i: nat) {
    i + 4 <= |s| && s[i] == CR && s[i + 1] == LF && s[i + 2] == CR && s[i + 3] == LF
  }

  ghost predicate FirstBlank(s: bytes, h: nat) {
    BlankAt(s, h) && forall k: nat :: k < h ==> !BlankAt(s, k)
  }

  /** Where the header ends: the first blank line. */
  function HeaderEnd(s: bytes): (r: Option<nat>)
    ensures r.Some? ==> r.value + 4 <= |s| && FirstBlank(s, r.value)
    ensures r.None? ==> forall k: nat :: !BlankAt(s, k)
  {
    HeaderEndFrom(s, 0)
  }

  function HeaderEndFrom(s: bytes, from: nat): (r: Option<nat>)
    requires forall k: nat :: k < from ==> !BlankAt(s, k)
    ensures r.Some? ==> FirstBlank(s, r.value)
    ensures r.None? ==> forall k: nat :: !BlankAt(s, k)
    decreases |s| - from
  {
    if from + 4 > |s| then None
    else if BlankAt(s, from) then Some(from)
    else HeaderEndFrom(s, from + 1)
  }

  lemma HeaderEndIs(s: bytes, h: nat)
    requires FirstBlank(s, h)
    ensures HeaderEnd(s) == Some(h)
  {
    var r := HeaderEnd(s);
    assert r.Some? && r.value == h;
  }

  /** The position of the first `b`, or the length. */
  function IndexOf(s: bytes, b: byte): (n: nat)
    ensures n <= |s| && Lacks(s[..n], b) && (n < |s| ==> s[n] == b)
  {
    if s == [] || s[0] == b then 0 else 1 + IndexOf(s[1..], b)
  }

  function WithoutCr(line: bytes): bytes {
    if line != [] && line[|line| - 1] == CR then line[..|line| - 1] else line
  }

  /** `str::lines`: cut after every LF, dropping it and a CR before it. */
  function Lines(s: bytes): seq<bytes>
    decreases |s|
  {
    if s == [] then []
    else
      var n := IndexOf(s, LF);
      if n == |s| then [s] else [WithoutCr(s[..n])] + Lines(s[n + 1..])
  }

  predicate IsSpace(b: byte) {
    b == 0x20 || 0x09 <= b <= 0x0D
  }

  function TrimStart(s: bytes): bytes {
    if s != [] && IsSpace(s[0]) then TrimStart(s[1..]) else s
  }

  function TrimEnd(s: bytes): bytes {
    if s != [] && IsSpace(s[|s| - 1]) then TrimEnd(s[..|s| - 1]) else s
  }

  const LENGTH_NAME: bytes := Ascii("content-length")

  /** The length a header line announces, if it is a readable Content-Length. */
  function LineLength(line: bytes): Option<nat> {
    var n := IndexOf(line, 0x3A);
    if n == |line| || !SameIgnoringCase(line[..n], LENGTH_NAME) then None
    else ParseSize(TrimStart(TrimEnd(line[n + 1..])))
  }

  /** The first readable length counts. */
  function ContentLength(lines: seq<bytes>): Option<nat> {
    if lines == [] then None
    else if LineLength(lines[0]).Some? then LineLength(lines[0])
    else ContentLength(lines[1..])
  }

  /** Header end, blank line and length are added in a 64-bit word, which wraps
      without a check in the release build. */
  predicate ResponseComplete(data: bytes) {
    match HeaderEnd(data)
    case None => false
    case Some(h) =>
      match ContentLength(Lines(data[..h]))
      case None => true
      case Some(length) => |data| >= (h + 4 + length) % USIZE
  }

  /** The length that the header of `data` announces for the message, read as the engine
      reads it: a header without a readable length announces no body. (By section 6.3 of
      RFC 9112 such a response goes on until the connection closes; see `GatheredExactly`.) */
  function MessageLength(data: bytes): Option<nat> {
    match HeaderEnd(data)
    case None => None
    case Some(h) =>
      match ContentLength(Lines(data[..h]))
      case None => Some(h + 4)
      case Some(length) => Some(h + 4 + length)
  }

  /** Where the test says yes for the first time: at the end announced if the sum fits
      the word, right behind the header if not. */
  function StopsAt(data: bytes): Option<nat> {
    match MessageLength(data)
    case None => None
    case Some(total) => Some(if total < USIZE then total else HeaderEnd(data).value + 4)
  }

  lemma {:induction false} ContentLengthFits(lines: seq<bytes>)
    ensures ContentLength(lines).Some? ==> ContentLength(lines).value < USIZE
  {
    hide SameIgnoringCase, TrimStart, TrimEnd, IndexOf, Value;
    if lines != [] {
      ContentLengthFits(lines[1..]);
    }
  }

  lemma BlankTake(s: bytes, m: nat)
    requires m <= |s|
    ensures forall k: nat :: BlankAt(s[..m], k) <==> (BlankAt(s, k) && k + 4 <= m)
  {
  }

  /** The test accepts a prefix of a stream exactly from `StopsAt` on. */
  lemma CompleteFrom(s: bytes, m: nat, stop: nat)
    requires m <= |s| && StopsAt(s) == Some(stop)
    ensures ResponseComplete(s[..m]) <==> m >= stop
  {
    hide BlankAt, Lines, ContentLength;
    var h := HeaderEnd(s).value;
    ContentLengthFits(Lines(s[..h]));
    BlankTake(s, m);
    if m >= h + 4 {
      assert FirstBlank(s[..m], h);
      HeaderEndIs(s[..m], h);
      assert s[..m][..h] == s[..h];
    } else {
      assert forall k: nat :: !BlankAt(s[..m], k);
    }
  }

  /** The sum of header and announced length fits the word, or there is no body. */
  predicate SumFits(s: bytes)
    requires MessageLength(s).Some?
  {
    MessageLength(s).value < USIZE || MessageLength(s).value == HeaderEnd(s).value + 4
  }

  /** A prefix of a stream is a complete response exactly when it reaches the end
      announced, if and only if the sum fits. */
  lemma CompleteExactly(s: bytes, total: nat)
    requires MessageLength(s) == Some(total)
    ensures (forall m: nat :: m <= |s| ==> (ResponseComplete(s[..m]) <==> m >= total)) <==> SumFits(s)
  {
    hide ResponseComplete, MessageLength, HeaderEnd;
    var stop := StopsAt(s).value;
    forall m: nat | m <= |s| ensures ResponseComplete(s[..m]) <==> m >= stop {
      CompleteFrom(s, m, stop);
    }
    HeaderFits(s);
    if !SumFits(s) {
      assert ResponseComplete(s[..stop]);
    }
  }

  lemma HeaderFits(s: bytes)
    requires MessageLength(s).Some?
    ensures HeaderEnd(s).Some? && HeaderEnd(s).value + 4 <= |s| && HeaderEnd(s).value + 4 <= MessageLength(s).value
  {
  }

  /** More bytes never make a complete response incomplete. */
  lemma CompleteStays(a: bytes, b: bytes)
    requires ResponseComplete(a)
    ensures ResponseComplete(a + b)
  {
    hide Lines, ContentLength;
    var s, h := a + b, HeaderEnd(a).value;
    assert s[..|a|] == a;
    BlankTake(s, |a|);
    assert FirstBlank(s, h);
    HeaderEndIs(s, h);
    assert s[..h] == a[..h];
  }

  // ---- which lines announce a length ----

  /** A space, a tab, or one of the other ASCII white-space bytes. */
  predicate Blank(s: bytes) {
    forall i :: 0 <= i < |s| ==> s[i] == 0x20 || 0x09 <= s[i] <= 0x0D
  }

  /** `text` is a number, with a plus sign or without, any number of zeros in front. */
  ghost predicate IsNumber(text: bytes, n: nat) {
    exists zeros: nat :: text == Zeros(zeros) + Print(n) || text == [0x2B] + (Zeros(zeros) + Print(n))
  }

  /** The field name in any case, a colon, and the number between white space. */
  ghost predicate Announces(line: bytes, name: bytes, left: bytes, number: bytes, right: bytes, n: nat) {
    && line == name + ([0x3A] + (left + number + right))
    && SameIgnoringCase(name, Ascii("content-length"))
    && Blank(left) && Blank(right) && IsNumber(number, n) && n < USIZE
  }

  lemma {:induction false} TrimStartIs(s: bytes) returns (left: bytes)
    ensures Blank(left) && s == left + TrimStart(s) && (TrimStart(s) == [] || !IsSpace(TrimStart(s)[0]))
  {
    if s != [] && IsSpace(s[0]) {
      var rest := TrimStartIs(s[1..]);
      left := [s[0]] + rest;
    } else {
      left := [];
    }
  }

  lemma {:induction false} TrimEndIs(s: bytes) returns (right: bytes)
    ensures Blank(right) && s == TrimEnd(s) + right
    decreases |s|
  {
    if s != [] && IsSpace(s[|s| - 1]) {
      var rest := TrimEndIs(s[..|s| - 1]);
      right := rest + [s[|s| - 1]];
    } else {
      right := [];
    }
  }

  lemma {:induction false} TrimStartOf(left: bytes, s: bytes)
    requires Blank(left) && (s == [] || !IsSpace(s[0]))
    ensures TrimStart(left + s) == s
  {
    if left == [] {
      assert left + s == s;
    } else {
      assert (left + s)[0] == left[0] && (left + s)[1..] == left[1..] + s;
      TrimStartOf(left[1..], s);
    }
  }

  lemma {:induction false} TrimEndOf(s: bytes, right: bytes)
    requires Blank(right) && (s == [] || !IsSpace(s[|s| - 1]))
    ensures TrimEnd(s + right) == s
    decreases |right|
  {
    if right == [] {
      assert s + right == s;
    } else {
      var n := |right| - 1;
      assert (s + right)[..|s| + n] == s + right[..n];
      TrimEndOf(s, right[..n]);
    }
  }

  lemma {:induction false} ValueOfZeros(zeros: nat, d: bytes)
    requires AllDigits(d) && d != []
    ensures AllDigits(Zeros(zeros) + d) && Value(Zeros(zeros) + d) == Value(d)
    decreases |d|
  {
    var s, n := Zeros(zeros) + d, |d| - 1;
    assert s[..|s| - 1] == Zeros(zeros) + d[..n];
    if n == 0 {
      assert d[..0] == [] && Zeros(zeros) + d[..0] == Zeros(zeros);
      ZerosAreNothing(zeros);
    } else {
      ValueOfZeros(zeros, d[..n]);
    }
  }

  lemma {:induction false} ZerosAreNothing(zeros: nat)
    ensures Value(Zeros(zeros)) == 0
  {
    if zeros > 0 {
      assert Zeros(zeros)[..zeros - 1] == Zeros(zeros - 1);
      ZerosAreNothing(zeros - 1);
    }
  }

  /** A size parses to `n` exactly if it is a number `n` that fits. */
  lemma ParsesExactly(text: bytes, n: nat)
    ensures ParseSize(text) == Some(n) <==> IsNumber(text, n) && n < USIZE
  {
    hide Value, Print;
    if ParseSize(text) == Some(n) {
      var plus := |text| > 0 && text[0] == 0x2B;
      var d := if plus then text[1..] else text;
      var zeros := DigitsArePrinted(d);
      assert text == if plus then [0x2B] + d else d;
    }
    if zeros: nat :| text == Zeros(zeros) + Print(n) || text == [0x2B] + (Zeros(zeros) + Print(n)) {
      var d := Zeros(zeros) + Print(n);
      ValueOfZeros(zeros, Print(n));
      ValueOfPrint(n);
      assert IsDigit(d[0]);
      if text != d {
        assert text[1..] == d;
      }
    }
  }

  lemma NumberEnds(text: bytes, n: nat)
    requires IsNumber(text, n)
    ensures text != [] && !IsSpace(text[0]) && !IsSpace(text[|text| - 1])
  {
    var zeros: nat :| text == Zeros(zeros) + Print(n) || text == [0x2B] + (Zeros(zeros) + Print(n));
    var d := Print(n);
    assert IsDigit(d[|d| - 1]) && IsDigit(d[0]);
    assert text[|text| - 1] == d[|d| - 1];
  }

  lemma NameLacksColon(name: bytes)
    requires SameIgnoringCase(name, Ascii("content-length"))
    ensures Lacks(name, 0x3A)
  {
    AsciiLacks("content-length", ':');
    forall i | 0 <= i < |name| ensures name[i] != 0x3A {
      assert Lower(name[i]) == Lower(Ascii("content-length")[i]);
    }
  }

  lemma {:induction false} IndexBehind(a: bytes, b: byte, rest: bytes)
    requires Lacks(a, b)
    ensures IndexOf(a + ([b] + rest), b) == |a|
  {
    if a == [] {
      assert a + ([b] + rest) == [b] + rest;
    } else {
      assert (a + ([b] + rest))[0] == a[0] && (a + ([b] + rest))[1..] == a[1..] + ([b] + rest);
      IndexBehind(a[1..], b, rest);
    }
  }

  /** A header line announces the length `n` if and only if it is of this form. */
  lemma LengthReadExactly(line: bytes, n: nat)
    ensures LineLength(line) == Some(n) <==>
      exists name, left, number, right :: Announces(line, name, left, number, right, n)
  {
    hide ParseSize, TrimStart, TrimEnd, IsNumber, Ascii, SameIgnoringCase, Blank, IsSpace, Zeros, Print;
    if LineLength(line) == Some(n) {
      var c := IndexOf(line, 0x3A);
      var value := line[c + 1..];
      var right := TrimEndIs(value);
      var left := TrimStartIs(TrimEnd(value));
      var number := TrimStart(TrimEnd(value));
      ParsesExactly(number, n);
      assert line == line[..c] + ([0x3A] + value);
      assert value == left + number + right;
      assert Announces(line, line[..c], left, number, right, n);
    }
    if name, left, number, right :| Announces(line, name, left, number, right, n) {
      NameLacksColon(name);
      var value := left + number + right;
      IndexBehind(name, 0x3A, value);
      assert line[..|name|] == name && line[|name| + 1..] == value;
      NumberEnds(number, n);
      TrimEndOf(left + number, right);
      TrimStartOf(left, number);
      ParsesExactly(number, n);
    }
  }

  // ---- collecting a response from chunks ----

  /** How many chunks it takes: up to the first that completes the response, or all. */
  function Needed(chunks: seq<bytes>): (n: nat)
    ensures n <= |chunks|
    ensures forall j :: 1 <= j < n ==> !ResponseComplete(Concat(chunks[..j]))
    ensures n < |chunks| ==> n > 0 && ResponseComplete(Concat(chunks[..n]))
  {
    NeededFrom(chunks, 0)
  }

  function NeededFrom(chunks: seq<bytes>, k: nat): (n: nat)
    requires k <= |chunks| && forall j :: 1 <= j <= k ==> !ResponseComplete(Concat(chunks[..j]))
    ensures k <= n <= |chunks|
    ensures forall j :: 1 <= j < n ==> !ResponseComplete(Concat(chunks[..j]))
    ensures n < |chunks| ==> n > 0 && ResponseComplete(Concat(chunks[..n]))
    decreases |chunks| - k
  {
    if k == |chunks| then k
    else if ResponseComplete(Concat(chunks[..k + 1])) then k + 1
    else NeededFrom(chunks, k + 1)
  }

  /** The writer's loop: take chunks until the response is complete or the channel closes. */
  method CollectResponse(chunks: seq<bytes>) returns (response: bytes)
    ensures response == Concat(chunks[..Needed(chunks)])
  {
    hide ResponseComplete, Concat;
    response := [];
    var i := 0;
    NothingCollected(chunks);
    while i < |chunks|
      invariant 0 <= i <= |chunks| && response == Concat(chunks[..i])
      invariant forall k :: 1 <= k <= i ==> !ResponseComplete(Concat(chunks[..k]))
      invariant Needed(chunks) == NeededFrom(chunks, i)
    {
      ConcatSnoc(chunks, i);
      response := response + chunks[i];
      i := i + 1;
      if ResponseComplete(response) {
        return;
      }
    }
  }

  lemma NothingCollected(chunks: seq<bytes>)
    ensures Concat(chunks[..0]) == []
  {
  }

  /** For every way of cutting the stream: what the loop takes ends at the first
      chunk boundary at or after the place where the test says yes. */
  lemma CollectedUpTo(chunks: seq<bytes>, stop: nat)
    requires StopsAt(Concat(chunks)) == Some(stop) && stop <= |Concat(chunks)|
    ensures var taken := Needed(chunks);
      && |Concat(chunks[..taken])| >= stop
      && Concat(chunks[..taken]) <= Concat(chunks)
      && forall k :: 0 <= k < taken ==> |Concat(chunks[..k])| < stop
  {
    hide ResponseComplete, StopsAt, Concat, Needed;
    var s, taken := Concat(chunks), Needed(chunks);
    ConcatPrefix(chunks, taken);
    forall k | 0 <= k <= |chunks|
      ensures |Concat(chunks[..k])| <= |s|
      ensures ResponseComplete(Concat(chunks[..k])) <==> |Concat(chunks[..k])| >= stop
    {
      ConcatPrefix(chunks, k);
      var part := Concat(chunks[..k]);
      assert part == s[..|part|];
      CompleteFrom(s, |part|, stop);
    }
    assert chunks[..|chunks|] == chunks;
    NothingCollected(chunks);
    StopIsPositive(s);
  }

  lemma StopIsPositive(s: bytes)
    requires StopsAt(s).Some?
    ensures StopsAt(s).value > 0
  {
  }

  /** The test says yes to no proper prefix of the stream. */
  predicate NeverEarly(s: bytes) {
    StopsAt(s).None? || StopsAt(s).value >= |s|
  }

  lemma NoHeaderNoPrefix(s: bytes, m: nat)
    requires StopsAt(s).None? && m <= |s|
    ensures !ResponseComplete(s[..m])
  {
    hide BlankAt, Lines, ContentLength;
    BlankTake(s, m);
  }

  /** What the loop takes is complete or all there is. */
  lemma GatheredWhenNeverEarly(chunks: seq<bytes>)
    requires NeverEarly(Concat(chunks))
    ensures Concat(chunks[..Needed(chunks)]) == Concat(chunks)
  {
    hide ResponseComplete, StopsAt, Concat, Needed;
    var s, taken := Concat(chunks), Needed(chunks);
    ConcatPrefix(chunks, taken);
    assert chunks[..|chunks|] == chunks;
    if taken < |chunks| {
      var m := |Concat(chunks[..taken])|;
      assert Concat(chunks[..taken]) == s[..m];
      if StopsAt(s).None? {
        NoHeaderNoPrefix(s, m);
      } else {
        CompleteFrom(s, m, StopsAt(s).value);
      }
    }
  }

  /** Cut behind the place where the test says yes, the loop leaves the rest. */
  lemma EarlyStop(s: bytes)
    requires !NeverEarly(s)
    ensures var stop := StopsAt(s).value; var chunks := [s[..stop], s[stop..]];
      Concat(chunks) == s && Needed(chunks) == 1 && Concat(chunks[..1]) == s[..stop]
  {
    hide ResponseComplete, StopsAt, Concat, Needed;
    var stop := StopsAt(s).value;
    var chunks := [s[..stop], s[stop..]];
    TwoChunks(s, stop);
    CompleteFrom(s, stop, stop);
    assert chunks[..1] == [s[..stop]];
    assert Needed(chunks) == 1;
  }

  /** The loop gathers all that the camera sent, however the stream is cut into chunks, if
      and only if the test says yes to no proper prefix of it: neither for a missing
      length, nor for one announced too short, nor for one whose sum wraps. */
  lemma GatheredExactly(s: bytes)
    ensures (forall chunks: seq<bytes> :: Concat(chunks) == s ==> Concat(chunks[..Needed(chunks)]) == s) <==>
      NeverEarly(s)
  {
    hide NeverEarly, Concat, Needed;
    if NeverEarly(s) {
      forall chunks: seq<bytes> | Concat(chunks) == s ensures Concat(chunks[..Needed(chunks)]) == s {
        GatheredWhenNeverEarly(chunks);
      }
    } else {
      EarlyStop(s);
      StopIsEarly(s);
      var chunks := [s[..StopsAt(s).value], s[StopsAt(s).value..]];
      assert Concat(chunks) == s && Concat(chunks[..Needed(chunks)]) != s;
    }
  }

  lemma StopIsEarly(s: bytes)
    requires !NeverEarly(s)
    ensures StopsAt(s).Some? && StopsAt(s).value < |s| && |s[..StopsAt(s).value]| < |s|
  {
  }

  /** The loop gathers at least what the header announces, however the stream is cut, if
      and only if the sum fits; what it has taken before that does not reach that end. */
  lemma CollectedIsWholeMessage(s: bytes, total: nat)
    requires MessageLength(s) == Some(total) && total <= |s|
    ensures (forall chunks: seq<bytes> :: Concat(chunks) == s ==> |Concat(chunks[..Needed(chunks)])| >= total) <==>
      SumFits(s)
    ensures forall chunks: seq<bytes>, k ::
      Concat(chunks) == s && 0 <= k < Needed(chunks) ==> |Concat(chunks[..k])| < total
  {
    hide ResponseComplete, MessageLength, HeaderEnd, Concat, Needed;
    HeaderFits(s);
    var stop := StopsAt(s).value;
    forall chunks: seq<bytes> | Concat(chunks) == s
      ensures |Concat(chunks[..Needed(chunks)])| >= stop
      ensures forall k :: 0 <= k < Needed(chunks) ==> |Concat(chunks[..k])| < stop
    {
      CollectedUpTo(chunks, stop);
    }
    if !SumFits(s) {
      EarlyStop(s);
    }
  }

  /** A response with a body and no readable length: cut behind its header it loses the
      body, in one chunk it does not. */
  lemma BodyWithoutLength(s: bytes, h: nat)
    requires HeaderEnd(s) == Some(h) && ContentLength(Lines(s[..h])).None? && |s| > h + 4
    ensures !NeverEarly(s)
    ensures var chunks := [s[..h + 4], s[h + 4..]];
      Concat(chunks) == s && Concat(chunks[..Needed(chunks)]) == s[..h + 4]
    ensures Concat([s]) == s && Concat([s][..Needed([s])]) == s
  {
    hide Concat, HeaderEnd, Lines, ContentLength, ResponseComplete;
    NoSumNoWrap(s, h);
    EarlyStop(s);
    var one := [s];
    OneChunk(s);
    CompleteFrom(s, |s|, h + 4);
    assert s[..|s|] == s && one[..1] == one;
    assert Needed(one) <= 1;
    NothingCollected(one);
  }

  lemma NoSumNoWrap(s: bytes, h: nat)
    requires HeaderEnd(s) == Some(h) && ContentLength(Lines(s[..h])).None?
    ensures StopsAt(s) == Some(h + 4)
  {
    hide Lines, ContentLength;
  }

  lemma OneChunk(s: bytes)
    ensures Concat([s]) == s
  {
    var one := [s];
    assert one[1..] == [] && Concat(one) == s + [];
  }

  lemma TwoChunks(s: bytes, n: nat)
    requires n <= |s|
    ensures Concat([s[..n], s[n..]]) == s && Concat([s[..n]]) == s[..n]
  {
    var two, one := [s[..n], s[n..]], [s[n..]];
    assert two[1..] == one && one[1..] == [];
    assert Concat(one) == s[n..] + [];
    assert Concat(two) == s[..n] + Concat(one);
    var first := [s[..n]];
    assert first[1..] == [] && Concat(first) == s[..n] + [];
  }

  /** When the stream is one message, its cutting does not matter at all. */
  lemma CollectedExactly(chunks: seq<bytes>)
    requires StopsAt(Concat(chunks)) == Some(|Concat(chunks)|)
    ensures Concat(chunks[..Needed(chunks)]) == Concat(chunks)
  {
    CollectedUpTo(chunks, |Concat(chunks)|);
  }
}
