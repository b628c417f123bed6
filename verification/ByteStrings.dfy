/** Byte strings: ASCII text, line ends, comparison without case, and joining chunks. */
module ByteStrings {
  import opened Words

  /** The bytes of ASCII text. */
  function Ascii(text: string): (r: bytes)
    ensures |r| == |text|
  {
    seq(|text|, i requires 0 <= i < |text| => text[i] as int % 0x100)
  }

  const LF: byte := 0x0A
  const CR: byte := 0x0D

  const CRLF: bytes := [0x0D, 0x0A]
  const BLANK_LINE: bytes := [0x0D, 0x0A, 0x0D, 0x0A]

  predicate Lacks(s: bytes, b: byte) {
    forall i :: 0 <= i < |s| ==> s[i] != b
  }

  function Lower(b: byte): byte {
    if 0x41 <= b <= 0x5A then b + 0x20 else b
  }

  predicate SameIgnoringCase(a: bytes, b: bytes) {
    |a| == |b| && forall i :: 0 <= i < |a| ==> Lower(a[i]) == Lower(b[i])
  }

  lemma AsciiLacks(text: string, c: char)
    requires c < '\U{80}' && forall i :: 0 <= i < |text| ==> text[i] != c && text[i] < '\U{80}'
    ensures Lacks(Ascii(text), c as int)
  {
  }

  lemma LacksJoin(a: bytes, b: bytes, x: byte)
    requires Lacks(a, x) && Lacks(b, x)
    ensures Lacks(a + b, x)
  {
  }

  function Concat(chunks: seq<bytes>): bytes {
    if chunks == [] then [] else chunks[0] + Concat(chunks[1..])
  }

  lemma {:induction false} ConcatLacks(chunks: seq<bytes>, b: byte)
    requires forall i :: 0 <= i < |chunks| ==> Lacks(chunks[i], b)
    ensures Lacks(Concat(chunks), b)
    decreases |chunks|
  {
    hide Lacks;
    if chunks == [] {
      NothingLacks(b);
    } else {
      ConcatLacks(chunks[1..], b);
      LacksJoin(chunks[0], Concat(chunks[1..]), b);
    }
  }

  lemma NothingLacks(b: byte)
    ensures Lacks([], b)
  {
  }

  lemma {:induction false} ConcatSize(chunks: seq<bytes>, bound: nat)
    requires forall i :: 0 <= i < |chunks| ==> |chunks[i]| <= bound
    ensures |Concat(chunks)| <= |chunks| * bound
    decreases |chunks|
  {
    if chunks != [] {
      ConcatSize(chunks[1..], bound);
      assert |chunks| * bound == (|chunks| - 1) * bound + bound;
    }
  }

  lemma {:induction false} ConcatJoins(a: seq<bytes>, b: seq<bytes>)
    ensures Concat(a + b) == Concat(a) + Concat(b)
  {
    if a == [] {
      assert a + b == b;
    } else {
      ConcatJoins(a[1..], b);
      assert (a + b)[1..] == a[1..] + b;
      assert a[0] + (Concat(a[1..]) + Concat(b)) == a[0] + Concat(a[1..]) + Concat(b);
    }
  }

  lemma ConcatSnoc(chunks: seq<bytes>, i: nat)
    requires i < |chunks|
    ensures Concat(chunks[..i + 1]) == Concat(chunks[..i]) + chunks[i]
  {
    var last := [chunks[i]];
    assert chunks[..i + 1] == chunks[..i] + last;
    ConcatJoins(chunks[..i], last);
    assert last[1..] == [] && Concat(last) == chunks[i] + [];
  }

  lemma ConcatPrefix(chunks: seq<bytes>, i: nat)
    requires i <= |chunks|
    ensures Concat(chunks[..i]) <= Concat(chunks)
  {
    ConcatJoins(chunks[..i], chunks[i..]);
    assert chunks == chunks[..i] + chunks[i..];
  }
}
