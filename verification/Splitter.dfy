/**
 Cutting a stream of JPEG files out of arbitrary chunks. SOI is FF D8 and EOI is
 FF D9 (Table B.1 of ITU-T T.81).
 */
module Splitter {
  import opened Words
  import opened Options
  import opened ByteStrings

  const SOI: byte := 0xD8
  const EOI: byte := 0xD9

  predicate MarkerAt(s: bytes, i: nat, m: byte) {
    i + 1 < |s| && s[i] == 0xFF && s[i + 1] == m
  }

  /** `i` is the first place from `from` on where marker `m` stands. */
  ghost predicate FirstMarker(s: bytes, m: byte, from: nat, i: nat) {
    from <= i && MarkerAt(s, i, m) && forall k :: from <= k < i ==> !MarkerAt(s, k, m)
  }

  ghost predicate NoMarker(s: bytes, m: byte, from: nat) {
    forall k: nat :: from <= k ==> !MarkerAt(s, k, m)
  }

  function Find(s: bytes, m: byte, from: nat): (r: Option<nat>)
    ensures r.Some? ==> FirstMarker(s, m, from, r.value)
    ensures r.None? ==> NoMarker(s, m, from)
    decreases |s| - from
  {
    if from + 1 >= |s| then None
    else if MarkerAt(s, from, m) then Some(from)
    else Find(s, m, from + 1)
  }

  lemma FindFirst(s: bytes, m: byte, from: nat, i: nat)
    requires FirstMarker(s, m, from, i)
    ensures Find(s, m, from) == Some(i)
  {
    var r := Find(s, m, from);
    assert r.Some?;
    assert r.value == i;
  }

  /** The files in a whole stream. */
  function Jpegs(s: bytes): seq<bytes>
    decreases |s|
  {
    match Find(s, SOI, 0)
    case None => []
    case Some(start) =>
      match Find(s, EOI, start + 2)
      case None => []
      case Some(end) => [s[start..end + 2]] + Jpegs(s[end + 2..])
  }

  /** What is left once the complete files are out. */
  function Leftover(s: bytes): bytes
    decreases |s|
  {
    match Find(s, SOI, 0)
    case None => s
    case Some(start) =>
      match Find(s, EOI, start + 2)
      case None => s
      case Some(end) => Leftover(s[end + 2..])
  }

  /** What of that is kept until the next chunk. */
  function Kept(s: bytes): bytes {
    match Find(s, SOI, 0)
    case None => if |s| > 2 then s[|s| - 2..] else s
    case Some(start) => s[start..]
  }

  lemma NoFile(s: bytes)
    requires NoFileFrom(s, 0)
    ensures Jpegs(s) == [] && Leftover(s) == s
  {
    if exists i: nat :: FirstMarker(s, SOI, 0, i) && NoMarker(s, EOI, i + 2) {
      var i: nat :| FirstMarker(s, SOI, 0, i) && NoMarker(s, EOI, i + 2);
      FindFirst(s, SOI, 0, i);
    }
  }

  lemma OneFile(s: bytes, start: nat, end: nat)
    requires FirstMarker(s, SOI, 0, start) && FirstMarker(s, EOI, start + 2, end)
    ensures Jpegs(s) == [s[start..end + 2]] + Jpegs(s[end + 2..]) && Leftover(s) == Leftover(s[end + 2..])
  {
    FindFirst(s, SOI, 0, start);
    FindFirst(s, EOI, start + 2, end);
  }

  // ---- the scan by positions ----

  datatype Span = Span(start: nat, end: nat)

  /** No complete file starts at or after `from`. */
  ghost predicate NoFileFrom(s: bytes, from: nat) {
    NoMarker(s, SOI, from) || exists i: nat :: FirstMarker(s, SOI, from, i) && NoMarker(s, EOI, i + 2)
  }

  /** From the end of each file on: the first SOI, then the first EOI at least two
      bytes later; and after the last file no further complete one. */
  ghost predicate IsScan(s: bytes, from: nat, spans: seq<Span>)
    decreases |spans|
  {
    if spans == [] then NoFileFrom(s, from)
    else
      && FirstMarker(s, SOI, from, spans[0].start)
      && spans[0].end >= 2 && FirstMarker(s, EOI, spans[0].start + 2, spans[0].end - 2)
      && IsScan(s, spans[0].end, spans[1..])
  }

  ghost predicate Cuts(s: bytes, spans: seq<Span>, files: seq<bytes>) {
    && |files| == |spans|
    && forall k :: 0 <= k < |spans| ==>
         spans[k].start <= spans[k].end <= |s| && files[k] == s[spans[k].start..spans[k].end]
  }

  lemma MarkerShift(s: bytes, n: nat, m: byte)
    requires n <= |s|
    ensures forall k: nat :: MarkerAt(s[n..], k, m) == MarkerAt(s, n + k, m)
  {
  }

  lemma FirstShift(s: bytes, n: nat, m: byte, from: nat, i: nat)
    requires n <= |s| && FirstMarker(s[n..], m, from, i)
    ensures FirstMarker(s, m, n + from, n + i)
  {
    MarkerShift(s, n, m);
    forall k | n + from <= k < n + i ensures !MarkerAt(s, k, m) {
      assert !MarkerAt(s[n..], k - n, m);
    }
  }

  lemma NoneShift(s: bytes, n: nat, m: byte, from: nat)
    requires n <= |s| && NoMarker(s[n..], m, from)
    ensures NoMarker(s, m, n + from)
  {
    MarkerShift(s, n, m);
    forall k: nat | n + from <= k ensures !MarkerAt(s, k, m) {
      assert !MarkerAt(s[n..], k - n, m);
    }
  }

  lemma MarkerEnd(s: bytes, i: nat, m: byte)
    requires MarkerAt(s, i, m)
    ensures i + 2 <= |s|
  {
  }

  lemma SliceShift(s: bytes, n: nat, i: nat, j: nat)
    requires i <= j && n + j <= |s|
    ensures s[n..][i..j] == s[n + i..n + j] && s[n..][j..] == s[n + j..]
  {
  }

  /** The files are exactly those of the scan by positions. */
  lemma {:induction false} JpegsAreScan(s: bytes, from: nat) returns (spans: seq<Span>)
    requires from <= |s|
    ensures IsScan(s, from, spans) && Cuts(s, spans, Jpegs(s[from..]))
    decreases |s| - from
  {
    hide Jpegs, Leftover, Find, MarkerAt;
    var rest := s[from..];
    spans := [];
    match Find(rest, SOI, 0)
    case None =>
      NoFile(rest);
      NoneShift(s, from, SOI, 0);
    case Some(start) =>
      FirstShift(s, from, SOI, 0, start);
      match Find(rest, EOI, start + 2) {
        case None =>
          NoFile(rest);
          NoneShift(s, from, EOI, start + 2);
          assert FirstMarker(s, SOI, from, from + start) && NoMarker(s, EOI, (from + start) + 2);
        case Some(end) =>
          FirstShift(s, from, EOI, start + 2, end);
          OneFile(rest, start, end);
          MarkerEnd(rest, end, EOI);
          SliceShift(s, from, start, end + 2);
          var later := JpegsAreScan(s, from + (end + 2));
          spans := [Span(from + start, from + (end + 2))] + later;
          CutsOneMore(s, from + start, from + (end + 2), later, Jpegs(s[from + (end + 2)..]));
          assert spans[1..] == later;
      }
  }

  lemma CutsOneMore(s: bytes, start: nat, end: nat, spans: seq<Span>, files: seq<bytes>)
    requires start <= end <= |s| && Cuts(s, spans, files)
    ensures Cuts(s, [Span(start, end)] + spans, [s[start..end]] + files)
  {
  }

  // ---- chunks ----

  lemma MarkerAppend(a: bytes, b: bytes, m: byte)
    ensures forall k: nat :: k + 1 < |a| ==> MarkerAt(a + b, k, m) == MarkerAt(a, k, m)
  {
  }

  lemma FirstAppend(a: bytes, b: bytes, m: byte, from: nat, i: nat)
    requires FirstMarker(a, m, from, i)
    ensures FirstMarker(a + b, m, from, i)
  {
    MarkerAppend(a, b, m);
  }

  /** Bytes before the first SOI do not matter. */
  lemma DropBeforeSoi(s: bytes, n: nat)
    requires n <= |s| && forall k: nat :: k < n ==> !MarkerAt(s, k, SOI)
    ensures Jpegs(s) == Jpegs(s[n..])
  {
    hide MarkerAt, Jpegs, Leftover, Find;
    var t := s[n..];
    match Find(t, SOI, 0)
    case None =>
      NoneShift(s, n, SOI, 0);
      NoFile(t);
      NoFile(s);
    case Some(start) =>
      FirstShift(s, n, SOI, 0, start);
      match Find(t, EOI, start + 2) {
        case None =>
          NoneShift(s, n, EOI, start + 2);
          assert FirstMarker(s, SOI, 0, n + start) && NoMarker(s, EOI, (n + start) + 2);
          NoFile(t);
          NoFile(s);
        case Some(end) =>
          FirstShift(s, n, EOI, start + 2, end);
          OneFile(t, start, end);
          OneFile(s, n + start, n + end);
          MarkerEnd(t, end, EOI);
          SliceShift(s, n, start, end + 2);
      }
  }

  lemma SliceAppend(a: bytes, b: bytes, i: nat, j: nat)
    requires i <= j <= |a|
    ensures (a + b)[i..j] == a[i..j] && (a + b)[j..] == a[j..] + b
  {
  }

  lemma NoFileSplit(a: bytes, b: bytes)
    requires NoFileFrom(a, 0)
    ensures Jpegs(a + b) == Jpegs(Kept(a) + b)
  {
    hide Jpegs, Leftover, Find;
    MarkerAppend(a, b, SOI);
    match Find(a, SOI, 0)
    case None =>
      if |a| > 2 {
        DropBeforeSoi(a + b, |a| - 2);
        SliceAppend(a, b, 0, |a| - 2);
      }
    case Some(start) =>
      DropBeforeSoi(a + b, start);
      SliceAppend(a, b, 0, start);
  }

  /** The heart of it: cutting a stream in two and keeping only `Kept` in between
      loses no file and invents none. */
  lemma {:induction false} SplitAnywhere(a: bytes, b: bytes)
    ensures Jpegs(a + b) == Jpegs(a) + Jpegs(Kept(Leftover(a)) + b)
    decreases |a|
  {
    hide MarkerAt, Jpegs, Leftover, Find, Kept;
    match Find(a, SOI, 0)
    case None =>
      NoFile(a);
      NoFileSplit(a, b);
    case Some(start) =>
      match Find(a, EOI, start + 2) {
        case None =>
          NoFile(a);
          NoFileSplit(a, b);
        case Some(end) =>
          FirstAppend(a, b, SOI, 0, start);
          FirstAppend(a, b, EOI, start + 2, end);
          OneFile(a, start, end);
          OneFile(a + b, start, end);
          MarkerEnd(a, end, EOI);
          SliceAppend(a, b, start, end + 2);
          SplitAnywhere(a[end + 2..], b);
      }
  }

  /** The output for a sequence of chunks, starting with some bytes kept. */
  function FromChunks(kept: bytes, chunks: seq<bytes>): seq<bytes>
    decreases |chunks|
  {
    if chunks == [] then []
    else Jpegs(kept + chunks[0]) + FromChunks(Kept(Leftover(kept + chunks[0])), chunks[1..])
  }

  lemma {:induction false} FromChunksIsWhole(kept: bytes, chunks: seq<bytes>)
    requires Jpegs(kept) == []
    ensures FromChunks(kept, chunks) == Jpegs(kept + Concat(chunks))
    decreases |chunks|
  {
    hide Jpegs, Leftover, Kept;
    if chunks == [] {
      assert kept + Concat(chunks) == kept;
    } else {
      var a := kept + chunks[0];
      KeptHoldsNoFile(a);
      FromChunksIsWhole(Kept(Leftover(a)), chunks[1..]);
      SplitAnywhere(a, Concat(chunks[1..]));
      assert kept + Concat(chunks) == a + Concat(chunks[1..]);
    }
  }

  lemma {:induction false} KeptHoldsNoFile(s: bytes)
    ensures Jpegs(Kept(Leftover(s))) == []
    decreases |s|
  {
    hide Jpegs, Leftover, Kept, Find, MarkerAt;
    match Find(s, SOI, 0)
    case None =>
      NoFile(s);
      KeptOfNoFile(s);
    case Some(start) =>
      match Find(s, EOI, start + 2) {
        case None =>
          NoFile(s);
          KeptOfNoFile(s);
        case Some(end) =>
          OneFile(s, start, end);
          MarkerEnd(s, end, EOI);
          KeptHoldsNoFile(s[end + 2..]);
      }
  }

  lemma KeptOfNoFile(s: bytes)
    requires NoFileFrom(s, 0)
    ensures Jpegs(Kept(s)) == []
  {
    hide Jpegs, Kept;
    NoFile(s);
    NoFileSplit(s, []);
    assert s + [] == s && Kept(s) + [] == Kept(s);
  }

  /** However the stream is cut into chunks, the files found are those of the
      whole stream, and those are what the scan by positions cuts out. */
  lemma ChunkIndependence(chunks: seq<bytes>) returns (spans: seq<Span>)
    ensures FromChunks([], chunks) == Jpegs(Concat(chunks))
    ensures IsScan(Concat(chunks), 0, spans) && Cuts(Concat(chunks), spans, FromChunks([], chunks))
  {
    hide Jpegs;
    var s := Concat(chunks);
    assert NoMarker([], SOI, 0);
    NoFile([]);
    FromChunksIsWhole([], chunks);
    assert [] + s == s && s[0..] == s;
    spans := JpegsAreScan(s, 0);
  }

  /** Every file found begins with FF D8 and ends with FF D9, two bytes or more later, and
      has no FF D9 behind its first two bytes but the last. */
  lemma {:induction false} FilesAreImages(s: bytes, k: nat)
    requires k < |Jpegs(s)|
    ensures var f := Jpegs(s)[k];
      && |f| >= 4 && f[0] == 0xFF && f[1] == 0xD8 && f[|f| - 2] == 0xFF && f[|f| - 1] == 0xD9
      && forall i :: 2 <= i < |f| - 2 ==> !(f[i] == 0xFF && f[i + 1] == 0xD9)
    decreases |s|
  {
    hide Jpegs, Find;
    match Find(s, SOI, 0)
    case None =>
      NoFile(s);
    case Some(start) =>
      match Find(s, EOI, start + 2) {
        case None =>
          NoFile(s);
        case Some(end) =>
          OneFile(s, start, end);
          MarkerEnd(s, end, EOI);
          if k > 0 {
            FilesAreImages(s[end + 2..], k - 1);
          } else {
            var f := s[start..end + 2];
            forall i | 2 <= i < |f| - 2 ensures !(f[i] == 0xFF && f[i + 1] == 0xD9) {
              assert !MarkerAt(s, start + i, EOI);
            }
          }
      }
  }

  predicate StartsImage(s: bytes, i: nat) {
    i + 1 < |s| && s[i] == 0xFF && s[i + 1] == 0xD8
  }

  ghost predicate NoImageBefore(s: bytes, i: nat) {
    forall k: nat :: k < i ==> !StartsImage(s, k)
  }

  /** What is kept of a stretch without a complete file: all from its first FF D8 on, or its
      last two bytes if it has none. */
  lemma KeptExactly(s: bytes, i: nat)
    ensures StartsImage(s, i) && NoImageBefore(s, i) ==> Kept(s) == s[i..]
    ensures NoImageBefore(s, |s|) ==> Kept(s) == if |s| > 2 then s[|s| - 2..] else s
  {
    hide Find;
    if StartsImage(s, i) && NoImageBefore(s, i) {
      forall k: nat | k < i ensures !MarkerAt(s, k, SOI) {
        assert !StartsImage(s, k);
      }
      FindFirst(s, SOI, 0, i);
    }
    if Find(s, SOI, 0).Some? {
      var j := Find(s, SOI, 0).value;
      assert MarkerAt(s, j, SOI);
      assert StartsImage(s, j);
    }
  }
}
