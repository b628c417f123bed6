/**
 Machine words of the relay engine: wrapping 32-bit counters, bytes, and the
 serial-number comparison used on PTCP byte offsets. The comparison follows
 section 3.2 of RFC 1982 with SERIAL_BITS = 32.
 */
module Words {
  type u32 = x: int | 0 <= x < 0x1_0000_0000
  type byte = x: int | 0 <= x < 0x100
  type bytes = seq<byte>

  /** One more than the largest `usize`, on a 64-bit machine. */
  const USIZE: nat := 0x1_0000_0000_0000_0000

  /** The low 32 bits of an unbounded integer. */
  function Low32(x: int): u32 {
    x % 0x1_0000_0000
  }

  /** `x as i32` for a 32-bit word. */
  function AsI32(x: u32): int {
    if x < 0x8000_0000 then x else x - 0x1_0000_0000
  }

  function WrapSub(a: u32, b: u32): u32 {
    Low32(a - b)
  }

  /** Is `value` strictly ahead of `reference` on the wrapping counter? */
  predicate SequenceAfter(value: u32, reference: u32) {
    AsI32(WrapSub(value, reference)) > 0
  }

  lemma WrapSubIsDistance(x: int, y: int)
    ensures WrapSub(Low32(x), Low32(y)) == Low32(x - y)
  {
    var p, q := x / 0x1_0000_0000, y / 0x1_0000_0000;
    assert Low32(x) - Low32(y) == (x - y) - 0x1_0000_0000 * (p - q);
  }

  /** Wrapping addition of a length commutes with taking the low word. */
  lemma LowAdd(x: int, n: int)
    ensures Low32(Low32(x) + n) == Low32(x + n)
  {
    assert Low32(x) + n == (x + n) - 0x1_0000_0000 * (x / 0x1_0000_0000);
  }

  /** The wrapped comparison decides the order of the unbounded offsets exactly
      when they are at most 2^31 apart (one-sided at the far end). */
  lemma SequenceAfterIsOrder(x: int, y: int)
    requires -0x8000_0000 <= x - y < 0x8000_0000
    ensures SequenceAfter(Low32(x), Low32(y)) <==> x > y
    ensures Low32(x) == Low32(y) <==> x == y
  {
    WrapSubIsDistance(x, y);
  }

  /** Outside that distance the comparison inverts: with no bound on how far
      the offsets are apart the order claim is false. */
  lemma SequenceAfterExactly(x: int, y: int)
    ensures SequenceAfter(Low32(x), Low32(y)) <==> 0 < (x - y) % 0x1_0000_0000 < 0x8000_0000
  {
    WrapSubIsDistance(x, y);
  }
}
