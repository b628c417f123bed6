/** Decimal numbers as ASCII, printed and parsed as an unsigned 64-bit size. */
module Decimal {
  import opened Words
  import opened Options

  predicate IsDigit(b: byte) {
    0x30 <= b <= 0x39
  }

  predicate AllDigits(d: bytes) {
    forall i :: 0 <= i < |d| ==> IsDigit(d[i])
  }

  function Print(n: nat): (d: bytes)
    ensures |d| > 0 && AllDigits(d)
  {
    if n < 10 then [0x30 + n] else Print(n / 10) + [0x30 + n % 10]
  }

  function Value(d: bytes): nat
    requires AllDigits(d)
  {
    if d == [] then 0
    else
      var last: int := d[|d| - 1];
      10 * Value(d[..|d| - 1]) + (last - 0x30)
  }

  /** `str::parse::<usize>`: an optional plus sign, at least one digit, no overflow. */
  function ParseSize(text: bytes): Option<nat> {
    var d := if |text| > 0 && text[0] == 0x2B then text[1..] else text;
    if d == [] || !AllDigits(d) || Value(d) >= USIZE then None else Some(Value(d))
  }

  lemma {:induction false} PrintSize(n: nat)
    ensures |Print(n)| <= n + 1
  {
    if n >= 10 {
      PrintSize(n / 10);
    }
  }

  lemma {:induction false} ValueOfPrint(n: nat)
    ensures Value(Print(n)) == n
  {
    if n >= 10 {
      ValueOfPrint(n / 10);
      var d := Print(n);
      assert d[..|d| - 1] == Print(n / 10);
    } else {
      assert Print(n)[..0] == [];
    }
  }

  /** A printed size reads back. */
  lemma PrintParses(n: nat)
    requires n < USIZE
    ensures ParseSize(Print(n)) == Some(n)
  {
    ValueOfPrint(n);
    assert IsDigit(Print(n)[0]);
  }

  function Zeros(n: nat): bytes {
    seq(n, _ => 0x30)
  }

  /** Any digits are some zeros and the number they stand for. */
  lemma {:induction false} DigitsArePrinted(d: bytes) returns (zeros: nat)
    requires d != [] && AllDigits(d)
    ensures d == Zeros(zeros) + Print(Value(d))
    decreases |d|
  {
    var before, last := d[..|d| - 1], d[|d| - 1];
    assert d == before + [last];
    if before == [] {
      zeros := 0;
      assert Value(before) == 0;
      assert d == [] + Print(Value(d));
    } else {
      zeros := DigitsArePrinted(before);
      var n := Value(before);
      if n == 0 {
        zeros := zeros + 1;
        assert Print(0) == [0x30] && Value(d) == last - 0x30;
        assert Print(Value(d)) == [last];
        assert before == Zeros(zeros);
      } else {
        assert Value(d) == 10 * n + (last - 0x30);
        assert Print(Value(d)) == Print(n) + [last];
        assert Zeros(zeros) + (Print(n) + [last]) == Zeros(zeros) + Print(n) + [last];
      }
    }
  }
}
