/** 64-bit C arithmetic of the kernel: two's-complement wrap-around (the kernel is built with
    -fno-strict-overflow), truncating division and arithmetic shift. */
module CInts {

  const TWO_TO_THE_63: int := 0x8000_0000_0000_0000
  const TWO_TO_THE_64: int := 0x1_0000_0000_0000_0000

  predicate FitsS64(x: int) {
    -TWO_TO_THE_63 <= x < TWO_TO_THE_63
  }

  /** The s64 with the same low 64 bits. */
  function ToS64(x: int): int {
    (x + TWO_TO_THE_63) % TWO_TO_THE_64 - TWO_TO_THE_63
  }

  lemma ToS64Facts(x: int)
    ensures FitsS64(ToS64(x))
    ensures FitsS64(x) <==> ToS64(x) == x
    ensures (ToS64(x) - x) % TWO_TO_THE_64 == 0
  {
  }

  /** Two integers that fit and agree modulo 2^64 are equal. */
  lemma ToS64Unique(x: int, y: int, k: int)
    requires FitsS64(y) && x == y + k * TWO_TO_THE_64
    ensures ToS64(x) == y
  {
  }

  /** div_s64: division toward zero. */
  function TruncDiv(a: int, b: int): int
    requires b > 0
  {
    if a >= 0 then a / b else -((-a) / b)
  }

  lemma DivBounds(m: int, b: int)
    requires m >= 0 && b > 0
    ensures m / b * b <= m < m / b * b + b && 0 <= m / b * b
  {
    assert m == m / b * b + m % b;
    MulMonotone(b, 0, m / b);
  }

  lemma TruncDivBounds(a: int, b: int)
    requires b > 0
    ensures a >= 0 ==> 0 <= TruncDiv(a, b) * b <= a < TruncDiv(a, b) * b + b
    ensures a <= 0 ==> TruncDiv(a, b) * b - b < a <= TruncDiv(a, b) * b <= 0
  {
    DivBounds(if a >= 0 then a else -a, b);
    if a < 0 {
      var q := (-a) / b;
      assert TruncDiv(a, b) * b == -(q * b);
    }
  }

  lemma MulMonotone(e: int, f: int, g: int)
    requires e >= 0 && f <= g
    ensures e * f <= e * g
  {
    assert e * (g - f) >= 0;
    assert e * (g - f) == e * g - e * f;
  }
}
