/** Fixed-width machine integers, as the drivers' C++ code computes with them. */
module Words {

  const U32: int := 0x1_0000_0000
  const I64: int := 0x8000_0000_0000_0000
  const U64: int := 0x1_0000_0000_0000_0000

  type Uint32 = x: nat | x < U32
  type Uint64 = x: nat | x < U64
  type Int16 = x: int | -32768 <= x <= 32767

  /** Conversion of a mathematical integer to 'uint64_t'. Sums, differences and
      products are taken first and wrapped once, which is the same ring. */
  function Wrap(x: int): Uint64 {
    x % U64
  }

  /** 'static_cast<int64_t>' of a 'uint64_t'. */
  function Signed(x: Uint64): int {
    if x < I64 then x else x - U64
  }

  /** 'static_cast<int16_t>' of a 16-bit field. */
  function Signed16(x: nat): Int16
    requires x < 0x1_0000
  {
    if x < 0x8000 then x else x - 0x1_0000
  }

  /** Unsigned division. C++ leaves division by zero undefined; 'byZero' stands for
      the quotient that the CPU delivers then (ARMv8 delivers 0). */
  function Div(a: Uint64, b: Uint64, byZero: Uint64): Uint64 {
    if b == 0 then byZero else DivLeq(a, b); a / b
  }

  lemma DivLeq(a: nat, b: nat)
    requires b > 0
    ensures 0 <= a / b <= a
  {
    DivAntitone(a, 1, b);
  }

  lemma MulMono(c: nat, x: int, y: int)
    requires x <= y
    ensures c * x <= c * y
  {
  }

  /** x / d is the only q with q*d <= x < (q+1)*d. */
  lemma DivUnique(x: int, d: int, q: int)
    requires d > 0 && q * d <= x < q * d + d
    ensures x / d == q
    ensures x % d == x - q * d
  {
    var p := x / d;
    assert x == p * d + x % d;
    if p < q {
      MulMono(d, p + 1, q);
    } else if p > q {
      MulMono(d, q + 1, p);
    }
  }

  lemma DivSandwich(x: int, d: int)
    requires d > 0
    ensures x / d * d <= x < x / d * d + d
  {
  }

  /** n <= x / d exactly when n*d <= x. */
  lemma DivGalois(n: int, x: int, d: int)
    requires d > 0
    ensures n <= x / d <==> n * d <= x
  {
    DivSandwich(x, d);
    if n <= x / d {
      MulMono(d, n, x / d);
    } else {
      MulMono(d, x / d + 1, n);
    }
  }

  lemma DivMono(x: int, y: int, d: int)
    requires d > 0 && x <= y
    ensures x / d <= y / d
  {
    DivSandwich(x, d);
    DivGalois(x / d, y, d);
  }

  /** A bigger divisor gives a smaller quotient. */
  lemma DivAntitone(x: nat, d: nat, e: nat)
    requires 0 < d <= e
    ensures x / e <= x / d
  {
    DivSandwich(x, e);
    assert x / e >= 0;
    MulMono(x / e, d, e);
    DivGalois(x / e, x, d);
  }

  /** Nested floor division is floor division by the product. */
  lemma DivDiv(x: nat, d: nat, e: nat)
    requires d > 0 && e > 0
    ensures d * e > 0
    ensures x / d / e == x / (d * e)
  {
    MulMono(e, 1, d);
    var q := x / d / e;
    DivSandwich(x, d);
    DivSandwich(x / d, e);
    MulMono(d, q * e, x / d);
    MulMono(d, x / d + 1, q * e + e);
    assert d * (q * e) == q * (d * e);
    assert d * (q * e + e) == q * (d * e) + d * e;
    DivUnique(x, d * e, q);
  }

  lemma ModOfMod(x: int, d: nat, e: nat, w: nat)
    requires d > 0 && w > 0 && w == d * e
    ensures x % w % d == x % d
  {
    var q, r := x / w, x / d;
    var y := x - q * w;
    assert y == x % w;
    DivSandwich(x, d);
    assert q * w == (q * e) * d;
    assert (r - q * e) * d == r * d - (q * e) * d;
    DivUnique(y, d, r - q * e);
  }
}
