/**
 * The integer behaviour of JavaScript's bitwise operators, as the tile server
 * uses them: operands are converted with ToInt32, shift counts are taken
 * modulo 32, and `>>` propagates the sign.
 */
module JsNumber {
  const TWO_30: int := 0x4000_0000
  const TWO_31: int := 0x8000_0000
  const TWO_32: int := 0x1_0000_0000

  predicate InInt32(v: int) {
    -TWO_31 <= v < TWO_31
  }

  function Pow2(k: nat): (r: nat)
    ensures r >= 1
  {
    if k == 0 then 1 else 2 * Pow2(k - 1)
  }

  lemma {:induction false} Pow2Add(a: nat, b: nat)
    ensures Pow2(a + b) == Pow2(a) * Pow2(b)
  {
    if a > 0 {
      Pow2Add(a - 1, b);
    }
  }

  lemma Pow2Values()
    ensures Pow2(3) == 8 && Pow2(8) == 256 && Pow2(31) == TWO_31
  {
    Pow2Add(8, 8);
    Pow2Add(16, 8);
    Pow2Add(24, 7);
  }

  /** ECMAScript ToInt32 of an integral number: wrap into 32-bit two's complement. */
  function ToInt32(v: int): (r: int)
    ensures InInt32(r)
    ensures (v - r) % TWO_32 == 0
    ensures InInt32(v) ==> r == v
  {
    var m := v % TWO_32;
    if m >= TWO_31 then m - TWO_32 else m
  }

  /** `v >> k`: arithmetic right shift of ToInt32(v) by `k & 31` places. */
  function ShiftRight(v: int, k: nat): (r: int)
    ensures InInt32(r)
    ensures InInt32(v) && k < 32 ==> r == v / Pow2(k)
  {
    var a := ToInt32(v);
    DivBounds(a, Pow2(k % 32));
    a / Pow2(k % 32)
  }

  /** `v >> 31` spreads the sign bit: 0 or -1. */
  lemma ShiftRightSign(v: int)
    ensures ShiftRight(v, 31) == if ToInt32(v) < 0 then -1 else 0
  {
    var a := ToInt32(v);
    Pow2Values();
    if a < 0 {
      DivModUnique(a, TWO_31, -1, a + TWO_31);
    } else {
      DivModUnique(a, TWO_31, 0, a);
    }
  }

  /** `v << 1`: ToInt32(v) doubled and wrapped back into 32 bits. */
  function ShiftLeftOne(v: int): (r: int)
    ensures InInt32(r)
    ensures -TWO_30 <= v < TWO_30 ==> r == 2 * v
  {
    ToInt32(2 * ToInt32(v))
  }

  /** Floor division by a positive divisor never moves away from zero. */
  lemma DivBounds(a: int, d: int)
    requires d >= 1
    ensures 0 <= a ==> 0 <= a / d <= a
    ensures a < 0 ==> a <= a / d < 0
  {
    var q, r := a / d, a % d;
    assert a == q * d + r && 0 <= r < d;
    MulFacts(q, d);
    MulFacts(q + 1, d);
    assert (q + 1) * d == q * d + d;
  }

  /** Sign and size of a product with a positive factor. */
  lemma MulFacts(a: int, d: int)
    requires d >= 1
    ensures a >= 0 ==> a * d >= a
    ensures a <= 0 ==> a * d <= a
    ensures a >= 1 ==> a * d >= d
    ensures a <= -1 ==> a * d <= -d
  {
    assert a * d == a * (d - 1) + a;
    assert a * d == (a - 1) * d + d;
    assert a * d == (a + 1) * d - d;
    if a >= 0 {
      MulSign(a, d - 1);
    } else {
      MulSign(-a, d - 1);
      assert (-a) * (d - 1) == -(a * (d - 1));
      MulSign(-a - 1, d);
      assert (-a - 1) * d == -((a + 1) * d);
    }
    if a >= 1 {
      MulSign(a - 1, d);
    }
  }

  lemma MulSign(a: int, b: int)
    requires a >= 0 && b >= 0
    ensures a * b >= 0
  {
  }

  /** Euclidean quotient and remainder are unique. */
  lemma DivModUnique(x: int, d: int, q: int, r: int)
    requires d > 0 && x == q * d + r && 0 <= r < d
    ensures x / d == q && x % d == r
  {
    var q0, r0 := x / d, x % d;
    assert (q - q0) * d == r0 - r;
    MulFacts(q - q0, d);
  }

  /**
   * One more binary digit: dividing by 2^(j+1) is halving the quotient by 2^j,
   * and the remainder gains bit j.
   */
  lemma DivModPow2Step(x: int, j: nat)
    ensures x / Pow2(j + 1) == (x / Pow2(j)) / 2
    ensures x % Pow2(j + 1) == x % Pow2(j) + ((x / Pow2(j)) % 2) * Pow2(j)
  {
    var p := Pow2(j);
    var a, r := x / p, x % p;
    var h, b := a / 2, a % 2;
    assert Pow2(j + 1) == 2 * p;
    assert x == a * p + r;
    assert a == 2 * h + b;
    HalveProduct(h, b, p);
    assert 0 <= b * p + r < 2 * p by {
      if b == 0 { assert b * p == 0; } else { assert b * p == p; }
    }
    DivModUnique(x, 2 * p, h, b * p + r);
  }

  lemma HalveProduct(h: int, b: int, p: int)
    ensures (2 * h + b) * p == h * (2 * p) + b * p
  {
  }

  /** Taking the lowest bit off first gives the same quotient. */
  lemma {:induction false} DivPow2Half(x: int, k: nat)
    requires k >= 1
    ensures x / Pow2(k) == (x / 2) / Pow2(k - 1)
  {
    if k > 1 {
      DivModPow2Step(x, k - 1);
      DivPow2Half(x, k - 1);
      DivModPow2Step(x / 2, k - 2);
    }
  }

  /** A remainder modulo 2^k (k >= 1) keeps the parity of the dividend. */
  lemma ModPow2Parity(v: int, k: nat)
    requires k >= 1
    ensures (v % Pow2(k)) % 2 == v % 2
  {
    var p := Pow2(k);
    var h := Pow2(k - 1);
    var q, m := v / p, v % p;
    assert v == 2 * (q * h) + m by {
      assert p == 2 * h;
      assert q * p == 2 * (q * h);
    }
    DivModUnique(v, 2, q * h + m / 2, m % 2);
  }

  // ---------------------------------------------------------------- numbers

  /** A JavaScript number as an exact real, or NaN (what parseFloat gives for a non-number). */
  datatype Num = Finite(v: real) | NaN

  /** `k * n`. */
  function Scale(k: real, n: Num): Num {
    if n.NaN? then NaN else Finite(k * n.v)
  }

  /** `n + k`. */
  function Plus(n: Num, k: real): Num {
    if n.NaN? then NaN else Finite(n.v + k)
  }

  /** `n / d` for a non-zero divisor. */
  function Divide(n: Num, d: real): Num
    requires d != 0.0
  {
    if n.NaN? then NaN else Finite(n.v / d)
  }

  /** `Math.floor(n)`. */
  function Floor(n: Num): (r: Num)
    ensures r.NaN? <==> n.NaN?
    ensures r.Finite? ==> r.v <= n.v < r.v + 1.0 && r.v == r.v.Floor as real
  {
    if n.NaN? then NaN else Finite(n.v.Floor as real)
  }

  /** `Math.round(n)`: the nearest integer, halves rounded up. */
  function Round(n: Num): (r: Num)
    ensures r.NaN? <==> n.NaN?
    ensures r.Finite? ==> n.v - 0.5 < r.v <= n.v + 0.5 && r.v == r.v.Floor as real
  {
    Floor(Plus(n, 0.5))
  }
}
