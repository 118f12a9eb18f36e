/** Powers of two and the facts about Euclidean division that the packed
    control-block layout rests on. Bit fields are modelled arithmetically:
    a field of width w at offset o of a word x is (x / 2^o) % 2^w. */
module Bits {

  /** 2^n */
  function Pow2(n: nat): (r: nat)
    ensures r >= 1
  {
    if n == 0 then 1 else 2 * Pow2(n - 1)
  }

  /** Powers of two multiply by adding exponents. */
  lemma {:induction false} Pow2Add(a: nat, b: nat)
    ensures Pow2(a + b) == Pow2(a) * Pow2(b)
  {
    if a > 0 {
      Pow2Add(a - 1, b);
      assert Pow2(a + b) == 2 * Pow2(a - 1 + b);
    }
  }

  /** The powers of two the word layouts use, built up by squaring. */
  lemma Pow2Of8()
    ensures Pow2(8) == 0x100
  {
  }

  lemma Pow2Of16()
    ensures Pow2(16) == 0x1_0000
  {
    Pow2Of8();
    Pow2Add(8, 8);
  }

  lemma Pow2Of32()
    ensures Pow2(32) == 0x1_0000_0000
  {
    Pow2Of16();
    Pow2Add(16, 16);
  }

  lemma Pow2Of48()
    ensures Pow2(48) == 0x1_0000_0000_0000
  {
    Pow2Of16();
    Pow2Of32();
    Pow2Add(32, 16);
  }

  lemma Pow2Of64()
    ensures Pow2(64) == 0x1_0000_0000_0000_0000
  {
    Pow2Of32();
    Pow2Add(32, 32);
  }

  /** Powers of two grow with the exponent. */
  lemma {:induction false} Pow2Monotone(a: nat, b: nat)
    requires a <= b
    ensures Pow2(a) <= Pow2(b)
  {
    if a < b {
      Pow2Monotone(a, b - 1);
    }
  }

  /** A product with a positive factor at least one is at least the other factor. */
  lemma MulAtLeast(d: int, m: int)
    requires d >= 1 && m >= 0
    ensures d * m >= m
  {
    assert d * m == (d - 1) * m + m;
    assert (d - 1) * m >= 0;
  }

  /** Dividing a natural by a positive divisor gives a natural quotient and
      a remainder below the divisor. */
  lemma DivModBounds(x: int, d: int)
    requires 0 <= x && 0 < d
    ensures 0 <= x / d <= x
    ensures 0 <= x % d < d
  {
    if x / d > 0 {
      MulAtLeast(d, x / d);
    }
  }

  /** Quotient and remainder are unique: if x = q*m + r with 0 <= r < m,
      they are what Euclidean division computes. */
  lemma DivModUnique(x: int, m: int, q: int, r: int)
    requires 0 < m && 0 <= r < m && x == q * m + r
    ensures x / m == q && x % m == r
  {
    var q', r' := x / m, x % m;
    assert x == q' * m + r';
    assert (q - q') * m == r' - r;
    if q - q' >= 1 {
      MulAtLeast(q - q', m);
    } else if q' - q >= 1 {
      MulAtLeast(q' - q, m);
    }
  }

  /** Taking a remainder before subtracting does not change the remainder. */
  lemma ModSub(a: int, b: int, m: int)
    requires 0 < m
    ensures (a % m - b) % m == (a - b) % m
  {
    var q := a / m;
    assert a % m - b == (a - b) - q * m;
    DivModUnique((a - b) - q * m, m, (a - b) / m - q, (a - b) % m);
  }

  /** Taking a remainder before adding does not change the remainder. */
  lemma ModAdd(a: int, b: int, m: int)
    requires 0 < m
    ensures (a % m + b) % m == (a + b) % m
  {
    ModSub(a, -b, m);
  }

  /** A value below the modulus is its own remainder. */
  lemma ModSmall(a: int, m: int)
    requires 0 <= a < m
    ensures a % m == a
  {
    DivModUnique(a, m, 0, a);
  }

  /** Below a bound b < R, the product a * b leaves room for one more a under a * R. */
  lemma MulBelow(a: nat, b: nat, R: nat)
    requires b < R
    ensures a * b + a <= a * R
  {
    assert a * R == a * b + a * (R - b);
    MulAtLeast(R - b, a);
  }

  /** Three fields of widths 1, w and the rest, packed at offsets 0, 1 and
      w + 1 (with P = 2^w and Q = 2^(w+1)), read back unchanged and stay
      below the word bound Q * R. */
  lemma PackThree(m: nat, n: nat, r: nat, P: nat, Q: nat, R: nat)
    requires Q == 2 * P && m < 2 && n < P && r < R
    ensures var x := m + 2 * n + Q * r;
      && x % 2 == m
      && (x / 2) % P == n
      && x / Q == r
      && x < Q * R
  {
    var x := m + 2 * n + Q * r;
    var h := n + r * P;
    assert Q * r == 2 * (r * P);
    assert x == h * 2 + m;
    DivModUnique(x, 2, h, m);
    DivModUnique(h, P, r, n);
    assert x == r * Q + (m + 2 * n);
    DivModUnique(x, Q, r, m + 2 * n);
    MulBelow(Q, r, R);
  }

  /** Conversely every value below the word bound is such a packing of its
      three fields, the top one below its bound. */
  lemma UnpackThree(x: nat, P: nat, Q: nat, R: nat)
    requires 0 < P && Q == 2 * P && x < Q * R
    ensures var m, n, r := x % 2, (x / 2) % P, x / Q;
      && r < R
      && x == m + 2 * n + Q * r
  {
    var m, n, c := x % 2, (x / 2) % P, (x / 2) / P;
    assert x / 2 == c * P + n;
    assert x == c * Q + (m + 2 * n);
    DivModUnique(x, Q, c, m + 2 * n);
  }
}
