/**
 * The helper macros of JMEMath.h: minimum, maximum, single-bit mask,
 * absolute value and the loop-based modulo.
 */
module JMEMath {

  /** `JMEMin(a, b)`: `(a) < (b) ? (a) : (b)`. */
  function Min(a: int, b: int): (r: int)
    ensures r <= a && r <= b
    ensures r == a || r == b
  {
    if a < b then a else b
  }

  /** `JMEMax(a, b)`: `(a) > (b) ? (a) : (b)`. */
  function Max(a: int, b: int): (r: int)
    ensures r >= a && r >= b
    ensures r == a || r == b
  {
    if a > b then a else b
  }

  /** `JMEBit(n)`: `1 << n`, that is 2 to the power n. */
  function Bit(n: nat): (r: nat)
    ensures r >= 1
    ensures n >= 1 ==> r % 2 == 0
  {
    if n == 0 then 1 else 2 * Bit(n - 1)
  }

  /** For the bit numbers the driver uses (0..7), `JMEBit(n)` is the byte mask with only bit `n` set. */
  lemma BitIsByteMask(n: nat)
    requires n <= 7
    ensures Bit(n) < 0x100
    ensures (Bit(n) as bv8) == (1 as bv8) << n
  {
    BitValues();
    if n == 0 {
    } else if n == 1 {
    } else if n == 2 {
    } else if n == 3 {
    } else if n == 4 {
    } else if n == 5 {
    } else if n == 6 {
    } else {
      assert (128 as bv8) == (1 as bv8) << 7;
    }
  }

  /** The byte masks `JMEBit(0)` to `JMEBit(7)`. */
  lemma BitValues()
    ensures Bit(0) == 1 && Bit(1) == 2 && Bit(2) == 4 && Bit(3) == 8
    ensures Bit(4) == 16 && Bit(5) == 32 && Bit(6) == 64 && Bit(7) == 128
  {
  }

  /** Bit `n` of the byte `b`, read arithmetically. */
  predicate BitSet(b: int, n: nat)
  {
    (b / Bit(n)) % 2 == 1
  }

  /** `(b & JMEBit(n)) != 0`, the driver's bit test, on the byte as a bit-vector. */
  predicate MaskHit(b: int, n: nat)
    requires 0 <= b < 0x100 && n <= 7
  {
    BitIsByteMask(n);
    (b as bv8) & (Bit(n) as bv8) != 0
  }

  /** The driver's `&` test reads exactly bit `n` of the byte. */
  lemma MaskHitIsBitSet(b: int, n: nat)
    requires 0 <= b < 0x100 && n <= 7
    ensures MaskHit(b, n) <==> BitSet(b, n)
  {
    BitIsByteMask(n);
    BitValues();
    if n == 0 {
    } else if n == 1 {
    } else if n == 2 {
    } else if n == 3 {
    } else if n == 4 {
    } else if n == 5 {
    } else if n == 6 {
    } else {
    }
  }

  /** `JMEABS(a)`: `(a) > 0 ? (a) : -(a)`. */
  function Abs(a: int): (r: int)
    ensures r >= 0
    ensures r == a || r == -a
    ensures r == 0 <==> a == 0
  {
    if a > 0 then a else -a
  }

  /**
   * `JMEMod(n, mod)`: adds `mod` while `n` is negative, then subtracts it
   * while `n >= mod`. The loops end only for a positive `mod`.
   */
  method Mod(n: int, mod: int) returns (r: int)
    requires mod > 0
    ensures 0 <= r < mod
    ensures r == n % mod
  {
    r := n;
    while r < 0
      invariant r % mod == n % mod
      decreases -r
    {
      ModShiftBy(r, mod, 1);
      r := r + mod;
    }
    while r >= mod
      invariant r >= 0
      invariant r % mod == n % mod
      decreases r
    {
      ModShiftBy(r, mod, -1);
      r := r - mod;
    }
    DivModUnique(r, mod, 0, r);
  }

  /** Euclidean division is unique: a quotient and remainder in range are the ones `/` and `%` give. */
  lemma DivModUnique(p: int, d: int, q: int, r: int)
    requires d > 0 && 0 <= r < d && p == q * d + r
    ensures p / d == q && p % d == r
  {
    var q0, r0 := p / d, p % d;
    assert (q - q0) * d == r0 - r;
    if q > q0 {
      MulAtLeast(q - q0, d);
    } else if q < q0 {
      MulAtLeast(q0 - q, d);
    }
  }

  /** Dividing a number below `n * d` by `d` gives a quotient below `n`. */
  lemma DivBelow(x: int, d: int, n: int)
    requires d > 0 && 0 <= x < n * d
    ensures 0 <= x / d < n && 0 <= x % d < d
    ensures x == x / d * d + x % d
  {
    var q, r := x / d, x % d;
    assert x == q * d + r;
  }

  lemma MulAtLeast(k: int, d: int)
    requires k >= 1 && d > 0
    ensures k * d >= d
  {
  }

  /** The product of two bytes fits in 16 bits. */
  lemma ByteProduct(a: int, b: int)
    requires 0 <= a < 0x100 && 0 <= b < 0x100
    ensures 0 <= a * b < 0x1_0000
  {
    MulMono(b, 0xFF, a);
    MulMono(a, 0xFF, 0xFF);
  }

  /** Multiplying by a non-negative factor keeps the order. */
  lemma MulMono(a: int, b: int, c: int)
    requires 0 <= a <= b && 0 <= c
    ensures a * c <= b * c
  {
    assert b * c - a * c == (b - a) * c;
  }

  /** One more row of `b` cells. */
  lemma MulSucc(a: int, b: int)
    ensures (a + 1) * b == a * b + b
  {
  }

  /** A quotient is at least `n` once the dividend reaches `n` times the divisor. */
  lemma DivAtLeast(x: int, d: int, n: int)
    requires d > 0 && 0 <= n && n * d <= x
    ensures n <= x / d
  {
    var q, r := x / d, x % d;
    assert x == q * d + r;
    if q < n {
      MulMono(q + 1, n, d);
    }
  }

  /** Adding a multiple of `m` leaves the remainder modulo `m` unchanged. */
  lemma ModShiftBy(x: int, m: int, k: int)
    requires m > 0
    ensures (x + k * m) % m == x % m
    ensures (x + k * m) / m == x / m + k
  {
    var q, r := x / m, x % m;
    assert x + k * m == (q + k) * m + r;
    DivModUnique(x + k * m, m, q + k, r);
  }
}
