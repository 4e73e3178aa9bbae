/**
 * Fixed-width integer helpers shared by the target-side store and the host tools:
 * 32-bit unsigned words, C's wrap-around, the bitwise AND that the index mask and
 * IS_POWER_OF_2 use, and the power-of-two facts the index masking relies on.
 */
module Bits {

  /** A C `uint32_t`. */
  type u32 = x: int | 0 <= x < 0x1_0000_0000

  const U32Modulus: int := 0x1_0000_0000

  /** C's unsigned 32-bit wrap-around of an arithmetic result. */
  function Wrap32(x: int): (r: u32)
    ensures 0 <= x < U32Modulus ==> r == x
    ensures -U32Modulus <= x < 0 ==> r == x + U32Modulus
  {
    x % U32Modulus
  }

  /** 2 to the power k. */
  function Pow2(k: nat): (r: nat)
    ensures r >= 1
  {
    if k == 0 then 1 else 2 * Pow2(k - 1)
  }

  /** Bitwise AND of two non-negative integers, least significant bit first. */
  function BitAnd(a: nat, b: nat): (r: nat)
    ensures r <= a && r <= b
    decreases a
  {
    if a == 0 || b == 0 then 0
    else 2 * BitAnd(a / 2, b / 2) + (if a % 2 == 1 && b % 2 == 1 then 1 else 0)
  }

  /** `IS_POWER_OF_2(n)`: `(n & (n - 1)) == 0`, with `n - 1` taken in 32 bits. */
  predicate IsPowerOf2Macro(n: u32)
  {
    BitAnd(n, Wrap32(n - 1)) == 0
  }

  /** The exponent of the highest power of two not above n (0 for n <= 1). */
  function Log2(n: nat): nat
  {
    if n <= 1 then 0 else 1 + Log2(n / 2)
  }

  /** A buffer length the tracer accepts: a power of two, as the build-time check
      demands, and at least 2, which that check does not demand (it admits 0 and 1). */
  predicate ValidBufferLength(n: nat)
  {
    2 <= n < U32Modulus && IsPowerOf2Macro(n)
  }

  lemma {:induction false} MulAtLeast(d: nat, m: nat)
    requires m >= 1
    ensures d * m >= d
  {
    if m > 1 {
      MulAtLeast(d, m - 1);
      assert d * m == d * (m - 1) + d;
    }
  }

  lemma ModUnique(x: int, d: int, q: int, r: int)
    requires d > 0 && x == d * q + r && 0 <= r < d
    ensures x % d == r && x / d == q
  {
    var q', r' := x / d, x % d;
    assert d * q' + r' == d * q + r;
    if q' < q {
      MulAtLeast(d, q - q');
    } else if q < q' {
      MulAtLeast(d, q' - q);
    }
  }

  lemma {:induction false} ModOfHalf(x: nat, p: nat)
    requires p >= 1
    ensures x % (2 * p) == 2 * ((x / 2) % p) + x % 2
  {
    var q, b := x / 2, x % 2;
    var t, r := q / p, q % p;
    assert x == (2 * p) * t + (2 * r + b);
    ModUnique(x, 2 * p, t, 2 * r + b);
  }

  /** Masking with 2^k - 1 keeps the value modulo 2^k. */
  lemma {:induction false} MaskIsMod(x: nat, k: nat)
    ensures BitAnd(x, Pow2(k) - 1) == x % Pow2(k)
  {
    if k == 0 || x == 0 {
    } else {
      var p := Pow2(k - 1);
      assert (Pow2(k) - 1) / 2 == p - 1 && (Pow2(k) - 1) % 2 == 1;
      MaskIsMod(x / 2, k - 1);
      ModOfHalf(x, p);
    }
  }

  lemma {:induction false} BitAndSelf(m: nat)
    ensures BitAnd(m, m) == m
  {
    if m != 0 {
      BitAndSelf(m / 2);
    }
  }

  lemma {:induction false} Pow2Even(k: nat)
    requires k >= 1
    ensures Pow2(k) % 2 == 0
  {
  }

  lemma {:induction false} Pow2Monotone(j: nat, k: nat)
    requires j <= k
    ensures Pow2(j) <= Pow2(k)
    decreases k
  {
    if j < k {
      Pow2Monotone(j, k - 1);
    }
  }

  lemma {:induction false} Pow2Add(j: nat, m: nat)
    ensures Pow2(j + m) == Pow2(j) * Pow2(m)
    decreases m
  {
    if m > 0 {
      Pow2Add(j, m - 1);
    }
  }

  lemma Pow2Divides(j: nat, k: nat)
    requires j <= k
    ensures Pow2(k) % Pow2(j) == 0
  {
    Pow2Add(j, k - j);
    ModUnique(Pow2(k), Pow2(j), Pow2(k - j), 0);
  }

  lemma Pow2Of32()
    ensures Pow2(32) == U32Modulus && Pow2(31) == 0x8000_0000
  {
    assert Pow2(4) == 16;
    Pow2Add(4, 4);
    Pow2Add(8, 8);
    Pow2Add(16, 16);
  }

  lemma {:induction false} BitAndPowerOfTwo(n: nat)
    requires n >= 1
    ensures BitAnd(n, n - 1) == 0 <==> n == Pow2(Log2(n))
  {
    if n == 1 {
    } else if n % 2 == 0 {
      var m := n / 2;
      assert (n - 1) / 2 == m - 1 && (n - 1) % 2 == 1;
      assert BitAnd(n, n - 1) == 2 * BitAnd(m, m - 1);
      BitAndPowerOfTwo(m);
    } else {
      var m := n / 2;
      assert (n - 1) / 2 == m && (n - 1) % 2 == 0;
      BitAndSelf(m);
      assert BitAnd(n, n - 1) == 2 * m;
      Pow2Even(Log2(n));
    }
  }

  /** IS_POWER_OF_2 holds of a non-zero n exactly when n is a power of two. */
  lemma MacroIffPowerOfTwo(n: u32)
    requires n > 0
    ensures IsPowerOf2Macro(n) <==> n == Pow2(Log2(n))
  {
    BitAndPowerOfTwo(n);
  }

  /** IS_POWER_OF_2 holds of every power of two that fits in 32 bits. */
  lemma PowerOfTwoAccepted(k: nat)
    requires k < 32
    ensures Pow2(k) < U32Modulus && IsPowerOf2Macro(Pow2(k))
  {
    var n := Pow2(k);
    assert n < U32Modulus by {
      Pow2Monotone(k, 31);
      Pow2Of32();
    }
    assert BitAnd(n, n - 1) == 0 by {
      MaskIsMod(n, k);
      ModUnique(n, n, 1, 0);
    }
  }

  /** IS_POWER_OF_2 also holds of 0, so the build-time check alone admits an empty
      buffer; it rejects lengths with more than one bit set. */
  lemma MacroAdmitsZero()
    ensures IsPowerOf2Macro(0) && IsPowerOf2Macro(1)
    ensures !IsPowerOf2Macro(6) && !IsPowerOf2Macro(12)
  {
  }

  /** For an accepted length N, masking with N - 1 is reduction modulo N, and N
      divides 2^32 (so 32-bit wrap-around does not disturb the masked value). */
  lemma MaskIsModLength(n: nat, x: nat)
    requires ValidBufferLength(n)
    ensures BitAnd(x, n - 1) == x % n
    ensures U32Modulus % n == 0 && n <= 0x8000_0000
  {
    MacroIffPowerOfTwo(n);
    var k := Log2(n);
    assert n == Pow2(k);
    MaskIsMod(x, k);
    Pow2Of32();
    assert k < 32 by {
      if k >= 32 {
        Pow2Monotone(32, k);
      }
    }
    Pow2Divides(k, 32);
    Pow2Monotone(k, 31);
  }
}
