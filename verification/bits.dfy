/** Exact unsigned bit arithmetic on unbounded integers.

    The converter works on JavaScript BigInts with `<<`, `>>`, `&` and `~`.
    For a positive divisor, Dafny's `/` floors and `%` yields the non-negative
    residue, which is exactly what a BigInt right shift and a low-bit mask
    compute, also on negative values. The bit functions below are defined one
    bit at a time by halving; the lemmas at the end of the module show that
    they agree with the shift, mask and complement expressions themselves. */
module Bits {

  /** 2^n, the value of `1n << n`. */
  function Pow2(n: nat): (r: nat)
    ensures r >= 1
  {
    if n == 0 then 1 else 2 * Pow2(n - 1)
  }

  /** `x << n` on naturals, one doubling at a time. (The measure names x too,
      so the verifier evaluates a shift by a constant only when x is a
      constant as well.) */
  function Shl(x: nat, n: nat): nat
    decreases x + n
  {
    if n == 0 then x else 2 * Shl(x, n - 1)
  }

  /** `x >> n` on naturals, one halving at a time. */
  function Shr(x: nat, n: nat): nat
    decreases n
  {
    if n == 0 then x else Shr(x / 2, n - 1)
  }

  /** Bit i of x, `x >> i & 1n`. */
  function Bit(x: nat, i: nat): (r: nat)
    ensures r < 2
    decreases i
  {
    if i == 0 then x % 2 else Bit(x / 2, i - 1)
  }

  /** Bit i of the complement of x, `~x >> i & 1n`, where `~x` is -x - 1;
      shifting commutes with complementing. */
  function ComplementBit(x: nat, i: nat): int
    decreases i
  {
    if i == 0 then (-(x as int) - 1) % 2 else ComplementBit(x / 2, i - 1)
  }

  /** `x >> n << n`: x with its low n bits cleared. */
  function ClearLow(x: nat, n: nat): nat
    decreases n
  {
    if n == 0 then x else 2 * ClearLow(x / 2, n - 1)
  }

  /** The value of the low n bits of x. */
  function LowPart(x: nat, n: nat): nat
    decreases n
  {
    if n == 0 then 0 else x % 2 + 2 * LowPart(x / 2, n - 1)
  }

  /** The low i bits of x are all 0: x is a multiple of 2^i. */
  predicate LowZeros(x: nat, i: nat)
    decreases i
  {
    i == 0 || (x % 2 == 0 && LowZeros(x / 2, i - 1))
  }

  /** The low i bits of x are all 1. */
  predicate LowOnes(x: nat, i: nat)
    decreases i
  {
    i == 0 || (x % 2 == 1 && LowOnes(x / 2, i - 1))
  }

  lemma {:induction false} Pow2Add(m: nat, n: nat)
    ensures Pow2(m + n) == Pow2(m) * Pow2(n)
    decreases m
  {
    if m > 0 {
      Pow2Add(m - 1, n);
      assert Pow2(m + n) == 2 * Pow2(m - 1 + n);
      DoubleProduct(Pow2(m - 1), Pow2(n));
    }
  }

  lemma {:induction false} DoubleProduct(a: int, b: int)
    ensures 2 * (a * b) == (2 * a) * b == a * (2 * b)
  {
  }

  lemma {:induction false} Pow2Monotone(m: nat, n: nat)
    requires m <= n
    ensures Pow2(m) <= Pow2(n)
    decreases n
  {
    if m < n {
      Pow2Monotone(m, n - 1);
    }
  }

  /** Shifting by a then by b is shifting by a + b. */
  lemma {:induction false} ShlAdd(x: nat, a: nat, b: nat)
    ensures Shl(Shl(x, a), b) == Shl(x, a + b)
    decreases b
  {
    if b > 0 {
      ShlAdd(x, a, b - 1);
    }
  }

  /** Shifting distributes over addition. */
  lemma {:induction false} ShlDistrib(x: nat, y: nat, n: nat)
    ensures Shl(x + y, n) == Shl(x, n) + Shl(y, n)
    decreases n
  {
    if n > 0 {
      ShlDistrib(x, y, n - 1);
    }
  }

  /** Shifting is monotone; 1 shifted by n is 2^n and 0 stays 0. */
  lemma {:induction false} ShlMonotone(x: nat, y: nat, n: nat)
    requires x <= y
    ensures Shl(x, n) <= Shl(y, n)
    ensures Shl(1, n) == Pow2(n) && Shl(0, n) == 0
    decreases n
  {
    if n > 0 {
      ShlMonotone(x, y, n - 1);
    }
  }

  /** `x << n` is x * 2^n. */
  lemma {:induction false} ShlIsMul(x: nat, n: nat)
    ensures Shl(x, n) == x * Pow2(n)
    decreases n
  {
    if n > 0 {
      ShlIsMul(x, n - 1);
      DoubleProduct(x, Pow2(n - 1));
    }
  }

  /** Extending the run of known low bits by bit i. */
  lemma {:induction false} LowZerosStep(x: nat, i: nat)
    requires LowZeros(x, i)
    ensures LowZeros(x, i + 1) <==> Bit(x, i) == 0
    decreases i
  {
    if i > 0 {
      LowZerosStep(x / 2, i - 1);
    }
  }

  lemma {:induction false} LowOnesStep(x: nat, i: nat)
    requires LowOnes(x, i)
    ensures LowOnes(x, i + 1) <==> Bit(x, i) == 1
    decreases i
  {
    if i > 0 {
      LowOnesStep(x / 2, i - 1);
    }
  }

  /** Knowing i low bits tells the lowest j <= i of them. */
  lemma {:induction false} LowBitsFewer(x: nat, j: nat, i: nat)
    requires j <= i
    ensures LowZeros(x, i) ==> LowZeros(x, j)
    ensures LowOnes(x, i) ==> LowOnes(x, j)
    decreases j
  {
    if j > 0 {
      LowBitsFewer(x / 2, j - 1, i - 1);
    }
  }

  /** A value below 2^w with w low zero bits is 0; with w low one bits it is 2^w - 1. */
  lemma {:induction false} LowBitsFull(x: nat, w: nat)
    requires x < Pow2(w)
    ensures LowZeros(x, w) <==> x == 0
    ensures LowOnes(x, w) <==> x == Pow2(w) - 1
    decreases w
  {
    if w > 0 {
      LowBitsFull(x / 2, w - 1);
    }
  }

  /** 0 has no one bit, and 2^w - 1 no zero bit below w. */
  lemma {:induction false} LowBitsOfExtremes(w: nat, i: nat)
    requires i <= w
    ensures LowZeros(0, i)
    ensures LowOnes(Pow2(w) - 1, i)
    decreases i
  {
    if i > 0 {
      LowBitsOfExtremes(w - 1, i - 1);
      assert (Pow2(w) - 1) / 2 == Pow2(w - 1) - 1;
    }
  }

  /** Bit w of a value below 2^w is 0. */
  lemma {:induction false} HighBitZero(x: nat, w: nat)
    requires x < Pow2(w)
    ensures Bit(x, w) == 0
    decreases w
  {
    if w > 0 {
      HighBitZero(x / 2, w - 1);
    }
  }

  /** Adding 1 to a value whose low i bits are all 1 clears them. */
  lemma {:induction false} LowOnesSucc(x: nat, i: nat)
    requires LowOnes(x, i)
    ensures LowZeros(x + 1, i)
    decreases i
  {
    if i > 0 {
      LowOnesSucc(x / 2, i - 1);
      assert (x + 1) / 2 == x / 2 + 1;
    }
  }

  /** Two distinct multiples of 2^n are at least 2^n apart. */
  lemma {:induction false} AlignedGap(a: nat, b: nat, n: nat)
    requires LowZeros(a, n) && LowZeros(b, n) && a < b
    ensures a + Pow2(n) <= b
    decreases n
  {
    if n > 0 {
      AlignedGap(a / 2, b / 2, n - 1);
    }
  }

  /** Clearing the low i + 1 bits when bit i is 0 and the i bits below it are 1
      leaves x - 2^i + 1, which has i + 1 low zero bits. */
  lemma {:induction false} ClearLowBits(x: nat, i: nat)
    requires LowOnes(x, i) && Bit(x, i) == 0
    ensures x + 1 >= Pow2(i)
    ensures ClearLow(x, i + 1) == x - Pow2(i) + 1
    ensures LowZeros(x - Pow2(i) + 1, i + 1)
    decreases i
  {
    if i > 0 {
      var h := x / 2;
      ClearLowBits(h, i - 1);
      var b := h - Pow2(i - 1) + 1;
      assert x - Pow2(i) + 1 == 2 * b;
      assert (x - Pow2(i) + 1) / 2 == b;
      assert ClearLow(x, i + 1) == 2 * ClearLow(h, i);
    }
  }

  // The bit-at-a-time definitions against the source's shift, mask and complement expressions.

  /** Clearing the low n bits leaves each of them 0. */
  lemma {:induction false} ClearLowBit(x: nat, n: nat, i: nat)
    requires i < n
    ensures Bit(ClearLow(x, n), i) == 0
    decreases n
  {
    var c := ClearLow(x / 2, n - 1);
    assert ClearLow(x, n) == 2 * c;
    assert (2 * c) / 2 == c;
    if i > 0 {
      ClearLowBit(x / 2, n - 1, i - 1);
    }
  }

  /** Division and remainder are fixed by any decomposition n == d * q + r with 0 <= r < d. */
  lemma {:induction false} DivModUnique(n: int, d: int, q: int, r: int)
    requires d > 0 && 0 <= r < d && n == d * q + r
    ensures n / d == q && n % d == r
  {
    var q', r' := n / d, n % d;
    assert n == d * q' + r';
    assert d * (q - q') == r' - r;
    if q - q' >= 1 {
      MulAtLeast(d, q - q');
    } else if q' - q >= 1 {
      MulAtLeast(d, q' - q);
    }
  }

  /** A remainder between the modulus and twice it. */
  lemma {:induction false} ModOnce(n: int, d: int)
    requires 0 < d <= n < 2 * d
    ensures n % d == n - d
  {
    DivModUnique(n, d, 1, n - d);
  }

  lemma {:induction false} MulAtLeast(d: int, k: int)
    requires d > 0 && k >= 1
    ensures d * k >= d
  {
    assert d * k == d * (k - 1) + d;
  }

  /** Dividing by 2 and then by 2^i is dividing by 2^(i+1). */
  lemma {:induction false} DivPow2Succ(x: nat, i: nat)
    ensures x / Pow2(i + 1) == (x / 2) / Pow2(i)
    ensures x % Pow2(i + 1) == x % 2 + 2 * ((x / 2) % Pow2(i))
  {
    var p := Pow2(i);
    var q, r := x / 2, x % 2;
    var q2, b := q / p, q % p;
    assert x == 2 * q + r;
    assert q == p * q2 + b;
    assert x == (2 * p) * q2 + (2 * b + r);
    DivModUnique(x, 2 * p, q2, 2 * b + r);
  }

  /** Bit(x, i) is `x >> i & 1n`. */
  lemma {:induction false} BitIsShiftMask(x: nat, i: nat)
    ensures Bit(x, i) == (x / Pow2(i)) % 2
    decreases i
  {
    if i > 0 {
      BitIsShiftMask(x / 2, i - 1);
      DivPow2Succ(x, i - 1);
    }
  }

  /** The low part of x is x modulo 2^n, and clearing it leaves `x >> n << n`. */
  lemma {:induction false} LowPartIsMod(x: nat, n: nat)
    ensures LowPart(x, n) == x % Pow2(n)
    ensures ClearLow(x, n) == x - LowPart(x, n)
    decreases n
  {
    if n > 0 {
      LowPartIsMod(x / 2, n - 1);
      DivPow2Succ(x, n - 1);
    }
  }

  /** ClearLow(x, n) is `x >> n << n`. */
  lemma {:induction false} ClearLowIsShift(x: nat, n: nat)
    ensures ClearLow(x, n) == x / Pow2(n) * Pow2(n)
  {
    LowPartIsMod(x, n);
    DivModSplit(x, Pow2(n));
  }

  lemma {:induction false} DivModSplit(x: int, p: int)
    requires p >= 1
    ensures x - x % p == x / p * p
  {
  }

  lemma {:induction false} LowZerosIsLowPartZero(x: nat, n: nat)
    ensures LowZeros(x, n) <==> LowPart(x, n) == 0
    decreases n
  {
    if n > 0 {
      LowZerosIsLowPartZero(x / 2, n - 1);
    }
  }

  /** Low zero bits are divisibility by a power of two. */
  lemma {:induction false} LowZerosIsMultiple(x: nat, n: nat)
    ensures LowZeros(x, n) <==> x % Pow2(n) == 0
  {
    LowPartIsMod(x, n);
    LowZerosIsLowPartZero(x, n);
  }

  /** Complementing flips every bit of a non-negative value. */
  lemma {:induction false} ComplementBitFlips(x: nat, i: nat)
    ensures ComplementBit(x, i) == 1 - Bit(x, i)
    decreases i
  {
    if i > 0 {
      ComplementBitFlips(x / 2, i - 1);
    }
  }

  /** ComplementBit(x, i) is `~x >> i & 1n`. */
  lemma {:induction false} ComplementBitIsShiftMask(x: nat, i: nat)
    ensures ComplementBit(x, i) == ((-(x as int) - 1) / Pow2(i)) % 2
  {
    ComplementBitFlips(x, i);
    BitIsShiftMask(x, i);
    ComplementShift(x, Pow2(i));
  }

  /** `~x >> i` is `~(x >> i)`, and the complement of a value has the opposite parity. */
  lemma {:induction false} ComplementShift(x: nat, p: int)
    requires p >= 1
    ensures ((-(x as int) - 1) / p) % 2 == 1 - (x / p) % 2
  {
    var q, r := x / p, x % p;
    var n: int := -(x as int) - 1;
    assert x == p * q + r;
    assert n == p * (-q - 1) + (p - 1 - r);
    DivModUnique(n, p, -q - 1, p - 1 - r);
    var h, b := q / 2, q % 2;
    assert -q - 1 == 2 * (-h - 1) + (1 - b);
    DivModUnique(-q - 1, 2, -h - 1, 1 - b);
  }
}
