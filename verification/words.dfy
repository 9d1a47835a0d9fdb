/** Fixed-width digit lists in radix 2^bits: the octets of an IPv4 address
    (bits = 8) and the groups of an IPv6 address (bits = 16). */
module Words {
  import opened Bits

  /** The value of the digits ds in radix 2^bits, most significant first. */
  function Val(ds: seq<nat>, bits: nat): nat
  {
    if |ds| == 0 then 0 else Shl(Val(ds[..|ds| - 1], bits), bits) + ds[|ds| - 1]
  }

  /** The digit-splitting loop of bigInt2Ip: n times, prepend the low digit
      `v & (2^bits - 1)` and shift v right by bits. On a negative v the mask
      and the shift act on the two's-complement form, which is Dafny's
      non-negative remainder and floor division. */
  function Chunks(v: int, n: nat, bits: nat): (r: seq<nat>)
    ensures |r| == n
    ensures Fits(r, bits)
    decreases n
  {
    if n == 0 then [] else Chunks(v / Pow2(bits), n - 1, bits) + [v % Pow2(bits)]
  }

  /** Every digit of ds is below the radix. */
  predicate Fits(ds: seq<nat>, bits: nat)
  {
    forall k | 0 <= k < |ds| :: ds[k] < Pow2(bits)
  }

  /** k zero digits. */
  function Zeros(k: nat): (r: seq<nat>)
    ensures |r| == k
    ensures forall j | 0 <= j < k :: r[j] == 0
  {
    if k == 0 then [] else [0] + Zeros(k - 1)
  }

  lemma {:induction false} MulMonotone(a: int, b: int, c: int)
    requires a <= b && c >= 0
    ensures a * c <= b * c
  {
    assert b * c - a * c == (b - a) * c;
  }

  /** One more digit is one more shift by the digit width. */
  lemma {:induction false} ShlDigits(x: nat, bits: nat, n: nat)
    ensures Shl(x, bits * (n + 1)) == Shl(Shl(x, bits * n), bits)
    ensures Pow2(bits * (n + 1)) == Pow2(bits * n) * Pow2(bits)
  {
    assert bits * (n + 1) == bits * n + bits;
    ShlAdd(x, bits * n, bits);
    Pow2Add(bits * n, bits);
  }

  /** Splitting a remainder modulo r * m into the remainder modulo r and the next digit. */
  lemma {:induction false} ModMul(v: int, r: int, m: int)
    requires r > 0 && m > 0
    ensures v % (r * m) == r * ((v / r) % m) + v % r
  {
    var q, a := v / r, v % r;
    var q2, b := q / m, q % m;
    assert v == r * q + a;
    assert q == m * q2 + b;
    assert v == (r * m) * q2 + (r * b + a) by {
      assert r * q == r * (m * q2) + r * b;
      assert r * (m * q2) == (r * m) * q2;
    }
    MulMonotone(b, m - 1, r);
    assert r * (m - 1) == r * m - r;
    DivModUnique(v, r * m, q2, r * b + a);
  }

  /** Concatenating digit lists shifts the first by the width of the second. */
  lemma {:induction false} ValConcat(a: seq<nat>, b: seq<nat>, bits: nat)
    ensures Val(a + b, bits) == Shl(Val(a, bits), bits * |b|) + Val(b, bits)
    decreases |b|
  {
    if |b| == 0 {
      assert a + b == a;
    } else {
      var b', d := b[..|b| - 1], b[|b| - 1];
      assert (a + b)[..|a + b| - 1] == a + b';
      ValConcat(a, b', bits);
      ShlDigits(Val(a, bits), bits, |b'|);
      ShlDistrib(Shl(Val(a, bits), bits * |b'|), Val(b', bits), bits);
    }
  }

  /** A single digit's value is the digit. */
  lemma {:induction false} ValSingle(x: nat, bits: nat)
    ensures Val([x], bits) == x
  {
    assert [x][..0] == [];
    ShlMonotone(0, 0, bits);
  }

  /** Prepending a digit adds it at the top place, n = bits * |rest|. */
  lemma {:induction false} ValCons(x: nat, rest: seq<nat>, bits: nat, n: nat)
    requires n == bits * |rest|
    ensures Val([x] + rest, bits) == Shl(x, n) + Val(rest, bits)
  {
    ValConcat([x], rest, bits);
    ValSingle(x, bits);
  }

  /** Leading zero digits add nothing. */
  lemma {:induction false} ValZeros(k: nat, b: seq<nat>, bits: nat)
    ensures Val(Zeros(k) + b, bits) == Val(b, bits)
  {
    ValConcat(Zeros(k), b, bits);
    ValOfZeros(k, bits);
    ShlMonotone(0, 0, bits * |b|);
  }

  lemma {:induction false} ValOfZeros(k: nat, bits: nat)
    ensures Val(Zeros(k), bits) == 0
  {
    if k > 0 {
      assert Zeros(k)[..k - 1] == Zeros(k - 1);
      ValOfZeros(k - 1, bits);
      ShlMonotone(0, 0, bits);
    }
  }

  /** n digits in radix 2^bits stay below 2^(bits * n). */
  lemma {:induction false} ValBound(ds: seq<nat>, bits: nat)
    requires Fits(ds, bits)
    ensures Val(ds, bits) < Pow2(bits * |ds|)
  {
    if |ds| > 0 {
      var init := ds[..|ds| - 1];
      var x, p := Val(init, bits), Pow2(bits * |init|);
      ValBound(init, bits);
      ShlMonotone(x + 1, p, bits);
      ShlDistrib(x, 1, bits);
      ShlMonotone(0, 0, bits);
      ShlIsMul(p, bits);
      ShlDigits(1, bits, |init|);
    }
  }

  /** The digits the loop produces are the low bits * n bits of v. */
  lemma {:induction false} ChunksValue(v: int, n: nat, bits: nat)
    ensures Val(Chunks(v, n, bits), bits) == v % Pow2(bits * n)
    decreases n
  {
    if n > 0 {
      var p := Pow2(bits);
      var c := Chunks(v / p, n - 1, bits);
      ChunksValue(v / p, n - 1, bits);
      assert (c + [v % p])[..n - 1] == c;
      ChunkStep(v, n - 1, bits, Val(c, bits));
    }
  }

  /** One more digit below the value of the higher ones. */
  lemma {:induction false} ChunkStep(v: int, m: nat, bits: nat, x: nat)
    requires x == (v / Pow2(bits)) % Pow2(bits * m)
    ensures Shl(x, bits) + v % Pow2(bits) == v % Pow2(bits * (m + 1))
  {
    ShlIsMul(x, bits);
    ShlDigits(0, bits, m);
    LowDigit(v, Pow2(bits), Pow2(bits * m), Pow2(bits * (m + 1)));
  }

  lemma {:induction false} LowDigit(v: int, p: int, q: int, pq: int)
    requires p > 0 && q > 0 && pq == q * p
    ensures ((v / p) % q) * p + v % p == v % pq
  {
    ModMul(v, p, q);
    assert q * p == p * q;
  }

  /** Splitting the value of fitting digits gives the digits back. */
  lemma {:induction false} ChunksOfVal(ds: seq<nat>, bits: nat)
    requires Fits(ds, bits)
    ensures Chunks(Val(ds, bits), |ds|, bits) == ds
    decreases |ds|
  {
    if |ds| > 0 {
      var init, last := ds[..|ds| - 1], ds[|ds| - 1];
      var x := Val(init, bits);
      ShlIsMul(x, bits);
      LastDigit(Val(ds, bits), Pow2(bits), x, last);
      ChunksOfVal(init, bits);
      assert init + [last] == ds;
    }
  }

  lemma {:induction false} LastDigit(v: int, p: int, x: int, d: int)
    requires p > 0 && 0 <= d < p && v == x * p + d
    ensures v / p == x && v % p == d
  {
    DivModUnique(v, p, x, d);
  }

  /** Digit lists that fit stay fitting when joined. */
  lemma {:induction false} FitsAppend(a: seq<nat>, b: seq<nat>, bits: nat)
    requires Fits(a, bits) && Fits(b, bits)
    ensures Fits(a + b, bits)
  {
    forall k | 0 <= k < |a + b|
      ensures (a + b)[k] < Pow2(bits)
    {
      if k >= |a| {
        assert (a + b)[k] == b[k - |a|];
      }
    }
  }

  /** Concatenation with the shift width given as n = bits * |b|. */
  lemma {:induction false} ValAppend(a: seq<nat>, b: seq<nat>, bits: nat, n: nat)
    requires n == bits * |b|
    ensures Val(a + b, bits) == Shl(Val(a, bits), n) + Val(b, bits)
  {
    ValConcat(a, b, bits);
  }

  /** Digits, then z zero digits, then more digits: the zeros widen the shift
      of the leading digits. */
  lemma {:induction false} ValGap(a: seq<nat>, z: nat, b: seq<nat>, bits: nat, p: nat, q: nat)
    requires p == bits * z && q == bits * |b|
    ensures Val(a + Zeros(z) + b, bits) == Shl(Val(a, bits), p + q) + Val(b, bits)
  {
    ValAppend(a + Zeros(z), b, bits, q);
    ValAppend(a, Zeros(z), bits, p);
    ValOfZeros(z, bits);
    ShlAdd(Val(a, bits), p, q);
  }

  /** A stretch of zero digits can be cut out and written back as zeros. */
  lemma {:induction false} ZeroStretch(ds: seq<nat>, a: nat, e: nat)
    requires a <= e <= |ds| && forall j | a <= j < e :: ds[j] == 0
    ensures ds == ds[..a] + Zeros(e - a) + ds[e..]
  {
    var r := ds[..a] + Zeros(e - a) + ds[e..];
    assert |r| == |ds|;
    forall j | 0 <= j < |ds| ensures r[j] == ds[j] {
      if j < a {
      } else if j < e {
        assert r[j] == Zeros(e - a)[j - a];
      } else {
        assert r[j] == ds[e..][j - e];
      }
    }
  }

  /** A value below the radix splits into leading zero digits and itself. */
  lemma {:induction false} ChunksSmall(v: nat, n: nat, bits: nat)
    requires n >= 1 && v < Pow2(bits)
    ensures Chunks(v, n, bits) == Zeros(n - 1) + [v]
    decreases n
  {
    var p := Pow2(bits);
    DivModUnique(v, p, 0, v);
    if n > 1 {
      ChunksSmall(0, n - 1, bits);
      assert Zeros(n - 2) + [0] == Zeros(n - 1);
    }
  }
}
