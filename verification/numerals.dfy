/** Numerals: BigInt's `toString(base)` and the `BigInt(text)` parse, for the
    bases the converter uses (10 for IPv4 octets, 16 for IPv6 groups). */
module Numerals {
  import opened Bits

  /** The two bases the converter writes and reads numerals in. */
  predicate IsRadix(base: nat)
  {
    base == 10 || base == 16
  }

  /** A digit of a supported base. */
  predicate IsDigitOf(c: char, base: nat)
  {
    DigitValue(c) < base
  }

  /** The value of a digit character; 16 for a character that is no hex digit.
      Upper- and lower-case hex letters are both accepted, as `BigInt("0x…")` does. */
  function DigitValue(c: char): (d: nat)
    ensures d <= 16
  {
    if '0' <= c <= '9' then (c - '0') as nat
    else if 'a' <= c <= 'f' then (c - 'a') as nat + 10
    else if 'A' <= c <= 'F' then (c - 'A') as nat + 10
    else 16
  }

  /** The lower-case digit for d, as `toString` writes it. */
  function DigitChar(d: nat): (c: char)
    requires d < 16
    ensures DigitValue(c) == d
    ensures '0' <= c <= '9' || 'a' <= c <= 'f'
  {
    if d < 10 then ('0' as int + d) as char else ('a' as int + d - 10) as char
  }

  /** `n.toString(base)`: the digits of n, most significant first, without leading zeros. */
  function Render(n: nat, base: nat): (r: string)
    requires IsRadix(base)
    ensures |r| >= 1
    decreases n
  {
    if n < base then [DigitChar(n)]
    else Render(n / base, base) + [DigitChar(n % base)]
  }

  /** The value of a string of digits in the given base. */
  function Parse(s: string, base: nat): nat
    requires IsRadix(base)
  {
    if |s| == 0 then 0
    else Parse(s[..|s| - 1], base) * base + DigitValue(s[|s| - 1])
  }

  /** Every character of s is a digit of the base. */
  predicate AllDigits(s: string, base: nat)
  {
    forall k | 0 <= k < |s| :: IsDigitOf(s[k], base)
  }

  /** A numeral holds no character that is not a digit of its base. */
  lemma {:induction false} NonDigitAbsent(s: string, base: nat, c: char)
    requires AllDigits(s, base) && !IsDigitOf(c, base)
    ensures c !in s
  {
  }

  /** The separators of address text are not digits. */
  lemma {:induction false} SeparatorsNotDigits()
    ensures !IsDigitOf(':', 16) && !IsDigitOf('.', 10) && !IsDigitOf(':', 10)
  {
  }

  /** Parsing undoes rendering. */
  lemma {:induction false} ParseRender(n: nat, base: nat)
    requires IsRadix(base)
    ensures Parse(Render(n, base), base) == n
    decreases n
  {
    if n >= base {
      DivMod(n, base);
      ParseRender(n / base, base);
      ParseRenderStep(n, base);
    } else {
      ParseDigit(n, base);
    }
  }

  /** A numeral of one digit. */
  lemma {:induction false} ParseDigit(n: nat, base: nat)
    requires IsRadix(base) && n < base
    ensures Parse(Render(n, base), base) == n
  {
    var c := DigitChar(n);
    assert Render(n, base) == [c];
    assert [c][..0] == [];
    assert Parse([c], base) == 0 * base + DigitValue(c);
  }

  /** One digit of ParseRender: the last digit of a numeral is its value modulo the base. */
  lemma {:induction false} ParseRenderStep(n: nat, base: nat)
    requires IsRadix(base) && n >= base
    requires Parse(Render(n / base, base), base) == n / base
    ensures Parse(Render(n, base), base) == n
  {
    var q, d := n / base, n % base;
    assert Render(n, base) == Render(q, base) + [DigitChar(d)];
    ParseSnoc(Render(q, base), DigitChar(d), base);
    DivMod(n, base);
  }

  /** Appending a digit shifts the value up by one place. */
  lemma {:induction false} ParseSnoc(s: string, c: char, base: nat)
    requires IsRadix(base)
    ensures Parse(s + [c], base) == Parse(s, base) * base + DigitValue(c)
  {
    assert (s + [c])[..|s + [c]| - 1] == s;
  }

  lemma {:induction false} DivMod(n: nat, base: nat)
    requires base >= 2
    ensures n == (n / base) * base + n % base
    ensures n >= base ==> 1 <= n / base < n
  {
  }

  /** Rendering writes only digits of the base. */
  lemma {:induction false} RenderDigits(n: nat, base: nat)
    requires IsRadix(base)
    ensures AllDigits(Render(n, base), base)
    decreases n
  {
    if n >= base {
      DivMod(n, base);
      RenderDigits(n / base, base);
    }
  }

  /** A rendered numeral starts with a zero digit only when it is "0". */
  lemma {:induction false} RenderNoLeadingZero(n: nat, base: nat)
    requires IsRadix(base)
    ensures Render(n, base)[0] == '0' <==> n == 0
    ensures n == 0 ==> Render(n, base) == "0"
    decreases n
  {
    if n >= base {
      var q := n / base;
      assert q >= 1;
      RenderNoLeadingZero(q, base);
      assert Render(n, base)[0] == Render(q, base)[0];
    }
  }

  /** Hex numerals of values below 2^(4k), k >= 1, have at most k digits. */
  lemma {:induction false} RenderHexLength(n: nat, k: nat)
    requires k >= 1 && n < Pow2(4 * k)
    ensures |Render(n, 16)| <= k
  {
    if n >= 16 {
      Pow2Sixteen(k - 1);
      RenderHexLength(n / 16, k - 1);
    }
  }

  /** One more hex digit multiplies the range by 16. */
  lemma {:induction false} Pow2Sixteen(k: nat)
    ensures Pow2(4 * (k + 1)) == 16 * Pow2(4 * k)
  {
    Pow2Add(4, 4 * k);
    assert Pow2(4) == 16;
  }

  /** Decimal numerals of values below 256 have at most three digits. */
  lemma {:induction false} RenderOctetLength(n: nat)
    requires n < 256
    ensures |Render(n, 10)| <= 3
  {
    if n >= 10 {
      var q := n / 10;
      assert Render(n, 10) == Render(q, 10) + [DigitChar(n % 10)];
      if q >= 10 {
        assert Render(q, 10) == Render(q / 10, 10) + [DigitChar(q % 10)];
        assert q / 10 < 10;
      }
    }
  }

  /** A numeral of k digits is below base^k; for hex, below 2^(4k). */
  lemma {:induction false} ParseHexBound(s: string)
    requires AllDigits(s, 16)
    ensures Parse(s, 16) < Pow2(4 * |s|)
  {
    if |s| > 0 {
      ParseHexBound(s[..|s| - 1]);
      Pow2Sixteen(|s| - 1);
    }
  }

  /** A leading zero digit does not change a value: `BigInt("0x0" + t)` reads t. */
  lemma {:induction false} ParseLeadingZero(s: string, base: nat)
    requires IsRadix(base)
    ensures Parse("0" + s, base) == Parse(s, base)
  {
    if |s| > 0 {
      ParseLeadingZero(s[..|s| - 1], base);
      assert ("0" + s)[..|"0" + s| - 1] == "0" + s[..|s| - 1];
    }
  }
}
