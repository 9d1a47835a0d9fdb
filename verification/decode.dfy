/** What `ip2BigInt` computes: the positional value of the address's octets
    or of its eight groups, with "::" expanded to zeros. */
module Decode {
  import opened Bits
  import opened Outcomes
  import opened Text
  import opened Numerals
  import opened Words
  import opened IpCodec
  import opened DecodeFolds

  // The two families are told apart by the colon.

  /** When every field is a numeral, the text holds only digits and separators. */
  lemma {:induction false} SplitDigits(s: string, sep: char, base: nat)
    requires forall k | 0 <= k < |Split(s, sep)| :: AllDigits(Split(s, sep)[k], base)
    ensures forall i | 0 <= i < |s| :: s[i] == sep || IsDigitOf(s[i], base)
    decreases |s|
  {
    if |s| > 0 {
      var f, rest := Split(s, sep), Split(s[1..], sep);
      if s[0] == sep {
        assert forall k | 0 <= k < |rest| :: rest[k] == f[k + 1];
      } else {
        assert f[0] == [s[0]] + rest[0];
        assert AllDigits(rest[0], base) by {
          forall i | 0 <= i < |rest[0]| ensures IsDigitOf(rest[0][i], base) {
            assert rest[0][i] == f[0][i + 1];
          }
        }
        assert forall k | 1 <= k < |rest| :: rest[k] == f[k];
        assert IsDigitOf(f[0][0], base);
      }
      SplitDigits(s[1..], sep, base);
      assert forall i | 1 <= i < |s| :: s[i] == s[1..][i - 1];
    }
  }

  /** Dotted-quad text holds no colon. */
  lemma {:induction false} DottedHasNoColon(t: string)
    requires IsIPv4(t)
    ensures ':' !in t
  {
    SplitDigits(t, '.', 10);
  }

  /** Colon-hex text holds a colon. */
  lemma {:induction false} ColonHexHasColon(t: string)
    requires IsIPv6(t)
    ensures ':' in t
  {
    if ':' !in t {
      SplitSingle(t, ':');
    }
  }

  /** No text is both an IPv4 and an IPv6 address. */
  lemma {:induction false} FamiliesDisjoint(t: string)
    ensures !(IsIPv4(t) && IsIPv6(t))
  {
    if IsIPv4(t) {
      DottedHasNoColon(t);
      if IsIPv6(t) {
        ColonHexHasColon(t);
      }
    }
  }

  // IPv4.

  lemma {:induction false} OctetValuesAt(f: seq<string>, k: nat)
    requires k < |f|
    ensures OctetValues(f)[k] == Parse(f[k], 10)
    decreases k
  {
    if k > 0 {
      OctetValuesAt(f[1..], k - 1);
    }
  }

  /** Octets below 256 fit eight bits. */
  lemma {:induction false} OctetsFit(f: seq<string>)
    requires |f| == 4 && forall k | 0 <= k < 4 :: IsOctetText(f[k])
    ensures Fits(OctetValues(f), 8)
  {
    assert Pow2(8) == 256;
    forall k | 0 <= k < 4 ensures OctetValues(f)[k] < Pow2(8) {
      OctetValuesAt(f, k);
    }
  }

  /** On four fields the IPv4 fold is the value of the octets. */
  lemma {:induction false} SumOctetsAll(f: seq<string>)
    requires |f| == 4
    ensures SumOctets(f, 0, 0) == Val(OctetValues(f), 8)
  {
    SumOctetsValue(f, 0, 0);
    assert f[0..] == f;
  }

  /** Dotted-quad text decodes to the 32-bit value of its four octets. */
  lemma {:induction false} DecodeV4(t: string)
    requires IsIPv4(t)
    ensures Ip2BigInt(t) == Ok(Val(OctetValues(Split(t, '.')), 8))
    ensures Val(OctetValues(Split(t, '.')), 8) < Pow2(32)
  {
    var f := Split(t, '.');
    assert Ip2BigInt(t) == Ok(SumOctets(f, 0, 0));
    SumOctetsAll(f);
    OctetsFit(f);
    ValBound(OctetValues(f), 8);
  }

  // IPv6.

  /** Fields from k on that are all groups are not empty. */
  lemma {:induction false} GroupsFrom(f: seq<string>, k: nat)
    requires k <= |f| && AllGroups(f[k..])
    ensures forall j | k <= j < |f| :: f[j] != ""
  {
    forall j | k <= j < |f| ensures f[j] != "" {
      assert f[k..][j - k] == f[j];
    }
  }

  /** Fields before m that are all groups are not empty. */
  lemma {:induction false} GroupsBefore(f: seq<string>, m: nat)
    requires m <= |f| && AllGroups(f[..m])
    ensures forall j | 0 <= j < m :: f[j] != ""
  {
    forall j | 0 <= j < m ensures f[j] != "" {
      assert f[..m][j] == f[j];
    }
  }

  lemma {:induction false} ExpandFull(f: seq<string>)
    requires FullForm(f)
    ensures Placed(f, 0, false) == Val(Expand(f), 16)
  {
    GroupsBefore(f, 8);
    assert f[..8] == f;
    assert FirstEmpty(f) == 8;
    assert Head(f) == f;
    assert !InnerGap(f);
    assert !LeadingGap(f);
    assert Tail(f) == [];
    var a := GroupValues(f);
    assert Expand(f) == a + Zeros(0) + [];
    assert Expand(f) == a;
    PlacedBefore(f, 0, 8, 0);
    assert f[0..8] == f;
    assert Placed(f, 8, false) == 0;
    assert ShiftLeft(Val(a, 16), 0) == Val(a, 16);
    assert Placed(f, 0, false) == Val(a, 16);
  }

  lemma {:induction false} ExpandInner(f: seq<string>)
    requires InnerGap(f)
    ensures Placed(f, 0, false) == Val(Expand(f), 16)
  {
    var l := FirstEmpty(f);
    var h, tl := f[..l], f[l + 1..];
    assert Head(f) == h && Tail(f) == tl;
    var a, b := GroupValues(h), GroupValues(tl);
    var z := 8 - l - |tl|;
    assert Expand(f) == a + Zeros(z) + b;
    GroupsFrom(f, l + 1);
    InnerValue(f, l, a, b, z, 16 * z, 16 * |b|);
  }

  /** The fold of groups, one empty field at l, groups: the groups before the
      gap sit above z zero groups and the groups after it. */
  lemma {:induction false} InnerValue(f: seq<string>, l: nat, a: seq<nat>, b: seq<nat>, z: nat, p: nat, q: nat)
    requires l < |f| && l <= 8 && f[l] == ""
    requires forall j | 0 <= j < l :: f[j] != ""
    requires forall j | l + 1 <= j < |f| :: f[j] != ""
    requires a == GroupValues(f[..l]) && b == GroupValues(f[l + 1..])
    requires p == 16 * z && q == 16 * |b| && p + q == 16 * (8 - l)
    ensures Placed(f, 0, false) == Val(a + Zeros(z) + b, 16)
  {
    PlacedHead(f, l, p + q, a);
    assert Placed(f, l, false) == Placed(f, l + 1, true);
    PlacedAfter(f, l + 1);
    ValGap(a, z, b, 16, p, q);
  }

  lemma {:induction false} ExpandTrailing(f: seq<string>)
    requires TrailingGap(f)
    ensures Placed(f, 0, false) == Val(Expand(f), 16)
  {
    var m := |f| - 2;
    GroupsBefore(f, m);
    assert FirstEmpty(f) == m;
    assert f[m + 1..][0] == "";
    assert !InnerGap(f);
    assert !LeadingGap(f);
    assert Head(f) == f[..m] && Tail(f) == [];
    var a := GroupValues(f[..m]);
    assert Expand(f) == a + Zeros(8 - m) + [];
    TrailingValue(f, m, a, 8 - m, 16 * (8 - m));
  }

  /** The fold of groups followed by two empty fields: the groups sit above z zero groups. */
  lemma {:induction false} TrailingValue(f: seq<string>, m: nat, a: seq<nat>, z: nat, p: nat)
    requires m + 2 == |f| && m <= 8 && f[m] == "" && f[m + 1] == ""
    requires forall j | 0 <= j < m :: f[j] != ""
    requires a == GroupValues(f[..m])
    requires p == 16 * z && p == 16 * (8 - m)
    ensures Placed(f, 0, false) == Val(a + Zeros(z) + [], 16)
  {
    ValGap(a, z, [], 16, p, 0);
    PlacedHead(f, m, p, a);
    assert Placed(f, m, false) == Placed(f, m + 1, true);
    assert Placed(f, m + 1, true) == Placed(f, m + 2, true) == 0;
    assert p + 0 == p;
  }

  /** The fold up to the first empty field l places the groups before it, with
      values a, at the top. */
  lemma {:induction false} PlacedHead(f: seq<string>, l: nat, n: nat, a: seq<nat>)
    requires l <= |f| && l <= 8 && n == 16 * (8 - l)
    requires forall j | 0 <= j < l :: f[j] != ""
    requires a == GroupValues(f[..l])
    ensures Placed(f, 0, false) == Shl(Val(a, 16), n) + Placed(f, l, false)
  {
    PlacedBefore(f, 0, l, n);
    assert f[0..l] == f[..l];
  }

  lemma {:induction false} ExpandLeading(f: seq<string>)
    requires LeadingGap(f)
    ensures Placed(f, 0, false) == Val(Expand(f), 16)
  {
    assert FirstEmpty(f) == 0;
    assert !InnerGap(f);
    var tl := f[2..];
    assert Head(f) == [] && Tail(f) == tl;
    var b := GroupValues(tl);
    assert Expand(f) == Zeros(8 - |tl|) + b;
    ValZeros(8 - |tl|, b, 16);
    assert Placed(f, 0, false) == Placed(f, 1, true);
    assert Placed(f, 1, true) == Placed(f, 2, true);
    GroupsFrom(f, 2);
    PlacedAfter(f, 2);
  }

  lemma {:induction false} ExpandAll(f: seq<string>)
    requires AllGap(f)
    ensures Placed(f, 0, false) == Val(Expand(f), 16)
  {
    assert FirstEmpty(f) == 0;
    assert f[2..][0] == "";
    assert !InnerGap(f) && !LeadingGap(f);
    assert Head(f) == [] && Tail(f) == [];
    assert Expand(f) == Zeros(8);
    ValOfZeros(8, 16);
    assert Placed(f, 0, false) == Placed(f, 1, true);
    assert Placed(f, 1, true) == Placed(f, 2, true);
    assert Placed(f, 2, true) == Placed(f, 3, true) == 0;
  }

  /** The IPv6 fold is the value of the expanded groups. */
  lemma {:induction false} ExpandValue(f: seq<string>)
    requires IsIPv6Fields(f)
    ensures Placed(f, 0, false) == Val(Expand(f), 16)
  {
    if FullForm(f) {
      ExpandFull(f);
    } else if InnerGap(f) {
      ExpandInner(f);
    } else if TrailingGap(f) {
      ExpandTrailing(f);
    } else if LeadingGap(f) {
      ExpandLeading(f);
    } else {
      ExpandAll(f);
    }
  }

  /** On IPv6 fields the fold of the source is the value of the expanded groups. */
  lemma {:induction false} SumGroupsAll(f: seq<string>)
    requires IsIPv6Fields(f)
    ensures SumGroups(f, 0, 0, false) == Val(Expand(f), 16)
  {
    SumGroupsPlaced(f, 0, 0, false);
    ExpandValue(f);
  }

  /** Colon-hex text decodes to the value of its eight expanded groups. */
  lemma {:induction false} DecodeV6(t: string)
    requires IsIPv6(t)
    ensures Ip2BigInt(t) == Ok(Val(Expand(Split(t, ':')), 16))
  {
    FamiliesDisjoint(t);
    assert Ip2BigInt(t) == Ok(SumGroups(Split(t, ':'), 0, 0, false));
    SumGroupsAll(Split(t, ':'));
  }

  // Ranges.

  lemma {:induction false} GroupValuesAt(f: seq<string>, k: nat)
    requires k < |f|
    ensures GroupValues(f)[k] == HexValue(f[k])
    decreases k
  {
    if k > 0 {
      GroupValuesAt(f[1..], k - 1);
    }
  }

  /** A group of at most four hex digits is below 2^16. */
  lemma {:induction false} HexGroupBound(g: string)
    requires IsHexGroup(g)
    ensures HexValue(g) < Pow2(16)
  {
    ParseLeadingZero(g, 16);
    ParseHexBound(g);
    Pow2Monotone(4 * |g|, 16);
  }

  lemma {:induction false} GroupsFit(f: seq<string>)
    requires AllGroups(f)
    ensures Fits(GroupValues(f), 16)
  {
    forall k | 0 <= k < |f| ensures GroupValues(f)[k] < Pow2(16) {
      GroupValuesAt(f, k);
      HexGroupBound(f[k]);
    }
  }

  /** The written groups of every IPv6 form are hex groups. */
  lemma {:induction false} HeadTailGroups(f: seq<string>)
    requires IsIPv6Fields(f)
    ensures AllGroups(Head(f)) && AllGroups(Tail(f))
  {
    var l := FirstEmpty(f);
    if FullForm(f) {
      GroupsBefore(f, 8);
      assert l == 8 && Head(f) == f;
      assert !InnerGap(f) && !LeadingGap(f);
    } else if TrailingGap(f) {
      GroupsBefore(f, |f| - 2);
      assert l == |f| - 2 && f[0] != "";
      assert f[l + 1..][0] == "";
      assert !InnerGap(f) && !LeadingGap(f);
    } else if !InnerGap(f) {
      assert l == 0 && Head(f) == [];
    }
  }

  /** "::" expands to exactly the missing groups: eight 16-bit groups in all. */
  lemma {:induction false} ExpandShape(f: seq<string>)
    requires IsIPv6Fields(f)
    ensures |Expand(f)| == 8 && Fits(Expand(f), 16)
  {
    var h, tl := Head(f), Tail(f);
    var a, b, z := GroupValues(h), GroupValues(tl), Zeros(8 - |h| - |tl|);
    assert Expand(f) == a + z + b;
    HeadTailGroups(f);
    GroupsFit(h);
    GroupsFit(tl);
    assert Fits(z, 16);
    FitsAppend(a, z, 16);
    FitsAppend(a + z, b, 16);
  }

  /** What `ip2BigInt` returns is a 128-bit value, and a 32-bit one for IPv4 text. */
  lemma {:induction false} DecodeRange(t: string)
    ensures Ip2BigInt(t).Ok? ==> Ip2BigInt(t).value < Pow2(128)
    ensures IsIPv4(t) ==> Ip2BigInt(t).Ok? && Ip2BigInt(t).value < Pow2(32)
  {
    if IsIPv4(t) {
      DecodeV4(t);
      Pow2Monotone(32, 128);
    } else if IsIPv6(t) {
      var f := Split(t, ':');
      DecodeV6(t);
      ExpandShape(f);
      ValBound(Expand(f), 16);
    }
  }
}
