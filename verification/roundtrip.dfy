/** `ip2BigInt` undoes `bigInt2Ip`: the text the encoder writes is address text
    of the right family, and it decodes to the value modulo the family's size. */
module RoundTrip {
  import opened Bits
  import opened Outcomes
  import opened Text
  import opened Numerals
  import opened Words
  import opened IpCodec
  import opened Decode
  import opened Encode

  // Single groups and octets.

  /** A 16-bit value in hex is a group that reads back as the value. */
  lemma {:induction false} HexGroupText(d: nat)
    requires d < Pow2(16)
    ensures IsHexGroup(Render(d, 16)) && HexValue(Render(d, 16)) == d
    ensures ':' !in Render(d, 16)
  {
    var g := Render(d, 16);
    RenderHexLength(d, 4);
    RenderDigits(d, 16);
    ParseLeadingZero(g, 16);
    ParseRender(d, 16);
    SeparatorsNotDigits();
    NonDigitAbsent(g, 16, ':');
  }

  /** An octet in decimal is octet text that reads back as the octet. */
  lemma {:induction false} OctetText(d: nat)
    requires d < 256
    ensures IsOctetText(Render(d, 10)) && Parse(Render(d, 10), 10) == d
    ensures '.' !in Render(d, 10)
  {
    var o := Render(d, 10);
    RenderOctetLength(d);
    RenderDigits(d, 10);
    RenderNoLeadingZero(d, 10);
    ParseRender(d, 10);
    SeparatorsNotDigits();
    NonDigitAbsent(o, 10, '.');
  }

  lemma {:induction false} RenderAllAt(ds: seq<nat>, base: nat, k: nat)
    requires IsRadix(base) && k < |ds|
    ensures RenderAll(ds, base)[k] == Render(ds[k], base)
    decreases k
  {
    if k > 0 {
      RenderAllAt(ds[1..], base, k - 1);
    }
  }

  /** Rendering commutes with taking a prefix or a suffix. */
  lemma {:induction false} RenderAllSlices(ds: seq<nat>, base: nat, a: nat)
    requires IsRadix(base) && a <= |ds|
    ensures RenderAll(ds, base)[..a] == RenderAll(ds[..a], base)
    ensures RenderAll(ds, base)[a..] == RenderAll(ds[a..], base)
  {
    forall k | 0 <= k < a
      ensures RenderAll(ds, base)[..a][k] == RenderAll(ds[..a], base)[k]
    {
      RenderAllAt(ds, base, k);
      RenderAllAt(ds[..a], base, k);
    }
    forall k | 0 <= k < |ds| - a
      ensures RenderAll(ds, base)[a..][k] == RenderAll(ds[a..], base)[k]
    {
      RenderAllAt(ds, base, a + k);
      RenderAllAt(ds[a..], base, k);
    }
  }

  /** Rendered 16-bit groups are hex groups without colons that read back as the groups. */
  lemma {:induction false} GroupTexts(ds: seq<nat>)
    requires Fits(ds, 16)
    ensures AllGroups(RenderAll(ds, 16)) && SepFree(RenderAll(ds, 16), ':')
    ensures GroupValues(RenderAll(ds, 16)) == ds
  {
    var h := RenderAll(ds, 16);
    forall k | 0 <= k < |ds|
      ensures IsHexGroup(h[k]) && ':' !in h[k] && GroupValues(h)[k] == ds[k]
    {
      RenderAllAt(ds, 16, k);
      HexGroupText(ds[k]);
      GroupValuesAt(h, k);
    }
  }

  /** Rendered octets are octet texts without dots that read back as the octets. */
  lemma {:induction false} OctetTexts(ds: seq<nat>)
    requires Fits(ds, 8)
    ensures forall k | 0 <= k < |ds| :: IsOctetText(RenderAll(ds, 10)[k])
    ensures SepFree(RenderAll(ds, 10), '.')
    ensures OctetValues(RenderAll(ds, 10)) == ds
  {
    var o := RenderAll(ds, 10);
    assert Pow2(8) == 256;
    forall k | 0 <= k < |ds|
      ensures IsOctetText(o[k]) && '.' !in o[k] && OctetValues(o)[k] == ds[k]
    {
      RenderAllAt(ds, 10, k);
      OctetText(ds[k]);
      OctetValuesAt(o, k);
    }
  }

  // The shapes of the text the encoder writes.

  /** Eight groups without "::" read as the groups themselves. */
  lemma {:induction false} FullFields(f: seq<string>)
    requires FullForm(f)
    ensures IsIPv6Fields(f) && Expand(f) == GroupValues(f)
  {
    GroupsBefore(f, 8);
    assert f[..8] == f;
    assert FirstEmpty(f) == 8;
    assert Head(f) == f;
    assert !InnerGap(f) && !LeadingGap(f);
    assert Expand(f) == GroupValues(f) + Zeros(0) + GroupValues([]);
  }

  /** Groups A, then an empty field: the first empty field is the one after A. */
  lemma {:induction false} EmptyAfter(A: seq<string>, rest: seq<string>)
    requires AllGroups(A) && |rest| >= 1 && rest[0] == ""
    ensures FirstEmpty(A + rest) == |A|
    ensures (A + rest)[..|A|] == A && (A + rest)[|A| + 1..] == rest[1..]
  {
    var f := A + rest;
    assert f[..|A|] == A;
    assert f[|A| + 1..] == rest[1..];
    GroupsBefore(f, |A|);
  }

  /** Expand of groups, "::", groups, with the groups on each side named. */
  lemma {:induction false} ExpandInnerParts(f: seq<string>, A: seq<string>, B: seq<string>)
    requires InnerGap(f) && Head(f) == A && Tail(f) == B
    ensures Expand(f) == GroupValues(A) + Zeros(8 - |A| - |B|) + GroupValues(B)
  {
    var h, t := Head(f), Tail(f);
    assert Expand(f) == GroupValues(h) + Zeros(8 - |h| - |t|) + GroupValues(t);
  }

  /** Expand of groups followed by "::". */
  lemma {:induction false} ExpandTrailingParts(f: seq<string>)
    requires TrailingGap(f)
    ensures Expand(f) == GroupValues(f[..|f| - 2]) + Zeros(10 - |f|)
  {
    var m := |f| - 2;
    var A := f[..m];
    GroupsBefore(f, m);
    assert FirstEmpty(f) == m;
    assert Head(f) == A;
    assert !IsHexGroup(f[m + 1..][0]);
    assert !InnerGap(f);
    assert IsHexGroup(A[0]) && f[0] == A[0];
    assert !LeadingGap(f);
    assert Tail(f) == [];
    assert GroupValues([]) == [];
  }

  /** The fields of `x::y` with the groups on each side named. */
  lemma {:induction false} InnerShape(A: seq<string>, B: seq<string>)
    requires 1 <= |A| && 1 <= |B| && |A| + |B| <= 7 && AllGroups(A) && AllGroups(B)
    ensures InnerGap(A + [""] + B)
    ensures Head(A + [""] + B) == A && Tail(A + [""] + B) == B
  {
    var f := A + [""] + B;
    assert f == A + ([""] + B);
    EmptyAfter(A, [""] + B);
  }

  /** Groups A, "::", groups B, with at least one group left out between them. */
  lemma {:induction false} InnerFields(A: seq<string>, B: seq<string>)
    requires 1 <= |A| && 1 <= |B| && |A| + |B| <= 7 && AllGroups(A) && AllGroups(B)
    ensures InnerGap(A + [""] + B)
    ensures Expand(A + [""] + B) == GroupValues(A) + Zeros(8 - |A| - |B|) + GroupValues(B)
  {
    InnerShape(A, B);
    ExpandInnerParts(A + [""] + B, A, B);
  }

  /** Groups A, then "::" at the end. */
  lemma {:induction false} TrailingFields(A: seq<string>)
    requires 1 <= |A| <= 7 && AllGroups(A)
    ensures TrailingGap(A + ["", ""])
    ensures Expand(A + ["", ""]) == GroupValues(A) + Zeros(8 - |A|)
  {
    var f := A + ["", ""];
    EmptyAfter(A, ["", ""]);
    ExpandTrailingParts(f);
    assert f[..|f| - 2] == A;
    assert 10 - |f| == 8 - |A|;
  }

  /** The fields of `Join(A) + "::" + Join(B)`. */
  lemma {:induction false} CompressedFields(A: seq<string>, B: seq<string>)
    requires |A| >= 1 && SepFree(A, ':') && SepFree(B, ':')
    ensures |B| >= 1 ==> Split(Join(A, ':') + "::" + Join(B, ':'), ':') == A + [""] + B
    ensures |B| == 0 ==> Split(Join(A, ':') + "::" + Join(B, ':'), ':') == A + ["", ""]
  {
    var rest := [':'] + Join(B, ':');
    assert Join(A, ':') + "::" + Join(B, ':') == Join(A, ':') + [':'] + rest;
    SplitJoinThen(A, ':', rest);
    assert rest == "" + [':'] + Join(B, ':');
    SplitAfterField("", ':', Join(B, ':'));
    if |B| >= 1 {
      SplitJoin(B, ':');
    }
  }

  /** The texts of the groups before a and from e on, as the fields around "::". */
  lemma {:induction false} GapTexts(ds: seq<nat>, a: nat, e: nat)
    requires Fits(ds, 16) && a <= e <= |ds|
    ensures var h := RenderAll(ds, 16);
      && AllGroups(h[..a]) && SepFree(h[..a], ':') && GroupValues(h[..a]) == ds[..a]
      && AllGroups(h[e..]) && SepFree(h[e..], ':') && GroupValues(h[e..]) == ds[e..]
  {
    RenderAllSlices(ds, 16, a);
    RenderAllSlices(ds, 16, e);
    assert Fits(ds[..a], 16) && Fits(ds[e..], 16);
    GroupTexts(ds[..a]);
    GroupTexts(ds[e..]);
  }

  /** Eight groups with groups a up to e, short of the last, written as "::". */
  lemma {:induction false} InnerGapFields(ds: seq<nat>, a: nat, e: nat)
    requires |ds| == 8 && Fits(ds, 16) && 1 <= a < e < 8
    requires forall j | a <= j < e :: ds[j] == 0
    ensures var h := RenderAll(ds, 16);
      var f := Split(Join(h[..a], ':') + "::" + Join(h[e..], ':'), ':');
      IsIPv6Fields(f) && Expand(f) == ds
  {
    var h := RenderAll(ds, 16);
    var A, B := h[..a], h[e..];
    GapTexts(ds, a, e);
    CompressedFields(A, B);
    ZeroStretch(ds, a, e);
    InnerFields(A, B);
  }

  /** Eight groups with groups a to the last written as "::". */
  lemma {:induction false} TrailingGapFields(ds: seq<nat>, a: nat)
    requires |ds| == 8 && Fits(ds, 16) && 1 <= a < 8
    requires forall j | a <= j < 8 :: ds[j] == 0
    ensures var h := RenderAll(ds, 16);
      var f := Split(Join(h[..a], ':') + "::" + Join(h[8..], ':'), ':');
      IsIPv6Fields(f) && Expand(f) == ds
  {
    var h := RenderAll(ds, 16);
    var A, B := h[..a], h[8..];
    GapTexts(ds, a, 8);
    CompressedFields(A, B);
    ZeroStretch(ds, a, 8);
    TrailingFields(A);
    assert ds[8..] == [];
  }

  /** Eight groups with groups a up to e written as "::" read back as the groups. */
  lemma {:induction false} GapFields(ds: seq<nat>, a: nat, e: nat)
    requires |ds| == 8 && Fits(ds, 16) && 1 <= a < e <= 8
    requires forall j | a <= j < e :: ds[j] == 0
    ensures var h := RenderAll(ds, 16);
      var f := Split(Join(h[..a], ':') + "::" + Join(h[e..], ':'), ':');
      IsIPv6Fields(f) && Expand(f) == ds
  {
    if e < 8 {
      InnerGapFields(ds, a, e);
    } else {
      TrailingGapFields(ds, a);
    }
  }

  /** The compressed text of eight 16-bit groups is colon-hex text that reads back as the groups. */
  lemma {:induction false} CompressFields(ds: seq<nat>)
    requires |ds| == 8 && Fits(ds, 16)
    ensures IsIPv6Fields(Split(Compress(RenderAll(ds, 16), ds), ':'))
    ensures Expand(Split(Compress(RenderAll(ds, 16), ds), ':')) == ds
  {
    var h := RenderAll(ds, 16);
    var rs := ZeroRuns(ds, 1);
    if |rs| == 0 {
      GroupTexts(ds);
      SplitJoin(h, ':');
      FullFields(h);
    } else {
      var r := rs[LongestIndex(rs, 8)];
      GapFields(ds, r.start, r.start + r.len);
    }
  }

  /** The IPv6 text of v is colon-hex text whose expanded groups are those of v. */
  lemma {:induction false} V6Fields(v: int)
    ensures IsIPv6Fields(Split(V6Text(v), ':'))
    ensures Expand(Split(V6Text(v), ':')) == V6Groups(v)
  {
    CompressFields(V6Groups(v));
  }

  /** IPv6 text of v decodes to v modulo 2^128. */
  lemma {:induction false} V6RoundTrip(v: int)
    ensures IsIPv6(V6Text(v))
    ensures Ip2BigInt(V6Text(v)) == Ok(v % Pow2(128))
  {
    V6Fields(v);
    DecodeV6(V6Text(v));
    ChunksValue(v, 8, 16);
  }

  /** Dotted-quad text of v decodes to v modulo 2^32. */
  lemma {:induction false} V4RoundTrip(v: int)
    ensures IsIPv4(V4Text(v))
    ensures Ip2BigInt(V4Text(v)) == Ok(v % Pow2(32))
  {
    var ds := Chunks(v, 4, 8);
    OctetTexts(ds);
    SplitJoin(RenderAll(ds, 10), '.');
    DecodeV4(V4Text(v));
    ChunksValue(v, 4, 8);
  }

  // What the encoder promises.

  /** Forced, or from 2 << 32 up: IPv6 text that decodes to the value. */
  lemma {:induction false} EncodeV6(v: int, forceV6: bool)
    requires 0 <= v < Pow2(128) && (forceV6 || v >= 2 * Pow2(32))
    ensures Bigint2Ip(v, forceV6) == Ok(V6Text(v))
    ensures Ip2BigInt(V6Text(v)) == Ok(v)
  {
    V6RoundTrip(v);
    DivModUnique(v, Pow2(128), 0, v);
  }

  /** Unforced and below 2^32: a dotted quad that decodes to the value. */
  lemma {:induction false} EncodeV4(v: int)
    requires 0 < v < Pow2(32)
    ensures Bigint2Ip(v, false) == Ok(V4Text(v))
    ensures Ip2BigInt(V4Text(v)) == Ok(v)
  {
    V4RoundTrip(v);
    DivModUnique(v, Pow2(32), 0, v);
  }

  /** Unforced from 2^32 up to 2^33 - 1: the dotted quad of the low 32 bits. */
  lemma {:induction false} EncodeWraps(v: int)
    requires Pow2(32) <= v < 2 * Pow2(32)
    ensures Bigint2Ip(v, false) == Ok(V4Text(v))
    ensures Ip2BigInt(V4Text(v)) == Ok(v % Pow2(32))
    ensures v % Pow2(32) == v - Pow2(32)
  {
    V4RoundTrip(v);
    ModOnce(v, Pow2(32));
  }

  /** On an address value, bigInt2Ip's text decodes back to the value exactly
      when the value is not one of those from 2^32 up to 2^33 - 1 rendered
      without forceIPv6. */
  lemma {:induction false} EncodeDecode(v: int, forceV6: bool)
    requires 0 <= v < Pow2(128)
    ensures Bigint2Ip(v, forceV6).Ok? ==>
      (Ip2BigInt(Bigint2Ip(v, forceV6).value) == Ok(v) <==> forceV6 || v < Pow2(32) || v >= 2 * Pow2(32))
  {
    if forceV6 || v >= 2 * Pow2(32) {
      EncodeV6(v, forceV6);
    } else if v >= Pow2(32) {
      EncodeWraps(v);
    } else if v > 0 {
      EncodeV4(v);
    }
  }

  /** bigInt2Ip(2^32) is the text of 0.0.0.0. */
  lemma {:induction false} ThresholdWraps()
    ensures Bigint2Ip(Pow2(32), false).Ok?
    ensures Ip2BigInt(Bigint2Ip(Pow2(32), false).value) == Ok(0)
  {
    EncodeWraps(Pow2(32));
    assert Pow2(32) % Pow2(32) == 0;
  }

  /** bigInt2Ip(0) throws, so 0.0.0.0 has no text of its own. */
  lemma {:induction false} ZeroUnrenderable()
    ensures Bigint2Ip(0, false) == Err(InvalidFormat)
    ensures Bigint2IpFixed(0, false) == Ok(V4Text(0))
    ensures V4Text(0) == "0.0.0.0"
  {
    V4TextOfZero(0);
  }

  /** Address 0 as a dotted quad. */
  lemma {:induction false} V4TextOfZero(v: nat)
    requires v == 0
    ensures V4Text(v) == "0.0.0.0"
  {
    ChunksSmall(v, 4, 8);
    var ds := Chunks(v, 4, 8);
    assert ds == [0, 0, 0, 0];
    var gs := RenderAll(ds, 10);
    assert Render(0, 10) == "0";
    RenderAllAt(ds, 10, 0);
    RenderAllAt(ds, 10, 1);
    RenderAllAt(ds, 10, 2);
    RenderAllAt(ds, 10, 3);
    assert gs == ["0", "0", "0", "0"];
  }

  /** The corrected encoder round-trips every address value, and writes IPv4
      text exactly for unforced values below 2^32. */
  lemma {:induction false} FixedEncodeDecode(v: int, forceV6: bool)
    requires 0 <= v < Pow2(128)
    ensures Bigint2IpFixed(v, forceV6).Ok?
    ensures Ip2BigInt(Bigint2IpFixed(v, forceV6).value) == Ok(v)
    ensures IsIPv4(Bigint2IpFixed(v, forceV6).value) <==> !forceV6 && v < Pow2(32)
  {
    if forceV6 || v >= Pow2(32) {
      V6RoundTrip(v);
      DivModUnique(v, Pow2(128), 0, v);
      FamiliesDisjoint(V6Text(v));
    } else {
      V4RoundTrip(v);
      DivModUnique(v, Pow2(32), 0, v);
    }
  }

  /** Address 0 or 1 has seven zero groups before its last one. */
  lemma {:induction false} V6GroupsLow(v: nat) returns (ds: seq<nat>, gs: seq<string>)
    requires v < 2
    ensures ds == V6Groups(v) && gs == RenderAll(ds, 16)
    ensures |ds| == 8 && ds[7] == v && forall j | 0 <= j < 7 :: ds[j] == 0
    ensures gs[..1] == ["0"] && gs[7..] == [Render(v, 16)] && gs[8..] == []
  {
    Pow2Monotone(1, 16);
    ChunksSmall(v, 8, 16);
    ds := V6Groups(v);
    gs := RenderAll(ds, 16);
    assert ds[0] == 0;
    RenderAllAt(ds, 16, 0);
    RenderAllAt(ds, 16, 7);
    assert Render(0, 16) == "0";
    assert gs[..1] == [gs[0]] && gs[7..] == [gs[7]];
  }

  /** Address 0 as IPv6: group 0 is written out and only the seven groups
      after it are compressed. */
  lemma {:induction false} V6TextOfZero(v: nat)
    requires v == 0
    ensures V6Text(v) == "0::"
  {
    var ds, gs := V6GroupsLow(v);
    assert V6Text(v) == Compress(gs, ds);
    ZeroRunsZero(ds);
    CompressOneRun(gs, ds, Run(1, 7));
    assert Join(gs[..1], ':') == "0";
    assert Join(gs[8..], ':') == "";
  }

  /** Address 1 as IPv6: "0::" and its one group. */
  lemma {:induction false} V6TextOfLow(v: nat)
    requires v == 1
    ensures V6Text(v) == "0::" + Render(v, 16)
  {
    var ds, gs := V6GroupsLow(v);
    assert V6Text(v) == Compress(gs, ds);
    ZeroRunsLow(ds);
    CompressOneRun(gs, ds, Run(1, 6));
    assert Join(gs[..1], ':') == "0";
    assert Join(gs[7..], ':') == Render(v, 16);
  }

  lemma {:induction false} ZeroRunsZero(ds: seq<nat>)
    requires |ds| == 8 && forall j | 0 <= j < 8 :: ds[j] == 0
    ensures IsRun(ds, Run(1, 7)) && ZeroRuns(ds, 1) == [Run(1, 7)]
  {
    assert ZeroRunLength(ds, 8) == 0;
    assert ZeroRunLength(ds, 1) == 7;
    assert ZeroRuns(ds, 8) == [];
  }

  lemma {:induction false} ZeroRunsLow(ds: seq<nat>)
    requires |ds| == 8 && ds[7] != 0 && forall j | 0 <= j < 7 :: ds[j] == 0
    ensures IsRun(ds, Run(1, 6)) && ZeroRuns(ds, 1) == [Run(1, 6)]
  {
    assert ZeroRunLength(ds, 7) == 0;
    assert ZeroRunLength(ds, 1) == 6;
    assert ZeroRuns(ds, 8) == [];
    assert ZeroRuns(ds, 7) == [];
  }

  lemma {:induction false} RenderOne(v: nat)
    requires v == 1
    ensures "0::" + Render(v, 16) == "0::1"
  {
    assert Render(1, 16) == "1";
  }

  /** Address 1 as IPv6 is "0::1". */
  lemma {:induction false} V6TextOfOne(v: nat)
    requires v == 1
    ensures V6Text(v) == "0::1"
  {
    V6TextOfLow(v);
    RenderOne(v);
  }

  /** `bigInt2Ip(0n, true)` is "0::" and `bigInt2Ip(1n, true)` is "0::1". */
  lemma {:induction false} V6TextExamples()
    ensures Bigint2Ip(0, true) == Ok("0::")
    ensures Bigint2Ip(1, true) == Ok("0::1")
  {
    V6TextOfZero(0);
    V6TextOfOne(1);
  }
}
