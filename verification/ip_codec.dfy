/** The two address codecs of the converter: `ip2BigInt` (text to integer) and
    `bigInt2Ip` (integer to text), with the address grammar they rely on. */
module IpCodec {
  import opened Bits
  import opened Outcomes
  import opened Text
  import opened Numerals
  import opened Words

  // Address text. The source asks Node's `net.isIPv4` and `net.isIPv6`; these
  // predicates are the dotted-quad and colon-hex grammars without zone ids or
  // embedded IPv4 tails.

  /** A decimal octet: digits without a leading zero, at most 255. */
  predicate IsOctetText(f: string)
  {
    |f| >= 1 && AllDigits(f, 10) && (f[0] == '0' ==> |f| == 1) && Parse(f, 10) <= 255
  }

  /** Dotted-quad IPv4 text: four octets separated by dots. */
  predicate IsIPv4(t: string)
  {
    var f := Split(t, '.');
    |f| == 4 && forall k | 0 <= k < 4 :: IsOctetText(f[k])
  }

  /** One to four hex digits. */
  predicate IsHexGroup(f: string)
  {
    1 <= |f| <= 4 && AllDigits(f, 16)
  }

  predicate AllGroups(fs: seq<string>)
  {
    forall k | 0 <= k < |fs| :: IsHexGroup(fs[k])
  }

  /** The index of the first empty field, |f| if there is none. */
  function FirstEmpty(f: seq<string>): (l: nat)
    ensures l <= |f|
    ensures forall k | 0 <= k < l :: f[k] != ""
    ensures l < |f| ==> f[l] == ""
  {
    if |f| == 0 || f[0] == "" then 0 else 1 + FirstEmpty(f[1..])
  }

  // The shapes of IPv6 text, as the fields of `t.split(':')`; "::" stands for
  // one or more zero groups and shows as one or two empty fields.

  /** Eight groups, no "::". */
  predicate FullForm(f: seq<string>)
  {
    |f| == 8 && AllGroups(f)
  }

  /** Groups, "::", groups: `x::y`. */
  predicate InnerGap(f: seq<string>)
  {
    var l := FirstEmpty(f);
    3 <= |f| <= 8 && 1 <= l < |f| - 1 && AllGroups(f[..l]) && AllGroups(f[l + 1..])
  }

  /** Groups, then "::" at the end: `x::`. */
  predicate TrailingGap(f: seq<string>)
  {
    3 <= |f| <= 9 && f[|f| - 2] == "" && f[|f| - 1] == "" && AllGroups(f[..|f| - 2])
  }

  /** "::" at the start, then groups: `::y`. */
  predicate LeadingGap(f: seq<string>)
  {
    3 <= |f| <= 9 && f[0] == "" && f[1] == "" && AllGroups(f[2..])
  }

  /** "::" alone. */
  predicate AllGap(f: seq<string>)
  {
    f == ["", "", ""]
  }

  predicate IsIPv6Fields(f: seq<string>)
  {
    FullForm(f) || InnerGap(f) || TrailingGap(f) || LeadingGap(f) || AllGap(f)
  }

  /** Colon-hex IPv6 text. */
  predicate IsIPv6(t: string)
  {
    IsIPv6Fields(Split(t, ':'))
  }

  // Decoding, `ip2BigInt` (ip.js lines 37-59).

  /** `BigInt("0x0" + f)`. */
  function HexValue(f: string): nat
  {
    Parse("0" + f, 16)
  }

  /** `x << n` on BigInts; a negative n shifts right. */
  function ShiftLeft(x: nat, n: int): nat
  {
    if n >= 0 then Shl(x, n) else Shr(x, -n)
  }

  /** The IPv4 `reduce`: octet k is shifted left by 8 * (3 - k). */
  function SumOctets(f: seq<string>, k: nat, total: nat): nat
    decreases |f| - k
  {
    if k >= |f| then total
    else SumOctets(f, k + 1, total + ShiftLeft(Parse(f[k], 10), 8 * (3 - k)))
  }

  /** The IPv6 `reduce`: an empty field sets `afterDoubleColon`; a group before
      it is shifted by 16 * (7 - k), a group after it by 16 * (|f| - k - 1). */
  function SumGroups(f: seq<string>, k: nat, total: nat, after: bool): nat
    decreases |f| - k
  {
    if k >= |f| then total
    else if f[k] == "" then SumGroups(f, k + 1, total, true)
    else if after then SumGroups(f, k + 1, total + ShiftLeft(HexValue(f[k]), 16 * (|f| - k - 1)), true)
    else SumGroups(f, k + 1, total + ShiftLeft(HexValue(f[k]), 16 * (7 - k)), false)
  }

  /** `ip2BigInt`: IPv4 text is tried first, then IPv6; anything else throws `Invalid IP`. */
  function Ip2BigInt(t: string): (r: Result<nat>)
    ensures r.Err? <==> !IsIPv4(t) && !IsIPv6(t)
    ensures r.Err? ==> r.error == InvalidIp
  {
    if IsIPv4(t) then Ok(SumOctets(Split(t, '.'), 0, 0))
    else if IsIPv6(t) then Ok(SumGroups(Split(t, ':'), 0, 0, false))
    else Err(InvalidIp)
  }

  /** The octet values of IPv4 fields. */
  function OctetValues(f: seq<string>): (r: seq<nat>)
    ensures |r| == |f|
  {
    if |f| == 0 then [] else [Parse(f[0], 10)] + OctetValues(f[1..])
  }

  /** The group values of IPv6 fields. */
  function GroupValues(f: seq<string>): (r: seq<nat>)
    ensures |r| == |f|
  {
    if |f| == 0 then [] else [HexValue(f[0])] + GroupValues(f[1..])
  }

  /** The groups written before the first "::" (all of them if there is none). */
  function Head(f: seq<string>): seq<string>
  {
    f[..FirstEmpty(f)]
  }

  /** The groups written after "::". */
  function Tail(f: seq<string>): seq<string>
  {
    if InnerGap(f) then f[FirstEmpty(f) + 1..]
    else if LeadingGap(f) then f[2..]
    else []
  }

  /** The eight group values IPv6 fields denote, with "::" expanded to zero
      groups (section 2.2 of RFC 4291). */
  function Expand(f: seq<string>): (g: seq<nat>)
    requires IsIPv6Fields(f)
  {
    GroupValues(Head(f)) + Zeros(8 - |Head(f)| - |Tail(f)|) + GroupValues(Tail(f))
  }
}
