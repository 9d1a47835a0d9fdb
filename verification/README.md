# ip2info address helpers in Dafny

A model of `generater/nodejs/lib/ip.js`, the three helpers the ip2info
database generator uses to turn address ranges into CIDR blocks:

- `ip2BigInt` reads dotted-quad IPv4 text or colon-hex IPv6 text as a BigInt
  (module `IpCodec`, proved in `Decode`);
- `bigInt2Ip` writes a BigInt back as address text: IPv6 from `2n << 32n` up
  or when forced, with the first longest run of zero groups from group 1 on
  compressed to `::`; otherwise a dotted quad for positive values below
  2^33, while 0 and negative values throw (module `Encode`);
- `range2Cidr` splits an inclusive address range into CIDR texts. It scans the
  bits of the two ends from the lowest up, emits the block anchored at the
  start or at the end, and recurses on the rest through the address text
  (module `RangeToCidr`; its integer core is `Covering.Cover`).

Supporting modules:

- `Bits` holds JavaScript BigInt shifts and masks on naturals. The source's
  `x >> i & 1n` is `Bit`, `~x >> i & 1n` is `ComplementBit`, and
  `x >> n << n` is `ClearLow`.
- `Words` holds digit sequences and their values.
- `Numerals` holds `toString(base)` and the `BigInt` parse.
- `Text` holds `split` and `join`.
- `DecodeFolds` holds the two `reduce` folds of `ip2BigInt`.
- `RoundTrip` proves that decoding undoes encoding.

`range2Cidr` is modelled once, as `RangeToCidr.RangeWith`, over a record of
the three helpers it calls (`Codec`). `RangeToCidr.Range2Cidr` instantiates it
with the helpers of ip.js. `RangeToCidr.Range2CidrFixed` is the corrected
variant described under Findings. Each recursive call re-decodes the text
that `bigInt2Ip` wrote, as the source does.

A call ends in one of three outcomes:

- an array of CIDR texts;
- `undefined`, when the loop falls through;
- a thrown error. The model names the errors `InvalidIp` (line 56),
  `InvalidFormat` (line 87) and `MixedFamilies` (line 14), plus
  `NotIterable` for spreading an `undefined` recursive result.

Three consequences of ip.js worth stating directly:

- `bigInt2Ip(0n, true)` is `0::` and `bigInt2Ip(1n, true)` is `0::1`. The
  zero-run regex needs a colon before a run, so group 0 is never compressed
  (`Encode.Compress` uses runs from group 1; `RoundTrip.V6TextExamples`).
- `range2Cidr("10.0.0.1", "10.0.0.6")` gives
  `["10.0.0.1/32", "10.0.0.2/31", "10.0.0.4/31", "10.0.0.6/32"]`. Line 23
  takes `10.0.0.1/32` from the start and line 27 takes `10.0.0.6/32` from the
  end. The recursion on 10.0.0.2 - 10.0.0.5 then yields the two `/31` blocks
  (`Covering.CoverExample`). Every block lies inside the range
  (`Covering.CoverCorrect`).
- In the IPv4 branch of `bigInt2Ip` (lines 80-85),
  `ipParts.unshift(ip & 0xffn)` prepends the octet; the trailing
  `.toString()` of the returned length is discarded. The array of BigInts
  then joins as decimal octets (`Encode.V4Text`, `RoundTrip.V4RoundTrip`).

## Model

| member | source | states |
|---|---|---|
| IpCodec.Ip2BigInt | generater/nodejs/lib/ip.js:37-59 | fails exactly on text that is neither dotted-quad nor colon-hex, and then with `Invalid IP` |
| Decode.DecodeV4 | generater/nodejs/lib/ip.js:39-42 | dotted-quad text decodes to the big-endian value of its four octets, which is below 2^32 |
| Decode.SumOctetsAll | generater/nodejs/lib/ip.js:40-42 | the IPv4 `reduce` (octet k shifted by 8 * (3 - k)) is the positional value of the octets |
| Decode.DecodeV6 | generater/nodejs/lib/ip.js:43-54 | colon-hex text decodes to the value of its eight groups, with `::` expanded to the missing zero groups |
| Decode.SumGroupsAll | generater/nodejs/lib/ip.js:44-54 | the IPv6 `reduce` with its `afterDoubleColon` flag is the value of the expanded groups: groups before `::` shifted by 16 * (7 - index), groups after it by 16 * (length - index - 1) |
| Decode.ExpandValue | generater/nodejs/lib/ip.js:45-54 | for every IPv6 shape (full, `x::y`, `x::`, `::y`, `::`) the fold's contributions equal the expanded value |
| DecodeFolds.PlacedBefore | generater/nodejs/lib/ip.js:51-53 | groups before the first empty field land at the top of the 128 bits |
| DecodeFolds.PlacedAfter | generater/nodejs/lib/ip.js:46-50 | groups after `::` are right-aligned |
| Decode.ExpandShape | generater/nodejs/lib/ip.js:43-54 | `::` expands to exactly the missing groups: eight 16-bit groups in all |
| Decode.DecodeRange | generater/nodejs/lib/ip.js:37-59 | every decoded value is below 2^128, and IPv4 values are below 2^32 |
| Decode.FamiliesDisjoint | generater/nodejs/lib/ip.js:39-43 | no text is both IPv4 and IPv6, so the order of the two tests does not matter |
| Numerals.ParseRender | generater/nodejs/lib/ip.js:71 | `BigInt` parsing of `n.toString(base)` gives n back, in bases 10 and 16 |
| Numerals.RenderNoLeadingZero | generater/nodejs/lib/ip.js:71 | `toString` writes a leading `0` only for 0, which is then written `0` |
| Numerals.ParseLeadingZero | generater/nodejs/lib/ip.js:50-52 | the `0x0` prefix that `ip2BigInt` adds does not change a group's value |
| Words.ChunksValue | generater/nodejs/lib/ip.js:70-73 | the digits the `& mask` / `>>=` loop produces are the low bits * n bits of the value, negative values included |
| Words.ChunksOfVal | generater/nodejs/lib/ip.js:70-73 | splitting the value of fitting digits gives the same digits back |
| Encode.Bigint2Ip | generater/nodejs/lib/ip.js:67-89 | fails exactly when unforced and not above 0, and then with `Invalid IP format` |
| Encode.ZeroRuns | generater/nodejs/lib/ip.js:76 | the global match finds maximal runs of zero groups after a colon, left to right and disjoint |
| Encode.ZeroRunsEmpty | generater/nodejs/lib/ip.js:76 | the match finds nothing exactly when no group from group 1 on is zero |
| Encode.CompressDoubleColon | generater/nodejs/lib/ip.js:74-77 | for non-empty, colon-free groups (as `toString(16)` writes them), the compressed text contains `::` exactly when some group from group 1 on is zero; with none, `replace(undefined, '::')` leaves the colon-joined groups unchanged |
| Encode.ZeroRunsComplete | generater/nodejs/lib/ip.js:76 | every zero group from group 1 on lies in a found run |
| Encode.LongestIndex | generater/nodejs/lib/ip.js:76 | after the stable sort by decreasing length, `multZeros[0]` is the first of the longest matches |
| Encode.CompressChoice | generater/nodejs/lib/ip.js:76-77 | the run replaced by `::` is a zero run whose match is at least as long as any other's, and strictly longer than any before it |
| RoundTrip.CompressFields | generater/nodejs/lib/ip.js:74-77 | the compressed text of eight groups is colon-hex text that expands back to the groups |
| RoundTrip.V6TextExamples | generater/nodejs/lib/ip.js:67-78 | `bigInt2Ip(0n, true)` is `0::` and `bigInt2Ip(1n, true)` is `0::1`: group 0 is never compressed |
| RoundTrip.V6RoundTrip | generater/nodejs/lib/ip.js:69-78 | the IPv6 text of v is colon-hex text that decodes to v mod 2^128 |
| RoundTrip.V4RoundTrip | generater/nodejs/lib/ip.js:80-85 | the dotted quad of v is IPv4 text that decodes to v mod 2^32 |
| RoundTrip.EncodeV6 | generater/nodejs/lib/ip.js:68-78 | forced, or from 2^33 up, an address is written as IPv6 text that decodes back to it |
| RoundTrip.EncodeV4 | generater/nodejs/lib/ip.js:79-85 | unforced, an address in (0, 2^32) is written as a dotted quad that decodes back to it |
| RoundTrip.EncodeWraps | generater/nodejs/lib/ip.js:68 | unforced, a value in [2^32, 2^33) is written as the dotted quad of its low 32 bits |
| RoundTrip.EncodeDecode | generater/nodejs/lib/ip.js:67-89 | whenever the writer succeeds, its text decodes back to the value exactly when forced, below 2^32, or from 2^33 up |
| RoundTrip.ThresholdWraps | generater/nodejs/lib/ip.js:68 | unforced, 2^32 is written as text that decodes to 0 |
| RoundTrip.ZeroUnrenderable | generater/nodejs/lib/ip.js:79-88 | unforced, 0 throws `Invalid IP format`; the corrected writer gives `0.0.0.0` |
| RoundTrip.FixedEncodeDecode | generater/nodejs/lib/ip.js:61-66 | the writer as its doc comment describes it round-trips every 128-bit value, and writes IPv4 exactly for unforced values below 2^32 |
| Bits.BitIsShiftMask | generater/nodejs/lib/ip.js:20 | `startIp >> i & 1n` is bit i of the start |
| Bits.ComplementBitIsShiftMask | generater/nodejs/lib/ip.js:24 | `~endIp >> i & 1n`, with floor shifts of negative BigInts, is bit i of `-endIp - 1` |
| Bits.ComplementBitFlips | generater/nodejs/lib/ip.js:24 | that bit is 1 exactly when bit i of the end is 0 |
| Bits.ClearLowIsShift | generater/nodejs/lib/ip.js:25 | `endIp >> (i + 1n) << (i + 1n)` clears the low i + 1 bits |
| Covering.Cover | generater/nodejs/lib/ip.js:16-29 | the scan on decoded ends falls through to `undefined` exactly on the whole address space |
| Covering.CoverCorrect | generater/nodejs/lib/ip.js:16-29 | otherwise the blocks are aligned, ascending and disjoint inside [start, end], and cover all of it except the end of an odd start followed by its successor |
| Covering.CoverAgainstExact | generater/nodejs/lib/ip.js:19-27 | the scan as written is the corrected scan except on the whole space (undefined) and on an odd start followed by its successor (start alone) |
| Covering.CoverExactCorrect | generater/nodejs/lib/ip.js:16-29 | the corrected scan gives an exact CIDR cover: aligned, ascending, disjoint, holding exactly [start, end] |
| Covering.OddPairExact | generater/nodejs/lib/ip.js:22-23 | on an odd start followed by its successor the corrected scan emits both host blocks |
| Covering.WholeSpaceExact | generater/nodejs/lib/ip.js:19 | on the whole space the corrected scan emits the single block of prefix 0 |
| Covering.CoverExactMinimal | generater/nodejs/lib/ip.js:19-27 | no two neighbouring blocks of the corrected scan are the two halves of one aligned block, so none could be merged: start-anchored blocks are upper halves, end-anchored blocks lower halves |
| Covering.CoverExample | generater/nodejs/lib/ip.js:19-27 | 10.0.0.1 - 10.0.0.6 gives 10.0.0.1/32, 10.0.0.2/31, 10.0.0.4/31, 10.0.0.6/32 |
| RangeToCidr.HelpersSound | generater/nodejs/lib/ip.js:10-27 | the helpers range2Cidr calls decode into the family's address space and re-read what they write (IPv4 above 0) as the same address of the same family |
| RangeToCidr.Reencode | generater/nodejs/lib/ip.js:21-27 | each text the recursion passes on decodes to the new start or end, in the same family |
| RangeToCidr.RangeWith | generater/nodejs/lib/ip.js:9-30 | on an ascending range, recursing through written text gives the integer scan's blocks written as CIDR texts |
| RangeToCidr.Scan | generater/nodejs/lib/ip.js:19-29 | the `for` loop from bit i is the integer scan from bit i |
| RangeToCidr.StartStep | generater/nodejs/lib/ip.js:20-23 | the start-anchored branch is the integer scan's start step |
| RangeToCidr.EndStep | generater/nodejs/lib/ip.js:24-27 | the end-anchored branch is the integer scan's end step, and throws when the block's base cannot be written |
| RangeToCidr.CidrsOfThrows | generater/nodejs/lib/ip.js:21-27 | writing the blocks throws exactly when some base cannot be written, with that base's error |
| RangeToCidr.CidrsOfList | generater/nodejs/lib/ip.js:21-27 | when every base can be written, the list holds, in order, each base's text with its prefix |
| RangeToCidr.Range2CidrGuards | generater/nodejs/lib/ip.js:10-17 | invalid text throws `Invalid IP` (start first), mixed families throw, equal ends give `start/long` with the text as given, and a descending range gives `[]` |
| RangeToCidr.Range2CidrCover | generater/nodejs/lib/ip.js:9-30 | on an ascending range: `undefined` exactly on the whole space; a throw (`Invalid IP format`) exactly on other IPv4 ranges from 0.0.0.0; otherwise the CIDR texts of aligned, ascending, disjoint blocks inside the range, covering all of it except the end of an odd pair, each base written as text that reads back as the base |
| RangeToCidr.OddPairDropsEnd | generater/nodejs/lib/ip.js:22-23 | an odd start followed by its successor gives the start's host block alone |
| RangeToCidr.WholeSpaceFalls | generater/nodejs/lib/ip.js:19-30 | the whole address space gives `undefined`; the corrected function gives the single block of prefix 0 |
| RangeToCidr.Range2CidrFixedCorrect | generater/nodejs/lib/ip.js:9-30 | the corrected function gives, for every ascending range, CIDR texts of an exact cover of the range |
| RangeToCidr.Range2CidrFixedAgrees | generater/nodejs/lib/ip.js:9-30 | away from the three faults the corrected and the original functions give the same result |

## Left out

- IpCodec.IsIPv6: models Node's `net.isIPv6` as the colon-hex grammar of
  section 2.2 of RFC 4291 without zone ids (`fe80::1%eth0`) and without an
  embedded IPv4 tail (`::ffff:1.2.3.4`). Both are treated as invalid text,
  while the source would pass them on to `BigInt` and throw a `SyntaxError`.
- IpCodec.IsIPv4: models `net.isIPv4` as four decimal octets without leading
  zeros. Node's implementation is not part of this model.
- Error messages are not modelled. Each throw is reduced to an `Error`
  constructor.
- The regular expression at line 76 is modelled on the digit groups (runs of
  zero groups preceded by a colon), not as a general regex engine. The sort is
  modelled as a stable sort, so ties keep match order. `replace` with a string
  replaces that run.
- The `exports` assignment (lines 91-95) is not modelled. It only names the
  three functions.
- `generater/nodejs/update.js`, the caller that downloads and writes the
  database, is not part of this model.
- RangeToCidr.Range2Cidr: the function carries no contract of its own. What it
  returns is stated by Range2CidrGuards, Range2CidrCover, OddPairDropsEnd and
  WholeSpaceFalls.
- Covering.CoverExactMinimal: proves that no two neighbouring blocks of the
  corrected cover can be merged into one. It does not prove that no cover
  with fewer blocks exists. The as-written `Cover` gets no lemma of its own;
  it differs from the corrected cover only as `Covering.CoverAgainstExact`
  states.
- Recursion depth and BigInt size limits of the JavaScript engine are not
  modelled. Integers are unbounded, and every shift and mask is written out.

## Findings

| source | as written | input that shows it | evidently intended | confidence | as-written member | corrected member |
|---|---|---|---|---|---|---|
| generater/nodejs/lib/ip.js:23 | `newStartIp >= endIp ? [cidr]` stops when the next start equals the end, so that end address is never emitted | `range2Cidr("10.0.0.1", "10.0.0.2")` gives `["10.0.0.1/32"]`, missing 10.0.0.2 | stop only when `newStartIp > endIp`; otherwise recurse, and the equal-ends case emits the end | not executed | RangeToCidr.OddPairDropsEnd | RangeToCidr.Range2CidrFixedCorrect |
| generater/nodejs/lib/ip.js:19 | the loop `j > 0n` never reaches prefix 0, so the whole address space falls through and returns `undefined` | `range2Cidr("0.0.0.0", "255.255.255.255")` and `range2Cidr("::", "ffff:ffff:ffff:ffff:ffff:ffff:ffff:ffff")` | run down to `j >= 0n` and emit `0.0.0.0/0` or `::/0` | not executed | RangeToCidr.WholeSpaceFalls | RangeToCidr.Range2CidrFixedCorrect |
| generater/nodejs/lib/ip.js:79 | `ip > 0n` throws on address 0, so every ascending IPv4 range from 0.0.0.0 other than the single address and the whole space throws `Invalid IP format` | `bigInt2Ip(0n)`; `range2Cidr("0.0.0.0", "0.0.0.3")` | `ip >= 0n` | not executed | RoundTrip.ZeroUnrenderable | RoundTrip.FixedEncodeDecode |
| generater/nodejs/lib/ip.js:68 | `2n << 32n` is 2^33, not the 2^32 the doc comment at line 64 promises, so values in [2^32, 2^33) are written as the IPv4 text of their low 32 bits | `bigInt2Ip(4294967296n)` gives `0.0.0.0`, which decodes to 0 | `ip >= 1n << 32n` | not executed | RoundTrip.ThresholdWraps | RoundTrip.FixedEncodeDecode |
