/** `range2Cidr` (ip.js lines 9-30) on address text: decode both ends, scan
    the bits from the lowest up, emit one block from the start or from the
    end, and recurse on the text of the shrunken range. */
module RangeToCidr {
  import opened Bits
  import opened Outcomes
  import opened Numerals
  import opened IpCodec
  import opened Decode
  import opened Encode
  import opened RoundTrip
  import opened Covering

  /** What a call of range2Cidr ends in: an array of CIDR texts, the
      `undefined` the scan falls through to, or a thrown error. */
  datatype Outcome = Cidrs(list: seq<string>) | Undefined | Thrown(error: Error)

  /** `long`: the address width of the family. */
  function Width(v6: bool): nat
  {
    if v6 then 128 else 32
  }

  /** `${address}/${prefix}`. */
  function CidrText(address: string, prefix: nat): string
  {
    address + "/" + Render(prefix, 10)
  }

  /** `[cidr, ...rest]`: spreading `undefined` throws a TypeError. */
  function Prepend(cidr: string, rest: Outcome): (r: Outcome)
    ensures r.Cidrs? <==> rest.Cidrs?
    ensures r.Cidrs? ==> r.list == [cidr] + rest.list
  {
    match rest
    case Cidrs(l) => Cidrs([cidr] + l)
    case Undefined => Thrown(NotIterable)
    case Thrown(x) => Thrown(x)
  }

  /** `[...rest, cidr]`. */
  function Append(rest: Outcome, cidr: string): (r: Outcome)
    ensures r.Cidrs? <==> rest.Cidrs?
    ensures r.Cidrs? ==> r.list == rest.list + [cidr]
  {
    match rest
    case Cidrs(l) => Cidrs(l + [cidr])
    case Undefined => Thrown(NotIterable)
    case Thrown(x) => Thrown(x)
  }

  /** The three helpers range2Cidr calls: `ip2BigInt`, `isIPv6` and `bigInt2Ip`. */
  datatype Codec = Codec(decode: string -> Result<nat>, isV6: string -> bool, encode: (int, bool) -> Result<string>)

  /** The helpers of ip.js. */
  const Helpers: Codec := Codec(Ip2BigInt, IsIPv6, Bigint2Ip)

  /** The helpers with bigInt2Ip as its doc comment describes it. */
  const FixedHelpers: Codec := Codec(Ip2BigInt, IsIPv6, Bigint2IpFixed)

  /** What range2Cidr relies on in its helpers: decoded text lies in the
      address space of its family, and an address of a family (above 0 for
      IPv4) is written as text of that family which decodes back to it. */
  ghost predicate Sound(c: Codec)
  {
    && (forall t :: c.decode(t).Ok? ==> c.decode(t).value < Pow2(Width(c.isV6(t))))
    && (forall x: nat, v6: bool | x < Pow2(Width(v6)) && (v6 || x > 0) ::
          && c.encode(x, v6).Ok?
          && c.decode(c.encode(x, v6).value) == Ok(x)
          && c.isV6(c.encode(x, v6).value) == v6)
  }

  /** Decoded address text lies inside its family's address space. */
  lemma {:induction false} FamilyRange(t: string)
    requires Ip2BigInt(t).Ok?
    ensures Ip2BigInt(t).value < Pow2(Width(IsIPv6(t)))
  {
    DecodeRange(t);
  }

  /** An address of the family (above 0 for IPv4) is written as text of the
      same family that decodes back to it. */
  lemma {:induction false} Reencode(x: int, v6: bool)
    requires 0 <= x < Pow2(Width(v6)) && (v6 || x > 0)
    ensures Bigint2Ip(x, v6).Ok?
    ensures Ip2BigInt(Bigint2Ip(x, v6).value) == Ok(x)
    ensures IsIPv6(Bigint2Ip(x, v6).value) == v6
  {
    if v6 {
      EncodeV6(x, true);
      V6RoundTrip(x);
    } else {
      EncodeV4(x);
      V4RoundTrip(x);
      FamiliesDisjoint(V4Text(x));
    }
  }

  /** The helpers of ip.js are what range2Cidr relies on. */
  lemma {:induction false} HelpersSound()
    ensures Sound(Helpers)
  {
    forall t | Ip2BigInt(t).Ok?
      ensures Ip2BigInt(t).value < Pow2(Width(IsIPv6(t)))
    {
      FamilyRange(t);
    }
    forall x: nat, v6: bool | x < Pow2(Width(v6)) && (v6 || x > 0)
      ensures Bigint2Ip(x, v6).Ok? && Ip2BigInt(Bigint2Ip(x, v6).value) == Ok(x)
      ensures IsIPv6(Bigint2Ip(x, v6).value) == v6
    {
      Reencode(x, v6);
    }
  }

  /** The corrected writer, 0 included, round-trips in both families. */
  lemma {:induction false} FixedReencode(x: nat, v6: bool)
    requires x < Pow2(Width(v6))
    ensures Bigint2IpFixed(x, v6).Ok?
    ensures Ip2BigInt(Bigint2IpFixed(x, v6).value) == Ok(x)
    ensures IsIPv6(Bigint2IpFixed(x, v6).value) == v6
  {
    Pow2Monotone(Width(v6), 128);
    FixedEncodeDecode(x, v6);
    var t := Bigint2IpFixed(x, v6).value;
    FamiliesDisjoint(t);
  }

  lemma {:induction false} FixedHelpersSound()
    ensures Sound(FixedHelpers)
  {
    forall t | Ip2BigInt(t).Ok?
      ensures Ip2BigInt(t).value < Pow2(Width(IsIPv6(t)))
    {
      FamilyRange(t);
    }
    forall x: nat, v6: bool | x < Pow2(Width(v6)) && (v6 || x > 0)
      ensures Bigint2IpFixed(x, v6).Ok? && Ip2BigInt(Bigint2IpFixed(x, v6).value) == Ok(x)
      ensures IsIPv6(Bigint2IpFixed(x, v6).value) == v6
    {
      FixedReencode(x, v6);
    }
  }

  /** A value with a 1 bit is positive. */
  lemma {:induction false} BitPositive(x: nat, i: nat)
    requires Bit(x, i) == 1
    ensures x > 0
  {
    if x == 0 {
      HighBitZero(0, i);
    }
  }

  // Writing the blocks of a cover.

  /** The CIDR texts of blocks, each base written by the codec: the first
      base it cannot write throws. */
  function CidrsOf(c: Codec, bs: seq<Block>, v6: bool): (r: Outcome)
    ensures !r.Undefined?
  {
    if |bs| == 0 then Cidrs([])
    else
      match c.encode(bs[0].base, v6)
      case Err(x) => Thrown(x)
      case Ok(t) => Prepend(CidrText(t, bs[0].prefix), CidrsOf(c, bs[1..], v6))
  }

  /** Every block written: the list holds, in order, the text of each base with its prefix. */
  lemma {:induction false} CidrsOfList(c: Codec, bs: seq<Block>, v6: bool)
    requires forall k | 0 <= k < |bs| :: c.encode(bs[k].base, v6).Ok?
    ensures CidrsOf(c, bs, v6).Cidrs?
    ensures |CidrsOf(c, bs, v6).list| == |bs|
    ensures forall k | 0 <= k < |bs| ::
      CidrsOf(c, bs, v6).list[k] == CidrText(c.encode(bs[k].base, v6).value, bs[k].prefix)
  {
    if |bs| > 0 {
      assert forall k | 0 <= k < |bs[1..]| :: bs[1..][k] == bs[k + 1];
      CidrsOfList(c, bs[1..], v6);
    }
  }

  /** The list throws exactly when some base cannot be written, with that base's error. */
  lemma {:induction false} CidrsOfThrows(c: Codec, bs: seq<Block>, v6: bool)
    ensures CidrsOf(c, bs, v6).Thrown? <==> exists k | 0 <= k < |bs| :: c.encode(bs[k].base, v6).Err?
    ensures CidrsOf(c, bs, v6).Thrown? ==>
      exists k | 0 <= k < |bs| :: c.encode(bs[k].base, v6) == Err(CidrsOf(c, bs, v6).error)
  {
    if |bs| > 0 {
      CidrsOfThrows(c, bs[1..], v6);
      assert forall k | 0 <= k < |bs[1..]| :: bs[1..][k] == bs[k + 1];
      if c.encode(bs[0].base, v6).Ok? && CidrsOf(c, bs, v6).Thrown? {
        var k :| 0 <= k < |bs[1..]| && c.encode(bs[1..][k].base, v6) == Err(CidrsOf(c, bs, v6).error);
        assert c.encode(bs[k + 1].base, v6) == Err(CidrsOf(c, bs, v6).error);
      }
    }
  }

  /** A block added at the end is written after the others, or throws. */
  lemma {:induction false} CidrsOfSnoc(c: Codec, bs: seq<Block>, b: Block, v6: bool)
    ensures c.encode(b.base, v6).Err? && CidrsOf(c, bs, v6).Cidrs? ==>
      CidrsOf(c, bs + [b], v6) == Thrown(c.encode(b.base, v6).error)
    ensures c.encode(b.base, v6).Ok? ==>
      CidrsOf(c, bs + [b], v6) == Append(CidrsOf(c, bs, v6), CidrText(c.encode(b.base, v6).value, b.prefix))
  {
    if |bs| == 0 {
      assert bs + [b] == [b] && [b][1..] == [];
    } else {
      CidrsOfSnoc(c, bs[1..], b, v6);
      assert (bs + [b])[0] == bs[0] && (bs + [b])[1..] == bs[1..] + [b];
    }
  }

  /** A block added at the front is written before the others. */
  lemma {:induction false} CidrsOfCons(c: Codec, b: Block, bs: seq<Block>, v6: bool)
    requires c.encode(b.base, v6).Ok?
    ensures CidrsOf(c, [b] + bs, v6) == Prepend(CidrText(c.encode(b.base, v6).value, b.prefix), CidrsOf(c, bs, v6))
  {
    assert ([b] + bs)[0] == b && ([b] + bs)[1..] == bs;
  }

  /** What the text-level call returns for the integer-level result: the
      fall-through stays `undefined`, blocks become their CIDR texts. */
  function Lift(c: Codec, cover: Option<seq<Block>>, v6: bool): Outcome
  {
    match cover
    case None => Undefined
    case Some(bs) => CidrsOf(c, bs, v6)
  }

  // The scan on text.

  /** Valid text of one family with the start below the end. */
  predicate Ascends(c: Codec, st: string, et: string)
  {
    && c.decode(st).Ok? && c.decode(et).Ok? && c.isV6(st) == c.isV6(et)
    && c.decode(st).value < c.decode(et).value
  }

  /** The distance between the decoded ends of a range, which every recursive call shrinks. */
  function Gap(c: Codec, st: string, et: string): nat
  {
    if Ascends(c, st, et) then c.decode(et).value - c.decode(st).value else 0
  }

  /** range2Cidr with its helpers given. Both ends are decoded first, so
      invalid text throws before the family check; equal ends give the start
      text itself with the full prefix. On an ascending range the result is
      the integer cover of the decoded ends, written as CIDR text. */
  function RangeWith(c: Codec, st: string, et: string): (r: Outcome)
    requires Sound(c)
    ensures Ascends(c, st, et) ==> c.decode(et).value < Pow2(Width(c.isV6(st)))
    ensures Ascends(c, st, et) ==>
      r == Lift(c, Cover(Width(c.isV6(st)), c.decode(st).value, c.decode(et).value), c.isV6(st))
    decreases Gap(c, st, et), 2, 0
  {
    var s, e := c.decode(st), c.decode(et);
    if s.Err? then Thrown(s.error)
    else if e.Err? then Thrown(e.error)
    else
      var v6 := c.isV6(st);
      if v6 != c.isV6(et) then Thrown(MixedFamilies)
      else if s.value == e.value then Cidrs([CidrText(st, Width(v6))])
      else if s.value > e.value then Cidrs([])
      else Scan(c, st, et, s.value, e.value, v6, 0)
  }

  /** The scan state at bit i: st and et decode to s < e of one family, the
      low i bits of s are 0 and those of e are 1. (Bound to one name, so a
      caller establishes it as a single fact.) */
  predicate ScanState(c: Codec, st: string, et: string, s: nat, e: nat, v6: bool, i: nat)
  {
    var state :=
      && c.decode(st) == Ok(s) && c.decode(et) == Ok(e)
      && c.isV6(st) == v6 && c.isV6(et) == v6
      && Scanning(Width(v6), s, e, i);
    state
  }

  /** The `for` loop from bit i (j = w - i); past the last bit it falls
      through and the call returns `undefined`. */
  function Scan(c: Codec, st: string, et: string, s: nat, e: nat, v6: bool, i: nat): (r: Outcome)
    requires Sound(c) && ScanState(c, st, et, s, e, v6, i)
    ensures r == Lift(c, CoverFrom(Width(v6), s, e, i), v6)
    decreases Gap(c, st, et), 1, Width(v6) - i
  {
    if i == Width(v6) then Undefined
    else if Bit(s, i) == 1 then StartStep(c, st, et, s, e, v6, i)
    else if ComplementBit(e, i) == 1 then EndStep(c, st, et, s, e, v6, i)
    else
      LowZerosStep(s, i);
      ComplementBitFlips(e, i);
      LowOnesStep(e, i);
      Scan(c, st, et, s, e, v6, i + 1)
  }

  /** Bit i of the start is 1 (lines 20-23): the block of 2^i addresses at
      the start, then the range from `start + 2^i` unless that reaches the end. */
  function StartStep(c: Codec, st: string, et: string, s: nat, e: nat, v6: bool, i: nat): (r: Outcome)
    requires Sound(c) && ScanState(c, st, et, s, e, v6, i) && i < Width(v6) && Bit(s, i) == 1
    ensures r == Lift(c, CoverFrom(Width(v6), s, e, i), v6)
    decreases Gap(c, st, et), 0, 0
  {
    BitPositive(s, i);
    var b := Block(s, Width(v6) - i);
    var cidr := CidrText(c.encode(s, v6).value, Width(v6) - i);
    var ns := s + Pow2(i);
    CoverFromStart(Width(v6), s, e, i, ns);
    if ns >= e then
      CidrsOfCons(c, b, [], v6);
      assert [b] + [] == [b] && [cidr] + [] == [cidr];
      Cidrs([cidr])
    else
      CidrsOfCons(c, b, Cover(Width(v6), ns, e).value, v6);
      Prepend(cidr, RangeWith(c, c.encode(ns, v6).value, et))
  }

  /** Bit i of the end is 0 (lines 24-27): the block of 2^i addresses ending
      at the end, after the range up to `end - 2^i` unless that reaches the
      start. Writing the block's base throws when the codec cannot write it. */
  function EndStep(c: Codec, st: string, et: string, s: nat, e: nat, v6: bool, i: nat): (r: Outcome)
    requires Sound(c) && ScanState(c, st, et, s, e, v6, i) && i < Width(v6)
    requires Bit(s, i) != 1 && ComplementBit(e, i) == 1
    ensures r == Lift(c, CoverFrom(Width(v6), s, e, i), v6)
    decreases Gap(c, st, et), 0, 0
  {
    var b := Block(ClearLow(e, i + 1), Width(v6) - i);
    var ne := e - Pow2(i);
    CoverFromEnd(Width(v6), s, e, i, ne);
    ComplementBitFlips(e, i);
    LowZerosStep(s, i);
    EndBlock(Width(v6), s, e, i);
    match c.encode(b.base, v6)
    case Err(x) =>
      assert [b][1..] == [];
      Thrown(x)
    case Ok(base) =>
      var cidr := CidrText(base, Width(v6) - i);
      if ne <= s then
        CidrsOfCons(c, b, [], v6);
        assert [b] + [] == [b] && [cidr] + [] == [cidr];
        Cidrs([cidr])
      else
        CidrsOfSnoc(c, Cover(Width(v6), s, ne).value, b, v6);
        Append(RangeWith(c, st, c.encode(ne, v6).value), cidr)
  }

  /** CoverFrom's start-anchored step, with the new start named. */
  lemma {:induction false} CoverFromStart(w: nat, s: nat, e: nat, i: nat, ns: nat)
    requires Scanning(w, s, e, i) && i < w && Bit(s, i) == 1 && ns == s + Pow2(i)
    ensures ns >= e ==> CoverFrom(w, s, e, i) == Some([Block(s, w - i)])
    ensures ns < e ==> CoverFrom(w, s, e, i) == Some([Block(s, w - i)] + Cover(w, ns, e).value)
  {
  }

  /** CoverFrom's end-anchored step, with the new end named. */
  lemma {:induction false} CoverFromEnd(w: nat, s: nat, e: nat, i: nat, ne: int)
    requires Scanning(w, s, e, i) && i < w && Bit(s, i) != 1 && ComplementBit(e, i) == 1 && ne == e - Pow2(i)
    ensures ne <= s ==> CoverFrom(w, s, e, i) == Some([Block(ClearLow(e, i + 1), w - i)])
    ensures ne > s ==> CoverFrom(w, s, e, i) == Some(Cover(w, s, ne).value + [Block(ClearLow(e, i + 1), w - i)])
  {
  }

  // range2Cidr itself.

  /** `range2Cidr(startIpStr, endIpStr)`. */
  function Range2Cidr(st: string, et: string): Outcome
  {
    HelpersSound();
    RangeWith(Helpers, st, et)
  }

  /** list holds, in order, one CIDR text per block of bs, written by the
      codec; each address part decodes back to its block's base. */
  ghost predicate Writes(c: Codec, list: seq<string>, bs: seq<Block>, v6: bool)
  {
    && |list| == |bs|
    && forall k | 0 <= k < |bs| ::
      && c.encode(bs[k].base, v6).Ok?
      && c.decode(c.encode(bs[k].base, v6).value) == Ok(bs[k].base)
      && list[k] == CidrText(c.encode(bs[k].base, v6).value, bs[k].prefix)
  }

  /** The checks before the scan: invalid text throws `Invalid IP`, the
      start checked first; ends of different families throw; equal ends give
      the start text itself with the full prefix; a start above the end gives
      no blocks. */
  lemma {:induction false} Range2CidrGuards(st: string, et: string)
    ensures Ip2BigInt(st).Err? ==> Range2Cidr(st, et) == Thrown(InvalidIp)
    ensures Ip2BigInt(st).Ok? && Ip2BigInt(et).Err? ==> Range2Cidr(st, et) == Thrown(InvalidIp)
    ensures Ip2BigInt(st).Ok? && Ip2BigInt(et).Ok? && IsIPv6(st) != IsIPv6(et) ==>
      Range2Cidr(st, et) == Thrown(MixedFamilies)
    ensures Ip2BigInt(st).Ok? && Ip2BigInt(et).Ok? && IsIPv6(st) == IsIPv6(et) ==>
      && (Ip2BigInt(st).value == Ip2BigInt(et).value ==>
            Range2Cidr(st, et) == Cidrs([CidrText(st, Width(IsIPv6(st)))]))
      && (Ip2BigInt(st).value > Ip2BigInt(et).value ==> Range2Cidr(st, et) == Cidrs([]))
  {
    HelpersSound();
  }

  /** The writer fails exactly on IPv4 address 0, with `Invalid IP format`. */
  ghost predicate RejectsZero(c: Codec)
  {
    forall x: nat, v6: bool ::
      && (c.encode(x, v6).Err? <==> !v6 && x == 0)
      && (c.encode(x, v6).Err? ==> c.encode(x, v6).error == InvalidFormat)
  }

  lemma {:induction false} HelpersRejectZero()
    ensures RejectsZero(Helpers)
  {
  }

  /** Range2CidrCover for any sound codec whose writer rejects only IPv4 address 0. */
  lemma {:induction false} CoverOutcome(c: Codec, st: string, et: string)
    requires Sound(c) && RejectsZero(c) && Ascends(c, st, et)
    ensures var v6, s, e := c.isV6(st), c.decode(st).value, c.decode(et).value;
      var w, r := Width(v6), RangeWith(c, st, et);
      && (r.Undefined? <==> WholeSpace(w, s, e))
      && (r.Thrown? <==> !v6 && s == 0 && !WholeSpace(w, s, e))
      && (r.Thrown? ==> r.error == InvalidFormat)
      && (r.Cidrs? ==> exists bs ::
            && Within(bs, w, s, e) && Ascending(bs, w)
            && (forall x: nat :: Covers(bs, w, x) <==> s <= x <= e && !(OddPair(s, e) && x == e))
            && Writes(c, r.list, bs, v6))
  {
    var v6, s, e := c.isV6(st), c.decode(st).value, c.decode(et).value;
    var w := Width(v6);
    assert e < Pow2(w) && RangeWith(c, st, et) == Lift(c, Cover(w, s, e), v6);
    CoverCorrect(w, s, e);
    if !WholeSpace(w, s, e) {
      if !v6 && s == 0 {
        CoverZero(c, w, s, e, Cover(w, s, e).value, v6);
      } else {
        CoverWrites(c, w, s, e, Cover(w, s, e).value, v6);
      }
    }
  }

  /** A cover of an IPv4 range from 0 holds a block based at 0, which the
      writer refuses. */
  lemma {:induction false} CoverZero(c: Codec, w: nat, s: nat, e: nat, bs: seq<Block>, v6: bool)
    requires RejectsZero(c) && !v6 && s == 0
    requires Within(bs, w, s, e) && (forall x: nat :: Covers(bs, w, x) <==> s <= x <= e && !(OddPair(s, e) && x == e))
    ensures CidrsOf(c, bs, v6).Thrown? && CidrsOf(c, bs, v6).error == InvalidFormat
  {
    CidrsOfThrows(c, bs, v6);
    assert Covers(bs, w, 0);
    var k :| 0 <= k < |bs| && InBlock(bs[k], w, 0);
    assert c.encode(bs[k].base, v6).Err?;
  }

  /** Every block of a cover of [s, e] away from the IPv4 zero is written and
      read back. */
  lemma {:induction false} CoverWrites(c: Codec, w: nat, s: nat, e: nat, bs: seq<Block>, v6: bool)
    requires Sound(c) && w == Width(v6) && e < Pow2(w) && (v6 || s > 0) && s <= e
    requires Within(bs, w, s, e)
    ensures CidrsOf(c, bs, v6).Cidrs? && Writes(c, CidrsOf(c, bs, v6).list, bs, v6)
  {
    forall k | 0 <= k < |bs|
      ensures c.encode(bs[k].base, v6).Ok?
      ensures c.decode(c.encode(bs[k].base, v6).value) == Ok(bs[k].base)
    {
      BlockBelow(bs, w, s, e, k);
    }
    CidrsOfList(c, bs, v6);
  }

  /** Which ascending ranges give what: `undefined` exactly on the whole
      address space, a throw (`Invalid IP format`) exactly on an IPv4 range
      from 0.0.0.0 that is not the whole space, since a block based at 0
      cannot be written; otherwise the CIDR texts of ascending, disjoint,
      aligned blocks inside the range that cover all of it except the end of
      an odd start followed by its successor. */
  lemma {:induction false} Range2CidrCover(st: string, et: string)
    requires Ascends(Helpers, st, et)
    ensures var v6, s, e := IsIPv6(st), Ip2BigInt(st).value, Ip2BigInt(et).value;
      var w, r := Width(v6), Range2Cidr(st, et);
      && (r.Undefined? <==> WholeSpace(w, s, e))
      && (r.Thrown? <==> !v6 && s == 0 && !WholeSpace(w, s, e))
      && (r.Thrown? ==> r.error == InvalidFormat)
      && (r.Cidrs? ==> exists bs ::
            && Within(bs, w, s, e) && Ascending(bs, w)
            && (forall x: nat :: Covers(bs, w, x) <==> s <= x <= e && !(OddPair(s, e) && x == e))
            && Writes(Helpers, r.list, bs, v6))
  {
    HelpersSound();
    HelpersRejectZero();
    CoverOutcome(Helpers, st, et);
  }

  /** A block of a cover inside [s, e] has its base in [s, e]. */
  lemma {:induction false} BlockBelow(bs: seq<Block>, w: nat, s: nat, e: nat, k: nat)
    requires Within(bs, w, s, e) && k < |bs|
    ensures s <= bs[k].base <= e
  {
  }

  /** OddPairDropsEnd for any sound codec. */
  lemma {:induction false} OddPairOutcome(c: Codec, st: string, et: string)
    requires Sound(c) && Ascends(c, st, et) && OddPair(c.decode(st).value, c.decode(et).value)
    ensures var v6, s := c.isV6(st), c.decode(st).value;
      c.encode(s, v6).Ok? && RangeWith(c, st, et) == Cidrs([CidrText(c.encode(s, v6).value, Width(v6))])
  {
    var v6, s, e := c.isV6(st), c.decode(st).value, c.decode(et).value;
    var w := Width(v6);
    CoverAgainstExact(w, s, e);
    var b := Block(s, w);
    var cidr := CidrText(c.encode(s, v6).value, w);
    CidrsOfCons(c, b, [], v6);
    assert [b] + [] == [b] && [cidr] + [] == [cidr];
  }

  /** An odd start followed by its successor yields the start alone: the
      end address is missing from the result (line 23 tests `>=`). */
  lemma {:induction false} OddPairDropsEnd(st: string, et: string)
    requires Ascends(Helpers, st, et) && OddPair(Ip2BigInt(st).value, Ip2BigInt(et).value)
    ensures var v6, s := IsIPv6(st), Ip2BigInt(st).value;
      Range2Cidr(st, et) == Cidrs([CidrText(Bigint2Ip(s, v6).value, Width(v6))])
  {
    HelpersSound();
    OddPairOutcome(Helpers, st, et);
  }

  // The corrected range2Cidr.

  /** range2Cidr with the stop test of line 23 made strict, the loop of line
      19 run down to prefix 0, and the writer of bigInt2Ip's doc comment, so
      that 0.0.0.0 can be written. The checks before the scan are unchanged. */
  function Range2CidrFixed(st: string, et: string): (r: Outcome)
    ensures !r.Undefined?
  {
    var s, e := Ip2BigInt(st), Ip2BigInt(et);
    if s.Err? then Thrown(s.error)
    else if e.Err? then Thrown(e.error)
    else
      var v6 := IsIPv6(st);
      if v6 != IsIPv6(et) then Thrown(MixedFamilies)
      else if s.value == e.value then Cidrs([CidrText(st, Width(v6))])
      else if s.value > e.value then Cidrs([])
      else
        FamilyRange(st);
        FamilyRange(et);
        CidrsOf(FixedHelpers, CoverExact(Width(v6), s.value, e.value), v6)
  }

  /** Every ascending range of one family gives the CIDR texts of ascending,
      disjoint, aligned blocks that cover exactly the range, its end and
      0.0.0.0 included. */
  lemma {:induction false} Range2CidrFixedCorrect(st: string, et: string)
    requires Ascends(Helpers, st, et)
    ensures var v6, s, e := IsIPv6(st), Ip2BigInt(st).value, Ip2BigInt(et).value;
      var r := Range2CidrFixed(st, et);
      && r.Cidrs?
      && exists bs :: ExactCover(bs, Width(v6), s, e) && Writes(FixedHelpers, r.list, bs, v6)
  {
    FixedHelpersSound();
    var v6, s, e := IsIPv6(st), Ip2BigInt(st).value, Ip2BigInt(et).value;
    var w := Width(v6);
    FamilyRange(st);
    FamilyRange(et);
    var bs := CoverExact(w, s, e);
    CoverExactCorrect(w, s, e);
    forall k | 0 <= k < |bs|
      ensures FixedHelpers.encode(bs[k].base, v6).Ok?
      ensures FixedHelpers.decode(FixedHelpers.encode(bs[k].base, v6).value) == Ok(bs[k].base)
    {
      BlockBelow(bs, w, s, e, k);
      FixedReencode(bs[k].base, v6);
    }
    CidrsOfList(FixedHelpers, bs, v6);
    assert Writes(FixedHelpers, Range2CidrFixed(st, et).list, bs, v6);
  }

  /** Lists written by two codecs that agree on every base are the same. */
  lemma {:induction false} CidrsOfAgree(c: Codec, d: Codec, bs: seq<Block>, v6: bool)
    requires forall k | 0 <= k < |bs| :: c.encode(bs[k].base, v6) == d.encode(bs[k].base, v6)
    ensures CidrsOf(c, bs, v6) == CidrsOf(d, bs, v6)
  {
    if |bs| > 0 {
      assert forall k | 0 <= k < |bs[1..]| :: bs[1..][k] == bs[k + 1];
      CidrsOfAgree(c, d, bs[1..], v6);
    }
  }

  /** Away from the three faults (the whole space, an odd start followed by
      its successor, an IPv4 range from 0.0.0.0) the corrected and the
      original range2Cidr give the same result. */
  lemma {:induction false} Range2CidrFixedAgrees(st: string, et: string)
    requires Ascends(Helpers, st, et)
    requires var v6, s, e := IsIPv6(st), Ip2BigInt(st).value, Ip2BigInt(et).value;
      !WholeSpace(Width(v6), s, e) && !OddPair(s, e) && (v6 || s > 0)
    ensures Range2CidrFixed(st, et) == Range2Cidr(st, et)
  {
    HelpersSound();
    var v6, s, e := IsIPv6(st), Ip2BigInt(st).value, Ip2BigInt(et).value;
    var w := Width(v6);
    FamilyRange(st);
    CoverAgainstExact(w, s, e);
    var bs := CoverExact(w, s, e);
    CoverExactCorrect(w, s, e);
    EncodersAgree(bs, w, s, e, v6);
    CidrsOfAgree(Helpers, FixedHelpers, bs, v6);
  }

  /** The two writers agree on every block of a range away from the IPv4 zero. */
  lemma {:induction false} EncodersAgree(bs: seq<Block>, w: nat, s: nat, e: nat, v6: bool)
    requires w == Width(v6) && e < Pow2(w) && (v6 || s > 0) && Within(bs, w, s, e)
    ensures forall k | 0 <= k < |bs| :: Helpers.encode(bs[k].base, v6) == FixedHelpers.encode(bs[k].base, v6)
  {
    forall k | 0 <= k < |bs|
      ensures Helpers.encode(bs[k].base, v6) == FixedHelpers.encode(bs[k].base, v6)
    {
      BlockBelow(bs, w, s, e, k);
    }
  }

  /** On the whole address space the original falls through to `undefined`
      while the corrected one gives the single block of prefix 0 at address 0. */
  lemma {:induction false} WholeSpaceFalls(st: string, et: string)
    requires Ascends(Helpers, st, et)
    requires WholeSpace(Width(IsIPv6(st)), Ip2BigInt(st).value, Ip2BigInt(et).value)
    ensures Range2Cidr(st, et) == Undefined
    ensures Range2CidrFixed(st, et) == Cidrs([CidrText(Bigint2IpFixed(0, IsIPv6(st)).value, 0)])
  {
    HelpersSound();
    var v6, s, e := IsIPv6(st), Ip2BigInt(st).value, Ip2BigInt(et).value;
    var w := Width(v6);
    FamilyRange(st);
    CoverCorrect(w, s, e);
    WholeSpaceExact(w, s, e);
    var b := Block(0, 0);
    var cidr := CidrText(Bigint2IpFixed(0, v6).value, 0);
    CidrsOfCons(FixedHelpers, b, [], v6);
    assert [b] + [] == [b] && [cidr] + [] == [cidr];
  }
}
