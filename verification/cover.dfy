/** The range-to-CIDR cover on integers.

    `Cover` is the scan of range2Cidr on decoded addresses, as the source
    writes it; `CoverExact` is the same scan with its two boundary tests
    corrected. Addresses are naturals below 2^w, w being 32 or 128. */
module Covering {
  import opened Bits
  import opened Outcomes

  /** A CIDR block `base/prefix`; in a w-bit space it holds 2^(w - prefix) addresses. */
  datatype Block = Block(base: nat, prefix: nat)

  /** x is one of the addresses of block b. */
  predicate InBlock(b: Block, w: nat, x: nat)
  {
    b.prefix <= w && b.base <= x < b.base + Pow2(w - b.prefix)
  }

  /** b is a CIDR block of the w-bit space: its base is aligned to its size. */
  predicate Aligned(b: Block, w: nat)
  {
    b.prefix <= w && LowZeros(b.base, w - b.prefix)
  }

  /** Some block of bs holds x. */
  predicate Covers(bs: seq<Block>, w: nat, x: nat)
  {
    exists k | 0 <= k < |bs| :: InBlock(bs[k], w, x)
  }

  /** Every block of bs is aligned and lies inside [lo, hi]. */
  predicate Within(bs: seq<Block>, w: nat, lo: int, hi: int)
  {
    forall k | 0 <= k < |bs| ::
      Aligned(bs[k], w) && lo <= bs[k].base && bs[k].base + Pow2(w - bs[k].prefix) <= hi + 1
  }

  /** Each block ends before any later block begins: ascending and pairwise disjoint. */
  predicate Ascending(bs: seq<Block>, w: nat)
  {
    forall k, l | 0 <= k < l < |bs| ::
      bs[k].prefix <= w && bs[k].base + Pow2(w - bs[k].prefix) <= bs[l].base
  }

  /** The case the source mishandles: an odd start immediately followed by the end. */
  predicate OddPair(s: nat, e: nat)
  {
    s % 2 == 1 && e == s + 1
  }

  /** The whole w-bit address space as a range. */
  predicate WholeSpace(w: nat, s: nat, e: nat)
  {
    s < e && s == 0 && e == Pow2(w) - 1
  }

  /** range2Cidr on decoded endpoints (ip.js lines 16-29); None stands for the
      `undefined` the scan falls through to. */
  function Cover(w: nat, s: nat, e: nat): (r: Option<seq<Block>>)
    requires s < Pow2(w) && e < Pow2(w)
    ensures r.None? <==> WholeSpace(w, s, e)
    decreases e - s, w + 1
  {
    if s == e then Some([Block(s, w)])
    else if s > e then Some([])
    else CoverFrom(w, s, e, 0)
  }

  /** The state of the `for` loop at bit i: s < e in the w-bit space, the
      bits of s below i are 0 and those of e are 1. (Bound to one name, so a
      caller establishes it as a single fact.) */
  predicate Scanning(w: nat, s: nat, e: nat, i: nat)
  {
    var state := s < e < Pow2(w) && i <= w && LowZeros(s, i) && LowOnes(e, i);
    state
  }

  /** The `for` loop from bit i upwards. */
  function CoverFrom(w: nat, s: nat, e: nat, i: nat): (r: Option<seq<Block>>)
    requires Scanning(w, s, e, i)
    ensures r.None? <==> WholeSpace(w, s, e)
    decreases e - s, w - i
  {
    if i == w then
      LowBitsFull(s, w);
      LowBitsFull(e, w);
      None
    else
      WholeSpaceBits(w, s, e, i);
      if Bit(s, i) == 1 then
        var ns := s + Pow2(i);
        if ns >= e then Some([Block(s, w - i)])
        else Some([Block(s, w - i)] + Cover(w, ns, e).value)
      else if ComplementBit(e, i) == 1 then
        var ne := e - Pow2(i);
        var b := Block(ClearLow(e, i + 1), w - i);
        if ne <= s then Some([b])
        else Some(Cover(w, s, ne).value + [b])
      else
        ComplementBitFlips(e, i);
        LowZerosStep(s, i);
        LowOnesStep(e, i);
        CoverFrom(w, s, e, i + 1)
  }

  /** The cover with the stop test at line 23 made strict and the loop of
      line 19 run down to prefix 0. */
  function CoverExact(w: nat, s: nat, e: nat): (bs: seq<Block>)
    requires s < Pow2(w) && e < Pow2(w)
    decreases e - s, w + 2
  {
    if s == e then [Block(s, w)]
    else if s > e then []
    else CoverExactFrom(w, s, e, 0)
  }

  function CoverExactFrom(w: nat, s: nat, e: nat, i: nat): (bs: seq<Block>)
    requires s < e < Pow2(w) && i <= w
    requires LowZeros(s, i) && LowOnes(e, i)
    decreases e - s, w + 1 - i
  {
    if Bit(s, i) == 1 then
      var ns := s + Pow2(i);
      if ns > e then [Block(s, w - i)]
      else [Block(s, w - i)] + CoverExact(w, ns, e)
    else if ComplementBit(e, i) == 1 then
      var ne := e - Pow2(i);
      var b := Block(ClearLow(e, i + 1), w - i);
      if ne <= s then [b]
      else CoverExact(w, s, ne) + [b]
    else
      ComplementBitFlips(e, i);
      HighBitZero(e, w);
      LowZerosStep(s, i);
      LowOnesStep(e, i);
      CoverExactFrom(w, s, e, i + 1)
  }

  /** Inside the whole space, no bit of the start is 1 and no bit of the end is 0. */
  lemma {:induction false} WholeSpaceBits(w: nat, s: nat, e: nat, i: nat)
    requires i < w
    ensures WholeSpace(w, s, e) ==> Bit(s, i) == 0 && ComplementBit(e, i) == 0
  {
    if WholeSpace(w, s, e) {
      HighBitZero(0, i);
      LowBitsOfExtremes(w, i);
      LowBitsOfExtremes(w, i + 1);
      LowOnesStep(e, i);
      ComplementBitFlips(e, i);
    }
  }

  lemma {:induction false} CoversConcat(a: seq<Block>, b: seq<Block>, w: nat, x: nat)
    ensures Covers(a + b, w, x) <==> Covers(a, w, x) || Covers(b, w, x)
  {
    if Covers(a + b, w, x) {
      var k :| 0 <= k < |a + b| && InBlock((a + b)[k], w, x);
      if k < |a| {
        assert InBlock(a[k], w, x);
      } else {
        assert InBlock(b[k - |a|], w, x);
      }
    }
    if Covers(a, w, x) {
      var k :| 0 <= k < |a| && InBlock(a[k], w, x);
      assert (a + b)[k] == a[k];
    }
    if Covers(b, w, x) {
      var k :| 0 <= k < |b| && InBlock(b[k], w, x);
      assert (a + b)[|a| + k] == b[k];
    }
  }

  lemma {:induction false} CoversSingle(b: Block, w: nat, x: nat)
    ensures Covers([b], w, x) <==> InBlock(b, w, x)
  {
    if InBlock(b, w, x) {
      assert [b][0] == b;
    }
  }

  /** Two ascending lists, the first ending where the second may begin, stay ascending when joined. */
  lemma {:induction false} AscendingConcat(a: seq<Block>, b: seq<Block>, w: nat, lo: int, mid: int, hi: int)
    requires Within(a, w, lo, mid - 1) && Within(b, w, mid, hi)
    requires Ascending(a, w) && Ascending(b, w)
    ensures Within(a + b, w, lo, hi) || lo > mid || mid > hi + 1
    ensures Ascending(a + b, w)
  {
    forall k, l | 0 <= k < l < |a + b|
      ensures (a + b)[k].prefix <= w && (a + b)[k].base + Pow2(w - (a + b)[k].prefix) <= (a + b)[l].base
    {
      if l < |a| {
        assert (a + b)[k] == a[k] && (a + b)[l] == a[l];
      } else if k < |a| {
        assert (a + b)[k] == a[k] && (a + b)[l] == b[l - |a|];
      } else {
        assert (a + b)[k] == b[k - |a|] && (a + b)[l] == b[l - |a|];
      }
    }
    if lo <= mid <= hi + 1 {
      forall k | 0 <= k < |a + b|
        ensures Aligned((a + b)[k], w) && lo <= (a + b)[k].base
        ensures (a + b)[k].base + Pow2(w - (a + b)[k].prefix) <= hi + 1
      {
        if k < |a| {
          assert (a + b)[k] == a[k];
        } else {
          assert (a + b)[k] == b[k - |a|];
        }
      }
    }
  }

  /** The block the start-anchored step emits: aligned at s, ending inside the range. */
  lemma {:induction false} StartBlock(w: nat, s: nat, e: nat, i: nat)
    requires s < e < Pow2(w) && i <= w
    requires LowZeros(s, i) && LowOnes(e, i) && Bit(s, i) == 1
    ensures Aligned(Block(s, w - i), w)
    ensures s + Pow2(i) <= e + 1
    ensures s + Pow2(i) == e ==> OddPair(s, e)
  {
    LowOnesSucc(e, i);
    AlignedGap(s, e + 1, i);
  }

  /** The block the end-anchored step emits: its base e - 2^i + 1 is aligned and not below s,
      and it starts at s exactly when the step ends the scan. */
  lemma {:induction false} EndBlock(w: nat, s: nat, e: nat, i: nat)
    requires s < e < Pow2(w) && i <= w
    requires LowZeros(s, i + 1) && LowOnes(e, i) && Bit(e, i) == 0
    ensures ClearLow(e, i + 1) == e - Pow2(i) + 1
    ensures Aligned(Block(e - Pow2(i) + 1, w - i), w)
    ensures s <= e - Pow2(i) + 1
    ensures e - Pow2(i) <= s ==> e - Pow2(i) + 1 == s
  {
    ClearLowBits(e, i);
    var base := e - Pow2(i) + 1;
    LowBitsFewer(base, i, i + 1);
    if base < s {
      AlignedGap(base, s, i + 1);
    }
    if base > s {
      AlignedGap(s, base, i + 1);
    }
  }

  /** bs is an exact CIDR cover of [s, e]: aligned blocks in ascending order,
      pairwise disjoint, inside [s, e] and together holding every address of it. */
  ghost predicate ExactCover(bs: seq<Block>, w: nat, s: nat, e: nat)
  {
    && Within(bs, w, s, e)
    && Ascending(bs, w)
    && forall x: nat :: Covers(bs, w, x) <==> s <= x <= e
  }

  /** A single aligned block is the exact cover of its own addresses. */
  lemma {:induction false} SingleExact(b: Block, w: nat, s: nat, e: nat)
    requires Aligned(b, w) && b.base == s && e + 1 == s + Pow2(w - b.prefix)
    ensures ExactCover([b], w, s, e)
  {
    forall x: nat ensures Covers([b], w, x) <==> s <= x <= e {
      CoversSingle(b, w, x);
    }
  }

  /** Exact covers of two adjacent ranges join into an exact cover of their union. */
  lemma {:induction false} ConcatExact(a: seq<Block>, b: seq<Block>, w: nat, s: nat, m: nat, e: nat)
    requires s < m <= e + 1
    requires ExactCover(a, w, s, m - 1) && ExactCover(b, w, m, e)
    ensures ExactCover(a + b, w, s, e)
  {
    AscendingConcat(a, b, w, s, m, e);
    forall x: nat ensures Covers(a + b, w, x) <==> s <= x <= e {
      CoversConcat(a, b, w, x);
    }
  }

  /** The corrected cover is exact. */
  lemma {:induction false} CoverExactCorrect(w: nat, s: nat, e: nat)
    requires s < Pow2(w) && e < Pow2(w)
    ensures s <= e ==> ExactCover(CoverExact(w, s, e), w, s, e)
    ensures s > e ==> CoverExact(w, s, e) == []
    decreases e - s, w + 2, 0
  {
    if s == e {
      assert Pow2(0) == 1;
      SingleExact(Block(s, w), w, s, e);
    } else if s < e {
      CoverExactFromCorrect(w, s, e, 0);
    }
  }

  lemma {:induction false} CoverExactFromCorrect(w: nat, s: nat, e: nat, i: nat)
    requires s < e < Pow2(w) && i <= w
    requires LowZeros(s, i) && LowOnes(e, i)
    ensures ExactCover(CoverExactFrom(w, s, e, i), w, s, e)
    decreases e - s, w + 1 - i, 1
  {
    ComplementBitFlips(e, i);
    if Bit(s, i) == 1 {
      ExactStartStep(w, s, e, i);
    } else if Bit(e, i) == 0 {
      LowZerosStep(s, i);
      ExactEndStep(w, s, e, i);
    } else {
      HighBitZero(e, w);
      LowZerosStep(s, i);
      LowOnesStep(e, i);
      CoverExactFromCorrect(w, s, e, i + 1);
    }
  }

  /** The start-anchored step of the corrected cover. */
  lemma {:induction false} ExactStartStep(w: nat, s: nat, e: nat, i: nat)
    requires s < e < Pow2(w) && i <= w
    requires LowZeros(s, i) && LowOnes(e, i) && Bit(s, i) == 1
    ensures ExactCover(CoverExactFrom(w, s, e, i), w, s, e)
    decreases e - s, w + 1 - i, 0
  {
    var bs := CoverExactFrom(w, s, e, i);
    var ns := s + Pow2(i);
    var b := Block(s, w - i);
    StartBlock(w, s, e, i);
    SingleExact(b, w, s, ns - 1);
    if ns <= e {
      CoverExactCorrect(w, ns, e);
      assert bs == [b] + CoverExact(w, ns, e);
      ConcatExact([b], CoverExact(w, ns, e), w, s, ns, e);
    }
  }

  /** The end-anchored step of the corrected cover. */
  lemma {:induction false} ExactEndStep(w: nat, s: nat, e: nat, i: nat)
    requires s < e < Pow2(w) && i <= w
    requires LowZeros(s, i) && LowZeros(s, i + 1) && LowOnes(e, i) && Bit(e, i) == 0 && Bit(s, i) == 0
    ensures ExactCover(CoverExactFrom(w, s, e, i), w, s, e)
    decreases e - s, w + 1 - i, 0
  {
    var bs := CoverExactFrom(w, s, e, i);
    ComplementBitFlips(e, i);
    EndBlock(w, s, e, i);
    var ne := e - Pow2(i);
    var b := Block(ne + 1, w - i);
    SingleExact(b, w, ne + 1, e);
    if ne > s {
      CoverExactCorrect(w, s, ne);
      assert bs == CoverExact(w, s, ne) + [b];
      ConcatExact(CoverExact(w, s, ne), [b], w, s, ne + 1, e);
    }
  }

  /** On an odd start followed by its successor the corrected cover emits both host blocks. */
  lemma {:induction false} OddPairExact(w: nat, s: nat)
    requires s + 1 < Pow2(w) && s % 2 == 1
    ensures CoverExact(w, s, s + 1) == [Block(s, w), Block(s + 1, w)]
  {
    assert Bit(s, 0) == 1 && Pow2(0) == 1;
    assert CoverExactFrom(w, s, s + 1, 0) == [Block(s, w)] + CoverExact(w, s + 1, s + 1);
  }


  /** On the whole address space the corrected cover is the single block of prefix 0. */
  lemma {:induction false} WholeSpaceExact(w: nat, s: nat, e: nat)
    requires WholeSpace(w, s, e)
    ensures CoverExact(w, s, e) == [Block(0, 0)]
  {
    LowBitsOfExtremes(w, 0);
    WholeSpaceExactFrom(w, s, e, 0);
  }

  lemma {:induction false} WholeSpaceExactFrom(w: nat, s: nat, e: nat, i: nat)
    requires WholeSpace(w, s, e) && i <= w && LowZeros(s, i) && LowOnes(e, i)
    ensures CoverExactFrom(w, s, e, i) == [Block(0, 0)]
    decreases w - i
  {
    if i < w {
      WholeSpaceBits(w, s, e, i);
      ComplementBitFlips(e, i);
      LowZerosStep(s, i);
      LowOnesStep(e, i);
      WholeSpaceExactFrom(w, s, e, i + 1);
    } else {
      HighBitZero(0, w);
      HighBitZero(e, w);
      ComplementBitFlips(e, w);
      LowPartIsMod(e, w + 1);
      Pow2Monotone(w, w + 1);
      DivModUnique(e, Pow2(w + 1), 0, e);
    }
  }

  /** What the source's cover returns given the corrected one: undefined on the
      whole address space, the start alone on an odd start followed by its
      successor, and the corrected cover otherwise. */
  function AsWritten(w: nat, s: nat, e: nat, exact: seq<Block>): Option<seq<Block>>
  {
    if WholeSpace(w, s, e) then None
    else if OddPair(s, e) then Some([Block(s, w)])
    else Some(exact)
  }

  /** The source's cover is the corrected one except on the whole address space
      and on an odd start followed by its successor. */
  lemma {:induction false} CoverAgainstExact(w: nat, s: nat, e: nat)
    requires s < Pow2(w) && e < Pow2(w)
    ensures Cover(w, s, e) == AsWritten(w, s, e, CoverExact(w, s, e))
    decreases e - s, w + 2, 0
  {
    if s < e {
      CoverFromAgainstExact(w, s, e, 0);
    }
  }

  lemma {:induction false} CoverFromAgainstExact(w: nat, s: nat, e: nat, i: nat)
    requires s < e < Pow2(w) && i <= w
    requires LowZeros(s, i) && LowOnes(e, i)
    ensures CoverFrom(w, s, e, i) == AsWritten(w, s, e, CoverExactFrom(w, s, e, i))
    decreases e - s, w + 1 - i, 1
  {
    ComplementBitFlips(e, i);
    if WholeSpace(w, s, e) {
    } else if i == w {
      LowBitsFull(s, w);
      LowBitsFull(e, w);
    } else if Bit(s, i) == 1 {
      AgainstStartStep(w, s, e, i);
    } else if Bit(e, i) == 0 {
      LowZerosStep(s, i);
      AgainstEndStep(w, s, e, i);
    } else {
      LowZerosStep(s, i);
      LowOnesStep(e, i);
      CoverFromAgainstExact(w, s, e, i + 1);
    }
  }

  lemma {:induction false} AgainstStartStep(w: nat, s: nat, e: nat, i: nat)
    requires s < e < Pow2(w) && i < w
    requires LowZeros(s, i) && LowOnes(e, i) && Bit(s, i) == 1
    requires !WholeSpace(w, s, e)
    ensures CoverFrom(w, s, e, i) == AsWritten(w, s, e, CoverExactFrom(w, s, e, i))
    decreases e - s, w + 1 - i, 0
  {
    var ns := s + Pow2(i);
    StartBlock(w, s, e, i);
    if OddPair(s, e) {
      assert CoverExactFrom(w, s, e, i) == [Block(s, w)] + CoverExact(w, e, e);
    } else if ns < e {
      assert !OddPair(ns, e);
      CoverAgainstExact(w, ns, e);
    }
  }

  lemma {:induction false} AgainstEndStep(w: nat, s: nat, e: nat, i: nat)
    requires s < e < Pow2(w) && i < w
    requires LowZeros(s, i) && LowZeros(s, i + 1) && LowOnes(e, i) && Bit(e, i) == 0 && Bit(s, i) == 0
    requires !WholeSpace(w, s, e)
    ensures CoverFrom(w, s, e, i) == AsWritten(w, s, e, CoverExactFrom(w, s, e, i))
    decreases e - s, w + 1 - i, 0
  {
    ComplementBitFlips(e, i);
    EndBlock(w, s, e, i);
    var ne := e - Pow2(i);
    if ne > s {
      CoverAgainstExact(w, s, ne);
    }
  }

  /** What the source's cover returns: undefined exactly on the whole address
      space; otherwise aligned blocks in ascending order, pairwise disjoint,
      inside [s, e], together holding all of [s, e] except the end of an odd
      start followed by its successor. */
  lemma {:induction false} CoverCorrect(w: nat, s: nat, e: nat)
    requires s < Pow2(w) && e < Pow2(w)
    ensures Cover(w, s, e).None? <==> WholeSpace(w, s, e)
    ensures Cover(w, s, e).Some? ==>
      && Within(Cover(w, s, e).value, w, s, e)
      && Ascending(Cover(w, s, e).value, w)
      && forall x: nat :: Covers(Cover(w, s, e).value, w, x) <==> s <= x <= e && !(OddPair(s, e) && x == e)
  {
    CoverAgainstExact(w, s, e);
    CoverExactCorrect(w, s, e);
    if OddPair(s, e) && !WholeSpace(w, s, e) {
      OddPairExact(w, s);
      var b := Block(s, w);
      forall x: nat ensures Covers([b], w, x) <==> s <= x <= e && !(OddPair(s, e) && x == e) {
        CoversSingle(b, w, x);
      }
      assert CoverExact(w, s, e)[0] == b;
    }
  }

  // Minimality: a returned list of blocks should never hold two neighbours
  // that together form one aligned block of twice their size.

  /** b and c are the two halves of one aligned block: one block could
      replace both. */
  predicate Mergeable(b: Block, c: Block, w: nat)
  {
    && 0 < b.prefix == c.prefix <= w
    && LowZeros(b.base, w - b.prefix + 1)
    && c.base == b.base + Pow2(w - b.prefix)
  }

  /** Which half of the next larger aligned block b is: 1 for the upper half. */
  function Half(b: Block, w: nat): nat
  {
    if b.prefix <= w then Bit(b.base, w - b.prefix) else 0
  }

  /** Upper halves come before lower halves. */
  predicate HalvesDescend(bs: seq<Block>, w: nat)
  {
    forall k, l | 0 <= k < l < |bs| :: Half(bs[l], w) <= Half(bs[k], w)
  }

  /** Two mergeable blocks are a lower half followed by an upper half. */
  lemma {:induction false} MergeableHalves(b: Block, c: Block, w: nat)
    requires Mergeable(b, c, w)
    ensures Half(b, w) == 0 && Half(c, w) == 1
  {
    var j := w - b.prefix;
    LowBitsFewer(b.base, j, j + 1);
    LowZerosStep(b.base, j);
    LowZerosIsMultiple(b.base, j + 1);
    assert Pow2(j + 1) == 2 * Pow2(j);
    OddQuotient(b.base, Pow2(j));
    BitIsShiftMask(c.base, j);
  }

  /** Adding p to a multiple of 2p gives an odd multiple of p. */
  lemma {:induction false} OddQuotient(x: int, p: int)
    requires p > 0 && x % (2 * p) == 0
    ensures ((x + p) / p) % 2 == 1
  {
    var t := x / (2 * p);
    DivModSplit(x, 2 * p);
    assert x + p == p * (2 * t + 1);
    DivModUnique(x + p, p, 2 * t + 1, 0);
  }

  lemma {:induction false} HalvesPrepend(b: Block, bs: seq<Block>, w: nat)
    requires Half(b, w) == 1 && HalvesDescend(bs, w)
    ensures HalvesDescend([b] + bs, w)
  {
    forall k, l | 0 <= k < l < |[b] + bs|
      ensures Half(([b] + bs)[l], w) <= Half(([b] + bs)[k], w)
    {
      assert ([b] + bs)[l] == bs[l - 1];
      if k > 0 {
        assert ([b] + bs)[k] == bs[k - 1];
      }
    }
  }

  lemma {:induction false} HalvesAppend(bs: seq<Block>, b: Block, w: nat)
    requires Half(b, w) == 0 && HalvesDescend(bs, w)
    ensures HalvesDescend(bs + [b], w)
  {
    forall k, l | 0 <= k < l < |bs + [b]|
      ensures Half((bs + [b])[l], w) <= Half((bs + [b])[k], w)
    {
      assert (bs + [b])[k] == bs[k];
      if l < |bs| {
        assert (bs + [b])[l] == bs[l];
      }
    }
  }

  /** The corrected scan emits upper halves from the start and lower halves
      from the end, so its halves descend. */
  lemma {:induction false} CoverExactHalves(w: nat, s: nat, e: nat)
    requires s < Pow2(w) && e < Pow2(w)
    ensures HalvesDescend(CoverExact(w, s, e), w)
    decreases e - s, w + 2, 0
  {
    if s < e {
      CoverExactFromHalves(w, s, e, 0);
    }
  }

  lemma {:induction false} CoverExactFromHalves(w: nat, s: nat, e: nat, i: nat)
    requires s < e < Pow2(w) && i <= w
    requires LowZeros(s, i) && LowOnes(e, i)
    ensures HalvesDescend(CoverExactFrom(w, s, e, i), w)
    decreases e - s, w + 1 - i, 1
  {
    ComplementBitFlips(e, i);
    if Bit(s, i) == 1 {
      var ns := s + Pow2(i);
      var b := Block(s, w - i);
      assert Half(b, w) == 1;
      if ns <= e {
        CoverExactHalves(w, ns, e);
        HalvesPrepend(b, CoverExact(w, ns, e), w);
      }
    } else if Bit(e, i) == 0 {
      var ne := e - Pow2(i);
      var b := Block(ClearLow(e, i + 1), w - i);
      ClearLowBit(e, i + 1, i);
      assert Half(b, w) == 0;
      if ne > s {
        CoverExactHalves(w, s, ne);
        HalvesAppend(CoverExact(w, s, ne), b, w);
      }
    } else {
      HighBitZero(e, w);
      LowZerosStep(s, i);
      LowOnesStep(e, i);
      CoverExactFromHalves(w, s, e, i + 1);
    }
  }

  /** No two neighbouring blocks of the corrected cover can be merged into one. */
  lemma {:induction false} CoverExactMinimal(w: nat, s: nat, e: nat)
    requires s < Pow2(w) && e < Pow2(w)
    ensures var bs := CoverExact(w, s, e);
      forall k | 0 <= k < |bs| - 1 :: !Mergeable(bs[k], bs[k + 1], w)
  {
    var bs := CoverExact(w, s, e);
    CoverExactHalves(w, s, e);
    forall k | 0 <= k < |bs| - 1
      ensures !Mergeable(bs[k], bs[k + 1], w)
    {
      if Mergeable(bs[k], bs[k + 1], w) {
        MergeableHalves(bs[k], bs[k + 1], w);
      }
    }
  }

  // The range 10.0.0.1 - 10.0.0.6 (ip.js lines 19-27 traced on any base
  // 8m): line 23 takes 8m+1 from the start, line 27 takes 8m+6 from the end,
  // and the rest 8m+2 - 8m+5 yields two /(w-1) blocks.

  /** The two low bits of 8m + k. */
  lemma {:induction false} SmallBits(m: nat, k: nat)
    requires k < 8
    ensures Bit(8 * m + k, 0) == k % 2 && Bit(8 * m + k, 1) == (k / 2) % 2
    ensures ClearLow(8 * m + k, 1) == 8 * m + k - k % 2
    ensures ClearLow(8 * m + k, 2) == 8 * m + k - k % 4
  {
    var x := 8 * m + k;
    assert x / 2 == 4 * m + k / 2 && x % 2 == k % 2;
    assert (x / 2) / 2 == 2 * m + k / 4 && (x / 2) % 2 == (k / 2) % 2;
    assert Bit(x, 1) == Bit(x / 2, 0);
    assert ClearLow(x, 1) == 2 * ClearLow(x / 2, 0);
    assert ClearLow(x / 2, 1) == 2 * ClearLow((x / 2) / 2, 0);
  }

  lemma {:induction false} SixStepLast(w: nat, m: nat)
    requires 2 <= w && 8 * m + 7 < Pow2(w)
    ensures Cover(w, 8 * m + 4, 8 * m + 5) == Some([Block(8 * m + 4, w - 1)])
  {
    var s, e := 8 * m + 4, 8 * m + 5;
    SmallBits(m, 4);
    SmallBits(m, 5);
    ComplementBitFlips(e, 0);
    ComplementBitFlips(e, 1);
    assert Pow2(1) == 2;
    assert Scanning(w, s, e, 1);
    assert CoverFrom(w, s, e, 0) == CoverFrom(w, s, e, 1);
  }

  lemma {:induction false} SixStepInner(w: nat, m: nat)
    requires 2 <= w && 8 * m + 7 < Pow2(w)
    ensures Cover(w, 8 * m + 2, 8 * m + 5) ==
      Some([Block(8 * m + 2, w - 1), Block(8 * m + 4, w - 1)])
  {
    var s, e := 8 * m + 2, 8 * m + 5;
    InnerScan(w, m);
    SixStepLast(w, m);
    assert CoverFrom(w, s, e, 1) == Some([Block(s, w - 1)] + Cover(w, 8 * m + 4, e).value);
    assert [Block(s, w - 1)] + [Block(8 * m + 4, w - 1)] == [Block(s, w - 1), Block(8 * m + 4, w - 1)];
  }

  /** 8m+2 - 8m+5 passes bit 0 and stops at bit 1 on the start. */
  lemma {:induction false} InnerScan(w: nat, m: nat)
    requires 2 <= w && 8 * m + 7 < Pow2(w)
    ensures Scanning(w, 8 * m + 2, 8 * m + 5, 1) && Bit(8 * m + 2, 1) == 1
    ensures Cover(w, 8 * m + 2, 8 * m + 5) == CoverFrom(w, 8 * m + 2, 8 * m + 5, 1)
    ensures Pow2(1) == 2
  {
    var s, e := 8 * m + 2, 8 * m + 5;
    SmallBits(m, 2);
    SmallBits(m, 5);
    ComplementBitFlips(e, 0);
    assert Pow2(1) == 2;
    assert Scanning(w, s, e, 1);
    assert CoverFrom(w, s, e, 0) == CoverFrom(w, s, e, 1);
  }

  lemma {:induction false} SixStepEnd(w: nat, m: nat)
    requires 2 <= w && 8 * m + 7 < Pow2(w)
    ensures Cover(w, 8 * m + 2, 8 * m + 6) ==
      Some([Block(8 * m + 2, w - 1), Block(8 * m + 4, w - 1), Block(8 * m + 6, w)])
  {
    var s, e := 8 * m + 2, 8 * m + 6;
    SmallBits(m, 2);
    SmallBits(m, 6);
    ComplementBitFlips(e, 0);
    assert Pow2(0) == 1;
    SixStepInner(w, m);
    assert CoverFrom(w, s, e, 0) == Some(Cover(w, s, 8 * m + 5).value + [Block(e, w)]);
    assert [Block(s, w - 1), Block(8 * m + 4, w - 1)] + [Block(e, w)] ==
      [Block(s, w - 1), Block(8 * m + 4, w - 1), Block(e, w)];
  }

  /** The range 8m+1 - 8m+6. */
  lemma {:induction false} CoverOfSix(w: nat, m: nat)
    requires 2 <= w && 8 * m + 7 < Pow2(w)
    ensures Cover(w, 8 * m + 1, 8 * m + 6) ==
      Some([Block(8 * m + 1, w), Block(8 * m + 2, w - 1), Block(8 * m + 4, w - 1), Block(8 * m + 6, w)])
  {
    var s, e := 8 * m + 1, 8 * m + 6;
    SmallBits(m, 1);
    assert Pow2(0) == 1;
    SixStepEnd(w, m);
    assert CoverFrom(w, s, e, 0) == Some([Block(s, w)] + Cover(w, 8 * m + 2, e).value);
    assert [Block(s, w)] + [Block(8 * m + 2, w - 1), Block(8 * m + 4, w - 1), Block(e, w)] ==
      [Block(s, w), Block(8 * m + 2, w - 1), Block(8 * m + 4, w - 1), Block(e, w)];
  }

  /** 2^32, the size of the IPv4 space. */
  lemma {:induction false} Pow2Of32()
    ensures Pow2(32) == 4294967296
  {
    Pow2Add(16, 16);
    Pow2Add(8, 8);
    assert Pow2(8) == 256;
  }

  /** 10.0.0.1 - 10.0.0.6 gives 10.0.0.1/32, 10.0.0.2/31, 10.0.0.4/31 and
      10.0.0.6/32; a /30 at 10.0.0.4 would take in 10.0.0.7. */
  lemma {:induction false} CoverExample()
    ensures Pow2(32) == 4294967296
    ensures Cover(32, 167772161, 167772166) == Some([
      Block(167772161, 32), Block(167772162, 31), Block(167772164, 31), Block(167772166, 32)])
  {
    Pow2Of32();
    CoverOfSix(32, 20971520);
  }
}
