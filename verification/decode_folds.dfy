/** How `ip2BigInt` folds address fields into an integer: the folds of the
    source compute the positional value of the octets or groups. */
module DecodeFolds {
  import opened Bits
  import opened Numerals
  import opened Words
  import opened IpCodec

  /** Scaling a sum: (x << n) + (y << q) == ((x << p) + y) << q when n = p + q. */
  lemma {:induction false} ScaleSum(x: nat, y: nat, w: nat, p: nat, q: nat, n: nat)
    requires n == p + q && w == ShiftLeft(x, p) + y
    ensures ShiftLeft(x, n) + ShiftLeft(y, q) == ShiftLeft(w, q)
  {
    ShlDistrib(Shl(x, p), y, q);
    ShlAdd(x, p, q);
  }

  lemma {:induction false} OctetValuesCons(f: seq<string>, k: nat, n: nat)
    requires k < |f| && n == 8 * (|f| - k - 1)
    ensures Val(OctetValues(f[k..]), 8) == ShiftLeft(Parse(f[k], 10), n) + Val(OctetValues(f[k + 1..]), 8)
  {
    assert f[k..][1..] == f[k + 1..];
    ValCons(Parse(f[k], 10), OctetValues(f[k + 1..]), 8, n);
  }

  lemma {:induction false} GroupValuesCons(f: seq<string>, k: nat, l: nat, n: nat)
    requires k < l <= |f| && n == 16 * (l - k - 1)
    ensures Val(GroupValues(f[k..l]), 16) == ShiftLeft(HexValue(f[k]), n) + Val(GroupValues(f[k + 1..l]), 16)
  {
    assert f[k..l][1..] == f[k + 1..l];
    ValCons(HexValue(f[k]), GroupValues(f[k + 1..l]), 16, n);
  }

  /** On four fields, the IPv4 fold from octet k adds the value of octets k..3. */
  lemma {:induction false} SumOctetsValue(f: seq<string>, k: nat, total: nat)
    requires |f| == 4 && k <= 4
    ensures SumOctets(f, k, total) == total + Val(OctetValues(f[k..]), 8)
    decreases 4 - k
  {
    if k == 4 {
      assert f[k..] == [];
    } else {
      SumOctetsValue(f, k + 1, total + ShiftLeft(Parse(f[k], 10), 8 * (3 - k)));
      OctetValuesCons(f, k, 8 * (3 - k));
    }
  }

  /** What the IPv6 fold adds from field k on: the same steps as `SumGroups`
      without the accumulator. */
  function Placed(f: seq<string>, k: nat, after: bool): nat
    decreases |f| - k
  {
    if k >= |f| then 0
    else if f[k] == "" then Placed(f, k + 1, true)
    else if after then ShiftLeft(HexValue(f[k]), 16 * (|f| - k - 1)) + Placed(f, k + 1, true)
    else ShiftLeft(HexValue(f[k]), 16 * (7 - k)) + Placed(f, k + 1, false)
  }

  /** The fold's accumulator only adds on. */
  lemma {:induction false} SumGroupsPlaced(f: seq<string>, k: nat, total: nat, after: bool)
    ensures SumGroups(f, k, total, after) == total + Placed(f, k, after)
    decreases |f| - k
  {
    if k < |f| {
      if f[k] == "" {
        SumGroupsPlaced(f, k + 1, total, true);
      } else if after {
        SumGroupsPlaced(f, k + 1, total + ShiftLeft(HexValue(f[k]), 16 * (|f| - k - 1)), true);
      } else {
        SumGroupsPlaced(f, k + 1, total + ShiftLeft(HexValue(f[k]), 16 * (7 - k)), false);
      }
    }
  }

  /** Before "::" (at field l), groups k..l-1 land at the top of the 128 bits. */
  lemma {:induction false} PlacedBefore(f: seq<string>, k: nat, l: nat, n: nat)
    requires k <= l <= |f| && l <= 8 && n == 16 * (8 - l)
    requires forall j | k <= j < l :: f[j] != ""
    ensures Placed(f, k, false) == ShiftLeft(Val(GroupValues(f[k..l]), 16), n) + Placed(f, l, false)
    decreases l - k
  {
    if k == l {
      assert f[k..l] == [];
      ShlMonotone(0, 0, n);
    } else {
      PlacedBefore(f, k + 1, l, n);
      GroupValuesCons(f, k, l, 16 * (l - k - 1));
      ScaleSum(HexValue(f[k]), Val(GroupValues(f[k + 1..l]), 16), Val(GroupValues(f[k..l]), 16), 16 * (l - k - 1), n, 16 * (7 - k));
    }
  }

  /** After "::", the remaining groups are right-aligned. */
  lemma {:induction false} PlacedAfter(f: seq<string>, k: nat)
    requires k <= |f|
    requires forall j | k <= j < |f| :: f[j] != ""
    ensures Placed(f, k, true) == Val(GroupValues(f[k..]), 16)
    decreases |f| - k
  {
    if k == |f| {
      assert f[k..] == [];
    } else {
      PlacedAfter(f, k + 1);
      GroupValuesCons(f, k, |f|, 16 * (|f| - k - 1));
      assert f[k..|f|] == f[k..] && f[k + 1..|f|] == f[k + 1..];
    }
  }
}
