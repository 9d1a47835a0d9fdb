/** `bigInt2Ip` (ip.js lines 67-89): an integer as IPv6 text with its longest
    run of zero groups written "::", or as a dotted quad. */
module Encode {
  import opened Bits
  import opened Outcomes
  import opened Text
  import opened Numerals
  import opened Words

  /** The numerals of the digits ds in a base, in order: `toString(16)` of each
      IPv6 group, the decimal `toString` of each IPv4 octet. */
  function RenderAll(ds: seq<nat>, base: nat): (r: seq<string>)
    requires IsRadix(base)
    ensures |r| == |ds|
  {
    if |ds| == 0 then [] else [Render(ds[0], base)] + RenderAll(ds[1..], base)
  }

  // Zero-run compression (ip.js lines 74-77). The groups are joined with ':'
  // and the pattern /(:(0(:|\b))+)/g picks out a colon followed by one or more
  // "0" groups, each followed by a colon or the end of the text. `toString(16)`
  // writes no leading zeros, so a group starting with '0' is exactly "0": every
  // match is a maximal run of zero groups that starts at group 1 or later (the
  // colon comes first, so group 0 never opens one). Such a run of k groups
  // matches 2k + 1 characters, or 2k when it reaches the last group and has no
  // colon after it.

  /** k zero groups from group `start` on. */
  datatype Run = Run(start: nat, len: nat)

  /** r is a maximal run of zero digits of ds: non-empty, inside ds, all
      zero, and followed by a non-zero digit or the end. */
  predicate IsRun(ds: seq<nat>, r: Run)
  {
    && r.len >= 1
    && r.start + r.len <= |ds|
    && (forall j | r.start <= j < r.start + r.len :: ds[j] == 0)
    && (r.start + r.len < |ds| ==> ds[r.start + r.len] != 0)
  }

  /** The number of zero digits from index i up to the first non-zero one. */
  function ZeroRunLength(ds: seq<nat>, i: nat): (n: nat)
    requires i <= |ds|
    ensures i + n <= |ds|
    ensures forall j | i <= j < i + n :: ds[j] == 0
    ensures i + n < |ds| ==> ds[i + n] != 0
    decreases |ds| - i
  {
    if i < |ds| && ds[i] == 0 then 1 + ZeroRunLength(ds, i + 1) else 0
  }

  /** The runs the global match finds from index i on, left to right. */
  function ZeroRuns(ds: seq<nat>, i: nat): (rs: seq<Run>)
    requires i <= |ds|
    ensures forall k | 0 <= k < |rs| ::
      IsRun(ds, rs[k]) && i <= rs[k].start && (rs[k].start == i || ds[rs[k].start - 1] != 0)
    ensures forall k, l | 0 <= k < l < |rs| :: rs[k].start + rs[k].len < rs[l].start
    decreases |ds| - i
  {
    if i == |ds| then []
    else if ds[i] != 0 then ZeroRuns(ds, i + 1)
    else
      var n := ZeroRunLength(ds, i);
      [Run(i, n)] + ZeroRuns(ds, i + n)
  }

  /** The match finds a run exactly when some digit from i on is zero. */
  lemma {:induction false} ZeroRunsEmpty(ds: seq<nat>, i: nat)
    requires i <= |ds|
    ensures |ZeroRuns(ds, i)| == 0 <==> forall j | i <= j < |ds| :: ds[j] != 0
    decreases |ds| - i
  {
    if i < |ds| && ds[i] != 0 {
      ZeroRunsEmpty(ds, i + 1);
    }
  }

  /** Every zero digit from i on lies in one of the runs found. */
  lemma {:induction false} ZeroRunsComplete(ds: seq<nat>, i: nat, j: nat) returns (k: nat)
    requires i <= j < |ds| && ds[j] == 0
    ensures k < |ZeroRuns(ds, i)|
    ensures ZeroRuns(ds, i)[k].start <= j < ZeroRuns(ds, i)[k].start + ZeroRuns(ds, i)[k].len
    decreases |ds| - i, 1
  {
    if ds[i] != 0 {
      k := ZeroRunsComplete(ds, i + 1, j);
    } else {
      k := ZeroRunsCompleteAt(ds, i, j);
    }
  }

  /** The same when a run starts at i. */
  lemma {:induction false} ZeroRunsCompleteAt(ds: seq<nat>, i: nat, j: nat) returns (k: nat)
    requires i <= j < |ds| && ds[j] == 0 && ds[i] == 0
    ensures k < |ZeroRuns(ds, i)|
    ensures ZeroRuns(ds, i)[k].start <= j < ZeroRuns(ds, i)[k].start + ZeroRuns(ds, i)[k].len
    decreases |ds| - i, 0
  {
    var n := ZeroRunLength(ds, i);
    var rest := ZeroRuns(ds, i + n);
    assert ZeroRuns(ds, i) == [Run(i, n)] + rest;
    if j < i + n {
      k := 0;
    } else {
      var k' := ZeroRunsComplete(ds, i + n, j);
      k := k' + 1;
      assert ZeroRuns(ds, i)[k] == rest[k'];
    }
  }

  /** The length of the text matched for run r of n groups. */
  function MatchLength(r: Run, n: nat): nat
  {
    if r.start + r.len == n then 2 * r.len else 2 * r.len + 1
  }

  /** `multZeros[0]` after the stable sort by decreasing length: the index of
      the first longest match. */
  function LongestIndex(rs: seq<Run>, n: nat): (k: nat)
    requires |rs| >= 1
    ensures k < |rs|
    ensures forall j | 0 <= j < |rs| :: MatchLength(rs[j], n) <= MatchLength(rs[k], n)
    ensures forall j | 0 <= j < k :: MatchLength(rs[j], n) < MatchLength(rs[k], n)
    decreases |rs|
  {
    if |rs| == 1 then 0
    else
      var k := LongestIndex(rs[1..], n);
      if MatchLength(rs[0], n) >= MatchLength(rs[1..][k], n) then 0 else k + 1
  }

  /** The joined groups with the first longest zero run replaced by "::";
      unchanged when there is no run (`replace(undefined, '::')` finds no
      "undefined" in hex text). */
  function Compress(groups: seq<string>, ds: seq<nat>): string
    requires |groups| == |ds| >= 1
  {
    var rs := ZeroRuns(ds, 1);
    if |rs| == 0 then Join(groups, ':')
    else
      var r := rs[LongestIndex(rs, |ds|)];
      Join(groups[..r.start], ':') + "::" + Join(groups[r.start + r.len..], ':')
  }

  /** The run Compress replaces: a run of zero groups from group 1 on whose
      match is at least as long as that of any other such run, and strictly
      longer than that of any run before it. */
  lemma {:induction false} CompressChoice(ds: seq<nat>, r: Run)
    requires |ds| >= 1 && IsRun(ds, r) && 1 <= r.start
    ensures |ZeroRuns(ds, 1)| >= 1
    ensures var rs := ZeroRuns(ds, 1); var c := rs[LongestIndex(rs, |ds|)];
      && IsRun(ds, c) && 1 <= c.start
      && MatchLength(r, |ds|) <= MatchLength(c, |ds|)
      && (r.start + r.len <= c.start ==> MatchLength(r, |ds|) < MatchLength(c, |ds|))
  {
    var rs := ZeroRuns(ds, 1);
    var k := ZeroRunsComplete(ds, 1, r.start);
    var q := rs[k];
    assert r.start + r.len == q.start + q.len;
    var m := LongestIndex(rs, |ds|);
    assert MatchLength(r, |ds|) <= MatchLength(q, |ds|);
    if r.start + r.len <= rs[m].start {
      assert k < m;
    }
  }

  /** The eight 16-bit groups of v, most significant first. */
  function V6Groups(v: int): (ds: seq<nat>)
    ensures |ds| == 8 && Fits(ds, 16)
  {
    Chunks(v, 8, 16)
  }

  /** The IPv6 branch (lines 68-78). */
  function V6Text(v: int): string
  {
    var ds := V6Groups(v);
    Compress(RenderAll(ds, 16), ds)
  }

  /** The IPv4 branch (lines 79-85): four octets in decimal joined by dots. */
  function V4Text(v: int): string
  {
    Join(RenderAll(Chunks(v, 4, 8), 10), '.')
  }

  /** `bigInt2Ip(ip, forceIPv6)`: IPv6 text from 2 << 32 = 2^33 up or when forced,
      a dotted quad for other positive values, and `Invalid IP format` otherwise. */
  function Bigint2Ip(v: int, forceV6: bool): (r: Result<string>)
    ensures r.Err? <==> !forceV6 && v <= 0
    ensures r.Err? ==> r.error == InvalidFormat
  {
    if v >= 2 * Pow2(32) || forceV6 then Ok(V6Text(v))
    else if v > 0 then Ok(V4Text(v))
    else Err(InvalidFormat)
  }

  /** bigInt2Ip as its doc comment describes it: IPv4 text for every value
      below 2^32, 0 included, and IPv6 text from 2^32 up or when forced. */
  function Bigint2IpFixed(v: int, forceV6: bool): (r: Result<string>)
    ensures r.Err? <==> !forceV6 && v < 0
    ensures r.Err? ==> r.error == InvalidFormat
  {
    if v >= Pow2(32) || forceV6 then Ok(V6Text(v))
    else if v >= 0 then Ok(V4Text(v))
    else Err(InvalidFormat)
  }

  /** With a single zero run r, Compress writes the groups before it, "::",
      and the groups after it. */
  lemma {:induction false} CompressOneRun(groups: seq<string>, ds: seq<nat>, r: Run)
    requires |groups| == |ds| >= 1 && IsRun(ds, r) && ZeroRuns(ds, 1) == [r]
    ensures Compress(groups, ds) == Join(groups[..r.start], ':') + "::" + Join(groups[r.start + r.len..], ':')
  {
    assert LongestIndex([r], |ds|) == 0;
  }

  /** The written text holds "::" exactly when some group from group 1 on is
      zero; otherwise the groups are joined unchanged. */
  lemma {:induction false} CompressDoubleColon(groups: seq<string>, ds: seq<nat>)
    requires |groups| == |ds| >= 1
    requires SepFree(groups, ':') && forall k | 0 <= k < |groups| :: |groups[k]| >= 1
    ensures NoDoubleSep(Compress(groups, ds), ':') <==> forall j | 1 <= j < |ds| :: ds[j] != 0
    ensures (forall j | 1 <= j < |ds| :: ds[j] != 0) ==> Compress(groups, ds) == Join(groups, ':')
  {
    ZeroRunsEmpty(ds, 1);
    var rs := ZeroRuns(ds, 1);
    if |rs| == 0 {
      JoinNoDoubleSep(groups, ':');
    } else {
      var r := rs[LongestIndex(rs, |ds|)];
      var a := Join(groups[..r.start], ':');
      var t := a + "::" + Join(groups[r.start + r.len..], ':');
      assert t[|a|] == ':' && t[|a| + 1] == ':';
    }
  }
}
