/** The statistical model of sections F.1.4 and G.1.3 of ITU-T T.81: which binary decisions,
    in the contexts of which statistics bins, stand for DC differences and AC coefficients.

    Every script function puts its decisions in front of those that follow (rest). */
module ArithModel {
  import opened Bits
  import opened Scans
  import opened IntervalCoder

  const DC_STAT_BINS := 64
  const AC_STAT_BINS := 256

  // One array holds the fixed bin, the DC statistics areas and the AC statistics areas.
  const FIXED_BIN := 0
  const TOTAL_BINS := 4 + NUM_ARITH_TBLS * DC_STAT_BINS + NUM_ARITH_TBLS * AC_STAT_BINS

  function DcStats(tbl: nat): nat {
    4 + tbl * DC_STAT_BINS
  }

  function AcStats(tbl: nat): nat {
    4 + NUM_ARITH_TBLS * DC_STAT_BINS + tbl * AC_STAT_BINS
  }

  /** The highest power of two not above v. */
  function TopBit(v: nat): (m: nat)
    requires v >= 1
    ensures 1 <= m <= v < 2 * m
  {
    if v / 2 == 0 then 1 else 2 * TopBit(v / 2)
  }

  /** The bits of v below m, highest first, all in one bin. */
  function LowBits(st: nat, m: nat, v: nat, rest: seq<Decision>): seq<Decision>
    decreases m
  {
    if m / 2 == 0 then rest
    else [Decision(st, v / (m / 2) % 2 == 1)] + LowBits(st, m / 2, v, rest)
  }

  /** The magnitude category of v in unary, starting from the part y of v still to be
      counted, and then the bits of v below the top one. */
  function Category(st: nat, y: nat, v: nat, rest: seq<Decision>): seq<Decision>
    requires y >= 1 && v >= 1
    decreases y
  {
    if y / 2 == 0 then [Decision(st, false)] + LowBits(st + 14, TopBit(v), v, rest)
    else [Decision(st, true)] + Category(st + 1, y / 2, v, rest)
  }

  function DcMagnitude(stats: nat, st: nat, v: nat, rest: seq<Decision>): seq<Decision> {
    if v == 0 then [Decision(st, false)] + rest
    else [Decision(st, true)] + Category(stats + 20, v, v, rest)
  }

  function DcDiff(stats: nat, ctx: nat, diff: int, rest: seq<Decision>): seq<Decision> {
    if diff == 0 then [Decision(stats + ctx, false)] + rest
    else
      [Decision(stats + ctx, true)] + ([Decision(stats + ctx + 1, diff < 0)] +
        DcMagnitude(stats, stats + ctx + (if diff > 0 then 2 else 3), Abs(diff) - 1, rest))
  }

  /** The DC conditioning category that a difference leads to. */
  function DcContext(lower: nat, upper: nat, diff: int): (ctx: nat)
    ensures ctx <= 16
  {
    if diff == 0 then 0
    else
      var m := if Abs(diff) == 1 then 0 else TopBit(Abs(diff) - 1);
      if m < Pow2(lower) / 2 then 0
      else (if diff > 0 then 4 else 8) + (if m > Pow2(upper) / 2 then 8 else 0)
  }

  function AcMagnitude(stats: nat, st: nat, k: nat, kx: nat, v: nat, rest: seq<Decision>): seq<Decision> {
    if v == 0 then [Decision(st, false)] + rest
    else
      [Decision(st, true)] +
      if v / 2 == 0 then [Decision(st, false)] + rest
      else [Decision(st, true)] + Category(stats + (if k <= kx then 189 else 217), v / 2, v, rest)
  }

  /** AC coefficients k+1 .. se of a first scan, ke being the last nonzero one. */
  function AcFrom(stats: nat, kx: nat, zz: seq<int>, ke: nat, se: nat, k: nat, rest: seq<Decision>): seq<Decision>
    requires ke <= se < |zz| && k <= se && (ke > 0 ==> zz[ke] != 0)
    decreases se - k, 1
  {
    if k >= ke then if k < se then [Decision(stats + 3 * k, true)] + rest else rest
    else [Decision(stats + 3 * k, false)] + AcRun(stats, kx, zz, ke, se, k, rest)
  }

  /** The same after the end-of-block decision: a run of zeros and a nonzero coefficient. */
  function AcRun(stats: nat, kx: nat, zz: seq<int>, ke: nat, se: nat, k: nat, rest: seq<Decision>): seq<Decision>
    requires k < ke <= se < |zz| && zz[ke] != 0
    decreases se - k, 0
  {
    [Decision(stats + 3 * k + 1, zz[k + 1] != 0)] +
    if zz[k + 1] == 0 then AcRun(stats, kx, zz, ke, se, k + 1, rest)
    else AcNew(stats, kx, k + 1, zz[k + 1], AcFrom(stats, kx, zz, ke, se, k + 1, rest))
  }

  /** Sign and magnitude of a nonzero coefficient x at index k. */
  function AcNew(stats: nat, kx: nat, k: nat, x: int, rest: seq<Decision>): seq<Decision>
    requires x != 0 && k >= 1
  {
    [Decision(FIXED_BIN, x < 0)] + AcMagnitude(stats, stats + 3 * k - 1, k, kx, Abs(x) - 1, rest)
  }

  /** AC coefficients k+1 .. se of a refinement scan; kex is the last coefficient that was
      already nonzero at the previous precision. */
  function RefineFrom(stats: nat, zz: seq<int>, kex: nat, ke: nat, se: nat, k: nat, rest: seq<Decision>): seq<Decision>
    requires ke <= se < |zz| && k <= se && (ke > 0 ==> zz[ke] != 0)
    decreases se - k, 1
  {
    if k >= ke then if k < se then [Decision(stats + 3 * k, true)] + rest else rest
    else if k >= kex then [Decision(stats + 3 * k, false)] + RefineRun(stats, zz, kex, ke, se, k, rest)
    else RefineRun(stats, zz, kex, ke, se, k, rest)
  }

  function RefineRun(stats: nat, zz: seq<int>, kex: nat, ke: nat, se: nat, k: nat, rest: seq<Decision>): seq<Decision>
    requires k < ke <= se < |zz| && zz[ke] != 0
    decreases se - k, 0
  {
    if Abs(zz[k + 1]) >= 2 then
      [Decision(stats + 3 * k + 2, Abs(zz[k + 1]) % 2 == 1)] + RefineFrom(stats, zz, kex, ke, se, k + 1, rest)
    else
      [Decision(stats + 3 * k + 1, zz[k + 1] != 0)] +
      if zz[k + 1] == 0 then RefineRun(stats, zz, kex, ke, se, k + 1, rest)
      else [Decision(FIXED_BIN, zz[k + 1] < 0)] + RefineFrom(stats, zz, kex, ke, se, k + 1, rest)
  }

  // One-step unfoldings, for the loops that emit or follow these scripts.

  /** Zero runs look the same in first and refinement scans. */
  datatype Mode = First(kx: nat) | Refine(kex: nat)

  ghost function RunScript(mode: Mode, stats: nat, zz: seq<int>, ke: nat, se: nat, k: nat,
                           rest: seq<Decision>): seq<Decision>
    requires k < ke <= se < |zz| && zz[ke] != 0
  {
    match mode
    case First(kx) => AcRun(stats, kx, zz, ke, se, k, rest)
    case Refine(kex) => RefineRun(stats, zz, kex, ke, se, k, rest)
  }

  lemma ZeroInRun(mode: Mode, stats: nat, zz: seq<int>, ke: nat, se: nat, k: nat, rest: seq<Decision>)
    requires k < ke <= se < |zz| && zz[ke] != 0 && zz[k + 1] == 0
    ensures k + 1 < ke
    ensures RunScript(mode, stats, zz, ke, se, k, rest) ==
            [Decision(stats + 3 * k + 1, false)] + RunScript(mode, stats, zz, ke, se, k + 1, rest)
  {
  }

  lemma UnfoldDcMagnitude(stats: nat, st: nat, v: nat, rest: seq<Decision>)
    ensures v == 0 ==> DcMagnitude(stats, st, v, rest) == [Decision(st, false)] + LowBits(st + 14, 0, v, rest)
    ensures v != 0 ==> DcMagnitude(stats, st, v, rest) == [Decision(st, true)] + Category(stats + 20, v, v, rest)
  {
  }

  lemma UnfoldCategory(st: nat, y: nat, v: nat, rest: seq<Decision>)
    requires y >= 1 && v >= 1
    ensures Category(st, y, v, rest) ==
            if y / 2 == 0 then [Decision(st, false)] + LowBits(st + 14, TopBit(v), v, rest)
            else [Decision(st, true)] + Category(st + 1, y / 2, v, rest)
  {
  }

  lemma UnfoldAcFrom(stats: nat, kx: nat, zz: seq<int>, ke: nat, se: nat, k: nat, rest: seq<Decision>)
    requires ke <= se < |zz| && k <= se && (ke > 0 ==> zz[ke] != 0)
    ensures var s := AcFrom(stats, kx, zz, ke, se, k, rest);
            if k < ke then s == [Decision(stats + 3 * k, false)] + AcRun(stats, kx, zz, ke, se, k, rest)
            else if k < se then s == [Decision(stats + 3 * k, true)] + rest else s == rest
  {
  }

  lemma UnfoldAcRun(stats: nat, kx: nat, zz: seq<int>, ke: nat, se: nat, k: nat, rest: seq<Decision>)
    requires k < ke <= se < |zz| && zz[ke] != 0
    ensures zz[k + 1] == 0 ==> k + 1 < ke
    ensures AcRun(stats, kx, zz, ke, se, k, rest) ==
            [Decision(stats + 3 * k + 1, zz[k + 1] != 0)] +
            if zz[k + 1] == 0 then AcRun(stats, kx, zz, ke, se, k + 1, rest)
            else AcNew(stats, kx, k + 1, zz[k + 1], AcFrom(stats, kx, zz, ke, se, k + 1, rest))
  {
  }

  lemma UnfoldRefineFrom(stats: nat, zz: seq<int>, kex: nat, ke: nat, se: nat, k: nat, rest: seq<Decision>)
    requires ke <= se < |zz| && k <= se && (ke > 0 ==> zz[ke] != 0)
    ensures var s := RefineFrom(stats, zz, kex, ke, se, k, rest);
            if k < ke then
              s == if k >= kex then [Decision(stats + 3 * k, false)] + RefineRun(stats, zz, kex, ke, se, k, rest)
                   else RefineRun(stats, zz, kex, ke, se, k, rest)
            else if k < se then s == [Decision(stats + 3 * k, true)] + rest else s == rest
  {
  }

  lemma UnfoldRefineRun(stats: nat, zz: seq<int>, kex: nat, ke: nat, se: nat, k: nat, rest: seq<Decision>)
    requires k < ke <= se < |zz| && zz[ke] != 0
    ensures zz[k + 1] == 0 ==> k + 1 < ke
    ensures RefineRun(stats, zz, kex, ke, se, k, rest) ==
            if Abs(zz[k + 1]) >= 2 then
              [Decision(stats + 3 * k + 2, Abs(zz[k + 1]) % 2 == 1)] + RefineFrom(stats, zz, kex, ke, se, k + 1, rest)
            else
              [Decision(stats + 3 * k + 1, zz[k + 1] != 0)] +
              if zz[k + 1] == 0 then RefineRun(stats, zz, kex, ke, se, k + 1, rest)
              else [Decision(FIXED_BIN, zz[k + 1] < 0)] + RefineFrom(stats, zz, kex, ke, se, k + 1, rest)
  {
  }
}
