/** Where the decisions of a block are coded: in the statistics areas of its tables, which the
    library allocates separately, and in the fixed bin, whose state never changes. */
module ArithAreas {
  import opened Bits
  import opened Scans
  import opened Estimation
  import opened IntervalCoder
  import opened ArithModel
  import opened ArithScan
  import opened AritTable

  /** The bins include size ones from stats on. */
  ghost predicate Includes(bins: nat -> bool, stats: nat, size: nat) {
    forall i: nat :: stats <= i < stats + size ==> bins(i)
  }

  /** The statistics areas that a scan uses for component c, and the fixed bin. */
  predicate InAreas(scan: Scan, c: nat, bin: nat)
    requires c < |scan.dcTbl| == |scan.acTbl|
  {
    || bin == FIXED_BIN
    || (scan.UsesDc() && DcStats(scan.dcTbl[c]) <= bin < DcStats(scan.dcTbl[c]) + DC_STAT_BINS)
    || (scan.UsesAc() && AcStats(scan.acTbl[c]) <= bin < AcStats(scan.acTbl[c]) + AC_STAT_BINS)
  }

  /** Every decision is coded in one of the bins. */
  predicate Within(ds: seq<Decision>, bins: nat -> bool) {
    forall i :: 0 <= i < |ds| ==> bins(ds[i].bin)
  }

  lemma FrontWithin(d: Decision, rest: seq<Decision>, bins: nat -> bool)
    ensures Within([d] + rest, bins) <==> bins(d.bin) && Within(rest, bins)
  {
    if Within([d] + rest, bins) {
      assert ([d] + rest)[0] == d;
      forall i | 0 <= i < |rest|
        ensures bins(rest[i].bin)
      {
        assert ([d] + rest)[i + 1] == rest[i];
      }
    }
  }

  lemma {:induction false} LowBitsWithin(st: nat, m: nat, v: nat, rest: seq<Decision>, bins: nat -> bool)
    requires bins(st) && Within(rest, bins)
    ensures Within(LowBits(st, m, v, rest), bins)
    decreases m
  {
    hide Within;
    if m / 2 != 0 {
      LowBitsWithin(st, m / 2, v, rest, bins);
      FrontWithin(Decision(st, v / (m / 2) % 2 == 1), LowBits(st, m / 2, v, rest), bins);
    }
  }

  /** A magnitude of n bits takes the n bins from st on and the n bins 14 further on. */
  lemma {:induction false} CategoryWithin(st: nat, y: nat, v: nat, n: nat, rest: seq<Decision>, bins: nat -> bool)
    requires Includes(bins, st, n + 14) && 1 <= y < Pow2(n) && v >= 1 && Within(rest, bins)
    ensures Within(Category(st, y, v, rest), bins)
    decreases y
  {
    hide Within;
    assert bins(st) && bins(st + 14) && Includes(bins, st + 1, n + 13);
    if y / 2 == 0 {
      LowBitsWithin(st + 14, TopBit(v), v, rest, bins);
      FrontWithin(Decision(st, false), LowBits(st + 14, TopBit(v), v, rest), bins);
    } else {
      CategoryWithin(st + 1, y / 2, v, n - 1, rest, bins);
      FrontWithin(Decision(st, true), Category(st + 1, y / 2, v, rest), bins);
    }
  }

  lemma SubArea(bins: nat -> bool, stats: nat, size: nat, st: nat, n: nat)
    requires Includes(bins, stats, size) && stats <= st && st + n <= stats + size
    ensures Includes(bins, st, n) && forall i: nat :: st <= i < st + n ==> bins(i)
  {
  }

  /** A DC difference stays within the 64 bins of its area. */
  lemma DcWithin(stats: nat, ctx: nat, diff: int, rest: seq<Decision>, bins: nat -> bool)
    requires ctx <= 16 && Abs(diff) <= 0x1_0000 && Includes(bins, stats, DC_STAT_BINS) && Within(rest, bins)
    ensures Within(DcDiff(stats, ctx, diff, rest), bins)
  {
    hide Within, Pow2, Includes, Category;
    SubArea(bins, stats, DC_STAT_BINS, stats, DC_STAT_BINS);
    if diff == 0 {
      FrontWithin(Decision(stats + ctx, false), rest, bins);
    } else {
      var v, st := Abs(diff) - 1, stats + ctx + if diff > 0 then 2 else 3;
      if v == 0 {
        FrontWithin(Decision(st, false), rest, bins);
      } else {
        Pow2Small();
        SubArea(bins, stats, DC_STAT_BINS, stats + 20, 30);
        CategoryWithin(stats + 20, v, v, 16, rest, bins);
        FrontWithin(Decision(st, true), Category(stats + 20, v, v, rest), bins);
      }
      var more := DcMagnitude(stats, st, v, rest);
      FrontWithin(Decision(stats + ctx + 1, diff < 0), more, bins);
      FrontWithin(Decision(stats + ctx, true), [Decision(stats + ctx + 1, diff < 0)] + more, bins);
    }
  }

  lemma AcNewWithin(stats: nat, kx: nat, k: nat, x: int, rest: seq<Decision>, bins: nat -> bool)
    requires x != 0 && Abs(x) <= 0x8000 && 1 <= k <= 63 && bins(FIXED_BIN)
    requires Includes(bins, stats, AC_STAT_BINS) && Within(rest, bins)
    ensures Within(AcNew(stats, kx, k, x, rest), bins)
  {
    hide Within, Pow2, Includes, Category;
    SubArea(bins, stats, AC_STAT_BINS, stats, AC_STAT_BINS);
    var v, st, more := Abs(x) - 1, stats + 3 * k - 1, rest;
    if v / 2 != 0 {
      var top := stats + if k <= kx then 189 else 217;
      Pow2Small();
      assert Pow2(15) == 0x8000;
      SubArea(bins, stats, AC_STAT_BINS, top, 29);
      CategoryWithin(top, v / 2, v, 15, rest, bins);
      FrontWithin(Decision(st, true), Category(top, v / 2, v, rest), bins);
    }
    FrontWithin(Decision(st, false), rest, bins);
    FrontWithin(Decision(st, true), if v / 2 == 0 then [Decision(st, false)] + rest
                                    else [Decision(st, true)] + Category(stats + (if k <= kx then 189 else 217),
                                                                         v / 2, v, rest), bins);
    FrontWithin(Decision(FIXED_BIN, x < 0), AcMagnitude(stats, st, k, kx, v, rest), bins);
  }

  /** The AC coefficients of a first scan stay within the 256 bins of their area. */
  lemma {:induction false} AcFromWithin(stats: nat, kx: nat, zz: seq<int>, ke: nat, se: nat, k: nat,
                                        rest: seq<Decision>, bins: nat -> bool)
    requires ke <= se < |zz| == 64 && k <= se && (ke > 0 ==> zz[ke] != 0)
    requires forall i :: 0 <= i < 64 ==> Abs(zz[i]) <= 0x8000
    requires bins(FIXED_BIN) && Includes(bins, stats, AC_STAT_BINS) && Within(rest, bins)
    ensures Within(AcFrom(stats, kx, zz, ke, se, k, rest), bins)
    decreases se - k, 1
  {
    hide Within, Includes, AcRun;
    SubArea(bins, stats, AC_STAT_BINS, stats, AC_STAT_BINS);
    FrontWithin(Decision(stats + 3 * k, true), rest, bins);
    if k < ke {
      AcRunWithin(stats, kx, zz, ke, se, k, rest, bins);
      FrontWithin(Decision(stats + 3 * k, false), AcRun(stats, kx, zz, ke, se, k, rest), bins);
    }
  }

  lemma {:induction false} AcRunWithin(stats: nat, kx: nat, zz: seq<int>, ke: nat, se: nat, k: nat, rest: seq<Decision>,
                                       bins: nat -> bool)
    requires k < ke <= se < |zz| == 64 && zz[ke] != 0 && forall i :: 0 <= i < 64 ==> Abs(zz[i]) <= 0x8000
    requires bins(FIXED_BIN) && Includes(bins, stats, AC_STAT_BINS) && Within(rest, bins)
    ensures Within(AcRun(stats, kx, zz, ke, se, k, rest), bins)
    decreases se - k, 0
  {
    hide Within, Includes, AcFrom, AcNew, AcRun;
    SubArea(bins, stats, AC_STAT_BINS, stats, AC_STAT_BINS);
    UnfoldAcRun(stats, kx, zz, ke, se, k, rest);
    if zz[k + 1] == 0 {
      AcRunWithin(stats, kx, zz, ke, se, k + 1, rest, bins);
      FrontWithin(Decision(stats + 3 * k + 1, false), AcRun(stats, kx, zz, ke, se, k + 1, rest), bins);
    } else {
      var more := AcFrom(stats, kx, zz, ke, se, k + 1, rest);
      AcFromWithin(stats, kx, zz, ke, se, k + 1, rest, bins);
      AcNewWithin(stats, kx, k + 1, zz[k + 1], more, bins);
      FrontWithin(Decision(stats + 3 * k + 1, true), AcNew(stats, kx, k + 1, zz[k + 1], more), bins);
    }
  }

  /** So do those of a refinement. */
  lemma {:induction false} RefineFromWithin(stats: nat, zz: seq<int>, kex: nat, ke: nat, se: nat, k: nat,
                                            rest: seq<Decision>, bins: nat -> bool)
    requires ke <= se < |zz| == 64 && k <= se && (ke > 0 ==> zz[ke] != 0)
    requires bins(FIXED_BIN) && Includes(bins, stats, AC_STAT_BINS) && Within(rest, bins)
    ensures Within(RefineFrom(stats, zz, kex, ke, se, k, rest), bins)
    decreases se - k, 1
  {
    hide Within, Includes, RefineRun;
    SubArea(bins, stats, AC_STAT_BINS, stats, AC_STAT_BINS);
    FrontWithin(Decision(stats + 3 * k, true), rest, bins);
    if k < ke {
      RefineRunWithin(stats, zz, kex, ke, se, k, rest, bins);
      FrontWithin(Decision(stats + 3 * k, false), RefineRun(stats, zz, kex, ke, se, k, rest), bins);
    }
  }

  lemma {:induction false} RefineRunWithin(stats: nat, zz: seq<int>, kex: nat, ke: nat, se: nat, k: nat,
                                           rest: seq<Decision>, bins: nat -> bool)
    requires k < ke <= se < |zz| == 64 && zz[ke] != 0
    requires bins(FIXED_BIN) && Includes(bins, stats, AC_STAT_BINS) && Within(rest, bins)
    ensures Within(RefineRun(stats, zz, kex, ke, se, k, rest), bins)
    decreases se - k, 0
  {
    hide Within, Includes, RefineFrom, RefineRun;
    SubArea(bins, stats, AC_STAT_BINS, stats, AC_STAT_BINS);
    UnfoldRefineRun(stats, zz, kex, ke, se, k, rest);
    if zz[k + 1] == 0 {
      RefineRunWithin(stats, zz, kex, ke, se, k + 1, rest, bins);
      FrontWithin(Decision(stats + 3 * k + 1, false), RefineRun(stats, zz, kex, ke, se, k + 1, rest), bins);
    } else {
      var more := RefineFrom(stats, zz, kex, ke, se, k + 1, rest);
      RefineFromWithin(stats, zz, kex, ke, se, k + 1, rest, bins);
      FrontWithin(Decision(stats + 3 * k + 2, Abs(zz[k + 1]) % 2 == 1), more, bins);
      FrontWithin(Decision(FIXED_BIN, zz[k + 1] < 0), more, bins);
      FrontWithin(Decision(stats + 3 * k + 1, true), [Decision(FIXED_BIN, zz[k + 1] < 0)] + more, bins);
    }
  }

  /** Every decision of a block is the fixed bin or in the areas of the block's tables. */
  lemma BlockWithin(scan: Scan, p: Pred, it: Item, rest: seq<Decision>, bins: nat -> bool)
    requires scan.Ok() && PredOk(scan, p) && it.comp < scan.NumComps()
    requires -0x8000 <= p.last[it.comp] < 0x8000
    requires (forall i: nat :: InAreas(scan, it.comp, i) ==> bins(i)) && Within(rest, bins)
    ensures Within(BlockScript(scan, p, it, rest), bins)
  {
    hide Within, DcDiff, AcFrom, RefineFrom, LastNonzero, Zigzag, OrderOk, Pow2;
    assert InAreas(scan, it.comp, FIXED_BIN);
    var c := it.comp;
    var dcStats, acStats := DcStats(scan.dcTbl[c]), AcStats(scan.acTbl[c]);
    var zz := Zigzag(scan.order, it.block, scan.al);
    var ke := LastNonzero(zz, scan.se);
    ZigzagBound(scan.order, it.block, scan.al);
    ShiftedCoef(it.block[0], scan.al);
    var diff := DcValue(scan, it.block) - p.last[c];
    match scan.kind
    case Sequential =>
      if scan.se == 0 {
        DcWithin(dcStats, p.ctx[c], diff, rest, bins);
      } else {
        var ac := AcFrom(acStats, scan.acK[scan.acTbl[c]], zz, ke, scan.se, 0, rest);
        AcFromWithin(acStats, scan.acK[scan.acTbl[c]], zz, ke, scan.se, 0, rest, bins);
        DcWithin(dcStats, p.ctx[c], diff, ac, bins);
      }
    case DcFirst =>
      DcWithin(dcStats, p.ctx[c], diff, rest, bins);
    case AcFirst =>
      AcFromWithin(acStats, scan.acK[scan.acTbl[c]], zz, ke, scan.se, scan.ss - 1, rest, bins);
    case DcRefine =>
      FrontWithin(Decision(FIXED_BIN, DcValue(scan, it.block) % 2 == 1), rest, bins);
    case AcRefine =>
      RefineFromWithin(acStats, zz, LastNonzero(Zigzag(scan.order, it.block, scan.al + 1), ke),
                       ke, scan.se, scan.ss - 1, rest, bins);
  }

  /** The decisions of a whole sequence of blocks. */
  lemma {:induction false} ScriptWithin(scan: Scan, p: Pred, items: seq<Item>, rest: seq<Decision>, bins: nat -> bool)
    requires scan.Ok() && PredOk(scan, p) && ItemsOk(scan, items)
    requires forall c :: 0 <= c < |p.last| ==> -0x8000 <= p.last[c] < 0x8000
    requires (forall c, i: nat :: 0 <= c < scan.NumComps() && InAreas(scan, c, i) ==> bins(i)) && Within(rest, bins)
    ensures Within(Script(scan, p, items, rest), bins)
    decreases |items|
  {
    hide Within, BlockScript, InAreas, OrderOk;
    if items != [] {
      var next := NextPred(scan, p, items[0]);
      assert forall c :: 0 <= c < |next.last| ==> -0x8000 <= next.last[c] < 0x8000 by {
        ShiftedCoef(items[0].block[0], scan.al);
      }
      ScriptWithin(scan, next, items[1..], rest, bins);
      BlockWithin(scan, p, items[0], Script(scan, next, items[1..], rest), bins);
    }
  }

  /** A statistics area of one of the components. */
  predicate IsArea(scan: Scan, stats: nat, size: nat)
    requires |scan.dcTbl| == |scan.acTbl|
  {
    || (scan.UsesDc() && size == DC_STAT_BINS && exists c :: 0 <= c < |scan.dcTbl| && stats == DcStats(scan.dcTbl[c]))
    || (scan.UsesAc() && size == AC_STAT_BINS && exists c :: 0 <= c < |scan.acTbl| && stats == AcStats(scan.acTbl[c]))
  }

  predicate InSomeArea(scan: Scan, bin: nat)
    requires |scan.dcTbl| == |scan.acTbl|
  {
    exists c :: 0 <= c < |scan.dcTbl| && InAreas(scan, c, bin)
  }

  /** No decision strays out of the areas of the scan. */
  predicate Stays(scan: Scan, ds: seq<Decision>)
    requires |scan.dcTbl| == |scan.acTbl|
  {
    forall i :: 0 <= i < |ds| ==> ds[i].bin == FIXED_BIN || InSomeArea(scan, ds[i].bin)
  }

  lemma OneMoreStays(scan: Scan, ds: seq<Decision>, d: Decision, stats: nat, size: nat)
    requires |scan.dcTbl| == |scan.acTbl| && Stays(scan, ds)
    requires d.bin == FIXED_BIN || (IsArea(scan, stats, size) && stats <= d.bin < stats + size)
    ensures Stays(scan, ds + [d])
  {
    if d.bin != FIXED_BIN {
      if size == DC_STAT_BINS {
        var c :| 0 <= c < |scan.dcTbl| && stats == DcStats(scan.dcTbl[c]);
        assert InAreas(scan, c, d.bin);
      } else {
        var c :| 0 <= c < |scan.acTbl| && stats == AcStats(scan.acTbl[c]);
        assert InAreas(scan, c, d.bin);
      }
    }
  }

  lemma AreaFits(scan: Scan, stats: nat, size: nat)
    requires scan.Ok() && IsArea(scan, stats, size)
    ensures stats + size <= TOTAL_BINS
  {
  }

  lemma AreasOfComponent(scan: Scan, c: nat)
    requires scan.Ok() && c < scan.NumComps()
    ensures scan.UsesDc() ==> IsArea(scan, DcStats(scan.dcTbl[c]), DC_STAT_BINS)
    ensures scan.UsesAc() ==> IsArea(scan, AcStats(scan.acTbl[c]), AC_STAT_BINS)
  {
  }

  // The fixed bin.

  /** Entry 113 leads back to itself and does not switch the more probable symbol. */
  predicate SelfLoop(t: Table) {
    t[113].nextLps == 113 && t[113].nextMps == 113 && t[113].switchMps == 0
  }

  lemma JpegFixedEntry()
    ensures SelfLoop(JpegAritab()) && JpegAritab()[113].qe == 0x5a1d
  {
  }

  /** So no run of decisions, in whatever bins, changes the state of the fixed bin. */
  lemma {:induction false} FixedBinStays(t: Table, st: State, ds: seq<Decision>)
    requires SelfLoop(t) && st.iv.Normal() && AddressesOk(ds, |st.bins|)
    requires FIXED_BIN < |st.bins| && st.bins[FIXED_BIN] == 113
    ensures Run(t, st, ds).bins[FIXED_BIN] == 113
    decreases |ds|
  {
    hide Renorm, Part;
    if ds != [] {
      FixedBinStays(t, Step(t, st, ds[0]), ds[1..]);
    }
  }

  /** In every segment of every scan it is the entry it was set to, restarts included. */
  lemma {:induction false} FixedInChain(t: Table, scan: Scan, segs: seq<Seg>, i: nat)
    requires SelfLoop(t) && scan.Ok() && Chained(t, scan, segs) && i < |segs|
    ensures SegOk(t, segs[i]) && segs[i].start.bins[FIXED_BIN] == 113
    ensures Run(t, segs[i].start, segs[i].decisions).bins[FIXED_BIN] == 113
  {
    hide SegOk, Run, Resets, Holds;
    ChainAt(t, scan, segs, i);
    SegFacts(t, segs[i]);
    if i > 0 {
      FixedInChain(t, scan, segs, i - 1);
      SegFacts(t, segs[i - 1]);
      assert segs[..i][i - 1] == segs[i - 1];
      FixedNotReset(scan);
    }
    FixedBinStays(t, segs[i].start, segs[i].decisions);
  }

  lemma SegFacts(t: Table, s: Seg)
    requires SegOk(t, s)
    ensures s.start.iv == UNIT && |s.start.bins| == TOTAL_BINS && AddressesOk(s.decisions, TOTAL_BINS)
  {
  }

  lemma FixedNotReset(scan: Scan)
    requires scan.Ok()
    ensures !Resets(scan, FIXED_BIN)
  {
  }
}
