/** The decisions of the statistical model written out, as Figures F.4 to F.9 and Tables F.4 and F.5
    of ITU-T T.81 have them, and where they are coded: components with different tables share no
    statistics, and every segment starts with none. */
module ArithFigures {
  import opened Bits
  import opened Scans
  import opened Estimation
  import opened IntervalCoder
  import opened ArithModel
  import opened ArithScan
  import opened ArithAreas
  import opened Segments
  import opened ArithRoundTrip

  // The interval coder.

  /** The more probable symbol never gets the smaller part, the part of the size of Qe is the upper
      one, and the two parts make up the interval. */
  lemma MoreForTheMoreProbable(t: Table, iv: Interval, sv: Bin)
    requires iv.Normal()
    ensures var m, l := Part(t, iv, sv, Mps(sv)), Part(t, iv, sv, !Mps(sv));
            && m.range >= l.range && m.range + l.range == iv.range
            && ((m.low == iv.low && l.low == iv.low + m.range && l.range == Qe(t, sv)) ||
                (l.low == iv.low && m.low == iv.low + l.range && m.range == Qe(t, sv)))
  {
  }

  /** The estimate changes exactly when the interval has to be renormalized. */
  lemma AdaptsWhenRenormalized(t: Table, iv: Interval, sv: Bin, bit: bool)
    requires iv.Normal()
    ensures Part(t, iv, sv, bit).range >= 0x8000 ==> bit == Mps(sv) && Adapt(t, iv.range, sv, bit) == sv
    ensures Part(t, iv, sv, bit).range < 0x8000 ==>
              Adapt(t, iv.range, sv, bit) == if bit == Mps(sv) then AfterMps(t, sv) else AfterLps(t, sv)
  {
  }

  // Magnitudes.

  /** The conditioning category in numbers: zero, small and large differences (section F.1.4.4.1.2). */
  lemma DcContextIs(lower: nat, upper: nat, diff: int)
    requires lower <= upper
    ensures (diff == 0 || (lower > 0 && Abs(diff) <= Pow2(lower - 1))) ==> DcContext(lower, upper, diff) == 0
    ensures diff != 0 && (lower == 0 || Abs(diff) > Pow2(lower - 1)) && Abs(diff) <= Pow2(upper) ==>
              DcContext(lower, upper, diff) == if diff > 0 then 4 else 8
    ensures diff != 0 && (lower == 0 || Abs(diff) > Pow2(lower - 1)) && Abs(diff) > Pow2(upper) ==>
              DcContext(lower, upper, diff) == if diff > 0 then 12 else 16
  {
    Halved(lower);
    Halved(upper);
    if Abs(diff) >= 2 {
      TopBitBelow(Abs(diff) - 1, upper);
      if lower > 0 {
        TopBitBelow(Abs(diff) - 1, lower - 1);
      }
    }
  }

  lemma Halved(n: nat)
    ensures Pow2(n) / 2 == if n == 0 then 0 else Pow2(n - 1)
  {
  }

  /** The top bit of v is below 2^n exactly if v is. */
  lemma {:induction false} TopBitBelow(v: nat, n: nat)
    requires v >= 1
    ensures v < Pow2(n) <==> TopBit(v) < Pow2(n)
    ensures v < Pow2(n) <==> n > 0 && TopBit(v) <= Pow2(n - 1)
  {
    if v / 2 != 0 {
      if n == 0 {
        assert Pow2(0) == 1;
      } else {
        TopBitBelow(v / 2, n - 1);
      }
    }
  }

  lemma {:induction false} TopBitIs(v: nat, n: nat)
    requires Pow2(n) <= v < Pow2(n + 1)
    ensures TopBit(v) == Pow2(n)
  {
    if n == 0 {
      assert Pow2(0) == 1 && Pow2(1) == 2;
    } else {
      TopBitIs(v / 2, n - 1);
    }
  }

  /** The n low bits of v in one bin, highest first. */
  ghost function BitDecisions(bin: nat, v: nat, n: nat): (ds: seq<Decision>)
    ensures |ds| == n && forall i :: 0 <= i < n ==> ds[i] == Decision(bin, v / Pow2(n - 1 - i) % 2 == 1)
  {
    seq(n, i requires 0 <= i < n => Decision(bin, v / Pow2(n - 1 - i) % 2 == 1))
  }

  /** n times true, in bins one after the other. */
  ghost function Ones(bin: nat, n: nat): (ds: seq<Decision>)
    ensures |ds| == n && forall i :: 0 <= i < n ==> ds[i] == Decision(bin + i, true)
  {
    seq(n, i requires 0 <= i < n => Decision(bin + i, true))
  }

  lemma {:induction false} LowBitsAre(st: nat, v: nat, n: nat, rest: seq<Decision>)
    ensures LowBits(st, Pow2(n), v, rest) == BitDecisions(st, v, n) + rest
  {
    if n == 0 {
      assert Pow2(0) == 1;
      assert BitDecisions(st, v, 0) + rest == rest;
    } else {
      LowBitsAre(st, v, n - 1, rest);
      var d := Decision(st, v / Pow2(n - 1) % 2 == 1);
      assert BitDecisions(st, v, n) == [d] + BitDecisions(st, v, n - 1);
      assert [d] + BitDecisions(st, v, n - 1) + rest == [d] + (BitDecisions(st, v, n - 1) + rest);
    }
  }

  lemma {:induction false} CategoryIs(st: nat, y: nat, v: nat, n: nat, rest: seq<Decision>)
    requires Pow2(n) <= y < Pow2(n + 1) && v >= 1
    ensures Category(st, y, v, rest) ==
            Ones(st, n) + ([Decision(st + n, false)] + LowBits(st + n + 14, TopBit(v), v, rest))
    decreases n
  {
    hide LowBits, TopBit;
    var low := LowBits(st + n + 14, TopBit(v), v, rest);
    if n == 0 {
      assert y / 2 == 0;
      assert Ones(st, 0) + ([Decision(st, false)] + low) == [Decision(st, false)] + low;
    } else {
      CategoryIs(st + 1, y / 2, v, n - 1, rest);
      OneMore(st, n, [Decision(st + n, false)] + low);
    }
  }

  lemma OneMore(bin: nat, n: nat, rest: seq<Decision>)
    requires n > 0
    ensures Ones(bin, n) + rest == [Decision(bin, true)] + (Ones(bin + 1, n - 1) + rest)
  {
    assert Ones(bin, n) == [Decision(bin, true)] + Ones(bin + 1, n - 1);
  }

  /** A magnitude from 2^m to 2^(m + 1) - 1, of which n bits are counted in unary: the count, and
      the bits below the top one, in a bin that is 14 further on than the end of the count. */
  ghost function Magnitude(st: nat, n: nat, m: nat, v: nat, rest: seq<Decision>): seq<Decision> {
    Ones(st, n) + ([Decision(st + n, false)] + (BitDecisions(st + n + 14, v, m) + rest))
  }

  lemma MagnitudeIs(st: nat, y: nat, v: nat, n: nat, m: nat, rest: seq<Decision>)
    requires Pow2(n) <= y < Pow2(n + 1) && Pow2(m) <= v < Pow2(m + 1)
    ensures Category(st, y, v, rest) == Magnitude(st, n, m, v, rest)
  {
    hide Category, LowBits, Pow2, Ones, BitDecisions;
    TopBitIs(v, m);
    CategoryIs(st, y, v, n, rest);
    LowBitsAre(st + n + 14, v, m, rest);
  }

  /** A DC difference in conditioning category ctx: zero, or sign and magnitude. Magnitudes above one
      take the bins from X1 = 20 on. */
  lemma DcDiffIs(stats: nat, ctx: nat, diff: int, n: nat, rest: seq<Decision>)
    ensures diff == 0 ==> DcDiff(stats, ctx, diff, rest) == [Decision(stats + ctx, false)] + rest
    ensures Abs(diff) == 1 ==>
              DcDiff(stats, ctx, diff, rest) ==
              [Decision(stats + ctx, true)] + ([Decision(stats + ctx + 1, diff < 0)] +
                ([Decision(stats + ctx + (if diff > 0 then 2 else 3), false)] + rest))
    ensures Pow2(n) < Abs(diff) <= Pow2(n + 1) ==>
              DcDiff(stats, ctx, diff, rest) ==
              [Decision(stats + ctx, true)] + ([Decision(stats + ctx + 1, diff < 0)] +
                ([Decision(stats + ctx + (if diff > 0 then 2 else 3), true)] +
                  Magnitude(stats + 20, n, n, Abs(diff) - 1, rest)))
  {
    hide Category, LowBits, Pow2, Magnitude;
    if Pow2(n) < Abs(diff) <= Pow2(n + 1) {
      MagnitudeIs(stats + 20, Abs(diff) - 1, Abs(diff) - 1, n, n, rest);
    }
  }

  /** A nonzero AC coefficient at index k, T.81 counting the bins of its triple from 3(k - 1) on:
      sign, and magnitude as above, but from X2 = 189 on up to index Kx and from 217 on above. */
  lemma AcNewIs(stats: nat, kx: nat, k: nat, x: int, n: nat, rest: seq<Decision>)
    requires x != 0 && k >= 1
    ensures Abs(x) == 1 ==>
              AcNew(stats, kx, k, x, rest) ==
              [Decision(FIXED_BIN, x < 0)] + ([Decision(stats + 3 * (k - 1) + 2, false)] + rest)
    ensures Abs(x) == 2 ==>
              AcNew(stats, kx, k, x, rest) ==
              [Decision(FIXED_BIN, x < 0)] + ([Decision(stats + 3 * (k - 1) + 2, true)] +
                ([Decision(stats + 3 * (k - 1) + 2, false)] + rest))
    ensures Pow2(n + 1) < Abs(x) <= Pow2(n + 2) ==>
              AcNew(stats, kx, k, x, rest) ==
              [Decision(FIXED_BIN, x < 0)] + ([Decision(stats + 3 * (k - 1) + 2, true)] +
                ([Decision(stats + 3 * (k - 1) + 2, true)] +
                  Magnitude(stats + (if k <= kx then 189 else 217), n, n + 1, Abs(x) - 1, rest)))
  {
    hide Category, LowBits, Magnitude;
    if Pow2(n + 1) < Abs(x) <= Pow2(n + 2) {
      MagnitudeIs(stats + (if k <= kx then 189 else 217), (Abs(x) - 1) / 2, Abs(x) - 1, n, n + 1, rest);
    }
  }

  /** From index k on, the next nonzero coefficient being at index j: not the end of the block,
      zeros, the coefficient, and the rest. After the last one the end of the block, unless it is at
      the end of the band. */
  lemma {:induction false} AcRunIs(stats: nat, kx: nat, zz: seq<int>, ke: nat, se: nat, k: nat, j: nat,
                                   rest: seq<Decision>)
    requires k < j <= ke <= se < |zz| && zz[ke] != 0 && zz[j] != 0 && forall i :: k < i < j ==> zz[i] == 0
    ensures AcRun(stats, kx, zz, ke, se, k, rest) ==
            seq(j - k - 1, i requires 0 <= i < j - k - 1 => Decision(stats + 3 * (k + i) + 1, false)) +
            [Decision(stats + 3 * (j - 1) + 1, true)] +
            AcNew(stats, kx, j, zz[j], AcFrom(stats, kx, zz, ke, se, j, rest))
    decreases j - k
  {
    hide AcNew, AcFrom, AcRun;
    UnfoldAcRun(stats, kx, zz, ke, se, k, rest);
    var zeros := seq(j - k - 1, i requires 0 <= i < j - k - 1 => Decision(stats + 3 * (k + i) + 1, false));
    if j > k + 1 {
      AcRunIs(stats, kx, zz, ke, se, k + 1, j, rest);
      assert zeros == [Decision(stats + 3 * k + 1, false)] +
        seq(j - k - 2, i requires 0 <= i < j - k - 2 => Decision(stats + 3 * (k + 1 + i) + 1, false));
    } else {
      assert zeros == [];
    }
  }

  lemma AcFromIs(stats: nat, kx: nat, zz: seq<int>, ke: nat, se: nat, k: nat, j: nat, rest: seq<Decision>)
    requires k <= ke <= se < |zz| && (ke > 0 ==> zz[ke] != 0)
    ensures k == ke ==>
              AcFrom(stats, kx, zz, ke, se, k, rest) ==
              if ke < se then [Decision(stats + 3 * ke, true)] + rest else rest
    ensures k < j <= ke && zz[j] != 0 && (forall i :: k < i < j ==> zz[i] == 0) ==>
              AcFrom(stats, kx, zz, ke, se, k, rest) ==
              [Decision(stats + 3 * k, false)] +
              (seq(j - k - 1, i requires 0 <= i < j - k - 1 => Decision(stats + 3 * (k + i) + 1, false)) +
               [Decision(stats + 3 * (j - 1) + 1, true)] +
               AcNew(stats, kx, j, zz[j], AcFrom(stats, kx, zz, ke, se, j, rest)))
  {
    if k < j <= ke && zz[j] != 0 && forall i :: k < i < j ==> zz[i] == 0 {
      UnfoldAcFrom(stats, kx, zz, ke, se, k, rest);
      hide AcFrom, AcRun;
      AcRunIs(stats, kx, zz, ke, se, k, j, rest);
    }
  }

  /** The refinement of the coefficients 2, 0, -1, 3, 1 (index 1 to 5), the first and the fourth being
      known to be nonzero before: no end of block is coded up to there, one bit each for the known
      ones, whether there is a new one for the others, and its sign. */
  lemma RefinementExample(stats: nat, rest: seq<Decision>)
    ensures var zz := [9, 2, 0, -1, 3, 1, 0];
            RefineFrom(stats, zz, 4, 5, 6, 0, rest) ==
            [Decision(stats + 2, false), Decision(stats + 4, false), Decision(stats + 7, true),
             Decision(FIXED_BIN, true), Decision(stats + 11, true), Decision(stats + 12, false),
             Decision(stats + 13, true), Decision(FIXED_BIN, false), Decision(stats + 15, true)] + rest
  {
    var zz := [9, 2, 0, -1, 3, 1, 0];
    assert RefineFrom(stats, zz, 4, 5, 6, 5, rest) == [Decision(stats + 15, true)] + rest;
    assert RefineFrom(stats, zz, 4, 5, 6, 4, rest) ==
      [Decision(stats + 12, false)] + RefineRun(stats, zz, 4, 5, 6, 4, rest);
    assert RefineRun(stats, zz, 4, 5, 6, 4, rest) ==
      [Decision(stats + 13, true), Decision(FIXED_BIN, false), Decision(stats + 15, true)] + rest;
    assert RefineRun(stats, zz, 4, 5, 6, 3, rest) ==
      [Decision(stats + 11, true)] + RefineFrom(stats, zz, 4, 5, 6, 4, rest);
    assert RefineRun(stats, zz, 4, 5, 6, 2, rest) ==
      [Decision(stats + 7, true), Decision(FIXED_BIN, true)] + RefineRun(stats, zz, 4, 5, 6, 3, rest);
    assert RefineRun(stats, zz, 4, 5, 6, 1, rest) ==
      [Decision(stats + 4, false)] + RefineRun(stats, zz, 4, 5, 6, 2, rest);
    assert RefineRun(stats, zz, 4, 5, 6, 0, rest) ==
      [Decision(stats + 2, false)] + RefineRun(stats, zz, 4, 5, 6, 1, rest);
  }

  // Predictions.

  lemma OneMoreItem(scan: Scan, p: Pred, items: seq<Item>, n: nat)
    requires scan.Ok() && PredOk(scan, p) && ItemsOk(scan, items) && n < |items|
    ensures PredAfter(scan, p, items[..n + 1]) == NextPred(scan, PredAfter(scan, p, items[..n]), items[n])
  {
    assert items[..n + 1] == items[..n] + [items[n]];
    assert PredAfter(scan, PredAfter(scan, p, items[..n]), [items[n]]) ==
      NextPred(scan, PredAfter(scan, p, items[..n]), items[n]);
    ScriptConcat(scan, p, items[..n], [items[n]], []);
  }

  /** The prediction for the first block of a component in a segment is 0. */
  lemma {:induction false} FirstPrediction(scan: Scan, items: seq<Item>, n: nat, c: nat)
    requires scan.Ok() && ItemsOk(scan, items) && n <= |items| && c < scan.NumComps() && NoneBetween(items, -1, n, c)
    ensures var p := PredAfter(scan, FreshPred(scan), items[..n]); p.last[c] == 0 && p.ctx[c] == 0
  {
    hide DcContext;
    if n > 0 {
      FirstPrediction(scan, items, n - 1, c);
      OneMoreItem(scan, FreshPred(scan), items, n - 1);
    }
  }

  /** Later ones have the value of the component's last block, and the category of its difference,
      for the thresholds of the component's table. */
  lemma {:induction false} NextPrediction(scan: Scan, items: seq<Item>, m: nat, n: nat, c: nat)
    requires scan.Ok() && ItemsOk(scan, items) && m < n <= |items| && scan.UsesDc()
    requires items[m].comp == c && NoneBetween(items, m, n, c)
    ensures var p, q := PredAfter(scan, FreshPred(scan), items[..n]), PredAfter(scan, FreshPred(scan), items[..m]);
            var now := DcValue(scan, items[m].block);
            && p.last[c] == now
            && p.ctx[c] == DcContext(scan.dcL[scan.dcTbl[c]], scan.dcU[scan.dcTbl[c]], now - q.last[c])
    decreases n
  {
    hide DcContext, DcValue, PredAfter;
    OneMoreItem(scan, FreshPred(scan), items, n - 1);
    if m < n - 1 {
      NextPrediction(scan, items, m, n - 1, c);
    }
  }

  /** Segment i has the MCUs from ir to ir + r - 1, or to the last one. */
  lemma SegmentIs(scan: Scan, mcus: seq<Mcu>, r: nat, i: nat)
    requires scan.Ok() && McusOk(scan, mcus) && r > 0 && i * r <= |mcus|
    ensures 0 <= i * r
    ensures var last := if i * r + r <= |mcus| then i * r + r else |mcus|;
            && ItemsOk(scan, Flat(mcus[i * r..last]))
            && SegmentScript(scan, mcus, r, i) == Script(scan, FreshPred(scan), Flat(mcus[i * r..last]), [])
  {
    SegmentStart(|mcus|, r, i);
    FlatOk(scan, mcus[i * r..SegmentLimit(|mcus|, r, i * r)]);
  }

  /** The decisions for block n of a segment come after those for the blocks before it. */
  lemma BlockInSegment(scan: Scan, items: seq<Item>, n: nat)
    requires scan.Ok() && ItemsOk(scan, items) && n < |items|
    ensures var p := PredAfter(scan, FreshPred(scan), items[..n]);
            Script(scan, FreshPred(scan), items, []) ==
            Script(scan, FreshPred(scan), items[..n],
                   BlockScript(scan, p, items[n], Script(scan, NextPred(scan, p, items[n]), items[n + 1..], [])))
  {
    hide BlockScript, NextPred, OrderOk;
    assert items == items[..n] + items[n..];
    ScriptConcat(scan, FreshPred(scan), items[..n], items[n..], []);
  }

  // Which statistics.

  /** The areas have 64 and 256 bins, and no two of them, nor any and the fixed bin, share one. */
  lemma AreasApart(t: nat, u: nat, i: nat, j: nat)
    requires t < 16 && u < 16
    ensures t != u && i < 64 && j < 64 ==> DcStats(t) + i != DcStats(u) + j
    ensures t != u && i < 256 && j < 256 ==> AcStats(t) + i != AcStats(u) + j
    ensures i < 64 && j < 256 ==> DcStats(t) + i != AcStats(u) + j
    ensures DcStats(t) + i != FIXED_BIN && AcStats(t) + i != FIXED_BIN
  {
  }

  /** Components with different tables share no statistics: no decision of one is coded in a bin of
      the other, except in the fixed bin. */
  lemma BlocksApart(scan: Scan, p: Pred, a: Item, q: Pred, b: Item, i: nat, j: nat)
    requires scan.Ok() && PredOk(scan, p) && PredOk(scan, q)
    requires a.comp < scan.NumComps() && b.comp < scan.NumComps()
    requires -0x8000 <= p.last[a.comp] < 0x8000 && -0x8000 <= q.last[b.comp] < 0x8000
    requires scan.dcTbl[a.comp] != scan.dcTbl[b.comp] && scan.acTbl[a.comp] != scan.acTbl[b.comp]
    requires i < |BlockScript(scan, p, a, [])| && j < |BlockScript(scan, q, b, [])|
    ensures BlockScript(scan, p, a, [])[i].bin == BlockScript(scan, q, b, [])[j].bin ==>
              BlockScript(scan, p, a, [])[i].bin == FIXED_BIN
  {
    hide BlockScript, OrderOk, PredOk;
    ghost var inA := (bin: nat) => a.comp < |scan.dcTbl| == |scan.acTbl| && InAreas(scan, a.comp, bin);
    ghost var inB := (bin: nat) => b.comp < |scan.dcTbl| == |scan.acTbl| && InAreas(scan, b.comp, bin);
    BlockWithin(scan, p, a, [], inA);
    BlockWithin(scan, q, b, [], inB);
    var x, y := BlockScript(scan, p, a, [])[i].bin, BlockScript(scan, q, b, [])[j].bin;
    assert inA(x) && inB(y);
  }

  /** A restart clears all bins of the tables that the scan uses. */
  lemma RestartClears(scan: Scan, bins: seq<Bin>, c: nat, i: nat)
    requires scan.Ok() && |bins| == TOTAL_BINS && c < scan.NumComps()
    ensures scan.ss == 0 && scan.kind != DcRefine && i < 64 ==>
              AfterRestart(scan, bins).bins[DcStats(scan.dcTbl[c]) + i] == 0
    ensures scan.se > 0 && i < 256 ==> AfterRestart(scan, bins).bins[AcStats(scan.acTbl[c]) + i] == 0
  {
  }

  /** So every segment of a scan, restarts or not, starts without statistics. */
  lemma FreshStatistics(t: Table, scan: Scan, segs: seq<Seg>, n: nat, c: nat, i: nat)
    requires scan.Ok() && Chained(t, scan, segs) && n < |segs| && c < scan.NumComps()
    ensures |segs[n].start.bins| == TOTAL_BINS
    ensures scan.ss == 0 && scan.kind != DcRefine && i < 64 ==> segs[n].start.bins[DcStats(scan.dcTbl[c]) + i] == 0
    ensures scan.se > 0 && i < 256 ==> segs[n].start.bins[AcStats(scan.acTbl[c]) + i] == 0
  {
    hide SegOk, Run, Resets, Holds;
    ChainAt(t, scan, segs, n);
    SegFacts(t, segs[n]);
    if n > 0 {
      ChainAt(t, scan, segs, n - 1);
      SegFacts(t, segs[n - 1]);
      assert segs[..n][n - 1] == segs[n - 1];
      RestartClears(scan, Run(t, segs[n - 1].start, segs[n - 1].decisions).bins, c, i);
    }
  }
}
