/** The arithmetic entropy encoder of a scan: MCU routines for sequential mode and for the
    four kinds of progressive scan. */
module ArithScanEncoder {
  import opened Bits
  import opened Scans
  import opened Estimation
  import opened IntervalCoder
  import opened ArithModel
  import opened ArithScan
  import opened Segments
  import opened ByteStuffing
  import ArithEncoder

  /** j shifts into counting the category of y: the mask has grown from m0 to m and v2 is
      what is left of y. */
  ghost predicate Counted(m0: nat, y: nat, j: int, m: nat, v2: nat) {
    && j >= 0 && v2 >= 1
    && Pow2(j) * v2 <= y
    && (y >= 1 ==> m0 * TopBit(y) == m * TopBit(v2))
  }

  lemma CountStart(m0: nat, y: nat)
    requires y >= 1
    ensures Counted(m0, y, 0, m0, y)
  {
  }

  lemma CountStep(m0: nat, y: nat, j: int, m: nat, v2: nat)
    requires Counted(m0, y, j, m, v2) && v2 / 2 != 0 && y < 0x1_0000
    ensures Counted(m0, y, j + 1, 2 * m, v2 / 2) && j <= 15
  {
    CountBound(m0, y, j, m, v2);
    assert Pow2(j + 1) == 2 * Pow2(j);
    assert TopBit(v2) == 2 * TopBit(v2 / 2);
    HalfProduct(Pow2(j), v2);
    DoubledProduct(m, TopBit(v2 / 2));
  }

  lemma HalfProduct(p: nat, v: nat)
    ensures (2 * p) * (v / 2) <= p * v
  {
    MulMono(2 * (v / 2), v, p);
    assert (2 * (v / 2)) * p == (2 * p) * (v / 2);
  }

  lemma CountEnd(m0: nat, y: nat, j: int, m: nat, v2: nat)
    requires Counted(m0, y, j, m, v2) && v2 / 2 == 0 && y >= 1
    ensures m == m0 * TopBit(y)
  {
    assert TopBit(v2) == 1;
  }

  lemma CountBound(m0: nat, y: nat, j: int, m: nat, v2: nat)
    requires Counted(m0, y, j, m, v2) && y < 0x1_0000
    ensures j <= 15
  {
    MulMono(1, v2, Pow2(j));
    if j >= 16 {
      Pow2Mono(16, j);
      Pow2Small();
    }
  }

  class ScanEncoder {
    const coder: ArithEncoder.Encoder
    const scan: Scan
    const restartInterval: nat
    var lastDc: seq<int>
    var dcContext: seq<nat>
    var restartsToGo: nat
    var nextRestartNum: nat
    ghost var done: seq<Seg>  // the segments finished so far

    /** The predictions and the coder are usable. */
    ghost predicate Coding()
      reads this, coder, coder.bins
    {
      && coder.Valid() && coder.bins.Length == TOTAL_BINS
      && scan.Ok()
      && PredOk(scan, Preds())
      && forall c :: 0 <= c < |lastDc| ==> -0x8000 <= lastDc[c] < 0x8000
    }

    ghost predicate Valid()
      reads this, coder, coder.bins
    {
      && Coding()
      && nextRestartNum == |done| % 8
      && Chained(coder.table, scan, done)
      && coder.start == StartOf(coder.table, scan, done)
      && coder.base == Wire(Datas(done))
    }

    ghost function Preds(): Pred
      reads this
    {
      Pred(lastDc, dcContext)
    }

    /** jinit_arith_encoder and start_pass: all statistics zero, but the fixed bin. */
    constructor (table: Table, scan: Scan, restartInterval: nat)
      requires scan.Ok()
      ensures Valid() && fresh(coder) && fresh(coder.bins)
      ensures this.scan == scan && coder.table == table && this.restartInterval == restartInterval
      ensures Preds() == FreshPred(scan) && done == [] && coder.history == [] && !coder.live
      ensures restartsToGo == restartInterval
    {
      this.scan := scan;
      this.restartInterval := restartInterval;
      restartsToGo, nextRestartNum := restartInterval, 0;
      lastDc := seq(scan.NumComps(), _ => 0);
      dcContext := seq(scan.NumComps(), _ => 0);
      done := [];
      hide ArithEncoder.Encoder.Valid;
      coder := new ArithEncoder.Encoder(table, TOTAL_BINS);
      new;
      coder.bins[FIXED_BIN] := 113;
      assert coder.bins[..] == FreshState().bins;
      coder.StartSegment();
    }

    /** while (v2 >>= 1) ... and the decision that ends the category. */
    method EncodeCategory(st0: nat, y: nat, m0: nat, ghost v: nat, ghost rest: seq<Decision>) returns (st: nat, m: nat)
      requires coder.Valid() && 1 <= y < 0x1_0000 && v >= 1 && st0 + 15 < coder.bins.Length
      modifies coder, coder.bins
      ensures coder.Valid() && coder.SameSegment()
      ensures st0 <= st <= st0 + 15 && m == m0 * TopBit(y)
      ensures old(coder.live && coder.script == Category(st0, y, v, rest)) ==>
              coder.live &&
              coder.script == LowBits(st + 14, TopBit(v), v, rest)
    {
      hide Counted, TopBit, ArithEncoder.Encoder.Valid;
      ghost var on := coder.live && coder.script == Category(st0, y, v, rest);
      st, m := st0, m0;
      var v2 := y;
      CountStart(m0, y);
      while v2 / 2 != 0
        invariant coder.Valid() && coder.SameSegment()
        invariant v2 >= 1 && st0 <= st && Counted(m0, y, st - st0, m, v2)
        invariant on ==> coder.live &&
                         coder.script == Category(st, v2, v, rest)
        decreases v2
      {
        CountStep(m0, y, st - st0, m, v2);
        v2 := v2 / 2;
        coder.Encode(st, true);
        m := m * 2;
        st := st + 1;
      }
      CountBound(m0, y, st - st0, m, v2);
      CountEnd(m0, y, st - st0, m, v2);
      coder.Encode(st, false);
    }

    /** while (m >>= 1) arith_encode(cinfo, st, (m & v) ? 1 : 0) */
    method EncodeLowBits(st: nat, m0: nat, v: nat, ghost rest: seq<Decision>)
      requires coder.Valid() && st < coder.bins.Length
      modifies coder, coder.bins
      ensures coder.Valid() && coder.SameSegment()
      ensures old(coder.live && coder.script == LowBits(st, m0, v, rest)) ==>
              coder.live && coder.script == rest
    {
      hide ArithEncoder.Encoder.Valid;
      ghost var on := coder.live && coder.script == LowBits(st, m0, v, rest);
      var m := m0;
      while m / 2 != 0
        invariant coder.Valid() && coder.SameSegment()
        invariant on ==> coder.live &&
                         coder.script == LowBits(st, m, v, rest)
        decreases m
      {
        m := m / 2;
        coder.Encode(st, v / m % 2 == 1);
      }
    }

    /** The magnitude category of v, and then where and from which bit on to code the rest. */
    method EncodeDcMagnitude(stats: nat, st0: nat, v: nat, ghost rest: seq<Decision>) returns (st: nat, m: nat)
      requires coder.Valid() && v < 0x1_0000 && st0 < coder.bins.Length && stats + 35 < coder.bins.Length
      modifies coder, coder.bins
      ensures coder.Valid() && coder.SameSegment()
      ensures st == st0 || st <= stats + 35
      ensures m == if v == 0 then 0 else TopBit(v)
      ensures old(coder.live && coder.script == DcMagnitude(stats, st0, v, rest)) ==>
              coder.live && coder.script == LowBits(st + 14, m, v, rest)
    {
      UnfoldDcMagnitude(stats, st0, v, rest);
      hide ArithEncoder.Encoder.Valid, Category, TopBit, LowBits, DcMagnitude;
      if v != 0 {
        coder.Encode(st0, true);
        st, m := EncodeCategory(stats + 20, v, 1, v, rest);
      } else {
        coder.Encode(st0, false);
        st, m := st0, 0;
      }
    }

    /** Encode_DC_DIFF for component ci, whose point-transformed value is m. */
    method EncodeDc(ci: nat, m: Coef, ghost rest: seq<Decision>)
      requires Coding() && ci < scan.NumComps()
      modifies this`lastDc, this`dcContext, coder, coder.bins
      ensures Coding() && coder.SameSegment()
      ensures lastDc == old(lastDc)[ci := m]
      ensures var tbl := scan.dcTbl[ci];
              dcContext == old(dcContext)[ci := DcContext(scan.dcL[tbl], scan.dcU[tbl], m - old(lastDc[ci]))]
      ensures old(coder.live && coder.script ==
                  DcDiff(DcStats(scan.dcTbl[ci]), dcContext[ci], m - lastDc[ci], rest)) ==>
              coder.live && coder.script == rest
    {
      hide ArithEncoder.Encoder.Valid, Pow2, TopBit, DcDiff;
      var tbl := scan.dcTbl[ci];
      var v := m - lastDc[ci];
      lastDc := lastDc[ci := m];
      var category := EncodeDiff(DcStats(tbl), dcContext[ci], v, rest);
      var context := 0;
      if v != 0 && category >= Pow2(scan.dcL[tbl]) / 2 {
        context := if v > 0 then 4 else 8;
        if category > Pow2(scan.dcU[tbl]) / 2 {
          context := context + 8;
        }
      }
      dcContext := dcContext[ci := context];
    }

    /** The difference itself; returns the top bit of its magnitude category. */
    method EncodeDiff(stats: nat, ctx: nat, diff: int, ghost rest: seq<Decision>) returns (category: nat)
      requires coder.Valid() && ctx <= 16 && stats + DC_STAT_BINS <= coder.bins.Length && Abs(diff) <= 0x1_0000
      modifies coder, coder.bins
      ensures coder.Valid() && coder.SameSegment()
      ensures category == if Abs(diff) <= 1 then 0 else TopBit(Abs(diff) - 1)
      ensures old(coder.live && coder.script == DcDiff(stats, ctx, diff, rest)) ==>
              coder.live && coder.script == rest
    {
      hide ArithEncoder.Encoder.Valid, LowBits, Pow2, TopBit, DcMagnitude;
      var st, v := stats + ctx, diff;
      category := 0;
      if v == 0 {
        coder.Encode(st, false);
      } else {
        coder.Encode(st, true);
        if v > 0 {
          coder.Encode(st + 1, false);
          st := st + 2;
        } else {
          v := -v;
          coder.Encode(st + 1, true);
          st := st + 3;
        }
        v := v - 1;
        st, category := EncodeDcMagnitude(stats, st, v, rest);
        EncodeLowBits(st + 14, category, v, rest);
      }
    }

    /** The magnitude of an AC coefficient: the first two decisions share a bin. */
    method EncodeAcMagnitude(stats: nat, st0: nat, k: nat, kx: nat, v: nat, ghost rest: seq<Decision>)
      requires coder.Valid() && v < 0x1_0000
      requires st0 + 14 < coder.bins.Length && stats + 246 < coder.bins.Length
      modifies coder, coder.bins
      ensures coder.Valid() && coder.SameSegment()
      ensures old(coder.live && coder.script == AcMagnitude(stats, st0, k, kx, v, rest)) ==>
              coder.live && coder.script == rest
    {
      hide ArithEncoder.Encoder.Valid, Category;
      ghost var on := coder.live && coder.script == AcMagnitude(stats, st0, k, kx, v, rest);
      var st, m := st0, 0;
      if v != 0 {
        coder.Encode(st, true);
        m := 1;
        if v / 2 != 0 {
          coder.Encode(st, true);
          st, m := EncodeCategory(stats + (if k <= kx then 189 else 217), v / 2, 2, v, rest);
        } else {
          coder.Encode(st, false);
        }
      } else {
        coder.Encode(st, false);
      }
      assert on ==> coder.script == LowBits(st + 14, m, v, rest);
      EncodeLowBits(st + 14, m, v, rest);
    }

    /** The end-of-block search: down from index k to the last coefficient that is nonzero
        at precision al. */
    method EndOfBlock(block: Block, k: nat, al: nat) returns (ke: nat)
      requires scan.Ok() && k < 64
      ensures ke == LastNonzero(Zigzag(scan.order, block, al), k)
    {
      hide PointTransform;
      ghost var zz := Zigzag(scan.order, block, al);
      ke := k;
      while ke > 0 && PointTransform(block[scan.order[ke]], al) == 0
        invariant 0 <= ke <= k && LastNonzero(zz, k) == LastNonzero(zz, ke)
      {
        ke := ke - 1;
      }
    }

    /** The zero coefficients after index k0, up to the next nonzero one. */
    method EncodeZeros(stats: nat, block: Block, al: nat, ke: nat, k0: nat, ghost mode: Mode, ghost se: nat,
                       ghost rest: seq<Decision>) returns (k: nat, v: int)
      requires coder.Valid() && scan.Ok() && coder.bins.Length == TOTAL_BINS
      requires k0 < ke <= se < 64 && stats + AC_STAT_BINS <= TOTAL_BINS
      requires PointTransform(block[scan.order[ke]], al) != 0
      modifies coder, coder.bins
      ensures coder.Valid() && coder.SameSegment()
      ensures k0 < k <= ke && v == PointTransform(block[scan.order[k]], al) != 0
      ensures var zz := Zigzag(scan.order, block, al);
              old(coder.live && coder.script == RunScript(mode, stats, zz, ke, se, k0, rest)) ==>
              coder.live && coder.script == RunScript(mode, stats, zz, ke, se, k - 1, rest)
    {
      hide ArithEncoder.Encoder.Valid, PointTransform, RunScript;
      ghost var zz := Zigzag(scan.order, block, al);
      ghost var on := coder.live && coder.script == RunScript(mode, stats, zz, ke, se, k0, rest);
      var st := stats + 3 * k0;
      k := k0 + 1;
      v := PointTransform(block[scan.order[k]], al);
      while v == 0
        invariant coder.Valid() && coder.SameSegment()
        invariant k0 < k <= ke && st == stats + 3 * (k - 1) && v == zz[k]
        invariant on ==> coder.live && coder.script == RunScript(mode, stats, zz, ke, se, k - 1, rest)
        decreases ke - k
      {
        ZeroInRun(mode, stats, zz, ke, se, k - 1, rest);
        coder.Encode(st + 1, false);
        st := st + 3;
        k := k + 1;
        v := PointTransform(block[scan.order[k]], al);
      }
    }

    /** The decisions for the nonzero coefficient v at index k. */
    method EncodeNewCoef(stats: nat, k: nat, kx: nat, v: int, ghost rest: seq<Decision>)
      requires coder.Valid() && v != 0 && Abs(v) <= 0x8000
      requires coder.bins.Length == TOTAL_BINS && stats + AC_STAT_BINS <= TOTAL_BINS && 1 <= k <= 63
      modifies coder, coder.bins
      ensures coder.Valid() && coder.SameSegment()
      ensures old(coder.live && coder.script ==
                  [Decision(stats + 3 * (k - 1) + 1, true)] + AcNew(stats, kx, k, v, rest)) ==>
              coder.live && coder.script == rest
    {
      hide ArithEncoder.Encoder.Valid, AcMagnitude;
      coder.Encode(stats + 3 * (k - 1) + 1, true);
      coder.Encode(FIXED_BIN, v < 0);
      EncodeAcMagnitude(stats, stats + 3 * (k - 1) + 2, k, kx, Abs(v) - 1, rest);
    }

    /** Figure F.5 over the band ss .. se: first AC scans, and with ss = 1 and al = 0 the AC
        part of a sequential block. */
    method EncodeAc(ci: nat, block: Block, ss: nat, se: nat, al: nat, ghost rest: seq<Decision>)
      requires Coding() && ci < scan.NumComps() && 1 <= ss && se < 64 && ss <= se + 1
      modifies coder, coder.bins
      ensures Coding() && coder.SameSegment()
      ensures var zz, tbl := Zigzag(scan.order, block, al), scan.acTbl[ci];
              old(coder.live && coder.script ==
                  AcFrom(AcStats(tbl), scan.acK[tbl], zz, LastNonzero(zz, se), se, ss - 1, rest)) ==>
              coder.live && coder.script == rest
    {
      hide ArithEncoder.Encoder.Valid, AcNew, PointTransform, LastNonzero, AcFrom, AcRun;
      var tbl := scan.acTbl[ci];
      var stats, kx := AcStats(tbl), scan.acK[tbl];
      ghost var zz := Zigzag(scan.order, block, al);
      var ke := EndOfBlock(block, se, al);
      ghost var on := coder.live && coder.script == AcFrom(stats, kx, zz, ke, se, ss - 1, rest);
      var k := ss - 1;
      while k < ke
        invariant Coding() && coder.SameSegment()
        invariant ss - 1 <= k <= se
        invariant on ==> coder.live &&
                         coder.script == AcFrom(stats, kx, zz, ke, se, k, rest)
      {
        UnfoldAcFrom(stats, kx, zz, ke, se, k, rest);
        coder.Encode(stats + 3 * k, false);
        var v;
        k, v := EncodeZeros(stats, block, al, ke, k, First(kx), se, rest);
        UnfoldAcRun(stats, kx, zz, ke, se, k - 1, rest);
        PointTransformBound(block[scan.order[k]], al);
        EncodeNewCoef(stats, k, kx, v, AcFrom(stats, kx, zz, ke, se, k, rest));
      }
      UnfoldAcFrom(stats, kx, zz, ke, se, k, rest);
      if k < se {
        coder.Encode(stats + 3 * k, true);
      }
    }

    /** The correction bit of a coefficient that was nonzero before, or the sign of a new one. */
    method EncodeRefinedCoef(stats: nat, k: nat, v: int, ghost rest: seq<Decision>)
      requires coder.Valid() && v != 0
      requires coder.bins.Length == TOTAL_BINS && stats + AC_STAT_BINS <= TOTAL_BINS && 1 <= k <= 63
      modifies coder, coder.bins
      ensures coder.Valid() && coder.SameSegment()
      ensures old(coder.live && coder.script ==
                  if Abs(v) >= 2 then [Decision(stats + 3 * (k - 1) + 2, Abs(v) % 2 == 1)] + rest
                  else [Decision(stats + 3 * (k - 1) + 1, true)] + ([Decision(FIXED_BIN, v < 0)] + rest)) ==>
              coder.live && coder.script == rest
    {
      hide ArithEncoder.Encoder.Valid;
      if Abs(v) / 2 != 0 {
        coder.Encode(stats + 3 * (k - 1) + 2, Abs(v) % 2 == 1);
      } else {
        coder.Encode(stats + 3 * (k - 1) + 1, true);
        coder.Encode(FIXED_BIN, v < 0);
      }
    }

    /** The decisions from after index k0 through the next nonzero coefficient. */
    method EncodeRefineStep(stats: nat, block: Block, se: nat, al: nat, kex: nat, ke: nat, k0: nat,
                            ghost rest: seq<Decision>) returns (k: nat)
      requires coder.Valid() && scan.Ok() && coder.bins.Length == TOTAL_BINS && stats + AC_STAT_BINS <= TOTAL_BINS
      requires k0 < ke <= se < 64 && PointTransform(block[scan.order[ke]], al) != 0
      modifies coder, coder.bins
      ensures coder.Valid() && coder.SameSegment()
      ensures k0 < k <= ke
      ensures var zz := Zigzag(scan.order, block, al);
              old(coder.live && coder.script == RefineFrom(stats, zz, kex, ke, se, k0, rest)) ==>
              coder.live && coder.script == RefineFrom(stats, zz, kex, ke, se, k, rest)
    {
      hide ArithEncoder.Encoder.Valid, PointTransform, RefineFrom, RefineRun, Zigzag, OrderOk;
      ghost var zz := Zigzag(scan.order, block, al);
      UnfoldRefineFrom(stats, zz, kex, ke, se, k0, rest);
      if k0 >= kex {
        coder.Encode(stats + 3 * k0, false);
      }
      var v;
      k, v := EncodeZeros(stats, block, al, ke, k0, Mode.Refine(kex), se, rest);
      UnfoldRefineRun(stats, zz, kex, ke, se, k - 1, rest);
      EncodeRefinedCoef(stats, k, v, RefineFrom(stats, zz, kex, ke, se, k, rest));
    }

    /** Figure G.10 over the band ss .. se: AC refinement. */
    method EncodeAcRefine(ci: nat, block: Block, ss: nat, se: nat, ah: nat, al: nat, ghost rest: seq<Decision>)
      requires Coding() && ci < scan.NumComps() && 1 <= ss <= se < 64
      modifies coder, coder.bins
      ensures Coding() && coder.SameSegment()
      ensures var zz, was, stats := Zigzag(scan.order, block, al),
              Zigzag(scan.order, block, ah), AcStats(scan.acTbl[ci]);
              var ke := LastNonzero(zz, se);
              old(coder.live && coder.script ==
                  RefineFrom(stats, zz, LastNonzero(was, ke), ke, se, ss - 1, rest)) ==>
              coder.live && coder.script == rest
    {
      hide ArithEncoder.Encoder.Valid, PointTransform, LastNonzero, RefineFrom, RefineRun, Pow2;
      var stats := AcStats(scan.acTbl[ci]);
      ghost var zz := Zigzag(scan.order, block, al);
      var ke := EndOfBlock(block, se, al);
      var kex := EndOfBlock(block, ke, ah);
      ghost var on := coder.live && coder.script == RefineFrom(stats, zz, kex, ke, se, ss - 1, rest);
      var k := ss - 1;
      while k < ke
        invariant Coding() && coder.SameSegment()
        invariant ss - 1 <= k <= se
        invariant on ==> coder.live &&
                         coder.script == RefineFrom(stats, zz, kex, ke, se, k, rest)
      {
        k := EncodeRefineStep(stats, block, se, al, kex, ke, k, rest);
      }
      UnfoldRefineFrom(stats, zz, kex, ke, se, k, rest);
      if k < se {
        coder.Encode(stats + 3 * k, true);
      }
    }

    /** One block of an MCU, by the routine of the scan. */
    method EncodeBlock(it: Item, ghost rest: seq<Decision>)
      requires Coding() && it.comp < scan.NumComps()
      modifies this`lastDc, this`dcContext, coder, coder.bins
      ensures Coding() && coder.SameSegment()
      ensures Preds() == NextPred(scan, old(Preds()), it)
      ensures old(coder.live && coder.script == BlockScript(scan, Preds(), it, rest)) ==>
              coder.live && coder.script == rest
    {
      hide ArithEncoder.Encoder.Valid, DcDiff, AcFrom, RefineFrom, LastNonzero, DcContext, Pow2;
      var ci, block := it.comp, it.block;
      ShiftedCoef(block[0], scan.al);
      match scan.kind
      case Sequential =>
        EncodeSequential(ci, block, rest);
      case DcFirst =>
        EncodeDc(ci, DcValue(scan, block), rest);
      case AcFirst =>
        EncodeAc(ci, block, scan.ss, scan.se, scan.al, rest);
      case DcRefine =>
        coder.Encode(FIXED_BIN, DcValue(scan, block) % 2 == 1);
      case AcRefine =>
        EncodeAcRefine(ci, block, scan.ss, scan.se, scan.al + 1, scan.al, rest);
    }

    method EncodeSequential(ci: nat, block: Block, ghost rest: seq<Decision>)
      requires Coding() && ci < scan.NumComps() && scan.kind == Sequential
      modifies this`lastDc, this`dcContext, coder, coder.bins
      ensures Coding() && coder.SameSegment()
      ensures Preds() == NextPred(scan, old(Preds()), Item(ci, block))
      ensures old(coder.live && coder.script == BlockScript(scan, Preds(), Item(ci, block), rest)) ==>
              coder.live && coder.script == rest
    {
      hide ArithEncoder.Encoder.Valid, DcDiff, AcFrom, RefineFrom, LastNonzero, DcContext, Pow2;
      ShiftedCoef(block[0], scan.al);
      ghost var ac := if scan.se == 0 then rest else
        var zz := Zigzag(scan.order, block, scan.al);
        AcFrom(AcStats(scan.acTbl[ci]), scan.acK[scan.acTbl[ci]], zz, LastNonzero(zz, scan.se), scan.se, 0, rest);
      EncodeDc(ci, DcValue(scan, block), ac);
      if scan.se != 0 {
        EncodeAc(ci, block, 1, scan.se, 0, rest);
      }
    }

    /** Finish the segment, write the marker, and start the next segment afresh. */
    method EmitRestart(num: nat)
      requires Valid() && num == |done| % 8
      modifies this`done, this`lastDc, this`dcContext, coder, coder.bins
      ensures Coding() && Chained(coder.table, scan, done)
      ensures coder.start == StartOf(coder.table, scan, done) && coder.base == Wire(Datas(done))
      ensures |done| == old(|done|) + 1 && done[..|done| - 1] == old(done)
      ensures done[|done| - 1].decisions == old(coder.history)
      ensures coder.history == [] && !coder.live
      ensures (scan.UsesDc() ==> Preds() == FreshPred(scan)) && (!scan.UsesDc() ==> Preds() == old(Preds()))
    {
      hide Holds, Run, Stuff, Resets, ArithEncoder.Represents, ArithEncoder.PendingOf, Wire, OnWire, Datas,
           AfterRestart, Chained;
      assert coder.bins[..] == Run(coder.table, coder.start, coder.history).bins;
      ghost var start, decisions := coder.start, coder.history;
      ghost var data := coder.FinishPass();
      coder.EmitByte(0xFF);
      coder.EmitByte(0xD0 + num);
      PutOnWire(coder.base, data, |done|);
      ExtendChain(coder.table, scan, done, Seg(start, decisions, data));
      done := done + [Seg(start, decisions, data)];
      ResetStatistics(scan, coder.bins);
      if scan.UsesDc() {
        lastDc := seq(scan.NumComps(), _ => 0);
        dcContext := seq(scan.NumComps(), _ => 0);
      }
      coder.StartSegment();
    }

    /** Emit a restart marker if one is due: the segment so far is finished and a new one
        starts with fresh predictions and statistics. */
    method CheckRestart()
      requires Valid()
      modifies this, coder, coder.bins
      ensures Valid()
      ensures if restartInterval == 0 then restartsToGo == old(restartsToGo)
              else restartsToGo == (if old(restartsToGo) == 0 then restartInterval else old(restartsToGo)) - 1
      ensures restartInterval != 0 && old(restartsToGo) == 0 ==>
              && |done| == old(|done|) + 1 && done[..|done| - 1] == old(done)
              && done[|done| - 1].decisions == old(coder.history)
              && coder.history == [] && !coder.live
              && (scan.UsesDc() ==> Preds() == FreshPred(scan)) && (!scan.UsesDc() ==> Preds() == old(Preds()))
      ensures !(restartInterval != 0 && old(restartsToGo) == 0) ==>
              && done == old(done) && Preds() == old(Preds())
              && coder.live == old(coder.live) && coder.script == old(coder.script)
              && coder.total == old(coder.total) && coder.history == old(coder.history)
    {
      hide ArithEncoder.Encoder.Valid, Holds, Run, Chained, StartOf, Wire, Datas;
      if restartInterval != 0 {
        if restartsToGo == 0 {
          EmitRestart(nextRestartNum);
          restartsToGo := restartInterval;
          nextRestartNum := (nextRestartNum + 1) % 8;
        }
        restartsToGo := restartsToGo - 1;
      }
    }

    /** The blocks of one MCU. */
    method EncodeMcu(items: seq<Item>, ghost rest: seq<Decision>)
      requires Valid() && ItemsOk(scan, items)
      modifies this`lastDc, this`dcContext, coder, coder.bins
      ensures Valid() && coder.SameSegment()
      ensures Preds() == PredAfter(scan, old(Preds()), items)
      ensures old(coder.live && coder.script == Script(scan, Preds(), items, rest)) ==>
              coder.live && coder.script == rest
    {
      hide ArithEncoder.Encoder.Valid, BlockScript, Chained, StartOf, Wire, NextPred;
      ghost var on := coder.live && coder.script == Script(scan, Preds(), items, rest);
      for b := 0 to |items|
        invariant Valid() && coder.SameSegment()
        invariant PredAfter(scan, Preds(), items[b..]) == PredAfter(scan, old(Preds()), items)
        invariant on ==> coder.live && coder.script == Script(scan, Preds(), items[b..], rest)
      {
        assert items[b..][0] == items[b] && items[b..][1..] == items[b + 1..];
        EncodeBlock(items[b], Script(scan, NextPred(scan, Preds(), items[b]), items[b + 1..], rest));
      }
    }
  }
}
