/** The arithmetic entropy decoder of a scan. Every routine takes whatever bits come; what it
    is proved to reconstruct is said for the bits of a given script. */
module ArithScanDecoder {
  import opened Bits
  import opened Scans
  import opened Estimation
  import opened IntervalCoder
  import opened ArithModel
  import opened ArithScan
  import opened ArithAreas
  import ByteStuffing
  import ArithDecoder

  lemma MaskBelow(e: nat)
    requires e <= 14
    ensures Pow2(e) <= 0x4000
  {
    Pow2Mono(e, 14);
    Pow2Small();
    assert Pow2(15) == 2 * Pow2(14);
  }

  /** Reading off one more bit below the ones already known. */
  lemma NextBit(x: nat, e: nat)
    ensures x - x % Pow2(e) == x - x % Pow2(e + 1) + if x / Pow2(e) % 2 == 1 then Pow2(e) else 0
  {
    hide Pow2;
    DoublePow(e);
    Euclid(x, Pow2(e));
    DivBound(x, Pow2(e));
    HalvedRemainder(x, Pow2(e), x / Pow2(e), x % Pow2(e));
  }

  lemma HalvedRemainder(x: nat, p: nat, q: int, r: nat)
    requires p >= 1 && x == p * q + r && r < p && q >= 0
    ensures x % (2 * p) == r + if q % 2 == 1 then p else 0
  {
    var h, b := q / 2, q % 2;
    assert p * (2 * h + b) == (2 * p) * h + b * p;
    Remainder(x, 2 * p, h, b * p + r);
  }

  /** The mask after all of y is counted, starting from 2^e0. */
  ghost function FullMask(e0: nat, y: nat): int
    requires y >= 1
  {
    Pow2(e0) * TopBit(y)
  }

  /** e shifts after m0 = 2^e0: what is left of y to count. */
  ghost predicate Remaining(e0: nat, y: nat, e: nat, left: nat) {
    y >= 1 && left >= 1 && FullMask(e0, y) == FullMask(e, left)
  }

  lemma RemainingStep(e0: nat, y: nat, e: nat, left: nat)
    requires Remaining(e0, y, e, left) && left / 2 != 0
    ensures Remaining(e0, y, e + 1, left / 2)
    ensures FullMask(e0, y) >= Pow2(e + 1)
  {
    assert TopBit(left) == 2 * TopBit(left / 2);
    assert Pow2(e + 1) == 2 * Pow2(e);
    RegroupedProduct(Pow2(e), TopBit(left / 2));
  }

  lemma RegroupedProduct(p: nat, t: nat)
    requires t >= 1
    ensures p * (2 * t) == (2 * p) * t >= 2 * p
  {
    MulMono(1, t, 2 * p);
  }

  /** Two 16-bit DC values that the decoder does not take for neighbours. */
  lemma RejectedDifference(scan: Scan, a: Block, b: Block)
    requires scan.Ok() && scan.UsesDc() && scan.al == 0 && scan.NumComps() == 1 && a[0] == -0x8000 && b[0] == 0x7FFF
    ensures !DiffsOk(scan, FreshPred(scan), [Item(0, a), Item(0, b)])
    ensures DiffsOk(scan, FreshPred(scan), [Item(0, a)])
  {
    hide OrderOk, DcContext;
    assert Pow2(0) == 1;
    var items := [Item(0, a), Item(0, b)];
    assert items[1..] == [Item(0, b)];
    assert [Item(0, a)][1..] == [];
  }

  lemma PreviousEndIs(order: seq<nat>, was: seq<Coef>, ss: nat, se: nat, kex: nat, last: nat)
    requires OrderOk(order) && |was| == 64 && 1 <= ss <= se < 64 && last <= se && SameLast(order, was, ss, se, kex)
    requires (last > 0 ==> was[order[last]] != 0) && forall i :: last < i <= se ==> was[order[i]] == 0
    ensures last == kex || (last < ss && kex < ss)
  {
  }

  class ScanDecoder {
    const coder: ArithDecoder.Decoder
    const scan: Scan
    const restartInterval: nat
    var restartsToGo: nat
    var nextRestartNum: nat
    var lastDc: seq<int>
    var dcContext: seq<nat>
    var failed: bool  // a code that no encoder produces was met

    /** The coder is usable, and whatever the input, its decisions were made in the statistics
        areas of the scan. */
    ghost predicate Coding()
      reads coder, coder.bins
    {
      && coder.Valid() && coder.bins.Length == TOTAL_BINS && scan.Ok()
      && Stays(scan, coder.history)
    }

    ghost predicate Valid()
      reads this, coder, coder.bins
    {
      && Coding() && nextRestartNum < 8
      && PredOk(scan, Preds())
    }

    ghost function Preds(): Pred
      reads this
    {
      Pred(lastDc, dcContext)
    }

    constructor (table: Table, scan: Scan, restartInterval: nat, file: seq<Byte>)
      requires scan.Ok()
      ensures Valid() && fresh(coder) && fresh(coder.bins)
      ensures this.scan == scan && coder.table == table && this.restartInterval == restartInterval
      ensures Preds() == FreshPred(scan) && !failed
      ensures restartsToGo == restartInterval && nextRestartNum == 0
      ensures coder.start == FreshState() && coder.history == [] && !coder.live
      ensures coder.input == file + [0xFF, 0xD9]
      ensures coder.data == ByteStuffing.Segment(coder.input, 0)
      ensures coder.end == ByteStuffing.SegmentEnd(coder.input, 0)
    {
      this.scan := scan;
      this.restartInterval := restartInterval;
      restartsToGo, nextRestartNum := restartInterval, 0;
      lastDc := seq(scan.NumComps(), _ => 0);
      dcContext := seq(scan.NumComps(), _ => 0);
      failed := false;
      hide ByteStuffing.Segment, ByteStuffing.SegmentEnd, ArithDecoder.Decoder.Valid;
      coder := new ArithDecoder.Decoder(table, TOTAL_BINS, file);
      new;
      coder.bins[FIXED_BIN] := 113;
      assert coder.bins[..] == FreshState().bins;
      coder.StartSegment();
    }

    /** A decision in the statistics area of size bins at stats. */
    method Decide(ghost stats: nat, ghost size: nat, i: nat) returns (bit: bool)
      requires Coding() && IsArea(scan, stats, size) && stats <= i < stats + size
      modifies coder, coder.bins
      ensures Coding() && coder.SameSegment()
      ensures old(coder.live && coder.script != [] && coder.script[0].bin == i) ==>
              coder.live && bit == old(coder.script)[0].bit && coder.script == old(coder.script)[1..]
    {
      hide ArithDecoder.Decoder.Valid, Stays, IsArea, IdealBit;
      AreaFits(scan, stats, size);
      ghost var history := coder.history;
      bit := coder.Decode(i);
      OneMoreStays(scan, history, Decision(i, bit), stats, size);
    }

    method DecideFixed() returns (bit: bool)
      requires Coding()
      modifies coder, coder.bins
      ensures Coding() && coder.SameSegment()
      ensures old(coder.live && coder.script != [] && coder.script[0].bin == FIXED_BIN) ==>
              coder.live && bit == old(coder.script)[0].bit && coder.script == old(coder.script)[1..]
    {
      hide ArithDecoder.Decoder.Valid, Stays, IsArea, IdealBit;
      ghost var history := coder.history;
      bit := coder.Decode(FIXED_BIN);
      OneMoreStays(scan, history, Decision(FIXED_BIN, bit), 0, 0);
    }

    /** while (arith_decode(cinfo, st)) ..., with the mask 2^e0 at the start. */
    method DecodeCategory(ghost stats: nat, ghost size: nat, st0: nat, e0: nat, ghost on: bool, ghost y: nat,
                          ghost v: nat, ghost rest: seq<Decision>)
      returns (st: nat, m: nat, ghost e: nat, ok: bool)
      requires Coding() && e0 <= 1 && IsArea(scan, stats, size) && stats <= st0 && st0 + 14 < stats + size
      requires on ==> y >= 1 && v >= 1 && coder.live && coder.script == Category(st0, y, v, rest)
      modifies coder, coder.bins
      ensures Coding() && coder.SameSegment()
      ensures ok ==> st0 <= st <= st0 + 14 && m == Pow2(e) && e <= 14
      ensures on ==> (ok <==> FullMask(e0, y) < 0x8000)
      ensures on && ok ==> m == FullMask(e0, y) && coder.live && coder.script == LowBits(st + 14, TopBit(v), v, rest)
    {
      hide ArithDecoder.Decoder.Valid, Stays, IsArea, Remaining, TopBit, Category, Pow2, FullMask, LowBits;
      ghost var left := y;
      st, m, e := st0, Pow2(e0), e0;
      if on {
        RemainingStart(e0, y);
        UnfoldCategory(st, y, v, rest);
      }
      var bit := Decide(stats, size, st);
      while bit
        invariant Coding() && coder.SameSegment()
        invariant st0 <= st && e == e0 + (st - st0) && e <= 14 && m == Pow2(e)
        invariant on ==> left >= 1 && Remaining(e0, y, e, left) && coder.live && (bit <==> left / 2 != 0)
        invariant on && bit ==> coder.script == Category(st + 1, left / 2, v, rest)
        invariant on && !bit ==> coder.script == LowBits(st + 14, TopBit(v), v, rest)
        decreases 15 - e
      {
        if on {
          RemainingStep(e0, y, e, left);
          UnfoldCategory(st + 1, left / 2, v, rest);
          left := left / 2;
        }
        DoublePow(e);
        m := m * 2;
        e := e + 1;
        if m == 0x8000 {
          ok := false;
          return;
        }
        MaskNotFull(e);
        st := st + 1;
        bit := Decide(stats, size, st);
      }
      ok := true;
      if on {
        RemainingEnd(e0, y, e, left);
      }
      MaskBelow(e);
    }

    /** while (m >>= 1) if (arith_decode(cinfo, st)) v |= m; with m = 2^e. */
    method DecodeLowBits(ghost stats: nat, ghost size: nat, st: nat, m0: nat, ghost e0: nat, ghost x: nat,
                         ghost rest: seq<Decision>) returns (v: nat)
      requires Coding() && IsArea(scan, stats, size) && stats <= st < stats + size && (m0 == 0 || m0 == Pow2(e0))
      modifies coder, coder.bins
      ensures Coding() && coder.SameSegment()
      ensures v == 0 <==> m0 == 0
      ensures (if x == 0 then m0 == 0 else m0 == TopBit(x))
              && old(coder.live && coder.script == LowBits(st, m0, x, rest)) ==>
              v == x && coder.live && coder.script == rest
    {
      hide ArithDecoder.Decoder.Valid, Stays, IsArea, TopBit;
      ghost var on := (if x == 0 then m0 == 0 else m0 == TopBit(x)) && coder.live
        && coder.script == LowBits(st, m0, x, rest);
      v := m0;
      var m := m0;
      ghost var e := e0;
      if on && x != 0 {
        TopBitLeads(x, m0);
      }
      while m / 2 != 0
        invariant Coding() && coder.SameSegment()
        invariant (m == 0 <==> m0 == 0) && v >= m0
        invariant m0 != 0 ==> m == Pow2(e)
        invariant m0 == 0 ==> v == 0
        invariant on ==> coder.live && coder.script == LowBits(st, m, x, rest)
        invariant on && x != 0 ==> v == x - x % m
        decreases m
      {
        assert e > 0;
        e := e - 1;
        if on {
          NextBit(x, e);
        }
        m := m / 2;
        var bit := Decide(stats, size, st);
        if bit {
          v := v + m;
        }
      }
    }

    /** Decode_DC_DIFF for component ci; m is the value whose difference the script codes. */
    method DecodeDc(ci: nat, ghost m: int, ghost rest: seq<Decision>)
      requires Valid() && ci < scan.NumComps() && scan.UsesDc()
      modifies this`lastDc, this`dcContext, this`failed, coder, coder.bins
      ensures Valid() && coder.SameSegment()
      ensures forall i :: 0 <= i < |lastDc| && i != ci ==>
              lastDc[i] == old(lastDc)[i] && dcContext[i] == old(dcContext)[i]
      ensures var tbl, diff := scan.dcTbl[ci], m - old(lastDc[ci]);
              old(coder.live && coder.script ==
                  DcDiff(DcStats(scan.dcTbl[ci]), dcContext[ci], m - lastDc[ci], rest)) ==>
                (failed <==> old(failed) || Abs(diff) > 0x8000) &&
                (Abs(diff) <= 0x8000 ==>
                  && coder.live && coder.script == rest && lastDc[ci] == m
                  && dcContext[ci] == DcContext(scan.dcL[tbl], scan.dcU[tbl], diff))
    {
      hide ArithDecoder.Decoder.Valid, Stays, IsArea, Pow2, TopBit, DcDiff;
      AreasOfComponent(scan, ci);
      var tbl := scan.dcTbl[ci];
      var v, category, ok := DecodeDiff(DcStats(tbl), dcContext[ci], m - lastDc[ci], rest);
      if !ok {
        failed := true;
        return;
      }
      var context := 0;
      if v != 0 && category >= Pow2(scan.dcL[tbl]) / 2 {
        if category > Pow2(scan.dcU[tbl]) / 2 {
          context := 12 + if v < 0 then 4 else 0;
        } else {
          context := 4 + if v < 0 then 4 else 0;
        }
      }
      dcContext := dcContext[ci := context];
      lastDc := lastDc[ci := lastDc[ci] + v];
    }

    /** The difference itself, with the top bit of its magnitude category. */
    method DecodeDiff(stats: nat, ctx: nat, ghost diff: int, ghost rest: seq<Decision>)
      returns (v: int, category: nat, ok: bool)
      requires Coding() && ctx <= 16 && IsArea(scan, stats, DC_STAT_BINS)
      modifies coder, coder.bins
      ensures Coding() && coder.SameSegment()
      ensures old(coder.live && coder.script == DcDiff(stats, ctx, diff, rest)) ==>
              (ok <==> Abs(diff) <= 0x8000)
      ensures old(coder.live && coder.script == DcDiff(stats, ctx, diff, rest)) && ok ==>
              v == diff && coder.live && coder.script == rest &&
              category == if Abs(diff) <= 1 then 0 else TopBit(Abs(diff) - 1)
    {
      hide ArithDecoder.Decoder.Valid, Stays, IsArea, LowBits, Pow2, TopBit, DcMagnitude;
      ghost var on := coder.live && coder.script == DcDiff(stats, ctx, diff, rest);
      ghost var x := if on && diff != 0 then Abs(diff) - 1 else 0;
      v, category, ok := 0, 0, true;
      var st := stats + ctx;
      var bit := Decide(stats, DC_STAT_BINS, st);
      if bit {
        var sign := Decide(stats, DC_STAT_BINS, st + 1);
        st := st + 2 + if sign then 1 else 0;
        ghost var e;
        st, category, e, ok := DecodeDcMagnitude(stats, st, x, rest);
        if ok {
          var magnitude := DecodeLowBits(stats, DC_STAT_BINS, st + 14, category, e, x, rest);
          v := magnitude + 1;
          if sign {
            v := -v;
          }
        }
      }
    }

    method DecodeDcMagnitude(stats: nat, st0: nat, ghost x: nat, ghost rest: seq<Decision>)
      returns (st: nat, m: nat, ghost e: nat, ok: bool)
      requires Coding() && IsArea(scan, stats, DC_STAT_BINS) && stats <= st0 < stats + DC_STAT_BINS
      modifies coder, coder.bins
      ensures Coding() && coder.SameSegment()
      ensures ok ==> (st == st0 || stats + 20 <= st <= stats + 34) && (m == 0 || m == Pow2(e))
      ensures old(coder.live && coder.script == DcMagnitude(stats, st0, x, rest)) ==>
              (ok <==> x < 0x8000)
      ensures old(coder.live && coder.script == DcMagnitude(stats, st0, x, rest)) && ok ==>
              m == (if x == 0 then 0 else TopBit(x)) && coder.live && coder.script == LowBits(st + 14, m, x, rest)
    {
      hide ArithDecoder.Decoder.Valid, Stays, IsArea, Category, TopBit, Pow2, Scan.Ok;
      ghost var on := coder.live && coder.script == DcMagnitude(stats, st0, x, rest);
      st, m, e, ok := st0, 0, 0, true;
      var bit := Decide(stats, DC_STAT_BINS, st);
      if bit {
        st, m, e, ok := DecodeCategory(stats, DC_STAT_BINS, stats + 20, 0, on, x, x, rest);
        if on {
          CategoryLimit(x);
        }
      }
    }

    /** The magnitude of a new AC coefficient. */
    method DecodeAcMagnitude(stats: nat, st0: nat, k: nat, kx: nat, ghost x: nat, ghost rest: seq<Decision>)
      returns (v: nat, ok: bool)
      requires Coding() && IsArea(scan, stats, AC_STAT_BINS) && stats <= st0 && st0 + 14 < stats + AC_STAT_BINS
      modifies coder, coder.bins
      ensures Coding() && coder.SameSegment()
      ensures x < 0x8000 && old(coder.live && coder.script == AcMagnitude(stats, st0, k, kx, x, rest)) ==>
              ok && v == x && coder.live && coder.script == rest
    {
      hide ArithDecoder.Decoder.Valid, Stays, IsArea, Category, TopBit, Pow2;
      ghost var on := x < 0x8000 && coder.live && coder.script == AcMagnitude(stats, st0, k, kx, x, rest);
      var st, m := st0, 0;
      ghost var e := 0;
      v, ok := 0, true;
      var bit := Decide(stats, AC_STAT_BINS, st);
      if bit {
        m := 1;
        OnePow();
        bit := Decide(stats, AC_STAT_BINS, st);
        if bit {
          st, m, e, ok := DecodeCategory(stats, AC_STAT_BINS, stats + (if k <= kx then 189 else 217),
                                         1, on, x / 2, x, rest);
          if on {
            HalvedCategory(x);
          }
          if !ok {
            return;
          }
        }
      }
      if on && x == 1 {
        HalvedCategory(x);
      }
      assert on ==> coder.live && coder.script == LowBits(st + 14, m, x, rest);
      v := DecodeLowBits(stats, AC_STAT_BINS, st + 14, m, e, if on then x else 0, rest);
    }

    /** Zero coefficients after index k0, up to one that is announced as nonzero; fails when
        the band is exhausted. */
    method DecodeZeros(stats: nat, se: nat, k0: nat, ghost on: bool, ghost kx: nat, ghost zz: seq<int>, ghost ke: nat,
                       ghost rest: seq<Decision>)
      returns (k: nat, ok: bool)
      requires Coding() && IsArea(scan, stats, AC_STAT_BINS)
      requires k0 < se < 64
      requires on ==> k0 < ke <= se < |zz| && zz[ke] != 0
      requires on ==> coder.live && coder.script == AcRun(stats, kx, zz, ke, se, k0, rest)
      modifies coder, coder.bins
      ensures Coding() && coder.SameSegment()
      ensures ok ==> k0 < k <= se
      ensures on ==> ok && k <= ke && zz[k] != 0 && AllZero(zz, k0 + 1, k)
      ensures on ==> coder.live && coder.script == AcNew(stats, kx, k, zz[k], AcFrom(stats, kx, zz, ke, se, k, rest))
    {
      hide ArithDecoder.Decoder.Valid, Stays, IsArea, AcRun, AcNew, AcFrom, AllZero;
      var st := stats + 3 * k0;
      k, ok := k0 + 1, true;
      if on {
        AllZeroStart(zz, k);
        UnfoldAcRun(stats, kx, zz, ke, se, k0, rest);
      }
      var bit := Decide(stats, AC_STAT_BINS, st + 1);
      while !bit
        invariant Coding() && coder.SameSegment()
        invariant k0 < k <= se && st == stats + 3 * (k - 1)
        invariant on ==> k <= ke && AllZero(zz, k0 + 1, k) && coder.live && (bit <==> zz[k] != 0)
        invariant on && !bit ==> k < ke && coder.script == AcRun(stats, kx, zz, ke, se, k, rest)
        invariant on && bit ==> coder.script == AcNew(stats, kx, k, zz[k], AcFrom(stats, kx, zz, ke, se, k, rest))
        decreases se - k
      {
        st := st + 3;
        if k >= se {
          ok := false;
          return;
        }
        if on {
          AllZeroStep(zz, k0 + 1, k);
          UnfoldAcRun(stats, kx, zz, ke, se, k, rest);
        }
        k := k + 1;
        bit := Decide(stats, AC_STAT_BINS, st + 1);
      }
    }

    /** Sign and magnitude of a new coefficient at index k. */
    method DecodeNewCoef(stats: nat, k: nat, kx: nat, ghost on: bool, ghost x: int, ghost rest: seq<Decision>)
      returns (v: int, ok: bool)
      requires Coding() && IsArea(scan, stats, AC_STAT_BINS)
      requires 1 <= k < 64
      requires on ==> 0 < Abs(x) <= 0x8000 && coder.live && coder.script == AcNew(stats, kx, k, x, rest)
      modifies coder, coder.bins
      ensures Coding() && coder.SameSegment()
      ensures on ==> ok && v == x && coder.live && coder.script == rest
    {
      hide ArithDecoder.Decoder.Valid, Stays, IsArea, AcMagnitude;
      var sign := DecideFixed();
      v, ok := DecodeAcMagnitude(stats, stats + 3 * (k - 1) + 2, k, kx, if on then Abs(x) - 1 else 0, rest);
      v := v + 1;
      if sign {
        v := -v;
      }
    }

    /** Figure F.20 over the band ss .. se: first AC scans, and with ss = 1 and al = 0 the AC
        part of a sequential block. zz are the coefficients that the script codes. */
    method DecodeAc(ci: nat, block: array<Coef>, ss: nat, se: nat, al: nat, ghost zz: seq<int>,
                    ghost rest: seq<Decision>)
      requires Valid() && ci < scan.NumComps() && scan.UsesAc()
      requires 1 <= ss <= se < 64 && block.Length == 64 && |zz| == 64
      modifies this`failed, coder, coder.bins, block
      ensures Valid() && coder.SameSegment()
      ensures var tbl := scan.acTbl[ci];
              old(coder.live && coder.script ==
                  AcFrom(AcStats(tbl), scan.acK[tbl], zz, LastNonzero(zz, se), se, ss - 1, rest)) &&
              (forall k :: ss <= k <= se ==> Abs(zz[k]) <= 0x8000) ==>
              failed == old(failed) && coder.live && coder.script == rest &&
              block[..] == Placed(scan.order, old(block[..]), zz, ss, se, al)
    {
      hide ArithDecoder.Decoder.Valid, Stays, IsArea, AcNew, AcFrom, AcRun, LastNonzero, AllZero, Placed, Pow2;
      AreasOfComponent(scan, ci);
      var tbl := scan.acTbl[ci];
      var stats, kx := AcStats(tbl), scan.acK[tbl];
      ghost var ke, was := LastNonzero(zz, se), block[..];
      ghost var on := coder.live && coder.script == AcFrom(stats, kx, zz, ke, se, ss - 1, rest) &&
                      forall k :: ss <= k <= se ==> Abs(zz[k]) <= 0x8000;
      var k := ss - 1;
      PlacedStart(scan.order, was, zz, ss, al);
      while k < se
        invariant Valid() && coder.SameSegment()
        invariant ss - 1 <= k <= se
        invariant on ==> failed == old(failed) && coder.live && coder.script == AcFrom(stats, kx, zz, ke, se, k, rest)
        invariant on ==> block[..] == Placed(scan.order, was, zz, ss, k, al)
      {
        if on {
          UnfoldAcFrom(stats, kx, zz, ke, se, k, rest);
        }
        var bit := Decide(stats, AC_STAT_BINS, stats + 3 * k);
        if bit {
          if on {
            PlacedZeros(scan.order, was, zz, ss, k, se, al);
          }
          return;
        }
        var ok;
        k, ok := DecodeAcStep(stats, kx, block, se, al, k, on, zz, ke, ss, was, rest);
        if !ok {
          failed := true;
          return;
        }
      }
      if on {
        UnfoldAcFrom(stats, kx, zz, ke, se, k, rest);
      }
    }

    /** A run of zeros and the nonzero coefficient that ends it. */
    method DecodeAcStep(stats: nat, kx: nat, block: array<Coef>, se: nat, al: nat, k0: nat,
                        ghost on: bool, ghost zz: seq<int>, ghost ke: nat, ghost ss: nat,
                          ghost was: seq<Coef>, ghost rest: seq<Decision>)
      returns (k: nat, ok: bool)
      requires Coding() && IsArea(scan, stats, AC_STAT_BINS)
      requires 1 <= ss && ss - 1 <= k0 < se < 64 && block.Length == |was| == |zz| == 64
      requires ke <= se && (ke > 0 ==> zz[ke] != 0)
      requires on ==> k0 < ke && forall i :: ss <= i <= se ==> Abs(zz[i]) <= 0x8000
      requires on ==> coder.live && coder.script == AcRun(stats, kx, zz, ke, se, k0, rest)
      requires on ==> block[..] == Placed(scan.order, was, zz, ss, k0, al)
      modifies coder, coder.bins, block
      ensures Coding() && coder.SameSegment()
      ensures ok ==> k0 < k <= se
      ensures on ==> ok && coder.live && coder.script == AcFrom(stats, kx, zz, ke, se, k, rest)
      ensures on ==> block[..] == Placed(scan.order, was, zz, ss, k, al)
    {
      hide ArithDecoder.Decoder.Valid, Stays, IsArea, AcNew, AcFrom, AcRun, AllZero, Placed, Pow2;
      k, ok := DecodeZeros(stats, se, k0, on, kx, zz, ke, rest);
      if !ok {
        return;
      }
      var v;
      v, ok := DecodeNewCoef(stats, k, kx, on, if on then zz[k] else 1, AcFrom(stats, kx, zz, ke, se, k, rest));
      if !ok {
        return;
      }
      if on {
        PlacedNext(scan.order, was, zz, ss, k0, k, al);
      }
      block[scan.order[k]] := ToCoef(v * Pow2(al));
    }

    /** One coefficient-carrying step of a refinement: zero coefficients are passed until a
        correction bit or a new coefficient is read. */
    method DecodeRefineStep(stats: nat, block: array<Coef>, se: nat, al: nat, k0: nat,
                            ghost on: bool, ghost zz: seq<int>, ghost kex: nat, ghost ke: nat, ghost ss: nat,
                            ghost was: seq<Coef>, ghost rest: seq<Decision>)
      returns (k: nat, ok: bool)
      requires Coding() && IsArea(scan, stats, AC_STAT_BINS)
      requires 1 <= ss && ss - 1 <= k0 < se < 64 && block.Length == |was| == |zz| == 64
      requires on ==> k0 < ke <= se && zz[ke] != 0 && Refinable(scan.order, was, zz, ss, se, al)
      requires on ==> coder.live && coder.script == RefineRun(stats, zz, kex, ke, se, k0, rest)
      requires on ==> block[..] == Placed(scan.order, was, zz, ss, k0, al)
      modifies coder, coder.bins, block
      ensures Coding() && coder.SameSegment()
      ensures ok ==> k0 < k <= se
      ensures on ==> ok && coder.live && coder.script == RefineFrom(stats, zz, kex, ke, se, k, rest)
      ensures on ==> block[..] == Placed(scan.order, was, zz, ss, k, al)
    {
      hide ArithDecoder.Decoder.Valid, Stays, IsArea, RefineFrom, RefineRun, Placed, Pow2, Refinable;
      var p1: int := Pow2(al);
      var m1: int := -p1;
      var st := stats + 3 * k0;
      k, ok := k0, true;
      while true
        invariant Coding() && coder.SameSegment()
        invariant ok && k0 <= k < se && st == stats + 3 * k
        invariant on ==> k < ke && coder.live && coder.script == RefineRun(stats, zz, kex, ke, se, k, rest)
        invariant on ==> block[..] == Placed(scan.order, was, zz, ss, k, al)
        decreases se - k
      {
        if on {
          UnfoldRefineRun(stats, zz, kex, ke, se, k, rest);
          RefinedCoef(scan.order, was, zz, ss, se, k + 1, al);
        }
        k := k + 1;
        var at := scan.order[k];
        var coef := block[at];
        if coef != 0 {
          var bit := Decide(stats, AC_STAT_BINS, st + 2);
          if bit {
            block[at] := ToCoef(coef + if coef < 0 then m1 else p1);
          }
          return;
        }
        var bit := Decide(stats, AC_STAT_BINS, st + 1);
        if bit {
          bit := DecideFixed();
          block[at] := ToCoef(if bit then m1 else p1);
          return;
        }
        st := st + 3;
        if k >= se {
          ok := false;
          return;
        }
      }
    }

    /** The last nonzero coefficient up to se, or 0. */
    method PreviousEnd(block: array<Coef>, se: nat) returns (last: nat)
      requires OrderOk(scan.order) && se < 64 && block.Length == 64
      ensures last <= se && (last > 0 ==> block[scan.order[last]] != 0)
      ensures forall i :: last < i <= se ==> block[scan.order[i]] == 0
    {
      last := se;
      while last > 0 && block[scan.order[last]] == 0
        invariant 0 <= last <= se
        invariant forall i :: last < i <= se ==> block[scan.order[i]] == 0
      {
        last := last - 1;
      }
    }

    /** Figure G.10 decoded over the band ss .. se of a block that already holds the
        coefficients at the previous precision. */
    method DecodeAcRefine(ci: nat, block: array<Coef>, ss: nat, se: nat, al: nat, ghost zz: seq<int>, ghost kex: nat,
                          ghost rest: seq<Decision>)
      requires Valid() && ci < scan.NumComps() && scan.UsesAc()
      requires 1 <= ss <= se < 64 && block.Length == 64 && |zz| == 64
      modifies this`failed, coder, coder.bins, block
      ensures Valid() && coder.SameSegment()
      ensures old(coder.live && coder.script ==
                  RefineFrom(AcStats(scan.acTbl[ci]), zz, kex, LastNonzero(zz, se), se, ss - 1, rest) &&
                  Refinable(scan.order, block[..], zz, ss, se, al) && SameLast(scan.order, block[..], ss, se, kex)) ==>
              failed == old(failed) && coder.live && coder.script == rest &&
              block[..] == Placed(scan.order, old(block[..]), zz, ss, se, al)
    {
      hide ArithDecoder.Decoder.Valid, Stays, IsArea, RefineFrom, RefineRun, LastNonzero, AllZero, Placed, Pow2,
           Refinable, SameLast;
      AreasOfComponent(scan, ci);
      var stats := AcStats(scan.acTbl[ci]);
      ghost var ke, was := LastNonzero(zz, se), block[..];
      ghost var on := coder.live && coder.script == RefineFrom(stats, zz, kex, ke, se, ss - 1, rest) &&
                      Refinable(scan.order, was, zz, ss, se, al) && SameLast(scan.order, was, ss, se, kex);
      var last := PreviousEnd(block, se);
      if on {
        PreviousEndIs(scan.order, was, ss, se, kex, last);
        LastIsCoded(scan.order, was, zz, ss, se, al, kex);
      }
      var k := ss - 1;
      PlacedStart(scan.order, was, zz, ss, al);
      while k < se
        invariant Valid() && coder.SameSegment()
        invariant ss - 1 <= k <= se
        invariant on ==> failed == old(failed) && coder.live
                         && coder.script == RefineFrom(stats, zz, kex, ke, se, k, rest)
        invariant on ==> block[..] == Placed(scan.order, was, zz, ss, k, al)
      {
        if on {
          UnfoldRefineFrom(stats, zz, kex, ke, se, k, rest);
        }
        if k >= last {
          var bit := Decide(stats, AC_STAT_BINS, stats + 3 * k);
          if bit {
            if on {
              PlacedZeros(scan.order, was, zz, ss, k, se, al);
            }
            return;
          }
        }
        var ok;
        k, ok := DecodeRefineStep(stats, block, se, al, k, on, zz, kex, ke, ss, was, rest);
        if !ok {
          failed := true;
          return;
        }
      }
      if on {
        UnfoldRefineFrom(stats, zz, kex, ke, se, k, rest);
      }
    }

    /** A DC difference and, unless the block has no AC coefficients, the band 1 .. se. */
    method DecodeSequential(ci: nat, block: array<Coef>, ghost it: Item, ghost rest: seq<Decision>)
      requires Valid() && ci < scan.NumComps() && block.Length == 64 && it.comp == ci && scan.kind == Sequential
      modifies this`lastDc, this`dcContext, this`failed, coder, coder.bins, block
      ensures Valid() && coder.SameSegment()
      ensures old(!failed && coder.live && coder.script == BlockScript(scan, Preds(), it, rest)) &&
              Abs(DcValue(scan, it.block) - old(lastDc[ci])) <= 0x8000 ==>
              !failed && coder.live && coder.script == rest &&
              Preds() == NextPred(scan, old(Preds()), it) &&
              block[..] == Decoded(scan, old(block[..]), it.block)
      ensures (old(!failed && coder.live && coder.script == BlockScript(scan, Preds(), it, rest)) && scan.UsesDc()
               && Abs(DcValue(scan, it.block) - old(lastDc[ci])) > 0x8000) ==> failed
    {
      hide ArithDecoder.Decoder.Valid, Stays, IsArea, DcDiff, AcFrom, RefineFrom, LastNonzero, DcContext, Pow2, Placed;
      ghost var zz := Zigzag(scan.order, it.block, scan.al);
      ZigzagBound(scan.order, it.block, scan.al);
      ghost var ac := if scan.se == 0 then rest else
        AcFrom(AcStats(scan.acTbl[ci]), scan.acK[scan.acTbl[ci]], zz, LastNonzero(zz, scan.se), scan.se, 0, rest);
      DecodeDc(ci, DcValue(scan, it.block), ac);
      if failed {
        return;
      }
      block[0] := ToCoef(lastDc[ci]);
      if scan.se != 0 {
        DecodeAc(ci, block, 1, scan.se, 0, zz, rest);
      }
    }

    /** The value of a first DC scan, or one more bit of it. */
    method DecodeDcScan(ci: nat, block: array<Coef>, ghost it: Item, ghost rest: seq<Decision>)
      requires Valid() && ci < scan.NumComps() && block.Length == 64 && it.comp == ci
      requires scan.kind == DcFirst || scan.kind == DcRefine
      modifies this`lastDc, this`dcContext, this`failed, coder, coder.bins, block
      ensures Valid() && coder.SameSegment()
      ensures old(!failed && coder.live && coder.script == BlockScript(scan, Preds(), it, rest)) &&
              (scan.UsesDc() ==> Abs(DcValue(scan, it.block) - old(lastDc[ci])) <= 0x8000) &&
              Prior(scan, old(block[..]), it.block) ==>
              !failed && coder.live && coder.script == rest &&
              Preds() == NextPred(scan, old(Preds()), it) &&
              block[..] == Decoded(scan, old(block[..]), it.block)
      ensures (old(!failed && coder.live && coder.script == BlockScript(scan, Preds(), it, rest)) && scan.UsesDc()
               && Abs(DcValue(scan, it.block) - old(lastDc[ci])) > 0x8000) ==> failed
    {
      hide ArithDecoder.Decoder.Valid, Stays, IsArea, DcDiff, DcContext, Pow2, Zigzag, Held, OrderOk;
      if scan.kind == DcFirst {
        DecodeDc(ci, DcValue(scan, it.block), rest);
        if failed {
          return;
        }
        block[0] := ToCoef(lastDc[ci] * Pow2(scan.al));
      } else {
        var bit := DecideFixed();
        if bit {
          block[0] := WithBit(block[0], scan.al);
        }
      }
    }

    /** The band of a first AC scan. */
    method DecodeBand(ci: nat, block: array<Coef>, ghost it: Item, ghost rest: seq<Decision>)
      requires Valid() && ci < scan.NumComps() && block.Length == 64 && it.comp == ci && scan.kind == AcFirst
      modifies this`lastDc, this`dcContext, this`failed, coder, coder.bins, block
      ensures Valid() && coder.SameSegment()
      ensures old(coder.live && coder.script == BlockScript(scan, Preds(), it, rest)) &&
              Prior(scan, old(block[..]), it.block) ==>
              failed == old(failed) && coder.live && coder.script == rest &&
              Preds() == NextPred(scan, old(Preds()), it) &&
              block[..] == Decoded(scan, old(block[..]), it.block)
    {
      hide ArithDecoder.Decoder.Valid, Stays, IsArea, AcFrom, LastNonzero, Pow2, Placed, Held, OrderOk, Zigzag;
      ghost var zz := Zigzag(scan.order, it.block, scan.al);
      ZigzagBound(scan.order, it.block, scan.al);
      DecodeAc(ci, block, scan.ss, scan.se, scan.al, zz, rest);
    }

    /** One more bit of the band. */
    method DecodeBandBit(ci: nat, block: array<Coef>, ghost it: Item, ghost rest: seq<Decision>)
      requires Valid() && ci < scan.NumComps() && block.Length == 64 && it.comp == ci && scan.kind == AcRefine
      modifies this`lastDc, this`dcContext, this`failed, coder, coder.bins, block
      ensures Valid() && coder.SameSegment()
      ensures old(coder.live && coder.script == BlockScript(scan, Preds(), it, rest)) &&
              Prior(scan, old(block[..]), it.block) ==>
              failed == old(failed) && coder.live && coder.script == rest &&
              Preds() == NextPred(scan, old(Preds()), it) &&
              block[..] == Decoded(scan, old(block[..]), it.block)
    {
      hide ArithDecoder.Decoder.Valid, Stays, IsArea, RefineFrom, LastNonzero, Pow2, Placed, Refinable, SameLast, Held,
           OrderOk, Zigzag, PointTransform;
      ghost var zz := Zigzag(scan.order, it.block, scan.al);
      ghost var kex := LastNonzero(Zigzag(scan.order, it.block, scan.al + 1), LastNonzero(zz, scan.se));
      if Prior(scan, block[..], it.block) {
        PriorRefines(scan, block[..], it.block);
      }
      DecodeAcRefine(ci, block, scan.ss, scan.se, scan.al, zz, kex, rest);
    }

    /** One block of an MCU, by the routine of the scan. it is the block that the script
        codes; refinements build on what the block already holds. */
    method DecodeBlock(ci: nat, block: array<Coef>, ghost it: Item, ghost rest: seq<Decision>)
      requires Valid() && ci < scan.NumComps() && block.Length == 64 && it.comp == ci
      modifies this`lastDc, this`dcContext, this`failed, coder, coder.bins, block
      ensures Valid() && coder.SameSegment()
      ensures old(!failed && coder.live && coder.script == BlockScript(scan, Preds(), it, rest)) &&
              (scan.UsesDc() ==> Abs(DcValue(scan, it.block) - old(lastDc[ci])) <= 0x8000) &&
              Prior(scan, old(block[..]), it.block) ==>
              !failed && coder.live && coder.script == rest &&
              Preds() == NextPred(scan, old(Preds()), it) &&
              block[..] == Decoded(scan, old(block[..]), it.block)
      ensures (old(!failed && coder.live && coder.script == BlockScript(scan, Preds(), it, rest)) && scan.UsesDc()
               && Abs(DcValue(scan, it.block) - old(lastDc[ci])) > 0x8000) ==> failed
    {
      hide ArithDecoder.Decoder.Valid, Stays, IsArea, BlockScript, NextPred, Decoded, Prior, OrderOk;
      match scan.kind
      case Sequential =>
        DecodeSequential(ci, block, it, rest);
      case DcFirst =>
        DecodeDcScan(ci, block, it, rest);
      case AcFirst =>
        DecodeBand(ci, block, it, rest);
      case DcRefine =>
        DecodeDcScan(ci, block, it, rest);
      case AcRefine =>
        DecodeBandBit(ci, block, it, rest);
    }

    /** Advance past a restart marker if one is due; false if it is not the one expected. */
    method CheckRestart() returns (ok: bool)
      requires Valid()
      modifies this, coder, coder.bins
      ensures ok ==> Valid() && coder.input == old(coder.input)
      ensures ok ==>
              if restartInterval == 0 then restartsToGo == old(restartsToGo)
              else restartsToGo == (if old(restartsToGo) == 0 then restartInterval else old(restartsToGo)) - 1
      ensures restartInterval != 0 && old(restartsToGo) == 0 ==>
              1 <= old(coder.end) <= |old(coder.input)| &&
              (ok <==> old(coder.input)[old(coder.end) - 1] == 0xD0 + old(nextRestartNum))
      ensures restartInterval != 0 && old(restartsToGo) == 0 && ok ==>
              && ByteStuffing.Terminated(coder.input, old(coder.end))
              && coder.data == ByteStuffing.Segment(coder.input, old(coder.end))
              && coder.end == ByteStuffing.SegmentEnd(coder.input, old(coder.end))
              && coder.start == AfterRestart(scan, old(coder.bins[..])) && coder.history == [] && !coder.live
              && nextRestartNum == (old(nextRestartNum) + 1) % 8
              && (scan.UsesDc() ==> Preds() == FreshPred(scan)) && (!scan.UsesDc() ==> Preds() == old(Preds()))
              && !failed
      ensures !(restartInterval != 0 && old(restartsToGo) == 0) ==>
              && ok && failed == old(failed) && Preds() == old(Preds()) && nextRestartNum == old(nextRestartNum)
              && coder.SameSegment() && coder.live == old(coder.live)
              && coder.script == old(coder.script) && coder.history == old(coder.history)
    {
      hide ArithDecoder.Decoder.Valid, Stays, Resets, AfterRestart, ByteStuffing.Segment, ByteStuffing.SegmentEnd,
           OrderOk;
      ok := true;
      if restartInterval != 0 {
        if restartsToGo == 0 {
          ok := Restart();
          if !ok {
            return;
          }
          restartsToGo := restartInterval;
        }
        restartsToGo := restartsToGo - 1;
      }
    }

    /** Advance past the restart marker and start the next segment afresh. */
    method Restart() returns (ok: bool)
      requires Valid()
      modifies this`lastDc, this`dcContext, this`failed, this`nextRestartNum, coder, coder.bins
      ensures 1 <= old(coder.end) <= |old(coder.input)|
      ensures ok <==> old(coder.input)[old(coder.end) - 1] == 0xD0 + old(nextRestartNum)
      ensures ok ==>
              && Valid() && coder.input == old(coder.input) && !failed
              && ByteStuffing.Terminated(coder.input, old(coder.end))
              && coder.data == ByteStuffing.Segment(coder.input, old(coder.end))
              && coder.end == ByteStuffing.SegmentEnd(coder.input, old(coder.end))
              && coder.start == AfterRestart(scan, old(coder.bins[..])) && coder.history == [] && !coder.live
              && nextRestartNum == (old(nextRestartNum) + 1) % 8
              && (scan.UsesDc() ==> Preds() == FreshPred(scan)) && (!scan.UsesDc() ==> Preds() == old(Preds()))
    {
      hide Resets, AfterRestart, ByteStuffing.Segment, ByteStuffing.SegmentEnd, Holds, Run, ArithDecoder.Relative,
           OrderOk;
      ok := coder.ReadRestartMarker(nextRestartNum);
      if !ok {
        return;
      }
      nextRestartNum := (nextRestartNum + 1) % 8;
      ResetStatistics(scan, coder.bins);
      if scan.UsesDc() {
        lastDc := seq(scan.NumComps(), _ => 0);
        dcContext := seq(scan.NumComps(), _ => 0);
      }
      coder.StartSegment();
      failed := false;
    }

    /** The blocks of one MCU, decoded into the blocks given. The decoder gives up exactly where a
        DC difference is larger than it takes for possible. */
    method DecodeMcu(comps: seq<nat>, blocks: seq<array<Coef>>, ghost on: bool, ghost items: seq<Item>,
                     ghost rest: seq<Decision>)
      requires Valid() && |comps| == |blocks|
      requires forall b :: 0 <= b < |comps| ==> comps[b] < scan.NumComps() && blocks[b].Length == 64
      requires forall b, d :: 0 <= b < d < |blocks| ==> blocks[b] != blocks[d]
      requires on ==> Expected(comps, blocks, items) && !failed
      requires on ==> coder.live && coder.script == Script(scan, Preds(), items, rest)
      modifies this`lastDc, this`dcContext, this`failed, coder, coder.bins, blocks
      ensures Valid() && coder.SameSegment()
      ensures on ==> (failed <==> !DiffsOk(scan, old(Preds()), items))
      ensures on && !failed ==> coder.live && coder.script == rest && Preds() == PredAfter(scan, old(Preds()), items)
      ensures on && !failed ==> forall b :: 0 <= b < |blocks| ==>
              blocks[b][..] == Decoded(scan, old(blocks[b][..]), items[b].block)
    {
      hide ArithDecoder.Decoder.Valid, Stays, IsArea, BlockScript, NextPred, Decoded, Prior;
      if failed {
        return;
      }
      for b := 0 to |blocks|
        invariant Valid() && coder.SameSegment() && !failed
        invariant on ==> coder.live && coder.script == Script(scan, Preds(), items[b..], rest)
        invariant on ==> (DiffsOk(scan, Preds(), items[b..]) <==> DiffsOk(scan, old(Preds()), items))
        invariant on ==> PredAfter(scan, Preds(), items[b..]) == PredAfter(scan, old(Preds()), items)
        invariant on ==> forall d :: 0 <= d < b ==> blocks[d][..] == Decoded(scan, old(blocks[d][..]), items[d].block)
        invariant forall d :: b <= d < |blocks| ==> blocks[d][..] == old(blocks[d][..])
      {
        ghost var it := Item(comps[b], seq(64, _ => 0));
        ghost var tail := rest;
        if on {
          assert items[b..][0] == items[b] && items[b..][1..] == items[b + 1..];
          it := items[b];
          tail := Script(scan, NextPred(scan, Preds(), it), items[b + 1..], rest);
        }
        DecodeBlock(comps[b], blocks[b], it, tail);
        if failed {
          return;
        }
      }
    }

    /** The fixed bin is as it was at the start of the segment, whatever was decoded. */
    lemma FixedBinKept()
      requires Coding() && SelfLoop(coder.table) && coder.start.bins[FIXED_BIN] == 113
      ensures coder.bins[FIXED_BIN] == 113
    {
      FixedBinStays(coder.table, coder.start, coder.history);
    }

    /** The items are what the script codes for these blocks. */
    ghost predicate Expected(comps: seq<nat>, blocks: seq<array<Coef>>, items: seq<Item>)
      requires scan.Ok()
      reads blocks
    {
      && |items| == |blocks| == |comps| && ItemsOk(scan, items)
      && forall b :: 0 <= b < |items| ==>
           items[b].comp == comps[b] && blocks[b].Length == 64 && Prior(scan, blocks[b][..], items[b].block)
    }
  }

  lemma OnePow()
    ensures Pow2(0) == 1
  {
  }

  /** The decoder's limit of 15 shifts is met exactly by magnitudes below 2^15. */
  lemma CategoryLimit(x: nat)
    requires x >= 1
    ensures FullMask(0, x) == TopBit(x)
    ensures TopBit(x) < 0x8000 <==> x < 0x8000
  {
    TopBitIsPower(x);
    var e :| TopBit(x) == Pow2(e) && e >= 0;
    Pow2Small();
    if x >= 0x8000 {
      if e <= 14 { MaskBelow(e); }
      Pow2Mono(15, e);
    }
  }

  lemma {:induction false} TopBitIsPower(x: nat)
    requires x >= 1
    ensures exists e: nat :: TopBit(x) == Pow2(e)
  {
    if x / 2 == 0 {
      assert TopBit(x) == Pow2(0);
    } else {
      TopBitIsPower(x / 2);
      var e: nat :| TopBit(x / 2) == Pow2(e);
      assert TopBit(x) == Pow2(e + 1);
    }
  }

  lemma HalvedCategory(x: nat)
    ensures x / 2 >= 1 ==> FullMask(1, x / 2) == TopBit(x)
    ensures x == 1 ==> TopBit(x) == 1 && forall st, m: nat, rest :: m <= 1 ==> LowBits(st, m, x, rest) == rest
    ensures x == 0 ==> forall st, m: nat, rest :: m <= 1 ==> LowBits(st, m, x, rest) == rest
  {
    assert Pow2(1) == 2;
  }

  lemma RemainingStart(e0: nat, y: nat)
    requires y >= 1
    ensures Remaining(e0, y, e0, y)
  {
  }

  lemma RemainingEnd(e0: nat, y: nat, e: nat, left: nat)
    requires Remaining(e0, y, e, left) && left / 2 == 0
    ensures FullMask(e0, y) == Pow2(e)
  {
    assert TopBit(left) == 1;
  }

  lemma MaskNotFull(e: nat)
    requires e <= 15 && Pow2(e) != 0x8000
    ensures e <= 14
  {
    Pow2Small();
  }

  lemma TopBitLeads(x: nat, m: nat)
    requires x >= 1 && m == TopBit(x)
    ensures x - x % m == m
  {
    Remainder(x, m, 1, x - m);
  }
}
