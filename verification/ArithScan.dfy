/** What the arithmetic coder and decoder of a scan have to agree on. */
module ArithScan {
  import opened Bits
  import opened Scans
  import opened Estimation
  import opened IntervalCoder
  import opened ArithModel
  import opened Segments

  /** DC predictions and conditioning categories, by component. */
  datatype Pred = Pred(last: seq<int>, ctx: seq<nat>)

  predicate PredOk(scan: Scan, p: Pred) {
    && |p.last| == |p.ctx| == scan.NumComps()
    && forall c :: 0 <= c < |p.ctx| ==> p.ctx[c] <= 16
  }

  function FreshPred(scan: Scan): Pred {
    Pred(seq(scan.NumComps(), _ => 0), seq(scan.NumComps(), _ => 0))
  }

  function NextPred(scan: Scan, p: Pred, it: Item): (p': Pred)
    requires scan.Ok() && PredOk(scan, p) && it.comp < scan.NumComps()
    ensures PredOk(scan, p')
  {
    if scan.UsesDc() then
      var c, tbl, m := it.comp, scan.dcTbl[it.comp], DcValue(scan, it.block);
      Pred(p.last[c := m], p.ctx[c := DcContext(scan.dcL[tbl], scan.dcU[tbl], m - p.last[c])])
    else p
  }

  function BlockScript(scan: Scan, p: Pred, it: Item, rest: seq<Decision>): seq<Decision>
    requires scan.Ok() && PredOk(scan, p) && it.comp < scan.NumComps()
  {
    var c := it.comp;
    var dcStats, acStats := DcStats(scan.dcTbl[c]), AcStats(scan.acTbl[c]);
    var zz := Zigzag(scan.order, it.block, scan.al);
    var ke := LastNonzero(zz, scan.se);
    match scan.kind
    case Sequential =>
      DcDiff(dcStats, p.ctx[c], DcValue(scan, it.block) - p.last[c],
             if scan.se == 0 then rest else AcFrom(acStats, scan.acK[scan.acTbl[c]], zz, ke, scan.se, 0, rest))
    case DcFirst => DcDiff(dcStats, p.ctx[c], DcValue(scan, it.block) - p.last[c], rest)
    case AcFirst => AcFrom(acStats, scan.acK[scan.acTbl[c]], zz, ke, scan.se, scan.ss - 1, rest)
    case DcRefine => [Decision(FIXED_BIN, DcValue(scan, it.block) % 2 == 1)] + rest
    case AcRefine =>
      RefineFrom(acStats, zz, LastNonzero(Zigzag(scan.order, it.block, scan.al + 1), ke),
                 ke, scan.se, scan.ss - 1, rest)
  }

  /** The decisions for consecutive blocks, MCU boundaries leaving no trace. */
  function Script(scan: Scan, p: Pred, items: seq<Item>, rest: seq<Decision>): seq<Decision>
    requires scan.Ok() && PredOk(scan, p) && ItemsOk(scan, items)
    decreases |items|
  {
    if items == [] then rest
    else BlockScript(scan, p, items[0], Script(scan, NextPred(scan, p, items[0]), items[1..], rest))
  }

  function PredAfter(scan: Scan, p: Pred, items: seq<Item>): (p': Pred)
    requires scan.Ok() && PredOk(scan, p) && ItemsOk(scan, items)
    ensures PredOk(scan, p')
    decreases |items|
  {
    if items == [] then p else PredAfter(scan, NextPred(scan, p, items[0]), items[1..])
  }

  lemma {:induction false} ScriptConcat(scan: Scan, p: Pred, a: seq<Item>, b: seq<Item>, rest: seq<Decision>)
    requires scan.Ok() && PredOk(scan, p) && ItemsOk(scan, a) && ItemsOk(scan, b)
    ensures ItemsOk(scan, a + b)
    ensures Script(scan, p, a + b, rest) == Script(scan, p, a, Script(scan, PredAfter(scan, p, a), b, rest))
    ensures PredAfter(scan, p, a + b) == PredAfter(scan, PredAfter(scan, p, a), b)
    decreases |a|
  {
    hide BlockScript, NextPred;
    if a == [] {
      assert a + b == b;
    } else {
      ScriptConcat(scan, NextPred(scan, p, a[0]), a[1..], b, rest);
      assert (a + b)[1..] == a[1..] + b;
    }
  }

  /** Every DC difference is one that 15 magnitude bits can express; the decoder takes
      anything larger for a corrupt code. */
  predicate DiffsOk(scan: Scan, p: Pred, items: seq<Item>)
    requires scan.Ok() && PredOk(scan, p) && ItemsOk(scan, items)
    decreases |items|
  {
    items == [] ||
    (&& (scan.UsesDc() ==> Abs(DcValue(scan, items[0].block) - p.last[items[0].comp]) <= 0x8000)
     && DiffsOk(scan, NextPred(scan, p, items[0]), items[1..]))
  }

  /** Both sides start with zeroed statistics areas and the fixed bin at entry 113. */
  ghost function FreshState(): State {
    State(UNIT, seq(TOTAL_BINS, i => if i == FIXED_BIN then 113 else 0))
  }

  /** Bin i is in a statistics area that the scan resets at a restart. */
  predicate Resets(scan: Scan, i: nat)
    requires scan.Ok()
  {
    || (scan.UsesDc() && exists c :: 0 <= c < |scan.dcTbl|
                                     && DcStats(scan.dcTbl[c]) <= i < DcStats(scan.dcTbl[c]) + DC_STAT_BINS)
    || (scan.UsesAc() && exists c :: 0 <= c < |scan.acTbl|
                                     && AcStats(scan.acTbl[c]) <= i < AcStats(scan.acTbl[c]) + AC_STAT_BINS)
  }

  ghost function AfterRestart(scan: Scan, bins: seq<Bin>): (s: State)
    requires scan.Ok()
    ensures s.iv == UNIT && |s.bins| == |bins|
  {
    State(UNIT, seq(|bins|, i requires 0 <= i < |bins| => if Resets(scan, i) then 0 else bins[i]))
  }

  /** MEMZERO of the statistics areas that the components of the scan use. */
  method ResetStatistics(scan: Scan, bins: array<Bin>)
    requires scan.Ok() && bins.Length == TOTAL_BINS
    modifies bins
    ensures bins[..] == AfterRestart(scan, old(bins[..])).bins
  {
    ghost var was := bins[..];
    if scan.UsesDc() {
      for c := 0 to scan.NumComps()
        invariant forall i :: 0 <= i < TOTAL_BINS ==>
          bins[i] == if exists d :: 0 <= d < c && DcStats(scan.dcTbl[d]) <= i < DcStats(scan.dcTbl[d]) + DC_STAT_BINS
                     then 0 else was[i]
      {
        var stats := DcStats(scan.dcTbl[c]);
        forall i | stats <= i < stats + DC_STAT_BINS {
          bins[i] := 0;
        }
      }
    }
    ghost var was1 := bins[..];
    if scan.UsesAc() {
      for c := 0 to scan.NumComps()
        invariant forall i :: 0 <= i < TOTAL_BINS ==>
          bins[i] == if exists d :: 0 <= d < c && AcStats(scan.acTbl[d]) <= i < AcStats(scan.acTbl[d]) + AC_STAT_BINS
                     then 0 else was1[i]
      {
        var stats := AcStats(scan.acTbl[c]);
        forall i | stats <= i < stats + AC_STAT_BINS {
          bins[i] := 0;
        }
      }
    }
  }

  /** One finished segment: where its coding started, its decisions and its data bytes. */
  datatype Seg = Seg(start: State, decisions: seq<Decision>, data: seq<Byte>)

  /** The data bytes of segments. */
  ghost function Datas(segs: seq<Seg>): (datas: seq<seq<Byte>>)
    ensures |datas| == |segs| && forall i :: 0 <= i < |segs| ==> datas[i] == segs[i].data
  {
    seq(|segs|, i requires 0 <= i < |segs| => segs[i].data)
  }

  ghost predicate SegOk(t: Table, s: Seg) {
    && s.start.iv == UNIT && |s.start.bins| == TOTAL_BINS
    && AddressesOk(s.decisions, TOTAL_BINS)
    && Holds(Run(t, s.start, s.decisions).iv, s.data)
  }

  /** The state in which the segment after those of done starts. */
  ghost function StartOf(t: Table, scan: Scan, done: seq<Seg>): State
    requires scan.Ok() && (done != [] ==> SegOk(t, done[|done| - 1]))
  {
    if done == [] then FreshState()
    else
      var s := done[|done| - 1];
      AfterRestart(scan, Run(t, s.start, s.decisions).bins)
  }

  ghost predicate Chained(t: Table, scan: Scan, done: seq<Seg>)
    requires scan.Ok()
    decreases |done|
  {
    done == [] ||
    var n := |done| - 1;
    && Chained(t, scan, done[..n])
    && SegOk(t, done[n])
    && (n > 0 ==> SegOk(t, done[..n][n - 1]))
    && done[n].start == StartOf(t, scan, done[..n])
  }

  lemma ExtendChain(t: Table, scan: Scan, done: seq<Seg>, s: Seg)
    requires scan.Ok() && Chained(t, scan, done) && SegOk(t, s) && s.start == StartOf(t, scan, done)
    ensures Chained(t, scan, done + [s])
    ensures StartOf(t, scan, done + [s]) == AfterRestart(scan, Run(t, s.start, s.decisions).bins)
    ensures Wire(Datas(done + [s])) == Wire(Datas(done)) + OnWire(s.data, |done|)
  {
    hide SegOk, Run, OnWire, AfterRestart, Resets, FreshState, Wire, Datas;
    ExtendWire(done, s);
    var all := done + [s];
    assert all[..|done|] == done && all[|done|] == s;
  }

  lemma ExtendWire(done: seq<Seg>, s: Seg)
    ensures Wire(Datas(done + [s])) == Wire(Datas(done)) + OnWire(s.data, |done|)
  {
    hide OnWire;
    assert Datas(done + [s])[..|done|] == Datas(done);
  }

  lemma {:induction false} ChainAt(t: Table, scan: Scan, done: seq<Seg>, i: nat)
    requires scan.Ok() && Chained(t, scan, done) && i < |done|
    ensures SegOk(t, done[i]) && (i > 0 ==> SegOk(t, done[..i][i - 1]))
    ensures done[i].start == StartOf(t, scan, done[..i])
    decreases |done|
  {
    hide SegOk, Run, Resets, AfterRestart, FreshState;
    var n := |done| - 1;
    if i < n {
      ChainAt(t, scan, done[..n], i);
      assert done[..n][..i] == done[..i];
    }
  }

}
