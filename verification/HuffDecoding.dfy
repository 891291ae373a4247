/** What Huffman decoding makes of any bit stream, as functions of the stream: the reference for
    the decoder, which may be interrupted and started over anywhere. */
module HuffDecoding {
  import opened Bits
  import opened BitStrings
  import opened Scans
  import opened HuffCodes
  import opened HuffTokens
  import opened HuffScanEncoder

  /** Bits to come, zeros after the last of them; dry once more were taken than there were. */
  datatype Src = Src(bits: seq<Bit>, dry: bool)

  function Skip(s: Src, n: nat): Src {
    Src(Drop(s.bits, n), s.dry || n > |s.bits|)
  }

  /** The next n bits as a number. */
  function Number(s: Src, n: nat): nat {
    Peek(s.bits, n)
  }

  ghost function NextSymbol(h: HuffTbl, s: Src): Byte
    requires Decodable(h)
  {
    Symbol(h, s.bits)
  }

  ghost function SkipSymbol(h: HuffTbl, s: Src): Src
    requires Decodable(h)
  {
    Skip(s, MatchLength(h.bits, s.bits))
  }

  ghost predicate Decodable(h: HuffTbl) {
    h.Ok() && Legal(h.bits)
  }

  /** The value that n bits stand for; a leading zero bit makes it negative. */
  function Extended(v: int, n: nat): int {
    if n == 0 then 0 else if v < Pow2(n - 1) then v - (Pow2(n) - 1) else v
  }

  function Scaled(v: int, al: nat): int {
    v * Pow2(al)
  }

  /** Where coefficient k goes; corrupt data may name coefficients beyond the last. */
  function OrderAt(order: seq<nat>, k: nat): (p: nat)
    requires OrderOk(order)
    ensures p < 64
  {
    if k < 64 then order[k] else 63
  }

  function Store(order: seq<nat>, b: seq<Coef>, k: nat, v: int): (r: seq<Coef>)
    requires OrderOk(order) && |b| == 64
    ensures |r| == 64
  {
    b[OrderAt(order, k) := ToCoef(v)]
  }

  /** The state that MCUs hand on. */
  datatype State = State(eobrun: nat, last: seq<int>)

  /** After a block: what is left, the state, and the block. A refinement of corrupt data may
      at the very end store a stray coefficient just beyond the band. */
  datatype Result = Result(src: Src, eobrun: nat, block: seq<Coef>, stray: int)

  // First scans.

  lemma NoDifference(s: Src)
    ensures Extended(Number(s, 0), 0) == 0 && Skip(s, 0) == s
  {
  }

  ghost function AcFirstFrom(h: HuffTbl, order: seq<nat>, se: nat, al: nat, k: nat, s: Src, b: seq<Coef>): (r: Result)
    requires Decodable(h) && OrderOk(order) && se < 64 && |b| == 64
    ensures |r.block| == 64
    decreases se + 1 - k
  {
    if k > se then Result(s, 0, b, 0)
    else
      var symbol, s1 := NextSymbol(h, s), SkipSymbol(h, s);
      var r, n := symbol / 16, symbol % 16;
      if n != 0 then
        AcFirstFrom(h, order, se, al, k + r + 1, Skip(s1, n),
                    Store(order, b, k + r, Scaled(Extended(Number(s1, n), n), al)))
      else if r == 15 then AcFirstFrom(h, order, se, al, k + 16, s1, b)
      else Result(Skip(s1, r), Pow2(r) + Number(s1, r) - 1, b, 0)
  }

  /** Coefficients below k are settled. */
  lemma {:induction false} FirstStable(h: HuffTbl, order: seq<nat>, se: nat, al: nat, k: nat, s: Src, b: seq<Coef>)
    requires Decodable(h) && OrderOk(order) && se < 64 && |b| == 64
    ensures forall j :: 0 <= j < k && j < 64 ==> AcFirstFrom(h, order, se, al, k, s, b).block[order[j]] == b[order[j]]
    decreases se + 1 - k
  {
    hide Extended, Number, Skip, NextSymbol, SkipSymbol, ToCoef;
    if k <= se {
      var symbol, s1 := NextSymbol(h, s), SkipSymbol(h, s);
      var r, n := symbol / 16, symbol % 16;
      if n != 0 {
        FirstStable(h, order, se, al, k + r + 1, Skip(s1, n),
                    Store(order, b, k + r, Scaled(Extended(Number(s1, n), n), al)));
        ElsewhereKept(order, b, k, k + r, Scaled(Extended(Number(s1, n), n), al));
      } else if r == 15 {
        FirstStable(h, order, se, al, k + 16, s1, b);
      }
    }
  }

  lemma ElsewhereKept(order: seq<nat>, b: seq<Coef>, k: nat, at: nat, v: int)
    requires OrderOk(order) && |b| == 64 && k <= at && k < 64
    ensures forall j :: 0 <= j < k ==> Store(order, b, at, v)[order[j]] == b[order[j]]
    ensures at < 64 ==> order[at] == OrderAt(order, at) && Store(order, b, at, v)[order[at]] == ToCoef(v)
  {
    forall j | 0 <= j < k
      ensures order[j] != OrderAt(order, at)
    {
      assert at >= 64 ==> order[63] == 63;
    }
  }

  // Refinement scans.

  /** One more bit of a coefficient that was nonzero before, if it does not have it yet. */
  function Corrected(c: Coef, al: nat): Coef {
    if c / Pow2(al) % 2 == 1 then c else ToCoef(if c >= 0 then c + Pow2(al) else c - Pow2(al))
  }

  function Correct(b: seq<Coef>, p: nat, al: nat, bit: nat): (r: seq<Coef>)
    requires |b| == 64 && p < 64
    ensures |r| == 64
  {
    if bit == 1 then b[p := Corrected(b[p], al)] else b
  }

  /** A new coefficient has the weight of the bit being coded; size n 0 stands for no coefficient. */
  function NewValue(n: nat, bit: nat, al: nat): int {
    if n == 0 then 0 else if bit == 1 then Pow2(al) else -(Pow2(al) as int)
  }

  datatype Run = Run(k: nat, src: Src, block: seq<Coef>)

  /** Pass nonzero coefficients, correcting them, and r zeros, up to the next zero. */
  function RefineRun(order: seq<nat>, se: nat, al: nat, k: nat, r: nat, s: Src, b: seq<Coef>): (run: Run)
    requires OrderOk(order) && se < 64 && |b| == 64 && k <= se + 1
    ensures |run.block| == 64 && k <= run.k <= se + 1
    decreases se + 1 - k
  {
    if k > se then Run(k, s, b)
    else if b[order[k]] != 0 then
      RefineRun(order, se, al, k + 1, r, Skip(s, 1), Correct(b, order[k], al, Number(s, 1)))
    else if r == 0 then Run(k, s, b)
    else RefineRun(order, se, al, k + 1, r - 1, s, b)
  }

  /** The rest of a block within an end-of-band run. */
  function RefineTail(order: seq<nat>, se: nat, al: nat, k: nat, s: Src, b: seq<Coef>): (run: Run)
    requires OrderOk(order) && se < 64 && |b| == 64 && k <= se + 1
    ensures |run.block| == 64
    decreases se + 1 - k
  {
    if k > se then Run(k, s, b)
    else if b[order[k]] != 0 then
      RefineTail(order, se, al, k + 1, Skip(s, 1), Correct(b, order[k], al, Number(s, 1)))
    else RefineTail(order, se, al, k + 1, s, b)
  }

  ghost function RefineSymbols(h: HuffTbl, order: seq<nat>, se: nat, al: nat, k: nat, s: Src, b: seq<Coef>): (r: Result)
    requires Decodable(h) && OrderOk(order) && se < 64 && |b| == 64 && k <= se + 1
    ensures |r.block| == 64
    decreases se + 1 - k
  {
    if k > se then Result(s, 0, b, 0)
    else
      var symbol, s1 := NextSymbol(h, s), SkipSymbol(h, s);
      var r, n := symbol / 16, symbol % 16;
      if n == 0 && r != 15 then
        var run := RefineTail(order, se, al, k, Skip(s1, r), b);
        Result(run.src, Pow2(r) + Number(s1, r) - 1, run.block, 0)
      else
        var v: int := NewValue(n, Number(s1, 1), al);
        var run := RefineRun(order, se, al, k, r, if n == 0 then s1 else Skip(s1, 1), b);
        if run.k > se then Result(run.src, 0, run.block, v)
        else RefineSymbols(h, order, se, al, run.k + 1, run.src,
                           if v == 0 then run.block else run.block[order[run.k] := ToCoef(v)])
  }

  lemma {:induction false} RunStable(order: seq<nat>, se: nat, al: nat, k: nat, r: nat, s: Src, b: seq<Coef>)
    requires OrderOk(order) && se < 64 && |b| == 64 && k <= se + 1
    ensures var run := RefineRun(order, se, al, k, r, s, b);
            && (forall j :: 0 <= j < 64 && (j < k || j >= run.k) ==> run.block[order[j]] == b[order[j]])
            && (run.k <= se ==> b[order[run.k]] == 0)
    decreases se + 1 - k
  {
    hide Number, Skip, Correct;
    if k <= se {
      if b[order[k]] != 0 {
        CorrectedOnly(order, b, k, al, Number(s, 1));
        RunStable(order, se, al, k + 1, r, Skip(s, 1), Correct(b, order[k], al, Number(s, 1)));
      } else if r != 0 {
        RunStable(order, se, al, k + 1, r - 1, s, b);
      }
    }
  }

  lemma CorrectedOnly(order: seq<nat>, b: seq<Coef>, k: nat, al: nat, bit: nat)
    requires OrderOk(order) && |b| == 64 && k < 64
    ensures forall j :: 0 <= j < 64 && j != k ==> Correct(b, order[k], al, bit)[order[j]] == b[order[j]]
  {
    forall j | 0 <= j < 64 && j != k
      ensures order[j] != order[k]
    {
      assert j < k || k < j;
    }
  }

  lemma {:induction false} TailStable(order: seq<nat>, se: nat, al: nat, k: nat, s: Src, b: seq<Coef>)
    requires OrderOk(order) && se < 64 && |b| == 64 && k <= se + 1
    ensures forall j :: 0 <= j < k && j < 64 ==> RefineTail(order, se, al, k, s, b).block[order[j]] == b[order[j]]
    decreases se + 1 - k
  {
    hide Number, Skip, Correct;
    if k <= se {
      if b[order[k]] != 0 {
        CorrectedOnly(order, b, k, al, Number(s, 1));
        TailStable(order, se, al, k + 1, Skip(s, 1), Correct(b, order[k], al, Number(s, 1)));
      } else {
        TailStable(order, se, al, k + 1, s, b);
      }
    }
  }

  lemma NoSymbolsLeft(h: HuffTbl, order: seq<nat>, se: nat, al: nat, k: nat, s: Src, b: seq<Coef>)
    requires Decodable(h) && OrderOk(order) && se < 64 && |b| == 64 && k <= se + 1
    ensures k > se ==> RefineSymbols(h, order, se, al, k, s, b) == Result(s, 0, b, 0)
  {
  }

  lemma {:induction false} RefineStable(h: HuffTbl, order: seq<nat>, se: nat, al: nat, k: nat, s: Src, b: seq<Coef>)
    requires Decodable(h) && OrderOk(order) && se < 64 && |b| == 64 && k <= se + 1
    ensures forall j :: 0 <= j < k && j < 64 ==> RefineSymbols(h, order, se, al, k, s, b).block[order[j]] == b[order[j]]
    decreases se + 1 - k
  {
    hide Number, Skip, RefineRun, RefineTail, NextSymbol, SkipSymbol, ToCoef;
    if k <= se {
      var symbol, s1 := NextSymbol(h, s), SkipSymbol(h, s);
      var r, n := symbol / 16, symbol % 16;
      if n == 0 && r != 15 {
        TailStable(order, se, al, k, Skip(s1, r), b);
      } else {
        var v: int := NewValue(n, Number(s1, 1), al);
        var s2 := if n == 0 then s1 else Skip(s1, 1);
        var run := RefineRun(order, se, al, k, r, s2, b);
        RunStable(order, se, al, k, r, s2, b);
        if run.k <= se {
          var b' := if v == 0 then run.block else run.block[order[run.k] := ToCoef(v)];
          PlacedOnly(order, run.block, run.k, v);
          RefineStable(h, order, se, al, run.k + 1, run.src, b');
        }
      }
    }
  }

  lemma PlacedOnly(order: seq<nat>, b: seq<Coef>, k: nat, v: int)
    requires OrderOk(order) && |b| == 64 && k < 64
    ensures forall j :: 0 <= j < 64 && j != k ==> b[order[k] := ToCoef(v)][order[j]] == b[order[j]]
  {
    forall j | 0 <= j < 64 && j != k
      ensures order[j] != order[k]
    {
      assert j < k || k < j;
    }
  }

  ghost function RefineBlock(h: HuffTbl, order: seq<nat>, ss: nat, se: nat, al: nat, s: Src, e: nat,
                             b: seq<Coef>): (r: Result)
    requires Decodable(h) && OrderOk(order) && ss <= se < 64 && |b| == 64
    ensures |r.block| == 64
  {
    if e == 0 then RefineSymbols(h, order, se, al, ss, s, b)
    else
      var run := RefineTail(order, se, al, ss, s, b);
      Result(run.src, e - 1, run.block, 0)
  }

  function WithStray(order: seq<nat>, se: nat, r: Result): (b: seq<Coef>)
    requires OrderOk(order) && |r.block| == 64
    ensures |b| == 64
  {
    if r.stray == 0 then r.block else Store(order, r.block, se + 1, r.stray)
  }

  // Sequential scans. Only coefficients below the limit are wanted; with limit 0 not even the
  // DC value is.

  ghost function SeqAcFrom(h: HuffTbl, order: seq<nat>, se: nat, limit: nat, k: nat, s: Src, b: seq<Coef>): (r: Result)
    requires Decodable(h) && OrderOk(order) && se < 64 && |b| == 64
    ensures |r.block| == 64
    decreases se + 1 - k
  {
    if k > se then Result(s, 0, b, 0)
    else
      var symbol, s1 := NextSymbol(h, s), SkipSymbol(h, s);
      var r, n := symbol / 16, symbol % 16;
      if n != 0 then
        SeqAcFrom(h, order, se, limit, k + r + 1, Skip(s1, n),
                  if k < limit then Store(order, b, k + r, Extended(Number(s1, n), n)) else b)
      else if r == 15 then SeqAcFrom(h, order, se, limit, k + 16, s1, b)
      else Result(s1, 0, b, 0)
  }

  lemma {:induction false} SeqStable(h: HuffTbl, order: seq<nat>, se: nat, limit: nat, k: nat, s: Src, b: seq<Coef>)
    requires Decodable(h) && OrderOk(order) && se < 64 && |b| == 64
    ensures forall j :: 0 <= j < k && j < 64 ==> SeqAcFrom(h, order, se, limit, k, s, b).block[order[j]] == b[order[j]]
    decreases se + 1 - k
  {
    hide Extended, Number, Skip, NextSymbol, SkipSymbol, ToCoef;
    if k <= se {
      var symbol, s1 := NextSymbol(h, s), SkipSymbol(h, s);
      var r, n := symbol / 16, symbol % 16;
      if n != 0 {
        var b' := if k < limit then Store(order, b, k + r, Extended(Number(s1, n), n)) else b;
        SeqStable(h, order, se, limit, k + r + 1, Skip(s1, n), b');
        ElsewhereKept(order, b, k, k + r, Extended(Number(s1, n), n));
      } else if r == 15 {
        SeqStable(h, order, se, limit, k + 16, s1, b);
      }
    }
  }

  // Blocks and MCUs.

  /** How a scan is to be decoded: limit says how many coefficients of a component are wanted. */
  datatype Config = Config(scan: Scan, tabs: Tabs, limit: seq<nat>) {
    ghost predicate Ok() {
      && HuffOk(scan) && tabs.Ok() && |limit| == scan.NumComps()
      && (forall c :: 0 <= c < scan.NumComps() ==> limit[c] <= scan.se + 1)
      && (scan.UsesDc() ==> forall c :: 0 <= c < scan.NumComps() ==> DcTable(tabs.dc[scan.dcTbl[c]]))
      && (scan.UsesAc() ==> forall c :: 0 <= c < scan.NumComps() ==> Decodable(tabs.ac[scan.acTbl[c]]))
    }
  }

  ghost predicate DcTable(h: HuffTbl) {
    Decodable(h) && forall s :: Symbol(h, s) <= 15
  }

  datatype Mcu = Mcu(src: Src, st: State, block: seq<Coef>)

  ghost function BlockResult(cfg: Config, c: nat, s: Src, st: State, b: seq<Coef>): (m: Mcu)
    requires cfg.Ok() && c < cfg.scan.NumComps() == |st.last| && |b| == 64
    ensures |m.block| == 64 && |m.st.last| == |st.last|
  {
    var scan := cfg.scan;
    match scan.kind
    case DcFirst =>
      var h := cfg.tabs.dc[scan.dcTbl[c]];
      var n, s1 := NextSymbol(h, s), SkipSymbol(h, s);
      var v := st.last[c] + Extended(Number(s1, n), n);
      Mcu(Skip(s1, n), State(st.eobrun, st.last[c := v]), b[0 := ToCoef(v * Pow2(scan.al))])
    case DcRefine =>
      Mcu(Skip(s, 1), st, if Number(s, 1) == 1 then b[0 := WithBit(b[0], scan.al)] else b)
    case AcFirst =>
      if st.eobrun > 0 then Mcu(s, State(st.eobrun - 1, st.last), b)
      else
        var r := AcFirstFrom(cfg.tabs.ac[scan.acTbl[c]], scan.order, scan.se, scan.al, scan.ss, s, b);
        Mcu(r.src, State(r.eobrun, st.last), r.block)
    case AcRefine =>
      var r := RefineBlock(cfg.tabs.ac[scan.acTbl[c]], scan.order, scan.ss, scan.se, scan.al, s, st.eobrun, b);
      Mcu(r.src, State(r.eobrun, st.last), WithStray(scan.order, scan.se, r))
    case Sequential =>
      var r := SequentialResult(cfg, c, s, st.last[c], b);
      Mcu(r.src, State(st.eobrun, st.last[c := SequentialLast(cfg, c, s, st.last[c])]), r.block)
  }

  /** The DC prediction after a sequential block: it is kept where the value is not wanted. */
  ghost function SequentialLast(cfg: Config, c: nat, s: Src, last: int): int
    requires cfg.Ok() && c < cfg.scan.NumComps() && cfg.scan.kind == Sequential
  {
    var h := cfg.tabs.dc[cfg.scan.dcTbl[c]];
    var n, s1 := NextSymbol(h, s), SkipSymbol(h, s);
    if cfg.limit[c] > 0 then last + Extended(Number(s1, n), n) else last
  }

  ghost function SequentialResult(cfg: Config, c: nat, s: Src, last: int, b: seq<Coef>): (r: Result)
    requires cfg.Ok() && c < cfg.scan.NumComps() && cfg.scan.kind == Sequential && |b| == 64
    ensures |r.block| == 64
  {
    var scan, h := cfg.scan, cfg.tabs.dc[cfg.scan.dcTbl[c]];
    var n, s1 := NextSymbol(h, s), SkipSymbol(h, s);
    var b1 := if cfg.limit[c] > 0 then b[0 := ToCoef(SequentialLast(cfg, c, s, last))] else b;
    if scan.se == 0 then Result(Skip(s1, n), 0, b1, 0)
    else SeqAcFrom(cfg.tabs.ac[scan.acTbl[c]], scan.order, scan.se, cfg.limit[c], 1, Skip(s1, n), b1)
  }

  datatype McuResult = McuResult(src: Src, st: State, blocks: seq<seq<Coef>>)

  predicate BlocksOk(cfg: Config, comps: seq<nat>, st: State, blocks: seq<seq<Coef>>) {
    && |comps| == |blocks| && |st.last| == cfg.scan.NumComps()
    && forall i :: 0 <= i < |comps| ==> comps[i] < cfg.scan.NumComps() && |blocks[i]| == 64
  }

  /** The blocks of an MCU from block i on. */
  ghost function BlocksFrom(cfg: Config, comps: seq<nat>, i: nat, s: Src, st: State,
                            blocks: seq<seq<Coef>>): (r: McuResult)
    requires cfg.Ok() && BlocksOk(cfg, comps, st, blocks) && i <= |comps|
    ensures BlocksOk(cfg, comps, r.st, r.blocks)
    decreases |comps| - i
  {
    if i == |comps| then McuResult(s, st, blocks)
    else
      var m := BlockResult(cfg, comps[i], s, st, blocks[i]);
      BlocksFrom(cfg, comps, i + 1, m.src, m.st, blocks[i := m.block])
  }

  /** Once the source is dry MCUs are left alone, except that DC refinements go on reading
      zeros, which changes nothing. */
  ghost function DecodedMcu(cfg: Config, comps: seq<nat>, s: Src, st: State, blocks: seq<seq<Coef>>): (r: McuResult)
    requires cfg.Ok() && BlocksOk(cfg, comps, st, blocks)
    ensures BlocksOk(cfg, comps, r.st, r.blocks)
  {
    if s.dry && cfg.scan.kind != DcRefine then McuResult(s, st, blocks)
    else BlocksFrom(cfg, comps, 0, s, st, blocks)
  }

  lemma {:induction false} BlocksKept(cfg: Config, comps: seq<nat>, i: nat, s: Src, st: State, blocks: seq<seq<Coef>>)
    requires cfg.Ok() && BlocksOk(cfg, comps, st, blocks) && i <= |comps|
    ensures forall j :: 0 <= j < i ==> BlocksFrom(cfg, comps, i, s, st, blocks).blocks[j] == blocks[j]
    decreases |comps| - i
  {
    hide BlockResult, Config.Ok;
    if i < |comps| {
      var m := BlockResult(cfg, comps[i], s, st, blocks[i]);
      BlocksKept(cfg, comps, i + 1, m.src, m.st, blocks[i := m.block]);
    }
  }

  // One step at a time.

  lemma UnfoldFirst(h: HuffTbl, order: seq<nat>, se: nat, al: nat, k: nat, s: Src, b: seq<Coef>)
    requires Decodable(h) && OrderOk(order) && se < 64 && |b| == 64
    ensures var res := AcFirstFrom(h, order, se, al, k, s, b);
            if k > se then res == Result(s, 0, b, 0)
            else
              var symbol, s1 := NextSymbol(h, s), SkipSymbol(h, s);
              var r, n := symbol / 16, symbol % 16;
              if n != 0 then
                res == AcFirstFrom(h, order, se, al, k + r + 1, Skip(s1, n),
                                   Store(order, b, k + r, Scaled(Extended(Number(s1, n), n), al)))
              else if r == 15 then res == AcFirstFrom(h, order, se, al, k + 16, s1, b)
              else res == Result(Skip(s1, r), Pow2(r) + Number(s1, r) - 1, b, 0)
  {
    hide Symbol, MatchLength, Extended, ToCoef;
  }

  lemma NothingTaken(s: Src)
    ensures Number(s, 0) == 0 && Skip(s, 0) == s
  {
  }

  lemma UnfoldSeq(h: HuffTbl, order: seq<nat>, se: nat, limit: nat, k: nat, s: Src, b: seq<Coef>)
    requires Decodable(h) && OrderOk(order) && se < 64 && |b| == 64
    ensures var res := SeqAcFrom(h, order, se, limit, k, s, b);
            if k > se then res == Result(s, 0, b, 0)
            else
              var symbol, s1 := NextSymbol(h, s), SkipSymbol(h, s);
              var r, n := symbol / 16, symbol % 16;
              if n != 0 then
                res == SeqAcFrom(h, order, se, limit, k + r + 1, Skip(s1, n),
                                 if k < limit then Store(order, b, k + r, Extended(Number(s1, n), n)) else b)
              else if r == 15 then res == SeqAcFrom(h, order, se, limit, k + 16, s1, b)
              else res == Result(s1, 0, b, 0)
  {
    hide Symbol, MatchLength, Extended, ToCoef;
  }

  /** What a symbol of a refinement scan leads to. */
  lemma UnfoldRefine(h: HuffTbl, order: seq<nat>, se: nat, al: nat, k: nat, s: Src, b: seq<Coef>)
    requires Decodable(h) && OrderOk(order) && k <= se < 64 && |b| == 64
    ensures var res, symbol, s1 := RefineSymbols(h, order, se, al, k, s, b), NextSymbol(h, s), SkipSymbol(h, s);
            var r, n := symbol / 16, symbol % 16;
            if n == 0 && r != 15 then
              var run := RefineTail(order, se, al, k, Skip(s1, r), b);
              res == Result(run.src, Pow2(r) + Number(s1, r) - 1, run.block, 0)
            else
              RunOfSymbol(h, order, se, al, k, r, if n == 0 then s1 else Skip(s1, 1), b,
                          NewValue(n, Number(s1, 1), al), res)
  {
    hide Symbol, MatchLength, Decodable, Number, Skip, RefineRun, RefineTail, ToCoef, Pow2, NextSymbol, SkipSymbol;
    var res, symbol, s1 := RefineSymbols(h, order, se, al, k, s, b), NextSymbol(h, s), SkipSymbol(h, s);
    var r, n := symbol / 16, symbol % 16;
    if n != 0 || r == 15 {
      var v: int := NewValue(n, Number(s1, 1), al);
      var s2 := if n == 0 then s1 else Skip(s1, 1);
      var run := RefineRun(order, se, al, k, r, s2, b);
      RunStable(order, se, al, k, r, s2, b);
      if run.k <= se {
        PlacedOnly(order, run.block, run.k, v);
        RefineStable(h, order, se, al, run.k + 1, run.src,
                     if v == 0 then run.block else run.block[order[run.k] := ToCoef(v)]);
      }
    }
  }

  /** The coefficients that a symbol passes are settled by it. */
  ghost predicate RunOfSymbol(h: HuffTbl, order: seq<nat>, se: nat, al: nat, k: nat, r: nat, s: Src, b: seq<Coef>,
                              v: int, res: Result)
    requires Decodable(h) && OrderOk(order) && k <= se < 64 && |b| == 64
  {
    var run := RefineRun(order, se, al, k, r, s, b);
    && |res.block| == 64
    && (forall j :: 0 <= j < run.k && j < 64 ==> res.block[order[j]] == run.block[order[j]])
    && if run.k > se then res == Result(run.src, 0, run.block, v)
       else
         && run.block[order[run.k]] == 0
         && res == RefineSymbols(h, order, se, al, run.k + 1, run.src,
                                 if v == 0 then run.block else run.block[order[run.k] := ToCoef(v)])
  }
}
