/** The Huffman entropy decoder of a scan. When the source runs out within an MCU the MCU is
    given up and decoded again later from the same point; what the first try left in the
    blocks must not matter. */
module HuffScanDecoder {
  import opened Bits
  import opened BitStrings
  import opened Scans
  import opened HuffCodes
  import opened HuffTables
  import opened HuffModel
  import opened HuffTokens
  import opened HuffDecoding
  import BitReader
  import ByteStuffing

  /** A try that was given up has stored some of the final values. */
  ghost predicate Touched(actual: seq<Coef>, orig: seq<Coef>, final: seq<Coef>) {
    |actual| == |orig| == |final| == 64 && forall i :: 0 <= i < 64 ==> actual[i] == orig[i] || actual[i] == final[i]
  }

  /** In a refinement it has corrected some nonzero coefficients, and no others differ. */
  ghost predicate TouchedUp(actual: seq<Coef>, orig: seq<Coef>, final: seq<Coef>) {
    && |actual| == |orig| == |final| == 64
    && forall i :: 0 <= i < 64 ==> actual[i] == orig[i] || (orig[i] != 0 && actual[i] == final[i])
  }

  /** While a block is decoded: b is how far this try has got. */
  ghost predicate Storing(actual: seq<Coef>, b: seq<Coef>, orig: seq<Coef>, final: seq<Coef>) {
    && |actual| == |b| == |orig| == |final| == 64
    && (forall i :: 0 <= i < 64 ==> actual[i] == b[i] || actual[i] == final[i])
    && (forall i :: 0 <= i < 64 ==> b[i] == orig[i] || b[i] == final[i])
  }

  lemma StoringStarts(actual: seq<Coef>, orig: seq<Coef>, final: seq<Coef>)
    requires Touched(actual, orig, final)
    ensures Storing(actual, orig, orig, final)
  {
  }

  lemma StoringGivenUp(actual: seq<Coef>, b: seq<Coef>, orig: seq<Coef>, final: seq<Coef>)
    requires Storing(actual, b, orig, final)
    ensures Touched(actual, orig, final)
    ensures b == final ==> actual == final
  {
  }

  lemma StoringStep(order: seq<nat>, actual: seq<Coef>, b: seq<Coef>, orig: seq<Coef>, final: seq<Coef>, at: nat,
                    v: int)
    requires Storing(actual, b, orig, final) && OrderOk(order)
    requires final[OrderAt(order, at)] == ToCoef(v)
    ensures Storing(Store(order, actual, at, v), Store(order, b, at, v), orig, final)
  {
  }

  /** While a block is refined: b is how far this try has got before coefficient k, and news
      are the positions where it has stored new coefficients. */
  ghost predicate Refining(order: seq<nat>, actual: seq<Coef>, b: seq<Coef>, orig: seq<Coef>, final: seq<Coef>, k: nat,
                           news: seq<nat>)
    requires OrderOk(order)
  {
    && |actual| == |b| == |orig| == |final| == 64
    && (forall i :: 0 <= i < 64 ==> actual[i] == b[i] || (orig[i] != 0 && actual[i] == final[i]))
    && (forall j :: k <= j < 64 ==> b[order[j]] == orig[order[j]])
    && (forall i :: 0 <= i < 64 ==> orig[i] != 0 ==> b[i] == orig[i] || b[i] == final[i])
    && (forall i :: 0 <= i < 64 && orig[i] == 0 && b[i] != 0 ==> i in news)
    && (forall p :: p in news ==> p < 64 && orig[p] == 0)
  }

  lemma RefiningStarts(order: seq<nat>, actual: seq<Coef>, orig: seq<Coef>, final: seq<Coef>, k: nat)
    requires OrderOk(order) && TouchedUp(actual, orig, final)
    ensures Refining(order, actual, orig, orig, final, k, [])
  {
  }

  lemma RefiningEnds(order: seq<nat>, actual: seq<Coef>, b: seq<Coef>, orig: seq<Coef>, final: seq<Coef>, k: nat,
                     news: seq<nat>)
    requires OrderOk(order) && Refining(order, actual, b, orig, final, k, news) && b == final
    ensures actual == final
  {
  }

  /** Setting a bit twice is setting it once. */
  lemma CorrectedTwice(c: Coef, al: nat)
    requires al <= 13
    ensures Corrected(Corrected(c, al), al) == Corrected(c, al)
    ensures c != 0 ==> Corrected(c, al) != 0
  {
    var p := Pow2(al);
    SixteenBits(al);
    hide ToCoef, Pow2;
    if c / p % 2 != 1 {
      var x := if c >= 0 then c + p else c - p;
      Flipped(c, p, if c >= 0 then 1 else -1);
      Wrapped(x, p, Pow2(15 - al));
      NeverZero(x);
    }
  }

  lemma SixteenBits(al: nat)
    requires al <= 13
    ensures 1 <= Pow2(al) <= 0x2000 && Pow2(al) * (2 * Pow2(15 - al)) == 0x1_0000
  {
    Pow2Mono(al, 13);
    Pow2Small();
    assert Pow2(15) == 4 * Pow2(13);
    Pow2Add(al, 16 - al);
    assert Pow2(16 - al) == 2 * Pow2(15 - al);
  }

  lemma NeverZero(x: int)
    requires x != 0 && -0x1_0000 < x < 0x1_0000
    ensures ToCoef(x) != 0
  {
  }

  lemma Flipped(c: int, p: nat, d: int)
    requires p >= 1 && c / p % 2 != 1 && (d == 1 || d == -1)
    ensures (c + d * p) / p % 2 == 1
  {
    DivMod(c, p);
    assert c + d * p == p * (c / p + d) + c % p;
    Remainder(c + d * p, p, c / p + d, c % p);
  }

  /** Casting to 16 bits keeps the low bits. */
  lemma Wrapped(x: int, p: nat, h: nat)
    requires p >= 1 && p * (2 * h) == 0x1_0000
    ensures ToCoef(x) / p % 2 == x / p % 2
  {
    var q, a, r := (x + 0x8000) / 0x1_0000, x / p, x % p;
    CoefIs(x);
    DivMod(x, p);
    var t := ToCoef(x);
    hide ToCoef;
    Reduced(x, t, p, a, r, h, q);
    Remainder(t, p, a - 2 * (h * q), r);
    EvenDifference(a, h * q);
  }

  lemma Reduced(x: int, t: int, p: int, a: int, r: int, h: int, q: int)
    requires x == a * p + r && t == x - q * 0x1_0000 && p * (2 * h) == 0x1_0000
    ensures t == (a - 2 * (h * q)) * p + r
  {
    Regrouped(p, h, q);
    Split(p, a, 2 * (h * q));
  }

  lemma CoefIs(x: int)
    ensures ToCoef(x) == x - (x + 0x8000) / 0x1_0000 * 0x1_0000
  {
  }

  lemma Regrouped(p: int, h: int, q: int)
    ensures 2 * (h * q) * p == p * (2 * h) * q
  {
  }

  lemma Split(p: int, a: int, b: int)
    ensures (a - b) * p == a * p - b * p
  {
  }

  lemma EvenDifference(a: int, b: int)
    ensures (a - 2 * b) % 2 == a % 2
  {
  }

  lemma CorrectionStep(order: seq<nat>, actual: seq<Coef>, b: seq<Coef>, orig: seq<Coef>, final: seq<Coef>, k: nat,
                       news: seq<nat>, al: nat, bit: nat)
    requires OrderOk(order) && k < 64 && al <= 13 && Refining(order, actual, b, orig, final, k, news)
    requires b[order[k]] != 0 && final[order[k]] == Correct(b, order[k], al, bit)[order[k]]
    ensures actual[order[k]] != 0
    ensures Refining(order, Correct(actual, order[k], al, bit), Correct(b, order[k], al, bit), orig, final, k + 1, news)
  {
    hide Corrected;
    CorrectedTwice(b[order[k]], al);
    CorrectedOnly(order, b, k, al, bit);
  }

  lemma ZeroStep(order: seq<nat>, actual: seq<Coef>, b: seq<Coef>, orig: seq<Coef>, final: seq<Coef>, k: nat,
                 news: seq<nat>)
    requires OrderOk(order) && k < 64 && Refining(order, actual, b, orig, final, k, news) && b[order[k]] == 0
    ensures actual[order[k]] == 0
    ensures Refining(order, actual, b, orig, final, k + 1, news)
  {
  }

  lemma PlaceStep(order: seq<nat>, actual: seq<Coef>, b: seq<Coef>, orig: seq<Coef>, final: seq<Coef>, k: nat,
                  news: seq<nat>, v: int)
    requires OrderOk(order) && k < 64 && Refining(order, actual, b, orig, final, k, news) && b[order[k]] == 0
    ensures Refining(order, actual[order[k] := ToCoef(v)], b[order[k] := ToCoef(v)],
                     orig, final, k + 1, news + [order[k]])
  {
    PlacedOnly(order, b, k, v);
  }

  lemma RefiningGivenUp(order: seq<nat>, actual: seq<Coef>, b: seq<Coef>, orig: seq<Coef>, final: seq<Coef>, k: nat,
                        news: seq<nat>, undone: seq<Coef>)
    requires OrderOk(order) && Refining(order, actual, b, orig, final, k, news) && |undone| == 64
    requires forall i :: 0 <= i < 64 ==> undone[i] == if i in news then 0 else actual[i]
    ensures TouchedUp(undone, orig, final)
  {
  }

  lemma BandDone(h: HuffTbl, order: seq<nat>, se: nat, al: nat, k: nat, s: Src, b: seq<Coef>)
    requires Decodable(h) && OrderOk(order) && se < 64 && |b| == 64 && k > se
    ensures AcFirstFrom(h, order, se, al, k, s, b) == Result(s, 0, b, 0)
  {
  }

  /** A coefficient is stored once. */
  lemma FirstFinal(h: HuffTbl, order: seq<nat>, se: nat, al: nat, at: nat, s: Src, b: seq<Coef>, v: int)
    requires Decodable(h) && OrderOk(order) && se < 64 && |b| == 64
    ensures AcFirstFrom(h, order, se, al, at + 1, s, Store(order, b, at, v)).block[OrderAt(order, at)] == ToCoef(v)
  {
    hide ToCoef;
    var b' := Store(order, b, at, v);
    FirstStable(h, order, se, al, at + 1, s, b');
    if at < 64 {
      assert b'[order[at]] == ToCoef(v);
    } else {
      assert AcFirstFrom(h, order, se, al, at + 1, s, b').block == b';
    }
  }

  /** What a try that was given up may have left in a block. */
  ghost predicate TriedBlock(cfg: Config, c: nat, s: Src, st: State, actual: seq<Coef>, orig: seq<Coef>)
    requires cfg.Ok() && c < cfg.scan.NumComps() == |st.last| && |orig| == 64
  {
    var scan := cfg.scan;
    if scan.kind == AcRefine then
      TouchedUp(actual, orig, RefineBlock(cfg.tabs.ac[scan.acTbl[c]], scan.order,
                                          scan.ss, scan.se, scan.al, s, st.eobrun, orig).block)
    else Touched(actual, orig, BlockResult(cfg, c, s, st, orig).block)
  }

  lemma OnlyDcTouched(actual: seq<Coef>, orig: seq<Coef>, final: seq<Coef>)
    requires Touched(actual, orig, final) && forall i :: 1 <= i < 64 ==> final[i] == orig[i]
    ensures actual == orig || actual == final
    ensures actual[0 := orig[0]] == orig && actual[0 := final[0]] == final
  {
    assert actual == orig[0 := actual[0]];
    assert final == orig[0 := final[0]];
    assert orig == orig[0 := orig[0]];
  }

  lemma NotTouched(actual: seq<Coef>, orig: seq<Coef>)
    requires Touched(actual, orig, orig)
    ensures actual == orig
  {
  }

  /** Setting the bit of a DC value twice is setting it once. */
  lemma BitTwice(c: Coef, al: nat)
    requires al <= 13
    ensures WithBit(WithBit(c, al), al) == WithBit(c, al)
  {
    var p := Pow2(al);
    SixteenBits(al);
    hide ToCoef, Pow2;
    if c / p % 2 != 1 {
      Flipped(c, p, 1);
      Wrapped(c + p, p, Pow2(15 - al));
    }
  }

  /** The same of the blocks of an MCU. */
  ghost predicate Tried(cfg: Config, comps: seq<nat>, s: Src, st: State, actuals: seq<seq<Coef>>, origs: seq<seq<Coef>>)
    requires cfg.Ok() && BlocksOk(cfg, comps, st, origs)
  {
    && |actuals| == |origs|
    && if cfg.scan.kind == AcRefine then
         if s.dry then actuals == origs
         else forall i :: 0 <= i < |comps| ==> TriedBlock(cfg, comps[i], s, st, actuals[i], origs[i])
       else forall i :: 0 <= i < |comps| ==>
         Touched(actuals[i], origs[i], DecodedMcu(cfg, comps, s, st, origs).blocks[i])
  }

  lemma LeftAlone(cfg: Config, comps: seq<nat>, s: Src, st: State, actuals: seq<seq<Coef>>, origs: seq<seq<Coef>>)
    requires cfg.Ok() && BlocksOk(cfg, comps, st, origs) && s.dry && cfg.scan.kind != DcRefine
    requires Tried(cfg, comps, s, st, actuals, origs)
    ensures actuals == origs
  {
    if cfg.scan.kind != AcRefine {
      forall i | 0 <= i < |origs|
        ensures actuals[i] == origs[i]
      {
        NotTouched(actuals[i], origs[i]);
      }
    }
  }

  /** What was left in block i suits a new try at it. */
  lemma NextTried(cfg: Config, comps: seq<nat>, i: nat, s0: Src, st0: State, actuals: seq<seq<Coef>>,
                  origs: seq<seq<Coef>>, s: Src, st: State, bs: seq<seq<Coef>>)
    requires cfg.Ok() && BlocksOk(cfg, comps, st0, origs) && BlocksOk(cfg, comps, st, bs) && i < |comps|
    requires Tried(cfg, comps, s0, st0, actuals, origs) && (s0.dry ==> cfg.scan.kind == DcRefine) && bs[i] == origs[i]
    requires BlocksFrom(cfg, comps, i, s, st, bs) == BlocksFrom(cfg, comps, 0, s0, st0, origs)
    requires i == 0 ==> s == s0 && st == st0
    requires cfg.scan.kind.AcFirst? || cfg.scan.kind.AcRefine? ==> |comps| == 1
    ensures TriedBlock(cfg, comps[i], s, st, actuals[i], origs[i])
  {
    hide BlockResult, Config.Ok, Touched, TouchedUp;
    var m := BlockResult(cfg, comps[i], s, st, bs[i]);
    BlocksKept(cfg, comps, i + 1, m.src, m.st, bs[i := m.block]);
  }

  lemma GivenUpTried(cfg: Config, comps: seq<nat>, i: nat, s0: Src, st0: State, was: seq<seq<Coef>>,
                     now: seq<seq<Coef>>, origs: seq<seq<Coef>>, s: Src, st: State, bs: seq<seq<Coef>>)
    requires cfg.Ok() && BlocksOk(cfg, comps, st0, origs) && BlocksOk(cfg, comps, st, bs) && i < |comps|
    requires Tried(cfg, comps, s0, st0, was, origs) && (s0.dry ==> cfg.scan.kind == DcRefine) && bs[i] == origs[i]
    requires BlocksFrom(cfg, comps, i, s, st, bs) == BlocksFrom(cfg, comps, 0, s0, st0, origs)
    requires i == 0 ==> s == s0 && st == st0
    requires cfg.scan.kind.AcFirst? || cfg.scan.kind.AcRefine? ==> |comps| == 1
    requires |now| == |was| && (forall j :: 0 <= j < i ==> now[j] == bs[j])
    requires (forall j :: i < j < |was| ==> now[j] == was[j])
    requires TriedBlock(cfg, comps[i], s, st, now[i], origs[i])
    ensures Tried(cfg, comps, s0, st0, now, origs)
  {
    hide BlockResult, Config.Ok, TouchedUp;
    var m := BlockResult(cfg, comps[i], s, st, bs[i]);
    BlocksKept(cfg, comps, i, s, st, bs);
    BlocksKept(cfg, comps, i + 1, m.src, m.st, bs[i := m.block]);
  }

  lemma NextBlockFrom(cfg: Config, comps: seq<nat>, i: nat, s: Src, st: State, bs: seq<seq<Coef>>)
    requires cfg.Ok() && BlocksOk(cfg, comps, st, bs) && i < |comps|
    ensures var m := BlockResult(cfg, comps[i], s, st, bs[i]);
            BlocksFrom(cfg, comps, i, s, st, bs) == BlocksFrom(cfg, comps, i + 1, m.src, m.st, bs[i := m.block])
  {
    hide BlockResult, Config.Ok;
  }

  lemma EndOfBlocks(cfg: Config, comps: seq<nat>, s: Src, st: State, bs: seq<seq<Coef>>)
    requires cfg.Ok() && BlocksOk(cfg, comps, st, bs)
    ensures BlocksFrom(cfg, comps, |comps|, s, st, bs) == McuResult(s, st, bs)
  {
  }

  ghost function Contents(blocks: seq<array<Coef>>): (c: seq<seq<Coef>>)
    reads blocks
    ensures |c| == |blocks| && forall i :: 0 <= i < |blocks| ==> c[i] == blocks[i][..]
  {
    seq(|blocks|, i requires 0 <= i < |blocks| reads blocks => blocks[i][..])
  }

  /** The tables that the scan uses were derived. */
  ghost predicate Derived(cfg: Config, dcDerived: seq<DDerived>, acDerived: seq<DDerived>) {
    && cfg.Ok() && |dcDerived| == |acDerived| == NUM_HUFF_TBLS
    && var scan, tabs := cfg.scan, cfg.tabs;
       && (scan.UsesDc() ==> forall c :: 0 <= c < scan.NumComps() ==>
             Decodes(dcDerived[scan.dcTbl[c]]) && dcDerived[scan.dcTbl[c]].pub == tabs.dc[scan.dcTbl[c]])
       && (scan.UsesAc() ==> forall c :: 0 <= c < scan.NumComps() ==>
             Decodes(acDerived[scan.acTbl[c]]) && acDerived[scan.acTbl[c]].pub == tabs.ac[scan.acTbl[c]])
  }

  class ScanDecoder {
    const scan: Scan
    const restartInterval: nat
    const limit: seq<nat>
    const dcDerived: seq<DDerived>
    const acDerived: seq<DDerived>
    const reader: BitReader.Reader
    var restartsToGo: nat
    var nextRestartNum: nat
    var eobrun: nat
    var lastDc: seq<int>
    var failed: bool  // a restart marker was wrong

    ghost const tabs: Tabs

    ghost predicate Ready() {
      Derived(Cfg(), dcDerived, acDerived)
    }

    ghost function Cfg(): Config {
      Config(scan, tabs, limit)
    }

    ghost function SavedState(): State
      reads this
    {
      State(eobrun, lastDc)
    }

    ghost function SavedSource(): Src
      reads reader
    {
      Src(reader.savedRest, reader.insufficient)
    }

    /** Holds between MCUs. */
    ghost predicate Valid()
      reads this, reader
    {
      reader.Idle() && Ready() && |lastDc| == scan.NumComps() && nextRestartNum < 8
    }

    constructor (scan: Scan, restartInterval: nat, limit: seq<nat>, dcDerived: seq<DDerived>, acDerived: seq<DDerived>,
                 file: seq<Byte>, ghost tabs: Tabs)
      requires Derived(Config(scan, tabs, limit), dcDerived, acDerived)
      ensures Valid() && !failed && fresh(reader)
      ensures Cfg() == Config(scan, tabs, limit) && this.restartInterval == restartInterval
      ensures SavedState() == State(0, seq(scan.NumComps(), _ => 0))
      ensures restartsToGo == restartInterval && nextRestartNum == 0
      ensures reader.input == file + [0xFF, 0xD9] && reader.avail == 0
      ensures reader.unreadMarker == 0 && !reader.insufficient
      ensures reader.end == ByteStuffing.SegmentEnd(reader.input, 0)
      ensures reader.savedRest == BytesBits(ByteStuffing.Segment(reader.input, 0))
    {
      this.scan, this.restartInterval, this.limit, this.tabs := scan, restartInterval, limit, tabs;
      this.dcDerived, this.acDerived := dcDerived, acDerived;
      restartsToGo, nextRestartNum, eobrun, failed := restartInterval, 0, 0, false;
      lastDc := seq(scan.NumComps(), _ => 0);
      hide ByteStuffing.Segment, ByteStuffing.SegmentEnd, BytesBits, BitReader.Delivers, Derived;
      reader := new BitReader.Reader(file);
    }

    ghost function Source(): Src
      reads reader
    {
      Src(reader.rest, reader.insufficient)
    }

    /** The next symbol of the stream. */
    method GetSymbol(d: DDerived) returns (ok: bool, symbol: Byte)
      requires reader.Working() && Decodes(d)
      modifies reader`cur, reader`rest, reader`unreadMarker, reader`insufficient
      ensures ok ==> reader.Working() && reader.Same()
      ensures ok ==> Decodable(d.pub) && symbol == NextSymbol(d.pub, old(Source()))
                     && Source() == SkipSymbol(d.pub, old(Source()))
      ensures !ok ==> reader.Suspended()
    {
      hide Symbol, MatchLength, Decodes, BitReader.Delivers, Legal;
      TableSizes(d);
      ok, symbol := reader.HuffDecode(d);
    }

    method GetBits(n: nat) returns (ok: bool, v: nat)
      requires reader.Working() && n <= 16
      modifies reader`cur, reader`rest, reader`unreadMarker, reader`insufficient
      ensures ok ==> reader.Working() && reader.Same()
      ensures ok ==> v == Number(old(Source()), n) && Source() == Skip(old(Source()), n)
      ensures !ok ==> reader.Suspended()
    {
      hide BitReader.Delivers, Peek;
      ok, v := reader.GetBits(n);
    }

    /** The band of a first scan, not in an end-of-band run. */
    method DecodeAcFirst(d: DDerived, block: array<Coef>, ss: nat, se: nat, al: nat, ghost orig: seq<Coef>)
      returns (ok: bool, run: nat)
      requires reader.Working() && Decodes(d) && Decodable(d.pub)
      requires OrderOk(scan.order) && ss <= se < 64 && block.Length == 64 == |orig|
      requires Touched(block[..], orig, AcFirstFrom(d.pub, scan.order, se, al, ss, Source(), orig).block)
      modifies reader`cur, reader`rest, reader`unreadMarker, reader`insufficient, block
      ensures var r := AcFirstFrom(d.pub, scan.order, se, al, ss, old(Source()), orig);
              && (ok ==> reader.Working() && reader.Same() && block[..] == r.block
                         && run == r.eobrun && Source() == r.src)
              && (!ok ==> reader.Suspended() && Touched(block[..], orig, r.block))
    {
      hide Decodes, Decodable, OrderOk, AcFirstFrom, Touched, Storing, BitReader.Delivers;
      ghost var b, res := orig, AcFirstFrom(d.pub, scan.order, se, al, ss, Source(), orig);
      StoringStarts(block[..], orig, res.block);
      var k, ended := ss, false;
      ok, run := true, 0;
      while k <= se
        invariant reader.Working() && reader.Same() && |b| == 64 && ok && run == 0
        invariant AcFirstFrom(d.pub, scan.order, se, al, k, Source(), b) == res
        invariant Storing(block[..], b, orig, res.block)
        decreases se + 1 - k
      {
        ok, k, run, ended, b := FirstSymbol(d, block, k, se, al, b, orig, res);
        if !ok || ended {
          return;
        }
      }
      BandDone(d.pub, scan.order, se, al, k, Source(), b);
      StoringGivenUp(block[..], b, orig, res.block);
    }

    /** One symbol of a first scan: a coefficient, 16 zeros, or an end of band. */
    method FirstSymbol(d: DDerived, block: array<Coef>, k0: nat, se: nat, al: nat, ghost b0: seq<Coef>,
                       ghost orig: seq<Coef>, ghost res: Result)
      returns (ok: bool, k: nat, run: nat, ended: bool, ghost b: seq<Coef>)
      requires reader.Working() && Decodes(d) && Decodable(d.pub)
      requires OrderOk(scan.order) && k0 <= se < 64 && block.Length == 64 == |b0|
      requires AcFirstFrom(d.pub, scan.order, se, al, k0, Source(), b0) == res
      requires Storing(block[..], b0, orig, res.block)
      modifies reader`cur, reader`rest, reader`unreadMarker, reader`insufficient, block
      ensures !ok ==> reader.Suspended() && Touched(block[..], orig, res.block)
      ensures ok ==> reader.Working() && reader.Same()
      ensures ok && ended ==> block[..] == res.block && run == res.eobrun && Source() == res.src
      ensures ok && !ended ==>
                && k > k0 && run == 0 && |b| == 64 && Storing(block[..], b, orig, res.block)
                && AcFirstFrom(d.pub, scan.order, se, al, k, Source(), b) == res
    {
      hide Decodes, Decodable, OrderOk, AcFirstFrom, Touched, Storing, BitReader.Delivers;
      hide Number, Extended, Scaled, ToCoef, NextSymbol, SkipSymbol, Skip, Store, Pow2;
      k, run, ended, b := k0, 0, false, b0;
      UnfoldFirst(d.pub, scan.order, se, al, k, Source(), b);
      StoringGivenUp(block[..], b, orig, res.block);
      var symbol;
      ok, symbol := GetSymbol(d);
      if !ok {
        return;
      }
      var r, n := symbol / 16, symbol % 16;
      if n != 0 {
        k := k + r;
        var v;
        ok, v := GetBits(n);
        if !ok {
          return;
        }
        var value := Scaled(Extended(v, n), al);
        FirstFinal(d.pub, scan.order, se, al, k, Source(), b, value);
        StoringStep(scan.order, block[..], b, orig, res.block, k, value);
        StoreInPlace(block, k, value);
        b := Store(scan.order, b, k, value);
      } else {
        if r != 15 {
          ok, run := GetRun(r);
          run := if ok then run - 1 else 0;  // this band is processed now
          ended := true;
          return;
        }
        k := k + 15;
      }
      k := k + 1;
    }

    /** The length of an end-of-band run: 2^r plus r more bits. */
    method GetRun(r: nat) returns (ok: bool, run: nat)
      requires reader.Working() && r <= 16
      modifies reader`cur, reader`rest, reader`unreadMarker, reader`insufficient
      ensures ok ==> reader.Working() && reader.Same() && run >= 1
      ensures ok ==> run == Pow2(r) + Number(old(Source()), r) && Source() == Skip(old(Source()), r)
      ensures !ok ==> reader.Suspended()
    {
      hide BitReader.Delivers, Number, Skip;
      ok, run := true, Pow2(r);
      NothingTaken(Source());
      if r != 0 {
        var more;
        ok, more := GetBits(r);
        run := run + more;
      }
    }

    method StoreInPlace(block: array<Coef>, k: nat, value: int)
      requires OrderOk(scan.order) && block.Length == 64
      modifies block
      ensures block[..] == Store(scan.order, old(block[..]), k, value)
    {
      block[OrderAt(scan.order, k)] := ToCoef(value);
    }

    /** One correction bit. It may have been applied by a try that was given up. */
    method CorrectAt(block: array<Coef>, k: nat, al: nat, ghost b: seq<Coef>, ghost orig: seq<Coef>,
                     ghost final: seq<Coef>, ghost news: seq<nat>) returns (ok: bool)
      requires reader.Working() && OrderOk(scan.order) && k < 64 && al <= 13 && block.Length == 64
      requires Refining(scan.order, block[..], b, orig, final, k, news) && b[scan.order[k]] != 0
      requires final[scan.order[k]] == Correct(b, scan.order[k], al, Number(Source(), 1))[scan.order[k]]
      modifies reader`cur, reader`rest, reader`unreadMarker, reader`insufficient, block
      ensures ok ==> reader.Working() && reader.Same() && Source() == Skip(old(Source()), 1)
      ensures ok ==> Refining(scan.order, block[..], Correct(b, scan.order[k], al, Number(old(Source()), 1)),
                              orig, final, k + 1, news)
      ensures !ok ==> reader.Suspended() && block[..] == old(block[..])
    {
      hide OrderOk, Refining, Number, Skip, Corrected;
      OrderWithin(scan.order, k);
      RefiningSizes(scan.order, block[..], b, orig, final, k, news);
      var at := scan.order[k];
      CorrectionStep(scan.order, block[..], b, orig, final, k, news, al, Number(Source(), 1));
      var bit;
      ok, bit := GetBits(1);
      if ok && bit == 1 {
        block[at] := Corrected(block[at], al);
      }
    }

    /** Advance over already nonzero coefficients and r still-zero ones. */
    method RefinePass(block: array<Coef>, k0: nat, r0: nat, se: nat, al: nat, ghost b0: seq<Coef>,
                      ghost orig: seq<Coef>, ghost final: seq<Coef>, ghost news: seq<nat>)
      returns (ok: bool, k: nat, ghost b: seq<Coef>)
      requires reader.Working() && OrderOk(scan.order) && k0 <= se < 64 && al <= 13 && block.Length == 64
      requires Refining(scan.order, block[..], b0, orig, final, k0, news)
      requires var run := RefineRun(scan.order, se, al, k0, r0, Source(), b0);
               forall j :: 0 <= j < run.k && j < 64 ==> final[scan.order[j]] == run.block[scan.order[j]]
      modifies reader`cur, reader`rest, reader`unreadMarker, reader`insufficient, block
      ensures ok ==> reader.Working() && reader.Same()
                     && RefineRun(scan.order, se, al, k0, r0, old(Source()), b0) == Run(k, Source(), b)
      ensures k0 <= k && |b| == 64 && Refining(scan.order, block[..], b, orig, final, k, news)
      ensures !ok ==> reader.Suspended()
    {
      hide OrderOk, Refining, Number, Skip, Correct, RefineRun;
      RefiningSizes(scan.order, block[..], b0, orig, final, k0, news);
      ghost var run := RefineRun(scan.order, se, al, k0, r0, Source(), b0);
      k, b := k0, b0;
      var r := r0;
      while k <= se
        invariant reader.Working() && reader.Same() && k0 <= k <= se + 1
        invariant |b| == 64 && RefineRun(scan.order, se, al, k, r, Source(), b) == run
        invariant Refining(scan.order, block[..], b, orig, final, k, news)
        decreases se + 1 - k
      {
        OrderWithin(scan.order, k);
        PassStep(scan.order, block[..], b, orig, final, k, news, se, al, r, Source());
        if block[scan.order[k]] != 0 {
          ghost var next := Correct(b, scan.order[k], al, Number(Source(), 1));
          ok := CorrectAt(block, k, al, b, orig, final, news);
          if !ok {
            return;
          }
          b := next;
        } else {
          if r == 0 {
            ok := true;
            return;
          }
          r := r - 1;
        }
        k := k + 1;
      }
      EndOfPass(scan.order, se, al, k, r, Source(), b);
      ok := true;
    }

    /** Correct what is left of a block within an end-of-band run. */
    method RefineRest(block: array<Coef>, k0: nat, se: nat, al: nat, ghost b0: seq<Coef>, ghost orig: seq<Coef>,
                      ghost final: seq<Coef>, ghost news: seq<nat>)
      returns (ok: bool, ghost k: nat, ghost b: seq<Coef>)
      requires reader.Working() && OrderOk(scan.order) && k0 <= se < 64 && al <= 13 && block.Length == 64
      requires Refining(scan.order, block[..], b0, orig, final, k0, news)
      requires |b0| == 64 && final == RefineTail(scan.order, se, al, k0, Source(), b0).block
      modifies reader`cur, reader`rest, reader`unreadMarker, reader`insufficient, block
      ensures ok ==> reader.Working() && reader.Same()
                     && RefineTail(scan.order, se, al, k0, old(Source()), b0) == Run(k, Source(), b)
      ensures |b| == 64 && Refining(scan.order, block[..], b, orig, final, k, news)
      ensures !ok ==> reader.Suspended()
    {
      hide OrderOk, Refining, Number, Skip, Correct, RefineTail;
      ghost var run := RefineTail(scan.order, se, al, k0, Source(), b0);
      k, b := k0, b0;
      var i := k0;
      while i <= se
        invariant reader.Working() && reader.Same() && k0 <= i == k <= se + 1
        invariant |b| == 64 && RefineTail(scan.order, se, al, k, Source(), b) == run
        invariant Refining(scan.order, block[..], b, orig, final, k, news)
        decreases se + 1 - i
      {
        OrderWithin(scan.order, i);
        RestStep(scan.order, block[..], b, orig, final, k, news, se, al, Source());
        if block[scan.order[i]] != 0 {
          ghost var next := Correct(b, scan.order[k], al, Number(Source(), 1));
          ok := CorrectAt(block, i, al, b, orig, final, news);
          if !ok {
            return;
          }
          b := next;
        }
        i := i + 1;
        k := k + 1;
      }
      EndOfPass(scan.order, se, al, k, 0, Source(), b);
      ok := true;
    }

    /** Re-zero the coefficients that this try has made nonzero. */
    method Undo(block: array<Coef>, newPos: array<nat>, num: nat, ghost b: seq<Coef>, ghost orig: seq<Coef>,
                ghost final: seq<Coef>, ghost k: nat)
      requires OrderOk(scan.order) && block.Length == 64 == newPos.Length && num <= 64
      requires Refining(scan.order, block[..], b, orig, final, k, newPos[..num])
      modifies block
      ensures TouchedUp(block[..], orig, final)
    {
      hide OrderOk, Refining;
      ghost var was, news := block[..], newPos[..num];
      NewsWithin(scan.order, was, b, orig, final, k, news);
      var n := num;
      while n > 0
        invariant n <= num && news == newPos[..num]
        invariant forall i :: 0 <= i < 64 ==> block[i] == if i in news[n..] then 0 else was[i]
      {
        n := n - 1;
        assert news[n..] == [news[n]] + news[n + 1..];
        block[newPos[n]] := 0;
      }
      assert news[0..] == news;
      RefiningGivenUp(scan.order, was, b, orig, final, k, news, block[..]);
    }

    /** One symbol of a refinement scan and the coefficients up to the one it codes. The result
        is the next coefficient, and the length of the end-of-band run if there is one. */
    method RefineSymbol(d: DDerived, block: array<Coef>, k0: nat, se: nat, al: nat, newPos: array<nat>, num0: nat,
                        ghost b0: seq<Coef>, ghost orig: seq<Coef>, ghost res: Result)
      returns (ok: bool, k: nat, run: nat, num: nat, ghost b: seq<Coef>)
      requires reader.Working() && Decodes(d) && Decodable(d.pub)
      requires OrderOk(scan.order) && k0 <= se < 64 && al <= 13 && block.Length == 64 == newPos.Length && num0 <= k0
      requires Refining(scan.order, block[..], b0, orig, res.block, k0, newPos[..num0]) && |b0| == 64
      requires res == RefineSymbols(d.pub, scan.order, se, al, k0, Source(), b0)
      modifies reader`cur, reader`rest, reader`unreadMarker, reader`insufficient, block, newPos
      ensures !ok ==> reader.Suspended() && num <= 64
                      && Refining(scan.order, block[..], b, orig, res.block, k, newPos[..num])
      ensures ok ==> reader.Working() && reader.Same() && |b| == 64
      ensures ok && run == 0 && k <= se ==>
                && k > k0 && num <= k && Refining(scan.order, block[..], b, orig, res.block, k, newPos[..num])
                && res == RefineSymbols(d.pub, scan.order, se, al, k, Source(), b)
      ensures ok && run == 0 && k > se ==> res.src == Source() && res.eobrun == 0
                                           && block[..] == WithStray(scan.order, se, res)
      ensures ok && run > 0 ==>
                && k == k0 && num <= k && Refining(scan.order, block[..], b, orig, res.block, k, newPos[..num])
                && InRun(scan.order, se, al, k, Source(), b, run, res)
    {
      hide OrderOk, Refining, Number, Skip, Decodes, Decodable, RefineSymbols, RefineRun, RefineTail, NextSymbol,
           SkipSymbol;
      hide WithStray, RunOfSymbol, Pow2, BitReader.Delivers;
      k, run, num, b := k0, 0, num0, b0;
      UnfoldRefine(d.pub, scan.order, se, al, k, Source(), b);
      var symbol;
      ok, symbol := GetSymbol(d);
      if !ok {
        return;
      }
      var r, n := symbol / 16, symbol % 16;
      var s: int := 0;
      if n != 0 {
        var bit;
        ok, bit := GetBits(1);
        if !ok {
          return;
        }
        s := NewValue(n, bit, al);
      } else if r != 15 {
        ok, run := GetRun(r);
        return;
      }
      ok, k, num, b := RefineUpTo(d.pub, block, k, r, s, se, al, newPos, num, b, orig, res);
    }

    /** Store a new coefficient and remember its position. */
    method RecordNew(block: array<Coef>, k: nat, s: int, newPos: array<nat>, num: nat)
      requires OrderOk(scan.order) && block.Length == 64 == newPos.Length && num < 64
      modifies block, newPos
      ensures block[..] == old(block[..])[OrderAt(scan.order, k) := ToCoef(s)]
      ensures newPos[..num + 1] == old(newPos[..num]) + [OrderAt(scan.order, k)]
    {
      block[OrderAt(scan.order, k)] := ToCoef(s);
      newPos[num] := OrderAt(scan.order, k);
    }

    /** After the run of zeros: the new coefficient, if there is one. */
    method EndRun(ghost h: HuffTbl, block: array<Coef>, k: nat, s: int, se: nat, al: nat,
                  newPos: array<nat>, num0: nat,
                  ghost b0: seq<Coef>, ghost orig: seq<Coef>, ghost src: Src, ghost res: Result)
      returns (num: nat, ghost b: seq<Coef>)
      requires Decodable(h) && OrderOk(scan.order) && se < 64 && block.Length == 64 == newPos.Length && |b0| == 64
      requires num0 < 64 && num0 <= k <= se + 1
      requires RunEnds(h, scan.order, se, al, s, res, block[..], orig, k, src, b0, newPos[..num0])
      modifies block, newPos
      ensures num <= k + 1 && num <= 64 && |b| == |res.block| == 64
      ensures k < se ==> Refining(scan.order, block[..], b, orig, res.block, k + 1, newPos[..num])
                         && res == RefineSymbols(h, scan.order, se, al, k + 1, src, b)
      ensures k >= se ==> res.src == src && res.eobrun == 0 && block[..] == WithStray(scan.order, se, res)
    {
      hide OrderOk, Refining, Decodable, RefineSymbols, WithStray, ToCoef;
      num := num0;
      b := if s == 0 || k > se then b0 else b0[OrderAt(scan.order, k) := ToCoef(s)];
      if s != 0 {
        RecordNew(block, k, s, newPos, num);
        num := num + 1;
      }
    }

    /** The coefficients up to the one that a symbol codes, and that one: its value is s, or 0
        if the symbol stands for zeros only. */
    method RefineUpTo(ghost h: HuffTbl, block: array<Coef>, k0: nat, r: nat, s: int, se: nat, al: nat,
                      newPos: array<nat>, num0: nat,
                      ghost b0: seq<Coef>, ghost orig: seq<Coef>, ghost res: Result)
      returns (ok: bool, k: nat, num: nat, ghost b: seq<Coef>)
      requires reader.Working() && Decodable(h)
      requires OrderOk(scan.order) && k0 <= se < 64 && al <= 13 && block.Length == 64 == newPos.Length && num0 <= k0
      requires |b0| == 64 && RunOfSymbol(h, scan.order, se, al, k0, r, Source(), b0, s, res)
      requires Refining(scan.order, block[..], b0, orig, res.block, k0, newPos[..num0])
      modifies reader`cur, reader`rest, reader`unreadMarker, reader`insufficient, block, newPos
      ensures !ok ==> reader.Suspended() && num <= 64
                      && Refining(scan.order, block[..], b, orig, res.block, k, newPos[..num])
      ensures ok ==> reader.Working() && reader.Same() && |b| == 64
      ensures ok && k <= se ==>
                && k > k0 && num <= k && Refining(scan.order, block[..], b, orig, res.block, k, newPos[..num])
                && res == RefineSymbols(h, scan.order, se, al, k, Source(), b)
      ensures ok && k > se ==> res.src == Source() && res.eobrun == 0 && block[..] == WithStray(scan.order, se, res)
    {
      hide OrderOk, Refining, Number, Skip, Decodable, RefineRun, RefineSymbols, WithStray, ToCoef, RunOfSymbol,
           RunEnds;
      num := num0;
      PassedSettled(h, scan.order, se, al, k0, r, Source(), b0, s, res);
      ghost var src0 := Source();
      ok, k, b := RefinePass(block, k0, r, se, al, b0, orig, res.block, newPos[..num]);
      if !ok {
        return;
      }
      SymbolEnds(h, scan.order, se, al, k0, r, src0, b0, s, res, block[..], orig, k, Source(), b, newPos[..num]);
      num, b := EndRun(h, block, k, s, se, al, newPos, num, b, orig, Source(), res);
      k := k + 1;
    }

    /** Symbol after symbol, to the end of the band or to an end of band. */
    method RefineBand(d: DDerived, block: array<Coef>, ss: nat, se: nat, al: nat, newPos: array<nat>,
                      ghost orig: seq<Coef>, ghost res: Result)
      returns (ok: bool, k: nat, run: nat, num: nat, ghost b: seq<Coef>)
      requires reader.Working() && Decodes(d) && Decodable(d.pub)
      requires OrderOk(scan.order) && ss <= se < 64 && al <= 13 && block.Length == 64 == newPos.Length == |orig|
      requires Refining(scan.order, block[..], orig, orig, res.block, ss, [])
      requires res == RefineSymbols(d.pub, scan.order, se, al, ss, Source(), orig)
      modifies reader`cur, reader`rest, reader`unreadMarker, reader`insufficient, block, newPos
      ensures !ok ==> reader.Suspended() && num <= 64
                      && Refining(scan.order, block[..], b, orig, res.block, k, newPos[..num])
      ensures ok ==> reader.Working() && reader.Same() && |b| == 64
      ensures ok && run == 0 ==> res.src == Source() && res.eobrun == 0 && block[..] == WithStray(scan.order, se, res)
      ensures ok && run > 0 ==>
                && k <= se && num <= 64 && Refining(scan.order, block[..], b, orig, res.block, k, newPos[..num])
                && InRun(scan.order, se, al, k, Source(), b, run, res)
    {
      hide Decodes, Decodable, OrderOk, Refining, RefineSymbols, WithStray, InRun;
      k, run, num, b, ok := ss, 0, 0, orig, true;
      assert newPos[..0] == [];
      while k <= se
        invariant reader.Working() && reader.Same() && |b| == 64 && ok && run == 0
        invariant k <= se ==> num <= k && num <= 64
        invariant num <= 64 && k <= se ==> Refining(scan.order, block[..], b, orig, res.block, k, newPos[..num])
        invariant k <= se ==> res == RefineSymbols(d.pub, scan.order, se, al, k, Source(), b)
        invariant k > se ==> res.src == Source() && res.eobrun == 0 && block[..] == WithStray(scan.order, se, res)
        decreases se + 1 - k
      {
        ok, k, run, num, b := RefineSymbol(d, block, k, se, al, newPos, num, b, orig, res);
        if !ok || run != 0 {
          return;
        }
      }
    }

    /** The rest of the block within a run; then the block counts as one of the run. */
    method FinishRun(block: array<Coef>, k0: nat, se: nat, al: nat, e: nat, newPos: array<nat>, num: nat,
                     ghost b0: seq<Coef>, ghost orig: seq<Coef>, ghost res: Result)
      returns (ok: bool, run: nat)
      requires reader.Working() && OrderOk(scan.order) && k0 <= se < 64 && al <= 13 && e > 0 && |b0| == |orig| == 64
      requires block.Length == 64 == newPos.Length && num <= 64
      requires Refining(scan.order, block[..], b0, orig, res.block, k0, newPos[..num])
      requires InRun(scan.order, se, al, k0, Source(), b0, e, res)
      modifies reader`cur, reader`rest, reader`unreadMarker, reader`insufficient, block
      ensures ok ==> reader.Working() && reader.Same() && run == res.eobrun
                     && Source() == res.src && block[..] == WithStray(scan.order, se, res)
      ensures !ok ==> reader.Suspended() && TouchedUp(block[..], orig, res.block)
    {
      hide OrderOk, Refining, RefineTail, WithStray;
      ghost var k, b;
      ok, k, b := RefineRest(block, k0, se, al, b0, orig, res.block, newPos[..num]);
      run := 0;
      if !ok {
        Undo(block, newPos, num, b, orig, res.block, k);
        return;
      }
      RefiningEnds(scan.order, block[..], b, orig, res.block, k, newPos[..num]);
      StrayCoef(scan.order, se, res);
      run := e - 1;
    }

    /** The band of a refinement scan; e is the end-of-band run that the block may be in. */
    method DecodeAcRefine(d: DDerived, block: array<Coef>, ss: nat, se: nat, al: nat, e: nat, ghost orig: seq<Coef>)
      returns (ok: bool, run: nat)
      requires reader.Working() && Decodes(d) && Decodable(d.pub)
      requires OrderOk(scan.order) && ss <= se < 64 && al <= 13 && block.Length == 64 == |orig|
      requires TouchedUp(block[..], orig, RefineBlock(d.pub, scan.order, ss, se, al, Source(), e, orig).block)
      modifies reader`cur, reader`rest, reader`unreadMarker, reader`insufficient, block
      ensures var r := RefineBlock(d.pub, scan.order, ss, se, al, old(Source()), e, orig);
              && (ok ==> reader.Working() && reader.Same() && block[..] == WithStray(scan.order, se, r)
                         && run == r.eobrun && Source() == r.src)
              && (!ok ==> reader.Suspended() && TouchedUp(block[..], orig, r.block))
    {
      hide Decodes, Decodable, OrderOk, TouchedUp, Refining, RefineSymbols, RefineTail, WithStray;
      ghost var res := RefineBlock(d.pub, scan.order, ss, se, al, Source(), e, orig);
      RefiningStarts(scan.order, block[..], orig, res.block, ss);
      var newPos := new nat[64](_ => 0);
      assert newPos[..0] == [];
      var k, num := ss, 0;
      ghost var b := orig;
      assert e > 0 ==> InRun(scan.order, se, al, ss, Source(), orig, e, res);
      ok, run := true, e;
      if run == 0 {
        ok, k, run, num, b := RefineBand(d, block, ss, se, al, newPos, orig, res);
        if !ok {
          Undo(block, newPos, num, b, orig, res.block, k);
          return;
        }
      }
      if run != 0 {
        ok, run := FinishRun(block, k, se, al, run, newPos, num, b, orig, res);
      }
    }

    /** AC coefficients of a sequential block: those that start below the limit are stored, the
        others are passed over. */
    method DecodeSeqAc(d: DDerived, block: array<Coef>, se: nat, lim: nat, ghost b0: seq<Coef>, ghost orig: seq<Coef>)
      returns (ok: bool)
      requires reader.Working() && Decodes(d) && Decodable(d.pub)
      requires OrderOk(scan.order) && se < 64 && lim <= se + 1 && block.Length == 64 == |b0|
      requires Storing(block[..], b0, orig, SeqAcFrom(d.pub, scan.order, se, lim, 1, Source(), b0).block)
      modifies reader`cur, reader`rest, reader`unreadMarker, reader`insufficient, block
      ensures var r := SeqAcFrom(d.pub, scan.order, se, lim, 1, old(Source()), b0);
              && (ok ==> reader.Working() && reader.Same() && block[..] == r.block && Source() == r.src)
              && (!ok ==> reader.Suspended() && Touched(block[..], orig, r.block))
    {
      hide Decodes, Decodable, OrderOk, SeqAcFrom, Touched, Storing, Number, Extended, ToCoef, NextSymbol, SkipSymbol,
           Skip, Store;
      ghost var res := SeqAcFrom(d.pub, scan.order, se, lim, 1, Source(), b0);
      ghost var b;
      var k, ended;
      ok, k, ended, b := DecodeWanted(d, block, se, lim, b0, orig, res);
      if ok && !ended {
        StoringGivenUp(block[..], b, orig, res.block);
        ok := DropRest(d, se, lim, k, b, res);
      }
    }

    /** In this path the values are just discarded. */
    method DropRest(d: DDerived, se: nat, ghost lim: nat, k0: nat, ghost b: seq<Coef>, ghost res: Result)
      returns (ok: bool)
      requires reader.Working() && Decodes(d) && Decodable(d.pub)
      requires OrderOk(scan.order) && se < 64 && |b| == 64 && k0 >= lim
      requires SeqAcFrom(d.pub, scan.order, se, lim, k0, Source(), b) == res
      modifies reader`cur, reader`rest, reader`unreadMarker, reader`insufficient
      ensures res.block == b
      ensures ok ==> reader.Working() && reader.Same() && Source() == res.src
      ensures !ok ==> reader.Suspended()
    {
      hide Decodes, Decodable, OrderOk, SeqAcFrom, Number, Extended, NextSymbol, SkipSymbol, Skip, Store;
      var k := k0;
      Dropped(d.pub, scan.order, se, lim, k, Source(), b);
      while k <= se
        invariant reader.Working() && reader.Same() && k >= lim
        invariant SeqAcFrom(d.pub, scan.order, se, lim, k, Source(), b) == res
        decreases se + 1 - k
      {
        UnfoldSeq(d.pub, scan.order, se, lim, k, Source(), b);
        var symbol;
        ok, symbol := GetSymbol(d);
        if !ok {
          return;
        }
        var r, n := symbol / 16, symbol % 16;
        if n != 0 {
          k := k + r;
          var dropped;
          ok, dropped := GetBits(n);
          if !ok {
            return;
          }
        } else {
          if r != 15 {
            return;
          }
          k := k + 15;
        }
        k := k + 1;
      }
      UnfoldSeq(d.pub, scan.order, se, lim, k, Source(), b);
      ok := true;
    }

    method DecodeWanted(d: DDerived, block: array<Coef>, se: nat, lim: nat, ghost b0: seq<Coef>, ghost orig: seq<Coef>,
                        ghost res: Result)
      returns (ok: bool, k: nat, ended: bool, ghost b: seq<Coef>)
      requires reader.Working() && Decodes(d) && Decodable(d.pub)
      requires OrderOk(scan.order) && se < 64 && lim <= se + 1 && block.Length == 64 == |b0|
      requires SeqAcFrom(d.pub, scan.order, se, lim, 1, Source(), b0) == res && Storing(block[..], b0, orig, res.block)
      modifies reader`cur, reader`rest, reader`unreadMarker, reader`insufficient, block
      ensures ok ==> reader.Working() && reader.Same()
      ensures ok && ended ==> block[..] == res.block && Source() == res.src
      ensures ok && !ended ==> |b| == 64 && k >= lim
                               && SeqAcFrom(d.pub, scan.order, se, lim, k, Source(), b) == res
                                  && Storing(block[..], b, orig, res.block)
      ensures !ok ==> reader.Suspended() && Touched(block[..], orig, res.block)
    {
      hide Decodes, Decodable, OrderOk, SeqAcFrom, Touched, Storing, Number, Extended, ToCoef, NextSymbol, SkipSymbol,
           Skip, Store;
      b, k, ended, ok := b0, 1, false, true;
      while k < lim
        invariant reader.Working() && reader.Same() && |b| == 64 && ok && !ended
        invariant SeqAcFrom(d.pub, scan.order, se, lim, k, Source(), b) == res
        invariant Storing(block[..], b, orig, res.block)
        decreases lim - k
      {
        UnfoldSeq(d.pub, scan.order, se, lim, k, Source(), b);
        StoringGivenUp(block[..], b, orig, res.block);
        var symbol;
        ok, symbol := GetSymbol(d);
        if !ok {
          return;
        }
        var r, n := symbol / 16, symbol % 16;
        if n != 0 {
          k := k + r;
          var v;
          ok, v := GetBits(n);
          if !ok {
            return;
          }
          var value := Extended(v, n);
          SeqFinal(d.pub, scan.order, se, lim, k, Source(), b, value);
          StoringStep(scan.order, block[..], b, orig, res.block, k, value);
          StoreInPlace(block, k, value);
          b := Store(scan.order, b, k, value);
        } else {
          if r != 15 {
            ended := true;
            return;
          }
          k := k + 15;
        }
        k := k + 1;
      }
    }

    /** A DC difference as the value it stands for. */
    method DecodeDiff(d: DDerived) returns (ok: bool, diff: int)
      requires reader.Working() && Decodes(d) && DcTable(d.pub)
      modifies reader`cur, reader`rest, reader`unreadMarker, reader`insufficient
      ensures ok ==> reader.Working() && reader.Same()
      ensures var n, s1 := NextSymbol(d.pub, old(Source())), SkipSymbol(d.pub, old(Source()));
              ok ==> diff == Extended(Number(s1, n), n) && Source() == Skip(s1, n)
      ensures !ok ==> reader.Suspended()
    {
      hide Decodes, Number, Extended, SkipSymbol, Skip, Symbol;
      var s: nat;
      ok, s := GetSymbol(d);
      diff := 0;
      if ok {
        NoDifference(Source());
        if s != 0 {
          var r;
          ok, r := GetBits(s);
          diff := Extended(r, s);
        }
      }
    }

    // One block by the routine of the scan. The state within an MCU is local: only a completed
    // MCU changes the saved one.

    method DecodeDcFirst(c: nat, last: int, block: array<Coef>) returns (ok: bool, v: int)
      requires reader.Working() && Ready() && c < scan.NumComps() && scan.kind == DcFirst && block.Length == 64
      modifies reader`cur, reader`rest, reader`unreadMarker, reader`insufficient, block
      ensures ok ==> reader.Working() && reader.Same()
      ensures var h := tabs.dc[scan.dcTbl[c]];
              var n, s1 := NextSymbol(h, old(Source())), SkipSymbol(h, old(Source()));
              ok ==> && v == last + Extended(Number(s1, n), n) && Source() == Skip(s1, n)
                     && block[..] == old(block[..])[0 := ToCoef(v * Pow2(scan.al))]
      ensures !ok ==> reader.Suspended() && block[..] == old(block[..])
    {
      hide Decodes, Number, Extended, SkipSymbol, NextSymbol, Skip, OrderOk, ToCoef;
      var diff;
      ok, diff := DecodeDiff(dcDerived[scan.dcTbl[c]]);
      v := last + diff;
      if ok {
        block[0] := ToCoef(v * Pow2(scan.al));
      }
    }

    method DecodeDcRefine(block: array<Coef>, al: nat) returns (ok: bool)
      requires reader.Working() && block.Length == 64
      modifies reader`cur, reader`rest, reader`unreadMarker, reader`insufficient, block
      ensures ok ==> reader.Working() && reader.Same() && Source() == Skip(old(Source()), 1)
      ensures ok ==> block[..] == if Number(old(Source()), 1) == 1
                     then old(block[..])[0 := WithBit(old(block[0]), al)] else old(block[..])
      ensures !ok ==> reader.Suspended() && block[..] == old(block[..])
    {
      hide Number, Skip, WithBit;
      var bit;
      ok, bit := GetBits(1);
      if ok && bit == 1 {
        block[0] := WithBit(block[0], al);
      }
    }

    method DecodeSequential(c: nat, last: int, block: array<Coef>, ghost orig: seq<Coef>) returns (ok: bool, v: int)
      requires reader.Working() && Ready() && c < scan.NumComps()
      requires scan.kind == Sequential && block.Length == 64 == |orig|
      requires Touched(block[..], orig, SequentialResult(Cfg(), c, Source(), last, orig).block)
      modifies reader`cur, reader`rest, reader`unreadMarker, reader`insufficient, block
      ensures var r := SequentialResult(Cfg(), c, old(Source()), last, orig);
              && (ok ==> reader.Working() && reader.Same() && Source() == r.src && block[..] == r.block
                         && v == SequentialLast(Cfg(), c, old(Source()), last))
              && (!ok ==> reader.Suspended() && Touched(block[..], orig, r.block))
    {
      hide Decodes, Number, Extended, SkipSymbol, NextSymbol, Skip, OrderOk, ToCoef, SeqAcFrom, Touched, Storing;
      ghost var final := SequentialResult(Cfg(), c, Source(), last, orig).block;
      var lim := limit[c];
      var diff;
      ok, diff := DecodeDiff(dcDerived[scan.dcTbl[c]]);
      v := last;
      if !ok {
        return;
      }
      ghost var b := orig;
      StoringStarts(block[..], orig, final);
      if lim > 0 {
        v := last + diff;
        if scan.se > 0 {
          DcFinal(Cfg(), c, Source(), orig, v);
        }
        StoringDc(block[..], orig, final, v);
        block[0] := ToCoef(v);
        b := orig[0 := ToCoef(v)];
      }
      if scan.se > 0 {
        ok := DecodeSeqAc(acDerived[scan.acTbl[c]], block, scan.se, lim, b, orig);
      } else {
        StoringGivenUp(block[..], b, orig, final);
      }
    }

    method DecodeDcBlock(c: nat, block: array<Coef>, e: nat, last: seq<int>, ghost orig: seq<Coef>)
      returns (ok: bool, e': nat, last': seq<int>)
      requires reader.Working() && Ready() && c < scan.NumComps() == |last| && block.Length == 64 == |orig|
      requires (scan.kind == DcFirst || scan.kind == DcRefine)
      requires TriedBlock(Cfg(), c, Source(), State(e, last), block[..], orig)
      modifies reader`cur, reader`rest, reader`unreadMarker, reader`insufficient, block
      ensures ok ==> && reader.Working() && reader.Same()
                     && BlockResult(Cfg(), c, old(Source()), State(e, last), orig) ==
                        Mcu(Source(), State(e', last'), block[..])
      ensures !ok ==> reader.Suspended() && TriedBlock(Cfg(), c, old(Source()), State(e, last), block[..], orig)
    {
      hide Decodes, Number, Extended, SkipSymbol, NextSymbol, Skip, OrderOk, ToCoef, Touched, TouchedUp, WithBit;
      hide SequentialResult, SequentialLast, AcFirstFrom, RefineBlock, WithStray;
      e', last' := e, last;
      OnlyDcTouched(block[..], orig, BlockResult(Cfg(), c, Source(), State(e, last), orig).block);
      if scan.kind == DcFirst {
        var v;
        ok, v := DecodeDcFirst(c, last[c], block);
        last' := last[c := v];
      } else {
        BitTwice(orig[0], scan.al);
        ok := DecodeDcRefine(block, scan.al);
      }
    }

    method DecodeAcBlock(c: nat, block: array<Coef>, e: nat, last: seq<int>, ghost orig: seq<Coef>)
      returns (ok: bool, e': nat, last': seq<int>)
      requires reader.Working() && Ready() && c < scan.NumComps() == |last| && block.Length == 64 == |orig|
      requires (scan.kind == AcFirst || scan.kind == AcRefine)
      requires TriedBlock(Cfg(), c, Source(), State(e, last), block[..], orig)
      modifies reader`cur, reader`rest, reader`unreadMarker, reader`insufficient, block
      ensures ok ==> && reader.Working() && reader.Same()
                     && BlockResult(Cfg(), c, old(Source()), State(e, last), orig) ==
                        Mcu(Source(), State(e', last'), block[..])
      ensures !ok ==> reader.Suspended() && TriedBlock(Cfg(), c, old(Source()), State(e, last), block[..], orig)
    {
      hide Decodes, Number, Extended, SkipSymbol, NextSymbol, Skip, OrderOk, ToCoef, Touched, TouchedUp, WithBit;
      hide SequentialResult, SequentialLast, AcFirstFrom, RefineBlock, WithStray;
      e', last' := e, last;
      if scan.kind == AcRefine {
        ok, e' := DecodeAcRefine(acDerived[scan.acTbl[c]], block, scan.ss, scan.se, scan.al, e, orig);
      } else if e > 0 {
        NotTouched(block[..], orig);
        ok, e' := true, e - 1;
      } else {
        ok, e' := DecodeAcFirst(acDerived[scan.acTbl[c]], block, scan.ss, scan.se, scan.al, orig);
      }
    }

    method DecodeBlock(c: nat, block: array<Coef>, e: nat, last: seq<int>, ghost orig: seq<Coef>)
      returns (ok: bool, e': nat, last': seq<int>)
      requires reader.Working() && Ready() && c < scan.NumComps() == |last| && block.Length == 64 == |orig|
      requires TriedBlock(Cfg(), c, Source(), State(e, last), block[..], orig)
      modifies reader`cur, reader`rest, reader`unreadMarker, reader`insufficient, block
      ensures ok ==> && reader.Working() && reader.Same()
                     && BlockResult(Cfg(), c, old(Source()), State(e, last), orig) ==
                        Mcu(Source(), State(e', last'), block[..])
      ensures !ok ==> reader.Suspended() && TriedBlock(Cfg(), c, old(Source()), State(e, last), block[..], orig)
    {
      hide BlockResult, SequentialResult, SequentialLast;
      match scan.kind
      case Sequential =>
        ok, e', last' := DecodeWholeBlock(c, block, e, last, orig);
      case DcFirst =>
        ok, e', last' := DecodeDcBlock(c, block, e, last, orig);
      case DcRefine =>
        ok, e', last' := DecodeDcBlock(c, block, e, last, orig);
      case AcFirst =>
        ok, e', last' := DecodeAcBlock(c, block, e, last, orig);
      case AcRefine =>
        ok, e', last' := DecodeAcBlock(c, block, e, last, orig);
    }

    method DecodeWholeBlock(c: nat, block: array<Coef>, e: nat, last: seq<int>, ghost orig: seq<Coef>)
      returns (ok: bool, e': nat, last': seq<int>)
      requires reader.Working() && Ready() && c < scan.NumComps() == |last|
      requires block.Length == 64 == |orig| && scan.kind == Sequential
      requires TriedBlock(Cfg(), c, Source(), State(e, last), block[..], orig)
      modifies reader`cur, reader`rest, reader`unreadMarker, reader`insufficient, block
      ensures ok ==> && reader.Working() && reader.Same()
                     && BlockResult(Cfg(), c, old(Source()), State(e, last), orig) ==
                        Mcu(Source(), State(e', last'), block[..])
      ensures !ok ==> reader.Suspended() && TriedBlock(Cfg(), c, old(Source()), State(e, last), block[..], orig)
    {
      hide Decodes, Number, Extended, SkipSymbol, NextSymbol, Skip, OrderOk, ToCoef, Touched, TouchedUp, WithBit;
      hide SequentialResult, SequentialLast, AcFirstFrom, RefineBlock, WithStray;
      var v;
      ok, v := DecodeSequential(c, last[c], block, orig);
      e', last' := e, last[c := v];
    }

    /** The blocks of an MCU have the right sizes and are different arrays. */
    ghost predicate BlocksFit(comps: seq<nat>, blocks: seq<array<Coef>>) {
      && |comps| == |blocks| && (scan.kind.AcFirst? || scan.kind.AcRefine? ==> |comps| == 1)
      && (forall i :: 0 <= i < |comps| ==> comps[i] < scan.NumComps() && blocks[i].Length == 64)
      && (forall i, j :: 0 <= i < j < |blocks| ==> blocks[i] != blocks[j])
    }

    /** An MCU whose segment still has data. */
    method AttemptBlocks(comps: seq<nat>, blocks: seq<array<Coef>>, ghost origs: seq<seq<Coef>>) returns (ok: bool)
      requires Valid() && BlocksFit(comps, blocks) && BlocksOk(Cfg(), comps, SavedState(), origs)
      requires Tried(Cfg(), comps, SavedSource(), SavedState(), Contents(blocks), origs)
      requires reader.insufficient ==> scan.kind == DcRefine
      modifies this`eobrun, this`lastDc, blocks
      modifies reader`cur, reader`rest, reader`saved, reader`savedRest, reader`unreadMarker, reader`insufficient
      ensures Valid()
      ensures ok ==> BlocksFrom(Cfg(), comps, 0, old(SavedSource()), old(SavedState()), origs) ==
                     McuResult(SavedSource(), SavedState(), Contents(blocks))
      ensures !ok ==> && Tried(Cfg(), comps, SavedSource(), SavedState(), Contents(blocks), origs)
                      && SavedSource() == old(SavedSource()) && SavedState() == old(SavedState())
                      && reader.unreadMarker == 0 && reader.avail < reader.end
    {
      hide Decodes, Config.Ok, BlocksFrom, Tried, BitReader.Delivers, OrderOk;
      reader.Load();
      var e, last;
      ok, e, last := TryBlocks(comps, blocks, eobrun, lastDc, origs);
      if ok {
        reader.Save();
        eobrun, lastDc := e, last;
      }
    }

    /** One MCU. If the source runs out, nothing permanent has changed, and the next try, from
        whatever state this one has left the blocks in, comes to the same result. */
    method DecodeBlocks(comps: seq<nat>, blocks: seq<array<Coef>>, ghost origs: seq<seq<Coef>>) returns (ok: bool)
      requires Valid() && BlocksFit(comps, blocks) && BlocksOk(Cfg(), comps, SavedState(), origs)
      requires Tried(Cfg(), comps, SavedSource(), SavedState(), Contents(blocks), origs)
      requires restartInterval != 0 ==> restartsToGo > 0
      modifies this`eobrun, this`lastDc, this`restartsToGo, blocks
      modifies reader`cur, reader`rest, reader`saved, reader`savedRest, reader`unreadMarker, reader`insufficient
      ensures Valid()
      ensures ok ==> DecodedMcu(Cfg(), comps, old(SavedSource()), old(SavedState()), origs) ==
                     McuResult(SavedSource(), SavedState(), Contents(blocks))
      ensures !ok ==> && Tried(Cfg(), comps, SavedSource(), SavedState(), Contents(blocks), origs)
                      && SavedSource() == old(SavedSource()) && SavedState() == old(SavedState())
                      && reader.unreadMarker == 0 && reader.avail < reader.end
      ensures restartsToGo == if ok && restartInterval != 0 then old(restartsToGo) - 1 else old(restartsToGo)
    {
      hide Decodes, Config.Ok, BlocksFrom, Tried, BitReader.Delivers, OrderOk;
      ok := true;
      if reader.insufficient && scan.kind != DcRefine {
        LeftAlone(Cfg(), comps, SavedSource(), SavedState(), Contents(blocks), origs);
      } else {
        ok := AttemptBlocks(comps, blocks, origs);
      }
      if ok && restartInterval != 0 {
        restartsToGo := restartsToGo - 1;
      }
    }

    method TryBlocks(comps: seq<nat>, blocks: seq<array<Coef>>, e0: nat, last0: seq<int>, ghost origs: seq<seq<Coef>>)
      returns (ok: bool, e: nat, last: seq<int>)
      requires reader.Working() && Ready() && BlocksFit(comps, blocks)
      requires BlocksOk(Cfg(), comps, State(e0, last0), origs)
      requires Tried(Cfg(), comps, Source(), State(e0, last0), Contents(blocks), origs)
      requires (reader.insufficient ==> scan.kind == DcRefine)
      modifies reader`cur, reader`rest, reader`unreadMarker, reader`insufficient, blocks
      ensures ok ==> reader.Working() && reader.Same()
      ensures ok ==> BlocksFrom(Cfg(), comps, 0, old(Source()), State(e0, last0), origs) ==
                     McuResult(Source(), State(e, last), Contents(blocks))
      ensures !ok ==> reader.Suspended()
                      && Tried(Cfg(), comps, old(Source()), State(e0, last0), Contents(blocks), origs)
    {
      hide Decodes, Config.Ok, BlockResult, TriedBlock, BitReader.Delivers, OrderOk, Tried, BlocksFrom;
      ghost var s0, total := Source(), BlocksFrom(Cfg(), comps, 0, Source(), State(e0, last0), origs);
      ghost var bs, was := origs, Contents(blocks);
      ok, e, last := true, e0, last0;
      for i := 0 to |comps|
        invariant reader.Working() && reader.Same() && BlocksOk(Cfg(), comps, State(e, last), bs)
        invariant BlocksFrom(Cfg(), comps, i, Source(), State(e, last), bs) == total
        invariant i == 0 ==> Source() == s0 && State(e, last) == State(e0, last0)
        invariant forall j :: 0 <= j < i ==> blocks[j][..] == bs[j]
        invariant forall j :: i <= j < |comps| ==> blocks[j][..] == was[j] && bs[j] == origs[j]
      {
        NextTried(Cfg(), comps, i, s0, State(e0, last0), was, origs, Source(), State(e, last), bs);
        ghost var s, st := Source(), State(e, last);
        ok, e, last := DecodeBlock(comps[i], blocks[i], e, last, origs[i]);
        if !ok {
          GivenUpTried(Cfg(), comps, i, s0, State(e0, last0), was, Contents(blocks), origs, s, st, bs);
          return;
        }
        NextBlockFrom(Cfg(), comps, i, s, st, bs);
        bs := bs[i := blocks[i][..]];
      }
      EndOfBlocks(Cfg(), comps, Source(), State(e, last), bs);
      assert Contents(blocks) == bs;
    }

    /** Get past a restart marker if one is due, and start afresh. */
    method CheckRestart() returns (ok: bool)
      requires Valid() && !failed
      modifies this, reader`saved, reader`savedRest, reader`unreadMarker, reader`insufficient, reader`end
      ensures !failed ==> Valid()
      ensures old(restartInterval == 0 || restartsToGo != 0) ==>
                && ok && !failed && SavedSource() == old(SavedSource()) && SavedState() == old(SavedState())
                   && reader.end == old(reader.end)
                && restartsToGo == old(restartsToGo) && nextRestartNum == old(nextRestartNum)
      ensures old(restartInterval != 0 && restartsToGo == 0) ==>
                && (failed ==> !(1 <= old(reader.end) <= |reader.input|
                                 && reader.input[old(reader.end) - 1] == 0xD0 + old(nextRestartNum)))
                && (!failed && !ok ==>
                      && SavedState() == old(SavedState()) && restartsToGo == 0 && nextRestartNum == old(nextRestartNum)
                      && reader.end == old(reader.end) && reader.avail < reader.end && !reader.insufficient
                      && (|old(reader.savedRest)| < 8 ==> reader.savedRest == []))
                && (ok ==>
                      && !failed && ByteStuffing.Terminated(reader.input, old(reader.end))
                      && reader.end == ByteStuffing.SegmentEnd(reader.input, old(reader.end))
                      && reader.savedRest == BytesBits(ByteStuffing.Segment(reader.input, old(reader.end)))
                         && !reader.insufficient
                      && SavedState() == State(0, seq(scan.NumComps(), _ => 0))
                      && restartsToGo == restartInterval && nextRestartNum == (old(nextRestartNum) + 1) % 8)
    {
      hide Ready, BitReader.Delivers, ByteStuffing.Segment, ByteStuffing.SegmentEnd, BytesBits;
      ok := true;
      if restartInterval != 0 && restartsToGo == 0 {
        var r := reader.ReadRestartMarker(nextRestartNum);
        match r
        case Waiting =>
          ok := false;
        case Wrong =>
          ok, failed := false, true;
        case Found =>
          lastDc := seq(scan.NumComps(), _ => 0);
          eobrun := 0;
          nextRestartNum := (nextRestartNum + 1) % 8;
          restartsToGo := restartInterval;
      }
    }
  }

  /** The DC value is stored once. */
  lemma DcFinal(cfg: Config, c: nat, s: Src, orig: seq<Coef>, v: int)
    requires cfg.Ok() && c < cfg.scan.NumComps() && |orig| == 64 && cfg.scan.kind == Sequential && cfg.scan.se > 0
    ensures SeqAcFrom(cfg.tabs.ac[cfg.scan.acTbl[c]], cfg.scan.order, cfg.scan.se,
                      cfg.limit[c], 1, s, orig[0 := ToCoef(v)]).block[0] == ToCoef(v)
  {
    SeqStable(cfg.tabs.ac[cfg.scan.acTbl[c]], cfg.scan.order, cfg.scan.se, cfg.limit[c], 1, s, orig[0 := ToCoef(v)]);
  }

  lemma StoringDc(actual: seq<Coef>, orig: seq<Coef>, final: seq<Coef>, v: int)
    requires Storing(actual, orig, orig, final) && final[0] == ToCoef(v)
    ensures Storing(actual[0 := ToCoef(v)], orig[0 := ToCoef(v)], orig, final)
  {
  }

  lemma {:induction false} Dropped(h: HuffTbl, order: seq<nat>, se: nat, limit: nat, k: nat, s: Src, b: seq<Coef>)
    requires Decodable(h) && OrderOk(order) && se < 64 && |b| == 64 && k >= limit
    ensures SeqAcFrom(h, order, se, limit, k, s, b).block == b
    decreases se + 1 - k
  {
    hide Decodable, OrderOk, NextSymbol, SkipSymbol, Skip;
    if k <= se {
      var symbol, s1 := NextSymbol(h, s), SkipSymbol(h, s);
      var r, n := symbol / 16, symbol % 16;
      if n != 0 {
        Dropped(h, order, se, limit, k + r + 1, Skip(s1, n), b);
      } else if r == 15 {
        Dropped(h, order, se, limit, k + 16, s1, b);
      }
    }
  }

  lemma SeqFinal(h: HuffTbl, order: seq<nat>, se: nat, limit: nat, at: nat, s: Src, b: seq<Coef>, v: int)
    requires Decodable(h) && OrderOk(order) && se < 64 && |b| == 64
    ensures SeqAcFrom(h, order, se, limit, at + 1, s, Store(order, b, at, v)).block[OrderAt(order, at)] == ToCoef(v)
  {
    hide ToCoef;
    var b' := Store(order, b, at, v);
    SeqStable(h, order, se, limit, at + 1, s, b');
    if at < 64 {
      assert b'[order[at]] == ToCoef(v);
    } else {
      assert SeqAcFrom(h, order, se, limit, at + 1, s, b').block == b';
    }
  }

  lemma PassedSettled(h: HuffTbl, order: seq<nat>, se: nat, al: nat, k: nat, r: nat, s: Src, b: seq<Coef>, v: int,
                      res: Result)
    requires Decodable(h) && OrderOk(order) && k <= se < 64 && |b| == 64
    requires RunOfSymbol(h, order, se, al, k, r, s, b, v, res)
    ensures var run := RefineRun(order, se, al, k, r, s, b);
            |res.block| == 64 && forall j :: 0 <= j < run.k && j < 64 ==> res.block[order[j]] == run.block[order[j]]
  {
  }

  /** The coefficient that a symbol codes is stored after those that it passes. */
  /** With the new coefficient k, if there is one, stored and noted, the refinement is right up to
      it, and goes on or is at its end. */
  ghost predicate RunEnds(h: HuffTbl, order: seq<nat>, se: nat, al: nat, v: int, res: Result,
                          actual: seq<Coef>, orig: seq<Coef>, k: nat, s: Src, b: seq<Coef>, news: seq<nat>)
    requires Decodable(h) && OrderOk(order) && se < 64 && |b| == 64
  {
    |actual| == |res.block| == 64 && k <= se + 1 &&
    var p := OrderAt(order, k);
    var actual', b', news' := if v == 0 then actual else actual[p := ToCoef(v)],
                              if v == 0 || k > se then b else b[p := ToCoef(v)],
                              if v == 0 then news else news + [p];
    && (k < se ==> Refining(order, actual', b', orig, res.block, k + 1, news')
                   && res == RefineSymbols(h, order, se, al, k + 1, s, b'))
    && (k >= se ==> res.src == s && res.eobrun == 0 && actual' == WithStray(order, se, res))
  }

  lemma SymbolEnds(h: HuffTbl, order: seq<nat>, se: nat, al: nat, k0: nat, r: nat, s0: Src, b0: seq<Coef>, v: int,
                   res: Result,
                   actual: seq<Coef>, orig: seq<Coef>, k: nat, s: Src, b: seq<Coef>, news: seq<nat>)
    requires Decodable(h) && OrderOk(order) && k0 <= se < 64 && |b0| == |b| == 64
    requires RunOfSymbol(h, order, se, al, k0, r, s0, b0, v, res)
    requires RefineRun(order, se, al, k0, r, s0, b0) == Run(k, s, b)
    requires Refining(order, actual, b, orig, res.block, k, news)
    ensures |actual| == 64 && k0 <= k <= se + 1
    ensures RunEnds(h, order, se, al, v, res, actual, orig, k, s, b, news)
  {
    hide Refining, RefineSymbols, RefineRun, ToCoef, Decodable;
    RefiningSizes(order, actual, b, orig, res.block, k, news);
    if k > se {
      RefiningEnds(order, actual, b, orig, res.block, k, news);
    } else {
      ZeroStep(order, actual, b, orig, res.block, k, news);
      PlaceStep(order, actual, b, orig, res.block, k, news, v);
      if k == se {
        var b' := if v == 0 then b else b[order[k] := ToCoef(v)];
        NoSymbolsLeft(h, order, se, al, k + 1, s, b');
        var actual' := if v == 0 then actual else actual[order[k] := ToCoef(v)];
        RefiningEnds(order, actual', b', orig, res.block, k + 1, if v == 0 then news else news + [order[k]]);
      }
    }
  }

  lemma RestStep(order: seq<nat>, actual: seq<Coef>, b: seq<Coef>, orig: seq<Coef>, final: seq<Coef>, k: nat,
                 news: seq<nat>, se: nat, al: nat, s: Src)
    requires OrderOk(order) && k <= se < 64 && al <= 13 && |b| == 64 && Refining(order, actual, b, orig, final, k, news)
    requires final == RefineTail(order, se, al, k, s, b).block
    ensures order[k] < 64 && |actual| == 64 && (actual[order[k]] != 0 <==> b[order[k]] != 0)
    ensures var run := RefineTail(order, se, al, k, s, b);
            if b[order[k]] != 0 then
              && final[order[k]] == Correct(b, order[k], al, Number(s, 1))[order[k]]
              && run == RefineTail(order, se, al, k + 1, Skip(s, 1), Correct(b, order[k], al, Number(s, 1)))
            else
              && Refining(order, actual, b, orig, final, k + 1, news)
              && run == RefineTail(order, se, al, k + 1, s, b)
  {
    hide Correct, Number, Skip, Refining;
    RefiningSizes(order, actual, b, orig, final, k, news);
    if b[order[k]] != 0 {
      TailStable(order, se, al, k + 1, Skip(s, 1), Correct(b, order[k], al, Number(s, 1)));
      CorrectionStep(order, actual, b, orig, final, k, news, al, Number(s, 1));
    } else {
      ZeroStep(order, actual, b, orig, final, k, news);
    }
  }

  lemma NewsWithin(order: seq<nat>, actual: seq<Coef>, b: seq<Coef>, orig: seq<Coef>, final: seq<Coef>, k: nat,
                   news: seq<nat>)
    requires OrderOk(order) && Refining(order, actual, b, orig, final, k, news)
    ensures forall i :: 0 <= i < |news| ==> news[i] < 64
  {
    forall i | 0 <= i < |news|
      ensures news[i] < 64
    {
      assert news[i] in news;
    }
  }

  /** In a run of run blocks, the rest of the block from k on only has correction bits. */
  ghost predicate InRun(order: seq<nat>, se: nat, al: nat, k: nat, s: Src, b: seq<Coef>, run: nat, res: Result)
    requires OrderOk(order) && se < 64 && |b| == 64 && k <= se + 1 && run > 0
  {
    res == Result(RefineTail(order, se, al, k, s, b).src, run - 1, RefineTail(order, se, al, k, s, b).block, 0)
  }

  lemma StrayCoef(order: seq<nat>, se: nat, r: Result)
    requires OrderOk(order) && |r.block| == 64
    ensures WithStray(order, se, r) == if r.stray == 0 then r.block
                                                            else r.block[OrderAt(order, se + 1) := ToCoef(r.stray)]
  {
  }

  lemma RefiningSizes(order: seq<nat>, actual: seq<Coef>, b: seq<Coef>, orig: seq<Coef>, final: seq<Coef>, k: nat,
                      news: seq<nat>)
    requires OrderOk(order) && Refining(order, actual, b, orig, final, k, news)
    ensures |actual| == |b| == |orig| == |final| == 64
  {
  }

  lemma EndOfPass(order: seq<nat>, se: nat, al: nat, k: nat, r: nat, s: Src, b: seq<Coef>)
    requires OrderOk(order) && se < 64 && |b| == 64 && k == se + 1
    ensures RefineRun(order, se, al, k, r, s, b) == Run(k, s, b)
    ensures RefineTail(order, se, al, k, s, b) == Run(k, s, b)
  {
  }

  lemma PassStep(order: seq<nat>, actual: seq<Coef>, b: seq<Coef>, orig: seq<Coef>, final: seq<Coef>, k: nat,
                 news: seq<nat>, se: nat, al: nat, r: nat, s: Src)
    requires OrderOk(order) && k <= se < 64 && al <= 13 && Refining(order, actual, b, orig, final, k, news)
    requires var run := RefineRun(order, se, al, k, r, s, b);
             forall j :: 0 <= j < run.k && j < 64 ==> final[order[j]] == run.block[order[j]]
    ensures order[k] < 64 && (actual[order[k]] != 0 <==> b[order[k]] != 0)
    ensures var run := RefineRun(order, se, al, k, r, s, b);
            if b[order[k]] != 0 then
              && final[order[k]] == Correct(b, order[k], al, Number(s, 1))[order[k]]
              && run == RefineRun(order, se, al, k + 1, r, Skip(s, 1), Correct(b, order[k], al, Number(s, 1)))
            else
              && Refining(order, actual, b, orig, final, k + 1, news)
              && run == if r == 0 then Run(k, s, b) else RefineRun(order, se, al, k + 1, r - 1, s, b)
  {
    hide Correct, Number, Skip, Refining;
    RefiningSizes(order, actual, b, orig, final, k, news);
    if b[order[k]] != 0 {
      RunStable(order, se, al, k + 1, r, Skip(s, 1), Correct(b, order[k], al, Number(s, 1)));
      CorrectionStep(order, actual, b, orig, final, k, news, al, Number(s, 1));
    } else {
      ZeroStep(order, actual, b, orig, final, k, news);
    }
  }
}
