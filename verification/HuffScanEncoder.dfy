/** The Huffman entropy encoder of a scan, in its two modes: counting the symbols that it would
    put out, or putting them out. */
module HuffScanEncoder {
  import opened Bits
  import opened BitStrings
  import opened Scans
  import opened HuffModel
  import opened HuffTables
  import opened HuffTokens
  import opened Segments
  import opened ByteStuffing
  import BitWriter

  /** How often a symbol occurs. */
  function Uses(ts: seq<Token>, dc: bool, tbl: nat, symbol: nat): nat {
    if ts == [] then 0
    else Uses(ts[..|ts| - 1], dc, tbl, symbol) +
         match ts[|ts| - 1]
         case Sym(d, t, s) => if d == dc && t == tbl && s == symbol then 1 else 0
         case Raw(_, _) => 0
  }

  type Counts = seq<seq<nat>>

  ghost predicate CountsMatch(counts: Counts, dc: bool, ts: seq<Token>) {
    && |counts| == NUM_HUFF_TBLS
    && (forall t :: 0 <= t < NUM_HUFF_TBLS ==> |counts[t]| == 257)
    && (forall t, s :: 0 <= t < NUM_HUFF_TBLS && 0 <= s < 257 ==> counts[t][s] == Uses(ts, dc, t, s))
  }

  lemma OneUse(counts: Counts, dc: bool, ts: seq<Token>, tok: Token)
    requires CountsMatch(counts, dc, ts)
    ensures match tok
            case Sym(d, t, s) =>
              t < NUM_HUFF_TBLS ==>
                CountsMatch(if d == dc then counts[t := counts[t][s := counts[t][s] + 1]] else counts, dc, ts + [tok])
            case Raw(_, _) => CountsMatch(counts, dc, ts + [tok])
  {
    assert (ts + [tok])[..|ts|] == ts;
  }

  /** The scan parameters are ones that the Huffman coder has tables for. */
  predicate HuffOk(scan: Scan) {
    && scan.Ok()
    && (forall c :: 0 <= c < scan.NumComps() ==> scan.dcTbl[c] < NUM_HUFF_TBLS && scan.acTbl[c] < NUM_HUFF_TBLS)
    && scan.NumComps() >= 1 && (scan.kind.AcFirst? || scan.kind.AcRefine? ==> scan.NumComps() == 1)
  }

  /** The table of the end-of-band symbols. */
  function RunTbl(scan: Scan): nat
    requires HuffOk(scan)
  {
    scan.acTbl[0]
  }

  ghost predicate TableOk(gather: bool, tabs: Tabs, derived: seq<CDerived>, dc: bool, tbl: nat) {
    && tbl < NUM_HUFF_TBLS && tabs.Ok() && |derived| == NUM_HUFF_TBLS
    && (!gather ==> Good(tabs.Slot(dc, tbl)) && Encodes(tabs.Slot(dc, tbl), derived[tbl]))
  }

  /** The tables that the scan uses were derived; none are needed to count symbols. */
  ghost predicate TablesOk(scan: Scan, gather: bool, tabs: Tabs, dcDerived: seq<CDerived>, acDerived: seq<CDerived>) {
    && tabs.Ok()
    && (scan.UsesDc() ==> forall c :: 0 <= c < |scan.dcTbl| ==> TableOk(gather, tabs, dcDerived, true, scan.dcTbl[c]))
    && (scan.UsesAc() ==> forall c :: 0 <= c < |scan.acTbl| ==> TableOk(gather, tabs, acDerived, false, scan.acTbl[c]))
  }

  /** Between MCUs a pending run neither is at its limit nor can the correction bits of one
      more block overflow their buffer. */
  predicate Rested(eobrun: nat, be: nat) {
    eobrun < MAX_EOBRUN && be <= BE_LIMIT && (eobrun == 0 ==> be == 0)
  }

  /** A finished segment: what it holds and its data bytes. */
  datatype Seg = Seg(tokens: seq<Token>, data: seq<Byte>)

  ghost function Datas(segs: seq<Seg>): (datas: seq<seq<Byte>>)
    ensures |datas| == |segs| && forall i :: 0 <= i < |segs| ==> datas[i] == segs[i].data
  {
    seq(|segs|, i requires 0 <= i < |segs| => segs[i].data)
  }

  /** All tokens of the segments. */
  ghost function Tokens(segs: seq<Seg>): seq<Token> {
    if segs == [] then [] else Tokens(segs[..|segs| - 1]) + segs[|segs| - 1].tokens
  }

  /** The bits, followed by up to seven one bits that complete the last byte. */
  ghost predicate FillsBytes(bits: seq<Bit>, data: seq<Byte>) {
    && |bits| <= 8 * |data| < |bits| + 8
    && BytesBits(data) == bits + BitWriter.Ones(8 * |data| - |bits|)
  }

  ghost predicate SegsOk(tabs: Tabs, segs: seq<Seg>)
    requires tabs.Ok()
  {
    forall i :: 0 <= i < |segs| ==> SegOk(tabs, segs[i])
  }

  ghost predicate SegOk(tabs: Tabs, s: Seg)
    requires tabs.Ok()
  {
    AllEncodable(tabs, s.tokens) && FillsBytes(TokensBits(tabs, s.tokens), s.data)
  }

  lemma MoreTokens(segs: seq<Seg>, s: Seg)
    ensures Tokens(segs + [s]) == Tokens(segs) + s.tokens
  {
    var all := segs + [s];
    assert all[..|all| - 1] == segs && all[|all| - 1] == s;
  }

  lemma MoreSegsOk(tabs: Tabs, segs: seq<Seg>, s: Seg)
    requires tabs.Ok()
    ensures SegsOk(tabs, segs) && SegOk(tabs, s) ==> SegsOk(tabs, segs + [s])
  {
    hide SegOk;
  }

  lemma MoreOnWire(segs: seq<Seg>, s: Seg)
    ensures Wire(Datas(segs + [s])) == Wire(Datas(segs)) + OnWire(s.data, |segs|)
  {
    hide Wire, OnWire, Datas;
    MoreDatas(segs, s);
    WireStep(Datas(segs + [s]), |segs|);
  }

  lemma MoreDatas(segs: seq<Seg>, s: Seg)
    ensures Datas(segs + [s])[..|segs|] == Datas(segs) && Datas(segs + [s])[..|segs| + 1] == Datas(segs + [s])
  {
  }

  lemma SameWire(segs: seq<Seg>, s: Seg, n: nat)
    requires n == |segs| % 8
    ensures OnWire(s.data, |segs|) == OnWire(s.data, n)
  {
  }

  lemma NextHistory(earlier: seq<Token>, history: seq<Token>, next: seq<Token>)
    ensures earlier + history + [] == earlier + history && [] + next == next
  {
  }

  lemma EmptyBits(tabs: Tabs)
    requires tabs.Ok()
    ensures AllEncodable(tabs, []) && TokensBits(tabs, []) == []
  {
  }

  class ScanEncoder {
    const scan: Scan
    const gather: bool
    const restartInterval: nat
    const dcDerived: seq<CDerived>
    const acDerived: seq<CDerived>
    const writer: BitWriter.Writer
    var dcCounts: Counts
    var acCounts: Counts
    var restartsToGo: nat
    var nextRestartNum: nat
    var lastDc: seq<int>
    var eobrun: nat
    var be: nat
    const bitBuffer: array<Bit>
    var failed: bool  // an error exit was taken

    ghost const tabs: Tabs
    ghost var script: seq<Token>    // what is still to come in the segment
    ghost var history: seq<Token>   // what came in it so far
    ghost var total: seq<Token>     // both together
    ghost var earlier: seq<Token>   // what came in earlier segments
    ghost var done: seq<Seg>        // the earlier segments

    ghost predicate Ready(dc: bool, tbl: nat) {
      TableOk(gather, tabs, if dc then dcDerived else acDerived, dc, tbl)
    }

    /** The parts of the state that emitting symbols is about. */
    ghost predicate Emitting()
      reads this`failed, this`history, this`script, this`total, this`earlier, this`dcCounts, this`acCounts, writer
    {
      && writer.Valid() && tabs.Ok()
      && (!failed ==> history + script == total)
      && (!failed && !gather ==> AllEncodable(tabs, history) && writer.bits == TokensBits(tabs, history))
      && (gather ==> CountsMatch(dcCounts, true, earlier + history) && CountsMatch(acCounts, false, earlier + history))
      && |dcCounts| == |acCounts| == NUM_HUFF_TBLS
      && forall t :: 0 <= t < NUM_HUFF_TBLS ==> |dcCounts[t]| == |acCounts[t]| == 257
    }

    /** No error exit can be taken for want of a code. */
    ghost predicate Able()
      reads this`failed, this`script
    {
      !failed && tabs.Ok() && (gather || AllEncodable(tabs, script))
    }

    /** The token that the script asks for was dealt with. */
    twostate predicate Moved(t: Token)
      reads this, writer
    {
      && Progress() && (old(Able()) ==> Able())
      && (!failed ==> old(script) != [] && script == old(script)[1..] && history == old(history) + [t])
    }

    /** Nothing but tokens of the script was dealt with. */
    twostate predicate Progress()
      reads this, writer
    {
      && Emitting() && earlier == old(earlier) && writer.base == old(writer.base)
      && (!failed ==> !old(failed)) && total == old(total)
    }

    /** A symbol and the raw bits that go with it. */
    method EmitBoth(dc: bool, tbl: nat, symbol: Byte, value: int, size: nat, ghost rest: seq<Token>)
      requires Emitting() && Ready(dc, tbl) && 1 <= size <= 16
      requires !failed ==> script == [Sym(dc, tbl, symbol)] + ([Raw(value, size)] + rest)
      modifies this`dcCounts, this`acCounts, this`failed, this`script, this`history, writer
      ensures Progress() && (old(Able()) ==> Able())
      ensures !failed ==> script == rest
    {
      hide Emitting, Able, TableOk;
      EmitSymbol(dc, tbl, symbol);
      EmitRaw(value, size);
    }

    /** The correction bits that wait for the end-of-band symbol. */
    ghost function Buffered(): seq<Bit>
      reads this`be, bitBuffer
      requires be <= bitBuffer.Length
    {
      bitBuffer[..be]
    }

    /** Holds all the time. */
    ghost predicate Sound()
      reads this, writer
    {
      && Emitting() && HuffOk(scan) && TablesOk(scan, gather, tabs, dcDerived, acDerived)
      && |lastDc| == scan.NumComps() && nextRestartNum < 8
      && bitBuffer.Length == MAX_CORR_BITS
    }

    /** Holds between MCUs. */
    ghost predicate Valid()
      reads this, writer
    {
      && Sound()
      && earlier == Tokens(done)
      && (!gather ==> nextRestartNum == |done| % 8 && writer.base == Wire(Datas(done))
                      && (!failed ==> SegsOk(tabs, done)))
      && Rested(eobrun, be) && (scan.kind.AcFirst? || scan.kind.AcRefine? || eobrun == 0)
    }

    constructor (scan: Scan, gather: bool, restartInterval: nat, dcDerived: seq<CDerived>, acDerived: seq<CDerived>,
                 ghost tabs: Tabs)
      requires HuffOk(scan) && TablesOk(scan, gather, tabs, dcDerived, acDerived)
      ensures Valid() && !failed && fresh(writer) && fresh(bitBuffer)
      ensures this.scan == scan && this.gather == gather && this.restartInterval == restartInterval && this.tabs == tabs
      ensures eobrun == 0 && restartsToGo == restartInterval && nextRestartNum == 0
      ensures lastDc == seq(scan.NumComps(), _ => 0)
      ensures history == [] && done == [] && script == total == [] && writer.base == []
    {
      this.scan, this.gather, this.restartInterval, this.tabs := scan, gather, restartInterval, tabs;
      this.dcDerived, this.acDerived := dcDerived, acDerived;
      dcCounts := seq(NUM_HUFF_TBLS, _ => seq(257, _ => 0));
      acCounts := seq(NUM_HUFF_TBLS, _ => seq(257, _ => 0));
      restartsToGo, nextRestartNum := restartInterval, 0;
      lastDc := seq(scan.NumComps(), _ => 0);
      eobrun, be, failed := 0, 0, false;
      bitBuffer := new Bit[MAX_CORR_BITS](_ => 0);
      script, history, total, earlier, done := [], [], [], [], [];
      writer := new BitWriter.Writer();
      new;
      assert earlier + history == [];
    }

    /** Emit or just count a symbol. */
    method EmitSymbol(dc: bool, tbl: nat, symbol: Byte)
      requires Emitting() && Ready(dc, tbl)
      requires !failed ==> script != [] && script[0] == Sym(dc, tbl, symbol)
      modifies this`dcCounts, this`acCounts, this`failed, this`script, this`history, writer
      ensures Moved(Sym(dc, tbl, symbol))
    {
      hide BitWriter.Writer.Valid, Encodes, Good, HasCode, CodeOf, BitsOf, CountsMatch;
      ghost var t := Sym(dc, tbl, symbol);
      Shifted(history, script);
      if gather {
        CountSymbol(dc, tbl, symbol);
        return;
      }
      var derived := if dc then dcDerived[tbl] else acDerived[tbl];
      EncodedSymbol(tabs.Slot(dc, tbl), derived, symbol);
      var ok := writer.EmitBits(derived.ehufco[symbol], derived.ehufsi[symbol]);
      if ok {
        if !failed {
          OneToken(tabs, history, t);
        }
      } else {
        failed := true;
      }
      history := history + [t];
      script := if script == [] then [] else script[1..];
    }

    /** Emit raw bits, unless symbols are only counted. */
    method EmitRaw(value: int, size: nat)
      requires Emitting() && 1 <= size <= 16
      requires !failed ==> script != [] && script[0] == Raw(value, size)
      modifies this`script, this`history, writer
      ensures Moved(Raw(value, size))
    {
      hide BitWriter.Writer.Valid, BitsOf, CountsMatch;
      ghost var t := Raw(value, size);
      Shifted(history, script);
      if !gather {
        var ok := writer.EmitBits(value, size);
        if !failed {
          OneToken(tabs, history, t);
        }
      } else {
        OneUse(dcCounts, true, earlier + history, t);
        OneUse(acCounts, false, earlier + history, t);
        assert earlier + history + [t] == earlier + (history + [t]);
      }
      history := history + [t];
      script := if script == [] then [] else script[1..];
    }

    /** Emit bits from the correction bit buffer. */
    method EmitBufferedBits(start: nat, n: nat, ghost rest: seq<Token>)
      requires Emitting() && start + n <= bitBuffer.Length
      requires !failed ==> script == RawBits(bitBuffer[start..start + n], rest)
      modifies this`script, this`history, writer
      ensures Progress() && (old(Able()) ==> Able())
      ensures !failed ==> script == rest
    {
      hide RawBits, Emitting, Able;
      ghost var bits := bitBuffer[start..start + n];
      for i := 0 to n
        invariant Progress() && bits == bitBuffer[start..start + n]
        invariant !failed ==> script == RawBits(bits[i..], rest)
        invariant old(Able()) ==> Able()
      {
        RawBitsStep(bits, i, rest);
        EmitRaw(bitBuffer[start + i], 1);
      }
      RawBitsStep(bits, n, rest);
    }

    /** Emit any pending end-of-band symbol, with the run's correction bits. */
    method EmitEobRun(tbl: nat, ghost rest: seq<Token>)
      requires Emitting() && Ready(false, tbl)
      requires eobrun <= MAX_EOBRUN && be <= bitBuffer.Length && (eobrun == 0 ==> be == 0)
      requires !failed ==> script == if eobrun == 0 then rest else EobRun(tbl, eobrun, RawBits(Buffered(), rest))
      modifies this`dcCounts, this`acCounts, this`failed, this`script, this`history, this`eobrun, this`be, writer
      ensures Progress() && (old(Able()) ==> Able()) && eobrun == 0 && be == 0
      ensures !failed ==> script == rest
    {
      hide RawBits, TableOk, Emitting, Able, EobRun;
      if eobrun > 0 {
        EmitEobSymbol(tbl, RawBits(Buffered(), rest));
        eobrun := 0;
        assert bitBuffer[0..0 + be] == Buffered();
        EmitBufferedBits(0, be, rest);
        be := 0;
      }
    }

    /** The symbol for the run and the low bits of its length. */
    method EmitEobSymbol(tbl: nat, ghost rest: seq<Token>)
      requires Emitting() && Ready(false, tbl) && 1 <= eobrun <= MAX_EOBRUN
      requires !failed ==> script == EobRun(tbl, eobrun, rest)
      modifies this`dcCounts, this`acCounts, this`failed, this`script, this`history, writer
      ensures Progress() && (old(Able()) ==> Able())
      ensures !failed ==> script == rest
    {
      hide BitCount, TableOk, Emitting, Able, EobRun;
      var nbits := BitLength(eobrun);
      UnfoldEobRun(tbl, eobrun, rest);
      nbits := nbits - 1;  // at most 14, so the error exit for more is never taken
      if nbits > 0 {
        EmitBoth(false, tbl, 16 * nbits, eobrun, nbits, rest);
      } else {
        EmitSymbol(false, tbl, 0);
      }
    }

    lemma TablesReady(c: nat)
      requires HuffOk(scan) && TablesOk(scan, gather, tabs, dcDerived, acDerived) && c < scan.NumComps()
      ensures scan.UsesDc() ==> Ready(true, scan.dcTbl[c])
      ensures scan.UsesAc() ==> Ready(false, scan.acTbl[c])
    {
    }

    /** A DC difference; m is the point-transformed value. */
    method EncodeDc(dc: nat, c: nat, m: int, ghost rest: seq<Token>)
      requires Emitting() && Ready(true, dc) && c < |lastDc|
      requires !failed ==> script == DcTokens(dc, m - lastDc[c], rest)
      modifies this`dcCounts, this`acCounts, this`failed, this`script, this`history, this`lastDc, writer
      ensures Progress() && lastDc == old(lastDc)[c := m]
      ensures !failed ==> script == rest && BitCount(Abs(m - old(lastDc[c]))) <= MAX_COEF_BITS + 1
      ensures old(Able()) && BitCount(Abs(m - old(lastDc[c]))) <= MAX_COEF_BITS + 1 ==> Able()
    {
      hide BitCount, TableOk, Emitting, Able;
      var temp := m - lastDc[c];
      lastDc := lastDc[c := m];
      var temp2 := temp;
      if temp < 0 {
        temp := -temp;
        temp2 := temp2 - 1;
      }
      var nbits := BitLength(temp);
      NoBits(temp);
      if nbits > MAX_COEF_BITS + 1 {
        Fail();
        return;
      }
      if nbits != 0 {
        EmitBoth(true, dc, nbits, temp2, nbits, rest);
      } else {
        EmitSymbol(true, dc, 0);
      }
    }

    /** An error exit. */
    method Fail()
      requires Emitting()
      modifies this`failed
      ensures Progress() && failed
    {
      failed := true;
    }

    /** The symbols for runs of 16 zeros, of r zeros before coefficient k. */
    method EncodeZeroRuns(ac: nat, r: nat, k: nat, ghost zz: seq<int>, ghost ke: nat, ghost rest: seq<Token>)
      returns (left: nat)
      requires Emitting() && Ready(false, ac)
      requires r <= k <= ke < |zz| && zz[ke] != 0 && zz[k] != 0 && forall i :: k - r <= i < k ==> zz[i] == 0
      requires !failed ==> script == AcFrom(ac, zz, ke, k - r, rest)
      modifies this`dcCounts, this`acCounts, this`failed, this`script, this`history, writer
      ensures Progress() && (old(Able()) ==> Able())
      ensures left < 16 && left <= r && (!failed ==> script == AcFrom(ac, zz, ke, k - left, rest))
    {
      hide TableOk, Emitting, Able, AcFrom;
      left := r;
      while left > 15
        invariant Progress() && left <= r && (old(Able()) ==> Able())
        invariant !failed ==> script == AcFrom(ac, zz, ke, k - left, rest)
      {
        UnfoldAcFrom(ac, zz, ke, k - left, rest);
        NextIs(zz, k - left, ke, k);
        EmitSymbol(false, ac, 0xF0);
        left := left - 16;
      }
    }

    /** Sign and magnitude of a nonzero coefficient x after r zeros, r below 16. */
    method EncodeCoef(ac: nat, r: nat, x: int, ghost rest: seq<Token>)
      requires Emitting() && Ready(false, ac) && r < 16 && x != 0
      requires !failed ==> script == if BitCount(Abs(x)) > MAX_COEF_BITS then [ERROR_EXIT] + rest
                                     else [Sym(false, ac, r * 16 + BitCount(Abs(x)))] + ([ValueBits(x)] + rest)
      modifies this`dcCounts, this`acCounts, this`failed, this`script, this`history, writer
      ensures Progress()
      ensures !failed ==> script == rest && BitCount(Abs(x)) <= MAX_COEF_BITS
      ensures old(Able()) && BitCount(Abs(x)) <= MAX_COEF_BITS ==> Able()
    {
      hide BitCount, TableOk, Emitting, Able;
      var temp, temp2 := x, x;
      if temp < 0 {
        temp := -temp;
        temp2 := temp2 - 1;
      }
      var nbits := BitLength(temp);
      NoBits(temp);
      if nbits > MAX_COEF_BITS {
        Fail();
        return;
      }
      EmitBoth(false, ac, r * 16 + nbits, temp2, nbits, rest);
    }

    /** A block with something to code ends the run before it. */
    method FlushRun(tbl: nat, ghost started: bool, ghost part: Part, ghost rest: seq<Part>)
      requires Emitting() && Ready(false, tbl)
      requires eobrun <= MAX_EOBRUN && be <= bitBuffer.Length && (eobrun == 0 ==> be == 0)
      requires if started then eobrun == 0
               else part.explicit != [] && (!failed ==> script == Pending(tbl, eobrun, Buffered(), [part] + rest))
      modifies this`dcCounts, this`acCounts, this`failed, this`script, this`history, this`eobrun, this`be, writer
      ensures Progress() && (old(Able()) ==> Able()) && eobrun == 0 && be == 0
      ensures !failed ==> script == if started then old(script) else Stream(tbl, [part] + rest)
    {
      hide TableOk, Emitting, Able, EobRun, RawBits, Stream, Pending;
      if !started {
        NoRun(tbl, Buffered(), [part] + rest);
        if eobrun > 0 {
          EndRun(tbl, eobrun, Buffered(), [part] + rest);
        }
      }
      EmitEobRun(tbl, if started then script else Stream(tbl, [part] + rest));
    }

    /** Count an end of band, whose br correction bits are in the buffer behind those of the run
        so far. The run is forced out if its length or its bits might overflow. */
    method EndBlock(tbl: nat, br: nat, ghost started: bool, ghost part: Part, ghost rest: seq<Part>)
      requires Emitting() && Ready(false, tbl) && Rested(eobrun, be) && part.eob
      requires br <= 63 && bitBuffer.Length == MAX_CORR_BITS && bitBuffer[be..be + br] == part.tail
      requires if started then eobrun == 0 && (!failed ==> script == After(tbl, part, rest))
               else OnlyEob(part) && (!failed ==> script == Pending(tbl, eobrun, Buffered(), [part] + rest))
      modifies this`dcCounts, this`acCounts, this`failed, this`script, this`history, this`eobrun, this`be, writer
      ensures Progress() && (old(Able()) ==> Able()) && Rested(eobrun, be)
      ensures !failed ==> script == Pending(tbl, eobrun, Buffered(), rest)
    {
      hide TableOk, Emitting, Able, EobRun, RawBits, Stream, Pending;
      if !started {
        JoinRun(tbl, eobrun, Buffered(), part, rest);
      }
      assert bitBuffer[..be + br] == Buffered() + part.tail;
      assert be == 0 ==> Buffered() + part.tail == part.tail;
      eobrun := eobrun + 1;
      be := be + br;
      if eobrun == MAX_EOBRUN || be > BE_LIMIT {
        EndRun(tbl, eobrun, Buffered(), rest);
        EmitEobRun(tbl, Stream(tbl, rest));
        NoRun(tbl, Buffered(), rest);
      }
    }

    method EncodeRunAndCoef(ac: nat, r: nat, k: nat, x: int, ghost zz: seq<int>, ghost ke: nat, ghost rest: seq<Token>)
      requires Emitting() && Ready(false, ac)
      requires r <= k <= ke < |zz| && zz[ke] != 0 && zz[k] == x != 0 && forall i :: k - r <= i < k ==> zz[i] == 0
      requires !failed ==> script == AcFrom(ac, zz, ke, k - r, rest)
      modifies this`dcCounts, this`acCounts, this`failed, this`script, this`history, writer
      ensures Progress()
      ensures !failed ==> script == AcFrom(ac, zz, ke, k + 1, rest) && BitCount(Abs(x)) <= MAX_COEF_BITS
      ensures old(Able()) && BitCount(Abs(x)) <= MAX_COEF_BITS ==> Able()
    {
      hide TableOk, Emitting, Able, BitCount, AcFrom;
      var left := EncodeZeroRuns(ac, r, k, zz, ke, rest);
      UnfoldAcFrom(ac, zz, ke, k - left, rest);
      NextIs(zz, k - left, ke, k);
      EncodeCoef(ac, left, x, AcFrom(ac, zz, ke, k + 1, rest));
    }

    /** The nonzero coefficient x at k after r zeros; before the first of a block the pending
        run is put out. */
    method EncodeNonzero(ac: nat, r: nat, k: nat, x: int, ghost started: bool, ghost zz: seq<int>, ghost ke: nat,
                         ghost part: Part, ghost rest: seq<Part>)
      requires Emitting() && Ready(false, ac) && Rested(eobrun, be) && bitBuffer.Length == MAX_CORR_BITS
      requires r <= k <= ke < |zz| && zz[ke] != 0 && zz[k] == x != 0 && forall i :: k - r <= i < k ==> zz[i] == 0
      requires Stream(ac, [part] + rest) == AcFrom(ac, zz, ke, k - r, After(ac, part, rest)) || started
      requires if started then eobrun == 0 && (!failed ==> script == AcFrom(ac, zz, ke, k - r, After(ac, part, rest)))
               else part.explicit != [] && (!failed ==> script == Pending(ac, eobrun, Buffered(), [part] + rest))
      modifies this`dcCounts, this`acCounts, this`failed, this`script, this`history, this`eobrun, this`be, writer
      ensures Progress() && eobrun == 0 && be == 0
      ensures !failed ==> script == AcFrom(ac, zz, ke, k + 1, After(ac, part, rest))
                          && BitCount(Abs(x)) <= MAX_COEF_BITS
      ensures old(Able()) && BitCount(Abs(x)) <= MAX_COEF_BITS ==> Able()
    {
      hide TableOk, Emitting, Able, BitCount, AcFrom, Stream, Pending, After;
      ghost var aft := After(ac, part, rest);
      FlushRun(ac, started, part, rest);
      EncodeRunAndCoef(ac, r, k, x, zz, ke, aft);
    }

    /** The band ss .. se of a first scan. */
    method EncodeAcFirst(ac: nat, block: Block, ss: nat, se: nat, al: nat, ghost rest: seq<Part>)
      requires Emitting() && Ready(false, ac) && OrderOk(scan.order) && 1 <= ss <= se < 64
      requires Rested(eobrun, be) && bitBuffer.Length == MAX_CORR_BITS
      requires !failed ==> script ==
                           Pending(ac, eobrun, Buffered(),
                                   [FirstPart(ac, Zigzag(scan.order, block, al), ss, se)] + rest)
      modifies this`dcCounts, this`acCounts, this`failed, this`script, this`history, this`eobrun, this`be, writer
      ensures Progress() && Rested(eobrun, be)
      ensures !failed ==> script == Pending(ac, eobrun, Buffered(), rest)
                          && InRange(Zigzag(scan.order, block, al), ss, se)
      ensures old(Able()) && InRange(Zigzag(scan.order, block, al), ss, se) ==> Able()
    {
      hide TableOk, Emitting, Able, BitCount, AcFrom, Stream, Pending, After, ZeroRun, InRange, OrderOk, FirstPart;
      ghost var zz := Zigzag(scan.order, block, al);
      ghost var part, ke := FirstPart(ac, zz, ss, se), LastNonzero(zz, se);
      FirstPartFacts(ac, zz, ss, se, rest);
      ZeroRunStarts(zz, ss, ke);
      ghost var started := false;
      var r := 0;
      for k := ss to se + 1
        invariant Progress() && Rested(eobrun, be)
        invariant ZeroRun(zz, ss, ke, k, r, started) && ss <= k - r && (started ==> eobrun == 0)
        invariant !failed ==> script == if started then AcFrom(ac, zz, ke, k - r, After(ac, part, rest))
                                        else Pending(ac, eobrun, Buffered(), [part] + rest)
        invariant !failed ==> InRange(zz, ss, k - 1)
        invariant old(Able()) && InRange(zz, ss, se) ==> Able()
      {
        OrderWithin(scan.order, k);
        var x := PointTransform(block[scan.order[k]], al);
        ZeroRunStep(zz, ss, se, ke, k, r, started);
        if x == 0 {
          r := r + 1;
        } else {
          EncodeNonzero(ac, r, k, x, started, zz, ke, part, rest);
          started := true;
          r := 0;
        }
      }
      ZeroRunEnds(ac, zz, ss, se, r, started, After(ac, part, rest));
      NothingAfter(ac, part, rest);
      if r > 0 {
        EndBlock(ac, 0, started, part, rest);
      }
    }

    // A refinement scan. What was scanned since the last symbol started at s; its correction
    // bits are in the buffer behind those of the run, and r is the number of its zeros.

    ghost predicate Scanned(zz: seq<int>, s: nat, k: nat, r: nat, br: nat)
      reads this`be, bitBuffer
    {
      && s <= k <= |zz| && r == ZeroCount(zz, s, k)
      && be + br <= bitBuffer.Length && bitBuffer[be..be + br] == Corrections(zz, s, k)
    }

    /** Where the script stands: before anything of the block, or where a run starts at s. */
    ghost predicate AtRun(ac: nat, zz: seq<int>, ss: nat, eob: nat, s: nat, started: bool, part: Part, rest: seq<Part>)
      requires eob < |zz| && (started ==> Abs(zz[eob]) == 1) && be <= bitBuffer.Length
      requires eobrun <= MAX_EOBRUN
      reads this`failed, this`script, this`eobrun, this`be, bitBuffer
    {
      if started then eobrun == 0 && be == 0
                      && (!failed ==> script == RefineFrom(ac, zz, eob, s, After(ac, part, rest)))
      else s == ss && (!failed ==> script == Pending(ac, eobrun, Buffered(), [part] + rest))
    }

    /** The run so far is put out, and the script stands before the symbol for the run from s. */
    method FlushBefore(ac: nat, ghost zz: seq<int>, ghost ss: nat, ghost eob: nat, ghost s: nat, ghost started: bool,
                       ghost part: Part, ghost rest: seq<Part>)
      requires Emitting() && Ready(false, ac) && Rested(eobrun, be) && bitBuffer.Length == MAX_CORR_BITS
      requires ss <= s <= eob < |zz| && Abs(zz[eob]) == 1
      requires part.explicit != [] && Stream(ac, [part] + rest) == RefineFrom(ac, zz, eob, ss, After(ac, part, rest))
      requires AtRun(ac, zz, ss, eob, s, started, part, rest)
      modifies this`dcCounts, this`acCounts, this`failed, this`script, this`history, this`eobrun, this`be, writer
      ensures Progress() && (old(Able()) ==> Able()) && eobrun == 0 && be == 0
      ensures !failed ==> script == RefineFrom(ac, zz, eob, s, After(ac, part, rest))
    {
      hide TableOk, Emitting, Able, RefineFrom, Stream, Pending, After;
      FlushRun(ac, started, part, rest);
    }

    /** Symbols for 16 zeros each, before coefficient k, not above the last newly nonzero one. */
    method EncodeLongRuns(ac: nat, r0: nat, br0: nat, k: nat, ghost zz: seq<int>, ghost ss: nat, ghost eob: nat,
                          ghost s0: nat, ghost started0: bool,
                          ghost part: Part, ghost rest: seq<Part>)
    returns (r: nat, br: nat, ghost s: nat, ghost started: bool)
      requires Emitting() && Ready(false, ac) && Rested(eobrun, be) && bitBuffer.Length == MAX_CORR_BITS
      requires ss <= s0 <= k <= eob < |zz| && Abs(zz[eob]) == 1 && RunState(zz, eob, s0, k)
      requires part.explicit != [] && Stream(ac, [part] + rest) == RefineFrom(ac, zz, eob, ss, After(ac, part, rest))
      requires AtRun(ac, zz, ss, eob, s0, started0, part, rest) && Scanned(zz, s0, k, r0, br0)
      modifies this`dcCounts, this`acCounts, this`failed, this`script, this`history, this`eobrun, this`be, writer
      ensures Progress() && (old(Able()) ==> Able()) && Rested(eobrun, be)
      ensures s0 <= s <= k && RunState(zz, eob, s, k) && r <= 15
      ensures AtRun(ac, zz, ss, eob, s, started, part, rest) && Scanned(zz, s, k, r, br)
    {
      hide TableOk, Emitting, Able, RefineFrom, Stream, Pending, After, RunState, ZeroCount, Corrections, RawBits;
      r, br, s, started := r0, br0, s0, started0;
      while r > 15
        invariant Progress() && (old(Able()) ==> Able()) && Rested(eobrun, be)
        invariant s0 <= s <= k && RunState(zz, eob, s, k)
        invariant AtRun(ac, zz, ss, eob, s, started, part, rest) && Scanned(zz, s, k, r, br)
      {
        var base := be;
        ghost var s' := LongRun(ac, zz, eob, s, k, After(ac, part, rest));
        FlushBefore(ac, zz, ss, eob, s, started, part, rest);
        EmitSymbol(false, ac, 0xF0);
        EmitBufferedBits(base, br, RefineFrom(ac, zz, eob, s', After(ac, part, rest)));
        r := r - 16;
        br, s, started := 0, s', true;
      }
    }

    /** The newly nonzero coefficient at k, and the correction bits that belong to its symbol. */
    method EncodeNew(ac: nat, r: nat, br: nat, k: nat, ghost zz: seq<int>, negative: bool, ghost ss: nat,
                     ghost eob: nat, ghost s: nat, ghost started: bool,
                     ghost part: Part, ghost rest: seq<Part>)
      requires Emitting() && Ready(false, ac) && Rested(eobrun, be) && bitBuffer.Length == MAX_CORR_BITS
      requires ss <= s <= k <= eob < |zz| && Abs(zz[eob]) == 1 && RunState(zz, eob, s, k)
      requires part.explicit != [] && Stream(ac, [part] + rest) == RefineFrom(ac, zz, eob, ss, After(ac, part, rest))
      requires AtRun(ac, zz, ss, eob, s, started, part, rest) && Scanned(zz, s, k, r, br) && r <= 15
      requires Abs(zz[k]) == 1 && (negative <==> zz[k] < 0)
      modifies this`dcCounts, this`acCounts, this`failed, this`script, this`history, this`eobrun, this`be, writer
      ensures Progress() && (old(Able()) ==> Able()) && Rested(eobrun, be)
      ensures AtRun(ac, zz, ss, eob, k + 1, true, part, rest) && Scanned(zz, k + 1, k + 1, 0, 0)
    {
      hide TableOk, Emitting, Able, RefineFrom, Stream, Pending, After, RunState, RawBits;
      var base := be;
      NewCoef(ac, zz, eob, s, k, After(ac, part, rest));
      FlushBefore(ac, zz, ss, eob, s, started, part, rest);
      ghost var next := RefineFrom(ac, zz, eob, k + 1, After(ac, part, rest));
      hide ZeroCount, Corrections;
      EmitBoth(false, ac, r * 16 + 1, if negative then 0 else 1, 1, RawBits(bitBuffer[base..base + br], next));
      EmitBufferedBits(base, br, next);
      NothingScanned(zz, k + 1);
    }

    /** Absolute values after the point transform, and the last newly nonzero coefficient. */
    method AbsValues(block: Block, ss: nat, se: nat, al: nat) returns (absvalues: array<nat>, eob: nat)
      requires OrderOk(scan.order) && 1 <= ss <= se < 64
      ensures fresh(absvalues) && absvalues.Length == 64
      ensures forall k :: ss <= k <= se ==> absvalues[k] == Abs(Zigzag(scan.order, block, al)[k])
      ensures eob == LastNew(Zigzag(scan.order, block, al), ss, se)
    {
      hide OrderOk;
      ghost var zz := Zigzag(scan.order, block, al);
      absvalues := new nat[64](_ => 0);
      eob := 0;
      for k := ss to se + 1
        invariant fresh(absvalues) && absvalues.Length == 64
        invariant forall i :: ss <= i < k ==> absvalues[i] == Abs(zz[i])
        invariant eob == LastNew(zz, ss, k - 1)
      {
        OrderWithin(scan.order, k);
        var temp := Abs(block[scan.order[k]]);
        PointTransformBound(block[scan.order[k]], al);
        temp := temp / Pow2(al);
        absvalues[k] := temp;
        if temp == 1 {
          eob := k;
        }
      }
    }

    /** The band ss .. se of a refinement scan. */
    method EncodeAcRefine(ac: nat, block: Block, ss: nat, se: nat, al: nat, ghost rest: seq<Part>)
      requires Emitting() && Ready(false, ac) && OrderOk(scan.order) && 1 <= ss <= se < 64
      requires Rested(eobrun, be) && bitBuffer.Length == MAX_CORR_BITS
      requires !failed ==> script ==
                           Pending(ac, eobrun, Buffered(),
                                   [RefinePart(ac, Zigzag(scan.order, block, al), ss, se)] + rest)
      modifies this`dcCounts, this`acCounts, this`failed, this`script, this`history,
               this`eobrun, this`be, writer, bitBuffer
      ensures Progress() && (old(Able()) ==> Able()) && Rested(eobrun, be)
      ensures !failed ==> script == Pending(ac, eobrun, Buffered(), rest)
    {
      hide TableOk, Emitting, Able, RefineFrom, Stream, Pending, After, RefineState, RefinePart, LastNew, OrderOk,
           Scanned, AtRun, Zigzag;
      ghost var zz := Zigzag(scan.order, block, al);
      ghost var part := RefinePart(ac, zz, ss, se);
      var absvalues, eob := AbsValues(block, ss, se, al);
      RefinePartFacts(ac, zz, ss, se, rest);
      RefineStarts(zz, ss, eob);
      StartsScan(ac, zz, ss, eob, part, rest);
      var r, br := 0, 0;
      ghost var s, started := ss, false;
      for k := ss to se + 1
        invariant Progress() && (old(Able()) ==> Able()) && Rested(eobrun, be)
        invariant forall i :: ss <= i <= se ==> absvalues[i] == Abs(zz[i])
        invariant ss <= s <= k && (started ==> Abs(zz[eob]) == 1) && RefineState(zz, ss, eob, s, k, started)
        invariant AtRun(ac, zz, ss, eob, s, started, part, rest) && Scanned(zz, s, k, r, br)
      {
        OrderWithin(scan.order, k);
        if absvalues[k] == 1 {
          SignKept(scan.order, block, al, k);
        }
        r, br, s, started := EncodeRefineStep(ac, absvalues[k], block[scan.order[k]] < 0,
                                              r, br, k, eob, zz, ss, se, s, started, part, rest);
      }
      EndRefine(ac, r, br, zz, ss, se, eob, s, started, part, rest);
    }

    lemma StartsScan(ac: nat, zz: seq<int>, ss: nat, eob: nat, part: Part, rest: seq<Part>)
      requires Rested(eobrun, be) && bitBuffer.Length == MAX_CORR_BITS && ss <= |zz| && eob < |zz|
      requires !failed ==> script == Pending(ac, eobrun, Buffered(), [part] + rest)
      ensures AtRun(ac, zz, ss, eob, ss, false, part, rest) && Scanned(zz, ss, ss, 0, 0)
    {
      NothingScanned(zz, ss);
    }

    /** Before a nonzero coefficient at k: runs of 16 zeros are put out unless only corrections
        follow. */
    method RunsBefore(ac: nat, r0: nat, br0: nat, k: nat, eob: nat, ghost zz: seq<int>,
        ghost ss: nat, ghost se: nat, ghost s0: nat, ghost started0: bool, ghost part: Part, ghost rest: seq<Part>)
      returns (r: nat, br: nat, ghost s: nat, ghost started: bool)
      requires Emitting() && Ready(false, ac) && Rested(eobrun, be) && bitBuffer.Length == MAX_CORR_BITS
      requires 1 <= ss <= s0 <= k <= se < |zz| <= 64 && part == RefinePart(ac, zz, ss, se) && eob == LastNew(zz, ss, se)
      requires (started0 ==> Abs(zz[eob]) == 1) && RefineState(zz, ss, eob, s0, k, started0)
      requires AtRun(ac, zz, ss, eob, s0, started0, part, rest) && Scanned(zz, s0, k, r0, br0)
      modifies this`dcCounts, this`acCounts, this`failed, this`script, this`history, this`eobrun, this`be, writer
      ensures Progress() && (old(Able()) ==> Able()) && Rested(eobrun, be)
      ensures s0 <= s <= k && (started ==> Abs(zz[eob]) == 1) && RefineState(zz, ss, eob, s, k, started)
      ensures (k > eob || r <= 15) && AtRun(ac, zz, ss, eob, s, started, part, rest) && Scanned(zz, s, k, r, br)
    {
      hide TableOk, Emitting, Able, RefineFrom, Stream, Pending, After, RefineState, RefinePart, LastNew, RunState;
      hide ZeroCount, Corrections;
      r, br, s, started := r0, br0, s0, started0;
      if r > 15 && k <= eob {
        RefinePartFacts(ac, zz, ss, se, rest);
        RefineStep(zz, ss, se, eob, s, k, started);
        r, br, s, started := EncodeLongRuns(ac, r, br, k, zz, ss, eob, s, started, part, rest);
        MidRun(zz, ss, eob, s, k, started);
      }
    }

    /** A correction bit, or the symbol for a newly nonzero coefficient. */
    method EncodeRefineCoef(ac: nat, temp: nat, negative: bool, r0: nat, br0: nat, k: nat, eob: nat, ghost zz: seq<int>,
        ghost ss: nat, ghost se: nat, ghost s0: nat, ghost started0: bool, ghost part: Part, ghost rest: seq<Part>)
      returns (r: nat, br: nat, ghost s: nat, ghost started: bool)
      requires Emitting() && Ready(false, ac) && Rested(eobrun, be) && bitBuffer.Length == MAX_CORR_BITS
      requires 1 <= ss <= s0 <= k <= se < |zz| <= 64 && part == RefinePart(ac, zz, ss, se) && eob == LastNew(zz, ss, se)
      requires (started0 ==> Abs(zz[eob]) == 1) && RefineState(zz, ss, eob, s0, k, started0)
      requires AtRun(ac, zz, ss, eob, s0, started0, part, rest) && Scanned(zz, s0, k, r0, br0)
      requires temp == Abs(zz[k]) > 0 && (temp == 1 ==> (negative <==> zz[k] < 0)) && (k > eob || r0 <= 15)
      modifies this`dcCounts, this`acCounts, this`failed, this`script, this`history,
               this`eobrun, this`be, writer, bitBuffer
      ensures Progress() && (old(Able()) ==> Able()) && Rested(eobrun, be)
      ensures ss <= s <= k + 1 && (started ==> Abs(zz[eob]) == 1) && RefineState(zz, ss, eob, s, k + 1, started)
      ensures AtRun(ac, zz, ss, eob, s, started, part, rest) && Scanned(zz, s, k + 1, r, br)
    {
      hide TableOk, Emitting, Able, RefineFrom, Stream, Pending, After, RefineState, RefinePart, LastNew, RunState;
      hide ZeroCount, Corrections;
      RefineStep(zz, ss, se, eob, s0, k, started0);
      if temp > 1 {
        BufferBit(br0, temp % 2);
        r, br, s, started := r0, br0 + 1, s0, started0;
      } else {
        RefinePartFacts(ac, zz, ss, se, rest);
        EncodeNew(ac, r0, br0, k, zz, negative, ss, eob, s0, started0, part, rest);
        r, br, s, started := 0, 0, k + 1, true;
      }
    }

    method EncodeRefineStep(ac: nat, temp: nat, negative: bool, r0: nat, br0: nat, k: nat, eob: nat, ghost zz: seq<int>,
        ghost ss: nat, ghost se: nat, ghost s0: nat, ghost started0: bool, ghost part: Part, ghost rest: seq<Part>)
      returns (r: nat, br: nat, ghost s: nat, ghost started: bool)
      requires Emitting() && Ready(false, ac) && Rested(eobrun, be) && bitBuffer.Length == MAX_CORR_BITS
      requires 1 <= ss <= s0 <= k <= se < |zz| <= 64 && part == RefinePart(ac, zz, ss, se) && eob == LastNew(zz, ss, se)
      requires (started0 ==> Abs(zz[eob]) == 1) && RefineState(zz, ss, eob, s0, k, started0)
      requires AtRun(ac, zz, ss, eob, s0, started0, part, rest) && Scanned(zz, s0, k, r0, br0)
      requires temp == Abs(zz[k]) && (temp == 1 ==> (negative <==> zz[k] < 0))
      modifies this`dcCounts, this`acCounts, this`failed, this`script, this`history,
               this`eobrun, this`be, writer, bitBuffer
      ensures Progress() && (old(Able()) ==> Able()) && Rested(eobrun, be)
      ensures ss <= s <= k + 1 && (started ==> Abs(zz[eob]) == 1) && RefineState(zz, ss, eob, s, k + 1, started)
      ensures AtRun(ac, zz, ss, eob, s, started, part, rest) && Scanned(zz, s, k + 1, r, br)
    {
      hide TableOk, Emitting, Able, RefineFrom, Stream, Pending, After, RefineState, RefinePart, LastNew, RunState;
      hide ZeroCount, Corrections;
      if temp == 0 {
        RefineStep(zz, ss, se, eob, s0, k, started0);
        return r0 + 1, br0, s0, started0;
      }
      r, br, s, started := RunsBefore(ac, r0, br0, k, eob, zz, ss, se, s0, started0, part, rest);
      r, br, s, started := EncodeRefineCoef(ac, temp, negative, r, br, k, eob, zz, ss, se, s, started, part, rest);
    }

    method EndRefine(ac: nat, r: nat, br: nat, ghost zz: seq<int>, ghost ss: nat, ghost se: nat, ghost eob: nat,
                     ghost s: nat, ghost started: bool, ghost part: Part, ghost rest: seq<Part>)
      requires Emitting() && Ready(false, ac) && Rested(eobrun, be) && bitBuffer.Length == MAX_CORR_BITS
      requires 1 <= ss <= s <= se + 1 <= |zz| <= 64 && ss <= se
      requires part == RefinePart(ac, zz, ss, se) && eob == LastNew(zz, ss, se)
      requires (started ==> Abs(zz[eob]) == 1) && RefineState(zz, ss, eob, s, se + 1, started)
      requires AtRun(ac, zz, ss, eob, s, started, part, rest) && Scanned(zz, s, se + 1, r, br)
      modifies this`dcCounts, this`acCounts, this`failed, this`script, this`history, this`eobrun, this`be, writer
      ensures Progress() && (old(Able()) ==> Able()) && Rested(eobrun, be)
      ensures !failed ==> script == Pending(ac, eobrun, Buffered(), rest)
    {
      hide TableOk, Emitting, Able, RefineFrom, Stream, Pending, After, RefineState, RefinePart, LastNew, ZeroCount,
           Corrections;
      RefineEnds(ac, zz, ss, se, eob, s, started, After(ac, part, rest));
      NothingAfter(ac, part, rest);
      if r > 0 || br > 0 {
        EndBlock(ac, br, started, part, rest);
      }
    }

    /** One more correction bit. */
    method BufferBit(br: nat, bit: Bit)
      requires bitBuffer.Length == MAX_CORR_BITS && be + br < MAX_CORR_BITS
      modifies bitBuffer
      ensures bitBuffer[be..be + br + 1] == old(bitBuffer[be..be + br]) + [bit]
      ensures bitBuffer[..be] == old(bitBuffer[..be])
    {
      bitBuffer[be + br] := bit;
    }

    // Sequential mode: one routine puts a block out and another one only counts its symbols.

    /** The block in full, its end if it has zeros at the end. */
    method EncodeOneBlock(c: nat, block: Block, ghost rest: seq<Part>)
      requires Emitting() && HuffOk(scan) && TablesOk(scan, gather, tabs, dcDerived, acDerived)
      requires scan.kind == Sequential && c < scan.NumComps() == |lastDc|
      requires !failed ==> script == Stream(RunTbl(scan), [BlockPart(scan, lastDc[c], Item(c, block))] + rest)
      modifies this`dcCounts, this`acCounts, this`failed, this`script, this`history, this`lastDc, writer
      ensures Progress() && lastDc == old(lastDc)[c := block[0] as int]
      ensures !failed ==> script == Stream(RunTbl(scan), rest) && Codable(scan, old(lastDc[c]), block)
      ensures old(Able()) && Codable(scan, old(lastDc[c]), block) ==> Able()
    {
      hide TablesOk, TableOk, Emitting, Able, AcBlock, Stream, DcTokens, BitCount, InRange, Zigzag;
      TablesReady(c);
      ghost var zz := Zigzag(scan.order, block, 0);
      ghost var next := Stream(RunTbl(scan), rest);
      SequentialPartStream(RunTbl(scan), scan.dcTbl[c], scan.acTbl[c], block[0] - lastDc[c], zz, scan.se, rest);
      EncodeDc(scan.dcTbl[c], c, block[0], AcBlock(scan.acTbl[c], zz, scan.se, next));
      if scan.se > 0 {
        EncodeAcBlock(scan.acTbl[c], block, scan.se, next);
      } else {
        NoAcBlock(scan.acTbl[c], zz, next);
      }
    }

    method EncodeAcBlock(ac: nat, block: Block, se: nat, ghost rest: seq<Token>)
      requires Emitting() && Ready(false, ac) && OrderOk(scan.order) && 1 <= se < 64
      requires !failed ==> script == AcBlock(ac, Zigzag(scan.order, block, 0), se, rest)
      modifies this`dcCounts, this`acCounts, this`failed, this`script, this`history, writer
      ensures Progress()
      ensures !failed ==> script == rest && InRange(Zigzag(scan.order, block, 0), 1, se)
      ensures old(Able()) && InRange(Zigzag(scan.order, block, 0), 1, se) ==> Able()
    {
      hide TableOk, Emitting, Able, BitCount, AcFrom, ZeroRun, InRange, OrderOk, Zigzag, AcBlock, EndOfBlock,
           LastNonzero;
      ghost var zz := Zigzag(scan.order, block, 0);
      ghost var ke := LastNonzero(zz, se);
      ghost var end := EndOfBlock(ac, ke < se, rest);
      ZeroRunStarts(zz, 1, ke);
      AcBlockStarts(ac, zz, se, rest);
      ghost var started := false;
      var r := 0;
      for k := 1 to se + 1
        invariant Progress() && ZeroRun(zz, 1, ke, k, r, started) && 1 <= k - r
        invariant !failed ==> script == AcFrom(ac, zz, ke, k - r, end)
        invariant !failed ==> InRange(zz, 1, k - 1)
        invariant old(Able()) && InRange(zz, 1, se) ==> Able()
      {
        OrderWithin(scan.order, k);
        ZeroRunStep(zz, 1, se, ke, k, r, started);
        NoTransform(scan.order, block, k);
        var x := block[scan.order[k]];
        if x == 0 {
          r := r + 1;
        } else {
          EncodeRunAndCoef(ac, r, k, x, zz, ke, end);
          started := true;
          r := 0;
        }
      }
      AcBlockEnds(ac, zz, se, r, started, rest);
      if r > 0 {
        EmitSymbol(false, ac, 0);
      }
    }

    /** Only count the symbol. */
    method CountSymbol(dc: bool, tbl: nat, symbol: Byte)
      requires Emitting() && Ready(dc, tbl) && gather
      requires !failed ==> script != [] && script[0] == Sym(dc, tbl, symbol)
      modifies this`dcCounts, this`acCounts, this`script, this`history
      ensures Moved(Sym(dc, tbl, symbol)) && failed == old(failed)
    {
      hide BitWriter.Writer.Valid, Encodes, Good, CountsMatch, TokensBits, AllEncodable;
      ghost var t := Sym(dc, tbl, symbol);
      Shifted(history, script);
      OneUse(dcCounts, true, earlier + history, t);
      OneUse(acCounts, false, earlier + history, t);
      assert earlier + history + [t] == earlier + (history + [t]);
      if dc {
        dcCounts := dcCounts[tbl := dcCounts[tbl][symbol := dcCounts[tbl][symbol] + 1]];
      } else {
        acCounts := acCounts[tbl := acCounts[tbl][symbol := acCounts[tbl][symbol] + 1]];
      }
      history := history + [t];
      script := if script == [] then [] else script[1..];
    }

    /** Raw bits are not counted. */
    ghost method PassRaw(value: int, size: nat)
      requires Emitting() && gather
      requires !failed ==> script != [] && script[0] == Raw(value, size)
      modifies this`script, this`history
      ensures Moved(Raw(value, size)) && failed == old(failed)
    {
      hide BitWriter.Writer.Valid, CountsMatch, TokensBits, AllEncodable;
      var t := Raw(value, size);
      Shifted(history, script);
      OneUse(dcCounts, true, earlier + history, t);
      OneUse(acCounts, false, earlier + history, t);
      assert earlier + history + [t] == earlier + (history + [t]);
      history := history + [t];
      script := if script == [] then [] else script[1..];
    }

    /** Count the symbols of a block: the same ones, in the same order. */
    method HtestOneBlock(c: nat, block: Block, ghost rest: seq<Part>)
      requires Emitting() && HuffOk(scan) && TablesOk(scan, gather, tabs, dcDerived, acDerived) && gather
      requires scan.kind == Sequential && c < scan.NumComps() == |lastDc|
      requires !failed ==> script == Stream(RunTbl(scan), [BlockPart(scan, lastDc[c], Item(c, block))] + rest)
      modifies this`dcCounts, this`acCounts, this`failed, this`script, this`history
      ensures Progress()
      ensures !failed ==> script == Stream(RunTbl(scan), rest) && Codable(scan, lastDc[c], block)
      ensures old(Able()) && Codable(scan, lastDc[c], block) ==> Able()
    {
      hide TablesOk, TableOk, Emitting, Able, AcBlock, Stream, BitCount, InRange, Zigzag, DcTokens;
      TablesReady(c);
      ghost var zz := Zigzag(scan.order, block, 0);
      ghost var next := Stream(RunTbl(scan), rest);
      SequentialPartStream(RunTbl(scan), scan.dcTbl[c], scan.acTbl[c], block[0] - lastDc[c], zz, scan.se, rest);
      HtestDc(scan.dcTbl[c], block[0] - lastDc[c], AcBlock(scan.acTbl[c], zz, scan.se, next));
      if scan.se > 0 {
        HtestAcBlock(scan.acTbl[c], block, scan.se, next);
      } else {
        NoAcBlock(scan.acTbl[c], zz, next);
      }
    }

    method HtestDc(dc: nat, diff: int, ghost rest: seq<Token>)
      requires Emitting() && Ready(true, dc) && gather
      requires !failed ==> script == DcTokens(dc, diff, rest)
      modifies this`dcCounts, this`acCounts, this`failed, this`script, this`history
      ensures Progress()
      ensures !failed ==> script == rest && BitCount(Abs(diff)) <= MAX_COEF_BITS + 1
      ensures old(Able()) && BitCount(Abs(diff)) <= MAX_COEF_BITS + 1 ==> Able()
    {
      hide TableOk, Emitting, Able, BitCount;
      var temp := diff;
      if temp < 0 {
        temp := -temp;
      }
      var nbits := BitLength(temp);
      NoBits(temp);
      if nbits > MAX_COEF_BITS + 1 {
        Fail();
        return;
      }
      CountSymbol(true, dc, nbits);
      if nbits != 0 {
        PassRaw(if diff < 0 then diff - 1 else diff, nbits);
      }
    }

    method HtestAcBlock(ac: nat, block: Block, se: nat, ghost rest: seq<Token>)
      requires Emitting() && Ready(false, ac) && OrderOk(scan.order) && 1 <= se < 64 && gather
      requires !failed ==> script == AcBlock(ac, Zigzag(scan.order, block, 0), se, rest)
      modifies this`dcCounts, this`acCounts, this`failed, this`script, this`history
      ensures Progress()
      ensures !failed ==> script == rest && InRange(Zigzag(scan.order, block, 0), 1, se)
      ensures old(Able()) && InRange(Zigzag(scan.order, block, 0), 1, se) ==> Able()
    {
      hide TableOk, Emitting, Able, BitCount, AcFrom, ZeroRun, InRange, OrderOk, Zigzag, AcBlock, EndOfBlock,
           LastNonzero;
      ghost var zz := Zigzag(scan.order, block, 0);
      ghost var ke := LastNonzero(zz, se);
      ghost var end := EndOfBlock(ac, ke < se, rest);
      ZeroRunStarts(zz, 1, ke);
      AcBlockStarts(ac, zz, se, rest);
      ghost var started := false;
      var r := 0;
      for k := 1 to se + 1
        invariant Progress() && ZeroRun(zz, 1, ke, k, r, started) && 1 <= k - r
        invariant !failed ==> script == AcFrom(ac, zz, ke, k - r, end)
        invariant !failed ==> InRange(zz, 1, k - 1)
        invariant old(Able()) && InRange(zz, 1, se) ==> Able()
      {
        OrderWithin(scan.order, k);
        ZeroRunStep(zz, 1, se, ke, k, r, started);
        NoTransform(scan.order, block, k);
        var temp: int := block[scan.order[k]];
        if temp == 0 {
          r := r + 1;
        } else {
          HtestCoef(ac, r, k, temp, zz, ke, end);
          started := true;
          r := 0;
        }
      }
      AcBlockEnds(ac, zz, se, r, started, rest);
      if r > 0 {
        CountSymbol(false, ac, 0);
      }
    }

    /** Sixteen zeros at a time. */
    method HtestRun(ac: nat, r0: nat, k: nat, ghost zz: seq<int>, ghost ke: nat, ghost end: seq<Token>) returns (r: nat)
      requires Emitting() && Ready(false, ac) && gather
      requires r0 <= k <= ke < |zz| && zz[ke] != 0 && zz[k] != 0 && forall i :: k - r0 <= i < k ==> zz[i] == 0
      requires !failed ==> script == AcFrom(ac, zz, ke, k - r0, end)
      modifies this`dcCounts, this`acCounts, this`failed, this`script, this`history
      ensures Progress() && r <= r0 && r <= 15 && (old(Able()) ==> Able()) && failed == old(failed)
      ensures !failed ==> script == AcFrom(ac, zz, ke, k - r, end)
    {
      hide TableOk, Emitting, Able, BitCount, AcFrom;
      r := r0;
      while r > 15
        invariant Progress() && 0 <= r <= r0 && (old(Able()) ==> Able()) && failed == old(failed)
        invariant !failed ==> script == AcFrom(ac, zz, ke, k - r, end)
      {
        UnfoldAcFrom(ac, zz, ke, k - r, end);
        NextIs(zz, k - r, ke, k);
        CountSymbol(false, ac, 0xF0);
        r := r - 16;
      }
    }

    method HtestCoef(ac: nat, r0: nat, k: nat, x: int, ghost zz: seq<int>, ghost ke: nat, ghost end: seq<Token>)
      requires Emitting() && Ready(false, ac) && gather
      requires r0 <= k <= ke < |zz| && zz[ke] != 0 && zz[k] == x != 0 && forall i :: k - r0 <= i < k ==> zz[i] == 0
      requires !failed ==> script == AcFrom(ac, zz, ke, k - r0, end)
      modifies this`dcCounts, this`acCounts, this`failed, this`script, this`history
      ensures Progress()
      ensures !failed ==> script == AcFrom(ac, zz, ke, k + 1, end) && BitCount(Abs(x)) <= MAX_COEF_BITS
      ensures old(Able()) && BitCount(Abs(x)) <= MAX_COEF_BITS ==> Able()
    {
      hide TableOk, Emitting, Able, BitCount, AcFrom, ValueBits;
      var r := HtestRun(ac, r0, k, zz, ke, end);
      CoefTokens(ac, zz, ke, k, r, end);
      var temp := x;
      if temp < 0 {
        temp := -temp;
      }
      var nbits := BitLength(temp);
      NoBits(temp);
      if nbits > MAX_COEF_BITS {
        Fail();
        return;
      }
      CountSymbol(false, ac, r * 16 + nbits);
      PassRaw(if x < 0 then x - 1 else x, nbits);
    }

    // MCUs and restarts.

    /** One block, by the routine of the scan. */
    method EncodeBlock(it: Item, ghost rest: seq<Part>)
      requires Valid() && it.comp < scan.NumComps()
      requires !failed ==> script ==
                           Pending(RunTbl(scan), eobrun, Buffered(), [BlockPart(scan, lastDc[it.comp], it)] + rest)
      modifies this`dcCounts, this`acCounts, this`failed, this`script, this`history,
               this`eobrun, this`be, this`lastDc, writer, bitBuffer
      ensures Valid() && Progress() && lastDc == NextLast(scan, old(lastDc), it)
      ensures !failed ==> script == Pending(RunTbl(scan), eobrun, Buffered(), rest)
                          && Codable(scan, old(lastDc[it.comp]), it.block)
      ensures old(Able()) && Codable(scan, old(lastDc[it.comp]), it.block) ==> Able()
    {
      hide TablesOk, TableOk, Emitting, Able, Stream, Pending, InRange, BitCount, Zigzag, DcTokens, FirstPart,
           RefinePart, SequentialTokens, OrderOk;
      TablesReady(it.comp);
      var tbl := RunTbl(scan);
      NoRun(tbl, Buffered(), rest);
      NoRun(tbl, Buffered(), [BlockPart(scan, lastDc[it.comp], it)] + rest);
      match scan.kind
      case Sequential =>
        if gather {
          HtestOneBlock(it.comp, it.block, rest);
          lastDc := lastDc[it.comp := it.block[0] as int];
        } else {
          EncodeOneBlock(it.comp, it.block, rest);
        }
        NoShift(scan, it.block);
      case DcFirst =>
        DcPartStream(tbl, scan.dcTbl[it.comp], DcValue(scan, it.block) - lastDc[it.comp], rest);
        EncodeDc(scan.dcTbl[it.comp], it.comp, DcValue(scan, it.block), Stream(tbl, rest));
      case DcRefine =>
        StreamParts(tbl, BlockPart(scan, lastDc[it.comp], it), rest);
        EmitRaw(DcValue(scan, it.block), 1);
      case AcFirst =>
        EncodeAcFirst(tbl, it.block, scan.ss, scan.se, scan.al, rest);
      case AcRefine =>
        EncodeAcRefine(tbl, it.block, scan.ss, scan.se, scan.al, rest);
    }

    /** The blocks of one MCU. */
    method EncodeItems(items: seq<Item>, ghost rest: seq<Part>)
      requires Valid() && ItemsOk(scan, items)
      requires !failed ==> script == Pending(RunTbl(scan), eobrun, Buffered(), Parts(scan, lastDc, items) + rest)
      modifies this`dcCounts, this`acCounts, this`failed, this`script, this`history,
               this`eobrun, this`be, this`lastDc, writer, bitBuffer
      ensures Valid() && Progress() && lastDc == LastAfter(scan, old(lastDc), items)
      ensures !failed ==> script == Pending(RunTbl(scan), eobrun, Buffered(), rest)
                          && AllCodable(scan, old(lastDc), items)
      ensures old(Able()) && AllCodable(scan, old(lastDc), items) ==> Able()
    {
      hide TablesOk, Emitting, Able, Stream, Pending, Codable, BlockPart, NextLast, OrderOk;
      for b := 0 to |items|
        invariant Valid() && Progress()
        invariant LastAfter(scan, lastDc, items[b..]) == LastAfter(scan, old(lastDc), items)
        invariant !failed ==> script ==
                              Pending(RunTbl(scan), eobrun, Buffered(), Parts(scan, lastDc, items[b..]) + rest)
        invariant !failed ==> (AllCodable(scan, old(lastDc), items) <==> AllCodable(scan, lastDc, items[b..]))
        invariant old(Able()) && AllCodable(scan, old(lastDc), items) ==> Able() && AllCodable(scan, lastDc, items[b..])
      {
        NextItem(scan, lastDc, items, b, rest);
        EncodeBlock(items[b], Parts(scan, NextLast(scan, lastDc, items[b]), items[b + 1..]) + rest);
      }
      NoItems(scan, lastDc, items, rest);
    }

    /** Put out any pending run at the end of a segment. */
    method FinishRun()
      requires Valid()
      requires !failed ==> script == Pending(RunTbl(scan), eobrun, Buffered(), [])
      modifies this`dcCounts, this`acCounts, this`failed, this`script, this`history, this`eobrun, this`be, writer
      ensures Valid() && Progress() && (old(Able()) ==> Able()) && eobrun == 0 && be == 0
      ensures !failed ==> script == [] && history == total
    {
      hide TablesOk, Pending, Able, TableOk;
      NoRun(RunTbl(scan), Buffered(), []);
      if scan.kind.AcFirst? || scan.kind.AcRefine? {
        if eobrun > 0 {
          EndRun(RunTbl(scan), eobrun, Buffered(), []);
        }
        TablesReady(0);
        EmitEobRun(RunTbl(scan), []);
      }
      assert history + [] == history;
    }

    /** Complete the last byte of the segment and write its restart marker. */
    method CloseSegment() returns (ghost data: seq<Byte>)
      requires Emitting() && nextRestartNum < 8 && !gather
      modifies writer
      ensures writer.Valid() && writer.bits == []
      ensures writer.base == old(writer.base) + OnWire(data, nextRestartNum)
      ensures !failed ==> SegOk(tabs, Seg(history, data))
    {
      hide BitWriter.Writer.Valid, Stuff, OnWire, CountsMatch, TokensBits, AllEncodable, BytesBits;
      writer.Flush();
      data := writer.data;
      PutOnWire(writer.base, data, nextRestartNum);
      writer.EmitMarker(0xD0 + nextRestartNum);
    }

    /** Finish the segment, write the restart marker, and start afresh; next is what the new
        segment is to hold. */
    method EmitRestart(ghost next: seq<Token>)
      requires Valid()
      requires !failed ==> script == Pending(RunTbl(scan), eobrun, Buffered(), [])
      modifies this`dcCounts, this`acCounts, this`failed, this`script, this`history,
               this`total, this`earlier, this`done, this`eobrun, this`be, this`lastDc, writer
      ensures Sound() && eobrun == 0 && be == 0 && script == total == next && history == []
      ensures |done| == |old(done)| + 1 && done[..|old(done)|] == old(done)
      ensures !failed ==> !old(failed) && done[|old(done)|].tokens == old(total)
      ensures !gather ==> writer.base == Wire(Datas(done)) && (!failed ==> SegsOk(tabs, done))
      ensures earlier == Tokens(done)
      ensures old(Able()) ==> !failed
      ensures lastDc == if scan.UsesDc() then seq(scan.NumComps(), _ => 0) else old(lastDc)
    {
      hide TablesOk, Pending, CountsMatch, TokensBits, AllEncodable, BitWriter.Writer.Valid, Wire, OnWire, SegsOk,
           SegOk, HuffOk, Tokens, Datas, Stream;
      FinishRun();
      ghost var data: seq<Byte> := [];
      if !gather {
        data := CloseSegment();
      }
      StartSegment(data, next);
      if scan.UsesDc() {
        lastDc := seq(scan.NumComps(), _ => 0);
      }
    }

    /** What was put out becomes the segment before the current one. */
    ghost method StartSegment(data: seq<Byte>, next: seq<Token>)
      requires writer.Valid() && tabs.Ok() && earlier == Tokens(done)
      requires !failed ==> gather || (SegOk(tabs, Seg(history, data)) && SegsOk(tabs, done))
      requires !gather ==> writer.bits == [] && nextRestartNum == |done| % 8
      requires !gather ==> writer.base == Wire(Datas(done)) + OnWire(data, nextRestartNum)
      requires gather ==> CountsMatch(dcCounts, true, earlier + history)
                          && CountsMatch(acCounts, false, earlier + history)
      requires |dcCounts| == |acCounts| == NUM_HUFF_TBLS
      requires forall t :: 0 <= t < NUM_HUFF_TBLS ==> |dcCounts[t]| == |acCounts[t]| == 257
      modifies this`script, this`history, this`total, this`earlier, this`done
      ensures Emitting() && script == total == next && history == []
      ensures done == old(done) + [Seg(old(history), data)] && earlier == Tokens(done)
      ensures !gather ==> writer.base == Wire(Datas(done)) && (!failed ==> SegsOk(tabs, done))
    {
      hide CountsMatch, TokensBits, AllEncodable, BitWriter.Writer.Valid, Wire, OnWire, Tokens, SegOk, SegsOk, Datas;
      MoreTokens(done, Seg(history, data));
      MoreSegsOk(tabs, done, Seg(history, data));
      MoreOnWire(done, Seg(history, data));
      if !gather {
        SameWire(done, Seg(history, data), nextRestartNum);
      }
      EmptyBits(tabs);
      NextHistory(earlier, history, next);
      done := done + [Seg(history, data)];
      earlier := earlier + history;
      history, script, total := [], next, next;
    }

    /** What the segment, of which there is nothing yet, is to hold. */
    ghost method Expect(next: seq<Token>)
      requires Valid() && history == [] && script == total == []
      modifies this`script, this`total
      ensures Valid() && script == total == next
    {
      assert [] + next == next;
      script, total := next, next;
    }

    /** Emit a restart marker if one is due. */
    method CheckRestart(ghost next: seq<Token>)
      requires Valid()
      requires !failed && restartInterval != 0 && restartsToGo == 0 ==>
               script == Pending(RunTbl(scan), eobrun, Buffered(), [])
      modifies this, writer
      ensures Valid() && (old(Able()) ==> !failed)
      ensures if restartInterval == 0 then restartsToGo == old(restartsToGo)
              else restartsToGo == (if old(restartsToGo) == 0 then restartInterval else old(restartsToGo)) - 1
      ensures restartInterval != 0 && old(restartsToGo) == 0 ==>
                && |done| == |old(done)| + 1 && done[..|old(done)|] == old(done)
                && (!failed ==> !old(failed) && done[|old(done)|].tokens == old(total))
                && script == total == next && eobrun == 0
                && lastDc == if scan.UsesDc() then seq(scan.NumComps(), _ => 0) else old(lastDc)
      ensures !(restartInterval != 0 && old(restartsToGo) == 0) ==>
                && done == old(done) && script == old(script) && total == old(total) && lastDc == old(lastDc)
                && failed == old(failed) && eobrun == old(eobrun) && be == old(be)
    {
      hide TablesOk, CountsMatch, TokensBits, AllEncodable, BitWriter.Writer.Valid, Wire, SegsOk, HuffOk, Tokens,
           Pending, Stream;
      if restartInterval != 0 {
        if restartsToGo == 0 {
          EmitRestart(next);
          restartsToGo := restartInterval;
          if !gather || scan.kind != Sequential {
            nextRestartNum := (nextRestartNum + 1) % 8;
          }
        }
        restartsToGo := restartsToGo - 1;
      }
    }

    /** Finish the scan; the last segment has no restart marker. */
    method FinishPass() returns (ghost segs: seq<Seg>)
      requires Valid()
      requires !failed ==> script == Pending(RunTbl(scan), eobrun, Buffered(), [])
      modifies this`dcCounts, this`acCounts, this`failed, this`script, this`history, this`eobrun, this`be, writer
      ensures |segs| == |done| + 1 && segs[..|done|] == done
      ensures !failed ==> segs[|done|].tokens == total
      ensures !gather && !failed ==> SegsOk(tabs, segs) && writer.output == ScanBytes(Datas(segs))
      ensures gather ==> CountsMatch(dcCounts, true, Tokens(segs)) && CountsMatch(acCounts, false, Tokens(segs))
      ensures old(Able()) ==> !failed
    {
      hide TablesOk, Pending, CountsMatch, TokensBits, AllEncodable, BitWriter.Writer.Valid, Wire, SegsOk, SegOk,
           HuffOk, Tokens, Datas, Stream, Stuff;
      FinishRun();
      ghost var data: seq<Byte> := [];
      if !gather {
        data := CompleteData();
      }
      MoreTokens(done, Seg(history, data));
      MoreSegsOk(tabs, done, Seg(history, data));
      MoreDatas(done, Seg(history, data));
      segs := done + [Seg(history, data)];
    }

    /** Complete the last byte of the last segment. */
    method CompleteData() returns (ghost data: seq<Byte>)
      requires Emitting() && !gather
      modifies writer
      ensures writer.output == old(writer.base) + Stuff(data)
      ensures !failed ==> SegOk(tabs, Seg(history, data))
    {
      hide BitWriter.Writer.Valid, Stuff, CountsMatch, TokensBits, AllEncodable, BytesBits;
      writer.Flush();
      data := writer.data;
    }
  }

  lemma NoShift(scan: Scan, block: Block)
    requires scan.Ok() && scan.kind == Sequential
    ensures DcValue(scan, block) == block[0]
  {
    assert Pow2(0) == 1;
  }

  lemma NextItem(scan: Scan, last: seq<int>, items: seq<Item>, b: nat, rest: seq<Part>)
    requires scan.Ok() && |last| == scan.NumComps() && ItemsOk(scan, items) && b < |items|
    ensures items[0..] == items
    ensures Parts(scan, last, items[b..]) + rest ==
            [BlockPart(scan, last[items[b].comp], items[b])] +
              (Parts(scan, NextLast(scan, last, items[b]), items[b + 1..]) + rest)
    ensures LastAfter(scan, last, items[b..]) == LastAfter(scan, NextLast(scan, last, items[b]), items[b + 1..])
    ensures AllCodable(scan, last, items[b..]) <==>
            Codable(scan, last[items[b].comp], items[b].block)
              && AllCodable(scan, NextLast(scan, last, items[b]), items[b + 1..])
  {
    hide BlockPart, Codable, NextLast;
    assert items[b..][0] == items[b] && items[b..][1..] == items[b + 1..];
  }

  lemma NoItems(scan: Scan, last: seq<int>, items: seq<Item>, rest: seq<Part>)
    requires scan.Ok() && |last| == scan.NumComps() && ItemsOk(scan, items)
    ensures items[|items|..] == [] && items[0..] == items
    ensures Parts(scan, last, []) + rest == rest && LastAfter(scan, last, []) == last && AllCodable(scan, last, [])
  {
  }

  lemma NoAcBlock(ac: nat, zz: seq<int>, rest: seq<Token>)
    requires |zz| > 0
    ensures AcBlock(ac, zz, 0, rest) == rest && InRange(zz, 1, 0)
  {
  }

  lemma AcBlockStarts(ac: nat, zz: seq<int>, se: nat, rest: seq<Token>)
    requires 1 <= se < |zz|
    ensures var ke := LastNonzero(zz, se);
            AcBlock(ac, zz, se, rest) == AcFrom(ac, zz, ke, 1, EndOfBlock(ac, ke < se, rest))
    ensures InRange(zz, 1, 0)
  {
  }

  lemma AcBlockEnds(ac: nat, zz: seq<int>, se: nat, r: nat, started: bool, rest: seq<Token>)
    requires 1 <= se < |zz| && ZeroRun(zz, 1, LastNonzero(zz, se), se + 1, r, started)
    ensures var ke := LastNonzero(zz, se);
            AcFrom(ac, zz, ke, se + 1 - r, EndOfBlock(ac, ke < se, rest)) ==
            if r > 0 then [Sym(false, ac, 0)] + rest else rest
  {
    ZeroRunEnds(ac, zz, 1, se, r, started, EndOfBlock(ac, LastNonzero(zz, se) < se, rest));
  }

  lemma NoTransform(order: seq<nat>, block: Block, k: nat)
    requires OrderOk(order) && k < 64
    ensures order[k] < 64 && Zigzag(order, block, 0)[k] == block[order[k]]
  {
    assert Pow2(0) == 1;
  }

  /** What the scan of a band has come to before coefficient k, the last symbol before s. */
  ghost predicate RefineState(zz: seq<int>, ss: nat, eob: nat, s: nat, k: nat, started: bool)
    requires eob < |zz| && s <= k
  {
    && (!started ==> s == ss) && (started ==> ss <= eob && s <= eob + 1)
    && (ss <= eob < k ==> started && s == eob + 1)
    && (s <= k <= eob && Abs(zz[eob]) == 1 ==> RunState(zz, eob, s, k))
  }

  lemma RefineStarts(zz: seq<int>, ss: nat, eob: nat)
    requires eob < |zz|
    ensures RefineState(zz, ss, eob, ss, ss, false)
  {
  }

  /** The tokens for coefficient k with r zeros before it. */
  lemma CoefTokens(ac: nat, zz: seq<int>, ke: nat, k: nat, r: nat, end: seq<Token>)
    requires r <= k <= ke < |zz| && r <= 15 && zz[ke] != 0 && zz[k] != 0 && forall i :: k - r <= i < k ==> zz[i] == 0
    ensures BitCount(Abs(zz[k])) <= MAX_COEF_BITS ==>
              AcFrom(ac, zz, ke, k - r, end) ==
                [Sym(false, ac, r * 16 + BitCount(Abs(zz[k])))] +
                ([Raw(if zz[k] < 0 then zz[k] - 1 else zz[k], BitCount(Abs(zz[k])))] + AcFrom(ac, zz, ke, k + 1, end))
  {
    hide BitCount, AcFrom;
    UnfoldAcFrom(ac, zz, ke, k - r, end);
    NextIs(zz, k - r, ke, k);
  }

  lemma MidRun(zz: seq<int>, ss: nat, eob: nat, s: nat, k: nat, started: bool)
    requires ss <= s <= k <= eob < |zz| && Abs(zz[eob]) == 1 && RunState(zz, eob, s, k) && (!started ==> s == ss)
    ensures RefineState(zz, ss, eob, s, k, started)
  {
  }

  lemma SignKept(order: seq<nat>, block: Block, al: nat, k: nat)
    requires OrderOk(order) && k < 64 && Zigzag(order, block, al)[k] != 0
    ensures order[k] < 64 && (block[order[k]] < 0 <==> Zigzag(order, block, al)[k] < 0)
  {
    PointTransformBound(block[order[k]], al);
  }

  lemma RefineStep(zz: seq<int>, ss: nat, se: nat, eob: nat, s: nat, k: nat, started: bool)
    requires 1 <= ss <= s <= k <= se < |zz| && eob == LastNew(zz, ss, se) && RefineState(zz, ss, eob, s, k, started)
    ensures zz[k] == 0 ==> RefineState(zz, ss, eob, s, k + 1, started)
    ensures Abs(zz[k]) >= 2 && (k > eob || ZeroCount(zz, s, k) <= 15) ==> RefineState(zz, ss, eob, s, k + 1, started)
    ensures Abs(zz[k]) == 1 ==> k <= eob && RefineState(zz, ss, eob, k + 1, k + 1, true)
    ensures k <= eob ==> Abs(zz[eob]) == 1 && RunState(zz, eob, s, k) && (Abs(zz[k]) != 1 ==> k < eob)
    ensures ZeroCount(zz, s, k + 1) == ZeroCount(zz, s, k) + if zz[k] == 0 then 1 else 0
    ensures Corrections(zz, s, k + 1) == Corrections(zz, s, k) + if Abs(zz[k]) >= 2 then [Abs(zz[k]) % 2] else []
    ensures |Corrections(zz, s, k)| <= k - s
  {
    hide RunState, LastNew, ZeroCount, Corrections;
    CountsStep(zz, s, k);
    FewCorrections(zz, s, k);
    if k < eob && (zz[k] == 0 || (Abs(zz[k]) >= 2 && ZeroCount(zz, s, k) <= 15)) {
      PassCoef(zz, eob, s, k);
    }
    if k < eob {
      RunStarts(zz, eob, k + 1);
    }
  }

  lemma {:induction false} FewCorrections(zz: seq<int>, s: nat, k: nat)
    requires s <= k <= |zz|
    ensures |Corrections(zz, s, k)| <= k - s
    ensures ZeroCount(zz, s, k) == 0 && Corrections(zz, s, k) == [] && s < k ==> Abs(zz[s]) == 1
    decreases k - s
  {
    if s < k {
      FewCorrections(zz, s + 1, k);
    }
  }

  lemma RefineEnds(ac: nat, zz: seq<int>, ss: nat, se: nat, eob: nat, s: nat, started: bool, rest: seq<Token>)
    requires 1 <= ss <= se < |zz| <= 64 && ss <= s <= se + 1 && eob == LastNew(zz, ss, se)
    requires RefineState(zz, ss, eob, s, se + 1, started)
    ensures var p := RefinePart(ac, zz, ss, se);
            && (started <==> eob != 0) && s == (if eob == 0 then ss else eob + 1)
            && (started ==> Abs(zz[eob]) == 1 && RefineFrom(ac, zz, eob, s, rest) == rest)
            && p.tail == Corrections(zz, s, se + 1) && |p.tail| <= 63
            && (!started ==> p.explicit == [] && p.eob)
            && (p.eob <==> ZeroCount(zz, s, se + 1) > 0 || Corrections(zz, s, se + 1) != [])
  {
    hide ZeroCount, Corrections, RunState;
    FewCorrections(zz, s, se + 1);
    if s > se {
      NothingScanned(zz, s);
    }
  }

  lemma RefinePartFacts(ac: nat, zz: seq<int>, ss: nat, se: nat, rest: seq<Part>)
    requires 1 <= ss <= se < |zz|
    ensures var p, eob := RefinePart(ac, zz, ss, se), LastNew(zz, ss, se);
            eob != 0 ==>
              && ss <= eob <= se && Abs(zz[eob]) == 1 && p.explicit != []
              && Stream(ac, [p] + rest) == RefineFrom(ac, zz, eob, ss, After(ac, p, rest))
  {
    hide RefineFrom, Stream, After;
    var eob := LastNew(zz, ss, se);
    RefinePartStream(ac, zz, ss, se, rest);
    if eob != 0 {
      UnfoldRefineFrom(ac, zz, eob, ss, []);
    }
  }

  lemma NothingScanned(zz: seq<int>, s: nat)
    requires s <= |zz|
    ensures ZeroCount(zz, s, s) == 0 && Corrections(zz, s, s) == []
  {
  }

  lemma FirstPartFacts(tbl: nat, zz: seq<int>, ss: nat, se: nat, rest: seq<Part>)
    requires 1 <= ss <= se < |zz|
    ensures var p, ke := FirstPart(tbl, zz, ss, se), LastNonzero(zz, se);
            && p.tail == [] && (p.eob <==> ke < se) && (p.explicit == [] <==> ke < ss)
            && (ke >= ss ==> Stream(tbl, [p] + rest) == AcFrom(tbl, zz, ke, ss, After(tbl, p, rest)))
    ensures InRange(zz, ss, ss - 1)
  {
    hide AcFrom, Stream, After;
    var ke := LastNonzero(zz, se);
    FirstPartStream(tbl, zz, ss, se, rest);
    if ke >= ss {
      NotEmpty(tbl, zz, ke, ss);
    }
  }

  /** Before coefficient k there are r zeros, and before those the last one coded, if any. */
  ghost predicate ZeroRun(zz: seq<int>, ss: nat, ke: nat, k: nat, r: nat, started: bool)
    requires ke < |zz| && k <= |zz|
  {
    && r <= k - ss && (forall i :: k - r <= i < k ==> zz[i] == 0)
    && if started then ss <= k - r - 1 <= ke && zz[k - r - 1] != 0 else k - r == ss
  }

  lemma ZeroRunStarts(zz: seq<int>, ss: nat, ke: nat)
    requires ke < |zz| && ss <= |zz|
    ensures ZeroRun(zz, ss, ke, ss, 0, false)
  {
  }

  lemma ZeroRunStep(zz: seq<int>, ss: nat, se: nat, ke: nat, k: nat, r: nat, started: bool)
    requires 1 <= ss <= k <= se < |zz| && ke == LastNonzero(zz, se) && ZeroRun(zz, ss, ke, k, r, started)
    ensures r <= k && forall i :: k - r <= i < k ==> zz[i] == 0
    ensures !started ==> k - r == ss
    ensures if zz[k] == 0 then ZeroRun(zz, ss, ke, k + 1, r + 1, started)
            else k <= ke && zz[ke] != 0 && ZeroRun(zz, ss, ke, k + 1, 0, true)
    ensures ss <= k - r
    ensures InRange(zz, ss, k - 1) && BitCount(Abs(zz[k])) <= MAX_COEF_BITS ==> InRange(zz, ss, k)
    ensures InRange(zz, ss, se) ==> BitCount(Abs(zz[k])) <= MAX_COEF_BITS
    ensures zz[k] == 0 ==> BitCount(Abs(zz[k])) <= MAX_COEF_BITS
  {
    hide BitCount;
    NoBits(Abs(zz[k]));
  }

  lemma ZeroRunEnds(tbl: nat, zz: seq<int>, ss: nat, se: nat, r: nat, started: bool, rest: seq<Token>)
    requires 1 <= ss <= se < |zz| && ZeroRun(zz, ss, LastNonzero(zz, se), se + 1, r, started)
    ensures var ke := LastNonzero(zz, se);
            && r <= se + 1 && (r > 0 <==> ke < se) && (!started ==> ke < ss)
            && (started ==> AcFrom(tbl, zz, ke, se + 1 - r, rest) == rest)
  {
  }

  lemma NothingAfter(tbl: nat, part: Part, rest: seq<Part>)
    ensures !part.eob ==> After(tbl, part, rest) == Pending(tbl, 0, [], rest)
  {
  }

  lemma RawBitsStep(bits: seq<Bit>, i: nat, rest: seq<Token>)
    requires i <= |bits|
    ensures RawBits(bits[i..], rest) == if i < |bits| then [Raw(bits[i], 1)] + RawBits(bits[i + 1..], rest) else rest
    ensures bits[0..] == bits
  {
    if i < |bits| {
      assert bits[i..][1..] == bits[i + 1..];
    }
  }

  lemma NoRun(tbl: nat, be: seq<Bit>, parts: seq<Part>)
    ensures Pending(tbl, 0, be, parts) == Stream(tbl, parts)
  {
  }

  lemma NotEmpty(tbl: nat, zz: seq<int>, ke: nat, k: nat)
    requires k <= ke < |zz| && zz[ke] != 0
    ensures AcFrom(tbl, zz, ke, k, []) != []
  {
    UnfoldAcFrom(tbl, zz, ke, k, []);
  }

  lemma {:induction false} NextIs(zz: seq<int>, s: nat, ke: nat, k: nat)
    requires s <= k <= ke < |zz| && zz[ke] != 0 && zz[k] != 0 && forall i :: s <= i < k ==> zz[i] == 0
    ensures NextNonzero(zz, s, ke) == k
    decreases k - s
  {
    if s < k {
      NextIs(zz, s + 1, ke, k);
    }
  }

  lemma NoBits(v: nat)
    ensures BitCount(v) == 0 <==> v == 0
  {
  }

  lemma Shifted(history: seq<Token>, script: seq<Token>)
    ensures script != [] ==> (history + [script[0]]) + script[1..] == history + script
  {
  }

  /** The number of bits of the magnitude of a value. */
  method BitLength(v: nat) returns (n: nat)
    ensures n == BitCount(v)
  {
    n := 0;
    var temp := v;
    while temp != 0
      invariant n + BitCount(temp) == BitCount(v)
    {
      n := n + 1;
      temp := temp / 2;
    }
  }
}
