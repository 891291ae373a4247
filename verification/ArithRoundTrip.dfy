/** Whole scans: any sequence of MCUs, any restart interval, encoded to bytes and decoded
    back. */
module ArithRoundTrip {
  import opened Bits
  import opened Scans
  import opened ByteStuffing
  import opened Estimation
  import opened IntervalCoder
  import opened ArithModel
  import opened ArithScan
  import opened ArithAreas
  import opened Segments
  import opened ArithScanEncoder
  import opened ArithScanDecoder

  /** All decisions of segment i: predictions start afresh. */
  function SegmentScript(scan: Scan, mcus: seq<Mcu>, r: nat, i: nat): seq<Decision>
    requires scan.Ok() && McusOk(scan, mcus)
  {
    var s := FirstMcu(|mcus|, r, i);
    RestScript(scan, FreshPred(scan), mcus, s, SegmentLimit(|mcus|, r, s))
  }

  function RestScript(scan: Scan, p: Pred, mcus: seq<Mcu>, j: nat, e: nat): seq<Decision>
    requires scan.Ok() && McusOk(scan, mcus) && PredOk(scan, p) && j <= e <= |mcus|
  {
    FlatOk(scan, mcus[j..e]);
    Script(scan, p, Flat(mcus[j..e]), [])
  }

  lemma NextMcu(scan: Scan, p: Pred, mcus: seq<Mcu>, j: nat, e: nat)
    requires scan.Ok() && McusOk(scan, mcus) && PredOk(scan, p) && j < e <= |mcus|
    ensures RestScript(scan, p, mcus, j, e) ==
            Script(scan, p, mcus[j], RestScript(scan, PredAfter(scan, p, mcus[j]), mcus, j + 1, e))
  {
    var a, b := mcus[j], Flat(mcus[j + 1..e]);
    assert mcus[j..e][0] == a && mcus[j..e][1..] == mcus[j + 1..e];
    FlatOk(scan, mcus[j + 1..e]);
    ScriptConcat(scan, p, a, b, []);
  }

  lemma {:induction false} ConstantPred(scan: Scan, p: Pred, items: seq<Item>)
    requires scan.Ok() && PredOk(scan, p) && ItemsOk(scan, items) && !scan.UsesDc()
    ensures PredAfter(scan, p, items) == p
    decreases |items|
  {
    if items != [] {
      ConstantPred(scan, p, items[1..]);
    }
  }

  /** The segments carry the decisions of the MCUs, all of them and in order. */
  ghost predicate Covers(scan: Scan, mcus: seq<Mcu>, r: nat, segs: seq<Seg>)
    requires scan.Ok() && McusOk(scan, mcus)
  {
    && segs != []
    && (forall i :: 0 <= i < |segs| ==> segs[i].decisions == SegmentScript(scan, mcus, r, i))
    && SegmentLimit(|mcus|, r, FirstMcu(|mcus|, r, |segs| - 1)) == |mcus|
  }

  /** No decision of the encoder strays out of the statistics areas of the scan. */
  lemma SegmentsStay(scan: Scan, mcus: seq<Mcu>, r: nat, segs: seq<Seg>, i: nat)
    requires scan.Ok() && McusOk(scan, mcus) && Covers(scan, mcus, r, segs) && i < |segs|
    ensures Stays(scan, segs[i].decisions)
  {
    hide Script, OrderOk, InAreas;
    var s := FirstMcu(|mcus|, r, i);
    var items := Flat(mcus[s..SegmentLimit(|mcus|, r, s)]);
    FlatOk(scan, mcus[s..SegmentLimit(|mcus|, r, s)]);
    ScriptWithin(scan, FreshPred(scan), items, [], (bin: nat) => bin == FIXED_BIN || InSomeArea(scan, bin));
  }

  /** The encoder is in segment i with the MCUs before j encoded. */
  ghost predicate Encoding(enc: ScanEncoder, mcus: seq<Mcu>, i: nat, j: nat)
    reads enc, enc.coder, enc.coder.bins
  {
    && enc.Valid() && McusOk(enc.scan, mcus)
    && var n, r := |mcus|, enc.restartInterval;
       var s := FirstMcu(n, r, i);
       var e := SegmentLimit(n, r, s);
       && i == |enc.done| && s <= j <= e
       && (r > 0 ==> enc.restartsToGo == r - (j - s))
       && (!enc.scan.UsesDc() ==> enc.Preds() == FreshPred(enc.scan))
       && (forall k :: 0 <= k < i ==> enc.done[k].decisions == SegmentScript(enc.scan, mcus, r, k))
       && enc.coder.live && enc.coder.total == SegmentScript(enc.scan, mcus, r, i)
       && enc.coder.script == RestScript(enc.scan, enc.Preds(), mcus, j, e)
  }

  /** Before MCU j a restart may be due; then segment i is complete and the next one begins. */
  method StartMcu(enc: ScanEncoder, mcus: seq<Mcu>, ghost i: nat, j: nat) returns (ghost i': nat)
    requires Encoding(enc, mcus, i, j) && j < |mcus|
    modifies enc, enc.coder, enc.coder.bins
    ensures enc.Valid() && i' == |enc.done|
    ensures var n, r := |mcus|, enc.restartInterval;
            var s := FirstMcu(n, r, i');
            var e := SegmentLimit(n, r, s);
            && s <= j < e && (r > 0 ==> enc.restartsToGo == r - (j - s) - 1)
            && (!enc.scan.UsesDc() ==> enc.Preds() == FreshPred(enc.scan))
            && (forall k :: 0 <= k < i' ==> enc.done[k].decisions == SegmentScript(enc.scan, mcus, r, k))
            && enc.coder.live && enc.coder.total == SegmentScript(enc.scan, mcus, r, i')
            && enc.coder.script == RestScript(enc.scan, enc.Preds(), mcus, j, e)
  {
    hide Script, RestScript, Chained, StartOf, Wire, Holds, Run, ArithEncoder.Encoder.Valid;
    ghost var n, r, scan := |mcus|, enc.restartInterval, enc.scan;
    ghost var due := r > 0 && enc.restartsToGo == 0;
    if due {
      EmptyRest(scan, enc.Preds(), mcus, j);
      HistoryIsTotal(enc);
    }
    enc.CheckRestart();
    i' := if due then i + 1 else i;
    if due {
      assert SegmentScript(scan, mcus, r, i') == RestScript(scan, FreshPred(scan), mcus, j, SegmentLimit(n, r, j));
      enc.coder.Expect(SegmentScript(scan, mcus, r, i'));
    }
  }

  method EncodeNext(enc: ScanEncoder, mcus: seq<Mcu>, ghost i: nat, j: nat) returns (ghost i': nat)
    requires Encoding(enc, mcus, i, j) && j < |mcus|
    modifies enc, enc.coder, enc.coder.bins
    ensures Encoding(enc, mcus, i', j + 1)
  {
    hide Script, RestScript, SegmentScript, Chained, StartOf, Wire, PredAfter, ArithEncoder.Encoder.Valid;
    i' := StartMcu(enc, mcus, i, j);
    ghost var p, e := enc.Preds(), SegmentLimit(|mcus|, enc.restartInterval, FirstMcu(|mcus|, enc.restartInterval, i'));
    NextMcu(enc.scan, p, mcus, j, e);
    if !enc.scan.UsesDc() {
      ConstantPred(enc.scan, p, mcus[j]);
    }
    enc.EncodeMcu(mcus[j], RestScript(enc.scan, PredAfter(enc.scan, p, mcus[j]), mcus, j + 1, e));
  }

  /** Encode a scan MCU by MCU and terminate it. */
  method EncodeScan(table: Table, scan: Scan, r: nat, mcus: seq<Mcu>) returns (output: seq<Byte>, ghost segs: seq<Seg>)
    requires scan.Ok() && McusOk(scan, mcus)
    ensures Covers(scan, mcus, r, segs) && Chained(table, scan, segs)
    ensures output == ScanBytes(Datas(segs))
  {
    hide Script, RestScript, Chained, StartOf, Wire, Holds, Run, Stuff, ArithEncoder.Encoder.Valid;
    var enc := new ScanEncoder(table, scan, r);
    ghost var i := 0;
    enc.coder.Expect(SegmentScript(scan, mcus, r, 0));
    for j := 0 to |mcus|
      invariant Encoding(enc, mcus, i, j)
      invariant fresh(enc) && fresh(enc.coder) && fresh(enc.coder.bins)
    {
      i := EncodeNext(enc, mcus, i, j);
    }
    output, segs := FinishScan(enc, mcus, i);
  }

  method FinishScan(enc: ScanEncoder, mcus: seq<Mcu>, ghost i: nat) returns (output: seq<Byte>, ghost segs: seq<Seg>)
    requires Encoding(enc, mcus, i, |mcus|)
    modifies enc, enc.coder
    ensures Covers(enc.scan, mcus, enc.restartInterval, segs) && Chained(enc.coder.table, enc.scan, segs)
    ensures output == ScanBytes(Datas(segs))
  {
    hide Script, RestScript, StartOf, Wire, Holds, Run, Stuff, ArithEncoder.Encoder.Valid;
    EmptyRest(enc.scan, enc.Preds(), mcus, |mcus|);
    HistoryIsTotal(enc);
    FinishFacts(enc);
    ghost var done, start, history := enc.done, enc.coder.start, enc.coder.history;
    ghost var data := enc.coder.FinishPass();
    output := enc.coder.output;
    segs := done + [Seg(start, history, data)];
    assert segs[..|segs| - 1] == done && Datas(segs)[..|done|] == Datas(done);
    ExtendChain(enc.coder.table, enc.scan, done, segs[|segs| - 1]);
  }

  /** The decoder is in segment i with the MCUs before j decoded. */
  ghost predicate Decoding(dec: ScanDecoder, mcus: seq<Mcu>, segs: seq<Seg>, i: nat, j: nat)
    reads dec, dec.coder, dec.coder.bins
  {
    && dec.Valid() && McusOk(dec.scan, mcus) && !dec.failed
    && i < |segs| && dec.coder.input == ScanBytes(Datas(segs)) + [0xFF, 0xD9]
    && var n, r := |mcus|, dec.restartInterval;
       var s := FirstMcu(n, r, i);
       var e := SegmentLimit(n, r, s);
       && s <= j <= e && dec.nextRestartNum == i % 8
       && (r > 0 ==> dec.restartsToGo == r - (j - s))
       && (!dec.scan.UsesDc() ==> dec.Preds() == FreshPred(dec.scan))
       && dec.coder.start == segs[i].start
       && dec.coder.end == Offset(Datas(segs), i) + |Stuff(segs[i].data)| + 2
       && dec.coder.live && dec.coder.total == segs[i].decisions
       && dec.coder.script == RestScript(dec.scan, dec.Preds(), mcus, j, e)
       && RestDiffsOk(dec.scan, dec.Preds(), mcus, j, e)
  }

  predicate RestDiffsOk(scan: Scan, p: Pred, mcus: seq<Mcu>, j: nat, e: nat)
    requires scan.Ok() && McusOk(scan, mcus) && PredOk(scan, p) && j <= e <= |mcus|
  {
    FlatOk(scan, mcus[j..e]);
    DiffsOk(scan, p, Flat(mcus[j..e]))
  }

  lemma {:induction false} DiffsConcat(scan: Scan, p: Pred, a: seq<Item>, b: seq<Item>)
    requires scan.Ok() && PredOk(scan, p) && ItemsOk(scan, a) && ItemsOk(scan, b)
    ensures DiffsOk(scan, p, a + b) <==> DiffsOk(scan, p, a) && DiffsOk(scan, PredAfter(scan, p, a), b)
    decreases |a|
  {
    if a == [] {
      assert a + b == b;
    } else {
      DiffsConcat(scan, NextPred(scan, p, a[0]), a[1..], b);
      assert (a + b)[1..] == a[1..] + b;
    }
  }

  lemma NextDiffs(scan: Scan, p: Pred, mcus: seq<Mcu>, j: nat, e: nat)
    requires scan.Ok() && McusOk(scan, mcus) && PredOk(scan, p) && j < e <= |mcus|
    ensures RestDiffsOk(scan, p, mcus, j, e) <==>
            DiffsOk(scan, p, mcus[j]) && RestDiffsOk(scan, PredAfter(scan, p, mcus[j]), mcus, j + 1, e)
  {
    var a, b := mcus[j], Flat(mcus[j + 1..e]);
    assert mcus[j..e][0] == a && mcus[j..e][1..] == mcus[j + 1..e];
    FlatOk(scan, mcus[j + 1..e]);
    DiffsConcat(scan, p, a, b);
  }

  /** Every DC difference of every segment stays within what the decoder accepts. */
  ghost predicate AllDiffsOk(scan: Scan, mcus: seq<Mcu>, r: nat)
    requires scan.Ok() && McusOk(scan, mcus)
  {
    forall i: nat ::
      var s := FirstMcu(|mcus|, r, i);
      RestDiffsOk(scan, FreshPred(scan), mcus, s, SegmentLimit(|mcus|, r, s))
  }

  /** The decoder stands at the start of segment i, with the state the encoder had there. */
  ghost method BeginSegment(dec: ScanDecoder, mcus: seq<Mcu>, segs: seq<Seg>, i: nat)
    requires dec.Valid() && McusOk(dec.scan, mcus) && i < |segs|
    requires Chained(dec.coder.table, dec.scan, segs) && Covers(dec.scan, mcus, dec.restartInterval, segs)
    requires dec.coder.input == ScanBytes(Datas(segs)) + [0xFF, 0xD9]
    requires Terminated(dec.coder.input, Offset(Datas(segs), i))
    requires dec.coder.data == Segment(dec.coder.input, Offset(Datas(segs), i))
    requires dec.coder.end == SegmentEnd(dec.coder.input, Offset(Datas(segs), i))
    requires dec.coder.start == segs[i].start && dec.coder.history == []
    modifies dec.coder`live, dec.coder`script, dec.coder`total
    ensures dec.Valid() && dec.coder.live && dec.coder.total == dec.coder.script == segs[i].decisions
    ensures dec.coder.end == Offset(Datas(segs), i) + |Stuff(segs[i].data)| + 2
  {
    hide Segment, SegmentEnd, Stuff, MatchesAt, Holds, Script, Covers;
    SegmentOnWire(Datas(segs), i, dec.coder.input);
    StuffedSegment(dec.coder.input, Offset(Datas(segs), i), segs[i].data, MarkerAfter(|segs|, i));
    ChainAt(dec.coder.table, dec.scan, segs, i);
    assert dec.coder.St() == dec.coder.start;
    dec.coder.Expect(segs[i].decisions);
    assert [] + segs[i].decisions == segs[i].decisions;
  }

  /** Before MCU j a restart marker may be due; it is found, and segment i was complete. */
  method StartDecodedMcu(dec: ScanDecoder, ghost mcus: seq<Mcu>, ghost segs: seq<Seg>, ghost i: nat, ghost j: nat)
    returns (ghost i': nat)
    requires Decoding(dec, mcus, segs, i, j) && j < |mcus|
    requires Chained(dec.coder.table, dec.scan, segs) && Covers(dec.scan, mcus, dec.restartInterval, segs)
    requires AllDiffsOk(dec.scan, mcus, dec.restartInterval)
    modifies dec, dec.coder, dec.coder.bins
    ensures dec.Valid() && !dec.failed && i' < |segs| && dec.coder.input == old(dec.coder.input)
    ensures var n, r := |mcus|, dec.restartInterval;
            var s := FirstMcu(n, r, i');
            var e := SegmentLimit(n, r, s);
            && s <= j < e && dec.nextRestartNum == i' % 8
            && (r > 0 ==> dec.restartsToGo == r - (j - s) - 1)
            && (!dec.scan.UsesDc() ==> dec.Preds() == FreshPred(dec.scan))
            && dec.coder.start == segs[i'].start
            && dec.coder.end == Offset(Datas(segs), i') + |Stuff(segs[i'].data)| + 2
            && dec.coder.live && dec.coder.total == segs[i'].decisions
            && dec.coder.script == RestScript(dec.scan, dec.Preds(), mcus, j, e)
            && RestDiffsOk(dec.scan, dec.Preds(), mcus, j, e)
  {
    hide Script, RestScript, RestDiffsOk, SegmentScript, Chained, StartOf, Wire, Run, Segment, SegmentEnd, ScanBytes,
         Stuff, ArithDecoder.Decoder.Valid, Covers, AllDiffsOk;
    if dec.restartInterval > 0 && dec.restartsToGo == 0 {
      ThroughMarker(dec, mcus, segs, i, j);
      i' := i + 1;
      SegmentBegins(dec.scan, mcus, dec.restartInterval, segs, i');
    } else {
      var ok := dec.CheckRestart();
      i' := i;
    }
  }

  lemma SegmentBegins(scan: Scan, mcus: seq<Mcu>, r: nat, segs: seq<Seg>, i: nat)
    requires scan.Ok() && McusOk(scan, mcus) && Covers(scan, mcus, r, segs) && AllDiffsOk(scan, mcus, r) && i < |segs|
    ensures var s := FirstMcu(|mcus|, r, i);
            var e := SegmentLimit(|mcus|, r, s);
            && segs[i].decisions == RestScript(scan, FreshPred(scan), mcus, s, e)
            && RestDiffsOk(scan, FreshPred(scan), mcus, s, e)
  {
  }

  /** A restart marker is due and is found; segment i was complete. */
  method ThroughMarker(dec: ScanDecoder, ghost mcus: seq<Mcu>, ghost segs: seq<Seg>, ghost i: nat, ghost j: nat)
    requires Decoding(dec, mcus, segs, i, j) && j < |mcus| && dec.restartInterval > 0 && dec.restartsToGo == 0
    requires Chained(dec.coder.table, dec.scan, segs) && Covers(dec.scan, mcus, dec.restartInterval, segs)
    modifies dec, dec.coder, dec.coder.bins
    ensures i + 1 < |segs| && FirstMcu(|mcus|, dec.restartInterval, i + 1) == j
    ensures dec.Valid() && !dec.failed && dec.coder.input == old(dec.coder.input)
    ensures dec.nextRestartNum == (i + 1) % 8 && dec.restartsToGo == dec.restartInterval - 1
    ensures dec.Preds() == FreshPred(dec.scan)
    ensures dec.coder.start == segs[i + 1].start
    ensures dec.coder.end == Offset(Datas(segs), i + 1) + |Stuff(segs[i + 1].data)| + 2
    ensures dec.coder.live && dec.coder.total == dec.coder.script == segs[i + 1].decisions
  {
    hide Datas, Offset, MarkerAfter, SegmentLimit, Script, RestScript, RestDiffsOk, SegmentScript, Chained, StartOf,
         Wire, Run, Segment, SegmentEnd, ScanBytes, Stuff, ArithDecoder.Decoder.Valid, Covers, AfterRestart;
    MarkerIsDue(dec, mcus, segs, i, j);
    SegmentOnWire(Datas(segs), i + 1, dec.coder.input);
    var ok := dec.CheckRestart();
    BeginSegment(dec, mcus, segs, i + 1);
  }

  /** What is known of the decoder when a restart is due. */
  lemma MarkerIsDue(dec: ScanDecoder, mcus: seq<Mcu>, segs: seq<Seg>, i: nat, j: nat)
    requires Decoding(dec, mcus, segs, i, j) && j < |mcus| && dec.restartInterval > 0 && dec.restartsToGo == 0
    requires Chained(dec.coder.table, dec.scan, segs) && Covers(dec.scan, mcus, dec.restartInterval, segs)
    ensures i + 1 < |segs| && FirstMcu(|mcus|, dec.restartInterval, i + 1) == j
    ensures dec.coder.end == Offset(Datas(segs), i + 1) <= |dec.coder.input|
    ensures dec.coder.input[dec.coder.end - 1] == 0xD0 + dec.nextRestartNum
    ensures segs[i + 1].start == AfterRestart(dec.scan, dec.coder.bins[..])
  {
    hide Datas, Offset, MarkerAfter, Script, RestScript, RestDiffsOk, SegmentScript, Chained, StartOf, Wire, Run;
    hide ScanBytes, Stuff, ArithDecoder.Decoder.Valid, Covers, AfterRestart;
    EmptyRest(dec.scan, dec.Preds(), mcus, j);
    DecodedIsTotal(dec);
    MoreSegments(dec.scan, mcus, dec.restartInterval, segs, i);
    MarkerIsThere(Datas(segs), i, dec.coder.input);
    NextStart(dec.coder.table, dec.scan, segs, i);
  }

  lemma DecodedIsTotal(dec: ScanDecoder)
    requires dec.Valid() && dec.coder.live && dec.coder.script == []
    ensures dec.coder.history == dec.coder.total
    ensures dec.coder.bins[..] == Run(dec.coder.table, dec.coder.start, dec.coder.total).bins
  {
    assert dec.coder.history + [] == dec.coder.history;
  }

  /** If the MCUs of segment i do not reach the end there is another segment. */
  lemma MoreSegments(scan: Scan, mcus: seq<Mcu>, r: nat, segs: seq<Seg>, i: nat)
    requires scan.Ok() && McusOk(scan, mcus) && Covers(scan, mcus, r, segs) && i < |segs|
    requires SegmentLimit(|mcus|, r, FirstMcu(|mcus|, r, i)) < |mcus|
    ensures i + 1 < |segs|
  {
  }

  lemma NextStart(t: Table, scan: Scan, segs: seq<Seg>, i: nat)
    requires scan.Ok() && Chained(t, scan, segs) && i + 1 < |segs|
    ensures SegOk(t, segs[i])
    ensures segs[i + 1].start == AfterRestart(scan, Run(t, segs[i].start, segs[i].decisions).bins)
  {
    ChainAt(t, scan, segs, i);
    ChainAt(t, scan, segs, i + 1);
    assert segs[..i + 1][i] == segs[i];
  }

  method DecodeNext(dec: ScanDecoder, comps: seq<nat>, blocks: seq<array<Coef>>, ghost mcus: seq<Mcu>,
                    ghost segs: seq<Seg>, ghost i: nat, ghost j: nat) returns (ghost i': nat)
    requires Decoding(dec, mcus, segs, i, j) && j < |mcus|
    requires Chained(dec.coder.table, dec.scan, segs) && Covers(dec.scan, mcus, dec.restartInterval, segs)
    requires AllDiffsOk(dec.scan, mcus, dec.restartInterval)
    requires |comps| == |blocks|
    requires forall b :: 0 <= b < |comps| ==> comps[b] < dec.scan.NumComps() && blocks[b].Length == 64
    requires forall b, d :: 0 <= b < d < |blocks| ==> blocks[b] != blocks[d]
    requires dec.Expected(comps, blocks, mcus[j])
    modifies dec, dec.coder, dec.coder.bins, blocks
    ensures Decoding(dec, mcus, segs, i', j + 1)
    ensures forall b :: 0 <= b < |blocks| ==> blocks[b][..] == Decoded(dec.scan, old(blocks[b][..]), mcus[j][b].block)
  {
    hide Script, RestScript, SegmentScript, RestDiffsOk, Chained, Covers, AllDiffsOk, Wire, Stuff, ScanBytes, PredAfter,
         DiffsOk, Decoded, ArithDecoder.Decoder.Valid;
    i' := StartDecodedMcu(dec, mcus, segs, i, j);
    ghost var p, e := dec.Preds(), SegmentLimit(|mcus|, dec.restartInterval, FirstMcu(|mcus|, dec.restartInterval, i'));
    NextMcu(dec.scan, p, mcus, j, e);
    NextDiffs(dec.scan, p, mcus, j, e);
    if !dec.scan.UsesDc() {
      ConstantPred(dec.scan, p, mcus[j]);
    }
    dec.DecodeMcu(comps, blocks, true, mcus[j], RestScript(dec.scan, PredAfter(dec.scan, p, mcus[j]), mcus, j + 1, e));
  }

  /** Decode a scan MCU by MCU from the bytes that EncodeScan wrote for the same parameters. */
  method DecodeScan(table: Table, scan: Scan, r: nat, bytes: seq<Byte>, comps: seq<seq<nat>>,
                    targets: seq<seq<array<Coef>>>,
                    ghost mcus: seq<Mcu>, ghost segs: seq<Seg>)
    requires scan.Ok() && McusOk(scan, mcus) && AllDiffsOk(scan, mcus, r)
    requires Covers(scan, mcus, r, segs) && Chained(table, scan, segs) && bytes == ScanBytes(Datas(segs))
    requires TargetsOk(scan, mcus, comps, targets) && PriorsOk(scan, mcus, targets)
    modifies Arrays(targets)
    ensures forall j, b :: 0 <= j < |mcus| && 0 <= b < |mcus[j]| ==>
              targets[j][b][..] == Decoded(scan, old(targets[j][b][..]), mcus[j][b].block)
  {
    hide Decoding, Chained, StartOf, Wire, Holds, Run, Stuff, Decoded, Prior, ArithDecoder.Decoder.Valid, ScanBytes,
         Segment, SegmentEnd;
    var dec := new ScanDecoder(table, scan, r, bytes);
    ghost var i := FirstSegment(dec, mcus, segs);
    for j := 0 to |targets|
      invariant Decoding(dec, mcus, segs, i, j)
      invariant fresh(dec) && fresh(dec.coder) && fresh(dec.coder.bins)
      invariant forall k, b :: 0 <= k < j && 0 <= b < |mcus[k]| ==>
                  targets[k][b][..] == Decoded(scan, old(targets[k][b][..]), mcus[k][b].block)
      invariant forall k, b :: j <= k < |mcus| && 0 <= b < |mcus[k]| ==> targets[k][b][..] == old(targets[k][b][..])
    {
      i := DecodeNext(dec, comps[j], targets[j], mcus, segs, i, j);
    }
  }

  ghost method FirstSegment(dec: ScanDecoder, mcus: seq<Mcu>, segs: seq<Seg>) returns (i: nat)
    requires dec.Valid() && !dec.failed && McusOk(dec.scan, mcus) && AllDiffsOk(dec.scan, mcus, dec.restartInterval)
    requires Chained(dec.coder.table, dec.scan, segs) && Covers(dec.scan, mcus, dec.restartInterval, segs)
    requires dec.coder.input == ScanBytes(Datas(segs)) + [0xFF, 0xD9]
    requires Terminated(dec.coder.input, 0)
    requires dec.coder.data == Segment(dec.coder.input, 0) && dec.coder.end == SegmentEnd(dec.coder.input, 0)
    requires dec.coder.start == FreshState() && dec.coder.history == [] && dec.Preds() == FreshPred(dec.scan)
    requires dec.restartsToGo == dec.restartInterval && dec.nextRestartNum == 0
    modifies dec.coder`live, dec.coder`script, dec.coder`total
    ensures i == 0 && Decoding(dec, mcus, segs, i, 0)
  {
    hide Script, RestScript, RestDiffsOk, Wire, Holds, Run, Stuff, ScanBytes, Segment, SegmentEnd,
         ArithDecoder.Decoder.Valid;
    i := 0;
    FirstOffset(Datas(segs));
    ChainAt(dec.coder.table, dec.scan, segs, 0);
    SegmentBegins(dec.scan, mcus, dec.restartInterval, segs, 0);
    BeginSegment(dec, mcus, segs, 0);
  }

  /** What is decoded is what was encoded, for every scan, every sequence of MCUs and every
      restart interval. */
  method ScanRoundTrip(table: Table, scan: Scan, r: nat, mcus: seq<Mcu>, comps: seq<seq<nat>>,
                       targets: seq<seq<array<Coef>>>)
    requires scan.Ok() && McusOk(scan, mcus) && AllDiffsOk(scan, mcus, r)
    requires TargetsOk(scan, mcus, comps, targets) && PriorsOk(scan, mcus, targets)
    modifies Arrays(targets)
    ensures forall j, b :: 0 <= j < |mcus| && 0 <= b < |mcus[j]| ==>
              targets[j][b][..] == Decoded(scan, old(targets[j][b][..]), mcus[j][b].block)
  {
    hide Decoded, Prior, Chained, Covers, ScanBytes, AllDiffsOk;
    var bytes;
    ghost var segs;
    bytes, segs := EncodeScan(table, scan, r, mcus);
    DecodeScan(table, scan, r, bytes, comps, targets, mcus, segs);
  }

  lemma EmptyRest(scan: Scan, p: Pred, mcus: seq<Mcu>, j: nat)
    requires scan.Ok() && McusOk(scan, mcus) && PredOk(scan, p) && j <= |mcus|
    ensures RestScript(scan, p, mcus, j, j) == []
  {
    assert mcus[j..j] == [];
  }

  lemma HistoryIsTotal(enc: ScanEncoder)
    requires enc.Valid() && enc.coder.live && enc.coder.script == []
    ensures enc.coder.history == enc.coder.total
  {
    assert enc.coder.history + [] == enc.coder.history;
  }

  lemma FinishFacts(enc: ScanEncoder)
    requires enc.Valid()
    ensures enc.coder.start.iv == UNIT && |enc.coder.start.bins| == enc.coder.bins.Length
    ensures AddressesOk(enc.coder.history, enc.coder.bins.Length)
  {
  }
}
