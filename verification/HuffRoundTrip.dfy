/** Whole Huffman-coded scans: any sequence of MCUs and any restart interval, encoded to bytes
    and decoded back, however the bytes trickle in. */
module HuffRoundTrip {
  import opened Bits
  import opened BitStrings
  import opened ByteStuffing
  import opened Scans
  import opened Segments
  import opened HuffModel
  import opened HuffTables
  import opened HuffTokens
  import CodeCounts
  import HuffCodes
  import E = HuffScanEncoder
  import opened D = HuffDecoding
  import opened HuffInverse
  import S = HuffScanDecoder

  function FreshLast(scan: Scan): seq<int> {
    seq(scan.NumComps(), _ => 0)
  }

  /** The parts of the MCUs from j to e, given the predictions before them. */
  function RestParts(scan: Scan, last: seq<int>, mcus: seq<Segments.Mcu>, j: nat, e: nat): seq<Part>
    requires scan.Ok() && McusOk(scan, mcus) && |last| == scan.NumComps() && j <= e <= |mcus|
  {
    FlatOk(scan, mcus[j..e]);
    Parts(scan, last, Flat(mcus[j..e]))
  }

  predicate RestCodable(scan: Scan, last: seq<int>, mcus: seq<Segments.Mcu>, j: nat, e: nat)
    requires scan.Ok() && McusOk(scan, mcus) && |last| == scan.NumComps() && j <= e <= |mcus|
  {
    FlatOk(scan, mcus[j..e]);
    AllCodable(scan, last, Flat(mcus[j..e]))
  }

  /** All tokens of segment i: predictions start afresh and runs do not cross its end. */
  function SegmentTokens(scan: Scan, mcus: seq<Segments.Mcu>, r: nat, i: nat): seq<Token>
    requires E.HuffOk(scan) && McusOk(scan, mcus)
  {
    var s := FirstMcu(|mcus|, r, i);
    Stream(E.RunTbl(scan), RestParts(scan, FreshLast(scan), mcus, s, SegmentLimit(|mcus|, r, s)))
  }

  /** No value is out of range, and with tables at hand all symbols have codes. */
  ghost predicate ScanCodable(scan: Scan, mcus: seq<Segments.Mcu>, r: nat)
    requires scan.Ok() && McusOk(scan, mcus)
  {
    forall i: nat ::
      var s := FirstMcu(|mcus|, r, i);
      RestCodable(scan, FreshLast(scan), mcus, s, SegmentLimit(|mcus|, r, s))
  }

  ghost predicate ScanEncodable(scan: Scan, tabs: Tabs, mcus: seq<Segments.Mcu>, r: nat)
    requires E.HuffOk(scan) && McusOk(scan, mcus) && tabs.Ok()
  {
    forall i: nat :: AllEncodable(tabs, SegmentTokens(scan, mcus, r, i))
  }

  lemma {:induction false} PartsConcat(scan: Scan, last: seq<int>, a: seq<Item>, b: seq<Item>)
    requires scan.Ok() && |last| == scan.NumComps() && ItemsOk(scan, a) && ItemsOk(scan, b)
    ensures Parts(scan, last, a + b) == Parts(scan, last, a) + Parts(scan, LastAfter(scan, last, a), b)
    ensures AllCodable(scan, last, a + b) <==>
            AllCodable(scan, last, a) && AllCodable(scan, LastAfter(scan, last, a), b)
    decreases |a|
  {
    hide BlockPart, NextLast, Codable;
    if a == [] {
      assert a + b == b;
    } else {
      assert (a + b)[1..] == a[1..] + b;
      PartsConcat(scan, NextLast(scan, last, a[0]), a[1..], b);
    }
  }

  lemma NextMcu(scan: Scan, last: seq<int>, mcus: seq<Segments.Mcu>, j: nat, e: nat)
    requires scan.Ok() && McusOk(scan, mcus) && |last| == scan.NumComps() && j < e <= |mcus|
    ensures var next := LastAfter(scan, last, mcus[j]);
            && RestParts(scan, last, mcus, j, e) == Parts(scan, last, mcus[j]) + RestParts(scan, next, mcus, j + 1, e)
            && (RestCodable(scan, last, mcus, j, e) <==>
                AllCodable(scan, last, mcus[j]) && RestCodable(scan, next, mcus, j + 1, e))
  {
    var a, b := mcus[j], Flat(mcus[j + 1..e]);
    assert mcus[j..e][0] == a && mcus[j..e][1..] == mcus[j + 1..e];
    FlatOk(scan, mcus[j + 1..e]);
    PartsConcat(scan, last, a, b);
  }

  lemma EmptyRest(scan: Scan, last: seq<int>, mcus: seq<Segments.Mcu>, j: nat)
    requires scan.Ok() && McusOk(scan, mcus) && |last| == scan.NumComps() && j <= |mcus|
    ensures RestParts(scan, last, mcus, j, j) == [] && RestCodable(scan, last, mcus, j, j)
  {
    assert mcus[j..j] == [];
  }

  lemma {:induction false} ConstantLast(scan: Scan, last: seq<int>, items: seq<Item>)
    requires scan.Ok() && |last| == scan.NumComps() && ItemsOk(scan, items) && !scan.UsesDc()
    ensures LastAfter(scan, last, items) == last
    decreases |items|
  {
    if items != [] {
      ConstantLast(scan, last, items[1..]);
    }
  }

  /** The segments carry the tokens of the MCUs, all of them and in order. */
  ghost predicate Covers(scan: Scan, mcus: seq<Segments.Mcu>, r: nat, segs: seq<E.Seg>)
    requires E.HuffOk(scan) && McusOk(scan, mcus)
  {
    && segs != []
    && (forall i :: 0 <= i < |segs| ==> segs[i].tokens == SegmentTokens(scan, mcus, r, i))
    && SegmentLimit(|mcus|, r, FirstMcu(|mcus|, r, |segs| - 1)) == |mcus|
  }

  /** The encoder is in segment i with the MCUs before j encoded. */
  ghost predicate Encoding(enc: E.ScanEncoder, mcus: seq<Segments.Mcu>, i: nat, j: nat)
    reads enc, enc.writer, enc.bitBuffer
  {
    && enc.Valid() && enc.Able() && McusOk(enc.scan, mcus)
    && var n, r := |mcus|, enc.restartInterval;
       var s := FirstMcu(n, r, i);
       var e := SegmentLimit(n, r, s);
       && i == |enc.done| && s <= j <= e
       && (r > 0 ==> enc.restartsToGo == r - (j - s))
       && (!enc.scan.UsesDc() ==> enc.lastDc == FreshLast(enc.scan))
       && (forall k :: 0 <= k < i ==> enc.done[k].tokens == SegmentTokens(enc.scan, mcus, r, k))
       && enc.total == SegmentTokens(enc.scan, mcus, r, i)
       && enc.script == Pending(E.RunTbl(enc.scan), enc.eobrun, enc.Buffered(),
                                RestParts(enc.scan, enc.lastDc, mcus, j, e))
       && RestCodable(enc.scan, enc.lastDc, mcus, j, e)
  }

  /** Nothing that the scan needs is missing. */
  ghost predicate Fine(enc: E.ScanEncoder, mcus: seq<Segments.Mcu>) {
    && E.HuffOk(enc.scan) && McusOk(enc.scan, mcus) && enc.tabs.Ok() && ScanCodable(enc.scan, mcus, enc.restartInterval)
    && (!enc.gather ==> ScanEncodable(enc.scan, enc.tabs, mcus, enc.restartInterval))
  }

  lemma SegmentStarts(enc: E.ScanEncoder, mcus: seq<Segments.Mcu>, i: nat, j: nat)
    requires Fine(enc, mcus) && j == FirstMcu(|mcus|, enc.restartInterval, i)
    ensures var e := SegmentLimit(|mcus|, enc.restartInterval, j);
            && SegmentTokens(enc.scan, mcus, enc.restartInterval, i) ==
               Pending(E.RunTbl(enc.scan), 0, [], RestParts(enc.scan, FreshLast(enc.scan), mcus, j, e))
            && RestCodable(enc.scan, FreshLast(enc.scan), mcus, j, e)
            && (!enc.gather ==> AllEncodable(enc.tabs, SegmentTokens(enc.scan, mcus, enc.restartInterval, i)))
  {
  }

  /** Before MCU j a restart may be due; then segment i is complete and the next one begins. */
  method StartMcu(enc: E.ScanEncoder, mcus: seq<Segments.Mcu>, ghost i: nat, j: nat) returns (ghost i': nat)
    requires Encoding(enc, mcus, i, j) && j < |mcus| && Fine(enc, mcus)
    modifies enc, enc.writer
    ensures enc.Valid() && enc.Able() && i' == |enc.done|
    ensures var n, r := |mcus|, enc.restartInterval;
            var s := FirstMcu(n, r, i');
            var e := SegmentLimit(n, r, s);
            && s <= j < e && (r > 0 ==> enc.restartsToGo == r - (j - s) - 1)
            && (!enc.scan.UsesDc() ==> enc.lastDc == FreshLast(enc.scan))
            && (forall k :: 0 <= k < i' ==> enc.done[k].tokens == SegmentTokens(enc.scan, mcus, r, k))
            && enc.total == SegmentTokens(enc.scan, mcus, r, i')
            && enc.script == Pending(E.RunTbl(enc.scan), enc.eobrun, enc.Buffered(),
                                     RestParts(enc.scan, enc.lastDc, mcus, j, e))
            && RestCodable(enc.scan, enc.lastDc, mcus, j, e)
  {
    hide Pending, SegmentTokens, RestParts, RestCodable, Scan.Ok, E.TablesOk, E.ScanEncoder.Emitting, ScanCodable,
         ScanEncodable, AllEncodable, Wire, E.SegsOk, E.Tokens;
    ghost var n, r, scan := |mcus|, enc.restartInterval, enc.scan;
    ghost var due := r > 0 && enc.restartsToGo == 0;
    i' := if due then i + 1 else i;
    ghost var next := enc.script;
    if due {
      EmptyRest(scan, enc.lastDc, mcus, j);
      SegmentStarts(enc, mcus, i + 1, j);
      next := SegmentTokens(scan, mcus, r, i + 1);
    }
    enc.CheckRestart(next);
    assert due ==> enc.Buffered() == [];
  }

  method EncodeNext(enc: E.ScanEncoder, mcus: seq<Segments.Mcu>, ghost i: nat, j: nat) returns (ghost i': nat)
    requires Encoding(enc, mcus, i, j) && j < |mcus| && Fine(enc, mcus)
    modifies enc, enc.writer, enc.bitBuffer
    ensures Encoding(enc, mcus, i', j + 1)
  {
    hide Pending, SegmentTokens, RestParts, RestCodable, Scan.Ok, E.TablesOk, E.ScanEncoder.Emitting, AllEncodable,
         Wire, E.SegsOk, E.Tokens, Parts, LastAfter, AllCodable, Fine;
    i' := StartMcu(enc, mcus, i, j);
    ghost var last, e := enc.lastDc,
      SegmentLimit(|mcus|, enc.restartInterval, FirstMcu(|mcus|, enc.restartInterval, i'));
    NextMcu(enc.scan, last, mcus, j, e);
    if !enc.scan.UsesDc() {
      ConstantLast(enc.scan, last, mcus[j]);
    }
    enc.EncodeItems(mcus[j], RestParts(enc.scan, LastAfter(enc.scan, last, mcus[j]), mcus, j + 1, e));
  }

  /** Encode a scan MCU by MCU and finish it, or count its symbols. */
  method EncodeScan(enc: E.ScanEncoder, mcus: seq<Segments.Mcu>) returns (ghost segs: seq<E.Seg>)
    requires enc.Valid() && !enc.failed && Fine(enc, mcus)
    requires enc.eobrun == 0 && enc.restartsToGo == enc.restartInterval && enc.nextRestartNum == 0
    requires enc.lastDc == FreshLast(enc.scan) && enc.done == [] && enc.history == enc.script == enc.total == []
    modifies enc, enc.writer, enc.bitBuffer
    ensures E.HuffOk(enc.scan) && enc.tabs.Ok() && McusOk(enc.scan, mcus) && !enc.failed
    ensures Covers(enc.scan, mcus, enc.restartInterval, segs)
    ensures !enc.gather ==> E.SegsOk(enc.tabs, segs) && enc.writer.output == ScanBytes(E.Datas(segs))
    ensures enc.gather ==> E.CountsMatch(enc.dcCounts, true, E.Tokens(segs))
                           && E.CountsMatch(enc.acCounts, false, E.Tokens(segs))
  {
    hide Encoding, Fine, Covers, E.ScanEncoder.Valid, E.SegsOk, E.CountsMatch, ScanBytes, SegmentTokens;
    ghost var i := 0;
    BeginScan(enc, mcus);
    for j := 0 to |mcus|
      invariant Encoding(enc, mcus, i, j)
    {
      i := EncodeNext(enc, mcus, i, j);
    }
    segs := FinishScan(enc, mcus, i);
  }

  ghost method BeginScan(enc: E.ScanEncoder, mcus: seq<Segments.Mcu>)
    requires enc.Valid() && !enc.failed && Fine(enc, mcus)
    requires enc.eobrun == 0 && enc.restartsToGo == enc.restartInterval && enc.nextRestartNum == 0
    requires enc.lastDc == FreshLast(enc.scan) && enc.done == [] && enc.history == enc.script == enc.total == []
    modifies enc`script, enc`total
    ensures Encoding(enc, mcus, 0, 0)
  {
    hide Pending, RestParts, RestCodable, SegmentTokens, Scan.Ok, E.TablesOk, Wire, E.SegsOk, E.Tokens, E.CountsMatch,
         ScanCodable, ScanEncodable, AllEncodable, Fine, E.ScanEncoder.Emitting;
    FineFacts(enc, mcus);
    SegmentStarts(enc, mcus, 0, 0);
    enc.Expect(SegmentTokens(enc.scan, mcus, enc.restartInterval, 0));
    assert enc.Buffered() == [];
  }

  lemma FineFacts(enc: E.ScanEncoder, mcus: seq<Segments.Mcu>)
    requires Fine(enc, mcus)
    ensures E.HuffOk(enc.scan) && McusOk(enc.scan, mcus) && enc.tabs.Ok()
  {
  }

  method FinishScan(enc: E.ScanEncoder, mcus: seq<Segments.Mcu>, ghost i: nat) returns (ghost segs: seq<E.Seg>)
    requires Encoding(enc, mcus, i, |mcus|)
    modifies enc, enc.writer
    ensures E.HuffOk(enc.scan) && enc.tabs.Ok() && McusOk(enc.scan, mcus) && !enc.failed
    ensures Covers(enc.scan, mcus, enc.restartInterval, segs)
    ensures !enc.gather ==> E.SegsOk(enc.tabs, segs) && enc.writer.output == ScanBytes(E.Datas(segs))
    ensures enc.gather ==> E.CountsMatch(enc.dcCounts, true, E.Tokens(segs))
                           && E.CountsMatch(enc.acCounts, false, E.Tokens(segs))
  {
    hide Pending, RestParts, RestCodable, SegmentTokens, Scan.Ok, E.TablesOk, Wire, E.SegsOk, E.Tokens, E.CountsMatch,
         AllEncodable, E.ScanEncoder.Emitting, ScanBytes;
    EmptyRest(enc.scan, enc.lastDc, mcus, |mcus|);
    segs := enc.FinishPass();
  }

  // Decoding.

  /** The bits that are to come at MCU j of segment i, and the predictions. */
  ghost predicate Decoding(dec: S.ScanDecoder, mcus: seq<Segments.Mcu>, segs: seq<E.Seg>, i: nat, j: nat,
                           last: seq<int>, pad: seq<Bit>)
    reads dec, dec.reader
  {
    && dec.Valid() && !dec.failed && McusOk(dec.scan, mcus) && i < |segs| && |pad| < 8
    && dec.reader.input == ScanBytes(E.Datas(segs)) + [0xFF, 0xD9]
    && dec.reader.end == Offset(E.Datas(segs), i) + |Stuff(segs[i].data)| + 2
    && var n, r := |mcus|, dec.restartInterval;
       var s := FirstMcu(n, r, i);
       var e := SegmentLimit(n, r, s);
       && s <= j <= e && dec.nextRestartNum == i % 8 && (r > 0 ==> dec.restartsToGo == r - (j - s))
       && LastOk(dec.Cfg(), dec.SavedState(), last) && (!dec.scan.UsesDc() ==> last == FreshLast(dec.scan))
       && RestCodable(dec.scan, last, mcus, j, e)
       && CarriesParts(dec.tabs, E.RunTbl(dec.scan), dec.SavedSource(), dec.eobrun,
                       RestParts(dec.scan, last, mcus, j, e), pad)
  }

  /** The bits of a segment carry its tokens, and fewer than eight more follow. */
  lemma SegmentBits(tabs: Tabs, scan: Scan, mcus: seq<Segments.Mcu>, r: nat, segs: seq<E.Seg>, i: nat, input: seq<Byte>)
    returns (pad: seq<Bit>)
    requires tabs.Ok() && E.HuffOk(scan) && McusOk(scan, mcus) && i < |segs|
    requires E.SegsOk(tabs, segs) && Covers(scan, mcus, r, segs)
    requires input == ScanBytes(E.Datas(segs)) + [0xFF, 0xD9]
    ensures Terminated(input, Offset(E.Datas(segs), i)) && |pad| < 8
    ensures SegmentEnd(input, Offset(E.Datas(segs), i)) == Offset(E.Datas(segs), i) + |Stuff(segs[i].data)| + 2
    ensures var s := FirstMcu(|mcus|, r, i);
            CarriesParts(tabs, E.RunTbl(scan), Src(BytesBits(Segment(input, Offset(E.Datas(segs), i))), false), 0,
                         RestParts(scan, FreshLast(scan), mcus, s, SegmentLimit(|mcus|, r, s)), pad)
  {
    hide Stuff, Segment, SegmentEnd, Offset, ScanBytes, MatchesAt, TokensBits, AllEncodable, BytesBits, RestParts,
         E.Datas, Scan.Ok;
    SegmentOnWire(E.Datas(segs), i, input);
    StuffedSegment(input, Offset(E.Datas(segs), i), segs[i].data, MarkerAfter(|segs|, i));
    var bits := TokensBits(tabs, segs[i].tokens);
    assert E.SegOk(tabs, segs[i]);
    pad := BytesBits(segs[i].data)[|bits|..];
    FilledUp(bits, segs[i].data);
  }

  lemma FilledUp(bits: seq<Bit>, data: seq<Byte>)
    requires E.FillsBytes(bits, data)
    ensures BytesBits(data) == bits + BytesBits(data)[|bits|..] && |BytesBits(data)| - |bits| < 8
  {
  }

  ghost predicate Good(dec: S.ScanDecoder, mcus: seq<Segments.Mcu>, segs: seq<E.Seg>) {
    && E.HuffOk(dec.scan) && McusOk(dec.scan, mcus) && dec.tabs.Ok() && ScanCodable(dec.scan, mcus, dec.restartInterval)
    && Covers(dec.scan, mcus, dec.restartInterval, segs) && E.SegsOk(dec.tabs, segs)
  }

  /** The segments end with restart markers except for the last. */
  lemma MoreSegments(scan: Scan, mcus: seq<Segments.Mcu>, r: nat, segs: seq<E.Seg>, i: nat)
    requires E.HuffOk(scan) && McusOk(scan, mcus) && Covers(scan, mcus, r, segs) && i < |segs|
    requires SegmentLimit(|mcus|, r, FirstMcu(|mcus|, r, i)) < |mcus|
    ensures i + 1 < |segs| && FirstMcu(|mcus|, r, i + 1) == SegmentLimit(|mcus|, r, FirstMcu(|mcus|, r, i))
  {
  }

  /** At the end of a segment only padding is left, or nothing. */
  lemma OnlyPadding(tabs: Tabs, tbl: nat, s: Src, e: nat, pad: seq<Bit>)
    requires tabs.Ok() && CarriesParts(tabs, tbl, s, e, [], pad)
    ensures s.bits == pad && e == 0
    ensures forall bits :: bits == [] ==> CarriesParts(tabs, tbl, Src(bits, false), 0, [], [])
  {
    assert Stream(tbl, []) == [];
    assert TokensBits(tabs, []) == [];
  }

  ghost predicate Due(dec: S.ScanDecoder)
    reads dec
  {
    dec.restartInterval > 0 && dec.restartsToGo == 0
  }

  /** Before MCU j the decoder gets past a restart marker if there is one, or has to wait. */
  method PassRestart(dec: S.ScanDecoder, ghost mcus: seq<Segments.Mcu>, ghost segs: seq<E.Seg>, ghost i: nat,
                     ghost j: nat, ghost last: seq<int>, ghost pad: seq<Bit>)
    returns (ok: bool, ghost i': nat, ghost last': seq<int>, ghost pad': seq<Bit>)
    requires Decoding(dec, mcus, segs, i, j, last, pad) && j < |mcus| && Good(dec, mcus, segs)
    modifies dec, dec.reader`saved, dec.reader`savedRest, dec.reader`unreadMarker,
             dec.reader`insufficient, dec.reader`end
    ensures Decoding(dec, mcus, segs, i', j, last', pad')
    ensures ok ==> j < SegmentLimit(|mcus|, dec.restartInterval, FirstMcu(|mcus|, dec.restartInterval, i'))
    ensures !ok ==> dec.reader.avail < dec.reader.end
    ensures Due(dec) ==> !ok && old(Due(dec))
    ensures !old(Due(dec)) ==> ok && dec.SavedSource() == old(dec.SavedSource())
                               && dec.SavedState() == old(dec.SavedState())
  {
    hide S.ScanDecoder.Ready, CarriesParts, RestParts, RestCodable, Covers, E.SegsOk, ScanCodable, ScanBytes, Offset,
         Stuff, Segment, SegmentEnd, BytesBits, Scan.Ok, E.Datas, LastOk, Good, OnlyEob, Carries;
    i', last', pad' := i, last, pad;
    if dec.restartInterval != 0 && dec.restartsToGo == 0 {
      ok, i', last', pad' := ThroughRestart(dec, mcus, segs, i, j, last, pad);
    } else {
      ok := dec.CheckRestart();
    }
  }

  method ThroughRestart(dec: S.ScanDecoder, ghost mcus: seq<Segments.Mcu>, ghost segs: seq<E.Seg>, ghost i: nat,
                        ghost j: nat, ghost last: seq<int>, ghost pad: seq<Bit>)
    returns (ok: bool, ghost i': nat, ghost last': seq<int>, ghost pad': seq<Bit>)
    requires Decoding(dec, mcus, segs, i, j, last, pad) && j < |mcus| && Good(dec, mcus, segs) && Due(dec)
    modifies dec, dec.reader`saved, dec.reader`savedRest, dec.reader`unreadMarker,
             dec.reader`insufficient, dec.reader`end
    ensures Decoding(dec, mcus, segs, i', j, last', pad')
    ensures ok ==> i' == i + 1 && !Due(dec) && j == FirstMcu(|mcus|, dec.restartInterval, i')
    ensures !ok ==> Due(dec) && dec.reader.avail < dec.reader.end
  {
    hide S.ScanDecoder.Ready, CarriesParts, RestParts, RestCodable, Covers, E.SegsOk, ScanCodable, ScanBytes, Offset,
         Stuff, Segment, SegmentEnd, BytesBits, Scan.Ok, E.Datas, LastOk, Good, OnlyEob, Carries, FirstMcu,
         SegmentLimit, Terminated;
    LastSizes(dec.Cfg(), dec.SavedState(), last);
    ghost var next := RestartIsThere(dec, mcus, segs, i, j, last, pad);
    RestartNumbers(i);
    ok := dec.CheckRestart();
    assert !dec.failed;
    if ok {
      i', last', pad' := i + 1, FreshLast(dec.scan), next;
      FreshIsOk(dec.Cfg());
    } else {
      i', last', pad' := i, last, [];
    }
  }

  /** A restart is due where segment i ends; its marker is there, and behind it segment i + 1. */
  lemma RestartIsThere(dec: S.ScanDecoder, mcus: seq<Segments.Mcu>, segs: seq<E.Seg>, i: nat, j: nat, last: seq<int>,
                       pad: seq<Bit>) returns (next: seq<Bit>)
    requires Decoding(dec, mcus, segs, i, j, last, pad) && j < |mcus| && Good(dec, mcus, segs)
    requires dec.restartInterval > 0 && dec.restartsToGo == 0
    ensures i + 1 < |segs| && FirstMcu(|mcus|, dec.restartInterval, i + 1) == j
    ensures SegmentLimit(|mcus|, dec.restartInterval, FirstMcu(|mcus|, dec.restartInterval, i)) == j
    ensures dec.reader.savedRest == pad && dec.eobrun == 0 && RestParts(dec.scan, last, mcus, j, j) == []
    ensures CarriesParts(dec.tabs, E.RunTbl(dec.scan), Src([], false), 0, [], [])
    ensures 1 <= dec.reader.end <= |dec.reader.input| && dec.reader.input[dec.reader.end - 1] == 0xD0 + i % 8
    ensures dec.reader.end == Offset(E.Datas(segs), i + 1) && |next| < 8
    ensures SegmentEnd(dec.reader.input, dec.reader.end) == Offset(E.Datas(segs), i + 1) + |Stuff(segs[i + 1].data)| + 2
    ensures RestCodable(dec.scan, FreshLast(dec.scan), mcus, j, SegmentLimit(|mcus|, dec.restartInterval, j))
    ensures Terminated(dec.reader.input, dec.reader.end)
    ensures CarriesParts(dec.tabs, E.RunTbl(dec.scan),
                         Src(BytesBits(Segment(dec.reader.input, dec.reader.end)), false), 0,
                         RestParts(dec.scan, FreshLast(dec.scan), mcus, j,
                                   SegmentLimit(|mcus|, dec.restartInterval, j)), next)
  {
    hide S.ScanDecoder.Ready, CarriesParts, RestParts, RestCodable, Covers, E.SegsOk, ScanBytes, Offset, Stuff, Segment,
         SegmentEnd, BytesBits, Scan.Ok, E.Datas, LastOk;
    var scan, r := dec.scan, dec.restartInterval;
    LastSizes(dec.Cfg(), dec.SavedState(), last);
    MoreSegments(scan, mcus, r, segs, i);
    EmptyRest(scan, last, mcus, j);
    OnlyPadding(dec.tabs, E.RunTbl(scan), dec.SavedSource(), dec.eobrun, pad);
    MarkerIsThere(E.Datas(segs), i, dec.reader.input);
    next := SegmentBits(dec.tabs, scan, mcus, r, segs, i + 1, dec.reader.input);
  }

  lemma RestartNumbers(i: nat)
    ensures (i % 8 + 1) % 8 == (i + 1) % 8
  {
  }

  lemma LastSizes(cfg: Config, st: State, last: seq<int>)
    requires LastOk(cfg, st, last)
    ensures |last| == cfg.scan.NumComps() == |st.last| == |cfg.limit|
  {
  }

  lemma GoodFacts(dec: S.ScanDecoder, mcus: seq<Segments.Mcu>, segs: seq<E.Seg>)
    requires Good(dec, mcus, segs)
    ensures E.HuffOk(dec.scan) && dec.scan.Ok() && McusOk(dec.scan, mcus) && dec.tabs.Ok()
  {
  }

  lemma FreshIsOk(cfg: Config)
    requires |cfg.limit| == cfg.scan.NumComps()
    ensures LastOk(cfg, State(0, seq(cfg.scan.NumComps(), _ => 0)), FreshLast(cfg.scan))
  {
  }

  /** One try at MCU j. If it fails the source has not delivered the segment in full. */
  method TryMcu(dec: S.ScanDecoder, comps: seq<nat>, blocks: seq<array<Coef>>, ghost origs: seq<seq<Coef>>,
                ghost mcus: seq<Segments.Mcu>, ghost segs: seq<E.Seg>,
                ghost i: nat, ghost j: nat, ghost last: seq<int>, ghost pad: seq<Bit>)
    returns (ok: bool, ghost i': nat, ghost last': seq<int>, ghost pad': seq<Bit>)
    requires Decoding(dec, mcus, segs, i, j, last, pad) && j < |mcus| && Good(dec, mcus, segs)
    requires dec.BlocksFit(comps, blocks) && McuFits(dec.Cfg(), comps, mcus[j], origs)
    requires dec.Cfg().Ok() && AllPrior(dec.Cfg(), mcus[j], origs, 0)
    requires LeftBehind(dec, comps, blocks, origs)
    modifies dec, dec.reader, blocks
    ensures dec.reader.avail == old(dec.reader.avail)
    ensures !ok ==> Decoding(dec, mcus, segs, i', j, last', pad') && LeftBehind(dec, comps, blocks, origs) &&
                    dec.reader.avail < dec.reader.end
    ensures ok ==> Decoding(dec, mcus, segs, i', j + 1, last', pad')
    ensures ok ==> forall b :: 0 <= b < |blocks| ==>
              DecodedWanted(dec.Cfg(), comps[b], origs[b], mcus[j][b].block, blocks[b][..])
  {
    hide S.ScanDecoder.Ready, Config.Ok, CarriesParts, RestParts, RestCodable, Scan.Ok, LastOk, Good, Carries, S.Tried;
    hide DecodedMcu, DecodedWanted, Parts, LastAfter, AllCodable, AllPrior, ScanBytes, Offset;
    ok, i', last', pad' := PassRestart(dec, mcus, segs, i, j, last, pad);
    if ok {
      ok, last' := AttemptMcu(dec, comps, blocks, origs, mcus, segs, i', j, last', pad');
    }
  }

  method AttemptMcu(dec: S.ScanDecoder, comps: seq<nat>, blocks: seq<array<Coef>>, ghost origs: seq<seq<Coef>>,
                    ghost mcus: seq<Segments.Mcu>, ghost segs: seq<E.Seg>,
                    ghost i: nat, ghost j: nat, ghost last: seq<int>, ghost pad: seq<Bit>)
    returns (ok: bool, ghost last': seq<int>)
    requires Decoding(dec, mcus, segs, i, j, last, pad) && Good(dec, mcus, segs)
    requires j < SegmentLimit(|mcus|, dec.restartInterval, FirstMcu(|mcus|, dec.restartInterval, i)) && !Due(dec)
    requires dec.BlocksFit(comps, blocks) && McuFits(dec.Cfg(), comps, mcus[j], origs)
    requires dec.Cfg().Ok() && AllPrior(dec.Cfg(), mcus[j], origs, 0)
    requires LeftBehind(dec, comps, blocks, origs)
    modifies dec, dec.reader, blocks
    ensures dec.reader.avail == old(dec.reader.avail)
    ensures !ok ==> Decoding(dec, mcus, segs, i, j, last', pad) && LeftBehind(dec, comps, blocks, origs) &&
                    dec.reader.avail < dec.reader.end
    ensures ok ==> Decoding(dec, mcus, segs, i, j + 1, last', pad)
    ensures ok ==> forall b :: 0 <= b < |blocks| ==>
              DecodedWanted(dec.Cfg(), comps[b], origs[b], mcus[j][b].block, blocks[b][..])
  {
    hide S.ScanDecoder.Ready, Config.Ok, CarriesParts, RestParts, RestCodable, Scan.Ok, LastOk, Good, Carries, S.Tried;
    hide DecodedMcu, DecodedWanted, Parts, LastAfter, AllCodable, AllPrior, ScanBytes, Offset;
    ghost var e := SegmentLimit(|mcus|, dec.restartInterval, FirstMcu(|mcus|, dec.restartInterval, i));
    LastSizes(dec.Cfg(), dec.SavedState(), last);
    GoodFacts(dec, mcus, segs);
    last' := McuAhead(dec.Cfg(), comps, dec.SavedSource(), dec.SavedState(), last, mcus, j, e, origs, pad);
    if S.Contents(blocks) == origs {
      NothingTried(dec.Cfg(), comps, dec.SavedSource(), dec.SavedState(), origs);
    }
    ok := dec.DecodeBlocks(comps, blocks, origs);
    if !ok {
      last' := last;
    }
  }

  /** The MCU that comes next, and what is left after it. */
  lemma McuAhead(cfg: Config, comps: seq<nat>, s: Src, st: State, last: seq<int>, mcus: seq<Segments.Mcu>, j: nat,
                 e: nat,
                 origs: seq<seq<Coef>>, pad: seq<Bit>) returns (next: seq<int>)
    requires cfg.Ok() && cfg.scan.Ok() && McusOk(cfg.scan, mcus) && j < e <= |mcus| && LastOk(cfg, st, last)
    requires |last| == cfg.scan.NumComps() && RestCodable(cfg.scan, last, mcus, j, e)
    requires McuFits(cfg, comps, mcus[j], origs) && AllPrior(cfg, mcus[j], origs, 0)
    requires CarriesParts(cfg.tabs, E.RunTbl(cfg.scan), s, st.eobrun, RestParts(cfg.scan, last, mcus, j, e), pad)
    ensures |next| == |last| && (!cfg.scan.UsesDc() ==> next == last) && RestCodable(cfg.scan, next, mcus, j + 1, e)
    ensures BlocksOk(cfg, comps, st, origs)
    ensures var m := DecodedMcu(cfg, comps, s, st, origs);
            && CarriesParts(cfg.tabs, E.RunTbl(cfg.scan), m.src, m.st.eobrun,
                            RestParts(cfg.scan, next, mcus, j + 1, e), pad)
            && LastOk(cfg, m.st, next)
            && forall b :: 0 <= b < |mcus[j]| ==> DecodedWanted(cfg, comps[b], origs[b], mcus[j][b].block, m.blocks[b])
  {
    hide Config.Ok, CarriesParts, RestParts, RestCodable, Scan.Ok, LastOk, DecodedMcu, DecodedWanted, Parts, LastAfter,
         AllCodable, AllPrior;
    FitsFacts(cfg, comps, mcus[j], origs);
    NextMcu(cfg.scan, last, mcus, j, e);
    if !cfg.scan.UsesDc() {
      ConstantLast(cfg.scan, last, mcus[j]);
    }
    next := LastAfter(cfg.scan, last, mcus[j]);
    McuBack(cfg, comps, s, st, last, mcus[j], origs, RestParts(cfg.scan, next, mcus, j + 1, e), pad);
  }

  lemma FitsFacts(cfg: Config, comps: seq<nat>, items: seq<Item>, blocks: seq<seq<Coef>>)
    requires McuFits(cfg, comps, items, blocks)
    ensures ItemsOk(cfg.scan, items)
  {
  }

  /** The blocks are as they were, or as an earlier try at the MCU left them. */
  ghost predicate LeftBehind(dec: S.ScanDecoder, comps: seq<nat>, blocks: seq<array<Coef>>, origs: seq<seq<Coef>>)
    reads dec, dec.reader, blocks
  {
    || S.Contents(blocks) == origs
    || (!Due(dec) && dec.Cfg().Ok() && BlocksOk(dec.Cfg(), comps, dec.SavedState(), origs)
        && S.Tried(dec.Cfg(), comps, dec.SavedSource(), dec.SavedState(), S.Contents(blocks), origs))
  }

  lemma NothingTried(cfg: Config, comps: seq<nat>, s: Src, st: State, origs: seq<seq<Coef>>)
    requires cfg.Ok() && BlocksOk(cfg, comps, st, origs)
    ensures S.Tried(cfg, comps, s, st, origs, origs)
  {
    hide DecodedMcu, BlockResult, RefineBlock;
  }

  lemma EndWithin(dec: S.ScanDecoder)
    requires dec.Valid()
    ensures dec.reader.end <= |dec.reader.input|
  {
    hide Segment;
  }

  /** The source delivers the next chunk; after the last one everything that is left. */
  method Deliver(dec: S.ScanDecoder, chunks: seq<nat>, c: nat) returns (c': nat)
    requires c <= |chunks|
    modifies dec.reader`avail
    ensures c <= c' <= |chunks|
    ensures if c < |chunks| then c' > c else c' == c && dec.reader.avail >= |dec.reader.input|
  {
    c' := c;
    if c < |chunks| {
      dec.reader.Deliver(chunks[c]);
      c' := c + 1;
    } else {
      dec.reader.Deliver(|dec.reader.input|);
    }
  }

  /** Try again and again to decode MCU j, waiting for data in between. */
  method DecodeNext(dec: S.ScanDecoder, comps: seq<nat>, blocks: seq<array<Coef>>, chunks: seq<nat>, c0: nat,
                    ghost mcus: seq<Segments.Mcu>, ghost segs: seq<E.Seg>,
                    ghost i0: nat, ghost j: nat, ghost last0: seq<int>, ghost pad0: seq<Bit>)
    returns (c: nat, ghost i: nat, ghost last: seq<int>, ghost pad: seq<Bit>)
    requires Decoding(dec, mcus, segs, i0, j, last0, pad0) && j < |mcus| && Good(dec, mcus, segs) && c0 <= |chunks|
    requires dec.BlocksFit(comps, blocks) && McuFits(dec.Cfg(), comps, mcus[j], S.Contents(blocks))
    requires dec.Cfg().Ok() && AllPrior(dec.Cfg(), mcus[j], S.Contents(blocks), 0)
    modifies dec, dec.reader, blocks
    ensures c <= |chunks| && Decoding(dec, mcus, segs, i, j + 1, last, pad)
    ensures forall b :: 0 <= b < |blocks| ==>
            DecodedWanted(dec.Cfg(), comps[b], old(blocks[b][..]), mcus[j][b].block, blocks[b][..])
  {
    hide S.ScanDecoder.Ready, Config.Ok, CarriesParts, RestParts, RestCodable, Scan.Ok, LastOk, Good, S.Tried,
         DecodedWanted, AllPrior, ScanBytes, Offset, BlocksOk;
    ghost var origs, length := S.Contents(blocks), |dec.reader.input|;
    c, i, last, pad := c0, i0, last0, pad0;
    var ok := false;
    while !ok
      invariant c <= |chunks|
      invariant !ok ==> Decoding(dec, mcus, segs, i, j, last, pad) && LeftBehind(dec, comps, blocks, origs)
      invariant ok ==> Decoding(dec, mcus, segs, i, j + 1, last, pad)
      invariant ok ==> forall b :: 0 <= b < |blocks| ==>
                DecodedWanted(dec.Cfg(), comps[b], origs[b], mcus[j][b].block, blocks[b][..])
      decreases !ok, |chunks| - c, dec.reader.avail < length
    {
      EndWithin(dec);
      ok, i, last, pad := TryMcu(dec, comps, blocks, origs, mcus, segs, i, j, last, pad);
      if !ok {
        EndWithin(dec);
        c := Deliver(dec, chunks, c);
      }
    }
  }

  /** AC scans have one block to an MCU. */
  predicate McuSizesOk(scan: Scan, mcus: seq<Segments.Mcu>) {
    scan.kind.AcFirst? || scan.kind.AcRefine? ==> forall j :: 0 <= j < |mcus| ==> |mcus[j]| == 1
  }

  lemma NextTarget(dec: S.ScanDecoder, mcus: seq<Segments.Mcu>, comps: seq<seq<nat>>, targets: seq<seq<array<Coef>>>,
                   j: nat)
    requires dec.scan.Ok() && dec.Cfg().Ok() && TargetsOk(dec.scan, mcus, comps, targets)
    requires McuSizesOk(dec.scan, mcus) && j < |mcus|
    requires forall b :: 0 <= b < |mcus[j]| ==> Prior(dec.scan, targets[j][b][..], mcus[j][b].block)
    ensures dec.BlocksFit(comps[j], targets[j]) && McuFits(dec.Cfg(), comps[j], mcus[j], S.Contents(targets[j]))
    ensures AllPrior(dec.Cfg(), mcus[j], S.Contents(targets[j]), 0)
  {
    hide Prior, Config.Ok;
  }

  /** Decode a scan MCU by MCU, whatever the chunks in which its bytes are delivered. */
  method DecodeScan(dec: S.ScanDecoder, comps: seq<seq<nat>>, targets: seq<seq<array<Coef>>>, chunks: seq<nat>,
                    ghost mcus: seq<Segments.Mcu>, ghost segs: seq<E.Seg>)
    requires dec.Valid() && !dec.failed && Good(dec, mcus, segs) && McuSizesOk(dec.scan, mcus)
    requires dec.restartsToGo == dec.restartInterval && dec.nextRestartNum == 0
    requires dec.SavedState() == State(0, FreshLast(dec.scan)) && !dec.reader.insufficient
    requires dec.reader.input == ScanBytes(E.Datas(segs)) + [0xFF, 0xD9] && Terminated(dec.reader.input, 0)
    requires dec.reader.end == SegmentEnd(dec.reader.input, 0)
    requires dec.reader.savedRest == BytesBits(Segment(dec.reader.input, 0))
    requires TargetsOk(dec.scan, mcus, comps, targets) && PriorsOk(dec.scan, mcus, targets)
    modifies dec, dec.reader, Arrays(targets)
    ensures dec.Cfg().Ok() && !dec.failed
    ensures forall j, b :: 0 <= j < |mcus| && 0 <= b < |mcus[j]| ==>
              DecodedWanted(dec.Cfg(), comps[j][b], old(targets[j][b][..]), mcus[j][b].block, targets[j][b][..])
  {
    hide S.ScanDecoder.Valid, Config.Ok, Decoding, Scan.Ok, Good, DecodedWanted, AllPrior, ScanBytes, Prior, Segment,
         SegmentEnd, McuSizesOk, S.ScanDecoder.BlocksFit, McuFits;
    ghost var i := 0;
    ghost var last, pad := FirstMcuAwaits(dec, mcus, segs);
    var c: nat := 0;
    for j := 0 to |targets|
      invariant c <= |chunks| && Decoding(dec, mcus, segs, i, j, last, pad)
      invariant forall k, b :: 0 <= k < j && 0 <= b < |mcus[k]| ==>
                  DecodedWanted(dec.Cfg(), comps[k][b], old(targets[k][b][..]), mcus[k][b].block, targets[k][b][..])
      invariant forall k, b :: j <= k < |mcus| && 0 <= b < |mcus[k]| ==> targets[k][b][..] == old(targets[k][b][..])
    {
      NotFailed(dec, mcus, segs, i, j, last, pad);
      NextTarget(dec, mcus, comps, targets, j);
      c, i, last, pad := DecodeNext(dec, comps[j], targets[j], chunks, c, mcus, segs, i, j, last, pad);
    }
    NotFailed(dec, mcus, segs, i, |targets|, last, pad);
  }

  lemma NotFailed(dec: S.ScanDecoder, mcus: seq<Segments.Mcu>, segs: seq<E.Seg>, i: nat, j: nat, last: seq<int>,
                  pad: seq<Bit>)
    requires Decoding(dec, mcus, segs, i, j, last, pad)
    ensures !dec.failed && dec.Cfg().Ok() && dec.scan.Ok()
  {
  }

  lemma FirstMcuAwaits(dec: S.ScanDecoder, mcus: seq<Segments.Mcu>, segs: seq<E.Seg>)
    returns (last: seq<int>, pad: seq<Bit>)
    requires dec.Valid() && !dec.failed && Good(dec, mcus, segs)
    requires dec.restartsToGo == dec.restartInterval && dec.nextRestartNum == 0
    requires dec.SavedState() == State(0, FreshLast(dec.scan)) && !dec.reader.insufficient
    requires dec.reader.input == ScanBytes(E.Datas(segs)) + [0xFF, 0xD9] && Terminated(dec.reader.input, 0)
    requires dec.reader.end == SegmentEnd(dec.reader.input, 0)
    requires dec.reader.savedRest == BytesBits(Segment(dec.reader.input, 0))
    ensures Decoding(dec, mcus, segs, 0, 0, last, pad) && dec.Cfg().Ok()
  {
    hide CarriesParts, RestParts, RestCodable, E.SegsOk, ScanBytes, Stuff, Segment, SegmentEnd, BytesBits, E.Datas,
         Scan.Ok, Offset;
    FirstOffset(E.Datas(segs));
    last := FreshLast(dec.scan);
    pad := SegmentBits(dec.tabs, dec.scan, mcus, dec.restartInterval, segs, 0, dec.reader.input);
    FreshIsOk(dec.Cfg());
  }

  // Table derivation at the start of a scan.

  /** The tables that the scan uses have the right shape, and make good codes. */
  predicate TablesFit(scan: Scan, tabs: Tabs)
    requires E.HuffOk(scan)
  {
    && tabs.Ok()
    && (scan.UsesDc() ==> forall c :: 0 <= c < scan.NumComps() ==> tabs.dc[scan.dcTbl[c]].Ok())
    && (scan.UsesAc() ==> forall c :: 0 <= c < scan.NumComps() ==> tabs.ac[scan.acTbl[c]].Ok())
  }

  ghost predicate TableGood(h: HuffCodes.HuffTbl, max: nat) {
    h.Ok() && HuffCodes.Legal(h.bits) && Assignable(h, max, CodeCounts.Codes(h.bits, 16))
  }

  ghost predicate TablesGood(scan: Scan, tabs: Tabs)
    requires E.HuffOk(scan) && TablesFit(scan, tabs)
  {
    && (scan.UsesDc() ==> forall c :: 0 <= c < scan.NumComps() ==> TableGood(tabs.dc[scan.dcTbl[c]], 15))
    && (scan.UsesAc() ==> forall c :: 0 <= c < scan.NumComps() ==> TableGood(tabs.ac[scan.acTbl[c]], 255))
  }

  /** Derive the encoder's tables; the same table may be derived more than once. */
  method DeriveEncoderTables(scan: Scan, tabs: Tabs) returns (ok: bool, dc: seq<CDerived>, ac: seq<CDerived>)
    requires E.HuffOk(scan) && TablesFit(scan, tabs)
    ensures ok <==> TablesGood(scan, tabs)
    ensures ok ==> E.TablesOk(scan, false, tabs, dc, ac)
  {
    hide TableGood, HuffTokens.Good, Encodes, OrderOk;
    dc, ac := seq(NUM_HUFF_TBLS, _ => CDerived([], [])), seq(NUM_HUFF_TBLS, _ => CDerived([], []));
    ok := true;
    for c := 0 to scan.NumComps()
      invariant |dc| == |ac| == NUM_HUFF_TBLS && ok
      invariant scan.UsesDc() ==> forall d :: 0 <= d < c ==>
                TableGood(tabs.dc[scan.dcTbl[d]], 15) && E.TableOk(false, tabs, dc, true, scan.dcTbl[d])
      invariant scan.UsesAc() ==> forall d :: 0 <= d < c ==>
                TableGood(tabs.ac[scan.acTbl[d]], 255) && E.TableOk(false, tabs, ac, false, scan.acTbl[d])
    {
      if scan.UsesDc() {
        var t;
        ok, t := MakeGoodTable(tabs.dc[scan.dcTbl[c]], true);
        if !ok {
          return;
        }
        dc := dc[scan.dcTbl[c] := t];
      }
      if scan.UsesAc() {
        var t;
        ok, t := MakeGoodTable(tabs.ac[scan.acTbl[c]], false);
        if !ok {
          return;
        }
        ac := ac[scan.acTbl[c] := t];
      }
    }
  }

  method MakeGoodTable(h: HuffCodes.HuffTbl, isDC: bool) returns (ok: bool, t: CDerived)
    requires h.Ok()
    ensures ok <==> TableGood(h, if isDC then 15 else 255)
    ensures ok ==> HuffTokens.Good(h) && Encodes(h, t)
  {
    ok, t := MakeCDerived(h, isDC);
  }

  /** Derive the decoder's tables. */
  method DeriveDecoderTables(scan: Scan, tabs: Tabs) returns (ok: bool, dc: seq<DDerived>, ac: seq<DDerived>)
    requires E.HuffOk(scan) && TablesFit(scan, tabs)
    ensures TablesGood(scan, tabs) ==> ok
    ensures |dc| == |ac| == NUM_HUFF_TBLS
    ensures ok && scan.UsesDc() ==> forall c :: 0 <= c < scan.NumComps() ==>
              DcTable(tabs.dc[scan.dcTbl[c]]) && Decodes(dc[scan.dcTbl[c]])
                && dc[scan.dcTbl[c]].pub == tabs.dc[scan.dcTbl[c]]
    ensures ok && scan.UsesAc() ==> forall c :: 0 <= c < scan.NumComps() ==>
              Decodable(tabs.ac[scan.acTbl[c]]) && Decodes(ac[scan.acTbl[c]])
                && ac[scan.acTbl[c]].pub == tabs.ac[scan.acTbl[c]]
  {
    hide TableGood, Decodes, Decodable, DcTable, OrderOk;
    var none := DDerived(HuffCodes.HuffTbl([], []), [], [], [], []);
    dc, ac := seq(NUM_HUFF_TBLS, _ => none), seq(NUM_HUFF_TBLS, _ => none);
    ok := true;
    for c := 0 to scan.NumComps()
      invariant |dc| == |ac| == NUM_HUFF_TBLS && ok
      invariant scan.UsesDc() ==> forall d :: 0 <= d < c ==>
                  DcTable(tabs.dc[scan.dcTbl[d]]) && Decodes(dc[scan.dcTbl[d]])
                    && dc[scan.dcTbl[d]].pub == tabs.dc[scan.dcTbl[d]]
      invariant scan.UsesAc() ==> forall d :: 0 <= d < c ==>
                  Decodable(tabs.ac[scan.acTbl[d]]) && Decodes(ac[scan.acTbl[d]])
                    && ac[scan.acTbl[d]].pub == tabs.ac[scan.acTbl[d]]
    {
      if scan.UsesDc() {
        var t;
        ok, t := MakeDcTable(tabs.dc[scan.dcTbl[c]]);
        if !ok {
          return;
        }
        dc := dc[scan.dcTbl[c] := t];
      }
      if scan.UsesAc() {
        var t;
        ok, t := MakeAcTable(tabs.ac[scan.acTbl[c]]);
        if !ok {
          return;
        }
        ac := ac[scan.acTbl[c] := t];
      }
    }
  }

  method MakeDcTable(h: HuffCodes.HuffTbl) returns (ok: bool, t: DDerived)
    requires h.Ok()
    ensures TableGood(h, 15) ==> ok
    ensures ok ==> DcTable(h) && Decodes(t) && t.pub == h
  {
    hide Decodes;
    ok, t := MakeDDerived(h, true);
    if ok {
      forall s
        ensures HuffCodes.Symbol(h, s) <= 15
      {
        SmallSymbol(h, s);
      }
    }
  }

  lemma SmallSymbol(h: HuffCodes.HuffTbl, s: seq<Bit>)
    requires Decodable(h) && forall p :: 0 <= p < CodeCounts.Codes(h.bits, 16) ==> p < 256 && h.huffval[p] <= 15
    ensures HuffCodes.Symbol(h, s) <= 15
  {
    hide HuffCodes.MatchLength, HuffCodes.IndexOf;
    if HuffCodes.MatchLength(h.bits, s) <= 16 {
      HuffCodes.MatchedNumber(h.bits, s);
    }
  }

  method MakeAcTable(h: HuffCodes.HuffTbl) returns (ok: bool, t: DDerived)
    requires h.Ok()
    ensures TableGood(h, 255) ==> ok
    ensures ok ==> Decodable(h) && Decodes(t) && t.pub == h
  {
    hide Decodes;
    ok, t := MakeDDerived(h, false);
  }

  /** Huffman coding a scan and decoding it gives back what was coded: for every scan, every
      restart interval, all tables that have the codes needed, and every chunking of the input. */
  method ScanRoundTrip(scan: Scan, tabs: Tabs, limit: seq<nat>, r: nat, mcus: seq<Segments.Mcu>, comps: seq<seq<nat>>,
                       targets: seq<seq<array<Coef>>>, chunks: seq<nat>)
    returns (ok: bool)
    requires E.HuffOk(scan) && TablesFit(scan, tabs) && McusOk(scan, mcus) && McuSizesOk(scan, mcus)
    requires |limit| == scan.NumComps() && forall c :: 0 <= c < scan.NumComps() ==> limit[c] <= scan.se + 1
    requires ScanCodable(scan, mcus, r) && ScanEncodable(scan, tabs, mcus, r)
    requires TargetsOk(scan, mcus, comps, targets) && PriorsOk(scan, mcus, targets)
    modifies Arrays(targets)
    ensures ok <==> TablesGood(scan, tabs)
    ensures ok ==> Config(scan, tabs, limit).Ok() && forall j, b :: 0 <= j < |mcus| && 0 <= b < |mcus[j]| ==>
              DecodedWanted(Config(scan, tabs, limit), comps[j][b], old(targets[j][b][..]),
                            mcus[j][b].block, targets[j][b][..])
  {
    hide TablesGood, E.ScanEncoder.Valid, S.ScanDecoder.Valid, ScanCodable, ScanEncodable, Covers, E.SegsOk, ScanBytes,
         Segment, SegmentEnd, DecodedWanted, Prior, E.Datas, E.TablesOk, Decodes, DcTable, Decodable, BytesBits,
         Scan.Ok, McuSizesOk, E.CountsMatch;
    var dcC, acC;
    ok, dcC, acC := DeriveEncoderTables(scan, tabs);
    if !ok {
      return;
    }
    var enc := new E.ScanEncoder(scan, false, r, dcC, acC, tabs);
    ghost var segs := EncodeScan(enc, mcus);
    var bytes := enc.writer.output;
    var dcD, acD;
    ok, dcD, acD := DeriveDecoderTables(scan, tabs);
    var dec := new S.ScanDecoder(scan, r, limit, dcD, acD, bytes, tabs);
    DecodeScan(dec, comps, targets, chunks, mcus, segs);
  }
}
