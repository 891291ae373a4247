/** Huffman coding optimized for a scan: a first pass counts the symbols, tables are made for
    the counts, and a second pass finds a code for every symbol in them. */
module HuffStatistics {
  import opened Bits
  import opened BitStrings
  import opened Scans
  import opened Segments
  import opened CodeCounts
  import opened HuffCodes
  import opened HuffTables
  import opened HuffTokens
  import opened HuffModel
  import opened HuffSymbolCount
  import E = HuffScanEncoder
  import R = HuffRoundTrip
  import O = HuffOptimal
  import P = HuffProcedure
  import D = HuffDecoding
  import I = HuffInverse

  /** The symbols a scan may have: DC categories up to 11, AC categories up to 10. */
  ghost predicate Proper(scan: Scan, t: Token)
    requires E.HuffOk(scan)
  {
    match t
    case Sym(dc, tbl, symbol) =>
      if dc then scan.UsesDc() && symbol <= 11 && tbl in scan.dcTbl
      else scan.UsesAc() && symbol % 16 <= 10 && tbl in scan.acTbl
    case Raw(_, size) => 1 <= size <= 16
  }

  ghost predicate AllProper(scan: Scan, ts: seq<Token>)
    requires E.HuffOk(scan)
  {
    forall i :: 0 <= i < |ts| ==> Proper(scan, ts[i])
  }

  lemma ProperFront(scan: Scan, t: Token, ts: seq<Token>)
    requires E.HuffOk(scan)
    ensures AllProper(scan, [t] + ts) <==> Proper(scan, t) && AllProper(scan, ts)
  {
    hide Proper;
    if AllProper(scan, [t] + ts) {
      assert ([t] + ts)[0] == t;
      forall i | 0 <= i < |ts|
        ensures Proper(scan, ts[i])
      {
        assert ([t] + ts)[i + 1] == ts[i];
      }
    }
  }

  lemma {:induction false} ProperRaw(scan: Scan, b: seq<Bit>, rest: seq<Token>)
    requires E.HuffOk(scan) && AllProper(scan, rest)
    ensures AllProper(scan, RawBits(b, rest))
  {
    hide E.HuffOk, AllProper;
    if b == [] {
    } else {
      ProperRaw(scan, b[1..], rest);
      ProperFront(scan, Raw(b[0], 1), RawBits(b[1..], rest));
    }
  }

  lemma {:induction false} ProperAc(scan: Scan, tbl: nat, zz: seq<int>, ke: nat, k: nat, rest: seq<Token>)
    requires E.HuffOk(scan) && scan.UsesAc() && tbl in scan.acTbl && AllProper(scan, rest)
    requires ke < |zz| && (k <= ke ==> zz[ke] != 0) && InRange(zz, k, ke)
    ensures AllProper(scan, AcFrom(tbl, zz, ke, k, rest))
    decreases ke + 1 - k
  {
    hide AllProper, E.HuffOk, BitCount, AcFrom, InRange;
    if k > ke {
      I.EndOfAc(tbl, zz, ke, k, rest);
    } else {
      var j := NextNonzero(zz, k, ke);
      hide NextNonzero;
      UnfoldAcFrom(tbl, zz, ke, k, rest);
      I.InRangeAt(zz, k, ke, j);
      ShorterRange(zz, k, ke);
      if j - k >= 16 {
        ProperAc(scan, tbl, zz, ke, k + 16, rest);
        ProperFront(scan, Sym(false, tbl, 0xF0), AcFrom(tbl, zz, ke, k + 16, rest));
      } else {
        ProperAc(scan, tbl, zz, ke, j + 1, rest);
        E.NoBits(Abs(zz[j]));
        ProperFront(scan, ValueBits(zz[j]), AcFrom(tbl, zz, ke, j + 1, rest));
        I.Digits(j - k, BitCount(Abs(zz[j])));
        ProperFront(scan, Sym(false, tbl, (j - k) * 16 + BitCount(Abs(zz[j]))),
                    [ValueBits(zz[j])] + AcFrom(tbl, zz, ke, j + 1, rest));
      }
    }
  }

  lemma ShorterRange(zz: seq<int>, k: nat, ke: nat)
    requires ke < |zz| && InRange(zz, k, ke)
    ensures forall m: nat :: m >= k ==> InRange(zz, m, ke)
  {
    hide BitCount;
  }

  lemma {:induction false} ProperRefine(scan: Scan, tbl: nat, zz: seq<int>, eob: nat, k: nat, rest: seq<Token>)
    requires E.HuffOk(scan) && scan.UsesAc() && tbl in scan.acTbl && AllProper(scan, rest)
    requires eob < |zz| && (k <= eob ==> Abs(zz[eob]) == 1)
    ensures AllProper(scan, RefineFrom(tbl, zz, eob, k, rest))
    decreases eob + 1 - k
  {
    hide AllProper, E.HuffOk, RefineFrom, RawBits, Corrections, ZeroCount;
    if k > eob {
      I.EndOfRefine(tbl, zz, eob, k, rest);
    } else {
      var j := RunEnd(zz, eob, k, 0);
      hide RunEnd;
      UnfoldRefineFrom(tbl, zz, eob, k, rest);
      ProperRefine(scan, tbl, zz, eob, j + 1, rest);
      var next := RawBits(Corrections(zz, k, j), RefineFrom(tbl, zz, eob, j + 1, rest));
      ProperRaw(scan, Corrections(zz, k, j), RefineFrom(tbl, zz, eob, j + 1, rest));
      if zz[j] == 0 {
        ProperFront(scan, Sym(false, tbl, 0xF0), next);
      } else {
        var sign := Raw(if zz[j] < 0 then 0 else 1, 1);
        ProperFront(scan, sign, next);
        I.Digits(ZeroCount(zz, k, j), 1);
        ProperFront(scan, Sym(false, tbl, ZeroCount(zz, k, j) * 16 + 1), [sign] + next);
      }
    }
  }

  lemma ProperDc(scan: Scan, tbl: nat, diff: int, rest: seq<Token>)
    requires E.HuffOk(scan) && scan.UsesDc() && tbl in scan.dcTbl && AllProper(scan, rest)
    requires BitCount(Abs(diff)) <= MAX_COEF_BITS + 1
    ensures AllProper(scan, DcTokens(tbl, diff, rest))
  {
    hide AllProper, E.HuffOk, BitCount;
    E.NoBits(Abs(diff));
    if diff == 0 {
      ProperFront(scan, Sym(true, tbl, 0), rest);
    } else {
      ProperFront(scan, ValueBits(diff), rest);
      ProperFront(scan, Sym(true, tbl, BitCount(Abs(diff))), [ValueBits(diff)] + rest);
    }
  }

  lemma ProperEobRun(scan: Scan, tbl: nat, n: nat, rest: seq<Token>)
    requires E.HuffOk(scan) && scan.UsesAc() && tbl in scan.acTbl && AllProper(scan, rest) && 1 <= n <= MAX_EOBRUN
    ensures AllProper(scan, EobRun(tbl, n, rest))
  {
    hide AllProper, E.HuffOk, BitCount, EobRun;
    UnfoldEobRun(tbl, n, rest);
    var nbits := BitCount(n) - 1;
    ProperFront(scan, Raw(n, nbits), rest);
    I.Digits(nbits, 0);
    ProperFront(scan, Sym(false, tbl, 16 * nbits), if nbits > 0 then [Raw(n, nbits)] + rest else rest);
  }

  /** The explicit tokens of a block. */
  lemma ProperPart(scan: Scan, last: int, it: Item)
    requires E.HuffOk(scan) && it.comp < scan.NumComps() && Codable(scan, last, it.block)
    ensures AllProper(scan, BlockPart(scan, last, it).explicit)
    ensures BlockPart(scan, last, it).eob ==> scan.kind.AcFirst? || scan.kind.AcRefine?
  {
    hide AllProper, AcFrom, RefineFrom, InRange, BitCount, Zigzag, DcTokens, OrderOk;
    var zz := Zigzag(scan.order, it.block, scan.al);
    var dc, ac := scan.dcTbl[it.comp], scan.acTbl[it.comp];
    NothingProper(scan);
    match scan.kind
    case Sequential =>
      ProperAcBlock(scan, ac, zz, scan.se);
      ProperDc(scan, dc, it.block[0] - last, AcBlock(ac, zz, scan.se, []));
    case DcFirst =>
      ProperDc(scan, dc, DcValue(scan, it.block) - last, []);
    case DcRefine =>
      var bit := Raw(DcValue(scan, it.block), 1);
      ProperFront(scan, bit, []);
      assert [bit] + [] == [bit];
    case AcFirst =>
      var ke := LastNonzero(zz, scan.se);
      if ke >= scan.ss {
        I.NarrowRange(zz, scan.ss, ke, scan.se);
        ProperAc(scan, ac, zz, ke, scan.ss, []);
      }
    case AcRefine =>
      var eob := LastNew(zz, scan.ss, scan.se);
      if eob != 0 {
        ProperRefine(scan, ac, zz, eob, scan.ss, []);
      }
  }

  lemma NothingProper(scan: Scan)
    requires E.HuffOk(scan)
    ensures AllProper(scan, [])
  {
  }

  lemma ProperAcBlock(scan: Scan, ac: nat, zz: seq<int>, se: nat)
    requires E.HuffOk(scan) && scan.kind == Sequential && se == scan.se
    requires ac in scan.acTbl && |zz| == 64 && InRange(zz, 1, se)
    ensures AllProper(scan, AcBlock(ac, zz, se, []))
  {
    hide AllProper, AcFrom, InRange, OrderOk;
    NothingProper(scan);
    var ke := LastNonzero(zz, se);
    if ke < se {
      ProperFront(scan, Sym(false, ac, 0), []);
    }
    if ke > 0 {
      I.NarrowRange(zz, 1, ke, se);
      ProperAc(scan, ac, zz, ke, 1, EndOfBlock(ac, ke < se, []));
    }
  }

  lemma ProperConcat(scan: Scan, a: seq<Token>, b: seq<Token>)
    requires E.HuffOk(scan) && AllProper(scan, a) && AllProper(scan, b)
    ensures AllProper(scan, a + b)
  {
    hide Proper, E.HuffOk;
  }

  ghost predicate PartsProper(scan: Scan, parts: seq<Part>)
    requires E.HuffOk(scan)
  {
    forall i :: 0 <= i < |parts| ==> AllProper(scan, parts[i].explicit) && (parts[i].eob ==> scan.UsesAc())
  }

  /** The whole stream, runs included. */
  lemma {:induction false} ProperStream(scan: Scan, parts: seq<Part>)
    requires E.HuffOk(scan) && PartsProper(scan, parts)
    ensures AllProper(scan, Stream(E.RunTbl(scan), parts))
    decreases |parts|, 0
  {
    hide AllProper, E.HuffOk, EobRun, Within;
    var tbl := E.RunTbl(scan);
    if parts == [] {
      NothingProper(scan);
    } else {
      PartsTail(scan, parts);
      if parts[0].eob {
        ProperPending(scan, parts[0].tail, parts[1..]);
        ProperConcat(scan, parts[0].explicit, Pending(tbl, 1, parts[0].tail, parts[1..]));
      } else {
        ProperStream(scan, parts[1..]);
        ProperConcat(scan, parts[0].explicit, Stream(tbl, parts[1..]));
      }
    }
  }

  lemma PartsTail(scan: Scan, parts: seq<Part>)
    requires E.HuffOk(scan) && PartsProper(scan, parts) && parts != []
    ensures PartsProper(scan, parts[1..]) && AllProper(scan, parts[0].explicit) && (parts[0].eob ==> scan.UsesAc())
  {
    hide AllProper, E.HuffOk;
  }

  lemma {:induction false} ProperPending(scan: Scan, be: seq<Bit>, parts: seq<Part>)
    requires E.HuffOk(scan) && PartsProper(scan, parts) && scan.UsesAc()
    ensures AllProper(scan, Pending(E.RunTbl(scan), 1, be, parts))
    decreases |parts|, 2
  {
    hide AllProper, EobRun, Within, RawBits, OrderOk, PartsProper;
    var tbl := E.RunTbl(scan);
    var m := RunMore(1, |be|, parts);
    ProperWithin(scan, m, parts);
    ProperRaw(scan, be, Within(tbl, m, parts));
    ProperEobRun(scan, tbl, 1 + m, RawBits(be, Within(tbl, m, parts)));
  }

  lemma {:induction false} ProperWithin(scan: Scan, e: nat, parts: seq<Part>)
    requires E.HuffOk(scan) && PartsProper(scan, parts) && e <= |parts|
    ensures AllProper(scan, Within(E.RunTbl(scan), e, parts))
    decreases |parts|, 1
  {
    hide AllProper, E.HuffOk, Stream, RawBits;
    if e == 0 {
      ProperStream(scan, parts);
    } else {
      PartsTail(scan, parts);
      ProperWithin(scan, e - 1, parts[1..]);
      ProperRaw(scan, parts[0].tail, Within(E.RunTbl(scan), e - 1, parts[1..]));
    }
  }

  lemma {:induction false} ProperParts(scan: Scan, last: seq<int>, items: seq<Item>)
    requires E.HuffOk(scan) && |last| == scan.NumComps() && ItemsOk(scan, items) && AllCodable(scan, last, items)
    ensures PartsProper(scan, Parts(scan, last, items))
    decreases |items|
  {
    hide AllProper, BlockPart, NextLast, Codable, OrderOk;
    if items != [] {
      ProperPart(scan, last[items[0].comp], items[0]);
      ProperParts(scan, NextLast(scan, last, items[0]), items[1..]);
    }
  }

  lemma ProperSegment(scan: Scan, mcus: seq<Segments.Mcu>, r: nat, i: nat)
    requires E.HuffOk(scan) && McusOk(scan, mcus) && R.ScanCodable(scan, mcus, r)
    ensures AllProper(scan, R.SegmentTokens(scan, mcus, r, i))
  {
    hide AllProper, Parts, Stream, OrderOk;
    var s := FirstMcu(|mcus|, r, i);
    var e := SegmentLimit(|mcus|, r, s);
    FlatOk(scan, mcus[s..e]);
    assert R.RestCodable(scan, R.FreshLast(scan), mcus, s, e);
    ProperParts(scan, R.FreshLast(scan), Flat(mcus[s..e]));
    ProperStream(scan, R.RestParts(scan, R.FreshLast(scan), mcus, s, e));
  }

  // Symbols that occur.

  ghost predicate Occurs(ts: seq<Token>, dc: bool, tbl: nat) {
    exists i, symbol :: 0 <= i < |ts| && ts[i] == Sym(dc, tbl, symbol)
  }

  lemma OccursIn(a: seq<Token>, b: seq<Token>, dc: bool, tbl: nat)
    ensures Occurs(a, dc, tbl) || Occurs(b, dc, tbl) ==> Occurs(a + b, dc, tbl)
  {
    if Occurs(a, dc, tbl) {
      var i, symbol :| 0 <= i < |a| && a[i] == Sym(dc, tbl, symbol);
      assert (a + b)[i] == Sym(dc, tbl, symbol);
    }
    if Occurs(b, dc, tbl) {
      var i, symbol :| 0 <= i < |b| && b[i] == Sym(dc, tbl, symbol);
      assert (a + b)[|a| + i] == Sym(dc, tbl, symbol);
    }
  }

  lemma OccursFront(symbol: Byte, rest: seq<Token>, dc: bool, tbl: nat)
    ensures Occurs([Sym(dc, tbl, symbol)] + rest, dc, tbl)
  {
    assert ([Sym(dc, tbl, symbol)] + rest)[0] == Sym(dc, tbl, symbol);
  }

  /** A sequential or DC block has symbols of its tables. */
  lemma BlockOccurs(scan: Scan, last: int, it: Item)
    requires E.HuffOk(scan) && it.comp < scan.NumComps() && Codable(scan, last, it.block)
    requires (scan.kind == Sequential || scan.kind == DcFirst)
    ensures Occurs(BlockPart(scan, last, it).explicit, true, scan.dcTbl[it.comp])
    ensures scan.UsesAc() ==> Occurs(BlockPart(scan, last, it).explicit, false, scan.acTbl[it.comp])
  {
    hide Occurs, AcFrom, InRange, BitCount, Zigzag, OrderOk;
    var zz := Zigzag(scan.order, it.block, scan.al);
    var dc, ac := scan.dcTbl[it.comp], scan.acTbl[it.comp];
    if scan.kind == DcFirst {
      DcOccurs(dc, DcValue(scan, it.block) - last, []);
    } else {
      var acs := AcBlock(ac, zz, scan.se, []);
      DcOccurs(dc, it.block[0] - last, acs);
      if scan.se > 0 {
        AcOccurs(ac, zz, scan.se);
        AfterDcOccurs(dc, it.block[0] - last, acs, ac);
      }
    }
  }

  lemma DcOccurs(dc: nat, diff: int, rest: seq<Token>)
    requires BitCount(Abs(diff)) <= MAX_COEF_BITS + 1
    ensures Occurs(DcTokens(dc, diff, rest), true, dc)
  {
    hide Occurs, BitCount;
    if diff == 0 {
      OccursFront(0, rest, true, dc);
    } else {
      OccursFront(BitCount(Abs(diff)), [ValueBits(diff)] + rest, true, dc);
    }
  }

  lemma AfterDcOccurs(dc: nat, diff: int, rest: seq<Token>, ac: nat)
    requires BitCount(Abs(diff)) <= MAX_COEF_BITS + 1 && Occurs(rest, false, ac)
    ensures Occurs(DcTokens(dc, diff, rest), false, ac)
  {
    hide Occurs, BitCount;
    if diff == 0 {
      OccursIn([Sym(true, dc, 0)], rest, false, ac);
    } else {
      OccursIn([ValueBits(diff)], rest, false, ac);
      OccursIn([Sym(true, dc, BitCount(Abs(diff)))], [ValueBits(diff)] + rest, false, ac);
    }
  }

  lemma AcOccurs(ac: nat, zz: seq<int>, se: nat)
    requires 1 <= se < |zz| && InRange(zz, 1, se)
    ensures Occurs(AcBlock(ac, zz, se, []), false, ac)
  {
    hide Occurs, BitCount;
    var ke := LastNonzero(zz, se);
    if ke == 0 {
      OccursFront(0, [], false, ac);
    } else {
      I.NarrowRange(zz, 1, ke, se);
      FirstOccurs(ac, zz, ke, 1, EndOfBlock(ac, ke < se, []));
    }
  }

  lemma FirstOccurs(ac: nat, zz: seq<int>, ke: nat, k: nat, rest: seq<Token>)
    requires k <= ke < |zz| && zz[ke] != 0 && InRange(zz, k, ke)
    ensures Occurs(AcFrom(ac, zz, ke, k, rest), false, ac)
  {
    hide Occurs, BitCount, AcFrom;
    UnfoldAcFrom(ac, zz, ke, k, rest);
    var j := NextNonzero(zz, k, ke);
    I.InRangeAt(zz, k, ke, j);
    if j - k >= 16 {
      OccursFront(0xF0, AcFrom(ac, zz, ke, k + 16, rest), false, ac);
    } else {
      OccursFront((j - k) * 16 + BitCount(Abs(zz[j])), [ValueBits(zz[j])] + AcFrom(ac, zz, ke, j + 1, rest), false, ac);
    }
  }

  /** A block of an AC scan has symbols of the table, or an end of band, or both. */
  lemma BandOccurs(scan: Scan, last: int, it: Item, parts: seq<Part>)
    requires E.HuffOk(scan) && it.comp < scan.NumComps() && Codable(scan, last, it.block)
    requires (scan.kind == AcFirst || scan.kind == AcRefine)
    ensures Occurs(Stream(E.RunTbl(scan), [BlockPart(scan, last, it)] + parts), false, E.RunTbl(scan))
  {
    hide Occurs, AcFrom, RefineFrom, InRange, BitCount, Zigzag, OrderOk, Stream, After;
    var zz, tbl, p := Zigzag(scan.order, it.block, scan.al), E.RunTbl(scan), BlockPart(scan, last, it);
    StreamParts(tbl, p, parts);
    var aft := After(tbl, p, parts);
    if p.eob {
      EobOccurs(tbl, p, parts);
      OccursIn(p.explicit, aft, false, tbl);
    } else if scan.kind == AcFirst {
      E.FirstPartFacts(tbl, zz, scan.ss, scan.se, parts);
      I.NarrowRange(zz, scan.ss, LastNonzero(zz, scan.se), scan.se);
      FirstOccurs(tbl, zz, LastNonzero(zz, scan.se), scan.ss, aft);
    } else {
      RefineOccurs(tbl, zz, LastNew(zz, scan.ss, scan.se), scan.ss);
      OccursIn(p.explicit, aft, false, tbl);
    }
  }

  lemma EobOccurs(tbl: nat, p: Part, parts: seq<Part>)
    requires p.eob
    ensures Occurs(After(tbl, p, parts), false, tbl)
  {
    hide Occurs, BitCount, Within, RawBits, EobRun;
    var n := 1 + RunMore(1, |p.tail|, parts);
    var rest := RawBits(p.tail, Within(tbl, n - 1, parts));
    UnfoldEobRun(tbl, n, rest);
    var nbits := BitCount(n) - 1;
    OccursFront(16 * nbits, if nbits > 0 then [Raw(n, nbits)] + rest else rest, false, tbl);
  }

  lemma RefineOccurs(tbl: nat, zz: seq<int>, eob: nat, k: nat)
    requires k <= eob < |zz| && Abs(zz[eob]) == 1
    ensures Occurs(RefineFrom(tbl, zz, eob, k, []), false, tbl)
  {
    hide Occurs, RefineFrom, RawBits, Corrections, ZeroCount;
    UnfoldRefineFrom(tbl, zz, eob, k, []);
    var j := RunEnd(zz, eob, k, 0);
    var next := RawBits(Corrections(zz, k, j), RefineFrom(tbl, zz, eob, j + 1, []));
    OccursFront(0xF0, next, false, tbl);
    OccursFront(ZeroCount(zz, k, j) * 16 + 1, [Raw(if zz[j] < 0 then 0 else 1, 1)] + next, false, tbl);
  }

  /** Without runs the stream holds the explicit tokens of every block. */
  lemma {:induction false} PartOccurs(tbl: nat, parts: seq<Part>, k: nat, dc: bool, t: nat)
    requires k < |parts| && (forall i :: 0 <= i < |parts| ==> !parts[i].eob) && Occurs(parts[k].explicit, dc, t)
    ensures Occurs(Stream(tbl, parts), dc, t)
    decreases |parts|
  {
    hide Occurs;
    if k > 0 {
      PartOccurs(tbl, parts[1..], k - 1, dc, t);
    }
    OccursIn(parts[0].explicit, Stream(tbl, parts[1..]), dc, t);
  }

  lemma {:induction false} PartAt(scan: Scan, last: seq<int>, items: seq<Item>, k: nat) returns (l: int)
    requires E.HuffOk(scan) && |last| == scan.NumComps() && ItemsOk(scan, items)
    requires AllCodable(scan, last, items) && k < |items|
    ensures Parts(scan, last, items)[k] == BlockPart(scan, l, items[k]) && Codable(scan, l, items[k].block)
    decreases |items|
  {
    hide BlockPart, NextLast, Codable, OrderOk;
    if k == 0 {
      l := last[items[0].comp];
    } else {
      l := PartAt(scan, NextLast(scan, last, items[0]), items[1..], k - 1);
    }
  }

  lemma {:induction false} NoEobs(scan: Scan, last: seq<int>, items: seq<Item>)
    requires E.HuffOk(scan) && |last| == scan.NumComps() && ItemsOk(scan, items)
    requires !scan.kind.AcFirst? && !scan.kind.AcRefine?
    ensures forall i :: 0 <= i < |items| ==> !Parts(scan, last, items)[i].eob
    decreases |items|
  {
    hide SequentialTokens, DcTokens, OrderOk, NextLast;
    if items != [] {
      NoEobs(scan, NextLast(scan, last, items[0]), items[1..]);
    }
  }

  /** Every component of a scan has blocks in its first MCU. */
  predicate Complete(scan: Scan, mcus: seq<Segments.Mcu>) {
    mcus != [] && forall c :: 0 <= c < scan.NumComps() ==> HasComponent(mcus[0], c)
  }

  predicate HasComponent(items: seq<Item>, c: nat) {
    exists b :: 0 <= b < |items| && items[b].comp == c
  }

  /** So the first segment has symbols of every table that the scan uses. */
  lemma TablesOccur(scan: Scan, mcus: seq<Segments.Mcu>, r: nat, c: nat)
    requires E.HuffOk(scan) && McusOk(scan, mcus) && R.ScanCodable(scan, mcus, r)
    requires Complete(scan, mcus) && c < scan.NumComps()
    ensures scan.UsesDc() ==> Occurs(R.SegmentTokens(scan, mcus, r, 0), true, scan.dcTbl[c])
    ensures scan.UsesAc() ==> Occurs(R.SegmentTokens(scan, mcus, r, 0), false, scan.acTbl[c])
  {
    hide Occurs, Parts, Stream, AllCodable, BlockPart, Codable, OrderOk;
    var e := SegmentLimit(|mcus|, r, 0);
    var last, tbl := R.FreshLast(scan), E.RunTbl(scan);
    FlatOk(scan, mcus[0..e]);
    assert R.RestCodable(scan, last, mcus, FirstMcu(|mcus|, r, 0), e);
    var items := Flat(mcus[0..e]);
    assert HasComponent(mcus[0], c);
    var b :| 0 <= b < |mcus[0]| && mcus[0][b].comp == c;
    assert mcus[0..e][0] == mcus[0] && items[b] == mcus[0][b];
    if scan.kind.AcFirst? || scan.kind.AcRefine? {
      var l := PartAt(scan, last, items, 0);
      var parts := Parts(scan, last, items);
      assert parts == [parts[0]] + parts[1..];
      BandOccurs(scan, l, items[0], parts[1..]);
    } else if scan.kind == Sequential || scan.kind == DcFirst {
      var l := PartAt(scan, last, items, b);
      BlockOccurs(scan, l, items[b]);
      NoEobs(scan, last, items);
      PartOccurs(tbl, Parts(scan, last, items), b, true, scan.dcTbl[c]);
      if scan.UsesAc() {
        PartOccurs(tbl, Parts(scan, last, items), b, false, scan.acTbl[c]);
      }
    }
  }

  // Counts.

  lemma {:induction false} UsedSymbol(ts: seq<Token>, dc: bool, tbl: nat, symbol: Byte)
    ensures E.Uses(ts, dc, tbl, symbol) > 0 <==> Sym(dc, tbl, symbol) in ts
  {
    if ts != [] {
      UsedSymbol(ts[..|ts| - 1], dc, tbl, symbol);
      assert ts == ts[..|ts| - 1] + [ts[|ts| - 1]];
    }
  }

  ghost function UseCounts(ts: seq<Token>, dc: bool, tbl: nat): (f: seq<nat>)
    ensures |f| == P.SYMBOLS && forall s :: 0 <= s < P.SYMBOLS ==> f[s] == E.Uses(ts, dc, tbl, s)
  {
    seq(P.SYMBOLS, s requires 0 <= s < P.SYMBOLS => E.Uses(ts, dc, tbl, s))
  }

  lemma {:induction false} TotalGrows(f: seq<nat>, g: seq<nat>, k: nat, n: nat)
    requires n <= |f| == |g| && k < |f| && g == f[k := f[k] + 1]
    ensures P.Total(g, n) == P.Total(f, n) + if k < n then 1 else 0
  {
    if n != 0 {
      TotalGrows(f, g, k, n - 1);
    }
  }

  lemma {:induction false} NoTotal(f: seq<nat>, n: nat)
    requires n <= |f| && forall i :: 0 <= i < n ==> f[i] == 0
    ensures P.Total(f, n) == 0
  {
    if n != 0 {
      NoTotal(f, n - 1);
    }
  }

  lemma {:induction false} UsesTotal(ts: seq<Token>, dc: bool, tbl: nat)
    ensures P.Total(UseCounts(ts, dc, tbl), 256) <= Syms(ts)
  {
    hide P.Total, Syms;
    if ts == [] {
      NoTotal(UseCounts(ts, dc, tbl), 256);
    } else {
      var t, before := ts[|ts| - 1], ts[..|ts| - 1];
      UsesTotal(before, dc, tbl);
      assert ts == before + [t] && [t] == [t] + [];
      SymsConcat(before, [t]);
      SymsFront(t, []);
      var f, g := UseCounts(before, dc, tbl), UseCounts(ts, dc, tbl);
      match t
      case Sym(d, b, s) =>
        if d == dc && b == tbl {
          assert g == f[s := f[s] + 1];
          TotalGrows(f, g, s, 256);
        } else {
          assert g == f;
        }
      case Raw(_, _) =>
        assert g == f;
    }
  }

  lemma {:induction false} FewCoded(f: seq<nat>, x: nat, y: nat, n: nat)
    requires x < y && n <= |f| && y < |f| && f[x] == 0 && f[y] == 0
    ensures O.Coded(f, n) <= n - (if x < n then 1 else 0) - if y < n then 1 else 0
  {
    if n != 0 {
      FewCoded(f, x, y, n - 1);
    }
  }

  // The tables made for the counts.

  datatype Option<T> = None | Some(value: T)

  /** The table has a code for the symbols that occur, and for no others. */
  ghost predicate MadeFor(h: HuffTbl, ts: seq<Token>, dc: bool, tbl: nat) {
    h.Ok() && Legal(h.bits) && Assignable(h, 255, Codes(h.bits, 16))
    && forall s: Byte :: (exists p :: Numbers(h, s, p)) <==> Sym(dc, tbl, s) in ts
  }

  /** A Huffman table for the counts of one table; none if a code would be too long to handle. */
  method OptimalTable(counts: seq<nat>, ghost ts: seq<Token>, ghost dc: bool, ghost tbl: nat)
    returns (r: Option<HuffTbl>)
    requires counts == UseCounts(ts, dc, tbl) && Occurs(ts, dc, tbl) && Syms(ts) < 1_000_000_000
    requires exists x, y :: 0 <= x < y < 256 && counts[x] == 0 && counts[y] == 0
    ensures r.None? <==> P.TooLong(counts)
    ensures r.Some? ==> MadeFor(r.value, ts, dc, tbl)
  {
    hide Occurs, P.Total, O.Coded, E.Uses, UseCounts, P.TooLong;
    UsesTotal(ts, dc, tbl);
    ghost var x, y :| 0 <= x < y < 256 && counts[x] == 0 && counts[y] == 0;
    FewCoded(counts, x, y, 256);
    SomeCount(ts, dc, tbl);
    var freq := new nat[P.SYMBOLS];
    for i := 0 to P.SYMBOLS
      invariant forall k :: 0 <= k < i ==> freq[k] == counts[k]
    {
      freq[i] := counts[i];
    }
    assert freq[..] == counts;
    var outcome;
    ghost var size, chain;
    outcome, size, chain := O.GenOptimalTable(freq);
    if outcome.ClenOverflow? {
      return None;
    }
    var h := HuffTbl(outcome.bits, outcome.huffval + seq(256 - |outcome.huffval|, _ => 0));
    TableMade(h, outcome.bits, outcome.huffval, size, ts, dc, tbl);
    return Some(h);
  }

  lemma SomeCount(ts: seq<Token>, dc: bool, tbl: nat)
    requires Occurs(ts, dc, tbl)
    ensures exists s :: 0 <= s < 256 && UseCounts(ts, dc, tbl)[s] > 0
  {
    var i, symbol: Byte :| 0 <= i < |ts| && ts[i] == Sym(dc, tbl, symbol);
    UsedSymbol(ts, dc, tbl, symbol);
    assert UseCounts(ts, dc, tbl)[symbol] > 0;
  }

  lemma TableMade(h: HuffTbl, bits: seq<Byte>, huffval: seq<Byte>, size: seq<nat>, ts: seq<Token>, dc: bool, tbl: nat)
    requires |size| == P.SYMBOLS && O.Usable(bits, huffval) && O.Listed(size, huffval)
    requires h.bits == bits && |h.huffval| == 256 && h.huffval[..|huffval|] == huffval
    requires forall s :: 0 <= s < 256 ==> (size[s] > 0 <==> E.Uses(ts, dc, tbl, s) > 0)
    ensures MadeFor(h, ts, dc, tbl)
  {
    hide Codes, Space, O.Coded, E.Uses, Pow2;
    var n := |huffval|;
    assert forall p :: 0 <= p < n ==> h.huffval[p] == huffval[p];
    forall s: Byte
      ensures (exists p :: Numbers(h, s, p)) <==> Sym(dc, tbl, s) in ts
    {
      UsedSymbol(ts, dc, tbl, s);
      if s in huffval {
        var p :| 0 <= p < n && huffval[p] == s;
        assert Numbers(h, s, p);
      }
      if p: nat :| Numbers(h, s, p) {
        assert huffval[p] == s;
      }
    }
    forall p, q | 0 <= p < q < n
      ensures h.huffval[p] != h.huffval[q]
    {
      assert O.Before(size, huffval[p], size[huffval[q]], huffval[q]);
    }
  }

  /** The tokens of the first k segments. */
  ghost function TokensUpTo(scan: Scan, mcus: seq<Segments.Mcu>, r: nat, k: nat): seq<Token>
    requires E.HuffOk(scan) && McusOk(scan, mcus)
  {
    if k == 0 then [] else TokensUpTo(scan, mcus, r, k - 1) + R.SegmentTokens(scan, mcus, r, k - 1)
  }

  /** The tokens of the whole scan: it has no more segments than MCUs. */
  ghost function ScanTokens(scan: Scan, mcus: seq<Segments.Mcu>, r: nat): seq<Token>
    requires E.HuffOk(scan) && McusOk(scan, mcus)
  {
    TokensUpTo(scan, mcus, r, |mcus|)
  }

  lemma {:induction false} TokensGathered(scan: Scan, mcus: seq<Segments.Mcu>, r: nat, segs: seq<E.Seg>)
    requires E.HuffOk(scan) && McusOk(scan, mcus)
    requires forall i :: 0 <= i < |segs| ==> segs[i].tokens == R.SegmentTokens(scan, mcus, r, i)
    ensures E.Tokens(segs) == TokensUpTo(scan, mcus, r, |segs|)
  {
    hide R.SegmentTokens, E.HuffOk, McusOk;
    if segs != [] {
      TokensGathered(scan, mcus, r, segs[..|segs| - 1]);
    }
  }

  /** Every segment but the last takes an MCU at least. */
  lemma {:induction false} SegmentsAdvance(n: nat, r: nat, k: nat)
    requires n > 0
    ensures FirstMcu(n, r, k) >= if k <= n then k else n
  {
    if k != 0 {
      SegmentsAdvance(n, r, k - 1);
    }
  }

  lemma {:induction false} NothingMore(scan: Scan, mcus: seq<Segments.Mcu>, r: nat, j: nat, k: nat)
    requires E.HuffOk(scan) && McusOk(scan, mcus) && j <= k && FirstMcu(|mcus|, r, j) == |mcus|
    ensures TokensUpTo(scan, mcus, r, k) == TokensUpTo(scan, mcus, r, j)
    ensures FirstMcu(|mcus|, r, k) == |mcus|
  {
    hide OrderOk, McusOk, R.RestParts;
    if j < k {
      NothingMore(scan, mcus, r, j, k - 1);
      R.EmptyRest(scan, R.FreshLast(scan), mcus, |mcus|);
      assert Stream(E.RunTbl(scan), []) == [];
    }
  }

  lemma TokensCounted(scan: Scan, mcus: seq<Segments.Mcu>, r: nat, segs: seq<E.Seg>)
    requires E.HuffOk(scan) && McusOk(scan, mcus) && mcus != [] && R.Covers(scan, mcus, r, segs)
    ensures E.Tokens(segs) == ScanTokens(scan, mcus, r)
  {
    hide R.SegmentTokens, E.HuffOk, McusOk, TokensUpTo;
    var n, k := |mcus|, |segs|;
    TokensGathered(scan, mcus, r, segs);
    SegmentsAdvance(n, r, n);
    if k <= n {
      NothingMore(scan, mcus, r, k, n);
    } else {
      NothingMore(scan, mcus, r, n, k);
    }
  }

  lemma {:induction false} TokensOfSegment(segs: seq<E.Seg>, i: nat, t: Token)
    requires i < |segs| && t in segs[i].tokens
    ensures t in E.Tokens(segs)
  {
    if i < |segs| - 1 {
      TokensOfSegment(segs[..|segs| - 1], i, t);
    }
  }

  lemma {:induction false} TokensProper(scan: Scan, segs: seq<E.Seg>)
    requires E.HuffOk(scan) && forall i :: 0 <= i < |segs| ==> AllProper(scan, segs[i].tokens)
    ensures AllProper(scan, E.Tokens(segs))
  {
    hide AllProper, E.HuffOk;
    if segs == [] {
      NothingProper(scan);
    } else {
      TokensProper(scan, segs[..|segs| - 1]);
      ProperConcat(scan, E.Tokens(segs[..|segs| - 1]), segs[|segs| - 1].tokens);
    }
  }

  /** Of DC and AC symbols alike some are never used. */
  lemma UnusedSymbols(scan: Scan, ts: seq<Token>, dc: bool, tbl: nat)
    requires E.HuffOk(scan) && AllProper(scan, ts)
    ensures var f := UseCounts(ts, dc, tbl); f[0x0F] == 0 && f[0x1F] == 0
  {
    hide E.HuffOk;
    UsedSymbol(ts, dc, tbl, 0x0F);
    UsedSymbol(ts, dc, tbl, 0x1F);
    assert forall i :: 0 <= i < |ts| && ts[i].Sym? ==> ts[i] != Sym(dc, tbl, 0x0F) && ts[i] != Sym(dc, tbl, 0x1F) by {
      assert forall i :: 0 <= i < |ts| ==> Proper(scan, ts[i]);
    }
  }

  lemma {:induction false} SymsUpTo(scan: Scan, mcus: seq<Segments.Mcu>, r: nat, k: nat)
    requires E.HuffOk(scan) && McusOk(scan, mcus)
    ensures Syms(TokensUpTo(scan, mcus, r, k)) <= 64 * |Flat(mcus[..FirstMcu(|mcus|, r, k)])|
  {
    hide R.SegmentTokens, E.HuffOk, McusOk, Syms, Flat;
    if k == 0 {
      NoSyms();
    } else {
      SymsUpTo(scan, mcus, r, k - 1);
      SymsOfSegment(scan, mcus, r, k - 1);
      SymsConcat(TokensUpTo(scan, mcus, r, k - 1), R.SegmentTokens(scan, mcus, r, k - 1));
      var s, e := FirstMcu(|mcus|, r, k - 1), FirstMcu(|mcus|, r, k);
      assert mcus[..e] == mcus[..s] + mcus[s..e];
      FlatConcat(mcus[..s], mcus[s..e]);
    }
  }

  /** A scan has at most 64 symbols a block. */
  lemma ScanSyms(scan: Scan, mcus: seq<Segments.Mcu>, r: nat)
    requires E.HuffOk(scan) && McusOk(scan, mcus) && mcus != []
    ensures Syms(ScanTokens(scan, mcus, r)) <= 64 * |Flat(mcus)|
  {
    hide E.HuffOk, McusOk, Syms, Flat, TokensUpTo;
    SymsUpTo(scan, mcus, r, |mcus|);
    SegmentsAdvance(|mcus|, r, |mcus|);
    assert mcus[..|mcus|] == mcus;
  }

  /** Some table of the scan cannot be made: Huffman's procedure makes a code too long. */
  ghost predicate NeedsTooLong(scan: Scan, ts: seq<Token>)
    requires scan.Ok()
  {
    exists c :: 0 <= c < scan.NumComps() && TableTooLong(scan, ts, c)
  }

  ghost predicate TableTooLong(scan: Scan, ts: seq<Token>, c: nat)
    requires scan.Ok() && c < scan.NumComps()
  {
    || (scan.UsesDc() && P.TooLong(UseCounts(ts, true, scan.dcTbl[c])))
    || (scan.UsesAc() && P.TooLong(UseCounts(ts, false, scan.acTbl[c])))
  }

  /** That takes millions of symbols. */
  lemma FewTokensFit(scan: Scan, ts: seq<Token>)
    requires scan.Ok() && Syms(ts) < 9_227_464
    ensures !NeedsTooLong(scan, ts)
  {
    hide UseCounts, P.TooLong, P.Total;
    forall c | 0 <= c < scan.NumComps()
      ensures !TableTooLong(scan, ts, c)
    {
      UsesTotal(ts, true, scan.dcTbl[c]);
      UsesTotal(ts, false, scan.acTbl[c]);
      P.FewNeverTooLong(UseCounts(ts, true, scan.dcTbl[c]));
      P.FewNeverTooLong(UseCounts(ts, false, scan.acTbl[c]));
    }
  }

  /** For each table that the scan uses, once: a new table for its counts. */
  method MakeTables(scan: Scan, tabs0: Tabs, dcCounts: seq<seq<nat>>, acCounts: seq<seq<nat>>, ghost ts: seq<Token>)
    returns (r: Option<Tabs>)
    requires E.HuffOk(scan) && tabs0.Ok() && AllProper(scan, ts) && Syms(ts) < 1_000_000_000
    requires E.CountsMatch(dcCounts, true, ts) && E.CountsMatch(acCounts, false, ts)
    requires scan.UsesDc() ==> forall c :: 0 <= c < scan.NumComps() ==> Occurs(ts, true, scan.dcTbl[c])
    requires scan.UsesAc() ==> forall c :: 0 <= c < scan.NumComps() ==> Occurs(ts, false, scan.acTbl[c])
    ensures r.None? <==> NeedsTooLong(scan, ts)
    ensures r.Some? ==> r.value.Ok()
    ensures r.Some? && scan.UsesDc() ==> forall c :: 0 <= c < scan.NumComps() ==>
            MadeFor(r.value.dc[scan.dcTbl[c]], ts, true, scan.dcTbl[c])
    ensures r.Some? && scan.UsesAc() ==> forall c :: 0 <= c < scan.NumComps() ==>
            MadeFor(r.value.ac[scan.acTbl[c]], ts, false, scan.acTbl[c])
  {
    hide Occurs, MadeFor, AllProper, E.Uses, E.CountsMatch, OrderOk, P.TooLong, UseCounts;
    var dc, ac := tabs0.dc, tabs0.ac;
    var didDc, didAc := seq(NUM_HUFF_TBLS, _ => false), seq(NUM_HUFF_TBLS, _ => false);
    for c := 0 to scan.NumComps()
      invariant |dc| == |ac| == |didDc| == |didAc| == NUM_HUFF_TBLS
      invariant forall t :: 0 <= t < NUM_HUFF_TBLS && didDc[t] ==> MadeFor(dc[t], ts, true, t)
      invariant forall t :: 0 <= t < NUM_HUFF_TBLS && didDc[t] ==> !P.TooLong(UseCounts(ts, true, t))
      invariant forall t :: 0 <= t < NUM_HUFF_TBLS && didAc[t] ==> MadeFor(ac[t], ts, false, t)
      invariant forall t :: 0 <= t < NUM_HUFF_TBLS && didAc[t] ==> !P.TooLong(UseCounts(ts, false, t))
      invariant scan.UsesDc() ==> forall d :: 0 <= d < c ==> didDc[scan.dcTbl[d]]
      invariant scan.UsesAc() ==> forall d :: 0 <= d < c ==> didAc[scan.acTbl[d]]
    {
      if scan.UsesDc() {
        var tbl := scan.dcTbl[c];
        if !didDc[tbl] {
          CountsAre(dcCounts, true, ts, tbl);
          UnusedSymbols(scan, ts, true, tbl);
          var t := OptimalTable(dcCounts[tbl], ts, true, tbl);
          if t.None? {
            assert TableTooLong(scan, ts, c);
            return None;
          }
          dc, didDc := dc[tbl := t.value], didDc[tbl := true];
        }
      }
      if scan.UsesAc() {
        var tbl := scan.acTbl[c];
        if !didAc[tbl] {
          CountsAre(acCounts, false, ts, tbl);
          UnusedSymbols(scan, ts, false, tbl);
          var t := OptimalTable(acCounts[tbl], ts, false, tbl);
          if t.None? {
            assert TableTooLong(scan, ts, c);
            return None;
          }
          ac, didAc := ac[tbl := t.value], didAc[tbl := true];
        }
      }
    }
    return Some(Tabs(dc, ac));
  }

  lemma CountsAre(counts: seq<seq<nat>>, dc: bool, ts: seq<Token>, tbl: nat)
    requires E.CountsMatch(counts, dc, ts) && tbl < NUM_HUFF_TBLS
    ensures tbl < |counts| && counts[tbl] == UseCounts(ts, dc, tbl)
  {
    hide E.Uses;
  }

  /** With the tables made for all tokens of the segments, every symbol has a code. */
  lemma NothingMissing(scan: Scan, tabs: Tabs, mcus: seq<Segments.Mcu>, r: nat, segs: seq<E.Seg>)
    requires E.HuffOk(scan) && McusOk(scan, mcus) && tabs.Ok()
    requires R.Covers(scan, mcus, r, segs) && R.ScanCodable(scan, mcus, r)
    requires scan.UsesDc() ==> forall c :: 0 <= c < scan.NumComps() ==>
             MadeFor(tabs.dc[scan.dcTbl[c]], E.Tokens(segs), true, scan.dcTbl[c])
    requires scan.UsesAc() ==> forall c :: 0 <= c < scan.NumComps() ==>
             MadeFor(tabs.ac[scan.acTbl[c]], E.Tokens(segs), false, scan.acTbl[c])
    ensures R.ScanEncodable(scan, tabs, mcus, r)
  {
    hide MadeFor, R.SegmentTokens, E.Tokens, OrderOk, HasCode, Proper;
    forall i: nat
      ensures AllEncodable(tabs, R.SegmentTokens(scan, mcus, r, i))
    {
      var ts := R.SegmentTokens(scan, mcus, r, i);
      ProperSegment(scan, mcus, r, i);
      if i >= |segs| {
        BeyondTheLast(scan, mcus, r, segs, i);
      }
      forall k | 0 <= k < |ts|
        ensures Encodable(tabs, ts[k])
      {
        assert ts[k] in segs[i].tokens;
        TokensOfSegment(segs, i, ts[k]);
        CodeForToken(scan, tabs, E.Tokens(segs), ts[k]);
      }
    }
  }

  lemma CodeForToken(scan: Scan, tabs: Tabs, ts: seq<Token>, t: Token)
    requires E.HuffOk(scan) && tabs.Ok() && t in ts && Proper(scan, t)
    requires scan.UsesDc() ==> forall c :: 0 <= c < scan.NumComps() ==>
             MadeFor(tabs.dc[scan.dcTbl[c]], ts, true, scan.dcTbl[c])
    requires scan.UsesAc() ==> forall c :: 0 <= c < scan.NumComps() ==>
             MadeFor(tabs.ac[scan.acTbl[c]], ts, false, scan.acTbl[c])
    ensures Encodable(tabs, t)
  {
    hide MadeFor, OrderOk;
    match t
    case Sym(dc, tbl, symbol) =>
      if dc {
        var c :| 0 <= c < |scan.dcTbl| && scan.dcTbl[c] == tbl;
        CodeIn(tabs.dc[tbl], ts, dc, tbl, symbol);
      } else {
        var c :| 0 <= c < |scan.acTbl| && scan.acTbl[c] == tbl;
        CodeIn(tabs.ac[tbl], ts, dc, tbl, symbol);
      }
    case Raw(_, _) =>
  }

  lemma CodeIn(h: HuffTbl, ts: seq<Token>, dc: bool, tbl: nat, symbol: Byte)
    requires MadeFor(h, ts, dc, tbl) && Sym(dc, tbl, symbol) in ts
    ensures HasCode(h, symbol)
  {
  }

  lemma {:induction false} BeyondTheLast(scan: Scan, mcus: seq<Segments.Mcu>, r: nat, segs: seq<E.Seg>, i: nat)
    requires E.HuffOk(scan) && McusOk(scan, mcus) && R.Covers(scan, mcus, r, segs) && i >= |segs|
    ensures FirstMcu(|mcus|, r, i) == |mcus| && R.SegmentTokens(scan, mcus, r, i) == []
    decreases i
  {
    hide OrderOk, McusOk;
    if i > |segs| {
      BeyondTheLast(scan, mcus, r, segs, i - 1);
    }
    R.EmptyRest(scan, R.FreshLast(scan), mcus, |mcus|);
    assert Stream(E.RunTbl(scan), []) == [];
  }

  lemma TablesAreGood(scan: Scan, tabs: Tabs, ts: seq<Token>)
    requires E.HuffOk(scan) && tabs.Ok() && AllProper(scan, ts)
    requires scan.UsesDc() ==> forall c :: 0 <= c < scan.NumComps() ==>
             MadeFor(tabs.dc[scan.dcTbl[c]], ts, true, scan.dcTbl[c])
    requires scan.UsesAc() ==> forall c :: 0 <= c < scan.NumComps() ==>
             MadeFor(tabs.ac[scan.acTbl[c]], ts, false, scan.acTbl[c])
    ensures R.TablesFit(scan, tabs) && R.TablesGood(scan, tabs)
  {
    hide MadeFor, AllProper, OrderOk, R.TableGood;
    if scan.UsesDc() {
      forall c | 0 <= c < scan.NumComps()
        ensures tabs.dc[scan.dcTbl[c]].Ok() && R.TableGood(tabs.dc[scan.dcTbl[c]], 15)
      {
        DcTableGood(scan, tabs.dc[scan.dcTbl[c]], ts, scan.dcTbl[c]);
      }
    }
    if scan.UsesAc() {
      forall c | 0 <= c < scan.NumComps()
        ensures tabs.ac[scan.acTbl[c]].Ok() && R.TableGood(tabs.ac[scan.acTbl[c]], 255)
      {
        AcTableGood(tabs.ac[scan.acTbl[c]], ts, scan.acTbl[c]);
      }
    }
  }

  lemma DcTableGood(scan: Scan, h: HuffTbl, ts: seq<Token>, tbl: nat)
    requires E.HuffOk(scan) && AllProper(scan, ts) && MadeFor(h, ts, true, tbl)
    ensures h.Ok() && R.TableGood(h, 15)
  {
    hide Codes, Space, E.HuffOk;
    forall p | 0 <= p < Codes(h.bits, 16) && p < 256
      ensures h.huffval[p] <= 15
    {
      assert Numbers(h, h.huffval[p], p);
      var i :| 0 <= i < |ts| && ts[i] == Sym(true, tbl, h.huffval[p]);
      assert Proper(scan, ts[i]);
    }
  }

  lemma AcTableGood(h: HuffTbl, ts: seq<Token>, tbl: nat)
    requires MadeFor(h, ts, false, tbl)
    ensures h.Ok() && R.TableGood(h, 255)
  {
  }

  /** Count the symbols of a scan and make tables for them. */
  method Optimize(scan: Scan, r: nat, mcus: seq<Segments.Mcu>, tabs0: Tabs) returns (t: Option<Tabs>)
    requires E.HuffOk(scan) && tabs0.Ok() && McusOk(scan, mcus) && Complete(scan, mcus)
    requires R.ScanCodable(scan, mcus, r) && Syms(ScanTokens(scan, mcus, r)) < 1_000_000_000
    ensures t.None? <==> NeedsTooLong(scan, ScanTokens(scan, mcus, r))
    ensures t.Some? ==> R.TablesFit(scan, t.value) && R.TablesGood(scan, t.value)
                        && R.ScanEncodable(scan, t.value, mcus, r)
  {
    assert mcus != [];
    hide R.ScanCodable, R.ScanEncodable, R.TablesGood, R.TablesFit, E.CountsMatch, E.Tokens, R.Covers, Complete,
         OrderOk, MadeFor, AllProper, Occurs, E.ScanEncoder.Valid, E.TablesOk, ScanTokens, NeedsTooLong;
    NoTablesNeeded(scan, tabs0);
    var none := seq(NUM_HUFF_TBLS, _ => CDerived([], []));
    var enc := new E.ScanEncoder(scan, true, r, none, none, tabs0);
    ghost var segs := R.EncodeScan(enc, mcus);
    ghost var ts := E.Tokens(segs);
    GatheredTokens(scan, mcus, r, segs);
    t := MakeTables(scan, tabs0, enc.dcCounts, enc.acCounts, ts);
    if t.Some? {
      NothingMissing(scan, t.value, mcus, r, segs);
      TablesAreGood(scan, t.value, ts);
    }
  }

  lemma NoTablesNeeded(scan: Scan, tabs: Tabs)
    requires E.HuffOk(scan) && tabs.Ok()
    ensures forall derived :: |derived| == NUM_HUFF_TBLS ==> E.TablesOk(scan, true, tabs, derived, derived)
  {
  }

  lemma GatheredTokens(scan: Scan, mcus: seq<Segments.Mcu>, r: nat, segs: seq<E.Seg>)
    requires E.HuffOk(scan) && McusOk(scan, mcus) && R.Covers(scan, mcus, r, segs)
    requires R.ScanCodable(scan, mcus, r) && Complete(scan, mcus) && mcus != []
    ensures E.Tokens(segs) == ScanTokens(scan, mcus, r) && AllProper(scan, E.Tokens(segs))
    ensures scan.UsesDc() ==> forall c :: 0 <= c < scan.NumComps() ==> Occurs(E.Tokens(segs), true, scan.dcTbl[c])
    ensures scan.UsesAc() ==> forall c :: 0 <= c < scan.NumComps() ==> Occurs(E.Tokens(segs), false, scan.acTbl[c])
  {
    hide R.SegmentTokens, E.Tokens, OrderOk, R.ScanCodable, Occurs, AllProper, ScanTokens, Complete;
    TokensCounted(scan, mcus, r, segs);
    forall i | 0 <= i < |segs|
      ensures AllProper(scan, segs[i].tokens)
    {
      ProperSegment(scan, mcus, r, i);
    }
    TokensProper(scan, segs);
    forall c | 0 <= c < scan.NumComps()
      ensures scan.UsesDc() ==> Occurs(E.Tokens(segs), true, scan.dcTbl[c])
      ensures scan.UsesAc() ==> Occurs(E.Tokens(segs), false, scan.acTbl[c])
    {
      TablesOccur(scan, mcus, r, c);
      OccursInAll(segs, true, scan.dcTbl[c]);
      OccursInAll(segs, false, scan.acTbl[c]);
    }
  }

  lemma OccursInAll(segs: seq<E.Seg>, dc: bool, tbl: nat)
    requires segs != []
    ensures Occurs(segs[0].tokens, dc, tbl) ==> Occurs(E.Tokens(segs), dc, tbl)
  {
    hide E.Tokens;
    if Occurs(segs[0].tokens, dc, tbl) {
      var i, symbol :| 0 <= i < |segs[0].tokens| && segs[0].tokens[i] == Sym(dc, tbl, symbol);
      TokensOfSegment(segs, 0, segs[0].tokens[i]);
      var k :| 0 <= k < |E.Tokens(segs)| && E.Tokens(segs)[k] == Sym(dc, tbl, symbol);
    }
  }

  /** Optimized Huffman coding of a scan: the tables made in the first pass always do for the
      second, and decoding gives back what was coded. */
  method OptimizedRoundTrip(scan: Scan, tabs0: Tabs, limit: seq<nat>, r: nat, mcus: seq<Segments.Mcu>,
                            comps: seq<seq<nat>>, targets: seq<seq<array<Coef>>>, chunks: seq<nat>)
    returns (t: Option<Tabs>)
    requires E.HuffOk(scan) && tabs0.Ok() && McusOk(scan, mcus) && R.McuSizesOk(scan, mcus) && Complete(scan, mcus)
    requires |limit| == scan.NumComps() && forall c :: 0 <= c < scan.NumComps() ==> limit[c] <= scan.se + 1
    requires R.ScanCodable(scan, mcus, r) && Syms(ScanTokens(scan, mcus, r)) < 1_000_000_000
    requires TargetsOk(scan, mcus, comps, targets) && PriorsOk(scan, mcus, targets)
    modifies Arrays(targets)
    ensures t.None? <==> NeedsTooLong(scan, ScanTokens(scan, mcus, r))
    ensures 64 * |Flat(mcus)| < 9_227_464 ==> t.Some?
    ensures t.None? ==> forall a: array<Coef> :: a in Arrays(targets) ==> a[..] == old(a[..])
    ensures t.Some? ==> D.Config(scan, t.value, limit).Ok() && forall j, b :: 0 <= j < |mcus| && 0 <= b < |mcus[j]| ==>
              I.DecodedWanted(D.Config(scan, t.value, limit), comps[j][b], old(targets[j][b][..]),
                              mcus[j][b].block, targets[j][b][..])
  {
    assert mcus != [];
    hide R.ScanCodable, R.ScanEncodable, R.TablesGood, R.TablesFit, Complete, I.DecodedWanted, ScanTokens, NeedsTooLong,
         R.McuSizesOk, D.Config.Ok, Prior, Syms, Flat;
    t := Optimize(scan, r, mcus, tabs0);
    ScanSyms(scan, mcus, r);
    if 64 * |Flat(mcus)| < 9_227_464 {
      FewTokensFit(scan, ScanTokens(scan, mcus, r));
    }
    if t.Some? {
      var ok := R.ScanRoundTrip(scan, t.value, limit, r, mcus, comps, targets, chunks);
    }
  }
}
