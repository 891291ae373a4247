/** How many symbols a scan can have: no block takes more than 64. */
module HuffSymbolCount {
  import opened BitStrings
  import opened Scans
  import opened Segments
  import opened HuffModel
  import E = HuffScanEncoder
  import R = HuffRoundTrip
  import I = HuffInverse

  ghost function Syms(ts: seq<Token>): (n: nat)
    ensures n <= |ts|
  {
    if ts == [] then 0 else (if ts[0].Sym? then 1 else 0) + Syms(ts[1..])
  }

  lemma SymsFront(t: Token, rest: seq<Token>)
    ensures Syms([t] + rest) == (if t.Sym? then 1 else 0) + Syms(rest)
  {
    assert ([t] + rest)[1..] == rest;
  }

  lemma {:induction false} SymsConcat(a: seq<Token>, b: seq<Token>)
    ensures Syms(a + b) == Syms(a) + Syms(b)
  {
    if a == [] {
      assert a + b == b;
    } else {
      SymsConcat(a[1..], b);
      assert (a + b)[1..] == a[1..] + b;
    }
  }

  lemma {:induction false} SymsRaw(b: seq<Bit>, rest: seq<Token>)
    ensures Syms(RawBits(b, rest)) == Syms(rest)
  {
    if b != [] {
      SymsRaw(b[1..], rest);
      SymsFront(Raw(b[0], 1), RawBits(b[1..], rest));
    }
  }

  lemma {:induction false} SymsAc(tbl: nat, zz: seq<int>, ke: nat, k: nat, rest: seq<Token>)
    requires ke < |zz| && (k <= ke ==> zz[ke] != 0)
    ensures Syms(AcFrom(tbl, zz, ke, k, rest)) <= Syms(rest) + if k <= ke then ke + 1 - k else 0
    decreases ke + 1 - k
  {
    hide AcFrom, BitCount, Syms;
    if k > ke {
      I.EndOfAc(tbl, zz, ke, k, rest);
    } else {
      var j := NextNonzero(zz, k, ke);
      hide NextNonzero;
      UnfoldAcFrom(tbl, zz, ke, k, rest);
      if j - k >= 16 {
        SymsAc(tbl, zz, ke, k + 16, rest);
        SymsFront(Sym(false, tbl, 0xF0), AcFrom(tbl, zz, ke, k + 16, rest));
      } else {
        var n := BitCount(Abs(zz[j]));
        var next := AcFrom(tbl, zz, ke, j + 1, rest);
        SymsAc(tbl, zz, ke, j + 1, rest);
        SymsFront(ERROR_EXIT, next);
        SymsFront(ValueBits(zz[j]), next);
        if n <= MAX_COEF_BITS {
          I.Digits(j - k, n);
          SymsFront(Sym(false, tbl, (j - k) * 16 + n), [ValueBits(zz[j])] + next);
        }
      }
    }
  }

  lemma {:induction false} SymsRefine(tbl: nat, zz: seq<int>, eob: nat, k: nat, rest: seq<Token>)
    requires eob < |zz| && (k <= eob ==> Abs(zz[eob]) == 1)
    ensures Syms(RefineFrom(tbl, zz, eob, k, rest)) <= Syms(rest) + if k <= eob then eob + 1 - k else 0
    decreases eob + 1 - k
  {
    hide RefineFrom, RawBits, Corrections, ZeroCount, Syms;
    if k > eob {
      I.EndOfRefine(tbl, zz, eob, k, rest);
    } else {
      var j := RunEnd(zz, eob, k, 0);
      hide RunEnd;
      UnfoldRefineFrom(tbl, zz, eob, k, rest);
      SymsRefine(tbl, zz, eob, j + 1, rest);
      var next := RawBits(Corrections(zz, k, j), RefineFrom(tbl, zz, eob, j + 1, rest));
      SymsRaw(Corrections(zz, k, j), RefineFrom(tbl, zz, eob, j + 1, rest));
      if zz[j] == 0 {
        SymsFront(Sym(false, tbl, 0xF0), next);
      } else {
        var sign := Raw(if zz[j] < 0 then 0 else 1, 1);
        SymsFront(sign, next);
        I.Digits(ZeroCount(zz, k, j), 1);
        SymsFront(Sym(false, tbl, ZeroCount(zz, k, j) * 16 + 1), [sign] + next);
      }
    }
  }

  lemma SymsDc(tbl: nat, diff: int, rest: seq<Token>)
    ensures Syms(DcTokens(tbl, diff, rest)) <= 1 + Syms(rest)
  {
    hide BitCount, Syms;
    var n := BitCount(Abs(diff));
    SymsFront(ERROR_EXIT, rest);
    SymsFront(ValueBits(diff), rest);
    SymsFront(Sym(true, tbl, 0), rest);
    if n <= MAX_COEF_BITS + 1 {
      SymsFront(Sym(true, tbl, n), [ValueBits(diff)] + rest);
    }
  }

  /** The symbols of a block, its end of band included. */
  ghost function PartSyms(p: Part): nat {
    Syms(p.explicit) + if p.eob then 1 else 0
  }

  lemma SymsOfPart(scan: Scan, last: int, it: Item)
    requires scan.Ok() && it.comp < scan.NumComps()
    ensures PartSyms(BlockPart(scan, last, it)) <= 64
  {
    hide AcFrom, RefineFrom, BitCount, Zigzag, DcTokens, OrderOk, LastNonzero, LastNew, Corrections, Syms;
    var zz := Zigzag(scan.order, it.block, scan.al);
    var dc, ac := scan.dcTbl[it.comp], scan.acTbl[it.comp];
    assert Syms([]) == 0 by { NoSyms(); }
    match scan.kind
    case Sequential =>
      var ke := LastNonzero(zz, scan.se);
      var end := EndOfBlock(ac, ke < scan.se, []);
      SymsFront(Sym(false, ac, 0), []);
      if ke > 0 {
        SymsAc(ac, zz, ke, 1, end);
      }
      SymsDc(dc, it.block[0] - last, AcBlock(ac, zz, scan.se, []));
    case DcFirst =>
      SymsDc(dc, DcValue(scan, it.block) - last, []);
    case DcRefine =>
      SymsFront(Raw(DcValue(scan, it.block), 1), []);
      assert [Raw(DcValue(scan, it.block), 1)] + [] == [Raw(DcValue(scan, it.block), 1)];
    case AcFirst =>
      var ke := LastNonzero(zz, scan.se);
      if ke >= scan.ss {
        SymsAc(ac, zz, ke, scan.ss, []);
      }
    case AcRefine =>
      var eob := LastNew(zz, scan.ss, scan.se);
      if eob != 0 {
        SymsRefine(ac, zz, eob, scan.ss, []);
      }
  }

  lemma NoSyms()
    ensures Syms([]) == 0
  {
  }

  ghost predicate AllSmall(parts: seq<Part>) {
    forall i :: 0 <= i < |parts| ==> PartSyms(parts[i]) <= 64
  }

  lemma {:induction false} SmallParts(scan: Scan, last: seq<int>, items: seq<Item>)
    requires scan.Ok() && |last| == scan.NumComps() && ItemsOk(scan, items)
    ensures AllSmall(Parts(scan, last, items))
    decreases |items|
  {
    hide BlockPart, NextLast, PartSyms, OrderOk;
    if items != [] {
      SymsOfPart(scan, last[items[0].comp], items[0]);
      SmallParts(scan, NextLast(scan, last, items[0]), items[1..]);
    }
  }

  /** The symbol of a run is at most one for each of its blocks. */
  lemma {:induction false} SymsStream(tbl: nat, parts: seq<Part>)
    requires AllSmall(parts)
    ensures Syms(Stream(tbl, parts)) <= 64 * |parts|
    decreases |parts|, 0
  {
    hide Syms, Pending;
    if parts == [] {
      NoSyms();
    } else {
      var p := parts[0];
      SymsConcat(p.explicit, Stream(tbl, parts[1..]));
      SymsConcat(p.explicit, Pending(tbl, 1, p.tail, parts[1..]));
      if p.eob {
        SymsPending(tbl, 1, p.tail, parts[1..]);
      } else {
        SymsStream(tbl, parts[1..]);
      }
    }
  }

  lemma {:induction false} SymsPending(tbl: nat, r: nat, be: seq<Bit>, parts: seq<Part>)
    requires AllSmall(parts) && 1 <= r <= MAX_EOBRUN
    ensures Syms(Pending(tbl, r, be, parts)) <= 1 + 64 * |parts|
    decreases |parts|, 2
  {
    hide Syms, EobRun, Within, BitCount;
    var m := RunMore(r, |be|, parts);
    hide RunMore;
    var rest := RawBits(be, Within(tbl, m, parts));
    SymsWithin(tbl, m, parts);
    SymsRaw(be, Within(tbl, m, parts));
    UnfoldEobRun(tbl, r + m, rest);
    var nbits := BitCount(r + m) - 1;
    SymsFront(Raw(r + m, nbits), rest);
    SymsFront(Sym(false, tbl, 16 * nbits), rest);
    SymsFront(Sym(false, tbl, 16 * nbits), [Raw(r + m, nbits)] + rest);
  }

  lemma {:induction false} SymsWithin(tbl: nat, e: nat, parts: seq<Part>)
    requires AllSmall(parts) && e <= |parts|
    ensures Syms(Within(tbl, e, parts)) <= 64 * |parts|
    decreases |parts|, 1
  {
    hide Syms, Stream, PartSyms;
    if e == 0 {
      SymsStream(tbl, parts);
    } else {
      SymsWithin(tbl, e - 1, parts[1..]);
      SymsRaw(parts[0].tail, Within(tbl, e - 1, parts[1..]));
    }
  }

  /** The symbols of a segment. */
  lemma SymsOfSegment(scan: Scan, mcus: seq<Segments.Mcu>, r: nat, i: nat)
    requires E.HuffOk(scan) && McusOk(scan, mcus)
    ensures var s := FirstMcu(|mcus|, r, i);
            Syms(R.SegmentTokens(scan, mcus, r, i)) <= 64 * |Flat(mcus[s..SegmentLimit(|mcus|, r, s)])|
  {
    hide Syms, Stream, AllSmall, Parts, OrderOk;
    var s := FirstMcu(|mcus|, r, i);
    var part := mcus[s..SegmentLimit(|mcus|, r, s)];
    FlatOk(scan, part);
    SmallParts(scan, R.FreshLast(scan), Flat(part));
    SymsStream(E.RunTbl(scan), Parts(scan, R.FreshLast(scan), Flat(part)));
  }

  lemma {:induction false} FlatConcat(a: seq<Segments.Mcu>, b: seq<Segments.Mcu>)
    ensures Flat(a + b) == Flat(a) + Flat(b)
    decreases |a|
  {
    if a == [] {
      assert a + b == b;
    } else {
      FlatConcat(a[1..], b);
      assert (a + b)[1..] == a[1..] + b;
    }
  }
}
