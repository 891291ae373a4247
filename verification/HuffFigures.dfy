/** The symbols of the Huffman coder written out, with the limits of the library and of sections
    F.1.2 and G.1.2 of ITU-T T.81 in numbers. */
module HuffFigures {
  import opened Bits
  import opened BitStrings
  import opened Scans
  import opened CodeCounts
  import opened HuffCodes
  import opened HuffModel
  import opened Segments
  import R = HuffRoundTrip
  import E = HuffScanEncoder

  // Values.

  /** The category of a value. */
  lemma {:induction false} CategoryOf(v: nat, n: nat)
    ensures BitCount(v) <= n <==> v < Pow2(n)
    ensures BitCount(v) == n + 1 <==> Pow2(n) <= v < Pow2(n + 1)
  {
    if v == 0 {
    } else if n == 0 {
      assert Pow2(0) == 1 && Pow2(1) == 2;
    } else {
      CategoryOf(v / 2, n - 1);
    }
  }

  lemma Limits()
    ensures Pow2(10) == 1024 && Pow2(11) == 2048 && Pow2(14) == 0x4000 && Pow2(15) == 0x8000
  {
    Pow2Small();
    assert Pow2(11) == 2 * Pow2(10) && Pow2(13) == 4 * Pow2(11) && Pow2(15) == 4 * Pow2(13);
  }

  /** A block can be coded exactly if no DC difference is above 2047 and no AC value is above 1023, after
      the point transform. */
  lemma CodableInNumbers(scan: Scan, last: int, b: Block)
    requires scan.Ok()
    ensures scan.kind == Sequential ==>
              (Codable(scan, last, b) <==>
               Abs(b[0] - last) <= 2047 && forall k :: 1 <= k <= scan.se ==> Abs(b[scan.order[k]]) <= 1023)
    ensures scan.kind == DcFirst ==> (Codable(scan, last, b) <==> Abs(DcValue(scan, b) - last) <= 2047)
    ensures scan.kind == AcFirst ==>
              (Codable(scan, last, b) <==>
               forall k :: scan.ss <= k <= scan.se ==> Abs(PointTransform(b[scan.order[k]], scan.al)) <= 1023)
    ensures scan.kind == DcRefine || scan.kind == AcRefine ==> Codable(scan, last, b)
  {
    hide BitCount, InRange, Pow2, OrderOk, PointTransform, DcValue;
    var zz := Zigzag(scan.order, b, if scan.kind == Sequential then 0 else scan.al);
    RangeIs(zz, if scan.kind == Sequential then 1 else scan.ss, scan.se);
    DiffIs(b[0] - last);
    DiffIs(DcValue(scan, b) - last);
    NoTransform(scan.order, b);
  }

  lemma NoTransform(order: seq<nat>, b: Block)
    requires OrderOk(order)
    ensures forall k :: 0 <= k < 64 ==> Zigzag(order, b, 0)[k] == b[order[k]]
  {
    assert Pow2(0) == 1;
  }

  lemma DiffIs(d: int)
    ensures BitCount(Abs(d)) <= MAX_COEF_BITS + 1 <==> Abs(d) <= 2047
  {
    Limits();
    CategoryOf(Abs(d), 11);
  }

  lemma RangeIs(zz: seq<int>, k: nat, ke: nat)
    requires ke < |zz|
    ensures InRange(zz, k, ke) <==> forall i :: k <= i <= ke ==> Abs(zz[i]) <= 1023
  {
    Limits();
    hide BitCount, Pow2;
    forall i | k <= i <= ke
      ensures BitCount(Abs(zz[i])) <= MAX_COEF_BITS <==> Abs(zz[i]) <= 1023
    {
      CategoryOf(Abs(zz[i]), 10);
    }
  }

  /** A DC difference of n + 1 bits: the symbol n + 1 and these bits, a negative one less one. */
  lemma DcTokensAre(tbl: nat, diff: int, n: nat, rest: seq<Token>)
    ensures diff == 0 ==> DcTokens(tbl, diff, rest) == [Sym(true, tbl, 0)] + rest
    ensures n <= 10 && Pow2(n) <= Abs(diff) < Pow2(n + 1) ==>
              DcTokens(tbl, diff, rest) ==
              [Sym(true, tbl, n + 1)] + ([Raw(if diff < 0 then diff - 1 else diff, n + 1)] + rest)
  {
    CategoryOf(Abs(diff), n);
  }

  function ZeroRuns(tbl: nat, m: nat): seq<Token> {
    seq(m, _ => Sym(false, tbl, 0xF0))
  }

  /** A run of zeros and an AC value of n + 1 bits: a symbol for each 16 zeros, and one with the number
      of the other zeros and that of the bits. */
  lemma {:induction false} AcFromIs(tbl: nat, zz: seq<int>, ke: nat, k: nat, j: nat, n: nat, rest: seq<Token>)
    requires k <= j <= ke < |zz| && zz[ke] != 0 && (forall i :: k <= i < j ==> zz[i] == 0)
    requires n <= 9 && Pow2(n) <= Abs(zz[j]) < Pow2(n + 1)
    ensures AcFrom(tbl, zz, ke, k, rest) ==
            ZeroRuns(tbl, (j - k) / 16) +
            ([Sym(false, tbl, (j - k) % 16 * 16 + (n + 1))] +
             ([Raw(if zz[j] < 0 then zz[j] - 1 else zz[j], n + 1)] + AcFrom(tbl, zz, ke, j + 1, rest)))
    decreases j - k
  {
    hide NextNonzero, AcFrom, Pow2, BitCount, ZeroRuns;
    assert zz[j] != 0;
    NextIsAt(zz, k, ke, j);
    if j - k >= 16 {
      SixteenZeros(tbl, zz, ke, k, rest);
      AcFromIs(tbl, zz, ke, k + 16, j, n, rest);
      Sixteens(tbl, j - k, [Sym(false, tbl, (j - k) % 16 * 16 + (n + 1))] +
      ([Raw(if zz[j] < 0 then zz[j] - 1 else zz[j], n + 1)] + AcFrom(tbl, zz, ke, j + 1, rest)));
    } else {
      NextValue(tbl, zz, ke, k, n, rest);
      NoSixteens(tbl, j - k);
    }
  }

  lemma NoSixteens(tbl: nat, m: nat)
    requires m < 16
    ensures m / 16 == 0 && m % 16 == m && ZeroRuns(tbl, 0) == []
  {
  }

  lemma SixteenZeros(tbl: nat, zz: seq<int>, ke: nat, k: nat, rest: seq<Token>)
    requires k <= ke < |zz| && zz[ke] != 0 && NextNonzero(zz, k, ke) - k >= 16
    ensures AcFrom(tbl, zz, ke, k, rest) == [Sym(false, tbl, 0xF0)] + AcFrom(tbl, zz, ke, k + 16, rest)
  {
    UnfoldAcFrom(tbl, zz, ke, k, rest);
  }

  lemma NextValue(tbl: nat, zz: seq<int>, ke: nat, k: nat, n: nat, rest: seq<Token>)
    requires k <= ke < |zz| && zz[ke] != 0 && n <= 9
    requires NextNonzero(zz, k, ke) - k < 16 && Pow2(n) <= Abs(zz[NextNonzero(zz, k, ke)]) < Pow2(n + 1)
    ensures var j := NextNonzero(zz, k, ke);
            AcFrom(tbl, zz, ke, k, rest) ==
            [Sym(false, tbl, (j - k) * 16 + (n + 1))] +
            ([Raw(if zz[j] < 0 then zz[j] - 1 else zz[j], n + 1)] + AcFrom(tbl, zz, ke, j + 1, rest))
  {
    hide NextNonzero, AcFrom, Pow2, BitCount;
    var j := NextNonzero(zz, k, ke);
    CategoryOf(Abs(zz[j]), n);
    UnfoldAcFrom(tbl, zz, ke, k, rest);
  }

  lemma Sixteens(tbl: nat, m: nat, after: seq<Token>)
    requires m >= 16
    ensures m / 16 == (m - 16) / 16 + 1 && m % 16 == (m - 16) % 16
    ensures ZeroRuns(tbl, m / 16) + after == [Sym(false, tbl, 0xF0)] + (ZeroRuns(tbl, (m - 16) / 16) + after)
  {
    assert ZeroRuns(tbl, m / 16) == [Sym(false, tbl, 0xF0)] + ZeroRuns(tbl, (m - 16) / 16);
  }

  lemma {:induction false} NextIsAt(zz: seq<int>, k: nat, ke: nat, j: nat)
    requires k <= j <= ke < |zz| && zz[ke] != 0 && zz[j] != 0 && forall i :: k <= i < j ==> zz[i] == 0
    ensures NextNonzero(zz, k, ke) == j
    decreases j - k
  {
    if k < j {
      NextIsAt(zz, k + 1, ke, j);
    }
  }

  // Runs of blocks.

  /** A run of n blocks, of 2^k to 2^(k + 1) - 1: the symbol for k, and the k low bits of n. */
  lemma EobRunIs(tbl: nat, n: nat, k: nat, rest: seq<Token>)
    requires k <= 14 && Pow2(k) <= n < Pow2(k + 1) && n <= 0x7FFF
    ensures 1 <= n
    ensures EobRun(tbl, n, rest) == [Sym(false, tbl, 16 * k)] + if k > 0 then [Raw(n, k)] + rest else rest
  {
    CategoryOf(n, k);
    UnfoldEobRun(tbl, n, rest);
  }

  /** A block without coefficients to be coded joins the run, unless this has 0x7FFF blocks already, or
      more than 937 correction bits; then the run is coded. */
  lemma RunGoesOn(tbl: nat, r: nat, be: seq<Bit>, tail: seq<Bit>, parts: seq<Part>)
    requires 1 <= r <= 0x7FFF
    ensures r < 0x7FFF && |be| <= 937 ==>
              Pending(tbl, r, be, [Part([], true, tail)] + parts) == Pending(tbl, r + 1, be + tail, parts)
    ensures r == 0x7FFF || |be| > 937 ==>
              Pending(tbl, r, be, [Part([], true, tail)] + parts) ==
              EobRun(tbl, r, RawBits(be, Stream(tbl, [Part([], true, tail)] + parts)))
  {
    hide Pending, EobRun, Stream;
    if r < 0x7FFF && |be| <= 937 {
      JoinRun(tbl, r, be, Part([], true, tail), parts);
    } else {
      EndRun(tbl, r, be, [Part([], true, tail)] + parts);
    }
  }

  /** A block with coefficients to be coded ends it. */
  lemma RunIsOver(tbl: nat, r: nat, be: seq<Bit>, p: Part, parts: seq<Part>)
    requires 1 <= r <= 0x7FFF && (p.explicit != [] || !p.eob)
    ensures Pending(tbl, r, be, []) == EobRun(tbl, r, RawBits(be, []))
    ensures Pending(tbl, r, be, [p] + parts) == EobRun(tbl, r, RawBits(be, Stream(tbl, [p] + parts)))
  {
    EndRun(tbl, r, be, []);
    EndRun(tbl, r, be, [p] + parts);
  }

  /** The refinement of the coefficients 3, 0, -1, -2, 0, 1, 5 (index 1 to 7). */
  lemma RefinementExample(tbl: nat, rest: seq<Token>)
    ensures RefineFrom(tbl, [9, 3, 0, -1, -2, 0, 1, 5], 6, 1, rest) ==
            [Sym(false, tbl, 0x11), Raw(0, 1), Raw(1, 1), Sym(false, tbl, 0x11), Raw(1, 1), Raw(0, 1)] + rest
    ensures Corrections([9, 3, 0, -1, -2, 0, 1, 5], 7, 8) == [1]
  {
    hide RefineFrom, RunEnd, ZeroCount, RawBits;
    var zz := [9, 3, 0, -1, -2, 0, 1, 5];
    FirstOfExample(zz, tbl, rest);
    SecondOfExample(zz, tbl, rest);
    EndOfExample(zz, tbl, rest);
    OneBit(0, rest);
    var after := [Sym(false, tbl, 0x11), Raw(1, 1), Raw(0, 1)] + rest;
    OneBit(1, after);
    assert [Sym(false, tbl, 0x11)] + ([Raw(1, 1)] + ([Raw(0, 1)] + rest)) == after;
    assert [Sym(false, tbl, 0x11)] + ([Raw(0, 1)] + ([Raw(1, 1)] + after)) ==
      [Sym(false, tbl, 0x11), Raw(0, 1), Raw(1, 1), Sym(false, tbl, 0x11), Raw(1, 1), Raw(0, 1)] + rest;
    assert Corrections(zz, 7, 8) == [1] by { assert Corrections(zz, 8, 8) == []; }
  }

  lemma OneBit(b: Bit, rest: seq<Token>)
    ensures RawBits([b], rest) == [Raw(b, 1)] + rest
  {
    assert [b][1..] == [];
  }

  lemma FirstOfExample(zz: seq<int>, tbl: nat, rest: seq<Token>)
    requires zz == [9, 3, 0, -1, -2, 0, 1, 5]
    ensures RefineFrom(tbl, zz, 6, 1, rest) ==
            [Sym(false, tbl, 0x11)] + ([Raw(0, 1)] + RawBits([1], RefineFrom(tbl, zz, 6, 4, rest)))
  {
    assert RunEnd(zz, 6, 1, 0) == 3 by { assert RunEnd(zz, 6, 2, 0) == RunEnd(zz, 6, 3, 1) == 3; }
    assert Corrections(zz, 1, 3) == [1] by { assert Corrections(zz, 2, 3) == []; }
    assert ZeroCount(zz, 1, 3) == 1 by { assert ZeroCount(zz, 2, 3) == 1; }
    UnfoldRefineFrom(tbl, zz, 6, 1, rest);
    hide RefineFrom, RunEnd, ZeroCount, Corrections, RawBits;
  }

  lemma SecondOfExample(zz: seq<int>, tbl: nat, rest: seq<Token>)
    requires zz == [9, 3, 0, -1, -2, 0, 1, 5]
    ensures RefineFrom(tbl, zz, 6, 4, rest) ==
            [Sym(false, tbl, 0x11)] + ([Raw(1, 1)] + RawBits([0], RefineFrom(tbl, zz, 6, 7, rest)))
  {
    assert RunEnd(zz, 6, 4, 0) == 6 by { assert RunEnd(zz, 6, 5, 0) == RunEnd(zz, 6, 6, 1) == 6; }
    assert Corrections(zz, 4, 6) == [0] by { assert Corrections(zz, 5, 6) == []; }
    assert ZeroCount(zz, 4, 6) == 1 by { assert ZeroCount(zz, 5, 6) == 1; }
    UnfoldRefineFrom(tbl, zz, 6, 4, rest);
    hide RefineFrom, RunEnd, ZeroCount, Corrections, RawBits;
  }

  lemma EndOfExample(zz: seq<int>, tbl: nat, rest: seq<Token>)
    requires zz == [9, 3, 0, -1, -2, 0, 1, 5]
    ensures RefineFrom(tbl, zz, 6, 7, rest) == rest
  {
  }

  // Predictions.

  /** Without a block of the same component before it, a block is coded with the prediction at hand. */
  lemma {:induction false} FirstBlockIs(scan: Scan, last: seq<int>, items: seq<Item>, n: nat)
    requires scan.Ok() && |last| == scan.NumComps() && ItemsOk(scan, items) && n < |items|
    requires NoneBetween(items, -1, n, items[n].comp)
    ensures Parts(scan, last, items)[n] == BlockPart(scan, last[items[n].comp], items[n])
    decreases n
  {
    hide BlockPart, OrderOk, DcValue;
    if n > 0 {
      FirstBlockIs(scan, NextLast(scan, last, items[0]), items[1..], n - 1);
    }
  }

  /** Otherwise with the value of the last one. */
  lemma {:induction false} NextBlockIs(scan: Scan, last: seq<int>, items: seq<Item>, m: nat, n: nat)
    requires scan.Ok() && |last| == scan.NumComps() && ItemsOk(scan, items) && m < n < |items| && scan.UsesDc()
    requires items[m].comp == items[n].comp && NoneBetween(items, m, n, items[n].comp)
    ensures Parts(scan, last, items)[n] == BlockPart(scan, DcValue(scan, items[m].block), items[n])
    decreases n
  {
    hide BlockPart, OrderOk, DcValue;
    if m > 0 {
      NextBlockIs(scan, NextLast(scan, last, items[0]), items[1..], m - 1, n - 1);
    } else {
      FirstBlockIs(scan, NextLast(scan, last, items[0]), items[1..], n - 1);
    }
  }

  /** Segment i has the MCUs from ir to ir + r - 1, or to the last one, and starts with predictions
      of 0. */
  lemma SegmentIs(scan: Scan, mcus: seq<Mcu>, r: nat, i: nat)
    requires E.HuffOk(scan) && McusOk(scan, mcus) && r > 0 && i * r <= |mcus|
    ensures 0 <= i * r
    ensures var last := if i * r + r <= |mcus| then i * r + r else |mcus|;
            && ItemsOk(scan, Flat(mcus[i * r..last]))
            && R.SegmentTokens(scan, mcus, r, i) ==
               Stream(E.RunTbl(scan), Parts(scan, seq(scan.NumComps(), _ => 0), Flat(mcus[i * r..last])))
  {
    hide Parts, Stream, OrderOk, FirstMcu;
    SegmentStart(|mcus|, r, i);
    FlatOk(scan, mcus[i * r..SegmentLimit(|mcus|, r, i * r)]);
  }

  // Code words.

  /** The first code word is zero; the next one is one more, with zeros appended up to its length. */
  lemma {:induction false} CodeWordsFollow(bits: seq<Byte>, p: nat)
    requires |bits| == 17 && p < Codes(bits, 16)
    ensures 1 <= Length(bits, p) <= 16
    ensures p == 0 ==> CodeWord(bits, p) == 0
    ensures p > 0 ==>
              Length(bits, p - 1) <= Length(bits, p) &&
              CodeWord(bits, p) == (CodeWord(bits, p - 1) + 1) * Pow2(Length(bits, p) - Length(bits, p - 1))
  {
    LengthWithin(bits, p);
    hide Codes, Space, Length, Pow2, CodeWord;
    if p == 0 {
      FirstCodeWord(bits);
    } else {
      LengthWithin(bits, p - 1);
      var k, l := Length(bits, p - 1), Length(bits, p);
      Lengths(bits, k, l, p);
      if k < l {
        LongerCodeWord(bits, p, k, l);
      } else {
        SameLength(bits, p, l);
      }
    }
  }

  lemma FirstCodeWord(bits: seq<Byte>)
    requires |bits| == 17 && 0 < Codes(bits, 16)
    ensures CodeWord(bits, 0) == 0
  {
    LengthWithin(bits, 0);
    CountsMono(bits, 0, Length(bits, 0) - 1);
  }

  /** Between the lengths of code words p - 1 and p there is none. */
  lemma Lengths(bits: seq<Byte>, k: nat, l: nat, p: nat)
    requires |bits| == 17 && 1 <= k <= 16 && 1 <= l <= 16
    requires Codes(bits, k - 1) <= p - 1 < Codes(bits, k) && Codes(bits, l - 1) <= p < Codes(bits, l)
    ensures k <= l
    ensures k < l ==> Codes(bits, k) == Codes(bits, l - 1) == p
  {
    hide Codes, Space, Pow2;
    if l < k {
      CountsMono(bits, l, k - 1);
    } else if k < l {
      CountsMono(bits, k, l - 1);
    }
  }

  lemma SameLength(bits: seq<Byte>, p: nat, l: nat)
    requires |bits| == 17 && 1 <= p < Codes(bits, 16) && Length(bits, p - 1) == Length(bits, p) == l
    ensures CodeWord(bits, p) == (CodeWord(bits, p - 1) + 1) * Pow2(l - l)
  {
    LengthWithin(bits, p);
    hide Codes, Space, Length;
  }

  lemma LongerCodeWord(bits: seq<Byte>, p: nat, k: nat, l: nat)
    requires |bits| == 17 && 1 <= p < Codes(bits, 16) && Length(bits, p - 1) == k < l == Length(bits, p) <= 16 && k >= 1
    requires Codes(bits, k) == Codes(bits, l - 1) == p
    ensures CodeWord(bits, p) == (CodeWord(bits, p - 1) + 1) * Pow2(l - k)
  {
    hide Codes, Space, Length, Pow2;
    NoneSkipped(bits, k, l);
    assert CodeWord(bits, p - 1) + 1 == Space(bits, k);
  }

  /** When no code has a length from k + 1 to l - 1. */
  lemma NoneSkipped(bits: seq<Byte>, k: nat, l: nat)
    requires 1 <= k < l <= 16 && |bits| == 17 && Codes(bits, k) == Codes(bits, l - 1)
    ensures 2 * Space(bits, l - 1) == Space(bits, k) * Pow2(l - k)
    ensures Space(bits, k) - Codes(bits, k) == 2 * Space(bits, k - 1) - Codes(bits, k - 1)
  {
    CountsMono(bits, k, l - 1);
    assert Pow2(l - k) == 2 * Pow2(l - 1 - k);
    DoubledProduct(Space(bits, k), Pow2(l - 1 - k));
    assert Space(bits, k) == 2 * Space(bits, k - 1) + bits[k];
    assert Codes(bits, k) == Codes(bits, k - 1) + bits[k];
  }

  lemma TwoLengths(bits: seq<int>, l: nat)
    requires l + 2 < |bits|
    ensures Codes(bits, l + 2) == Codes(bits, l) + bits[l + 1] + bits[l + 2]
    ensures Space(bits, l + 2) == 4 * Space(bits, l) + 2 * bits[l + 1] + bits[l + 2]
  {
    assert Codes(bits, l + 1) == Codes(bits, l) + bits[l + 1];
    assert Space(bits, l + 1) == 2 * Space(bits, l) + bits[l + 1];
  }

  lemma EightLengths(bits: seq<int>, l: nat)
    requires l + 8 < |bits|
    ensures Codes(bits, l + 8) == Codes(bits, l) + bits[l + 1] + bits[l + 2] + bits[l + 3] + bits[l + 4]
                                  + bits[l + 5] + bits[l + 6] + bits[l + 7] + bits[l + 8]
    ensures Space(bits, l + 8) == 256 * Space(bits, l) + 128 * bits[l + 1] + 64 * bits[l + 2] + 32 * bits[l + 3]
                                  + 16 * bits[l + 4] + 8 * bits[l + 5] + 4 * bits[l + 6] + 2 * bits[l + 7] + bits[l + 8]
  {
    hide Codes, Space;
    TwoLengths(bits, l);
    TwoLengths(bits, l + 2);
    TwoLengths(bits, l + 4);
    TwoLengths(bits, l + 6);
  }

  lemma SixteenLengths(b: seq<int>)
    requires |b| == 17
    ensures Codes(b, 16) == b[1] + b[2] + b[3] + b[4] + b[5] + b[6] + b[7] + b[8]
                            + b[9] + b[10] + b[11] + b[12] + b[13] + b[14] + b[15] + b[16]
    ensures Space(b, 16) == 32768 * b[1] + 16384 * b[2] + 8192 * b[3] + 4096 * b[4] + 2048 * b[5] + 1024 * b[6]
                            + 512 * b[7] + 256 * b[8] + 128 * b[9] + 64 * b[10] + 32 * b[11] + 16 * b[12] + 8 * b[13]
                            + 4 * b[14] + 2 * b[15] + b[16]
  {
    assert Codes(b, 0) == 0 && Space(b, 0) == 0;
    hide Codes, Space;
    EightLengths(b, 0);
    EightLengths(b, 8);
  }

  /** What makes a table acceptable, in numbers. */
  lemma LegalInNumbers(bits: seq<Byte>)
    requires |bits| == 17
    ensures var b: seq<int> := bits;
            Legal(bits) <==>
            && b[1] + b[2] + b[3] + b[4] + b[5] + b[6] + b[7] + b[8]
               + b[9] + b[10] + b[11] + b[12] + b[13] + b[14] + b[15] + b[16] <= 256
            && 32768 * b[1] + 16384 * b[2] + 8192 * b[3] + 4096 * b[4] + 2048 * b[5] + 1024 * b[6] + 512 * b[7]
               + 256 * b[8] + 128 * b[9] + 64 * b[10] + 32 * b[11] + 16 * b[12] + 8 * b[13] + 4 * b[14] + 2 * b[15]
               + b[16] < 65536
  {
    hide Codes, Space, Pow2;
    SixteenLengths(bits);
    Pow2Small();
  }
}
