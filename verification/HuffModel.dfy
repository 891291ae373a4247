/** What the Huffman coder of a scan puts out, as symbols and raw bits, in the order in which
    they stand in the file: sections F.1.2 and G.1.2 of ITU-T T.81.

    An end-of-band symbol stands for a whole run of blocks and precedes the correction bits of
    all of them, so the coder knows it only some blocks later. Here it is said what the run
    is, looking ahead; Pending says what a coder that is behind still owes. */
module HuffModel {
  import opened Bits
  import opened BitStrings
  import opened Scans

  const NUM_HUFF_TBLS := 4
  const MAX_COEF_BITS := 10   // for 8-bit samples
  const MAX_CORR_BITS := 1000
  const MAX_EOBRUN := 0x7FFF
  const BE_LIMIT := MAX_CORR_BITS - 64 + 1  // more buffered bits than this force out the run

  datatype Token = Sym(dc: bool, tbl: nat, symbol: Byte) | Raw(value: int, size: nat)

  /** Stands for the error exit that is taken for a value out of range. */
  const ERROR_EXIT := Raw(0, 0)

  /** A block: what is coded before its end of band, whether it has one, and the correction
      bits that follow it. */
  datatype Part = Part(explicit: seq<Token>, eob: bool, tail: seq<Bit>)

  predicate OnlyEob(p: Part) {
    p.explicit == [] && p.eob
  }

  /** The number of bits of v. */
  function BitCount(v: nat): (n: nat)
    ensures v < Pow2(n) && (v > 0 ==> n > 0 && Pow2(n - 1) <= v)
  {
    if v == 0 then 0 else BitCount(v / 2) + 1
  }

  /** How many further blocks join an end-of-band run of r blocks with be correction bits. */
  function RunMore(r: nat, be: nat, parts: seq<Part>): (m: nat)
    ensures m <= |parts| && (forall i :: 0 <= i < m ==> OnlyEob(parts[i]))
    ensures r <= MAX_EOBRUN ==> r + m <= MAX_EOBRUN
    decreases |parts|
  {
    if r >= MAX_EOBRUN || be > BE_LIMIT || parts == [] || !OnlyEob(parts[0]) then 0
    else 1 + RunMore(r + 1, be + |parts[0].tail|, parts[1..])
  }

  function RawBits(b: seq<Bit>, rest: seq<Token>): seq<Token> {
    if b == [] then rest else [Raw(b[0], 1)] + RawBits(b[1..], rest)
  }

  /** The symbol for a run of n blocks and the bits of n below the top one. */
  function EobRun(tbl: nat, n: nat, rest: seq<Token>): seq<Token>
    requires 1 <= n <= MAX_EOBRUN
  {
    RunSymbol(n);
    var nbits := BitCount(n) - 1;
    [Sym(false, tbl, 16 * nbits)] + if nbits > 0 then [Raw(n, nbits)] + rest else rest
  }

  lemma UnfoldEobRun(tbl: nat, n: nat, rest: seq<Token>)
    requires 1 <= n <= MAX_EOBRUN
    ensures 1 <= BitCount(n) <= 15
    ensures var nbits := BitCount(n) - 1;
            EobRun(tbl, n, rest) == [Sym(false, tbl, 16 * nbits)] + if nbits > 0 then [Raw(n, nbits)] + rest else rest
  {
    RunSymbol(n);
  }

  lemma RunSymbol(n: nat)
    requires 1 <= n <= MAX_EOBRUN
    ensures 1 <= BitCount(n) <= 15
  {
    Pow2Small();
    if BitCount(n) > 15 {
      Pow2Mono(15, BitCount(n) - 1);
    }
  }

  /** Blocks from a block boundary on. */
  function Stream(tbl: nat, parts: seq<Part>): seq<Token>
    decreases |parts|, 0
  {
    if parts == [] then []
    else if parts[0].eob then parts[0].explicit + Pending(tbl, 1, parts[0].tail, parts[1..])
    else parts[0].explicit + Stream(tbl, parts[1..])
  }

  /** A run of r blocks whose symbol has not been put out, with its correction bits so far. */
  function Pending(tbl: nat, r: nat, be: seq<Bit>, parts: seq<Part>): seq<Token>
    requires r <= MAX_EOBRUN
    decreases |parts|, 2
  {
    if r == 0 then Stream(tbl, parts)
    else
      var m := RunMore(r, |be|, parts);
      EobRun(tbl, r + m, RawBits(be, Within(tbl, m, parts)))
  }

  /** e more blocks of a run whose symbol has been put out. */
  function Within(tbl: nat, e: nat, parts: seq<Part>): seq<Token>
    requires e <= |parts|
    decreases |parts|, 1
  {
    if e == 0 then Stream(tbl, parts) else RawBits(parts[0].tail, Within(tbl, e - 1, parts[1..]))
  }

  // A coder that is r blocks behind keeps up with the stream.

  lemma {:induction false} RawBitsConcat(a: seq<Bit>, b: seq<Bit>, rest: seq<Token>)
    ensures RawBits(a + b, rest) == RawBits(a, RawBits(b, rest))
  {
    if a == [] {
      assert a + b == b;
    } else {
      assert (a + b)[1..] == a[1..] + b;
      RawBitsConcat(a[1..], b, rest);
    }
  }

  /** A block with nothing but an end of band joins the run. */
  lemma JoinRun(tbl: nat, r: nat, be: seq<Bit>, p: Part, parts: seq<Part>)
    requires r < MAX_EOBRUN && |be| <= BE_LIMIT && OnlyEob(p) && (r == 0 ==> be == [])
    ensures Pending(tbl, r, be, [p] + parts) == Pending(tbl, r + 1, be + p.tail, parts)
  {
    hide EobRun;
    var all := [p] + parts;
    assert all[1..] == parts && all[0] == p;
    if r == 0 {
      assert [] + p.tail == p.tail;
      assert Stream(tbl, all) == [] + Pending(tbl, 1, p.tail, parts);
    } else {
      var m := RunMore(r + 1, |be| + |p.tail|, parts);
      assert RunMore(r, |be|, all) == 1 + m;
      RawBitsConcat(be, p.tail, Within(tbl, m, parts));
      assert Within(tbl, 1 + m, all) == RawBits(p.tail, Within(tbl, m, parts));
    }
  }

  /** The run ends where nothing can join it. */
  lemma EndRun(tbl: nat, r: nat, be: seq<Bit>, parts: seq<Part>)
    requires 1 <= r <= MAX_EOBRUN
    requires r == MAX_EOBRUN || |be| > BE_LIMIT || parts == [] || !OnlyEob(parts[0])
    ensures Pending(tbl, r, be, parts) == EobRun(tbl, r, RawBits(be, Stream(tbl, parts)))
  {
  }

  // Blocks.

  /** A nonzero or DC value: the symbol comes with the number of bits n of the magnitude;
      negative values are stored decremented. */
  function ValueBits(v: int): (t: Token)
  {
    Raw(if v < 0 then v - 1 else v, BitCount(Abs(v)))
  }

  function DcTokens(tbl: nat, diff: int, rest: seq<Token>): seq<Token> {
    if BitCount(Abs(diff)) > MAX_COEF_BITS + 1 then [ERROR_EXIT] + rest
    else if diff == 0 then [Sym(true, tbl, 0)] + rest
    else [Sym(true, tbl, BitCount(Abs(diff)))] + ([ValueBits(diff)] + rest)
  }

  /** The next nonzero coefficient. */
  function NextNonzero(zz: seq<int>, k: nat, ke: nat): (j: nat)
    requires k <= ke < |zz| && zz[ke] != 0
    ensures k <= j <= ke && zz[j] != 0 && forall i :: k <= i < j ==> zz[i] == 0
    decreases ke - k
  {
    if zz[k] != 0 then k else NextNonzero(zz, k + 1, ke)
  }

  /** Magnitudes that the code has symbols for. */
  predicate InRange(zz: seq<int>, k: nat, ke: nat)
    requires ke < |zz|
  {
    forall i :: k <= i <= ke ==> BitCount(Abs(zz[i])) <= MAX_COEF_BITS
  }

  /** Coefficients k .. ke of a first scan, ke being the last nonzero one: runs of zeros, 16 at
      a time, and nonzero values. */
  function AcFrom(tbl: nat, zz: seq<int>, ke: nat, k: nat, rest: seq<Token>): seq<Token>
    requires ke < |zz| && (k <= ke ==> zz[ke] != 0)
    decreases ke + 1 - k
  {
    if k > ke then rest
    else
      var j := NextNonzero(zz, k, ke);
      if j - k >= 16 then [Sym(false, tbl, 0xF0)] + AcFrom(tbl, zz, ke, k + 16, rest)
      else if BitCount(Abs(zz[j])) > MAX_COEF_BITS then [ERROR_EXIT] + AcFrom(tbl, zz, ke, j + 1, rest)
      else
        [Sym(false, tbl, (j - k) * 16 + BitCount(Abs(zz[j])))] +
        ([ValueBits(zz[j])] + AcFrom(tbl, zz, ke, j + 1, rest))
  }

  /** The correction bits of the coefficients k .. j - 1 that were nonzero before. */
  function Corrections(zz: seq<int>, k: nat, j: nat): seq<Bit>
    requires j <= |zz|
    decreases j - k
  {
    if k >= j then [] else (if Abs(zz[k]) >= 2 then [Abs(zz[k]) % 2] else []) + Corrections(zz, k + 1, j)
  }

  function ZeroCount(zz: seq<int>, k: nat, j: nat): (n: nat)
    requires j <= |zz|
    ensures k <= j ==> n <= j - k
    decreases j - k
  {
    if k >= j then 0 else (if zz[k] == 0 then 1 else 0) + ZeroCount(zz, k + 1, j)
  }

  /** Where the run that starts at k ends: at the next newly nonzero coefficient, or at its
      16th zero, z of them counted already. */
  function RunEnd(zz: seq<int>, eob: nat, k: nat, z: nat): (j: nat)
    requires k <= eob < |zz| && Abs(zz[eob]) == 1 && z <= 15
    ensures k <= j <= eob && (Abs(zz[j]) == 1 || zz[j] == 0)
    ensures forall i :: k <= i < j ==> Abs(zz[i]) != 1
    ensures z + ZeroCount(zz, k, j) <= 15 && (zz[j] == 0 ==> z + ZeroCount(zz, k, j) == 15)
    decreases eob - k
  {
    if Abs(zz[k]) == 1 || (zz[k] == 0 && z == 15) then k
    else RunEnd(zz, eob, k + 1, if zz[k] == 0 then z + 1 else z)
  }

  /** Coefficients k .. eob of a refinement scan, eob being the last newly nonzero one: runs of
      zeros and newly nonzero coefficients, each followed by the correction bits of the
      coefficients it passes. */
  function RefineFrom(tbl: nat, zz: seq<int>, eob: nat, k: nat, rest: seq<Token>): seq<Token>
    requires eob < |zz| && (k <= eob ==> Abs(zz[eob]) == 1)
    decreases eob + 1 - k
  {
    if k > eob then rest
    else
      var j := RunEnd(zz, eob, k, 0);
      var next := RawBits(Corrections(zz, k, j), RefineFrom(tbl, zz, eob, j + 1, rest));
      if zz[j] == 0 then [Sym(false, tbl, 0xF0)] + next
      else [Sym(false, tbl, ZeroCount(zz, k, j) * 16 + 1)] + ([Raw(if zz[j] < 0 then 0 else 1, 1)] + next)
  }

  lemma UnfoldRefineFrom(tbl: nat, zz: seq<int>, eob: nat, k: nat, rest: seq<Token>)
    requires k <= eob < |zz| && Abs(zz[eob]) == 1
    ensures var j := RunEnd(zz, eob, k, 0);
            var next := RawBits(Corrections(zz, k, j), RefineFrom(tbl, zz, eob, j + 1, rest));
            RefineFrom(tbl, zz, eob, k, rest) ==
              if zz[j] == 0 then [Sym(false, tbl, 0xF0)] + next
              else [Sym(false, tbl, ZeroCount(zz, k, j) * 16 + 1)] + ([Raw(if zz[j] < 0 then 0 else 1, 1)] + next)
  {
  }

  /** The last newly nonzero coefficient in ss .. k, or 0. */
  function LastNew(zz: seq<int>, ss: nat, k: int): (eob: nat)
    requires k < |zz| && ss >= 1
    ensures eob == 0 || (ss <= eob <= k && Abs(zz[eob]) == 1)
    ensures forall i :: ss <= i <= k && eob < i ==> Abs(zz[i]) != 1
    decreases k - ss
  {
    if k < ss then 0 else if Abs(zz[k]) == 1 then k else LastNew(zz, ss, k - 1)
  }

  // Everything before what follows does not depend on it.

  lemma UnfoldAcFrom(tbl: nat, zz: seq<int>, ke: nat, k: nat, rest: seq<Token>)
    requires k <= ke < |zz| && zz[ke] != 0
    ensures var j := NextNonzero(zz, k, ke);
            if j - k >= 16 then AcFrom(tbl, zz, ke, k, rest) == [Sym(false, tbl, 0xF0)] +
                                AcFrom(tbl, zz, ke, k + 16, rest)
            else if BitCount(Abs(zz[j])) > MAX_COEF_BITS
              then AcFrom(tbl, zz, ke, k, rest) == [ERROR_EXIT] + AcFrom(tbl, zz, ke, j + 1, rest)
            else AcFrom(tbl, zz, ke, k, rest) ==
                 [Sym(false, tbl, (j - k) * 16 + BitCount(Abs(zz[j])))] +
                 ([ValueBits(zz[j])] + AcFrom(tbl, zz, ke, j + 1, rest))
  {
    hide BitCount, NextNonzero;
  }

  lemma {:induction false} AcFromConcat(tbl: nat, zz: seq<int>, ke: nat, k: nat, rest: seq<Token>)
    requires ke < |zz| && (k <= ke ==> zz[ke] != 0)
    ensures AcFrom(tbl, zz, ke, k, rest) == AcFrom(tbl, zz, ke, k, []) + rest
    decreases ke + 1 - k
  {
    if k > ke {
      assert AcFrom(tbl, zz, ke, k, []) == [];
    } else {
      var j := NextNonzero(zz, k, ke);
      UnfoldAcFrom(tbl, zz, ke, k, rest);
      UnfoldAcFrom(tbl, zz, ke, k, []);
      hide AcFrom, BitCount, NextNonzero;
      if j - k >= 16 {
        AcFromConcat(tbl, zz, ke, k + 16, rest);
        Associate([Sym(false, tbl, 0xF0)], AcFrom(tbl, zz, ke, k + 16, []), rest);
      } else if BitCount(Abs(zz[j])) > MAX_COEF_BITS {
        AcFromConcat(tbl, zz, ke, j + 1, rest);
        Associate([ERROR_EXIT], AcFrom(tbl, zz, ke, j + 1, []), rest);
      } else {
        AcFromConcat(tbl, zz, ke, j + 1, rest);
        var head: Token, value := Sym(false, tbl, (j - k) * 16 + BitCount(Abs(zz[j]))), ValueBits(zz[j]);
        Associate([value], AcFrom(tbl, zz, ke, j + 1, []), rest);
        Associate([head], [value] + AcFrom(tbl, zz, ke, j + 1, []), rest);
      }
    }
  }

  lemma {:induction false} RawBitsRest(b: seq<Bit>, rest: seq<Token>)
    ensures RawBits(b, rest) == RawBits(b, []) + rest
  {
    if b != [] {
      RawBitsRest(b[1..], rest);
    }
  }

  lemma {:induction false} RefineFromConcat(tbl: nat, zz: seq<int>, eob: nat, k: nat, rest: seq<Token>)
    requires eob < |zz| && (k <= eob ==> Abs(zz[eob]) == 1)
    ensures RefineFrom(tbl, zz, eob, k, rest) == RefineFrom(tbl, zz, eob, k, []) + rest
    decreases eob + 1 - k
  {
    if k > eob {
      assert RefineFrom(tbl, zz, eob, k, []) == [];
    } else {
      var j := RunEnd(zz, eob, k, 0);
      UnfoldRefineFrom(tbl, zz, eob, k, rest);
      UnfoldRefineFrom(tbl, zz, eob, k, []);
      hide RefineFrom, RunEnd, ZeroCount, Corrections, RawBits;
      var c, after := Corrections(zz, k, j), RefineFrom(tbl, zz, eob, j + 1, []);
      RefineFromConcat(tbl, zz, eob, j + 1, rest);
      RawBitsRest(c, after + rest);
      RawBitsRest(c, after);
      Associate(RawBits(c, []), after, rest);
      var next := RawBits(c, after);
      if zz[j] == 0 {
        Associate([Sym(false, tbl, 0xF0)], next, rest);
      } else {
        var head: Token, sign := Sym(false, tbl, ZeroCount(zz, k, j) * 16 + 1), Raw(if zz[j] < 0 then 0 else 1, 1);
        Associate([sign], next, rest);
        Associate([head], [sign] + next, rest);
      }
    }
  }

  // The parts of blocks.

  function FirstPart(tbl: nat, zz: seq<int>, ss: nat, se: nat): Part
    requires 1 <= ss <= se < |zz|
  {
    var ke := LastNonzero(zz, se);
    Part(if ke < ss then [] else AcFrom(tbl, zz, ke, ss, []), ke < se, [])
  }

  function RefinePart(tbl: nat, zz: seq<int>, ss: nat, se: nat): Part
    requires 1 <= ss <= se < |zz|
  {
    var eob := LastNew(zz, ss, se);
    var k := if eob == 0 then ss else eob + 1;
    Part(if eob == 0 then [] else RefineFrom(tbl, zz, eob, ss, []), k <= se, Corrections(zz, k, se + 1))
  }

  /** No error exit is taken for a value that is out of range. */
  predicate Codable(scan: Scan, last: int, b: Block)
    requires scan.Ok()
  {
    match scan.kind
    case Sequential =>
      BitCount(Abs(b[0] - last)) <= MAX_COEF_BITS + 1 && InRange(Zigzag(scan.order, b, 0), 1, scan.se)
    case DcFirst => BitCount(Abs(DcValue(scan, b) - last)) <= MAX_COEF_BITS + 1
    case AcFirst => InRange(Zigzag(scan.order, b, scan.al), scan.ss, scan.se)
    case DcRefine => true
    case AcRefine => true
  }

  function BlockPart(scan: Scan, last: int, it: Item): Part
    requires scan.Ok() && it.comp < scan.NumComps()
  {
    var zz := Zigzag(scan.order, it.block, scan.al);
    var dc, ac := scan.dcTbl[it.comp], scan.acTbl[it.comp];
    match scan.kind
    case Sequential => Part(SequentialTokens(dc, ac, it.block[0] - last, zz, scan.se), false, [])
    case DcFirst => Part(DcTokens(dc, DcValue(scan, it.block) - last, []), false, [])
    case AcFirst => FirstPart(ac, zz, scan.ss, scan.se)
    case DcRefine => Part([Raw(DcValue(scan, it.block), 1)], false, [])
    case AcRefine => RefinePart(ac, zz, scan.ss, scan.se)
  }

  function SequentialTokens(dc: nat, ac: nat, diff: int, zz: seq<int>, se: nat): seq<Token>
    requires se < |zz|
  {
    DcTokens(dc, diff, AcBlock(ac, zz, se, []))
  }

  function EndOfBlock(ac: nat, more: bool, rest: seq<Token>): seq<Token> {
    if more then [Sym(false, ac, 0)] + rest else rest
  }

  /** The AC coefficients of a sequential block, with an end of block unless the last one is
      not zero. */
  function AcBlock(ac: nat, zz: seq<int>, se: nat, rest: seq<Token>): seq<Token>
    requires se < |zz|
  {
    var ke := LastNonzero(zz, se);
    var end := EndOfBlock(ac, ke < se, rest);
    if ke == 0 then end else AcFrom(ac, zz, ke, 1, end)
  }

  /** What follows the explicit tokens of a block. */
  function After(tbl: nat, p: Part, parts: seq<Part>): seq<Token> {
    if p.eob then Pending(tbl, 1, p.tail, parts) else Stream(tbl, parts)
  }

  lemma FirstPartStream(tbl: nat, zz: seq<int>, ss: nat, se: nat, parts: seq<Part>)
    requires 1 <= ss <= se < |zz|
    ensures var p, ke := FirstPart(tbl, zz, ss, se), LastNonzero(zz, se);
            Stream(tbl, [p] + parts) == if ke < ss then After(tbl, p, parts)
                                                        else AcFrom(tbl, zz, ke, ss, After(tbl, p, parts))
  {
    hide AcFrom, Pending, After;
    var p, ke := FirstPart(tbl, zz, ss, se), LastNonzero(zz, se);
    StreamParts(tbl, p, parts);
    if ke >= ss {
      AcFromConcat(tbl, zz, ke, ss, After(tbl, p, parts));
    }
  }

  lemma RefinePartStream(tbl: nat, zz: seq<int>, ss: nat, se: nat, parts: seq<Part>)
    requires 1 <= ss <= se < |zz|
    ensures var p, eob := RefinePart(tbl, zz, ss, se), LastNew(zz, ss, se);
            Stream(tbl, [p] + parts) == if eob == 0 then After(tbl, p, parts)
                                                         else RefineFrom(tbl, zz, eob, ss, After(tbl, p, parts))
  {
    hide RefineFrom, Pending, After, Corrections;
    var p, eob := RefinePart(tbl, zz, ss, se), LastNew(zz, ss, se);
    StreamParts(tbl, p, parts);
    if eob != 0 {
      RefineFromConcat(tbl, zz, eob, ss, After(tbl, p, parts));
    }
  }

  lemma StreamParts(tbl: nat, p: Part, parts: seq<Part>)
    ensures Stream(tbl, [p] + parts) == p.explicit + After(tbl, p, parts)
    ensures p.explicit == [] ==> Stream(tbl, [p] + parts) == After(tbl, p, parts)
  {
    assert ([p] + parts)[1..] == parts;
  }

  lemma DcPartStream(tbl: nat, dc: nat, diff: int, parts: seq<Part>)
    ensures Stream(tbl, [Part(DcTokens(dc, diff, []), false, [])] + parts) == DcTokens(dc, diff, Stream(tbl, parts))
  {
    StreamParts(tbl, Part(DcTokens(dc, diff, []), false, []), parts);
  }

  lemma SequentialPartStream(tbl: nat, dc: nat, ac: nat, diff: int, zz: seq<int>, se: nat, parts: seq<Part>)
    requires se < |zz|
    ensures Stream(tbl, [Part(SequentialTokens(dc, ac, diff, zz, se), false, [])] + parts) ==
            DcTokens(dc, diff, AcBlock(ac, zz, se, Stream(tbl, parts)))
  {
    hide AcBlock;
    StreamParts(tbl, Part(SequentialTokens(dc, ac, diff, zz, se), false, []), parts);
    AcBlockConcat(ac, zz, se, Stream(tbl, parts));
  }

  lemma AcBlockConcat(ac: nat, zz: seq<int>, se: nat, rest: seq<Token>)
    requires se < |zz|
    ensures AcBlock(ac, zz, se, rest) == AcBlock(ac, zz, se, []) + rest
  {
    hide AcFrom, LastNonzero;
    var ke := LastNonzero(zz, se);
    var end := EndOfBlock(ac, ke < se, []);
    assert EndOfBlock(ac, ke < se, rest) == end + rest;
    if ke > 0 {
      AcPrefix(ac, zz, ke, se, end, rest);
    }
  }

  lemma AcPrefix(ac: nat, zz: seq<int>, ke: nat, se: nat, end: seq<Token>, rest: seq<Token>)
    requires 1 <= ke <= se < |zz| && zz[ke] != 0
    ensures AcFrom(ac, zz, ke, 1, end + rest) == AcFrom(ac, zz, ke, 1, end) + rest
  {
    hide AcFrom;
    AcFromConcat(ac, zz, ke, 1, end + rest);
    AcFromConcat(ac, zz, ke, 1, end);
    Associate(AcFrom(ac, zz, ke, 1, []), end, rest);
  }

  // One step of the run of a coder that has scanned the coefficients s .. k - 1 since its last
  // symbol.

  /** Nothing to code yet, except that 16 zeros may have been passed, if only zeros followed. */
  ghost predicate RunState(zz: seq<int>, eob: nat, s: nat, k: nat)
    requires s <= k <= eob < |zz| && Abs(zz[eob]) == 1
  {
    && (forall i :: s <= i < k ==> Abs(zz[i]) != 1)
    && (ZeroCount(zz, s, k) >= 16 ==>
          var t := RunEnd(zz, eob, s, 0);
          t < k && zz[t] == 0 && forall i :: t <= i < k ==> zz[i] == 0)
  }

  lemma {:induction false} CountsSplit(zz: seq<int>, s: nat, k: nat, j: nat)
    requires s <= k <= j <= |zz|
    ensures ZeroCount(zz, s, j) == ZeroCount(zz, s, k) + ZeroCount(zz, k, j)
    ensures Corrections(zz, s, j) == Corrections(zz, s, k) + Corrections(zz, k, j)
    decreases k - s
  {
    if s < k {
      CountsSplit(zz, s + 1, k, j);
    }
  }

  lemma CountsStep(zz: seq<int>, s: nat, k: nat)
    requires s <= k < |zz|
    ensures ZeroCount(zz, s, k + 1) == ZeroCount(zz, s, k) + if zz[k] == 0 then 1 else 0
    ensures Corrections(zz, s, k + 1) == Corrections(zz, s, k) + if Abs(zz[k]) >= 2 then [Abs(zz[k]) % 2] else []
  {
    CountsSplit(zz, s, k, k + 1);
  }

  lemma {:induction false} ZerosOnly(zz: seq<int>, s: nat, k: nat)
    requires s <= k <= |zz| && forall i :: s <= i < k ==> zz[i] == 0
    ensures ZeroCount(zz, s, k) == k - s && Corrections(zz, s, k) == []
    decreases k - s
  {
    if s < k {
      ZerosOnly(zz, s + 1, k);
    }
  }

  lemma {:induction false} RunEndIs(zz: seq<int>, eob: nat, s: nat, z: nat, k: nat)
    requires s <= k <= eob < |zz| && Abs(zz[eob]) == 1 && z + ZeroCount(zz, s, k) <= 15
    requires forall i :: s <= i < k ==> Abs(zz[i]) != 1
    requires Abs(zz[k]) == 1 || (zz[k] == 0 && z + ZeroCount(zz, s, k) == 15)
    ensures RunEnd(zz, eob, s, z) == k
    decreases k - s
  {
    if s < k {
      RunEndIs(zz, eob, s + 1, if zz[s] == 0 then z + 1 else z, k);
    }
  }

  lemma RunStarts(zz: seq<int>, eob: nat, s: nat)
    requires s <= eob < |zz| && Abs(zz[eob]) == 1
    ensures RunState(zz, eob, s, s) && ZeroCount(zz, s, s) == 0 && Corrections(zz, s, s) == []
  {
  }

  lemma PassCoef(zz: seq<int>, eob: nat, s: nat, k: nat)
    requires s <= k < eob < |zz| && Abs(zz[eob]) == 1 && RunState(zz, eob, s, k)
    requires zz[k] == 0 || (Abs(zz[k]) >= 2 && ZeroCount(zz, s, k) <= 15)
    ensures RunState(zz, eob, s, k + 1)
  {
    hide RunEnd;
    CountsStep(zz, s, k);
    if zz[k] == 0 && ZeroCount(zz, s, k) == 15 {
      RunEndIs(zz, eob, s, 0, k);
    }
  }

  /** Sixteen zeros were passed: the symbol for them stands before the correction bits so far. */
  lemma LongRun(tbl: nat, zz: seq<int>, eob: nat, s: nat, k: nat, rest: seq<Token>) returns (s': nat)
    requires s <= k <= eob < |zz| && Abs(zz[eob]) == 1 && RunState(zz, eob, s, k) && ZeroCount(zz, s, k) >= 16
    ensures s < s' <= k && RunState(zz, eob, s', k)
    ensures ZeroCount(zz, s', k) == ZeroCount(zz, s, k) - 16 && Corrections(zz, s', k) == []
    ensures RefineFrom(tbl, zz, eob, s, rest) ==
            [Sym(false, tbl, 0xF0)] + RawBits(Corrections(zz, s, k), RefineFrom(tbl, zz, eob, s', rest))
  {
    hide ZeroCount, Corrections, RunEnd, RefineFrom, RawBits;
    var t := RunEnd(zz, eob, s, 0);
    s' := t + 1;
    UnfoldRefineFrom(tbl, zz, eob, s, rest);
    SixteenZeros(zz, s, t, k);
    OnlyZerosState(zz, eob, s', k);
  }

  lemma SixteenZeros(zz: seq<int>, s: nat, t: nat, k: nat)
    requires s <= t < k <= |zz| && ZeroCount(zz, s, t) == 15 && forall i :: t <= i < k ==> zz[i] == 0
    ensures ZeroCount(zz, t + 1, k) == ZeroCount(zz, s, k) - 16 && Corrections(zz, t + 1, k) == []
    ensures Corrections(zz, s, t) == Corrections(zz, s, k)
  {
    hide ZeroCount, Corrections;
    CountsSplit(zz, s, t, k);
    ZerosOnly(zz, t + 1, k);
    ZerosOnly(zz, t, k);
  }

  lemma OnlyZerosState(zz: seq<int>, eob: nat, s: nat, k: nat)
    requires s <= k <= eob < |zz| && Abs(zz[eob]) == 1 && forall i :: s <= i < k ==> zz[i] == 0
    ensures RunState(zz, eob, s, k)
  {
    hide RunEnd, ZeroCount;
    ZerosOnly(zz, s, k);
    if k - s >= 16 {
      ZerosOnly(zz, s, s + 15);
      RunEndIs(zz, eob, s, 0, s + 15);
    }
  }

  /** A newly nonzero coefficient ends the run. */
  lemma NewCoef(tbl: nat, zz: seq<int>, eob: nat, s: nat, k: nat, rest: seq<Token>)
    requires s <= k <= eob < |zz| && Abs(zz[eob]) == 1 && RunState(zz, eob, s, k) && ZeroCount(zz, s, k) <= 15
    requires Abs(zz[k]) == 1
    ensures RefineFrom(tbl, zz, eob, s, rest) ==
            [Sym(false, tbl, ZeroCount(zz, s, k) * 16 + 1)] +
            ([Raw(if zz[k] < 0 then 0 else 1, 1)] +
             RawBits(Corrections(zz, s, k), RefineFrom(tbl, zz, eob, k + 1, rest)))
  {
    hide ZeroCount, Corrections, RefineFrom, RawBits;
    UnfoldRefineFrom(tbl, zz, eob, s, rest);
    RunEndIs(zz, eob, s, 0, k);
  }

  // Whole sequences of blocks.

  function NextLast(scan: Scan, last: seq<int>, it: Item): (r: seq<int>)
    requires scan.Ok() && |last| == scan.NumComps() && it.comp < scan.NumComps()
    ensures |r| == |last|
  {
    if scan.UsesDc() then last[it.comp := DcValue(scan, it.block)] else last
  }

  predicate AllCodable(scan: Scan, last: seq<int>, items: seq<Item>)
    requires scan.Ok() && |last| == scan.NumComps() && ItemsOk(scan, items)
    decreases |items|
  {
    items == [] ||
    (Codable(scan, last[items[0].comp], items[0].block) && AllCodable(scan, NextLast(scan, last, items[0]), items[1..]))
  }

  function Parts(scan: Scan, last: seq<int>, items: seq<Item>): (parts: seq<Part>)
    requires scan.Ok() && |last| == scan.NumComps() && ItemsOk(scan, items)
    ensures |parts| == |items|
    decreases |items|
  {
    if items == [] then []
    else [BlockPart(scan, last[items[0].comp], items[0])] + Parts(scan, NextLast(scan, last, items[0]), items[1..])
  }

  function LastAfter(scan: Scan, last: seq<int>, items: seq<Item>): (r: seq<int>)
    requires scan.Ok() && |last| == scan.NumComps() && ItemsOk(scan, items)
    ensures |r| == |last|
    decreases |items|
  {
    if items == [] then last else LastAfter(scan, NextLast(scan, last, items[0]), items[1..])
  }
}
