/** Decoding inverts coding: what the reference decoder makes of the bits of the tokens that a
    block is coded by. */
module HuffInverse {
  import opened Bits
  import opened BitStrings
  import opened Scans
  import opened HuffCodes
  import opened HuffModel
  import opened HuffTokens
  import opened HuffScanEncoder
  import opened Precision
  import D = HuffDecoding

  /** The stream starts with the bits of the tokens, and pad follows. */
  ghost predicate Carries(tabs: Tabs, s: D.Src, ts: seq<Token>, pad: seq<Bit>)
    requires tabs.Ok()
  {
    !s.dry && AllEncodable(tabs, ts) && s.bits == TokensBits(tabs, ts) + pad
  }

  lemma CarriesSymbol(tabs: Tabs, s: D.Src, dc: bool, tbl: nat, symbol: Byte, rest: seq<Token>, pad: seq<Bit>)
    requires tabs.Ok() && Carries(tabs, s, [Sym(dc, tbl, symbol)] + rest, pad)
    ensures tbl < NUM_HUFF_TBLS
    ensures var h := tabs.Slot(dc, tbl);
            && D.Decodable(h) && D.NextSymbol(h, s) == symbol && Carries(tabs, D.SkipSymbol(h, s), rest, pad)
  {
    hide CodeOf, HasCode, Symbol, MatchLength, Legal, BitsOf, Drop;
    var ts := [Sym(dc, tbl, symbol)] + rest;
    assert Encodable(tabs, ts[0]) && ts[1..] == rest;
    var h := tabs.Slot(dc, tbl);
    CodedTable(h, symbol);
    RestEncodable(tabs, ts);
    var code, more := CodeOf(h, symbol), TokensBits(tabs, rest) + pad;
    assert s.bits == code + more;
    DecodedSymbol(h, symbol, more);
  }

  lemma CodedTable(h: HuffTbl, symbol: Byte)
    requires HasCode(h, symbol)
    ensures Good(h) && D.Decodable(h)
  {
  }

  lemma RestEncodable(tabs: Tabs, ts: seq<Token>)
    requires tabs.Ok() && ts != [] && AllEncodable(tabs, ts)
    ensures AllEncodable(tabs, ts[1..])
  {
  }

  lemma CarriesRaw(tabs: Tabs, s: D.Src, v: int, size: nat, rest: seq<Token>, pad: seq<Bit>)
    requires tabs.Ok() && Carries(tabs, s, [Raw(v, size)] + rest, pad)
    ensures 1 <= size <= 16
    ensures D.Number(s, size) == v % Pow2(size) && Carries(tabs, D.Skip(s, size), rest, pad)
  {
    hide BitsOf, Peek, HasCode, CodeOf;
    var ts := [Raw(v, size)] + rest;
    assert Encodable(tabs, ts[0]) && ts[1..] == rest;
    RestEncodable(tabs, ts);
    var more := TokensBits(tabs, rest) + pad;
    assert s.bits == BitsOf(v, size) + more;
    PeekFront(v, size, more);
  }

  /** The bits of a nonzero value and their number give the value back. */
  lemma ValueBack(v: int)
    requires v != 0
    ensures var n := BitCount(Abs(v));
            n >= 1 && D.Extended((if v < 0 then v - 1 else v) % Pow2(n), n) == v
  {
    var n := BitCount(Abs(v));
    var p := Pow2(n - 1);
    assert Pow2(n) == 2 * p;
    if v > 0 {
      Remainder(v, 2 * p, 0, v);
    } else {
      Remainder(v - 1, 2 * p, -1, 2 * p + v - 1);
    }
  }

  lemma CarriesValue(tabs: Tabs, s: D.Src, v: int, rest: seq<Token>, pad: seq<Bit>)
    requires tabs.Ok() && Carries(tabs, s, [ValueBits(v)] + rest, pad) && v != 0
    ensures var n := BitCount(Abs(v));
            n >= 1 && D.Extended(D.Number(s, n), n) == v && Carries(tabs, D.Skip(s, n), rest, pad)
  {
    CarriesRaw(tabs, s, if v < 0 then v - 1 else v, BitCount(Abs(v)), rest, pad);
    ValueBack(v);
  }

  // First scans.

  lemma Digits(hi: nat, lo: nat)
    requires hi < 16 && lo < 16
    ensures (hi * 16 + lo) / 16 == hi && (hi * 16 + lo) % 16 == lo
  {
  }

  /** The block with the coefficients below k in place. */
  ghost function Below(order: seq<nat>, was: seq<Coef>, zz: seq<int>, ss: nat, k: nat, al: nat): (b: seq<Coef>)
    requires OrderOk(order) && |was| == |zz| == 64 && k <= 64
    ensures |b| == 64
  {
    Placed(order, was, zz, ss, k - 1, al)
  }

  /** The band from k on, coefficients before k in place. */
  lemma {:induction false} AcFirstBack(tabs: Tabs, tbl: nat, order: seq<nat>, se: nat, al: nat, was: seq<Coef>,
                                       zz: seq<int>, ss: nat, ke: nat, k: nat,
                                       s: D.Src, rest: seq<Token>, pad: seq<Bit>) returns (s': D.Src)
    requires tabs.Ok() && tbl < NUM_HUFF_TBLS && D.Decodable(tabs.ac[tbl]) && OrderOk(order)
    requires 1 <= ss <= k <= ke + 1 <= se + 1 <= 64 == |zz| == |was| && zz[ke] != 0 && InRange(zz, ss, ke)
    requires Carries(tabs, s, AcFrom(tbl, zz, ke, k, rest), pad)
    ensures Carries(tabs, s', rest, pad)
    ensures D.AcFirstFrom(tabs.ac[tbl], order, se, al, k, s, Below(order, was, zz, ss, k, al)) ==
            D.AcFirstFrom(tabs.ac[tbl], order, se, al, ke + 1, s', Below(order, was, zz, ss, ke + 1, al))
    decreases ke + 1 - k
  {
    hide D.Decodable, OrderOk, D.NextSymbol, D.SkipSymbol, D.Number, D.Skip, D.Extended, BitCount, Below, ToCoef,
         Carries, AcFrom, D.AcFirstFrom, InRange;
    if k > ke {
      EndOfAc(tbl, zz, ke, k, rest);
      s' := s;
    } else {
      var h, j := tabs.ac[tbl], NextNonzero(zz, k, ke);
      hide NextNonzero;
      UnfoldAcFrom(tbl, zz, ke, k, rest);
      D.UnfoldFirst(h, order, se, al, k, s, Below(order, was, zz, ss, k, al));
      if j - k >= 16 {
        CarriesSymbol(tabs, s, false, tbl, 0xF0, AcFrom(tbl, zz, ke, k + 16, rest), pad);
        ZerosPlaced(order, was, zz, ss, k, j, al);
        s' := AcFirstBack(tabs, tbl, order, se, al, was, zz, ss, ke, k + 16, D.SkipSymbol(h, s), rest, pad);
      } else {
        var n := BitCount(Abs(zz[j]));
        InRangeAt(zz, ss, ke, j);
        CarriesSymbol(tabs, s, false, tbl, (j - k) * 16 + n,
                      [ValueBits(zz[j])] + AcFrom(tbl, zz, ke, j + 1, rest), pad);
        Digits(j - k, n);
        var s1 := D.SkipSymbol(h, s);
        CarriesValue(tabs, s1, zz[j], AcFrom(tbl, zz, ke, j + 1, rest), pad);
        CoefPlaced(order, was, zz, ss, k, j, al);
        s' := AcFirstBack(tabs, tbl, order, se, al, was, zz, ss, ke, j + 1, D.Skip(s1, n), rest, pad);
      }
    }
  }

  lemma InRangeAt(zz: seq<int>, ss: nat, ke: nat, j: nat)
    requires ss <= j <= ke < |zz| && InRange(zz, ss, ke)
    ensures BitCount(Abs(zz[j])) <= MAX_COEF_BITS
  {
  }

  lemma ZerosPlaced(order: seq<nat>, was: seq<Coef>, zz: seq<int>, ss: nat, k: nat, j: nat, al: nat)
    requires OrderOk(order) && |was| == 64 == |zz| && 1 <= ss <= k
    requires k + 16 <= j < 64 && forall i :: k <= i < j ==> zz[i] == 0
    ensures Below(order, was, zz, ss, k + 16, al) == Below(order, was, zz, ss, k, al)
  {
    PlacedZeros(order, was, zz, ss, k - 1, k + 15, al);
  }

  lemma CoefPlaced(order: seq<nat>, was: seq<Coef>, zz: seq<int>, ss: nat, k: nat, j: nat, al: nat)
    requires OrderOk(order) && |was| == 64 == |zz| && 1 <= ss <= k <= j < 64
    requires zz[j] != 0 && forall i :: k <= i < j ==> zz[i] == 0
    ensures Below(order, was, zz, ss, j + 1, al) ==
            D.Store(order, Below(order, was, zz, ss, k, al), j, D.Scaled(zz[j], al))
  {
    PlacedNext(order, was, zz, ss, k - 1, j, al);
  }

  lemma EndOfAc(tbl: nat, zz: seq<int>, ke: nat, k: nat, rest: seq<Token>)
    requires ke < |zz| && k > ke
    ensures AcFrom(tbl, zz, ke, k, rest) == rest
  {
  }

  /** The symbol for a run and its bits give its length back. */
  lemma EobBack(tabs: Tabs, tbl: nat, n: nat, s: D.Src, rest: seq<Token>, pad: seq<Bit>)
    requires tabs.Ok() && tbl < NUM_HUFF_TBLS && 1 <= n <= MAX_EOBRUN && Carries(tabs, s, EobRun(tbl, n, rest), pad)
    ensures D.Decodable(tabs.ac[tbl])
    ensures var symbol, s1 := D.NextSymbol(tabs.ac[tbl], s), D.SkipSymbol(tabs.ac[tbl], s);
            var r := symbol / 16;
            && symbol % 16 == 0 && r < 15 && Pow2(r) + D.Number(s1, r) == n && Carries(tabs, D.Skip(s1, r), rest, pad)
  {
    hide BitCount, Carries, D.Decodable, D.NextSymbol, D.SkipSymbol, D.Number, D.Skip;
    UnfoldEobRun(tbl, n, rest);
    var nb := BitCount(n) - 1;
    var next := if nb > 0 then [Raw(n, nb)] + rest else rest;
    CarriesSymbol(tabs, s, false, tbl, 16 * nb, next, pad);
    Digits(nb, 0);
    var s1 := D.SkipSymbol(tabs.ac[tbl], s);
    LowPart(n);
    D.NothingTaken(s1);
    if nb > 0 {
      CarriesRaw(tabs, s1, n, nb, rest, pad);
    }
  }

  lemma LowPart(n: nat)
    requires n >= 1
    ensures var nb := BitCount(n) - 1;
            nb >= 0 && Pow2(nb) + n % Pow2(nb) == n && (nb == 0 ==> n == 1) && Pow2(0) == 1
  {
    var nb := BitCount(n) - 1;
    assert Pow2(nb + 1) == 2 * Pow2(nb);
    Remainder(n, Pow2(nb), 1, n - Pow2(nb));
  }

  /** What is left when e blocks of the parts are in a run that has begun. */
  ghost predicate CarriesParts(tabs: Tabs, tbl: nat, s: D.Src, e: nat, parts: seq<Part>, pad: seq<Bit>)
    requires tabs.Ok()
  {
    && e <= |parts| && (forall i :: 0 <= i < e ==> OnlyEob(parts[i]))
    && Carries(tabs, s, Within(tbl, e, parts), pad)
  }

  lemma NextOfRun(tabs: Tabs, tbl: nat, s: D.Src, e: nat, p: Part, parts: seq<Part>, pad: seq<Bit>)
    requires tabs.Ok() && CarriesParts(tabs, tbl, s, e, [p] + parts, pad)
    ensures e == 0 ==> Carries(tabs, s, Stream(tbl, [p] + parts), pad)
    ensures e > 0 ==> OnlyEob(p) && Carries(tabs, s, RawBits(p.tail, Within(tbl, e - 1, parts)), pad)
    ensures e > 0 ==> e - 1 <= |parts| && forall i :: 0 <= i < e - 1 ==> OnlyEob(parts[i])
  {
    hide Carries;
    var all := [p] + parts;
    assert all[1..] == parts && all[0] == p;
    if e > 0 {
      assert OnlyEob(all[0]);
      forall i | 0 <= i < e - 1
        ensures OnlyEob(parts[i])
      {
        assert OnlyEob(all[i + 1]);
      }
    }
  }

  /** After the explicit tokens of a block: its end of band begins a run, or the next block
      follows. */
  lemma AfterBack(tabs: Tabs, tbl: nat, s: D.Src, p: Part, parts: seq<Part>, pad: seq<Bit>) returns (n: nat)
    requires tabs.Ok() && tbl < NUM_HUFF_TBLS && Carries(tabs, s, After(tbl, p, parts), pad)
    ensures !p.eob ==> CarriesParts(tabs, tbl, s, 0, parts, pad)
    ensures p.eob ==> && 1 <= n <= MAX_EOBRUN && n - 1 <= |parts| && (forall i :: 0 <= i < n - 1 ==> OnlyEob(parts[i]))
                      && Carries(tabs, s, EobRun(tbl, n, RawBits(p.tail, Within(tbl, n - 1, parts))), pad)
  {
    hide Carries, EobRun;
    n := 1 + RunMore(1, |p.tail|, parts);
  }

  lemma FirstBlockBack(tabs: Tabs, tbl: nat, order: seq<nat>, ss: nat, se: nat, al: nat, was: seq<Coef>, zz: seq<int>,
                       s: D.Src, e: nat, parts: seq<Part>, pad: seq<Bit>)
    requires tabs.Ok() && tbl < NUM_HUFF_TBLS && D.Decodable(tabs.ac[tbl]) && OrderOk(order)
    requires 1 <= ss <= se < 64 == |zz| == |was| && InRange(zz, ss, se)
    requires CarriesParts(tabs, tbl, s, e, [FirstPart(tbl, zz, ss, se)] + parts, pad)
    ensures var r := if e > 0 then D.Result(s, e - 1, was, 0)
                                   else D.AcFirstFrom(tabs.ac[tbl], order, se, al, ss, s, was);
            r.block == Placed(order, was, zz, ss, se, al) && CarriesParts(tabs, tbl, r.src, r.eobrun, parts, pad)
  {
    hide D.Decodable, OrderOk, Carries, AcFrom, Stream, Within, After, D.AcFirstFrom, Placed, EobRun, D.Number, D.Skip,
         D.NextSymbol, D.SkipSymbol, InRange;
    var p, ke := FirstPart(tbl, zz, ss, se), LastNonzero(zz, se);
    NextOfRun(tabs, tbl, s, e, p, parts, pad);
    FirstPartFacts(tbl, zz, ss, se, parts);
    FirstPartStream(tbl, zz, ss, se, parts);
    NoCorrections(Within(tbl, if e > 0 then e - 1 else 0, parts));
    if e > 0 {
      AllZeroPlaced(order, was, zz, ss, ss, se, al);
    } else {
      var s1, k := s, ss;
      if ke >= ss {
        NarrowRange(zz, ss, ke, se);
        s1 := AcFirstBack(tabs, tbl, order, se, al, was, zz, ss, ke, ss, s, After(tbl, p, parts), pad);
        k := ke + 1;
      }
      BelowStart(order, was, zz, ss, al);
      var n := AfterBack(tabs, tbl, s1, p, parts, pad);
      D.UnfoldFirst(tabs.ac[tbl], order, se, al, k, s1, Below(order, was, zz, ss, k, al));
      AllZeroPlaced(order, was, zz, ss, k, se, al);
      if p.eob {
        NoCorrections(Within(tbl, n - 1, parts));
        EobBack(tabs, tbl, n, s1, Within(tbl, n - 1, parts), pad);
      }
    }
  }

  lemma NoCorrections(rest: seq<Token>)
    ensures RawBits([], rest) == rest
  {
  }

  lemma NarrowRange(zz: seq<int>, ss: nat, ke: nat, se: nat)
    requires ke <= se < |zz| && InRange(zz, ss, se)
    ensures InRange(zz, ss, ke)
  {
  }

  lemma BelowStart(order: seq<nat>, was: seq<Coef>, zz: seq<int>, ss: nat, al: nat)
    requires OrderOk(order) && |was| == |zz| == 64 && 1 <= ss <= 64
    ensures Below(order, was, zz, ss, ss, al) == was
  {
  }

  lemma AllZeroPlaced(order: seq<nat>, was: seq<Coef>, zz: seq<int>, ss: nat, k: nat, se: nat, al: nat)
    requires OrderOk(order) && |was| == |zz| == 64 && 1 <= ss <= k <= se + 1 <= 64
    requires forall i :: k <= i <= se ==> zz[i] == 0
    ensures Below(order, was, zz, ss, k, al) == Placed(order, was, zz, ss, se, al)
    ensures k == ss ==> Placed(order, was, zz, ss, se, al) == was
  {
    PlacedZeros(order, was, zz, ss, k - 1, se, al);
  }

  // Refinement scans: was holds the band at the next coarser precision.

  ghost predicate Refines(order: seq<nat>, was: seq<Coef>, zz: seq<int>, ss: nat, se: nat, al: nat) {
    && OrderOk(order) && |was| == |zz| == 64 && 1 <= ss <= se < 64 && al <= 13
    && Refinable(order, was, zz, ss, se, al)
  }

  /** Coefficient k as the decoder finds it, and what a correction or a new value makes of it. */
  lemma AtCoef(order: seq<nat>, was: seq<Coef>, zz: seq<int>, ss: nat, se: nat, k: nat, al: nat)
    requires Refines(order, was, zz, ss, se, al) && ss <= k <= se
    ensures var b := Below(order, was, zz, ss, k, al);
            && (b[order[k]] != 0 <==> Abs(zz[k]) >= 2)
            && (Abs(zz[k]) >= 2 ==> D.Correct(b, order[k], al, Abs(zz[k]) % 2) == Below(order, was, zz, ss, k + 1, al))
            && (zz[k] == 0 ==> b == Below(order, was, zz, ss, k + 1, al))
            && (Abs(zz[k]) == 1 ==> b[order[k] := ToCoef(if zz[k] > 0 then Pow2(al) else -(Pow2(al) as int))] ==
                                    Below(order, was, zz, ss, k + 1, al))
  {
    hide Refinable, Placed, ToCoef;
    RefinedCoef(order, was, zz, ss, se, k, al);
    if Abs(zz[k]) >= 2 {
      BitClear(order, was, zz, ss, se, k, al);
      var b, c := Below(order, was, zz, ss, k, al), was[order[k]];
      assert b[order[k] := c] == b;
    }
  }

  lemma BitClear(order: seq<nat>, was: seq<Coef>, zz: seq<int>, ss: nat, se: nat, k: nat, al: nat)
    requires Refines(order, was, zz, ss, se, al) && ss <= k <= se
    ensures was[order[k]] / Pow2(al) % 2 == 0
  {
    assert Pow2(al + 1) == 2 * Pow2(al);
    EvenMultiple(was[order[k]], Truncated(zz[k]), Pow2(al));
  }

  lemma EvenMultiple(c: int, t: int, p: nat)
    requires p >= 1 && c == t * (2 * p)
    ensures c / p % 2 == 0
  {
    DoubledProduct(t, p);
    Remainder(c, p, 2 * t, 0);
  }

  lemma CarriesCorrection(tabs: Tabs, s: D.Src, zz: seq<int>, k: nat, j: nat, rest: seq<Token>, pad: seq<Bit>)
    requires tabs.Ok() && k < j <= |zz| && Carries(tabs, s, RawBits(Corrections(zz, k, j), rest), pad)
    ensures Abs(zz[k]) >= 2 ==> D.Number(s, 1) == Abs(zz[k]) % 2
                                && Carries(tabs, D.Skip(s, 1), RawBits(Corrections(zz, k + 1, j), rest), pad)
    ensures Abs(zz[k]) < 2 ==> Carries(tabs, s, RawBits(Corrections(zz, k + 1, j), rest), pad)
  {
    hide Carries, D.Number, D.Skip;
    if Abs(zz[k]) >= 2 {
      assert Corrections(zz, k, j)[1..] == Corrections(zz, k + 1, j);
      CarriesRaw(tabs, s, Abs(zz[k]) % 2, 1, RawBits(Corrections(zz, k + 1, j), rest), pad);
      assert Pow2(1) == 2;
    } else {
      assert Corrections(zz, k, j) == Corrections(zz, k + 1, j);
    }
  }

  /** The coefficients from k to the one at j, which is zero so far. */
  lemma {:induction false} RunBack(tabs: Tabs, order: seq<nat>, was: seq<Coef>, zz: seq<int>, ss: nat, se: nat, al: nat,
                                   k: nat, j: nat,
                                   s: D.Src, rest: seq<Token>, pad: seq<Bit>) returns (s': D.Src)
    requires tabs.Ok() && Refines(order, was, zz, ss, se, al) && ss <= k <= j <= se
    requires (forall i :: k <= i < j ==> Abs(zz[i]) != 1) && Abs(zz[j]) <= 1
    requires Carries(tabs, s, RawBits(Corrections(zz, k, j), rest), pad)
    ensures Carries(tabs, s', rest, pad)
    ensures D.RefineRun(order, se, al, k, ZeroCount(zz, k, j), s, Below(order, was, zz, ss, k, al)) ==
            D.Run(j, s', Below(order, was, zz, ss, j, al))
    decreases j - k
  {
    hide Carries, D.Number, D.Skip, D.Correct, Refines, Below;
    RefinesFacts(order, was, zz, ss, se, al);
    AtCoef(order, was, zz, ss, se, k, al);
    if k == j {
      NothingScanned(zz, k);
      NoCorrections(rest);
      s' := s;
    } else {
      CarriesCorrection(tabs, s, zz, k, j, rest, pad);
      s' := RunBack(tabs, order, was, zz, ss, se, al, k + 1, j, if Abs(zz[k]) >= 2 then D.Skip(s, 1) else s, rest, pad);
    }
  }

  lemma RefinesFacts(order: seq<nat>, was: seq<Coef>, zz: seq<int>, ss: nat, se: nat, al: nat)
    requires Refines(order, was, zz, ss, se, al)
    ensures OrderOk(order) && |was| == |zz| == 64 && 1 <= ss <= se < 64 && al <= 13
  {
  }

  /** The rest of the band has only corrections. */
  lemma {:induction false} TailBack(tabs: Tabs, order: seq<nat>, was: seq<Coef>, zz: seq<int>, ss: nat, se: nat,
                                    al: nat, k: nat,
                                    s: D.Src, rest: seq<Token>, pad: seq<Bit>) returns (s': D.Src)
    requires tabs.Ok() && Refines(order, was, zz, ss, se, al) && ss <= k <= se + 1
    requires forall i :: k <= i <= se ==> Abs(zz[i]) != 1
    requires Carries(tabs, s, RawBits(Corrections(zz, k, se + 1), rest), pad)
    ensures Carries(tabs, s', rest, pad)
    ensures D.RefineTail(order, se, al, k, s, Below(order, was, zz, ss, k, al)) ==
            D.Run(se + 1, s', Below(order, was, zz, ss, se + 1, al))
    decreases se + 1 - k
  {
    hide Carries, D.Number, D.Skip, D.Correct, Refines, Below;
    RefinesFacts(order, was, zz, ss, se, al);
    if k > se {
      NothingScanned(zz, k);
      NoCorrections(rest);
      s' := s;
    } else {
      AtCoef(order, was, zz, ss, se, k, al);
      CarriesCorrection(tabs, s, zz, k, se + 1, rest, pad);
      s' := TailBack(tabs, order, was, zz, ss, se, al, k + 1, if Abs(zz[k]) >= 2 then D.Skip(s, 1) else s, rest, pad);
    }
  }

  /** The symbols from coefficient k to the last newly nonzero one. */
  lemma {:induction false} RefineBack(tabs: Tabs, tbl: nat, order: seq<nat>, was: seq<Coef>, zz: seq<int>, ss: nat,
                                      se: nat, al: nat, eob: nat, k: nat,
                                      s: D.Src, rest: seq<Token>, pad: seq<Bit>) returns (s': D.Src)
    requires tabs.Ok() && tbl < NUM_HUFF_TBLS && D.Decodable(tabs.ac[tbl]) && Refines(order, was, zz, ss, se, al)
    requires ss <= k <= eob + 1 <= se + 1 && Abs(zz[eob]) == 1
    requires Carries(tabs, s, RefineFrom(tbl, zz, eob, k, rest), pad)
    ensures Carries(tabs, s', rest, pad)
    ensures D.RefineSymbols(tabs.ac[tbl], order, se, al, k, s, Below(order, was, zz, ss, k, al)) ==
            D.RefineSymbols(tabs.ac[tbl], order, se, al, eob + 1, s', Below(order, was, zz, ss, eob + 1, al))
    decreases eob + 1 - k
  {
    hide Carries, D.Decodable, Refines, RefineFrom, Below, D.RefineSymbols, OrderOk;
    RefinesFacts(order, was, zz, ss, se, al);
    if k > eob {
      EndOfRefine(tbl, zz, eob, k, rest);
      s' := s;
    } else {
      var j := RunEnd(zz, eob, k, 0);
      UnfoldRefineFrom(tbl, zz, eob, k, rest);
      var s2 := OneSymbolBack(tabs, tbl, order, was, zz, ss, se, al, eob, k, s,
                              RefineFrom(tbl, zz, eob, j + 1, rest), pad);
      s' := RefineBack(tabs, tbl, order, was, zz, ss, se, al, eob, j + 1, s2, rest, pad);
    }
  }

  lemma EndOfRefine(tbl: nat, zz: seq<int>, eob: nat, k: nat, rest: seq<Token>)
    requires eob < |zz| && k > eob
    ensures RefineFrom(tbl, zz, eob, k, rest) == rest
  {
  }

  lemma OneSymbolBack(tabs: Tabs, tbl: nat, order: seq<nat>, was: seq<Coef>, zz: seq<int>, ss: nat, se: nat, al: nat,
                      eob: nat, k: nat,
                      s: D.Src, rest: seq<Token>, pad: seq<Bit>) returns (s': D.Src)
    requires tabs.Ok() && tbl < NUM_HUFF_TBLS && D.Decodable(tabs.ac[tbl]) && Refines(order, was, zz, ss, se, al)
    requires ss <= k <= eob <= se && Abs(zz[eob]) == 1
    requires var j := RunEnd(zz, eob, k, 0);
             var next := RawBits(Corrections(zz, k, j), rest);
             var sign := Raw(if zz[j] < 0 then 0 else 1, 1);
             Carries(tabs, s, if zz[j] == 0 then [Sym(false, tbl, 0xF0)] + next
                              else [Sym(false, tbl, ZeroCount(zz, k, j) * 16 + 1)] + ([sign] + next), pad)
    ensures var j := RunEnd(zz, eob, k, 0);
            && Carries(tabs, s', rest, pad)
            && D.RefineSymbols(tabs.ac[tbl], order, se, al, k, s, Below(order, was, zz, ss, k, al)) ==
               D.RefineSymbols(tabs.ac[tbl], order, se, al, j + 1, s', Below(order, was, zz, ss, j + 1, al))
  {
    hide Carries, D.Decodable, Refines, Below, D.RefineSymbols, OrderOk, D.NextSymbol, D.SkipSymbol, D.Number, D.Skip,
         D.RefineRun, ToCoef, Corrections, ZeroCount, RawBits;
    RefinesFacts(order, was, zz, ss, se, al);
    var h, j := tabs.ac[tbl], RunEnd(zz, eob, k, 0);
    hide RunEnd;
    var b := Below(order, was, zz, ss, k, al);
    D.UnfoldRefine(h, order, se, al, k, s, b);
    AtCoef(order, was, zz, ss, se, j, al);
    var next := RawBits(Corrections(zz, k, j), rest);
    var s1 := D.SkipSymbol(h, s);
    if zz[j] == 0 {
      CarriesSymbol(tabs, s, false, tbl, 0xF0, next, pad);
      s' := RunBack(tabs, order, was, zz, ss, se, al, k, j, s1, rest, pad);
    } else {
      var sign := if zz[j] < 0 then 0 else 1;
      CarriesSymbol(tabs, s, false, tbl, ZeroCount(zz, k, j) * 16 + 1, [Raw(sign, 1)] + next, pad);
      Digits(ZeroCount(zz, k, j), 1);
      CarriesRaw(tabs, s1, sign, 1, next, pad);
      assert Pow2(1) == 2;
      s' := RunBack(tabs, order, was, zz, ss, se, al, k, j, D.Skip(s1, 1), rest, pad);
    }
  }

  lemma RefineBlockBack(tabs: Tabs, tbl: nat, order: seq<nat>, ss: nat, se: nat, al: nat, was: seq<Coef>, zz: seq<int>,
                        s: D.Src, e: nat, parts: seq<Part>, pad: seq<Bit>)
    requires tabs.Ok() && tbl < NUM_HUFF_TBLS && D.Decodable(tabs.ac[tbl]) && Refines(order, was, zz, ss, se, al)
    requires CarriesParts(tabs, tbl, s, e, [RefinePart(tbl, zz, ss, se)] + parts, pad)
    ensures OrderOk(order) && |was| == |zz| == 64 && ss <= se < 64
    ensures var r := D.RefineBlock(tabs.ac[tbl], order, ss, se, al, s, e, was);
            && r.stray == 0 && r.block == Placed(order, was, zz, ss, se, al)
            && CarriesParts(tabs, tbl, r.src, r.eobrun, parts, pad)
  {
    hide D.Decodable, OrderOk, Carries, RefineFrom, Stream, Within, After, D.RefineSymbols, D.RefineTail, EobRun,
         D.Number, D.Skip, D.NextSymbol, D.SkipSymbol, Refines, RawBits, LastNew, Corrections;
    RefinesFacts(order, was, zz, ss, se, al);
    var h, p, eob := tabs.ac[tbl], RefinePart(tbl, zz, ss, se), LastNew(zz, ss, se);
    var k := if eob == 0 then ss else eob + 1;
    assert p.tail == Corrections(zz, k, se + 1) && (p.eob <==> k <= se);
    NextOfRun(tabs, tbl, s, e, p, parts, pad);
    RefinePartFacts(tbl, zz, ss, se, parts);
    RefinePartStream(tbl, zz, ss, se, parts);
    hide RefinePart, Placed, Below;
    NoneNew(zz, ss, se, k);
    BelowStart(order, was, zz, ss, al);
    BelowEnd(order, was, zz, ss, se, al);
    if e > 0 {
      var s' := TailBack(tabs, order, was, zz, ss, se, al, ss, s, Within(tbl, e - 1, parts), pad);
    } else {
      var s1 := s;
      if eob != 0 {
        s1 := RefineBack(tabs, tbl, order, was, zz, ss, se, al, eob, ss, s, After(tbl, p, parts), pad);
      }
      var n := AfterBack(tabs, tbl, s1, p, parts, pad);
      if p.eob {
        BandEnd(tabs, tbl, order, was, zz, ss, se, al, k, s1, n, Within(tbl, n - 1, parts), pad);
      } else {
        D.NoSymbolsLeft(h, order, se, al, k, s1, Below(order, was, zz, ss, k, al));
      }
    }
  }

  /** The end of band and the corrections after it. */
  lemma BandEnd(tabs: Tabs, tbl: nat, order: seq<nat>, was: seq<Coef>, zz: seq<int>, ss: nat, se: nat, al: nat, k: nat,
                s: D.Src, n: nat, rest: seq<Token>, pad: seq<Bit>)
    requires tabs.Ok() && tbl < NUM_HUFF_TBLS && D.Decodable(tabs.ac[tbl]) && Refines(order, was, zz, ss, se, al)
    requires ss <= k <= se && (forall i :: k <= i <= se ==> Abs(zz[i]) != 1) && 1 <= n <= MAX_EOBRUN
    requires Carries(tabs, s, EobRun(tbl, n, RawBits(Corrections(zz, k, se + 1), rest)), pad)
    ensures var r := D.RefineSymbols(tabs.ac[tbl], order, se, al, k, s, Below(order, was, zz, ss, k, al));
            && r.stray == 0 && r.block == Below(order, was, zz, ss, se + 1, al) && r.eobrun == n - 1
            && Carries(tabs, r.src, rest, pad)
  {
    hide D.Decodable, OrderOk, Carries, D.RefineSymbols, D.RefineTail, EobRun, D.Number, D.Skip, D.NextSymbol,
         D.SkipSymbol, Refines, RawBits, Corrections, Below;
    RefinesFacts(order, was, zz, ss, se, al);
    var h := tabs.ac[tbl];
    var corrections := RawBits(Corrections(zz, k, se + 1), rest);
    EobBack(tabs, tbl, n, s, corrections, pad);
    var s1 := D.SkipSymbol(h, s);
    var r := D.NextSymbol(h, s) / 16;
    D.UnfoldRefine(h, order, se, al, k, s, Below(order, was, zz, ss, k, al));
    var s2 := TailBack(tabs, order, was, zz, ss, se, al, k, D.Skip(s1, r), rest, pad);
  }

  lemma NoneNew(zz: seq<int>, ss: nat, se: nat, k: nat)
    requires 1 <= ss <= se < |zz| && k == (if LastNew(zz, ss, se) == 0 then ss else LastNew(zz, ss, se) + 1)
    ensures ss <= k && forall i :: k <= i <= se ==> Abs(zz[i]) != 1
  {
  }

  lemma BelowEnd(order: seq<nat>, was: seq<Coef>, zz: seq<int>, ss: nat, se: nat, al: nat)
    requires OrderOk(order) && |was| == |zz| == 64 && se < 64
    ensures Below(order, was, zz, ss, se + 1, al) == Placed(order, was, zz, ss, se, al)
  {
  }

  // DC values and sequential blocks.

  lemma DcBack(tabs: Tabs, tbl: nat, diff: int, s: D.Src, rest: seq<Token>, pad: seq<Bit>)
    requires tabs.Ok() && BitCount(Abs(diff)) <= MAX_COEF_BITS + 1 && Carries(tabs, s, DcTokens(tbl, diff, rest), pad)
    ensures tbl < NUM_HUFF_TBLS && D.Decodable(tabs.dc[tbl])
    ensures var n, s1 := D.NextSymbol(tabs.dc[tbl], s), D.SkipSymbol(tabs.dc[tbl], s);
            D.Extended(D.Number(s1, n), n) == diff && Carries(tabs, D.Skip(s1, n), rest, pad)
  {
    hide BitCount, Carries, D.Decodable, D.NextSymbol, D.SkipSymbol, D.Number, D.Skip, D.Extended;
    NoBits(Abs(diff));
    if diff == 0 {
      CarriesSymbol(tabs, s, true, tbl, 0, rest, pad);
      D.NoDifference(D.SkipSymbol(tabs.dc[tbl], s));
    } else {
      CarriesSymbol(tabs, s, true, tbl, BitCount(Abs(diff)), [ValueBits(diff)] + rest, pad);
      CarriesValue(tabs, D.SkipSymbol(tabs.dc[tbl], s), diff, rest, pad);
    }
  }

  /** The coefficients below k that are wanted are in place; of the others some may be. */
  ghost predicate Wanted(order: seq<nat>, b: seq<Coef>, was: seq<Coef>, zz: seq<int>, lim: nat, k: nat)
    requires OrderOk(order)
  {
    && |b| == |was| == |zz| == 64
    && (forall j :: 0 <= j < 64 ==>
        b[order[j]] == was[order[j]] || (1 <= j < k && zz[j] != 0 && b[order[j]] == ToCoef(zz[j])))
    && (forall j :: 1 <= j < k && j < lim && j < 64 && zz[j] != 0 ==> b[order[j]] == ToCoef(zz[j]))
  }

  lemma WantedStep(order: seq<nat>, b: seq<Coef>, was: seq<Coef>, zz: seq<int>, lim: nat, k: nat, j: nat)
    requires OrderOk(order) && 1 <= k <= j < 64 && Wanted(order, b, was, zz, lim, k) && zz[j] != 0
    requires forall i :: k <= i < j ==> zz[i] == 0
    ensures Wanted(order, if k < lim then D.Store(order, b, j, zz[j]) else b, was, zz, lim, j + 1)
  {
    if k < lim {
      D.PlacedOnly(order, b, j, zz[j]);
    }
  }

  lemma {:induction false} SeqAcBack(tabs: Tabs, tbl: nat, order: seq<nat>, se: nat, lim: nat, was: seq<Coef>,
                                     zz: seq<int>, ke: nat, k: nat,
                                     s: D.Src, b: seq<Coef>, rest: seq<Token>, pad: seq<Bit>)
    returns (s': D.Src, b': seq<Coef>)
    requires tabs.Ok() && tbl < NUM_HUFF_TBLS && D.Decodable(tabs.ac[tbl]) && OrderOk(order)
    requires 1 <= k <= ke + 1 <= se + 1 <= 64 == |zz| == |was| == |b| && zz[ke] != 0 && InRange(zz, 1, ke)
    requires Wanted(order, b, was, zz, lim, k) && Carries(tabs, s, AcFrom(tbl, zz, ke, k, rest), pad)
    ensures |b'| == 64 && Carries(tabs, s', rest, pad) && Wanted(order, b', was, zz, lim, ke + 1)
    ensures D.SeqAcFrom(tabs.ac[tbl], order, se, lim, k, s, b) ==
            D.SeqAcFrom(tabs.ac[tbl], order, se, lim, ke + 1, s', b')
    decreases ke + 1 - k
  {
    hide D.Decodable, OrderOk, D.NextSymbol, D.SkipSymbol, D.Number, D.Skip, D.Extended, BitCount, ToCoef, Carries,
         AcFrom, D.SeqAcFrom, InRange, Wanted;
    if k > ke {
      EndOfAc(tbl, zz, ke, k, rest);
      s', b' := s, b;
    } else {
      var h, j := tabs.ac[tbl], NextNonzero(zz, k, ke);
      hide NextNonzero;
      UnfoldAcFrom(tbl, zz, ke, k, rest);
      D.UnfoldSeq(h, order, se, lim, k, s, b);
      if j - k >= 16 {
        CarriesSymbol(tabs, s, false, tbl, 0xF0, AcFrom(tbl, zz, ke, k + 16, rest), pad);
        WantedZeros(order, b, was, zz, lim, k, k + 16);
        s', b' := SeqAcBack(tabs, tbl, order, se, lim, was, zz, ke, k + 16, D.SkipSymbol(h, s), b, rest, pad);
      } else {
        var n := BitCount(Abs(zz[j]));
        InRangeAt(zz, 1, ke, j);
        CarriesSymbol(tabs, s, false, tbl, (j - k) * 16 + n,
                      [ValueBits(zz[j])] + AcFrom(tbl, zz, ke, j + 1, rest), pad);
        Digits(j - k, n);
        var s1 := D.SkipSymbol(h, s);
        CarriesValue(tabs, s1, zz[j], AcFrom(tbl, zz, ke, j + 1, rest), pad);
        WantedStep(order, b, was, zz, lim, k, j);
        var next := if k < lim then D.Store(order, b, j, zz[j]) else b;
        s', b' := SeqAcBack(tabs, tbl, order, se, lim, was, zz, ke, j + 1, D.Skip(s1, n), next, rest, pad);
      }
    }
  }

  lemma WantedZeros(order: seq<nat>, b: seq<Coef>, was: seq<Coef>, zz: seq<int>, lim: nat, k: nat, j: nat)
    requires OrderOk(order) && k <= j <= 64 && Wanted(order, b, was, zz, lim, k)
    requires forall i :: k <= i < j ==> zz[i] == 0
    ensures Wanted(order, b, was, zz, lim, j)
  {
  }

  /** The AC coefficients of a sequential block. */
  lemma AcBlockBack(tabs: Tabs, tbl: nat, order: seq<nat>, se: nat, lim: nat, was: seq<Coef>, zz: seq<int>, s: D.Src,
                    rest: seq<Token>, pad: seq<Bit>)
    requires tabs.Ok() && tbl < NUM_HUFF_TBLS && D.Decodable(tabs.ac[tbl]) && OrderOk(order)
    requires 1 <= se < 64 == |zz| == |was| && InRange(zz, 1, se) && Carries(tabs, s, AcBlock(tbl, zz, se, rest), pad)
    ensures var r := D.SeqAcFrom(tabs.ac[tbl], order, se, lim, 1, s, was);
            Carries(tabs, r.src, rest, pad) && Wanted(order, r.block, was, zz, lim, se + 1)
  {
    hide D.Decodable, OrderOk, Carries, AcFrom, D.SeqAcFrom, InRange, Wanted, D.NextSymbol, D.SkipSymbol;
    var ke, s1, b := LastNonzero(zz, se), s, was;
    var end := EndOfBlock(tbl, ke < se, rest);
    WantedStart(order, was, zz, lim);
    if ke > 0 {
      NarrowRange(zz, 1, ke, se);
      s1, b := SeqAcBack(tabs, tbl, order, se, lim, was, zz, ke, 1, s, was, end, pad);
    }
    WantedZeros(order, b, was, zz, lim, ke + 1, se + 1);
    D.UnfoldSeq(tabs.ac[tbl], order, se, lim, ke + 1, s1, b);
    if ke < se {
      CarriesSymbol(tabs, s1, false, tbl, 0, rest, pad);
    }
  }

  lemma WantedStart(order: seq<nat>, was: seq<Coef>, zz: seq<int>, lim: nat)
    requires OrderOk(order) && |was| == |zz| == 64
    ensures Wanted(order, was, was, zz, lim, 1)
  {
  }

  // Blocks.

  /** The decoder's predictions are those of the coder where they matter. */
  ghost predicate LastOk(cfg: D.Config, st: D.State, last: seq<int>) {
    && |st.last| == |last| == cfg.scan.NumComps() == |cfg.limit|
    && forall c :: 0 <= c < |last| && (cfg.scan.kind == Sequential ==> cfg.limit[c] > 0) ==> st.last[c] == last[c]
  }

  /** The block is decoded; in sequential scans as far as it is wanted. */
  ghost predicate DecodedWanted(cfg: D.Config, c: nat, was: seq<Coef>, b: Block, result: seq<Coef>)
    requires cfg.Ok() && c < cfg.scan.NumComps() && |was| == 64
  {
    && |result| == 64
    && if cfg.scan.kind == Sequential then
         forall j :: 0 <= j < 64 ==>
           var at := cfg.scan.order[j];
           && (j < cfg.limit[c] ==> result[at] == Decoded(cfg.scan, was, b)[at])
           && (result[at] == was[at] || result[at] == Decoded(cfg.scan, was, b)[at])
       else result == Decoded(cfg.scan, was, b)
  }

  lemma SequentialBack(cfg: D.Config, c: nat, s: D.Src, last: int, b: Block, was: seq<Coef>, parts: seq<Part>,
                       pad: seq<Bit>)
    requires cfg.Ok() && c < cfg.scan.NumComps() && |was| == 64
    requires cfg.scan.kind == Sequential && Codable(cfg.scan, last, b)
    requires Carries(cfg.tabs, s, Stream(RunTbl(cfg.scan), [BlockPart(cfg.scan, last, Item(c, b))] + parts), pad)
    ensures var r := D.SequentialResult(cfg, c, s, last, was);
            && Carries(cfg.tabs, r.src, Stream(RunTbl(cfg.scan), parts), pad)
            && DecodedWanted(cfg, c, was, b, r.block)
    ensures D.SequentialLast(cfg, c, s, last) == if cfg.limit[c] > 0 then b[0] as int else last
  {
    hide Carries, Stream, AcBlock, DcTokens, BitCount, InRange, D.NextSymbol, D.SkipSymbol, D.Number, D.Skip,
         D.Extended, D.SeqAcFrom, Wanted, D.Decodable, Zigzag, ToCoef, D.DcTable;
    var scan := cfg.scan;
    var dc, ac, zz := scan.dcTbl[c], scan.acTbl[c], Zigzag(scan.order, b, 0);
    var rest := Stream(RunTbl(scan), parts);
    SequentialPartStream(RunTbl(scan), dc, ac, b[0] - last, zz, scan.se, parts);
    DcBack(cfg.tabs, dc, b[0] - last, s, AcBlock(ac, zz, scan.se, rest), pad);
    var w := if cfg.limit[c] > 0 then was[0 := ToCoef(b[0])] else was;
    var s1 := D.Skip(D.SkipSymbol(cfg.tabs.dc[dc], s), D.NextSymbol(cfg.tabs.dc[dc], s));
    if scan.se == 0 {
      NoAcBlock(ac, zz, rest);
      WantedStart(scan.order, w, zz, cfg.limit[c]);
      WantedIsDecoded(cfg, c, was, b, w, w);
    } else {
      AcBlockBack(cfg.tabs, ac, scan.order, scan.se, cfg.limit[c], w, zz, s1, rest, pad);
      WantedIsDecoded(cfg, c, was, b, w, D.SequentialResult(cfg, c, s, last, was).block);
    }
  }

  lemma WantedIsDecoded(cfg: D.Config, c: nat, was: seq<Coef>, b: Block, w: seq<Coef>, result: seq<Coef>)
    requires cfg.Ok() && c < cfg.scan.NumComps() && |was| == 64 && cfg.scan.kind == Sequential
    requires w == if cfg.limit[c] > 0 then was[0 := ToCoef(b[0])] else was
    requires Wanted(cfg.scan.order, result, w, Zigzag(cfg.scan.order, b, 0), cfg.limit[c], cfg.scan.se + 1)
    ensures DecodedWanted(cfg, c, was, b, result)
  {
    hide ToCoef, Zigzag, D.DcTable, D.Decodable;
    var scan := cfg.scan;
    var zz, full := Zigzag(scan.order, b, 0), was[0 := ToCoef(b[0])];
    NoShift(scan, b);
    assert Pow2(0) == 1;
    forall j | 0 <= j < 64
      ensures var at := scan.order[j];
              Decoded(scan, was, b)[at] == if 1 <= j <= scan.se && zz[j] != 0 then ToCoef(zz[j]) else full[at]
    {
      if scan.se > 0 {
        PlacedAt(scan.order, full, zz, 1, scan.se, j, 0);
      }
    }
    forall j | 1 <= j < 64
      ensures scan.order[j] != 0
    {
      assert scan.order[0] != scan.order[j];
    }
  }

  /** A block of any scan. */
  lemma BlockBack(cfg: D.Config, s: D.Src, st: D.State, last: seq<int>, it: Item, was: seq<Coef>, parts: seq<Part>,
                  pad: seq<Bit>)
    requires cfg.Ok() && it.comp < cfg.scan.NumComps() && |was| == 64 && LastOk(cfg, st, last)
    requires Codable(cfg.scan, last[it.comp], it.block) && Prior(cfg.scan, was, it.block)
    requires CarriesParts(cfg.tabs, RunTbl(cfg.scan), s, st.eobrun,
                          [BlockPart(cfg.scan, last[it.comp], it)] + parts, pad)
    ensures var m := D.BlockResult(cfg, it.comp, s, st, was);
            && CarriesParts(cfg.tabs, RunTbl(cfg.scan), m.src, m.st.eobrun, parts, pad)
            && LastOk(cfg, m.st, NextLast(cfg.scan, last, it))
            && DecodedWanted(cfg, it.comp, was, it.block, m.block)
  {
    hide Carries, CarriesParts, D.Decodable, D.DcTable, Zigzag, FirstPart, RefinePart, Placed, D.AcFirstFrom,
         D.RefineBlock, InRange, BitCount, ToCoef, DcTokens;
    var scan := cfg.scan;
    match scan.kind
    case AcFirst =>
      FirstBlockBack(cfg.tabs, scan.acTbl[0], scan.order, scan.ss, scan.se, scan.al,
                     was, Zigzag(scan.order, it.block, scan.al), s, st.eobrun, parts, pad);
    case AcRefine =>
      PriorRefines(scan, was, it.block);
      RefineBlockBack(cfg.tabs, scan.acTbl[0], scan.order, scan.ss, scan.se, scan.al,
                      was, Zigzag(scan.order, it.block, scan.al), s, st.eobrun, parts, pad);
    case _ =>
      NonAcBack(cfg, s, st, last, it, was, parts, pad);
  }

  lemma NonAcBack(cfg: D.Config, s: D.Src, st: D.State, last: seq<int>, it: Item, was: seq<Coef>, parts: seq<Part>,
                  pad: seq<Bit>)
    requires cfg.Ok() && it.comp < cfg.scan.NumComps() && |was| == 64 && LastOk(cfg, st, last)
    requires !cfg.scan.kind.AcFirst? && !cfg.scan.kind.AcRefine? && Codable(cfg.scan, last[it.comp], it.block)
    requires CarriesParts(cfg.tabs, RunTbl(cfg.scan), s, st.eobrun,
                          [BlockPart(cfg.scan, last[it.comp], it)] + parts, pad)
    ensures var m := D.BlockResult(cfg, it.comp, s, st, was);
            && CarriesParts(cfg.tabs, RunTbl(cfg.scan), m.src, m.st.eobrun, parts, pad)
            && LastOk(cfg, m.st, NextLast(cfg.scan, last, it))
            && DecodedWanted(cfg, it.comp, was, it.block, m.block)
  {
    hide Carries, Stream, D.Decodable, D.DcTable, Zigzag, InRange, BitCount, ToCoef, DcTokens, D.NextSymbol,
         D.SkipSymbol, D.Number, D.Skip, D.Extended, D.SequentialResult, D.SequentialLast, WithBit;
    var scan, tbl, p := cfg.scan, RunTbl(cfg.scan), BlockPart(cfg.scan, last[it.comp], it);
    NextOfRun(cfg.tabs, tbl, s, st.eobrun, p, parts, pad);
    assert !p.eob;
    match scan.kind
    case Sequential =>
      NoShift(scan, it.block);
      if cfg.limit[it.comp] > 0 {
        SequentialBack(cfg, it.comp, s, last[it.comp], it.block, was, parts, pad);
      } else {
        UnwantedBack(cfg, it.comp, s, st.last[it.comp], last[it.comp], it.block, was, parts, pad);
      }
    case DcFirst =>
      DcPartStream(tbl, scan.dcTbl[it.comp], DcValue(scan, it.block) - last[it.comp], parts);
      DcBack(cfg.tabs, scan.dcTbl[it.comp], DcValue(scan, it.block) - last[it.comp], s, Stream(tbl, parts), pad);
    case DcRefine =>
      StreamParts(tbl, p, parts);
      CarriesRaw(cfg.tabs, s, DcValue(scan, it.block), 1, Stream(tbl, parts), pad);
      assert Pow2(1) == 2;
  }

  /** Where a component is not wanted its predictions need not be right. */
  lemma UnwantedBack(cfg: D.Config, c: nat, s: D.Src, other: int, last: int, b: Block, was: seq<Coef>, parts: seq<Part>,
                     pad: seq<Bit>)
    requires cfg.Ok() && c < cfg.scan.NumComps() && |was| == 64 && cfg.scan.kind == Sequential
    requires Codable(cfg.scan, last, b) && cfg.limit[c] == 0
    requires Carries(cfg.tabs, s, Stream(RunTbl(cfg.scan), [BlockPart(cfg.scan, last, Item(c, b))] + parts), pad)
    ensures var r := D.SequentialResult(cfg, c, s, other, was);
            && Carries(cfg.tabs, r.src, Stream(RunTbl(cfg.scan), parts), pad)
            && DecodedWanted(cfg, c, was, b, r.block)
    ensures D.SequentialLast(cfg, c, s, other) == other
  {
    hide Carries, Stream, BlockPart, Codable, D.SeqAcFrom;
    SequentialBack(cfg, c, s, last, b, was, parts, pad);
  }

  // MCUs.

  predicate McuFits(cfg: D.Config, comps: seq<nat>, items: seq<Item>, blocks: seq<seq<Coef>>) {
    && |comps| == |items| == |blocks|
    && forall i :: 0 <= i < |items| ==> items[i].comp == comps[i] < cfg.scan.NumComps() && |blocks[i]| == 64
  }

  ghost predicate AllPrior(cfg: D.Config, items: seq<Item>, blocks: seq<seq<Coef>>, i: nat)
    requires cfg.Ok() && |items| == |blocks| && forall j :: 0 <= j < |blocks| ==> |blocks[j]| == 64
  {
    forall j :: i <= j < |items| ==> Prior(cfg.scan, blocks[j], items[j].block)
  }

  /** The blocks of an MCU from block i on. */
  lemma {:induction false} ItemsBack(cfg: D.Config, comps: seq<nat>, i: nat, s: D.Src, st: D.State, last: seq<int>,
                                     items: seq<Item>,
                                     blocks: seq<seq<Coef>>, rest: seq<Part>, pad: seq<Bit>)
    requires cfg.Ok() && McuFits(cfg, comps, items, blocks) && LastOk(cfg, st, last) && i <= |items|
    requires ItemsOk(cfg.scan, items[i..]) && AllCodable(cfg.scan, last, items[i..]) && AllPrior(cfg, items, blocks, i)
    requires CarriesParts(cfg.tabs, RunTbl(cfg.scan), s, st.eobrun, Parts(cfg.scan, last, items[i..]) + rest, pad)
    ensures D.BlocksOk(cfg, comps, st, blocks)
    ensures var m := D.BlocksFrom(cfg, comps, i, s, st, blocks);
            && CarriesParts(cfg.tabs, RunTbl(cfg.scan), m.src, m.st.eobrun, rest, pad)
            && LastOk(cfg, m.st, LastAfter(cfg.scan, last, items[i..]))
            && (forall j :: 0 <= j < i ==> m.blocks[j] == blocks[j])
            && (forall j :: i <= j < |items| ==> DecodedWanted(cfg, comps[j], blocks[j], items[j].block, m.blocks[j]))
    decreases |items| - i
  {
    hide CarriesParts, D.BlockResult, DecodedWanted, BlockPart, Codable, NextLast, Prior;
    if i == |items| {
      assert items[i..] == [];
      assert Parts(cfg.scan, last, items[i..]) + rest == rest;
    } else {
      var it, tail := items[i], items[i + 1..];
      assert items[i..] == [it] + tail && items[i..][1..] == tail && items[i..][0] == it;
      var next := NextLast(cfg.scan, last, it);
      assert Parts(cfg.scan, last, items[i..]) + rest == [BlockPart(cfg.scan, last[it.comp], it)] +
             (Parts(cfg.scan, next, tail) + rest);
      BlockBack(cfg, s, st, last, it, blocks[i], Parts(cfg.scan, next, tail) + rest, pad);
      var m := D.BlockResult(cfg, comps[i], s, st, blocks[i]);
      ItemsBack(cfg, comps, i + 1, m.src, m.st, next, items, blocks[i := m.block], rest, pad);
    }
  }

  /** An MCU is decoded to what was coded, and the stream is where the next one starts. */
  lemma McuBack(cfg: D.Config, comps: seq<nat>, s: D.Src, st: D.State, last: seq<int>, items: seq<Item>,
                blocks: seq<seq<Coef>>, rest: seq<Part>, pad: seq<Bit>)
    requires cfg.Ok() && McuFits(cfg, comps, items, blocks) && LastOk(cfg, st, last)
    requires ItemsOk(cfg.scan, items) && AllCodable(cfg.scan, last, items) && AllPrior(cfg, items, blocks, 0)
    requires CarriesParts(cfg.tabs, RunTbl(cfg.scan), s, st.eobrun, Parts(cfg.scan, last, items) + rest, pad)
    ensures D.BlocksOk(cfg, comps, st, blocks)
    ensures var m := D.DecodedMcu(cfg, comps, s, st, blocks);
            && CarriesParts(cfg.tabs, RunTbl(cfg.scan), m.src, m.st.eobrun, rest, pad)
            && LastOk(cfg, m.st, LastAfter(cfg.scan, last, items))
            && forall j :: 0 <= j < |items| ==> DecodedWanted(cfg, comps[j], blocks[j], items[j].block, m.blocks[j])
  {
    hide Parts, D.BlocksFrom, DecodedWanted, AllCodable, LastAfter, Within;
    assert items[0..] == items;
    ItemsBack(cfg, comps, 0, s, st, last, items, blocks, rest, pad);
    assert !s.dry;
  }
}
