/** The tables that the Huffman encoder and decoder derive from a transmitted table. */
module HuffTables {
  import opened Bits
  import opened BitStrings
  import opened CodeCounts
  import opened HuffCodes

  const HUFF_LOOKAHEAD := 8

  /** Figure C.1: the list of code lengths. Fails if there are more than 256 codes. */
  method CodeLengths(bits: seq<Byte>) returns (ok: bool, huffsize: array<nat>, lastp: nat)
    requires |bits| == 17
    ensures fresh(huffsize) && huffsize.Length == 257
    ensures ok <==> Codes(bits, 16) <= 256
    ensures ok ==> lastp == Codes(bits, 16) && huffsize[lastp] == 0
    ensures ok ==> forall q :: 0 <= q < lastp ==> huffsize[q] == Length(bits, q)
  {
    hide Codes, LengthAt;
    huffsize := new nat[257](_ => 0);
    lastp := 0;
    NoneBelow(bits);
    for l := 1 to 17
      invariant lastp == Codes(bits, l - 1) <= 256 && huffsize.Length == 257 && fresh(huffsize)
      invariant forall q :: 0 <= q < lastp ==> huffsize[q] == Length(bits, q)
    {
      NextCount(bits, l);
      var i: nat := bits[l];
      if lastp + i > 256 {
        ok := false;
        return;
      }
      while i > 0
        invariant lastp + i == Codes(bits, l) <= 256 && Codes(bits, l - 1) <= lastp
        invariant huffsize.Length == 257 && fresh(huffsize)
        invariant forall q :: 0 <= q < lastp ==> huffsize[q] == Length(bits, q)
      {
        i := i - 1;
        LengthIs(bits, lastp, l);
        huffsize[lastp] := l;
        lastp := lastp + 1;
      }
    }
    huffsize[lastp] := 0;
    ok := true;
  }

  lemma NoneBelow(bits: seq<Byte>)
    requires |bits| == 17
    ensures Codes(bits, 0) == 0 && Space(bits, 0) == 0
  {
  }

  lemma NextCount(bits: seq<Byte>, l: nat)
    requires |bits| == 17 && 1 <= l <= 16
    ensures Codes(bits, l) == Codes(bits, l - 1) + bits[l] <= Codes(bits, 16)
    ensures Space(bits, l) == 2 * Space(bits, l - 1) + bits[l] && Space(bits, l - 1) >= 0
  {
    CountsMono(bits, l, 16);
    CountsMono(bits, l - 1, l - 1);
  }

  /** Figure C.2: the code words. Fails if they do not leave room for an all-ones one. */
  method GenerateCodes(bits: seq<Byte>) returns (ok: bool, huffsize: array<nat>, huffcode: array<nat>, lastp: nat)
    requires |bits| == 17
    ensures fresh(huffsize) && fresh(huffcode) && huffsize.Length == huffcode.Length == 257
    ensures ok <==> Legal(bits)
    ensures ok ==> lastp == Codes(bits, 16)
    ensures ok ==> forall q :: 0 <= q < lastp ==> huffsize[q] == Length(bits, q) && huffcode[q] == CodeWord(bits, q)
  {
    hide Codes, Space, Length, CodeWord, Pow2;
    huffcode := new nat[257](_ => 0);
    ok, huffsize, lastp := CodeLengths(bits);
    if !ok {
      return;
    }
    ghost var sizes := huffsize[..];
    PositiveLengths(bits, lastp);
    var code, si, p := 0, huffsize[0], 0;
    FirstLength(bits, lastp);
    while huffsize[p] != 0
      invariant fresh(huffcode) && huffcode.Length == 257 && huffsize[..] == sizes
      invariant 0 <= p <= lastp && (si == 0 ==> lastp == 0) && si <= 17
      invariant si > 0 ==> p == Codes(bits, si - 1) && code == 2 * Space(bits, si - 1)
      invariant si > 0 ==> Space(bits, si - 1) < Pow2(si - 1)
      invariant forall q :: 0 <= q < p ==> huffcode[q] == CodeWord(bits, q)
      decreases 17 - si
    {
      assert si <= 16;
      NextCount(bits, si);
      while huffsize[p] == si
        invariant fresh(huffcode) && huffcode.Length == 257 && huffsize[..] == sizes
        invariant Codes(bits, si - 1) <= p <= Codes(bits, si) <= lastp
        invariant code == 2 * Space(bits, si - 1) + p - Codes(bits, si - 1)
        invariant forall q :: 0 <= q < p ==> huffcode[q] == CodeWord(bits, q)
        decreases lastp - p
      {
        LengthWithin(bits, p);
        IsCodeWord(bits, p, si);
        huffcode[p] := code;
        p := p + 1;
        code := code + 1;
      }
      EndOfLength(bits, p, si);
      if code >= Pow2(si) {
        RoomLeft(bits, si);
        ok := false;
        return;
      }
      code := 2 * code;
      si := si + 1;
    }
    NoMoreCodes(bits, si, lastp);
  }

  lemma PositiveLengths(bits: seq<Byte>, lastp: nat)
    requires |bits| == 17 && lastp == Codes(bits, 16)
    ensures forall q :: 0 <= q < lastp ==> Length(bits, q) >= 1
  {
  }

  /** There are no codes before the first code's length. */
  lemma FirstLength(bits: seq<Byte>, lastp: nat)
    requires |bits| == 17 && lastp == Codes(bits, 16)
    ensures lastp > 0 ==>
              var si := Length(bits, 0);
              1 <= si <= 16 && Codes(bits, si - 1) == 0 && Space(bits, si - 1) == 0 < Pow2(si - 1)
  {
    if lastp > 0 {
      LengthWithin(bits, 0);
      CountsMono(bits, 0, Length(bits, 0) - 1);
    }
  }

  lemma IsCodeWord(bits: seq<Byte>, p: nat, si: nat)
    requires |bits| == 17 && p < Codes(bits, 16) && Length(bits, p) == si && 1 <= si <= 16
    ensures CodeWord(bits, p) == 2 * Space(bits, si - 1) + p - Codes(bits, si - 1)
  {
  }

  lemma EndOfLength(bits: seq<Byte>, p: nat, si: nat)
    requires |bits| == 17 && 1 <= si <= 16 && Codes(bits, si - 1) <= p
    ensures p < Codes(bits, si) ==> Length(bits, p) == si
  {
    if p < Codes(bits, si) {
      LengthIs(bits, p, si);
    }
  }

  lemma NoMoreCodes(bits: seq<Byte>, si: nat, lastp: nat)
    requires |bits| == 17 && lastp == Codes(bits, 16) <= 256 && si <= 17
    requires si == 0 ==> lastp == 0
    requires si > 0 ==> lastp == Codes(bits, si - 1) && Space(bits, si - 1) < Pow2(si - 1)
    ensures Legal(bits)
  {
    var k := if si == 0 then 0 else si - 1;
    CountsMono(bits, k, 16);
    Pow2Add(k, 16 - k);
    assert Pow2(0) == 1;
    MulMonoStrict(Space(bits, k), Pow2(k), Pow2(16 - k));
  }

  /** Figure C.3: code and size by symbol; a symbol without a code has size 0. */
  datatype CDerived = CDerived(ehufco: seq<nat>, ehufsi: seq<nat>)

  /** Every symbol is in range and listed once. */
  ghost predicate Assignable(tbl: HuffTbl, maxsymbol: nat, n: int)
    requires tbl.Ok() && n <= 256
  {
    && (forall p :: 0 <= p < n ==> tbl.huffval[p] <= maxsymbol)
    && (forall p, q :: 0 <= p < q < n ==> tbl.huffval[p] != tbl.huffval[q])
  }

  ghost predicate EncodesFirst(tbl: HuffTbl, c: CDerived, n: nat)
    requires tbl.Ok() && n <= 256 && n <= Codes(tbl.bits, 16)
  {
    && |c.ehufco| == |c.ehufsi| == 256
    && (forall p :: 0 <= p < n ==> var s := tbl.huffval[p];
          c.ehufsi[s] == Length(tbl.bits, p) && c.ehufco[s] == CodeWord(tbl.bits, p))
    && (forall s: Byte :: c.ehufsi[s] != 0 ==> s in tbl.huffval[..n])
  }

  /** The encoder's tables say what the transmitted table says. */
  ghost predicate Encodes(tbl: HuffTbl, c: CDerived)
    requires tbl.Ok() && Legal(tbl.bits)
  {
    CountsMono(tbl.bits, 16, 16);
    EncodesFirst(tbl, c, Codes(tbl.bits, 16))
  }

  method MakeCDerived(tbl: HuffTbl, isDC: bool) returns (ok: bool, c: CDerived)
    requires tbl.Ok()
    ensures ok <==> Legal(tbl.bits) && Assignable(tbl, if isDC then 15 else 255, Codes(tbl.bits, 16))
    ensures ok ==> Encodes(tbl, c)
  {
    hide Codes, Space, Length, CodeWord, Pow2, EncodesFirst;
    c := CDerived([], []);
    var huffsize, huffcode, lastp;
    ok, huffsize, huffcode, lastp := GenerateCodes(tbl.bits);
    if !ok {
      return;
    }
    PositiveLengths(tbl.bits, lastp);
    var co, si := new nat[256](_ => 0), new nat[256](_ => 0);
    var maxsymbol := if isDC then 15 else 255;
    ghost var sizes, codes := huffsize[..], huffcode[..];
    NoCodesYet(tbl, CDerived(co[..], si[..]));
    for p := 0 to lastp
      invariant huffsize[..] == sizes && huffcode[..] == codes
      invariant EncodesFirst(tbl, CDerived(co[..], si[..]), p) && Assignable(tbl, maxsymbol, p)
    {
      var i := tbl.huffval[p];
      FreeSymbol(tbl, CDerived(co[..], si[..]), p);
      if i > maxsymbol || si[i] != 0 {
        ok := false;
        return;
      }
      ghost var before := CDerived(co[..], si[..]);
      co[i] := huffcode[p];
      si[i] := huffsize[p];
      OneMoreCode(tbl, before, CDerived(co[..], si[..]), p);
    }
    c := CDerived(co[..], si[..]);
  }

  lemma NoCodesYet(tbl: HuffTbl, c: CDerived)
    requires tbl.Ok() && 0 <= Codes(tbl.bits, 16) && |c.ehufco| == |c.ehufsi| == 256
    requires forall s: Byte :: c.ehufsi[s] == 0
    ensures EncodesFirst(tbl, c, 0)
  {
  }

  lemma FreeSymbol(tbl: HuffTbl, c: CDerived, p: nat)
    requires tbl.Ok() && p < 256 && p <= Codes(tbl.bits, 16) && EncodesFirst(tbl, c, p)
    ensures |c.ehufsi| == 256
    ensures (c.ehufsi[tbl.huffval[p]] != 0 ==> exists q :: 0 <= q < p && tbl.huffval[q] == tbl.huffval[p])
  {
  }

  lemma OneMoreCode(tbl: HuffTbl, c: CDerived, c': CDerived, p: nat)
    requires tbl.Ok() && p < 256 && p < Codes(tbl.bits, 16) && EncodesFirst(tbl, c, p)
    requires forall q :: 0 <= q < p ==> Length(tbl.bits, q) >= 1
    requires var i := tbl.huffval[p];
             && c.ehufsi[i] == 0 && CodeWord(tbl.bits, p) >= 0
             && c'.ehufco == c.ehufco[i := CodeWord(tbl.bits, p)] && c'.ehufsi == c.ehufsi[i := Length(tbl.bits, p)]
    ensures EncodesFirst(tbl, c', p + 1)
    ensures forall q :: 0 <= q < p ==> tbl.huffval[q] != tbl.huffval[p]
  {
    hide Codes, Length, CodeWord;
    var i := tbl.huffval[p];
    assert tbl.huffval[..p + 1] == tbl.huffval[..p] + [i];
    forall q | 0 <= q < p
      ensures tbl.huffval[q] != i
    {
      assert c.ehufsi[tbl.huffval[q]] == Length(tbl.bits, q);
    }
  }

  /** Figure F.15 and the lookahead tables. */
  datatype DDerived = DDerived(pub: HuffTbl, maxcode: seq<int>, valoffset: seq<int>, lookNbits: seq<nat>,
                               lookSym: seq<Byte>)

  ghost predicate SlowRow(bits: seq<Byte>, l: nat, maxcode: int, valoffset: int)
    requires |bits| == 17 && 1 <= l <= 16
  {
    if bits[l] > 0 then maxcode == Space(bits, l) - 1 && valoffset == Codes(bits, l - 1) - 2 * Space(bits, l - 1)
    else maxcode == -1
  }

  /** The first l of eight bits. */
  function Leading(look: nat, l: nat): int
    requires l <= HUFF_LOOKAHEAD
  {
    look / Pow2(HUFF_LOOKAHEAD - l)
  }

  /** What the lookahead tables hold for eight bits: the code word these start with, if any. */
  ghost predicate LookRow(tbl: HuffTbl, look: nat, nbits: nat, sym: Byte)
    requires tbl.Ok()
  {
    && nbits <= HUFF_LOOKAHEAD
    && (nbits == 0 ==> forall l :: 1 <= l <= HUFF_LOOKAHEAD ==> !IsCode(tbl.bits, l, Leading(look, l)))
    && (nbits > 0 ==> Coded(tbl, look, nbits, sym))
  }

  ghost predicate Coded(tbl: HuffTbl, look: nat, l: nat, sym: Byte)
    requires tbl.Ok() && l <= HUFF_LOOKAHEAD
  {
    && IsCode(tbl.bits, l, Leading(look, l))
    && var p := IndexOf(tbl.bits, l, Leading(look, l));
       0 <= p < 256 && sym == tbl.huffval[p]
  }

  ghost predicate Decodes(d: DDerived) {
    && d.pub.Ok() && Legal(d.pub.bits)
    && |d.maxcode| == |d.valoffset| == 18 && |d.lookNbits| == |d.lookSym| == 256
    && (forall l :: 1 <= l <= 16 ==> SlowRow(d.pub.bits, l, d.maxcode[l], d.valoffset[l]))
    && d.maxcode[17] == 0xF_FFFF
    && (forall look :: 0 <= look < 256 ==> LookRow(d.pub, look, d.lookNbits[look], d.lookSym[look]))
  }

  method SlowTable(tbl: HuffTbl, huffcode: array<nat>, lastp: nat) returns (maxcode: seq<int>, valoffset: seq<int>)
    requires tbl.Ok() && Legal(tbl.bits) && lastp == Codes(tbl.bits, 16) && huffcode.Length == 257
    requires forall q :: 0 <= q < lastp ==> huffcode[q] == CodeWord(tbl.bits, q)
    ensures |maxcode| == |valoffset| == 18 && maxcode[17] == 0xF_FFFF
    ensures forall l :: 1 <= l <= 16 ==> SlowRow(tbl.bits, l, maxcode[l], valoffset[l])
  {
    hide Codes, Space, Length, CodeWord, Pow2;
    var max, off := new int[18](_ => 0), new int[18](_ => 0);
    var p: nat := 0;
    NoneBelow(tbl.bits);
    for l := 1 to 17
      invariant p == Codes(tbl.bits, l - 1) && max.Length == off.Length == 18
      invariant forall k :: 1 <= k < l ==> SlowRow(tbl.bits, k, max[k], off[k])
    {
      NextCount(tbl.bits, l);
      if tbl.bits[l] != 0 {
        WordOfLength(tbl.bits, l, p);
        WordOfLength(tbl.bits, l, p + tbl.bits[l] - 1);
        off[l] := p - huffcode[p];
        p := p + tbl.bits[l];
        max[l] := huffcode[p - 1];
      } else {
        max[l] := -1;
      }
    }
    max[17] := 0xF_FFFF;
    maxcode, valoffset := max[..], off[..];
  }

  lemma WordOfLength(bits: seq<Byte>, l: nat, p: int)
    requires |bits| == 17 && 1 <= l <= 16 && Codes(bits, l - 1) <= p < Codes(bits, l)
    ensures 0 <= p < Codes(bits, 16) && Length(bits, p) == l
    ensures CodeWord(bits, p) == 2 * Space(bits, l - 1) + p - Codes(bits, l - 1)
  {
    CountsMono(bits, l, 16);
    CountsMono(bits, l - 1, l);
    LengthIs(bits, p, l);
  }

  /** Code words in order, followed by all bit sequences, fill the tables from the start. */
  method LookTable(tbl: HuffTbl, huffcode: array<nat>, lastp: nat) returns (lookNbits: seq<nat>, lookSym: seq<Byte>)
    requires tbl.Ok() && Legal(tbl.bits) && lastp == Codes(tbl.bits, 16) && huffcode.Length == 257
    requires forall q :: 0 <= q < lastp ==> huffcode[q] == CodeWord(tbl.bits, q)
    ensures |lookNbits| == |lookSym| == 256
    ensures forall look :: 0 <= look < 256 ==> LookRow(tbl, look, lookNbits[look], lookSym[look])
  {
    hide Codes, Space, Length, CodeWord, Pow2, Coded, LookRow;
    var nbits, sym := new nat[256](_ => 0), new Byte[256](_ => 0);
    var p: nat := 0;
    ghost var filled := 0;
    NoneBelow(tbl.bits);
    for l := 1 to HUFF_LOOKAHEAD + 1
      invariant nbits.Length == sym.Length == 256
      invariant p == Codes(tbl.bits, l - 1) && filled == Space(tbl.bits, l - 1) * Pow2(HUFF_LOOKAHEAD - (l - 1))
      invariant Filled(tbl, nbits[..], sym[..], filled)
    {
      NextCount(tbl.bits, l);
      RoomLeft(tbl.bits, l);
      PowerStep(HUFF_LOOKAHEAD - l);
      DoubledProduct(Space(tbl.bits, l - 1), Pow2(HUFF_LOOKAHEAD - l));
      var i: nat := 1;
      while i <= tbl.bits[l]
        invariant 1 <= i && i - 1 <= tbl.bits[l] && p == Codes(tbl.bits, l - 1) + i - 1
        invariant nbits.Length == sym.Length == 256
        invariant filled == (2 * Space(tbl.bits, l - 1) + i - 1) * Pow2(HUFF_LOOKAHEAD - l)
        invariant Filled(tbl, nbits[..], sym[..], filled)
      {
        WordOfLength(tbl.bits, l, p);
        filled := FillCode(tbl, huffcode[p], l, p, nbits, sym, filled);
        i := i + 1;
        p := p + 1;
      }
    }
    lookNbits, lookSym := nbits[..], sym[..];
    assert Pow2(HUFF_LOOKAHEAD - 8) == 1 by { PowersTo8(); }
    forall look | 0 <= look < 256
      ensures LookRow(tbl, look, lookNbits[look], lookSym[look])
    {
      FilledRow(tbl, lookNbits, lookSym, look);
    }
  }

  /** The rows below n are done and the others still empty. */
  ghost predicate Filled(tbl: HuffTbl, nbits: seq<nat>, sym: seq<Byte>, n: int)
    requires tbl.Ok() && |nbits| == |sym| == 256
  {
    && 0 <= n <= 256
    && (forall k :: 0 <= k < n ==> 1 <= nbits[k] <= HUFF_LOOKAHEAD && Coded(tbl, k, nbits[k], sym[k]))
    && (forall k :: n <= k < 256 ==> nbits[k] == 0)
  }

  method FillCode(tbl: HuffTbl, code: nat, l: nat, p: nat, nbits: array<nat>, sym: array<Byte>, ghost n: int)
    returns (ghost n': int)
    requires tbl.Ok() && Legal(tbl.bits) && 1 <= l <= HUFF_LOOKAHEAD && p < Codes(tbl.bits, 16)
    requires Length(tbl.bits, p) == l && CodeWord(tbl.bits, p) == code && p < 256
    requires nbits.Length == sym.Length == 256 && n == code * Pow2(HUFF_LOOKAHEAD - l)
    requires Filled(tbl, nbits[..], sym[..], n)
    modifies nbits, sym
    ensures n' == (code + 1) * Pow2(HUFF_LOOKAHEAD - l)
    ensures Filled(tbl, nbits[..], sym[..], n')
  {
    hide Codes, Space, Length, CodeWord, Pow2, Coded, Legal;
    ghost var w := Pow2(HUFF_LOOKAHEAD - l);
    n' := (code + 1) * w;
    CodeFits(tbl.bits, p, l, code);
    assert n' == n + w <= 256;
    var lookbits := code * Pow2(HUFF_LOOKAHEAD - l);
    var ctr: nat := Pow2(HUFF_LOOKAHEAD - l);
    while ctr > 0
      invariant lookbits + ctr == n + w && n <= lookbits
      invariant nbits.Length == sym.Length == 256
      invariant Filled(tbl, nbits[..], sym[..], lookbits)
    {
      RowOfCode(tbl, code, l, p, lookbits);
      nbits[lookbits] := l;
      sym[lookbits] := tbl.huffval[p];
      lookbits := lookbits + 1;
      ctr := ctr - 1;
    }
  }

  lemma CodeFits(bits: seq<Byte>, p: nat, l: nat, code: nat)
    requires Legal(bits) && 1 <= l <= HUFF_LOOKAHEAD && p < Codes(bits, 16)
    requires Length(bits, p) == l && CodeWord(bits, p) == code
    ensures (code + 1) * Pow2(HUFF_LOOKAHEAD - l) == code * Pow2(HUFF_LOOKAHEAD - l) + Pow2(HUFF_LOOKAHEAD - l) <= 256
  {
    NoAllOnes(bits, p);
    PowersTo8();
    Pow2Add(l, HUFF_LOOKAHEAD - l);
    MulMono(code + 1, Pow2(l), Pow2(HUFF_LOOKAHEAD - l));
  }

  lemma PowersTo8()
    ensures Pow2(8) == 256 && Pow2(0) == 1
  {
    Pow2Small();
  }

  lemma PowerStep(n: nat)
    ensures Pow2(n + 1) == 2 * Pow2(n)
  {
  }

  lemma RowOfCode(tbl: HuffTbl, code: nat, l: nat, p: nat, look: nat)
    requires tbl.Ok() && Legal(tbl.bits) && 1 <= l <= HUFF_LOOKAHEAD && p < Codes(tbl.bits, 16)
    requires Length(tbl.bits, p) == l && CodeWord(tbl.bits, p) == code
    requires code * Pow2(HUFF_LOOKAHEAD - l) <= look < code * Pow2(HUFF_LOOKAHEAD - l) + Pow2(HUFF_LOOKAHEAD - l)
    ensures Coded(tbl, look, l, tbl.huffval[p])
  {
    hide Space, Codes, Pow2, Length, CodeWord;
    var w := Pow2(HUFF_LOOKAHEAD - l);
    assert look == w * code + (look - code * w);
    Remainder(look, w, code, look - code * w);
    CodesAndNumbers(tbl.bits, l, code, p);
  }

  lemma FilledRow(tbl: HuffTbl, nbits: seq<nat>, sym: seq<Byte>, look: nat)
    requires tbl.Ok() && |nbits| == |sym| == 256 && look < 256
    requires Filled(tbl, nbits, sym, Space(tbl.bits, HUFF_LOOKAHEAD))
    ensures LookRow(tbl, look, nbits[look], sym[look])
  {
    hide Coded;
    if look >= Space(tbl.bits, HUFF_LOOKAHEAD) {
      forall l | 1 <= l <= HUFF_LOOKAHEAD
        ensures !IsCode(tbl.bits, l, Leading(look, l))
      {
        CountsMono(tbl.bits, l, HUFF_LOOKAHEAD);
        AtLeastQuotient(look, Pow2(HUFF_LOOKAHEAD - l), Space(tbl.bits, l));
      }
    }
  }

  lemma AtLeastQuotient(x: int, p: nat, q: int)
    requires p >= 1 && q * p <= x
    ensures x / p >= q
  {
    var d := x / p;
    assert x == p * d + x % p;
    assert (d + 1) * p == p * d + p;
    if d < q {
      MulMono(d + 1, q, p);
    }
  }

  method MakeDDerived(tbl: HuffTbl, isDC: bool) returns (ok: bool, d: DDerived)
    requires tbl.Ok()
    ensures ok <==> Legal(tbl.bits) && (isDC ==> forall p :: 0 <= p < Codes(tbl.bits, 16) ==> tbl.huffval[p] <= 15)
    ensures ok ==> Decodes(d) && d.pub == tbl
  {
    hide Codes, Space, Length, CodeWord, Pow2, SlowRow, LookRow;
    d := DDerived(tbl, [], [], [], []);
    var huffsize, huffcode, numsymbols;
    ok, huffsize, huffcode, numsymbols := GenerateCodes(tbl.bits);
    if !ok {
      return;
    }
    var maxcode, valoffset := SlowTable(tbl, huffcode, numsymbols);
    var lookNbits, lookSym := LookTable(tbl, huffcode, numsymbols);
    d := DDerived(tbl, maxcode, valoffset, lookNbits, lookSym);
    if isDC {
      for i := 0 to numsymbols
        invariant forall p :: 0 <= p < i ==> tbl.huffval[p] <= 15
      {
        if tbl.huffval[i] > 15 {
          ok := false;
          return;
        }
      }
    }
  }

  // What the tables mean for a bit string.

  lemma TableSizes(d: DDerived)
    requires Decodes(d)
    ensures d.pub.Ok() && Legal(d.pub.bits)
    ensures |d.maxcode| == |d.valoffset| == 18 && |d.lookNbits| == |d.lookSym| == 256
  {
  }

  lemma Pow17()
    ensures Pow2(17) == 0x2_0000
  {
    Pow2Small();
  }

  /** Above the largest code of length l the search goes on, and it stops at length 17. */
  lemma NotYet(d: DDerived, s: seq<Bit>, l: nat, code: nat)
    requires Decodes(d) && 1 <= l <= 17 && code == Peek(s, l) && Open(d.pub.bits, s, l - 1)
    requires code > d.maxcode[l]
    ensures l <= 16 && Open(d.pub.bits, s, l)
  {
    hide Peek, Space, Codes, LookRow;
    Pow17();
    if l < 17 {
      PeekMore(s, l - 1);
      NextCount(d.pub.bits, l);
      assert SlowRow(d.pub.bits, l, d.maxcode[l], d.valoffset[l]);
    }
  }

  /** Otherwise the code word is complete. */
  lemma MatchedHere(d: DDerived, s: seq<Bit>, l: nat, code: nat)
    requires Decodes(d) && 1 <= l <= 17 && code == Peek(s, l) && Open(d.pub.bits, s, l - 1)
    requires code <= d.maxcode[l]
    ensures MatchLength(d.pub.bits, s) == l
    ensures l <= 16 ==> 0 <= code + d.valoffset[l] < 256 && Symbol(d.pub, s) == d.pub.huffval[code + d.valoffset[l]]
    ensures l == 17 ==> Symbol(d.pub, s) == 0
  {
    hide Peek, Space, Codes, LookRow;
    var bits := d.pub.bits;
    if l <= 16 {
      PeekMore(s, l - 1);
      NextCount(bits, l);
      assert SlowRow(bits, l, d.maxcode[l], d.valoffset[l]);
      assert IsCode(bits, l, code);
      PrefixFree(bits, s, l, MatchLength(bits, s));
      MatchedNumber(bits, s);
    } else {
      forall k | 1 <= k <= 16
        ensures !IsCode(bits, k, Peek(s, k))
      {
        OpenBefore(bits, s, k, 16);
      }
    }
  }

  lemma LeadingBits(s: seq<Bit>, l: nat)
    requires l <= HUFF_LOOKAHEAD
    ensures Leading(Peek(s, HUFF_LOOKAHEAD), l) == Peek(s, l)
  {
    hide Peek, Pow2;
    var n := HUFF_LOOKAHEAD - l;
    PeekParts(s, l, n);
    Remainder(Peek(s, HUFF_LOOKAHEAD), Pow2(n), Peek(s, l), Peek(Drop(s, l), n));
  }

  /** The lookahead tables give the code word that a bit string starts with, if its length is
      at most eight. */
  lemma LookAhead(d: DDerived, s: seq<Bit>)
    requires Decodes(d)
    ensures var look := Peek(s, HUFF_LOOKAHEAD);
            && look < 256 && d.lookNbits[look] <= HUFF_LOOKAHEAD
            && (d.lookNbits[look] > 0 ==> MatchLength(d.pub.bits, s) == d.lookNbits[look]
                                          && Symbol(d.pub, s) == d.lookSym[look])
            && (d.lookNbits[look] == 0 ==> Open(d.pub.bits, s, HUFF_LOOKAHEAD))
  {
    hide Peek, Space, Codes, SlowRow;
    var bits, look := d.pub.bits, Peek(s, HUFF_LOOKAHEAD);
    PowersTo8();
    var nb := d.lookNbits[look];
    assert LookRow(d.pub, look, nb, d.lookSym[look]);
    if nb > 0 {
      LeadingBits(s, nb);
      assert IsCode(bits, nb, Peek(s, nb));
      PrefixFree(bits, s, nb, MatchLength(bits, s));
    } else {
      forall k | 1 <= k <= HUFF_LOOKAHEAD
        ensures !IsCode(bits, k, Peek(s, k))
      {
        LeadingBits(s, k);
        assert !IsCode(bits, k, Leading(look, k));
      }
      OpenUnlessCode(bits, s, HUFF_LOOKAHEAD);
    }
  }
}
