/** Canonical Huffman codes (section C.2 of ITU-T T.81): which tables define one, its code
    words, and the tables from which the encoder and the decoder work. */
module HuffCodes {
  import opened Bits
  import opened BitStrings
  import opened CodeCounts

  /** As a DHT marker transmits it: bits[1..17] and the symbols by code length. */
  datatype HuffTbl = HuffTbl(bits: seq<Byte>, huffval: seq<Byte>) {
    predicate Ok() { |bits| == 17 && |huffval| == 256 }
  }

  /** The counts define a code without an all-ones code word, for at most 256 symbols. */
  ghost predicate Legal(bits: seq<Byte>) {
    |bits| == 17 && Codes(bits, 16) <= 256 && Space(bits, 16) < Pow2(16)
  }

  lemma {:induction false} CountsMono(bits: seq<Byte>, k: nat, l: nat)
    requires k <= l < |bits|
    ensures 0 <= Codes(bits, k) <= Codes(bits, l)
    ensures 0 <= Space(bits, k) * Pow2(l - k) <= Space(bits, l)
    ensures Codes(bits, k) == Codes(bits, l) ==> Space(bits, l) == Space(bits, k) * Pow2(l - k)
  {
    if k < l {
      CountsMono(bits, k, l - 1);
      assert Pow2(l - k) == 2 * Pow2(l - 1 - k);
      DoubledProduct(Space(bits, k), Pow2(l - 1 - k));
    } else if k > 0 {
      CountsMono(bits, k - 1, k - 1);
    }
  }

  /** Every length leaves at least the all-ones code word unused. */
  lemma RoomLeft(bits: seq<Byte>, l: nat)
    requires |bits| == 17 && l <= 16
    ensures Space(bits, 16) < Pow2(16) ==> 0 <= Space(bits, l) < Pow2(l)
  {
    CountsMono(bits, l, 16);
    CountsMono(bits, l, l);
    Pow2Add(l, 16 - l);
    if Space(bits, l) >= Pow2(l) {
      MulMono(Pow2(l), Space(bits, l), Pow2(16 - l));
    }
  }

  /** The length of the p-th code word: the first length for which there are more than p codes. */
  function LengthAt(bits: seq<Byte>, p: nat, l: nat): (k: nat)
    requires 1 <= l < |bits|
    ensures l <= k <= |bits|
    ensures k < |bits| ==> p < Codes(bits, k)
    ensures forall j :: l <= j < k ==> Codes(bits, j) <= p
    decreases |bits| - l
  {
    if p < Codes(bits, l) then l else if l + 1 < |bits| then LengthAt(bits, p, l + 1) else |bits|
  }

  function Length(bits: seq<Byte>, p: nat): (l: nat)
    requires |bits| == 17
  {
    LengthAt(bits, p, 1)
  }

  /** The p-th code word: code words of one length are consecutive numbers, and the first of
      length l follows the last of length l - 1, a zero bit appended. */
  function CodeWord(bits: seq<Byte>, p: nat): int
    requires |bits| == 17 && p < Codes(bits, 16)
  {
    var l := Length(bits, p);
    2 * Space(bits, l - 1) + p - Codes(bits, l - 1)
  }

  lemma LengthIs(bits: seq<Byte>, p: nat, l: nat)
    requires |bits| == 17 && 1 <= l <= 16 && Codes(bits, l - 1) <= p < Codes(bits, l)
    ensures Length(bits, p) == l
  {
    var k := Length(bits, p);
    if k < l {
      CountsMono(bits, k, l - 1);
    }
  }

  lemma LengthWithin(bits: seq<Byte>, p: nat)
    requires |bits| == 17 && p < Codes(bits, 16)
    ensures 1 <= Length(bits, p) <= 16
    ensures Codes(bits, Length(bits, p) - 1) <= p < Codes(bits, Length(bits, p))
  {
    assert Codes(bits, 0) == 0;
  }

  /** The l-bit number v is a code word. */
  ghost predicate IsCode(bits: seq<Byte>, l: nat, v: int)
    requires |bits| == 17
  {
    1 <= l <= 16 && 2 * Space(bits, l - 1) <= v < Space(bits, l)
  }

  /** The symbol number of the code word v of length l. */
  function IndexOf(bits: seq<Byte>, l: nat, v: int): int
    requires |bits| == 17 && 1 <= l <= 16
  {
    v + Codes(bits, l - 1) - 2 * Space(bits, l - 1)
  }

  /** Code words and symbol numbers correspond one to one. */
  lemma CodesAndNumbers(bits: seq<Byte>, l: nat, v: int, p: nat)
    requires |bits| == 17 && 1 <= l <= 16
    ensures IsCode(bits, l, v) && IndexOf(bits, l, v) == p <==>
            p < Codes(bits, 16) && Length(bits, p) == l && CodeWord(bits, p) == v
  {
    CountsMono(bits, l - 1, l - 1);
    CountsMono(bits, l, 16);
    if IsCode(bits, l, v) && IndexOf(bits, l, v) == p {
      LengthIs(bits, p, l);
    }
    if p < Codes(bits, 16) {
      LengthWithin(bits, p);
    }
  }

  /** No code word consists of ones only, and every code word fits its length. */
  lemma NoAllOnes(bits: seq<Byte>, p: nat)
    requires Legal(bits) && p < Codes(bits, 16)
    ensures 1 <= Length(bits, p) <= 16
    ensures 0 <= CodeWord(bits, p) < Pow2(Length(bits, p)) - 1
  {
    LengthWithin(bits, p);
    var l := Length(bits, p);
    RoomLeft(bits, l);
    CountsMono(bits, l - 1, l - 1);
    assert Space(bits, l) == 2 * Space(bits, l - 1) + bits[l];
  }

  /** What stands after a prefix that is no code word and has no code word as its prefix. */
  ghost predicate Open(bits: seq<Byte>, s: seq<Bit>, l: nat)
    requires |bits| == 17 && l <= 16
  {
    Peek(s, l) >= Space(bits, l)
  }

  lemma OpenStart(bits: seq<Byte>, s: seq<Bit>)
    requires |bits| == 17
    ensures Open(bits, s, 0)
  {
  }

  /** A prefix that ends in a code word has no other code word as a proper prefix. */
  lemma {:induction false} OpenBefore(bits: seq<Byte>, s: seq<Bit>, k: nat, l: nat)
    requires |bits| == 17 && k <= l <= 16 && Open(bits, s, l)
    ensures Open(bits, s, k)
  {
    if k < l {
      PeekMore(s, l - 1);
      OpenBefore(bits, s, k, l - 1);
    }
  }

  lemma {:induction false} OpenUnlessCode(bits: seq<Byte>, s: seq<Bit>, l: nat)
    requires |bits| == 17 && l <= 16
    requires forall k :: 1 <= k <= l ==> !IsCode(bits, k, Peek(s, k))
    ensures Open(bits, s, l)
  {
    if l > 0 {
      OpenUnlessCode(bits, s, l - 1);
      PeekMore(s, l - 1);
      assert !IsCode(bits, l, Peek(s, l));
    }
  }

  lemma CodeOpens(bits: seq<Byte>, s: seq<Bit>, l: nat)
    requires |bits| == 17 && IsCode(bits, l, Peek(s, l))
    ensures Open(bits, s, l - 1) && !Open(bits, s, l)
  {
    PeekMore(s, l - 1);
  }

  /** At most one code word is a prefix of a bit string. */
  lemma PrefixFree(bits: seq<Byte>, s: seq<Bit>, k: nat, l: nat)
    requires |bits| == 17 && IsCode(bits, k, Peek(s, k)) && IsCode(bits, l, Peek(s, l))
    ensures k == l
  {
    CodeOpens(bits, s, k);
    CodeOpens(bits, s, l);
    if k < l {
      OpenBefore(bits, s, k, l - 1);
    } else if l < k {
      OpenBefore(bits, s, l, k - 1);
    }
  }

  /** The length of the code word that the bits start with, 17 if there is none. */
  ghost function MatchLength(bits: seq<Byte>, s: seq<Bit>): (l: nat)
    requires |bits| == 17
    ensures 1 <= l <= 17 && (l <= 16 ==> IsCode(bits, l, Peek(s, l)))
    ensures l == 17 <==> forall k :: 1 <= k <= 16 ==> !IsCode(bits, k, Peek(s, k))
  {
    if l :| 1 <= l <= 16 && IsCode(bits, l, Peek(s, l)) then l else 17
  }

  /** The symbol that the bits start with; zero if they start with no code word. */
  ghost function Symbol(tbl: HuffTbl, s: seq<Bit>): Byte
    requires tbl.Ok() && Legal(tbl.bits)
  {
    var l := MatchLength(tbl.bits, s);
    if l == 17 then 0
    else
      MatchedNumber(tbl.bits, s);
      tbl.huffval[IndexOf(tbl.bits, l, Peek(s, l))]
  }

  lemma MatchedNumber(bits: seq<Byte>, s: seq<Bit>)
    requires Legal(bits) && MatchLength(bits, s) <= 16
    ensures var l := MatchLength(bits, s);
            0 <= IndexOf(bits, l, Peek(s, l)) < Codes(bits, 16) <= 256
  {
    var l := MatchLength(bits, s);
    CountsMono(bits, l - 1, l);
    CountsMono(bits, l, 16);
    assert Codes(bits, l) == Codes(bits, l - 1) + bits[l] && Space(bits, l) == 2 * Space(bits, l - 1) + bits[l];
  }

  /** Decoding what starts with a code word gives its symbol and takes exactly its bits. */
  lemma DecodesCodeWord(tbl: HuffTbl, p: nat, rest: seq<Bit>)
    requires tbl.Ok() && Legal(tbl.bits) && p < Codes(tbl.bits, 16)
    ensures var s := BitsOf(CodeWord(tbl.bits, p), Length(tbl.bits, p)) + rest;
            && MatchLength(tbl.bits, s) == Length(tbl.bits, p)
            && Symbol(tbl, s) == tbl.huffval[p]
            && Drop(s, MatchLength(tbl.bits, s)) == rest
  {
    var bits, l, v := tbl.bits, Length(tbl.bits, p), CodeWord(tbl.bits, p);
    NoAllOnes(bits, p);
    PeekFront(v, l, rest);
    var s := BitsOf(v, l) + rest;
    Remainder(v, Pow2(l), 0, v);
    CodesAndNumbers(bits, l, v, p);
    assert IsCode(bits, l, Peek(s, l));
    PrefixFree(bits, s, l, MatchLength(bits, s));
  }
}
