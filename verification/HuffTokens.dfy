/** The bits of symbols and raw values under given Huffman tables. */
module HuffTokens {
  import opened Bits
  import opened BitStrings
  import opened CodeCounts
  import opened HuffCodes
  import opened HuffTables
  import opened HuffModel

  /** The DC and AC table slots; those that a scan does not use may hold anything. */
  datatype Tabs = Tabs(dc: seq<HuffTbl>, ac: seq<HuffTbl>) {
    predicate Ok() { |dc| == |ac| == NUM_HUFF_TBLS }

    function Slot(isDC: bool, tbl: nat): HuffTbl
      requires Ok() && tbl < NUM_HUFF_TBLS
    {
      if isDC then dc[tbl] else ac[tbl]
    }
  }

  /** A table from which both sides can derive theirs. */
  ghost predicate Good(h: HuffTbl) {
    h.Ok() && Legal(h.bits) && Assignable(h, 255, Codes(h.bits, 16))
  }

  ghost predicate Numbers(h: HuffTbl, symbol: Byte, p: nat)
    requires h.Ok()
  {
    p < 256 && p < Codes(h.bits, 16) && h.huffval[p] == symbol
  }

  ghost predicate HasCode(h: HuffTbl, symbol: Byte) {
    Good(h) && exists p :: Numbers(h, symbol, p)
  }

  ghost function CodeOf(h: HuffTbl, symbol: Byte): (s: seq<Bit>)
    requires HasCode(h, symbol)
  {
    var p :| Numbers(h, symbol, p);
    BitsOf(CodeWord(h.bits, p), Length(h.bits, p))
  }

  /** What the encoder puts out for a symbol, and that size 0 tells the symbols without one. */
  lemma EncodedSymbol(h: HuffTbl, c: CDerived, symbol: Byte)
    requires Good(h) && Encodes(h, c)
    ensures |c.ehufco| == |c.ehufsi| == 256 && c.ehufsi[symbol] <= 16
    ensures c.ehufsi[symbol] != 0 <==> HasCode(h, symbol)
    ensures HasCode(h, symbol) ==> BitsOf(c.ehufco[symbol], c.ehufsi[symbol]) == CodeOf(h, symbol)
  {
    hide Codes, Space, Length, CodeWord, BitsOf;
    var n := Codes(h.bits, 16);
    if c.ehufsi[symbol] != 0 {
      assert symbol in h.huffval[..n];
      var p :| 0 <= p < n && h.huffval[p] == symbol;
      assert Numbers(h, symbol, p);
      NoAllOnes(h.bits, p);
    }
    if HasCode(h, symbol) {
      var p :| Numbers(h, symbol, p) && CodeOf(h, symbol) == BitsOf(CodeWord(h.bits, p), Length(h.bits, p));
      NoAllOnes(h.bits, p);
    }
  }

  /** What the decoder makes of it. */
  lemma DecodedSymbol(h: HuffTbl, symbol: Byte, rest: seq<Bit>)
    requires HasCode(h, symbol)
    ensures var s := CodeOf(h, symbol) + rest;
            && Symbol(h, s) == symbol && Drop(s, MatchLength(h.bits, s)) == rest && MatchLength(h.bits, s) <= |s|
  {
    hide Codes, Space, Length, CodeWord, BitsOf, Symbol, MatchLength;
    var p :| Numbers(h, symbol, p) && CodeOf(h, symbol) == BitsOf(CodeWord(h.bits, p), Length(h.bits, p));
    DecodesCodeWord(h, p, rest);
  }

  /** The token can be put out with these tables. */
  ghost predicate Encodable(tabs: Tabs, t: Token)
    requires tabs.Ok()
  {
    match t
    case Sym(dc, tbl, symbol) => tbl < NUM_HUFF_TBLS && HasCode(tabs.Slot(dc, tbl), symbol)
    case Raw(_, size) => 1 <= size <= 16
  }

  ghost predicate AllEncodable(tabs: Tabs, ts: seq<Token>)
    requires tabs.Ok()
  {
    forall i :: 0 <= i < |ts| ==> Encodable(tabs, ts[i])
  }

  ghost function TokenBits(tabs: Tabs, t: Token): seq<Bit>
    requires tabs.Ok() && Encodable(tabs, t)
  {
    match t
    case Sym(dc, tbl, symbol) => CodeOf(tabs.Slot(dc, tbl), symbol)
    case Raw(value, size) => BitsOf(value, size)
  }

  ghost function TokensBits(tabs: Tabs, ts: seq<Token>): seq<Bit>
    requires tabs.Ok() && AllEncodable(tabs, ts)
  {
    if ts == [] then [] else TokenBits(tabs, ts[0]) + TokensBits(tabs, ts[1..])
  }

  lemma {:induction false} TokensBitsConcat(tabs: Tabs, a: seq<Token>, b: seq<Token>)
    requires tabs.Ok() && AllEncodable(tabs, a) && AllEncodable(tabs, b)
    ensures AllEncodable(tabs, a + b) && TokensBits(tabs, a + b) == TokensBits(tabs, a) + TokensBits(tabs, b)
  {
    hide TokenBits, Encodable;
    if a == [] {
      assert a + b == b;
    } else {
      assert (a + b)[1..] == a[1..] + b;
      TokensBitsConcat(tabs, a[1..], b);
    }
  }

  lemma OneToken(tabs: Tabs, ts: seq<Token>, t: Token)
    requires tabs.Ok() && AllEncodable(tabs, ts) && Encodable(tabs, t)
    ensures AllEncodable(tabs, ts + [t]) && TokensBits(tabs, ts + [t]) == TokensBits(tabs, ts) + TokenBits(tabs, t)
  {
    TokensBitsConcat(tabs, ts, [t]);
    assert TokensBits(tabs, [t]) == TokenBits(tabs, t) + [];
  }
}
