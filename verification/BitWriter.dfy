/** Packing of variable-length codes into bytes: the put buffer of the Huffman encoder. */
module BitWriter {
  import opened Bits
  import opened BitStrings
  import opened ByteStuffing

  /** Only the right 24 bits of the put buffer count, and in them the pending bits come first,
      followed by zeros. */
  ghost predicate Pending(putBuffer: nat, pending: seq<Bit>) {
    |pending| <= 24 && putBuffer % 0x100_0000 == BitsVal(pending) * Pow2(24 - |pending|)
  }

  lemma EmptyPending()
    ensures Pending(0, [])
  {
    assert BitsVal([]) == 0;
  }

  lemma MorePending(putBuffer: nat, pending: seq<Bit>, code: int, size: nat, merged: nat)
    requires Pending(putBuffer, pending) && |pending| + size <= 24
    requires merged == code % Pow2(size) * Pow2(24 - (|pending| + size)) + putBuffer
    ensures Pending(merged, pending + BitsOf(code, size))
  {
    hide BitsVal, BitsOf, Pow2;
    var add := BitsOf(code, size);
    var all := pending + add;
    var s := Pow2(24 - |all|);
    ValOfBits(code, size);
    BitsValConcat(pending, add);
    Pow2Add(size, 24 - |all|);
    Merged(BitsVal(pending), Pow2(size), BitsVal(add), s);
    assert BitsVal(all) * s < 0x100_0000 by {
      BitsValBound(all);
      Pow2Add(|all|, 24 - |all|);
      MulMonoStrict(BitsVal(all), Pow2(|all|), s);
      Pow24();
    }
    NonNegative(BitsVal(add), s);
    AddLow(putBuffer, BitsVal(add) * s, BitsVal(all) * s);
  }

  lemma Merged(p: int, z: int, a: int, s: int)
    ensures (p * z + a) * s == p * (z * s) + a * s
  {
  }

  lemma NonNegative(a: nat, b: nat)
    ensures a * b >= 0
  {
  }

  lemma AddLow(x: nat, a: int, sum: int)
    requires x % 0x100_0000 + a == sum < 0x100_0000 && a >= 0
    ensures (a + x) % 0x100_0000 == sum
  {
  }

  lemma Pow24()
    ensures Pow2(24) == 0x100_0000
  {
    Pow2Small();
    Pow2Add(16, 8);
  }

  /** The top byte of the put buffer is the first eight pending bits. */
  lemma TopByte(putBuffer: nat, pending: seq<Bit>)
    requires Pending(putBuffer, pending) && |pending| >= 8
    ensures putBuffer / 0x1_0000 % 256 == BitsVal(pending[..8])
    ensures Pending(putBuffer * 256 % 0x1_0000_0000, pending[8..])
  {
    var p, q := pending[..8], pending[8..];
    assert pending == p + q;
    BitsValConcat(p, q);
    var s := Pow2(24 - |pending|);
    Merged(BitsVal(p), Pow2(|q|), BitsVal(q), s);
    Pow2Add(|q|, 24 - |pending|);
    Pow2Small();
    BitsValBound(q);
    BitsValBound(p);
    MulMonoStrict(BitsVal(q), Pow2(|q|), s);
    Pow2Add(8, 24 - |pending|);
    ShiftOut(putBuffer, BitsVal(p), BitsVal(q) * s);
    Scaled(BitsVal(q), s);
  }

  lemma Scaled(q: int, s: int)
    ensures (q * s) * 256 == q * (256 * s)
  {
  }

  lemma ShiftOut(x: nat, hi: nat, lo: nat)
    requires x % 0x100_0000 == hi * 0x1_0000 + lo && hi < 256 && lo < 0x1_0000
    ensures x / 0x1_0000 % 256 == hi
    ensures x * 256 % 0x1_0000_0000 % 0x100_0000 == lo * 256
  {
    var k := x / 0x100_0000;
    Remainder(x, 0x1_0000, 256 * k + hi, lo);
    Remainder(256 * k + hi, 256, k, hi);
    Remainder(x * 256, 0x1_0000_0000, k, hi * 0x100_0000 + lo * 256);
    Remainder(hi * 0x100_0000 + lo * 256, 0x100_0000, hi, lo * 256);
  }

  class Writer {
    var output: seq<Byte>
    var putBuffer: nat
    var putBits: nat

    ghost var base: seq<Byte>     // what was output before the current segment
    ghost var data: seq<Byte>     // the complete data bytes of the segment
    ghost var pending: seq<Bit>   // the bits that do not fill a byte yet
    ghost var bits: seq<Bit>      // all bits of the segment

    ghost predicate Buffered()
      reads this
    {
      && output == base + Stuff(data)
      && putBits == |pending| <= 23 && Pending(putBuffer, pending)
      && bits == BytesBits(data) + pending
    }

    /** At most seven bits are retained between calls. */
    ghost predicate Valid()
      reads this
    {
      Buffered() && putBits <= 7
    }

    constructor ()
      ensures Valid() && base == [] && bits == [] && output == []
    {
      output, putBuffer, putBits := [], 0, 0;
      base, data, pending, bits := [], [], [], [];
      new;
      EmptyPending();
      assert Stuff([]) == [];
      assert BytesBits([]) + pending == [];
    }

    /** Append the size low bits of code. Size 0 stands for a symbol without a code. */
    method EmitBits(code: int, size: nat) returns (ok: bool)
      requires Valid() && size <= 16
      modifies this
      ensures Valid() && base == old(base)
      ensures ok <==> size != 0
      ensures bits == old(bits) + BitsOf(code, size)
    {
      hide Stuff, BytesBits, Pending, BitsVal, Pow2, BitsOf;
      if size == 0 {
        assert BitsOf(code, size) == [];
        return false;
      }
      ok := true;
      var put: nat := code % Pow2(size);
      putBits := putBits + size;
      put := put * Pow2(24 - putBits);
      put := put + putBuffer;  // the bits put together do not overlap
      MorePending(putBuffer, pending, code, size, put);
      bits := bits + BitsOf(code, size);
      pending := pending + BitsOf(code, size);
      putBuffer := put;
      while putBits >= 8
        invariant Buffered() && base == old(base) && bits == old(bits) + BitsOf(code, size)
        decreases putBits
      {
        var c := putBuffer / 0x1_0000 % 256;
        TopByte(putBuffer, pending);
        NextByte(data, pending, c);
        output := output + [c];
        if c == 0xFF {
          output := output + [0];
        }
        data := data + [c];
        pending := pending[8..];
        putBuffer := putBuffer * 256 % 0x1_0000_0000;
        putBits := putBits - 8;
      }
    }

    /** Fill up the last byte with one bits. The segment is complete then. */
    method Flush()
      requires Valid()
      modifies this
      ensures Valid() && base == old(base) && output == base + Stuff(data)
      ensures putBits == 0 && BytesBits(data) == bits
      ensures |old(bits)| <= |bits| < |old(bits)| + 8 && bits == old(bits) + Ones(|bits| - |old(bits)|)
    {
      hide Stuff, Pending, BitsVal;
      var ok := EmitBits(0x7F, 7);
      putBuffer, putBits := 0, 0;
      PaddingBits(old(bits), data, bits, pending);
      bits, pending := BytesBits(data), [];
      EmptyPending();
      assert bits + pending == bits;
    }

    /** End the segment with a marker and start the next one. */
    method EmitMarker(m: Byte)
      requires Valid() && putBits == 0
      modifies this
      ensures Valid() && bits == [] && output == base == old(output) + [0xFF, m]
    {
      output := output + [0xFF] + [m];
      base, data, bits := output, [], [];
      assert Stuff(data) == [];
      assert BytesBits(data) + pending == [];
    }
  }

  function Ones(n: nat): (s: seq<Bit>)
    ensures |s| == n && forall i :: 0 <= i < n ==> s[i] == 1
  {
    seq(n, _ => 1)
  }

  lemma NextByte(data: seq<Byte>, pending: seq<Bit>, c: Byte)
    requires |pending| >= 8 && BitsVal(pending[..8]) == c
    ensures BytesBits(data) + pending == BytesBits(data + [c]) + pending[8..]
    ensures Stuff(data + [c]) == Stuff(data) + if c == 0xFF then [0xFF, 0x00] else [c]
  {
    hide BitsVal, BitsOf, Stuff;
    BitsOfVal(pending[..8]);
    BytesBitsConcat(data, [c]);
    OneByte(c);
    StuffSnoc(data, c);
    hide BytesBits;
    assert BytesBits(data) + pending == BytesBits(data) + pending[..8] + pending[8..];
  }

  lemma OneByte(c: Byte)
    ensures BytesBits([c]) == BitsOf(c, 8)
  {
    hide BitsOf;
    assert BytesBits([]) == [];
  }

  /** Of seven one bits those that do not complete a byte are dropped. */
  lemma PaddingBits(was: seq<Bit>, data: seq<Byte>, bits: seq<Bit>, pending: seq<Bit>)
    requires bits == was + BitsOf(0x7F, 7) == BytesBits(data) + pending && |pending| <= 7
    ensures var pad := 8 * |data| - |was|;
            0 <= pad < 8 && BytesBits(data) == was + Ones(pad)
  {
    hide BitsOf, BytesBits;
    SevenOnes();
    CutPadding(was, BytesBits(data), pending);
  }

  lemma CutPadding(was: seq<Bit>, full: seq<Bit>, pending: seq<Bit>)
    requires was + Ones(7) == full + pending && |pending| <= 7
    ensures |was| <= |full| && full == was + Ones(|full| - |was|)
  {
    var all := was + Ones(7);
    assert |was| + 7 == |full| + |pending|;
    assert full == all[..|full|];
    assert all[..|full|] == was + Ones(|full| - |was|);
  }

  lemma SevenOnes()
    ensures BitsOf(0x7F, 7) == Ones(7)
  {
    AllOnes(7);
    assert Pow2(7) == 128;
  }

  lemma {:induction false} AllOnes(n: nat)
    ensures BitsOf(Pow2(n) - 1, n) == Ones(n)
  {
    if n > 0 {
      AllOnes(n - 1);
      assert (Pow2(n) - 1) / 2 == Pow2(n - 1) - 1;
      assert Ones(n) == Ones(n - 1) + [1];
    }
  }
}
