/** The bit source of the Huffman decoder: a 32-bit get buffer filled from a byte source that
    may run dry in the middle of an MCU and that ends at a marker. */
module BitReader {
  import opened Bits
  import opened BitStrings
  import opened ByteStuffing
  import opened HuffCodes
  import opened HuffTables

  const MIN_GET_BITS := 25

  /** A source position and the bits fetched before it that are still unused. */
  datatype BitState = BitState(pos: nat, getBuffer: nat, bitsLeft: nat)

  /** What a reader in state st is yet to deliver: the bits rest, and after the last of them,
      at the marker that ends the segment, as many zero bits as may be asked for. The source is
      dry once more bits were asked for than there were. */
  ghost predicate Delivers(input: seq<Byte>, end: nat, marker: int, dry: bool, st: BitState, rest: seq<Bit>) {
    && st.bitsLeft <= 32
    && if marker == 0 then
         && !dry && Terminated(input, st.pos) && SegmentEnd(input, st.pos) == end
         && rest == BitsOf(st.getBuffer, st.bitsLeft) + BytesBits(Segment(input, st.pos))
       else
         && 1 <= st.pos == end <= |input| && marker == input[end - 1]
         && (marker != 0xD9 ==> Terminated(input, end))
         && |rest| <= st.bitsLeft && (!dry ==> |rest| == st.bitsLeft)
         && BitsOf(st.getBuffer, st.bitsLeft) == First(rest, st.bitsLeft)
  }

  /** One more byte in the get buffer; what overflows its 32 bits was used before. */
  lemma LoadedByte(getBuffer: nat, bitsLeft: nat, c: Byte, rest: seq<Byte>)
    requires bitsLeft <= 24
    ensures BitsOf((getBuffer * 256 + c) % 0x1_0000_0000, bitsLeft + 8) + BytesBits(rest) ==
            BitsOf(getBuffer, bitsLeft) + BytesBits([c] + rest)
  {
    hide BitsOf, Pow2;
    Pow2Small();
    Pow32();
    BitsOfJoined(getBuffer, c, 8, bitsLeft);
    BitsOfMod(getBuffer * 256 + c, bitsLeft + 8, 32);
    assert ([c] + rest)[1..] == rest;
    assert BitsOf(getBuffer, bitsLeft) + (BitsOf(c, 8) + BytesBits(rest)) ==
           BitsOf(getBuffer, bitsLeft) + BitsOf(c, 8) + BytesBits(rest);
  }

  lemma Pow32()
    ensures Pow2(32) == 0x1_0000_0000
  {
    Pow2Small();
    Pow2Add(16, 16);
  }

  /** Zero bits inserted below the bits that are left. */
  lemma LoadedZeros(getBuffer: nat, bitsLeft: nat, rest: seq<Bit>)
    requires bitsLeft <= MIN_GET_BITS && |rest| <= bitsLeft && BitsOf(getBuffer, bitsLeft) == First(rest, bitsLeft)
    ensures BitsOf(getBuffer * Pow2(MIN_GET_BITS - bitsLeft) % 0x1_0000_0000, MIN_GET_BITS) == First(rest, MIN_GET_BITS)
  {
    hide BitsOf, Pow2;
    var z := MIN_GET_BITS - bitsLeft;
    Pow32();
    BitsOfJoined(getBuffer, 0, z, bitsLeft);
    BitsOfMod(getBuffer * Pow2(z), MIN_GET_BITS, 32);
    BitsOfZero(z);
    assert First(rest, bitsLeft) + Zeros(z) == First(rest, MIN_GET_BITS);
  }

  /** The n topmost of the bits left. */
  lemma TopBits(getBuffer: nat, bitsLeft: nat, n: nat)
    requires n <= bitsLeft
    ensures BitsOf(getBuffer, bitsLeft)[..n] == BitsOf(getBuffer / Pow2(bitsLeft - n), n)
    ensures BitsOf(getBuffer, bitsLeft)[n..] == BitsOf(getBuffer, bitsLeft - n)
    ensures BitsVal(BitsOf(getBuffer, bitsLeft)[..n]) == getBuffer / Pow2(bitsLeft - n) % Pow2(n)
  {
    BitsOfShifted(getBuffer, n, bitsLeft - n);
    ValOfBits(getBuffer / Pow2(bitsLeft - n), n);
  }

  /** Taking n of the bits left leaves the others, and the number is that of the first n bits. */
  lemma TakenBits(input: seq<Byte>, end: nat, marker: int, dry: bool, st: BitState, rest: seq<Bit>, n: nat)
    requires Delivers(input, end, marker, dry, st, rest) && n <= st.bitsLeft
    ensures Peek(rest, n) == st.getBuffer / Pow2(st.bitsLeft - n) % Pow2(n)
    ensures Delivers(input, end, marker, dry, st.(bitsLeft := st.bitsLeft - n), Drop(rest, n))
    ensures !dry ==> n <= |rest|
  {
    hide BitsOf, Segment, SegmentEnd, BytesBits, Pow2, BitsVal;
    TopBits(st.getBuffer, st.bitsLeft, n);
    var left := BitsOf(st.getBuffer, st.bitsLeft);
    assert First(rest, n) == left[..n] by {
      if marker != 0 {
        assert First(rest, st.bitsLeft)[..n] == First(rest, n);
      } else {
        assert rest[..n] == left[..n];
      }
    }
    if marker == 0 {
      assert Drop(rest, n) == left[n..] + BytesBits(Segment(input, st.pos));
    } else {
      assert First(Drop(rest, n), st.bitsLeft - n) == First(rest, st.bitsLeft)[n..];
    }
  }

  lemma AtMarker(getBuffer: nat, bitsLeft: nat, rest: seq<Bit>)
    requires rest == BitsOf(getBuffer, bitsLeft) + BytesBits([])
    ensures rest == BitsOf(getBuffer, bitsLeft) == First(rest, bitsLeft)
  {
  }

  datatype MarkerRead = Waiting | Wrong | Found

  class Reader {
    var input: seq<Byte>
    var avail: nat          // how much of the input the source can supply for now
    var unreadMarker: int
    var insufficient: bool
    var saved: BitState     // permanent state, at the start of an MCU
    var cur: BitState       // working state within an MCU

    ghost var end: nat              // position after the marker that ends the segment
    ghost var savedRest: seq<Bit>   // what is still to be delivered
    ghost var rest: seq<Bit>

    /** Between MCUs. */
    ghost predicate Idle()
      reads this
    {
      Delivers(input, end, unreadMarker, insufficient, saved, savedRest)
    }

    /** Within an MCU. As long as no marker was met the permanent state is still good. */
    ghost predicate Working()
      reads this
    {
      && Delivers(input, end, unreadMarker, insufficient, cur, rest)
      && (unreadMarker == 0 ==> Idle())
    }

    /** What stays the same within an MCU. */
    twostate predicate Same()
      reads this
    {
      && input == old(input) && avail == old(avail) && end == old(end)
      && saved == old(saved) && savedRest == old(savedRest)
      && (old(unreadMarker) != 0 ==> unreadMarker != 0) && (old(insufficient) ==> insufficient)
    }

    /** A suspended operation: nothing permanent has happened. */
    twostate predicate Suspended()
      reads this
    {
      && Same() && old(unreadMarker) == 0 == unreadMarker && !old(insufficient) && !insufficient
      && avail < end && Idle()
    }

    /** n bits were taken from the front of those to be delivered. */
    twostate predicate Took(n: nat)
      reads this
    {
      && Same() && Working()
      && rest == Drop(old(rest), n)
      && insufficient == (old(insufficient) || n > |old(rest)|)
    }

    constructor (file: seq<Byte>)
      ensures Idle() && input == file + [0xFF, 0xD9] && avail == 0
      ensures end == SegmentEnd(input, 0) && savedRest == BytesBits(Segment(input, 0))
      ensures unreadMarker == 0 && !insufficient && saved == BitState(0, 0, 0)
    {
      input, avail, unreadMarker, insufficient := file + [0xFF, 0xD9], 0, 0, false;
      saved, cur := BitState(0, 0, 0), BitState(0, 0, 0);
      new;
      end, savedRest := SegmentEnd(input, 0), BytesBits(Segment(input, 0));
      assert BitsOf(0, 0) + savedRest == savedRest;
    }

    method Load()
      requires Idle()
      modifies this`cur, this`rest
      ensures Working() && rest == savedRest
    {
      cur, rest := saved, savedRest;
    }

    method Save()
      requires Working()
      modifies this`saved, this`savedRest
      ensures Idle() && savedRest == rest
    {
      saved, savedRest := cur, rest;
    }

    /** Fetch bytes until at least 25 bits are at hand, the marker is met, or the source has no
        more for now; the request is for n bits. */
    method FillBitBuffer(n: nat) returns (ok: bool)
      requires Working() && n <= 16 && cur.bitsLeft < MIN_GET_BITS
      modifies this`cur, this`unreadMarker, this`insufficient
      ensures Same() && rest == old(rest)
      ensures ok ==> Working() && cur.bitsLeft >= n
      ensures ok ==> insufficient == (old(insufficient) || n > |rest|)
      ensures !ok ==> Suspended()
    {
      hide Segment, SegmentEnd, BytesBits, BitsOf, Pow2, First;
      var pos, buf: nat, left := cur.pos, cur.getBuffer, cur.bitsLeft;
      var marker := unreadMarker;
      while marker == 0 && left < MIN_GET_BITS
        invariant Delivers(input, end, marker, insufficient, BitState(pos, buf, left), rest)
        invariant marker == 0 ==> unreadMarker == 0
        invariant left <= 32 && insufficient == old(insufficient)
        decreases 32 - left, marker == 0
      {
        var got, data, c, next := NextDataByte(pos);
        if !got {
          ok := false;
          return;
        }
        if data {
          LoadedByte(buf, left, c, Segment(input, next));
          buf := (buf * 256 + c) % 0x1_0000_0000;
          left := left + 8;
        } else {
          AtMarker(buf, left, rest);
          marker := c;
        }
        pos := next;
      }
      ok := true;
      unreadMarker := marker;
      if n > left {
        insufficient := true;
        LoadedZeros(buf, left, rest);
        buf := buf * Pow2(MIN_GET_BITS - left) % 0x1_0000_0000;
        left := MIN_GET_BITS;
      }
      cur := BitState(pos, buf, left);
    }

    /** Read a data byte, or else the marker; fails if the source runs out before. */
    method NextDataByte(pos: nat) returns (got: bool, data: bool, c: Byte, next: nat)
      requires Terminated(input, pos)
      ensures got ==> pos < next <= avail && next <= SegmentEnd(input, pos)
      ensures !got ==> avail < SegmentEnd(input, pos)
      ensures got && data ==> Terminated(input, next) && Segment(input, pos) == [c] + Segment(input, next)
      ensures got && data ==> SegmentEnd(input, next) == SegmentEnd(input, pos)
      ensures got && !data ==> Segment(input, pos) == [] && SegmentEnd(input, pos) == next && c == input[next - 1]
    {
      data, c, next := true, 0, pos;
      if next >= avail {
        return false, data, c, next;
      }
      c := input[next];
      next := next + 1;
      if c == 0xFF {
        while c == 0xFF
          invariant pos < next <= |input| && next <= avail && c == input[next - 1]
          invariant PastOnes(input, next - 1) == PastOnes(input, pos)
          decreases |input| - next
        {
          if next >= avail {
            return false, data, c, next;
          }
          c := input[next];
          next := next + 1;
        }
        if c == 0 {
          c := 0xFF;
        } else {
          data := false;
        }
      }
      got := true;
    }

    method CheckBitBuffer(n: nat) returns (ok: bool)
      requires Working() && n <= 16
      modifies this`cur, this`unreadMarker, this`insufficient
      ensures Same() && rest == old(rest)
      ensures ok ==> Working() && cur.bitsLeft >= n
      ensures ok ==> insufficient == (old(insufficient) || n > |rest|)
      ensures !ok ==> Suspended()
    {
      ok := true;
      if cur.bitsLeft < n {
        ok := FillBitBuffer(n);
      } else {
        TakenBits(input, end, unreadMarker, insufficient, cur, rest, n);
      }
    }

    /** The next n bits as a number. */
    method GetBits(n: nat) returns (ok: bool, v: nat)
      requires Working() && n <= 16
      modifies this`cur, this`rest, this`unreadMarker, this`insufficient
      ensures ok ==> v == Peek(old(rest), n) && Took(n)
      ensures !ok ==> Suspended()
    {
      hide Delivers, Peek;
      v := 0;
      ok := CheckBitBuffer(n);
      if ok {
        TakenBits(input, end, unreadMarker, insufficient, cur, rest, n);
        v := cur.getBuffer / Pow2(cur.bitsLeft - n) % Pow2(n);
        cur := cur.(bitsLeft := cur.bitsLeft - n);
        rest := Drop(rest, n);
      }
    }

    /** The next symbol: by lookahead where eight bits are at hand and suffice, bit by bit
        otherwise. On every bit stream this is the symbol of the one matching code word. */
    method HuffDecode(d: DDerived) returns (ok: bool, symbol: Byte)
      requires Working() && Decodes(d)
      modifies this`cur, this`rest, this`unreadMarker, this`insufficient
      ensures ok ==> symbol == Symbol(d.pub, old(rest)) && Took(MatchLength(d.pub.bits, old(rest)))
      ensures !ok ==> Suspended()
    {
      hide Delivers, Peek, Decodes, Symbol, MatchLength, Drop, Legal, Pow2, Open;
      symbol := 0;
      TableSizes(d);
      if cur.bitsLeft < HUFF_LOOKAHEAD {
        ok := FillBitBuffer(0);
        if !ok {
          return;
        }
        if cur.bitsLeft < HUFF_LOOKAHEAD {
          OpenStart(d.pub.bits, rest);
          ok, symbol := SlowDecode(d, 1);
          return;
        }
      }
      TakenBits(input, end, unreadMarker, insufficient, cur, rest, HUFF_LOOKAHEAD);
      var look := cur.getBuffer / Pow2(cur.bitsLeft - HUFF_LOOKAHEAD) % Pow2(HUFF_LOOKAHEAD);
      LookAhead(d, rest);
      var nb := d.lookNbits[look];
      if nb != 0 {
        TakenBits(input, end, unreadMarker, insufficient, cur, rest, nb);
        cur := cur.(bitsLeft := cur.bitsLeft - nb);
        rest := Drop(rest, nb);
        ok, symbol := true, d.lookSym[look];
      } else {
        ok, symbol := SlowDecode(d, HUFF_LOOKAHEAD + 1);
      }
    }

    /** Figure F.16, from a length that no code word at hand is shorter than. */
    method SlowDecode(d: DDerived, minBits: nat) returns (ok: bool, symbol: Byte)
      requires Working() && Decodes(d) && minBits in {1, HUFF_LOOKAHEAD + 1}
      requires Open(d.pub.bits, rest, minBits - 1)
      modifies this`cur, this`rest, this`unreadMarker, this`insufficient
      ensures ok ==> symbol == Symbol(d.pub, old(rest)) && Took(MatchLength(d.pub.bits, old(rest)))
      ensures !ok ==> Suspended()
    {
      hide Delivers, Peek, Symbol, MatchLength, Decodes, Open;
      symbol := 0;
      var l, code := minBits, 0;
      ok, code := GetBits(l);
      if !ok {
        return;
      }
      TableSizes(d);
      while code > d.maxcode[l]
        invariant minBits <= l <= 17 && code == Peek(old(rest), l) && |d.maxcode| == 18
        invariant Open(d.pub.bits, old(rest), l - 1)
        invariant Took(l)
        decreases 17 - l
      {
        NotYet(d, old(rest), l, code);
        var bit;
        ok, bit := GetBits(1);
        if !ok {
          return;
        }
        PeekMore(old(rest), l);
        FirstParts(old(rest), l, 1);
        code := 2 * code + bit;
        l := l + 1;
      }
      MatchedHere(d, old(rest), l, code);
      if l <= 16 {
        symbol := d.pub.huffval[code + d.valoffset[l]];
      }
    }

    /** The source has got n more bytes. */
    method Deliver(n: nat)
      modifies this`avail
      ensures avail == old(avail) + n
    {
      avail := avail + n;
    }

    /** Throw away the bits at hand and advance past the restart marker that is to follow.
        Resynchronization after a wrong one is not modelled. */
    method ReadRestartMarker(num: nat) returns (r: MarkerRead)
      requires Idle() && num < 8
      modifies this`saved, this`savedRest, this`unreadMarker, this`insufficient, this`end
      ensures r != Wrong ==> Idle()
      ensures r == Waiting ==>
                && unreadMarker == old(unreadMarker) == 0 && !insufficient && !old(insufficient)
                   && end == old(end) && avail < end
                && (|old(savedRest)| < 8 ==> savedRest == [])
      ensures r == Found ==>
                && 1 <= old(end) <= |input| && input[old(end) - 1] == 0xD0 + num && Terminated(input, old(end))
                && end == SegmentEnd(input, old(end)) && savedRest == BytesBits(Segment(input, old(end)))
                && unreadMarker == 0 && !insufficient
      ensures r == Wrong ==> !(1 <= old(end) <= |input| && input[old(end) - 1] == 0xD0 + num)
    {
      hide Segment, SegmentEnd, BytesBits, BitsOf, First;
      NoBitsLeft(input, end, unreadMarker, insufficient, saved, savedRest);
      saved := saved.(bitsLeft := 0);
      savedRest := if unreadMarker == 0 then BytesBits(Segment(input, saved.pos)) else [];
      if unreadMarker == 0 {
        var pos := saved.pos;
        var data := true;
        var c: Byte := 0;
        while data
          invariant if data then Terminated(input, pos) && SegmentEnd(input, pos) == end
                    else 1 <= pos == end <= |input| && c == input[pos - 1] && c != 0
          invariant !data ==> c != 0xD9 ==> Terminated(input, end)
          invariant Idle() && unreadMarker == 0 == old(unreadMarker)
          invariant insufficient == old(insufficient) && end == old(end)
          invariant saved.bitsLeft == 0 && (|old(savedRest)| < 8 ==> savedRest == [])
          decreases |input| - pos, data
        {
          var got, next;
          got, data, c, next := NextDataByte(pos);
          if !got {
            return Waiting;
          }
          pos := next;
        }
        unreadMarker := c;
        saved := saved.(pos := pos);
      }
      if unreadMarker != 0xD0 + num {
        return Wrong;
      }
      unreadMarker, insufficient := 0, false;
      end, savedRest := SegmentEnd(input, saved.pos), BytesBits(Segment(input, saved.pos));
      NoBits(saved.getBuffer, savedRest);
      return Found;
    }
  }

  lemma NoBits(getBuffer: nat, rest: seq<Bit>)
    ensures BitsOf(getBuffer, 0) + rest == rest
  {
  }

  lemma NoBitsLeft(input: seq<Byte>, end: nat, marker: int, dry: bool, st: BitState, rest: seq<Bit>)
    requires Delivers(input, end, marker, dry, st, rest)
    ensures if marker == 0
            then Delivers(input, end, marker, dry, st.(bitsLeft := 0), BytesBits(Segment(input, st.pos)))
                 && (|rest| < 8 ==> BytesBits(Segment(input, st.pos)) == [])
            else Delivers(input, end, marker, dry, st.(bitsLeft := 0), [])
  {
    hide Segment, SegmentEnd, BitsOf;
    if marker == 0 {
      NoBits(st.getBuffer, BytesBits(Segment(input, st.pos)));
    }
  }
}
