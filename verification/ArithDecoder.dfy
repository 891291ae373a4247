/** The register-level arithmetic decoder. Its C register holds the code relative to the base
    of the interval; the cut between the 16 interval bits and the bits read ahead floats
    with the shift counter ct. */
module ArithDecoder {
  import opened Bits
  import opened ByteStuffing
  import opened Estimation
  import opened IntervalCoder

  /** After k bytes, c is what the code exceeds the interval base by. */
  ghost predicate Relative(data: seq<Byte>, k: nat, iv: Interval, ct: nat, c: int) {
    && 8 * k == 16 + iv.shift + ct
    && c + iv.low * Pow2(ct) == BytesVal(Extend(data, k))
  }

  /** The whole code lies in the interval exactly when the register says so of the bytes
      read so far. */
  lemma RegisterTest(data: seq<Byte>, k: nat, iv: Interval, ct: nat, c: int)
    requires Relative(data, k, iv, ct, c)
    ensures Holds(iv, data) <==> 0 <= c < iv.range * Pow2(ct)
  {
    var lo, hi := iv.low * Pow2(ct), (iv.low + iv.range) * Pow2(ct);
    TruncatedComparison(data, k, lo);
    TruncatedComparison(data, k, hi);
    Pow2Add(16 + iv.shift, ct);
    var m, n, b := Pow2(8 * |data|), Pow2(16 + iv.shift), BytesVal(data);
    SharedShift(iv.low, m, b, n, Pow2(ct));
    SharedShift(iv.low + iv.range, m, b, n, Pow2(ct));
    Spread(iv.low, iv.range, Pow2(ct));
  }

  lemma SharedShift(x: int, m: int, b: int, n: int, t: int)
    requires t >= 1
    ensures (x * t) * m <= b * (n * t) <==> x * m <= b * n
  {
    assert (x * t) * m == (x * m) * t && b * (n * t) == (b * n) * t;
    if x * m <= b * n { MulMono(x * m, b * n, t); } else { MulMonoStrict(b * n, x * m, t); }
  }

  lemma Spread(x: int, y: int, t: int)
    ensures (x + y) * t == x * t + y * t
  {
  }

  /** Moving the base up within the interval. */
  lemma MoveBase(data: seq<Byte>, k: nat, iv: Interval, ct: nat, c: int, offset: nat, range: nat)
    requires Relative(data, k, iv, ct, c)
    ensures Relative(data, k, Interval(iv.low + offset, range, iv.shift), ct, c - offset * Pow2(ct))
  {
    Spread(iv.low, offset, Pow2(ct));
  }

  lemma ShiftWithin(data: seq<Byte>, k: nat, iv: Interval, ct: nat, c: int)
    requires Relative(data, k, iv, ct, c) && ct > 0
    ensures Relative(data, k, Doubled(iv), ct - 1, c)
  {
    assert Pow2(ct) == 2 * Pow2(ct - 1);
    assert (2 * iv.low) * Pow2(ct - 1) == iv.low * (2 * Pow2(ct - 1));
  }

  lemma ShiftInByte(data: seq<Byte>, k: nat, iv: Interval, c: int)
    requires Relative(data, k, iv, 0, c)
    ensures Relative(data, k + 1, Doubled(iv), 7, c * 256 + Extend(data, k + 1)[k])
  {
    ExtendSnoc(data, k);
    assert Pow2(7) == 128;
  }

  lemma ExtendSnoc(data: seq<Byte>, k: nat)
    ensures BytesVal(Extend(data, k + 1)) == BytesVal(Extend(data, k)) * 256 + Extend(data, k + 1)[k]
  {
    assert Extend(data, k + 1) == Extend(data, k) + [Extend(data, k + 1)[k]];
    BytesValSnoc(Extend(data, k), Extend(data, k + 1)[k]);
  }

  lemma InitialBytes(data: seq<Byte>, k: nat)
    ensures k == 0 ==> BytesVal(Extend(data, 1)) == Extend(data, 1)[0]
    ensures k == 1 ==> BytesVal(Extend(data, 2)) == BytesVal(Extend(data, 1)) * 256 + Extend(data, 2)[1]
  {
    ExtendSnoc(data, k);
    assert Extend(data, 0) == [];
  }

  /** The first two bytes fill the register. */
  lemma StartRelative(data: seq<Byte>, c: int)
    requires c == BytesVal(Extend(data, 2))
    ensures Relative(data, 2, UNIT, 0, c) && 0 <= c < UNIT.range * Pow2(0)
  {
    BytesValBound(Extend(data, 2));
    Pow2Small();
  }

  /** After k bytes: the rest of the data is still in the input, or its marker was met. */
  ghost predicate Source(input: seq<Byte>, pos: nat, unreadMarker: int, data: seq<Byte>, end: nat, k: nat) {
    if unreadMarker == 0 then
      && Terminated(input, pos) && SegmentEnd(input, pos) == end
      && k <= |data| && data[k..] == Segment(input, pos)
    else
      && k >= |data|
      && 1 <= pos == end <= |input| && unreadMarker == input[end - 1]
      && (unreadMarker != 0xD9 ==> Terminated(input, end))
  }

  lemma SourceStarts(input: seq<Byte>, pos: nat)
    requires Terminated(input, pos)
    ensures Source(input, pos, 0, Segment(input, pos), SegmentEnd(input, pos), 0)
  {
    hide Terminated, Segment, SegmentEnd;
  }

  /** The next decision of a run whose end the data lie in. */
  lemma ExpectedBit(t: Table, st: State, ds: seq<Decision>, data: seq<Byte>)
    requires ds != [] && st.iv.Normal() && AddressesOk(ds, |st.bins|) && Holds(Run(t, st, ds).iv, data)
    ensures IdealBit(t, st.iv, st.bins[ds[0].bin], data) == ds[0].bit
    ensures Run(t, Step(t, st, ds[0]), ds[1..]) == Run(t, st, ds)
    ensures ds == [ds[0]] + ds[1..] && AddressesOk(ds[1..], |st.bins|)
  {
    hide Run, Step, Holds, IdealBit;
    RunUnfold(t, st, ds);
    RunBack(t, Step(t, st, ds[0]), ds[1..], data);
    StepBack(t, st, ds[0], data);
  }

  class Decoder {
    var c: nat
    var a: nat
    var ct: int
    var input: seq<Byte>
    var pos: nat
    var unreadMarker: int
    const table: Table
    const bins: array<Bin>

    ghost var data: seq<Byte>  // all data bytes of the current segment
    ghost var end: nat         // position after the marker that ends the segment
    ghost var k: nat           // how many of them, and zero bytes after them, were read
    ghost var iv: Interval     // the interval before the pending renormalization
    ghost var start: State              // ideal state at the start of the segment
    ghost var history: seq<Decision>    // decisions decoded since then
    // While live, the code lies in the interval that the decisions of script lead to.
    ghost var live: bool
    ghost var script: seq<Decision>
    ghost var total: seq<Decision>

    ghost predicate SourceInv()
      reads this`input, this`pos, this`unreadMarker, this`data, this`end, this`k
    {
      Source(input, pos, unreadMarker, data, end, k)
    }

    /** The register before, between and after the two initial bytes. */
    ghost predicate RegisterInv()
      reads this`c, this`a, this`ct, this`data, this`k, this`iv
    {
      || (ct == -16 && a == 0 && c == 0 && k == 0)
      || (ct == -8 && a == 0 && k == 1 && c == BytesVal(Extend(data, 1)))
      || (0 <= ct <= 7 && 1 <= a <= 0x1_0000 && iv.range == a
          && Relative(data, k, iv, ct, c) && Holds(iv, data))
    }

    ghost predicate CoderInv()
      reads this`c, this`a, this`ct, this`input, this`pos, this`unreadMarker, this`data, this`end, this`k, this`iv
    {
      SourceInv() && RegisterInv() && ct != -8
    }

    ghost predicate Valid()
      reads this, bins
    {
      && CoderInv()
      && start.iv == UNIT && |start.bins| == bins.Length
      && AddressesOk(history, bins.Length)
      && St() == Run(table, start, history)
      && (live ==> history + script == total)
      && (live ==> AddressesOk(script, bins.Length) && Holds(Run(table, St(), script).iv, data))
    }

    /** The normalized interval the next decision will split. */
    ghost function Current(): (r: Interval)
      reads this`c, this`a, this`ct, this`data, this`k, this`iv
      requires RegisterInv()
      ensures r.Normal()
    {
      if ct < 0 then UNIT else Renorm(iv)
    }

    /** Decoding goes on within the same segment. */
    twostate predicate SameSegment()
      reads this
    {
      && input == old(input) && data == old(data) && end == old(end)
      && start == old(start) && total == old(total)
    }

    ghost function St(): State
      reads this`c, this`a, this`ct, this`data, this`k, this`iv, bins
      requires RegisterInv()
    {
      State(Current(), bins[..])
    }

    constructor (table: Table, size: nat, file: seq<Byte>)
      ensures Valid() && this.table == table && fresh(bins) && bins.Length == size
      ensures input == file + [0xFF, 0xD9] && pos == 0 && unreadMarker == 0
      ensures data == Segment(input, 0) && end == SegmentEnd(input, 0)
      ensures start == State(UNIT, seq(size, _ => 0)) && history == [] && !live
    {
      this.table := table;
      bins := new Bin[size](_ => 0);
      input := file + [0xFF, 0xD9];
      pos, unreadMarker := 0, 0;
      c, a, ct, k := 0, 0, -16, 0;
      iv := UNIT;
      data := [];
      new;
      data, end := Segment(input, 0), SegmentEnd(input, 0);
      start, history, live := St(), [], false;
      assert start.bins == seq(size, _ => 0);
    }

    /** Start on the segment that begins at the current position. */
    method StartSegment()
      requires Terminated(input, pos)
      modifies this
      ensures Valid() && input == old(input) && pos == old(pos) && unreadMarker == 0
      ensures data == Segment(input, pos) && end == SegmentEnd(input, pos)
      ensures start == State(UNIT, bins[..]) && history == [] && !live
    {
      hide Terminated, Segment, SegmentEnd, Relative, Holds, Source;
      SourceStarts(input, pos);
      c, a, ct, k := 0, 0, -16, 0;
      unreadMarker := 0;
      data, end := Segment(input, pos), SegmentEnd(input, pos);
      start, history, live := St(), [], false;
    }

    method GetByte() returns (b: Byte)
      requires pos < |input|
      modifies this`pos
      ensures b == input[old(pos)] && pos == old(pos) + 1
    {
      b := input[pos];
      pos := pos + 1;
    }

    /** The next data byte of the segment, or zero once a marker has been hit. */
    method FetchData() returns (d: Byte)
      requires SourceInv()
      modifies this`pos, this`unreadMarker, this`k
      ensures SourceInv() && k == old(k) + 1 && d == Extend(data, k)[old(k)]
    {
      if unreadMarker != 0 {
        d := 0;
      } else {
        d := GetByte();
        if d == 0xFF {
          d := SkipOnes();
          if d == 0 {
            d := 0xFF;
          } else {
            unreadMarker := d;
            d := 0;
            assert data[k..] == [];
          }
        }
      }
      k := k + 1;
      if unreadMarker == 0 {
        assert data[old(k)..][1..] == data[k..];
        assert d == data[old(k)..][0];
      }
    }

    /** Skip to the marker that ends the segment, whatever data is left unread. */
    method NextMarker()
      requires Terminated(input, pos)
      modifies this`pos, this`unreadMarker
      ensures pos == SegmentEnd(input, old(pos)) && unreadMarker == input[pos - 1] && unreadMarker != 0
    {
      hide Segment;
      ghost var stop := SegmentEnd(input, pos);
      var b: Byte := 0;
      while b == 0
        invariant b == 0 ==> Terminated(input, pos) && SegmentEnd(input, pos) == stop
        invariant b != 0 ==> pos == stop && b == input[pos - 1]
        decreases |input| - pos
      {
        b := SkipData(stop);
        b := SkipOnes();
      }
      unreadMarker := b;
    }

    method SkipData(ghost stop: nat) returns (b: Byte)
      requires Terminated(input, pos) && SegmentEnd(input, pos) == stop
      modifies this`pos
      ensures old(pos) < pos < |input| && b == input[pos - 1] == 0xFF
      ensures Terminated(input, pos - 1) && SegmentEnd(input, pos - 1) == stop
    {
      b := GetByte();
      while b != 0xFF
        invariant old(pos) < pos <= |input| && b == input[pos - 1]
        invariant Terminated(input, pos - 1) && SegmentEnd(input, pos - 1) == stop
        decreases |input| - pos
      {
        b := GetByte();
      }
    }

    method SkipOnes() returns (b: Byte)
      requires pos < |input| && input[|input| - 1] != 0xFF
      modifies this`pos
      ensures pos == PastOnes(input, old(pos)) + 1 && b == input[pos - 1]
    {
      b := GetByte();
      while b == 0xFF
        invariant old(pos) < pos <= |input| && b == input[pos - 1]
        invariant PastOnes(input, pos - 1) == PastOnes(input, old(pos))
        decreases |input| - pos
      {
        b := GetByte();
      }
    }

    /** Advance past the expected restart marker. Resynchronization after a wrong or missing
        one is not modelled: the result is false. */
    method ReadRestartMarker(num: nat) returns (ok: bool)
      requires SourceInv() && num < 8
      modifies this`pos, this`unreadMarker
      ensures 1 <= end <= |input| && (ok <==> input[end - 1] == 0xD0 + num)
      ensures ok ==> pos == end && Terminated(input, pos) && unreadMarker == 0
    {
      hide SegmentEnd, Segment;
      if unreadMarker == 0 {
        NextMarker();
      }
      ok := unreadMarker == 0xD0 + num;
      if ok {
        unreadMarker := 0;
      }
    }

    /** Shift until the interval is normalized, reading bytes as they are needed; a fresh
        segment starts with two bytes. */
    method Renormalize()
      requires CoderInv()
      modifies this`c, this`a, this`ct, this`pos, this`unreadMarker, this`k, this`iv
      ensures SourceInv() && RegisterInv() && ct >= 0 && a >= 0x8000
      ensures iv == old(Current())
    {
      hide Relative, Holds, Extend, BytesVal, Source, Pow2;
      while a < 0x8000
        invariant SourceInv() && RegisterInv()
        invariant Current() == old(Current())
        decreases if a == 0 then -ct else 0, 0x8000 - a
      {
        ghost var k0, c0, ct0, iv0 := k, c, ct, iv;
        ct := ct - 1;
        if ct < 0 {
          var d := FetchData();
          c := c * 256 + d;
          ct := ct + 8;
          if ct < 0 {
            InitialBytes(data, k0);
            ct := ct + 1;
            if ct == 0 {
              a := 0x8000;
              StartRelative(data, c);
              RegisterTest(data, 2, UNIT, 0, c);
              iv := UNIT;
            }
          } else {
            ShiftInByte(data, k0, iv0, c0);
            DoubledHolds(iv0, data);
            iv := Doubled(iv0);
          }
        } else {
          ShiftWithin(data, k0, iv0, ct0, c0);
          DoubledHolds(iv0, data);
          iv := Doubled(iv0);
        }
        a := a * 2;
      }
    }

    /** Decode one binary decision in the context of bin i: the bit whose part of the current
        interval the code lies in. As long as the bins asked for are those of a run that the
        code encodes, this is the next bit of that run. */
    method Decode(i: nat) returns (bit: bool)
      requires Valid() && i < bins.Length
      modifies this, bins
      ensures Valid() && SameSegment()
      ensures bit == IdealBit(table, old(Current()), old(bins[i]), data)
      ensures history == old(history) + [Decision(i, bit)]
      ensures old(live && script != [] && script[0].bin == i) ==>
              live && bit == old(script)[0].bit && script == old(script)[1..]
    {
      hide Run, Step, Relative, Holds, IdealBit, SourceInv, RegisterInv, AddressesOk;
      ghost var on := live && script != [] && script[0].bin == i;
      if on {
        ExpectedBit(table, St(), script, data);
      }
      bit := ArithDecode(i);
      RunSnoc(table, start, history, Decision(i, bit));
      history := history + [Decision(i, bit)];
      live := on;
      if on {
        assert script[0] == Decision(i, bit);
        script := script[1..];
      }
    }

    /** The code at hand encodes the decisions ds from here on. */
    ghost method Expect(ds: seq<Decision>)
      requires Valid() && AddressesOk(ds, bins.Length) && Holds(Run(table, St(), ds).iv, data)
      modifies this`live, this`script, this`total
      ensures Valid() && live && script == ds && total == history + ds
    {
      live, script, total := true, ds, history + ds;
    }

    method ArithDecode(i: nat) returns (bit: bool)
      requires CoderInv() && i < bins.Length
      modifies this`c, this`a, this`ct, this`pos, this`unreadMarker, this`k, this`iv, bins
      ensures CoderInv()
      ensures bit == IdealBit(table, old(Current()), old(bins[i]), data)
      ensures St() == Step(table, old(St()), Decision(i, bit))
    {
      hide Relative, Holds, Source;
      Renormalize();
      var sv := bins[i];
      PackedRowDrivesBins(table, sv);
      var packed := Pack(table[sv % 0x80]);
      var qe, nl, nm := UnpackQe(packed), UnpackLps(packed), UnpackMps(packed);
      bit := Mps(sv);
      ghost var k0, c0, iv0, rest := k, c, iv, a - qe;
      a := a - qe;
      var temp := a * Pow2(ct);
      if c >= temp {
        c := c - temp;
        if a < qe {
          bins[i] := HighBitXor(sv, nm);
        } else {
          bins[i] := HighBitXor(sv, nl);
          bit := !bit;
        }
        a := qe;
      } else if a < 0x8000 {
        if a < qe {
          bins[i] := HighBitXor(sv, nl);
          bit := !bit;
        } else {
          bins[i] := HighBitXor(sv, nm);
        }
      }
      iv := Part(table, iv0, sv, bit);
      ChosenPart(data, k0, iv0, ct, c0, rest, c, iv);
      PartsSplit(table, iv0, sv, data);
    }
  }

  lemma DoubledHolds(iv: Interval, data: seq<Byte>)
    requires 1 <= iv.range < 0x8000
    ensures Holds(Doubled(iv), data) <==> Holds(iv, data)
    ensures Renorm(Doubled(iv)) == Renorm(iv)
  {
    RenormKeeps(iv, data);
    RenormKeeps(Doubled(iv), data);
  }

  /** Comparing the register with the scaled lower part picks the part with the code. */
  lemma ChosenPart(data: seq<Byte>, k: nat, iv: Interval, ct: nat, c: nat, rest: nat, c': nat, iv': Interval)
    requires Relative(data, k, iv, ct, c) && Holds(iv, data) && rest < iv.range
    requires if c >= rest * Pow2(ct)
             then c' == c - rest * Pow2(ct) && iv' == Interval(iv.low + rest, iv.range - rest, iv.shift)
             else c' == c && iv' == Interval(iv.low, rest, iv.shift)
    ensures Relative(data, k, iv', ct, c') && Holds(iv', data)
  {
    RegisterTest(data, k, iv, ct, c);
    if c >= rest * Pow2(ct) {
      MoveBase(data, k, iv, ct, c, rest, iv.range - rest);
      Spread(iv.range - rest, rest, Pow2(ct));
    } else {
      MoveBase(data, k, iv, ct, c, 0, rest);
    }
    RegisterTest(data, k, iv', ct, c');
  }
}
