/** The register-level arithmetic encoder: a 16-bit interval, a C register with three
    spacer bits, one held byte, a count of stacked 0xFF bytes that a carry may still turn
    over, and a count of zero bytes that are only written when something follows them. */
module ArithEncoder {
  import opened Bits
  import opened ByteStuffing
  import opened Estimation
  import opened IntervalCoder

  /** The termination choice of finish_pass: the multiple of 2^15 nearest below the top
      of [c, c + a), preferring a multiple of 2^16. */
  function FinalPoint(c: nat, a: nat): nat
    requires 1 <= a
  {
    var temp := (a - 1 + c) / 0x1_0000 * 0x1_0000;
    if temp < c then temp + 0x8000 else temp
  }

  function Times(p: int, q: int): int { p * q }

  ghost predicate MultipleOf(y: int, p: int) {
    exists q :: Times(p, q) == y
  }

  lemma FinalPointIn(c: nat, a: nat)
    requires 0x8000 <= a <= 0x1_0000
    ensures c <= FinalPoint(c, a) < c + a
    ensures FinalPoint(c, a) % 0x8000 == 0
  {
    var q := (a - 1 + c) / 0x1_0000;
    assert q * 0x1_0000 <= a - 1 + c < q * 0x1_0000 + 0x1_0000;
  }

  lemma OnlyMultiple(c: nat, a: nat, q: int)
    requires 0x8000 <= a <= 0x1_0000 && c <= 0x1_0000 * q < c + a
    ensures FinalPoint(c, a) == 0x1_0000 * q
  {
  }

  /** No point of the interval ends in more zero bits than the chosen one. */
  lemma FinalPointBest(c: nat, a: nat, y: int, j: nat)
    requires 0x8000 <= a <= 0x1_0000
    requires c <= y < c + a && MultipleOf(y, Pow2(j))
    ensures MultipleOf(FinalPoint(c, a), Pow2(j))
  {
    FinalPointIn(c, a);
    var f := FinalPoint(c, a);
    Pow2Small();
    if j <= 15 {
      assert Times(0x8000, f / 0x8000) == f;
      SmallerPower(f, j, 15);
    } else {
      SmallerPower(y, 16, j);
      var q :| Times(Pow2(16), q) == y;
      OnlyMultiple(c, a, q);
    }
  }

  lemma SmallerPower(y: int, i: nat, j: nat)
    requires i <= j && MultipleOf(y, Pow2(j))
    ensures MultipleOf(y, Pow2(i))
  {
    Pow2Add(i, j - i);
    var q :| Times(Pow2(j), q) == y;
    TimesAssociates(Pow2(i), Pow2(j - i), q);
  }

  lemma TimesAssociates(p: int, r: int, q: int)
    ensures Times(p, Times(r, q)) == Times(p * r, q)
  {
  }

  /** The byte string the registers stand for: bytes already written, zero bytes not yet
      written, the held byte (if any) and the stacked 0xFF bytes. */
  function PendingOf(out: seq<Byte>, zc: nat, buffer: int, sc: nat): seq<Byte>
    requires -1 <= buffer <= 0xFE
  {
    out + Repeat(0, zc) + (if buffer >= 0 then [buffer] else []) + Repeat(0xFF, sc)
  }

  lemma AppendRepeat(s: seq<Byte>, b: Byte, n: nat)
    ensures s + Repeat(b, n) + [b] == s + Repeat(b, n + 1)
    ensures s + Repeat(b, 0) == s
  {
  }

  predicate NoTrailingZero(s: seq<Byte>) {
    s == [] || s[|s| - 1] != 0
  }

  /** The bytes p followed by the C register are the base of the ideal interval iv, which
      has 27 - ct register bits below the last byte of p. */
  ghost predicate Represents(p: seq<Byte>, c: nat, a: nat, ct: nat, iv: Interval) {
    && 1 <= ct <= 11
    && (c + a) * Pow2(ct) <= 0x900_0000
    && 1 <= a <= 0x1_0000 && iv.range == a && iv.InUnit()
    && 16 + iv.shift + ct == 8 * |p| + 27
    && iv.low == BytesVal(p) * Pow2(27 - ct) + c
  }

  lemma StartRepresents()
    ensures PendingOf([], 0, -1, 0) == []
    ensures Represents(PendingOf([], 0, -1, 0), 0, 0x1_0000, 11, UNIT)
  {
    assert PendingOf([], 0, -1, 0) == [];
    Pow2Small();
  }

  /** Moving to a part of the interval. */
  lemma PartRepresents(p: seq<Byte>, c: nat, a: nat, ct: nat, iv: Interval, offset: nat, size: nat)
    requires Represents(p, c, a, ct, iv)
    requires 1 <= size && offset + size <= a
    ensures Represents(p, c + offset, size, ct, Interval(iv.low + offset, size, iv.shift))
  {
    MulMono(c + offset + size, c + a, Pow2(ct));
  }

  lemma DoublingFacts(p: seq<Byte>, c: nat, a: nat, ct: nat, iv: Interval)
    requires Represents(p, c, a, ct, iv)
    ensures (2 * c + 2 * a) * Pow2(ct - 1) <= 0x900_0000
    ensures Doubled(iv).InUnit()
    ensures Doubled(iv).low == BytesVal(p) * Pow2(27 - (ct - 1)) + 2 * c
  {
    assert Pow2(ct) == 2 * Pow2(ct - 1);
    DoubleProduct(c + a, Pow2(ct - 1));
    assert Pow2(27 - (ct - 1)) == 2 * Pow2(27 - ct);
    DoubleProduct(BytesVal(p), Pow2(27 - ct));
  }

  lemma DoubleProduct(x: int, y: int)
    ensures x * (2 * y) == (2 * x) * y == 2 * (x * y)
  {
  }

  lemma ShiftRepresents(p: seq<Byte>, c: nat, a: nat, ct: nat, iv: Interval)
    requires Represents(p, c, a, ct, iv) && a < 0x8000 && ct > 1
    ensures Represents(p, 2 * c, 2 * a, ct - 1, Doubled(iv))
  {
    DoublingFacts(p, c, a, ct, iv);
  }

  /** When the eighth shift is done the register holds one byte, with a possible carry above
      it that is small enough to leave the new byte below 0xFF. */
  lemma ByteReady(p: seq<Byte>, c: nat, a: nat, iv: Interval)
    requires Represents(p, c, a, 1, iv)
    ensures 2 * c / 0x8_0000 < 0x120
    ensures p == Repeat(0xFF, |p|) ==> 2 * c / 0x8_0000 <= 0xFF
  {
    DoublingFacts(p, c, a, 1, iv);
    Pow2Small();
    if p == Repeat(0xFF, |p|) {
      OnesVal(|p|);
      Pow2Add(8 * |p|, 27);
      TopCarry(Pow2(8 * |p|), 2 * c);
    }
  }

  lemma TopCarry(q: int, c: int)
    requires (q - 1) * 0x800_0000 + c < q * 0x800_0000
    ensures c < 0x800_0000
  {
  }

  lemma ByteRepresents(p: seq<Byte>, c: nat, a: nat, iv: Interval, p': seq<Byte>)
    requires Represents(p, c, a, 1, iv) && a < 0x8000
    requires |p'| == |p| + 1 && BytesVal(p') == BytesVal(p) * 256 + 2 * c / 0x8_0000
    ensures Represents(p', 2 * c % 0x8_0000, 2 * a, 8, Doubled(iv))
  {
    DoublingFacts(p, c, a, 1, iv);
    Pow2Small();
  }

  /** As long as nothing but 0xFF bytes has come out there is no byte to carry into. */
  lemma OnlyOnes(out: seq<Byte>, zc: nat, buffer: int, sc: nat)
    requires -1 <= buffer <= 0xFE && (buffer < 0 ==> out == [] && zc == 0)
    ensures var p := PendingOf(out, zc, buffer, sc);
            buffer < 0 ==> p == Repeat(0xFF, |p|)
  {
  }

  lemma CarryBytes(s: seq<Byte>, b: Byte, n: nat, temp: nat, out: seq<Byte>, out0: seq<Byte>, zc0: nat)
    requires b < 0xFF && 0x100 <= temp < 0x120
    requires s == out0 + Repeat(0, zc0) && out == s + [b + 1]
    ensures var p, p' := PendingOf(out0, zc0, b, n), PendingOf(out, n, temp % 0x100, 0);
            |p'| == |p| + 1 && BytesVal(p') == BytesVal(p) * 256 + temp
  {
    var p, p' := PendingOf(out0, zc0, b, n), PendingOf(out, n, temp % 0x100, 0);
    assert p == s + [b] + Repeat(0xFF, n);
    CarryThroughOnes(s, b, n);
    assert p' == s + [b + 1] + Repeat(0, n) + [temp % 0x100];
    BytesValSnoc(s + [b + 1] + Repeat(0, n), temp % 0x100);
  }

  lemma StackBytes(out: seq<Byte>, zc: nat, buffer: int, sc: nat)
    requires -1 <= buffer <= 0xFE
    ensures var p, p' := PendingOf(out, zc, buffer, sc), PendingOf(out, zc, buffer, sc + 1);
            |p'| == |p| + 1 && BytesVal(p') == BytesVal(p) * 256 + 0xFF
  {
    var p := PendingOf(out, zc, buffer, sc);
    assert PendingOf(out, zc, buffer, sc + 1) == p + [0xFF];
    BytesValSnoc(p, 0xFF);
  }

  lemma ReleasedBytes(out: seq<Byte>, zc: nat, temp: Byte)
    requires temp < 0xFF
    ensures PendingOf(out, zc, temp, 0) == (out + Repeat(0, zc)) + [temp]
  {
  }

  /** After the termination choice the register is a whole number of bytes, whose top may
      carry into p but never past its first byte. */
  lemma FinalRegister(p: seq<Byte>, c: nat, a: nat, ct: nat, iv: Interval)
    requires Represents(p, c, a, ct, iv) && iv.Normal()
    ensures var r := FinalPoint(c, a) * Pow2(ct);
            && r < 0x1000_0000 && r % 0x1_0000 == 0
            && (p == Repeat(0xFF, |p|) ==> r < 0x800_0000)
  {
    hide FinalPoint, BytesVal, Repeat;
    FinalPointIn(c, a);
    assert Pow2(ct) == 2 * Pow2(ct - 1);
    hide Pow2;
    ScaledBelow(FinalPoint(c, a), c + a, Pow2(ct));
    EvenMultiple(FinalPoint(c, a), Pow2(ct - 1));
    if p == Repeat(0xFF, |p|) {
      OnlyOnesFinal(p, c, a, ct, iv);
    }
  }

  lemma OnlyOnesFinal(p: seq<Byte>, c: nat, a: nat, ct: nat, iv: Interval)
    requires Represents(p, c, a, ct, iv) && iv.Normal() && p == Repeat(0xFF, |p|)
    ensures FinalPoint(c, a) * Pow2(ct) < 0x800_0000
  {
    hide FinalPoint, BytesVal, Repeat, Pow2;
    FinalPointIn(c, a);
    var f := FinalPoint(c, a);
    FinalScale(p, c, a, ct, iv);
    NoFinalCarry(|p|, iv.low + f - c, iv, ct, f * Pow2(ct));
  }

  lemma NoFinalCarry(n: nat, x: nat, iv: Interval, ct: nat, r: nat)
    requires 16 + iv.shift + ct == 8 * n + 27
    requires iv.InUnit() && x < iv.low + iv.range
    requires x * Pow2(ct) == BytesVal(Repeat(0xFF, n)) * 0x800_0000 + r
    ensures r < 0x800_0000
  {
    OnesVal(n);
    MulMonoStrict(x, Pow2(16 + iv.shift), Pow2(ct));
    Pow2Add(16 + iv.shift, ct);
    Pow2Add(8 * n, 27);
    Pow2Small();
    TopCarry(Pow2(8 * n), r);
  }

  lemma ScaledBelow(f: int, s: int, t: int)
    requires f < s && t >= 0 && s * t <= 0x900_0000
    ensures f * t < 0x1000_0000
  {
    MulMono(f, s, t);
  }

  lemma EvenMultiple(f: nat, q: nat)
    requires f % 0x8000 == 0
    ensures (f * (2 * q)) % 0x1_0000 == 0
  {
    var k := f / 0x8000;
    assert f == 0x8000 * k;
    assert f * (2 * q) == 0x1_0000 * (k * q);
  }

  lemma FinalScale(p: seq<Byte>, c: nat, a: nat, ct: nat, iv: Interval)
    requires Represents(p, c, a, ct, iv) && iv.Normal()
    ensures (iv.low + FinalPoint(c, a) - c) * Pow2(ct) == BytesVal(p) * 0x800_0000 + FinalPoint(c, a) * Pow2(ct)
  {
    hide FinalPoint, BytesVal, Holds;
    Pow2Add(27 - ct, ct);
    Pow2Small();
    hide Pow2;
    Rescaled(iv.low, c, FinalPoint(c, a), BytesVal(p), Pow2(27 - ct), Pow2(ct), 0x800_0000);
  }

  lemma Rescaled(low: int, c: int, f: int, b: int, q: int, t: int, w: int)
    requires low == b * q + c && w == q * t
    ensures (low + f - c) * t == b * w + f * t
  {
    assert (b * q + f) * t == b * (q * t) + f * t;
  }

  /** The bytes that spell the final register, appended to p, lie in the interval. */
  lemma FinalBytesHold(p: seq<Byte>, c: nat, a: nat, ct: nat, iv: Interval, full: seq<Byte>)
    requires Represents(p, c, a, ct, iv) && iv.Normal()
    requires |full| == |p| + 2
    requires BytesVal(full) * 0x800 == BytesVal(p) * 0x800_0000 + FinalPoint(c, a) * Pow2(ct)
    ensures Holds(iv, full)
  {
    var x := iv.low + FinalPoint(c, a) - c;
    assert x >= iv.low && x < iv.low + iv.range by { FinalPointIn(c, a); }
    assert BytesVal(full) * 0x800 == x * Pow2(ct) by { FinalScale(p, c, a, ct, iv); }
    SamePoint(iv.shift, ct, |full|, x, BytesVal(full));
    PointHolds(iv, full, x);
  }

  lemma SamePoint(shift: nat, ct: nat, len: nat, x: int, b: int)
    requires 16 + shift + ct == 8 * len + 11 && b * 0x800 == x * Pow2(ct)
    ensures b * Pow2(16 + shift) == x * Pow2(8 * len)
  {
    Pow2Small();
    Pow2Add(16 + shift, ct);
    Pow2Add(8 * len, 11);
    CrossMultiply(b, x, Pow2(ct), Pow2(16 + shift), Pow2(8 * len));
  }

  lemma PointHolds(iv: Interval, data: seq<Byte>, x: int)
    requires iv.low <= x < iv.low + iv.range
    requires BytesVal(data) * Pow2(16 + iv.shift) == x * Pow2(8 * |data|)
    ensures Holds(iv, data)
  {
    MulMono(iv.low, x, Pow2(8 * |data|));
    MulMonoStrict(x, iv.low + iv.range, Pow2(8 * |data|));
  }

  lemma CrossMultiply(b: int, x: int, t: int, n: int, m: int)
    requires b * 0x800 == x * t && n * t == m * 0x800
    ensures b * n == x * m
  {
    assert b * n * 0x800 == x * t * n;
    assert x * t * n == x * (m * 0x800);
  }

  /** Trailing zero bytes do not change the value of the code. */
  lemma DroppedZeros(iv: Interval, data: seq<Byte>, n: nat)
    requires Holds(iv, data + Repeat(0, n))
    ensures Holds(iv, data)
  {
    BytesValConcat(data, Repeat(0, n));
    ZerosVal(n);
    Pow2Add(8 * |data|, 8 * n);
    var full := data + Repeat(0, n);
    assert 8 * |full| == 8 * |data| + 8 * n;
    CommonFactor(iv.low, iv.low + iv.range, BytesVal(data), Pow2(16 + iv.shift), Pow2(8 * |data|), Pow2(8 * n));
  }

  lemma CommonFactor(l: int, h: int, b: int, n: int, m: int, z: int)
    requires z >= 1
    requires l * (m * z) <= (b * z) * n < h * (m * z)
    ensures l * m <= b * n < h * m
  {
    assert l * (m * z) == (l * m) * z && (b * z) * n == (b * n) * z && h * (m * z) == (h * m) * z;
    if l * m > b * n { MulMonoStrict(b * n, l * m, z); }
    if b * n >= h * m { MulMono(h * m, b * n, z); }
  }

  /** The two bytes between bit 27, where a carry shows, and bit 11, below which the final
      register is zero. */
  function Tail(c: nat): seq<Byte> {
    [c / 0x8_0000 % 0x100, c / 0x800 % 0x100]
  }

  lemma FinalTail(q: seq<Byte>, c: nat)
    requires c < 0x1000_0000 && c % 0x1_0000 == 0
    ensures BytesVal(q + Tail(c)) * 0x800 + (if c >= 0x800_0000 then 0x800_0000 else 0) ==
            BytesVal(q) * 0x800_0000 + c
  {
    hide BytesVal;
    var b1, b2 := c / 0x8_0000 % 0x100, c / 0x800 % 0x100;
    TailValue(q, c, b1, b2);
    TailSum(BytesVal(q), c, b1, b2);
  }

  lemma TailValue(q: seq<Byte>, c: nat, b1: Byte, b2: Byte)
    requires Tail(c) == [b1, b2]
    ensures BytesVal(q + Tail(c)) == (BytesVal(q) * 0x100 + b1) * 0x100 + b2
  {
    BytesValSnoc(q, b1);
    BytesValSnoc(q + [b1], b2);
    assert q + [b1] + [b2] == q + Tail(c);
  }

  lemma TailSum(v: nat, c: nat, b1: Byte, b2: Byte)
    requires c < 0x1000_0000 && c % 0x1_0000 == 0
    requires b1 == c / 0x8_0000 % 0x100 && b2 == c / 0x800 % 0x100
    ensures ((v * 0x100 + b1) * 0x100 + b2) * 0x800 + (if c >= 0x800_0000 then 0x800_0000 else 0) ==
            v * 0x800_0000 + c
  {
    var k, b1, b2, r := RegisterDigits(c);
    Remainder(c, 0x800, c / 0x1_0000 * 0x20, 0);
    assert c == k * 0x800_0000 + b1 * 0x8_0000 + b2 * 0x800;
  }

  /** The tests of finish_pass see exactly which of the two bytes are zero. */
  lemma TailBits(c: nat)
    ensures c % 0x800_0000 / 0x800 != 0 <==> c / 0x8_0000 % 0x100 != 0 || c / 0x800 % 0x100 != 0
    ensures c % 0x8_0000 / 0x800 == c / 0x800 % 0x100
  {
    var k, b1, b2, r := RegisterDigits(c);
    Remainder(c, 0x800_0000, k, b1 * 0x8_0000 + b2 * 0x800 + r);
    Remainder(c % 0x800_0000, 0x800, b1 * 0x100 + b2, r);
    Remainder(c, 0x8_0000, k * 0x100 + b1, b2 * 0x800 + r);
    Remainder(c % 0x8_0000, 0x800, b2, r);
  }

  lemma RegisterDigits(c: nat) returns (k: nat, b1: nat, b2: nat, r: nat)
    ensures c == k * 0x800_0000 + b1 * 0x8_0000 + b2 * 0x800 + r
    ensures b1 == c / 0x8_0000 % 0x100 && b2 == c / 0x800 % 0x100 && r == c % 0x800
    ensures b1 < 0x100 && b2 < 0x100
  {
    r, b2 := c % 0x800, c / 0x800 % 0x100;
    var d := c / 0x800 / 0x100;
    assert c == d * 0x8_0000 + b2 * 0x800 + r;
    Remainder(c, 0x8_0000, d, b2 * 0x800 + r);
    k, b1 := d / 0x100, d % 0x100;
  }

  lemma CarriedBytes(out: seq<Byte>, zc: nat, b: Byte, sc: nat)
    requires b < 0xFF
    ensures var p, q := PendingOf(out, zc, b, sc), out + Repeat(0, zc) + [b + 1] + Repeat(0, sc);
            |q| == |p| && BytesVal(q) == BytesVal(p) + 1
  {
    assert PendingOf(out, zc, b, sc) == (out + Repeat(0, zc)) + [b] + Repeat(0xFF, sc);
    CarryThroughOnes(out + Repeat(0, zc), b, sc);
  }

  class Encoder {
    var c: nat       // base of the coding interval
    var a: nat       // size of the coding interval
    var sc: nat      // stacked 0xFF bytes
    var zc: nat      // pending zero bytes
    var ct: nat      // shifts until the next byte is ready
    var buffer: int  // most recent byte that is not 0xFF, or -1
    var output: seq<Byte>
    const table: Table
    const bins: array<Bin>

    // What the registers stand for.
    ghost var base: seq<Byte>  // output before the current segment
    ghost var out: seq<Byte>   // data bytes of the current segment already written
    ghost var iv: Interval     // the ideal coder
    ghost var start: State              // ideal state at the start of the segment
    ghost var history: seq<Decision>    // decisions encoded since then
    // While live, the decisions so far are those of total up to script.
    ghost var live: bool
    ghost var script: seq<Decision>
    ghost var total: seq<Decision>

    ghost function Pending(): seq<Byte>
      reads this
      requires -1 <= buffer <= 0xFE
    {
      PendingOf(out, zc, buffer, sc)
    }

    /** The bytes written and held are consistent. */
    ghost predicate BytesInv()
      reads this
    {
      && -1 <= buffer <= 0xFE
      && output == base + Stuff(out)
      && NoTrailingZero(out)
      && (buffer < 0 ==> out == [] && zc == 0)
    }

    /** The state between two shifts of the renormalization loop. */
    ghost predicate Inv()
      reads this
    {
      BytesInv() && 1 <= iv.range == a <= 0x1_0000 && 1 <= ct && Represents(Pending(), c, a, ct, iv)
    }

    ghost predicate Valid()
      reads this, bins
    {
      && Inv() && iv.Normal()
      && start.iv == UNIT && |start.bins| == bins.Length
      && AddressesOk(history, bins.Length)
      && St() == Run(table, start, history)
      && (live ==> history + script == total)
    }

    /** Encoding goes on within the same segment. */
    twostate predicate SameSegment()
      reads this
    {
      base == old(base) && start == old(start) && total == old(total)
    }

    ghost function St(): State
      reads this, bins
    {
      State(iv, bins[..])
    }

    constructor (table: Table, size: nat)
      ensures Valid() && this.table == table && fresh(bins) && bins.Length == size
      ensures start == State(UNIT, seq(size, _ => 0)) && history == [] && !live
      ensures base == [] && output == []
    {
      hide Represents;
      this.table := table;
      bins := new Bin[size](_ => 0);
      output := [];
      base := [];
      c, a, sc, zc, ct, buffer := 0, 0x1_0000, 0, 0, 11, -1;
      out, iv := [], UNIT;
      new;
      start, history, live := St(), [], false;
      assert start.bins == seq(size, _ => 0);
      StartRepresents();
    }

    /** Reset the registers for a new segment; what was written stays. */
    method StartSegment()
      modifies this
      ensures Valid() && start == State(UNIT, bins[..]) && history == [] && !live
      ensures output == old(output) && base == output
    {
      hide Represents, PendingOf, Stuff, BytesVal, NoTrailingZero;
      ResetRegisters();
      start, history, live := St(), [], false;
    }

    method ResetRegisters()
      modifies this`c, this`a, this`sc, this`zc, this`ct, this`buffer, this`base, this`out, this`iv
      ensures Inv() && iv == UNIT && base == output
    {
      hide Represents, PendingOf;
      c, a, sc, zc, ct, buffer := 0, 0x1_0000, 0, 0, 11, -1;
      base, out, iv := output, [], UNIT;
      StartRepresents();
    }

    method EmitByte(val: Byte)
      modifies this`output
      ensures output == old(output) + [val]
    {
      output := output + [val];
    }

    /** Write the pending zero bytes; they turned out not to be trailing. */
    method EmitZeros()
      requires output == base + Stuff(out)
      modifies this`output, this`zc, this`out
      ensures zc == 0 && out == old(out) + Repeat(0, old(zc)) && output == base + Stuff(out)
    {
      ghost var n := 0;
      AppendRepeat(out, 0, 0);
      while zc > 0
        invariant 0 <= n && n + zc == old(zc)
        invariant out == old(out) + Repeat(0, n)
        invariant output == base + Stuff(out)
      {
        EmitStuffed(0x00);
        AppendRepeat(old(out), 0x00, n);
        n := n + 1;
        zc := zc - 1;
      }
    }

    /** Write one data byte, with its stuffed zero if it needs one. */
    method EmitStuffed(val: Byte)
      requires output == base + Stuff(out)
      modifies this`output, this`out
      ensures out == old(out) + [val] && output == base + Stuff(out)
    {
      EmitByte(val);
      if val == 0xFF {
        EmitByte(0x00);
      }
      StuffSnoc(out, val);
      out := out + [val];
    }

    /** A carry has come out of the C register: it passes through the stacked 0xFF bytes
        into the held byte. */
    method CarryOver()
      requires BytesInv() && buffer >= 0
      modifies this`output, this`out, this`zc, this`sc
      ensures zc == old(sc) && sc == 0 && output == base + Stuff(out) && NoTrailingZero(out)
      ensures out == old(out) + Repeat(0, old(zc)) + [buffer + 1]
    {
      EmitZeros();
      EmitStuffed(buffer + 1);
      zc := zc + sc;
      sc := 0;
    }

    /** No carry can reach the held byte and the 0xFF bytes any more. */
    method ReleaseStacked()
      requires BytesInv()
      modifies this`output, this`out, this`zc, this`sc
      ensures sc == 0 && output == base + Stuff(out) && NoTrailingZero(out)
      ensures out + Repeat(0, zc) == old(Pending())
    {
      if buffer == 0 {
        zc := zc + 1;
        RepeatSnoc(0, old(zc));
        assert out + Repeat(0, zc) == old(out + Repeat(0, zc) + [buffer]);
      } else if buffer > 0 {
        EmitZeros();
        EmitStuffed(buffer);
        assert out + Repeat(0, zc) == old(out + Repeat(0, zc) + [buffer]);
      } else {
        assert out + Repeat(0, zc) == old(out + Repeat(0, zc) + []);
      }
      ghost var held := out + Repeat(0, zc);
      assert old(Pending()) == held + Repeat(0xFF, old(sc));
      if sc > 0 {
        EmitZeros();
        EmitStacked();
        assert out + Repeat(0, zc) == out;
      }
    }

    method EmitStacked()
      requires sc > 0 && output == base + Stuff(out)
      modifies this`output, this`out, this`sc
      ensures sc == 0 && output == base + Stuff(out) && NoTrailingZero(out)
      ensures out == old(out) + Repeat(0xFF, old(sc))
    {
      ghost var n := 0;
      assert out == old(out) + Repeat(0xFF, 0);
      while sc > 0
        invariant 0 <= n && n + sc == old(sc)
        invariant out == old(out) + Repeat(0xFF, n)
        invariant output == base + Stuff(out)
      {
        EmitStuffed(0xFF);
        assert out == old(out) + Repeat(0xFF, n + 1);
        n := n + 1;
        sc := sc - 1;
      }
      assert out[|out| - 1] == 0xFF;
    }

    /** The register has one more byte. It replaces the held byte, joins the stacked 0xFF
        bytes, or sends a carry through them. */
    method ByteOut()
      requires Inv() && ct == 1 && a < 0x8000
      modifies this`output, this`out, this`zc, this`sc, this`buffer, this`c, this`a, this`ct, this`iv
      ensures Inv() && iv == Doubled(old(iv))
    {
      hide Represents, PendingOf, Stuff, BytesVal;
      ByteReady(Pending(), c, a, iv);
      a := a * 2;
      c := c * 2;
      var temp := c / 0x8_0000;
      if temp > 0xFF {
        OnlyOnes(out, zc, buffer, sc);
        assert buffer >= 0;
        ghost var s := out + Repeat(0, zc);
        CarryOver();
        buffer := temp % 0x100;
        CarryBytes(s, old(buffer), old(sc), temp, out, old(out), old(zc));
      } else if temp == 0xFF {
        StackBytes(out, zc, buffer, sc);
        sc := sc + 1;
      } else {
        ReleaseStacked();
        buffer := temp;
        ReleasedBytes(out, zc, temp);
        BytesValSnoc(old(Pending()), temp);
      }
      c := c % 0x8_0000;
      ct := 8;
      ByteRepresents(old(Pending()), old(c), old(a), old(iv), Pending());
      iv := Doubled(iv);
    }

    /** Encode one binary decision in the context of bin k. As long as the decisions are those
        of a given script, the run so far is the part of the script before what is left. */
    method Encode(k: nat, val: bool)
      requires Valid() && k < bins.Length
      modifies this, bins
      ensures Valid() && SameSegment()
      ensures St() == Step(table, old(St()), Decision(k, val))
      ensures history == old(history) + [Decision(k, val)]
      ensures old(live && script != [] && script[0] == Decision(k, val)) ==>
              live && script == old(script)[1..]
    {
      hide Run, Step, Represents, PendingOf;
      RunSnoc(table, start, history, Decision(k, val));
      ArithEncode(k, val);
      history := history + [Decision(k, val)];
      live := live && script != [] && script[0] == Decision(k, val);
      if live {
        assert script == [script[0]] + script[1..];
        script := script[1..];
      }
    }

    /** The decisions ds are the ones to come. */
    ghost method Expect(ds: seq<Decision>)
      requires Valid()
      modifies this`live, this`script, this`total
      ensures Valid() && live && script == ds && total == history + ds
    {
      live, script, total := true, ds, history + ds;
    }

    method ArithEncode(k: nat, val: bool)
      requires Inv() && iv.Normal() && k < bins.Length
      modifies this`output, this`out, this`zc, this`sc, this`buffer, this`c, this`a, this`ct, this`iv, bins
      ensures Inv() && iv.Normal()
      ensures St() == Step(table, old(St()), Decision(k, val))
    {
      hide Represents, PendingOf, Stuff;
      var sv := bins[k];
      PackedRowDrivesBins(table, sv);
      var packed := Pack(table[sv % 0x80]);
      var qe, nl, nm := UnpackQe(packed), UnpackLps(packed), UnpackMps(packed);
      ghost var part := Part(table, iv, sv, val);
      ghost var p, c0, a0, iv0 := Pending(), c, a, iv;
      a := a - qe;
      if val != Mps(sv) {
        if a >= qe {
          c := c + a;
          a := qe;
        }
        bins[k] := HighBitXor(sv, nl);
      } else if a >= 0x8000 {
        PartRepresents(p, c0, a0, ct, iv0, c - c0, a);
        iv := part;
        return;
      } else {
        if a < qe {
          c := c + a;
          a := qe;
        }
        bins[k] := HighBitXor(sv, nm);
      }
      PartRepresents(p, c0, a0, ct, iv0, c - c0, a);
      iv := part;
      Renormalize();
    }

    method Renormalize()
      requires Inv() && a < 0x8000
      modifies this`output, this`out, this`zc, this`sc, this`buffer, this`c, this`a, this`ct, this`iv
      ensures Inv() && iv.Normal() && iv == Renorm(old(iv))
    {
      hide Represents, PendingOf, Stuff, NoTrailingZero;
      while a < 0x8000
        invariant Inv()
        invariant Renorm(iv) == Renorm(old(iv))
        decreases 0x8000 - a
      {
        if ct == 1 {
          ByteOut();
        } else {
          ShiftRepresents(Pending(), c, a, ct, iv);
          a := a * 2;
          c := c * 2;
          ct := ct - 1;
          iv := Doubled(iv);
        }
      }
    }

    /** Flush the registers at the end of a segment. The data written identifies the whole
        run, and nothing shorter by dropped zero bytes is left to drop. */
    method FinishPass() returns (ghost data: seq<Byte>)
      requires Valid()
      modifies this
      ensures base == old(base) && output == base + Stuff(data)
      ensures Holds(Run(table, old(start), old(history)).iv, data) && NoTrailingZero(data)
    {
      hide Represents, PendingOf, Holds, BytesVal, Pow2;
      ghost var p, iv0 := Pending(), iv;
      FinalRegister(p, c, a, ct, iv);
      var temp := (a - 1 + c) / 0x1_0000 * 0x1_0000;
      if temp < c {
        c := temp + 0x8000;
      } else {
        c := temp;
      }
      assert c == FinalPoint(old(c), old(a));
      c := c * Pow2(ct);
      if c >= 0x800_0000 {
        OnlyOnes(out, zc, buffer, sc);
        assert buffer >= 0;
        CarriedBytes(out, zc, buffer, sc);
        CarryOver();
      } else {
        ReleaseStacked();
      }
      ghost var q := out + Repeat(0, zc);
      FinalTail(q, c);
      FinalBytesHold(p, old(c), old(a), ct, iv, q + Tail(c));
      ghost var dropped := EmitFinalBytes();
      data := out;
      DroppedZeros(iv, data, dropped);
    }

    /** The last two bytes of the register, unless nothing but zero bytes is left. */
    method EmitFinalBytes() returns (ghost dropped: nat)
      requires output == base + Stuff(out) && NoTrailingZero(out)
      modifies this`output, this`out, this`zc
      ensures output == base + Stuff(out) && NoTrailingZero(out)
      ensures out + Repeat(0, dropped) == old(out) + Repeat(0, old(zc)) + Tail(c)
    {
      TailBits(c);
      dropped := zc + 2;
      if c % 0x800_0000 / 0x800 != 0 {
        EmitZeros();
        EmitStuffed(c / 0x8_0000 % 0x100);
        dropped := 1;
        if c % 0x8_0000 / 0x800 != 0 {
          EmitStuffed(c / 0x800 % 0x100);
          dropped := 0;
        }
      }
    }
  }
}
