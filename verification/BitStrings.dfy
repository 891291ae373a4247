/** Strings of bits, most significant first, and the numbers they stand for. */
module BitStrings {
  import opened Bits

  type Bit = x: int | 0 <= x < 2

  function BitsVal(s: seq<Bit>): nat {
    if |s| == 0 then 0 else 2 * BitsVal(s[..|s| - 1]) + s[|s| - 1]
  }

  /** The n low bits of v in two's complement. */
  function BitsOf(v: int, n: nat): (s: seq<Bit>)
    ensures |s| == n
    decreases n
  {
    if n == 0 then [] else BitsOf(v / 2, n - 1) + [v % 2]
  }

  lemma {:induction false} BitsValBound(s: seq<Bit>)
    ensures BitsVal(s) < Pow2(|s|)
  {
    if |s| != 0 {
      BitsValBound(s[..|s| - 1]);
    }
  }

  lemma {:induction false} BitsOfVal(s: seq<Bit>)
    ensures BitsOf(BitsVal(s), |s|) == s
  {
    if |s| != 0 {
      BitsOfVal(s[..|s| - 1]);
    }
  }

  lemma {:induction false} ValOfBits(v: int, n: nat)
    ensures BitsVal(BitsOf(v, n)) == v % Pow2(n)
    decreases n
  {
    if n != 0 {
      var s := BitsOf(v, n);
      assert s[..|s| - 1] == BitsOf(v / 2, n - 1);
      ValOfBits(v / 2, n - 1);
      HalfMod(v, Pow2(n - 1));
    }
  }

  lemma HalfMod(v: int, p: nat)
    requires p >= 1
    ensures 2 * (v / 2 % p) + v % 2 == v % (2 * p)
  {
    var q := v / 2 / p;
    assert v / 2 == p * q + v / 2 % p;
    var r := 2 * (v / 2 % p) + v % 2;
    assert v == (2 * p) * q + r;
    Remainder(v, 2 * p, q, r);
  }

  lemma {:induction false} BitsValConcat(a: seq<Bit>, b: seq<Bit>)
    ensures BitsVal(a + b) == BitsVal(a) * Pow2(|b|) + BitsVal(b)
  {
    if |b| == 0 {
      assert a + b == a;
    } else {
      var b' := b[..|b| - 1];
      BitsValConcat(a, b');
      assert (a + b)[..|a + b| - 1] == a + b';
      assert BitsVal(a) * Pow2(|b|) == 2 * (BitsVal(a) * Pow2(|b'|));
    }
  }

  /** The low bits are the same whatever lies above them. */
  lemma {:induction false} BitsOfJoined(hi: int, lo: int, n: nat, m: nat)
    requires 0 <= lo < Pow2(n)
    ensures BitsOf(hi * Pow2(n) + lo, m + n) == BitsOf(hi, m) + BitsOf(lo, n)
    decreases n
  {
    if n == 0 {
      assert BitsOf(lo, 0) == [];
    } else {
      var v := hi * Pow2(n) + lo;
      assert v == 2 * (hi * Pow2(n - 1)) + lo;
      assert v / 2 == hi * Pow2(n - 1) + lo / 2 && v % 2 == lo % 2;
      BitsOfJoined(hi, lo / 2, n - 1, m);
      assert BitsOf(v, m + n) == BitsOf(v / 2, m + n - 1) + [v % 2];
      assert BitsOf(hi, m) + BitsOf(lo / 2, n - 1) + [lo % 2] == BitsOf(hi, m) + (BitsOf(lo / 2, n - 1) + [lo % 2]);
    }
  }

  lemma {:induction false} BitsOfSuffix(v: int, m: nat, n: nat)
    ensures BitsOf(v, m + n)[m..] == BitsOf(v, n)
    decreases n
  {
    if n > 0 {
      BitsOfSuffix(v / 2, m, n - 1);
      var s := BitsOf(v / 2, m + n - 1);
      assert BitsOf(v, m + n) == s + [v % 2];
      assert (s + [v % 2])[m..] == s[m..] + [v % 2];
    }
  }

  lemma DivMod(v: int, p: nat)
    requires p >= 1
    ensures v / p * p + v % p == v && 0 <= v % p < p
  {
  }

  /** Cutting a number to at least m bits keeps its m low bits. */
  lemma BitsOfMod(v: int, m: nat, n: nat)
    requires m <= n
    ensures BitsOf(v % Pow2(n), m) == BitsOf(v, m)
  {
    hide Pow2;
    var p := Pow2(n);
    DivMod(v, p);
    BitsOfJoined(v / p, v % p, n, 0);
    assert BitsOf(v, n) == BitsOf(v % p, n);
    BitsOfSuffix(v, n - m, m);
    BitsOfSuffix(v % p, n - m, m);
  }

  /** Shifting right by n leaves the m bits above the n low ones. */
  lemma BitsOfShifted(v: int, m: nat, n: nat)
    ensures BitsOf(v, m + n) == BitsOf(v / Pow2(n), m) + BitsOf(v, n)
  {
    hide Pow2, BitsOf;
    var p := Pow2(n);
    DivMod(v, p);
    BitsOfJoined(v / p, v % p, n, m);
    BitsOfMod(v, n, n);
  }

  lemma {:induction false} BitsOfZero(n: nat)
    ensures BitsOf(0, n) == Zeros(n)
  {
    if n > 0 {
      BitsOfZero(n - 1);
      assert Zeros(n) == Zeros(n - 1) + [0];
    }
  }

  /** The bits of a byte string. */
  function BytesBits(s: seq<Byte>): (b: seq<Bit>)
    ensures |b| == 8 * |s|
  {
    if |s| == 0 then [] else BitsOf(s[0], 8) + BytesBits(s[1..])
  }

  lemma {:induction false} BytesBitsConcat(a: seq<Byte>, b: seq<Byte>)
    ensures BytesBits(a + b) == BytesBits(a) + BytesBits(b)
  {
    if |a| == 0 {
      assert a + b == b;
    } else {
      assert (a + b)[1..] == a[1..] + b;
      BytesBitsConcat(a[1..], b);
    }
  }

  function Zeros(n: nat): (s: seq<Bit>)
    ensures |s| == n && forall i :: 0 <= i < n ==> s[i] == 0
  {
    seq(n, _ => 0)
  }

  /** The first n bits, zeros standing in for bits that are missing. */
  function First(s: seq<Bit>, n: nat): (r: seq<Bit>)
    ensures |r| == n
  {
    if n <= |s| then s[..n] else s + Zeros(n - |s|)
  }

  function Drop(s: seq<Bit>, n: nat): seq<Bit> {
    if n <= |s| then s[n..] else []
  }

  lemma FirstParts(s: seq<Bit>, m: nat, n: nat)
    ensures First(s, m + n) == First(s, m) + First(Drop(s, m), n)
    ensures Drop(Drop(s, m), n) == Drop(s, m + n)
  {
  }

  /** The number the first n bits stand for. */
  function Peek(s: seq<Bit>, n: nat): (v: nat)
    ensures v < Pow2(n)
  {
    BitsValBound(First(s, n));
    BitsVal(First(s, n))
  }

  lemma PeekParts(s: seq<Bit>, m: nat, n: nat)
    ensures Peek(s, m + n) == Peek(s, m) * Pow2(n) + Peek(Drop(s, m), n)
  {
    FirstParts(s, m, n);
    BitsValConcat(First(s, m), First(Drop(s, m), n));
  }

  lemma PeekMore(s: seq<Bit>, n: nat)
    ensures Peek(s, n + 1) == 2 * Peek(s, n) + Peek(Drop(s, n), 1)
  {
    PeekParts(s, n, 1);
    assert Pow2(1) == 2;
  }

  lemma PeekFront(v: int, n: nat, rest: seq<Bit>)
    ensures Peek(BitsOf(v, n) + rest, n) == v % Pow2(n)
    ensures Drop(BitsOf(v, n) + rest, n) == rest
  {
    assert First(BitsOf(v, n) + rest, n) == BitsOf(v, n);
    ValOfBits(v, n);
  }
}
