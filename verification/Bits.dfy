/** Bytes, powers of two and the big-endian value of a byte string: what both
    entropy codecs of the JPEG library have in common. */
module Bits {

  type Byte = x: int | 0 <= x < 256

  function Pow2(n: nat): (p: nat)
    ensures p >= 1
  {
    if n == 0 then 1 else 2 * Pow2(n - 1)
  }

  lemma {:induction false} Pow2Add(a: nat, b: nat)
    ensures Pow2(a + b) == Pow2(a) * Pow2(b)
  {
    if a != 0 {
      Pow2Add(a - 1, b);
      assert a - 1 + b == a + b - 1;
    }
  }

  lemma {:induction false} Pow2Mono(a: nat, b: nat)
    requires a <= b
    ensures Pow2(a) <= Pow2(b)
  {
    if a < b {
      Pow2Mono(a, b - 1);
    }
  }

  /** The values the register layouts of the two coders rest on. */
  lemma Pow2Small()
    ensures Pow2(3) == 8 && Pow2(8) == 0x100 && Pow2(11) == 0x800
    ensures Pow2(15) == 0x8000 && Pow2(16) == 0x1_0000
    ensures Pow2(19) == 0x8_0000 && Pow2(27) == 0x800_0000
  {
    assert Pow2(3) == 8;
    assert Pow2(8) == 0x100 by { Pow2Add(4, 4); }
    assert Pow2(11) == 0x800 by { Pow2Add(8, 3); }
    assert Pow2(16) == 0x1_0000 by { Pow2Add(8, 8); }
    assert Pow2(19) == 0x8_0000 by { Pow2Add(16, 3); }
    assert Pow2(27) == 0x800_0000 by { Pow2Add(16, 11); }
  }

  /** The byte string read as one big-endian number. */
  function BytesVal(s: seq<Byte>): nat
  {
    if |s| == 0 then 0 else BytesVal(s[..|s| - 1]) * 256 + s[|s| - 1]
  }

  lemma BytesValSnoc(s: seq<Byte>, b: Byte)
    ensures BytesVal(s + [b]) == BytesVal(s) * 256 + b
  {
    assert (s + [b])[..|s|] == s;
  }

  lemma {:induction false} BytesValConcat(a: seq<Byte>, b: seq<Byte>)
    ensures BytesVal(a + b) == BytesVal(a) * Pow2(8 * |b|) + BytesVal(b)
  {
    hide Pow2;
    if |b| == 0 {
      assert a + b == a;
      EightMore(0);
    } else {
      var b' := b[..|b| - 1];
      BytesValConcat(a, b');
      assert (a + b)[..|a + b| - 1] == a + b';
      EightMore(8 * |b'|);
      AppendByte(BytesVal(a), Pow2(8 * |b'|), BytesVal(b'), b[|b| - 1]);
    }
  }

  lemma EightMore(n: nat)
    ensures Pow2(n + 8) == Pow2(n) * 256 && Pow2(0) == 1
  {
    Pow2Add(n, 8);
    Pow2Small();
  }

  lemma AppendByte(x: int, p: int, y: int, z: int)
    ensures (x * p + y) * 256 + z == x * (p * 256) + (y * 256 + z)
  {
  }

  lemma {:induction false} BytesValBound(s: seq<Byte>)
    ensures BytesVal(s) < Pow2(8 * |s|)
  {
    if |s| != 0 {
      var s' := s[..|s| - 1];
      BytesValBound(s');
      Pow2Add(8 * |s'|, 8);
      Pow2Small();
    }
  }

  /** n copies of one byte. */
  function Repeat(b: Byte, n: nat): (s: seq<Byte>)
    ensures |s| == n && forall i :: 0 <= i < n ==> s[i] == b
  {
    seq(n, _ => b)
  }

  lemma RepeatSnoc(b: Byte, n: nat)
    ensures Repeat(b, n + 1) == Repeat(b, n) + [b]
  {
  }

  lemma {:induction false} ZerosVal(n: nat)
    ensures BytesVal(Repeat(0, n)) == 0
  {
    if n != 0 {
      ZerosVal(n - 1);
      RepeatSnoc(0, n - 1);
      BytesValSnoc(Repeat(0, n - 1), 0);
    }
  }

  /** A run of 0xFF bytes is the largest number of its length. */
  lemma {:induction false} OnesVal(n: nat)
    ensures BytesVal(Repeat(0xFF, n)) == Pow2(8 * n) - 1
  {
    if n != 0 {
      OnesVal(n - 1);
      RepeatSnoc(0xFF, n - 1);
      BytesValSnoc(Repeat(0xFF, n - 1), 0xFF);
      Pow2Add(8 * (n - 1), 8);
      Pow2Small();
    }
  }

  /** A carry into the byte string b 0xFF ... 0xFF turns it into b+1 0x00 ... 0x00. */
  lemma CarryThroughOnes(s: seq<Byte>, b: Byte, n: nat)
    requires b < 0xFF
    ensures BytesVal(s + [b] + Repeat(0xFF, n)) + 1 == BytesVal(s + [b + 1] + Repeat(0, n))
  {
    BytesValConcat(s + [b], Repeat(0xFF, n));
    BytesValConcat(s + [b + 1], Repeat(0, n));
    BytesValSnoc(s, b);
    BytesValSnoc(s, b + 1);
    OnesVal(n);
    ZerosVal(n);
    var p := Pow2(8 * n);
    assert (BytesVal(s) * 256 + b) * p + p == (BytesVal(s) * 256 + (b + 1)) * p;
  }

  /** The first k bytes of s followed by endless zero bytes. */
  function Extend(s: seq<Byte>, k: nat): (r: seq<Byte>)
    ensures |r| == k
  {
    if k <= |s| then s[..k] else s + Repeat(0, k - |s|)
  }

  /** Comparing a multiple of the last kept bit against the first k bytes is the same
      as comparing it against the whole string: truncation never changes the outcome. */
  lemma TruncatedComparison(s: seq<Byte>, k: nat, x: int)
    ensures x <= BytesVal(Extend(s, k)) <==> x * Pow2(8 * |s|) <= BytesVal(s) * Pow2(8 * k)
  {
    var e, v, w, p := BytesVal(Extend(s, k)), BytesVal(s), Pow2(8 * |s|), Pow2(8 * k);
    if k <= |s| {
      var q, r := CutBytes(s, k);
      FloorComparison(x, e, q, r, p, v, w);
    } else {
      var q := PadBytes(s, k);
      ScaledComparison(x, v, q, w, e, p);
    }
  }

  lemma CutBytes(s: seq<Byte>, k: nat) returns (q: nat, r: nat)
    requires k <= |s|
    ensures r < q && BytesVal(s) == BytesVal(Extend(s, k)) * q + r
    ensures Pow2(8 * |s|) == q * Pow2(8 * k)
  {
    var t := s[k..];
    q, r := Pow2(8 * |t|), BytesVal(t);
    assert s == s[..k] + t;
    BytesValConcat(s[..k], t);
    BytesValBound(t);
    Pow2Add(8 * |t|, 8 * k);
    assert 8 * |t| + 8 * k == 8 * |s|;
  }

  lemma PadBytes(s: seq<Byte>, k: nat) returns (q: nat)
    requires k > |s|
    ensures BytesVal(Extend(s, k)) == BytesVal(s) * q
    ensures Pow2(8 * k) == q * Pow2(8 * |s|)
  {
    var z := k - |s|;
    q := Pow2(8 * z);
    BytesValConcat(s, Repeat(0, z));
    ZerosVal(z);
    Pow2Add(8 * z, 8 * |s|);
    assert 8 * z + 8 * |s| == 8 * k;
  }

  lemma FloorComparison(x: int, e: int, q: nat, r: nat, p: nat, v: int, w: int)
    requires r < q && 0 < p && v == e * q + r && w == q * p
    ensures x <= e <==> x * w <= v * p
  {
    assert x * w == (x * q) * p;
    if x <= e {
      MulMono(x, e, q);
      MulMono(x * q, v, p);
    } else {
      MulMono(e + 1, x, q);
      assert (e + 1) * q == e * q + q;
      MulMonoStrict(v, x * q, p);
    }
  }

  lemma ScaledComparison(x: int, v: int, q: nat, p: nat, e: int, w: int)
    requires 0 < p && e == v * q && w == q * p
    ensures x <= e <==> x * p <= v * w
  {
    assert v * w == (v * q) * p;
    if x <= e {
      MulMono(x, e, p);
    } else {
      MulMonoStrict(e, x, p);
    }
  }

  lemma MulMono(a: int, b: int, c: int)
    requires a <= b && 0 <= c
    ensures a * c <= b * c
  {
  }

  lemma MulMonoStrict(a: int, b: int, c: int)
    requires a < b && 0 < c
    ensures a * c < b * c
  {
  }

  lemma Associate<T>(a: seq<T>, b: seq<T>, c: seq<T>)
    ensures a + (b + c) == a + b + c
  {
  }

  lemma DoubledProduct(x: int, p: int)
    ensures x * (2 * p) == 2 * (x * p) == (2 * x) * p
  {
  }

  /** Quotient and remainder are unique. */
  lemma Remainder(v: int, p: nat, q: int, r: int)
    requires p >= 1 && v == p * q + r && 0 <= r < p
    ensures v / p == q && v % p == r
  {
    var d := v / p - q;
    assert v == p * (v / p) + v % p;
    assert p * d == r - v % p;
    if d >= 1 {
      MulMono(1, d, p);
    } else if d <= -1 {
      MulMono(d, -1, p);
    }
  }
}
