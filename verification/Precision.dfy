/** What the decoded blocks of the five kinds of scan mean for the coefficients. */
module Precision {
  import opened Bits
  import opened Scans

  /** The DC coefficient at precision al: rounded down. */
  function DcAt(b: Block, al: nat): int {
    b[0] / Pow2(al) * Pow2(al)
  }

  /** An AC coefficient at precision al: rounded toward zero. */
  function AcAt(x: int, al: nat): int {
    PointTransform(x, al) * Pow2(al)
  }

  lemma AcAtIsCoef(x: Coef, al: nat)
    ensures -0x8000 <= AcAt(x, al) < 0x8000
    ensures ToCoef(AcAt(x, al)) == AcAt(x, al)
  {
    RoundedProduct(Abs(x), Pow2(al));
    ToCoefExact(AcAt(x, al));
  }

  /** The multiple of 2^al at or below the DC coefficient. */
  lemma RoundedDown(b: Block, al: nat)
    ensures DcAt(b, al) <= b[0] < DcAt(b, al) + Pow2(al) && DcAt(b, al) % Pow2(al) == 0
  {
    var p := Pow2(al);
    var q := b[0] / p;
    assert b[0] == p * q + b[0] % p;
    Remainder(q * p, p, q, 0);
  }

  /** The multiple of 2^al next to the AC coefficient on the side of zero. */
  lemma TowardZero(x: int, al: nat)
    ensures Abs(AcAt(x, al)) <= Abs(x) < Abs(AcAt(x, al)) + Pow2(al) && AcAt(x, al) % Pow2(al) == 0
    ensures AcAt(x, al) > 0 ==> x > 0
    ensures AcAt(x, al) < 0 ==> x < 0
  {
    var p := Pow2(al);
    RoundedProduct(Abs(x), p);
    Euclid(Abs(x), p);
    Remainder(PointTransform(x, al) * p, p, PointTransform(x, al), 0);
  }

  lemma RoundedProduct(x: nat, p: nat)
    requires p >= 1
    ensures 0 <= x / p * p <= x && (-(x / p)) * p == -(x / p * p)
  {
    Euclid(x, p);
    DivBound(x, p);
    assert x / p * p == p * (x / p);
  }

  lemma {:induction false} PlacedAt(order: seq<nat>, was: seq<Coef>, zz: seq<int>, ss: nat, k: int, j: nat, al: nat)
    requires OrderOk(order) && |was| == 64 && |zz| == 64 && k < 64 && j < 64
    ensures Placed(order, was, zz, ss, k, al)[order[j]] ==
            if ss <= j <= k && zz[j] != 0 then ToCoef(zz[j] * Pow2(al)) else was[order[j]]
    decreases k - ss
  {
    if k >= ss {
      PlacedAt(order, was, zz, ss, k - 1, j, al);
      if j != k {
        assert order[j] != order[k] by {
          if j < k { assert order[j] != order[k]; } else { assert order[k] != order[j]; }
        }
      }
    }
  }

  /** A first AC scan brings an empty band to precision al and touches nothing else. */
  lemma FirstScan(scan: Scan, was: seq<Coef>, b: Block)
    requires scan.Ok() && scan.kind == AcFirst && |was| == 64
    requires forall k :: scan.ss <= k <= scan.se ==> was[scan.order[k]] == 0
    ensures forall k :: 0 <= k < 64 ==>
              Decoded(scan, was, b)[scan.order[k]] ==
              (if scan.ss <= k <= scan.se then AcAt(b[scan.order[k]], scan.al) else was[scan.order[k]])
  {
    var zz := Zigzag(scan.order, b, scan.al);
    forall k | 0 <= k < 64
      ensures Decoded(scan, was, b)[scan.order[k]] ==
              if scan.ss <= k <= scan.se then AcAt(b[scan.order[k]], scan.al) else was[scan.order[k]]
    {
      PlacedAt(scan.order, was, zz, scan.ss, scan.se, k, scan.al);
      AcAtIsCoef(b[scan.order[k]], scan.al);
    }
  }

  /** A refinement brings a band from precision al + 1 to precision al and touches nothing
      else. */
  lemma RefinementScan(scan: Scan, was: seq<Coef>, b: Block)
    requires scan.Ok() && scan.kind == AcRefine && |was| == 64
    requires forall k :: scan.ss <= k <= scan.se ==> was[scan.order[k]] == AcAt(b[scan.order[k]], scan.al + 1)
    ensures Prior(scan, was, b)
    ensures forall k :: 0 <= k < 64 ==>
              Decoded(scan, was, b)[scan.order[k]] ==
              (if scan.ss <= k <= scan.se then AcAt(b[scan.order[k]], scan.al) else was[scan.order[k]])
  {
    forall k | 0 <= k < 64
      ensures Decoded(scan, was, b)[scan.order[k]] ==
              if scan.ss <= k <= scan.se then AcAt(b[scan.order[k]], scan.al) else was[scan.order[k]]
    {
      RefinedBandCoef(scan, was, b, k);
    }
  }

  lemma RefinedBandCoef(scan: Scan, was: seq<Coef>, b: Block, k: nat)
    requires scan.Ok() && scan.kind == AcRefine && |was| == 64 && k < 64
    requires scan.ss <= k <= scan.se ==> was[scan.order[k]] == AcAt(b[scan.order[k]], scan.al + 1)
    ensures Decoded(scan, was, b)[scan.order[k]] ==
            if scan.ss <= k <= scan.se then AcAt(b[scan.order[k]], scan.al) else was[scan.order[k]]
  {
    hide Placed, ToCoef, Pow2;
    var zz := Zigzag(scan.order, b, scan.al);
    PlacedAt(scan.order, was, zz, scan.ss, scan.se, k, scan.al);
    AcAtIsCoef(b[scan.order[k]], scan.al);
    if scan.ss <= k <= scan.se && zz[k] == 0 {
      CoarserTransform(b[scan.order[k]], scan.al);
    }
  }

  /** A first DC scan gives the value at precision al. */
  lemma DcFirstScan(scan: Scan, was: seq<Coef>, b: Block)
    requires scan.Ok() && scan.kind == DcFirst && |was| == 64
    ensures -0x8000 <= DcAt(b, scan.al) < 0x8000
    ensures Decoded(scan, was, b) == was[0 := DcAt(b, scan.al)]
  {
    DcAtIsCoef(b, scan.al);
  }

  /** A DC refinement gives one bit more. */
  lemma DcRefinementScan(scan: Scan, was: seq<Coef>, b: Block)
    requires scan.Ok() && scan.kind == DcRefine && |was| == 64
    requires was[0] == DcAt(b, scan.al + 1)
    ensures -0x8000 <= DcAt(b, scan.al) < 0x8000
    ensures Decoded(scan, was, b) == was[0 := DcAt(b, scan.al)]
  {
    hide Zigzag, WithBit, DcAt, OrderOk;
    AddedBit(b, scan.al);
    assert was[0 := was[0]] == was;
  }

  lemma AddedBit(b: Block, al: nat)
    requires al <= 13
    ensures -0x8000 <= DcAt(b, al + 1) < 0x8000 && -0x8000 <= DcAt(b, al) < 0x8000
    ensures DcAt(b, al) == if b[0] / Pow2(al) % 2 == 1 then WithBit(DcAt(b, al + 1), al) else DcAt(b, al + 1)
  {
    DcAtIsCoef(b, al);
    DcAtIsCoef(b, al + 1);
    NextDcBit(b[0], al);
  }

  lemma DcAtIsCoef(b: Block, al: nat)
    requires al <= 14
    ensures -0x8000 <= DcAt(b, al) < 0x8000 && ToCoef(DcAt(b, al)) == DcAt(b, al)
  {
    Pow2Add(al, 15 - al);
    Pow2Small();
    FloorWithin(b[0], Pow2(al), Pow2(15 - al));
    ToCoefExact(DcAt(b, al));
  }

  /** Rounding down to a multiple of p stays above a bound that is one. */
  lemma FloorWithin(x: int, p: nat, k: nat)
    requires p >= 1 && p * k == 0x8000 && x >= -0x8000
    ensures -0x8000 <= x / p * p <= x
  {
    var q := x / p;
    var low := -(k as int);
    assert x == p * q + x % p;
    assert q * p == p * q && low * p == -0x8000 && (q + 1) * p == q * p + p;
    if q < low {
      MulMono(q + 1, low, p);
    }
  }

  /** Setting the bit of weight p in the coarser value gives the finer one. */
  lemma NextDcBit(x: Coef, al: nat)
    requires al <= 13
    ensures var coarse, fine, p := x / Pow2(al + 1) * Pow2(al + 1), x / Pow2(al) * Pow2(al), Pow2(al);
            && fine == coarse + (if x / p % 2 == 1 then p else 0)
            && coarse / p % 2 == 0
  {
    DoublePow(al);
    NextBitOf(x, Pow2(al));
  }

  lemma NextBitOf(x: int, p: nat)
    requires p >= 1
    ensures var coarse := x / (2 * p) * (2 * p);
            x / p * p == coarse + (if x / p % 2 == 1 then p else 0) && coarse / p % 2 == 0
  {
    HalfFloor(x, p);
    var h := x / (2 * p);
    DoubledProduct(h, p);
    Remainder(h * (2 * p), p, 2 * h, 0);
    BitProduct(h, x / p, p);
  }

  lemma BitProduct(h: int, q: int, p: nat)
    requires h == q / 2
    ensures q * p == h * (2 * p) + if q % 2 == 1 then p else 0
  {
    assert q == 2 * h + q % 2;
    assert (2 * h + q % 2) * p == h * (2 * p) + (q % 2) * p;
  }

  lemma HalfFloor(x: int, p: nat)
    requires p >= 1
    ensures x / (2 * p) == x / p / 2
  {
    var q, r := x / p, x % p;
    assert x == p * q + r;
    var h, b := q / 2, q % 2;
    assert p * (2 * h + b) == (2 * p) * h + b * p;
    Remainder(x, 2 * p, h, b * p + r);
  }

  /** A sequential scan reproduces the block up to its last coefficient. */
  lemma SequentialScan(scan: Scan, was: seq<Coef>, b: Block)
    requires scan.Ok() && scan.kind == Sequential && |was| == 64
    requires forall k :: 0 <= k <= scan.se ==> was[scan.order[k]] == 0
    ensures forall k :: 0 <= k < 64 ==>
              Decoded(scan, was, b)[scan.order[k]] == (if k <= scan.se then b[scan.order[k]] else was[scan.order[k]])
  {
    forall k | 0 <= k < 64
      ensures Decoded(scan, was, b)[scan.order[k]] == if k <= scan.se then b[scan.order[k]] else was[scan.order[k]]
    {
      SequentialCoef(scan, was, b, k);
    }
  }

  lemma SequentialCoef(scan: Scan, was: seq<Coef>, b: Block, k: nat)
    requires scan.Ok() && scan.kind == Sequential && |was| == 64 && k < 64
    requires k <= scan.se ==> was[scan.order[k]] == 0
    ensures Decoded(scan, was, b)[scan.order[k]] == if k <= scan.se then b[scan.order[k]] else was[scan.order[k]]
  {
    hide ToCoef, Placed;
    var zz := Zigzag(scan.order, b, 0);
    assert Pow2(0) == 1;
    ToCoefExact(b[scan.order[k]]);
    if scan.se > 0 {
      PlacedAt(scan.order, was[0 := ToCoef(DcValue(scan, b))], zz, 1, scan.se, k, 0);
    }
    if k > 0 {
      assert scan.order[0] != scan.order[k];
    }
  }
}
