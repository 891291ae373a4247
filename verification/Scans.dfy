/** Scans of quantized coefficient blocks: their parameters, the point transform, and what
    decoding a scan makes of a block. Both entropy codecs share these. */
module Scans {
  import opened Bits

  const NUM_ARITH_TBLS := 16

  type Coef = x: int | -0x8000 <= x < 0x8000

  type Block = b: seq<Coef> | |b| == 64 witness seq(64, _ => 0)

  /** The entropy coding routine that the scan parameters select. */
  datatype Kind = Sequential | DcFirst | AcFirst | DcRefine | AcRefine

  /** The parameters of a scan, as the frame and scan headers fix them for both sides. */
  datatype Scan = Scan(
    kind: Kind,
    order: seq<nat>,       // zigzag index to position in the block
    ss: nat, se: nat,      // spectral band
    al: nat,               // successive approximation; a refinement comes from al + 1
    dcTbl: seq<nat>, acTbl: seq<nat>,        // statistics areas, by component
    dcL: seq<nat>, dcU: seq<nat>, acK: seq<nat>)  // conditioning, by area
  {
    predicate Ok() {
      && OrderOk(order)
      && se < 64 && al <= 13
      && (match kind
          case Sequential => ss == 0 && al == 0
          case DcFirst => ss == 0 && se == 0
          case DcRefine => ss == 0 && se == 0
          case AcFirst => 1 <= ss <= se
          case AcRefine => 1 <= ss <= se)
      && |dcTbl| == |acTbl|
      && (forall c :: 0 <= c < |dcTbl| ==> dcTbl[c] < NUM_ARITH_TBLS && acTbl[c] < NUM_ARITH_TBLS)
      && |dcL| == NUM_ARITH_TBLS && |dcU| == NUM_ARITH_TBLS && |acK| == NUM_ARITH_TBLS
    }

    function NumComps(): nat { |dcTbl| }

    /** The scan uses, and so resets, the DC or the AC statistics of its components. */
    predicate UsesDc() { kind == Sequential || kind == DcFirst }
    predicate UsesAc() { (kind == Sequential && se > 0) || kind == AcFirst || kind == AcRefine }
  }

  predicate OrderOk(order: seq<nat>) {
    && |order| == 64
    && (forall k :: 0 <= k < 64 ==> order[k] < 64)
    && (forall i, k :: 0 <= i < k < 64 ==> order[i] != order[k])
    && order[0] == 0 && order[63] == 63
  }

  lemma OrderWithin(order: seq<nat>, k: nat)
    requires OrderOk(order) && k < 64
    ensures |order| == 64 && order[k] < 64
  {
  }

  /** One block of an MCU and the component it belongs to. */
  datatype Item = Item(comp: nat, block: Block)

  predicate ItemsOk(scan: Scan, items: seq<Item>) {
    forall i :: 0 <= i < |items| ==> items[i].comp < scan.NumComps()
  }

  /** The component has no block from m + 1 to n - 1. */
  predicate NoneBetween(items: seq<Item>, m: int, n: nat, c: nat) {
    forall j :: 0 <= j < |items| && m < j < n ==> items[j].comp != c
  }

  function Abs(x: int): nat {
    if x < 0 then -x else x
  }

  /** The point transform of AC coefficients: division rounding toward zero. */
  function PointTransform(x: int, al: nat): int {
    if x >= 0 then x / Pow2(al) else -(-x / Pow2(al))
  }

  /** The last index up to k of a nonzero coefficient, or 0. */
  function LastNonzero(zz: seq<int>, k: nat): (ke: nat)
    requires k < |zz|
    ensures ke <= k && (ke > 0 ==> zz[ke] != 0)
    ensures forall i :: ke < i <= k ==> zz[i] == 0
  {
    if k == 0 || zz[k] != 0 then k else LastNonzero(zz, k - 1)
  }

  /** The DC value that a scan codes: an arithmetic right shift. */
  function DcValue(scan: Scan, b: Block): int {
    b[0] / Pow2(scan.al)
  }

  /** The coefficients of a block in zigzag order after the AC point transform. */
  function Zigzag(order: seq<nat>, block: Block, al: nat): (zz: seq<int>)
    requires OrderOk(order)
    ensures |zz| == 64
    ensures forall k :: 0 <= k < 64 ==> zz[k] == PointTransform(block[order[k]], al)
  {
    seq(64, k requires 0 <= k < 64 => PointTransform(block[order[k]], al))
  }

  /** A value cast to a 16-bit coefficient. */
  function ToCoef(x: int): Coef {
    (x + 0x8000) % 0x1_0000 - 0x8000
  }

  /** c | (1 << al) */
  function WithBit(c: Coef, al: nat): Coef {
    if c / Pow2(al) % 2 == 1 then c else ToCoef(c + Pow2(al))
  }

  /** In the band the block holds the coefficients of b at precision al. */
  ghost predicate Held(order: seq<nat>, was: seq<Coef>, b: Block, ss: nat, se: nat, al: nat)
    requires OrderOk(order) && |was| == 64 && se < 64
  {
    forall i :: ss <= i <= se ==> was[order[i]] == PointTransform(b[order[i]], al) * Pow2(al)
  }

  /** An AC refinement needs the band at the next coarser precision. */
  ghost predicate Prior(scan: Scan, was: seq<Coef>, b: Block)
    requires scan.Ok() && |was| == 64
  {
    scan.kind == AcRefine ==> Held(scan.order, was, b, scan.ss, scan.se, scan.al + 1)
  }

  /** What decoding makes of a block. */
  ghost function Decoded(scan: Scan, was: seq<Coef>, b: Block): (r: seq<Coef>)
    requires scan.Ok() && |was| == 64
    ensures |r| == 64
  {
    var zz := Zigzag(scan.order, b, scan.al);
    match scan.kind
    case Sequential =>
      var w := was[0 := ToCoef(DcValue(scan, b))];
      if scan.se == 0 then w else Placed(scan.order, w, zz, 1, scan.se, 0)
    case DcFirst => was[0 := ToCoef(DcValue(scan, b) * Pow2(scan.al))]
    case DcRefine => if DcValue(scan, b) % 2 == 1 then was[0 := WithBit(was[0], scan.al)] else was
    case AcFirst => Placed(scan.order, was, zz, scan.ss, scan.se, scan.al)
    case AcRefine => Placed(scan.order, was, zz, scan.ss, scan.se, scan.al)
  }

  /** The block was with the nonzero coefficients of zz from ss to k written over it. */
  ghost function Placed(order: seq<nat>, was: seq<Coef>, zz: seq<int>, ss: nat, k: int, al: nat): (b: seq<Coef>)
    requires |order| == 64 && |was| == 64 && |zz| == 64 && k < 64
    requires forall i :: 0 <= i < 64 ==> order[i] < 64
    ensures |b| == 64
    decreases k - ss
  {
    if k < ss then was
    else
      var b := Placed(order, was, zz, ss, k - 1, al);
      if zz[k] == 0 then b else b[order[k] := ToCoef(zz[k] * Pow2(al))]
  }

  // Arithmetic of coefficients.

  lemma DivBound(x: nat, p: nat)
    requires p >= 1
    ensures 0 <= x / p <= x
  {
    var q := x / p;
    assert x == p * q + x % p;
    if q < 0 {
      MulMono(q, -1, p);
    } else {
      MulMono(1, p, q);
    }
  }

  /** The arithmetic shift of a coefficient is one again. */
  lemma ShiftedCoef(x: Coef, al: nat)
    ensures -0x8000 <= x / Pow2(al) < 0x8000
  {
    var p, q := Pow2(al), x / Pow2(al);
    assert x == p * q + x % p;
    if q >= 0x8000 {
      MulMono(1, p, q);
    } else if q < -0x8000 {
      MulMono(q, -0x8001, p);
      MulMono(1, p, 0x8000);
    }
  }

  lemma PointTransformBound(x: Coef, al: nat)
    ensures Abs(PointTransform(x, al)) == Abs(x) / Pow2(al) <= Abs(x) <= 0x8000
    ensures PointTransform(x, al) != 0 ==> (PointTransform(x, al) < 0 <==> x < 0)
  {
    DivBound(Abs(x), Pow2(al));
  }

  lemma ZigzagBound(order: seq<nat>, b: Block, al: nat)
    requires OrderOk(order)
    ensures forall k :: 0 <= k < 64 ==> Abs(Zigzag(order, b, al)[k]) <= 0x8000
  {
    forall k | 0 <= k < 64
      ensures Abs(Zigzag(order, b, al)[k]) <= 0x8000
    {
      PointTransformBound(b[order[k]], al);
    }
  }

  lemma ToCoefExact(x: Coef)
    ensures ToCoef(x) == x
  {
  }

  lemma DoublePow(e: nat)
    ensures Pow2(e + 1) == 2 * Pow2(e)
  {
  }

  lemma Euclid(x: nat, p: nat)
    requires p >= 1
    ensures x == p * (x / p) + x % p && 0 <= x % p < p
  {
  }

  lemma DivTwice(x: nat, p: nat)
    requires p >= 1
    ensures x / (2 * p) == x / p / 2 && x / p >= 0
  {
    DivBound(x, p);
    var q, r := x / p, x % p;
    Euclid(x, p);
    var h, b := q / 2, q % 2;
    assert p * (2 * h + b) == (2 * p) * h + b * p;
    Remainder(x, 2 * p, h, b * p + r);
  }

  /** Dropping one more bit after the point transform is the point transform one bit coarser. */
  lemma CoarserTransform(x: int, al: nat)
    ensures PointTransform(x, al + 1) == Truncated(PointTransform(x, al))
  {
    DivTwice(Abs(x), Pow2(al));
    DoublePow(al);
  }

  lemma NonzeroProduct(x: int, p: int)
    requires p >= 1
    ensures x * p == 0 <==> x == 0
  {
    if x > 0 { MulMono(1, x, p); } else if x < 0 { MulMono(x, -1, p); }
  }

  // What an earlier scan leaves for a refinement.

  function Truncated(x: int): int {
    if x >= 0 then x / 2 else -(-x / 2)
  }

  /** In the band the block holds the coefficients zz without their lowest bit. */
  ghost predicate Refinable(order: seq<nat>, was: seq<Coef>, zz: seq<int>, ss: nat, se: nat, al: nat)
    requires |order| == 64 && |was| == 64 && |zz| == 64 && se < 64
    requires forall i :: 0 <= i < 64 ==> order[i] < 64
  {
    forall i :: ss <= i <= se ==> was[order[i]] == Truncated(zz[i]) * Pow2(al + 1)
  }

  /** kex is the last nonzero index in the band, or below the band if there is none. */
  ghost predicate SameLast(order: seq<nat>, was: seq<Coef>, ss: nat, se: nat, kex: nat)
    requires |order| == 64 && |was| == 64 && se < 64
    requires forall i :: 0 <= i < 64 ==> order[i] < 64
  {
    && (forall i :: kex < i <= se && ss <= i ==> was[order[i]] == 0)
    && (ss <= kex ==> kex <= se && was[order[kex]] != 0)
  }

  /** What an earlier scan left is what the refinement relies on: the coefficients without
      their lowest bit, and the same previous end of block on both sides. */
  lemma PriorRefines(scan: Scan, was: seq<Coef>, b: Block)
    requires scan.Ok() && scan.kind == AcRefine && |was| == 64 && Prior(scan, was, b)
    ensures Refinable(scan.order, was, Zigzag(scan.order, b, scan.al), scan.ss, scan.se, scan.al)
    ensures SameLast(scan.order, was, scan.ss, scan.se,
                     LastNonzero(Zigzag(scan.order, b, scan.al + 1),
                                 LastNonzero(Zigzag(scan.order, b, scan.al), scan.se)))
  {
    var zz, zx := Zigzag(scan.order, b, scan.al), Zigzag(scan.order, b, scan.al + 1);
    forall i | 0 <= i < 64
      ensures zx[i] == Truncated(zz[i])
    {
      CoarserTransform(b[scan.order[i]], scan.al);
    }
    forall i | scan.ss <= i <= scan.se
      ensures was[scan.order[i]] == zx[i] * Pow2(scan.al + 1)
      ensures was[scan.order[i]] == 0 <==> zx[i] == 0
    {
      NonzeroProduct(zx[i], Pow2(scan.al + 1));
    }
  }

  /** What was nonzero before the scan is nonzero after it. */
  lemma LastIsCoded(order: seq<nat>, was: seq<Coef>, zz: seq<int>, ss: nat, se: nat, al: nat, kex: nat)
    requires |order| == 64 && |was| == 64 && |zz| == 64 && se < 64
    requires forall i :: 0 <= i < 64 ==> order[i] < 64
    requires Refinable(order, was, zz, ss, se, al) && SameLast(order, was, ss, se, kex)
    ensures kex < ss || kex <= LastNonzero(zz, se)
  {
    if ss <= kex {
      assert was[order[kex]] == Truncated(zz[kex]) * Pow2(al + 1);
      assert zz[kex] != 0;
    }
  }

  /** Not yet reached coefficients are as they were; what is there tells whether a
      correction bit or a new coefficient comes, and either makes it zz at precision al. */
  lemma RefinedCoef(order: seq<nat>, was: seq<Coef>, zz: seq<int>, ss: nat, se: nat, k: nat, al: nat)
    requires |order| == 64 && |was| == 64 && |zz| == 64 && 1 <= ss <= k <= se < 64
    requires forall i :: 0 <= i < 64 ==> order[i] < 64
    requires forall i, j :: 0 <= i < j < 64 ==> order[i] != order[j]
    requires Refinable(order, was, zz, ss, se, al)
    ensures var b, c, p := Placed(order, was, zz, ss, k - 1, al), was[order[k]], Pow2(al) as int;
            && b[order[k]] == c
            && (c != 0 <==> Abs(zz[k]) >= 2)
            && (c != 0 && Abs(zz[k]) % 2 == 1 ==> (if c < 0 then c - p else c + p) == zz[k] * p)
            && (c != 0 && Abs(zz[k]) % 2 == 0 ==> ToCoef(zz[k] * p) == c)
            && (zz[k] == 1 ==> zz[k] * p == p) && (zz[k] == -1 ==> zz[k] * p == -p)
            && Placed(order, was, zz, ss, k, al) == (if zz[k] == 0 then b else b[order[k] := ToCoef(zz[k] * p)])
            && (ToCoef(zz[k] * p) == c ==> b[order[k] := ToCoef(zz[k] * p)] == b)
  {
    PlacedUntouched(order, was, zz, ss, k - 1, k, al);
    var p := Pow2(al);
    assert Pow2(al + 1) == 2 * p;
    RefinedValue(zz[k], p, was[order[k]]);
    ToCoefExact(was[order[k]]);
  }

  lemma RefinedValue(z: int, p: int, c: int)
    requires p >= 1 && c == Truncated(z) * (2 * p)
    ensures c != 0 <==> Abs(z) >= 2
    ensures c < 0 <==> z <= -2
    ensures Abs(z) >= 2 ==> z * p == c + if Abs(z) % 2 == 0 then 0 else if c < 0 then -p else p
  {
    var t, b := Truncated(z), if Abs(z) % 2 == 0 then 0 else if z < 0 then -1 else 1;
    assert z == 2 * t + b;
    assert (2 * t + b) * p == t * (2 * p) + b * p;
    if t > 0 { MulMono(1, t, 2 * p); } else if t < 0 { MulMono(t, -1, 2 * p); }
  }

  lemma {:induction false} PlacedUntouched(order: seq<nat>, was: seq<Coef>, zz: seq<int>, ss: nat, k: int, j: nat,
                                           al: nat)
    requires |order| == 64 && |was| == 64 && |zz| == 64 && k < j < 64
    requires forall i :: 0 <= i < 64 ==> order[i] < 64
    requires forall i, j :: 0 <= i < j < 64 ==> order[i] != order[j]
    ensures Placed(order, was, zz, ss, k, al)[order[j]] == was[order[j]]
    decreases k - ss
  {
    if k >= ss {
      PlacedUntouched(order, was, zz, ss, k - 1, j, al);
    }
  }

  lemma PlacedStart(order: seq<nat>, was: seq<Coef>, zz: seq<int>, ss: nat, al: nat)
    requires |order| == 64 && |was| == 64 && |zz| == 64 && 1 <= ss < 64
    requires forall i :: 0 <= i < 64 ==> order[i] < 64
    ensures Placed(order, was, zz, ss, ss - 1, al) == was
  {
  }

  lemma {:induction false} PlacedZeros(order: seq<nat>, was: seq<Coef>, zz: seq<int>, ss: nat, k: int, se: int, al: nat)
    requires |order| == 64 && |was| == 64 && |zz| == 64 && 1 <= ss && ss - 1 <= k <= se < 64
    requires forall i :: 0 <= i < 64 ==> order[i] < 64
    requires AllZero(zz, k + 1, se + 1)
    ensures Placed(order, was, zz, ss, se, al) == Placed(order, was, zz, ss, k, al)
    decreases se - k
  {
    if k < se {
      PlacedZeros(order, was, zz, ss, k, se - 1, al);
    }
  }

  lemma PlacedNext(order: seq<nat>, was: seq<Coef>, zz: seq<int>, ss: nat, k0: int, k: int, al: nat)
    requires |order| == 64 && |was| == 64 && |zz| == 64 && 1 <= ss && ss - 1 <= k0 < k < 64
    requires forall i :: 0 <= i < 64 ==> order[i] < 64
    requires AllZero(zz, k0 + 1, k) && zz[k] != 0
    ensures Placed(order, was, zz, ss, k, al) ==
            Placed(order, was, zz, ss, k0, al)[order[k] := ToCoef(zz[k] * Pow2(al))]
  {
    PlacedZeros(order, was, zz, ss, k0, k - 1, al);
  }

  ghost predicate AllZero(zz: seq<int>, lo: nat, hi: nat)
    requires hi <= |zz|
  {
    forall i :: lo <= i < hi ==> zz[i] == 0
  }

  lemma AllZeroStart(zz: seq<int>, k: nat)
    requires k <= |zz|
    ensures AllZero(zz, k, k)
  {
  }

  lemma AllZeroStep(zz: seq<int>, lo: nat, hi: nat)
    requires hi < |zz| && AllZero(zz, lo, hi) && zz[hi] == 0
    ensures AllZero(zz, lo, hi + 1)
  {
  }
}
