/** Which blocks the MCUs of a scan consist of, in which order, for a frame of given size and
    sampling factors. */
module McuLayout {
  import opened Bits

  /** Sampling factors, and the size in blocks. */
  datatype Comp = Comp(h: int, v: int, width: int, height: int)

  /** The size in interleaved MCUs, and the components. */
  datatype Frame = Frame(across: int, down: int, comps: seq<Comp>) {
    ghost predicate Ok() {
      across >= 1 && down >= 1 && forall c :: 0 <= c < |comps| ==> Fits(comps[c], across, down)
    }
  }

  /** The component ends within the last column and the last row of MCUs. */
  ghost predicate Fits(c: Comp, across: int, down: int) {
    && c.h >= 1 && c.v >= 1
    && (across - 1) * c.h < c.width <= across * c.h
    && (down - 1) * c.v < c.height <= down * c.v
  }

  function DivRoundUp(a: int, b: int): int
    requires b > 0
  {
    (a + b - 1) / b
  }

  lemma RoundedUp(a: int, b: int)
    requires b > 0
    ensures (DivRoundUp(a, b) - 1) * b < a <= DivRoundUp(a, b) * b
  {
    var q := DivRoundUp(a, b);
    assert a + b - 1 == b * q + (a + b - 1) % b;
  }

  /** The rounded-up divisions of the image size by the size of an MCU, and of the size of a
      component by that of a block, agree. */
  lemma SizesAgree(size: int, factor: int, unit: int)
    requires size >= 1 && factor >= 1 && unit >= 1
    ensures var n, blocks := DivRoundUp(size, unit), DivRoundUp(size * factor, unit);
            n >= 1 && (n - 1) * factor < blocks <= n * factor
  {
    var n, blocks := DivRoundUp(size, unit), DivRoundUp(size * factor, unit);
    RoundedUp(size, unit);
    RoundedUp(size * factor, unit);
    hide DivRoundUp;
    if n <= 0 {
      MulMono(n, 0, unit);
      assert false;
    }
    MulMonoStrict((n - 1) * unit, size, factor);
    MulMono(size, n * unit, factor);
    Exchange(n - 1, unit, factor);
    Exchange(n, unit, factor);
    if blocks <= (n - 1) * factor {
      MulMono(blocks, (n - 1) * factor, unit);
      assert false;
    }
    if blocks > n * factor {
      MulMono(n * factor, blocks - 1, unit);
      assert false;
    }
  }

  lemma Exchange(a: int, b: int, c: int)
    ensures a * b * c == a * c * b
  {
  }

  /** What the frame header's numbers give. */
  lemma FrameFits(width: int, height: int, maxH: int, maxV: int, blockSize: int, h: int, v: int)
    requires width >= 1 && height >= 1 && maxH >= 1 && maxV >= 1 && blockSize >= 1 && h >= 1 && v >= 1
    ensures maxH * blockSize >= 1 && maxV * blockSize >= 1
    ensures Fits(Comp(h, v, DivRoundUp(width * h, maxH * blockSize), DivRoundUp(height * v, maxV * blockSize)),
                 DivRoundUp(width, maxH * blockSize), DivRoundUp(height, maxV * blockSize))
  {
    MulMono(1, maxH, blockSize);
    MulMono(1, maxV, blockSize);
    SizesAgree(width, h, maxH * blockSize);
    SizesAgree(height, v, maxV * blockSize);
  }

  // What is left for the last of some equal parts.

  function Rest(a: int, b: int): int
    requires b >= 1
  {
    if a % b == 0 then b else a % b
  }

  lemma RestIs(a: int, b: int, n: int)
    requires b >= 1 && (n - 1) * b < a <= n * b
    ensures Rest(a, b) == a - (n - 1) * b && 1 <= Rest(a, b) <= b
  {
    var r := a - (n - 1) * b;
    assert n * b == (n - 1) * b + b;
    if r == b {
      Remainder(a, b, n, 0);
    } else {
      Remainder(a, b, n - 1, r);
    }
  }

  /** Sample rows come in groups, and these in iMCU rows of m groups. The size of a component is
      rounded up on its own; still all components have the same number of iMCU rows, and of row
      groups in the last one. */
  lemma GroupsInLast(rows: int, unit: int, m: int, rgroup: int)
    requires rows >= 1 && unit >= 1 && m >= 1 && rgroup >= 1
    ensures var groups, height := DivRoundUp(rows, unit), DivRoundUp(rows * rgroup, unit);
            && m * rgroup >= 1 && groups >= 1 && height >= 1
            && DivRoundUp(height, m * rgroup) == DivRoundUp(groups, m)
            && (Rest(height, m * rgroup) - 1) / rgroup + 1 == Rest(groups, m)
  {
    var groups, height := DivRoundUp(rows, unit), DivRoundUp(rows * rgroup, unit);
    var n := DivRoundUp(groups, m);
    SizesAgree(rows, rgroup, unit);
    RoundedUp(groups, m);
    hide DivRoundUp;
    RestIs(groups, m, n);
    MulMono(1, m, rgroup);
    MulMono(0, groups - 1, rgroup);
    Scaled(groups, height, m, rgroup, n);
    RoundUpIs(height, m * rgroup, n);
    RestIs(height, m * rgroup, n);
    Remainder(Rest(height, m * rgroup) - 1, rgroup, Rest(groups, m) - 1,
              Rest(height, m * rgroup) - 1 - (Rest(groups, m) - 1) * rgroup);
  }

  lemma Scaled(groups: int, height: int, m: int, rgroup: int, n: int)
    requires rgroup >= 1 && (n - 1) * m < groups <= n * m && (groups - 1) * rgroup < height <= groups * rgroup
    ensures (n - 1) * (m * rgroup) < height <= n * (m * rgroup)
    ensures var g := groups - (n - 1) * m;
            (g - 1) * rgroup < height - (n - 1) * (m * rgroup) <= g * rgroup
    ensures (groups - (n - 1) * m - 1) * rgroup + rgroup == (groups - (n - 1) * m) * rgroup
  {
    MulMono((n - 1) * m, groups - 1, rgroup);
    MulMono(groups, n * m, rgroup);
    Exchanged(n - 1, m, rgroup);
    Exchanged(n, m, rgroup);
    Distributed(groups, (n - 1) * m, rgroup);
    Distributed(groups - 1, (n - 1) * m, rgroup);
    Distributed(groups - (n - 1) * m, 1, rgroup);
  }

  lemma Exchanged(a: int, b: int, c: int)
    ensures a * b * c == a * (b * c)
  {
  }

  lemma Distributed(a: int, b: int, c: int)
    ensures (a - b) * c == a * c - b * c
  {
  }

  lemma RoundUpIs(a: int, b: int, n: int)
    requires b >= 1 && (n - 1) * b < a <= n * b
    ensures DivRoundUp(a, b) == n
  {
    assert n * b == (n - 1) * b + b;
    Remainder(a + b - 1, b, n, a - 1 - (n - 1) * b);
  }

  // The MCUs of a scan.

  /** A block: component within the scan, row, and column. */
  datatype Cell = Cell(comp: nat, row: int, col: int)

  /** The component's block in an MCU: with one component it is a single one. */
  function McuWidth(f: Frame, ids: seq<nat>, i: nat): int
    requires i < |ids| && ids[i] < |f.comps|
  {
    if |ids| == 1 then 1 else f.comps[ids[i]].h
  }

  function McuHeight(f: Frame, ids: seq<nat>, i: nat): int
    requires i < |ids| && ids[i] < |f.comps|
  {
    if |ids| == 1 then 1 else f.comps[ids[i]].v
  }

  predicate InFrame(f: Frame, ids: seq<nat>) {
    ids != [] && forall i :: 0 <= i < |ids| ==> ids[i] < |f.comps|
  }

  function McusPerRow(f: Frame, ids: seq<nat>): int
    requires InFrame(f, ids)
  {
    if |ids| == 1 then f.comps[ids[0]].width else f.across
  }

  function McuRows(f: Frame, ids: seq<nat>): int
    requires InFrame(f, ids)
  {
    if |ids| == 1 then f.comps[ids[0]].height else f.down
  }

  /** The blocks of one component in the MCU at (row, col), row by row. */
  function CompCells(f: Frame, ids: seq<nat>, i: nat, row: int, col: int): (cells: seq<Cell>)
    requires f.Ok() && InFrame(f, ids) && i < |ids|
    ensures var w, h := McuWidth(f, ids, i), McuHeight(f, ids, i);
            w >= 1 && h >= 1 && |cells| == h * w &&
            forall k :: 0 <= k < |cells| ==> cells[k] == Cell(i, row * h + k / w, col * w + k % w)
  {
    var w, h := McuWidth(f, ids, i), McuHeight(f, ids, i);
    assert Fits(f.comps[ids[i]], f.across, f.down);
    MulMono(0, h, w);
    seq(h * w, k requires 0 <= k < h * w => Cell(i, row * h + k / w, col * w + k % w))
  }

  /** The blocks of the first n components. */
  function McuCells(f: Frame, ids: seq<nat>, n: nat, row: int, col: int): seq<Cell>
    requires f.Ok() && InFrame(f, ids) && n <= |ids|
  {
    if n == 0 then [] else McuCells(f, ids, n - 1, row, col) + CompCells(f, ids, n - 1, row, col)
  }
}
