/** The layout of a scan that the controllers follow is one in which every real block of the
    scan's components occurs once. */
module ScanLayout {
  import opened Bits
  import opened McuLayout
  import opened ScanScript
  import opened Transmission

  /** Blocks are numbered row by row, dummy blocks included. */
  function Stride(f: Frame, c: nat): int
    requires c < |f.comps|
  {
    f.across * f.comps[c].h
  }

  function Number(f: Frame, c: nat, row: int, col: int): int
    requires c < |f.comps|
  {
    row * Stride(f, c) + col
  }

  /** The cell is one of component c's, dummy blocks included. */
  ghost predicate Exists(f: Frame, c: nat, row: int, col: int)
    requires c < |f.comps|
  {
    0 <= row < f.down * f.comps[c].v && 0 <= col < Stride(f, c)
  }

  lemma NumberWithin(f: Frame, c: nat, row: int, col: int)
    requires c < |f.comps| && Exists(f, c, row, col)
    ensures 0 <= Number(f, c, row, col) < f.down * f.comps[c].v * Stride(f, c)
  {
    MulMono(0, row, Stride(f, c));
    MulMono(row + 1, f.down * f.comps[c].v, Stride(f, c));
    assert (row + 1) * Stride(f, c) == row * Stride(f, c) + Stride(f, c);
  }

  lemma NumberIsUnique(f: Frame, c: nat, row: int, col: int, row': int, col': int)
    requires c < |f.comps| && Exists(f, c, row, col) && Exists(f, c, row', col')
    requires Number(f, c, row, col) == Number(f, c, row', col')
    ensures row == row' && col == col'
  {
    Remainder(Number(f, c, row, col), Stride(f, c), row, col);
    Remainder(Number(f, c, row, col), Stride(f, c), row', col');
  }

  /** A cell of the MCU at (row, col) tells where that MCU is. */
  ghost predicate Belongs(f: Frame, ids: seq<nat>, cell: Cell, row: int, col: int)
    requires InFrame(f, ids)
  {
    && cell.comp < |ids| && McuHeight(f, ids, cell.comp) >= 1 && McuWidth(f, ids, cell.comp) >= 1
    && cell.row / McuHeight(f, ids, cell.comp) == row && cell.col / McuWidth(f, ids, cell.comp) == col
    && Exists(f, ids[cell.comp], cell.row, cell.col)
    && (|ids| == 1 ==> cell.row < f.comps[ids[0]].height && cell.col < f.comps[ids[0]].width)
  }

  lemma CellBelongs(f: Frame, ids: seq<nat>, i: nat, row: int, col: int, k: nat)
    requires f.Ok() && InFrame(f, ids) && i < |ids| && 0 <= row < McuRows(f, ids) && 0 <= col < McusPerRow(f, ids)
    requires k < |CompCells(f, ids, i, row, col)|
    ensures Belongs(f, ids, CompCells(f, ids, i, row, col)[k], row, col)
  {
    var w, h := McuWidth(f, ids, i), McuHeight(f, ids, i);
    var c := f.comps[ids[i]];
    assert Fits(c, f.across, f.down);
    var y, x := k / w, k % w;
    KInside(k, w, h);
    Remainder(row * h + y, h, row, y);
    Remainder(col * w + x, w, col, x);
    MulMono(0, row, h);
    MulMono(0, col, w);
    if |ids| > 1 {
      MulMono(row + 1, f.down, h);
      MulMono(col + 1, f.across, w);
      assert (row + 1) * h == row * h + h && (col + 1) * w == col * w + w;
    }
  }

  lemma KInside(k: nat, w: int, h: int)
    requires w >= 1 && k < h * w
    ensures 0 <= k / w < h && 0 <= k % w < w && k == w * (k / w) + k % w
  {
    var q := k / w;
    assert k == w * q + k % w;
    if q >= h {
      MulMono(h, q, w);
      assert false;
    }
  }

  ghost predicate AllBelong(f: Frame, ids: seq<nat>, cells: seq<Cell>, row: int, col: int)
    requires InFrame(f, ids)
  {
    forall b :: 0 <= b < |cells| ==> Belongs(f, ids, cells[b], row, col)
  }

  ghost predicate NoTwice(cells: seq<Cell>) {
    forall b, d :: 0 <= b < d < |cells| ==> cells[b] != cells[d]
  }

  lemma {:induction false} McuIsProper(f: Frame, ids: seq<nat>, n: nat, row: int, col: int)
    requires f.Ok() && InFrame(f, ids) && n <= |ids| && 0 <= row < McuRows(f, ids) && 0 <= col < McusPerRow(f, ids)
    ensures var cells := McuCells(f, ids, n, row, col);
            AllBelong(f, ids, cells, row, col) && NoTwice(cells) && forall b :: 0 <= b < |cells| ==> cells[b].comp < n
    ensures |ids| == 1 && n == 1 ==> |McuCells(f, ids, n, row, col)| == 1
  {
    hide Belongs;
    if n != 0 {
      McuIsProper(f, ids, n - 1, row, col);
      var before, cells := McuCells(f, ids, n - 1, row, col), CompCells(f, ids, n - 1, row, col);
      var w, h := McuWidth(f, ids, n - 1), McuHeight(f, ids, n - 1);
      forall b | 0 <= b < |cells|
        ensures Belongs(f, ids, cells[b], row, col)
      {
        CellBelongs(f, ids, n - 1, row, col, b);
      }
      forall b, d | 0 <= b < d < |cells|
        ensures cells[b] != cells[d]
      {
        KInside(b, w, h);
        KInside(d, w, h);
      }
      var all := McuCells(f, ids, n, row, col);
      assert all == before + cells;
      forall b | 0 <= b < |all|
        ensures Belongs(f, ids, all[b], row, col) && all[b].comp < n
      {
        assert all[b] == if b < |before| then before[b] else cells[b - |before|];
      }
    }
  }

  /** The MCU at (row, col) has the block at place (y, x) of component i. */
  lemma {:induction false} CellIsThere(f: Frame, ids: seq<nat>, n: nat, i: nat, row: int, col: int, y: int, x: int)
    requires f.Ok() && InFrame(f, ids) && i < n <= |ids|
    requires 0 <= y < McuHeight(f, ids, i) && 0 <= x < McuWidth(f, ids, i)
    ensures Cell(i, row * McuHeight(f, ids, i) + y, col * McuWidth(f, ids, i) + x) in McuCells(f, ids, n, row, col)
  {
    if i < n - 1 {
      CellIsThere(f, ids, n - 1, i, row, col, y, x);
    } else {
      var w, h := McuWidth(f, ids, i), McuHeight(f, ids, i);
      Remainder(y * w + x, w, y, x);
      MulMono(0, y, w);
      MulMono(y + 1, h, w);
      assert (y + 1) * w == y * w + w;
      assert CompCells(f, ids, i, row, col)[y * w + x] in CompCells(f, ids, i, row, col);
    }
  }

  // The layout of a whole scan.

  /** The layout lists the MCUs row by row. */
  ghost predicate LaysOut(f: Frame, ids: seq<nat>, l: Layout)
    requires f.Ok() && InFrame(f, ids)
  {
    && McusPerRow(f, ids) >= 1 && |l| == McuRows(f, ids) * McusPerRow(f, ids)
    && forall n :: 0 <= n < |l| ==> IsMcu(f, ids, l[n], n / McusPerRow(f, ids), n % McusPerRow(f, ids))
  }

  ghost predicate IsMcu(f: Frame, ids: seq<nat>, places: seq<(nat, nat)>, row: int, col: int)
    requires f.Ok() && InFrame(f, ids)
  {
    var cells := McuCells(f, ids, |ids|, row, col);
    && |places| == |cells|
    && forall b :: 0 <= b < |cells| ==>
         cells[b].comp < |ids| && (places[b].0, places[b].1 as int) ==
           (cells[b].comp, Number(f, ids[cells[b].comp], cells[b].row, cells[b].col))
  }

  /** The real blocks of a component. */
  ghost function RealBlocks(f: Frame, c: nat): set<nat>
    requires c < |f.comps|
  {
    set x: nat | x < f.down * f.comps[c].v * Stride(f, c) && IsReal(f, c, x)
  }

  ghost predicate IsReal(f: Frame, c: nat, x: nat)
    requires c < |f.comps|
  {
    exists row, col :: 0 <= row < f.comps[c].height && 0 <= col < f.comps[c].width && x == Number(f, c, row, col)
  }

  lemma Coordinates(f: Frame, ids: seq<nat>, n: int)
    requires f.Ok() && InFrame(f, ids) && McusPerRow(f, ids) >= 1 && 0 <= n < McuRows(f, ids) * McusPerRow(f, ids)
    ensures 0 <= n / McusPerRow(f, ids) < McuRows(f, ids) && 0 <= n % McusPerRow(f, ids) < McusPerRow(f, ids)
    ensures n == McusPerRow(f, ids) * (n / McusPerRow(f, ids)) + n % McusPerRow(f, ids)
  {
    KInside(n, McusPerRow(f, ids), McuRows(f, ids));
  }

  /** No block is visited twice. */
  lemma NeverTwice(f: Frame, ids: seq<nat>, l: Layout, j: nat, b: nat, k: nat, d: nat)
    requires f.Ok() && InFrame(f, ids) && LaysOut(f, ids, l) && j < |l| && k < |l| && b < |l[j]| && d < |l[k]|
    requires l[j][b] == l[k][d]
    ensures j == k && b == d
  {
    hide McuCells, Exists, Number;
    var cols := McusPerRow(f, ids);
    Coordinates(f, ids, j);
    Coordinates(f, ids, k);
    McuIsProper(f, ids, |ids|, j / cols, j % cols);
    McuIsProper(f, ids, |ids|, k / cols, k % cols);
    assert IsMcu(f, ids, l[j], j / cols, j % cols) && IsMcu(f, ids, l[k], k / cols, k % cols);
    var p, q := McuCells(f, ids, |ids|, j / cols, j % cols)[b], McuCells(f, ids, |ids|, k / cols, k % cols)[d];
    assert Belongs(f, ids, p, j / cols, j % cols) && Belongs(f, ids, q, k / cols, k % cols);
    NumberIsUnique(f, ids[p.comp], p.row, p.col, q.row, q.col);
  }

  /** Every real block is visited. */
  lemma AlwaysVisited(f: Frame, ids: seq<nat>, l: Layout, i: nat, x: nat)
    requires f.Ok() && InFrame(f, ids) && LaysOut(f, ids, l) && i < |ids| && x in RealBlocks(f, ids[i])
    ensures Visits(l, i, x)
  {
    hide McuCells, Number;
    var c := ids[i];
    assert IsReal(f, c, x);
    var row, col :| 0 <= row < f.comps[c].height && 0 <= col < f.comps[c].width && x == Number(f, c, row, col);
    var w, h, cols := McuWidth(f, ids, i), McuHeight(f, ids, i), McusPerRow(f, ids);
    assert Fits(f.comps[c], f.across, f.down);
    InsideBands(row, h, McuRows(f, ids), f.comps[c].height);
    InsideBands(col, w, cols, f.comps[c].width);
    CellIsThere(f, ids, |ids|, i, row / h, col / w, row % h, col % w);
    MulMono(row / h + 1, McuRows(f, ids), cols);
    MulMono(0, row / h, cols);
    assert (row / h + 1) * cols == row / h * cols + cols;
    var n := row / h * cols + col / w;
    Remainder(n, cols, row / h, col / w);
    assert IsMcu(f, ids, l[n], row / h, col / w);
    var cells := McuCells(f, ids, |ids|, row / h, col / w);
    var b :| 0 <= b < |cells| && cells[b] == Cell(i, row / h * h + row % h, col / w * w + col % w);
    assert l[n][b] == (i, x);
  }

  /** A block row or column is in one of the bands of so many. */
  lemma InsideBands(r: int, h: int, bands: int, size: int)
    requires h >= 1 && 0 <= r < size && size <= bands * h
    ensures 0 <= r / h < bands && 0 <= r % h < h && r == r / h * h + r % h
  {
    KInside(r, h, bands);
  }

  lemma BlockExists(f: Frame, ids: seq<nat>, l: Layout, j: nat, b: nat)
    requires f.Ok() && InFrame(f, ids) && LaysOut(f, ids, l) && j < |l| && b < |l[j]|
    ensures l[j][b].0 < |ids|
    ensures var c := ids[l[j][b].0];
            l[j][b].1 < f.down * f.comps[c].v * Stride(f, c)
              && (|ids| == 1 ==> |l[j]| == 1 && l[j][b].1 in RealBlocks(f, c))
  {
    hide McuCells;
    var cols := McusPerRow(f, ids);
    Coordinates(f, ids, j);
    McuIsProper(f, ids, |ids|, j / cols, j % cols);
    assert IsMcu(f, ids, l[j], j / cols, j % cols);
    var cell := McuCells(f, ids, |ids|, j / cols, j % cols)[b];
    assert Belongs(f, ids, cell, j / cols, j % cols);
    NumberWithin(f, ids[cell.comp], cell.row, cell.col);
    if |ids| == 1 {
      assert cell.row >= 0 && cell.col >= 0;
      assert IsReal(f, ids[0], l[j][b].1);
    }
  }

  lemma OneBlock(f: Frame, ids: seq<nat>, l: Layout, j: nat)
    requires f.Ok() && InFrame(f, ids) && LaysOut(f, ids, l) && j < |l| && |ids| == 1
    ensures |l[j]| == 1
  {
    hide McuCells;
    var cols := McusPerRow(f, ids);
    Coordinates(f, ids, j);
    McuIsProper(f, ids, 1, j / cols, j % cols);
    assert IsMcu(f, ids, l[j], j / cols, j % cols);
  }

  ghost predicate SameScan(f: Frame, s: ScanInfo, ids: seq<nat>, image: Image, inside: seq<set<nat>>) {
    && |s.comps| == |ids| && (forall i :: 0 <= i < |ids| ==> s.comps[i] == ids[i])
    && |image| == |inside| == |f.comps|
    && (forall c :: 0 <= c < |f.comps| ==>
          |image[c]| == f.down * f.comps[c].v * Stride(f, c) && inside[c] == RealBlocks(f, c))
  }

  lemma LayoutInImage(f: Frame, s: ScanInfo, ids: seq<nat>, image: Image, inside: seq<set<nat>>, l: Layout)
    requires f.Ok() && InFrame(f, ids) && LaysOut(f, ids, l) && SameScan(f, s, ids, image, inside)
    ensures InImage(s, image, l)
    ensures |ids| == 1 ==> forall j :: 0 <= j < |l| ==> |l[j]| == 1 && l[j][0].1 in inside[s.comps[l[j][0].0]]
  {
    hide McuCells, RealBlocks, Stride, LaysOut, McusPerRow, McuRows;
    forall j, b | 0 <= j < |l| && 0 <= b < |l[j]|
      ensures l[j][b].0 < |ids| && l[j][b].1 < |image[s.comps[l[j][b].0]]|
    {
      BlockExists(f, ids, l, j, b);
    }
    if |ids| == 1 {
      forall j | 0 <= j < |l|
        ensures |l[j]| == 1 && l[j][0].1 in inside[s.comps[l[j][0].0]]
      {
        OneBlock(f, ids, l, j);
        BlockExists(f, ids, l, j, 0);
      }
    }
  }

  lemma LayoutNeverRevisits(f: Frame, ids: seq<nat>, l: Layout)
    requires f.Ok() && InFrame(f, ids) && LaysOut(f, ids, l)
    ensures NoRevisits(l)
  {
    hide McuCells, LaysOut, McusPerRow, McuRows;
    forall j, b, d | 0 <= j < |l| && 0 <= b < d < |l[j]|
      ensures l[j][b] != l[j][d]
    {
      if l[j][b] == l[j][d] {
        NeverTwice(f, ids, l, j, b, j, d);
      }
    }
    forall j, k, b, d | 0 <= j < k < |l| && 0 <= b < |l[j]| && 0 <= d < |l[k]|
      ensures l[j][b] != l[k][d]
    {
      if l[j][b] == l[k][d] {
        NeverTwice(f, ids, l, j, b, k, d);
      }
    }
  }

  /** So the controllers' layout is one that the transmission of a scan may have. */
  lemma ControllersLayout(f: Frame, s: ScanInfo, ids: seq<nat>, image: Image, inside: seq<set<nat>>, l: Layout)
    requires f.Ok() && InFrame(f, ids) && LaysOut(f, ids, l) && SameScan(f, s, ids, image, inside)
    requires s.ss != 0 ==> |ids| == 1
    ensures LayoutOk(s, image, inside, l)
  {
    hide InImage, NoRevisits, Visits, LaysOut, RealBlocks, Stride;
    LayoutInImage(f, s, ids, image, inside, l);
    LayoutNeverRevisits(f, ids, l);
    forall i, x | 0 <= i < |s.comps| && x in inside[s.comps[i]]
      ensures Visits(l, i, x)
    {
      AlwaysVisited(f, ids, l, i, x);
    }
  }
}
