/** The coefficient controllers of the compressor: blocks are passed to the entropy coder MCU by
    MCU, straight from the DCT, by way of a buffer for the whole image, or from arrays supplied
    by a transcoder. All three make up the dummy blocks at the edges in the same way. */
module CoefControllers {
  import opened Bits
  import opened Scans
  import opened McuLayout

  /** No AC coefficients, and the given DC value. */
  function Dummy(dc: Coef): Block {
    seq(64, k => if k == 0 then dc else 0)
  }

  /** The real block, or the dummy one, at a place within the MCUs that cover the component. */
  function Padded(c: Comp, data: (nat, int, int) -> Block, id: nat, row: int, col: int): Block
    requires c.h >= 1 && c.width >= 1 && c.height >= 1
    decreases if row < c.height then 0 else row - c.height + 1
  {
    if row < c.height then if col < c.width then data(id, row, col) else Dummy(data(id, row, c.width - 1)[0])
    else Dummy(Padded(c, data, id, row - 1, col / c.h * c.h + (c.h - 1))[0])
  }

  /** A dummy block beside the image has the DC value of the block before it, and no AC coefficients. */
  lemma RightDummy(c: Comp, data: (nat, int, int) -> Block, id: nat, row: int, col: int)
    requires c.h >= 1 && c.width >= 1 && c.height >= 1 && row < c.height && col >= c.width
    ensures Padded(c, data, id, row, col) == Dummy(Padded(c, data, id, row, col - 1)[0])
    ensures Padded(c, data, id, row, col)[0] == Padded(c, data, id, row, col - 1)[0]
    ensures forall j :: 1 <= j < 64 ==> Padded(c, data, id, row, col)[j] == 0
  {
  }

  /** One below the image has the DC value of the last block of the row above in its MCU. */
  lemma BottomDummy(c: Comp, data: (nat, int, int) -> Block, id: nat, row: int, mcu: int, x: int)
    requires c.h >= 1 && c.width >= 1 && c.height >= 1 && row >= c.height && 0 <= x < c.h
    ensures Padded(c, data, id, row, mcu * c.h + x) == Dummy(Padded(c, data, id, row - 1, mcu * c.h + (c.h - 1))[0])
    ensures Padded(c, data, id, row, mcu * c.h + x)[0] == Padded(c, data, id, row - 1, mcu * c.h + (c.h - 1))[0]
    ensures var b := Padded(c, data, id, row, mcu * c.h + x); forall j :: 1 <= j < 64 ==> b[j] == 0
    ensures x > 0 ==> Padded(c, data, id, row, mcu * c.h + x) == Dummy(Padded(c, data, id, row, mcu * c.h + (x - 1))[0])
  {
    Remainder(mcu * c.h + x, c.h, mcu, x);
    if x > 0 {
      Remainder(mcu * c.h + (x - 1), c.h, mcu, x - 1);
    }
  }

  /** The frame, the components of a scan, and their blocks. */
  datatype Source = Source(f: Frame, ids: seq<nat>, data: (nat, int, int) -> Block) {
    ghost predicate Ok() {
      && f.Ok() && InFrame(f, ids)
      && forall c :: 0 <= c < |f.comps| ==> f.comps[c].width >= 1 && f.comps[c].height >= 1
    }

    function At(i: nat): Comp
      requires InFrame(f, ids) && i < |ids|
    {
      f.comps[ids[i]]
    }

    ghost function BlockAt(cell: Cell): Block
      requires Ok() && cell.comp < |ids|
    {
      assert Fits(At(cell.comp), f.across, f.down);
      Padded(At(cell.comp), data, ids[cell.comp], cell.row, cell.col)
    }

    ghost predicate InScan(cells: seq<Cell>) {
      forall k :: 0 <= k < |cells| ==> cells[k].comp < |ids|
    }

    ghost function Contents(cells: seq<Cell>): (blocks: seq<Block>)
      requires Ok() && InScan(cells)
      ensures |blocks| == |cells|
    {
      seq(|cells|, k requires 0 <= k < |cells| => BlockAt(cells[k]))
    }
  }

  // One MCU.

  /** Everything of the first i components of the MCU, and the next k blocks. */
  ghost function Part(s: Source, i: nat, row: int, col: int, k: nat): (cells: seq<Cell>)
    requires s.Ok() && i < |s.ids| && k <= |CompCells(s.f, s.ids, i, row, col)|
  {
    McuCells(s.f, s.ids, i, row, col) + CompCells(s.f, s.ids, i, row, col)[..k]
  }

  lemma {:induction false} CellsInScan(s: Source, n: nat, row: int, col: int)
    requires s.Ok() && n <= |s.ids|
    ensures s.InScan(McuCells(s.f, s.ids, n, row, col))
  {
    if n != 0 {
      CellsInScan(s, n - 1, row, col);
    }
  }

  /** So far the MCU has the blocks that it should have. */
  ghost predicate Built(s: Source, mcu: seq<Block>, i: nat, row: int, col: int, k: int)
    requires s.Ok()
  {
    && i < |s.ids| && 0 <= k <= |CompCells(s.f, s.ids, i, row, col)|
    && s.InScan(Part(s, i, row, col, k)) && mcu == s.Contents(Part(s, i, row, col, k))
  }

  /** The blocks of the MCU at (row, col). */
  ghost predicate Whole(s: Source, mcu: seq<Block>, n: nat, row: int, col: int)
    requires s.Ok()
  {
    n <= |s.ids| && s.InScan(McuCells(s.f, s.ids, n, row, col)) && mcu == s.Contents(McuCells(s.f, s.ids, n, row, col))
  }

  lemma FirstBlock(s: Source, mcu: seq<Block>, i: nat, row: int, col: int)
    requires s.Ok() && i < |s.ids| && Whole(s, mcu, i, row, col)
    ensures Built(s, mcu, i, row, col, 0)
  {
    assert Part(s, i, row, col, 0) == McuCells(s.f, s.ids, i, row, col);
  }

  lemma LastBlock(s: Source, mcu: seq<Block>, i: nat, row: int, col: int)
    requires s.Ok() && i < |s.ids| && Built(s, mcu, i, row, col, McuHeight(s.f, s.ids, i) * McuWidth(s.f, s.ids, i))
    ensures Whole(s, mcu, i + 1, row, col)
  {
    var cells := CompCells(s.f, s.ids, i, row, col);
    assert cells[..|cells|] == cells;
  }

  /** The block at place (y, x) within component i of the MCU. */
  ghost function BlockIn(s: Source, i: nat, row: int, col: int, y: int, x: int): Block
    requires s.Ok() && i < |s.ids|
  {
    s.BlockAt(Cell(i, row * McuHeight(s.f, s.ids, i) + y, col * McuWidth(s.f, s.ids, i) + x))
  }

  lemma PlaceOf(s: Source, i: nat, row: int, col: int, y: int, x: int)
    requires s.Ok() && i < |s.ids| && 0 <= y < McuHeight(s.f, s.ids, i) && 0 <= x < McuWidth(s.f, s.ids, i)
    ensures var w := McuWidth(s.f, s.ids, i);
            && 0 <= y * w + x < |CompCells(s.f, s.ids, i, row, col)|
            && CompCells(s.f, s.ids, i, row, col)[y * w + x] == Cell(i, row * McuHeight(s.f, s.ids, i) + y, col * w + x)
            && (y + 1) * w == y * w + w
  {
    var w, h := McuWidth(s.f, s.ids, i), McuHeight(s.f, s.ids, i);
    Remainder(y * w + x, w, y, x);
    MulMono(0, y, w);
    MulMono(y + 1, h, w);
  }

  /** One block more. */
  lemma NextBlock(s: Source, mcu: seq<Block>, i: nat, row: int, col: int, y: int, x: int, b: Block)
    requires s.Ok() && i < |s.ids| && 0 <= y < McuHeight(s.f, s.ids, i) && 0 <= x < McuWidth(s.f, s.ids, i)
    requires Built(s, mcu, i, row, col, y * McuWidth(s.f, s.ids, i) + x) && b == BlockIn(s, i, row, col, y, x)
    ensures Built(s, mcu + [b], i, row, col, y * McuWidth(s.f, s.ids, i) + x + 1)
  {
    PlaceOf(s, i, row, col, y, x);
    var k := y * McuWidth(s.f, s.ids, i) + x;
    var cells := CompCells(s.f, s.ids, i, row, col);
    assert cells[..k + 1] == cells[..k] + [cells[k]];
    assert Part(s, i, row, col, k + 1) == Part(s, i, row, col, k) + [cells[k]];
  }

  /** The last block so far. */
  lemma PreviousBlock(s: Source, mcu: seq<Block>, i: nat, row: int, col: int, y: int, x: int)
    requires s.Ok() && i < |s.ids| && 0 <= y < McuHeight(s.f, s.ids, i) && 0 <= x < McuWidth(s.f, s.ids, i)
    requires Built(s, mcu, i, row, col, y * McuWidth(s.f, s.ids, i) + x + 1)
    ensures mcu != [] && mcu[|mcu| - 1] == BlockIn(s, i, row, col, y, x)
  {
    PlaceOf(s, i, row, col, y, x);
  }

  // Where the image ends.

  /** Block rows of a component in the last iMCU row. */
  function LastRowHeight(s: Source, i: nat): int
    requires s.Ok() && i < |s.ids|
  {
    assert Fits(s.At(i), s.f.across, s.f.down);
    Rest(s.At(i).height, s.At(i).v)
  }

  /** Block columns of a component in the last MCU of a row. */
  function LastColWidth(s: Source, i: nat): int
    requires s.Ok() && i < |s.ids|
  {
    assert Fits(s.At(i), s.f.across, s.f.down);
    if |s.ids| == 1 then 1 else Rest(s.At(i).width, s.At(i).h)
  }

  /** The MCU rows of an iMCU row. */
  function RowsPerImcu(s: Source, imcu: int): int
    requires s.Ok()
  {
    if |s.ids| > 1 then 1
    else if imcu < s.f.down - 1 then s.At(0).v else LastRowHeight(s, 0)
  }

  /** The MCU row at yoffset in an iMCU row. */
  function McuRow(s: Source, imcu: int, yoffset: int): int
    requires s.Ok()
  {
    if |s.ids| == 1 then imcu * s.At(0).v + yoffset else imcu
  }

  predicate Inside(s: Source, imcu: int, yoffset: int, col: int)
    requires s.Ok()
  {
    0 <= imcu < s.f.down && 0 <= yoffset < RowsPerImcu(s, imcu) && 0 <= col < McusPerRow(s.f, s.ids)
  }

  /** The test for a real row of blocks. */
  predicate RealRow(s: Source, i: nat, imcu: int, yoffset: int, y: int)
    requires s.Ok() && i < |s.ids|
  {
    imcu < s.f.down - 1 || yoffset + y < LastRowHeight(s, i)
  }

  lemma RowTest(s: Source, i: nat, imcu: int, yoffset: int, y: int)
    requires s.Ok() && i < |s.ids| && 0 <= imcu < s.f.down && 0 <= yoffset < RowsPerImcu(s, imcu)
    requires 0 <= y < McuHeight(s.f, s.ids, i)
    ensures RealRow(s, i, imcu, yoffset, y) <==>
            McuRow(s, imcu, yoffset) * McuHeight(s.f, s.ids, i) + y < s.At(i).height
    ensures y == 0 ==> RealRow(s, i, imcu, yoffset, y)
  {
    var c := s.At(i);
    assert Fits(c, s.f.across, s.f.down);
    RestIs(c.height, c.v, s.f.down);
    if imcu < s.f.down - 1 {
      MulMono(imcu + 1, s.f.down - 1, c.v);
      assert (imcu + 1) * c.v == imcu * c.v + c.v;
    }
  }

  /** How many blocks of a row of the MCU are real. */
  function BlockCount(s: Source, i: nat, col: int): int
    requires s.Ok() && i < |s.ids|
  {
    if col < McusPerRow(s.f, s.ids) - 1 then McuWidth(s.f, s.ids, i) else LastColWidth(s, i)
  }

  lemma ColTest(s: Source, i: nat, col: int, x: int)
    requires s.Ok() && i < |s.ids| && 0 <= col < McusPerRow(s.f, s.ids) && 0 <= x < McuWidth(s.f, s.ids, i)
    ensures 1 <= BlockCount(s, i, col) <= McuWidth(s.f, s.ids, i)
    ensures x < BlockCount(s, i, col) <==> col * McuWidth(s.f, s.ids, i) + x < s.At(i).width
  {
    var c := s.At(i);
    assert Fits(c, s.f.across, s.f.down);
    RestIs(c.width, c.h, s.f.across);
    if |s.ids| > 1 && col < s.f.across - 1 {
      MulMono(col + 1, s.f.across - 1, c.h);
      assert (col + 1) * c.h == col * c.h + c.h;
    }
  }

  // The three ways to build an MCU.

  /** A block of a real row: the DCT's, or a dummy one at the right edge. */
  lemma InRealRow(s: Source, i: nat, imcu: int, yoffset: int, col: int, y: int, x: int)
    requires s.Ok() && i < |s.ids| && Inside(s, imcu, yoffset, col)
    requires 0 <= y < McuHeight(s.f, s.ids, i) && 0 <= x < McuWidth(s.f, s.ids, i) && RealRow(s, i, imcu, yoffset, y)
    ensures var row, w := McuRow(s, imcu, yoffset), McuWidth(s.f, s.ids, i);
            if x < BlockCount(s, i, col)
            then BlockIn(s, i, row, col, y, x) == s.data(s.ids[i], row * McuHeight(s.f, s.ids, i) + y, col * w + x)
            else x > 0 && BlockIn(s, i, row, col, y, x) == Dummy(BlockIn(s, i, row, col, y, x - 1)[0])
  {
    hide RealRow, BlockCount, McuRow;
    assert Fits(s.At(i), s.f.across, s.f.down);
    RowTest(s, i, imcu, yoffset, y);
    ColTest(s, i, col, x);
    var row, w := McuRow(s, imcu, yoffset), McuWidth(s.f, s.ids, i);
    if x >= BlockCount(s, i, col) {
      RightDummy(s.At(i), s.data, s.ids[i], row * McuHeight(s.f, s.ids, i) + y, col * w + x);
    }
  }

  /** A block of a row below the image. */
  lemma InDummyRow(s: Source, i: nat, imcu: int, yoffset: int, col: int, y: int, x: int)
    requires s.Ok() && i < |s.ids| && Inside(s, imcu, yoffset, col)
    requires 0 <= y < McuHeight(s.f, s.ids, i) && 0 <= x < McuWidth(s.f, s.ids, i) && !RealRow(s, i, imcu, yoffset, y)
    ensures var row, w := McuRow(s, imcu, yoffset), McuWidth(s.f, s.ids, i);
            && y > 0 && BlockIn(s, i, row, col, y, x) == Dummy(BlockIn(s, i, row, col, y - 1, w - 1)[0])
            && (x > 0 ==> BlockIn(s, i, row, col, y, x) == Dummy(BlockIn(s, i, row, col, y, x - 1)[0]))
  {
    hide RealRow;
    RowTest(s, i, imcu, yoffset, 0);
    RowTest(s, i, imcu, yoffset, y);
    assert Fits(s.At(i), s.f.across, s.f.down);
    var row := McuRow(s, imcu, yoffset) * McuHeight(s.f, s.ids, i) + y;
    BottomDummy(s.At(i), s.data, s.ids[i], row, col, x);
  }

  lemma NothingBuilt(s: Source, row: int, col: int)
    requires s.Ok()
    ensures Whole(s, [], 0, row, col)
  {
  }

  /** A row of blocks is done. */
  lemma RowDone(y: int, w: int)
    ensures y * w + w == (y + 1) * w + 0
  {
  }

  /** One pass: the blocks come from the DCT, blocks at the edges are made up in the MCU. */
  method CompressOne(s: Source, imcu: int, yoffset: int, col: int) returns (mcu: seq<Block>)
    requires s.Ok() && Inside(s, imcu, yoffset, col)
    ensures Whole(s, mcu, |s.ids|, McuRow(s, imcu, yoffset), col)
  {
    hide Built, Whole, Source.Ok, Inside, RealRow, BlockCount, McuRow, BlockIn;
    ghost var row := McuRow(s, imcu, yoffset);
    mcu := [];
    NothingBuilt(s, row, col);
    for ci := 0 to |s.ids|
      invariant Whole(s, mcu, ci, row, col)
    {
      mcu := OnePassBlocks(s, mcu, ci, imcu, yoffset, col);
    }
  }

  method OnePassBlocks(s: Source, mcu0: seq<Block>, ci: nat, imcu: int, yoffset: int, col: int)
    returns (mcu: seq<Block>)
    requires s.Ok() && ci < |s.ids| && Inside(s, imcu, yoffset, col)
    requires Whole(s, mcu0, ci, McuRow(s, imcu, yoffset), col)
    ensures Whole(s, mcu, ci + 1, McuRow(s, imcu, yoffset), col)
  {
    hide Built, Whole, Inside, RealRow, BlockCount, McuRow, BlockIn;
    ghost var row := McuRow(s, imcu, yoffset);
    FirstBlock(s, mcu0, ci, row, col);
    ColTest2(s, ci, imcu, yoffset, col);
    var w, h, blockcnt := McuWidth(s.f, s.ids, ci), McuHeight(s.f, s.ids, ci), BlockCount(s, ci, col);
    mcu := mcu0;
    for yindex := 0 to h
      invariant Built(s, mcu, ci, row, col, yindex * w + 0)
    {
      if RealRow(s, ci, imcu, yoffset, yindex) {
        mcu := RealBlocks(s, mcu, ci, imcu, yoffset, col, yindex, blockcnt);
        mcu := RightBlocks(s, mcu, ci, imcu, yoffset, col, yindex, blockcnt);
      } else {
        mcu := BottomBlocks(s, mcu, ci, imcu, yoffset, col, yindex);
      }
      RowDone(yindex, w);
    }
    LastBlock(s, mcu, ci, row, col);
  }

  lemma ColTest2(s: Source, ci: nat, imcu: int, yoffset: int, col: int)
    requires s.Ok() && ci < |s.ids| && Inside(s, imcu, yoffset, col)
    ensures 1 <= BlockCount(s, ci, col) <= McuWidth(s.f, s.ids, ci) && McuHeight(s.f, s.ids, ci) >= 1
  {
    assert Fits(s.At(ci), s.f.across, s.f.down);
    ColTest(s, ci, col, 0);
  }

  /** The blocks that the DCT makes, or that a transcoder has. */
  method RealBlocks(s: Source, mcu0: seq<Block>, ci: nat, imcu: int, yoffset: int, col: int, y: int, blockcnt: int)
      returns (mcu: seq<Block>)
    requires s.Ok() && ci < |s.ids| && Inside(s, imcu, yoffset, col) && 0 <= y < McuHeight(s.f, s.ids, ci)
    requires RealRow(s, ci, imcu, yoffset, y) && blockcnt == BlockCount(s, ci, col)
    requires Built(s, mcu0, ci, McuRow(s, imcu, yoffset), col, y * McuWidth(s.f, s.ids, ci) + 0)
    ensures Built(s, mcu, ci, McuRow(s, imcu, yoffset), col, y * McuWidth(s.f, s.ids, ci) + blockcnt)
  {
    hide Built, Inside, RealRow, BlockCount, BlockIn;
    var row := McuRow(s, imcu, yoffset);
    hide McuRow;
    ColTest2(s, ci, imcu, yoffset, col);
    mcu := mcu0;
    for x := 0 to blockcnt
      invariant Built(s, mcu, ci, row, col, y * McuWidth(s.f, s.ids, ci) + x)
    {
      InRealRow(s, ci, imcu, yoffset, col, y, x);
      var b := s.data(s.ids[ci], row * McuHeight(s.f, s.ids, ci) + y, col * McuWidth(s.f, s.ids, ci) + x);
      NextBlock(s, mcu, ci, row, col, y, x, b);
      mcu := mcu + [b];
    }
  }

  /** Dummy blocks at the right edge, each like the one before. */
  method RightBlocks(s: Source, mcu0: seq<Block>, ci: nat, imcu: int, yoffset: int, col: int, y: int, blockcnt: int)
      returns (mcu: seq<Block>)
    requires s.Ok() && ci < |s.ids| && Inside(s, imcu, yoffset, col) && 0 <= y < McuHeight(s.f, s.ids, ci)
    requires RealRow(s, ci, imcu, yoffset, y) && blockcnt == BlockCount(s, ci, col)
    requires Built(s, mcu0, ci, McuRow(s, imcu, yoffset), col, y * McuWidth(s.f, s.ids, ci) + blockcnt)
    ensures Built(s, mcu, ci, McuRow(s, imcu, yoffset), col, y * McuWidth(s.f, s.ids, ci) + McuWidth(s.f, s.ids, ci))
  {
    hide Built, Inside, RealRow, BlockCount, BlockIn;
    ghost var row := McuRow(s, imcu, yoffset);
    hide McuRow;
    ColTest2(s, ci, imcu, yoffset, col);
    mcu := mcu0;
    for x := blockcnt to McuWidth(s.f, s.ids, ci)
      invariant Built(s, mcu, ci, row, col, y * McuWidth(s.f, s.ids, ci) + x)
    {
      InRealRow(s, ci, imcu, yoffset, col, y, x);
      PreviousBlock(s, mcu, ci, row, col, y, x - 1);
      var b := Dummy(mcu[|mcu| - 1][0]);
      NextBlock(s, mcu, ci, row, col, y, x, b);
      mcu := mcu + [b];
    }
  }

  /** A row of dummy blocks below the image, all like the last block of the row before. */
  method BottomBlocks(s: Source, mcu0: seq<Block>, ci: nat, imcu: int, yoffset: int, col: int, y: int)
      returns (mcu: seq<Block>)
    requires s.Ok() && ci < |s.ids| && Inside(s, imcu, yoffset, col) && 0 <= y < McuHeight(s.f, s.ids, ci)
    requires !RealRow(s, ci, imcu, yoffset, y)
    requires Built(s, mcu0, ci, McuRow(s, imcu, yoffset), col, y * McuWidth(s.f, s.ids, ci) + 0)
    ensures Built(s, mcu, ci, McuRow(s, imcu, yoffset), col, y * McuWidth(s.f, s.ids, ci) + McuWidth(s.f, s.ids, ci))
  {
    hide Built, Inside, RealRow, BlockCount, BlockIn;
    ghost var row := McuRow(s, imcu, yoffset);
    hide McuRow;
    ColTest2(s, ci, imcu, yoffset, col);
    var w := McuWidth(s.f, s.ids, ci);
    InDummyRow(s, ci, imcu, yoffset, col, y, 0);
    RowDone(y - 1, w);
    PreviousBlock(s, mcu0, ci, row, col, y - 1, w - 1);
    var dc := mcu0[|mcu0| - 1][0];
    mcu := mcu0;
    for x := 0 to w
      invariant Built(s, mcu, ci, row, col, y * w + x)
    {
      InDummyRow(s, ci, imcu, yoffset, col, y, x);
      NextBlock(s, mcu, ci, row, col, y, x, Dummy(dc));
      mcu := mcu + [Dummy(dc)];
    }
  }

  /** Transcoding: dummy blocks of either kind are like the block before. */
  method TranscodeOne(s: Source, imcu: int, yoffset: int, col: int) returns (mcu: seq<Block>)
    requires s.Ok() && Inside(s, imcu, yoffset, col)
    ensures Whole(s, mcu, |s.ids|, McuRow(s, imcu, yoffset), col)
  {
    hide Built, Whole, Source.Ok, Inside, RealRow, BlockCount, McuRow, BlockIn;
    ghost var row := McuRow(s, imcu, yoffset);
    mcu := [];
    NothingBuilt(s, row, col);
    for ci := 0 to |s.ids|
      invariant Whole(s, mcu, ci, row, col)
    {
      mcu := TranscodeBlocks(s, mcu, ci, imcu, yoffset, col);
    }
  }

  method TranscodeBlocks(s: Source, mcu0: seq<Block>, ci: nat, imcu: int, yoffset: int, col: int)
    returns (mcu: seq<Block>)
    requires s.Ok() && ci < |s.ids| && Inside(s, imcu, yoffset, col)
    requires Whole(s, mcu0, ci, McuRow(s, imcu, yoffset), col)
    ensures Whole(s, mcu, ci + 1, McuRow(s, imcu, yoffset), col)
  {
    hide Built, Whole, Inside, RealRow, BlockCount, McuRow, BlockIn;
    ghost var row := McuRow(s, imcu, yoffset);
    FirstBlock(s, mcu0, ci, row, col);
    ColTest2(s, ci, imcu, yoffset, col);
    var w, h, blockcnt := McuWidth(s.f, s.ids, ci), McuHeight(s.f, s.ids, ci), BlockCount(s, ci, col);
    mcu := mcu0;
    for yindex := 0 to h
      invariant Built(s, mcu, ci, row, col, yindex * w + 0)
    {
      var xindex := 0;
      if RealRow(s, ci, imcu, yoffset, yindex) {
        mcu := RealBlocks(s, mcu, ci, imcu, yoffset, col, yindex, blockcnt);
        xindex := blockcnt;
      }
      mcu := FillBlocks(s, mcu, ci, imcu, yoffset, col, yindex, xindex);
      RowDone(yindex, w);
    }
    LastBlock(s, mcu, ci, row, col);
  }

  method FillBlocks(s: Source, mcu0: seq<Block>, ci: nat, imcu: int, yoffset: int, col: int, y: int, xindex: int)
      returns (mcu: seq<Block>)
    requires s.Ok() && ci < |s.ids| && Inside(s, imcu, yoffset, col) && 0 <= y < McuHeight(s.f, s.ids, ci)
    requires xindex == if RealRow(s, ci, imcu, yoffset, y) then BlockCount(s, ci, col) else 0
    requires Built(s, mcu0, ci, McuRow(s, imcu, yoffset), col, y * McuWidth(s.f, s.ids, ci) + xindex)
    ensures Built(s, mcu, ci, McuRow(s, imcu, yoffset), col, y * McuWidth(s.f, s.ids, ci) + McuWidth(s.f, s.ids, ci))
  {
    hide Built, Inside, RealRow, BlockCount, BlockIn;
    ghost var row := McuRow(s, imcu, yoffset);
    hide McuRow;
    ColTest2(s, ci, imcu, yoffset, col);
    ghost var w := McuWidth(s.f, s.ids, ci);
    mcu := mcu0;
    for x := xindex to McuWidth(s.f, s.ids, ci)
      invariant Built(s, mcu, ci, row, col, y * w + x)
    {
      if RealRow(s, ci, imcu, yoffset, y) {
        InRealRow(s, ci, imcu, yoffset, col, y, x);
        PreviousBlock(s, mcu, ci, row, col, y, x - 1);
      } else {
        InDummyRow(s, ci, imcu, yoffset, col, y, x);
        if x == 0 {
          RowDone(y - 1, w);
          PreviousBlock(s, mcu, ci, row, col, y - 1, w - 1);
        } else {
          PreviousBlock(s, mcu, ci, row, col, y, x - 1);
        }
      }
      var b := Dummy(mcu[|mcu| - 1][0]);
      NextBlock(s, mcu, ci, row, col, y, x, b);
      mcu := mcu + [b];
    }
  }

  // The whole image in a buffer.

  /** The buffer covers the component's MCUs. */
  ghost predicate Covers(buffer: array2<Block>, c: Comp, across: int, down: int) {
    Fits(c, across, down) && c.width >= 1 && c.height >= 1 && buffer.Length0 == down * c.v
      && buffer.Length1 == across * c.h
  }

  /** The blocks of a row up to column n are there. */
  ghost predicate FilledRow(buffer: array2<Block>, c: Comp, data: (nat, int, int) -> Block, id: nat, row: int, n: int)
    requires c.h >= 1 && c.width >= 1 && c.height >= 1 && 0 <= row < buffer.Length0 && n <= buffer.Length1
    reads buffer
  {
    forall col :: 0 <= col < n ==> buffer[row, col] == Padded(c, data, id, row, col)
  }

  twostate predicate OnlyRow(buffer: array2<Block>, row: int)
    reads buffer
  {
    forall r, col :: 0 <= r < buffer.Length0 && 0 <= col < buffer.Length1 && r != row ==>
      buffer[r, col] == old(buffer[r, col])
  }

  /** The DCT of a row of blocks. */
  method CopyRealRow(buffer: array2<Block>, c: Comp, data: (nat, int, int) -> Block, id: nat, row: int)
    requires c.h >= 1 && c.width >= 1 && c.height >= 1 && 0 <= row < c.height && row < buffer.Length0
    requires c.width <= buffer.Length1
    modifies buffer
    ensures FilledRow(buffer, c, data, id, row, c.width) && OnlyRow(buffer, row)
  {
    for col := 0 to c.width
      invariant FilledRow(buffer, c, data, id, row, col) && OnlyRow(buffer, row)
    {
      buffer[row, col] := data(id, row, col);
    }
  }

  lemma WithinWidth(c: Comp, data: (nat, int, int) -> Block, id: nat, row: int, bi: int)
    requires c.h >= 1 && c.width >= 1 && c.height >= 1 && row < c.height && bi >= 0
    ensures Padded(c, data, id, row, c.width + bi) == Dummy(Padded(c, data, id, row, c.width - 1)[0])
  {
  }

  /** A row of real blocks, and the dummy ones at its end. */
  method FillRealRow(buffer: array2<Block>, c: Comp, data: (nat, int, int) -> Block, id: nat, across: int, down: int,
                     row: int)
    requires Covers(buffer, c, across, down) && 0 <= row < c.height && row < buffer.Length0
    modifies buffer
    ensures FilledRow(buffer, c, data, id, row, buffer.Length1) && OnlyRow(buffer, row)
  {
    CopyRealRow(buffer, c, data, id, row);
    var ndummy := c.width % c.h;
    if ndummy > 0 {
      ndummy := c.h - ndummy;
    }
    DummyCount(c, across, down);
    hide Padded;
    var lastDC := buffer[row, c.width - 1][0];
    for bi := 0 to ndummy
      invariant FilledRow(buffer, c, data, id, row, c.width + bi) && OnlyRow(buffer, row)
    {
      WithinWidth(c, data, id, row, bi);
      buffer[row, c.width + bi] := Dummy(lastDC);
    }
  }

  lemma DummyCount(c: Comp, across: int, down: int)
    requires Fits(c, across, down)
    ensures c.width + (if c.width % c.h > 0 then c.h - c.width % c.h else 0) == across * c.h
  {
    RestIs(c.width, c.h, across);
    assert (across - 1) * c.h == across * c.h - c.h;
  }

  /** A row of dummy blocks: within each MCU they are like the last block of the row before. */
  method FillDummyRow(buffer: array2<Block>, c: Comp, data: (nat, int, int) -> Block, id: nat, across: int, down: int,
                      row: int)
    requires Covers(buffer, c, across, down) && c.height <= row < buffer.Length0
    requires FilledRow(buffer, c, data, id, row - 1, buffer.Length1)
    modifies buffer
    ensures FilledRow(buffer, c, data, id, row, buffer.Length1) && OnlyRow(buffer, row)
  {
    for mcu := 0 to across
      invariant 0 <= mcu * c.h <= buffer.Length1 && FilledRow(buffer, c, data, id, row, mcu * c.h)
      invariant OnlyRow(buffer, row)
      invariant FilledRow(buffer, c, data, id, row - 1, buffer.Length1)
    {
      MulMono(mcu + 1, across, c.h);
      RowDone(mcu, c.h);
      FillDummyMcu(buffer, c, data, id, across, down, row, mcu);
    }
  }

  method FillDummyMcu(buffer: array2<Block>, c: Comp, data: (nat, int, int) -> Block, id: nat, across: int, down: int,
                      row: int, mcu: int)
    requires Covers(buffer, c, across, down) && c.height <= row < buffer.Length0
    requires 0 <= mcu * c.h && mcu * c.h + c.h <= buffer.Length1
    requires FilledRow(buffer, c, data, id, row - 1, buffer.Length1) && FilledRow(buffer, c, data, id, row, mcu * c.h)
    modifies buffer
    ensures FilledRow(buffer, c, data, id, row, mcu * c.h + c.h) && OnlyRow(buffer, row)
  {
    var first := mcu * c.h;
    var lastDC := buffer[row - 1, first + (c.h - 1)][0];
    for bi := 0 to c.h
      invariant FilledRow(buffer, c, data, id, row, first + bi) && OnlyRow(buffer, row)
    {
      BottomDummy(c, data, id, row, mcu, bi);
      buffer[row, first + bi] := Dummy(lastDC);
    }
  }

  ghost predicate FilledRows(buffer: array2<Block>, c: Comp, data: (nat, int, int) -> Block, id: nat, from: int,
                             to: int)
    requires c.h >= 1 && c.width >= 1 && c.height >= 1
    reads buffer
  {
    && 0 <= from && to <= buffer.Length0
    && forall r, col :: from <= r < to && 0 <= col < buffer.Length1 ==> buffer[r, col] == Padded(c, data, id, r, col)
  }

  twostate predicate OnlyRows(buffer: array2<Block>, from: int, to: int)
    reads buffer
  {
    forall r, col :: 0 <= r < buffer.Length0 && 0 <= col < buffer.Length1 && !(from <= r < to) ==>
      buffer[r, col] == old(buffer[r, col])
  }

  method FillRealRows(buffer: array2<Block>, c: Comp, data: (nat, int, int) -> Block, id: nat, across: int, down: int,
                      from: int, to: int)
    requires Covers(buffer, c, across, down) && 0 <= from <= to <= c.height && to <= buffer.Length0
    modifies buffer
    ensures FilledRows(buffer, c, data, id, from, to) && OnlyRows(buffer, from, to)
  {
    hide Padded;
    for r := from to to
      invariant FilledRows(buffer, c, data, id, from, r) && OnlyRows(buffer, from, r)
    {
      FillRealRow(buffer, c, data, id, across, down, r);
    }
  }

  method FillDummyRows(buffer: array2<Block>, c: Comp, data: (nat, int, int) -> Block, id: nat, across: int, down: int,
                       from: int, mid: int, to: int)
    requires Covers(buffer, c, across, down) && 0 <= from < mid <= to <= buffer.Length0 && c.height <= mid
    requires FilledRows(buffer, c, data, id, from, mid)
    modifies buffer
    ensures FilledRows(buffer, c, data, id, from, to) && OnlyRows(buffer, mid, to)
  {
    hide Padded;
    for r := mid to to
      invariant FilledRows(buffer, c, data, id, from, r) && OnlyRows(buffer, mid, r)
    {
      FillDummyRow(buffer, c, data, id, across, down, r);
    }
  }

  lemma RowsOfImcu(c: Comp, across: int, down: int, imcu: int)
    requires Fits(c, across, down) && 0 <= imcu < down
    ensures 0 <= imcu * c.v && imcu * c.v + c.v <= down * c.v
    ensures imcu < down - 1 ==> imcu * c.v + c.v <= c.height
    ensures imcu == down - 1 ==> 1 <= Rest(c.height, c.v) <= c.v && imcu * c.v + Rest(c.height, c.v) == c.height
  {
    MulMono(0, imcu, c.v);
    MulMono(imcu + 1, down, c.v);
    RowDone(imcu, c.v);
    RestIs(c.height, c.v, down);
    if imcu < down - 1 {
      MulMono(imcu + 1, down - 1, c.v);
    }
  }

  /** The rows of an iMCU row of one component. */
  method FirstPassRows(buffer: array2<Block>, c: Comp, data: (nat, int, int) -> Block, id: nat, across: int, down: int,
                       imcu: int)
    requires Covers(buffer, c, across, down) && 0 <= imcu < down
    modifies buffer
    ensures FilledRows(buffer, c, data, id, imcu * c.v, imcu * c.v + c.v)
    ensures OnlyRows(buffer, imcu * c.v, imcu * c.v + c.v)
  {
    RowsOfImcu(c, across, down, imcu);
    hide Padded;
    var blockRows := if imcu < down - 1 then c.v else Rest(c.height, c.v);
    var first := imcu * c.v;
    FillRealRows(buffer, c, data, id, across, down, first, first + blockRows);
    if imcu == down - 1 {
      FillDummyRows(buffer, c, data, id, across, down, first, first + blockRows, first + c.v);
    }
  }

  /** For each component of the frame, its buffer with the rows of this iMCU row. */
  ghost predicate Buffered(s: Source, buffers: seq<array2<Block>>, imcu: int)
    requires s.Ok()
    reads buffers
  {
    && |buffers| == |s.f.comps|
    && forall c :: 0 <= c < |s.f.comps| ==> BufferedRows(s, buffers[c], c, imcu)
  }

  ghost predicate BufferedRows(s: Source, buffer: array2<Block>, c: nat, imcu: int)
    requires s.Ok() && c < |s.f.comps|
    reads buffer
  {
    assert Fits(s.f.comps[c], s.f.across, s.f.down);
    var comp := s.f.comps[c];
    && Covers(buffer, comp, s.f.across, s.f.down)
    && FilledRows(buffer, comp, s.data, c, imcu * comp.v, imcu * comp.v + comp.v)
  }

  /** Where a block of an MCU is in the component's array. */
  lemma InArray(s: Source, i: nat, imcu: int, yoffset: int, col: int, y: int, x: int)
    requires s.Ok() && i < |s.ids| && Inside(s, imcu, yoffset, col)
    requires 0 <= y < McuHeight(s.f, s.ids, i) && 0 <= x < McuWidth(s.f, s.ids, i)
    ensures var row, c := McuRow(s, imcu, yoffset) * McuHeight(s.f, s.ids, i) + y, col * McuWidth(s.f, s.ids, i) + x;
            && row == imcu * s.At(i).v + (yoffset + y) && 0 <= yoffset + y < s.At(i).v
            && 0 <= row < s.f.down * s.At(i).v && 0 <= c < s.f.across * s.At(i).h
  {
    var comp := s.At(i);
    assert Fits(comp, s.f.across, s.f.down);
    RestIs(comp.height, comp.v, s.f.down);
    RowsOfImcu(comp, s.f.across, s.f.down, imcu);
    MulMono(0, col, McuWidth(s.f, s.ids, i));
    if |s.ids| > 1 {
      MulMono(col + 1, s.f.across, comp.h);
      RowDone(col, comp.h);
    }
  }

  lemma InBuffer(s: Source, buffer: array2<Block>, i: nat, imcu: int, yoffset: int, col: int, y: int, x: int)
    requires s.Ok() && i < |s.ids| && Inside(s, imcu, yoffset, col) && BufferedRows(s, buffer, s.ids[i], imcu)
    requires 0 <= y < McuHeight(s.f, s.ids, i) && 0 <= x < McuWidth(s.f, s.ids, i)
    ensures var row, c := McuRow(s, imcu, yoffset) * McuHeight(s.f, s.ids, i) + y, col * McuWidth(s.f, s.ids, i) + x;
            && row == imcu * s.At(i).v + (yoffset + y)
            && 0 <= row < buffer.Length0 && 0 <= c < buffer.Length1
            && buffer[row, c] == BlockIn(s, i, McuRow(s, imcu, yoffset), col, y, x)
  {
    InArray(s, i, imcu, yoffset, col, y, x);
    hide McuRow, Inside;
    var comp := s.At(i);
    var row, c := McuRow(s, imcu, yoffset) * McuHeight(s.f, s.ids, i) + y, col * McuWidth(s.f, s.ids, i) + x;
    assert buffer[row, c] == Padded(comp, s.data, s.ids[i], row, c);
  }

  /** From the buffer: no block is special any more. */
  method OutputOne(s: Source, buffers: seq<array2<Block>>, imcu: int, yoffset: int, col: int) returns (mcu: seq<Block>)
    requires s.Ok() && Inside(s, imcu, yoffset, col) && Buffered(s, buffers, imcu)
    ensures Whole(s, mcu, |s.ids|, McuRow(s, imcu, yoffset), col)
  {
    hide Built, Whole, Inside, McuRow, BlockIn, BufferedRows;
    ghost var row := McuRow(s, imcu, yoffset);
    mcu := [];
    NothingBuilt(s, row, col);
    for ci := 0 to |s.ids|
      invariant Whole(s, mcu, ci, row, col)
    {
      mcu := OutputBlocks(s, mcu, buffers[s.ids[ci]], ci, imcu, yoffset, col);
    }
  }

  method OutputBlocks(s: Source, mcu0: seq<Block>, buffer: array2<Block>, ci: nat, imcu: int, yoffset: int, col: int)
      returns (mcu: seq<Block>)
    requires s.Ok() && ci < |s.ids| && Inside(s, imcu, yoffset, col)
    requires Whole(s, mcu0, ci, McuRow(s, imcu, yoffset), col)
    requires BufferedRows(s, buffer, s.ids[ci], imcu)
    ensures Whole(s, mcu, ci + 1, McuRow(s, imcu, yoffset), col)
  {
    hide Built, Whole, Inside, McuRow, BlockIn, BufferedRows;
    ghost var row := McuRow(s, imcu, yoffset);
    FirstBlock(s, mcu0, ci, row, col);
    ColTest2(s, ci, imcu, yoffset, col);
    var w, h := McuWidth(s.f, s.ids, ci), McuHeight(s.f, s.ids, ci);
    var startCol := col * w;
    mcu := mcu0;
    for yindex := 0 to h
      invariant Built(s, mcu, ci, row, col, yindex * w + 0)
    {
      for xindex := 0 to w
        invariant Built(s, mcu, ci, row, col, yindex * w + xindex)
      {
        InBuffer(s, buffer, ci, imcu, yoffset, col, yindex, xindex);
        var b := buffer[imcu * s.At(ci).v + (yoffset + yindex), startCol + xindex];
        NextBlock(s, mcu, ci, row, col, yindex, xindex, b);
        mcu := mcu + [b];
      }
      RowDone(yindex, w);
    }
    LastBlock(s, mcu, ci, row, col);
  }

  // The blocks of an MCU one by one.

  /** What the MCU has for a block in its list. */
  lemma ContentsAt(s: Source, mcu: seq<Block>, mrow: int, mcol: int, k: nat)
    requires s.Ok() && Whole(s, mcu, |s.ids|, mrow, mcol) && k < |McuCells(s.f, s.ids, |s.ids|, mrow, mcol)|
    ensures k < |mcu| && McuCells(s.f, s.ids, |s.ids|, mrow, mcol)[k].comp < |s.ids|
    ensures mcu[k] == s.BlockAt(McuCells(s.f, s.ids, |s.ids|, mrow, mcol)[k])
  {
  }

  /** The blocks of the MCUs of components 0 to n - 1. */
  function McuSize(s: Source, n: nat): nat
    requires s.Ok() && n <= |s.ids|
  {
    |McuCells(s.f, s.ids, n, 0, 0)|
  }

  lemma {:induction false} McuSizes(s: Source, n: nat, row: int, col: int)
    requires s.Ok() && n <= |s.ids|
    ensures |McuCells(s.f, s.ids, n, row, col)| == McuSize(s, n)
    ensures n > 0 ==> McuSize(s, n) == McuSize(s, n - 1) + McuHeight(s.f, s.ids, n - 1) * McuWidth(s.f, s.ids, n - 1)
  {
    if n > 0 {
      McuSizes(s, n - 1, row, col);
    }
  }

  lemma {:induction false} McuPrefix(s: Source, n: nat, m: nat, row: int, col: int)
    requires s.Ok() && n <= m <= |s.ids|
    ensures McuCells(s.f, s.ids, n, row, col) <= McuCells(s.f, s.ids, m, row, col)
    decreases m
  {
    if n < m {
      McuPrefix(s, n, m - 1, row, col);
    }
  }

  /** Where the blocks of a component are in an MCU. */
  lemma BlockOfMcu(s: Source, mcu: seq<Block>, i: nat, row: int, col: int, y: int, x: int)
    requires s.Ok() && i < |s.ids| && Whole(s, mcu, |s.ids|, row, col)
    requires 0 <= y < McuHeight(s.f, s.ids, i) && 0 <= x < McuWidth(s.f, s.ids, i)
    ensures 0 <= McuSize(s, i) + y * McuWidth(s.f, s.ids, i) + x < |mcu|
    ensures mcu[McuSize(s, i) + y * McuWidth(s.f, s.ids, i) + x] == BlockIn(s, i, row, col, y, x)
  {
    PlaceOf(s, i, row, col, y, x);
    NumberedBlock(s, mcu, i, row, col, y * McuWidth(s.f, s.ids, i) + x);
  }

  lemma NumberedBlock(s: Source, mcu: seq<Block>, i: nat, row: int, col: int, k: nat)
    requires s.Ok() && i < |s.ids| && Whole(s, mcu, |s.ids|, row, col) && k < |CompCells(s.f, s.ids, i, row, col)|
    ensures McuSize(s, i) + k < |mcu| && CompCells(s.f, s.ids, i, row, col)[k].comp < |s.ids|
    ensures mcu[McuSize(s, i) + k] == s.BlockAt(CompCells(s.f, s.ids, i, row, col)[k])
  {
    hide McuCells, McuSize, Whole, Source.BlockAt, CompCells;
    McuSizes(s, i, row, col);
    McuPrefix(s, i + 1, |s.ids|, row, col);
    MoreCells(s, i, row, col);
    InPrefix(McuCells(s.f, s.ids, |s.ids|, row, col), McuCells(s.f, s.ids, i, row, col),
             CompCells(s.f, s.ids, i, row, col), k);
    ContentsAt(s, mcu, row, col, McuSize(s, i) + k);
  }

  lemma InPrefix<T>(all: seq<T>, before: seq<T>, part: seq<T>, k: nat)
    requires before + part <= all && k < |part|
    ensures |before| + k < |all| && all[|before| + k] == part[k]
  {
    assert (before + part)[|before| + k] == part[k];
  }

  lemma MoreCells(s: Source, i: nat, row: int, col: int)
    requires s.Ok() && i < |s.ids|
    ensures McuCells(s.f, s.ids, i + 1, row, col) ==
            McuCells(s.f, s.ids, i, row, col) + CompCells(s.f, s.ids, i, row, col)
  {
  }

  /** An MCU of the scan, block by block: real blocks are those of the image. Beside the image a block
      has the DC value of the block before it, and below the image that of the last block of the row
      above; AC coefficients it has none. */
  lemma BlocksDelivered(s: Source, mcu: seq<Block>, i: nat, row: int, col: int, y: int, x: int)
    requires s.Ok() && i < |s.ids| && Whole(s, mcu, |s.ids|, row, col)
    requires 0 <= row < McuRows(s.f, s.ids) && 0 <= col < McusPerRow(s.f, s.ids)
    requires 0 <= y < McuHeight(s.f, s.ids, i) && 0 <= x < McuWidth(s.f, s.ids, i)
    ensures var w, h, at := McuWidth(s.f, s.ids, i), McuHeight(s.f, s.ids, i), McuSize(s, i);
            && 0 <= at + y * w + x < |mcu|
            && var b := mcu[at + y * w + x];
               && (row * h + y < s.At(i).height && col * w + x < s.At(i).width ==>
                     b == s.data(s.ids[i], row * h + y, col * w + x))
               && (row * h + y < s.At(i).height && col * w + x >= s.At(i).width ==>
                     && x > 0 && at + y * w + x > 0 && b[0] == mcu[at + y * w + x - 1][0]
                     && forall j :: 1 <= j < 64 ==> b[j] == 0)
               && (row * h + y >= s.At(i).height ==>
                     && y > 0 && 0 <= at + y * w - 1 < |mcu| && b[0] == mcu[at + y * w - 1][0]
                     && forall j :: 1 <= j < 64 ==> b[j] == 0)
  {
    var w, h := McuWidth(s.f, s.ids, i), McuHeight(s.f, s.ids, i);
    assert Fits(s.At(i), s.f.across, s.f.down);
    BlockOfMcu(s, mcu, i, row, col, y, x);
    FirstIsReal(s, i, row, col);
    hide Whole, McuSize, McuCells;
    if row * h + y >= s.At(i).height {
      RowDone(y - 1, w);
      BlockOfMcu(s, mcu, i, row, col, y - 1, w - 1);
      BottomDummy(s.At(i), s.data, s.ids[i], row * h + y, col, x);
    } else if col * w + x >= s.At(i).width {
      BlockOfMcu(s, mcu, i, row, col, y, x - 1);
      RightDummy(s.At(i), s.data, s.ids[i], row * h + y, col * w + x);
    }
  }

  /** The first block of each component in an MCU is a real one; alone, a component has no others. */
  lemma FirstIsReal(s: Source, i: nat, row: int, col: int)
    requires s.Ok() && i < |s.ids| && 0 <= row < McuRows(s.f, s.ids) && 0 <= col < McusPerRow(s.f, s.ids)
    ensures row * McuHeight(s.f, s.ids, i) < s.At(i).height && col * McuWidth(s.f, s.ids, i) < s.At(i).width
    ensures |s.ids| == 1 ==> McuWidth(s.f, s.ids, i) == McuHeight(s.f, s.ids, i) == 1
  {
    assert Fits(s.At(i), s.f.across, s.f.down);
    if |s.ids| > 1 {
      MulMono(row, s.f.down - 1, s.At(i).v);
      MulMono(col, s.f.across - 1, s.At(i).h);
    }
  }

  // The controllers.

  datatype Mode = OnePass | FirstPass | LaterPass | Transcoding

  /** The MCUs of the scan in the order of the file: the nth one. */
  ghost predicate NthMcu(s: Source, mcu: seq<Block>, n: nat)
    requires s.Ok()
  {
    ColumnsExist(s);
    Whole(s, mcu, |s.ids|, n / McusPerRow(s.f, s.ids), n % McusPerRow(s.f, s.ids))
  }

  lemma ColumnsExist(s: Source)
    requires s.Ok()
    ensures McusPerRow(s.f, s.ids) >= 1 && McuRows(s.f, s.ids) >= 1
  {
  }

  lemma RowsAddUp(s: Source, imcu: int)
    requires s.Ok() && 0 <= imcu < s.f.down
    ensures RowsPerImcu(s, imcu) >= 1
    ensures McuRow(s, imcu, RowsPerImcu(s, imcu)) == if imcu == s.f.down - 1 && |s.ids| == 1 then McuRows(s.f, s.ids)
                                                    else if |s.ids| == 1 then McuRow(s, imcu + 1, 0) else imcu
    ensures |s.ids| > 1 ==> McuRow(s, imcu, 0) == imcu
  {
    assert Fits(s.At(0), s.f.across, s.f.down);
    RestIs(s.At(0).height, s.At(0).v, s.f.down);
    RowDone(imcu, s.At(0).v);
  }

  /** MCU number row * columns + col. */
  lemma Numbered(s: Source, mcu: seq<Block>, row: int, col: int)
    requires s.Ok() && 0 <= row && 0 <= col < McusPerRow(s.f, s.ids) && Whole(s, mcu, |s.ids|, row, col)
    ensures row * McusPerRow(s.f, s.ids) + col >= 0 && NthMcu(s, mcu, row * McusPerRow(s.f, s.ids) + col)
  {
    ColumnsExist(s);
    MulMono(0, row, McusPerRow(s.f, s.ids));
    Remainder(row * McusPerRow(s.f, s.ids) + col, McusPerRow(s.f, s.ids), row, col);
  }

  lemma RowNotNegative(s: Source, imcu: int, yoffset: int)
    requires s.Ok() && 0 <= imcu < s.f.down && yoffset >= 0
    ensures McuRow(s, imcu, yoffset) >= 0
    ensures |s.ids| == 1 ==> McuRow(s, imcu, yoffset + 1) == McuRow(s, imcu, yoffset) + 1
  {
    assert Fits(s.At(0), s.f.across, s.f.down);
    MulMono(0, imcu, s.At(0).v);
  }

  /** Interleaved, an iMCU row is one row of MCUs. */
  lemma SingleRow(s: Source, imcu: int, yoffset: int)
    requires s.Ok() && 0 <= imcu < s.f.down && 0 <= yoffset < RowsPerImcu(s, imcu)
    ensures |s.ids| != 1 ==> yoffset == 0
  {
  }

  /** The row of MCUs after those before yoffset. */
  ghost function NextRow(s: Source, imcu: int, yoffset: int): int
    requires s.Ok()
  {
    if |s.ids| == 1 then McuRow(s, imcu, yoffset) else imcu + yoffset
  }

  lemma ImcuDone(s: Source, imcu: int)
    requires s.Ok() && 0 <= imcu < s.f.down
    ensures NextRow(s, imcu, RowsPerImcu(s, imcu)) ==
            if imcu + 1 == s.f.down then McuRows(s.f, s.ids) else McuRow(s, imcu + 1, 0)
    ensures imcu + 1 < s.f.down ==> RowsPerImcu(s, imcu + 1) >= 1
    ensures McusPerRow(s.f, s.ids) >= 1
  {
    RowsAddUp(s, imcu);
    ColumnsExist(s);
    if imcu + 1 < s.f.down {
      RowsAddUp(s, imcu + 1);
    }
  }

  class CoefController {
    const s: Source
    const mode: Mode
    const buffers: seq<array2<Block>>

    var imcuRowNum: int
    var mcuCtr: int
    var mcuVertOffset: int
    var mcuRowsPerImcuRow: int

    ghost var delivered: seq<seq<Block>>  // MCUs that the entropy coder has accepted

    /** The row of MCUs at hand. */
    ghost function Row(): int
      requires s.Ok()
      reads this
    {
      if imcuRowNum == s.f.down then McuRows(s.f, s.ids) else McuRow(s, imcuRowNum, mcuVertOffset)
    }

    ghost predicate BuffersOk()
      requires s.Ok()
      reads buffers
    {
      && (mode == FirstPass || mode == LaterPass ==>
            && |buffers| == |s.f.comps|
            && (forall c :: 0 <= c < |buffers| ==> Covers(buffers[c], s.f.comps[c], s.f.across, s.f.down))
            && (forall c, d :: 0 <= c < d < |buffers| ==> buffers[c] != buffers[d]))
      && (mode == LaterPass ==> forall n :: 0 <= n < s.f.down ==> Buffered(s, buffers, n))
    }

    ghost predicate Counters()
      requires s.Ok()
      reads this
    {
      && 0 <= imcuRowNum <= s.f.down
      && (imcuRowNum < s.f.down ==>
            && mcuRowsPerImcuRow == RowsPerImcu(s, imcuRowNum) && 0 <= mcuVertOffset < mcuRowsPerImcuRow
            && 0 <= mcuCtr < McusPerRow(s.f, s.ids))
      && (imcuRowNum == s.f.down ==> mcuCtr == 0)
    }

    ghost predicate DeliveredOk()
      requires s.Ok()
      reads this
    {
      && |delivered| == Row() * McusPerRow(s.f, s.ids) + mcuCtr
      && forall n :: 0 <= n < |delivered| ==> NthMcu(s, delivered[n], n)
    }

    ghost predicate Valid()
      reads this, buffers
    {
      s.Ok() && BuffersOk() && Counters() && DeliveredOk() && Loaded()
    }

    /** In the first pass the rows up to here are in the buffers. */
    ghost predicate Loaded()
      requires s.Ok()
      reads this`imcuRowNum, buffers
    {
      mode == FirstPass ==> forall n :: 0 <= n < imcuRowNum ==> Buffered(s, buffers, n)
    }

    constructor (s: Source, mode: Mode, buffers: seq<array2<Block>>)
      requires s.Ok()
      requires mode == FirstPass || mode == LaterPass ==>
                 && |buffers| == |s.f.comps|
                 && (forall c :: 0 <= c < |buffers| ==> Covers(buffers[c], s.f.comps[c], s.f.across, s.f.down))
                 && (forall c, d :: 0 <= c < d < |buffers| ==> buffers[c] != buffers[d])
      requires mode == LaterPass ==> forall n :: 0 <= n < s.f.down ==> Buffered(s, buffers, n)
      ensures Valid() && delivered == [] && this.s == s && this.mode == mode && this.buffers == buffers
    {
      this.s, this.mode, this.buffers := s, mode, buffers;
      imcuRowNum, mcuCtr, mcuVertOffset := 0, 0, 0;
      mcuRowsPerImcuRow := RowsPerImcu(s, 0);
      delivered := [];
      RowsAddUp(s, 0);
      ColumnsExist(s);
    }

    method StartImcuRow()
      requires s.Ok() && 0 <= imcuRowNum <= s.f.down
      modifies this`mcuCtr, this`mcuVertOffset, this`mcuRowsPerImcuRow
      ensures mcuCtr == 0 && mcuVertOffset == 0
      ensures imcuRowNum < s.f.down ==> mcuRowsPerImcuRow == RowsPerImcu(s, imcuRowNum)
    {
      if |s.ids| > 1 {
        mcuRowsPerImcuRow := 1;
      } else if imcuRowNum < s.f.down - 1 {
        mcuRowsPerImcuRow := s.At(0).v;
      } else {
        mcuRowsPerImcuRow := LastRowHeight(s, 0);
      }
      mcuCtr := 0;
      mcuVertOffset := 0;
    }

    /** The MCU that is due. */
    method Build(yoffset: int, col: int) returns (mcu: seq<Block>)
      requires s.Ok() && Inside(s, imcuRowNum, yoffset, col)
      requires mode == FirstPass || mode == LaterPass ==> Buffered(s, buffers, imcuRowNum)
      ensures Whole(s, mcu, |s.ids|, McuRow(s, imcuRowNum, yoffset), col)
    {
      match mode
      case OnePass => mcu := CompressOne(s, imcuRowNum, yoffset, col);
      case Transcoding => mcu := TranscodeOne(s, imcuRowNum, yoffset, col);
      case _ => mcu := OutputOne(s, buffers, imcuRowNum, yoffset, col);
    }

    /** Load the rows of one component; those of earlier iMCU rows stay. */
    method LoadComponent(c: nat)
      requires s.Ok() && mode == FirstPass && BuffersOk() && 0 <= imcuRowNum < s.f.down && c < |buffers|
      modifies buffers[c]
      ensures BuffersOk() && BufferedRows(s, buffers[c], c, imcuRowNum)
      ensures forall n :: 0 <= n < imcuRowNum && old(BufferedRows(s, buffers[c], c, n)) ==>
              BufferedRows(s, buffers[c], c, n)
    {
      hide Padded;
      var comp := s.f.comps[c];
      FirstPassRows(buffers[c], comp, s.data, c, s.f.across, s.f.down, imcuRowNum);
      forall n | 0 <= n < imcuRowNum && old(BufferedRows(s, buffers[c], c, n))
        ensures BufferedRows(s, buffers[c], c, n)
      {
        RowsOfImcu(comp, s.f.across, s.f.down, n);
        MulMono(n + 1, imcuRowNum, comp.v);
        RowDone(n, comp.v);
      }
    }

    /** Load the rows of all components. */
    method LoadStrip()
      requires s.Ok() && mode == FirstPass && BuffersOk() && 0 <= imcuRowNum < s.f.down
      modifies set b | b in buffers
      ensures BuffersOk() && Buffered(s, buffers, imcuRowNum)
      ensures forall n :: 0 <= n < imcuRowNum && old(Buffered(s, buffers, n)) ==> Buffered(s, buffers, n)
    {
      hide BufferedRows;
      for c := 0 to |buffers|
        invariant BuffersOk()
        invariant forall d :: 0 <= d < c ==> BufferedRows(s, buffers[d], d, imcuRowNum)
        invariant forall n, d :: 0 <= n < imcuRowNum && 0 <= d < |buffers| && old(BufferedRows(s, buffers[d], d, n)) ==>
          BufferedRows(s, buffers[d], d, n)
      {
        LoadComponent(c);
      }
    }

    /** The rest of a row of MCUs, as far as the entropy coder accepts them. */
    method CompressRow(yoffset: int, accepts: nat) returns (left: int)
      requires s.Ok() && Counters() && 0 <= imcuRowNum < s.f.down && 0 <= yoffset < mcuRowsPerImcuRow
      requires mode == FirstPass || mode == LaterPass ==> Buffered(s, buffers, imcuRowNum)
      requires |delivered| == McuRow(s, imcuRowNum, yoffset) * McusPerRow(s.f, s.ids) + mcuCtr
      requires forall n :: 0 <= n < |delivered| ==> NthMcu(s, delivered[n], n)
      modifies this`mcuCtr, this`delivered
      ensures forall n :: 0 <= n < |delivered| ==> NthMcu(s, delivered[n], n)
      ensures old(delivered) <= delivered && left >= -1
      ensures left == -1 ==> && 0 <= mcuCtr < McusPerRow(s.f, s.ids) && |delivered| == |old(delivered)| + accepts
                             && |delivered| == McuRow(s, imcuRowNum, yoffset) * McusPerRow(s.f, s.ids) + mcuCtr
      ensures left >= 0 ==> && mcuCtr == 0 && |delivered| == |old(delivered)| + accepts - left
                            && |delivered| == (McuRow(s, imcuRowNum, yoffset) + 1) * McusPerRow(s.f, s.ids)
    {
      hide NthMcu, Whole, McuRow;
      ghost var row := McuRow(s, imcuRowNum, yoffset);
      RowNotNegative(s, imcuRowNum, yoffset);
      left := accepts;
      var col := mcuCtr;
      while col < McusPerRow(s.f, s.ids)
        invariant 0 <= col <= McusPerRow(s.f, s.ids) && left >= 0 && |delivered| == |old(delivered)| + accepts - left
        invariant |delivered| == row * McusPerRow(s.f, s.ids) + col && old(delivered) <= delivered
        invariant forall n :: 0 <= n < |delivered| ==> NthMcu(s, delivered[n], n)
      {
        var mcu := Build(yoffset, col);
        if left == 0 {
          mcuCtr := col;
          return -1;
        }
        Numbered(s, mcu, row, col);
        left := left - 1;
        delivered := delivered + [mcu];
        col := col + 1;
      }
      RowDone(row, McusPerRow(s.f, s.ids));
      mcuCtr := 0;
    }

    /** The rest of the MCU rows of an iMCU row. */
    method CompressRows(accepts: nat) returns (done: bool)
      requires s.Ok() && Counters() && DeliveredOk() && imcuRowNum < s.f.down
      requires mode == FirstPass || mode == LaterPass ==> Buffered(s, buffers, imcuRowNum)
      modifies this`mcuCtr, this`mcuVertOffset, this`delivered
      ensures old(delivered) <= delivered && forall n :: 0 <= n < |delivered| ==> NthMcu(s, delivered[n], n)
      ensures !done ==> Counters() && DeliveredOk() && |delivered| == |old(delivered)| + accepts
      ensures done ==> mcuCtr == 0 && |delivered| <= |old(delivered)| + accepts
      ensures done ==> |delivered| == NextRow(s, imcuRowNum, RowsPerImcu(s, imcuRowNum)) * McusPerRow(s.f, s.ids)
    {
      hide NthMcu, Whole, Buffered, RowsPerImcu;
      SingleRow(s, imcuRowNum, mcuVertOffset);
      var left: int := accepts;
      var yoffset := mcuVertOffset;
      while yoffset < mcuRowsPerImcuRow
        invariant Counters() && 0 <= yoffset <= mcuRowsPerImcuRow && (yoffset == mcuRowsPerImcuRow ==> mcuCtr == 0)
        invariant |delivered| == NextRow(s, imcuRowNum, yoffset) * McusPerRow(s.f, s.ids) + mcuCtr
        invariant forall n :: 0 <= n < |delivered| ==> NthMcu(s, delivered[n], n)
        invariant left >= 0 && |delivered| == |old(delivered)| + accepts - left && old(delivered) <= delivered
      {
        RowNotNegative(s, imcuRowNum, yoffset);
        SingleRow(s, imcuRowNum, yoffset);
        left := CompressRow(yoffset, left);
        if left < 0 {
          mcuVertOffset := yoffset;
          return false;
        }
        yoffset := yoffset + 1;
      }
      return true;
    }

    /** One iMCU row; the entropy coder accepts so many MCUs before it has to suspend. */
    method CompressData(accepts: nat) returns (done: bool)
      requires Valid() && imcuRowNum < s.f.down
      modifies this`imcuRowNum, this`mcuCtr, this`mcuVertOffset, this`mcuRowsPerImcuRow, this`delivered
      modifies set b | b in buffers
      ensures Valid() && old(delivered) <= delivered
      ensures imcuRowNum == old(imcuRowNum) + if done then 1 else 0
      ensures if done then |delivered| <= |old(delivered)| + accepts else |delivered| == |old(delivered)| + accepts
    {
      if mode == FirstPass {
        LoadStrip();
      }
      hide NthMcu, Whole, Buffered, RowsPerImcu;
      done := CompressRows(accepts);
      if done {
        NextImcuRow();
      }
    }

    method NextImcuRow()
      requires s.Ok() && BuffersOk() && Loaded() && 0 <= imcuRowNum < s.f.down
      requires mode == FirstPass ==> Buffered(s, buffers, imcuRowNum)
      requires mcuCtr == 0 && |delivered| == NextRow(s, imcuRowNum, RowsPerImcu(s, imcuRowNum)) * McusPerRow(s.f, s.ids)
      requires forall n :: 0 <= n < |delivered| ==> NthMcu(s, delivered[n], n)
      modifies this`imcuRowNum, this`mcuCtr, this`mcuVertOffset, this`mcuRowsPerImcuRow
      ensures Valid() && imcuRowNum == old(imcuRowNum) + 1
    {
      hide NthMcu, Buffered;
      ImcuDone(s, imcuRowNum);
      imcuRowNum := imcuRowNum + 1;
      StartImcuRow();
    }
  }

  /** After the first pass the buffers serve any scan of the same image. */
  lemma BuffersServeAll(first: CoefController, s: Source)
    requires first.Valid() && first.mode == FirstPass && first.imcuRowNum == first.s.f.down
    requires s.Ok() && s.f == first.s.f && s.data == first.s.data
    ensures forall n :: 0 <= n < s.f.down ==> Buffered(s, first.buffers, n)
  {
    hide FilledRows;
    forall n | 0 <= n < s.f.down
      ensures Buffered(s, first.buffers, n)
    {
      assert Buffered(first.s, first.buffers, n);
      forall c | 0 <= c < |s.f.comps|
        ensures BufferedRows(s, first.buffers[c], c, n)
      {
        assert BufferedRows(first.s, first.buffers[c], c, n);
      }
    }
  }

  /** All three ways, however often they were suspended, send the entropy coder the same MCUs. */
  lemma SameMcus(a: CoefController, b: CoefController)
    requires a.Valid() && b.Valid() && a.s == b.s && a.imcuRowNum == b.imcuRowNum == a.s.f.down
    ensures a.delivered == b.delivered && |a.delivered| == McuRows(a.s.f, a.s.ids) * McusPerRow(a.s.f, a.s.ids)
  {
    hide Source.Contents;
    forall n | 0 <= n < |a.delivered|
      ensures a.delivered[n] == b.delivered[n]
    {
      assert NthMcu(a.s, a.delivered[n], n) && NthMcu(b.s, b.delivered[n], n);
    }
  }

  /** What the entropy coder gets, in order: MCU number n holds the blocks that belong there, the
      position of a block in it being counted from the components before. */
  lemma DeliveredBlocks(a: CoefController, n: nat, i: nat, y: int, x: int)
    requires a.Valid() && n < |a.delivered| && n < McuRows(a.s.f, a.s.ids) * McusPerRow(a.s.f, a.s.ids)
    requires i < |a.s.ids| && 0 <= y < McuHeight(a.s.f, a.s.ids, i) && 0 <= x < McuWidth(a.s.f, a.s.ids, i)
    ensures McusPerRow(a.s.f, a.s.ids) >= 1
    ensures var w, h, at := McuWidth(a.s.f, a.s.ids, i), McuHeight(a.s.f, a.s.ids, i), McuSize(a.s, i);
            var row, col := n / McusPerRow(a.s.f, a.s.ids) * h + y, n % McusPerRow(a.s.f, a.s.ids) * w + x;
            && 0 <= at + y * w + x < |a.delivered[n]|
            && var b := a.delivered[n][at + y * w + x];
               && (row < a.s.At(i).height && col < a.s.At(i).width ==> b == a.s.data(a.s.ids[i], row, col))
               && (row < a.s.At(i).height && col >= a.s.At(i).width ==>
                     && x > 0 && at + y * w + x > 0 && b[0] == a.delivered[n][at + y * w + x - 1][0]
                     && forall j :: 1 <= j < 64 ==> b[j] == 0)
               && (row >= a.s.At(i).height ==>
                     && y > 0 && 0 <= at + y * w - 1 < |a.delivered[n]| && b[0] == a.delivered[n][at + y * w - 1][0]
                     && forall j :: 1 <= j < 64 ==> b[j] == 0)
  {
    ColumnsExist(a.s);
    var rows, cols := McuRows(a.s.f, a.s.ids), McusPerRow(a.s.f, a.s.ids);
    assert NthMcu(a.s, a.delivered[n], n);
    RowOf(n, rows, cols);
    hide CoefController.Valid, Whole, McuSize;
    BlocksDelivered(a.s, a.delivered[n], i, n / cols, n % cols, y, x);
  }

  lemma RowOf(n: nat, rows: int, cols: int)
    requires cols >= 1 && n < rows * cols
    ensures 0 <= n / cols < rows && 0 <= n % cols < cols
  {
    if n / cols >= rows {
      MulMono(rows, n / cols, cols);
      assert false;
    }
  }
}
