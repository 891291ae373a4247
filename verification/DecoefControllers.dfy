/** The coefficient controllers of the decompressor: the entropy decoder's MCUs are shown at
    once, or stored in arrays for the whole image and shown from there. Either may be suspended
    at any MCU. */
module DecoefControllers {
  import opened Bits
  import opened Scans
  import opened McuLayout
  import opened CoefControllers
  import L = ScanLayout

  // Which blocks have been decoded.

  /** The block is one of the MCU at (mrow, mcol). */
  ghost predicate InMcu(s: Source, i: nat, row: int, col: int, mrow: int, mcol: int)
    requires s.Ok() && i < |s.ids|
  {
    assert Fits(s.At(i), s.f.across, s.f.down);
    row >= 0 && col >= 0 && row / McuHeight(s.f, s.ids, i) == mrow && col / McuWidth(s.f, s.ids, i) == mcol
  }

  /** The block is one of an MCU before that at (mrow, mcol). */
  ghost predicate Before(s: Source, i: nat, row: int, col: int, mrow: int, mcol: int)
    requires s.Ok() && i < |s.ids|
  {
    assert Fits(s.At(i), s.f.across, s.f.down);
    var y, x := row / McuHeight(s.f, s.ids, i), col / McuWidth(s.f, s.ids, i);
    row >= 0 && col >= 0 && x < McusPerRow(s.f, s.ids) && (y < mrow || (y == mrow && x < mcol))
  }

  lemma BeforeNext(s: Source, i: nat, row: int, col: int, mrow: int, mcol: int)
    requires s.Ok() && i < |s.ids| && 0 <= mcol < McusPerRow(s.f, s.ids)
    ensures Before(s, i, row, col, mrow, mcol + 1) <==>
            Before(s, i, row, col, mrow, mcol) || InMcu(s, i, row, col, mrow, mcol)
    ensures !(Before(s, i, row, col, mrow, mcol) && InMcu(s, i, row, col, mrow, mcol))
  {
  }

  lemma BeforeNextRow(s: Source, i: nat, row: int, col: int, mrow: int)
    requires s.Ok() && i < |s.ids|
    ensures Before(s, i, row, col, mrow + 1, 0) <==> Before(s, i, row, col, mrow, McusPerRow(s.f, s.ids))
  {
    assert Fits(s.At(i), s.f.across, s.f.down);
    var w := McuWidth(s.f, s.ids, i);
    if row >= 0 && col >= 0 {
      assert col / w >= 0;
    }
  }

  /** Every real block is one of some MCU. */
  lemma RealBlockIsCoded(s: Source, i: nat, row: int, col: int)
    requires s.Ok() && i < |s.ids| && 0 <= row < s.At(i).height && 0 <= col < s.At(i).width
    ensures Before(s, i, row, col, McuRows(s.f, s.ids), 0)
  {
    assert Fits(s.At(i), s.f.across, s.f.down);
    L.InsideBands(row, McuHeight(s.f, s.ids, i), McuRows(s.f, s.ids), s.At(i).height);
    L.InsideBands(col, McuWidth(s.f, s.ids, i), McusPerRow(s.f, s.ids), s.At(i).width);
  }

  /** The list of an MCU's blocks has them all, once each, and no others. */
  lemma ListedInMcu(s: Source, i: nat, row: int, col: int, mrow: int, mcol: int)
    requires s.Ok() && i < |s.ids| && 0 <= mrow < McuRows(s.f, s.ids) && 0 <= mcol < McusPerRow(s.f, s.ids)
    ensures Cell(i, row, col) in McuCells(s.f, s.ids, |s.ids|, mrow, mcol) <==> InMcu(s, i, row, col, mrow, mcol)
    ensures L.NoTwice(McuCells(s.f, s.ids, |s.ids|, mrow, mcol))
  {
    hide McuCells, InMcu;
    var cells := McuCells(s.f, s.ids, |s.ids|, mrow, mcol);
    L.McuIsProper(s.f, s.ids, |s.ids|, mrow, mcol);
    if Cell(i, row, col) in cells {
      var k :| 0 <= k < |cells| && cells[k] == Cell(i, row, col);
      OfThisMcu(s, cells[k], mrow, mcol);
    }
    if InMcu(s, i, row, col, mrow, mcol) {
      IsListed(s, i, row, col, mrow, mcol);
    }
  }

  lemma OfThisMcu(s: Source, cell: Cell, mrow: int, mcol: int)
    requires s.Ok() && L.Belongs(s.f, s.ids, cell, mrow, mcol)
    ensures InMcu(s, cell.comp, cell.row, cell.col, mrow, mcol)
  {
  }

  lemma IsListed(s: Source, i: nat, row: int, col: int, mrow: int, mcol: int)
    requires s.Ok() && i < |s.ids| && InMcu(s, i, row, col, mrow, mcol)
    ensures Cell(i, row, col) in McuCells(s.f, s.ids, |s.ids|, mrow, mcol)
  {
    hide McuCells;
    assert Fits(s.At(i), s.f.across, s.f.down);
    var w, h := McuWidth(s.f, s.ids, i), McuHeight(s.f, s.ids, i);
    QuotientAndRest(row, h);
    QuotientAndRest(col, w);
    L.CellIsThere(s.f, s.ids, |s.ids|, i, mrow, mcol, row % h, col % w);
  }

  lemma QuotientAndRest(a: int, b: int)
    requires a >= 0 && b >= 1
    ensures a == a / b * b + a % b && 0 <= a % b < b && 0 <= a / b
  {
  }

  // What the entropy decoder does to a block.

  /** It stores the DC coefficient and the nonzero AC coefficients, as far as they have arrived;
      the others are left as they were. */
  function Deposit(was: Block, b: Block, arrived: nat -> bool): Block {
    seq(64, j requires 0 <= j < 64 => if (j == 0 || b[j] != 0) && arrived(j) then b[j] else was[j])
  }

  /** A try at block k of an MCU, with all data or with some of it. */
  function Tried(was: Block, b: Block, k: nat, more: bool, arrived: (nat, nat) -> bool): Block {
    Deposit(was, b, (j: nat) => more || arrived(k, j))
  }

  /** Every AC coefficient is zero or what it is to become. */
  ghost predicate Partial(was: Block, b: Block) {
    forall j :: 1 <= j < 64 ==> was[j] == 0 || was[j] == b[j]
  }

  /** From zeros, whatever tries were made before, a block becomes what was coded, or is left
      so that the next try can make it that. */
  lemma TryAgain(was: Block, b: Block, k: nat, more: bool, arrived: (nat, nat) -> bool)
    requires Partial(was, b)
    ensures if more then Tried(was, b, k, more, arrived) == b else Partial(Tried(was, b, k, more, arrived), b)
  {
    var now := Tried(was, b, k, more, arrived);
    forall j | 0 <= j < 64
      ensures more ==> now[j] == b[j]
      ensures j > 0 ==> now[j] == 0 || now[j] == b[j]
    {
    }
  }

  /** So the decoder depends on zeroed blocks: what was left where a coefficient is zero stays. */
  lemma OnlyFromZeros(was: Block, b: Block, k: nat, arrived: (nat, nat) -> bool)
    ensures Tried(was, b, k, true, arrived) == b <==> forall j :: 1 <= j < 64 && b[j] == 0 ==> was[j] == 0
  {
    var now := Tried(was, b, k, true, arrived);
    forall j | 0 <= j < 64
      ensures now[j] == if j == 0 || b[j] != 0 then b[j] else was[j]
    {
    }
  }

  // Storing the MCUs.

  /** The list of the blocks of the MCU. */
  method McuPlaces(s: Source, imcu: int, yoffset: int, col: int) returns (places: seq<Cell>)
    requires s.Ok() && Inside(s, imcu, yoffset, col)
    ensures places == McuCells(s.f, s.ids, |s.ids|, McuRow(s, imcu, yoffset), col)
  {
    hide Inside, McuRow;
    ghost var row := McuRow(s, imcu, yoffset);
    places := [];
    for ci := 0 to |s.ids|
      invariant places == McuCells(s.f, s.ids, ci, row, col)
    {
      places := CompPlaces(s, places, ci, imcu, yoffset, col);
    }
  }

  method CompPlaces(s: Source, places0: seq<Cell>, ci: nat, imcu: int, yoffset: int, col: int)
    returns (places: seq<Cell>)
    requires s.Ok() && ci < |s.ids| && Inside(s, imcu, yoffset, col)
    requires places0 == McuCells(s.f, s.ids, ci, McuRow(s, imcu, yoffset), col)
    ensures places == McuCells(s.f, s.ids, ci + 1, McuRow(s, imcu, yoffset), col)
  {
    hide Inside, McuRow;
    ghost var row := McuRow(s, imcu, yoffset);
    ghost var cells := CompCells(s.f, s.ids, ci, row, col);
    var w, h := McuWidth(s.f, s.ids, ci), McuHeight(s.f, s.ids, ci);
    var startCol := col * w;
    places := places0;
    assert cells[..0] == [];
    for yindex := 0 to h
      invariant 0 <= yindex * w + 0 <= |cells| && places == places0 + cells[..yindex * w + 0]
    {
      for xindex := 0 to w
        invariant 0 <= yindex * w + xindex <= |cells| && places == places0 + cells[..yindex * w + xindex]
      {
        InArray(s, ci, imcu, yoffset, col, yindex, xindex);
        PlaceOf(s, ci, row, col, yindex, xindex);
        places := places + [Cell(ci, imcu * s.At(ci).v + (yindex + yoffset), startCol + xindex)];
        assert cells[..yindex * w + xindex + 1] == cells[..yindex * w + xindex] + [cells[yindex * w + xindex]];
      }
      RowDone(yindex, w);
    }
    assert cells[..|cells|] == cells;
  }

  /** A block of an MCU before that at (mrow, mcol) is what was coded, any other one is zero, or
      partly what was coded. */
  ghost predicate BlockOk(s: Source, i: nat, row: int, col: int, mrow: int, mcol: int, b: Block)
    requires s.Ok() && i < |s.ids|
  {
    var coded := s.BlockAt(Cell(i, row, col));
    if Before(s, i, row, col, mrow, mcol) then b == coded else Partial(b, coded)
  }

  /** So are all blocks of component i in its array. */
  ghost predicate Stored(s: Source, buffer: array2<Block>, i: nat, mrow: int, mcol: int)
    requires s.Ok() && i < |s.ids|
    reads buffer
  {
    forall row, col :: 0 <= row < buffer.Length0 && 0 <= col < buffer.Length1 ==>
      BlockOk(s, i, row, col, mrow, mcol, buffer[row, col])
  }

  /** The arrays of the scan's components are zeroed. */
  ghost predicate Zeroed(s: Source, buffers: seq<array2<Block>>)
    requires s.Ok() && |buffers| == |s.f.comps|
    reads buffers
  {
    forall i, row, col ::
      (0 <= i < |s.ids| && 0 <= row < buffers[s.ids[i]].Length0 && 0 <= col < buffers[s.ids[i]].Length1) ==>
        buffers[s.ids[i]][row, col] == Dummy(0)
  }

  /** The components of a scan are different ones. */
  ghost predicate NoComponentTwice(ids: seq<nat>) {
    forall i, j :: 0 <= i < j < |ids| ==> ids[i] != ids[j]
  }

  ghost predicate BuffersCover(f: Frame, buffers: seq<array2<Block>>) {
    && |buffers| == |f.comps|
    && (forall c :: 0 <= c < |buffers| ==> Covers(buffers[c], f.comps[c], f.across, f.down))
    && (forall c, d :: 0 <= c < d < |buffers| ==> buffers[c] != buffers[d])
  }

  /** The MCUs of a whole scan, as the compressor's controllers deliver them. */
  ghost predicate CodedScan(s: Source, coded: seq<seq<Block>>)
    requires s.Ok()
  {
    |coded| == McuRows(s.f, s.ids) * McusPerRow(s.f, s.ids) && forall n :: 0 <= n < |coded| ==> NthMcu(s, coded[n], n)
  }

  /** The MCU number next is that at (mrow, mcol). */
  lemma McuIsNext(s: Source, coded: seq<seq<Block>>, mrow: int, mcol: int, next: nat)
    requires s.Ok() && CodedScan(s, coded) && 0 <= mrow < McuRows(s.f, s.ids) && 0 <= mcol < McusPerRow(s.f, s.ids)
    requires next == mrow * McusPerRow(s.f, s.ids) + mcol
    ensures next < |coded| && Whole(s, coded[next], |s.ids|, mrow, mcol)
  {
    hide Whole;
    ColumnsExist(s);
    Remainder(next, McusPerRow(s.f, s.ids), mrow, mcol);
    MulMono(mrow + 1, McuRows(s.f, s.ids), McusPerRow(s.f, s.ids));
    RowDone(mrow, McusPerRow(s.f, s.ids));
    assert NthMcu(s, coded[next], next);
  }

  /** The row of MCUs at yoffset is one of the scan. */
  lemma RowExists(s: Source, imcu: int, yoffset: int)
    requires s.Ok() && 0 <= imcu < s.f.down && 0 <= yoffset < RowsPerImcu(s, imcu)
    ensures 0 <= McuRow(s, imcu, yoffset) < McuRows(s.f, s.ids)
  {
    var c := s.At(0);
    assert Fits(c, s.f.across, s.f.down);
    RowsOfImcu(c, s.f.across, s.f.down, imcu);
  }

  class ConsumeController {
    const s: Source
    const buffers: seq<array2<Block>>  // arrays for the whole image
    const coded: seq<seq<Block>>       // the MCUs of the scan

    var inputImcuRow: int
    var mcuCtr: int
    var mcuVertOffset: int
    var mcuRowsPerImcuRow: int
    var next: nat                      // the MCU that the entropy decoder is at

    ghost predicate Shape() {
      s.Ok() && NoComponentTwice(s.ids) && BuffersCover(s.f, buffers) && CodedScan(s, coded)
    }

    ghost predicate Counters()
      requires s.Ok()
      reads this
    {
      && 0 <= inputImcuRow <= s.f.down
      && (inputImcuRow < s.f.down ==>
            && mcuRowsPerImcuRow == RowsPerImcu(s, inputImcuRow) && 0 <= mcuVertOffset < mcuRowsPerImcuRow
            && 0 <= mcuCtr < McusPerRow(s.f, s.ids))
      && (inputImcuRow == s.f.down ==> mcuCtr == 0)
    }

    /** The row of MCUs at hand. */
    ghost function Row(): int
      requires s.Ok()
      reads this`inputImcuRow, this`mcuVertOffset
    {
      if inputImcuRow == s.f.down then McuRows(s.f, s.ids) else McuRow(s, inputImcuRow, mcuVertOffset)
    }

    /** Everything before the MCU at (mrow, mcol) is in the arrays. */
    ghost predicate StoredUpTo(mrow: int, mcol: int)
      requires s.Ok() && BuffersCover(s.f, buffers)
      reads buffers
    {
      forall i :: 0 <= i < |s.ids| ==> Stored(s, buffers[s.ids[i]], i, mrow, mcol)
    }

    ghost predicate Valid()
      reads this, buffers
    {
      && Shape() && Counters() && next == Row() * McusPerRow(s.f, s.ids) + mcuCtr && StoredUpTo(Row(), mcuCtr)
    }

    /** The block is in the arrays. */
    ghost predicate Placed(cell: Cell)
      requires BuffersCover(s.f, buffers)
    {
      && cell.comp < |s.ids| && s.ids[cell.comp] < |buffers|
      && 0 <= cell.row < buffers[s.ids[cell.comp]].Length0 && 0 <= cell.col < buffers[s.ids[cell.comp]].Length1
    }

    ghost function At(cell: Cell): Block
      requires BuffersCover(s.f, buffers) && Placed(cell)
      reads buffers
    {
      buffers[s.ids[cell.comp]][cell.row, cell.col]
    }

    ghost predicate AllPlaced(places: seq<Cell>)
      requires BuffersCover(s.f, buffers)
    {
      forall k :: 0 <= k < |places| ==> Placed(places[k])
    }

    /** The block of component c is on the list. */
    ghost predicate Touched(places: seq<Cell>, c: nat, row: int, col: int) {
      exists k :: 0 <= k < |places| && IsAt(places[k], c, row, col)
    }

    ghost predicate IsAt(cell: Cell, c: nat, row: int, col: int) {
      cell.comp < |s.ids| && s.ids[cell.comp] == c && cell.row == row && cell.col == col
    }

    /** Only the blocks on the list may have changed. */
    twostate predicate OnlyThese(places: seq<Cell>)
      reads buffers
    {
      forall c, row, col ::
        (0 <= c < |buffers| && 0 <= row < buffers[c].Length0 && 0 <= col < buffers[c].Length1
         && !Touched(places, c, row, col)) ==>
          buffers[c][row, col] == old(buffers[c][row, col])
    }

    /** The entropy decoder tries to decode the blocks on the list. */
    method Put(places: seq<Cell>, blocks: seq<Block>, more: bool, arrived: (nat, nat) -> bool)
      requires Shape() && AllPlaced(places) && L.NoTwice(places) && |blocks| == |places|
      modifies set b | b in buffers
      ensures forall k :: 0 <= k < |places| ==> At(places[k]) == Tried(old(At(places[k])), blocks[k], k, more, arrived)
      ensures OnlyThese(places)
    {
      hide CodedScan, Source.Ok, Covers, Tried;
      for k := 0 to |places|
        invariant forall j :: 0 <= j < k ==> At(places[j]) == Tried(old(At(places[j])), blocks[j], j, more, arrived)
        invariant forall j :: k <= j < |places| ==> At(places[j]) == old(At(places[j]))
        invariant OnlyThese(places)
      {
        var c, row, col := s.ids[places[k].comp], places[k].row, places[k].col;
        assert IsAt(places[k], c, row, col);
        buffers[c][row, col] := Tried(buffers[c][row, col], blocks[k], k, more, arrived);
      }
    }

    /** The arrays of the other components are left alone. */
    twostate predicate OthersKept()
      reads buffers
    {
      forall c, row, col ::
        (0 <= c < |buffers| && 0 <= row < buffers[c].Length0 && 0 <= col < buffers[c].Length1 && c !in s.ids) ==>
          buffers[c][row, col] == old(buffers[c][row, col])
    }

    /** The blocks of an MCU, and where they are. */
    lemma PlacesOfMcu(imcu: int, yoffset: int, mcol: int)
      requires Shape() && Inside(s, imcu, yoffset, mcol)
      ensures AllPlaced(McuCells(s.f, s.ids, |s.ids|, McuRow(s, imcu, yoffset), mcol))
      ensures L.NoTwice(McuCells(s.f, s.ids, |s.ids|, McuRow(s, imcu, yoffset), mcol))
    {
      RowExists(s, imcu, yoffset);
      hide McuCells, McuRow;
      var mrow := McuRow(s, imcu, yoffset);
      var cells := McuCells(s.f, s.ids, |s.ids|, mrow, mcol);
      L.McuIsProper(s.f, s.ids, |s.ids|, mrow, mcol);
      forall k | 0 <= k < |cells|
        ensures Placed(cells[k])
      {
        assert L.Belongs(s.f, s.ids, cells[k], mrow, mcol);
      }
    }

    /** A list of the blocks of one MCU has no others. */
    lemma NotTouched(places: seq<Cell>, i: nat, row: int, col: int, mrow: int, mcol: int)
      requires s.Ok() && NoComponentTwice(s.ids) && i < |s.ids|
      requires 0 <= mrow < McuRows(s.f, s.ids) && 0 <= mcol < McusPerRow(s.f, s.ids)
      requires places == McuCells(s.f, s.ids, |s.ids|, mrow, mcol) && !InMcu(s, i, row, col, mrow, mcol)
      ensures !Touched(places, s.ids[i], row, col)
    {
      ListedInMcu(s, i, row, col, mrow, mcol);
      hide McuCells, InMcu;
      forall k | 0 <= k < |places|
        ensures !IsAt(places[k], s.ids[i], row, col)
      {
        assert places[k] in places;
      }
    }

    /** So a block on the list becomes what it should be, and one not on the list stays so. */
    lemma BlockIsRight(places: seq<Cell>, blocks: seq<Block>, i: nat, row: int, col: int, mrow: int, mcol: int,
                       more: bool, arrived: (nat, nat) -> bool, was: Block, now: Block)
      requires s.Ok() && NoComponentTwice(s.ids) && i < |s.ids|
      requires 0 <= mrow < McuRows(s.f, s.ids) && 0 <= mcol < McusPerRow(s.f, s.ids)
      requires places == McuCells(s.f, s.ids, |s.ids|, mrow, mcol) && Whole(s, blocks, |s.ids|, mrow, mcol)
      requires |blocks| == |places| && BlockOk(s, i, row, col, mrow, mcol, was)
      requires !Touched(places, s.ids[i], row, col) ==> now == was
      requires forall k :: 0 <= k < |places| && places[k] == Cell(i, row, col) ==>
                 now == Tried(was, blocks[k], k, more, arrived)
      ensures BlockOk(s, i, row, col, mrow, if more then mcol + 1 else mcol, now)
    {
      hide McuCells, InMcu, Before, Whole, Touched, Source.BlockAt, L.NoTwice, Tried, Partial;
      BeforeNext(s, i, row, col, mrow, mcol);
      if InMcu(s, i, row, col, mrow, mcol) {
        ListedInMcu(s, i, row, col, mrow, mcol);
        var k :| 0 <= k < |places| && places[k] == Cell(i, row, col);
        ContentsAt(s, blocks, mrow, mcol, k);
        TryAgain(was, blocks[k], k, more, arrived);
      } else {
        NotTouched(places, i, row, col, mrow, mcol);
      }
    }

    /** Block by block, from what the arrays held before. */
    lemma BlocksAreRight(places: seq<Cell>, blocks: seq<Block>, mrow: int, mcol: int,
                         more: bool, arrived: (nat, nat) -> bool, was: Cell -> Block)
      requires Shape() && 0 <= mrow < McuRows(s.f, s.ids) && 0 <= mcol < McusPerRow(s.f, s.ids)
      requires places == McuCells(s.f, s.ids, |s.ids|, mrow, mcol) && Whole(s, blocks, |s.ids|, mrow, mcol)
      requires |blocks| == |places| && AllPlaced(places)
      requires forall i, row, col :: 0 <= i < |s.ids| && Placed(Cell(i, row, col)) ==>
                 BlockOk(s, i, row, col, mrow, mcol, was(Cell(i, row, col)))
      requires forall k :: 0 <= k < |places| ==> At(places[k]) == Tried(was(places[k]), blocks[k], k, more, arrived)
      requires forall i, row, col :: 0 <= i < |s.ids| && Placed(Cell(i, row, col)) ==>
                 Touched(places, s.ids[i], row, col) || At(Cell(i, row, col)) == was(Cell(i, row, col))
      ensures StoredUpTo(mrow, if more then mcol + 1 else mcol)
    {
      hide McuCells, Whole, CodedScan, Before, InMcu, Source.BlockAt, L.NoTwice, Touched, Covers, BlockOk, Tried;
      forall i, row, col | 0 <= i < |s.ids| && Placed(Cell(i, row, col))
        ensures BlockOk(s, i, row, col, mrow, if more then mcol + 1 else mcol, buffers[s.ids[i]][row, col])
      {
        BlockIsRight(places, blocks, i, row, col, mrow, mcol, more, arrived,
                     was(Cell(i, row, col)), At(Cell(i, row, col)));
      }
    }

    lemma OthersNotTouched(places: seq<Cell>)
      ensures forall c, row, col :: c !in s.ids ==> !Touched(places, c, row, col)
    {
    }

    lemma NextMcuFacts(yoffset: int, mcol: int)
      requires Shape() && Inside(s, inputImcuRow, yoffset, mcol)
      requires next == McuRow(s, inputImcuRow, yoffset) * McusPerRow(s.f, s.ids) + mcol
      ensures 0 <= McuRow(s, inputImcuRow, yoffset) < McuRows(s.f, s.ids) && 0 <= mcol < McusPerRow(s.f, s.ids)
      ensures next < |coded| && Whole(s, coded[next], |s.ids|, McuRow(s, inputImcuRow, yoffset), mcol)
      ensures var cells := McuCells(s.f, s.ids, |s.ids|, McuRow(s, inputImcuRow, yoffset), mcol);
              |coded[next]| == |cells| && AllPlaced(cells) && L.NoTwice(cells)
    {
      RowExists(s, inputImcuRow, yoffset);
      PlacesOfMcu(inputImcuRow, yoffset, mcol);
      hide McuCells, McuRow, Whole, CodedScan, L.NoTwice;
      McuIsNext(s, coded, McuRow(s, inputImcuRow, yoffset), mcol, next);
      SizeOfMcu(s, coded[next], McuRow(s, inputImcuRow, yoffset), mcol);
    }

    /** One more MCU, or a try that leaves some of it in its blocks. */
    method DecodeMcu(places: seq<Cell>, yoffset: int, mcol: int, more: bool, arrived: (nat, nat) -> bool)
      requires Shape() && Inside(s, inputImcuRow, yoffset, mcol)
      requires places == McuCells(s.f, s.ids, |s.ids|, McuRow(s, inputImcuRow, yoffset), mcol)
      requires next == McuRow(s, inputImcuRow, yoffset) * McusPerRow(s.f, s.ids) + mcol
      requires StoredUpTo(McuRow(s, inputImcuRow, yoffset), mcol)
      modifies this`next, set b | b in buffers
      ensures StoredUpTo(McuRow(s, inputImcuRow, yoffset), if more then mcol + 1 else mcol)
      ensures next == old(next) + (if more then 1 else 0) && OthersKept()
    {
      NextMcuFacts(yoffset, mcol);
      OthersNotTouched(places);
      hide McuCells, McuRow, Whole, CodedScan, Before, InMcu, Source.BlockAt, L.NoTwice, Inside, Touched, Covers,
           NoComponentTwice, Source.Ok, Tried, BlockOk;
      ghost var mrow := McuRow(s, inputImcuRow, yoffset);
      ghost var was: Cell -> Block := cell => if Placed(cell) then old(At(cell)) else Dummy(0);
      var blocks := coded[next];
      Put(places, blocks, more, arrived);
      if more {
        next := next + 1;
      }
      BlocksAreRight(places, blocks, mrow, mcol, more, arrived, was);
    }

    /** The rest of a row of MCUs, as far as there is data. */
    method ConsumeRow(yoffset: int, available: nat, arrived: (nat, nat) -> bool) returns (left: int)
      requires Shape() && Counters() && 0 <= inputImcuRow < s.f.down && 0 <= yoffset < mcuRowsPerImcuRow
      requires next == McuRow(s, inputImcuRow, yoffset) * McusPerRow(s.f, s.ids) + mcuCtr
      requires StoredUpTo(McuRow(s, inputImcuRow, yoffset), mcuCtr)
      modifies this`mcuCtr, this`next, set b | b in buffers
      ensures left >= -1 && OthersKept()
      ensures left == -1 ==> && 0 <= mcuCtr < McusPerRow(s.f, s.ids) && next == old(next) + available
                             && next == McuRow(s, inputImcuRow, yoffset) * McusPerRow(s.f, s.ids) + mcuCtr
                             && StoredUpTo(McuRow(s, inputImcuRow, yoffset), mcuCtr)
      ensures left >= 0 ==> && mcuCtr == 0 && next == old(next) + available - left
                            && next == (McuRow(s, inputImcuRow, yoffset) + 1) * McusPerRow(s.f, s.ids)
                            && StoredUpTo(McuRow(s, inputImcuRow, yoffset) + 1, 0)
    {
      hide McuRow, McuCells, Stored, CodedScan;
      ghost var row := McuRow(s, inputImcuRow, yoffset);
      left := available;
      var col := mcuCtr;
      while col < McusPerRow(s.f, s.ids)
        invariant 0 <= col <= McusPerRow(s.f, s.ids) && left >= 0 && next == old(next) + available - left
        invariant next == row * McusPerRow(s.f, s.ids) + col && StoredUpTo(row, col) && OthersKept()
      {
        var places := McuPlaces(s, inputImcuRow, yoffset, col);
        DecodeMcu(places, yoffset, col, left > 0, arrived);
        if left == 0 {
          mcuCtr := col;
          return -1;
        }
        left := left - 1;
        col := col + 1;
      }
      RowDone(row, McusPerRow(s.f, s.ids));
      RowStored(row);
      mcuCtr := 0;
    }

    lemma RowStored(mrow: int)
      requires Shape() && StoredUpTo(mrow, McusPerRow(s.f, s.ids))
      ensures StoredUpTo(mrow + 1, 0)
    {
      hide Before, Source.BlockAt, Partial;
      forall i, row, col | 0 <= i < |s.ids| && Placed(Cell(i, row, col))
        ensures BlockOk(s, i, row, col, mrow + 1, 0, At(Cell(i, row, col)))
      {
        BeforeNextRow(s, i, row, col, mrow);
      }
    }

    /** The rest of the MCU rows of an iMCU row. */
    method ConsumeRows(available: nat, arrived: (nat, nat) -> bool) returns (done: bool, left: nat)
      requires Valid() && inputImcuRow < s.f.down
      modifies this`mcuCtr, this`mcuVertOffset, this`next, set b | b in buffers
      ensures OthersKept() && next == old(next) + available - left
      ensures !done ==> Valid() && left == 0
      ensures done ==> mcuCtr == 0 && StoredUpTo(NextRow(s, inputImcuRow, RowsPerImcu(s, inputImcuRow)), 0)
      ensures done ==> next == NextRow(s, inputImcuRow, RowsPerImcu(s, inputImcuRow)) * McusPerRow(s.f, s.ids)
    {
      hide McuCells, Stored, CodedScan, RowsPerImcu;
      SingleRow(s, inputImcuRow, mcuVertOffset);
      left := available;
      var yoffset := mcuVertOffset;
      while yoffset < mcuRowsPerImcuRow
        invariant Counters() && 0 <= yoffset <= mcuRowsPerImcuRow && (yoffset == mcuRowsPerImcuRow ==> mcuCtr == 0)
        invariant next == NextRow(s, inputImcuRow, yoffset) * McusPerRow(s.f, s.ids) + mcuCtr
        invariant StoredUpTo(NextRow(s, inputImcuRow, yoffset), mcuCtr)
        invariant next == old(next) + available - left && OthersKept()
      {
        RowNotNegative(s, inputImcuRow, yoffset);
        SingleRow(s, inputImcuRow, yoffset);
        var rest := ConsumeRow(yoffset, left, arrived);
        if rest < 0 {
          mcuVertOffset, left := yoffset, 0;
          return false, 0;
        }
        left := rest;
        yoffset := yoffset + 1;
      }
      return true, left;
    }

    method StartImcuRow()
      requires s.Ok() && 0 <= inputImcuRow < s.f.down
      modifies this`mcuCtr, this`mcuVertOffset, this`mcuRowsPerImcuRow
      ensures mcuCtr == 0 && mcuVertOffset == 0 && mcuRowsPerImcuRow == RowsPerImcu(s, inputImcuRow)
    {
      if |s.ids| > 1 {
        mcuRowsPerImcuRow := 1;
      } else if inputImcuRow < s.f.down - 1 {
        mcuRowsPerImcuRow := s.At(0).v;
      } else {
        mcuRowsPerImcuRow := LastRowHeight(s, 0);
      }
      mcuCtr := 0;
      mcuVertOffset := 0;
    }

    /** The arrays have to be zeroed. */
    constructor (s: Source, buffers: seq<array2<Block>>, coded: seq<seq<Block>>)
      requires s.Ok() && NoComponentTwice(s.ids) && BuffersCover(s.f, buffers) && CodedScan(s, coded)
      requires Zeroed(s, buffers)
      ensures Valid() && this.s == s && this.buffers == buffers && this.coded == coded && inputImcuRow == 0
    {
      this.s, this.buffers, this.coded := s, buffers, coded;
      inputImcuRow, mcuCtr, mcuVertOffset, next := 0, 0, 0, 0;
      mcuRowsPerImcuRow := RowsPerImcu(s, 0);
      RowsAddUp(s, 0);
      ColumnsExist(s);
      new;
      NothingStored();
    }

    lemma NothingStored()
      requires Shape() && Zeroed(s, buffers)
      ensures StoredUpTo(0, 0)
    {
      hide CodedScan, Source.BlockAt;
      forall i, row, col | 0 <= i < |s.ids| && Placed(Cell(i, row, col))
        ensures BlockOk(s, i, row, col, 0, 0, At(Cell(i, row, col)))
      {
        assert Fits(s.At(i), s.f.across, s.f.down);
        assert At(Cell(i, row, col)) == Dummy(0);
      }
    }

    /** Read an iMCU row, as far as there is data; this many MCUs' worth is left after it. */
    method ConsumeData(available: nat, arrived: (nat, nat) -> bool) returns (r: Outcome, left: nat)
      requires Valid() && inputImcuRow < s.f.down
      modifies this, set b | b in buffers
      ensures Valid() && OthersKept() && next == old(next) + available - left
      ensures r == Suspended ==> left == 0 && inputImcuRow == old(inputImcuRow)
      ensures r != Suspended ==> inputImcuRow == old(inputImcuRow) + 1
      ensures r == ScanCompleted <==> inputImcuRow == s.f.down
    {
      hide Stored, CodedScan, NextRow, McuRow, RowsPerImcu;
      var done;
      done, left := ConsumeRows(available, arrived);
      if !done {
        return Suspended, 0;
      }
      ImcuDone(s, inputImcuRow);
      inputImcuRow := inputImcuRow + 1;
      if inputImcuRow < s.f.down {
        StartImcuRow();
        return RowCompleted, left;
      }
      return ScanCompleted, left;
    }

    /** Real blocks of the rows that have been read are in the arrays, wherever the reading was
        suspended. */
    lemma RowsAreStored(i: nat, row: int, col: int)
      requires Valid() && i < |s.ids| && 0 <= col < s.At(i).width && 0 <= row < s.At(i).height
      requires row < inputImcuRow * s.At(i).v
      ensures Fits(s.At(i), s.f.across, s.f.down) && row < buffers[s.ids[i]].Length0 && col < buffers[s.ids[i]].Length1
      ensures buffers[s.ids[i]][row, col] == s.data(s.ids[i], row, col)
    {
      assert Fits(s.At(i), s.f.across, s.f.down);
      EarlierRow(s, i, row, col, inputImcuRow, mcuVertOffset, mcuCtr);
    }
  }

  datatype Outcome = Suspended | RowCompleted | ScanCompleted

  lemma SizeOfMcu(s: Source, mcu: seq<Block>, mrow: int, mcol: int)
    requires s.Ok() && Whole(s, mcu, |s.ids|, mrow, mcol)
    ensures |mcu| == |McuCells(s.f, s.ids, |s.ids|, mrow, mcol)|
  {
  }

  /** A block of an earlier iMCU row is one of an earlier MCU. */
  lemma EarlierRow(s: Source, i: nat, row: int, col: int, imcu: int, yoffset: int, mcol: int)
    requires s.Ok() && i < |s.ids| && 0 <= row < s.At(i).height && 0 <= col < s.At(i).width
    requires 0 <= imcu <= s.f.down && row < imcu * s.At(i).v
    requires imcu < s.f.down ==> yoffset >= 0
    ensures Before(s, i, row, col, if imcu == s.f.down then McuRows(s.f, s.ids) else McuRow(s, imcu, yoffset), mcol)
  {
    assert Fits(s.At(i), s.f.across, s.f.down);
    RealBlockIsCoded(s, i, row, col);
    if |s.ids| > 1 {
      L.InsideBands(row, s.At(i).v, imcu, imcu * s.At(i).v);
    }
  }

  // Showing the blocks.

  /** Real blocks of component i before the MCU at (mrow, mcol) are shown; the plane is for one
      iMCU row, from block row first on. */
  ghost predicate Shown<Out>(s: Source, idct: (nat, Block) -> Out, plane: array2<Out>, i: nat, first: int,
                             mrow: int, mcol: int)
    requires s.Ok() && i < |s.ids|
    reads plane
  {
    forall r, col :: 0 <= r < plane.Length0 && 0 <= col < plane.Length1 && IsReal(s, i, first, r, col) ==>
      Before(s, i, first + r, col, mrow, mcol) ==> ShowsIt(s, idct, plane, i, first, r, col)
  }

  ghost predicate IsReal(s: Source, i: nat, first: int, r: int, col: int)
    requires s.Ok() && i < |s.ids|
  {
    0 <= r < s.At(i).v && first + r < s.At(i).height && 0 <= col < s.At(i).width
  }

  ghost predicate ShowsIt<Out>(s: Source, idct: (nat, Block) -> Out, plane: array2<Out>, i: nat, first: int,
                               r: int, col: int)
    requires s.Ok() && i < |s.ids| && 0 <= r < plane.Length0 && 0 <= col < plane.Length1
    reads plane
  {
    plane[r, col] == idct(s.ids[i], s.data(s.ids[i], first + r, col))
  }

  /** Everything real in an iMCU row is shown. */
  ghost predicate RowShown<Out>(s: Source, idct: (nat, Block) -> Out, plane: array2<Out>, i: nat, imcu: int)
    requires s.Ok() && i < |s.ids|
    reads plane
  {
    forall r, col :: 0 <= r < plane.Length0 && 0 <= col < plane.Length1 && IsReal(s, i, imcu * s.At(i).v, r, col) ==>
      ShowsIt(s, idct, plane, i, imcu * s.At(i).v, r, col)
  }

  /** That is to say, this row of the image's blocks is what the plane shows. */
  lemma WhatIsShown<Out>(s: Source, idct: (nat, Block) -> Out, plane: array2<Out>, i: nat, imcu: int, row: int,
                         col: int)
    requires s.Ok() && i < |s.ids| && HasRoom(plane, s.At(i)) && RowShown(s, idct, plane, i, imcu)
    requires imcu * s.At(i).v <= row < imcu * s.At(i).v + s.At(i).v
    requires row < s.At(i).height && 0 <= col < s.At(i).width
    ensures row - imcu * s.At(i).v < plane.Length0 && col < plane.Length1
    ensures plane[row - imcu * s.At(i).v, col] == idct(s.ids[i], s.data(s.ids[i], row, col))
  {
    assert IsReal(s, i, imcu * s.At(i).v, row - imcu * s.At(i).v, col);
    assert ShowsIt(s, idct, plane, i, imcu * s.At(i).v, row - imcu * s.At(i).v, col);
  }

  /** A real block of an MCU is what was coded. */
  lemma RealInMcu(s: Source, i: nat, imcu: int, yoffset: int, mcol: int, y: int, x: int)
    requires s.Ok() && i < |s.ids| && Inside(s, imcu, yoffset, mcol)
    requires 0 <= y < McuHeight(s.f, s.ids, i) && 0 <= x < McuWidth(s.f, s.ids, i)
    ensures var r, col := yoffset + y, mcol * McuWidth(s.f, s.ids, i) + x;
            && McuRow(s, imcu, yoffset) * McuHeight(s.f, s.ids, i) + y == imcu * s.At(i).v + r
            && InMcu(s, i, imcu * s.At(i).v + r, col, McuRow(s, imcu, yoffset), mcol)
            && (IsReal(s, i, imcu * s.At(i).v, r, col) <==>
                RealRow(s, i, imcu, yoffset, y) && x < BlockCount(s, i, mcol))
            && (IsReal(s, i, imcu * s.At(i).v, r, col) ==>
                BlockIn(s, i, McuRow(s, imcu, yoffset), mcol, y, x) == s.data(s.ids[i], imcu * s.At(i).v + r, col))
  {
    InArray(s, i, imcu, yoffset, mcol, y, x);
    RowTest(s, i, imcu, yoffset, y);
    ColTest(s, i, mcol, x);
    hide RealRow, BlockCount;
    var w, h := McuWidth(s.f, s.ids, i), McuHeight(s.f, s.ids, i);
    Remainder(McuRow(s, imcu, yoffset) * h + y, h, McuRow(s, imcu, yoffset), y);
    Remainder(mcol * w + x, w, mcol, x);
  }

  /** A block of an MCU is at some place within it. */
  lemma PlaceInMcu(s: Source, i: nat, imcu: int, yoffset: int, mcol: int, r: int, col: int) returns (y: int, x: int)
    requires s.Ok() && i < |s.ids| && Inside(s, imcu, yoffset, mcol)
    requires InMcu(s, i, imcu * s.At(i).v + r, col, McuRow(s, imcu, yoffset), mcol)
    ensures 0 <= y < McuHeight(s.f, s.ids, i) && 0 <= x < McuWidth(s.f, s.ids, i)
    ensures r == yoffset + y && col == mcol * McuWidth(s.f, s.ids, i) + x
  {
    assert Fits(s.At(i), s.f.across, s.f.down);
    var w, h := McuWidth(s.f, s.ids, i), McuHeight(s.f, s.ids, i);
    QuotientAndRest(imcu * s.At(i).v + r, h);
    QuotientAndRest(col, w);
    y, x := (imcu * s.At(i).v + r) % h, col % w;
    InArray(s, i, imcu, yoffset, mcol, y, x);
  }

  /** Within the MCU at hand, rows up to y are shown, and in that row the blocks up to x. */
  ghost predicate ShownWithin<Out>(s: Source, idct: (nat, Block) -> Out, plane: array2<Out>, i: nat, imcu: int,
                                   yoffset: int, mcol: int, y: int, x: int)
    requires s.Ok() && i < |s.ids|
    reads plane
  {
    var first, mrow := imcu * s.At(i).v, McuRow(s, imcu, yoffset);
    forall r, col :: 0 <= r < plane.Length0 && 0 <= col < plane.Length1 && IsReal(s, i, first, r, col) ==>
      (Before(s, i, first + r, col, mrow, mcol) ||
       (InMcu(s, i, first + r, col, mrow, mcol) && ComesBefore(s, i, yoffset, mcol, r, col, y, x))) ==>
        ShowsIt(s, idct, plane, i, first, r, col)
  }

  ghost predicate ComesBefore(s: Source, i: nat, yoffset: int, mcol: int, r: int, col: int, y: int, x: int)
    requires s.Ok() && i < |s.ids|
  {
    r < yoffset + y || (r == yoffset + y && col < mcol * McuWidth(s.f, s.ids, i) + x)
  }

  /** The plane has room for an iMCU row of the component. */
  ghost predicate HasRoom<Out>(plane: array2<Out>, c: Comp) {
    plane.Length0 >= c.v && plane.Length1 >= c.width
  }

  /** Show the blocks of one component of the MCU. */
  method ShowComponent<Out>(s: Source, idct: (nat, Block) -> Out, mcu: seq<Block>, plane: array2<Out>, ci: nat,
                            imcu: int, yoffset: int, mcol: int, blkn0: nat)
    requires s.Ok() && ci < |s.ids| && Inside(s, imcu, yoffset, mcol) && HasRoom(plane, s.At(ci))
    requires Whole(s, mcu, |s.ids|, McuRow(s, imcu, yoffset), mcol) && blkn0 == McuSize(s, ci)
    requires Shown(s, idct, plane, ci, imcu * s.At(ci).v, McuRow(s, imcu, yoffset), mcol)
    modifies plane
    ensures Shown(s, idct, plane, ci, imcu * s.At(ci).v, McuRow(s, imcu, yoffset), mcol + 1)
  {
    hide Inside, McuRow, Whole, McuSize, IsReal, RealRow, BlockCount, Before, InMcu, ComesBefore;
    var w, h := McuWidth(s.f, s.ids, ci), McuHeight(s.f, s.ids, ci);
    NoneShown(s, idct, plane, ci, imcu, yoffset, mcol);
    var blkn: int := blkn0;
    for yindex := 0 to h
      invariant ShownWithin(s, idct, plane, ci, imcu, yoffset, mcol, yindex, 0)
      invariant blkn == McuSize(s, ci) + yindex * w + 0
    {
      if RealRow(s, ci, imcu, yoffset, yindex) {
        ShowRow(s, idct, mcu, plane, ci, imcu, yoffset, mcol, yindex, blkn);
      }
      NextRowShown(s, idct, plane, ci, imcu, yoffset, mcol, yindex);
      RowDone(yindex, w);
      blkn := blkn + w;
    }
    AllShown(s, idct, plane, ci, imcu, yoffset, mcol);
  }

  /** A row of real blocks of the MCU. */
  method ShowRow<Out>(s: Source, idct: (nat, Block) -> Out, mcu: seq<Block>, plane: array2<Out>, ci: nat,
                      imcu: int, yoffset: int, mcol: int, y: int, blkn: int)
    requires s.Ok() && ci < |s.ids| && Inside(s, imcu, yoffset, mcol) && HasRoom(plane, s.At(ci))
    requires Whole(s, mcu, |s.ids|, McuRow(s, imcu, yoffset), mcol)
    requires 0 <= y < McuHeight(s.f, s.ids, ci) && blkn == McuSize(s, ci) + y * McuWidth(s.f, s.ids, ci) + 0
    requires RealRow(s, ci, imcu, yoffset, y)
    requires ShownWithin(s, idct, plane, ci, imcu, yoffset, mcol, y, 0)
    modifies plane
    ensures ShownWithin(s, idct, plane, ci, imcu, yoffset, mcol, y, BlockCount(s, ci, mcol))
  {
    hide Inside, McuRow, Whole, McuSize, RealRow, BlockCount, Before, InMcu, McuCells;
    ColTest2(s, ci, imcu, yoffset, mcol);
    var w := McuWidth(s.f, s.ids, ci);
    ghost var mrow, first := McuRow(s, imcu, yoffset), imcu * s.At(ci).v;
    for xindex := 0 to BlockCount(s, ci, mcol)
      invariant ShownWithin(s, idct, plane, ci, imcu, yoffset, mcol, y, xindex)
    {
      BlockOfMcu(s, mcu, ci, mrow, mcol, y, xindex);
      RealInMcu(s, ci, imcu, yoffset, mcol, y, xindex);
      hide Source.BlockAt, BlockIn;
      InArray(s, ci, imcu, yoffset, mcol, y, xindex);
      plane[yoffset + y, mcol * w + xindex] := idct(s.ids[ci], mcu[blkn + xindex]);
    }
  }

  lemma NoneShown<Out>(s: Source, idct: (nat, Block) -> Out, plane: array2<Out>, i: nat, imcu: int, yoffset: int,
                       mcol: int)
    requires s.Ok() && i < |s.ids| && Inside(s, imcu, yoffset, mcol)
    requires Shown(s, idct, plane, i, imcu * s.At(i).v, McuRow(s, imcu, yoffset), mcol)
    ensures ShownWithin(s, idct, plane, i, imcu, yoffset, mcol, 0, 0)
  {
    hide Inside, McuRow, InMcu, Before, ShowsIt;
    var first, mrow := imcu * s.At(i).v, McuRow(s, imcu, yoffset);
    forall r, col | InMcu(s, i, first + r, col, mrow, mcol)
      ensures !ComesBefore(s, i, yoffset, mcol, r, col, 0, 0)
    {
      var y, x := PlaceInMcu(s, i, imcu, yoffset, mcol, r, col);
    }
  }

  lemma NextRowShown<Out>(s: Source, idct: (nat, Block) -> Out, plane: array2<Out>, i: nat, imcu: int, yoffset: int,
                          mcol: int, y: int)
    requires s.Ok() && i < |s.ids| && Inside(s, imcu, yoffset, mcol) && 0 <= y < McuHeight(s.f, s.ids, i)
    requires ShownWithin(s, idct, plane, i, imcu, yoffset, mcol, y,
                         if RealRow(s, i, imcu, yoffset, y) then BlockCount(s, i, mcol) else 0)
    ensures ShownWithin(s, idct, plane, i, imcu, yoffset, mcol, y + 1, 0)
  {
    hide Inside, McuRow, InMcu, Before, ShowsIt, RealRow, BlockCount, IsReal;
    var first, mrow := imcu * s.At(i).v, McuRow(s, imcu, yoffset);
    forall r, col | InMcu(s, i, first + r, col, mrow, mcol) && IsReal(s, i, first, r, col)
                    && ComesBefore(s, i, yoffset, mcol, r, col, y + 1, 0)
      ensures ComesBefore(s, i, yoffset, mcol, r, col, y,
                          if RealRow(s, i, imcu, yoffset, y) then BlockCount(s, i, mcol) else 0)
    {
      var y', x := PlaceInMcu(s, i, imcu, yoffset, mcol, r, col);
      RealInMcu(s, i, imcu, yoffset, mcol, y', x);
    }
  }

  lemma AllShown<Out>(s: Source, idct: (nat, Block) -> Out, plane: array2<Out>, i: nat, imcu: int, yoffset: int,
                      mcol: int)
    requires s.Ok() && i < |s.ids| && Inside(s, imcu, yoffset, mcol)
    requires ShownWithin(s, idct, plane, i, imcu, yoffset, mcol, McuHeight(s.f, s.ids, i), 0)
    ensures Shown(s, idct, plane, i, imcu * s.At(i).v, McuRow(s, imcu, yoffset), mcol + 1)
  {
    assert 0 <= mcol < McusPerRow(s.f, s.ids);
    hide Inside, McuRow, InMcu, Before, ShowsIt, IsReal;
    var first, mrow := imcu * s.At(i).v, McuRow(s, imcu, yoffset);
    forall r, col | IsReal(s, i, first, r, col) && Before(s, i, first + r, col, mrow, mcol + 1)
      ensures Before(s, i, first + r, col, mrow, mcol) ||
              (InMcu(s, i, first + r, col, mrow, mcol) &&
               ComesBefore(s, i, yoffset, mcol, r, col, McuHeight(s.f, s.ids, i), 0))
    {
      BeforeNext(s, i, first + r, col, mrow, mcol);
      if InMcu(s, i, first + r, col, mrow, mcol) {
        var y, x := PlaceInMcu(s, i, imcu, yoffset, mcol, r, col);
      }
    }
  }

  // Showing the MCUs at once.

  ghost predicate NoAc(b: Block) {
    forall j :: 1 <= j < 64 ==> b[j] == 0
  }

  ghost predicate NoAcs(mcu: seq<Block>) {
    forall k :: 0 <= k < |mcu| ==> NoAc(mcu[k])
  }

  function Deposits(was: seq<Block>, mcu: seq<Block>, more: bool, arrived: (nat, nat) -> bool): seq<Block>
    requires |was| == |mcu|
  {
    seq(|mcu|, (k: nat) requires k < |mcu| && |was| == |mcu| => Tried(was[k], mcu[k], k, more, arrived))
  }

  /** From zeroed AC coefficients the MCU results. */
  lemma Deposited(was: seq<Block>, mcu: seq<Block>, more: bool, arrived: (nat, nat) -> bool)
    requires |was| == |mcu| && NoAcs(was)
    ensures |Deposits(was, mcu, more, arrived)| == |mcu|
    ensures more ==> Deposits(was, mcu, more, arrived) == mcu
    ensures NoAcs(mcu) ==> NoAcs(Deposits(was, mcu, more, arrived))
  {
    var now := Deposits(was, mcu, more, arrived);
    forall k | 0 <= k < |mcu|
      ensures more ==> now[k] == mcu[k]
      ensures NoAc(mcu[k]) ==> NoAc(now[k])
    {
      assert NoAc(was[k]);
    }
  }

  class OnePassController<Out> {
    const s: Source
    const coded: seq<seq<Block>>       // the MCUs of the scan
    const idct: (nat, Block) -> Out
    const needed: seq<bool>            // components to be shown
    const limSe: nat                   // last coefficient that a scan can have

    var inputImcuRow: int
    var outputImcuRow: int
    var mcuCtr: int
    var mcuVertOffset: int
    var mcuRowsPerImcuRow: int
    var next: nat                      // the MCU that the entropy decoder is at
    var mcuBuffer: seq<Block>

    ghost predicate Shape() {
      && s.Ok() && NoComponentTwice(s.ids) && CodedScan(s, coded) && |needed| == |s.f.comps|
      && (limSe == 0 ==> forall n :: 0 <= n < |coded| ==> NoAcs(coded[n]))
    }

    ghost predicate Counters()
      requires s.Ok()
      reads this
    {
      && 0 <= inputImcuRow == outputImcuRow <= s.f.down
      && (inputImcuRow < s.f.down ==>
            && mcuRowsPerImcuRow == RowsPerImcu(s, inputImcuRow) && 0 <= mcuVertOffset < mcuRowsPerImcuRow
            && 0 <= mcuCtr < McusPerRow(s.f, s.ids))
      && (inputImcuRow == s.f.down ==> mcuCtr == 0)
    }

    ghost function Row(): int
      requires s.Ok()
      reads this`inputImcuRow, this`mcuVertOffset
    {
      if inputImcuRow == s.f.down then McuRows(s.f, s.ids) else McuRow(s, inputImcuRow, mcuVertOffset)
    }

    /** Scans without AC coefficients never put any in the buffer. */
    ghost predicate BufferOk()
      requires s.Ok()
      reads this`mcuBuffer
    {
      |mcuBuffer| == McuSize(s, |s.ids|) && (limSe == 0 ==> NoAcs(mcuBuffer))
    }

    ghost predicate Valid()
      reads this
    {
      Shape() && Counters() && BufferOk() && next == Row() * McusPerRow(s.f, s.ids) + mcuCtr
    }

    /** A plane for each component of the frame. */
    ghost predicate PlanesOk(planes: seq<array2<Out>>)
      requires s.Ok()
    {
      && |planes| == |s.f.comps| && (forall c :: 0 <= c < |planes| ==> HasRoom(planes[c], s.f.comps[c]))
      && (forall c, d :: 0 <= c < d < |planes| ==> planes[c] != planes[d])
    }

    /** The planes show what is real before the MCU at (mrow, mcol). */
    ghost predicate ShownUpTo(planes: seq<array2<Out>>, imcu: int, mrow: int, mcol: int)
      requires Shape() && PlanesOk(planes)
      reads planes
    {
      forall i :: 0 <= i < |s.ids| && needed[s.ids[i]] ==>
        Shown(s, idct, planes[s.ids[i]], i, imcu * s.At(i).v, mrow, mcol)
    }

    ghost predicate AllRowsShown(planes: seq<array2<Out>>, imcu: int)
      requires Shape() && PlanesOk(planes)
      reads planes
    {
      forall i :: 0 <= i < |s.ids| && needed[s.ids[i]] ==> RowShown(s, idct, planes[s.ids[i]], i, imcu)
    }

    /** The buffer's memory is zeroed at the start if it never will be again. */
    constructor (s: Source, coded: seq<seq<Block>>, idct: (nat, Block) -> Out, needed: seq<bool>, limSe: nat,
                 memory: seq<Block>)
      requires s.Ok() && NoComponentTwice(s.ids) && CodedScan(s, coded) && |needed| == |s.f.comps|
      requires limSe == 0 ==> forall n :: 0 <= n < |coded| ==> NoAcs(coded[n])
      requires |memory| == McuSize(s, |s.ids|)
      ensures Valid() && this.s == s && this.coded == coded && this.idct == idct && this.needed == needed
      ensures inputImcuRow == 0 && next == 0
    {
      this.s, this.coded, this.idct, this.needed, this.limSe := s, coded, idct, needed, limSe;
      inputImcuRow, outputImcuRow, mcuCtr, mcuVertOffset, next := 0, 0, 0, 0, 0;
      mcuRowsPerImcuRow := RowsPerImcu(s, 0);
      mcuBuffer := if limSe == 0 then seq(|memory|, k => Dummy(0)) else memory;
      RowsAddUp(s, 0);
      ColumnsExist(s);
    }

    /** The entropy decoder fills the buffer, which it expects to be zeroed, or stops on the way. */
    method DecodeMcu(more: bool, arrived: (nat, nat) -> bool, ghost mrow: int, ghost mcol: int)
      requires Shape() && BufferOk() && 0 <= mrow < McuRows(s.f, s.ids) && 0 <= mcol < McusPerRow(s.f, s.ids)
      requires next == mrow * McusPerRow(s.f, s.ids) + mcol && NoAcs(mcuBuffer)
      modifies this`next, this`mcuBuffer
      ensures BufferOk() && next == old(next) + if more then 1 else 0
      ensures more ==> Whole(s, mcuBuffer, |s.ids|, mrow, mcol)
    {
      McuIsNext(s, coded, mrow, mcol, next);
      SizeOfMcu(s, coded[next], mrow, mcol);
      McuSizes(s, |s.ids|, mrow, mcol);
      hide Whole, McuSize, CodedScan, NoAcs, Deposits;
      Deposited(mcuBuffer, coded[next], more, arrived);
      mcuBuffer := Deposits(mcuBuffer, coded[next], more, arrived);
      if more {
        next := next + 1;
      }
    }

    /** Show an MCU. */
    method ShowMcu(planes: seq<array2<Out>>, yoffset: int, mcol: int)
      requires Shape() && PlanesOk(planes) && Inside(s, inputImcuRow, yoffset, mcol)
      requires Whole(s, mcuBuffer, |s.ids|, McuRow(s, inputImcuRow, yoffset), mcol)
      requires ShownUpTo(planes, inputImcuRow, McuRow(s, inputImcuRow, yoffset), mcol)
      modifies set p | p in planes
      ensures ShownUpTo(planes, inputImcuRow, McuRow(s, inputImcuRow, yoffset), mcol + 1)
    {
      hide Whole, Shown, McuRow, Inside, McuSize, CodedScan;
      ghost var mrow := McuRow(s, inputImcuRow, yoffset);
      var blkn := 0;
      NoBlocks(s);
      for ci := 0 to |s.ids|
        invariant blkn == McuSize(s, ci)
        invariant forall i :: 0 <= i < |s.ids| && needed[s.ids[i]] ==>
                    Shown(s, idct, planes[s.ids[i]], i, inputImcuRow * s.At(i).v,
                          mrow, if i < ci then mcol + 1 else mcol)
      {
        var c := s.ids[ci];
        if needed[c] {
          ShowComponent(s, idct, mcuBuffer, planes[c], ci, inputImcuRow, yoffset, mcol, blkn);
        }
        McuSizes(s, ci + 1, 0, 0);
        blkn := blkn + McuHeight(s.f, s.ids, ci) * McuWidth(s.f, s.ids, ci);
      }
    }

    /** The rest of a row of MCUs, as far as there is data. */
    method DecompressRow(planes: seq<array2<Out>>, yoffset: int, available: nat, arrived: (nat, nat) -> bool)
      returns (left: int)
      requires Shape() && Counters() && BufferOk() && PlanesOk(planes)
      requires 0 <= inputImcuRow < s.f.down && 0 <= yoffset < mcuRowsPerImcuRow
      requires next == McuRow(s, inputImcuRow, yoffset) * McusPerRow(s.f, s.ids) + mcuCtr
      requires ShownUpTo(planes, inputImcuRow, McuRow(s, inputImcuRow, yoffset), mcuCtr)
      modifies this`mcuCtr, this`next, this`mcuBuffer, set p | p in planes
      ensures left >= -1 && BufferOk()
      ensures left == -1 ==> && 0 <= mcuCtr < McusPerRow(s.f, s.ids) && next == old(next) + available
                             && next == McuRow(s, inputImcuRow, yoffset) * McusPerRow(s.f, s.ids) + mcuCtr
                             && ShownUpTo(planes, inputImcuRow, McuRow(s, inputImcuRow, yoffset), mcuCtr)
      ensures left >= 0 ==> && mcuCtr == 0 && next == old(next) + available - left
                            && next == (McuRow(s, inputImcuRow, yoffset) + 1) * McusPerRow(s.f, s.ids)
                            && ShownUpTo(planes, inputImcuRow, McuRow(s, inputImcuRow, yoffset) + 1, 0)
    {
      RowExists(s, inputImcuRow, yoffset);
      hide McuRow, McuSize, Shown, CodedScan, Whole;
      ghost var row := McuRow(s, inputImcuRow, yoffset);
      left := available;
      var col := mcuCtr;
      while col < McusPerRow(s.f, s.ids)
        invariant 0 <= col <= McusPerRow(s.f, s.ids) && left >= 0 && next == old(next) + available - left && BufferOk()
        invariant next == row * McusPerRow(s.f, s.ids) + col && ShownUpTo(planes, inputImcuRow, row, col)
      {
        if limSe > 0 {
          mcuBuffer := seq(|mcuBuffer|, k => Dummy(0));
        }
        DecodeMcu(left > 0, arrived, row, col);
        if left == 0 {
          mcuCtr := col;
          return -1;
        }
        ShowMcu(planes, yoffset, col);
        left := left - 1;
        col := col + 1;
      }
      RowDone(row, McusPerRow(s.f, s.ids));
      McuRowShown(planes, row);
      mcuCtr := 0;
    }

    lemma McuRowShown(planes: seq<array2<Out>>, mrow: int)
      requires Shape() && PlanesOk(planes) && ShownUpTo(planes, inputImcuRow, mrow, McusPerRow(s.f, s.ids))
      ensures ShownUpTo(planes, inputImcuRow, mrow + 1, 0)
    {
      hide Before, ShowsIt, IsReal;
      forall i, row, col | 0 <= i < |s.ids|
        ensures Before(s, i, row, col, mrow + 1, 0) ==> Before(s, i, row, col, mrow, McusPerRow(s.f, s.ids))
      {
        BeforeNextRow(s, i, row, col, mrow);
      }
    }

    /** The rest of the MCU rows of an iMCU row. */
    method DecompressRows(planes: seq<array2<Out>>, available: nat, arrived: (nat, nat) -> bool)
      returns (done: bool, left: nat)
      requires Valid() && inputImcuRow < s.f.down && PlanesOk(planes)
      requires ShownUpTo(planes, inputImcuRow, Row(), mcuCtr)
      modifies this`mcuCtr, this`mcuVertOffset, this`next, this`mcuBuffer, set p | p in planes
      ensures next == old(next) + available - left && BufferOk()
      ensures !done ==> Valid() && left == 0 && ShownUpTo(planes, inputImcuRow, Row(), mcuCtr)
      ensures done ==> && mcuCtr == 0
                       && ShownUpTo(planes, inputImcuRow, NextRow(s, inputImcuRow, RowsPerImcu(s, inputImcuRow)), 0)
      ensures done ==> next == NextRow(s, inputImcuRow, RowsPerImcu(s, inputImcuRow)) * McusPerRow(s.f, s.ids)
    {
      hide McuSize, Shown, CodedScan, RowsPerImcu;
      SingleRow(s, inputImcuRow, mcuVertOffset);
      left := available;
      var yoffset := mcuVertOffset;
      while yoffset < mcuRowsPerImcuRow
        invariant Counters() && 0 <= yoffset <= mcuRowsPerImcuRow && (yoffset == mcuRowsPerImcuRow ==> mcuCtr == 0)
        invariant next == NextRow(s, inputImcuRow, yoffset) * McusPerRow(s.f, s.ids) + mcuCtr && BufferOk()
        invariant ShownUpTo(planes, inputImcuRow, NextRow(s, inputImcuRow, yoffset), mcuCtr)
        invariant next == old(next) + available - left
      {
        RowNotNegative(s, inputImcuRow, yoffset);
        SingleRow(s, inputImcuRow, yoffset);
        var rest := DecompressRow(planes, yoffset, left, arrived);
        if rest < 0 {
          mcuVertOffset := yoffset;
          return false, 0;
        }
        left := rest;
        yoffset := yoffset + 1;
      }
      return true, left;
    }

    method StartImcuRow()
      requires s.Ok() && 0 <= inputImcuRow < s.f.down
      modifies this`mcuCtr, this`mcuVertOffset, this`mcuRowsPerImcuRow
      ensures mcuCtr == 0 && mcuVertOffset == 0 && mcuRowsPerImcuRow == RowsPerImcu(s, inputImcuRow)
    {
      mcuRowsPerImcuRow := RowsPerImcu(s, inputImcuRow);
      mcuCtr := 0;
      mcuVertOffset := 0;
    }

    /** At the start of an iMCU row there is nothing to be shown yet. */
    lemma NothingShown(planes: seq<array2<Out>>)
      requires Valid() && PlanesOk(planes) && inputImcuRow < s.f.down && mcuVertOffset == mcuCtr == 0
      ensures ShownUpTo(planes, inputImcuRow, Row(), mcuCtr)
    {
      hide ShowsIt, CodedScan, McuSize;
      forall i, r, col | 0 <= i < |s.ids| && IsReal(s, i, inputImcuRow * s.At(i).v, r, col)
        ensures !Before(s, i, inputImcuRow * s.At(i).v + r, col, Row(), mcuCtr)
      {
        FirstRow(s, i, inputImcuRow, r, col);
      }
    }

    lemma ImcuShown(planes: seq<array2<Out>>)
      requires Shape() && PlanesOk(planes) && 0 <= inputImcuRow < s.f.down
      requires ShownUpTo(planes, inputImcuRow, NextRow(s, inputImcuRow, RowsPerImcu(s, inputImcuRow)), 0)
      ensures AllRowsShown(planes, inputImcuRow)
    {
      hide ShowsIt, CodedScan, McuSize;
      ImcuDone(s, inputImcuRow);
      hide NextRow, McuRow, RowsPerImcu, Before;
      forall i, r, col | 0 <= i < |s.ids| && IsReal(s, i, inputImcuRow * s.At(i).v, r, col)
        ensures Before(s, i, inputImcuRow * s.At(i).v + r, col,
                       NextRow(s, inputImcuRow, RowsPerImcu(s, inputImcuRow)), 0)
      {
        LastRow(s, i, inputImcuRow, r, col);
      }
    }

    /** One iMCU row, as far as there is data. Suspended, it shows what it has got and goes on
        from there at the next call; after that the planes show the whole row. */
    method DecompressOnepass(planes: seq<array2<Out>>, available: nat, arrived: (nat, nat) -> bool)
      returns (r: Outcome, left: nat)
      requires Valid() && inputImcuRow < s.f.down && PlanesOk(planes)
      requires mcuVertOffset > 0 || mcuCtr > 0 ==> ShownUpTo(planes, inputImcuRow, Row(), mcuCtr)
      modifies this, set p | p in planes
      ensures Valid() && next == old(next) + available - left
      ensures r == Suspended ==> && left == 0 && inputImcuRow == old(inputImcuRow)
                                 && ShownUpTo(planes, inputImcuRow, Row(), mcuCtr)
      ensures r != Suspended ==> inputImcuRow == old(inputImcuRow) + 1 && AllRowsShown(planes, old(inputImcuRow))
      ensures r == ScanCompleted <==> inputImcuRow == s.f.down
    {
      if mcuVertOffset == 0 && mcuCtr == 0 {
        NothingShown(planes);
      }
      hide Shown, RowShown, CodedScan, NextRow, McuRow, RowsPerImcu, McuSize;
      var done;
      done, left := DecompressRows(planes, available, arrived);
      if !done {
        return Suspended, 0;
      }
      ImcuDone(s, inputImcuRow);
      ImcuShown(planes);
      outputImcuRow := outputImcuRow + 1;
      inputImcuRow := inputImcuRow + 1;
      if inputImcuRow < s.f.down {
        StartImcuRow();
        return RowCompleted, left;
      }
      return ScanCompleted, left;
    }
  }

  /** Real blocks of an iMCU row are not in MCUs before it. */
  lemma FirstRow(s: Source, i: nat, imcu: int, r: int, col: int)
    requires s.Ok() && i < |s.ids| && 0 <= imcu < s.f.down && IsReal(s, i, imcu * s.At(i).v, r, col)
    ensures !Before(s, i, imcu * s.At(i).v + r, col, McuRow(s, imcu, 0), 0)
  {
    var v := s.At(i).v;
    assert Fits(s.At(i), s.f.across, s.f.down);
    Remainder(imcu * v + r, v, imcu, r);
    QuotientAndRest(col, McuWidth(s.f, s.ids, i));
  }

  /** They are in MCUs before the next. */
  lemma LastRow(s: Source, i: nat, imcu: int, r: int, col: int)
    requires s.Ok() && i < |s.ids| && 0 <= imcu < s.f.down && IsReal(s, i, imcu * s.At(i).v, r, col)
    ensures Before(s, i, imcu * s.At(i).v + r, col,
                   if imcu + 1 == s.f.down then McuRows(s.f, s.ids) else McuRow(s, imcu + 1, 0), 0)
  {
    var v := s.At(i).v;
    assert Fits(s.At(i), s.f.across, s.f.down);
    MulMono(0, imcu, v);
    RowDone(imcu, v);
    EarlierRow(s, i, imcu * v + r, col, imcu + 1, 0, 0);
  }

  lemma NoBlocks(s: Source)
    requires s.Ok()
    ensures McuSize(s, 0) == 0
  {
  }

  // Showing blocks from the arrays.

  /** The plane shows these block rows of the array. */
  ghost predicate ShowsRows<Out>(idct: (nat, Block) -> Out, plane: array2<Out>, buffer: array2<Block>, c: nat,
                                 first: int, rows: int, width: int)
    requires 0 <= first && first + rows <= buffer.Length0 && rows <= plane.Length0
    requires width <= buffer.Length1 && width <= plane.Length1
    reads plane, buffer
  {
    forall r, col :: 0 <= r < rows && 0 <= col < width ==> plane[r, col] == idct(c, buffer[first + r, col])
  }

  /** The IDCT of the block rows of an iMCU row of one component. */
  method ShowArray<Out>(idct: (nat, Block) -> Out, plane: array2<Out>, buffer: array2<Block>, c: nat,
                        first: int, rows: int, width: int)
    requires 0 <= first && 0 <= rows && first + rows <= buffer.Length0 && rows <= plane.Length0
    requires 0 <= width <= buffer.Length1 && width <= plane.Length1
    modifies plane
    requires buffer as object != plane as object
    ensures ShowsRows(idct, plane, buffer, c, first, rows, width)
  {
    for r := 0 to rows
      invariant ShowsRows(idct, plane, buffer, c, first, r, width)
    {
      for col := 0 to width
        invariant ShowsRows(idct, plane, buffer, c, first, r, width)
        invariant forall x :: 0 <= x < col ==> plane[r, x] == idct(c, buffer[first + r, x])
      {
        plane[r, col] := idct(c, buffer[first + r, col]);
      }
    }
  }

  /** The real block rows of an iMCU row. */
  function BlockRows(c: Comp, down: int, imcu: int): int
    requires c.v >= 1
  {
    if imcu < down - 1 then c.v else Rest(c.height, c.v)
  }

  /** All planes, and all arrays. */
  ghost predicate Apart<Out>(planes: seq<array2<Out>>, buffers: seq<array2<Block>>) {
    && (forall c, d :: 0 <= c < d < |planes| ==> planes[c] != planes[d])
    && (forall c, d :: 0 <= c < |planes| && 0 <= d < |buffers| ==> planes[c] as object != buffers[d] as object)
  }

  /** The planes show what is real in this iMCU row of the scan's components. */
  ghost predicate ScanRowShown<Out>(s: Source, idct: (nat, Block) -> Out, needed: seq<bool>, planes: seq<array2<Out>>,
                                    imcu: int)
    requires s.Ok() && |planes| == |needed| == |s.f.comps|
    reads planes
  {
    forall i :: 0 <= i < |s.ids| && needed[s.ids[i]] ==> RowShown(s, idct, planes[s.ids[i]], i, imcu)
  }

  /** Show an iMCU row from the arrays. First the input has to be ahead of it: what data there is
      is read until that is so. */
  method DecompressData<Out>(input: ConsumeController, idct: (nat, Block) -> Out, needed: seq<bool>,
                             planes: seq<array2<Out>>, outputImcuRow: nat, available: nat, arrived: (nat, nat) -> bool)
    returns (r: Outcome, outputImcuRow': nat)
    requires input.Valid() && outputImcuRow < input.s.f.down
    requires |planes| == |needed| == |input.s.f.comps| && Apart(planes, input.buffers)
    requires forall c :: 0 <= c < |planes| ==> HasRoom(planes[c], input.s.f.comps[c])
    modifies input, set b | b in input.buffers, set p | p in planes
    ensures input.Valid()
    ensures r == Suspended ==> outputImcuRow' == outputImcuRow && input.inputImcuRow <= outputImcuRow
    ensures r != Suspended ==> && outputImcuRow' == outputImcuRow + 1
                               && ScanRowShown(input.s, idct, needed, planes, outputImcuRow)
    ensures r == ScanCompleted <==> outputImcuRow' == input.s.f.down
  {
    var left := available;
    while input.inputImcuRow <= outputImcuRow
      invariant input.Valid()
      decreases input.s.f.down - input.inputImcuRow
    {
      var consumed;
      consumed, left := input.ConsumeData(left, arrived);
      if consumed == Suspended {
        return Suspended, outputImcuRow;
      }
    }
    ShowStored(input, idct, needed, planes, outputImcuRow);
    if outputImcuRow + 1 < input.s.f.down {
      return RowCompleted, outputImcuRow + 1;
    }
    return ScanCompleted, outputImcuRow + 1;
  }

  method ShowStored<Out>(input: ConsumeController, idct: (nat, Block) -> Out, needed: seq<bool>,
                         planes: seq<array2<Out>>, imcu: nat)
    requires input.Valid() && imcu < input.inputImcuRow
    requires |planes| == |needed| == |input.s.f.comps| && Apart(planes, input.buffers)
    requires forall c :: 0 <= c < |planes| ==> HasRoom(planes[c], input.s.f.comps[c])
    modifies set p | p in planes
    ensures input.Valid() && ScanRowShown(input.s, idct, needed, planes, imcu)
  {
    var s := input.s;
    for c := 0 to |planes|
      invariant input.Valid()
      invariant forall i :: 0 <= i < |s.ids| && s.ids[i] < c && needed[s.ids[i]] ==>
                  RowShown(s, idct, planes[s.ids[i]], i, imcu)
    {
      if needed[c] {
        ShowComponentRows(input, idct, planes[c], c, imcu);
      }
    }
  }

  method ShowComponentRows<Out>(input: ConsumeController, idct: (nat, Block) -> Out, plane: array2<Out>, c: nat,
                                imcu: nat)
    requires input.Valid() && imcu < input.inputImcuRow && c < |input.s.f.comps|
    requires HasRoom(plane, input.s.f.comps[c])
    requires forall d :: 0 <= d < |input.buffers| ==> plane as object != input.buffers[d] as object
    modifies plane
    ensures input.Valid()
    ensures forall i :: 0 <= i < |input.s.ids| && input.s.ids[i] == c ==> RowShown(input.s, idct, plane, i, imcu)
  {
    var s := input.s;
    var comp := s.f.comps[c];
    assert Covers(input.buffers[c], comp, s.f.across, s.f.down);
    RowsOfImcu(comp, s.f.across, s.f.down, imcu);
    ShowArray(idct, plane, input.buffers[c], c, imcu * comp.v, BlockRows(comp, s.f.down, imcu), comp.width);
    forall i | 0 <= i < |s.ids| && s.ids[i] == c
      ensures RowShown(s, idct, plane, i, imcu)
    {
      ArrayIsRight(input, idct, plane, i, imcu);
    }
  }

  /** What the arrays hold is what was to be shown. */
  lemma ArrayIsRight<Out>(input: ConsumeController, idct: (nat, Block) -> Out, plane: array2<Out>, i: nat, imcu: nat)
    requires input.Valid() && imcu < input.inputImcuRow && i < |input.s.ids| && HasRoom(plane, input.s.At(i))
    requires var c, comp := input.s.ids[i], input.s.At(i);
             && 0 <= imcu * comp.v
             && imcu * comp.v + BlockRows(comp, input.s.f.down, imcu) <= input.buffers[c].Length0
             && BlockRows(comp, input.s.f.down, imcu) <= plane.Length0 && comp.width <= input.buffers[c].Length1
             && ShowsRows(idct, plane, input.buffers[c], c, imcu * comp.v, BlockRows(comp, input.s.f.down, imcu),
                          comp.width)
    ensures RowShown(input.s, idct, plane, i, imcu)
  {
    hide CodedScan, Stored, Before, Source.BlockAt;
    var s := input.s;
    var comp := s.At(i);
    forall r, col | 0 <= r < plane.Length0 && 0 <= col < plane.Length1 && IsReal(s, i, imcu * comp.v, r, col)
      ensures ShowsIt(s, idct, plane, i, imcu * comp.v, r, col)
    {
      RealRowIsHeld(s, i, imcu, input.inputImcuRow, r, col);
      input.RowsAreStored(i, imcu * comp.v + r, col);
    }
  }

  lemma RealRowIsHeld(s: Source, i: nat, imcu: int, read: int, r: int, col: int)
    requires s.Ok() && i < |s.ids| && 0 <= imcu < read <= s.f.down && IsReal(s, i, imcu * s.At(i).v, r, col)
    ensures s.At(i).v >= 1 && r < BlockRows(s.At(i), s.f.down, imcu)
    ensures 0 <= imcu * s.At(i).v + r < read * s.At(i).v
  {
    var v := s.At(i).v;
    assert Fits(s.At(i), s.f.across, s.f.down);
    RowsOfImcu(s.At(i), s.f.across, s.f.down, imcu);
    MulMono(imcu + 1, read, v);
    RowDone(imcu, v);
  }

  // The two sides together.

  /** The MCUs that a controller of the compressor has delivered are a scan to be decoded. */
  lemma DeliveredIsCoded(sent: CoefController)
    requires sent.Valid() && sent.imcuRowNum == sent.s.f.down
    ensures CodedScan(sent.s, sent.delivered)
  {
  }

  /** Every real block gets from the one side to the other. */
  lemma BlocksArrive(sent: CoefController, read: ConsumeController, i: nat, row: int, col: int)
    requires sent.Valid() && sent.imcuRowNum == sent.s.f.down
    requires read.Valid() && read.inputImcuRow == read.s.f.down && read.s == sent.s && read.coded == sent.delivered
    requires i < |sent.s.ids| && 0 <= row < sent.s.At(i).height && 0 <= col < sent.s.At(i).width
    ensures Covers(read.buffers[sent.s.ids[i]], sent.s.At(i), sent.s.f.across, sent.s.f.down)
    ensures read.buffers[sent.s.ids[i]][row, col] == sent.s.data(sent.s.ids[i], row, col)
  {
    hide CodedScan, Stored, Before, Source.BlockAt, CoefController.Valid;
    read.RowsAreStored(i, row, col);
  }

  /** Both ways to show a scan show the same. */
  lemma SameShown<Out>(s: Source, idct: (nat, Block) -> Out, p: array2<Out>, q: array2<Out>, i: nat, imcu: int,
                       r: int, col: int)
    requires s.Ok() && i < |s.ids| && HasRoom(p, s.At(i)) && HasRoom(q, s.At(i))
    requires RowShown(s, idct, p, i, imcu) && RowShown(s, idct, q, i, imcu) && IsReal(s, i, imcu * s.At(i).v, r, col)
    ensures p[r, col] == q[r, col] == idct(s.ids[i], s.data(s.ids[i], imcu * s.At(i).v + r, col))
  {
    assert ShowsIt(s, idct, p, i, imcu * s.At(i).v, r, col) && ShowsIt(s, idct, q, i, imcu * s.At(i).v, r, col);
  }
}
