/** The preprocessing controller of the compressor when the downsampler wants context rows:
    three row groups of storage and five of row pointers that wrap around, so that each row
    group is seen with the group above and the group below it. One component. */
module ContextRing {
  import opened ImageRows

  function Smaller(a: nat, b: nat): nat { if a <= b then a else b }

  class PrepController {
    const rgroup: int      // rows per row group
    const height: int      // rows of the image
    const src: int -> Row  // the image, color converted

    const buffer: array<Row>   // three row groups
    const pointers: array<nat> // entry rgroup + p is the pointer at offset p

    var rowsToGo: int
    var nextBufRow: int
    var thisRowGroup: int
    var nextBufStop: int

    ghost var have: int           // rows stored from this row group on
    ghost var seen: seq<seq<Row>> // what the downsampler saw of each row group

    /** Where offset p points to. */
    function Place(p: int): int {
      if p < 0 then p + 3 * rgroup else if p >= 3 * rgroup then p - 3 * rgroup else p
    }

    ghost predicate Shape()
      reads pointers
    {
      && rgroup >= 1 && height >= 1 && buffer.Length == 3 * rgroup && pointers.Length == 5 * rgroup
      && forall k :: 0 <= k < 5 * rgroup ==> pointers[k] == Place(k - rgroup)
    }

    ghost function Position(): int
      reads this
    {
      (if thisRowGroup == 2 * rgroup then -rgroup else thisRowGroup) + have
    }

    ghost predicate Counters()
      reads this
    {
      && (thisRowGroup == 0 || thisRowGroup == rgroup || thisRowGroup == 2 * rgroup)
      && 0 <= have <= 2 * rgroup && (seen == [] ==> thisRowGroup == 0) && (seen != [] ==> have >= rgroup)
      && nextBufRow == Position()
      && nextBufStop == Position() + 2 * rgroup - have
      && 0 <= rowsToGo <= height
      && if rowsToGo > 0 then |seen| * rgroup + have == height - rowsToGo else |seen| * rgroup + have >= height
    }

    /** The row at offset p from the row group that starts at t. */
    ghost function Kept(t: int, p: int): Row
      requires Shape() && 0 <= t <= 2 * rgroup && -rgroup <= p < 2 * rgroup
      reads buffer, pointers
    {
      buffer[Place(t + p)]
    }

    /** The rows from offset t + lo to t + hi - 1 are those from base + lo on; at the edges of the
        image its first and last row are repeated. */
    ghost predicate Stored(t: int, lo: int, hi: int, base: int)
      requires Shape() && 0 <= t <= 2 * rgroup && -rgroup <= lo && hi <= 2 * rgroup
      reads buffer, pointers
    {
      forall p :: lo <= p < hi ==> Kept(t, p) == RowAt(src, height, base + p)
    }

    ghost predicate SeenOk()
      reads this`seen
      requires rgroup >= 1 && height >= 1
    {
      forall n :: 0 <= n < |seen| ==> seen[n] == Around(src, height, rgroup, n)
    }

    ghost predicate Valid()
      reads this, buffer, pointers
    {
      && Shape() && Counters() && SeenOk() && have < 2 * rgroup
      && (rowsToGo < height ==> Stored(thisRowGroup, -rgroup, have, |seen| * rgroup))
    }

    constructor (rgroup: int, height: int, src: int -> Row)
      requires rgroup >= 1 && height >= 1
      ensures Valid() && seen == [] && rowsToGo == height
      ensures this.rgroup == rgroup && this.height == height && this.src == src && fresh(buffer) && fresh(pointers)
    {
      this.rgroup, this.height, this.src := rgroup, height, src;
      buffer := new Row[3 * rgroup](_ => []);
      pointers := new nat[5 * rgroup](_ => 0);
      rowsToGo, nextBufRow, thisRowGroup, nextBufStop := height, 0, 0, 2 * rgroup;
      have, seen := 0, [];
      new;
      CreateContextBuffer();
    }

    method CreateContextBuffer()
      requires rgroup >= 1 && height >= 1 && buffer.Length == 3 * rgroup && pointers.Length == 5 * rgroup
      modifies pointers
      ensures Shape()
    {
      for i := 0 to 3 * rgroup
        invariant forall k :: rgroup <= k < rgroup + i ==> pointers[k] == k - rgroup
      {
        pointers[rgroup + i] := i;
      }
      for i := 0 to rgroup
        invariant forall k :: rgroup <= k < 4 * rgroup ==> pointers[k] == k - rgroup
        invariant forall k :: 0 <= k < i ==> pointers[k] == k + 2 * rgroup
        invariant forall k :: 4 * rgroup <= k < 4 * rgroup + i ==> pointers[k] == k - 4 * rgroup
      {
        pointers[i] := 2 * rgroup + i;
        pointers[4 * rgroup + i] := i;
      }
    }

    lemma PlacesDiffer(t: int, p: int, q: int)
      requires 0 <= t <= 2 * rgroup && -rgroup <= p < 2 * rgroup && -rgroup <= q < 2 * rgroup && p != q
      ensures Place(t + p) != Place(t + q)
    {
    }

    /** Store a row at a place that offset t + q points to. */
    method Put(index: int, row: Row, ghost t: int, ghost q: int)
      requires Shape() && 0 <= t <= 2 * rgroup && -rgroup <= q < 2 * rgroup
      requires -rgroup <= index < 4 * rgroup && Place(index) == Place(t + q)
      modifies buffer
      ensures Kept(t, q) == row
      ensures forall p :: -rgroup <= p < 2 * rgroup && p != q ==> Kept(t, p) == old(Kept(t, p))
    {
      buffer[pointers[rgroup + index]] := row;
      forall p | -rgroup <= p < 2 * rgroup && p != q
        ensures Kept(t, p) == old(Kept(t, p))
      {
        PlacesDiffer(t, p, q);
      }
    }

    /** The row that index points to. */
    method Get(index: int, ghost t: int, ghost q: int) returns (row: Row)
      requires Shape() && 0 <= t <= 2 * rgroup && -rgroup <= q < 2 * rgroup
      requires -rgroup <= index < 4 * rgroup && Place(index) == Place(t + q)
      ensures row == Kept(t, q)
    {
      row := buffer[pointers[rgroup + index]];
    }

    ghost function First(): int
      reads this`rowsToGo
    {
      if rowsToGo < height then -rgroup else 0
    }

    /** The buffer index of what is stored next. */
    lemma NextPlace(i: int)
      requires Shape() && Counters() && -1 <= i && have + i < 2 * rgroup
      ensures -rgroup <= nextBufRow + i < 4 * rgroup && -rgroup <= have + i
      ensures Place(nextBufRow + i) == Place(thisRowGroup + (have + i))
    {
    }

    /** Color conversion of the next rows of the image. */
    method Convert(numrows: int)
      requires Shape() && Counters() && 0 <= numrows <= rowsToGo && have + numrows <= 2 * rgroup
      requires Stored(thisRowGroup, First(), have, |seen| * rgroup)
      modifies buffer
      ensures Stored(thisRowGroup, First(), have + numrows, |seen| * rgroup)
    {
      hide Place, Kept;
      var first := height - rowsToGo;
      for i := 0 to numrows
        invariant Stored(thisRowGroup, First(), have + i, |seen| * rgroup)
      {
        NextPlace(i);
        Put(nextBufRow + i, src(first + i), thisRowGroup, have + i);
      }
    }

    /** The first time through: the first row is copied above itself. */
    method PadTop(ghost stored: int)
      requires Shape() && thisRowGroup == 0 && 1 <= stored <= 2 * rgroup && Stored(0, 0, stored, 0)
      modifies buffer
      ensures Stored(0, -rgroup, stored, 0)
    {
      hide Place, Kept;
      for row := 1 to rgroup + 1
        invariant Stored(0, 1 - row, stored, 0)
      {
        var first := Get(0, 0, 0);
        Put(-row, first, 0, -row);
      }
    }

    /** At the bottom of the image: the last row is copied below itself. */
    method ExpandBottomEdge()
      requires Shape() && Counters() && rowsToGo == 0 && Stored(thisRowGroup, -rgroup, have, |seen| * rgroup)
      modifies buffer
      ensures Stored(thisRowGroup, -rgroup, 2 * rgroup, |seen| * rgroup)
    {
      hide Place, Kept;
      ghost var t, base := thisRowGroup, |seen| * rgroup;
      for row := nextBufRow to nextBufStop
        invariant Stored(t, -rgroup, have + (row - nextBufRow), base)
      {
        NextPlace(-1);
        var last := Get(nextBufRow - 1, t, have - 1);
        NextPlace(row - nextBufRow);
        Put(row, last, t, have + (row - nextBufRow));
      }
    }

    /** What the downsampler finds at this row group and next to it. */
    ghost function Window(): (rows: seq<Row>)
      requires Shape() && 0 <= thisRowGroup <= 2 * rgroup
      reads this, buffer, pointers
      ensures |rows| == 3 * rgroup
      ensures forall i :: 0 <= i < 3 * rgroup ==> rows[i] == Kept(thisRowGroup, i - rgroup)
    {
      PointersInside();
      seq(3 * rgroup, i requires 0 <= i < 3 * rgroup && Shape() && PointersOk() reads this, buffer, pointers =>
        buffer[pointers[rgroup + (thisRowGroup - rgroup + i)]])
    }

    ghost predicate PointersOk()
      reads this, pointers
    {
      && pointers.Length == 5 * rgroup && 0 <= thisRowGroup <= 2 * rgroup
      && forall i :: 0 <= i < pointers.Length ==> pointers[i] < buffer.Length
    }

    lemma PointersInside()
      requires Shape() && 0 <= thisRowGroup <= 2 * rgroup
      ensures PointersOk()
    {
      forall i | 0 <= i < pointers.Length
        ensures pointers[i] < buffer.Length
      {
        assert pointers[i] == Place(i - rgroup);
      }
    }

    lemma WindowIsRight()
      requires Shape() && 0 <= thisRowGroup <= 2 * rgroup && Stored(thisRowGroup, -rgroup, 2 * rgroup, |seen| * rgroup)
      ensures Window() == Around(src, height, rgroup, |seen|)
    {
      hide Kept, Place;
      var rows, window := Around(src, height, rgroup, |seen|), Window();
      forall i | 0 <= i < 3 * rgroup
        ensures window[i] == rows[i]
      {
        assert window[i] == Kept(thisRowGroup, i - rgroup);
      }
    }

    /** The next row group starts where this one ends. */
    lemma NextGroup(t: int, t': int, have: int, base: int)
      requires Shape() && 0 <= t <= 2 * rgroup && (t' == t + rgroup || (t == 2 * rgroup && t' == 0)) && t' <= 2 * rgroup
      requires Stored(t, -rgroup, 2 * rgroup, base) && have == rgroup
      ensures Stored(t', -rgroup, have, base + rgroup)
    {
      forall p | -rgroup <= p < have
        ensures Kept(t', p) == RowAt(src, height, base + rgroup + p)
      {
        assert Kept(t', p) == Kept(t, p + rgroup);
      }
    }

    /** Downsample a row group, and go on to the next one. */
    method Downsample()
      requires Shape() && Counters() && SeenOk() && have == 2 * rgroup && rowsToGo < height
      requires Stored(thisRowGroup, -rgroup, have, |seen| * rgroup)
      modifies this`thisRowGroup, this`nextBufRow, this`nextBufStop, this`have, this`seen
      ensures Valid() && |seen| == |old(seen)| + 1 && old(seen) <= seen
    {
      hide Place, Kept, Stored;
      WindowIsRight();
      ghost var t, base := thisRowGroup, |seen| * rgroup;
      assert (|seen| + 1) * rgroup == base + rgroup;
      seen := seen + [Window()];
      have := have - rgroup;
      thisRowGroup := thisRowGroup + rgroup;
      if thisRowGroup >= 3 * rgroup {
        thisRowGroup := 0;
      }
      if nextBufRow >= 3 * rgroup {
        nextBufRow := 0;
      }
      nextBufStop := nextBufRow + rgroup;
      NextGroup(t, thisRowGroup, have, base);
    }

    /** More rows of the image, as many as there is room for. */
    method Feed(room: int) returns (numrows: int)
      requires Valid() && 1 <= room <= rowsToGo
      modifies this`rowsToGo, this`nextBufRow, this`have, buffer
      ensures 1 <= numrows <= room && rowsToGo == old(rowsToGo) - numrows
      ensures Shape() && Counters() && SeenOk() && Stored(thisRowGroup, -rgroup, have, |seen| * rgroup)
    {
      hide Place, Kept, Stored;
      numrows := Smaller(nextBufStop - nextBufRow, room);
      if rowsToGo == height {
        NothingStored();
      }
      Convert(numrows);
      if rowsToGo == height {
        PadTop(have + numrows);
      }
      nextBufRow := nextBufRow + numrows;
      rowsToGo := rowsToGo - numrows;
      have := have + numrows;
    }

    lemma NothingStored()
      requires Valid() && rowsToGo == height
      ensures have == 0 && |seen| == 0 && Stored(thisRowGroup, 0, have, |seen| * rgroup)
    {
    }

    /** Take up to inRows more rows of the image and put out up to outGroups row groups. */
    method PreProcess(inRows: nat, outGroups: nat) returns (used: nat)
      requires Valid() && inRows <= rowsToGo
      modifies this`rowsToGo, this`nextBufRow, this`thisRowGroup, this`nextBufStop, this`have, this`seen, buffer
      ensures Valid() && used <= inRows && rowsToGo == old(rowsToGo) - used
      ensures old(seen) <= seen && |seen| <= |old(seen)| + outGroups
      ensures used < inRows || rowsToGo == 0 ==> |seen| == |old(seen)| + outGroups
    {
      hide Place, Kept, Stored;
      used := 0;
      var out := 0;
      while out < outGroups
        invariant Valid() && used <= inRows && rowsToGo == old(rowsToGo) - used
        invariant old(seen) <= seen && |seen| == |old(seen)| + out && out <= outGroups
        decreases outGroups - out + inRows - used
      {
        if used < inRows {
          var numrows := Feed(inRows - used);
          used := used + numrows;
        } else {
          if rowsToGo != 0 {
            break;
          }
          if nextBufRow < nextBufStop {
            ExpandBottomEdge();
            nextBufRow := nextBufStop;
            have := 2 * rgroup;
          }
        }
        if nextBufRow == nextBufStop {
          Downsample();
          out := out + 1;
        }
      }
    }
  }
}
