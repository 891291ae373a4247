/** The main controller of the decompressor when the upsampler wants context rows: each row
    group is handed out with the group above and the group below it, without copying rows. Two
    lists of row pointers into one workspace are used alternately. One component. */
module FunnyPointers {
  import opened Bits
  import opened McuLayout
  import ImageRows

  type Row = ImageRows.Row

  datatype ContextState = PrepareForImcu | ProcessImcu | PostponedRow

  lemma Times(a: int, b: int)
    ensures (a + 1) * b == a * b + b && (a - 1) * b == a * b - b
  {
  }

  lemma Assoc(a: int, b: int, c: int)
    ensures a * b * c == a * (b * c)
  {
  }

  lemma QuotientBounds(x: int, d: int)
    requires d > 0
    ensures x / d * d <= x < x / d * d + d
  {
    assert x == d * (x / d) + x % d;
  }

  class MainController {
    const m: int       // row groups per iMCU row
    const rgroup: int  // rows per row group
    const width: int   // rows per iMCU row
    const height: int  // rows of the component
    const total: int   // iMCU rows
    const src: int -> Row  // what the decoder delivers, padding rows at the bottom included

    const buffer: array<Row>
    const xbuffer0: array<nat>  // entry rgroup + p is the pointer at offset p
    const xbuffer1: array<nat>

    var bufferFull: bool
    var rowgroupCtr: int
    var whichptr: nat
    var contextState: ContextState
    var rowgroupsAvail: int
    var imcuRowCtr: int

    ghost var seen: seq<seq<Row>>  // for each group handed out: three groups of rows

    // The shape of the image and of the lists.

    ghost predicate Shape() {
      && m >= 2 && rgroup >= 1 && width == m * rgroup >= 2 * rgroup && height >= 1 && total >= 1
      && (total - 1) * width < height <= total * width
      && buffer.Length == width + 2 * rgroup
      && xbuffer0.Length == xbuffer1.Length == width + 4 * rgroup
      && xbuffer0 != xbuffer1
    }

    /** Rows of the last iMCU row. */
    function RowsLeft(): (r: int)
      requires width > 0
      ensures 1 <= r <= width
    {
      Rest(height, width)
    }

    function List(w: nat): array<nat> {
      if w == 0 then xbuffer0 else xbuffer1
    }

    /** In the second list the last four row groups are in swapped order. */
    function Place(w: nat, p: int): (q: int)
      requires 0 <= p < width + 2 * rgroup && width >= 2 * rgroup
      ensures 0 <= q < width + 2 * rgroup
    {
      if w == 0 || p < width - 2 * rgroup then p
      else if p < width then p + 2 * rgroup
      else p - 2 * rgroup
    }

    lemma PlacesDiffer(w: nat, p: int, q: int)
      requires width >= 2 * rgroup && 0 <= p < q < width + 2 * rgroup
      ensures Place(w, p) != Place(w, q)
    {
    }

    /** The saved rows are at the same places in both lists. */
    lemma SavedPlaces(w: nat, p: int)
      requires width >= 2 * rgroup && w < 2 && width <= p < width + 2 * rgroup
      ensures Place(1 - w, p) == Place(w, p - 2 * rgroup)
    {
    }

    /** The pointer at offset p. */
    ghost function At(w: nat, p: int): nat
      requires Shape() && -rgroup <= p < width + 3 * rgroup
      reads xbuffer0, xbuffer1
    {
      List(w)[rgroup + p]
    }

    ghost predicate Plain(w: nat)
      requires Shape()
      reads xbuffer0, xbuffer1
    {
      forall p :: 0 <= p < width + 2 * rgroup ==> At(w, p) == Place(w, p)
    }

    /** Above the first row group of the image its first row is repeated. */
    ghost predicate Top()
      requires Shape()
      reads xbuffer0, xbuffer1
    {
      forall p :: -rgroup <= p < 0 ==> At(0, p) == Place(0, 0)
    }

    ghost predicate Wrapped(w: nat)
      requires Shape()
      reads xbuffer0, xbuffer1
    {
      && (forall p :: -rgroup <= p < 0 ==> At(w, p) == Place(w, p + width + 2 * rgroup))
      && (forall p :: width + 2 * rgroup <= p < width + 3 * rgroup ==> At(w, p) == Place(w, p - width - 2 * rgroup))
    }

    /** In list w, from offset lo to hi - 1, stand the rows from base + lo on. */
    ghost predicate Stored(w: nat, lo: int, hi: int, base: int)
      requires Shape() && 0 <= lo <= hi <= width + 2 * rgroup
      reads buffer
    {
      forall p :: lo <= p < hi ==> buffer[Place(w, p)] == src(base + p)
    }

    /** The rows of the image, its first and last row repeated above and below. */
    function RowAt(x: int): Row
      requires height >= 1
    {
      ImageRows.RowAt(src, height, x)
    }

    ghost predicate Shows(w: nat, hi: int, base: int)
      requires Shape() && -rgroup <= hi <= width + 3 * rgroup
      reads buffer, xbuffer0, xbuffer1
    {
      forall p :: -rgroup <= p < hi ==> At(w, p) < buffer.Length && buffer[At(w, p)] == RowAt(base + p)
    }

    // The groups handed out.

    /** The rows that group t and the groups next to it should have. Where the group below is the
        first one of a new iMCU row it comes as the decoder delivered it. */
    function Expected(t: int): (rows: seq<Row>)
      requires Shape()
      ensures |rows| == 3 * rgroup
    {
      seq(3 * rgroup, i requires 0 <= i < 3 * rgroup => ExpectedRow(t, t * rgroup - rgroup + i))
    }

    function ExpectedRow(t: int, x: int): Row
      requires Shape()
    {
      if x >= height && Saved(t) then src(x) else RowAt(x)
    }

    /** The last group of an iMCU row other than the last one. */
    predicate Saved(t: int)
      requires Shape()
    {
      (t + 1) % m == 0 && t + 1 < total * m
    }

    /** The row groups that have rows of the image. */
    function Groups(): int
      requires Shape()
    {
      (height - 1) / rgroup + 1
    }

    ghost predicate SeenOk()
      requires Shape()
      reads this`seen
    {
      forall t :: 0 <= t < |seen| ==> seen[t] == Expected(t)
    }

    /** The pointers are in their normal state, or in that for the top of the image. */
    ghost predicate Normal(first: bool)
      requires Shape()
      reads xbuffer0, xbuffer1
    {
      Plain(0) && Plain(1) && if first then Top() else Wrapped(0) && Wrapped(1)
    }

    /** iMCU row n is in list w, and the last two groups of the one before are still there. */
    ghost predicate Filled(w: nat, n: int)
      requires Shape() && n >= 0
      reads xbuffer0, xbuffer1, buffer
    {
      && w == n % 2 && Normal(n == 0) && Stored(w, 0, width, n * width)
      && (n > 0 ==> Kept(w, n))
    }

    ghost predicate Kept(w: nat, n: int)
      requires Shape() && n > 0
      reads buffer
    {
      Stored(w, width, width + 2 * rgroup, n * width - 2 * rgroup - width)
    }

    ghost predicate Valid()
      reads this, buffer, xbuffer0, xbuffer1
    {
      && Shape() && SeenOk() && 0 <= imcuRowCtr <= total && whichptr < 2
      && match contextState
         case PrepareForImcu =>
           if bufferFull then Delivered()
           else imcuRowCtr == 0 && whichptr == 0 && seen == [] && Normal(true)
         case ProcessImcu => bufferFull && Processing() && rowgroupCtr < rowgroupsAvail
         case PostponedRow =>
           && rowgroupCtr == m + 1 && rowgroupsAvail == m + 2
           && if bufferFull then Saving(imcuRowCtr - 1) && Stored(whichptr, 0, width, (imcuRowCtr - 1) * width)
              else if imcuRowCtr < total then Saving(imcuRowCtr)
              else |seen| == Groups()
    }

    /** A new iMCU row is there, and the groups before it were handed out. */
    ghost predicate Delivered()
      requires Shape()
      reads this`imcuRowCtr, this`whichptr, this`seen, buffer, xbuffer0, xbuffer1
    {
      && 1 <= imcuRowCtr <= total && whichptr < 2 && Filled(whichptr, imcuRowCtr - 1)
      && |seen| == (imcuRowCtr - 1) * m
    }

    /** Some groups of the new iMCU row have been handed out. */
    ghost predicate Processing()
      requires Shape()
      reads this, buffer, xbuffer0, xbuffer1
    {
      && 1 <= imcuRowCtr <= total && 0 <= rowgroupCtr <= rowgroupsAvail && whichptr == (imcuRowCtr - 1) % 2
      && |seen| == (imcuRowCtr - 1) * m + rowgroupCtr
      && if imcuRowCtr < total then Filled(whichptr, imcuRowCtr - 1) && rowgroupsAvail == m - 1
         else rowgroupsAvail == (RowsLeft() - 1) / rgroup + 1 && Bottom()
    }

    /** The last group of the nth iMCU row, counting from 1, is still to be handed out. */
    ghost predicate Saving(n: int)
      requires Shape()
      reads this`whichptr, this`seen, buffer, xbuffer0, xbuffer1
    {
      && 1 <= n < total && whichptr == n % 2 && |seen| == n * m - 1 && Normal(false) && Kept(whichptr, n)
    }

    /** The last iMCU row is ready to be handed out. */
    ghost predicate Bottom()
      requires Shape()
      reads this`whichptr, this`rowgroupsAvail, buffer, xbuffer0, xbuffer1
    {
      && whichptr < 2 && 1 <= rowgroupsAvail <= m && (rowgroupsAvail + 1) * rgroup <= width + 3 * rgroup
      && Shows(whichptr, (rowgroupsAvail + 1) * rgroup, (total - 1) * width)
    }

    /** What a consumer of group g of list w finds: the group and its neighbours. */
    ghost function Window(w: nat, g: int): (rows: seq<Row>)
      requires Shape()
      reads buffer, xbuffer0, xbuffer1
      ensures |rows| == 3 * rgroup
    {
      seq(3 * rgroup, i requires 0 <= i < 3 * rgroup reads buffer, xbuffer0, xbuffer1 =>
        var p := (g - 1) * rgroup + i;
        if -rgroup <= p < width + 3 * rgroup && At(w, p) < buffer.Length then buffer[At(w, p)] else [])
    }

    /** Where group g of iMCU row n is in the image. */
    lemma Position(n: int, g: int)
      requires Shape()
      ensures (n * m + g) * rgroup == n * width + g * rgroup
      ensures (g - 1) * rgroup == g * rgroup - rgroup && (g + 1) * rgroup == g * rgroup + rgroup
      ensures (m + 1) * rgroup == width + rgroup && (m - 1) * rgroup == width - rgroup
    {
      Assoc(n, m, rgroup);
      assert (n * m + g) * rgroup == n * m * rgroup + g * rgroup;
    }

    lemma NotSaved(n: int, g: int)
      requires Shape() && 0 <= n < total && 0 <= g < m && (g == m - 1 ==> n == total - 1)
      ensures !Saved(n * m + g)
    {
      if g < m - 1 {
        Remainder(n * m + g + 1, m, n, g + 1);
      } else {
        Times(n, m);
      }
    }

    /** A group of the iMCU row at hand, next to which everything is in place. */
    lemma MainWindow(w: nat, n: int, g: int)
      requires Shape() && w < 2 && 0 <= n < total && 0 <= g < m && (g == m - 1 ==> n == total - 1)
      requires (g + 2) * rgroup <= width + 3 * rgroup && Shows(w, (g + 2) * rgroup, n * width)
      ensures Window(w, g) == Expected(n * m + g)
    {
      hide Saved;
      NotSaved(n, g);
      Position(n, g);
      Position(n, g + 1);
      var rows, t := Expected(n * m + g), n * m + g;
      forall i | 0 <= i < 3 * rgroup
        ensures Window(w, g)[i] == rows[i]
      {
        var p := (g - 1) * rgroup + i;
        assert g * rgroup >= 0 && p < (g + 2) * rgroup;
        assert buffer[At(w, p)] == RowAt(n * width + p);
        assert rows[i] == ExpectedRow(t, t * rgroup - rgroup + i);
      }
    }

    lemma LastGroupSaved(n: int)
      requires Shape() && 1 <= n < total
      ensures Saved(n * m - 1) && n * width >= width
    {
      Remainder(n * m, m, n, 0);
      Times(n, m);
      MulMono(n + 1, total, m);
      MulMono(1, n, width);
    }

    lemma SavedPosition(n: int)
      requires Shape()
      ensures (n * m - 1) * rgroup == n * width - rgroup
    {
      Times(n * m, rgroup);
      Assoc(n, m, rgroup);
    }

    lemma SavedExpected(n: int, i: int)
      requires Shape() && 1 <= n < total && 0 <= i < 3 * rgroup
      ensures Expected(n * m - 1)[i] == src(n * width - 2 * rgroup + i)
    {
      SavedPosition(n);
      LastGroupSaved(n);
      hide Saved;
      var t := n * m - 1;
      var x := t * rgroup - rgroup + i;
      assert x == n * width - 2 * rgroup + i >= 0;
      assert Expected(t)[i] == ExpectedRow(t, x) == src(x);
    }

    /** The rows of the saved group and its neighbours; base is the first row that came after. */
    lemma SavedRow(w: nat, base: int, i: int)
      requires Shape() && w < 2 && Plain(w) && Wrapped(w) && 0 <= i < 3 * rgroup
      requires Stored(w, width, width + 2 * rgroup, base - 2 * rgroup - width) && Stored(w, 0, width, base)
      ensures At(w, width + i) < buffer.Length && buffer[At(w, width + i)] == src(base - 2 * rgroup + i)
    {
      var p := width + i;
      if i < 2 * rgroup {
        assert At(w, p) == Place(w, p);
      } else {
        assert At(w, p) == Place(w, p - width - 2 * rgroup);
      }
    }

    /** The group that was saved until the next iMCU row arrived. */
    lemma SavedWindow(w: nat, n: int)
      requires Shape() && w < 2 && 1 <= n < total && Plain(w) && Wrapped(w)
      requires Kept(w, n) && Stored(w, 0, width, n * width)
      ensures Window(w, m + 1) == Expected(n * m - 1)
    {
      hide Plain, Wrapped, Stored, Expected, Place;
      var rows, expected := Window(w, m + 1), Expected(n * m - 1);
      forall i | 0 <= i < 3 * rgroup
        ensures rows[i] == expected[i]
      {
        Position(n, m);
        SavedRow(w, n * width, i);
        SavedExpected(n, i);
      }
    }

    /** What remains to be handed out is right. */
    ghost predicate Outgoing()
      requires Shape()
      reads this`whichptr, this`rowgroupCtr, this`rowgroupsAvail, this`seen, buffer, xbuffer0, xbuffer1
    {
      forall g :: rowgroupCtr <= g < rowgroupsAvail ==> Window(whichptr, g) == Expected(|seen| + g - rowgroupCtr)
    }

    /** The postprocessor takes as many of the groups at hand as it has room for. */
    method PostProcess(take: nat)
      requires Shape() && SeenOk() && Outgoing() && rowgroupCtr <= rowgroupsAvail
      modifies this`rowgroupCtr, this`seen
      ensures SeenOk() && Outgoing() && old(rowgroupCtr) <= rowgroupCtr <= rowgroupsAvail
      ensures rowgroupCtr == if old(rowgroupCtr) + take < rowgroupsAvail
              then old(rowgroupCtr) + take else rowgroupsAvail
      ensures |seen| == |old(seen)| + rowgroupCtr - old(rowgroupCtr) && old(seen) <= seen
    {
      hide Window, Expected;
      for i := 0 to take
        invariant SeenOk() && Outgoing() && old(rowgroupCtr) <= rowgroupCtr <= rowgroupsAvail
        invariant rowgroupCtr == if old(rowgroupCtr) + i < rowgroupsAvail then old(rowgroupCtr) + i else rowgroupsAvail
        invariant |seen| == |old(seen)| + rowgroupCtr - old(rowgroupCtr) && old(seen) <= seen
      {
        if rowgroupCtr < rowgroupsAvail {
          seen := seen + [Window(whichptr, rowgroupCtr)];
          rowgroupCtr := rowgroupCtr + 1;
        }
      }
    }

    // The lists of row pointers.

    /** Store a pointer at offset p of list w. */
    method SetPointer(w: nat, p: int, v: nat)
      requires Shape() && w < 2 && -rgroup <= p < width + 3 * rgroup
      modifies List(w)
      ensures At(w, p) == v
      ensures forall u: nat, q :: u < 2 && -rgroup <= q < width + 3 * rgroup && (u != w || q != p) ==>
                At(u, q) == old(At(u, q))
    {
      var list := List(w);
      list[rgroup + p] := v;
    }

    method GetPointer(w: nat, p: int) returns (v: nat)
      requires Shape() && w < 2 && -rgroup <= p < width + 3 * rgroup
      ensures v == At(w, p)
    {
      v := List(w)[rgroup + p];
    }

    method MakeFunnyPointers()
      requires Shape()
      modifies xbuffer0, xbuffer1
      ensures Normal(true)
    {
      CopyPointers();
      SwapPointers();
      var first := GetPointer(0, 0);
      for i := 0 to rgroup
        invariant Plain(0) && Plain(1)
        invariant forall p :: -rgroup <= p < -rgroup + i ==> At(0, p) == first
      {
        SetPointer(0, i - rgroup, first);
      }
    }

    method CopyPointers()
      requires Shape()
      modifies xbuffer0, xbuffer1
      ensures forall p :: 0 <= p < width + 2 * rgroup ==> At(0, p) == p && At(1, p) == p
    {
      for i := 0 to width + 2 * rgroup
        invariant forall p :: 0 <= p < i ==> At(0, p) == p && At(1, p) == p
      {
        SetPointer(0, i, i);
        SetPointer(1, i, i);
      }
    }

    method SwapPointers()
      requires Shape() && forall p :: 0 <= p < width + 2 * rgroup ==> At(0, p) == p && At(1, p) == p
      modifies xbuffer1
      ensures Plain(0) && Plain(1)
    {
      for i := 0 to 2 * rgroup
        invariant forall p :: 0 <= p < width + 2 * rgroup ==> At(0, p) == p
        invariant forall p :: 0 <= p < width + 2 * rgroup ==>
          At(1, p) == if width - 2 * rgroup <= p < width - 2 * rgroup + i || width <= p < width + i
            then Place(1, p) else p
      {
        SetPointer(1, width - 2 * rgroup + i, width + i);
        SetPointer(1, width + i, width - 2 * rgroup + i);
      }
    }

    ghost predicate AboveUpTo(w: nat, i: int)
      requires Shape() && 0 <= i <= rgroup
      reads xbuffer0, xbuffer1
    {
      forall p :: -rgroup <= p < -rgroup + i ==> At(w, p) == Place(w, p + width + 2 * rgroup)
    }

    ghost predicate BelowUpTo(w: nat, i: int)
      requires Shape() && 0 <= i <= rgroup
      reads xbuffer0, xbuffer1
    {
      forall p :: width + 2 * rgroup <= p < width + 2 * rgroup + i ==> At(w, p) == Place(w, p - width - 2 * rgroup)
    }

    ghost predicate WrappedUpTo(w: nat, i: int)
      requires Shape() && 0 <= i <= rgroup
      reads xbuffer0, xbuffer1
    {
      Plain(w) && AboveUpTo(w, i) && BelowUpTo(w, i)
    }

    /** From the state for the top of the image to the normal one. */
    method SetWraparoundPointers()
      requires Shape()
      modifies xbuffer0, xbuffer1
      ensures old(Plain(0) && Plain(1)) ==> Normal(false)
    {
      hide Place;
      for i := 0 to rgroup
        invariant old(Plain(0)) ==> WrappedUpTo(0, i)
        invariant old(Plain(1)) ==> WrappedUpTo(1, i)
      {
        WrapOne(0, i);
        WrapOne(1, i);
      }
    }

    method WrapOne(w: nat, i: nat)
      requires Shape() && w < 2 && i < rgroup
      modifies List(w)
      ensures old(WrappedUpTo(w, i)) ==> WrappedUpTo(w, i + 1)
      ensures forall u: nat, q :: u < 2 && u != w && -rgroup <= q < width + 3 * rgroup ==> At(u, q) == old(At(u, q))
    {
      hide Place;
      WrapAbove(w, i);
      WrapBelow(w, i);
    }

    method WrapAbove(w: nat, i: nat)
      requires Shape() && w < 2 && i < rgroup
      modifies List(w)
      ensures old(WrappedUpTo(w, i)) ==> Plain(w) && AboveUpTo(w, i + 1) && BelowUpTo(w, i)
      ensures forall u: nat, q :: u < 2 && u != w && -rgroup <= q < width + 3 * rgroup ==> At(u, q) == old(At(u, q))
    {
      hide Place;
      var last := GetPointer(w, width + rgroup + i);
      SetPointer(w, i - rgroup, last);
    }

    method WrapBelow(w: nat, i: nat)
      requires Shape() && w < 2 && i < rgroup
      modifies List(w)
      ensures old(Plain(w) && AboveUpTo(w, i + 1) && BelowUpTo(w, i)) ==> WrappedUpTo(w, i + 1)
      ensures forall u: nat, q :: u < 2 && u != w && -rgroup <= q < width + 3 * rgroup ==> At(u, q) == old(At(u, q))
    {
      hide Place;
      var first := GetPointer(w, i);
      SetPointer(w, width + 2 * rgroup + i, first);
    }

    /** The last row is repeated below the image. */
    method SetBottomPointers()
      requires Shape() && whichptr < 2 && Plain(whichptr)
      modifies this`rowgroupsAvail, xbuffer0, xbuffer1
      ensures rowgroupsAvail == (RowsLeft() - 1) / rgroup + 1
      ensures forall p :: -rgroup <= p < RowsLeft() ==> At(whichptr, p) == old(At(whichptr, p))
      ensures forall p :: RowsLeft() <= p < RowsLeft() + 2 * rgroup ==>
              At(whichptr, p) == Place(whichptr, RowsLeft() - 1)
    {
      var rowsLeft := height % width;
      if rowsLeft == 0 {
        rowsLeft := width;
      }
      assert rowsLeft == RowsLeft();
      hide RowsLeft;
      rowgroupsAvail := (rowsLeft - 1) / rgroup + 1;
      var last := GetPointer(whichptr, rowsLeft - 1);
      assert last == Place(whichptr, rowsLeft - 1);
      for i := 0 to 2 * rgroup
        invariant rowgroupsAvail == (rowsLeft - 1) / rgroup + 1
        invariant forall p :: -rgroup <= p < rowsLeft ==> At(whichptr, p) == old(At(whichptr, p))
        invariant forall p :: rowsLeft <= p < rowsLeft + i ==> At(whichptr, p) == last
      {
        SetPointer(whichptr, rowsLeft + i, last);
      }
    }

    /** The coefficient controller delivers iMCU row n. */
    method DecompressData(n: int)
      requires Shape() && whichptr < 2 && Plain(whichptr)
      modifies buffer
      ensures Stored(whichptr, 0, width, n * width)
      ensures forall p :: width <= p < width + 2 * rgroup ==>
              buffer[Place(whichptr, p)] == old(buffer[Place(whichptr, p)])
    {
      var xbuf := List(whichptr);
      for i := 0 to width
        invariant forall p :: 0 <= p < i ==> buffer[Place(whichptr, p)] == src(n * width + p)
        invariant forall p :: width <= p < width + 2 * rgroup ==>
          buffer[Place(whichptr, p)] == old(buffer[Place(whichptr, p)])
      {
        assert At(whichptr, i) == Place(whichptr, i);
        buffer[xbuf[rgroup + i]] := src(n * width + i);
      }
    }

    // The states between calls.

    lemma LastRows()
      requires Shape()
      ensures height == (total - 1) * width + RowsLeft()
    {
      var r := height - (total - 1) * width;
      Times(total, width);
      if r == width {
        Remainder(height, width, total, 0);
      } else {
        Remainder(height, width, total - 1, r);
      }
    }

    /** What the lists show of an iMCU row that was just delivered. */
    lemma FilledShows(w: nat, n: int)
      requires Shape() && w < 2 && 0 <= n < total && Filled(w, n)
      ensures forall p :: -rgroup <= p < width && n * width + p < height ==>
                At(w, p) < buffer.Length && buffer[At(w, p)] == RowAt(n * width + p)
    {
      Times(n, width);
      MulMono(0, n, width);
      if n > 0 {
        MulMono(1, n, width);
      }
      forall p | -rgroup <= p < width && n * width + p < height
        ensures At(w, p) < buffer.Length && buffer[At(w, p)] == RowAt(n * width + p)
      {
        if p >= 0 {
          assert At(w, p) == Place(w, p);
        } else if n == 0 {
          assert At(0, p) == Place(0, 0);
        } else {
          assert At(w, p) == Place(w, p + width + 2 * rgroup);
        }
      }
    }

    lemma AllReal(n: int)
      requires Shape() && 0 <= n < total - 1
      ensures n * width + width < height
    {
      Times(n, width);
      MulMono(n + 1, total - 1, width);
    }

    /** The row groups before the saved one can be handed out. */
    lemma MainGroups(w: nat, n: int, avail: int)
      requires Shape() && w < 2 && 0 <= n < total && 0 <= avail <= m && (avail == m ==> n == total - 1)
      requires (avail + 1) * rgroup <= width + 3 * rgroup && Shows(w, (avail + 1) * rgroup, n * width)
      ensures forall g :: 0 <= g < avail ==> Window(w, g) == Expected(n * m + g)
    {
      hide Window, Expected;
      forall g | 0 <= g < avail
        ensures Window(w, g) == Expected(n * m + g)
      {
        MulMono(g + 2, avail + 1, rgroup);
        ShowsLess(w, (g + 2) * rgroup, (avail + 1) * rgroup, n * width);
        MainWindow(w, n, g);
      }
    }

    lemma ShowsLess(w: nat, lo: int, hi: int, base: int)
      requires Shape() && -rgroup <= lo <= hi <= width + 3 * rgroup && Shows(w, hi, base)
      ensures Shows(w, lo, base)
    {
    }

    constructor (m: int, rgroup: int, height: int, src: int -> Row)
      requires m >= 2 && rgroup >= 1 && height >= 1
      ensures Valid() && seen == [] && this.m == m && this.rgroup == rgroup && this.height == height && this.src == src
      ensures fresh(buffer) && fresh(xbuffer0) && fresh(xbuffer1)
    {
      this.m, this.rgroup, this.height, this.src := m, rgroup, height, src;
      MulMono(2, m, rgroup);
      width := m * rgroup;
      QuotientBounds(height - 1, m * rgroup);
      Times((height - 1) / (m * rgroup), m * rgroup);
      total := (height - 1) / (m * rgroup) + 1;
      buffer := new Row[m * rgroup + 2 * rgroup](_ => []);
      xbuffer0 := new nat[m * rgroup + 4 * rgroup](_ => 0);
      xbuffer1 := new nat[m * rgroup + 4 * rgroup](_ => 0);
      bufferFull, rowgroupCtr, whichptr, rowgroupsAvail, imcuRowCtr := false, 0, 0, 0, 0;
      contextState := PrepareForImcu;
      seen := [];
      new;
      MakeFunnyPointers();
    }

    method Load()
      requires Valid() && !bufferFull && imcuRowCtr < total
      modifies this`bufferFull, this`imcuRowCtr, buffer
      ensures Valid() && bufferFull
    {
      DecompressData(imcuRowCtr);
      bufferFull := true;
      imcuRowCtr := imcuRowCtr + 1;
    }

    /** Hand out the group that was saved. */
    method ProcessPostponed(take: nat)
      requires Valid() && bufferFull && contextState == PostponedRow
      modifies this`rowgroupCtr, this`seen, this`contextState
      ensures Valid() && old(seen) <= seen
      ensures if take == 0 then contextState == PostponedRow else contextState == PrepareForImcu && old(seen) < seen
    {
      hide Stored, Plain, Wrapped, Expected, Window;
      ghost var n := imcuRowCtr - 1;
      SavedWindow(whichptr, n);
      PostProcess(take);
      if rowgroupCtr < rowgroupsAvail {
        return;
      }
      contextState := PrepareForImcu;
    }

    lemma GroupsLeft()
      requires Shape()
      ensures var avail := (RowsLeft() - 1) / rgroup + 1;
              1 <= avail <= m && (avail + 1) * rgroup < RowsLeft() + 2 * rgroup
    {
      var r := RowsLeft();
      hide RowsLeft;
      var q := (r - 1) / rgroup;
      QuotientBounds(r - 1, rgroup);
      Times(q, rgroup);
      Times(q + 1, rgroup);
      if q < 0 {
        MulMono(q, -1, rgroup);
      } else if q >= m {
        MulMono(m, q, rgroup);
      }
    }

    /** At the bottom of the image: everything that will be looked at is in place. */
    method PrepareBottom()
      requires Valid() && bufferFull && contextState == PrepareForImcu && imcuRowCtr == total
      modifies this`rowgroupsAvail, xbuffer0, xbuffer1
      ensures rowgroupsAvail == (RowsLeft() - 1) / rgroup + 1 && Bottom()
    {
      ghost var w, n := whichptr, total - 1;
      LastRows();
      GroupsLeft();
      FilledShows(w, n);
      LastRowStored(w, n);
      hide RowsLeft, Stored, Place;
      SetBottomPointers();
      forall p | -rgroup <= p < (rowgroupsAvail + 1) * rgroup
        ensures At(w, p) < buffer.Length && buffer[At(w, p)] == RowAt(n * width + p)
      {
        if p < RowsLeft() {
          assert At(w, p) == old(At(w, p));
        } else {
          assert At(w, p) == Place(w, RowsLeft() - 1);
        }
      }
    }

    method Prepare()
      requires Valid() && bufferFull && contextState == PrepareForImcu
      modifies this`rowgroupCtr, this`rowgroupsAvail, this`contextState, xbuffer0, xbuffer1
      ensures Valid() && contextState == ProcessImcu
    {
      hide Stored, Expected;
      rowgroupCtr := 0;
      rowgroupsAvail := m - 1;
      if imcuRowCtr == total {
        PrepareBottom();
      }
      contextState := ProcessImcu;
    }

    lemma LastRowStored(w: nat, n: int)
      requires Shape() && n >= 0 && Filled(w, n) && n == total - 1
      ensures buffer[Place(w, RowsLeft() - 1)] == src(height - 1)
    {
      LastRows();
    }

    /** Hand out groups of the iMCU row at hand. */
    method ProcessMain(take: nat)
      requires Valid() && contextState == ProcessImcu
      modifies this`rowgroupCtr, this`seen
      ensures SeenOk() && Processing() && rowgroupCtr <= rowgroupsAvail
      ensures old(seen) <= seen && (take > 0 ==> old(seen) < seen)
    {
      hide Stored, Expected, Window;
      MainOutgoing();
      PostProcess(take);
    }

    lemma MainOutgoing()
      requires Shape() && Processing()
      ensures Outgoing()
    {
      hide Expected, Window, RowsLeft;
      var n := imcuRowCtr - 1;
      if imcuRowCtr < total {
        FilledShows(whichptr, n);
        AllReal(n);
        MainGroups(whichptr, n, m - 1);
      } else {
        MainGroups(whichptr, n, rowgroupsAvail);
      }
    }

    lemma AllGroups()
      requires Shape()
      ensures (total - 1) * m + (RowsLeft() - 1) / rgroup + 1 == Groups()
    {
      LastRows();
      var r := RowsLeft();
      hide RowsLeft;
      var q := (r - 1) / rgroup;
      QuotientBounds(r - 1, rgroup);
      Position(total - 1, q);
      Remainder(height - 1, rgroup, (total - 1) * m + q, r - 1 - q * rgroup);
    }

    /** The rows saved for the next iMCU row are where the other list has them. */
    lemma KeptInOther(w: nat, n: int)
      requires Shape() && w < 2 && n >= 1 && Stored(w, 0, width, (n - 1) * width)
      ensures Kept(1 - w, n)
    {
      Times(n, width);
      var other := 1 - w;
      forall p | width <= p < width + 2 * rgroup
        ensures buffer[Place(other, p)] == src(n * width - 2 * rgroup - width + p)
      {
        SavedPlaces(w, p);
        assert buffer[Place(w, p - 2 * rgroup)] == src((n - 1) * width + (p - 2 * rgroup));
      }
    }

    lemma BeforeSwitch()
      requires Shape() && Processing() && rowgroupCtr == rowgroupsAvail
      ensures imcuRowCtr == total ==> |seen| == Groups()
      ensures imcuRowCtr < total ==> |seen| == imcuRowCtr * m - 1 && Kept(1 - whichptr, imcuRowCtr)
      ensures imcuRowCtr < total ==> 1 - whichptr == imcuRowCtr % 2 && Plain(0)
                                     && Plain(1) && (imcuRowCtr > 1 ==> Normal(false))
    {
      hide Expected, RowsLeft, Stored, Plain, Wrapped, Top, Shows;
      AllGroups();
      Times(imcuRowCtr, m);
      if imcuRowCtr < total {
        KeptInOther(whichptr, imcuRowCtr);
      }
    }

    /** On to the other list. */
    method Switch()
      requires Shape() && SeenOk() && bufferFull && Processing() && rowgroupCtr == rowgroupsAvail
      modifies this`whichptr, this`bufferFull, this`rowgroupCtr, this`rowgroupsAvail, this`contextState
      modifies xbuffer0, xbuffer1
      ensures Valid()
    {
      hide Expected, Kept, Plain, Normal;
      BeforeSwitch();
      if imcuRowCtr == 1 {
        SetWraparoundPointers();
      }
      whichptr := 1 - whichptr;
      bufferFull := false;
      rowgroupCtr := m + 1;
      rowgroupsAvail := m + 2;
      contextState := PostponedRow;
    }

    /** One call: the decoder may or may not have an iMCU row, the postprocessor takes some
        groups, and its output may be full in between. */
    method ProcessData(delivers: bool, take1: nat, full: bool, take2: nat)
      requires Valid() && (delivers && !bufferFull ==> imcuRowCtr < total)
      modifies this`bufferFull, this`rowgroupCtr, this`whichptr, this`contextState,
               this`rowgroupsAvail, this`imcuRowCtr, this`seen
      modifies buffer, xbuffer0, xbuffer1
      ensures Valid() && old(seen) <= seen
      ensures (delivers || old(bufferFull)) && take1 > 0 && take2 > 0 ==> old(seen) < seen
    {
      hide Expected, Shape, Delivered, Processing, Saving, Stored;
      if !bufferFull {
        if !delivers {
          return;
        }
        Load();
      }
      if contextState == PostponedRow {
        ProcessPostponed(take1);
        if contextState == PostponedRow {
          return;
        }
        if full {
          return;
        }
      }
      if contextState == PrepareForImcu {
        Prepare();
      }
      ProcessMain(take2);
      if rowgroupCtr < rowgroupsAvail {
        return;
      }
      Switch();
    }

    // What the consumer sees in the end.

    /** When all iMCU rows were received and worked off, every row group of the image was handed
        out, once and in order. */
    lemma AllHandedOut()
      requires Valid() && imcuRowCtr == total && !bufferFull
      ensures |seen| == Groups() && forall t :: 0 <= t < Groups() ==> seen[t] == Expected(t)
    {
    }

    /** The context is the image's, its first and last row repeated at the edges, unless the last
        iMCU row holds less than a whole row group. */
    lemma TrueContext(t: int, i: int)
      requires Shape() && 0 <= t < Groups() && 0 <= i < 3 * rgroup
      requires total == 1 || RowsLeft() >= rgroup
      ensures Expected(t)[i] == RowAt(t * rgroup - rgroup + i)
    {
      var x := t * rgroup - rgroup + i;
      assert Expected(t)[i] == ExpectedRow(t, x);
      if x >= height && Saved(t) {
        SavedBelow(t);
        LastRows();
        Times(total, m);
        assert false;
      }
    }

    /** A saved group ends where an iMCU row ends. */
    lemma SavedBelow(t: int)
      requires Shape() && Saved(t) && t >= 0
      ensures t * rgroup + rgroup <= (total - 1) * width
    {
      var n := (t + 1) / m;
      assert t + 1 == m * n;
      Times(total, m);
      if n >= total {
        MulMono(total, n, m);
        assert false;
      }
      MulMono(n, total - 1, width);
      Assoc(n, m, rgroup);
      Times(t, rgroup);
    }

    /** Otherwise the group before that iMCU row is shown the decoder's padding below it. */
    lemma PaddingShown()
      requires Shape() && total > 1 && RowsLeft() < rgroup
      ensures var t, i := (total - 1) * m - 1, 2 * rgroup + RowsLeft();
              0 <= t < Groups() && 0 <= i < 3 * rgroup && t * rgroup - rgroup + i == height
                && Expected(t)[i] == src(height)
                && (src(height) != src(height - 1) ==> Expected(t)[i] != RowAt(height))
    {
      var n, r := total - 1, RowsLeft();
      LastRows();
      AllGroups();
      hide RowsLeft;
      GroupsLeft();
      SavedPosition(n);
      LastGroupSaved(n);
      SavedExpected(n, 2 * rgroup + r);
      MulMono(1, n, m);
    }

    /** An image of 17 rows, in iMCU rows of eight groups of two, is shown padding there. */
    lemma PaddingExample()
      requires Shape() && m == 8 && rgroup == 2 && height == 17 && src(17) != src(16)
      ensures 0 <= 7 < Groups() && Expected(7)[5] == src(17) != RowAt(7 * rgroup - rgroup + 5) == src(16)
    {
      assert total == 2;
      PaddingShown();
    }
  }

  /** The number of row groups left for the bottom of the image is the same for all components,
      although it is computed for the first one only. */
  lemma SameGroupsLeft(rows: int, unit: int, m: int, rgroup: int, rgroup': int)
    requires rows >= 1 && unit >= 1 && m >= 1 && rgroup >= 1 && rgroup' >= 1
    ensures m * rgroup >= 1 && m * rgroup' >= 1
    ensures var height, height' := DivRoundUp(rows * rgroup, unit), DivRoundUp(rows * rgroup', unit);
            && DivRoundUp(height, m * rgroup) == DivRoundUp(height', m * rgroup')
            && (Rest(height, m * rgroup) - 1) / rgroup + 1 == (Rest(height', m * rgroup') - 1) / rgroup' + 1
  {
    hide DivRoundUp, Rest;
    GroupsInLast(rows, unit, m, rgroup);
    GroupsInLast(rows, unit, m, rgroup');
  }
}
