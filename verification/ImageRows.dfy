/** Sample rows, and the context that a row group has within an image. */
module ImageRows {

  type Row = seq<int>

  /** The rows above the first and below the last one are copies of these. */
  function RowAt(src: int -> Row, height: int, x: int): Row
    requires height >= 1
  {
    if x < 0 then src(0) else if x < height then src(x) else src(height - 1)
  }

  /** The nth group of rows with the group above and the group below it. */
  function Around(src: int -> Row, height: int, rgroup: int, n: int): (rows: seq<Row>)
    requires height >= 1 && rgroup >= 1
    ensures |rows| == 3 * rgroup
  {
    seq(3 * rgroup, i requires 0 <= i < 3 * rgroup => RowAt(src, height, n * rgroup - rgroup + i))
  }
}
