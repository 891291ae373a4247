/** The probability estimation state machine shared by the arithmetic coder and decoder,
    over any table whose rows are usable. The JPEG table is the one in AritTable.

    A statistics bin is one byte: the index of a row in the low seven bits and the sense
    of the more probable symbol (MPS) in the high bit. */
module Estimation {

  datatype Raw = R(qe: int, nextLps: int, nextMps: int, switchMps: int)

  predicate RowOk(r: Raw) {
    && 1 <= r.qe <= 0x5b12
    && 0 <= r.nextLps <= 113 && 0 <= r.nextMps <= 113
    && 0 <= r.switchMps <= 1
  }

  type Row = r: Raw | RowOk(r) witness R(1, 0, 0, 0)
  type Table = t: seq<Row> | |t| == 114 witness seq(114, _ => R(1, 0, 0, 0))

  type Bin = sv: int | 0 <= sv <= 0xFF && sv % 0x80 <= 113

  predicate Mps(sv: Bin) {
    sv >= 0x80
  }

  /** The compact form in which a row is stored. */
  function Pack(r: Row): int {
    r.qe * 0x10000 + r.nextMps * 0x100 + r.switchMps * 0x80 + r.nextLps
  }

  /** What the coders unpack from the stored form. */
  function UnpackLps(packed: int): int {
    packed % 0x100
  }

  function UnpackMps(packed: int): int {
    packed / 0x100 % 0x100
  }

  function UnpackQe(packed: int): int {
    packed / 0x100 / 0x100
  }

  lemma Unpacking(r: Row)
    ensures UnpackQe(Pack(r)) == r.qe
    ensures UnpackMps(Pack(r)) == r.nextMps
    ensures UnpackLps(Pack(r)) == r.switchMps * 0x80 + r.nextLps
  {
  }

  /** (sv & 0x80) ^ n on bytes. */
  function HighBitXor(sv: int, n: int): int {
    (sv / 0x80 + n / 0x80) % 2 * 0x80 + n % 0x80
  }

  /** The byte update flips the sense of the MPS exactly when the high bit of n is set. */
  lemma HighBitXorIs(sv: Bin, index: int, flip: int)
    requires 0 <= index <= 113 && 0 <= flip <= 1
    ensures HighBitXor(sv, flip * 0x80 + index) ==
            index + if Mps(sv) != (flip == 1) then 0x80 else 0
  {
    assert sv / 0x80 == if Mps(sv) then 1 else 0;
    if flip == 1 {
      assert (0x80 + index) / 0x80 == 1 && (0x80 + index) % 0x80 == index;
    }
  }

  function Qe(t: Table, sv: Bin): (qe: int)
    ensures 1 <= qe <= 0x5b12
  {
    t[sv % 0x80].qe
  }

  function MakeBin(index: int, mps: bool): (sv: Bin)
    requires 0 <= index <= 113
    ensures Mps(sv) == mps && sv % 0x80 == index
  {
    index + if mps then 0x80 else 0
  }

  function AfterLps(t: Table, sv: Bin): Bin {
    var r := t[sv % 0x80];
    MakeBin(r.nextLps, Mps(sv) != (r.switchMps == 1))
  }

  function AfterMps(t: Table, sv: Bin): Bin {
    MakeBin(t[sv % 0x80].nextMps, Mps(sv))
  }

  /** The packed row, the way both coders read it, gives exactly this state machine. */
  lemma PackedRowDrivesBins(t: Table, sv: Bin)
    ensures var packed := Pack(t[sv % 0x80]);
            && UnpackQe(packed) == Qe(t, sv)
            && HighBitXor(sv, UnpackLps(packed)) == AfterLps(t, sv)
            && HighBitXor(sv, UnpackMps(packed)) == AfterMps(t, sv)
  {
    var r := t[sv % 0x80];
    Unpacking(r);
    HighBitXorIs(sv, r.nextLps, r.switchMps);
    HighBitXorIs(sv, r.nextMps, 0);
  }
}
