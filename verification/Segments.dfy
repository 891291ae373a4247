/** A scan on the wire: segments of entropy-coded data, with restart markers between them. */
module Segments {
  import opened Bits
  import opened ByteStuffing
  import opened Scans

  type Mcu = seq<Item>

  predicate McusOk(scan: Scan, mcus: seq<Mcu>) {
    forall j :: 0 <= j < |mcus| ==> ItemsOk(scan, mcus[j])
  }

  function Flat(mcus: seq<Mcu>): seq<Item>
    decreases |mcus|
  {
    if mcus == [] then [] else mcus[0] + Flat(mcus[1..])
  }

  lemma {:induction false} FlatOk(scan: Scan, mcus: seq<Mcu>)
    requires McusOk(scan, mcus)
    ensures ItemsOk(scan, Flat(mcus))
    decreases |mcus|
  {
    if mcus != [] {
      FlatOk(scan, mcus[1..]);
    }
  }

  /** Where the segment that starts at MCU s ends, for restart interval r (0: no restarts). */
  function SegmentLimit(n: nat, r: nat, s: nat): (e: nat)
    requires s <= n
    ensures s <= e <= n && (r > 0 && s < n ==> s < e <= s + r)
  {
    if r == 0 || s + r > n then n else s + r
  }

  /** The first MCU of segment i. */
  function FirstMcu(n: nat, r: nat, i: nat): (s: nat)
    ensures s <= n
  {
    if i == 0 then 0 else SegmentLimit(n, r, FirstMcu(n, r, i - 1))
  }

  /** With restarts segment i starts at MCU i * r, unless the MCUs end before. */
  lemma {:induction false} SegmentStart(n: nat, r: nat, i: nat)
    requires r > 0
    ensures FirstMcu(n, r, i) == if i * r <= n then i * r else n
  {
    if i > 0 {
      SegmentStart(n, r, i - 1);
      assert i * r == (i - 1) * r + r;
    }
  }

  /** A finished segment on the wire, followed by its restart marker. */
  ghost function OnWire(data: seq<Byte>, n: nat): seq<Byte> {
    Stuff(data) + [0xFF, 0xD0 + n % 8]
  }

  lemma PutOnWire(base: seq<Byte>, data: seq<Byte>, n: nat)
    ensures base + Stuff(data) + [0xFF] + [0xD0 + n % 8] == base + OnWire(data, n)
  {
  }

  ghost function Wire(datas: seq<seq<Byte>>): seq<Byte>
    decreases |datas|
  {
    if datas == [] then []
    else Wire(datas[..|datas| - 1]) + OnWire(datas[|datas| - 1], |datas| - 1)
  }

  /** The bytes of a scan: segments separated by restart markers. */
  ghost function ScanBytes(datas: seq<seq<Byte>>): seq<Byte>
    requires datas != []
  {
    Wire(datas[..|datas| - 1]) + Stuff(datas[|datas| - 1])
  }

  /** Where segment i starts on the wire. */
  ghost function Offset(datas: seq<seq<Byte>>, i: nat): nat
    requires i <= |datas|
  {
    |Wire(datas[..i])|
  }

  /** The marker after segment i: a restart marker, or the end-of-image marker. */
  function MarkerAfter(count: nat, i: nat): (m: Byte)
    ensures IsMarker(m)
  {
    if i + 1 == count then 0xD9 else 0xD0 + i % 8
  }

  lemma {:induction false} WirePrefix(datas: seq<seq<Byte>>, i: nat, n: nat)
    requires i < n <= |datas|
    ensures Wire(datas[..i]) + OnWire(datas[i], i) <= Wire(datas[..n])
    decreases n
  {
    assert datas[..n][..n - 1] == datas[..n - 1] && datas[..n][n - 1] == datas[n - 1];
    if i + 1 < n {
      WirePrefix(datas, i, n - 1);
    }
  }

  /** Segment i and the marker after it are found at its offset. */
  lemma SegmentOnWire(datas: seq<seq<Byte>>, i: nat, input: seq<Byte>)
    requires i < |datas| && input == ScanBytes(datas) + [0xFF, 0xD9]
    ensures MatchesAt(input, Offset(datas, i), Stuff(datas[i]) + [0xFF, MarkerAfter(|datas|, i)])
    ensures i + 1 < |datas| ==> Offset(datas, i + 1) == Offset(datas, i) + |Stuff(datas[i])| + 2
    ensures Terminated(input, Offset(datas, i))
  {
    hide Wire, Stuff;
    var n := |datas| - 1;
    var head, w := Wire(datas[..i]), Stuff(datas[i]) + [0xFF, MarkerAfter(|datas|, i)];
    if i < n {
      WirePrefix(datas, i, n);
      WireStep(datas, i);
      assert head + w <= Wire(datas[..n]);
      PrefixMatches(input, head, w, Wire(datas[..n]));
    } else {
      assert input == head + w;
      PrefixMatches(input, head, w, input);
    }
  }

  lemma WireStep(datas: seq<seq<Byte>>, i: nat)
    requires i < |datas|
    ensures Wire(datas[..i + 1]) == Wire(datas[..i]) + OnWire(datas[i], i)
  {
    assert datas[..i + 1][..i] == datas[..i] && datas[..i + 1][i] == datas[i];
  }

  lemma PrefixMatches(input: seq<Byte>, head: seq<Byte>, w: seq<Byte>, long: seq<Byte>)
    requires head + w <= long <= input
    ensures MatchesAt(input, |head|, w)
  {
    assert input[..|head + w|] == head + w;
    assert input[|head|..|head + w|] == w;
  }

  lemma MarkerIsThere(datas: seq<seq<Byte>>, i: nat, input: seq<Byte>)
    requires i + 1 < |datas| && input == ScanBytes(datas) + [0xFF, 0xD9]
    ensures Offset(datas, i + 1) == Offset(datas, i) + |Stuff(datas[i])| + 2 <= |input|
    ensures input[Offset(datas, i + 1) - 1] == 0xD0 + i % 8
  {
    hide Wire, Stuff;
    SegmentOnWire(datas, i, input);
    var w := Stuff(datas[i]) + [0xFF, MarkerAfter(|datas|, i)];
    MatchesIndex(input, Offset(datas, i), w, |w| - 1);
  }

  lemma FirstOffset(datas: seq<seq<Byte>>)
    ensures datas[..0] == [] && Offset(datas, 0) == 0
  {
  }

  /** The blocks to decode into: one array for each block of each MCU, all different. */
  ghost predicate TargetsOk(scan: Scan, mcus: seq<Mcu>, comps: seq<seq<nat>>, targets: seq<seq<array<Coef>>>) {
    && |mcus| == |comps| == |targets|
    && (forall j :: 0 <= j < |mcus| ==> |mcus[j]| == |comps[j]| == |targets[j]|)
    && (forall j, b :: 0 <= j < |mcus| && 0 <= b < |mcus[j]| ==>
          mcus[j][b].comp == comps[j][b] && comps[j][b] < scan.NumComps() && targets[j][b].Length == 64)
    && (forall j, b, d :: 0 <= j < |mcus| && 0 <= b < d < |mcus[j]| ==> targets[j][b] != targets[j][d])
    && (forall j, k, b, d :: 0 <= j < k < |mcus| && 0 <= b < |mcus[j]| && 0 <= d < |mcus[k]| ==>
          targets[j][b] != targets[k][d])
  }

  ghost function Arrays(targets: seq<seq<array<Coef>>>): set<object> {
    set j, b | 0 <= j < |targets| && 0 <= b < |targets[j]| :: targets[j][b]
  }

  /** The blocks hold what the scan builds on. */
  ghost predicate PriorsOk(scan: Scan, mcus: seq<Mcu>, targets: seq<seq<array<Coef>>>)
    requires scan.Ok() && |mcus| == |targets|
    requires forall j :: 0 <= j < |mcus| ==> |mcus[j]| == |targets[j]|
    requires forall j, b :: 0 <= j < |mcus| && 0 <= b < |mcus[j]| ==> targets[j][b].Length == 64
    reads Arrays(targets)
  {
    forall j, b :: 0 <= j < |mcus| && 0 <= b < |mcus[j]| ==> Prior(scan, targets[j][b][..], mcus[j][b].block)
  }
}
