/** Zero-byte stuffing of entropy-coded data and the way decoders take it out again. */
module ByteStuffing {
  import opened Bits

  /** The wire form: every 0xFF data byte is followed by a zero byte. */
  function Stuff(s: seq<Byte>): seq<Byte>
    decreases |s|
  {
    if |s| == 0 then []
    else Stuff(s[..|s| - 1]) + if s[|s| - 1] == 0xFF then [0xFF, 0x00] else [s[|s| - 1]]
  }

  lemma StuffSnoc(s: seq<Byte>, b: Byte)
    ensures Stuff(s + [b]) == Stuff(s) + if b == 0xFF then [0xFF, 0x00] else [b]
  {
    assert (s + [b])[..|s|] == s;
  }

  lemma {:induction false} StuffConcat(s: seq<Byte>, t: seq<Byte>)
    ensures Stuff(s + t) == Stuff(s) + Stuff(t)
    decreases |t|
  {
    if |t| == 0 {
      assert s + t == s;
    } else {
      var t' := t[..|t| - 1];
      StuffConcat(s, t');
      assert (s + t)[..|s + t| - 1] == s + t';
    }
  }

  /** In the wire form a 0xFF is always followed by 0x00, so no marker can appear. */
  lemma {:induction false} StuffHasNoMarker(s: seq<Byte>, i: nat)
    requires i < |Stuff(s)| && Stuff(s)[i] == 0xFF
    ensures i + 1 < |Stuff(s)| && Stuff(s)[i + 1] == 0x00
    decreases |s|
  {
    var h := Stuff(s[..|s| - 1]);
    if i < |h| {
      StuffHasNoMarker(s[..|s| - 1], i);
    }
  }

  /** A byte source that ends in an end-of-image marker; the source managers supply one when
      the file itself does not. */
  predicate Terminated(input: seq<Byte>, pos: nat) {
    pos + 2 <= |input| && input[|input| - 2] == 0xFF && input[|input| - 1] == 0xD9
  }

  /** The first byte at or after i that is not 0xFF. */
  function PastOnes(input: seq<Byte>, i: nat): (j: nat)
    requires i < |input| && input[|input| - 1] != 0xFF
    ensures i <= j < |input| && input[j] != 0xFF
    decreases |input| - i
  {
    if input[i] == 0xFF then PastOnes(input, i + 1) else i
  }

  /** The data bytes from pos to the next marker, stuffing removed. Any number of 0xFF bytes
      may precede the byte that tells stuffing and marker apart. */
  function Segment(input: seq<Byte>, pos: nat): seq<Byte>
    requires Terminated(input, pos)
    decreases |input| - pos
  {
    if input[pos] != 0xFF then [input[pos]] + Segment(input, pos + 1)
    else
      var j := PastOnes(input, pos + 1);
      if input[j] == 0x00 then [0xFF as Byte] + Segment(input, j + 1) else []
  }

  /** The position just after the marker that ends the segment. */
  function SegmentEnd(input: seq<Byte>, pos: nat): (end: nat)
    requires Terminated(input, pos)
    ensures pos + 2 <= end <= |input| && IsMarker(input[end - 1])
    ensures input[end - 1] != 0xD9 ==> Terminated(input, end)
    decreases |input| - pos
  {
    if input[pos] != 0xFF then SegmentEnd(input, pos + 1)
    else
      var j := PastOnes(input, pos + 1);
      if input[j] == 0x00 then SegmentEnd(input, j + 1) else j + 1
  }

  predicate IsMarker(m: Byte) {
    m != 0x00 && m != 0xFF
  }

  /** The bytes w are next in the input. */
  predicate MatchesAt(input: seq<Byte>, pos: nat, w: seq<Byte>) {
    pos + |w| <= |input| && input[pos..pos + |w|] == w
  }

  lemma MatchesParts(input: seq<Byte>, pos: nat, u: seq<Byte>, v: seq<Byte>)
    requires MatchesAt(input, pos, u + v)
    ensures MatchesAt(input, pos, u) && MatchesAt(input, pos + |u|, v)
  {
    var w := input[pos..pos + |u + v|];
    assert w[..|u|] == u && w[|u|..] == v;
    assert w[..|u|] == input[pos..pos + |u|];
    assert w[|u|..] == input[pos + |u|..pos + |u| + |v|];
  }

  lemma MatchesIndex(input: seq<Byte>, pos: nat, w: seq<Byte>, i: nat)
    requires MatchesAt(input, pos, w) && i < |w|
    ensures input[pos + i] == w[i]
  {
    assert input[pos..pos + |w|][i] == input[pos + i];
  }

  lemma StuffFront(d: Byte, rest: seq<Byte>)
    ensures Stuff([d] + rest) == (if d == 0xFF then [0xFF, 0x00] else [d]) + Stuff(rest)
  {
    StuffConcat([d], rest);
    StuffSnoc([], d);
    assert [] + [d] == [d];
  }

  lemma SegmentAtMarker(input: seq<Byte>, pos: nat, m: Byte)
    requires Terminated(input, pos) && IsMarker(m) && input[pos] == 0xFF && input[pos + 1] == m
    ensures Segment(input, pos) == [] && SegmentEnd(input, pos) == pos + 2
  {
    assert PastOnes(input, pos + 1) == pos + 1;
  }

  lemma SegmentStep(input: seq<Byte>, pos: nat, d: Byte)
    requires Terminated(input, pos) && input[pos] == d && (d == 0xFF ==> input[pos + 1] == 0x00)
    ensures var next := pos + if d == 0xFF then 2 else 1;
            && Terminated(input, next)
            && Segment(input, pos) == [d] + Segment(input, next)
            && SegmentEnd(input, pos) == SegmentEnd(input, next)
  {
    if d == 0xFF {
      assert PastOnes(input, pos + 1) == pos + 1;
    }
  }

  /** Removing the stuffing is the inverse of putting it in, whatever comes after the marker
      that ends the segment. */
  lemma {:induction false} StuffedSegment(input: seq<Byte>, pos: nat, data: seq<Byte>, m: Byte)
    requires Terminated(input, pos) && IsMarker(m)
    requires MatchesAt(input, pos, Stuff(data) + [0xFF, m])
    ensures Segment(input, pos) == data
    ensures SegmentEnd(input, pos) == pos + |Stuff(data)| + 2
    ensures input[SegmentEnd(input, pos) - 1] == m
    decreases |data|
  {
    hide Segment, SegmentEnd, MatchesAt;
    if data == [] {
      assert Stuff(data) + [0xFF, m] == [0xFF, m];
      MatchesIndex(input, pos, [0xFF, m], 0);
      MatchesIndex(input, pos, [0xFF, m], 1);
      SegmentAtMarker(input, pos, m);
    } else {
      var d, rest := data[0], data[1..];
      assert data == [d] + rest;
      StuffFront(d, rest);
      var u, v := if d == 0xFF then [0xFF, 0x00] else [d], Stuff(rest) + [0xFF, m];
      assert Stuff(data) + [0xFF, m] == u + v;
      MatchesParts(input, pos, u, v);
      MatchesIndex(input, pos, u, 0);
      if d == 0xFF {
        MatchesIndex(input, pos, u, 1);
      }
      StuffedSegment(input, pos + |u|, rest, m);
      SegmentStep(input, pos, d);
    }
  }
}
