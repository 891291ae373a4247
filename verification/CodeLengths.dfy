/** The theory behind Huffman's procedure: code lengths that satisfy Kraft's inequality,
    their cost, and why joining the two smallest counts loses nothing. */
module CodeLengths {
  import opened Bits

  /** 2^-n. */
  ghost function Half(n: nat): real {
    if n == 0 then 1.0 else Half(n - 1) / 2.0
  }

  lemma {:induction false} HalfScaled(l: nat, n: nat)
    requires l <= n
    ensures Half(l) > 0.0 && Half(l) * Pow2(n) as real == Pow2(n - l) as real
  {
    if l != 0 {
      HalfScaled(l - 1, n);
      assert Pow2(n - (l - 1)) == 2 * Pow2(n - l);
    }
  }

  /** Kraft's sum over the symbols below n that have a count: at most 1 exactly if codes
      of these lengths exist of which none is a prefix of another. */
  ghost function Kraft(freq: seq<nat>, size: seq<nat>, n: nat): real
    requires n <= |freq| == |size|
  {
    if n == 0 then 0.0 else Kraft(freq, size, n - 1) + if freq[n - 1] > 0 then Half(size[n - 1]) else 0.0
  }

  /** The number of bits that coding every counted symbol takes. */
  ghost function Cost(freq: seq<nat>, size: seq<nat>, n: nat): nat
    requires n <= |freq| == |size|
  {
    if n == 0 then 0 else Cost(freq, size, n - 1) + freq[n - 1] * size[n - 1]
  }

  ghost predicate Decodable(freq: seq<nat>, size: seq<nat>) {
    |freq| == |size| && Kraft(freq, size, |freq|) <= 1.0
  }

  /** No decodable assignment of lengths makes the counted symbols cheaper. */
  ghost predicate Optimal(freq: seq<nat>, size: seq<nat>) {
    && Decodable(freq, size)
    && forall other :: Decodable(freq, other) ==> Cost(freq, size, |freq|) <= Cost(freq, other, |freq|)
  }

  lemma {:induction false} Resized(freq: seq<nat>, size: seq<nat>, x: nat, l: nat, n: nat)
    requires n <= |freq| == |size| && x < |freq| && freq[x] > 0
    ensures Kraft(freq, size[x := l], n) == Kraft(freq, size, n) + if x < n then Half(l) - Half(size[x]) else 0.0
    ensures Cost(freq, size[x := l], n) == Cost(freq, size, n) + if x < n then freq[x] * l - freq[x] * size[x] else 0
  {
    if n != 0 {
      Resized(freq, size, x, l, n - 1);
    }
  }

  /** A smaller count may take the longer of two codes. */
  lemma Swapped(freq: seq<nat>, size: seq<nat>, x: nat, y: nat) returns (now: seq<nat>)
    requires Decodable(freq, size) && x < |freq| && y < |freq| && 0 < freq[x] <= freq[y] && size[x] <= size[y]
    ensures now == size[x := size[y]][y := size[x]]
    ensures Decodable(freq, now) && Cost(freq, now, |freq|) <= Cost(freq, size, |freq|)
  {
    hide Kraft, Cost;
    var one := size[x := size[y]];
    now := one[y := size[x]];
    Resized(freq, size, x, size[y], |freq|);
    Resized(freq, one, y, size[x], |freq|);
    if x != y {
      Rearranged(freq[x], freq[y], size[x], size[y]);
    }
  }

  lemma Rearranged(f: nat, g: nat, a: nat, b: nat)
    requires f <= g && a <= b
    ensures f * b + g * a <= f * a + g * b
  {
    assert (g - f) * (b - a) >= 0;
    assert (g - f) * (b - a) == g * b - g * a - f * b + f * a;
  }

  lemma Longest(freq: seq<nat>, size: seq<nat>, skip: int, some: nat, n: nat) returns (x: nat)
    requires some < n <= |freq| == |size| && freq[some] > 0 && some != skip
    ensures x < n && x != skip && freq[x] > 0
    ensures forall y :: 0 <= y < n && y != skip && freq[y] > 0 ==> size[y] <= size[x]
  {
    x := some;
    if some < n - 1 {
      x := Longest(freq, size, skip, some, n - 1);
      if n - 1 != skip && freq[n - 1] > 0 && size[n - 1] > size[x] {
        x := n - 1;
      }
    } else if other :| 0 <= other < n - 1 && other != skip && freq[other] > 0 {
      x := Longest(freq, size, skip, other, n - 1);
      if size[some] > size[x] {
        x := some;
      }
    }
  }

  /** What the symbols other than c take up. */
  ghost function Others(freq: seq<nat>, size: seq<nat>, c: nat, n: nat): real
    requires n <= |freq| == |size|
  {
    if n == 0 then 0.0 else Others(freq, size, c, n - 1) + if n - 1 != c && freq[n - 1] > 0
                            then Half(size[n - 1]) else 0.0
  }

  lemma {:induction false} KraftSplit(freq: seq<nat>, size: seq<nat>, c: nat, n: nat)
    requires n <= |freq| == |size| && c < |freq| && freq[c] > 0
    ensures Kraft(freq, size, n) == Others(freq, size, c, n) + if c < n then Half(size[c]) else 0.0
  {
    if n != 0 {
      KraftSplit(freq, size, c, n - 1);
    }
  }

  /** The symbols other than c, none longer than l, take up a whole number of codes of length l. */
  lemma {:induction false} WholeCodes(freq: seq<nat>, size: seq<nat>, c: nat, l: nat, n: nat) returns (k: nat)
    requires n <= |freq| == |size|
    requires forall y :: 0 <= y < n && y != c && freq[y] > 0 ==> size[y] <= l
    ensures Others(freq, size, c, n) * Pow2(l) as real == k as real
  {
    hide Half, Pow2;
    k := 0;
    if n != 0 {
      k := WholeCodes(freq, size, c, l, n - 1);
      var y := n - 1;
      if y != c && freq[y] > 0 {
        HalfScaled(size[y], l);
        DistributeReal(Others(freq, size, c, y), Half(size[y]), Pow2(l) as real);
        k := k + Pow2(l - size[y]);
      }
    }
  }

  /** Kraft's inequality still holds when the longest code is cut to the next longest length. */
  lemma CutLongest(freq: seq<nat>, size: seq<nat>, c: nat, d: nat) returns (now: seq<nat>)
    requires Decodable(freq, size) && c < |freq| && d < |freq| && c != d && freq[c] > 0 && freq[d] > 0
    requires size[d] <= size[c]
    requires forall y :: 0 <= y < |freq| && y != c && freq[y] > 0 ==> size[y] <= size[d]
    ensures now == size[c := size[d]] && size[d] > 0
    ensures Decodable(freq, now) && Cost(freq, now, |freq|) <= Cost(freq, size, |freq|)
  {
    hide Kraft, Cost;
    var l := size[d];
    now := size[c := l];
    Resized(freq, size, c, l, |freq|);
    MulMono(l, size[c], freq[c]);
    var k := WholeCodes(freq, size, c, l, |freq|);
    HalfScaled(size[c], size[c]);
    HalfScaled(l, l);
    var rest := Others(freq, size, c, |freq|);
    KraftSplit(freq, size, c, |freq|);
    ScaledBelow(rest, Pow2(l) as real);
    assert k + 1 <= Pow2(l);
    ScaledAtMost(rest, Half(l), Pow2(l) as real);
    if l == 0 {
      AtLeastOne(freq, now, c, d);
    }
  }

  lemma ScaledBelow(a: real, p: real)
    requires p > 0.0 && a < 1.0
    ensures a * p < p
  {
  }

  lemma ScaledAtMost(a: real, h: real, p: real)
    requires p > 0.0 && h * p == 1.0 && a * p + 1.0 <= p
    ensures a + h <= 1.0
  {
    assert (a + h) * p <= 1.0 * p;
  }

  lemma {:induction false} TwoCodes(freq: seq<nat>, size: seq<nat>, c: nat, d: nat, n: nat)
    requires n <= |freq| == |size| && c < |freq| && d < |freq| && c != d && freq[c] > 0 && freq[d] > 0
    ensures Kraft(freq, size, n) >= (if c < n then Half(size[c]) else 0.0) + if d < n then Half(size[d]) else 0.0
  {
    if n != 0 {
      TwoCodes(freq, size, c, d, n - 1);
      HalfScaled(size[n - 1], size[n - 1]);
    }
  }

  /** Two symbols cannot both have the empty code. */
  lemma AtLeastOne(freq: seq<nat>, size: seq<nat>, c: nat, d: nat)
    requires Decodable(freq, size) && c < |freq| && d < |freq| && c != d && freq[c] > 0 && freq[d] > 0
    ensures size[c] > 0
  {
    TwoCodes(freq, size, c, d, |freq|);
    HalfScaled(size[d], size[d]);
  }

  ghost function Merged(freq: seq<nat>, c: nat, d: nat): (r: seq<nat>)
    requires c < |freq| && d < |freq|
    ensures |r| == |freq|
  {
    freq[c := freq[c] + freq[d]][d := 0]
  }

  lemma {:induction false} MergedSums(freq: seq<nat>, size: seq<nat>, c: nat, d: nat, n: nat)
    requires n <= |freq| == |size| && c < |freq| && d < |freq| && c != d && freq[c] > 0 && freq[d] > 0
    ensures Kraft(Merged(freq, c, d), size, n) == Kraft(freq, size, n) - if d < n then Half(size[d]) else 0.0
    ensures Cost(Merged(freq, c, d), size, n) ==
            Cost(freq, size, n) + (if c < n then freq[d] * size[c] else 0) - if d < n then freq[d] * size[d] else 0
  {
    if n != 0 {
      MergedSums(freq, size, c, d, n - 1);
      if n - 1 == c {
        Distribute(freq[c], freq[d], size[c]);
      }
    }
  }

  lemma DistributeReal(a: real, b: real, c: real)
    ensures (a + b) * c == a * c + b * c
  {
  }

  lemma Distribute(a: int, b: int, c: int)
    ensures (a + b) * c == a * c + b * c
  {
  }

  /** Where c and d have the two smallest counts, lengths for all symbols give lengths for the
      merged counts that save at least one bit per occurrence of c and of d. */
  lemma MergeLosesNothing(freq: seq<nat>, size: seq<nat>, c: nat, d: nat) returns (now: seq<nat>)
    requires Decodable(freq, size) && c < |freq| && d < |freq| && c != d && 0 < freq[c] <= freq[d]
    requires forall y :: 0 <= y < |freq| && y != c && freq[y] > 0 ==> freq[d] <= freq[y]
    ensures Decodable(Merged(freq, c, d), now)
    ensures Cost(Merged(freq, c, d), now, |freq|) + freq[c] + freq[d] <= Cost(freq, size, |freq|)
  {
    hide Kraft, Cost;
    var x := Longest(freq, size, -1, c, |freq|);
    var s1 := Swapped(freq, size, c, x);
    var y := Longest(freq, s1, c, d, |freq|);
    var s2 := Swapped(freq, s1, d, y);
    var s3 := CutLongest(freq, s2, c, d);
    now := s3[c := s3[d] - 1];
    var f := Merged(freq, c, d);
    MergedSums(freq, s3, c, d, |freq|);
    Resized(f, s3, c, s3[d] - 1, |freq|);
    assert Half(s3[d] - 1) == 2.0 * Half(s3[d]);
    SaveOne(freq[c] + freq[d], s3[d]);
  }

  lemma SaveOne(f: nat, l: nat)
    requires l > 0
    ensures f * (l - 1) + f == f * l
  {
  }

  /** The state of Huffman's procedure loses nothing: lengths for the original counts give
      lengths for the present counts that cost as much less as the tree built so far costs. */
  ghost predicate LosesNothing(freq: seq<nat>, spent: nat, now: seq<nat>) {
    forall size :: Decodable(freq, size) ==>
      exists rest :: Decodable(now, rest) && Cost(now, rest, |now|) + spent <= Cost(freq, size, |freq|)
  }

  lemma StartLosesNothing(freq: seq<nat>)
    ensures LosesNothing(freq, 0, freq)
  {
    forall size | Decodable(freq, size)
      ensures exists rest :: Decodable(freq, rest) && Cost(freq, rest, |freq|) + 0 <= Cost(freq, size, |freq|)
    {
      assert Cost(freq, size, |freq|) + 0 <= Cost(freq, size, |freq|);
    }
  }

  lemma StepLosesNothing(freq: seq<nat>, spent: nat, now: seq<nat>, c: nat, d: nat)
    requires LosesNothing(freq, spent, now)
    requires c < |now| && d < |now| && c != d && 0 < now[c] <= now[d]
    requires forall y :: 0 <= y < |now| && y != c && now[y] > 0 ==> now[d] <= now[y]
    ensures LosesNothing(freq, spent + now[c] + now[d], Merged(now, c, d))
  {
    var now' := Merged(now, c, d);
    forall size | Decodable(freq, size)
      ensures exists rest :: Decodable(now', rest) &&
                Cost(now', rest, |now'|) + (spent + now[c] + now[d]) <= Cost(freq, size, |freq|)
    {
      var rest :| Decodable(now, rest) && Cost(now, rest, |now|) + spent <= Cost(freq, size, |freq|);
      var rest' := MergeLosesNothing(now, rest, c, d);
      assert Cost(now', rest', |now'|) + (spent + now[c] + now[d]) <= Cost(freq, size, |freq|);
    }
  }

  lemma EndIsOptimal(freq: seq<nat>, size: seq<nat>, now: seq<nat>)
    requires Decodable(freq, size) && LosesNothing(freq, Cost(freq, size, |freq|), now)
    ensures Optimal(freq, size)
  {
  }
}
