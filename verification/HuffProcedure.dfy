/** Huffman's procedure as a function of the counts: which two chains are merged, what sizes the
    symbols end up with, and how large the counts must be for a size to exceed a limit. */
module HuffProcedure {
  import opened CodeLengths

  const SYMBOLS := 257  // 256 real symbols and the pseudo-symbol 256
  const LIMIT := 1_000_000_000
  const MAX_CLEN := 32

  function Total(freq: seq<nat>, n: nat): nat
    requires n <= |freq|
  {
    if n == 0 then 0 else Total(freq, n - 1) + freq[n - 1]
  }

  function Roots(freq: seq<nat>, n: nat): nat
    requires n <= |freq|
  {
    if n == 0 then 0 else Roots(freq, n - 1) + if freq[n - 1] > 0 then 1 else 0
  }

  /** The smallest nonzero count up to LIMIT, but that of skip; of equal ones the last. */
  ghost function Smallest(freq: seq<nat>, skip: int, n: nat): (c: int)
    requires n <= |freq|
    ensures c == -1 || (0 <= c < n && c != skip && 0 < freq[c] <= LIMIT)
  {
    if n == 0 then -1
    else
      var c := Smallest(freq, skip, n - 1);
      var v := if c == -1 then LIMIT else freq[c];
      if freq[n - 1] != 0 && freq[n - 1] <= v && n - 1 != skip then n - 1 else c
  }

  lemma {:induction false} SmallestIsLeast(freq: seq<nat>, skip: int, n: nat, i: nat)
    requires i < n <= |freq| && i != skip && 0 < freq[i] <= LIMIT
    ensures var c := Smallest(freq, skip, n); c != -1 && freq[c] <= freq[i] && (freq[c] == freq[i] ==> i <= c)
  {
    if i < n - 1 {
      SmallestIsLeast(freq, skip, n - 1, i);
    }
  }

  /** What a merge does to the ghost view of the chains: chain c2 is appended to chain c1. */
  ghost function Joined(owner: seq<int>, c1: int, c2: int): (r: seq<int>)
    ensures |r| == |owner|
  {
    seq(|owner|, x requires 0 <= x < |owner| => if owner[x] == c2 then c1 else owner[x])
  }

  /** Initially every symbol with a count is a chain of its own. */
  ghost function Singles(freq: seq<nat>): (owner: seq<int>)
    ensures |owner| == |freq|
  {
    seq(|freq|, x requires 0 <= x < |freq| => if freq[x] > 0 then x else -1)
  }

  /** The codes of two chains become one bit longer. */
  ghost function Grown(size: seq<nat>, owner: seq<int>, c1: int, c2: int): (r: seq<nat>)
    requires |size| == |owner|
    ensures |r| == |size|
    ensures forall x :: 0 <= x < |r| ==> r[x] == size[x] + if owner[x] == c1 || owner[x] == c2 then 1 else 0
  {
    seq(|size|, x requires 0 <= x < |size| => size[x] + if owner[x] == c1 || owner[x] == c2 then 1 else 0)
  }

  lemma {:induction false} MergedCounts(freq: seq<nat>, freq': seq<nat>, c1: nat, c2: nat, n: nat)
    requires n <= |freq| == |freq'| && c1 != c2 && c1 < |freq| && c2 < |freq|
    requires freq' == Merged(freq, c1, c2) && freq[c1] > 0 && freq[c2] > 0
    ensures Roots(freq', n) == Roots(freq, n) - if c2 < n then 1 else 0
    ensures Total(freq', n) == Total(freq, n) + (if c1 < n then freq[c2] else 0) - if c2 < n then freq[c2] else 0
  {
    if n != 0 {
      MergedCounts(freq, freq', c1, c2, n - 1);
    }
  }

  lemma {:induction false} BelowTotal(freq: seq<nat>, c: nat, n: nat)
    requires c < n <= |freq|
    ensures freq[c] <= Total(freq, n)
  {
    if c < n - 1 {
      BelowTotal(freq, c, n - 1);
    }
  }

  /** The sizes at the end when the procedure goes on from this state. */
  ghost function SizesFrom(freq: seq<nat>, owner: seq<int>, size: seq<nat>): (r: seq<nat>)
    requires |freq| == |owner| == |size|
    ensures |r| == |size|
    decreases Roots(freq, |freq|)
  {
    var c1 := Smallest(freq, -1, |freq|);
    var c2 := Smallest(freq, c1, |freq|);
    if c1 == -1 || c2 == -1 then size
    else
      MergedCounts(freq, Merged(freq, c1, c2), c1, c2, |freq|);
      SizesFrom(Merged(freq, c1, c2), Joined(owner, c1, c2), Grown(size, owner, c1, c2))
  }

  /** The code sizes that Huffman's procedure gives the counted symbols. */
  ghost function HuffmanSizes(counts: seq<nat>): (size: seq<nat>)
    ensures |size| == |counts|
  {
    SizesFrom(counts, Singles(counts), seq(|counts|, _ => 0))
  }

  ghost predicate AnyAbove(size: seq<nat>, limit: nat) {
    exists x :: 0 <= x < |size| && size[x] > limit
  }

  /** With the pseudo-symbol counted once, some size is too long for the table maker. */
  ghost predicate TooLong(counts: seq<nat>)
    requires |counts| == SYMBOLS
  {
    AnyAbove(HuffmanSizes(counts[256 := 1]), MAX_CLEN)
  }

  // A long code takes many counts.

  function Fib(n: nat): nat {
    if n < 2 then n else Fib(n - 1) + Fib(n - 2)
  }

  lemma {:induction false} FibMono(m: nat, n: nat)
    requires 1 <= m <= n
    ensures 1 <= Fib(m) <= Fib(n)
  {
    if m < n {
      FibMono(m, n - 1);
    } else if m > 2 {
      FibMono(1, m - 1);
    }
  }

  /** A chain with a symbol of size s is counted at least Fib(s + 2) times in all, and every
      other chain at least Fib(s + 1) times: the two that were merged last were smallest. */
  ghost predicate Deep(freq: seq<nat>, owner: seq<int>, size: seq<nat>) {
    && |freq| == |owner| == |size|
    && (forall x :: 0 <= x < |owner| && owner[x] != -1 ==> 0 <= owner[x] < |freq| && freq[owner[x]] >= Fib(size[x] + 2))
    && forall x, e :: 0 <= x < |owner| && 0 <= e < |freq| && owner[x] != -1 && e != owner[x] && freq[e] > 0 ==>
                        freq[e] >= Fib(size[x] + 1)
  }

  lemma MergeKeepsDeep(freq: seq<nat>, owner: seq<int>, size: seq<nat>, c1: nat, c2: nat)
    requires Deep(freq, owner, size) && c1 < |freq| && c2 < |freq| && c1 != c2 && 0 < freq[c1] && 0 < freq[c2]
    requires forall i :: 0 <= i < |freq| && freq[i] > 0 ==> freq[c1] <= freq[i]
    requires forall i :: 0 <= i < |freq| && freq[i] > 0 && i != c1 ==> freq[c2] <= freq[i]
    ensures Deep(Merged(freq, c1, c2), Joined(owner, c1, c2), Grown(size, owner, c1, c2))
  {
    var freq', owner', size' := Merged(freq, c1, c2), Joined(owner, c1, c2), Grown(size, owner, c1, c2);
    forall x | 0 <= x < |owner| && owner'[x] != -1
      ensures 0 <= owner'[x] < |freq| && freq'[owner'[x]] >= Fib(size'[x] + 2)
      ensures forall e :: 0 <= e < |freq| && e != owner'[x] && freq'[e] > 0 ==> freq'[e] >= Fib(size'[x] + 1)
    {
      var s := size[x];
      if owner[x] == c1 || owner[x] == c2 {
        var other := if owner[x] == c1 then c2 else c1;
        assert freq[other] >= Fib(s + 1);
        assert Fib(s + 3) == Fib(s + 2) + Fib(s + 1);
      } else {
        assert freq[c1] >= Fib(s + 1);
      }
    }
  }

  lemma {:induction false} LongTakesMany(freq: seq<nat>, owner: seq<int>, size: seq<nat>, x: nat)
    requires Deep(freq, owner, size) && Total(freq, |freq|) <= LIMIT && x < |owner| && owner[x] != -1
    ensures Total(freq, |freq|) >= Fib(SizesFrom(freq, owner, size)[x] + 2)
    decreases Roots(freq, |freq|)
  {
    hide Deep, Total, Roots, Smallest, Fib;
    var n := |freq|;
    var c1 := Smallest(freq, -1, n);
    var c2 := Smallest(freq, c1, n);
    forall i | 0 <= i < n && freq[i] > 0
      ensures c1 != -1 && freq[c1] <= freq[i] && (i != c1 ==> c2 != -1 && freq[c2] <= freq[i])
    {
      BelowTotal(freq, i, n);
      SmallestIsLeast(freq, -1, n, i);
      if i != c1 {
        SmallestIsLeast(freq, c1, n, i);
      }
    }
    if c1 == -1 || c2 == -1 {
      LastChain(freq, owner, size, x);
    } else {
      MergedCounts(freq, Merged(freq, c1, c2), c1, c2, n);
      MergeKeepsDeep(freq, owner, size, c1, c2);
      LongTakesMany(Merged(freq, c1, c2), Joined(owner, c1, c2), Grown(size, owner, c1, c2), x);
    }
  }

  lemma LastChain(freq: seq<nat>, owner: seq<int>, size: seq<nat>, x: nat)
    requires Deep(freq, owner, size) && x < |owner| && owner[x] != -1
    ensures Total(freq, |freq|) >= Fib(size[x] + 2)
  {
    BelowTotal(freq, owner[x], |freq|);
  }

  lemma {:induction false} UncountedStays(freq: seq<nat>, owner: seq<int>, size: seq<nat>, x: nat)
    requires |freq| == |owner| == |size| && x < |owner| && owner[x] == -1
    ensures SizesFrom(freq, owner, size)[x] == size[x]
    decreases Roots(freq, |freq|)
  {
    hide Roots, Smallest;
    var c1 := Smallest(freq, -1, |freq|);
    var c2 := Smallest(freq, c1, |freq|);
    if c1 != -1 && c2 != -1 {
      MergedCounts(freq, Merged(freq, c1, c2), c1, c2, |freq|);
      UncountedStays(Merged(freq, c1, c2), Joined(owner, c1, c2), Grown(size, owner, c1, c2), x);
    }
  }

  /** A symbol with a size of s takes counts that add up to the (s + 2)nd Fibonacci number. */
  lemma SizeTakesCounts(counts: seq<nat>, x: nat)
    requires Total(counts, |counts|) <= LIMIT && x < |counts|
    ensures HuffmanSizes(counts)[x] > 0 ==> Total(counts, |counts|) >= Fib(HuffmanSizes(counts)[x] + 2)
  {
    hide Total, SizesFrom;
    var owner, size := Singles(counts), seq(|counts|, _ => 0);
    if counts[x] > 0 {
      assert Fib(1) == 1 && Fib(2) == 1;
      LongTakesMany(counts, owner, size, x);
    } else {
      UncountedStays(counts, owner, size, x);
    }
  }

  lemma FibValues()
    ensures Fib(35) == 9_227_465 && Fib(36) == 14_930_352
  {
    assert Fib(10) == 55 && Fib(11) == 89;
    assert Fib(20) == 6_765 && Fib(21) == 10_946;
    assert Fib(30) == 832_040 && Fib(31) == 1_346_269;
  }

  /** With so few symbols in all no size is too long. */
  lemma FewNeverTooLong(counts: seq<nat>)
    requires |counts| == SYMBOLS && Total(counts, 256) < 9_227_464
    ensures !TooLong(counts)
  {
    hide Total, Fib, HuffmanSizes;
    var c := counts[256 := 1];
    TotalBelow(counts, c, 256);
    TotalStep(c, 256);
    forall x | 0 <= x < SYMBOLS
      ensures HuffmanSizes(c)[x] <= MAX_CLEN
    {
      SizeTakesCounts(c, x);
      if HuffmanSizes(c)[x] > MAX_CLEN {
        FibValues();
        FibMono(35, HuffmanSizes(c)[x] + 2);
        assert false;
      }
    }
  }

  lemma TotalStep(freq: seq<nat>, n: nat)
    requires n < |freq|
    ensures Total(freq, n + 1) == Total(freq, n) + freq[n]
  {
  }

  lemma {:induction false} TotalBelow(freq: seq<nat>, freq': seq<nat>, n: nat)
    requires n <= |freq| && n <= |freq'| && forall i :: 0 <= i < n ==> freq[i] == freq'[i]
    ensures Total(freq, n) == Total(freq', n)
  {
    if n != 0 {
      TotalBelow(freq, freq', n - 1);
    }
  }

  // Counts that do make a code too long.

  /** 33 symbols counted like Fibonacci numbers. */
  ghost function FibCounts(): (counts: seq<nat>)
    ensures |counts| == SYMBOLS
  {
    seq(SYMBOLS, x requires 0 <= x < SYMBOLS => if x < 33 then Fib(x + 2) else 0)
  }

  /** After j merges: the pseudo-symbol and the first j symbols are on one chain. */
  ghost predicate AfterMerges(j: nat, root: nat, freq: seq<nat>, owner: seq<int>, size: seq<nat>) {
    && |freq| == |owner| == |size| == SYMBOLS && root < SYMBOLS && !(j <= root < 33)
    && owner[256] == root && size[256] == j && freq[root] == Fib(j + 3) - 1
    && forall i :: 0 <= i < SYMBOLS && i != root ==> freq[i] == if j <= i < 33 then Fib(i + 2) else 0
  }

  /** The counts still to come are larger than that of the chain, but for the next one. */
  lemma NextCounts(j: nat)
    requires j < 33
    ensures Fib(j + 4) == Fib(j + 3) + Fib(j + 2) && 1 <= Fib(j + 2) < Fib(j + 3)
    ensures forall i :: j + 2 < i < 35 ==> Fib(i) >= Fib(j + 3)
    ensures forall i :: 0 <= i <= 36 ==> Fib(i) <= LIMIT
  {
    hide Fib;
    FibStep(j + 2);
    FibStep(j + 1);
    FibMono(j + 1, j + 2);
    forall i | j + 2 < i < 35
      ensures Fib(i) >= Fib(j + 3)
    {
      FibMono(j + 3, i);
    }
    forall i | 0 <= i <= 36
      ensures Fib(i) <= LIMIT
    {
      FibValues();
      FibZero();
      if i > 0 {
        FibMono(i, 36);
      }
    }
  }

  lemma FibStep(n: nat)
    ensures Fib(n + 2) == Fib(n + 1) + Fib(n)
  {
  }

  lemma FibZero()
    ensures Fib(0) == 0
  {
  }

  lemma NextMerge(j: nat, root: nat, freq: seq<nat>, owner: seq<int>, size: seq<nat>) returns (c1: nat, c2: nat)
    requires AfterMerges(j, root, freq, owner, size) && j < 33
    ensures (c1 == root && c2 == j) || (c1 == j && c2 == root)
    ensures c1 == Smallest(freq, -1, SYMBOLS) && c2 == Smallest(freq, c1, SYMBOLS)
  {
    hide Smallest, Fib;
    NextCounts(j);
    assert freq[root] <= LIMIT && freq[j] <= LIMIT;
    SmallestIsLeast(freq, -1, SYMBOLS, root);
    SmallestIsLeast(freq, -1, SYMBOLS, j);
    c1 := Smallest(freq, -1, SYMBOLS);
    assert c1 == root || c1 == j;
    SmallestIsLeast(freq, c1, SYMBOLS, if c1 == root then j else root);
    c2 := Smallest(freq, c1, SYMBOLS);
  }

  lemma StateAfter(j: nat, root: nat, freq: seq<nat>, owner: seq<int>, size: seq<nat>, c1: nat, c2: nat)
    requires AfterMerges(j, root, freq, owner, size) && j < 33
    requires (c1 == root && c2 == j) || (c1 == j && c2 == root)
    ensures AfterMerges(j + 1, c1, Merged(freq, c1, c2), Joined(owner, c1, c2), Grown(size, owner, c1, c2))
  {
    hide Fib;
    NextCounts(j);
  }

  lemma {:induction false} FibChain(j: nat, root: nat, freq: seq<nat>, owner: seq<int>, size: seq<nat>)
    requires AfterMerges(j, root, freq, owner, size) && j <= 33
    ensures SizesFrom(freq, owner, size)[256] == 33
    decreases 33 - j
  {
    hide Smallest, Fib;
    if j < 33 {
      var c1, c2 := NextMerge(j, root, freq, owner, size);
      StateAfter(j, root, freq, owner, size, c1, c2);
      FibChain(j + 1, c1, Merged(freq, c1, c2), Joined(owner, c1, c2), Grown(size, owner, c1, c2));
    }
  }

  /** So the exit for codes that are too long can be taken. */
  lemma FibonacciTooLong()
    ensures TooLong(FibCounts())
  {
    hide SizesFrom;
    var c := FibCounts()[256 := 1];
    assert Fib(2) == 1 && Fib(3) == 2;
    FibChain(0, 256, c, Singles(c), seq(|c|, _ => 0));
    assert HuffmanSizes(c)[256] == 33;
  }
}
