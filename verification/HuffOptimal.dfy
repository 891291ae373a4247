/** Huffman table generation from symbol counts, after section K.2 of ITU-T T.81: the pairwise
    merging of counts over linked chains, and the limitation of code lengths to 16. */
module HuffOptimal {
  import opened Bits
  import opened CodeLengths
  import opened CodeCounts
  import opened HuffProcedure
  import opened LengthLimit

  /** The symbols below n that belong to chain c weigh this much, a code of length l
      weighing 2^-l. */
  ghost function Weight(owner: seq<int>, size: seq<nat>, c: int, n: nat): real
    requires n <= |owner| && |owner| == |size|
  {
    if n == 0 then 0.0
    else Weight(owner, size, c, n - 1) + if owner[n - 1] == c then Half(size[n - 1]) else 0.0
  }

  /** What the arrays of the algorithm mean: chains[c] is the chain that starts at c, and is
      empty unless c has a count; owner[x] is the start of the chain that x is on, or -1. */
  ghost predicate Forest(freq: seq<nat>, others: seq<int>, owner: seq<int>, chains: seq<seq<int>>) {
    && |freq| == |others| == |owner| == |chains| == SYMBOLS
    && (forall c :: 0 <= c < SYMBOLS ==> StartsAt(freq, chains[c], c))
    && (forall c :: 0 <= c < SYMBOLS ==> Linked(others, chains[c]))
    && (forall c :: 0 <= c < SYMBOLS ==> NoRepeats(chains[c]))
    && (forall c, x :: 0 <= c < SYMBOLS && 0 <= x < SYMBOLS ==> (x in chains[c] <==> owner[x] == c))
  }

  ghost predicate StartsAt(freq: seq<nat>, chain: seq<int>, c: nat)
    requires c < |freq|
  {
    (chain != [] <==> freq[c] > 0) && (chain != [] ==> chain[0] == c)
  }

  ghost predicate Linked(others: seq<int>, chain: seq<int>) {
    && (forall i :: 0 <= i < |chain| ==> 0 <= chain[i] < |others|)
    && (forall i, j :: 0 <= i && j == i + 1 && j < |chain| ==> others[chain[i]] == chain[j])
    && (chain != [] ==> others[chain[|chain| - 1]] == -1)
  }

  ghost predicate NoRepeats(chain: seq<int>) {
    forall i, j :: 0 <= i < j < |chain| ==> chain[i] != chain[j]
  }

  /** Every chain is a complete code. */
  ghost predicate Complete(freq: seq<nat>, size: seq<nat>, owner: seq<int>)
    requires |freq| == |size| == |owner| == SYMBOLS
  {
    forall c :: 0 <= c < SYMBOLS && freq[c] > 0 ==> Weight(owner, size, c, SYMBOLS) == 1.0
  }

  /** The smallest nonzero count but that of skip; of equal ones the last. */
  method FindSmallest(freq: array<nat>, skip: int) returns (c: int)
    requires freq.Length == SYMBOLS
    ensures c == -1 || (0 <= c < SYMBOLS && c != skip && 0 < freq[c] <= LIMIT)
    ensures c == Smallest(freq[..], skip, SYMBOLS)
    ensures forall i :: 0 <= i < SYMBOLS && i != skip && 0 < freq[i] <= LIMIT ==>
              c != -1 && freq[c] <= freq[i] && (freq[c] == freq[i] ==> i <= c)
  {
    c := -1;
    var v := LIMIT;
    for i := 0 to SYMBOLS
      invariant c == Smallest(freq[..], skip, i)
      invariant c == -1 ==> v == LIMIT
      invariant c == -1 || (0 <= c < i && c != skip && 0 < freq[c] == v <= LIMIT)
      invariant forall k :: 0 <= k < i && k != skip && 0 < freq[k] <= LIMIT ==>
                  c != -1 && freq[c] <= freq[k] && (freq[c] == freq[k] ==> k <= c)
    {
      if freq[i] != 0 && freq[i] <= v && i != skip {
        v := freq[i];
        c := i;
      }
    }
  }

  /** Increment the code size of everything on the chain that starts at c; returns its end. */
  method LengthenChain(c: nat, codesize: array<nat>, others: array<int>, ghost chain: seq<int>) returns (end: nat)
    requires codesize.Length == others.Length == SYMBOLS
    requires chain != [] && chain[0] == c && Linked(others[..], chain) && NoRepeats(chain)
    modifies codesize
    ensures end == chain[|chain| - 1]
    ensures forall x :: 0 <= x < SYMBOLS ==> codesize[x] == old(codesize[x]) + if x in chain then 1 else 0
  {
    ghost var links := others[..];
    end := c;
    codesize[end] := codesize[end] + 1;
    ghost var p := 0;
    while others[end] >= 0
      invariant others[..] == links && Linked(links, chain)
      invariant 0 <= p < |chain| && end == chain[p] < SYMBOLS
      invariant forall x :: 0 <= x < SYMBOLS ==> codesize[x] == old(codesize[x]) + if x in chain[..p + 1] then 1 else 0
      decreases |chain| - p
    {
      LinkAt(links, chain, p);
      assert chain[..p + 2] == chain[..p + 1] + [chain[p + 1]];
      end := others[end];
      codesize[end] := codesize[end] + 1;
      p := p + 1;
    }
    LinkAt(links, chain, p);
    assert chain[..p + 1] == chain;
  }

  lemma LinkAt(others: seq<int>, chain: seq<int>, p: nat)
    requires Linked(others, chain) && p < |chain|
    ensures 0 <= chain[p] < |others| && (others[chain[p]] >= 0 <==> p + 1 < |chain|)
    ensures p + 1 < |chain| ==> others[chain[p]] == chain[p + 1]
  {
    if p + 1 < |chain| {
      assert 0 <= chain[p + 1];
    } else {
      assert p == |chain| - 1;
    }
  }

  // What one merge does to the ghost view: chain c2 is appended to chain c1.

  lemma {:induction false} JoinedWeight(owner: seq<int>, size: seq<nat>, size': seq<nat>, c1: int, c2: int, n: nat)
    requires n <= |owner| == |size| == |size'| && c1 != c2
    requires forall x :: 0 <= x < |owner| ==> size'[x] == size[x] + if owner[x] == c1 || owner[x] == c2 then 1 else 0
    ensures Weight(Joined(owner, c1, c2), size', c1, n) ==
            (Weight(owner, size, c1, n) + Weight(owner, size, c2, n)) / 2.0
  {
    if n != 0 {
      JoinedWeight(owner, size, size', c1, c2, n - 1);
    }
  }

  lemma {:induction false} OtherWeight(owner: seq<int>, size: seq<nat>, size': seq<nat>, c1: int, c2: int, c: int,
                                       n: nat)
    requires n <= |owner| == |size| == |size'| && c != c1 && c != c2
    requires forall x :: 0 <= x < |owner| ==> size'[x] == size[x] + if owner[x] == c1 || owner[x] == c2 then 1 else 0
    ensures Weight(Joined(owner, c1, c2), size', c, n) == Weight(owner, size, c, n)
  {
    if n != 0 {
      OtherWeight(owner, size, size', c1, c2, c, n - 1);
    }
  }

  lemma MergedForest(freq: seq<nat>, others: seq<int>, owner: seq<int>, chains: seq<seq<int>>,
                     freq': seq<nat>, others': seq<int>, c1: nat, c2: nat)
    requires Forest(freq, others, owner, chains)
    requires c1 < SYMBOLS && c2 < SYMBOLS && c1 != c2 && freq[c1] > 0 && freq[c2] > 0
    requires freq' == Merged(freq, c1, c2)
    requires others' == others[chains[c1][|chains[c1]| - 1] := c2]
    ensures Forest(freq', others', Joined(owner, c1, c2), chains[c1 := chains[c1] + chains[c2]][c2 := []])
  {
    hide Linked, NoRepeats;
    var a, b := chains[c1], chains[c2];
    var owner', chains' := Joined(owner, c1, c2), chains[c1 := a + b][c2 := []];
    Disjoint(freq, others, owner, chains, c1, c2);
    JoinedLinks(others, a, b, c2);
    JoinedNoRepeats(a, b);
    assert NoRepeats([]) && Linked(others', []) by { NothingLinked(others'); }
    forall c | 0 <= c < SYMBOLS
      ensures StartsAt(freq', chains'[c], c) && Linked(others', chains'[c]) && NoRepeats(chains'[c])
    {
      if c != c1 && c != c2 {
        Disjoint(freq, others, owner, chains, c1, c);
        OtherLinks(others, a, chains[c], c2);
      }
    }
  }

  lemma NothingLinked(others: seq<int>)
    ensures Linked(others, []) && NoRepeats([])
  {
  }

  lemma Disjoint(freq: seq<nat>, others: seq<int>, owner: seq<int>, chains: seq<seq<int>>, c1: nat, c2: nat)
    requires Forest(freq, others, owner, chains) && c1 < SYMBOLS && c2 < SYMBOLS && c1 != c2
    ensures forall i, j :: 0 <= i < |chains[c1]| && 0 <= j < |chains[c2]| ==> chains[c1][i] != chains[c2][j]
    ensures forall i :: 0 <= i < |chains[c1]| ==> 0 <= chains[c1][i] < SYMBOLS
  {
    var a, b := chains[c1], chains[c2];
    assert Linked(others, a);
    forall i, j | 0 <= i < |a| && 0 <= j < |b|
      ensures a[i] != b[j]
    {
      assert a[i] in a && b[j] in b;
      assert owner[a[i]] == c1;
    }
  }

  /** Linking the end of a to the start of b joins the two chains. */
  lemma JoinedLinks(others: seq<int>, a: seq<int>, b: seq<int>, c2: nat)
    requires Linked(others, a) && Linked(others, b) && NoRepeats(a) && a != [] && b != [] && b[0] == c2
    requires forall i, j :: 0 <= i < |a| && 0 <= j < |b| ==> a[i] != b[j]
    ensures Linked(others[a[|a| - 1] := c2], a + b)
  {
  }

  lemma OtherLinks(others: seq<int>, a: seq<int>, b: seq<int>, c2: nat)
    requires Linked(others, a) && Linked(others, b) && a != []
    requires forall i, j :: 0 <= i < |a| && 0 <= j < |b| ==> a[i] != b[j]
    ensures Linked(others[a[|a| - 1] := c2], b)
  {
  }

  lemma JoinedNoRepeats(a: seq<int>, b: seq<int>)
    requires NoRepeats(a) && NoRepeats(b)
    requires forall i, j :: 0 <= i < |a| && 0 <= j < |b| ==> a[i] != b[j]
    ensures NoRepeats(a + b)
  {
  }

  lemma MergedComplete(freq: seq<nat>, size: seq<nat>, owner: seq<int>, freq': seq<nat>, size': seq<nat>, c1: nat,
                       c2: nat)
    requires |freq| == |size| == |owner| == |size'| == SYMBOLS && Complete(freq, size, owner)
    requires c1 < SYMBOLS && c2 < SYMBOLS && c1 != c2 && freq[c1] > 0 && freq[c2] > 0
    requires freq' == Merged(freq, c1, c2)
    requires forall x :: 0 <= x < SYMBOLS ==> size'[x] == size[x] + if owner[x] == c1 || owner[x] == c2 then 1 else 0
    ensures Complete(freq', size', Joined(owner, c1, c2))
  {
    forall c | 0 <= c < SYMBOLS && freq'[c] > 0
      ensures Weight(Joined(owner, c1, c2), size', c, SYMBOLS) == 1.0
    {
      if c == c1 {
        JoinedWeight(owner, size, size', c1, c2, SYMBOLS);
      } else {
        OtherWeight(owner, size, size', c1, c2, c, SYMBOLS);
      }
    }
  }

  /** Merge the two counts and chains. */
  method Merge(freq: array<nat>, codesize: array<nat>, others: array<int>, c1: nat, c2: nat,
               ghost owner: seq<int>, ghost chains: seq<seq<int>>)
      returns (ghost owner': seq<int>, ghost chains': seq<seq<int>>)
    requires freq.Length == codesize.Length == others.Length == SYMBOLS && freq != codesize
    requires Forest(freq[..], others[..], owner, chains)
    requires Complete(freq[..], codesize[..], owner)
    requires c1 < SYMBOLS && c2 < SYMBOLS && c1 != c2 && freq[c1] > 0 && freq[c2] > 0
    modifies freq, codesize, others
    ensures Forest(freq[..], others[..], owner', chains')
    ensures Complete(freq[..], codesize[..], owner')
    ensures freq[..] == Merged(old(freq[..]), c1, c2)
    ensures owner' == Joined(owner, c1, c2)
    ensures forall x :: 0 <= x < SYMBOLS ==>
              codesize[x] == old(codesize[x]) + if owner[x] == c1 || owner[x] == c2 then 1 else 0
  {
    hide Linked, NoRepeats, Complete;
    ghost var freq0, size0, others0 := freq[..], codesize[..], others[..];
    ghost var a, b := chains[c1], chains[c2];
    assert StartsAt(freq0, a, c1) && StartsAt(freq0, b, c2);
    Disjoint(freq0, others0, owner, chains, c1, c2);
    freq[c1] := freq[c1] + freq[c2];
    freq[c2] := 0;
    var end := LengthenChain(c1, codesize, others, a);
    others[end] := c2;
    OtherLinks(others0, a, b, c2);
    end := LengthenChain(c2, codesize, others, b);
    owner' := Joined(owner, c1, c2);
    chains' := chains[c1 := a + b][c2 := []];
    MergedForest(freq0, others0, owner, chains, freq[..], others[..], c1, c2);
    MergedComplete(freq0, size0, owner, freq[..], codesize[..], c1, c2);
  }

  ghost function SingleChains(freq: seq<nat>): (chains: seq<seq<int>>)
    ensures |chains| == |freq|
  {
    seq(|freq|, x requires 0 <= x < |freq| => if freq[x] > 0 then [x] else [])
  }

  lemma {:induction false} SingleWeight(freq: seq<nat>, size: seq<nat>, c: nat, n: nat)
    requires n <= |freq| == |size| && c < |freq| && freq[c] > 0 && size[c] == 0
    ensures Weight(Singles(freq), size, c, n) == if c < n then 1.0 else 0.0
  {
    if n != 0 {
      SingleWeight(freq, size, c, n - 1);
    }
  }

  lemma StartForest(freq: seq<nat>, others: seq<int>, size: seq<nat>)
    requires |freq| == |others| == |size| == SYMBOLS
    requires forall x :: 0 <= x < SYMBOLS ==> others[x] == -1 && size[x] == 0
    ensures Forest(freq, others, Singles(freq), SingleChains(freq))
    ensures Complete(freq, size, Singles(freq))
  {
    forall c | 0 <= c < SYMBOLS && freq[c] > 0
      ensures Weight(Singles(freq), size, c, SYMBOLS) == 1.0
    {
      SingleWeight(freq, size, c, SYMBOLS);
    }
  }

  lemma NoneAboveTotal(freq: seq<nat>)
    requires |freq| == SYMBOLS && Total(freq, SYMBOLS) <= LIMIT
    ensures forall i :: 0 <= i < SYMBOLS ==> freq[i] <= LIMIT
  {
    forall i | 0 <= i < SYMBOLS
      ensures freq[i] <= LIMIT
    {
      BelowTotal(freq, i, SYMBOLS);
    }
  }

  /** What the symbols of chain c were counted in all. */
  ghost function Mass(counts: seq<nat>, owner: seq<int>, c: int, n: nat): nat
    requires n <= |counts| == |owner|
  {
    if n == 0 then 0 else Mass(counts, owner, c, n - 1) + if owner[n - 1] == c then counts[n - 1] else 0
  }

  ghost predicate Masses(counts: seq<nat>, freq: seq<nat>, owner: seq<int>)
    requires |counts| == |freq| == |owner| == SYMBOLS
  {
    forall c :: 0 <= c < SYMBOLS ==> freq[c] == Mass(counts, owner, c, SYMBOLS)
  }

  lemma {:induction false} SingleMass(counts: seq<nat>, c: nat, n: nat)
    requires n <= |counts| && c < |counts|
    ensures Mass(counts, Singles(counts), c, n) == if c < n then counts[c] else 0
  {
    if n != 0 {
      SingleMass(counts, c, n - 1);
    }
  }

  lemma StartMasses(counts: seq<nat>)
    requires |counts| == SYMBOLS
    ensures Masses(counts, counts, Singles(counts))
  {
    forall c | 0 <= c < SYMBOLS
      ensures counts[c] == Mass(counts, Singles(counts), c, SYMBOLS)
    {
      SingleMass(counts, c, SYMBOLS);
    }
  }

  lemma {:induction false} JoinedMass(counts: seq<nat>, owner: seq<int>, c1: int, c2: int, c: int, n: nat)
    requires n <= |counts| == |owner| && c1 != c2
    ensures Mass(counts, Joined(owner, c1, c2), c, n) ==
            (if c == c2 then 0 else Mass(counts, owner, c, n)) + if c == c1 then Mass(counts, owner, c2, n) else 0
  {
    if n != 0 {
      JoinedMass(counts, owner, c1, c2, c, n - 1);
    }
  }

  lemma MergedMasses(counts: seq<nat>, freq: seq<nat>, owner: seq<int>, c1: nat, c2: nat)
    requires |counts| == |freq| == |owner| == SYMBOLS && Masses(counts, freq, owner)
    requires c1 < SYMBOLS && c2 < SYMBOLS && c1 != c2
    ensures Masses(counts, Merged(freq, c1, c2), Joined(owner, c1, c2))
    ensures freq[c1] == Mass(counts, owner, c1, SYMBOLS) && freq[c2] == Mass(counts, owner, c2, SYMBOLS)
  {
    forall c | 0 <= c < SYMBOLS
      ensures Merged(freq, c1, c2)[c] == Mass(counts, Joined(owner, c1, c2), c, SYMBOLS)
    {
      JoinedMass(counts, owner, c1, c2, c, SYMBOLS);
    }
  }

  /** Making the codes of two chains one bit longer costs one bit for each of their symbols. */
  lemma {:induction false} GrownCost(counts: seq<nat>, size: seq<nat>, size': seq<nat>, owner: seq<int>, c1: int,
                                     c2: int, n: nat)
    requires n <= |counts| == |owner| == |size| == |size'| && c1 != c2
    requires forall x :: 0 <= x < |owner| ==> size'[x] == size[x] + if owner[x] == c1 || owner[x] == c2 then 1 else 0
    ensures Cost(counts, size', n) == Cost(counts, size, n) + Mass(counts, owner, c1, n) + Mass(counts, owner, c2, n)
  {
    if n != 0 {
      GrownCost(counts, size, size', owner, c1, c2, n - 1);
      assert counts[n - 1] * (size[n - 1] + 1) == counts[n - 1] * size[n - 1] + counts[n - 1];
    }
  }

  lemma {:induction false} NoCost(counts: seq<nat>, size: seq<nat>, n: nat)
    requires n <= |counts| == |size| && forall x :: 0 <= x < |size| ==> size[x] == 0
    ensures Cost(counts, size, n) == 0
  {
    if n != 0 {
      NoCost(counts, size, n - 1);
    }
  }

  lemma {:induction false} KraftOfChain(counts: seq<nat>, size: seq<nat>, owner: seq<int>, root: int, n: nat)
    requires n <= |counts| == |size| == |owner|
    requires forall x :: 0 <= x < |owner| ==> (owner[x] == root <==> counts[x] > 0)
    ensures Kraft(counts, size, n) == Weight(owner, size, root, n)
  {
    if n != 0 {
      KraftOfChain(counts, size, owner, root, n - 1);
    }
  }

  /** What holds whenever two more chains are to be merged. */
  ghost predicate Merging(counts: seq<nat>, freq: seq<nat>, size: seq<nat>, others: seq<int>, owner: seq<int>,
                          chains: seq<seq<int>>)
    requires |counts| == |freq| == |size| == SYMBOLS
  {
    && Forest(freq, others, owner, chains) && Complete(freq, size, owner)
    && Total(freq, SYMBOLS) <= LIMIT && (exists c :: 0 <= c < SYMBOLS && freq[c] > 0)
    && (forall x :: 0 <= x < SYMBOLS ==> (owner[x] == -1 <==> counts[x] == 0) && -1 <= owner[x] < SYMBOLS)
    && (forall x :: 0 <= x < SYMBOLS && owner[x] == -1 ==> size[x] == 0)
    && SizesFrom(freq, owner, size) == HuffmanSizes(counts)
    && Masses(counts, freq, owner) && LosesNothing(counts, Cost(counts, size, SYMBOLS), freq)
  }

  lemma MergingStarts(counts: seq<nat>, size: seq<nat>, others: seq<int>)
    requires |counts| == |size| == |others| == SYMBOLS && counts[256] > 0 && Total(counts, SYMBOLS) <= LIMIT
    requires forall x :: 0 <= x < SYMBOLS ==> others[x] == -1 && size[x] == 0
    ensures Merging(counts, counts, size, others, Singles(counts), SingleChains(counts))
  {
    hide Forest, Complete, Total, LosesNothing, Masses, Cost, SizesFrom;
    StartForest(counts, others, size);
    StartMasses(counts);
    StartLosesNothing(counts);
    NoCost(counts, size, SYMBOLS);
    assert size == seq(SYMBOLS, _ => 0);
  }

  /** c1 is the smallest chain, and c2 the smallest of the others. */
  ghost predicate TwoSmallest(freq: seq<nat>, c1: int, c2: int)
    requires |freq| == SYMBOLS
  {
    && c1 == Smallest(freq, -1, SYMBOLS) && c2 == Smallest(freq, c1, SYMBOLS)
    && (forall i :: 0 <= i < SYMBOLS && 0 < freq[i] ==> c1 != -1 && freq[c1] <= freq[i])
    && (forall i :: 0 <= i < SYMBOLS && i != c1 && 0 < freq[i] ==> c2 != -1 && freq[c2] <= freq[i])
  }

  lemma MergingGoesOn(counts: seq<nat>, freq: seq<nat>, size: seq<nat>, others: seq<int>, owner: seq<int>,
                      chains: seq<seq<int>>, c1: nat, c2: nat,
                      freq': seq<nat>, size': seq<nat>, others': seq<int>, owner': seq<int>, chains': seq<seq<int>>)
    requires |counts| == |freq| == |size| == |size'| == SYMBOLS && Merging(counts, freq, size, others, owner, chains)
    requires c1 < SYMBOLS && c2 < SYMBOLS && TwoSmallest(freq, c1, c2)
    requires freq' == Merged(freq, c1, c2) && owner' == Joined(owner, c1, c2)
    requires Forest(freq', others', owner', chains') && Complete(freq', size', owner')
    requires forall x :: 0 <= x < SYMBOLS ==> size'[x] == size[x] + if owner[x] == c1 || owner[x] == c2 then 1 else 0
    ensures Merging(counts, freq', size', others', owner', chains') && Roots(freq', SYMBOLS) < Roots(freq, SYMBOLS)
  {
    hide Complete, Total, Roots, LosesNothing, Cost, SizesFrom, HuffmanSizes, Mass, Smallest, StartsAt, Linked,
         NoRepeats;
    StepSizes(freq, owner, size, size', c1, c2);
    MergedMasses(counts, freq, owner, c1, c2);
    hide Forest;
    MergedCounts(freq, freq', c1, c2, SYMBOLS);
    assert freq'[c1] > 0;
    assert LosesNothing(counts, Cost(counts, size', SYMBOLS), freq') by {
      GrownCost(counts, size, size', owner, c1, c2, SYMBOLS);
      StepLosesNothing(counts, Cost(counts, size, SYMBOLS), freq, c1, c2);
    }
  }

  method FindTwo(freq: array<nat>) returns (c1: int, c2: int)
    requires freq.Length == SYMBOLS && Total(freq[..], SYMBOLS) <= LIMIT
    ensures TwoSmallest(freq[..], c1, c2)
    ensures -1 <= c1 < SYMBOLS && -1 <= c2 < SYMBOLS
    ensures (c2 >= 0 ==> c1 >= 0 && c2 != c1 && freq[c1] > 0 && freq[c2] > 0)
  {
    hide Total, Smallest;
    NoneAboveTotal(freq[..]);
    c1 := FindSmallest(freq, -1);
    c2 := FindSmallest(freq, c1);
  }

  /** Huffman's procedure. When it ends all counted symbols are on one complete chain. */
  method AssignLengths(freq: array<nat>, codesize: array<nat>, others: array<int>)
      returns (ghost owner: seq<int>, ghost root: int)
    requires freq.Length == codesize.Length == others.Length == SYMBOLS && freq != codesize
    requires forall x :: 0 <= x < SYMBOLS ==> others[x] == -1 && codesize[x] == 0
    requires freq[256] > 0 && Total(freq[..], SYMBOLS) <= LIMIT
    modifies freq, codesize, others
    ensures |owner| == SYMBOLS && 0 <= root < SYMBOLS
    ensures forall x :: 0 <= x < SYMBOLS ==> owner[x] == if old(freq[x]) > 0 then root else -1
    ensures Weight(owner, codesize[..], root, SYMBOLS) == 1.0
    ensures forall x :: 0 <= x < SYMBOLS && owner[x] == -1 ==> codesize[x] == 0
    ensures Optimal(old(freq[..]), codesize[..])
    ensures codesize[..] == HuffmanSizes(old(freq[..]))
  {
    hide Merging, TwoSmallest, Forest, Complete, Weight, Total, Roots, Optimal;
    ghost var counts := freq[..];
    ghost var chains := SingleChains(counts);
    owner := Singles(counts);
    MergingStarts(counts, codesize[..], others[..]);
    var c1, c2 := FindTwo(freq);
    while c2 >= 0
      invariant Merging(counts, freq[..], codesize[..], others[..], owner, chains)
      invariant TwoSmallest(freq[..], c1, c2) && -1 <= c1 < SYMBOLS && -1 <= c2 < SYMBOLS
      invariant c2 >= 0 ==> c1 >= 0 && c2 != c1 && freq[c1] > 0 && freq[c2] > 0
      decreases Roots(freq[..], SYMBOLS)
    {
      ghost var freq0, size0, others0, owner0, chains0 := freq[..], codesize[..], others[..], owner, chains;
      MergingFacts(counts, freq0, size0, others0, owner0, chains0);
      owner, chains := Merge(freq, codesize, others, c1, c2, owner, chains);
      MergingGoesOn(counts, freq0, size0, others0, owner0, chains0, c1, c2,
        freq[..], codesize[..], others[..], owner, chains);
      MergingFacts(counts, freq[..], codesize[..], others[..], owner, chains);
      c1, c2 := FindTwo(freq);
    }
    root := c1;
    MergingEnds(counts, freq[..], codesize[..], others[..], owner, chains, c1);
  }

  lemma MergingFacts(counts: seq<nat>, freq: seq<nat>, size: seq<nat>, others: seq<int>, owner: seq<int>,
                     chains: seq<seq<int>>)
    requires |counts| == |freq| == |size| == SYMBOLS && Merging(counts, freq, size, others, owner, chains)
    ensures Forest(freq, others, owner, chains) && Complete(freq, size, owner) && Total(freq, SYMBOLS) <= LIMIT
  {
  }

  lemma MergingEnds(counts: seq<nat>, freq: seq<nat>, size: seq<nat>, others: seq<int>, owner: seq<int>,
                    chains: seq<seq<int>>, root: int)
    requires |counts| == |freq| == |size| == SYMBOLS && Merging(counts, freq, size, others, owner, chains)
    requires TwoSmallest(freq, root, -1)
    ensures |owner| == SYMBOLS && 0 <= root < SYMBOLS
    ensures forall x :: 0 <= x < SYMBOLS ==> owner[x] == if counts[x] > 0 then root else -1
    ensures Weight(owner, size, root, SYMBOLS) == 1.0
    ensures forall x :: 0 <= x < SYMBOLS && owner[x] == -1 ==> size[x] == 0
    ensures Optimal(counts, size) && size == HuffmanSizes(counts)
  {
    hide Complete, Weight, Total, Optimal, LosesNothing, Mass, Cost, Smallest, SizesFrom;
    EndSizes(freq, owner, size);
    OneChain(freq, size, others, owner, chains, root);
    hide Forest;
    KraftOfChain(counts, size, owner, root, SYMBOLS);
    EndIsOptimal(counts, size, freq);
  }

  lemma StepSizes(freq: seq<nat>, owner: seq<int>, size: seq<nat>, size': seq<nat>, c1: nat, c2: nat)
    requires |freq| == |owner| == |size| == |size'| == SYMBOLS && c1 < SYMBOLS && c2 < SYMBOLS
    requires c1 == Smallest(freq, -1, SYMBOLS) && c2 == Smallest(freq, c1, SYMBOLS)
    requires forall x :: 0 <= x < SYMBOLS ==>
               size'[x] == size[x] + if owner[x] == c1 || owner[x] == c2 then 1 else 0
    ensures SizesFrom(freq, owner, size) == SizesFrom(Merged(freq, c1, c2), Joined(owner, c1, c2), size')
  {
    hide Smallest, Joined, Merged;
    assert size' == Grown(size, owner, c1, c2);
  }

  lemma EndSizes(freq: seq<nat>, owner: seq<int>, size: seq<nat>)
    requires |freq| == |owner| == |size| == SYMBOLS
    requires Smallest(freq, Smallest(freq, -1, SYMBOLS), SYMBOLS) == -1
    ensures SizesFrom(freq, owner, size) == size
  {
  }

  lemma OneChain(freq: seq<nat>, size: seq<nat>, others: seq<int>, owner: seq<int>, chains: seq<seq<int>>, root: nat)
    requires Forest(freq, others, owner, chains) && |size| == SYMBOLS && Complete(freq, size, owner)
    requires root < SYMBOLS && freq[root] > 0 && forall i :: 0 <= i < SYMBOLS && i != root ==> freq[i] == 0
    requires forall x :: 0 <= x < SYMBOLS ==> -1 <= owner[x] < SYMBOLS
    ensures forall x :: 0 <= x < SYMBOLS && owner[x] != -1 ==> owner[x] == root
    ensures Weight(owner, size, root, SYMBOLS) == 1.0
  {
    hide Linked, NoRepeats, Weight;
    forall x | 0 <= x < SYMBOLS && owner[x] != -1
      ensures owner[x] == root
    {
      assert x in chains[owner[x]];
      assert StartsAt(freq, chains[owner[x]], owner[x]);
    }
  }

  // The counts of code lengths: bits[l] codes have length l.

  /** Code sizes above 32 take the error exit. */
  datatype Outcome = ClenOverflow | Table(bits: seq<Byte>, huffval: seq<Byte>)

  /** The number of symbols below n that have a code. */
  function Coded(size: seq<nat>, n: nat): nat
    requires n <= |size|
  {
    if n == 0 then 0 else Coded(size, n - 1) + if size[n - 1] > 0 then 1 else 0
  }

  /** The number of symbols below n with a code of exactly l, or of at most l bits. */
  function CodesOf(size: seq<nat>, l: nat, n: nat): nat
    requires n <= |size|
  {
    if n == 0 then 0 else CodesOf(size, l, n - 1) + if size[n - 1] == l then 1 else 0
  }

  function CodedUpTo(size: seq<nat>, l: nat, n: nat): nat
    requires n <= |size|
  {
    if n == 0 then 0 else CodedUpTo(size, l, n - 1) + if 0 < size[n - 1] <= l then 1 else 0
  }

  lemma {:induction false} UpToSplits(size: seq<nat>, l: nat, n: nat)
    requires n <= |size|
    ensures CodedUpTo(size, 0, n) == 0 && CodedUpTo(size, l, n) <= n
    ensures l > 0 ==> CodedUpTo(size, l, n) == CodedUpTo(size, l - 1, n) + CodesOf(size, l, n)
  {
    if n != 0 {
      UpToSplits(size, l, n - 1);
    }
  }

  lemma {:induction false} AllUpTo(size: seq<nat>, l: nat, n: nat)
    requires n <= |size| && forall x :: 0 <= x < n ==> size[x] <= l
    ensures CodedUpTo(size, l, n) == Coded(size, n)
  {
    if n != 0 {
      AllUpTo(size, l, n - 1);
    }
  }

  lemma {:induction false} CodesOfMono(size: seq<nat>, l: nat, m: nat, n: nat)
    requires m <= n <= |size|
    ensures CodesOf(size, l, m) <= CodesOf(size, l, n)
  {
    if m < n {
      CodesOfMono(size, l, m, n - 1);
    }
  }

  lemma {:induction false} CodedMono(size: seq<nat>, m: nat, n: nat)
    requires m <= n <= |size|
    ensures Coded(size, m) <= Coded(size, n)
  {
    if m < n {
      CodedMono(size, m, n - 1);
    }
  }

  lemma {:induction false} SameCoded(size: seq<nat>, freq: seq<nat>, n: nat)
    requires n <= |size| == |freq| && forall x :: 0 <= x < n ==> (size[x] > 0 <==> freq[x] > 0)
    ensures Coded(size, n) == Coded(freq, n)
  {
    if n != 0 {
      SameCoded(size, freq, n - 1);
    }
  }

  lemma {:induction false} WeightOfMembers(owner: seq<int>, size: seq<nat>, c: int, x: nat, y: nat, n: nat)
    requires n <= |owner| == |size| && x < |owner| && y < |owner| && x != y && owner[x] == owner[y] == c
    ensures Weight(owner, size, c, n) >= (if x < n then Half(size[x]) else 0.0) + if y < n then Half(size[y]) else 0.0
  {
    if n != 0 {
      WeightOfMembers(owner, size, c, x, y, n - 1);
      HalfScaled(size[n - 1], size[n - 1]);
    }
  }

  /** In a complete code of two or more symbols no code is empty. */
  lemma CodesNotEmpty(owner: seq<int>, size: seq<nat>, c: int, x: nat, y: nat)
    requires |owner| == |size| && x < |owner| && y < |owner| && x != y && owner[x] == owner[y] == c
    requires Weight(owner, size, c, |owner|) == 1.0
    ensures size[x] > 0
  {
    WeightOfMembers(owner, size, c, x, y, |owner|);
    HalfScaled(size[y], size[y]);
  }

  /** Count the symbols of each code length, in bytes. */
  method CountLengths(codesize: array<nat>, ghost owner: seq<int>, ghost root: int)
    returns (ok: bool, bits: array<Byte>)
    requires codesize.Length == SYMBOLS == |owner| && Weight(owner, codesize[..], root, SYMBOLS) == 1.0
    requires forall x :: 0 <= x < SYMBOLS ==> (owner[x] == root <==> codesize[x] > 0)
    requires Coded(codesize[..], SYMBOLS) <= 255
    ensures ok <==> forall x :: 0 <= x < SYMBOLS ==> codesize[x] <= MAX_CLEN
    ensures fresh(bits) && bits.Length == MAX_CLEN + 1 && bits[0] == 0
    ensures ok ==> Space(bits[..], MAX_CLEN) == Pow2(MAX_CLEN)
    ensures ok ==> forall l :: 0 <= l <= MAX_CLEN ==> Codes(bits[..], l) == CodedUpTo(codesize[..], l, SYMBOLS)
    ensures ok ==> Codes(bits[..], MAX_CLEN) == Coded(codesize[..], SYMBOLS)
  {
    hide Weight, Half, Coded, Space, Codes, Pow2;
    ghost var size := codesize[..];
    bits := new Byte[MAX_CLEN + 1](_ => 0);
    ok := true;
    NothingCounted(owner, size, root, bits[..]);
    for i := 0 to SYMBOLS
      invariant bits.Length == MAX_CLEN + 1 && bits[0] == 0 && fresh(bits) && codesize[..] == size
      invariant Counted(owner, size, root, bits[..], i)
      invariant forall x :: 0 <= x < i ==> size[x] <= MAX_CLEN
    {
      hide Counted;
      if codesize[i] == 0 {
        SkippedSymbol(owner, size, root, bits[..], i);
      } else if codesize[i] > MAX_CLEN {
        ok := false;
        return;
      } else {
        ghost var was := bits[..];
        var l := codesize[i];
        CountedSymbol(owner, size, root, was, i);
        bits[l] := (bits[l] + 1) % 256;
        assert bits[..] == was[l := was[l] + 1];
      }
    }
  }

  /** The counts after the first i symbols. */
  ghost predicate Counted(owner: seq<int>, size: seq<nat>, root: int, bits: seq<int>, i: nat)
    requires i <= SYMBOLS == |owner| == |size| && |bits| == MAX_CLEN + 1
  {
    && Space(bits, MAX_CLEN) as real == Weight(owner, size, root, i) * Pow2(MAX_CLEN) as real
    && Codes(bits, MAX_CLEN) == Coded(size, i)
    && (forall l :: 0 <= l <= MAX_CLEN ==> Codes(bits, l) == CodedUpTo(size, l, i))
    && forall l :: 0 <= l < |bits| ==> bits[l] >= 0
  }

  lemma NothingCounted(owner: seq<int>, size: seq<nat>, root: int, bits: seq<int>)
    requires SYMBOLS == |owner| == |size| && |bits| == MAX_CLEN + 1 && forall l :: 0 <= l < |bits| ==> bits[l] == 0
    ensures Counted(owner, size, root, bits, 0)
  {
    forall l | 0 <= l <= MAX_CLEN
      ensures Codes(bits, l) == CodedUpTo(size, l, 0) && Space(bits, l) == 0
    {
      NoCodes(bits, l);
    }
    assert Weight(owner, size, root, 0) == 0.0;
  }

  lemma SkippedSymbol(owner: seq<int>, size: seq<nat>, root: int, bits: seq<int>, i: nat)
    requires i < SYMBOLS == |owner| == |size| && |bits| == MAX_CLEN + 1
    requires Counted(owner, size, root, bits, i) && owner[i] != root && size[i] == 0
    ensures Counted(owner, size, root, bits, i + 1)
  {
    hide Space, Codes, Pow2, Half;
    assert Weight(owner, size, root, i + 1) == Weight(owner, size, root, i);
  }

  lemma CountedSymbol(owner: seq<int>, size: seq<nat>, root: int, bits: seq<int>, i: nat)
    requires i < SYMBOLS == |owner| == |size| && |bits| == MAX_CLEN + 1
    requires Counted(owner, size, root, bits, i) && owner[i] == root && 0 < size[i] <= MAX_CLEN
    requires Coded(size, SYMBOLS) <= 255
    ensures bits[size[i]] < 255
    ensures Counted(owner, size, root, bits[size[i] := bits[size[i]] + 1], i + 1)
  {
    hide Space, Codes, Pow2, Half, Weight;
    var l := size[i];
    OneOfCodes(bits, l, MAX_CLEN);
    CodedMono(size, i + 1, SYMBOLS);
    var now := bits[l := bits[l] + 1];
    forall k | 0 <= k <= MAX_CLEN
      ensures Codes(now, k) == CodedUpTo(size, k, i + 1)
    {
      Bump(bits, l, 1, k);
    }
    Bump(bits, l, 1, MAX_CLEN);
    HalfScaled(l, MAX_CLEN);
    WeightStep(owner, size, root, i);
    DistributeReal(Weight(owner, size, root, i), Half(l), Pow2(MAX_CLEN) as real);
  }

  lemma WeightStep(owner: seq<int>, size: seq<nat>, c: int, i: nat)
    requires i < |owner| == |size|
    ensures Weight(owner, size, c, i + 1) == Weight(owner, size, c, i) + if owner[i] == c then Half(size[i]) else 0.0
  {
  }

  /** A length in use that is at most i - 2 exists whenever more than 16 bits are needed:
      so few codes cannot fill the space with long codes alone. */
  lemma ShorterExists(bits: seq<int>, i: nat) returns (j: nat)
    requires 16 < i < |bits| && bits[0] == 0 && forall l :: 0 <= l < |bits| ==> 0 <= bits[l] <= 255
    requires Space(bits, i) == Pow2(i)
    ensures 1 <= j <= i - 2 && bits[j] > 0
  {
    if forall l :: 0 <= l <= i - 2 ==> bits[l] == 0 {
      NoCodes(bits, i - 2);
      assert Space(bits, i) == 2 * bits[i - 1] + bits[i];
      Pow2Mono(16, i);
      Pow2Small();
      assert false;
    }
    j :| 0 <= j <= i - 2 && bits[j] != 0;
  }

  /** Two codes of length i, one of length i - 1 and two of length j + 1 change places with one
      of length j: the space taken and the number of codes stay. */
  lemma SplitPrefix(bits: seq<int>, i: nat, j: nat) returns (now: seq<int>)
    requires |bits| == MAX_CLEN + 1 && bits[0] == 0 && 16 < i <= MAX_CLEN
    requires 1 <= j <= i - 2 && bits[i] > 0 && bits[j] > 0
    requires forall l :: 0 <= l < |bits| ==> bits[l] >= 0
    requires Space(bits, i) == Pow2(i) && Codes(bits, MAX_CLEN) <= 255
    ensures bits[i] >= 2
    ensures now == bits[i := bits[i] - 2][i - 1 := bits[i - 1] + 1]
                       [j + 1 := bits[j + 1] + if j + 1 == i - 1 then 3 else 2][j := bits[j] - 1]
    ensures Space(now, i) == Pow2(i) && Codes(now, MAX_CLEN) == Codes(bits, MAX_CLEN)
    ensures forall l :: 0 <= l < |now| ==> 0 <= now[l] <= 255
  {
    hide Space, Codes, Pow2;
    EvenCount(bits, i);
    var b1 := bits[i := bits[i] - 2];
    var b2 := b1[i - 1 := b1[i - 1] + 1];
    var b3 := b2[j + 1 := b2[j + 1] + 2];
    now := b3[j := b3[j] - 1];
    assert Codes(now, MAX_CLEN) == Codes(bits, MAX_CLEN) by {
      Bump(bits, i, -2, MAX_CLEN);
      Bump(b1, i - 1, 1, MAX_CLEN);
      Bump(b2, j + 1, 2, MAX_CLEN);
      Bump(b3, j, -1, MAX_CLEN);
    }
    assert Space(now, i) == Space(bits, i) by {
      Bump(bits, i, -2, i);
      Bump(b1, i - 1, 1, i);
      Bump(b2, j + 1, 2, i);
      Bump(b3, j, -1, i);
      PowerSteps(i - j);
    }
    ByteCounts(now);
  }

  lemma EvenCount(bits: seq<int>, i: nat)
    requires 0 < i < |bits| && Space(bits, i) == Pow2(i)
    ensures bits[i] % 2 == 0
  {
    assert bits[i] == 2 * (Pow2(i - 1) - Space(bits, i - 1));
  }

  lemma PowerSteps(n: nat)
    requires n > 0
    ensures Pow2(n) == 2 * Pow2(n - 1) && Pow2(0) == 1 && Pow2(1) == 2
  {
  }

  lemma ByteCounts(bits: seq<int>)
    requires |bits| == MAX_CLEN + 1 && bits[0] == 0 && forall l :: 0 <= l < |bits| ==> bits[l] >= 0
    requires Codes(bits, MAX_CLEN) <= 255
    ensures forall l :: 0 <= l < |bits| ==> bits[l] <= 255
  {
    forall l | 1 <= l < |bits|
      ensures bits[l] <= 255
    {
      OneOfCodes(bits, l, MAX_CLEN);
    }
  }

  lemma ShorterSpace(bits: seq<int>, i: nat)
    requires 0 < i < |bits| && bits[i] == 0 && Space(bits, i) == Pow2(i)
    ensures Space(bits, i - 1) == Pow2(i - 1)
  {
  }

  /** The steps lead from the one to the other. */
  ghost predicate ChainTo(chain: seq<seq<int>>, start: seq<int>, bits: seq<int>) {
    Adjusted(chain) && chain != [] && chain[0] == start && chain[|chain| - 1] == bits
  }

  lemma OneMore(chain: seq<seq<int>>, start: seq<int>, a: seq<int>, b: seq<int>, i: nat, j: nat)
    requires ChainTo(chain, start, a) && IsAdjustment(a, b, i, j)
    ensures ChainTo(chain + [b], start, b)
  {
    hide IsAdjustment, Adjusted;
    OneMoreStep(chain, b, i, j);
  }

  lemma StartOfChain(start: seq<int>)
    ensures Adjusted([start])
  {
  }

  /** One step. There always is a length in use to be split. */
  method Adjust(bits: array<Byte>, i: nat) returns (ghost j: nat)
    requires bits.Length == MAX_CLEN + 1 && bits[0] == 0 && 16 < i <= MAX_CLEN && bits[i] > 0
    requires forall l :: i < l <= MAX_CLEN ==> bits[l] == 0
    requires Space(bits[..], i) == Pow2(i) && Codes(bits[..], MAX_CLEN) <= 255
    modifies bits
    ensures IsAdjustment(old(bits[..]), bits[..], i, j)
    ensures bits[i] == old(bits[i]) - 2 && forall l :: i < l <= MAX_CLEN ==> bits[l] == 0
    ensures bits[0] == 0 && Space(bits[..], i) == Pow2(i) && Codes(bits[..], MAX_CLEN) == old(Codes(bits[..], MAX_CLEN))
  {
    hide Space, Codes, Pow2;
    ghost var was := bits[..];
    ghost var shorter := ShorterExists(was, i);
    var k := i - 2;
    while bits[k] == 0
      invariant shorter <= k <= i - 2
      invariant forall l :: k < l <= i - 2 ==> bits[l] == 0
      decreases k
    {
      k := k - 1;
    }
    j := k;
    ghost var now := SplitPrefix(was, i, k);
    assert now[i - 1] <= 255 && now[k + 1] <= 255;
    bits[i] := bits[i] - 2;
    bits[i - 1] := bits[i - 1] + 1;
    bits[k + 1] := bits[k + 1] + 2;
    bits[k] := bits[k] - 1;
    assert bits[..] == now;
  }

  /** Bring every code length down to 16, keeping the code complete and the number of codes. */
  method LimitLengths(bits: array<Byte>) returns (ghost chain: seq<seq<Byte>>)
    requires bits.Length == MAX_CLEN + 1 && bits[0] == 0
    requires Space(bits[..], MAX_CLEN) == Pow2(MAX_CLEN) && Codes(bits[..], MAX_CLEN) <= 255
    modifies bits
    ensures bits[0] == 0 && forall l :: 16 < l <= MAX_CLEN ==> bits[l] == 0
    ensures Space(bits[..], 16) == Pow2(16)
    ensures Codes(bits[..], MAX_CLEN) == old(Codes(bits[..], MAX_CLEN))
    ensures (forall l :: 16 < l <= MAX_CLEN ==> old(bits[l]) == 0) ==> bits[..] == old(bits[..])
    ensures Adjusted(chain) && chain[0] == old(bits[..]) && chain[|chain| - 1] == bits[..]
  {
    hide Space, Codes, Pow2, Adjusted, IsAdjustment;
    ghost var start := bits[..];
    chain := [start];
    StartOfChain(start);
    var i := MAX_CLEN;
    while i > 16
      invariant 16 <= i <= MAX_CLEN && bits[0] == 0
      invariant forall l :: i < l <= MAX_CLEN ==> bits[l] == 0
      invariant Space(bits[..], i) == Pow2(i)
      invariant Codes(bits[..], MAX_CLEN) == Codes(start, MAX_CLEN)
      invariant (forall l :: 16 < l <= MAX_CLEN ==> start[l] == 0) ==> bits[..] == start
      invariant ChainTo(chain, start, bits[..])
    {
      while bits[i] > 0
        invariant bits[0] == 0
        invariant forall l :: i < l <= MAX_CLEN ==> bits[l] == 0
        invariant Space(bits[..], i) == Pow2(i)
        invariant Codes(bits[..], MAX_CLEN) == Codes(start, MAX_CLEN)
        invariant (forall l :: 16 < l <= MAX_CLEN ==> start[l] == 0) ==> bits[..] == start
        invariant ChainTo(chain, start, bits[..])
        decreases bits[i]
      {
        ghost var j := Adjust(bits, i);
        OneMore(chain, start, chain[|chain| - 1], bits[..], i, j);
        chain := chain + [bits[..]];
      }
      ShorterSpace(bits[..], i);
      i := i - 1;
    }
  }

  // The list of symbols.

  ghost predicate Before(size: seq<nat>, x: int, l: nat, y: int)
    requires 0 <= x < |size|
  {
    0 < size[x] && (size[x] < l || (size[x] == l && x < y))
  }

  /** The real symbols that have a code, each once, by code size and then by number. */
  ghost predicate Sorted(size: seq<nat>, list: seq<Byte>)
    requires |size| == SYMBOLS
  {
    forall p, q :: 0 <= p < q < |list| ==> Before(size, list[p], size[list[q]], list[q])
  }

  ghost predicate Listed(size: seq<nat>, list: seq<Byte>)
    requires |size| == SYMBOLS
  {
    && Sorted(size, list)
    && (forall x: Byte :: x in list <==> size[x] > 0)
    && |list| == Coded(size, 256)
  }

  /** The p-th symbol is not preceded by symbols with longer codes. */
  ghost predicate Ranked(size: seq<nat>, list: seq<Byte>)
    requires |size| == SYMBOLS
  {
    forall p :: 0 <= p < |list| ==> p < CodedUpTo(size, size[list[p]], 256)
  }

  method ListSymbols(codesize: array<nat>) returns (huffval: seq<Byte>)
    requires codesize.Length == SYMBOLS && forall x :: 0 <= x < SYMBOLS ==> codesize[x] <= MAX_CLEN
    ensures Listed(codesize[..], huffval) && Ranked(codesize[..], huffval)
  {
    hide CodedUpTo, CodesOf;
    ghost var size := codesize[..];
    huffval := [];
    UpToSplits(size, 0, 256);
    var i := 1;
    while i <= MAX_CLEN
      invariant 1 <= i <= MAX_CLEN + 1 && |huffval| == CodedUpTo(size, i - 1, 256)
      invariant ListedUpTo(size, huffval, i, 0) && Ranked(size, huffval)
    {
      UpToSplits(size, i, 256);
      NoneYet(size, i);
      var j := 0;
      while j <= 255
        invariant 0 <= j <= 256 && |huffval| == CodedUpTo(size, i - 1, 256) + CodesOf(size, i, j)
        invariant ListedUpTo(size, huffval, i, j) && Ranked(size, huffval)
      {
        CodesOfStep(size, i, j);
        CodesOfMono(size, i, j + 1, 256);
        if codesize[j] == i {
          Append(size, huffval, i, j);
          huffval := huffval + [j];
        }
        j := j + 1;
      }
      i := i + 1;
    }
    AllUpTo(size, MAX_CLEN, 256);
  }

  ghost predicate ListedUpTo(size: seq<nat>, list: seq<Byte>, l: nat, y: int)
    requires |size| == SYMBOLS
  {
    && Sorted(size, list)
    && (forall x: Byte :: x in list <==> Before(size, x, l, y))
  }

  lemma Append(size: seq<nat>, list: seq<Byte>, l: nat, y: Byte)
    requires |size| == SYMBOLS && size[y] == l > 0 && ListedUpTo(size, list, l, y) && Ranked(size, list)
    requires |list| < CodedUpTo(size, l, 256)
    ensures ListedUpTo(size, list + [y], l, y + 1) && Ranked(size, list + [y])
  {
    var list' := list + [y];
    forall p, q | 0 <= p < q < |list'|
      ensures Before(size, list'[p], size[list'[q]], list'[q])
    {
      assert list'[p] in list;
    }
  }

  lemma CodesOfStep(size: seq<nat>, l: nat, j: nat)
    requires j < |size|
    ensures CodesOf(size, l, j + 1) == CodesOf(size, l, j) + if size[j] == l then 1 else 0
  {
  }

  lemma NoneYet(size: seq<nat>, l: nat)
    ensures CodesOf(size, l, 0) == 0
  {
  }

  /** Remove one code of the largest length in use, that of the pseudo-symbol. */
  method DropLongest(bits: array<Byte>) returns (longest: nat)
    requires bits.Length == MAX_CLEN + 1 && Codes(bits[..], 16) > 0 && bits[0] == 0
    modifies bits
    ensures 1 <= longest <= 16 && old(bits[longest]) > 0
    ensures forall l :: longest < l <= 16 ==> bits[l] == 0
    ensures bits[..] == old(bits[..])[longest := old(bits[longest]) - 1]
  {
    longest := 16;
    ghost var used := SomeCode(bits[..], 16);
    while bits[longest] == 0
      invariant used <= longest <= 16
      invariant forall l :: longest < l <= 16 ==> bits[l] == 0
      decreases longest
    {
      longest := longest - 1;
    }
    bits[longest] := bits[longest] - 1;
  }

  /** What the table maker demands of the counts of code lengths: the codes do not take up all
      the space, and there is one for each symbol listed. */
  ghost predicate Usable(bits: seq<Byte>, huffval: seq<Byte>) {
    |bits| == 17 && bits[0] == 0 && Space(bits, 16) < Pow2(16) && Codes(bits, 16) == |huffval| <= 255
  }

  /** The p-th code of the table has at most as many bits as Huffman's procedure gave its symbol. */
  ghost predicate NoLonger(size: seq<nat>, bits: seq<Byte>, huffval: seq<Byte>)
    requires |size| == SYMBOLS && |bits| == 17
  {
    forall p :: 0 <= p < |huffval| && size[huffval[p]] <= 16 ==> p < Codes(bits, size[huffval[p]])
  }

  /** The counts of the table come from those of the code sizes: by steps that bring them down to 16,
      and by leaving out one of the longest codes, that of the pseudo-symbol. */
  ghost predicate BitsFrom(size: seq<nat>, chain: seq<seq<Byte>>, bits: seq<Byte>)
    requires |size| == SYMBOLS
  {
    && Adjusted(chain) && (forall k :: 0 <= k < |chain| ==> |chain[k]| == 33) && Limited(chain[|chain| - 1])
    && (forall l :: 0 <= l <= 32 ==> Codes(chain[0], l) == CodedUpTo(size, l, SYMBOLS))
    && LeavesOneOut(chain[|chain| - 1], bits)
  }

  ghost predicate LeavesOneOut(all: seq<Byte>, bits: seq<Byte>) {
    exists longest :: LeavesOut(all, bits, longest)
  }

  ghost predicate LeavesOut(all: seq<Byte>, bits: seq<Byte>, longest: nat) {
    && |all| == 33 && |bits| == 17 && 1 <= longest <= 16
    && all[longest] > 0 && (forall l :: longest < l <= 16 ==> all[l] == 0)
    && bits[longest] == all[longest] - 1 && forall l :: 0 <= l <= 16 && l != longest ==> bits[l] == all[l]
  }

  /** So where the longest code sizes are 2n of 17, and those from m to 15 are at least n, the table has
      as many codes of each length below m as Huffman's procedure gave symbols that size. */
  lemma ShortCodesKept(size: seq<nat>, chain: seq<seq<Byte>>, bits: seq<Byte>, n: nat, m: nat, l: nat)
    requires |size| == SYMBOLS && BitsFrom(size, chain, bits) && n >= 1 && 1 <= l < m <= 15
    requires forall x :: 0 <= x < SYMBOLS ==> size[x] <= 17
    requires CodedUpTo(size, 17, SYMBOLS) - CodedUpTo(size, 16, SYMBOLS) == 2 * n
    requires CodedUpTo(size, 15, SYMBOLS) - CodedUpTo(size, m - 1, SYMBOLS) >= n
    ensures |bits| == 17 && bits[l] == CodedUpTo(size, l, SYMBOLS) - CodedUpTo(size, l - 1, SYMBOLS)
  {
    var first := chain[0];
    assert Codes(first, l) == Codes(first, l - 1) + first[l];
    assert Codes(first, 17) == Codes(first, 16) + first[17];
    hide CodedUpTo;
    forall k | 17 < k < 33
      ensures first[k] == 0
    {
      assert Codes(first, k) == Codes(first, k - 1) + first[k];
      AllUpTo(size, k, SYMBOLS);
      AllUpTo(size, k - 1, SYMBOLS);
    }
    hide Codes;
    ShorterKept(chain, n, m);
    assert LeavesOneOut(chain[n], bits);
  }

  lemma BitsMade(size: seq<nat>, chain: seq<seq<Byte>>, first: seq<Byte>, limited: seq<Byte>, bits: seq<Byte>,
                 longest: nat)
    requires |size| == SYMBOLS && |first| == |limited| == |bits| == 33 && Adjusted(chain)
    requires chain[0] == first && chain[|chain| - 1] == limited
    requires forall l :: 0 <= l <= 32 ==> Codes(first, l) == CodedUpTo(size, l, SYMBOLS)
    requires forall l :: 16 < l <= 32 ==> limited[l] == 0
    requires 1 <= longest <= 16 && limited[longest] > 0 && forall l :: longest < l <= 16 ==> limited[l] == 0
    requires bits == limited[longest := limited[longest] - 1]
    ensures BitsFrom(size, chain, bits[..17])
  {
    hide Codes, CodedUpTo;
    forall k | 0 <= k < |chain|
      ensures |chain[k]| == 33
    {
      SameSize(chain, k);
    }
    hide Adjusted;
    assert LeavesOut(limited, bits[..17], longest);
  }

  lemma Dropped(bits: seq<int>, now: seq<int>, longest: nat, n: nat)
    requires |bits| == MAX_CLEN + 1 && 1 <= longest <= 16 && bits[longest] > 0
    requires now == bits[longest := bits[longest] - 1] && forall l :: longest < l <= MAX_CLEN ==> bits[l] == 0
    requires Space(bits, 16) == Pow2(16) && Codes(bits, MAX_CLEN) == n
    ensures Space(now[..17], 16) < Pow2(16) && Codes(now[..17], 16) == n - 1
    ensures forall l :: 0 <= l <= 16 ==> Codes(now[..17], l) == if l < longest then Codes(bits, l) else n - 1
  {
    hide Space, Codes, Pow2;
    Bump(bits, longest, -1, 16);
    Prefix(now, 17, 16);
    assert Pow2(16 - longest) > 0;
    var cut := now[..17];
    forall l | 0 <= l <= 16
      ensures Codes(cut, l) == if l < longest then Codes(bits, l) else n - 1
    {
      Bump(bits, longest, -1, l);
      Prefix(now, 17, l);
      if l >= longest {
        NothingLonger(bits, longest, l);
        NothingLonger(bits, longest, MAX_CLEN);
      }
    }
  }

  lemma LengthsKept(size: seq<nat>, bits: seq<int>, now: seq<Byte>, longest: nat, huffval: seq<Byte>)
    requires |size| == SYMBOLS && |bits| == MAX_CLEN + 1 && |now| == 17 && size[256] > 0
    requires Listed(size, huffval) && Ranked(size, huffval)
    requires forall l :: 0 <= l <= MAX_CLEN ==> Codes(bits, l) == CodedUpTo(size, l, SYMBOLS)
    requires forall l :: 0 <= l <= 16 ==> Codes(now, l) == if l < longest then Codes(bits, l) else |huffval|
    ensures NoLonger(size, now, huffval)
  {
    hide Codes, Listed;
    forall p | 0 <= p < |huffval| && size[huffval[p]] <= 16
      ensures p < Codes(now, size[huffval[p]])
    {
      var v := size[huffval[p]];
      assert CodedUpTo(size, v, 256) <= CodedUpTo(size, v, 257);
    }
  }

  /** The table for the given counts of the 256 real symbols. */
  method GenOptimalTable(freq: array<nat>)
    returns (r: Outcome, ghost size: seq<nat>, ghost chain: seq<seq<Byte>>)
    requires freq.Length == SYMBOLS
    requires exists x :: 0 <= x < 256 && freq[x] > 0
    requires Total(freq[..], 256) < 1_000_000_000 && Coded(freq[..], 256) < 255
    modifies freq
    ensures |size| == SYMBOLS && forall x :: 0 <= x < SYMBOLS ==> (size[x] > 0 <==> x == 256 || old(freq[x]) > 0)
    ensures Optimal(old(freq[..])[256 := 1], size)
    ensures size == HuffmanSizes(old(freq[..])[256 := 1])
    ensures r.ClenOverflow? <==> TooLong(old(freq[..]))
    ensures r.Table? ==> Usable(r.bits, r.huffval) && Listed(size, r.huffval)
    ensures r.Table? && (forall x :: 0 <= x < SYMBOLS ==> size[x] <= 16) ==> NoLonger(size, r.bits, r.huffval)
    ensures r.Table? ==> BitsFrom(size, chain, r.bits)
  {
    hide Weight, Optimal, Total, Coded, HuffmanSizes, CodedUpTo, CodesOf, Space, Codes, Pow2, Listed, Ranked, NoLonger,
         Adjusted, BitsFrom;
    ghost var some :| 0 <= some < 256 && freq[some] > 0;
    ghost var given := freq[..];
    var codesize := new nat[SYMBOLS](_ => 0);
    var others := new int[SYMBOLS](_ => -1);
    freq[256] := 1;
    ghost var counts := freq[..];
    SameBelow(given, counts, 256);
    ghost var owner, root := AssignLengths(freq, codesize, others);
    size := codesize[..];
    forall x | 0 <= x < SYMBOLS
      ensures size[x] > 0 <==> counts[x] > 0
    {
      if counts[x] > 0 {
        CodesNotEmpty(owner, size, root, x, if x == 256 then some else 256);
      }
    }
    SameCoded(size, counts, SYMBOLS);
    var ok, bits := CountLengths(codesize, owner, root);
    if !ok {
      return ClenOverflow, size, [];
    }
    ghost var first := bits[..];
    chain := LimitLengths(bits);
    ghost var limited := bits[..];
    NothingLonger(limited, 16, MAX_CLEN);
    ghost var longest := DropLongest(bits);
    forall l | longest < l <= MAX_CLEN
      ensures limited[l] == 0
    {
      assert l <= 16 ==> bits[l] == limited[l];
    }
    var huffval := ListSymbols(codesize);
    LastSymbol(size, huffval);
    Dropped(limited, bits[..], longest, Coded(size, SYMBOLS));
    BitsMade(size, chain, first, limited, bits[..], longest);
    if forall x :: 0 <= x < SYMBOLS ==> size[x] <= 16 {
      NoneLonger(size, first);
      LengthsKept(size, limited, bits[..17], longest, huffval);
    }
    r := Table(bits[..17], huffval);
  }

  lemma {:induction false} SameBelow(freq: seq<nat>, freq': seq<nat>, n: nat)
    requires n <= |freq| && n <= |freq'| && forall i :: 0 <= i < n ==> freq[i] == freq'[i]
    ensures Total(freq, n) == Total(freq', n) && Coded(freq, n) == Coded(freq', n)
    ensures n < |freq'| && freq'[n] == 1 ==>
            Total(freq', n + 1) == Total(freq, n) + 1 && Coded(freq', n + 1) == Coded(freq, n) + 1
  {
    if n != 0 {
      SameBelow(freq, freq', n - 1);
    }
  }

  lemma LastSymbol(size: seq<nat>, huffval: seq<Byte>)
    requires |size| == SYMBOLS && size[256] > 0 && Listed(size, huffval)
    ensures Coded(size, SYMBOLS) == |huffval| + 1
  {
  }

  lemma NoneLonger(size: seq<nat>, bits: seq<int>)
    requires |size| == SYMBOLS && |bits| == MAX_CLEN + 1 && forall x :: 0 <= x < SYMBOLS ==> size[x] <= 16
    requires forall l :: 0 <= l <= MAX_CLEN ==> Codes(bits, l) == CodedUpTo(size, l, SYMBOLS)
    ensures forall l :: 16 < l <= MAX_CLEN ==> bits[l] == 0
  {
    hide CodedUpTo;
    forall l | 16 < l <= MAX_CLEN
      ensures bits[l] == 0
    {
      assert Codes(bits, l) == Codes(bits, l - 1) + bits[l];
      AllUpTo(size, l, SYMBOLS);
      AllUpTo(size, l - 1, SYMBOLS);
    }
  }
}
