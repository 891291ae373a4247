/** Files of several scans: the scans of a script coded one after the other, and decoded into
    the coefficient arrays of the decoder. */
module Transmission {
  import opened Scans
  import opened Segments
  import opened ScanScript
  import opened SimpleScripts
  import opened Precision
  import opened Progression
  import opened Estimation
  import opened HuffTokens
  import A = ArithRoundTrip
  import T = HuffStatistics
  import R = HuffRoundTrip
  import E = HuffScanEncoder
  import D = HuffDecoding
  import I = HuffInverse
  import P = HuffProcedure
  import C = HuffSymbolCount

  /** For each block of each MCU, its component, counted within the scan, and its number. */
  type Layout = seq<seq<(nat, nat)>>

  /** The blocks of all components, dummy blocks at the edges included. */
  type Image = seq<seq<Block>>

  ghost predicate InImage(s: ScanInfo, image: Image, l: Layout) {
    && (forall i :: 0 <= i < |s.comps| ==> 0 <= s.comps[i] < |image|)
    && (forall j, b :: 0 <= j < |l| && 0 <= b < |l[j]| ==>
          l[j][b].0 < |s.comps| && l[j][b].1 < |image[s.comps[l[j][b].0]]|)
  }

  ghost predicate NoRevisits(l: Layout) {
    && (forall j, b, d :: 0 <= j < |l| && 0 <= b < d < |l[j]| ==> l[j][b] != l[j][d])
    && (forall j, k, b, d :: 0 <= j < k < |l| && 0 <= b < |l[j]| && 0 <= d < |l[k]| ==> l[j][b] != l[k][d])
  }

  ghost predicate Visits(l: Layout, i: nat, x: nat) {
    exists j, b :: 0 <= j < |l| && 0 <= b < |l[j]| && l[j][b] == (i, x)
  }

  /** A scan visits every real block of its components, and no block twice. Only interleaved
      scans have dummy blocks; AC scans go block by block. */
  ghost predicate LayoutOk(s: ScanInfo, image: Image, inside: seq<set<nat>>, l: Layout) {
    && |inside| == |image| && InImage(s, image, l) && NoRevisits(l)
    && (forall i, x :: 0 <= i < |s.comps| && x in inside[s.comps[i]] ==> Visits(l, i, x))
    && (s.ss != 0 ==> forall j :: 0 <= j < |l| ==> |l[j]| == 1 && l[j][0].1 in inside[s.comps[l[j][0].0]])
  }

  /** The decoder's arrays, one for each block. */
  ghost predicate StoreOk(image: Image, inside: seq<set<nat>>, store: seq<seq<array<Coef>>>) {
    && |store| == |image| == |inside|
    && (forall c :: 0 <= c < |image| ==> |store[c]| == |image[c]|)
    && (forall c, x :: 0 <= c < |image| && x in inside[c] ==> x < |image[c]|)
    && (forall c, x :: 0 <= c < |store| && 0 <= x < |store[c]| ==> store[c][x].Length == 64)
    && (forall c, x, d, y :: 0 <= c < |store| && 0 <= x < |store[c]| && 0 <= d < |store| && 0 <= y < |store[d]| ==>
          (c, x) == (d, y) || store[c][x] != store[d][y])
  }

  /** What the arrays hold. */
  ghost function Held(store: seq<seq<array<Coef>>>): (held: seq<seq<seq<Coef>>>)
    reads Arrays(store)
    ensures |held| == |store| && forall c :: 0 <= c < |store| ==> |held[c]| == |store[c]|
    ensures forall c, x :: 0 <= c < |store| && 0 <= x < |store[c]| ==> held[c][x] == store[c][x][..]
  {
    seq(|store|, c requires 0 <= c < |store| reads Arrays(store) =>
      seq(|store[c]|, x requires 0 <= x < |store[c]| reads Arrays(store) => store[c][x][..]))
  }

  ghost predicate Shaped(image: Image, inside: seq<set<nat>>, held: seq<seq<seq<Coef>>>) {
    && |held| == |image| == |inside|
    && (forall c :: 0 <= c < |image| ==> |held[c]| == |image[c]|)
    && (forall c, x :: 0 <= c < |image| && x in inside[c] ==> x < |image[c]|)
    && (forall c, x :: 0 <= c < |image| && 0 <= x < |held[c]| ==> |held[c][x]| == 64)
  }

  /** Every real block is held at the precision that the scans so far give. */
  ghost predicate Shown(order: seq<nat>, script: seq<ScanInfo>, image: Image, inside: seq<set<nat>>,
                        held: seq<seq<seq<Coef>>>)
    requires OrderOk(order) && Shaped(image, inside, held)
  {
    forall c, x :: 0 <= c < |image| && x in inside[c] ==> Reached(order, script, c, held[c][x], image[c][x])
  }

  function Mcus(s: ScanInfo, image: Image, l: Layout): (mcus: seq<Mcu>)
    requires InImage(s, image, l)
    ensures |mcus| == |l| && forall j :: 0 <= j < |l| ==> |mcus[j]| == |l[j]|
    ensures forall j, b :: 0 <= j < |l| && 0 <= b < |l[j]| ==>
              mcus[j][b] == Item(l[j][b].0, image[s.comps[l[j][b].0]][l[j][b].1])
  {
    seq(|l|, j requires 0 <= j < |l| =>
      seq(|l[j]|, b requires 0 <= b < |l[j]| => Item(l[j][b].0, image[s.comps[l[j][b].0]][l[j][b].1])))
  }

  function Members(l: Layout): (comps: seq<seq<nat>>)
    ensures |comps| == |l| && forall j :: 0 <= j < |l| ==> |comps[j]| == |l[j]|
    ensures forall j, b :: 0 <= j < |l| && 0 <= b < |l[j]| ==> comps[j][b] == l[j][b].0
  {
    seq(|l|, j requires 0 <= j < |l| => seq(|l[j]|, b requires 0 <= b < |l[j]| => l[j][b].0))
  }

  function Targets(s: ScanInfo, image: Image, ghost inside: seq<set<nat>>, store: seq<seq<array<Coef>>>,
                   l: Layout): (targets: seq<seq<array<Coef>>>)
    requires InImage(s, image, l) && StoreOk(image, inside, store)
    ensures |targets| == |l| && forall j :: 0 <= j < |l| ==> |targets[j]| == |l[j]|
    ensures forall j, b :: 0 <= j < |l| && 0 <= b < |l[j]| ==> targets[j][b] == store[s.comps[l[j][b].0]][l[j][b].1]
  {
    seq(|l|, j requires 0 <= j < |l| =>
      seq(|l[j]|, b requires 0 <= b < |l[j]| => store[s.comps[l[j][b].0]][l[j][b].1]))
  }

  /** The scan finds its blocks, all different, in the state it needs. */
  lemma Prepared(order: seq<nat>, numComps: nat, progressive: bool, lim: nat, before: seq<ScanInfo>, s: ScanInfo,
                 scan: Scan, image: Image, inside: seq<set<nat>>, store: seq<seq<array<Coef>>>, l: Layout)
    requires NextOk(numComps, progressive, lim, before, s) && lim <= 63 && OrderOk(order)
    requires Realizes(scan, order, progressive, s) && LayoutOk(s, image, inside, l) && StoreOk(image, inside, store)
    requires Shown(order, before, image, inside, Held(store))
    ensures McusOk(scan, Mcus(s, image, l))
    ensures TargetsOk(scan, Mcus(s, image, l), Members(l), Targets(s, image, inside, store, l))
    ensures PriorsOk(scan, Mcus(s, image, l), Targets(s, image, inside, store, l))
    ensures Arrays(Targets(s, image, inside, store, l)) <= Arrays(store)
  {
    hide NextOk, Reached, Shown, Prior, NoRevisits, Mcus, Members, Targets, Realizes, Held;
    InOrder(numComps, progressive, lim, before, s);
    ComponentsMatch(scan, order, progressive, s);
    AllDifferent(s, scan, image, inside, store, l);
    forall j, b | 0 <= j < |l| && 0 <= b < |l[j]|
      ensures Prior(scan, Targets(s, image, inside, store, l)[j][b][..], Mcus(s, image, l)[j][b].block)
    {
      OnePrior(order, numComps, progressive, lim, before, s, scan, image, inside, Held(store), l, j, b);
    }
  }

  lemma InOrder(numComps: nat, progressive: bool, lim: nat, before: seq<ScanInfo>, s: ScanInfo)
    requires NextOk(numComps, progressive, lim, before, s)
    ensures forall i, k :: 0 <= i < k < |s.comps| ==> s.comps[i] < s.comps[k]
  {
  }

  lemma ComponentsMatch(scan: Scan, order: seq<nat>, progressive: bool, s: ScanInfo)
    requires Realizes(scan, order, progressive, s)
    ensures scan.NumComps() == |s.comps| && scan.Ok()
  {
  }

  lemma OnePrior(order: seq<nat>, numComps: nat, progressive: bool, lim: nat, before: seq<ScanInfo>, s: ScanInfo,
                 scan: Scan, image: Image, inside: seq<set<nat>>, held: seq<seq<seq<Coef>>>, l: Layout, j: nat, b: nat)
    requires NextOk(numComps, progressive, lim, before, s) && lim <= 63 && OrderOk(order)
    requires Realizes(scan, order, progressive, s) && LayoutOk(s, image, inside, l) && Shaped(image, inside, held)
    requires Shown(order, before, image, inside, held) && j < |l| && b < |l[j]|
    ensures var c, x := s.comps[l[j][b].0], l[j][b].1;
            Prior(scan, held[c][x], image[c][x])
  {
    hide Reached, NextOk, OrderOk, Prior, NoRevisits, Realizes;
    var c, x := s.comps[l[j][b].0], l[j][b].1;
    if s.ss == 0 {
      OnlyRefinements(scan, order, progressive, s, held[c][x], image[c][x]);
    } else {
      ScanReaches(order, numComps, progressive, lim, before, s, scan, c, held[c][x], image[c][x]);
    }
  }

  lemma OnlyRefinements(scan: Scan, order: seq<nat>, progressive: bool, s: ScanInfo, held: seq<Coef>, b: Block)
    requires Realizes(scan, order, progressive, s) && s.ss == 0 && |held| == 64
    ensures Prior(scan, held, b)
  {
  }

  lemma AllDifferent(s: ScanInfo, scan: Scan, image: Image, inside: seq<set<nat>>, store: seq<seq<array<Coef>>>,
                     l: Layout)
    requires InImage(s, image, l) && NoRevisits(l) && StoreOk(image, inside, store) && scan.NumComps() == |s.comps|
    requires forall i, k :: 0 <= i < k < |s.comps| ==> s.comps[i] < s.comps[k]
    ensures McusOk(scan, Mcus(s, image, l))
    ensures TargetsOk(scan, Mcus(s, image, l), Members(l), Targets(s, image, inside, store, l))
    ensures Arrays(Targets(s, image, inside, store, l)) <= Arrays(store)
  {
    hide Mcus, Members, Targets;
    var targets := Targets(s, image, inside, store, l);
    forall j, b, k, d | 0 <= j < |l| && 0 <= b < |l[j]| && 0 <= k < |l| && 0 <= d < |l[k]| && l[j][b] != l[k][d]
      ensures targets[j][b] != targets[k][d]
    {
      var i, m := l[j][b].0, l[k][d].0;
      assert i != m ==> s.comps[i] != s.comps[m];
    }
  }

  /** The scan in its entropy-coded form: parameters and tables, restart interval, MCUs. */
  datatype Pass = Pass(scan: Scan, restart: nat, layout: Layout)

  ghost predicate PassOk(order: seq<nat>, progressive: bool, s: ScanInfo, image: Image, inside: seq<set<nat>>,
                         p: Pass) {
    Realizes(p.scan, order, progressive, s) && LayoutOk(s, image, inside, p.layout)
  }

  ghost predicate PassesOk(order: seq<nat>, progressive: bool, script: seq<ScanInfo>, image: Image,
                           inside: seq<set<nat>>,
                           passes: seq<Pass>)
  {
    |passes| == |script| && forall i :: 0 <= i < |script| ==>
      PassOk(order, progressive, script[i], image, inside, passes[i])
  }

  ghost predicate Visited(s: ScanInfo, image: Image, l: Layout, c: nat, x: nat)
    requires InImage(s, image, l)
  {
    exists j, b :: 0 <= j < |l| && 0 <= b < |l[j]| && s.comps[l[j][b].0] == c && l[j][b].1 == x
  }

  /** The blocks that the scan visits became what decoding makes of them; the others stayed. */
  ghost predicate BlocksDecoded(s: ScanInfo, image: Image, inside: seq<set<nat>>, p: Pass,
                                was: seq<seq<seq<Coef>>>, now: seq<seq<seq<Coef>>>)
    requires InImage(s, image, p.layout) && Shaped(image, inside, was) && Shaped(image, inside, now) && p.scan.Ok()
  {
    forall c, x :: 0 <= c < |image| && 0 <= x < |image[c]| ==>
      now[c][x] == if Visited(s, image, p.layout, c, x) then Decoded(p.scan, was[c][x], image[c][x]) else was[c][x]
  }

  /** The scan shows all real blocks of its components one step better, and no others. */
  lemma ShownAfter(order: seq<nat>, numComps: nat, progressive: bool, lim: nat, before: seq<ScanInfo>, s: ScanInfo,
                   image: Image, inside: seq<set<nat>>, p: Pass, was: seq<seq<seq<Coef>>>, now: seq<seq<seq<Coef>>>)
    requires NextOk(numComps, progressive, lim, before, s) && lim <= 63 && OrderOk(order)
    requires Shaped(image, inside, was) && Shaped(image, inside, now)
    requires PassOk(order, progressive, s, image, inside, p) && Shown(order, before, image, inside, was)
    requires BlocksDecoded(s, image, inside, p, was, now)
    ensures Shown(order, before + [s], image, inside, now)
  {
    hide Reached, Decoded, NextOk, OrderOk, NoRevisits;
    forall c, x | 0 <= c < |image| && x in inside[c]
      ensures Reached(order, before + [s], c, now[c][x], image[c][x])
    {
      if c in s.comps {
        var i :| 0 <= i < |s.comps| && s.comps[i] == c;
        assert Visits(p.layout, i, x);
        var j, b :| 0 <= j < |p.layout| && 0 <= b < |p.layout[j]| && p.layout[j][b] == (i, x);
        assert Visited(s, image, p.layout, c, x);
        ScanReaches(order, numComps, progressive, lim, before, s, p.scan, c, was[c][x], image[c][x]);
      } else {
        StillReached(order, before, s, c, was[c][x], image[c][x]);
      }
    }
  }

  lemma StillReached(order: seq<nat>, before: seq<ScanInfo>, s: ScanInfo, c: int, held: seq<Coef>, b: Block)
    requires OrderOk(order) && |held| == 64 && Reached(order, before, c, held, b) && c !in s.comps
    ensures Reached(order, before + [s], c, held, b)
  {
    hide LastAl;
    forall k | 0 <= k < 64
      ensures LastAl(before + [s], c, k) == LastAl(before, c, k)
    {
      NextAl(before, s, c, k);
    }
  }

  /** The targets are all blocks that are visited. */
  lemma TargetOrNot(s: ScanInfo, image: Image, inside: seq<set<nat>>, store: seq<seq<array<Coef>>>, l: Layout, c: nat,
                    x: nat)
    requires InImage(s, image, l) && StoreOk(image, inside, store) && c < |image| && x < |image[c]|
    ensures store[c][x] in Arrays(Targets(s, image, inside, store, l)) <==> Visited(s, image, l, c, x)
  {
    var targets := Targets(s, image, inside, store, l);
    if Visited(s, image, l, c, x) {
      var j, b :| 0 <= j < |l| && 0 <= b < |l[j]| && s.comps[l[j][b].0] == c && l[j][b].1 == x;
      assert targets[j][b] == store[c][x];
    }
    if store[c][x] in Arrays(targets) {
      var j, b :| 0 <= j < |targets| && 0 <= b < |targets[j]| && targets[j][b] == store[c][x];
      assert store[s.comps[l[j][b].0]][l[j][b].1] == store[c][x];
    }
  }

  lemma PassDecoded(s: ScanInfo, image: Image, inside: seq<set<nat>>, store: seq<seq<array<Coef>>>, p: Pass,
                    was: seq<seq<seq<Coef>>>, now: seq<seq<seq<Coef>>>)
    requires InImage(s, image, p.layout) && StoreOk(image, inside, store) && p.scan.Ok()
    requires Shaped(image, inside, was) && Shaped(image, inside, now)
    requires forall j, b :: 0 <= j < |p.layout| && 0 <= b < |p.layout[j]| ==>
      var c, x := s.comps[p.layout[j][b].0], p.layout[j][b].1;
      now[c][x] == Decoded(p.scan, was[c][x], image[c][x])
    requires forall c, x ::
      (0 <= c < |store| && 0 <= x < |store[c]|
       && store[c][x] !in Arrays(Targets(s, image, inside, store, p.layout))) ==>
        now[c][x] == was[c][x]
    ensures BlocksDecoded(s, image, inside, p, was, now)
  {
    hide Decoded;
    forall c, x | 0 <= c < |image| && 0 <= x < |image[c]|
      ensures now[c][x] == if Visited(s, image, p.layout, c, x)
              then Decoded(p.scan, was[c][x], image[c][x]) else was[c][x]
    {
      TargetOrNot(s, image, inside, store, p.layout, c, x);
      if Visited(s, image, p.layout, c, x) {
        var j, b :| 0 <= j < |p.layout| && 0 <= b < |p.layout[j]| && s.comps[p.layout[j][b].0] == c
          && p.layout[j][b].1 == x;
      }
    }
  }

  /** One scan through the arithmetic codec. */
  method ArithPass(table: Table, order: seq<nat>, numComps: nat, progressive: bool, lim: nat,
                   ghost before: seq<ScanInfo>,
                   s: ScanInfo, image: Image, ghost inside: seq<set<nat>>, store: seq<seq<array<Coef>>>, p: Pass)
    requires NextOk(numComps, progressive, lim, before, s) && lim <= 63 && OrderOk(order)
    requires PassOk(order, progressive, s, image, inside, p) && StoreOk(image, inside, store)
    requires Shown(order, before, image, inside, Held(store))
    requires A.AllDiffsOk(p.scan, Mcus(s, image, p.layout), p.restart)
    modifies Arrays(store)
    ensures Shown(order, before + [s], image, inside, Held(store))
  {
    hide Reached, Decoded, NextOk, OrderOk, NoRevisits, Prior, A.AllDiffsOk, Shown, BlocksDecoded;
    ghost var was := Held(store);
    Prepared(order, numComps, progressive, lim, before, s, p.scan, image, inside, store, p.layout);
    var mcus, targets := Mcus(s, image, p.layout), Targets(s, image, inside, store, p.layout);
    A.ScanRoundTrip(table, p.scan, p.restart, mcus, Members(p.layout), targets);
    PassDecoded(s, image, inside, store, p, was, Held(store));
    ShownAfter(order, numComps, progressive, lim, before, s, image, inside, p, was, Held(store));
  }

  /** Whatever the image, a legal script brought through the arithmetic codec leaves every real
      coefficient at the precision of the last scan that had it. The script may be any part of
      a longer one, from its start. */
  method ArithTransmission(table: Table, order: seq<nat>, numComps: nat, progressive: bool, lim: nat,
                           script: seq<ScanInfo>,
                           image: Image, ghost inside: seq<set<nat>>, store: seq<seq<array<Coef>>>, passes: seq<Pass>)
    requires Ordered(numComps, progressive, lim, script) && lim <= 63 && OrderOk(order)
    requires StoreOk(image, inside, store) && PassesOk(order, progressive, script, image, inside, passes)
    requires Shown(order, [], image, inside, Held(store))
    requires forall i :: 0 <= i < |script| ==>
               A.AllDiffsOk(passes[i].scan, Mcus(script[i], image, passes[i].layout), passes[i].restart)
    modifies Arrays(store)
    ensures Shown(order, script, image, inside, Held(store))
  {
    hide NextOk, OrderOk, PassOk, Shown, A.AllDiffsOk;
    assert script[..0] == [];
    for i := 0 to |script|
      invariant Shown(order, script[..i], image, inside, Held(store))
    {
      ArithPass(table, order, numComps, progressive, lim, script[..i], script[i], image, inside, store, passes[i]);
      assert script[..i] + [script[i]] == script[..i + 1];
    }
    assert script[..|script|] == script;
  }

  /** What the Huffman coder asks of a scan: values in range, and every component in the first
      MCU. */
  ghost predicate Codable(s: ScanInfo, image: Image, p: Pass) {
    && InImage(s, image, p.layout) && E.HuffOk(p.scan)
    && var mcus := Mcus(s, image, p.layout);
    && McusOk(p.scan, mcus) && T.Complete(p.scan, mcus)
    && R.ScanCodable(p.scan, mcus, p.restart) && C.Syms(T.ScanTokens(p.scan, mcus, p.restart)) < 1_000_000_000
  }

  /** An optimal table for the scan has codes that are too long to be handled. */
  ghost predicate TooLong(s: ScanInfo, image: Image, p: Pass) {
    Codable(s, image, p) && T.NeedsTooLong(p.scan, T.ScanTokens(p.scan, Mcus(s, image, p.layout), p.restart))
  }

  /** A block that is wanted in full is decoded in full. */
  lemma WantedInFull(cfg: D.Config, c: nat, was: seq<Coef>, b: Block, result: seq<Coef>)
    requires cfg.Ok() && c < cfg.scan.NumComps() && |was| == 64 && I.DecodedWanted(cfg, c, was, b, result)
    requires cfg.limit[c] == cfg.scan.se + 1
    ensures result == Decoded(cfg.scan, was, b)
  {
    hide Placed;
    if cfg.scan.kind == Sequential {
      var order := cfg.scan.order;
      forall i | 0 <= i < 64
        ensures result[i] == Decoded(cfg.scan, was, b)[i]
      {
        var j := OrderOnto(order, i);
        if j > cfg.scan.se {
          BeyondTheScan(cfg.scan, was, b, j);
        }
      }
    }
  }

  lemma BeyondTheScan(scan: Scan, was: seq<Coef>, b: Block, j: nat)
    requires scan.Ok() && scan.kind == Sequential && |was| == 64 && scan.se < j < 64
    ensures Decoded(scan, was, b)[scan.order[j]] == was[scan.order[j]]
  {
    SequentialCoef(scan, was, b, j);
  }

  /** One scan through the Huffman codec, with tables made for it; the input may come in
      pieces of any sizes. */
  method HuffPass(order: seq<nat>, numComps: nat, progressive: bool, lim: nat, ghost before: seq<ScanInfo>,
                  s: ScanInfo, image: Image, ghost inside: seq<set<nat>>, store: seq<seq<array<Coef>>>, p: Pass,
                  tabs: Tabs, chunks: seq<nat>) returns (ok: bool)
    requires NextOk(numComps, progressive, lim, before, s) && lim <= 63 && OrderOk(order)
    requires PassOk(order, progressive, s, image, inside, p) && StoreOk(image, inside, store)
    requires Shown(order, before, image, inside, Held(store))
    requires tabs.Ok() && Codable(s, image, p)
    modifies Arrays(store)
    ensures ok <==> !TooLong(s, image, p)
    ensures Shown(order, if ok then before + [s] else before, image, inside, Held(store))
  {
    hide Reached, Decoded, NextOk, OrderOk, NoRevisits, Prior, Shown, BlocksDecoded, R.ScanCodable, T.Complete,
         I.DecodedWanted, T.ScanTokens, T.NeedsTooLong, C.Syms, D.Config.Ok;
    ghost var was := Held(store);
    Prepared(order, numComps, progressive, lim, before, s, p.scan, image, inside, store, p.layout);
    var mcus, targets := Mcus(s, image, p.layout), Targets(s, image, inside, store, p.layout);
    var limit := seq(p.scan.NumComps(), _ => p.scan.se + 1);
    var t := T.OptimizedRoundTrip(p.scan, tabs, limit, p.restart, mcus, Members(p.layout), targets, chunks);
    ok := t.Some?;
    if !ok {
      ghost var now := Held(store);
      forall c | 0 <= c < |store|
        ensures now[c] == was[c]
      {
        assert forall x :: 0 <= x < |store[c]| ==> now[c][x] == was[c][x];
      }
      assert now == was;
    } else {
      forall j, b | 0 <= j < |p.layout| && 0 <= b < |p.layout[j]|
        ensures targets[j][b][..] == Decoded(p.scan, old(targets[j][b][..]), mcus[j][b].block)
      {
        WantedInFull(D.Config(p.scan, t.value, limit), p.layout[j][b].0,
                     old(targets[j][b][..]), mcus[j][b].block, targets[j][b][..]);
      }
      PassDecoded(s, image, inside, store, p, was, Held(store));
      ShownAfter(order, numComps, progressive, lim, before, s, image, inside, p, was, Held(store));
    }
  }

  /** The same through the Huffman codec. It fails only on a scan that needs codes that are too
      long, and then what the scans before it showed stays shown. */
  method HuffTransmission(order: seq<nat>, numComps: nat, progressive: bool, lim: nat, script: seq<ScanInfo>,
                          image: Image, ghost inside: seq<set<nat>>, store: seq<seq<array<Coef>>>, passes: seq<Pass>,
                          tabs: Tabs, chunks: seq<seq<nat>>) returns (ok: bool, n: nat)
    requires Ordered(numComps, progressive, lim, script) && lim <= 63 && OrderOk(order)
    requires StoreOk(image, inside, store) && PassesOk(order, progressive, script, image, inside, passes)
    requires Shown(order, [], image, inside, Held(store)) && tabs.Ok() && |chunks| == |script|
    requires forall i :: 0 <= i < |script| ==> Codable(script[i], image, passes[i])
    modifies Arrays(store)
    ensures n <= |script| && (ok <==> n == |script|)
    ensures forall i :: 0 <= i < n ==> !TooLong(script[i], image, passes[i])
    ensures !ok ==> TooLong(script[n], image, passes[n])
    ensures Shown(order, script[..n], image, inside, Held(store))
  {
    hide NextOk, OrderOk, PassOk, Shown, Codable, TooLong;
    assert script[..0] == [];
    for i := 0 to |script|
      invariant Shown(order, script[..i], image, inside, Held(store))
      invariant forall k :: 0 <= k < i ==> !TooLong(script[k], image, passes[k])
    {
      var done := HuffPass(order, numComps, progressive, lim, script[..i], script[i], image, inside, store, passes[i],
        tabs, chunks[i]);
      if !done {
        return false, i;
      }
      assert script[..i] + [script[i]] == script[..i + 1];
    }
    return true, |script|;
  }

  /** When the last Al of every coefficient is 0 the real blocks are the image's own. */
  lemma ShownInFull(order: seq<nat>, script: seq<ScanInfo>, image: Image, inside: seq<set<nat>>,
                    held: seq<seq<seq<Coef>>>)
    requires OrderOk(order) && Shaped(image, inside, held) && Shown(order, script, image, inside, held)
    requires forall c, k :: 0 <= c < |image| && 0 <= k < 64 ==> LastAl(script, c, k) == 0
    ensures forall c, x :: 0 <= c < |image| && x in inside[c] ==> held[c][x] == image[c][x]
  {
    hide LastAl, Reached, OrderOk;
    forall c, x | 0 <= c < |image| && x in inside[c]
      ensures held[c][x] == image[c][x]
    {
      forall i | 0 <= i < 64
        ensures held[c][x][i] == image[c][x][i]
      {
        var k := OrderOnto(order, i);
        FullPrecision(order, script, c, held[c][x], image[c][x], k);
      }
    }
  }

  /** So the compressor's own progressive scripts lose nothing. */
  lemma SimpleScriptShowsAll(order: seq<nat>, ycc: bool, image: Image, inside: seq<set<nat>>, held: seq<seq<seq<Coef>>>)
    requires OrderOk(order) && image != [] && Shaped(image, inside, held)
    requires Shown(order, SimpleScript(|image|, ycc), image, inside, held)
    ensures forall c, x :: 0 <= c < |image| && x in inside[c] ==> held[c][x] == image[c][x]
  {
    hide SimpleScript, Shown, Shaped, OrderOk;
    SimpleIsLegal(|image|, ycc);
    ShownInFull(order, SimpleScript(|image|, ycc), image, inside, held);
  }

  /** Arrays that are zeroed show an image of which nothing was sent. */
  lemma ZeroedShowsNothing(order: seq<nat>, image: Image, inside: seq<set<nat>>, held: seq<seq<seq<Coef>>>)
    requires OrderOk(order) && Shaped(image, inside, held)
    requires forall c, x, i :: 0 <= c < |image| && 0 <= x < |held[c]| && 0 <= i < 64 ==> held[c][x][i] == 0
    ensures Shown(order, [], image, inside, held)
  {
    hide Reached, OrderOk;
    forall c, x | 0 <= c < |image| && x in inside[c]
      ensures Reached(order, [], c, held[c][x], image[c][x])
    {
      NothingReached(order, c, held[c][x], image[c][x]);
    }
  }

  ghost predicate ZeroedStore(store: seq<seq<array<Coef>>>)
    reads Arrays(store)
  {
    forall c, x, i :: 0 <= c < |store| && 0 <= x < |store[c]| && 0 <= i < store[c][x].Length ==> store[c][x][i] == 0
  }

  /** What the arrays hold is the image. */
  ghost predicate Holds(image: Image, inside: seq<set<nat>>, store: seq<seq<array<Coef>>>)
    requires StoreOk(image, inside, store)
    reads Arrays(store)
  {
    forall c, x :: 0 <= c < |image| && x in inside[c] ==> store[c][x][..] == image[c][x]
  }

  /** From zeroed arrays, the compressor's own script through the arithmetic codec ends with the
      image. */
  method ArithImage(table: Table, order: seq<nat>, ycc: bool, image: Image, ghost inside: seq<set<nat>>,
                    store: seq<seq<array<Coef>>>, passes: seq<Pass>)
    requires image != [] && OrderOk(order) && StoreOk(image, inside, store) && ZeroedStore(store)
    requires PassesOk(order, true, SimpleScript(|image|, ycc), image, inside, passes)
    requires forall i :: 0 <= i < |passes| ==>
               A.AllDiffsOk(passes[i].scan, Mcus(SimpleScript(|image|, ycc)[i], image, passes[i].layout),
                            passes[i].restart)
    modifies Arrays(store)
    ensures Holds(image, inside, store)
  {
    hide SimpleScript, OrderOk, A.AllDiffsOk, Shown, Reached, PassOk, LastAl;
    SimpleIsLegal(|image|, ycc);
    ZeroedShowsNothing(order, image, inside, Held(store));
    ArithTransmission(table, order, |image|, true, 63, SimpleScript(|image|, ycc), image, inside, store, passes);
    SimpleScriptShowsAll(order, ycc, image, inside, Held(store));
  }

  /** Through the Huffman codec it does so unless some scan needs codes that are too long. */
  method HuffImage(order: seq<nat>, ycc: bool, image: Image, ghost inside: seq<set<nat>>,
                   store: seq<seq<array<Coef>>>, passes: seq<Pass>, tabs: Tabs, chunks: seq<seq<nat>>)
    returns (ok: bool)
    requires image != [] && OrderOk(order) && StoreOk(image, inside, store) && ZeroedStore(store) && tabs.Ok()
    requires PassesOk(order, true, SimpleScript(|image|, ycc), image, inside, passes) && |chunks| == |passes|
    requires forall i :: 0 <= i < |passes| ==> Codable(SimpleScript(|image|, ycc)[i], image, passes[i])
    modifies Arrays(store)
    ensures ok <==> forall i :: 0 <= i < |passes| ==> !TooLong(SimpleScript(|image|, ycc)[i], image, passes[i])
    ensures ok ==> Holds(image, inside, store)
  {
    hide SimpleScript, OrderOk, Codable, TooLong, Shown, Reached, PassOk, LastAl;
    SimpleIsLegal(|image|, ycc);
    ZeroedShowsNothing(order, image, inside, Held(store));
    ghost var n;
    ok, n := HuffTransmission(order, |image|, true, 63, SimpleScript(|image|, ycc), image, inside, store, passes,
      tabs, chunks);
    if ok {
      assert SimpleScript(|image|, ycc)[..n] == SimpleScript(|image|, ycc);
      SimpleScriptShowsAll(order, ycc, image, inside, Held(store));
    }
  }

  /** A script cut down for blocks of a reduced size shows their coefficients as the whole script
      would. */
  lemma ReducedScriptShows(order: seq<nat>, script: seq<ScanInfo>, lim: nat, c: int, held: seq<Coef>, b: Block, k: nat)
    requires OrderOk(order) && |held| == 64 && lim <= 63 && k <= lim
    requires Reached(order, Reduced(script, lim), c, held, b)
    ensures held[order[k]] == ValueAt(order, b, k, LastAl(script, c, k))
  {
    hide LastAl;
    ReducedAl(script, lim, c, k);
  }
}
