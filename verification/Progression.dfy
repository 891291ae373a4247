/** What a legal scan script gives the decoder, scan by scan: after any number of scans every
    coefficient is known at the precision of the last scan that had it. */
module Progression {
  import opened Bits
  import opened Scans
  import opened Precision
  import opened ScanScript

  /** The coding routine that the scan parameters select. */
  function KindOf(progressive: bool, s: ScanInfo): Kind {
    if !progressive then Sequential
    else if s.ah == 0 then if s.ss == 0 then DcFirst else AcFirst
    else if s.ss == 0 then DcRefine else AcRefine
  }

  /** The parameters of the script and any tables. */
  predicate Realizes(scan: Scan, order: seq<nat>, progressive: bool, s: ScanInfo) {
    && scan.Ok() && scan.order == order && scan.NumComps() == |s.comps|
    && scan.kind == KindOf(progressive, s)
    && scan.ss == s.ss && scan.se == s.se && scan.al == s.al
  }

  /** Every legal scan can be coded: these are its parameters, with one table for all components. */
  lemma ScansExist(order: seq<nat>, numComps: nat, progressive: bool, lim: nat, before: seq<ScanInfo>, s: ScanInfo)
    returns (scan: Scan)
    requires OrderOk(order) && lim <= 63 && NextOk(numComps, progressive, lim, before, s)
    ensures Realizes(scan, order, progressive, s)
  {
    var tables: seq<nat>, areas: seq<nat> := seq(|s.comps|, _ => 0), seq(16, _ => 0);
    scan := Scan(KindOf(progressive, s), order, s.ss, s.se, s.al, tables, tables, areas, areas, areas);
  }

  /** Coefficient k of block b known down to bit al: DC is rounded down, AC toward zero. */
  function ValueAt(order: seq<nat>, b: Block, k: nat, al: int): int
    requires OrderOk(order) && k < 64
  {
    if al < 0 then 0 else if k == 0 then DcAt(b, al) else AcAt(b[order[k]], al)
  }

  /** The block held for b is what the scans so far tell of it. */
  ghost predicate Reached(order: seq<nat>, script: seq<ScanInfo>, c: int, held: seq<Coef>, b: Block)
    requires OrderOk(order) && |held| == 64
  {
    forall k :: 0 <= k < 64 ==> held[order[k]] == ValueAt(order, b, k, LastAl(script, c, k))
  }

  lemma NothingReached(order: seq<nat>, c: int, held: seq<Coef>, b: Block)
    requires OrderOk(order) && |held| == 64 && forall i :: 0 <= i < 64 ==> held[i] == 0
    ensures Reached(order, [], c, held, b)
  {
  }

  /** At full precision the block is b. */
  lemma FullPrecision(order: seq<nat>, script: seq<ScanInfo>, c: int, held: seq<Coef>, b: Block, k: nat)
    requires OrderOk(order) && |held| == 64 && Reached(order, script, c, held, b)
    requires k < 64 && LastAl(script, c, k) == 0
    ensures held[order[k]] == b[order[k]]
  {
    assert Pow2(0) == 1;
  }

  /** A component that was not sent has no precision yet. */
  lemma {:induction false} NotSent(script: seq<ScanInfo>, c: int, k: int)
    requires !Sent(script, c)
    ensures LastAl(script, c, k) == -1
  {
    if script != [] {
      var n := |script| - 1;
      assert script == script[..n] + [script[n]];
      NextSent(script[..n], script[n], c);
      NotSent(script[..n], c, k);
    }
  }

  /** In a band of a legal scan either nothing is known yet, or all of it down to bit al + 1. */
  lemma BandState(numComps: nat, progressive: bool, lim: nat, before: seq<ScanInfo>, s: ScanInfo, c: int, k: nat)
    requires NextOk(numComps, progressive, lim, before, s) && c in s.comps && s.ss <= k <= s.se
    ensures !progressive || s.ah == 0 ==> LastAl(before, c, k) < 0
    ensures progressive && s.ah != 0 ==> LastAl(before, c, k) == s.al + 1
  {
    hide LastAl, Sent;
    var i :| 0 <= i < |s.comps| && s.comps[i] == c;
    if progressive {
      assert StepOk(before, s, s.comps[i]);
    } else {
      NotSent(before, c, k);
    }
  }

  /** A legal scan finds the block as it needs it, and brings its band to its precision. */
  lemma ScanReaches(order: seq<nat>, numComps: nat, progressive: bool, lim: nat, before: seq<ScanInfo>, s: ScanInfo,
                    scan: Scan, c: int, held: seq<Coef>, b: Block)
    requires NextOk(numComps, progressive, lim, before, s) && lim <= 63 && c in s.comps && OrderOk(order)
    requires Realizes(scan, order, progressive, s) && |held| == 64 && Reached(order, before, c, held, b)
    ensures Prior(scan, held, b) && Reached(order, before + [s], c, Decoded(scan, held, b), b)
  {
    hide LastAl, Decoded, NextOk, AcAt, DcAt, Placed;
    forall k | scan.ss <= k <= scan.se
      ensures held[order[k]] == ValueAt(order, b, k, if !progressive || s.ah == 0 then -1 else s.al + 1)
    {
      BandState(numComps, progressive, lim, before, s, c, k);
    }
    forall k | 0 <= k < 64
      ensures LastAl(before + [s], c, k) == if s.ss <= k <= s.se then s.al else LastAl(before, c, k)
    {
      NextAl(before, s, c, k);
    }
    forall k | 0 <= k < 64
      ensures Decoded(scan, held, b)[order[k]] == if s.ss <= k <= s.se
              then ValueAt(order, b, k, s.al) else held[order[k]]
    {
      BandDecoded(scan, held, b, k);
    }
    PriorHolds(scan, held, b);
  }

  lemma PriorHolds(scan: Scan, held: seq<Coef>, b: Block)
    requires scan.Ok() && |held| == 64
    requires forall k :: scan.ss <= k <= scan.se ==>
      held[scan.order[k]] == ValueAt(scan.order, b, k,
                                     if scan.kind.DcRefine? || scan.kind.AcRefine? then scan.al + 1 else -1)
    ensures Prior(scan, held, b)
  {
  }

  lemma BandDecoded(scan: Scan, held: seq<Coef>, b: Block, k: nat)
    requires scan.Ok() && |held| == 64 && k < 64
    requires forall k :: scan.ss <= k <= scan.se ==>
      held[scan.order[k]] == ValueAt(scan.order, b, k,
                                     if scan.kind.DcRefine? || scan.kind.AcRefine? then scan.al + 1 else -1)
    ensures Decoded(scan, held, b)[scan.order[k]] ==
            if scan.ss <= k <= scan.se then ValueAt(scan.order, b, k, scan.al) else held[scan.order[k]]
  {
    hide Decoded, AcAt, Placed;
    assert k > 0 ==> scan.order[k] != 0;
    match scan.kind
    case Sequential =>
      SequentialScan(scan, held, b);
      ExactAtZero(b, b[scan.order[k]]);
    case DcFirst =>
      DcFirstScan(scan, held, b);
    case DcRefine =>
      DcRefinementScan(scan, held, b);
    case AcFirst =>
      FirstScan(scan, held, b);
    case AcRefine =>
      RefinementScan(scan, held, b);
  }

  lemma ExactAtZero(b: Block, x: Coef)
    ensures DcAt(b, 0) == b[0] && AcAt(x, 0) == x
  {
    assert Pow2(0) == 1;
  }

  // The zigzag order reaches every place of the block.

  function Places(order: seq<nat>, n: nat): (places: set<nat>)
    requires OrderOk(order) && n <= 64
    ensures |places| == n
    ensures forall p :: p in places <==> exists k :: 0 <= k < n && order[k] == p
  {
    if n == 0 then {} else Places(order, n - 1) + {order[n - 1]}
  }

  lemma {:induction false} UpTo(n: nat, s: set<nat>)
    requires forall p :: p in s ==> p < n
    ensures |s| <= n
  {
    if n != 0 {
      UpTo(n - 1, s - {n - 1});
    }
  }

  lemma OrderOnto(order: seq<nat>, i: nat) returns (k: nat)
    requires OrderOk(order) && i < 64
    ensures k < 64 && order[k] == i
  {
    var places := Places(order, 64);
    if i !in places {
      UpTo(64, places + {i});
      assert false;
    }
    k :| 0 <= k < 64 && order[k] == i;
  }
}
