/** Scan scripts: which sequences of scans the compressor accepts, the scripts it makes up by
    itself, and how a script is cut down for blocks of a reduced size. */
module ScanScript {

  const MAX_COMPS_IN_SCAN := 4
  const MAX_AH_AL := 10  // for 8-bit samples

  datatype ScanInfo = ScanInfo(comps: seq<int>, ss: int, se: int, ah: int, al: int) {
    predicate Covers(c: int, k: int) { c in comps && ss <= k <= se }
  }

  datatype Verdict =
    | Accepted(progressive: bool)
    | ComponentCount(count: nat)
    | BadScanScript(scan: nat)
    | BadProgScript(scan: nat)
    | MissingData

  /** The Al of the last scan that had coefficient k of component c; -1 if none did. */
  function LastAl(script: seq<ScanInfo>, c: int, k: int): int {
    if script == [] then -1
    else
      var s := script[|script| - 1];
      if s.Covers(c, k) then s.al else LastAl(script[..|script| - 1], c, k)
  }

  // What makes a scan legal after those before it, for blocks whose last coefficient is lim.

  predicate CountOk(s: ScanInfo) {
    0 < |s.comps| <= MAX_COMPS_IN_SCAN
  }

  /** Components appear in frame order. */
  predicate IndexesOk(numComps: nat, s: ScanInfo) {
    && (forall i :: 0 <= i < |s.comps| ==> 0 <= s.comps[i] < numComps)
    && (forall i, j :: 0 <= i < j < |s.comps| ==> s.comps[i] < s.comps[j])
  }

  predicate RangesOk(s: ScanInfo, lim: nat) {
    && 0 <= s.ss <= s.se <= lim && 0 <= s.ah <= MAX_AH_AL && 0 <= s.al <= MAX_AH_AL
    && (s.ss == 0 ==> s.se == 0)
    && (s.ss != 0 ==> |s.comps| == 1)
  }

  /** AC data come after some DC data; a first scan starts at any Al, and any other one goes
      on one bit below the last. */
  predicate StepOk(before: seq<ScanInfo>, s: ScanInfo, c: int) {
    && (s.ss != 0 ==> LastAl(before, c, 0) >= 0)
    && forall k :: s.ss <= k <= s.se ==> CoefOk(LastAl(before, c, k), s)
  }

  predicate CoefOk(last: int, s: ScanInfo) {
    if last < 0 then s.ah == 0 else s.ah == last && s.al == s.ah - 1
  }

  predicate StepsOk(before: seq<ScanInfo>, s: ScanInfo) {
    forall i :: 0 <= i < |s.comps| ==> StepOk(before, s, s.comps[i])
  }

  predicate WholeBlock(s: ScanInfo, lim: nat) {
    s.ss == 0 && s.se == lim && s.ah == 0 && s.al == 0
  }

  predicate Sent(before: seq<ScanInfo>, c: int) {
    exists j :: 0 <= j < |before| && c in before[j].comps
  }

  predicate NoneSent(before: seq<ScanInfo>, s: ScanInfo) {
    forall i :: 0 <= i < |s.comps| ==> !Sent(before, s.comps[i])
  }

  predicate NextOk(numComps: nat, progressive: bool, lim: nat, before: seq<ScanInfo>, s: ScanInfo) {
    && CountOk(s) && IndexesOk(numComps, s)
    && if progressive then RangesOk(s, lim) && StepsOk(before, s) else WholeBlock(s, lim) && NoneSent(before, s)
  }

  /** Every scan is legal after those before it. */
  predicate Ordered(numComps: nat, progressive: bool, lim: nat, script: seq<ScanInfo>) {
    forall i :: 0 <= i < |script| ==> NextOk(numComps, progressive, lim, script[..i], script[i])
  }

  /** Each component got some DC data, or in sequential mode all its data. */
  predicate NothingMissing(numComps: nat, progressive: bool, script: seq<ScanInfo>) {
    forall c :: 0 <= c < numComps ==> if progressive then LastAl(script, c, 0) >= 0 else Sent(script, c)
  }

  /** The first scan tells the mode. */
  predicate IsProgressive(script: seq<ScanInfo>)
    requires script != []
  {
    script[0].ss != 0 || script[0].se != 63
  }

  predicate Legal(numComps: nat, script: seq<ScanInfo>) {
    && script != []
    && Ordered(numComps, IsProgressive(script), 63, script)
    && NothingMissing(numComps, IsProgressive(script), script)
  }

  // The validator.

  /** What is said of a scan that comes after those before it; scans are reported counting
      from 1. */
  function ScanVerdict(numComps: nat, progressive: bool, before: seq<ScanInfo>, s: ScanInfo): (r: Verdict)
    ensures !r.MissingData?
  {
    if !CountOk(s) then ComponentCount(|s.comps|)
    else if !IndexesOk(numComps, s) then BadScanScript(|before| + 1)
    else if progressive then
      if RangesOk(s, 63) && StepsOk(before, s) then Accepted(true) else BadProgScript(|before| + 1)
    else if !WholeBlock(s, 63) then BadProgScript(|before| + 1)
    else if !NoneSent(before, s) then BadScanScript(|before| + 1)
    else Accepted(false)
  }

  /** Scan i is the first that is wrong, and this is what is wrong with it. */
  predicate FaultAt(numComps: nat, script: seq<ScanInfo>, i: nat, r: Verdict) {
    && i < |script| && !r.Accepted?
    && Ordered(numComps, IsProgressive(script), 63, script[..i])
    && ScanVerdict(numComps, IsProgressive(script), script[..i], script[i]) == r
  }

  /** The array holds the last Al of every coefficient. */
  ghost predicate Tabulated(lastBitpos: array2<int>, script: seq<ScanInfo>)
    reads lastBitpos
  {
    && lastBitpos.Length1 == 64
    && forall c, k :: 0 <= c < lastBitpos.Length0 && 0 <= k < 64 ==> lastBitpos[c, k] == LastAl(script, c, k)
  }

  ghost predicate Noted(sent: array<bool>, script: seq<ScanInfo>)
    reads sent
  {
    forall c :: 0 <= c < sent.Length ==> (sent[c] <==> Sent(script, c))
  }

  /** One component of a progressive scan: its band is checked and brought up to date. */
  method CheckComponent(lastBitpos: array2<int>, s: ScanInfo, c: int, ghost before: seq<ScanInfo>) returns (ok: bool)
    requires lastBitpos.Length1 == 64 && 0 <= c < lastBitpos.Length0 && RangesOk(s, 63)
    requires forall k :: 0 <= k < 64 ==> lastBitpos[c, k] == LastAl(before, c, k)
    modifies lastBitpos
    ensures ok <==> StepOk(before, s, c)
    ensures forall d, k :: 0 <= d < lastBitpos.Length0 && 0 <= k < 64 && d != c ==>
            lastBitpos[d, k] == old(lastBitpos[d, k])
    ensures ok ==> forall k :: 0 <= k < 64 ==>
            lastBitpos[c, k] == if s.ss <= k <= s.se then s.al else LastAl(before, c, k)
  {
    hide LastAl;
    if s.ss != 0 && lastBitpos[c, 0] < 0 {
      return false;
    }
    for k := s.ss to s.se + 1
      invariant forall d, j :: 0 <= d < lastBitpos.Length0 && 0 <= j < 64 && d != c ==>
                lastBitpos[d, j] == old(lastBitpos[d, j])
      invariant forall j :: 0 <= j < 64 ==> lastBitpos[c, j] == if s.ss <= j < k then s.al else LastAl(before, c, j)
      invariant forall j :: s.ss <= j < k ==> CoefOk(LastAl(before, c, j), s)
    {
      if lastBitpos[c, k] < 0 {
        if s.ah != 0 {
          return false;
        }
      } else if s.ah != lastBitpos[c, k] || s.al != s.ah - 1 {
        return false;
      }
      lastBitpos[c, k] := s.al;
    }
    return true;
  }

  lemma NextAl(before: seq<ScanInfo>, s: ScanInfo, c: int, k: int)
    ensures LastAl(before + [s], c, k) == if s.Covers(c, k) then s.al else LastAl(before, c, k)
  {
    assert (before + [s])[..|before|] == before;
  }

  method CheckProgressive(lastBitpos: array2<int>, s: ScanInfo, ghost before: seq<ScanInfo>) returns (ok: bool)
    requires Tabulated(lastBitpos, before) && IndexesOk(lastBitpos.Length0, s)
    modifies lastBitpos
    ensures ok <==> RangesOk(s, 63) && StepsOk(before, s)
    ensures ok ==> Tabulated(lastBitpos, before + [s])
  {
    hide LastAl, StepOk;
    if s.ss < 0 || s.ss >= 64
      || s.se < s.ss || s.se >= 64 || s.ah < 0 || s.ah > MAX_AH_AL || s.al < 0 || s.al > MAX_AH_AL {
      return false;
    }
    if s.ss == 0 {
      if s.se != 0 {
        return false;
      }
    } else if |s.comps| != 1 {
      return false;
    }
    for i := 0 to |s.comps|
      invariant forall d, k :: 0 <= d < lastBitpos.Length0 && 0 <= k < 64 ==>
                  lastBitpos[d, k] == if d in s.comps[..i] && s.ss <= k <= s.se then s.al else LastAl(before, d, k)
      invariant forall j :: 0 <= j < i ==> StepOk(before, s, s.comps[j])
    {
      ok := CheckComponent(lastBitpos, s, s.comps[i], before);
      if !ok {
        return;
      }
    }
    forall c, k | 0 <= c < lastBitpos.Length0 && 0 <= k < 64
      ensures lastBitpos[c, k] == LastAl(before + [s], c, k)
    {
      NextAl(before, s, c, k);
    }
    return true;
  }

  lemma NextSent(before: seq<ScanInfo>, s: ScanInfo, c: int)
    ensures Sent(before + [s], c) <==> Sent(before, c) || c in s.comps
  {
    var now := before + [s];
    if Sent(before, c) {
      var j :| 0 <= j < |before| && c in before[j].comps;
      assert c in now[j].comps;
    }
    if c in s.comps {
      assert c in now[|before|].comps;
    }
  }

  method CheckSequential(sent: array<bool>, s: ScanInfo, ghost before: seq<ScanInfo>) returns (params: bool, once: bool)
    requires Noted(sent, before) && IndexesOk(sent.Length, s)
    modifies sent
    ensures params <==> WholeBlock(s, 63)
    ensures params ==> (once <==> NoneSent(before, s))
    ensures params && once ==> Noted(sent, before + [s])
  {
    hide Sent;
    if !WholeBlock(s, 63) {
      return false, true;
    }
    for i := 0 to |s.comps|
      invariant forall c :: 0 <= c < sent.Length ==> (sent[c] <==> Sent(before, c) || c in s.comps[..i])
      invariant forall j :: 0 <= j < i ==> !Sent(before, s.comps[j])
    {
      var c := s.comps[i];
      if sent[c] {
        return true, false;
      }
      sent[c] := true;
    }
    forall c | 0 <= c < sent.Length
      ensures sent[c] <==> Sent(before + [s], c)
    {
      NextSent(before, s, c);
    }
    return true, true;
  }

  method CheckScan(progressive: bool, lastBitpos: array2<int>, sent: array<bool>, s: ScanInfo, scanno: nat,
                   ghost before: seq<ScanInfo>) returns (r: Verdict)
    requires lastBitpos.Length0 == sent.Length && scanno == |before| + 1
    requires if progressive then Tabulated(lastBitpos, before) else Noted(sent, before)
    modifies lastBitpos, sent
    ensures r == ScanVerdict(sent.Length, progressive, before, s)
    ensures r.Accepted? ==> if progressive then Tabulated(lastBitpos, before + [s]) else Noted(sent, before + [s])
  {
    hide Tabulated, Noted, StepsOk, NoneSent;
    if |s.comps| <= 0 || |s.comps| > MAX_COMPS_IN_SCAN {
      return ComponentCount(|s.comps|);
    }
    for ci := 0 to |s.comps|
      invariant forall i :: 0 <= i < ci ==> 0 <= s.comps[i] < sent.Length
      invariant forall i, j :: 0 <= i < j < ci ==> s.comps[i] < s.comps[j]
    {
      if s.comps[ci] < 0 || s.comps[ci] >= sent.Length {
        return BadScanScript(scanno);
      }
      if ci > 0 && s.comps[ci] <= s.comps[ci - 1] {
        return BadScanScript(scanno);
      }
    }
    if progressive {
      var ok := CheckProgressive(lastBitpos, s, before);
      return if ok then Accepted(true) else BadProgScript(scanno);
    }
    var params, once := CheckSequential(sent, s, before);
    return if !params then BadProgScript(scanno) else if !once then BadScanScript(scanno) else Accepted(false);
  }

  lemma VerdictIsExact(numComps: nat, progressive: bool, before: seq<ScanInfo>, s: ScanInfo)
    ensures ScanVerdict(numComps, progressive, before, s).Accepted? <==> NextOk(numComps, progressive, 63, before, s)
    ensures ScanVerdict(numComps, progressive, before, s).Accepted? ==>
              ScanVerdict(numComps, progressive, before, s).progressive == progressive
  {
    hide StepsOk, NoneSent;
  }

  lemma OneMoreOk(numComps: nat, progressive: bool, lim: nat, script: seq<ScanInfo>, n: nat)
    requires n < |script| && Ordered(numComps, progressive, lim, script[..n])
    ensures Ordered(numComps, progressive, lim, script[..n + 1]) <==>
            NextOk(numComps, progressive, lim, script[..n], script[n])
  {
    hide NextOk;
    var now := script[..n + 1];
    assert forall i :: 0 <= i < n ==> now[..i] == script[..n][..i] && now[i] == script[..n][i];
    assert now[..n] == script[..n];
  }

  lemma {:induction false} PrefixOrdered(numComps: nat, progressive: bool, lim: nat, script: seq<ScanInfo>, n: nat)
    requires n <= |script| && Ordered(numComps, progressive, lim, script)
    ensures Ordered(numComps, progressive, lim, script[..n])
  {
    hide NextOk;
    assert forall i :: 0 <= i < n ==> script[..n][..i] == script[..i];
  }

  /** Accepts the legal scripts and no others, tells their mode, and otherwise reports the
      first scan that is wrong. */
  method ValidateScript(numComps: nat, script: seq<ScanInfo>) returns (r: Verdict)
    ensures r.Accepted? <==> Legal(numComps, script)
    ensures r.Accepted? ==> r.progressive == IsProgressive(script)
    ensures script == [] ==> r == BadScanScript(0)
    ensures script != [] && !r.Accepted? && !r.MissingData? ==> exists i :: FaultAt(numComps, script, i, r)
    ensures r.MissingData? <==> script != [] && Ordered(numComps, IsProgressive(script), 63, script) &&
                                !NothingMissing(numComps, IsProgressive(script), script)
  {
    hide Ordered, LastAl, Sent, NextOk, ScanVerdict, Tabulated, Noted;
    if script == [] {
      return BadScanScript(0);
    }
    var progressive := script[0].ss != 0 || script[0].se != 63;
    var lastBitpos := new int[numComps, 64]((_, _) => -1);
    var sent := new bool[numComps](_ => false);
    NothingYet(lastBitpos, sent, numComps, progressive);
    assert script[..0] == [];
    for i := 0 to |script|
      invariant Ordered(numComps, progressive, 63, script[..i])
      invariant if progressive then Tabulated(lastBitpos, script[..i]) else Noted(sent, script[..i])
    {
      r := CheckScan(progressive, lastBitpos, sent, script[i], i + 1, script[..i]);
      VerdictIsExact(numComps, progressive, script[..i], script[i]);
      OneMoreOk(numComps, progressive, 63, script, i);
      assert script[..i + 1] == script[..i] + [script[i]];
      if !r.Accepted? {
        assert FaultAt(numComps, script, i, r);
        NotOrdered(numComps, progressive, script, i);
        return;
      }
    }
    assert script[..|script|] == script;
    var missing := FindMissing(progressive, lastBitpos, sent, script);
    return if missing then MissingData else Accepted(progressive);
  }

  lemma NothingYet(lastBitpos: array2<int>, sent: array<bool>, numComps: nat, progressive: bool)
    requires lastBitpos.Length0 == sent.Length && lastBitpos.Length1 == 64
    requires forall c, k :: 0 <= c < lastBitpos.Length0 && 0 <= k < 64 ==> lastBitpos[c, k] == -1
    requires forall c :: 0 <= c < sent.Length ==> !sent[c]
    ensures Tabulated(lastBitpos, []) && Noted(sent, []) && Ordered(numComps, progressive, 63, [])
  {
  }

  lemma NotOrdered(numComps: nat, progressive: bool, script: seq<ScanInfo>, i: nat)
    requires i < |script| && !Ordered(numComps, progressive, 63, script[..i + 1])
    ensures !Ordered(numComps, progressive, 63, script)
  {
    hide Ordered;
    if Ordered(numComps, progressive, 63, script) {
      PrefixOrdered(numComps, progressive, 63, script, i + 1);
    }
  }

  method FindMissing(progressive: bool, lastBitpos: array2<int>, sent: array<bool>, ghost script: seq<ScanInfo>)
    returns (missing: bool)
    requires lastBitpos.Length0 == sent.Length
    requires if progressive then Tabulated(lastBitpos, script) else Noted(sent, script)
    ensures missing <==> !NothingMissing(sent.Length, progressive, script)
  {
    hide LastAl, Sent;
    for c := 0 to sent.Length
      invariant forall d :: 0 <= d < c ==> if progressive then LastAl(script, d, 0) >= 0 else Sent(script, d)
    {
      if if progressive then lastBitpos[c, 0] < 0 else !sent[c] {
        return true;
      }
    }
    return false;
  }

  // Blocks of a reduced size.

  /** The scans that have coefficients up to lim, cut off there. */
  function Reduced(script: seq<ScanInfo>, lim: nat): seq<ScanInfo> {
    if script == [] then []
    else
      var s := script[|script| - 1];
      Reduced(script[..|script| - 1], lim) +
        if s.ss > lim then [] else if s.se > lim then [s.(se := lim)] else [s]
  }

  /** In place; returns the number of scans that are left. */
  method ReduceScript(script: array<ScanInfo>, numScans: nat, lim: nat) returns (n: nat)
    requires numScans <= script.Length
    modifies script
    ensures n <= numScans && script[..n] == Reduced(old(script[..numScans]), lim)
  {
    ghost var was := script[..];
    n := 0;
    for i := 0 to numScans
      invariant n <= i && script[..n] == Reduced(was[..i], lim)
      invariant forall j :: i <= j < script.Length ==> script[j] == was[j]
    {
      ghost var before := script[..n];
      if i != n {
        script[n] := script[i];
      }
      assert was[..i + 1][..i] == was[..i] && script[..n] == before;
      if script[n].ss > lim {
        continue;
      }
      if script[n].se > lim {
        script[n] := script[n].(se := lim);
      }
      n := n + 1;
      assert script[..n] == before + [script[n - 1]];
    }
    assert was[..numScans] == old(script[..numScans]);
  }

  /** Coefficients up to lim get the same precision. */
  lemma {:induction false} ReducedAl(script: seq<ScanInfo>, lim: nat, c: int, k: int)
    requires k <= lim
    ensures LastAl(Reduced(script, lim), c, k) == LastAl(script, c, k)
  {
    if script != [] {
      var before, s := script[..|script| - 1], script[|script| - 1];
      ReducedAl(before, lim, c, k);
      NextAl(Reduced(before, lim), if s.se > lim then s.(se := lim) else s, c, k);
      assert Reduced(before, lim) + [] == Reduced(before, lim);
    }
  }

  lemma {:induction false} ReducedSent(script: seq<ScanInfo>, lim: nat, c: int)
    requires forall i :: 0 <= i < |script| ==> script[i].ss == 0
    ensures Sent(Reduced(script, lim), c) <==> Sent(script, c)
  {
    if script != [] {
      var before, s := script[..|script| - 1], script[|script| - 1];
      ReducedSent(before, lim, c);
      assert script == before + [s];
      NextSent(before, s, c);
      NextSent(Reduced(before, lim), if s.se > lim then s.(se := lim) else s, c);
    }
  }

  lemma AppendOrdered(numComps: nat, progressive: bool, lim: nat, script: seq<ScanInfo>, s: ScanInfo)
    requires Ordered(numComps, progressive, lim, script) && NextOk(numComps, progressive, lim, script, s)
    ensures Ordered(numComps, progressive, lim, script + [s])
  {
    hide NextOk;
    var now := script + [s];
    assert now[..|script|] == script;
    OneMoreOk(numComps, progressive, lim, now, |script|);
    assert now[..|script| + 1] == now;
  }

  /** A reduced script is legal for the reduced blocks if the script was legal. */
  lemma {:induction false} ReducedOrdered(numComps: nat, progressive: bool, script: seq<ScanInfo>, lim: nat)
    requires Ordered(numComps, progressive, 63, script) && lim <= 63
    ensures Ordered(numComps, progressive, lim, Reduced(script, lim))
  {
    hide Ordered;
    if script == [] {
      NoScans(numComps, progressive, lim);
    } else {
      var n := |script| - 1;
      var before, s := script[..n], script[n];
      PrefixOrdered(numComps, progressive, 63, script, n);
      ReducedOrdered(numComps, progressive, before, lim);
      assert script[..n + 1] == script;
      OneMoreOk(numComps, progressive, 63, script, n);
      if s.ss > lim {
        assert Reduced(script, lim) == Reduced(before, lim);
      } else {
        var t := if s.se > lim then s.(se := lim) else s;
        ReducedNext(numComps, progressive, before, s, lim, t);
        AppendOrdered(numComps, progressive, lim, Reduced(before, lim), t);
      }
    }
  }

  lemma NoScans(numComps: nat, progressive: bool, lim: nat)
    ensures Ordered(numComps, progressive, lim, [])
  {
  }

  lemma ReducedNext(numComps: nat, progressive: bool, before: seq<ScanInfo>, s: ScanInfo, lim: nat, t: ScanInfo)
    requires NextOk(numComps, progressive, 63, before, s) && Ordered(numComps, progressive, 63, before)
    requires s.ss <= lim <= 63 && t == if s.se > lim then s.(se := lim) else s
    ensures NextOk(numComps, progressive, lim, Reduced(before, lim), t)
  {
    hide LastAl, Sent, Reduced;
    if progressive {
      forall i | 0 <= i < |t.comps|
        ensures StepOk(Reduced(before, lim), t, t.comps[i])
      {
        ReducedAl(before, lim, t.comps[i], 0);
        forall k | t.ss <= k <= t.se
          ensures CoefOk(LastAl(Reduced(before, lim), t.comps[i], k), t)
        {
          ReducedAl(before, lim, t.comps[i], k);
        }
      }
    } else {
      forall i | 0 <= i < |t.comps|
        ensures !Sent(Reduced(before, lim), t.comps[i])
      {
        ReducedSent(before, lim, t.comps[i]);
      }
    }
  }
}
