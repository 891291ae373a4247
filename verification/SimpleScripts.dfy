/** The progressive scripts that the compressor makes up by itself: they are legal, and give
    every coefficient in full. */
module SimpleScripts {
  import opened ScanScript

  // Scripts made up by the compressor itself.

  /** One scan for each of the first n components. */
  function Fill(n: nat, ss: int, se: int, ah: int, al: int): (r: seq<ScanInfo>)
    ensures |r| == n && forall c :: 0 <= c < n ==> r[c] == ScanInfo([c], ss, se, ah, al)
  {
    seq(n, c => ScanInfo([c], ss, se, ah, al))
  }

  function AllComps(n: nat): seq<int> {
    seq(n, c => c)
  }

  function FillDc(n: nat, ah: int, al: int): seq<ScanInfo> {
    if n <= MAX_COMPS_IN_SCAN then [ScanInfo(AllComps(n), 0, 0, ah, al)] else Fill(n, 0, 0, ah, al)
  }

  /** The recommended progressive script: for YCbCr, and for everything else. */
  function SimpleScript(n: nat, ycc: bool): seq<ScanInfo> {
    if n == 3 && ycc then
      FillDc(3, 0, 1) + [ScanInfo([0], 1, 5, 0, 2), ScanInfo([2], 1, 63, 0, 1), ScanInfo([1], 1, 63, 0, 1),
      ScanInfo([0], 6, 63, 0, 2), ScanInfo([0], 1, 63, 2, 1)] + FillDc(3, 1, 0) +
      [ScanInfo([2], 1, 63, 1, 0), ScanInfo([1], 1, 63, 1, 0), ScanInfo([0], 1, 63, 1, 0)]
    else
      FillDc(n, 0, 1) + Fill(n, 1, 5, 0, 2) + Fill(n, 6, 63, 0, 2) + Fill(n, 1, 63, 2, 1) +
      FillDc(n, 1, 0) + Fill(n, 1, 63, 1, 0)
  }

  /** Fills in one scan; returns where the next one goes. */
  method FillAScan(script: array<ScanInfo>, at: nat, ci: int, ss: int, se: int, ah: int, al: int) returns (next: nat)
    requires at < script.Length
    modifies script
    ensures next == at + 1 && script[..next] == old(script[..at]) + [ScanInfo([ci], ss, se, ah, al)]
  {
    script[at] := ScanInfo([ci], ss, se, ah, al);
    return at + 1;
  }

  method FillScans(script: array<ScanInfo>, at: nat, ncomps: nat, ss: int, se: int, ah: int, al: int)
    returns (next: nat)
    requires at + ncomps <= script.Length
    modifies script
    ensures next == at + ncomps && script[..next] == old(script[..at]) + Fill(ncomps, ss, se, ah, al)
  {
    next := at;
    for ci := 0 to ncomps
      invariant next == at + ci && script[..next] == old(script[..at]) + Fill(ncomps, ss, se, ah, al)[..ci]
    {
      ghost var before := script[..next];
      script[next] := ScanInfo([ci], ss, se, ah, al);
      next := next + 1;
      assert script[..next] == before + [ScanInfo([ci], ss, se, ah, al)];
    }
  }

  method FillDcScans(script: array<ScanInfo>, at: nat, ncomps: nat, ah: int, al: int) returns (next: nat)
    requires at + |FillDc(ncomps, ah, al)| <= script.Length
    modifies script
    ensures next == at + |FillDc(ncomps, ah, al)| && script[..next] == old(script[..at]) + FillDc(ncomps, ah, al)
  {
    if ncomps <= MAX_COMPS_IN_SCAN {
      script[at] := ScanInfo(seq(ncomps, c => c), 0, 0, ah, al);
      next := at + 1;
    } else {
      next := FillScans(script, at, ncomps, 0, 0, ah, al);
    }
  }

  /** The script fills exactly the space that is set aside for it. */
  method SimpleProgression(ncomps: nat, ycc: bool) returns (script: array<ScanInfo>)
    ensures fresh(script) && script[..] == SimpleScript(ncomps, ycc)
  {
    var nscans :=
      if ncomps == 3 && ycc then 10
      else if ncomps > MAX_COMPS_IN_SCAN then 6 * ncomps
      else 2 + 4 * ncomps;
    script := new ScanInfo[nscans](_ => ScanInfo([], 0, 0, 0, 0));
    if ncomps == 3 && ycc {
      YccScript(script);
    } else {
      GeneralScript(script, ncomps);
    }
  }

  method YccScript(script: array<ScanInfo>)
    requires script.Length == 10
    modifies script
    ensures script[..] == SimpleScript(3, true)
  {
    hide FillDc;
    var p := YccFirst(script);
    p := FillDcScans(script, p, 3, 1, 0);
    p := FillAScan(script, p, 2, 1, 63, 1, 0);
    p := FillAScan(script, p, 1, 1, 63, 1, 0);
    p := FillAScan(script, p, 0, 1, 63, 1, 0);
    assert script[..] == script[..p];
  }

  method YccFirst(script: array<ScanInfo>) returns (p: nat)
    requires script.Length == 10
    modifies script
    ensures p == 6 && (forall ah, al :: |FillDc(3, ah, al)| == 1)
    ensures script[..p] == FillDc(3, 0, 1) + [ScanInfo([0], 1, 5, 0, 2), ScanInfo([2], 1, 63, 0, 1),
      ScanInfo([1], 1, 63, 0, 1), ScanInfo([0], 6, 63, 0, 2), ScanInfo([0], 1, 63, 2, 1)]
  {
    hide FillDc;
    DcScans(3);
    p := FillDcScans(script, 0, 3, 0, 1);
    assert script[..p] == FillDc(3, 0, 1);
    p := FillAScan(script, p, 0, 1, 5, 0, 2);
    p := FillAScan(script, p, 2, 1, 63, 0, 1);
    p := FillAScan(script, p, 1, 1, 63, 0, 1);
    p := FillAScan(script, p, 0, 6, 63, 0, 2);
    p := FillAScan(script, p, 0, 1, 63, 2, 1);
  }

  lemma DcScans(n: nat)
    ensures forall ah, al :: |FillDc(n, ah, al)| == if n <= MAX_COMPS_IN_SCAN then 1 else n
  {
  }

  method GeneralScript(script: array<ScanInfo>, ncomps: nat)
    requires script.Length == (if ncomps > MAX_COMPS_IN_SCAN then 6 * ncomps else 2 + 4 * ncomps)
    modifies script
    ensures script[..] == FillDc(ncomps, 0, 1) + Fill(ncomps, 1, 5, 0, 2) + Fill(ncomps, 6, 63, 0, 2) +
                          Fill(ncomps, 1, 63, 2, 1) + FillDc(ncomps, 1, 0) + Fill(ncomps, 1, 63, 1, 0)
  {
    hide Fill, FillDc;
    DcScans(ncomps);
    var p := FirstPasses(script, ncomps);
    p := FillScans(script, p, ncomps, 1, 63, 2, 1);
    p := FillDcScans(script, p, ncomps, 1, 0);
    p := FillScans(script, p, ncomps, 1, 63, 1, 0);
    assert script[..] == script[..p];
  }

  method FirstPasses(script: array<ScanInfo>, ncomps: nat) returns (p: nat)
    requires script.Length >= |FillDc(ncomps, 0, 1)| + 2 * ncomps
    modifies script
    ensures p == |FillDc(ncomps, 0, 1)| + 2 * ncomps
    ensures script[..p] == FillDc(ncomps, 0, 1) + Fill(ncomps, 1, 5, 0, 2) + Fill(ncomps, 6, 63, 0, 2)
  {
    hide Fill, FillDc;
    p := FillDcScans(script, 0, ncomps, 0, 1);
    assert script[..p] == FillDc(ncomps, 0, 1);
    p := FillScans(script, p, ncomps, 1, 5, 0, 2);
    p := FillScans(script, p, ncomps, 6, 63, 0, 2);
  }

  // Such a script is legal and complete.

  /** The precision of the DC coefficient, of AC coefficients 1 to 5 and of the others. */
  datatype Bits = Bits(dc: int, lo: int, hi: int)

  ghost predicate At(script: seq<ScanInfo>, c: int, b: Bits) {
    && LastAl(script, c, 0) == b.dc
    && (forall k :: 1 <= k <= 5 ==> LastAl(script, c, k) == b.lo)
    && forall k :: 6 <= k <= 63 ==> LastAl(script, c, k) == b.hi
  }

  ghost predicate Simple(s: ScanInfo) {
    && 0 <= s.ah <= MAX_AH_AL && 0 <= s.al <= MAX_AH_AL
    && ((s.ss == 0 && s.se == 0)
        || (|s.comps| == 1 && ((s.ss == 1 && s.se == 5) || ((s.ss == 1 || s.ss == 6) && s.se == 63))))
  }

  ghost predicate Fits(b: Bits, s: ScanInfo) {
    if s.ss == 0 then CoefOk(b.dc, s)
    else b.dc >= 0 && (s.ss == 1 ==> CoefOk(b.lo, s)) && (s.se == 63 ==> CoefOk(b.hi, s))
  }

  ghost function Then(b: Bits, s: ScanInfo): Bits {
    if s.ss == 0 then b.(dc := s.al)
    else Bits(b.dc, if s.ss == 1 then s.al else b.lo, if s.se == 63 then s.al else b.hi)
  }

  lemma OneScan(n: nat, script: seq<ScanInfo>, s: ScanInfo, b: Bits)
    requires Ordered(n, true, 63, script) && CountOk(s) && IndexesOk(n, s) && Simple(s)
    requires forall i :: 0 <= i < |s.comps| ==> At(script, s.comps[i], b)
    requires Fits(b, s)
    ensures Ordered(n, true, 63, script + [s])
    ensures forall c :: c in s.comps ==> At(script + [s], c, Then(b, s))
    ensures forall c, b' :: c !in s.comps && At(script, c, b') ==> At(script + [s], c, b')
  {
    hide Ordered, LastAl;
    forall i | 0 <= i < |s.comps|
      ensures StepOk(script, s, s.comps[i])
    {
      assert At(script, s.comps[i], b);
      assert forall k :: 1 <= k <= 63 ==> LastAl(script, s.comps[i], k) == if k <= 5 then b.lo else b.hi;
    }
    AppendOrdered(n, true, 63, script, s);
    forall c, k
      ensures LastAl(script + [s], c, k) == if s.Covers(c, k) then s.al else LastAl(script, c, k)
    {
      NextAl(script, s, c, k);
    }
  }

  ghost predicate AllAt(n: nat, script: seq<ScanInfo>, b: Bits) {
    forall c :: 0 <= c < n ==> At(script, c, b)
  }

  lemma {:induction false} FillPart(n: nat, script: seq<ScanInfo>, s: ScanInfo, b: Bits, m: nat)
    requires Ordered(n, true, 63, script) && s.comps == [0] && Simple(s) && AllAt(n, script, b) && Fits(b, s) && m <= n
    ensures var now := script + Fill(n, s.ss, s.se, s.ah, s.al)[..m];
            && Ordered(n, true, 63, now) && (forall c :: 0 <= c < m ==> At(now, c, Then(b, s)))
            && forall c :: m <= c < n ==> At(now, c, b)
  {
    hide Ordered, At;
    var all := Fill(n, s.ss, s.se, s.ah, s.al);
    if m == 0 {
      assert script + all[..0] == script;
    } else {
      FillPart(n, script, s, b, m - 1);
      OneScan(n, script + all[..m - 1], all[m - 1], b);
      assert m - 1 in all[m - 1].comps && Then(b, all[m - 1]) == Then(b, s);
      assert script + all[..m] == script + all[..m - 1] + [all[m - 1]];
    }
  }

  lemma FillStep(n: nat, script: seq<ScanInfo>, ss: int, se: int, ah: int, al: int, b: Bits)
    requires Ordered(n, true, 63, script) && AllAt(n, script, b)
    requires Simple(ScanInfo([0], ss, se, ah, al)) && Fits(b, ScanInfo([0], ss, se, ah, al))
    ensures Ordered(n, true, 63, script + Fill(n, ss, se, ah, al))
    ensures AllAt(n, script + Fill(n, ss, se, ah, al), Then(b, ScanInfo([0], ss, se, ah, al)))
  {
    hide Ordered, At;
    FillPart(n, script, ScanInfo([0], ss, se, ah, al), b, n);
    assert Fill(n, ss, se, ah, al)[..n] == Fill(n, ss, se, ah, al);
  }

  lemma FillDcStep(n: nat, script: seq<ScanInfo>, ah: int, al: int, b: Bits)
    requires n > 0 && Ordered(n, true, 63, script) && AllAt(n, script, b)
    requires Simple(ScanInfo([0], 0, 0, ah, al)) && Fits(b, ScanInfo([0], 0, 0, ah, al))
    ensures Ordered(n, true, 63, script + FillDc(n, ah, al))
    ensures AllAt(n, script + FillDc(n, ah, al), b.(dc := al))
  {
    hide Ordered, At;
    if n <= MAX_COMPS_IN_SCAN {
      OneScan(n, script, ScanInfo(AllComps(n), 0, 0, ah, al), b);
      assert forall c :: 0 <= c < n ==> AllComps(n)[c] == c && c in AllComps(n);
      assert Then(b, ScanInfo(AllComps(n), 0, 0, ah, al)) == b.(dc := al);
    } else {
      FillStep(n, script, 0, 0, ah, al, b);
    }
  }

  lemma GeneralComplete(n: nat)
    requires n > 0
    ensures var script := FillDc(n, 0, 1) + Fill(n, 1, 5, 0, 2) + Fill(n, 6, 63, 0, 2) +
                          Fill(n, 1, 63, 2, 1) + FillDc(n, 1, 0) + Fill(n, 1, 63, 1, 0);
            Ordered(n, true, 63, script) && AllAt(n, script, Bits(0, 0, 0))
  {
    hide Ordered, AllAt, Fill, FillDc;
    NoScans(n, true, 63);
    Unseen(n);
    var s0: seq<ScanInfo> := [];
    FillDcStep(n, s0, 0, 1, Bits(-1, -1, -1));
    var s1 := FillDc(n, 0, 1);
    assert s0 + s1 == s1;
    FillStep(n, s1, 1, 5, 0, 2, Bits(1, -1, -1));
    var s2 := s1 + Fill(n, 1, 5, 0, 2);
    FillStep(n, s2, 6, 63, 0, 2, Bits(1, 2, -1));
    var s3 := s2 + Fill(n, 6, 63, 0, 2);
    FillStep(n, s3, 1, 63, 2, 1, Bits(1, 2, 2));
    var s4 := s3 + Fill(n, 1, 63, 2, 1);
    FillDcStep(n, s4, 1, 0, Bits(1, 1, 1));
    var s5 := s4 + FillDc(n, 1, 0);
    FillStep(n, s5, 1, 63, 1, 0, Bits(0, 1, 1));
  }

  lemma Unseen(n: nat)
    ensures AllAt(n, [], Bits(-1, -1, -1))
  {
  }

  /** What the YCbCr script makes of the three components. */
  lemma YccStep(script: seq<ScanInfo>, s: ScanInfo, y: Bits, cb: Bits, cr: Bits)
    returns (y': Bits, cb': Bits, cr': Bits)
    requires Ordered(3, true, 63, script) && At(script, 0, y) && At(script, 1, cb) && At(script, 2, cr)
    requires |s.comps| == 1 && 0 <= s.comps[0] < 3 && Simple(s)
    requires Fits(if s.comps[0] == 0 then y else if s.comps[0] == 1 then cb else cr, s)
    ensures y' == (if s.comps[0] == 0 then Then(y, s) else y)
    ensures cb' == (if s.comps[0] == 1 then Then(cb, s) else cb)
    ensures cr' == (if s.comps[0] == 2 then Then(cr, s) else cr)
    ensures var now := script + [s];
            Ordered(3, true, 63, now) && At(now, 0, y') && At(now, 1, cb') && At(now, 2, cr')
  {
    hide Ordered, At;
    OneScan(3, script, s, if s.comps[0] == 0 then y else if s.comps[0] == 1 then cb else cr);
    y' := if s.comps[0] == 0 then Then(y, s) else y;
    cb' := if s.comps[0] == 1 then Then(cb, s) else cb;
    cr' := if s.comps[0] == 2 then Then(cr, s) else cr;
  }

  lemma YccComplete()
    ensures Ordered(3, true, 63, SimpleScript(3, true)) && AllAt(3, SimpleScript(3, true), Bits(0, 0, 0))
  {
    hide Ordered, At, FillDc;
    NoScans(3, true, 63);
    Unseen(3);
    FillDcStep(3, [], 0, 1, Bits(-1, -1, -1));
    var s := FillDc(3, 0, 1);
    assert [] + s == s;
    var y, cb, cr := Bits(1, -1, -1), Bits(1, -1, -1), Bits(1, -1, -1);
    y, cb, cr := YccStep(s, ScanInfo([0], 1, 5, 0, 2), y, cb, cr);
    s := s + [ScanInfo([0], 1, 5, 0, 2)];
    y, cb, cr := YccStep(s, ScanInfo([2], 1, 63, 0, 1), y, cb, cr);
    s := s + [ScanInfo([2], 1, 63, 0, 1)];
    y, cb, cr := YccStep(s, ScanInfo([1], 1, 63, 0, 1), y, cb, cr);
    s := s + [ScanInfo([1], 1, 63, 0, 1)];
    y, cb, cr := YccStep(s, ScanInfo([0], 6, 63, 0, 2), y, cb, cr);
    s := s + [ScanInfo([0], 6, 63, 0, 2)];
    y, cb, cr := YccStep(s, ScanInfo([0], 1, 63, 2, 1), y, cb, cr);
    s := s + [ScanInfo([0], 1, 63, 2, 1)];
    assert AllAt(3, s, Bits(1, 1, 1));
    YccEnd(s);
    assert SimpleScript(3, true) == s + FillDc(3, 1, 0) +
      [ScanInfo([2], 1, 63, 1, 0), ScanInfo([1], 1, 63, 1, 0), ScanInfo([0], 1, 63, 1, 0)];
  }

  lemma YccEnd(script: seq<ScanInfo>)
    requires Ordered(3, true, 63, script) && AllAt(3, script, Bits(1, 1, 1))
    ensures var now := script + FillDc(3, 1, 0) +
                       [ScanInfo([2], 1, 63, 1, 0), ScanInfo([1], 1, 63, 1, 0), ScanInfo([0], 1, 63, 1, 0)];
            Ordered(3, true, 63, now) && AllAt(3, now, Bits(0, 0, 0))
  {
    hide Ordered, At, FillDc;
    FillDcStep(3, script, 1, 0, Bits(1, 1, 1));
    var s := script + FillDc(3, 1, 0);
    var y, cb, cr := Bits(0, 1, 1), Bits(0, 1, 1), Bits(0, 1, 1);
    y, cb, cr := YccStep(s, ScanInfo([2], 1, 63, 1, 0), y, cb, cr);
    y, cb, cr := YccStep(s + [ScanInfo([2], 1, 63, 1, 0)], ScanInfo([1], 1, 63, 1, 0), y, cb, cr);
    y, cb, cr := YccStep(s + [ScanInfo([2], 1, 63, 1, 0)] + [ScanInfo([1], 1, 63, 1, 0)],
      ScanInfo([0], 1, 63, 1, 0), y, cb, cr);
    assert s + [ScanInfo([2], 1, 63, 1, 0), ScanInfo([1], 1, 63, 1, 0), ScanInfo([0], 1, 63, 1, 0)] ==
      s + [ScanInfo([2], 1, 63, 1, 0)] + [ScanInfo([1], 1, 63, 1, 0)] + [ScanInfo([0], 1, 63, 1, 0)];
  }

  lemma StartsWithDc(n: nat, ycc: bool)
    requires n > 0
    ensures SimpleScript(n, ycc) != [] && SimpleScript(n, ycc)[0].se == 0
  {
    var dc := FillDc(n, 0, 1);
    assert |dc| > 0 && dc[0].se == 0;
    assert dc <= SimpleScript(n, ycc);
  }

  /** For any number of components the script is one that the validator accepts, and its scans
      bring every coefficient to full precision. */
  lemma SimpleIsLegal(n: nat, ycc: bool)
    requires n > 0
    ensures Legal(n, SimpleScript(n, ycc)) && IsProgressive(SimpleScript(n, ycc))
    ensures forall c, k :: 0 <= c < n && 0 <= k < 64 ==> LastAl(SimpleScript(n, ycc), c, k) == 0
  {
    hide LastAl, Ordered;
    StartsWithDc(n, ycc);
    var script := SimpleScript(n, ycc);
    assert Ordered(n, true, 63, script) && AllAt(n, script, Bits(0, 0, 0)) by {
      if n == 3 && ycc {
        YccComplete();
      } else {
        GeneralComplete(n);
      }
    }
    hide SimpleScript;
    forall c, k | 0 <= c < n && 0 <= k < 64
      ensures LastAl(script, c, k) == 0
    {
      assert At(script, c, Bits(0, 0, 0));
    }
  }

  // DC only, one bit more with each scan.

  /** All n components in one scan at this Al, then as often as needed one bit finer. */
  function DcScript(n: nat, al: nat): (r: seq<ScanInfo>)
    ensures |r| == al + 1
  {
    [ScanInfo(AllComps(n), 0, 0, 0, al)] + seq(al, i => ScanInfo(AllComps(n), 0, 0, al - i, al - i - 1))
  }

  lemma {:induction false} DcPart(n: nat, al: nat, m: nat)
    requires 1 <= n <= 4 && m <= al <= 10
    ensures Ordered(n, true, 63, DcScript(n, al)[..m + 1])
    ensures AllAt(n, DcScript(n, al)[..m + 1], Bits(al - m, -1, -1))
  {
    hide Ordered, At;
    var script := DcScript(n, al);
    var before := Bits(if m == 0 then -1 else al - m + 1, -1, -1);
    if m == 0 {
      NoScans(n, true, 63);
      Unseen(n);
      assert script[..0] == [];
    } else {
      DcPart(n, al, m - 1);
    }
    OneScan(n, script[..m], script[m], before);
    assert Then(before, script[m]) == Bits(al - m, -1, -1);
    assert script[..m + 1] == script[..m] + [script[m]];
    forall c | 0 <= c < n
      ensures c in script[m].comps
    {
      assert AllComps(n)[c] == c;
    }
  }

  /** Up to four components fit one scan, and ten is the coarsest Al. */
  lemma DcScriptIsLegal(n: nat, al: nat)
    ensures Legal(n, DcScript(n, al)) <==> 1 <= n <= 4 && al <= 10
  {
    var script := DcScript(n, al);
    if Legal(n, script) {
      assert NextOk(n, true, 63, script[..0], script[0]);
    }
    if 1 <= n <= 4 && al <= 10 {
      DcPart(n, al, al);
      assert script[..al + 1] == script;
      hide Ordered, LastAl;
      assert NothingMissing(n, true, script) by {
        forall c | 0 <= c < n
          ensures LastAl(script, c, 0) >= 0
        {
          assert At(script, c, Bits(0, -1, -1));
        }
      }
    }
  }
}
