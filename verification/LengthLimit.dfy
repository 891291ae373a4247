/** How section K.2 of ITU-T T.81 brings code lengths down to 16: the longest codes are taken away
    two at a time, and the longest code that is at least two bits shorter is split instead. */
module LengthLimit {
  import opened Bits
  import opened CodeCounts

  /** By how much the number of codes of length l changes. */
  function Change(i: nat, j: nat, l: nat): int {
    (if l == i then -2 else 0) + (if l == i - 1 then 1 else 0) +
    (if l == j + 1 then 2 else 0) + (if l == j then -1 else 0)
  }

  /** One step. No codes are longer than i, and j is the largest length in use up to i - 2. */
  ghost predicate IsAdjustment(a: seq<int>, b: seq<int>, i: nat, j: nat) {
    && 16 < i < |a| == |b| && 1 <= j <= i - 2
    && a[i] > 0 && (forall l :: i < l < |a| ==> a[l] == 0)
    && a[j] > 0 && (forall l :: j < l <= i - 2 ==> a[l] == 0)
    && (forall l :: 0 <= l < |a| ==> b[l] == a[l] + Change(i, j, l))
  }

  ghost predicate Adjusts(a: seq<int>, b: seq<int>) {
    exists i: nat, j: nat :: IsAdjustment(a, b, i, j)
  }

  ghost predicate Follows(chain: seq<seq<int>>, k: nat)
    requires k + 1 < |chain|
  {
    Adjusts(chain[k], chain[k + 1])
  }

  /** Step after step. */
  ghost predicate Adjusted(chain: seq<seq<int>>) {
    chain != [] && forall k :: 0 <= k < |chain| - 1 ==> Follows(chain, k)
  }

  /** All lengths are at most 16. */
  ghost predicate Limited(bits: seq<int>) {
    forall l :: 16 < l < |bits| ==> bits[l] == 0
  }

  lemma OneMoreStep(chain: seq<seq<int>>, b: seq<int>, i: nat, j: nat)
    requires Adjusted(chain) && IsAdjustment(chain[|chain| - 1], b, i, j)
    ensures Adjusted(chain + [b])
  {
    var now := chain + [b];
    forall k | 0 <= k < |now| - 1
      ensures Follows(now, k)
    {
      if k < |chain| - 1 {
        assert Follows(chain, k);
        var x: nat, y: nat :| IsAdjustment(chain[k], chain[k + 1], x, y);
        assert IsAdjustment(now[k], now[k + 1], x, y);
      } else {
        assert IsAdjustment(now[k], now[k + 1], i, j);
      }
    }
  }

  lemma {:induction false} SameSize(chain: seq<seq<int>>, k: nat)
    requires Adjusted(chain) && k < |chain|
    ensures |chain[k]| == |chain[0]|
  {
    if k > 0 {
      SameSize(chain, k - 1);
      assert Follows(chain, k - 1);
    }
  }

  /** There is only one next step. */
  lemma OneWayOn(a: seq<int>, b: seq<int>, i: nat, j: nat, b': seq<int>, i': nat, j': nat)
    requires IsAdjustment(a, b, i, j) && IsAdjustment(a, b', i', j')
    ensures i == i' && j == j' && b == b'
  {
  }

  /** So the counts that the steps end with are fixed by those that they start from. */
  lemma {:induction false} OneResult(c: seq<seq<int>>, d: seq<seq<int>>, k: nat)
    requires Adjusted(c) && Adjusted(d) && c[0] == d[0] && k < |c|
    requires Limited(c[|c| - 1]) && Limited(d[|d| - 1])
    ensures k < |d| && c[k] == d[k]
  {
    if k > 0 {
      OneResult(c, d, k - 1);
      assert Follows(c, k - 1);
      var i: nat, j: nat :| IsAdjustment(c[k - 1], c[k], i, j);
      assert c[k - 1][i] != 0;
      assert !Limited(c[k - 1]);
      assert Follows(d, k - 1);
      var i': nat, j': nat :| IsAdjustment(d[k - 1], d[k], i', j');
      OneWayOn(c[k - 1], c[k], i, j, d[k], i', j');
    }
  }

  /** With 17 as the only length above 16, of 2n codes, and at least n codes of lengths m to 15, each
      step splits one of these. */
  lemma {:induction false} StepsFrom17(chain: seq<seq<int>>, n: nat, m: nat, k: nat)
    requires Adjusted(chain) && k < |chain| && |chain[0]| > 17 && 1 <= m <= 15
    requires forall c :: 0 <= c < |chain| ==> AllCounts(chain[c])
    requires chain[0][17] == 2 * n && forall l :: 17 < l < |chain[0]| ==> chain[0][l] == 0
    requires Codes(chain[0], 15) - Codes(chain[0], m - 1) >= n
    ensures |chain[k]| == |chain[0]| && chain[k][17] == 2 * n - 2 * k && chain[k][16] >= k
    ensures forall l :: 17 < l < |chain[0]| ==> chain[k][l] == 0
    ensures Codes(chain[k], 15) - Codes(chain[k], m - 1) >= n - k
    ensures forall l :: 0 <= l < m ==> chain[k][l] == chain[0][l]
  {
    hide Codes;
    if k > 0 {
      StepsFrom17(chain, n, m, k - 1);
      var a, b := chain[k - 1], chain[k];
      assert Follows(chain, k - 1);
      var i: nat, j: nat :| IsAdjustment(a, b, i, j);
      assert i == 17;
      CodesBetween(a, m, j);
      Changed(a, b, j, m - 1);
      Changed(a, b, j, 15);
    }
  }

  ghost predicate AllCounts(bits: seq<int>) {
    forall l :: 0 <= l < |bits| ==> bits[l] >= 0
  }

  /** If no length above j, up to 15, is in use, but codes of lengths m to 15 exist, j is one of them. */
  lemma CodesBetween(a: seq<int>, m: nat, j: nat)
    requires |a| > 17 && 1 <= m <= 15 && 1 <= j <= 15 && forall l :: j < l <= 15 ==> a[l] == 0
    requires Codes(a, 15) > Codes(a, m - 1)
    ensures j >= m
  {
    if j < m {
      NoneAbove(a, m - 1, 15);
      assert false;
    }
  }

  lemma {:induction false} NoneAbove(a: seq<int>, j: nat, l: nat)
    requires j <= l < |a| && forall k :: j < k <= l ==> a[k] == 0
    ensures Codes(a, l) == Codes(a, j)
  {
    if j < l {
      NoneAbove(a, j, l - 1);
    }
  }

  /** What a step at length 17 does to the number of codes of lengths up to l. */
  lemma {:induction false} Changed(a: seq<int>, b: seq<int>, j: nat, l: nat)
    requires IsAdjustment(a, b, 17, j) && l <= 15
    ensures Codes(b, l) == Codes(a, l) + if l < j then 0 else if l == j then -1 else 1
  {
    if l > 0 {
      Changed(a, b, j, l - 1);
    }
  }

  /** So when the steps are over, the shorter codes are as they were. */
  lemma ShorterKept(chain: seq<seq<int>>, n: nat, m: nat)
    requires Adjusted(chain) && |chain[0]| > 17 && 1 <= m <= 15 && Limited(chain[|chain| - 1])
    requires forall c :: 0 <= c < |chain| ==> AllCounts(chain[c])
    requires chain[0][17] == 2 * n && forall l :: 17 < l < |chain[0]| ==> chain[0][l] == 0
    requires Codes(chain[0], 15) - Codes(chain[0], m - 1) >= n
    ensures |chain| == n + 1 && |chain[n]| == |chain[0]| && chain[n][16] >= n
    ensures forall l :: 0 <= l < m ==> chain[n][l] == chain[0][l]
  {
    hide Codes;
    StepsFrom17(chain, n, m, |chain| - 1);
  }
}
