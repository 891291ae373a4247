/** The counts that define a Huffman table: bits[l] codes have length l, for l from 1 on. */
module CodeCounts {
  import opened Bits

  /** How much of the 2^l codes of length l the codes of at most that length take up. */
  function Space(bits: seq<int>, l: nat): int
    requires l < |bits|
  {
    if l == 0 then 0 else 2 * Space(bits, l - 1) + bits[l]
  }

  function Codes(bits: seq<int>, l: nat): int
    requires l < |bits|
  {
    if l == 0 then 0 else Codes(bits, l - 1) + bits[l]
  }

  lemma {:induction false} Bump(bits: seq<int>, k: nat, d: int, l: nat)
    requires 1 <= k < |bits| && l < |bits|
    ensures Space(bits[k := bits[k] + d], l) == Space(bits, l) + if k <= l then d * Pow2(l - k) else 0
    ensures Codes(bits[k := bits[k] + d], l) == Codes(bits, l) + if k <= l then d else 0
  {
    if l != 0 {
      Bump(bits, k, d, l - 1);
      if k < l {
        assert d * Pow2(l - k) == 2 * (d * Pow2(l - 1 - k));
      }
    }
  }

  lemma {:induction false} OneOfCodes(bits: seq<int>, k: nat, l: nat)
    requires 1 <= k <= l < |bits| && forall i :: 0 <= i < |bits| ==> bits[i] >= 0
    ensures 0 <= bits[k] <= Codes(bits, l)
    ensures k < l ==> bits[k] + bits[l] <= Codes(bits, l)
  {
    if k < l {
      OneOfCodes(bits, k, l - 1);
    } else if l > 1 {
      OneOfCodes(bits, l - 1, l - 1);
    }
  }

  lemma {:induction false} NoCodes(bits: seq<int>, l: nat)
    requires l < |bits| && forall i :: 1 <= i <= l ==> bits[i] == 0
    ensures Space(bits, l) == 0 && Codes(bits, l) == 0
  {
    if l != 0 {
      NoCodes(bits, l - 1);
    }
  }

  lemma {:induction false} SomeCode(bits: seq<int>, l: nat) returns (k: nat)
    requires l < |bits| && Codes(bits, l) > 0 && forall i :: 0 <= i < |bits| ==> bits[i] >= 0
    ensures 1 <= k <= l && bits[k] > 0
  {
    if bits[l] > 0 {
      k := l;
    } else {
      k := SomeCode(bits, l - 1);
    }
  }

  lemma {:induction false} NothingLonger(bits: seq<int>, k: nat, l: nat)
    requires k <= l < |bits| && forall i :: k < i <= l ==> bits[i] == 0
    ensures Codes(bits, l) == Codes(bits, k)
  {
    if k < l {
      NothingLonger(bits, k, l - 1);
    }
  }

  lemma {:induction false} Prefix(bits: seq<int>, m: nat, l: nat)
    requires l < m <= |bits|
    ensures Space(bits[..m], l) == Space(bits, l) && Codes(bits[..m], l) == Codes(bits, l)
  {
    if l != 0 {
      Prefix(bits, m, l - 1);
    }
  }
}
