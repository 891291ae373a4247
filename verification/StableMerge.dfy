/** Bottom-up merge sort on sequences: merging sorted runs keeps the order of equal elements,
    and doubling the runs sorts the whole. */
module StableMerge {

  /** The comparison is a total preorder. */
  ghost predicate Preorder<T(!new)>(cmp: (T, T) -> int) {
    && (forall a, b :: cmp(a, b) <= 0 || cmp(b, a) <= 0)
    && (forall a, b, c :: cmp(a, b) <= 0 && cmp(b, c) <= 0 ==> cmp(a, c) <= 0)
  }

  ghost predicate Sorted<T>(cmp: (T, T) -> int, s: seq<T>) {
    forall i, j :: 0 <= i < j < |s| ==> cmp(s[i], s[j]) <= 0
  }

  /** The elements that compare equal to v, in their order. */
  function Equals<T>(cmp: (T, T) -> int, s: seq<T>, v: T): seq<T> {
    if s == [] then []
    else (if cmp(s[0], v) <= 0 && cmp(v, s[0]) <= 0 then [s[0]] else []) + Equals(cmp, s[1..], v)
  }

  /** s is t sorted, with equal elements in the order they have in t. */
  ghost predicate StablySorted<T(!new)>(cmp: (T, T) -> int, s: seq<T>, t: seq<T>) {
    && multiset(s) == multiset(t) && Sorted(cmp, s)
    && forall v :: Equals(cmp, s, v) == Equals(cmp, t, v)
  }

  lemma {:induction false} EqualsConcat<T>(cmp: (T, T) -> int, a: seq<T>, b: seq<T>, v: T)
    ensures Equals(cmp, a + b, v) == Equals(cmp, a, v) + Equals(cmp, b, v)
  {
    if a == [] {
      assert a + b == b;
    } else {
      assert (a + b)[1..] == a[1..] + b;
      EqualsConcat(cmp, a[1..], b, v);
    }
  }

  /** Two elements that are equal to v, and their order. */
  lemma {:induction false} InOrder<T>(cmp: (T, T) -> int, s: seq<T>, p: nat, q: nat, v: T) returns (x: nat, y: nat)
    requires p < q < |s| && cmp(s[p], v) <= 0 && cmp(v, s[p]) <= 0 && cmp(s[q], v) <= 0 && cmp(v, s[q]) <= 0
    ensures x < y < |Equals(cmp, s, v)| && Equals(cmp, s, v)[x] == s[p] && Equals(cmp, s, v)[y] == s[q]
  {
    if p > 0 {
      x, y := InOrder(cmp, s[1..], p - 1, q - 1, v);
      if cmp(s[0], v) <= 0 && cmp(v, s[0]) <= 0 {
        x, y := x + 1, y + 1;
      }
    } else {
      y := IsThere(cmp, s[1..], q - 1, v);
      x, y := 0, y + 1;
    }
  }

  lemma {:induction false} IsThere<T>(cmp: (T, T) -> int, s: seq<T>, q: nat, v: T) returns (y: nat)
    requires q < |s| && cmp(s[q], v) <= 0 && cmp(v, s[q]) <= 0
    ensures y < |Equals(cmp, s, v)| && Equals(cmp, s, v)[y] == s[q]
  {
    if q == 0 {
      y := 0;
    } else {
      y := IsThere(cmp, s[1..], q - 1, v);
      if cmp(s[0], v) <= 0 && cmp(v, s[0]) <= 0 {
        y := y + 1;
      }
    }
  }

  predicate NoneTwice<T(==)>(s: seq<T>) {
    forall i, j :: 0 <= i < j < |s| ==> s[i] != s[j]
  }

  lemma {:induction false} EqualsOnce<T>(cmp: (T, T) -> int, s: seq<T>, v: T)
    requires NoneTwice(s)
    ensures NoneTwice(Equals(cmp, s, v)) && forall x :: x in Equals(cmp, s, v) ==> x in s
  {
    if s != [] {
      EqualsOnce(cmp, s[1..], v);
      assert s[0] !in s[1..];
    }
  }

  /** In the sorted list an element comes before all those after it in the old one that it may come
      before, equal ones included. */
  lemma OrderKept<T(!new)>(cmp: (T, T) -> int, s: seq<T>, t: seq<T>, i: nat, j: nat) returns (p: nat, q: nat)
    requires Preorder(cmp) && StablySorted(cmp, s, t) && NoneTwice(t) && i < j < |t| && cmp(t[i], t[j]) <= 0
    ensures p < q < |s| && s[p] == t[i] && s[q] == t[j]
  {
    assert t[i] in multiset(s) && t[j] in multiset(s);
    p :| 0 <= p < |s| && s[p] == t[i];
    q :| 0 <= q < |s| && s[q] == t[j];
    if q < p {
      var x, y := InOrder(cmp, t, i, j, t[i]);
      var a, b := InOrder(cmp, s, q, p, t[i]);
      EqualsOnce(cmp, t, t[i]);
      assert false;
    }
  }

  lemma {:induction false} NoneEqual<T>(cmp: (T, T) -> int, s: seq<T>, v: T)
    requires forall i :: 0 <= i < |s| ==> cmp(s[i], v) > 0
    ensures Equals(cmp, s, v) == []
  {
    if s != [] {
      NoneEqual(cmp, s[1..], v);
    }
  }

  /** Equal elements are taken from the first run first. */
  function Merge<T>(cmp: (T, T) -> int, a: seq<T>, b: seq<T>): seq<T>
    decreases |a| + |b|
  {
    if a == [] then b
    else if b == [] then a
    else if cmp(a[0], b[0]) <= 0 then [a[0]] + Merge(cmp, a[1..], b)
    else [b[0]] + Merge(cmp, a, b[1..])
  }

  lemma {:induction false} MergeElements<T>(cmp: (T, T) -> int, a: seq<T>, b: seq<T>)
    ensures multiset(Merge(cmp, a, b)) == multiset(a) + multiset(b)
    ensures |Merge(cmp, a, b)| == |a| + |b|
    decreases |a| + |b|
  {
    if a != [] && b != [] {
      assert a == [a[0]] + a[1..] && b == [b[0]] + b[1..];
      if cmp(a[0], b[0]) <= 0 {
        MergeElements(cmp, a[1..], b);
      } else {
        MergeElements(cmp, a, b[1..]);
      }
    }
  }

  /** The head of one run comes before all that follows. */
  lemma HeadIsLeast<T(!new)>(cmp: (T, T) -> int, a: seq<T>, b: seq<T>)
    requires Preorder(cmp) && Sorted(cmp, a) && Sorted(cmp, b) && a != []
    requires b != [] ==> cmp(a[0], b[0]) <= 0
    ensures forall y :: y in multiset(a[1..]) + multiset(b) ==> cmp(a[0], y) <= 0
    ensures Sorted(cmp, a[1..])
  {
    forall y | y in multiset(a[1..]) + multiset(b)
      ensures cmp(a[0], y) <= 0
    {
      if y in a[1..] {
        var i :| 0 <= i < |a| - 1 && a[1..][i] == y;
      } else {
        var i :| 0 <= i < |b| && b[i] == y;
        assert cmp(a[0], b[0]) <= 0 && (i > 0 ==> cmp(b[0], b[i]) <= 0);
      }
    }
  }

  lemma FrontSorted<T>(cmp: (T, T) -> int, x: T, s: seq<T>)
    requires Sorted(cmp, s) && forall y :: y in multiset(s) ==> cmp(x, y) <= 0
    ensures Sorted(cmp, [x] + s)
  {
    forall i, j | 0 <= i < j < |s| + 1
      ensures cmp(([x] + s)[i], ([x] + s)[j]) <= 0
    {
      assert s[j - 1] in multiset(s);
    }
  }

  lemma {:induction false} MergeSorts<T(!new)>(cmp: (T, T) -> int, a: seq<T>, b: seq<T>)
    requires Preorder(cmp) && Sorted(cmp, a) && Sorted(cmp, b)
    ensures Sorted(cmp, Merge(cmp, a, b))
    decreases |a| + |b|
  {
    if a != [] && b != [] {
      hide Sorted;
      if cmp(a[0], b[0]) <= 0 {
        HeadIsLeast(cmp, a, b);
        MergeSorts(cmp, a[1..], b);
        MergeElements(cmp, a[1..], b);
        FrontSorted(cmp, a[0], Merge(cmp, a[1..], b));
      } else {
        HeadIsLeast(cmp, b, a);
        MergeSorts(cmp, a, b[1..]);
        MergeElements(cmp, a, b[1..]);
        FrontSorted(cmp, b[0], Merge(cmp, a, b[1..]));
      }
    }
  }

  lemma TailSorted<T>(cmp: (T, T) -> int, s: seq<T>)
    requires Sorted(cmp, s) && s != []
    ensures Sorted(cmp, s[1..])
  {
  }

  lemma AllGreater<T(!new)>(cmp: (T, T) -> int, a: seq<T>, x: T, v: T)
    requires Preorder(cmp) && Sorted(cmp, a) && a != [] && cmp(a[0], x) > 0 && cmp(x, v) <= 0 && cmp(v, x) <= 0
    ensures forall i :: 0 <= i < |a| ==> cmp(a[i], v) > 0
  {
    forall i | 0 <= i < |a|
      ensures cmp(a[i], v) > 0
    {
      assert i > 0 ==> cmp(a[0], a[i]) <= 0;
      assert cmp(v, x) <= 0 && cmp(x, v) <= 0;
    }
  }

  predicate Same<T>(cmp: (T, T) -> int, x: T, v: T) {
    cmp(x, v) <= 0 && cmp(v, x) <= 0
  }

  lemma EqualsFront<T>(cmp: (T, T) -> int, x: T, s: seq<T>, v: T)
    ensures Equals(cmp, [x] + s, v) == (if Same(cmp, x, v) then [x] else []) + Equals(cmp, s, v)
  {
    assert ([x] + s)[1..] == s;
  }

  lemma {:induction false} MergeKeepsOrder<T(!new)>(cmp: (T, T) -> int, a: seq<T>, b: seq<T>, v: T)
    requires Preorder(cmp) && Sorted(cmp, a) && Sorted(cmp, b)
    ensures Equals(cmp, Merge(cmp, a, b), v) == Equals(cmp, a, v) + Equals(cmp, b, v)
    decreases |a| + |b|
  {
    if a == [] || b == [] {
      assert Equals(cmp, [], v) == [];
    } else {
      hide Preorder, Sorted, Equals;
      TailSorted(cmp, a);
      TailSorted(cmp, b);
      var a', b' := a[1..], b[1..];
      assert a == [a[0]] + a' && b == [b[0]] + b';
      EqualsFront(cmp, a[0], a', v);
      EqualsFront(cmp, b[0], b', v);
      if cmp(a[0], b[0]) <= 0 {
        MergeKeepsOrder(cmp, a', b, v);
        EqualsFront(cmp, a[0], Merge(cmp, a', b), v);
      } else {
        MergeKeepsOrder(cmp, a, b', v);
        EqualsFront(cmp, b[0], Merge(cmp, a, b'), v);
        if Same(cmp, b[0], v) {
          AllGreater(cmp, a, b[0], v);
          NoneEqual(cmp, a, v);
        }
      }
    }
  }

  /** Two runs that are each stably sorted, merged. */
  lemma MergedRuns<T(!new)>(cmp: (T, T) -> int, a: seq<T>, b: seq<T>, s: seq<T>, t: seq<T>)
    requires Preorder(cmp) && StablySorted(cmp, a, s) && StablySorted(cmp, b, t)
    ensures StablySorted(cmp, Merge(cmp, a, b), s + t)
  {
    hide Preorder, Sorted, Merge, Equals;
    MergeElements(cmp, a, b);
    MergeSorts(cmp, a, b);
    forall v
      ensures Equals(cmp, Merge(cmp, a, b), v) == Equals(cmp, s + t, v)
    {
      MergeKeepsOrder(cmp, a, b, v);
      EqualsConcat(cmp, s, t, v);
    }
  }

  function Min(a: nat, b: nat): nat { if a <= b then a else b }

  /** Runs of the given size, the last one possibly shorter, are each stably sorted. */
  ghost predicate Runs<T(!new)>(cmp: (T, T) -> int, s: seq<T>, t: seq<T>, size: nat)
    requires size > 0
    decreases |s|
  {
    |s| == |t| &&
    if |s| <= size then StablySorted(cmp, s, t)
    else StablySorted(cmp, s[..size], t[..size]) && Runs(cmp, s[size..], t[size..], size)
  }

  /** One pass merges the runs in pairs. */
  function Pass<T>(cmp: (T, T) -> int, s: seq<T>, size: nat): seq<T>
    requires size > 0
    decreases |s|
  {
    if s == [] then []
    else
      var m, e := Min(size, |s|), Min(2 * size, |s|);
      Merge(cmp, s[..m], s[m..e]) + Pass(cmp, s[e..], size)
  }

  lemma {:induction false} PassElements<T>(cmp: (T, T) -> int, s: seq<T>, size: nat)
    requires size > 0
    ensures multiset(Pass(cmp, s, size)) == multiset(s) && |Pass(cmp, s, size)| == |s|
    decreases |s|
  {
    if s != [] {
      var m, e := Min(size, |s|), Min(2 * size, |s|);
      PassElements(cmp, s[e..], size);
      hide Pass;
      MergeElements(cmp, s[..m], s[m..e]);
      hide Merge;
      UnfoldPass(cmp, s, size);
      InThree(s, m, e);
    }
  }

  lemma UnfoldPass<T>(cmp: (T, T) -> int, s: seq<T>, size: nat)
    requires size > 0 && s != []
    ensures var m, e := Min(size, |s|), Min(2 * size, |s|);
            Pass(cmp, s, size) == Merge(cmp, s[..m], s[m..e]) + Pass(cmp, s[e..], size)
  {
  }

  lemma InThree<T>(s: seq<T>, m: nat, e: nat)
    requires m <= e <= |s|
    ensures multiset(s) == multiset(s[..m]) + multiset(s[m..e]) + multiset(s[e..])
  {
    assert s == s[..m] + s[m..e] + s[e..];
  }

  /** Which doubles the size of the runs. */
  lemma {:induction false} PassDoubles<T(!new)>(cmp: (T, T) -> int, s: seq<T>, t: seq<T>, size: nat)
    requires size > 0 && Preorder(cmp) && Runs(cmp, s, t, size)
    ensures Runs(cmp, Pass(cmp, s, size), t, 2 * size)
    decreases |s|
  {
    hide Preorder, Merge, StablySorted;
    if s != [] {
      var m, e := Min(size, |s|), Min(2 * size, |s|);
      assert s[..m][..m] == s[..m];
      RunsSplit(cmp, s, t, size);
      MergedRuns(cmp, s[..m], s[m..e], t[..m], t[m..e]);
      assert t[..m] + t[m..e] == t[..e];
      MergeElements(cmp, s[..m], s[m..e]);
      PassElements(cmp, s[e..], size);
      PassDoubles(cmp, s[e..], t[e..], size);
      var head, rest := Merge(cmp, s[..m], s[m..e]), Pass(cmp, s[e..], size);
      assert |head| == e && (head + rest)[..e] == head && (head + rest)[e..] == rest;
      if |s| <= 2 * size {
        assert rest == [] && head + rest == head && t[..e] == t;
      }
    } else {
      NothingSorted(cmp, s, t);
    }
  }

  lemma NothingSorted<T(!new)>(cmp: (T, T) -> int, s: seq<T>, t: seq<T>)
    requires |s| == |t| == 0
    ensures StablySorted(cmp, s, t)
  {
  }

  /** The first two runs and the others. */
  lemma RunsSplit<T(!new)>(cmp: (T, T) -> int, s: seq<T>, t: seq<T>, size: nat)
    requires size > 0 && Runs(cmp, s, t, size) && s != []
    ensures var m, e := Min(size, |s|), Min(2 * size, |s|);
            && StablySorted(cmp, s[..m], t[..m]) && StablySorted(cmp, s[m..e], t[m..e])
            && Runs(cmp, s[e..], t[e..], size)
  {
    hide StablySorted;
    var m, e := Min(size, |s|), Min(2 * size, |s|);
    NothingSorted(cmp, s[|s|..], t[|s|..]);
    if |s| <= size {
      assert s[..m] == s && t[..m] == t;
    } else {
      var s1, t1 := s[size..], t[size..];
      assert Runs(cmp, s1, t1, size);
      if |s1| <= size {
        assert s[m..e] == s1 && t[m..e] == t1;
      } else {
        assert s[m..e] == s1[..size] && t[m..e] == t1[..size];
        assert s[e..] == s1[size..] && t[e..] == t1[size..];
      }
    }
  }

  /** To begin with, every element is a run. */
  lemma {:induction false} SingleRuns<T(!new)>(cmp: (T, T) -> int, s: seq<T>)
    ensures Runs(cmp, s, s, 1)
  {
    if |s| > 1 {
      SingleRuns(cmp, s[1..]);
    }
  }
}
