/** DL_SORT of utlist.h: the doubly linked list is sorted in place by relinking its nodes. */
module UtListSort {
  import opened Bits
  import opened StableMerge

  class Node<T> {
    const value: T
    var next: Node?<T>
    var prev: Node?<T>

    constructor (value: T)
      ensures this.value == value && next == null && prev == null
    {
      this.value := value;
      next, prev := null, null;
    }
  }

  ghost function Values<T>(nodes: seq<Node<T>>): (values: seq<T>)
    ensures |values| == |nodes| && forall i :: 0 <= i < |nodes| ==> values[i] == nodes[i].value
  {
    seq(|nodes|, i requires 0 <= i < |nodes| => nodes[i].value)
  }

  ghost predicate Distinct<T>(nodes: seq<Node<T>>) {
    forall i, j :: 0 <= i < j < |nodes| ==> nodes[i] != nodes[j]
  }

  ghost function At<T>(nodes: seq<Node<T>>, i: nat): Node?<T> {
    if i < |nodes| then nodes[i] else null
  }

  /** The nodes from i to j - 1 are linked forward. */
  ghost predicate Forward<T>(nodes: seq<Node<T>>, i: nat, j: nat)
    requires j <= |nodes|
    reads nodes
  {
    forall k :: i <= k < j ==> nodes[k].next == At(nodes, k + 1)
  }

  ghost predicate IsList<T>(head: Node?<T>, nodes: seq<Node<T>>)
    reads nodes
  {
    Distinct(nodes) && head == At(nodes, 0) && Forward(nodes, 0, |nodes|)
  }

  /** A list under construction: the link forward from its tail does not matter yet. */
  ghost predicate Chain<T>(head: Node?<T>, tail: Node?<T>, out: seq<Node<T>>)
    reads out
  {
    if out == [] then head == null && tail == null
    else
      && head == out[0] && tail == out[|out| - 1] && out[0].prev == null
      && (forall k :: 0 <= k < |out| - 1 ==> out[k].next == At(out, k + 1))
      && (forall k :: 1 <= k < |out| ==> out[k].prev == out[k - 1])
  }

  /** A doubly linked list: the head points back to the tail. */
  ghost predicate IsDlist<T>(head: Node?<T>, nodes: seq<Node<T>>)
    reads nodes
  {
    && IsList(head, nodes)
    && (nodes != [] ==> nodes[0].prev == nodes[|nodes| - 1])
    && (forall k :: 1 <= k < |nodes| ==> nodes[k].prev == nodes[k - 1])
  }

  /** Link node e to the end of the chain. */
  method Link<T>(head0: Node?<T>, tail: Node?<T>, e: Node<T>, ghost nodes: seq<Node<T>>, ghost out: seq<Node<T>>)
      returns (head: Node?<T>)
    requires Chain(head0, tail, out) && Distinct(out) && e !in out && e in nodes && forall x :: x in out ==> x in nodes
    modifies nodes
    ensures Chain(head, e, out + [e]) && Distinct(out + [e])
    ensures forall k :: 0 <= k < |nodes| && nodes[k] !in out ==> nodes[k].next == old(nodes[k].next)
  {
    head := head0;
    if tail != null {
      assert tail in out;
      tail.next := e;
    } else {
      head := e;
    }
    e.prev := tail;
  }

  /** The nodes that are out: those before i, and those from mid to j - 1. */
  ghost predicate Used<T>(nodes: seq<Node<T>>, out: seq<Node<T>>, i: nat, mid: nat, j: nat)
    requires i <= mid <= j <= |nodes|
  {
    multiset(out) == multiset(nodes[..i]) + multiset(nodes[mid..j])
  }

  /** Which nodes are out, and what is left of the two runs. */
  ghost predicate Merging<T>(nodes: seq<Node<T>>, out: seq<Node<T>>, i: nat, mid: nat, j: nat)
    requires i <= mid <= j <= |nodes|
    reads nodes
  {
    && Distinct(nodes) && Distinct(out) && Used(nodes, out, i, mid, j)
    && Forward(nodes, i, mid) && Forward(nodes, j, |nodes|)
  }

  lemma NotYetOut<T>(nodes: seq<Node<T>>, out: seq<Node<T>>, i: nat, mid: nat, j: nat)
    requires i <= mid <= j <= |nodes| && Distinct(nodes) && Used(nodes, out, i, mid, j)
    ensures forall k :: i <= k < mid || j <= k < |nodes| ==> nodes[k] !in out
    ensures forall x :: x in out ==> x in nodes
  {
    forall k | i <= k < mid || j <= k < |nodes|
      ensures nodes[k] !in out
    {
      assert nodes[k] !in multiset(nodes[..i]) && nodes[k] !in multiset(nodes[mid..j]);
      assert nodes[k] !in multiset(out);
    }
    forall x | x in out
      ensures x in nodes
    {
      assert x in multiset(out);
    }
  }

  /** The next node of the merge goes to the end of the chain: the first of what is left of the
      first run, or of the second. */
  method Take<T>(head0: Node?<T>, tail: Node?<T>, e: Node<T>, first: bool, ghost nodes: seq<Node<T>>,
                 ghost out: seq<Node<T>>,
                 ghost i: nat, ghost mid: nat, ghost j: nat) returns (head: Node?<T>)
    requires i <= mid <= j <= |nodes| && Merging(nodes, out, i, mid, j) && Chain(head0, tail, out)
    requires if first then i < mid && e == nodes[i] else j < |nodes| && e == nodes[j]
    modifies nodes
    ensures Chain(head, e, out + [e])
    ensures if first then Merging(nodes, out + [e], i + 1, mid, j) else Merging(nodes, out + [e], i, mid, j + 1)
  {
    hide Chain, Distinct, Used;
    NotYetOut(nodes, out, i, mid, j);
    OneMoreOut(nodes, out, i, mid, j);
    head := Link(head0, tail, e, nodes, out);
  }

  lemma OneMoreOut<T>(nodes: seq<Node<T>>, out: seq<Node<T>>, i: nat, mid: nat, j: nat)
    requires i <= mid <= j <= |nodes| && Used(nodes, out, i, mid, j)
    ensures i < mid ==> Used(nodes, out + [nodes[i]], i + 1, mid, j)
    ensures j < |nodes| ==> Used(nodes, out + [nodes[j]], i, mid, j + 1)
  {
    if i < mid {
      assert nodes[..i + 1] == nodes[..i] + [nodes[i]];
    }
    if j < |nodes| {
      assert nodes[mid..j + 1] == nodes[mid..j] + [nodes[j]];
    }
  }

  /** What is still to come of the merge of two runs. */
  ghost function ToCome<T>(cmp: (T, T) -> int, nodes: seq<Node<T>>, i: nat, mid: nat, j: nat, e: nat): seq<T>
    requires i <= mid <= j <= e <= |nodes|
  {
    Merge(cmp, Values(nodes[i..mid]), Values(nodes[j..e]))
  }

  lemma NextOfMerge<T>(cmp: (T, T) -> int, nodes: seq<Node<T>>, i: nat, mid: nat, j: nat, e: nat)
    requires i <= mid <= j <= e <= |nodes| && (i < mid || j < e)
    ensures if j == e || (i < mid && cmp(nodes[i].value, nodes[j].value) <= 0)
            then ToCome(cmp, nodes, i, mid, j, e) == [nodes[i].value] + ToCome(cmp, nodes, i + 1, mid, j, e)
            else ToCome(cmp, nodes, i, mid, j, e) == [nodes[j].value] + ToCome(cmp, nodes, i, mid, j + 1, e)
  {
    var a, b := Values(nodes[i..mid]), Values(nodes[j..e]);
    if i < mid {
      assert a[1..] == Values(nodes[i + 1..mid]) && a == [a[0]] + a[1..];
    }
    if j < e {
      assert b[1..] == Values(nodes[j + 1..e]) && b == [b[0]] + b[1..];
    }
  }

  lemma ValuesAppend<T>(out: seq<Node<T>>, e: Node<T>)
    ensures Values(out + [e]) == Values(out) + [e.value]
  {
  }

  /** Merge the run of psize nodes at p and the one of up to insize nodes at q. */
  method MergeRuns<T>(head0: Node?<T>, tail0: Node?<T>, p0: Node?<T>, psize0: nat, q0: Node?<T>, insize: nat,
                      cmp: (T, T) -> int, ghost nodes: seq<Node<T>>, ghost out0: seq<Node<T>>, ghost at: nat)
    returns (head: Node?<T>, tail: Node?<T>, q: Node?<T>, ghost out: seq<Node<T>>)
    requires at + psize0 <= |nodes| && psize0 > 0 && p0 == At(nodes, at) && q0 == At(nodes, at + psize0)
    requires Merging(nodes, out0, at, at + psize0, at + psize0) && Chain(head0, tail0, out0)
    modifies nodes
    ensures var mid := at + psize0;
            var e := Min(mid + insize, |nodes|);
            && Merging(nodes, out, mid, mid, e) && Chain(head, tail, out) && q == At(nodes, e)
            && Values(out) == Values(out0) + ToCome(cmp, nodes, at, mid, mid, e)
  {
    hide Merging, Chain, ToCome, Values;
    head, tail, q, out := head0, tail0, q0, out0;
    var p, psize, qsize := p0, psize0, insize;
    ghost var i, mid := at, at + psize0;
    ghost var j, e := mid, Min(mid + insize, |nodes|);
    while psize > 0 || (qsize > 0 && q != null)
      invariant at <= i <= mid <= j <= e && psize == mid - i && qsize == mid + insize - j
      invariant q == At(nodes, j) && (i < mid ==> p == At(nodes, i))
      invariant Merging(nodes, out, i, mid, j) && Chain(head, tail, out)
      invariant Values(out) + ToCome(cmp, nodes, i, mid, j, e) == Values(out0) + ToCome(cmp, nodes, at, mid, mid, e)
      decreases psize + (e - j)
    {
      NextOfMerge(cmp, nodes, i, mid, j, e);
      NextLinks(nodes, out, i, mid, j);
      var x, first;
      if psize == 0 {
        first := false;
      } else if qsize == 0 || q == null {
        first := true;
      } else {
        first := cmp(p.value, q.value) <= 0;
      }
      if first {
        x, p, psize := p, p.next, psize - 1;
      } else {
        x, q, qsize := q, q.next, qsize - 1;
      }
      ValuesAppend(out, x);
      head := Take(head, tail, x, first, nodes, out, i, mid, j);
      out, tail := out + [x], x;
      if first { i := i + 1; } else { j := j + 1; }
    }
    NothingToCome(cmp, nodes, mid, e);
  }

  lemma NextLinks<T>(nodes: seq<Node<T>>, out: seq<Node<T>>, i: nat, mid: nat, j: nat)
    requires i <= mid <= j <= |nodes| && Merging(nodes, out, i, mid, j)
    ensures i < mid ==> nodes[i].next == At(nodes, i + 1)
    ensures j < |nodes| ==> nodes[j].next == At(nodes, j + 1)
  {
  }

  lemma NothingToCome<T>(cmp: (T, T) -> int, nodes: seq<Node<T>>, mid: nat, e: nat)
    requires mid <= e <= |nodes|
    ensures ToCome(cmp, nodes, mid, mid, e, e) == []
  {
  }

  /** Where the run of up to insize nodes at p ends. */
  method SplitRun<T>(p: Node<T>, insize: nat, ghost nodes: seq<Node<T>>, ghost at: nat)
    returns (q: Node?<T>, psize: nat)
    requires at < |nodes| && p == nodes[at] && Forward(nodes, at, |nodes|) && insize > 0
    ensures psize == Min(insize, |nodes| - at) && q == At(nodes, at + psize)
  {
    q, psize := p, 0;
    var i := 0;
    while i < insize
      invariant 0 <= i == psize <= insize && at + psize < |nodes| && q == nodes[at + psize]
    {
      psize := psize + 1;
      q := q.next;
      if q == null {
        break;
      }
      i := i + 1;
    }
  }

  /** Merge the two runs at p. */
  method MergePair<T>(head0: Node?<T>, tail0: Node?<T>, p: Node<T>, insize: nat, cmp: (T, T) -> int,
                      ghost nodes: seq<Node<T>>, ghost out0: seq<Node<T>>, ghost at: nat)
      returns (head: Node?<T>, tail: Node?<T>, q: Node?<T>, ghost out: seq<Node<T>>, ghost e: nat)
    requires at < |nodes| && p == nodes[at] && Merging(nodes, out0, at, at, at)
    requires Chain(head0, tail0, out0) && insize > 0
    modifies nodes
    ensures e == Min(at + 2 * insize, |nodes|) && q == At(nodes, e)
    ensures Merging(nodes, out, e, e, e) && Chain(head, tail, out)
    ensures Values(out) + Pass(cmp, Values(nodes[e..]), insize) ==
            Values(out0) + Pass(cmp, Values(nodes[at..]), insize)
  {
    hide Chain, Values, Merge, Pass, Merging, Distinct, ToCome;
    PairAhead(cmp, nodes, out0, insize, at);
    var psize;
    q, psize := SplitRun(p, insize, nodes, at);
    ghost var mid := at + psize;
    e := Min(mid + insize, |nodes|);
    head, tail, q, out := MergeRuns(head0, tail0, p, psize, q, insize, cmp, nodes, out0, at);
    PairDone(nodes, out, mid, e);
    Associate(Values(out0), ToCome(cmp, nodes, at, mid, mid, e), Pass(cmp, Values(nodes[e..]), insize));
  }

  /** What there is to be done for the pair of runs at p. */
  lemma PairAhead<T>(cmp: (T, T) -> int, nodes: seq<Node<T>>, out: seq<Node<T>>, insize: nat, at: nat)
    requires insize > 0 && at < |nodes| && Merging(nodes, out, at, at, at)
    ensures Forward(nodes, at, |nodes|)
    ensures var mid := at + Min(insize, |nodes| - at);
            var e := Min(mid + insize, |nodes|);
            && at < mid <= e && e == Min(at + 2 * insize, |nodes|) && Merging(nodes, out, at, mid, mid)
            && Pass(cmp, Values(nodes[at..]), insize) == ToCome(cmp, nodes, at, mid, mid, e) +
               Pass(cmp, Values(nodes[e..]), insize)
  {
    hide Values, Merge, Pass, Merging, ToCome, Forward;
    LinkedFrom(nodes, out, at);
    PassStep(cmp, nodes, insize, at);
    NextPair(nodes, out, at, at + Min(insize, |nodes| - at));
  }

  /** Merge the runs of the list in pairs. */
  method MergePass<T>(list: Node?<T>, insize: nat, cmp: (T, T) -> int, ghost nodes: seq<Node<T>>,
                      ghost frame: set<object>)
      returns (head: Node?<T>, tail: Node?<T>, nmerges: nat, ghost out: seq<Node<T>>)
    requires IsList(list, nodes) && insize > 0 && forall x :: x in nodes ==> x in frame
    modifies frame
    ensures Chain(head, tail, out) && Distinct(out) && multiset(out) == multiset(nodes)
    ensures Values(out) == Pass(cmp, Values(nodes), insize)
    ensures nmerges <= 1 <==> |nodes| <= 2 * insize
  {
    hide Chain, Values, Merge, Pass, Merging, Distinct;
    var p := list;
    head, tail, nmerges, out := null, null, 0, [];
    ghost var at := 0;
    PassStarts(cmp, nodes, insize, head, tail);
    while p != null
      invariant at <= |nodes| && p == At(nodes, at) && Merging(nodes, out, at, at, at) && Chain(head, tail, out)
      invariant Values(out) + Pass(cmp, Values(nodes[at..]), insize) == Pass(cmp, Values(nodes), insize)
      invariant nmerges == 0 ==> at == 0
      invariant nmerges == 1 ==> at == Min(2 * insize, |nodes|)
      invariant nmerges >= 2 ==> |nodes| > 2 * insize
      decreases |nodes| - at
    {
      nmerges := nmerges + 1;
      head, tail, p, out, at := MergePair(head, tail, p, insize, cmp, nodes, out, at);
    }
    PassEnds(cmp, nodes, insize, out);
  }

  lemma PassStarts<T>(cmp: (T, T) -> int, nodes: seq<Node<T>>, insize: nat, head: Node?<T>, tail: Node?<T>)
    requires insize > 0 && head == tail == null && IsList(At(nodes, 0), nodes)
    ensures Merging(nodes, [], 0, 0, 0) && Chain(head, tail, [])
    ensures Values([]) + Pass(cmp, Values(nodes[0..]), insize) == Pass(cmp, Values(nodes), insize)
  {
    hide Pass;
    assert nodes[0..] == nodes;
  }

  lemma LinkedFrom<T>(nodes: seq<Node<T>>, out: seq<Node<T>>, at: nat)
    requires at <= |nodes| && Merging(nodes, out, at, at, at)
    ensures Forward(nodes, at, |nodes|)
  {
  }

  lemma NextPair<T>(nodes: seq<Node<T>>, out: seq<Node<T>>, at: nat, mid: nat)
    requires at <= mid <= |nodes| && Merging(nodes, out, at, at, at)
    ensures Merging(nodes, out, at, mid, mid)
  {
    assert nodes[at..at] == nodes[mid..mid];
  }

  lemma PairDone<T>(nodes: seq<Node<T>>, out: seq<Node<T>>, mid: nat, e: nat)
    requires mid <= e <= |nodes| && Merging(nodes, out, mid, mid, e)
    ensures Merging(nodes, out, e, e, e)
  {
    assert nodes[..mid] + nodes[mid..e] == nodes[..e];
  }

  lemma PassStep<T>(cmp: (T, T) -> int, nodes: seq<Node<T>>, insize: nat, at: nat)
    requires insize > 0 && at < |nodes|
    ensures var mid := at + Min(insize, |nodes| - at);
            var e := Min(mid + insize, |nodes|);
            && at < mid <= e && (mid == |nodes| || e == Min(at + 2 * insize, |nodes|))
            && Pass(cmp, Values(nodes[at..]), insize) == ToCome(cmp, nodes, at, mid, mid, e) +
               Pass(cmp, Values(nodes[e..]), insize)
  {
    hide Merge;
    var mid := at + Min(insize, |nodes| - at);
    var e := Min(mid + insize, |nodes|);
    var s := Values(nodes[at..]);
    UnfoldPass(cmp, s, insize);
    hide Pass;
    assert s[..mid - at] == Values(nodes[at..mid]) && s[mid - at..e - at] == Values(nodes[mid..e]);
    assert s[e - at..] == Values(nodes[e..]);
  }

  lemma PassEnds<T>(cmp: (T, T) -> int, nodes: seq<Node<T>>, insize: nat, out: seq<Node<T>>)
    requires insize > 0 && Merging(nodes, out, |nodes|, |nodes|, |nodes|)
    ensures Distinct(out) && Pass(cmp, Values(nodes[|nodes|..]), insize) == [] && multiset(out) == multiset(nodes)
  {
    assert nodes[..|nodes|] == nodes;
  }

  /** Sort the list; equal elements stay in their order. Whatever the prev links were, they are
      right afterwards. */
  method Sort<T(!new)>(list: Node?<T>, cmp: (T, T) -> int, ghost nodes: seq<Node<T>>)
      returns (head: Node?<T>, ghost sorted: seq<Node<T>>)
    requires IsList(list, nodes) && Preorder(cmp)
    modifies nodes
    ensures IsDlist(head, sorted) && multiset(sorted) == multiset(nodes)
    ensures StablySorted(cmp, Values(sorted), Values(nodes))
  {
    hide Preorder, StablySorted, Runs, Pass, Values, Chain, IsList, IsDlist, Distinct;
    head, sorted := list, nodes;
    SingleRuns(cmp, Values(nodes));
    if list == null {
      EmptyList(cmp, nodes);
      return;
    }
    NotEmpty(list, nodes);
    ghost var frame: set<object> := set x | x in nodes;
    var insize, looping := 1, true;
    while looping
      invariant insize > 0 && |sorted| == |nodes| > 0 && IsList(head, sorted) && multiset(sorted) == multiset(nodes)
      invariant Runs(cmp, Values(sorted), Values(nodes), insize)
      invariant !looping ==> |nodes| <= insize && IsDlist(head, sorted)
      decreases looping, |nodes| - insize
    {
      PassDoubles(cmp, Values(sorted), Values(nodes), insize);
      SameNodes(sorted, nodes);
      var tail, nmerges;
      head, tail, nmerges, sorted := MergePass(head, insize, cmp, sorted, frame);
      SameNodes(sorted, nodes);
      Close(head, tail, sorted, frame);
      if nmerges <= 1 {
        looping := false;
      }
      insize := insize * 2;
    }
    OneRun(cmp, Values(sorted), Values(nodes), insize);
  }

  lemma EmptyList<T(!new)>(cmp: (T, T) -> int, nodes: seq<Node<T>>)
    requires IsList(null, nodes)
    ensures IsDlist(null, nodes) && StablySorted(cmp, Values(nodes), Values(nodes))
  {
    NothingSorted(cmp, Values(nodes), Values(nodes));
  }

  lemma NotEmpty<T>(list: Node?<T>, nodes: seq<Node<T>>)
    requires IsList(list, nodes) && list != null
    ensures nodes != []
  {
  }

  lemma OneRun<T(!new)>(cmp: (T, T) -> int, s: seq<T>, t: seq<T>, size: nat)
    requires size >= |s| && size > 0 && Runs(cmp, s, t, size)
    ensures StablySorted(cmp, s, t)
  {
  }

  lemma SameNodes<T>(a: seq<Node<T>>, b: seq<Node<T>>)
    requires multiset(a) == multiset(b)
    ensures |a| == |b| && forall x :: x in a ==> x in b
  {
    assert |a| == |multiset(a)|;
    forall x | x in a
      ensures x in b
    {
      assert x in multiset(a);
    }
  }

  /** The ends of the list. */
  method Close<T>(head: Node?<T>, tail: Node?<T>, ghost out: seq<Node<T>>, ghost frame: set<object>)
    requires Chain(head, tail, out) && Distinct(out) && out != [] && forall x :: x in out ==> x in frame
    modifies frame
    ensures IsDlist(head, out) && IsList(head, out)
  {
    assert head in out && tail in out;
    head.prev := tail;
    tail.next := null;
  }
}
