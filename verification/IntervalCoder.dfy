/** Binary arithmetic coding with unbounded integers: no registers, no carries, no bytes.
    A run of decisions narrows the unit interval; any byte string inside the final
    interval identifies the run. The encoder and decoder classes refine this. */
module IntervalCoder {
  import opened Bits
  import opened Estimation

  /** The numbers x with low <= x * 2^(16 + shift) < low + range. */
  datatype Interval = Interval(low: nat, range: nat, shift: nat) {
    ghost predicate Normal() {
      0x8000 <= range <= 0x1_0000
    }

    /** Inside the unit interval, so that no carry can leave the first byte. */
    ghost predicate InUnit() {
      low + range <= Pow2(16 + shift)
    }
  }

  const UNIT := Interval(0, 0x1_0000, 0)

  /** The byte string, read as a fraction followed by endless zero bytes, lies in iv. */
  ghost predicate Holds(iv: Interval, data: seq<Byte>) {
    && iv.low * Pow2(8 * |data|) <= BytesVal(data) * Pow2(16 + iv.shift)
    && BytesVal(data) * Pow2(16 + iv.shift) < (iv.low + iv.range) * Pow2(8 * |data|)
  }

  datatype Decision = Decision(bin: nat, bit: bool)
  datatype State = State(iv: Interval, bins: seq<Bin>)

  predicate AddressesOk(ds: seq<Decision>, size: nat) {
    forall i :: 0 <= i < |ds| ==> ds[i].bin < size
  }

  /** The less probable symbol codes the upper part, except that the two symbols are
      exchanged when the upper part is the larger one. */
  predicate TakesUpper(t: Table, range: nat, sv: Bin, bit: bool) {
    (bit != Mps(sv)) == (range - Qe(t, sv) >= Qe(t, sv))
  }

  function Part(t: Table, iv: Interval, sv: Bin, bit: bool): (p: Interval)
    requires iv.Normal()
    ensures 1 <= p.range < iv.range
  {
    var rest := iv.range - Qe(t, sv);
    if TakesUpper(t, iv.range, sv, bit)
    then Interval(iv.low + rest, Qe(t, sv), iv.shift)
    else Interval(iv.low, rest, iv.shift)
  }

  function Renorm(iv: Interval): (r: Interval)
    requires 1 <= iv.range <= 0x1_0000
    ensures r.Normal()
    decreases 0x8000 - iv.range
  {
    if iv.range >= 0x8000 then iv
    else Renorm(Interval(2 * iv.low, 2 * iv.range, iv.shift + 1))
  }

  /** One step of renormalization. */
  function Doubled(iv: Interval): Interval {
    Interval(2 * iv.low, 2 * iv.range, iv.shift + 1)
  }

  /** Bins adapt after every LPS, and after an MPS only when it forces renormalization. */
  function Adapt(t: Table, range: nat, sv: Bin, bit: bool): Bin {
    if bit != Mps(sv) then AfterLps(t, sv)
    else if range - Qe(t, sv) >= 0x8000 then sv
    else AfterMps(t, sv)
  }

  function Step(t: Table, st: State, d: Decision): (st': State)
    requires st.iv.Normal() && d.bin < |st.bins|
    ensures st'.iv.Normal() && |st'.bins| == |st.bins|
  {
    var sv := st.bins[d.bin];
    State(Renorm(Part(t, st.iv, sv, d.bit)), st.bins[d.bin := Adapt(t, st.iv.range, sv, d.bit)])
  }

  function Run(t: Table, st: State, ds: seq<Decision>): (st': State)
    requires st.iv.Normal() && AddressesOk(ds, |st.bins|)
    ensures st'.iv.Normal() && |st'.bins| == |st.bins|
    decreases |ds|
  {
    if ds == [] then st else Run(t, Step(t, st, ds[0]), ds[1..])
  }

  lemma {:induction false} RunConcat(t: Table, st: State, ds: seq<Decision>, es: seq<Decision>)
    requires st.iv.Normal() && AddressesOk(ds, |st.bins|) && AddressesOk(es, |st.bins|)
    ensures AddressesOk(ds + es, |st.bins|)
    ensures Run(t, st, ds + es) == Run(t, Run(t, st, ds), es)
    decreases |ds|
  {
    if ds == [] {
      assert ds + es == es;
    } else {
      RunConcat(t, Step(t, st, ds[0]), ds[1..], es);
      assert (ds + es)[1..] == ds[1..] + es;
    }
  }

  lemma RunUnfold(t: Table, st: State, ds: seq<Decision>)
    requires st.iv.Normal() && AddressesOk(ds, |st.bins|) && ds != []
    ensures Run(t, st, ds) == Run(t, Step(t, st, ds[0]), ds[1..])
  {
  }

  lemma RunSnoc(t: Table, st: State, ds: seq<Decision>, d: Decision)
    requires st.iv.Normal() && AddressesOk(ds, |st.bins|) && d.bin < |st.bins|
    ensures AddressesOk(ds + [d], |st.bins|)
    ensures Run(t, st, ds + [d]) == Step(t, Run(t, st, ds), d)
  {
    RunConcat(t, st, ds, [d]);
    assert [d][1..] == [];
  }

  /** Doubling the resolution changes neither the interval nor what lies in it. */
  lemma {:induction false} RenormKeeps(iv: Interval, data: seq<Byte>)
    requires 1 <= iv.range <= 0x1_0000
    ensures Holds(Renorm(iv), data) <==> Holds(iv, data)
    ensures iv.InUnit() ==> Renorm(iv).InUnit()
    decreases 0x8000 - iv.range
  {
    if iv.range < 0x8000 {
      var iv' := Interval(2 * iv.low, 2 * iv.range, iv.shift + 1);
      RenormKeeps(iv', data);
      DoubledComparison(iv.low, iv.range, Pow2(8 * |data|), BytesVal(data), Pow2(16 + iv.shift));
      assert Pow2(16 + iv'.shift) == 2 * Pow2(16 + iv.shift);
    }
  }

  lemma DoubledComparison(low: int, range: int, p: int, v: int, q: int)
    ensures (2 * low) * p == 2 * (low * p) && (2 * low + 2 * range) * p == 2 * ((low + range) * p)
    ensures v * (2 * q) == 2 * (v * q)
  {
  }

  /** The two parts of an interval are disjoint and cover it. */
  lemma PartsSplit(t: Table, iv: Interval, sv: Bin, data: seq<Byte>)
    requires iv.Normal()
    ensures Holds(iv, data) <==> Holds(Part(t, iv, sv, true), data) || Holds(Part(t, iv, sv, false), data)
    ensures !(Holds(Part(t, iv, sv, true), data) && Holds(Part(t, iv, sv, false), data))
    ensures forall bit :: iv.InUnit() ==> Part(t, iv, sv, bit).InUnit()
  {
    var p, q, rest := Pow2(8 * |data|), BytesVal(data) * Pow2(16 + iv.shift), iv.range - Qe(t, sv);
    OrderedBounds(iv.low, rest, Qe(t, sv), p);
  }

  lemma OrderedBounds(low: int, rest: int, qe: int, p: int)
    requires rest >= 0 && qe >= 0 && p >= 1
    ensures low * p <= (low + rest) * p <= (low + rest + qe) * p
  {
  }

  /** The bit whose part the data lies in. */
  ghost predicate IdealBit(t: Table, iv: Interval, sv: Bin, data: seq<Byte>)
    requires iv.Normal()
  {
    Holds(Part(t, iv, sv, true), data)
  }

  /** Decoding against the ideal intervals, asking for one bin after the other. */
  ghost function IdealDecode(t: Table, st: State, asked: seq<nat>, data: seq<Byte>): (seq<bool>, State)
    requires st.iv.Normal() && forall i :: 0 <= i < |asked| ==> asked[i] < |st.bins|
    decreases |asked|
  {
    if asked == [] then ([], st)
    else
      var bit := IdealBit(t, st.iv, st.bins[asked[0]], data);
      var (bits, st') := IdealDecode(t, Step(t, st, Decision(asked[0], bit)), asked[1..], data);
      ([bit] + bits, st')
  }

  function BinsOf(ds: seq<Decision>): seq<nat> {
    seq(|ds|, i requires 0 <= i < |ds| => ds[i].bin)
  }

  function BitsOf(ds: seq<Decision>): seq<bool> {
    seq(|ds|, i requires 0 <= i < |ds| => ds[i].bit)
  }

  /** Data inside the interval after a step was inside before it, and the step's bit is
      the one read back. */
  lemma StepBack(t: Table, st: State, d: Decision, data: seq<Byte>)
    requires st.iv.Normal() && d.bin < |st.bins|
    requires Holds(Step(t, st, d).iv, data)
    ensures Holds(st.iv, data)
    ensures IdealBit(t, st.iv, st.bins[d.bin], data) == d.bit
  {
    var sv := st.bins[d.bin];
    RenormKeeps(Part(t, st.iv, sv, d.bit), data);
    PartsSplit(t, st.iv, sv, data);
  }

  /** The intervals of a run are nested. */
  lemma {:induction false} RunBack(t: Table, st: State, ds: seq<Decision>, data: seq<Byte>)
    requires st.iv.Normal() && AddressesOk(ds, |st.bins|)
    requires Holds(Run(t, st, ds).iv, data)
    ensures Holds(st.iv, data)
    decreases |ds|
  {
    if ds != [] {
      RunBack(t, Step(t, st, ds[0]), ds[1..], data);
      StepBack(t, st, ds[0], data);
    }
  }

  /** Every byte string in the final interval of a run decodes to exactly that run and
      leaves the bins as the run left them. */
  lemma {:induction false} IdealRoundTrip(t: Table, st: State, ds: seq<Decision>, data: seq<Byte>)
    requires st.iv.Normal() && AddressesOk(ds, |st.bins|)
    requires Holds(Run(t, st, ds).iv, data)
    ensures IdealDecode(t, st, BinsOf(ds), data) == (BitsOf(ds), Run(t, st, ds))
    decreases |ds|
  {
    if ds == [] {
      assert BinsOf(ds) == [] && BitsOf(ds) == [];
    } else {
      var d := ds[0];
      var st1 := Step(t, st, d);
      RunBack(t, st1, ds[1..], data);
      StepBack(t, st, d, data);
      IdealRoundTrip(t, st1, ds[1..], data);
      var asked := BinsOf(ds);
      assert asked[0] == d.bin && asked[1..] == BinsOf(ds[1..]);
      assert Decision(asked[0], IdealBit(t, st.iv, st.bins[asked[0]], data)) == d;
      assert [d.bit] + BitsOf(ds[1..]) == BitsOf(ds);
    }
  }
}
