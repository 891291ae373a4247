/** Who owns a video frame: the pool, the preview queue, the capture slot, or a local variable
    of one of the threads that share them. Every operation of the pool is one step, and so is
    every section under a mutex that only touches what the mutex protects; sections that recycle
    frames while they hold a mutex take several steps. */
module FrameOwnership {

  const MAX_FRAME := 4
  const FRAME_POOL_SZ := 6

  type Frame = nat

  datatype Option<T> = None | Some(value: T)

  datatype Thread = Preview | Capture | Control

  datatype CallbackPc = CbIdle | CbCopying | CbAdding | CbReturning

  datatype PreviewPc =
    | PvIdle | PvClearing | PvWaiting | PvRaw | PvDecoding | PvDrawing | PvShowing | PvDrawn | PvDeciding | PvPassing
    | PvReplacing

  datatype CapturePc = CpIdle | CpClearing | CpWaiting | CpCalling | CpConverting | CpReturning

  datatype ControlPc = CtIdle | CtJoining | CtQueue | CtSlot | CtPool

  /** The USB callback's copy; the preview thread's raw frame, decoded frame and frame to be
      shown; the capture thread's frame, its frame for the surface and its callback frame. */
  datatype Locals = Locals(
    copy: Option<Frame>, raw: Option<Frame>, decoded: Option<Frame>, shown: Option<Frame>,
    captured: Option<Frame>, surface: Option<Frame>, callback: Option<Frame>)

  /** The pool, and what became of the frames that were ever allocated: those up to next. */
  datatype Pool = Pool(frames: seq<Frame>, next: Frame, freed: set<Frame>, lost: set<Frame>)

  /** The preview queue and its mutex. The holder of the mutex has recycled the first frames,
      cleared of them, already. All frames that ever came are in arrivals. */
  datatype Queue = Queue(items: seq<Frame>, cleared: nat, lock: Option<Thread>, arrivals: seq<Frame>, gone: nat)

  /** The capture slot and its mutex; its holder may have recycled the frame already. */
  datatype Slot = Slot(frame: Option<Frame>, recycled: bool, lock: Option<Thread>)

  datatype Flags = Flags(running: bool, mjpeg: bool, testing: bool, destroying: bool)

  datatype State = State(
    flags: Flags, pool: Pool, queue: Queue, slot: Slot,
    cb: CallbackPc, pv: PreviewPc, cp: CapturePc, ct: ControlPc, vars: Locals)

  function One(f: Option<Frame>): multiset<Frame> {
    if f.Some? then multiset{f.value} else multiset{}
  }

  function InVars(v: Locals): multiset<Frame> {
    One(v.copy) + One(v.raw) + One(v.decoded) + One(v.shown) + One(v.captured) + One(v.surface) + One(v.callback)
  }

  function InQueue(q: Queue): multiset<Frame> {
    if q.cleared <= |q.items| then multiset(q.items[q.cleared..]) else multiset{}
  }

  function InSlot(t: Slot): multiset<Frame> {
    if t.recycled then multiset{} else One(t.frame)
  }

  /** The frames that someone other than the pool owns. */
  function Held(q: Queue, t: Slot, v: Locals): multiset<Frame> {
    InQueue(q) + InSlot(t) + InVars(v)
  }

  // Operations of the pool.

  /** The frame that get_frame returns: the last of the pool, or a new one if there is memory. */
  function Got(p: Pool, memory: bool): Option<Frame> {
    if p.frames != [] then Some(p.frames[|p.frames| - 1]) else if memory then Some(p.next) else None
  }

  function AfterGet(p: Pool, memory: bool): Pool {
    if p.frames != [] then p.(frames := p.frames[..|p.frames| - 1]) else if memory then p.(next := p.next + 1) else p
  }

  /** recycle_frame: into the pool, or freed when that is full. */
  function AfterRecycle(p: Pool, f: Option<Frame>): Pool {
    if f.None? then p
    else if |p.frames| < FRAME_POOL_SZ then p.(frames := p.frames + [f.value])
    else p.(freed := p.freed + {f.value})
  }

  /** A frame that no variable holds any more although it was not recycled. */
  function AfterLoss(p: Pool, f: Option<Frame>): Pool {
    if f.None? then p else p.(lost := p.lost + {f.value})
  }

  // Steps.

  datatype CallbackAction = CbGet(memory: bool) | CbCopied(ok: bool) | CbAdd | CbReturn

  datatype LockAction =
    | QueueLock(t: Thread) | QueueRecycle(t: Thread) | QueueUnlock(t: Thread)
    | SlotLock(t: Thread) | SlotRecycle(t: Thread) | SlotUnlock(t: Thread)

  datatype PreviewAction =
    | PvTake | PvGetDecoded(memory: bool) | PvDecoded(ok: bool) | PvGetShown(window: bool, memory: bool) | PvHide
    | PvFinish | PvPass(capturing: bool) | PvEnd | PvGiveUp

  datatype CaptureAction =
    | CpTake | CpGetSurface(memory: bool) | CpCall(convert: bool, memory: bool) | CpConverted | CpReturn
    | CpDropSurface | CpEnd

  datatype ControlAction = Start(mjpeg: bool, testing: bool) | Stop(destroying: bool) | Join | ClearPool

  datatype Action =
    | OfCallback(cb: CallbackAction) | OfLock(lock: LockAction) | OfPreview(pv: PreviewAction)
    | OfCapture(cp: CaptureAction) | OfControl(ct: ControlAction)

  predicate ClearsQueue(s: State, t: Thread) {
    (t == Preview && s.pv == PvClearing) || (t == Control && s.ct == CtQueue)
  }

  /** A thread that empties the slot, or replaces what is in it. */
  predicate UsesSlot(s: State, t: Thread) {
    || (t == Preview && s.pv == PvReplacing)
    || (t == Capture && s.cp == CpClearing)
    || (t == Control && s.ct == CtSlot)
  }

  predicate CallbackEnabled(s: State, a: CallbackAction) {
    match a
    case CbGet(_) => s.cb == CbIdle && s.flags.running
    case CbCopied(_) => s.cb == CbCopying
    case CbAdd => s.cb == CbAdding && s.queue.lock.None?
    case CbReturn => s.cb == CbReturning
  }

  predicate LockEnabled(s: State, a: LockAction) {
    match a
    case QueueLock(t) => ClearsQueue(s, t) && s.queue.lock.None?
    case QueueRecycle(t) => s.queue.lock == Some(t) && s.queue.cleared < |s.queue.items|
    case QueueUnlock(t) => s.queue.lock == Some(t) && s.queue.cleared == |s.queue.items|
    case SlotLock(t) => s.slot.lock.None? && if t == Preview then s.pv == PvPassing else UsesSlot(s, t)
    case SlotRecycle(t) => s.slot.lock == Some(t) && s.slot.frame.Some? && !s.slot.recycled
    case SlotUnlock(t) => s.slot.lock == Some(t) && (s.slot.frame.Some? ==> s.slot.recycled)
  }

  /** The preview thread gives up where it cannot start the stream, or only tries it out. */
  predicate PreviewEnabled(s: State, a: PreviewAction) {
    match a
    case PvTake => s.pv == PvWaiting && s.flags.running && s.queue.lock.None?
    case PvGetDecoded(_) => s.pv == PvRaw
    case PvDecoded(ok) => s.pv == PvDecoding && (ok ==> s.vars.decoded.Some?)
    case PvGetShown(_, _) => s.pv == PvDrawing
    case PvHide => s.pv == PvShowing
    case PvFinish => s.pv == PvDrawn
    case PvPass(_) => s.pv == PvDeciding
    case PvEnd => s.pv == PvWaiting && !s.flags.running
    case PvGiveUp => s.pv == PvClearing && s.queue.lock != Some(Preview)
  }

  predicate CaptureEnabled(s: State, a: CaptureAction) {
    match a
    case CpTake => s.cp == CpWaiting && s.flags.running && s.slot.lock.None?
    case CpGetSurface(_) => s.cp == CpCalling && s.vars.surface.None?
    case CpCall(_, _) => s.cp == CpCalling
    case CpConverted => s.cp == CpConverting
    case CpReturn => s.cp == CpReturning
    case CpDropSurface => s.cp == CpWaiting
    case CpEnd => s.cp == CpWaiting && !s.flags.running && s.vars.surface.None?
  }

  predicate ControlEnabled(s: State, a: ControlAction) {
    match a
    case Start(_, _) => !s.flags.running && s.pv == PvIdle && s.cp == CpIdle && s.ct == CtIdle
    case Stop(_) => s.ct == CtIdle
    case Join => s.ct == CtJoining && s.pv == PvIdle && s.cp == CpIdle
    case ClearPool => s.ct == CtPool
  }

  predicate Enabled(s: State, a: Action) {
    match a
    case OfCallback(b) => CallbackEnabled(s, b)
    case OfLock(b) => LockEnabled(s, b)
    case OfPreview(b) => PreviewEnabled(s, b)
    case OfCapture(b) => CaptureEnabled(s, b)
    case OfControl(b) => ControlEnabled(s, b)
  }

  /** The new frame goes to the back of the queue, if there is room and the preview runs. */
  function Add(s: State): State {
    if s.flags.running && |s.queue.items| < MAX_FRAME && s.vars.copy.Some? then
      var f := s.vars.copy.value;
      s.(queue := s.queue.(items := s.queue.items + [f], arrivals := s.queue.arrivals + [f]),
         vars := s.vars.(copy := None), cb := CbIdle)
    else s.(cb := CbReturning)
  }

  /** The oldest frame of the queue, or none. In test mode it goes straight to the slot. */
  function Take(s: State): State {
    var next := if s.flags.testing then PvPassing else if s.flags.mjpeg then PvRaw else PvDrawing;
    if s.queue.items != [] then
      s.(queue := s.queue.(items := s.queue.items[1..], gone := s.queue.gone + 1),
         vars := s.vars.(raw := Some(s.queue.items[0])), pv := next)
    else if s.flags.testing && !s.flags.mjpeg then s.(pv := next)
    else s
  }

  function LockSlot(s: State, t: Thread): State {
    if t != Preview then s.(slot := s.slot.(lock := Some(t)))
    else if s.flags.running then s.(slot := s.slot.(lock := Some(t)), pv := PvReplacing)
    else s.(pool := AfterLoss(s.pool, s.vars.raw), vars := s.vars.(raw := None), pv := PvWaiting)
  }

  function UnlockSlot(s: State, t: Thread): State {
    match t
    case Preview => s.(slot := Slot(s.vars.raw, false, None), vars := s.vars.(raw := None), pv := PvWaiting)
    case Capture => s.(slot := Slot(None, false, None), cp := CpWaiting)
    case Control => s.(slot := Slot(None, false, None), ct := if s.flags.destroying then CtPool else CtIdle)
  }

  function UnlockQueue(s: State, t: Thread): State {
    var q := Queue([], 0, None, s.queue.arrivals, s.queue.gone + |s.queue.items|);
    if t == Preview then s.(queue := q, pv := PvWaiting, cp := CpClearing) else s.(queue := q, ct := CtSlot)
  }

  /** A step that gets a frame into a variable. */
  function GetInto(s: State, memory: bool, v: Locals): State {
    s.(pool := AfterGet(s.pool, memory), vars := v)
  }

  /** A step that recycles a frame. */
  function Recycling(s: State, f: Option<Frame>, v: Locals): State {
    s.(pool := AfterRecycle(s.pool, f), vars := v)
  }

  function CallbackStep(s: State, a: CallbackAction): State {
    var v, p := s.vars, s.pool;
    match a
    case CbGet(m) => GetInto(s, m, v.(copy := Got(p, m))).(cb := if Got(p, m).Some? then CbCopying else CbIdle)
    case CbCopied(ok) => s.(cb := if ok then CbAdding else CbReturning)
    case CbAdd => Add(s)
    case CbReturn => Recycling(s, v.copy, v.(copy := None)).(cb := CbIdle)
  }

  function LockStep(s: State, a: LockAction): State
    requires LockEnabled(s, a)
  {
    match a
    case QueueLock(t) => s.(queue := s.queue.(lock := Some(t)))
    case QueueRecycle(t) =>
      Recycling(s, Some(s.queue.items[s.queue.cleared]), s.vars).(queue := s.queue.(cleared := s.queue.cleared + 1))
    case QueueUnlock(t) => UnlockQueue(s, t)
    case SlotLock(t) => LockSlot(s, t)
    case SlotRecycle(t) => Recycling(s, s.slot.frame, s.vars).(slot := s.slot.(recycled := true))
    case SlotUnlock(t) => UnlockSlot(s, t)
  }

  function PreviewStep(s: State, a: PreviewAction): State {
    var v, p := s.vars, s.pool;
    match a
    case PvTake => Take(s)
    case PvGetDecoded(m) => GetInto(s, m, v.(decoded := Got(p, m))).(pv := PvDecoding)
    case PvDecoded(ok) => if ok then s.(pv := PvDrawing) else DecodeFailed(s)
    case PvGetShown(window, m) =>
      if !window then s.(pv := PvDrawn)
      else GetInto(s, m, v.(shown := Got(p, m))).(pv := if Got(p, m).Some? then PvShowing else PvDrawn)
    case PvHide => Recycling(s, v.shown, v.(shown := None)).(pv := PvDrawn)
    case PvFinish => Recycling(s, v.decoded, v.(decoded := None)).(pv := PvDeciding)
    case PvPass(capturing) =>
      if capturing then s.(pv := PvPassing) else Recycling(s, v.raw, v.(raw := None)).(pv := PvWaiting)
    case PvEnd => s.(pv := PvIdle)
    case PvGiveUp => s.(pv := PvIdle)
  }

  /** The decoded frame is recycled, the raw one is not. */
  function DecodeFailed(s: State): State {
    var r := Recycling(s, s.vars.decoded, s.vars.(decoded := None));
    r.(pool := AfterLoss(r.pool, s.vars.raw), vars := r.vars.(raw := None), pv := PvWaiting)
  }

  function CaptureStep(s: State, a: CaptureAction): State {
    var v, p := s.vars, s.pool;
    match a
    case CpTake =>
      if s.slot.frame.None? then s
      else s.(vars := v.(captured := s.slot.frame), slot := s.slot.(frame := None), cp := CpCalling)
    case CpGetSurface(m) => GetInto(s, m, v.(surface := Got(p, m)))
    case CpCall(convert, m) =>
      if convert && Got(p, m).Some? then GetInto(s, m, v.(callback := Got(p, m))).(cp := CpConverting)
      else Recycling(s, v.captured, v.(captured := None)).(cp := CpWaiting)
    case CpConverted => Recycling(s, v.captured, v.(captured := None)).(cp := CpReturning)
    case CpReturn => Recycling(s, v.callback, v.(callback := None)).(cp := CpWaiting)
    case CpDropSurface => Recycling(s, v.surface, v.(surface := None))
    case CpEnd => s.(cp := CpIdle)
  }

  function ControlStep(s: State, a: ControlAction): State {
    match a
    case Start(mjpeg, testing) =>
      s.(flags := s.flags.(running := true, mjpeg := mjpeg, testing := testing), pv := PvClearing)
    case Stop(destroying) =>
      s.(flags := s.flags.(running := false, destroying := destroying),
         ct := if s.flags.running then CtJoining else CtQueue)
    case Join => s.(ct := CtQueue)
    case ClearPool => s.(pool := Emptied(s.pool), ct := CtIdle)
  }

  function Emptied(p: Pool): Pool {
    p.(freed := p.freed + (set f | f in p.frames), frames := [])
  }

  function Step(s: State, a: Action): State
    requires Enabled(s, a)
  {
    match a
    case OfCallback(b) => CallbackStep(s, b)
    case OfLock(b) => LockStep(s, b)
    case OfPreview(b) => PreviewStep(s, b)
    case OfCapture(b) => CaptureStep(s, b)
    case OfControl(b) => ControlStep(s, b)
  }

  // What every step keeps.

  /** Variables hold frames only where the program of their thread is. */
  predicate VarsOk(s: State) {
    && (s.vars.copy.Some? <==> s.cb != CbIdle)
    && (s.vars.raw.Some? ==> s.pv != PvIdle && s.pv != PvClearing && s.pv != PvWaiting)
    && (s.vars.decoded.Some? ==> s.pv == PvDecoding || s.pv == PvDrawing || s.pv == PvShowing || s.pv == PvDrawn)
    && (s.vars.shown.Some? ==> s.pv == PvShowing)
    && (s.vars.captured.Some? ==> s.cp == CpCalling || s.cp == CpConverting)
    && (s.vars.callback.Some? ==> s.cp == CpConverting || s.cp == CpReturning)
    && (s.pv == PvClearing ==> s.cp == CpIdle)
  }

  predicate LocksOk(s: State) {
    && s.queue.cleared <= |s.queue.items| && (s.queue.cleared > 0 ==> s.queue.lock.Some?)
    && (s.slot.recycled ==> s.slot.frame.Some? && s.slot.lock.Some?)
    && (s.queue.lock.Some? ==> ClearsQueue(s, s.queue.lock.value))
    && (s.slot.lock.Some? ==> UsesSlot(s, s.slot.lock.value))
  }

  predicate Bounded(s: State) {
    |s.pool.frames| <= FRAME_POOL_SZ && |s.queue.items| <= MAX_FRAME
  }

  /** First in, first out. */
  predicate Fifo(q: Queue) {
    q.gone <= |q.arrivals| && q.items == q.arrivals[q.gone..]
  }

  function Count(b: bool): nat { if b then 1 else 0 }

  /** Of every frame that was ever allocated exactly one is true: the pool has it, it is one of
      the others, it was freed, or it was lost. */
  ghost predicate Balanced(p: Pool, others: multiset<Frame>) {
    forall f: Frame ::
      multiset(p.frames)[f] + others[f] + Count(f in p.freed) + Count(f in p.lost) == Count(f < p.next)
  }

  predicate Shape(s: State) {
    VarsOk(s) && LocksOk(s) && InBounds(s)
  }

  predicate InBounds(s: State) {
    Bounded(s) && Fifo(s.queue)
  }

  ghost predicate Balance(s: State) {
    Balanced(s.pool, Held(s.queue, s.slot, s.vars))
  }

  ghost predicate Inv(s: State) {
    Shape(s) && Balance(s)
  }

  predicate Init(s: State) {
    && !s.flags.running && s.pool == Pool([], 0, {}, {}) && s.queue == Queue([], 0, None, [], 0)
    && s.slot == Slot(None, false, None)
    && s.cb == CbIdle && s.pv == PvIdle && s.cp == CpIdle && s.ct == CtIdle
    && s.vars == Locals(None, None, None, None, None, None, None)
  }

  lemma GetBalances(p: Pool, memory: bool, others: multiset<Frame>)
    requires Balanced(p, others)
    ensures Balanced(AfterGet(p, memory), others + One(Got(p, memory)))
  {
    if p.frames != [] {
      var n := |p.frames| - 1;
      assert p.frames == p.frames[..n] + [p.frames[n]];
    } else if memory {
      assert others[p.next] == 0;
    }
  }

  lemma RecycleBalances(p: Pool, f: Option<Frame>, others: multiset<Frame>)
    requires Balanced(p, others + One(f))
    ensures Balanced(AfterRecycle(p, f), others)
  {
    if f.Some? {
      assert (others + One(f))[f.value] == others[f.value] + 1;
    }
  }

  lemma LossBalances(p: Pool, f: Option<Frame>, others: multiset<Frame>)
    requires Balanced(p, others + One(f))
    ensures Balanced(AfterLoss(p, f), others)
  {
    if f.Some? {
      assert (others + One(f))[f.value] == others[f.value] + 1;
    }
  }

  /** One variable changes. */
  lemma Swap(v: Locals, x: Option<Frame>)
    ensures InVars(v.(copy := x)) + One(v.copy) == InVars(v) + One(x)
    ensures InVars(v.(raw := x)) + One(v.raw) == InVars(v) + One(x)
    ensures InVars(v.(decoded := x)) + One(v.decoded) == InVars(v) + One(x)
    ensures InVars(v.(shown := x)) + One(v.shown) == InVars(v) + One(x)
    ensures InVars(v.(captured := x)) + One(v.captured) == InVars(v) + One(x)
    ensures InVars(v.(surface := x)) + One(v.surface) == InVars(v) + One(x)
    ensures InVars(v.(callback := x)) + One(v.callback) == InVars(v) + One(x)
  {
    hide One;
  }

  lemma Reorder(a: multiset<Frame>, b: multiset<Frame>, c: multiset<Frame>, d: multiset<Frame>)
    ensures a + b + (c + d) == (a + b + c) + d && c + multiset{} == c
  {
  }

  lemma GetKeeps(s: State, m: bool, v: Locals, f: Option<Frame>)
    requires Balance(s) && f == None && InVars(v) + One(f) == InVars(s.vars) + One(Got(s.pool, m))
    ensures Balance(GetInto(s, m, v))
  {
    hide Balanced, InVars, InQueue, InSlot, Got, AfterGet;
    GetBalances(s.pool, m, Held(s.queue, s.slot, s.vars));
    Reorder(InQueue(s.queue), InSlot(s.slot), InVars(s.vars), One(Got(s.pool, m)));
    Reorder(InQueue(s.queue), InSlot(s.slot), InVars(v), One(f));
  }

  lemma RecycleKeeps(s: State, f: Option<Frame>, v: Locals, none: Option<Frame>)
    requires Balance(s) && none == None && InVars(v) + One(f) == InVars(s.vars) + One(none)
    ensures Balance(Recycling(s, f, v))
  {
    hide Balanced, InVars, InQueue, InSlot, AfterRecycle;
    Reorder(InQueue(s.queue), InSlot(s.slot), InVars(s.vars), One(none));
    Reorder(InQueue(s.queue), InSlot(s.slot), InVars(v), One(f));
    RecycleBalances(s.pool, f, Held(s.queue, s.slot, v));
  }

  lemma LossKeeps(s: State, f: Option<Frame>, v: Locals, none: Option<Frame>)
    requires Balance(s) && none == None && InVars(v) + One(f) == InVars(s.vars) + One(none)
    ensures Balanced(AfterLoss(s.pool, f), Held(s.queue, s.slot, v))
  {
    hide Balanced, InVars, InQueue, InSlot, AfterLoss;
    Reorder(InQueue(s.queue), InSlot(s.slot), InVars(s.vars), One(none));
    Reorder(InQueue(s.queue), InSlot(s.slot), InVars(v), One(f));
    LossBalances(s.pool, f, Held(s.queue, s.slot, v));
  }

  lemma FirstAndRest(q: seq<Frame>, k: nat)
    requires k < |q|
    ensures multiset(q[k..]) == multiset{q[k]} + multiset(q[k + 1..])
  {
    assert q[k..] == [q[k]] + q[k + 1..];
  }

  /** Where the threads are and who holds a mutex does not matter. */
  lemma SameBalance(s: State, t: State)
    requires Balance(s) && s.pool == t.pool && s.vars == t.vars
    requires s.queue.items == t.queue.items && s.queue.cleared == t.queue.cleared
    requires s.slot.frame == t.slot.frame && s.slot.recycled == t.slot.recycled
    ensures Balance(t)
  {
    hide Balanced, InVars;
  }

  // Thread by thread.

  lemma AddKeeps(s: State)
    requires Balance(s) && s.queue.cleared == 0
    ensures Balance(Add(s))
  {
    hide Balanced, InVars, InSlot;
    var r := Add(s);
    if r.vars == s.vars {
      SameBalance(s, r);
    } else {
      var f := s.vars.copy.value;
      Swap(s.vars, None);
      assert s.queue.items[0..] == s.queue.items && r.queue.items[0..] == s.queue.items + [f];
      assert InQueue(r.queue) == InQueue(s.queue) + multiset{f};
      hide InQueue;
      assert InVars(s.vars) == InVars(r.vars) + multiset{f};
      assert Held(r.queue, r.slot, r.vars) == Held(s.queue, s.slot, s.vars);
    }
  }

  lemma CallbackBounds(s: State, a: CallbackAction)
    requires Shape(s) && CallbackEnabled(s, a)
    ensures InBounds(CallbackStep(s, a))
  {
    hide VarsOk;
  }

  lemma CallbackVars(s: State, a: CallbackAction)
    requires Shape(s) && CallbackEnabled(s, a)
    ensures VarsOk(CallbackStep(s, a))
  {
    hide InBounds, AfterGet, AfterRecycle, AfterLoss;
  }

  lemma CallbackLocks(s: State, a: CallbackAction)
    requires Shape(s) && CallbackEnabled(s, a)
    ensures LocksOk(CallbackStep(s, a))
  {
    hide InBounds, VarsOk, AfterGet, AfterRecycle, AfterLoss, Got;
  }

  lemma CallbackShape(s: State, a: CallbackAction)
    requires Shape(s) && CallbackEnabled(s, a)
    ensures Shape(CallbackStep(s, a))
  {
    hide VarsOk, LocksOk, InBounds, CallbackStep, CallbackEnabled;
    CallbackBounds(s, a);
    CallbackVars(s, a);
    CallbackLocks(s, a);
  }

  lemma CallbackBalance(s: State, a: CallbackAction)
    requires Inv(s) && CallbackEnabled(s, a)
    ensures Balance(CallbackStep(s, a))
  {
    hide Balance, InVars, InBounds, Got, AfterGet, AfterRecycle;
    match a
    case CbGet(m) =>
      Swap(s.vars, Got(s.pool, m));
      GetKeeps(s, m, s.vars.(copy := Got(s.pool, m)), s.vars.copy);
      SameBalance(GetInto(s, m, s.vars.(copy := Got(s.pool, m))), CallbackStep(s, a));
    case CbCopied(_) => SameBalance(s, CallbackStep(s, a));
    case CbAdd => AddKeeps(s);
    case CbReturn =>
      Swap(s.vars, None);
      RecycleKeeps(s, s.vars.copy, s.vars.(copy := None), None);
      SameBalance(Recycling(s, s.vars.copy, s.vars.(copy := None)), CallbackStep(s, a));
  }

  lemma QueueRecycled(s: State)
    requires Balance(s) && s.queue.cleared < |s.queue.items|
    ensures var f := s.queue.items[s.queue.cleared];
            Balance(Recycling(s, Some(f), s.vars).(queue := s.queue.(cleared := s.queue.cleared + 1)))
  {
    hide Balanced, InVars, InSlot, AfterRecycle;
    var q := s.queue.(cleared := s.queue.cleared + 1);
    var f := Some(s.queue.items[s.queue.cleared]);
    FirstAndRest(s.queue.items, s.queue.cleared);
    assert InQueue(s.queue) == One(f) + InQueue(q);
    hide InQueue;
    assert Held(s.queue, s.slot, s.vars) == Held(q, s.slot, s.vars) + One(f);
    RecycleBalances(s.pool, f, Held(q, s.slot, s.vars));
  }

  lemma SlotRecycled(s: State)
    requires Balance(s) && !s.slot.recycled
    ensures Balance(Recycling(s, s.slot.frame, s.vars).(slot := s.slot.(recycled := true)))
  {
    hide Balanced, InVars, InQueue, AfterRecycle;
    var t := s.slot.(recycled := true);
    assert Held(s.queue, s.slot, s.vars) == Held(s.queue, t, s.vars) + One(s.slot.frame);
    RecycleBalances(s.pool, s.slot.frame, Held(s.queue, t, s.vars));
  }

  lemma QueueEmptied(s: State, t: Thread)
    requires Balance(s) && s.queue.cleared == |s.queue.items|
    ensures Balance(UnlockQueue(s, t))
  {
    hide Balanced, InVars, InSlot;
  }

  lemma SlotEmptied(s: State, t: Thread)
    requires Balance(s) && (s.slot.frame.Some? ==> s.slot.recycled)
    ensures Balance(UnlockSlot(s, t))
  {
    hide Balanced, InVars, InQueue;
    var r := UnlockSlot(s, t);
    Swap(s.vars, None);
    assert InSlot(s.slot) == multiset{};
    if t == Preview {
      assert InVars(s.vars) == InVars(r.vars) + One(s.vars.raw);
    }
    assert Held(r.queue, r.slot, r.vars) == Held(s.queue, s.slot, s.vars);
  }

  lemma SlotLocked(s: State, t: Thread)
    requires Balance(s)
    ensures Balance(LockSlot(s, t))
  {
    hide Balance, InVars, AfterLoss;
    if t == Preview && !s.flags.running {
      Swap(s.vars, None);
      LossKeeps(s, s.vars.raw, s.vars.(raw := None), None);
      BalanceIs(LockSlot(s, t));
    } else {
      SameBalance(s, LockSlot(s, t));
    }
  }

  lemma BalanceIs(s: State)
    ensures Balance(s) <==> Balanced(s.pool, Held(s.queue, s.slot, s.vars))
  {
  }

  lemma LockBounds(s: State, a: LockAction)
    requires Shape(s) && LockEnabled(s, a)
    ensures InBounds(LockStep(s, a))
  {
    hide VarsOk;
  }

  lemma QueueVars(s: State, a: LockAction)
    requires Shape(s) && LockEnabled(s, a) && (a.QueueLock? || a.QueueRecycle? || a.QueueUnlock?)
    ensures VarsOk(LockStep(s, a))
  {
    hide InBounds, AfterGet, AfterRecycle, AfterLoss;
  }

  lemma SlotLockVars(s: State, a: LockAction)
    requires Shape(s) && LockEnabled(s, a) && a.SlotLock?
    ensures VarsOk(LockStep(s, a))
  {
    hide InBounds, AfterGet, AfterRecycle, AfterLoss;
  }

  lemma SlotVars(s: State, a: LockAction)
    requires Shape(s) && LockEnabled(s, a) && (a.SlotRecycle? || a.SlotUnlock?)
    ensures VarsOk(LockStep(s, a))
  {
    hide InBounds, AfterGet, AfterRecycle, AfterLoss;
  }

  lemma LockLocks(s: State, a: LockAction)
    requires Shape(s) && LockEnabled(s, a)
    ensures LocksOk(LockStep(s, a))
  {
    hide InBounds, VarsOk, AfterGet, AfterRecycle, AfterLoss, Got;
  }

  lemma LockShape(s: State, a: LockAction)
    requires Shape(s) && LockEnabled(s, a)
    ensures Shape(LockStep(s, a))
  {
    hide VarsOk, LocksOk, InBounds, LockStep, LockEnabled;
    LockBounds(s, a);
    if a.QueueLock? || a.QueueRecycle? || a.QueueUnlock? {
      QueueVars(s, a);
    } else if a.SlotLock? {
      SlotLockVars(s, a);
    } else {
      SlotVars(s, a);
    }
    LockLocks(s, a);
  }

  lemma LockBalance(s: State, a: LockAction)
    requires Inv(s) && LockEnabled(s, a)
    ensures Balance(LockStep(s, a))
  {
    hide Balance, InVars, InBounds, UnlockQueue, UnlockSlot, LockSlot;
    match a
    case QueueLock(_) => SameBalance(s, LockStep(s, a));
    case QueueRecycle(_) => QueueRecycled(s);
    case QueueUnlock(t) => QueueEmptied(s, t);
    case SlotLock(t) => SlotLocked(s, t);
    case SlotRecycle(_) => SlotRecycled(s);
    case SlotUnlock(t) => SlotEmptied(s, t);
  }

  lemma TakeKeeps(s: State)
    requires Balance(s) && s.queue.cleared == 0 && s.vars.raw.None?
    ensures Balance(Take(s))
  {
    hide Balanced, InVars, InSlot;
    var r := Take(s);
    if s.queue.items == [] {
      SameBalance(s, r);
    } else {
      var f := s.queue.items[0];
      FirstAndRest(s.queue.items, 0);
      Swap(s.vars, Some(f));
      assert r.queue.items[0..] == s.queue.items[1..];
      assert InQueue(s.queue) == multiset{f} + InQueue(r.queue);
      hide InQueue;
      assert InVars(r.vars) == InVars(s.vars) + multiset{f};
      assert Held(r.queue, r.slot, r.vars) == Held(s.queue, s.slot, s.vars);
    }
  }

  lemma DecodeFailedKeeps(s: State)
    requires Balance(s)
    ensures Balance(DecodeFailed(s))
  {
    hide Balance, InVars, AfterRecycle, AfterLoss;
    Swap(s.vars, None);
    RecycleKeeps(s, s.vars.decoded, s.vars.(decoded := None), None);
    var r := Recycling(s, s.vars.decoded, s.vars.(decoded := None));
    Swap(r.vars, None);
    LossKeeps(r, r.vars.raw, r.vars.(raw := None), None);
    BalanceIs(DecodeFailed(s));
  }

  lemma PreviewBounds(s: State, a: PreviewAction)
    requires Shape(s) && PreviewEnabled(s, a)
    ensures InBounds(PreviewStep(s, a))
  {
    hide VarsOk;
  }

  lemma PreviewVars(s: State, a: PreviewAction)
    requires Shape(s) && PreviewEnabled(s, a)
    ensures VarsOk(PreviewStep(s, a))
  {
    hide InBounds, AfterGet, AfterRecycle, AfterLoss;
  }

  lemma PreviewLocks(s: State, a: PreviewAction)
    requires Shape(s) && PreviewEnabled(s, a)
    ensures LocksOk(PreviewStep(s, a))
  {
    hide InBounds, VarsOk, AfterGet, AfterRecycle, AfterLoss, Got;
  }

  lemma PreviewShape(s: State, a: PreviewAction)
    requires Shape(s) && PreviewEnabled(s, a)
    ensures Shape(PreviewStep(s, a))
  {
    hide VarsOk, LocksOk, InBounds, PreviewStep, PreviewEnabled;
    PreviewBounds(s, a);
    PreviewVars(s, a);
    PreviewLocks(s, a);
  }

  lemma PreviewBalance(s: State, a: PreviewAction)
    requires Inv(s) && PreviewEnabled(s, a)
    ensures Balance(PreviewStep(s, a))
  {
    hide Balance, InVars, InBounds, Got, AfterGet, AfterRecycle, Take, DecodeFailed;
    Swap(s.vars, None);
    match a
    case PvTake => TakeKeeps(s);
    case PvGetDecoded(m) =>
      Swap(s.vars, Got(s.pool, m));
      GetKeeps(s, m, s.vars.(decoded := Got(s.pool, m)), s.vars.decoded);
      SameBalance(GetInto(s, m, s.vars.(decoded := Got(s.pool, m))), PreviewStep(s, a));
    case PvDecoded(ok) =>
      if ok {
        SameBalance(s, PreviewStep(s, a));
      } else {
        DecodeFailedKeeps(s);
      }
    case PvGetShown(window, m) =>
      if window {
        Swap(s.vars, Got(s.pool, m));
        GetKeeps(s, m, s.vars.(shown := Got(s.pool, m)), s.vars.shown);
        SameBalance(GetInto(s, m, s.vars.(shown := Got(s.pool, m))), PreviewStep(s, a));
      } else {
        SameBalance(s, PreviewStep(s, a));
      }
    case PvHide =>
      RecycleKeeps(s, s.vars.shown, s.vars.(shown := None), None);
      SameBalance(Recycling(s, s.vars.shown, s.vars.(shown := None)), PreviewStep(s, a));
    case PvFinish =>
      RecycleKeeps(s, s.vars.decoded, s.vars.(decoded := None), None);
      SameBalance(Recycling(s, s.vars.decoded, s.vars.(decoded := None)), PreviewStep(s, a));
    case PvPass(capturing) =>
      RecycleKeeps(s, s.vars.raw, s.vars.(raw := None), None);
      SameBalance(if capturing then s else Recycling(s, s.vars.raw, s.vars.(raw := None)), PreviewStep(s, a));
    case PvEnd => SameBalance(s, PreviewStep(s, a));
    case PvGiveUp => SameBalance(s, PreviewStep(s, a));
  }

  lemma SlotTaken(s: State)
    requires Balance(s) && !s.slot.recycled && s.vars.captured.None?
    ensures Balance(CaptureStep(s, CpTake))
  {
    hide Balanced, InVars, InQueue;
    Swap(s.vars, s.slot.frame);
    var r := CaptureStep(s, CpTake);
    assert InVars(s.vars.(captured := s.slot.frame)) == InVars(s.vars) + One(s.slot.frame);
    assert Held(r.queue, r.slot, r.vars) == Held(s.queue, s.slot, s.vars);
  }

  lemma CaptureBounds(s: State, a: CaptureAction)
    requires Shape(s) && CaptureEnabled(s, a)
    ensures InBounds(CaptureStep(s, a))
  {
    hide VarsOk;
  }

  lemma CaptureVars(s: State, a: CaptureAction)
    requires Shape(s) && CaptureEnabled(s, a)
    ensures VarsOk(CaptureStep(s, a))
  {
    hide InBounds, AfterGet, AfterRecycle, AfterLoss;
  }

  lemma CaptureLocks(s: State, a: CaptureAction)
    requires Shape(s) && CaptureEnabled(s, a)
    ensures LocksOk(CaptureStep(s, a))
  {
    hide InBounds, VarsOk, AfterGet, AfterRecycle, AfterLoss, Got;
  }

  lemma CaptureShape(s: State, a: CaptureAction)
    requires Shape(s) && CaptureEnabled(s, a)
    ensures Shape(CaptureStep(s, a))
  {
    hide VarsOk, LocksOk, InBounds, CaptureStep, CaptureEnabled;
    CaptureBounds(s, a);
    CaptureVars(s, a);
    CaptureLocks(s, a);
  }

  lemma CaptureBalance(s: State, a: CaptureAction)
    requires Inv(s) && CaptureEnabled(s, a)
    ensures Balance(CaptureStep(s, a))
  {
    hide Balance, InVars, InBounds, Got, AfterGet, AfterRecycle;
    Swap(s.vars, None);
    match a
    case CpTake => SlotTaken(s);
    case CpGetSurface(m) =>
      Swap(s.vars, Got(s.pool, m));
      GetKeeps(s, m, s.vars.(surface := Got(s.pool, m)), s.vars.surface);
    case CpCall(convert, m) =>
      if convert && Got(s.pool, m).Some? {
        Swap(s.vars, Got(s.pool, m));
        GetKeeps(s, m, s.vars.(callback := Got(s.pool, m)), s.vars.callback);
        SameBalance(GetInto(s, m, s.vars.(callback := Got(s.pool, m))), CaptureStep(s, a));
      } else {
        RecycleKeeps(s, s.vars.captured, s.vars.(captured := None), None);
        SameBalance(Recycling(s, s.vars.captured, s.vars.(captured := None)), CaptureStep(s, a));
      }
    case CpConverted =>
      RecycleKeeps(s, s.vars.captured, s.vars.(captured := None), None);
      SameBalance(Recycling(s, s.vars.captured, s.vars.(captured := None)), CaptureStep(s, a));
    case CpReturn =>
      RecycleKeeps(s, s.vars.callback, s.vars.(callback := None), None);
      SameBalance(Recycling(s, s.vars.callback, s.vars.(callback := None)), CaptureStep(s, a));
    case CpDropSurface => RecycleKeeps(s, s.vars.surface, s.vars.(surface := None), None);
    case CpEnd => SameBalance(s, CaptureStep(s, a));
  }

  lemma EmptiedBalances(p: Pool, others: multiset<Frame>)
    requires Balanced(p, others)
    ensures Balanced(Emptied(p), others)
  {
    forall f: Frame
      ensures others[f] + Count(f in Emptied(p).freed) + Count(f in p.lost) == Count(f < p.next)
    {
      assert f in p.frames <==> multiset(p.frames)[f] > 0;
    }
  }

  lemma ControlKeeps(s: State, a: ControlAction)
    requires Inv(s) && ControlEnabled(s, a)
    ensures Inv(ControlStep(s, a))
  {
    hide Balanced, Held, Emptied;
    if a.ClearPool? {
      EmptiedBalances(s.pool, Held(s.queue, s.slot, s.vars));
      EmptiedPool(s.pool);
    }
  }

  lemma EmptiedPool(p: Pool)
    ensures Emptied(p).frames == []
  {
  }

  /** Every step of every thread keeps the invariant. */
  lemma StepKeeps(s: State, a: Action)
    requires Inv(s) && Enabled(s, a)
    ensures Inv(Step(s, a))
  {
    hide Shape, Balance, CallbackStep, LockStep, PreviewStep, CaptureStep, ControlStep;
    hide CallbackEnabled, LockEnabled, PreviewEnabled, CaptureEnabled, ControlEnabled;
    match a
    case OfCallback(b) =>
      CallbackShape(s, b);
      CallbackBalance(s, b);
    case OfLock(b) =>
      LockShape(s, b);
      LockBalance(s, b);
    case OfPreview(b) =>
      PreviewShape(s, b);
      PreviewBalance(s, b);
    case OfCapture(b) =>
      CaptureShape(s, b);
      CaptureBalance(s, b);
    case OfControl(b) => ControlKeeps(s, b);
  }

  /** A run: any interleaving of the steps of the threads. */
  ghost predicate Run(states: seq<State>, actions: seq<Action>) {
    && |states| == |actions| + 1 && Init(states[0])
    && forall i :: 0 <= i < |actions| ==> Follows(states, actions, i)
  }

  ghost predicate Follows(states: seq<State>, actions: seq<Action>, i: nat)
    requires i < |actions| && |states| == |actions| + 1
  {
    Enabled(states[i], actions[i]) && states[i + 1] == Step(states[i], actions[i])
  }

  lemma StartsWell(s: State)
    requires Init(s)
    ensures Inv(s)
  {
  }

  lemma {:induction false} RunKeeps(states: seq<State>, actions: seq<Action>, n: nat)
    requires Run(states, actions) && n < |states|
    ensures Inv(states[n])
  {
    hide Inv, Step, Enabled, Init;
    if n == 0 {
      StartsWell(states[0]);
    } else {
      RunKeeps(states, actions, n - 1);
      assert Follows(states, actions, n - 1);
      StepKeeps(states[n - 1], actions[n - 1]);
    }
  }

  /** In every state of every run: no frame has two owners, no frame that was freed has an owner,
      the pool holds at most six frames and the queue four, and what is in the queue is what came
      last, in the order in which it came. */
  lemma FramesAreSafe(states: seq<State>, actions: seq<Action>, n: nat)
    requires Run(states, actions) && n < |states|
    ensures var s := states[n];
            && (forall f: Frame :: var owners := multiset(s.pool.frames) + Held(s.queue, s.slot, s.vars);
                  owners[f] <= 1 && (owners[f] == 1 ==> f < s.pool.next && f !in s.pool.freed && f !in s.pool.lost))
            && |s.pool.frames| <= FRAME_POOL_SZ && |s.queue.items| <= MAX_FRAME
            && Fifo(s.queue)
  {
    hide Held, Run;
    RunKeeps(states, actions, n);
    var s := states[n];
    forall f: Frame
      ensures var owners := multiset(s.pool.frames) + Held(s.queue, s.slot, s.vars);
              owners[f] <= 1 && (owners[f] == 1 ==> f < s.pool.next && f !in s.pool.freed && f !in s.pool.lost)
    {
      assert multiset(s.pool.frames)[f] + Held(s.queue, s.slot, s.vars)[f] + Count(f in s.pool.freed) +
        Count(f in s.pool.lost) == Count(f < s.pool.next);
    }
  }

  // What becomes of a frame.

  /** A copied frame is turned away only if the preview does not run or four frames wait; otherwise it
      is the last one of the queue. */
  lemma FrameAccepted(states: seq<State>, actions: seq<Action>, n: nat)
    requires Run(states, actions) && n < |actions| && actions[n] == OfCallback(CbAdd)
    ensures states[n].vars.copy.Some?
    ensures var s, s', f := states[n], states[n + 1], states[n].vars.copy.value;
            if s.flags.running && |s.queue.items| != 4 then
              && s'.queue.arrivals == s.queue.arrivals + [f] && s'.queue.items == s.queue.items + [f]
              && s'.vars.copy.None? && s'.pool == s.pool
            else
              s'.queue == s.queue && s'.vars == s.vars && s'.pool == s.pool && s'.cb == CbReturning
  {
    RunKeeps(states, actions, n);
    assert Follows(states, actions, n);
  }

  /** The preview takes the frame that has waited longest. */
  lemma OldestTaken(states: seq<State>, actions: seq<Action>, n: nat)
    requires Run(states, actions) && n < |actions| && actions[n] == OfPreview(PvTake)
    ensures var s, s' := states[n], states[n + 1];
            if s.queue.items == [] then s'.queue == s.queue && s'.vars == s.vars
            else
              && s.queue.gone < |s.queue.arrivals| && s'.vars.raw == Some(s.queue.arrivals[s.queue.gone])
              && s'.queue.items == s.queue.items[1..] && s'.queue.arrivals == s.queue.arrivals
  {
    StepTaken(states, actions, n);
    RunKeeps(states, actions, n);
  }

  lemma StepTaken(states: seq<State>, actions: seq<Action>, n: nat)
    requires Run(states, actions) && n < |actions|
    ensures |states| == |actions| + 1 && Enabled(states[n], actions[n])
    ensures states[n + 1] == Step(states[n], actions[n])
  {
    assert Follows(states, actions, n);
  }

  /** A frame that replaces another one in the capture slot is the one just shown; the other one has
      been recycled. */
  lemma NewestCaptured(states: seq<State>, actions: seq<Action>, n: nat)
    requires Run(states, actions) && n < |actions| && actions[n] == OfLock(SlotUnlock(Preview))
    ensures states[n + 1].slot == Slot(states[n].vars.raw, false, None) && states[n + 1].vars.raw.None?
    ensures states[n].slot.frame.Some? ==> states[n].slot.recycled
  {
    StepTaken(states, actions, n);
  }

  /** A frame is freed only when six are in the pool, or when the pool is cleared. */
  lemma FreedOnlyWhenFull(states: seq<State>, actions: seq<Action>, n: nat, f: Frame)
    requires Run(states, actions) && n < |actions|
    requires f in states[n + 1].pool.freed && f !in states[n].pool.freed
    ensures actions[n] == OfControl(ClearPool) || |states[n].pool.frames| == 6
  {
    RunKeeps(states, actions, n);
    StepTaken(states, actions, n);
    FreedByStep(states[n], actions[n], f);
  }

  lemma FreedByStep(s: State, a: Action, f: Frame)
    requires Enabled(s, a) && f in Step(s, a).pool.freed && f !in s.pool.freed
    ensures a == OfControl(ClearPool) || |s.pool.frames| >= 6
  {
  }

  /** Frames are put on top of the pool and taken from there; a new one is allocated only when the pool is
      empty. */
  lemma PoolIsStack(states: seq<State>, actions: seq<Action>, n: nat)
    requires Run(states, actions) && n < |actions|
    ensures var p, p' := states[n].pool, states[n + 1].pool;
            && (p'.next == p.next || (p.frames == [] && p'.next == p.next + 1))
            && (|| p'.frames == p.frames
                || (p.frames != [] && p'.frames == p.frames[..|p.frames| - 1])
                || (|p.frames| < 6 && |p'.frames| == |p.frames| + 1 && p.frames == p'.frames[..|p.frames|])
                || (actions[n] == OfControl(ClearPool) && p'.frames == []))
  {
    StepTaken(states, actions, n);
    StackByStep(states[n], actions[n]);
  }

  lemma StackByStep(s: State, a: Action)
    requires Enabled(s, a)
    ensures var p, p' := s.pool, Step(s, a).pool;
            && (p'.next == p.next || (p.frames == [] && p'.next == p.next + 1))
            && (|| p'.frames == p.frames
                || (p.frames != [] && p'.frames == p.frames[..|p.frames| - 1])
                || (|p.frames| < 6 && |p'.frames| == |p.frames| + 1 && p.frames == p'.frames[..|p.frames|])
                || (a == OfControl(ClearPool) && p'.frames == []))
  {
  }

  // The bounds are reached.

  function Initial(): State {
    State(Flags(false, false, false, false), Pool([], 0, {}, {}), Queue([], 0, None, [], 0), Slot(None, false, None),
          CbIdle, PvIdle, CpIdle, CtIdle, Locals(None, None, None, None, None, None, None))
  }

  /** A run goes on with one more step. */
  lemma OneMore(states: seq<State>, actions: seq<Action>, a: Action)
    returns (states': seq<State>, actions': seq<Action>)
    requires Run(states, actions) && Enabled(states[|actions|], a)
    ensures Run(states', actions') && |actions'| == |actions| + 1
    ensures states'[|actions'|] == Step(states[|actions|], a)
    ensures actions' == actions + [a] && states' == states + [Step(states[|actions|], a)]
  {
    hide Step, Enabled, Init;
    states', actions' := states + [Step(states[|actions|], a)], actions + [a];
    forall i | 0 <= i < |actions'|
      ensures Follows(states', actions', i)
    {
      if i < |actions| {
        assert Follows(states, actions, i);
      }
    }
  }

  /** The preview runs and the callback has put the first frame into the queue. */
  lemma FirstFrame(mjpeg: bool) returns (states: seq<State>, actions: seq<Action>)
    ensures Run(states, actions)
    ensures states[|actions|] ==
            Initial().(flags := Flags(true, mjpeg, false, false), pool := Pool([], 1, {}, {}),
                       queue := Queue([0], 0, None, [0], 0), pv := PvWaiting, cp := CpClearing)
  {
    states, actions := [Initial()], [];
    states, actions := OneMore(states, actions, OfControl(Start(mjpeg, false)));
    states, actions := OneMore(states, actions, OfLock(QueueLock(Preview)));
    states, actions := OneMore(states, actions, OfLock(QueueUnlock(Preview)));
    states, actions := OneMore(states, actions, OfCallback(CbGet(true)));
    states, actions := OneMore(states, actions, OfCallback(CbCopied(true)));
    states, actions := OneMore(states, actions, OfCallback(CbAdd));
  }

  /** One more frame from the callback. */
  lemma OneMoreFrame(states: seq<State>, actions: seq<Action>)
    returns (states': seq<State>, actions': seq<Action>)
    requires Run(states, actions)
    requires var s := states[|actions|];
             && s.flags.running && s.cb == CbIdle && s.queue.lock.None? && |s.queue.items| < 4
             && s.pool.frames == [] && s.vars.copy.None?
    ensures Run(states', actions') && |actions'| == |actions| + 3
    ensures var s, s' := states[|actions|], states'[|actions'|];
            s' == s.(pool := s.pool.(next := s.pool.next + 1),
                     queue := s.queue.(items := s.queue.items + [s.pool.next],
                                       arrivals := s.queue.arrivals + [s.pool.next]))
  {
    states', actions' := OneMore(states, actions, OfCallback(CbGet(true)));
    states', actions' := OneMore(states', actions', OfCallback(CbCopied(true)));
    states', actions' := OneMore(states', actions', OfCallback(CbAdd));
  }

  /** Four frames wait. */
  lemma QueueFills() returns (states: seq<State>, actions: seq<Action>)
    ensures Run(states, actions)
    ensures states[|actions|] ==
            Initial().(flags := Flags(true, false, false, false), pool := Pool([], 4, {}, {}),
                       queue := Queue([0, 1, 2, 3], 0, None, [0, 1, 2, 3], 0), pv := PvWaiting, cp := CpClearing)
  {
    states, actions := FirstFrame(false);
    states, actions := OneMoreFrame(states, actions);
    states, actions := OneMoreFrame(states, actions);
    states, actions := OneMoreFrame(states, actions);
  }

  /** Another one waits, one is shown, and a sixth frame was to be copied in vain. */
  lemma SixFrames() returns (states: seq<State>, actions: seq<Action>)
    ensures Run(states, actions)
    ensures states[|actions|] ==
            Initial().(flags := Flags(true, false, false, false), pool := Pool([5, 0], 6, {}, {}),
                       queue := Queue([1, 2, 3, 4], 0, None, [0, 1, 2, 3, 4], 1), pv := PvWaiting, cp := CpClearing)
  {
    states, actions := QueueFills();
    states, actions := OneMore(states, actions, OfPreview(PvTake));
    states, actions := OneMoreFrame(states, actions);
    states, actions := OneMore(states, actions, OfCallback(CbGet(true)));
    states, actions := OneMore(states, actions, OfCallback(CbCopied(false)));
    states, actions := OneMore(states, actions, OfCallback(CbReturn));
    states, actions := OneMore(states, actions, OfPreview(PvGetShown(false, true)));
    states, actions := OneMore(states, actions, OfPreview(PvFinish));
    states, actions := OneMore(states, actions, OfPreview(PvPass(false)));
  }

  /** The preview has been stopped; the queue is to be cleared. */
  lemma Stopped() returns (states: seq<State>, actions: seq<Action>)
    ensures Run(states, actions)
    ensures states[|actions|] ==
            Initial().(pool := Pool([5, 0], 6, {}, {}),
                       queue := Queue([1, 2, 3, 4], 0, None, [0, 1, 2, 3, 4], 1), ct := CtQueue)
  {
    states, actions := SixFrames();
    states, actions := OneMore(states, actions, OfControl(Stop(false)));
    states, actions := OneMore(states, actions, OfPreview(PvEnd));
    states, actions := OneMore(states, actions, OfLock(SlotLock(Capture)));
    states, actions := OneMore(states, actions, OfLock(SlotUnlock(Capture)));
    states, actions := OneMore(states, actions, OfCapture(CpEnd));
    states, actions := OneMore(states, actions, OfControl(Join));
  }

  /** Six frames are in the pool. */
  lemma PoolFills() returns (states: seq<State>, actions: seq<Action>)
    ensures Run(states, actions) && states[|actions|].pool == Pool([5, 0, 1, 2, 3, 4], 6, {}, {})
  {
    states, actions := Stopped();
    states, actions := OneMore(states, actions, OfLock(QueueLock(Control)));
    states, actions := OneMore(states, actions, OfLock(QueueRecycle(Control)));
    states, actions := OneMore(states, actions, OfLock(QueueRecycle(Control)));
    states, actions := OneMore(states, actions, OfLock(QueueRecycle(Control)));
    states, actions := OneMore(states, actions, OfLock(QueueRecycle(Control)));
  }

  // Lost frames.

  /** The step lets go of the frame without recycling it: the frame cannot be decoded, or it is to
      be captured after the preview was stopped. */
  predicate Loses(s: State, a: Action, f: Frame) {
    s.vars.raw == Some(f) && (a == OfPreview(PvDecoded(false)) || (a == OfLock(SlotLock(Preview)) && !s.flags.running))
  }

  lemma LostByStep(s: State, a: Action, f: Frame)
    requires Enabled(s, a)
    ensures f in Step(s, a).pool.lost <==> f in s.pool.lost || Loses(s, a, f)
  {
  }

  ghost predicate LostWithin(states: seq<State>, actions: seq<Action>, n: nat, f: Frame)
    requires n <= |actions| && |states| == |actions| + 1
  {
    exists i :: 0 <= i < n && Loses(states[i], actions[i], f)
  }

  lemma {:induction false} LostInRun(states: seq<State>, actions: seq<Action>, n: nat, f: Frame)
    requires Run(states, actions) && n <= |actions|
    ensures f in states[n].pool.lost <==> LostWithin(states, actions, n, f)
  {
    if n > 0 {
      LostInRun(states, actions, n - 1, f);
      assert Follows(states, actions, n - 1);
      hide Step, Enabled, Init, Loses;
      LostByStep(states[n - 1], actions[n - 1], f);
      assert LostWithin(states, actions, n, f) <==>
        LostWithin(states, actions, n - 1, f) || Loses(states[n - 1], actions[n - 1], f);
    }
  }

  /** The frame was allocated and not freed, and neither the pool nor anyone else has it. */
  ghost predicate Leaked(s: State, f: Frame) {
    f < s.pool.next && f !in s.pool.freed && f !in s.pool.frames && Held(s.queue, s.slot, s.vars)[f] == 0
  }

  /** In every state of every run the leaked frames are those that one of two steps let go of: when
      a frame cannot be decoded, and when a frame is to be captured after the preview was stopped.
      So neither is ever made good, and there are no other leaks. */
  lemma TwoLeaks(states: seq<State>, actions: seq<Action>, n: nat, f: Frame)
    requires Run(states, actions) && n <= |actions|
    ensures Leaked(states[n], f) <==> LostWithin(states, actions, n, f)
  {
    assert |states| == |actions| + 1;
    hide Held, Run, LostWithin;
    RunKeeps(states, actions, n);
    LostInRun(states, actions, n, f);
    var s := states[n];
    assert multiset(s.pool.frames)[f] + Held(s.queue, s.slot, s.vars)[f] + Count(f in s.pool.freed) +
      Count(f in s.pool.lost) == Count(f < s.pool.next);
  }

  // Both leaks occur.

  /** A frame that cannot be decoded is leaked. */
  lemma DecodingLeaks() returns (states: seq<State>, actions: seq<Action>)
    ensures Run(states, actions) && Leaked(states[|actions|], 0)
    ensures actions != [] && Loses(states[|actions| - 1], OfPreview(PvDecoded(false)), 0)
    ensures actions[|actions| - 1] == OfPreview(PvDecoded(false))
  {
    states, actions := FirstFrame(true);
    states, actions := OneMore(states, actions, OfPreview(PvTake));
    states, actions := OneMore(states, actions, OfPreview(PvGetDecoded(true)));
    states, actions := OneMore(states, actions, OfPreview(PvDecoded(false)));
  }

  /** A frame that is passed on after the preview was stopped is leaked. */
  lemma CapturingLeaks() returns (states: seq<State>, actions: seq<Action>)
    ensures Run(states, actions) && Leaked(states[|actions|], 0)
    ensures actions != [] && Loses(states[|actions| - 1], OfLock(SlotLock(Preview)), 0)
    ensures actions[|actions| - 1] == OfLock(SlotLock(Preview))
  {
    states, actions := FirstFrame(false);
    states, actions := OneMore(states, actions, OfPreview(PvTake));
    states, actions := OneMore(states, actions, OfPreview(PvGetShown(false, true)));
    states, actions := OneMore(states, actions, OfPreview(PvFinish));
    states, actions := OneMore(states, actions, OfPreview(PvPass(true)));
    states, actions := OneMore(states, actions, OfControl(Stop(false)));
    states, actions := OneMore(states, actions, OfLock(SlotLock(Preview)));
  }
}
