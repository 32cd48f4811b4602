/**
 The receive descriptor ring. The engine fills the descriptors it owns, reports a length and
 sets OWN; the driver copies out the frame at its head, drops what is not a whole well-formed
 frame, and hands the descriptor back by clearing OWN.

 A run cuts both sides at every access to what they share, down to the bytes of the copies;
 RxSafety says what every run keeps. GemRxQueue.dfy has the driver's code.
 */
module GemRxRing {
  import opened Bytes

  const RX_DESC_COUNT := 16
  const RX_BUFFER_SIZE := 2048
  const ETHER_HEADER_SIZE := 14
  const LENGTH_MASK := 0x1FFF

  /** Address word (OWN, WRAP) and control word (SOF, EOF, length). */
  datatype Desc = Desc(own: bool, wrap: bool, sof: bool, eof: bool, length: nat)

  datatype RxState = RxState(desc: seq<Desc>, buffers: seq<byte>, head: nat)

  predicate Shaped(s: RxState) {
    && |s.desc| == RX_DESC_COUNT && |s.buffers| == RX_DESC_COUNT * RX_BUFFER_SIZE && s.head < RX_DESC_COUNT
  }

  /** GemInitRings, receive half: every descriptor belongs to the hardware. */
  function InitRx(buffers: seq<byte>): RxState {
    RxState(seq(RX_DESC_COUNT, i => Desc(false, i == RX_DESC_COUNT - 1, false, false, 0)), buffers, 0)
  }

  /** A whole frame in one descriptor, of a plausible length. */
  predicate Good(d: Desc) {
    d.sof && d.eof && ETHER_HEADER_SIZE <= d.length <= RX_BUFFER_SIZE
  }

  /** GemRecycleRxDescriptor while the hardware stands still. */
  function Recycle(s: RxState, i: nat): (r: RxState)
    requires Shaped(s) && i < RX_DESC_COUNT
    ensures Shaped(r)
  {
    s.(desc := s.desc[i := Desc(false, s.desc[i].wrap, false, false, 0)], head := (i + 1) % RX_DESC_COUNT)
  }

  /** GemRxPending. */
  predicate Pending(s: RxState)
    requires Shaped(s)
  {
    s.desc[s.head].own
  }

  // ----- a call while the hardware stands still -----

  /** One iteration of the receive loop: go on, or return with a status, a size and the bytes copied out. */
  datatype Outcome = Continue(next: RxState) | Done(status: Status, size: nat, frame: seq<byte>, next: RxState)

  function Iterate(s: RxState, size: nat): (r: Outcome)
    requires Shaped(s)
    ensures Shaped(r.next)
  {
    var d := s.desc[s.head];
    if !d.own then Done(NotReady, size, [], s)
    else if !Good(d) then Continue(Recycle(s, s.head))
    else if size < d.length then Done(BufferTooSmall, d.length, [], s)
    else Done(Success, d.length, s.buffers[s.head * RX_BUFFER_SIZE..][..d.length], Recycle(s, s.head))
  }

  /** Descriptors the driver may look at. */
  function Owned(desc: seq<Desc>): nat {
    if desc == [] then 0 else (if desc[0].own then 1 else 0) + Owned(desc[1..])
  }

  lemma {:induction false} OwnedUpdate(desc: seq<Desc>, i: nat, d: Desc)
    requires i < |desc|
    ensures Owned(desc[i := d]) == Owned(desc) + (if d.own then 1 else 0) - (if desc[i].own then 1 else 0)
  {
    if i > 0 {
      assert desc[i := d][0] == desc[0] && desc[i := d][1..] == desc[1..][i - 1 := d];
      OwnedUpdate(desc[1..], i - 1, d);
    } else {
      assert desc[0 := d][1..] == desc[1..];
    }
  }

  /** GemReceiveFrame, when the hardware stands still: iterate until done. It ends because every dropped
      descriptor leaves the owned ones. */
  function Receive(s: RxState, size: nat): (r: Outcome)
    requires Shaped(s)
    ensures r.Done? && Shaped(r.next)
    decreases Owned(s.desc)
  {
    var r := Iterate(s, size);
    if r.Done? then r else
      OwnedUpdate(s.desc, s.head, r.next.desc[s.head]);
      Receive(r.next, size)
  }

  /** A buffer that is too small loses nothing: the same call again gives the same answer and changes nothing, and
      a call with the size it reported delivers a frame of exactly that size. */
  lemma {:induction false} TooSmallKeeps(s: RxState, size: nat)
    requires Shaped(s) && Receive(s, size).status == BufferTooSmall
    ensures var r := Receive(s, size);
      && size < r.size <= RX_BUFFER_SIZE && Shaped(r.next)
      && Receive(r.next, size) == r
      && Receive(r.next, r.size).status == Success && |Receive(r.next, r.size).frame| == r.size
    decreases Owned(s.desc)
  {
    var r := Iterate(s, size);
    if r.Continue? {
      OwnedUpdate(s.desc, s.head, r.next.desc[s.head]);
      TooSmallKeeps(r.next, size);
    }
  }

  // ----- the steps of driver and hardware -----

  /** What the hardware stores in one descriptor. */
  datatype Arrival = Arrival(sof: bool, eof: bool, length: nat, data: seq<byte>)

  /** The hardware fills at most one buffer, and a length it reports for a whole frame is the number of bytes stored. */
  predicate ArrivalOk(a: Arrival) {
    a.length <= LENGTH_MASK && |a.data| <= RX_BUFFER_SIZE &&
    (a.sof && a.eof && a.length <= RX_BUFFER_SIZE ==> |a.data| == a.length)
  }

  predicate GoodArrival(a: Arrival) {
    a.sof && a.eof && ETHER_HEADER_SIZE <= a.length <= RX_BUFFER_SIZE
  }

  /** Where the driver is in a call, between two accesses to what the hardware shares. `frame` is what it has copied out, or
      None for a descriptor it drops. */
  datatype Pc =
    | Idle
    | Looking(size: nat)                                             // about to read the address word at the head
    | Checking(size: nat)                                            // OWN was set; about to read the control word
    | Copying(size: nat, length: nat, got: seq<byte>)                // copying the frame out
    | Clearing(size: nat, frame: Option<seq<byte>>)                  // about to clear the control word
    | Releasing(size: nat, frame: Option<seq<byte>>)                 // about to clear OWN
    | Advancing(size: nat, frame: Option<seq<byte>>)                 // about to move the head

  /** Where the DMA engine is: before a descriptor, storing the bytes of an arrival, or with the control word written. */
  datatype Engine = Ready | Filling(arrival: Arrival, stored: nat) | Filled(arrival: Arrival)

  /** How the last call ended. */
  datatype Answer = Answer(status: Status, size: nat, frame: seq<byte>)

  /** The whole system: memory, driver, engine and its ring position, the descriptors it has filled, how many of them the
      driver has handed back, and the frames it has given to its callers. */
  datatype System = System(
    rx: RxState, pc: Pc, engine: Engine, hw: nat,
    arrived: seq<Arrival>, taken: nat, delivered: seq<seq<byte>>, answer: Answer)

  datatype Action =
    | Begin(size: nat)             // Receive() with a buffer of `size` bytes
    | Driver                       // the next access of the call under way
    | Arrive(arrival: Arrival)     // a frame, or a part of one, for the next descriptor
    | Hardware                     // the next access of the engine

  predicate Ok(sys: System) {
    && Shaped(sys.rx) && sys.hw < RX_DESC_COUNT
    && (sys.pc.Copying? ==> |sys.pc.got| <= sys.pc.length <= RX_BUFFER_SIZE)
    && (!sys.engine.Ready? ==> ArrivalOk(sys.engine.arrival))
    && (sys.engine.Filling? ==> sys.engine.stored <= |sys.engine.arrival.data|)
  }

  function Start(buffers: seq<byte>): System {
    System(InitRx(buffers), Idle, Ready, 0, [], 0, [], Answer(NotReady, 0, []))
  }

  /** The driver's next access. */
  function Advance(sys: System): (r: System)
    requires Ok(sys)
    ensures Ok(r)
  {
    var rx := sys.rx;
    var d := rx.desc[rx.head];
    match sys.pc
    case Idle => sys
    case Looking(size) =>
      if d.own then sys.(pc := Checking(size)) else sys.(pc := Idle, answer := Answer(NotReady, size, []))
    case Checking(size) =>
      if !Good(d) then sys.(pc := Clearing(size, None))
      else if size < d.length then sys.(pc := Idle, answer := Answer(BufferTooSmall, d.length, []))
      else sys.(pc := Copying(size, d.length, []))
    case Copying(size, length, got) =>
      if |got| < length then
        sys.(pc := Copying(size, length, got + [rx.buffers[rx.head * RX_BUFFER_SIZE + |got|]]))
      else sys.(pc := Clearing(size, Some(got)))
    case Clearing(size, frame) =>
      sys.(rx := rx.(desc := rx.desc[rx.head := d.(sof := false, eof := false, length := 0)]), pc := Releasing(size, frame))
    case Releasing(size, frame) =>
      sys.(rx := rx.(desc := rx.desc[rx.head := d.(own := false)]), pc := Advancing(size, frame), taken := sys.taken + 1)
    case Advancing(size, frame) =>
      var moved := sys.(rx := rx.(head := (rx.head + 1) % RX_DESC_COUNT));
      match frame
      case None => moved.(pc := Looking(size))
      case Some(f) => moved.(pc := Idle, delivered := sys.delivered + [f], answer := Answer(Success, |f|, f))
  }

  /** The engine's next access: the bytes of the arrival, then the control word, then OWN, which moves it on by WRAP. */
  function Transfer(sys: System): (r: System)
    requires Ok(sys)
    ensures Ok(r)
  {
    var d := sys.rx.desc[sys.hw];
    match sys.engine
    case Ready => sys
    case Filling(a, k) =>
      if k < |a.data| then
        sys.(rx := sys.rx.(buffers := sys.rx.buffers[sys.hw * RX_BUFFER_SIZE + k := a.data[k]]), engine := Filling(a, k + 1))
      else
        sys.(rx := sys.rx.(desc := sys.rx.desc[sys.hw := d.(sof := a.sof, eof := a.eof, length := a.length)]),
             engine := Filled(a))
    case Filled(a) =>
      sys.(rx := sys.rx.(desc := sys.rx.desc[sys.hw := d.(own := true)]),
           engine := Ready, hw := if d.wrap then 0 else (sys.hw + 1) % RX_DESC_COUNT, arrived := sys.arrived + [a])
  }

  predicate ActionOk(a: Action) {
    a.Arrive? ==> ArrivalOk(a.arrival)
  }

  function Step(sys: System, a: Action): (r: System)
    requires Ok(sys) && ActionOk(a)
    ensures Ok(r)
  {
    match a
    // a call made during another is turned away by the lock
    case Begin(size) => if sys.pc.Idle? then sys.(pc := Looking(size)) else sys
    case Driver => Advance(sys)
    // an arrival for a descriptor the engine does not own is discarded
    case Arrive(x) => if sys.engine.Ready? && !sys.rx.desc[sys.hw].own then sys.(engine := Filling(x, 0)) else sys
    case Hardware => Transfer(sys)
  }

  predicate ActionsOk(actions: seq<Action>) {
    forall i :: 0 <= i < |actions| ==> ActionOk(actions[i])
  }

  function Run(sys: System, actions: seq<Action>): (r: System)
    requires Ok(sys) && ActionsOk(actions)
    ensures Ok(r)
    decreases |actions|
  {
    if actions == [] then sys else Run(Step(sys, actions[0]), actions[1..])
  }

  lemma {:induction false} RunJoin(sys: System, a: seq<Action>, b: seq<Action>)
    requires Ok(sys) && ActionsOk(a) && ActionsOk(b)
    ensures ActionsOk(a + b) && Run(sys, a + b) == Run(Run(sys, a), b)
    decreases |a|
  {
    hide Step, ActionOk;
    if a == [] {
      assert a + b == b;
    } else {
      RunJoin(Step(sys, a[0]), a[1..], b);
      assert (a + b)[0] == a[0] && (a + b)[1..] == a[1..] + b;
    }
  }

  lemma RunOne(sys: System, a: Action)
    requires Ok(sys) && ActionOk(a)
    ensures ActionsOk([a]) && Run(sys, [a]) == Step(sys, a)
  {
    hide Step, ActionOk;
    assert [a][1..] == [];
    assert Run(Step(sys, a), []) == Step(sys, a);
  }

  /** The well-formed frames among the arrivals, in order. */
  function GoodFrames(arrived: seq<Arrival>): seq<seq<byte>> {
    if arrived == [] then []
    else
      var last := arrived[|arrived| - 1];
      GoodFrames(arrived[..|arrived| - 1]) + if GoodArrival(last) then [last.data] else []
  }

  // ----- the invariant -----

  function Slot(n: nat): (r: nat)
    ensures r < RX_DESC_COUNT
  {
    n % RX_DESC_COUNT
  }

  function Stored(buffers: seq<byte>, i: nat, length: nat): seq<byte>
    requires |buffers| == RX_DESC_COUNT * RX_BUFFER_SIZE && i < RX_DESC_COUNT && length <= RX_BUFFER_SIZE
  {
    buffers[i * RX_BUFFER_SIZE..][..length]
  }

  predicate Describes(d: Desc, a: Arrival) {
    d.sof == a.sof && d.eof == a.eof && d.length == a.length
  }

  /** The n-th arrival waits for the driver in its slot; the one it is handing back may have lost its control word. */
  ghost predicate Waiting(sys: System, n: nat)
    requires Shaped(sys.rx) && n < |sys.arrived|
  {
    var a, d := sys.arrived[n], sys.rx.desc[Slot(n)];
    && ArrivalOk(a) && d.own && (Describes(d, a) || (n == sys.taken && sys.pc.Releasing?))
    && Stored(sys.rx.buffers, Slot(n), |a.data|) == a.data
  }

  /** Arrivals the driver is done with: all it has handed back but one it still has to pass the head over. */
  function Passed(sys: System): int {
    sys.taken - if sys.pc.Advancing? then 1 else 0
  }

  /** The driver's copy of an arrival: its bytes, or None when it is dropped. */
  predicate CopyOf(frame: Option<seq<byte>>, a: Arrival) {
    frame == if GoodArrival(a) then Some(a.data) else None
  }

  ghost predicate PcInv(sys: System) {
    var t := sys.taken;
    match sys.pc
    case Idle => true
    case Looking(_) => true
    case Checking(_) => t < |sys.arrived|
    case Copying(size, length, got) =>
      && t < |sys.arrived| && GoodArrival(sys.arrived[t]) && |sys.arrived[t].data| == length <= size
      && |got| <= length && got == sys.arrived[t].data[..|got|]
    case Clearing(size, frame) =>
      t < |sys.arrived| && CopyOf(frame, sys.arrived[t]) && (frame.Some? ==> |frame.value| <= size)
    case Releasing(size, frame) =>
      t < |sys.arrived| && CopyOf(frame, sys.arrived[t]) && (frame.Some? ==> |frame.value| <= size)
    case Advancing(size, frame) =>
      0 < t <= |sys.arrived| && CopyOf(frame, sys.arrived[t - 1]) && (frame.Some? ==> |frame.value| <= size)
  }

  ghost predicate EngineInv(sys: System)
    requires Ok(sys)
  {
    match sys.engine
    case Ready => true
    case Filling(a, k) =>
      |sys.arrived| < sys.taken + RX_DESC_COUNT && Stored(sys.rx.buffers, Slot(|sys.arrived|), k) == a.data[..k]
    case Filled(a) =>
      && |sys.arrived| < sys.taken + RX_DESC_COUNT && Stored(sys.rx.buffers, Slot(|sys.arrived|), |a.data|) == a.data
      && Describes(sys.rx.desc[Slot(|sys.arrived|)], a)
  }

  ghost predicate Inv(sys: System) {
    && Ok(sys)
    && 0 <= Passed(sys) <= sys.taken <= |sys.arrived| <= sys.taken + RX_DESC_COUNT
    && sys.rx.head == Slot(Passed(sys)) && sys.hw == Slot(|sys.arrived|)
    && (forall i :: 0 <= i < RX_DESC_COUNT ==> sys.rx.desc[i].wrap == (i == RX_DESC_COUNT - 1))
    // the driver owns exactly the cyclic run from the arrivals taken to the engine's position
    && (forall n :: sys.taken <= n < |sys.arrived| ==> Waiting(sys, n))
    && (forall n :: |sys.arrived| <= n < sys.taken + RX_DESC_COUNT ==> !sys.rx.desc[Slot(n)].own)
    && sys.delivered == GoodFrames(sys.arrived[..Passed(sys)])
    && PcInv(sys) && EngineInv(sys)
  }

  lemma SlotsDiffer(m: nat, n: nat)
    requires m < n < m + RX_DESC_COUNT
    ensures Slot(m) != Slot(n)
  {
  }

  lemma SlotStep(n: nat)
    ensures Slot(n + 1) == (Slot(n) + 1) % RX_DESC_COUNT == if Slot(n) == RX_DESC_COUNT - 1 then 0 else Slot(n) + 1
    ensures Slot(n + RX_DESC_COUNT) == Slot(n)
  {
  }

  /** One more byte of a store, and no byte of another buffer. */
  lemma StoredAfterByte(buffers: seq<byte>, i: nat, k: nat, b: byte, j: nat, length: nat)
    requires |buffers| == RX_DESC_COUNT * RX_BUFFER_SIZE && i < RX_DESC_COUNT && j < RX_DESC_COUNT
    requires k < RX_BUFFER_SIZE && length <= RX_BUFFER_SIZE
    ensures var buffers' := buffers[i * RX_BUFFER_SIZE + k := b];
      && Stored(buffers', i, k + 1) == Stored(buffers, i, k) + [b]
      && (i != j ==> Stored(buffers', j, length) == Stored(buffers, j, length))
  {
  }

  lemma StoredAt(buffers: seq<byte>, i: nat, length: nat, k: nat)
    requires |buffers| == RX_DESC_COUNT * RX_BUFFER_SIZE && i < RX_DESC_COUNT && k < length <= RX_BUFFER_SIZE
    ensures Stored(buffers, i, length)[k] == buffers[i * RX_BUFFER_SIZE + k]
  {
  }

  lemma StoredNothing(buffers: seq<byte>, i: nat)
    requires |buffers| == RX_DESC_COUNT * RX_BUFFER_SIZE && i < RX_DESC_COUNT
    ensures Stored(buffers, i, 0) == []
  {
  }

  lemma StartInv(buffers: seq<byte>)
    requires |buffers| == RX_DESC_COUNT * RX_BUFFER_SIZE
    ensures Inv(Start(buffers))
  {
  }

  lemma ArrivalFits(a: Arrival)
    requires ArrivalOk(a)
    ensures |a.data| <= RX_BUFFER_SIZE
    ensures GoodArrival(a) ==> |a.data| == a.length
  {
  }

  lemma GoodFramesStep(arrived: seq<Arrival>, n: nat)
    requires n < |arrived|
    ensures GoodFrames(arrived[..n + 1])
         == GoodFrames(arrived[..n]) + if GoodArrival(arrived[n]) then [arrived[n].data] else []
  {
    assert arrived[..n + 1][..n] == arrived[..n];
  }

  // ----- every step of the driver keeps it -----

  /** Only the driver's place changes, not into or out of the handing back, and the new place is right. */
  lemma PcOnly(sys: System, pc: Pc, answer: Answer)
    requires Inv(sys) && !sys.pc.Releasing? && !sys.pc.Advancing? && !pc.Releasing? && !pc.Advancing?
    requires var next := sys.(pc := pc, answer := answer); Ok(next) && PcInv(next)
    ensures Inv(sys.(pc := pc, answer := answer))
  {
    hide Slot, Stored, GoodFrames, ArrivalOk;
    var next := sys.(pc := pc, answer := answer);
    forall n | sys.taken <= n < |sys.arrived| ensures Waiting(next, n) {
      assert Waiting(sys, n);
    }
  }

  lemma BeginInv(sys: System, size: nat)
    requires Inv(sys)
    ensures Inv(Step(sys, Begin(size)))
    ensures Step(sys, Begin(size)) == if sys.pc.Idle? then sys.(pc := Looking(size)) else sys
  {
    if sys.pc.Idle? {
      PcOnly(sys, Looking(size), sys.answer);
    }
  }

  /** The look at the head finds a descriptor exactly when an arrival waits. */
  lemma LookInv(sys: System)
    requires Inv(sys) && sys.pc.Looking?
    ensures Inv(Advance(sys))
    ensures var next := Advance(sys);
      next == if sys.taken < |sys.arrived| then sys.(pc := Checking(sys.pc.size))
              else sys.(pc := Idle, answer := Answer(NotReady, sys.pc.size, []))
  {
    hide Slot, Stored, GoodFrames, ArrivalOk;
    var t := sys.taken;
    if t < |sys.arrived| {
      assert Waiting(sys, t);
    }
    PcOnly(sys, Advance(sys).pc, Advance(sys).answer);
  }

  /** The control word is that of the oldest arrival. */
  lemma CheckInv(sys: System)
    requires Inv(sys) && sys.pc.Checking?
    ensures Inv(Advance(sys)) && sys.taken < |sys.arrived|
    ensures var a, next := sys.arrived[sys.taken], Advance(sys);
      next == if !GoodArrival(a) then sys.(pc := Clearing(sys.pc.size, None))
              else if sys.pc.size < a.length then sys.(pc := Idle, answer := Answer(BufferTooSmall, a.length, []))
              else sys.(pc := Copying(sys.pc.size, a.length, []))
  {
    hide Slot, Stored, GoodFrames, ArrivalOk;
    var t := sys.taken;
    assert Waiting(sys, t);
    ArrivalFits(sys.arrived[t]);
    PcOnly(sys, Advance(sys).pc, Advance(sys).answer);
  }

  lemma CopyInv(sys: System)
    requires Inv(sys) && sys.pc.Copying?
    ensures Inv(Advance(sys))
    ensures Advance(sys).pc.Clearing? ==> sys.taken < |sys.arrived| && Advance(sys).pc.frame == Some(sys.arrived[sys.taken].data)
  {
    hide Slot, Stored, GoodFrames, ArrivalOk;
    var t, k := sys.taken, |sys.pc.got|;
    assert Waiting(sys, t);
    ArrivalFits(sys.arrived[t]);
    if k < sys.pc.length {
      StoredAt(sys.rx.buffers, Slot(t), sys.pc.length, k);
    } else {
      assert sys.arrived[t].data[..k] == sys.arrived[t].data;
    }
    PcOnly(sys, Advance(sys).pc, sys.answer);
  }

  lemma ClearInv(sys: System)
    requires Inv(sys) && sys.pc.Clearing?
    ensures Inv(Advance(sys))
  {
    hide Slot, Stored, GoodFrames, ArrivalOk, GoodArrival;
    var t := sys.taken;
    var next := Advance(sys);
    forall n | t < n < t + RX_DESC_COUNT ensures Slot(n) != Slot(t) {
      SlotsDiffer(t, n);
    }
    forall n | t <= n < |sys.arrived| ensures Waiting(next, n) {
      assert Waiting(sys, n);
    }
  }

  /** Handing back: the descriptor is the engine's from here on, and the frame was copied out before. */
  lemma ReleaseInv(sys: System)
    requires Inv(sys) && sys.pc.Releasing?
    ensures Inv(Advance(sys))
  {
    hide Slot, Stored, GoodFrames, ArrivalOk, GoodArrival;
    var t := sys.taken;
    var next := Advance(sys);
    SlotStep(t);
    assert Waiting(sys, t);
    forall n | t < n < t + RX_DESC_COUNT ensures Slot(n) != Slot(t) {
      SlotsDiffer(t, n);
    }
    forall n | t < n < |sys.arrived| ensures Waiting(next, n) {
      assert Waiting(sys, n);
    }
  }

  lemma PassInv(sys: System)
    requires Inv(sys) && sys.pc.Advancing?
    ensures Inv(Advance(sys))
  {
    hide Slot, Stored, GoodFrames, ArrivalOk, GoodArrival;
    var t := sys.taken;
    var next := Advance(sys);
    SlotStep(t - 1);
    GoodFramesStep(sys.arrived, t - 1);
    forall n | t <= n < |sys.arrived| ensures Waiting(next, n) {
      assert Waiting(sys, n);
    }
  }

  lemma AdvanceInv(sys: System)
    requires Inv(sys)
    ensures Inv(Advance(sys))
  {
    hide Inv, Advance;
    InvOk(sys);
    match sys.pc {
      case Idle => StandsStill(sys);
      case Looking(_) => LookInv(sys);
      case Checking(_) => CheckInv(sys);
      case Copying(_, _, _) => CopyInv(sys);
      case Clearing(_, _) => ClearInv(sys);
      case Releasing(_, _) => ReleaseInv(sys);
      case Advancing(_, _) => PassInv(sys);
    }
  }

  lemma StandsStill(sys: System)
    requires Ok(sys) && sys.pc.Idle?
    ensures Advance(sys) == sys
  {
  }

  lemma InvOk(sys: System)
    requires Inv(sys)
    ensures Ok(sys) && sys.taken <= |sys.arrived| <= sys.taken + RX_DESC_COUNT
  {
  }

  // ----- every step of the engine keeps it -----

  /** The engine takes an arrival exactly when a descriptor is free. */
  lemma ArriveInv(sys: System, a: Arrival)
    requires Inv(sys) && ArrivalOk(a)
    ensures Inv(Step(sys, Arrive(a)))
    ensures sys.engine.Ready? ==>
      (Step(sys, Arrive(a)).engine == if |sys.arrived| < sys.taken + RX_DESC_COUNT then Filling(a, 0) else Ready)
  {
    hide Slot, Stored, GoodFrames, ArrivalOk;
    var n := |sys.arrived|;
    var next := Step(sys, Arrive(a));
    SlotStep(sys.taken);
    StoredNothing(sys.rx.buffers, Slot(n));
    if n == sys.taken + RX_DESC_COUNT {
      assert Waiting(sys, sys.taken);
    }
    forall m | sys.taken <= m < n ensures Waiting(next, m) {
      assert Waiting(sys, m);
    }
  }

  lemma FillInv(sys: System)
    requires Inv(sys) && sys.engine.Filling? && sys.engine.stored < |sys.engine.arrival.data|
    ensures Inv(Transfer(sys))
  {
    hide Slot, Stored, GoodFrames, ArrivalOk;
    var n, a, k := |sys.arrived|, sys.engine.arrival, sys.engine.stored;
    var next := Transfer(sys);
    ArrivalFits(a);
    StoredAfterByte(sys.rx.buffers, Slot(n), k, a.data[k], Slot(n), k);
    forall m | sys.taken <= m < n ensures Waiting(next, m) {
      assert Waiting(sys, m);
      SlotsDiffer(m, n);
      ArrivalFits(sys.arrived[m]);
      StoredAfterByte(sys.rx.buffers, Slot(n), k, a.data[k], Slot(m), |sys.arrived[m].data|);
    }
  }

  lemma DescribeInv(sys: System)
    requires Inv(sys) && sys.engine.Filling? && sys.engine.stored == |sys.engine.arrival.data|
    ensures Inv(Transfer(sys))
  {
    hide Slot, Stored, GoodFrames, ArrivalOk;
    var n, a := |sys.arrived|, sys.engine.arrival;
    var next := Transfer(sys);
    assert a.data[..|a.data|] == a.data;
    forall m | sys.taken <= m < sys.taken + RX_DESC_COUNT && m != n ensures Slot(m) != Slot(n) {
      if m < n { SlotsDiffer(m, n); } else { SlotsDiffer(n, m); }
    }
    forall m | sys.taken <= m < n ensures Waiting(next, m) {
      assert Waiting(sys, m);
    }
  }

  lemma GiveInv(sys: System)
    requires Inv(sys) && sys.engine.Filled?
    ensures Inv(Transfer(sys))
  {
    hide Slot, Stored, GoodFrames, ArrivalOk;
    var n := |sys.arrived|;
    var next := Transfer(sys);
    SlotStep(n);
    forall m | sys.taken <= m < sys.taken + RX_DESC_COUNT && m != n ensures Slot(m) != Slot(n) {
      if m < n { SlotsDiffer(m, n); } else { SlotsDiffer(n, m); }
    }
    forall m | sys.taken <= m < n + 1 ensures Waiting(next, m) {
      if m < n {
        assert Waiting(sys, m);
      }
    }
    assert next.arrived[..Passed(sys)] == sys.arrived[..Passed(sys)];
  }

  lemma TransferInv(sys: System)
    requires Inv(sys)
    ensures Inv(Transfer(sys))
  {
    hide Inv;
    InvOk(sys);
    match sys.engine {
      case Ready =>
      case Filling(a, k) => if k < |a.data| { FillInv(sys); } else { DescribeInv(sys); }
      case Filled(_) => GiveInv(sys);
    }
  }

  /** Every interleaving of the driver's accesses with the engine's keeps the invariant. */
  lemma {:induction false} RxSafety(sys: System, actions: seq<Action>)
    requires Inv(sys) && ActionsOk(actions)
    ensures Ok(sys) && Inv(Run(sys, actions))
    decreases |actions|
  {
    hide Inv, Advance, Transfer;
    InvOk(sys);
    if actions != [] {
      assert ActionOk(actions[0]);
      match actions[0] {
        case Begin(size) => BeginInv(sys, size);
        case Driver => AdvanceInv(sys);
        case Arrive(a) => ArriveInv(sys, a);
        case Hardware => TransferInv(sys);
      }
      RxSafety(Step(sys, actions[0]), actions[1..]);
    }
  }

  /** In any session, cut anywhere: the frames delivered are exactly the well-formed ones among the arrivals passed, each
      once, intact, in arrival order; a frame being copied out is intact so far; and the driver owns exactly the cyclic
      run of descriptors from the arrivals taken to the engine. */
  lemma RxSession(buffers: seq<byte>, actions: seq<Action>)
    requires |buffers| == RX_DESC_COUNT * RX_BUFFER_SIZE && ActionsOk(actions)
    ensures Ok(Start(buffers))
    ensures var sys := Run(Start(buffers), actions);
      && sys.taken <= |sys.arrived| <= sys.taken + RX_DESC_COUNT
      && 0 <= Passed(sys) && sys.delivered == GoodFrames(sys.arrived[..Passed(sys)])
      && (sys.pc.Copying? ==> sys.taken < |sys.arrived| && sys.pc.got <= sys.arrived[sys.taken].data)
      && sys.rx.head == Slot(Passed(sys)) && sys.hw == Slot(|sys.arrived|)
      && (forall n :: sys.taken <= n < sys.taken + RX_DESC_COUNT ==>
            (sys.rx.desc[Slot(n)].own <==> n < |sys.arrived|))
      && (forall i :: 0 <= i < RX_DESC_COUNT ==> sys.rx.desc[i].wrap == (i == RX_DESC_COUNT - 1))
  {
    hide Run, Start, GoodFrames, Stored, Slot, ArrivalOk;
    StartInv(buffers);
    RxSafety(Start(buffers), actions);
    var sys := Run(Start(buffers), actions);
    forall n | sys.taken <= n < sys.taken + RX_DESC_COUNT ensures sys.rx.desc[Slot(n)].own <==> n < |sys.arrived| {
      if n < |sys.arrived| {
        assert Waiting(sys, n);
      }
    }
  }

  // ----- nothing is lost -----

  /** `n` accesses of a driver that calls Receive() again whenever it is idle. */
  function Reads(size: nat, n: nat): (r: seq<Action>)
    ensures ActionsOk(r)
  {
    if n == 0 then [] else [Begin(size), Driver] + Reads(size, n - 1)
  }

  /** Enough accesses to take these arrivals. */
  function Work(arrivals: seq<Arrival>): nat {
    if arrivals == [] then 0 else |arrivals[0].data| + 6 + Work(arrivals[1..])
  }

  /** Enough accesses to finish what is under way and take the rest. */
  function Left(sys: System): int
    requires sys.taken <= |sys.arrived|
    requires sys.pc.Clearing? || sys.pc.Releasing? ==> sys.taken < |sys.arrived|
  {
    var t := sys.taken;
    match sys.pc
    case Idle => Work(sys.arrived[t..])
    case Looking(_) => Work(sys.arrived[t..])
    case Checking(_) => Work(sys.arrived[t..]) - 1
    case Copying(_, _, got) => Work(sys.arrived[t..]) - 2 - |got|
    case Clearing(_, _) => Work(sys.arrived[t + 1..]) + 3
    case Releasing(_, _) => Work(sys.arrived[t + 1..]) + 2
    case Advancing(_, _) => Work(sys.arrived[t..]) + 1
  }

  /** The call under way, if any, has room for every frame. */
  predicate Ample(pc: Pc) {
    pc.Idle? || pc.size >= RX_BUFFER_SIZE
  }

  lemma LeftStep(sys: System)
    requires Inv(sys) && Ample(sys.pc) && !sys.pc.Idle?
    ensures sys.taken <= |sys.arrived| && (sys.pc.Clearing? || sys.pc.Releasing? ==> sys.taken < |sys.arrived|)
    ensures var next := Advance(sys);
      && next.arrived == sys.arrived && Ample(next.pc) && next.taken <= |next.arrived|
      && (next.pc.Clearing? || next.pc.Releasing? ==> next.taken < |next.arrived|)
      && Left(sys) >= 0
      && (Left(next) < Left(sys) || (Left(next) == Left(sys) == 0 && next.pc.Idle?))
  {
    hide Slot, Stored, GoodFrames;
    var t := sys.taken;
    if t < |sys.arrived| {
      assert sys.arrived[t..][0] == sys.arrived[t] && sys.arrived[t..][1..] == sys.arrived[t + 1..];
      assert Waiting(sys, t);
      ArrivalFits(sys.arrived[t]);
    }
    if sys.pc.Looking? {
      LookInv(sys);
    }
  }

  /** Once the driver has made enough accesses with room for any frame, every well-formed arrival has been delivered. */
  lemma {:induction false} DrainRx(sys: System, size: nat, n: nat)
    requires Inv(sys) && Ample(sys.pc) && size >= RX_BUFFER_SIZE
    ensures Ok(sys) && sys.taken <= |sys.arrived| && (sys.pc.Clearing? || sys.pc.Releasing? ==> sys.taken < |sys.arrived|)
    ensures n >= Left(sys) ==>
      var end := Run(sys, Reads(size, n));
      && end.arrived == sys.arrived && end.taken == |sys.arrived|
      && end.delivered == GoodFrames(sys.arrived)
    decreases n
  {
    hide Inv, Run, Advance, Step, Work, GoodFrames;
    InvOk(sys);
    InvLeft(sys);
    var called := Step(sys, Begin(size));
    BeginInv(sys, size);
    LeftStep(called);
    AdvanceInv(called);
    if n == 0 {
      NothingLeft(sys);
      RunNothing(sys);
    } else {
      TwoSteps(sys, size);
      RunJoin(sys, [Begin(size), Driver], Reads(size, n - 1));
      DrainRx(Advance(called), size, n - 1);
    }
  }

  lemma RunNothing(sys: System)
    requires Ok(sys)
    ensures ActionsOk([]) && Run(sys, []) == sys
  {
  }

  lemma InvLeft(sys: System)
    requires Inv(sys)
    ensures sys.pc.Clearing? || sys.pc.Releasing? ==> sys.taken < |sys.arrived|
  {
  }

  lemma TwoSteps(sys: System, size: nat)
    requires Ok(sys)
    ensures Run(sys, [Begin(size), Driver]) == Advance(Step(sys, Begin(size)))
  {
    hide Advance;
    RunOne(sys, Begin(size));
    RunOne(Step(sys, Begin(size)), Driver);
    RunJoin(sys, [Begin(size)], [Driver]);
    assert [Begin(size)] + [Driver] == [Begin(size), Driver];
  }

  lemma NothingLeft(sys: System)
    requires Inv(sys) && (sys.pc.Clearing? || sys.pc.Releasing? ==> sys.taken < |sys.arrived|)
    ensures Left(sys) <= 0 ==> sys.taken == |sys.arrived| && sys.delivered == GoodFrames(sys.arrived)
  {
    hide Slot, Stored, GoodFrames;
    var t := sys.taken;
    if t < |sys.arrived| {
      assert sys.arrived[t..][0] == sys.arrived[t] && sys.arrived[t..][1..] == sys.arrived[t + 1..];
    }
    if Left(sys) <= 0 {
      assert sys.arrived[..|sys.arrived|] == sys.arrived;
    }
  }

  // ----- the steps of a call in a row -----

  function Drivers(n: nat): (r: seq<Action>)
    ensures |r| == n && ActionsOk(r)
  {
    seq(n, _ => Driver)
  }

  lemma DriversStep(sys: System, n: nat)
    requires Ok(sys)
    ensures Run(sys, Drivers(n + 1)) == Run(Advance(sys), Drivers(n))
  {
    assert Drivers(n + 1)[1..] == Drivers(n);
  }

  lemma DriversNothing(sys: System)
    requires Ok(sys)
    ensures Run(sys, Drivers(0)) == sys
  {
  }

  lemma {:induction false} CopyAlone(sys: System)
    requires Ok(sys) && sys.pc.Copying?
    requires var i, got := sys.rx.head, sys.pc.got; got == Stored(sys.rx.buffers, i, |got|)
    ensures var i, size, length := sys.rx.head, sys.pc.size, sys.pc.length;
      Run(sys, Drivers(length - |sys.pc.got| + 1)) == sys.(pc := Clearing(size, Some(Stored(sys.rx.buffers, i, length))))
    decreases sys.pc.length - |sys.pc.got|
  {
    var k, length := |sys.pc.got|, sys.pc.length;
    DriversStep(sys, length - k);
    if k < length {
      CopyAlone(Advance(sys));
    } else {
      DriversNothing(Advance(sys));
    }
  }

  lemma RecycleAlone(sys: System)
    requires Ok(sys) && sys.pc.Clearing?
    ensures var end := Run(sys, Drivers(3));
      && end.rx == Recycle(sys.rx, sys.rx.head)
      && end.pc == (if sys.pc.frame.Some? then Idle else Looking(sys.pc.size))
      && (sys.pc.frame.Some? ==> end.answer == Answer(Success, |sys.pc.frame.value|, sys.pc.frame.value))
  {
    hide Run;
    DriversStep(sys, 2);
    DriversStep(Advance(sys), 1);
    DriversStep(Advance(Advance(sys)), 0);
    DriversNothing(Advance(Advance(Advance(sys))));
  }

  /** One iteration of the receive loop, run in a row, is Iterate. */
  lemma IterateAlone(sys: System) returns (n: nat)
    requires Ok(sys) && sys.pc.Looking?
    ensures var end, r := Run(sys, Drivers(n)), Iterate(sys.rx, sys.pc.size);
      && end.rx == r.next
      && (r.Continue? ==> end.pc == sys.pc)
      && (r.Done? ==> end.pc == Idle && end.answer == Answer(r.status, r.size, r.frame))
  {
    hide Run;
    var one := Advance(sys);
    var two := Advance(one);
    DriversStep(sys, 0);
    DriversNothing(one);
    n := 1;
    if one.pc.Checking? {
      DriversStep(sys, 1);
      DriversStep(one, 0);
      DriversNothing(two);
      n := 2;
      if two.pc.Clearing? {
        n := 5;
        DriversJoin(sys, 2, 3);
        RecycleAlone(two);
      } else if two.pc.Copying? {
        CopyAlone(two);
        var copied := Run(two, Drivers(two.pc.length + 1));
        RecycleAlone(copied);
        DriversJoin(two, two.pc.length + 1, 3);
        DriversJoin(sys, 2, two.pc.length + 4);
        n := two.pc.length + 6;
      }
    }
  }

  lemma DriversJoin(sys: System, m: nat, n: nat)
    requires Ok(sys)
    ensures Run(sys, Drivers(m + n)) == Run(Run(sys, Drivers(m)), Drivers(n))
  {
    assert Drivers(m + n) == Drivers(m) + Drivers(n);
    RunJoin(sys, Drivers(m), Drivers(n));
  }

  /** And a whole call, run in a row, is Receive. */
  lemma {:induction false} ReceiveAlone(sys: System) returns (n: nat)
    requires Ok(sys) && sys.pc.Looking?
    ensures var end, r := Run(sys, Drivers(n)), Receive(sys.rx, sys.pc.size);
      end.rx == r.next && end.pc == Idle && end.answer == Answer(r.status, r.size, r.frame)
    decreases Owned(sys.rx.desc)
  {
    var r := Iterate(sys.rx, sys.pc.size);
    n := IterateAlone(sys);
    if r.Continue? {
      OwnedUpdate(sys.rx.desc, sys.rx.head, r.next.desc[sys.rx.head]);
      var m := ReceiveAlone(Run(sys, Drivers(n)));
      DriversJoin(sys, n, m);
      n := n + m;
    }
  }
}
