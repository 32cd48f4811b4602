/**
 The transmit descriptor ring shared by the driver and the DMA engine. The driver copies a
 frame into the bounce buffer of the next descriptor, clears its USED bit and kicks the
 engine; the engine reads descriptor and frame, sets USED and follows the WRAP bits; the
 driver reclaims descriptors one at a time through free-running 16-bit cursors.

 A run cuts the driver at every access to memory the engine shares, down to the bytes of the
 copy, and the engine at every access of its own; TxSafety says what every run keeps.
 GemTxQueue.dfy has the driver's code.
 */
module GemTxRing {
  import opened Bytes

  const TX_DESC_COUNT := 8
  const TX_BUFFER_SIZE := 2048
  const TWO_16 := 0x1_0000

  /** The control word of a descriptor: ownership, wrap, frame length, and the error bits the hardware may set. */
  datatype Desc = Desc(used: bool, wrap: bool, length: nat, failed: bool)

  /** A frame given to Transmit(): the caller's buffer and the bytes in it. */
  datatype Frame = Frame(user: nat, bytes: seq<byte>)

  /** The driver's private data and the memory it shares with the hardware. NULL is 0. */
  datatype TxState = TxState(desc: seq<Desc>, buffers: seq<byte>, user: seq<nat>, prod: nat, cons: nat)

  predicate Shaped(s: TxState) {
    && |s.desc| == TX_DESC_COUNT && |s.buffers| == TX_DESC_COUNT * TX_BUFFER_SIZE && |s.user| == TX_DESC_COUNT
    && s.prod < TWO_16 && s.cons < TWO_16
  }

  /** What Transmit() accepts: a real buffer and at most a bounce buffer of bytes. */
  predicate FrameOk(f: Frame) {
    f.user != 0 && |f.bytes| <= TX_BUFFER_SIZE
  }

  /** GemInitRings, transmit half. */
  function InitTx(buffers: seq<byte>): TxState {
    TxState(seq(TX_DESC_COUNT, i => Desc(true, i == TX_DESC_COUNT - 1, 0, false)), buffers,
            seq(TX_DESC_COUNT, _ => 0), 0, 0)
  }

  predicate Full(s: TxState) {
    (s.prod - s.cons) % TWO_16 >= TX_DESC_COUNT
  }

  /** GemTransmitFrame while the hardware stands still. */
  function Submit(s: TxState, f: Frame): (r: (Status, TxState))
    requires Shaped(s) && FrameOk(f)
    ensures Shaped(r.1)
  {
    if Full(s) then (NotReady, s) else
      var i := s.prod % TX_DESC_COUNT;
      (Success, TxState(
         s.desc[i := Desc(false, i == TX_DESC_COUNT - 1, |f.bytes|, false)],
         Splice(s.buffers, i * TX_BUFFER_SIZE, f.bytes),
         s.user[i := f.user],
         (s.prod + 1) % TWO_16,
         s.cons))
  }

  /** GemTxPendingCompletion. */
  predicate Pending(s: TxState)
    requires Shaped(s)
  {
    s.cons != s.prod && s.desc[s.cons % TX_DESC_COUNT].used
  }

  // ----- the steps of driver and hardware -----

  /** Where the driver is in a call: between two accesses to what the hardware shares. */
  datatype Pc =
    | Idle
    | Copying(frame: Frame, done: nat)   // `done` bytes are in the bounce buffer
    | Published(frame: Frame)            // the descriptor is the hardware's
    | Recorded                           // the caller's buffer and the cursor are recorded, the kick is due
    | Polling                            // about to read the oldest descriptor
    | Reclaiming                         // that one was found completed

  /** Where the DMA engine is: stopped until the next kick, about to read a descriptor, or in the middle of a frame. */
  datatype Engine = Halted | Fetching | Reading(length: nat, got: seq<byte>)

  /** The whole system: memory, driver, engine and its ring position, and what has happened in this session. */
  datatype System = System(
    tx: TxState, pc: Pc, engine: Engine, hw: nat,
    queued: seq<Frame>, wire: seq<seq<byte>>, recycled: seq<nat>)

  datatype Request = Transmit(frame: Frame) | GetStatus

  datatype Action =
    | Begin(request: Request)
    | Driver                    // the next access of the call under way
    | Hardware(failed: bool)    // the next access of the engine

  predicate Ok(sys: System) {
    && Shaped(sys.tx) && sys.hw < TX_DESC_COUNT
    && (sys.pc.Copying? ==> FrameOk(sys.pc.frame) && sys.pc.done <= |sys.pc.frame.bytes|)
    && (sys.engine.Reading? ==> |sys.engine.got| <= sys.engine.length <= TX_BUFFER_SIZE)
  }

  /** The start of a session: the rings are initialised and the queue base points the engine at the first descriptor. */
  function Start(buffers: seq<byte>): System {
    System(InitTx(buffers), Idle, Halted, 0, [], [], [])
  }

  /** The private tests at the start of a call; a call made during another is turned away by the lock. */
  function Enter(sys: System, request: Request): (r: System)
    requires Ok(sys) && (request.Transmit? ==> FrameOk(request.frame))
    ensures Ok(r)
  {
    if !sys.pc.Idle? then sys
    else match request
      case Transmit(f) => if Full(sys.tx) then sys else sys.(pc := Copying(f, 0))
      case GetStatus => if sys.tx.cons == sys.tx.prod then sys else sys.(pc := Polling)
  }

  /** The driver's next access. */
  function Advance(sys: System): (r: System)
    requires Ok(sys)
    ensures Ok(r)
  {
    var tx := sys.tx;
    var i := tx.prod % TX_DESC_COUNT;
    match sys.pc
    case Idle => sys
    case Copying(f, k) =>
      if k < |f.bytes| then
        sys.(tx := tx.(buffers := tx.buffers[i * TX_BUFFER_SIZE + k := f.bytes[k]]), pc := Copying(f, k + 1))
      else
        sys.(tx := tx.(desc := tx.desc[i := Desc(false, i == TX_DESC_COUNT - 1, |f.bytes|, false)]),
             pc := Published(f), queued := sys.queued + [f])
    case Published(f) =>
      sys.(tx := tx.(user := tx.user[i := f.user], prod := (tx.prod + 1) % TWO_16), pc := Recorded)
    case Recorded => sys.(engine := if sys.engine.Halted? then Fetching else sys.engine, pc := Idle)
    case Polling => sys.(pc := if tx.desc[tx.cons % TX_DESC_COUNT].used then Reclaiming else Idle)
    case Reclaiming =>
      var c := tx.cons % TX_DESC_COUNT;
      sys.(tx := tx.(user := tx.user[c := 0], cons := (tx.cons + 1) % TWO_16), pc := Idle,
           recycled := sys.recycled + [tx.user[c]])
  }

  /** The engine's next access: it reads the descriptor it is at and stops if that one is USED, else reads the frame byte
      by byte, writes the descriptor back (perhaps with an error) and moves on by the WRAP bit. */
  function Transfer(sys: System, failed: bool): (r: System)
    requires Ok(sys)
    ensures Ok(r)
  {
    var d := sys.tx.desc[sys.hw];
    match sys.engine
    case Halted => sys
    case Fetching => sys.(engine := if d.used || d.length > TX_BUFFER_SIZE then Halted else Reading(d.length, []))
    case Reading(length, got) =>
      if |got| < length then
        sys.(engine := Reading(length, got + [sys.tx.buffers[sys.hw * TX_BUFFER_SIZE + |got|]]))
      else
        sys.(tx := sys.tx.(desc := sys.tx.desc[sys.hw := d.(used := true, failed := failed)]),
             engine := Fetching, hw := if d.wrap then 0 else (sys.hw + 1) % TX_DESC_COUNT, wire := sys.wire + [got])
  }

  predicate ActionOk(a: Action) {
    a.Begin? && a.request.Transmit? ==> FrameOk(a.request.frame)
  }

  function Step(sys: System, a: Action): (r: System)
    requires Ok(sys) && ActionOk(a)
    ensures Ok(r)
  {
    match a
    case Begin(request) => Enter(sys, request)
    case Driver => Advance(sys)
    case Hardware(failed) => Transfer(sys, failed)
  }

  predicate ActionsOk(actions: seq<Action>) {
    forall i :: 0 <= i < |actions| ==> ActionOk(actions[i])
  }

  function Run(sys: System, actions: seq<Action>): (r: System)
    requires Ok(sys) && ActionsOk(actions)
    ensures Ok(r)
    decreases |actions|
  {
    if actions == [] then sys else Run(Step(sys, actions[0]), actions[1..])
  }

  lemma {:induction false} RunJoin(sys: System, a: seq<Action>, b: seq<Action>)
    requires Ok(sys) && ActionsOk(a) && ActionsOk(b)
    ensures ActionsOk(a + b) && Run(sys, a + b) == Run(Run(sys, a), b)
    decreases |a|
  {
    hide Step, ActionOk;
    if a == [] {
      assert a + b == b;
    } else {
      RunJoin(Step(sys, a[0]), a[1..], b);
      assert (a + b)[0] == a[0] && (a + b)[1..] == a[1..] + b;
    }
  }

  lemma RunOne(sys: System, a: Action)
    requires Ok(sys) && ActionOk(a)
    ensures ActionsOk([a]) && Run(sys, [a]) == Step(sys, a)
  {
    hide Step, ActionOk;
    assert [a][1..] == [];
    assert Run(Step(sys, a), []) == Step(sys, a);
  }

  // ----- the invariant -----

  /** Slot of the n-th frame of the session. */
  function Slot(n: nat): (r: nat)
    ensures r < TX_DESC_COUNT
  {
    n % TX_DESC_COUNT
  }

  /** The first bytes of a bounce buffer. */
  function Loaded(buffers: seq<byte>, i: nat, length: nat): seq<byte>
    requires |buffers| == TX_DESC_COUNT * TX_BUFFER_SIZE && i < TX_DESC_COUNT && length <= TX_BUFFER_SIZE
  {
    buffers[i * TX_BUFFER_SIZE..][..length]
  }

  /** The n-th frame waits for the hardware: its descriptor is handed over and its bounce buffer holds its bytes. */
  ghost predicate Waiting(sys: System, n: nat)
    requires Shaped(sys.tx) && n < |sys.queued|
  {
    var f := sys.queued[n];
    && |f.bytes| <= TX_BUFFER_SIZE
    && !sys.tx.desc[Slot(n)].used && sys.tx.desc[Slot(n)].length == |f.bytes|
    && Loaded(sys.tx.buffers, Slot(n), |f.bytes|) == f.bytes
  }

  /** Frames whose buffer and cursor are recorded: all but one just published. */
  function Counted(sys: System): int {
    |sys.queued| - if sys.pc.Published? then 1 else 0
  }

  ghost predicate PcInv(sys: System)
    requires Ok(sys)
  {
    match sys.pc
    case Copying(f, k) =>
      |sys.queued| < |sys.recycled| + TX_DESC_COUNT && Loaded(sys.tx.buffers, Slot(|sys.queued|), k) == f.bytes[..k]
    case Published(f) => sys.queued != [] && sys.queued[|sys.queued| - 1] == f && |sys.recycled| < |sys.queued|
    case Polling => |sys.recycled| < |sys.queued|
    case Reclaiming => |sys.recycled| < |sys.wire|
    case _ => true
  }

  ghost predicate EngineInv(sys: System) {
    match sys.engine
    // no wake-up is lost: frames wait for a stopped engine only until the kick of the call under way
    case Halted => |sys.wire| == |sys.queued| || sys.pc.Published? || sys.pc.Recorded?
    case Fetching => true
    case Reading(length, got) =>
      && |sys.wire| < |sys.queued|
      && |got| <= length == |sys.queued[|sys.wire|].bytes| && got == sys.queued[|sys.wire|].bytes[..|got|]
  }

  ghost predicate Inv(sys: System) {
    && Ok(sys)
    && |sys.recycled| <= |sys.wire| <= |sys.queued| <= |sys.recycled| + TX_DESC_COUNT
    && sys.tx.prod == Counted(sys) % TWO_16 && sys.tx.cons == |sys.recycled| % TWO_16
    && sys.hw == Slot(|sys.wire|)
    && (forall i :: 0 <= i < TX_DESC_COUNT ==> sys.tx.desc[i].wrap == (i == TX_DESC_COUNT - 1))
    && (forall n :: 0 <= n < |sys.queued| ==> sys.queued[n].user != 0)
    // in flight: the caller's buffer is remembered
    && (forall n :: |sys.recycled| <= n < Counted(sys) ==> sys.tx.user[Slot(n)] == sys.queued[n].user)
    // every descriptor the next frames will take is in the driver's hands
    && (forall n :: |sys.queued| <= n < |sys.wire| + TX_DESC_COUNT ==> sys.tx.desc[Slot(n)].used)
    && (forall n :: |sys.wire| <= n < |sys.queued| ==> Waiting(sys, n))
    // the wire saw the frames in queue order, intact; the callers got their buffers back in queue order
    && (forall n :: 0 <= n < |sys.wire| ==> sys.wire[n] == sys.queued[n].bytes)
    && (forall n :: 0 <= n < |sys.recycled| ==> sys.recycled[n] == sys.queued[n].user)
    && PcInv(sys) && EngineInv(sys)
  }

  lemma SlotsDiffer(m: nat, n: nat)
    requires m < n < m + TX_DESC_COUNT
    ensures Slot(m) != Slot(n)
  {
  }

  /** The descriptor index from a 16-bit cursor is the index from the full count, across the wrap of the cursor. */
  lemma CursorSlot(n: nat)
    ensures n % TWO_16 % TX_DESC_COUNT == Slot(n)
  {
    assert n == TWO_16 * (n / TWO_16) + n % TWO_16;
    assert n == TX_DESC_COUNT * (8192 * (n / TWO_16)) + n % TWO_16;
  }

  lemma CursorStep(n: nat)
    ensures (n % TWO_16 + 1) % TWO_16 == (n + 1) % TWO_16
  {
  }

  /** The 16-bit difference of the cursors is the number in flight. */
  lemma CursorDistance(prod: nat, cons: nat)
    requires cons <= prod <= cons + TX_DESC_COUNT
    ensures (prod % TWO_16 - cons % TWO_16) % TWO_16 == prod - cons
    ensures prod % TWO_16 == cons % TWO_16 <==> prod == cons
  {
  }

  lemma SlotStep(n: nat)
    ensures Slot(n + 1) == if Slot(n) == TX_DESC_COUNT - 1 then 0 else Slot(n) + 1
    ensures Slot(n + TX_DESC_COUNT) == Slot(n)
  {
  }

  /** One more byte of a copy, and no byte of another buffer. */
  lemma LoadedAfterByte(buffers: seq<byte>, i: nat, k: nat, b: byte, j: nat, length: nat)
    requires |buffers| == TX_DESC_COUNT * TX_BUFFER_SIZE && i < TX_DESC_COUNT && j < TX_DESC_COUNT
    requires k < TX_BUFFER_SIZE && length <= TX_BUFFER_SIZE
    ensures var buffers' := buffers[i * TX_BUFFER_SIZE + k := b];
      && Loaded(buffers', i, k + 1) == Loaded(buffers, i, k) + [b]
      && (i != j ==> Loaded(buffers', j, length) == Loaded(buffers, j, length))
  {
  }

  lemma LoadedAt(buffers: seq<byte>, i: nat, length: nat, k: nat)
    requires |buffers| == TX_DESC_COUNT * TX_BUFFER_SIZE && i < TX_DESC_COUNT && k < length <= TX_BUFFER_SIZE
    ensures Loaded(buffers, i, length)[k] == buffers[i * TX_BUFFER_SIZE + k]
  {
  }

  lemma StartInv(buffers: seq<byte>)
    requires |buffers| == TX_DESC_COUNT * TX_BUFFER_SIZE
    ensures Inv(Start(buffers))
  {
  }

  // ----- every step keeps it -----

  /** Only the driver's place changes, and the new place is right. */
  lemma PcOnly(sys: System, pc: Pc)
    requires Inv(sys) && Ok(sys.(pc := pc)) && !sys.pc.Published? && !pc.Published? && !sys.pc.Recorded?
    requires PcInv(sys.(pc := pc))
    ensures Inv(sys.(pc := pc))
  {
    hide Slot, Loaded;
    var sys' := sys.(pc := pc);
    forall n | |sys.wire| <= n < |sys.queued| ensures Waiting(sys', n) {
      assert Waiting(sys, n);
    }
  }

  /** A call starts: a send is turned away exactly when 8 frames are in flight. */
  lemma EnterInv(sys: System, request: Request)
    requires Inv(sys) && (request.Transmit? ==> FrameOk(request.frame))
    ensures Inv(Enter(sys, request))
    ensures sys.pc.Idle? && request.Transmit? ==>
      (Enter(sys, request).pc.Idle? <==> |sys.queued| - |sys.recycled| == TX_DESC_COUNT)
    ensures sys.pc.Idle? && request.GetStatus? ==>
      Enter(sys, request) == sys.(pc := if |sys.recycled| == |sys.queued| then Idle else Polling)
  {
    hide Slot;
    CursorDistance(|sys.queued|, |sys.recycled|);
    if sys.pc.Idle? {
      LoadedNothing(sys.tx.buffers, Slot(|sys.queued|));
      PcOnly(sys, Enter(sys, request).pc);
    }
  }

  lemma LoadedNothing(buffers: seq<byte>, i: nat)
    requires |buffers| == TX_DESC_COUNT * TX_BUFFER_SIZE && i < TX_DESC_COUNT
    ensures Loaded(buffers, i, 0) == []
  {
  }

  lemma CopyInv(sys: System)
    requires Inv(sys) && sys.pc.Copying? && sys.pc.done < |sys.pc.frame.bytes|
    ensures Inv(Advance(sys))
  {
    hide Slot, Loaded;
    var q, k, f := |sys.queued|, sys.pc.done, sys.pc.frame;
    var sys' := Advance(sys);
    CursorSlot(q);
    LoadedAfterByte(sys.tx.buffers, Slot(q), k, f.bytes[k], Slot(q), k);
    forall n | |sys.wire| <= n < q ensures Waiting(sys', n) {
      assert Waiting(sys, n);
      SlotsDiffer(n, q);
      LoadedAfterByte(sys.tx.buffers, Slot(q), k, f.bytes[k], Slot(n), |sys.queued[n].bytes|);
    }
  }

  /** Publishing: the frame is in its buffer by then, and becomes the next of the queue. */
  lemma PublishInv(sys: System)
    requires Inv(sys) && sys.pc.Copying? && sys.pc.done == |sys.pc.frame.bytes|
    ensures Inv(Advance(sys))
  {
    hide Slot, Loaded;
    var q, f := |sys.queued|, sys.pc.frame;
    var sys' := Advance(sys);
    CursorSlot(q);
    assert f.bytes[..|f.bytes|] == f.bytes;
    forall n | |sys.wire| <= n < |sys.wire| + TX_DESC_COUNT && n != q ensures Slot(n) != Slot(q) {
      if n < q { SlotsDiffer(n, q); } else { SlotsDiffer(q, n); }
    }
    forall n | |sys.wire| <= n < q + 1 ensures Waiting(sys', n) {
      if n < q {
        assert Waiting(sys, n);
      }
    }
  }

  lemma RecordInv(sys: System)
    requires Inv(sys) && sys.pc.Published?
    ensures Inv(Advance(sys))
  {
    hide Slot, Loaded;
    var q := |sys.queued|;
    var sys' := Advance(sys);
    CursorSlot(q - 1);
    CursorStep(q - 1);
    forall n | |sys.recycled| <= n < q - 1 ensures Slot(n) != Slot(q - 1) {
      SlotsDiffer(n, q - 1);
    }
    forall n | |sys.wire| <= n < q ensures Waiting(sys', n) {
      assert Waiting(sys, n);
    }
  }

  lemma KickInv(sys: System)
    requires Inv(sys) && sys.pc.Recorded?
    ensures Inv(Advance(sys))
  {
    hide Slot, Loaded;
    var sys' := Advance(sys);
    forall n | |sys.wire| <= n < |sys.queued| ensures Waiting(sys', n) {
      assert Waiting(sys, n);
    }
  }

  /** The poll: it finds a completed descriptor exactly when a frame on the wire is not yet given back. */
  lemma PollInv(sys: System)
    requires Inv(sys) && sys.pc.Polling?
    ensures Inv(Advance(sys))
    ensures Advance(sys) == sys.(pc := if |sys.recycled| < |sys.wire| then Reclaiming else Idle)
  {
    hide Slot, Loaded;
    var c := |sys.recycled|;
    CursorSlot(c);
    SlotStep(c);
    if c < |sys.wire| {
      assert sys.tx.desc[Slot(c + TX_DESC_COUNT)].used;
    } else {
      assert Waiting(sys, c);
    }
    PcOnly(sys, Advance(sys).pc);
  }

  lemma ReclaimInv(sys: System)
    requires Inv(sys) && sys.pc.Reclaiming?
    ensures Inv(Advance(sys))
    ensures |sys.recycled| < |sys.queued| && sys.tx.user[sys.tx.cons % TX_DESC_COUNT] == sys.queued[|sys.recycled|].user != 0
    ensures var next := Advance(sys);
      && next.recycled == sys.recycled + [sys.queued[|sys.recycled|].user]
      && next.pc.Idle? && next.queued == sys.queued && next.wire == sys.wire
  {
    hide Slot, Loaded;
    var c := |sys.recycled|;
    CursorSlot(c);
    CursorStep(c);
    var sys' := Advance(sys);
    forall n | c < n < |sys.queued| ensures Slot(n) != Slot(c) {
      SlotsDiffer(c, n);
    }
    forall n | |sys.wire| <= n < |sys.queued| ensures Waiting(sys', n) {
      assert Waiting(sys, n);
    }
  }

  lemma AdvanceInv(sys: System)
    requires Inv(sys)
    ensures Inv(Advance(sys))
  {
    hide Inv, Advance, PcInv, EngineInv;
    InvOk(sys);
    match sys.pc {
      case Idle => StandsStill(sys);
      case Copying(f, k) => if k < |f.bytes| { CopyInv(sys); } else { PublishInv(sys); }
      case Published(_) => RecordInv(sys);
      case Recorded => KickInv(sys);
      case Polling => PollInv(sys);
      case Reclaiming => ReclaimInv(sys);
    }
  }

  lemma StandsStill(sys: System)
    requires Ok(sys) && sys.pc.Idle?
    ensures Advance(sys) == sys
  {
  }

  lemma InvOk(sys: System)
    requires Inv(sys)
    ensures Ok(sys)
    ensures |sys.recycled| <= |sys.wire| <= |sys.queued| <= |sys.recycled| + TX_DESC_COUNT
  {
  }

  /** Only the engine's place changes, and the new place is right. */
  lemma EngineOnly(sys: System, engine: Engine)
    requires Inv(sys) && Ok(sys.(engine := engine)) && EngineInv(sys.(engine := engine))
    ensures Inv(sys.(engine := engine))
  {
    hide Slot, Loaded;
    var sys' := sys.(engine := engine);
    forall n | |sys.wire| <= n < |sys.queued| ensures Waiting(sys', n) {
      assert Waiting(sys, n);
    }
  }

  lemma FetchInv(sys: System, failed: bool)
    requires Inv(sys) && sys.engine.Fetching?
    ensures Inv(Transfer(sys, failed))
  {
    hide Slot, Loaded;
    var w := |sys.wire|;
    if w < |sys.queued| {
      assert Waiting(sys, w);
    } else {
      assert sys.tx.desc[Slot(w)].used;
    }
    EngineOnly(sys, Transfer(sys, failed).engine);
  }

  lemma ReadInv(sys: System, failed: bool)
    requires Inv(sys) && sys.engine.Reading? && |sys.engine.got| < sys.engine.length
    ensures Inv(Transfer(sys, failed))
  {
    hide Slot, Loaded;
    var w, k := |sys.wire|, |sys.engine.got|;
    assert Waiting(sys, w);
    LoadedAt(sys.tx.buffers, Slot(w), |sys.queued[w].bytes|, k);
    EngineOnly(sys, Transfer(sys, failed).engine);
  }

  lemma CompleteInv(sys: System, failed: bool)
    requires Inv(sys) && sys.engine.Reading? && |sys.engine.got| == sys.engine.length
    ensures Inv(Transfer(sys, failed))
  {
    hide Slot, Loaded;
    var w := |sys.wire|;
    var sys' := Transfer(sys, failed);
    SlotStep(w);
    assert sys.engine.got == sys.queued[w].bytes;
    forall n | w < n < w + TX_DESC_COUNT ensures Slot(n) != Slot(w) {
      SlotsDiffer(w, n);
    }
    forall n | w + 1 <= n < |sys.queued| ensures Waiting(sys', n) {
      assert Waiting(sys, n);
    }
  }

  lemma TransferInv(sys: System, failed: bool)
    requires Inv(sys)
    ensures Inv(Transfer(sys, failed))
  {
    hide Inv;
    InvOk(sys);
    match sys.engine {
      case Halted =>
      case Fetching => FetchInv(sys, failed);
      case Reading(length, got) => if |got| < length { ReadInv(sys, failed); } else { CompleteInv(sys, failed); }
    }
  }

  /** Every interleaving of the driver's accesses with the engine's keeps the invariant. */
  lemma {:induction false} TxSafety(sys: System, actions: seq<Action>)
    requires Inv(sys) && ActionsOk(actions)
    ensures Ok(sys) && Inv(Run(sys, actions))
    decreases |actions|
  {
    hide Inv, Enter, Advance, Transfer;
    InvOk(sys);
    if actions != [] {
      assert ActionOk(actions[0]);
      match actions[0] {
        case Begin(request) => EnterInv(sys, request);
        case Driver => AdvanceInv(sys);
        case Hardware(failed) => TransferInv(sys, failed);
      }
      TxSafety(Step(sys, actions[0]), actions[1..]);
    }
  }

  /** In any session, cut anywhere: at most 8 frames are in flight; the wire has seen a prefix of the published frames, in
      order and intact; the buffers given back are a prefix of the frames on the wire, in order, each once; every frame
      not yet on the wire is intact in its bounce buffer, also while the engine reads it and while the driver copies
      another; and the engine is never left stopped with frames to send. The 16-bit cursors may wrap any number of
      times. */
  lemma TxSession(buffers: seq<byte>, actions: seq<Action>)
    requires |buffers| == TX_DESC_COUNT * TX_BUFFER_SIZE && ActionsOk(actions)
    ensures Ok(Start(buffers))
    ensures var sys := Run(Start(buffers), actions);
      && |sys.recycled| <= |sys.wire| <= |sys.queued| <= |sys.recycled| + TX_DESC_COUNT
      && (forall n :: 0 <= n < |sys.wire| ==> sys.wire[n] == sys.queued[n].bytes)
      && (forall n :: 0 <= n < |sys.recycled| ==> sys.recycled[n] == sys.queued[n].user)
      && (forall n :: |sys.wire| <= n < |sys.queued| ==>
            && |sys.queued[n].bytes| <= TX_BUFFER_SIZE
            && Loaded(sys.tx.buffers, Slot(n), |sys.queued[n].bytes|) == sys.queued[n].bytes)
      && (sys.engine.Reading? ==> |sys.wire| < |sys.queued| && sys.engine.got <= sys.queued[|sys.wire|].bytes)
      && (sys.engine.Halted? && sys.pc.Idle? ==> |sys.wire| == |sys.queued|)
      && (forall i :: 0 <= i < TX_DESC_COUNT ==> sys.tx.desc[i].wrap == (i == TX_DESC_COUNT - 1))
  {
    hide Run, Start, Loaded, Slot;
    StartInv(buffers);
    TxSafety(Start(buffers), actions);
    var sys := Run(Start(buffers), actions);
    forall n | |sys.wire| <= n < |sys.queued|
      ensures |sys.queued[n].bytes| <= TX_BUFFER_SIZE
      ensures Loaded(sys.tx.buffers, Slot(n), |sys.queued[n].bytes|) == sys.queued[n].bytes
    {
      assert Waiting(sys, n);
    }
  }

  // ----- nothing is lost -----

  function Hardwares(n: nat): (r: seq<Action>)
    ensures |r| == n && ActionsOk(r)
  {
    seq(n, _ => Hardware(false))
  }

  /** How many accesses the engine needs for these frames: one for the descriptor, one a byte, one to write it back. */
  function Work(frames: seq<Frame>): nat {
    if frames == [] then 0 else |frames[0].bytes| + 2 + Work(frames[1..])
  }

  function Left(sys: System): int
    requires |sys.wire| <= |sys.queued|
  {
    Work(sys.queued[|sys.wire|..]) - if sys.engine.Reading? then 1 + |sys.engine.got| else 0
  }

  lemma WorkStep(sys: System)
    requires Inv(sys) && |sys.wire| < |sys.queued| && !sys.engine.Halted?
    ensures var next := Transfer(sys, false);
      && next.queued == sys.queued && next.pc == sys.pc && next.recycled == sys.recycled
      && !next.engine.Halted? && |next.wire| <= |next.queued| && Left(next) == Left(sys) - 1 >= 0
  {
    hide Slot, Loaded;
    var w := |sys.wire|;
    assert Waiting(sys, w);
    assert sys.queued[w..][0] == sys.queued[w] && sys.queued[w..][1..] == sys.queued[w + 1..];
  }

  /** Once the engine has made as many accesses as its work needs, every published frame is on the wire. */
  lemma {:induction false} Drain(sys: System, steps: nat)
    requires Inv(sys) && steps >= Left(sys)
    requires sys.engine.Halted? ==> |sys.wire| == |sys.queued|
    ensures Ok(sys)
    ensures var end := Run(sys, Hardwares(steps));
      && Inv(end) && end.pc == sys.pc && end.queued == sys.queued && end.recycled == sys.recycled
      && |end.wire| == |sys.queued|
    decreases steps
  {
    hide Inv, Transfer, Left;
    InvOk(sys);
    InvCounts(sys);
    TransferInv(sys, false);
    if |sys.wire| < |sys.queued| {
      WorkStep(sys);
    } else {
      Rest(sys);
      Rest(Transfer(sys, false));
    }
    if steps > 0 {
      assert Hardwares(steps)[1..] == Hardwares(steps - 1);
      Drain(Transfer(sys, false), steps - 1);
    }
  }

  lemma InvCounts(sys: System)
    requires Inv(sys)
    ensures |sys.wire| <= |sys.queued|
  {
  }

  /** With nothing to send the engine stops. */
  lemma Rest(sys: System)
    requires Inv(sys) && |sys.wire| == |sys.queued|
    ensures Left(sys) == 0 && Transfer(sys, false) == sys.(engine := Halted)
  {
    hide Loaded;
    assert sys.tx.desc[Slot(|sys.wire|)].used;
  }

  function Polls(n: nat): (r: seq<Action>)
    ensures ActionsOk(r)
  {
    if n == 0 then [] else [Begin(GetStatus), Driver, Driver] + Polls(n - 1)
  }

  lemma OnePoll(sys: System)
    requires Inv(sys) && sys.pc.Idle? && |sys.wire| == |sys.queued|
    ensures Ok(sys) && ActionsOk([Begin(GetStatus), Driver, Driver])
    ensures var end := Run(sys, [Begin(GetStatus), Driver, Driver]);
      && Inv(end) && end.pc.Idle? && end.queued == sys.queued && end.wire == sys.wire
      && |end.recycled| == if |sys.recycled| < |sys.queued| then |sys.recycled| + 1 else |sys.recycled|
  {
    hide Inv, Enter, Advance;
    InvOk(sys);
    EnterInv(sys, GetStatus);
    var asked := Enter(sys, GetStatus);
    if |sys.recycled| < |sys.queued| {
      PollInv(asked);
      ReclaimInv(Advance(asked));
    } else {
      StandsStill(sys);
    }
    PollSteps(sys);
  }

  lemma PollSteps(sys: System)
    requires Ok(sys)
    ensures ActionsOk([Begin(GetStatus), Driver, Driver])
    ensures Run(sys, [Begin(GetStatus), Driver, Driver]) == Advance(Advance(Enter(sys, GetStatus)))
  {
    hide Enter, Advance;
    var asked := Enter(sys, GetStatus);
    RunOne(sys, Begin(GetStatus));
    RunOne(asked, Driver);
    RunOne(Advance(asked), Driver);
    RunJoin(asked, [Driver], [Driver]);
    RunJoin(sys, [Begin(GetStatus)], [Driver] + [Driver]);
    assert [Begin(GetStatus)] + ([Driver] + [Driver]) == [Begin(GetStatus), Driver, Driver];
  }

  /** And as many polls as buffers are out then give every caller its buffer back. */
  lemma {:induction false} GiveBack(sys: System, polls: nat)
    requires Inv(sys) && sys.pc.Idle? && |sys.wire| == |sys.queued| && polls >= |sys.queued| - |sys.recycled|
    ensures Ok(sys)
    ensures var end := Run(sys, Polls(polls)); end.queued == sys.queued && |end.recycled| == |sys.queued|
    decreases polls
  {
    hide Inv;
    InvOk(sys);
    if polls > 0 {
      OnePoll(sys);
      hide Run, ActionsOk;
      RunJoin(sys, [Begin(GetStatus), Driver, Driver], Polls(polls - 1));
      GiveBack(Run(sys, [Begin(GetStatus), Driver, Driver]), polls - 1);
    }
  }

  // ----- a call while the hardware stands still -----

  function Drivers(n: nat): (r: seq<Action>)
    ensures |r| == n && ActionsOk(r)
  {
    seq(n, _ => Driver)
  }

  lemma SpliceOne(s: seq<byte>, at: nat, b: byte)
    requires at < |s|
    ensures s[at := b] == Splice(s, at, [b])
  {
  }

  lemma {:induction false} CopyAlone(sys: System)
    requires Ok(sys) && sys.pc.Copying?
    ensures var f, k, i := sys.pc.frame, sys.pc.done, sys.tx.prod % TX_DESC_COUNT;
      Run(sys, Drivers(|f.bytes| - k)) == sys.(
        tx := sys.tx.(buffers := Splice(sys.tx.buffers, i * TX_BUFFER_SIZE + k, f.bytes[k..])),
        pc := Copying(f, |f.bytes|))
    decreases |sys.pc.frame.bytes| - sys.pc.done
  {
    var f, k, i := sys.pc.frame, sys.pc.done, sys.tx.prod % TX_DESC_COUNT;
    if k < |f.bytes| {
      var at := i * TX_BUFFER_SIZE + k;
      SpliceOne(sys.tx.buffers, at, f.bytes[k]);
      hide Splice;
      assert Drivers(|f.bytes| - k)[1..] == Drivers(|f.bytes| - k - 1);
      CopyAlone(Advance(sys));
      assert f.bytes[k..] == [f.bytes[k]] + f.bytes[k + 1..];
      SpliceAdjacent(sys.tx.buffers, at, [f.bytes[k]], f.bytes[k + 1..]);
    } else {
      assert f.bytes[k..] == [];
    }
  }

  /** The steps of a send, run in a row, are GemTransmitFrame and the kick. */
  lemma TransmitAlone(sys: System, f: Frame)
    requires Ok(sys) && sys.pc.Idle? && FrameOk(f)
    ensures ActionsOk([Begin(Transmit(f))] + Drivers(|f.bytes| + 3))
    ensures var end := Run(sys, [Begin(Transmit(f))] + Drivers(|f.bytes| + 3));
      var (status, tx) := Submit(sys.tx, f);
      && end.pc.Idle? && end.tx == tx
      && end.queued == (if status == Success then sys.queued + [f] else sys.queued)
  {
    hide Run, Advance, Splice, Transfer;
    var n := |f.bytes|;
    var first := Enter(sys, Transmit(f));
    RunOne(sys, Begin(Transmit(f)));
    RunJoin(sys, [Begin(Transmit(f))], Drivers(n + 3));
    if Full(sys.tx) {
      IdleStays(sys, n + 3);
    } else {
      assert Drivers(n + 3) == Drivers(n) + Drivers(3);
      RunJoin(first, Drivers(n), Drivers(3));
      CopyAlone(first);
      assert f.bytes[0..] == f.bytes;
      ThreeSteps(Run(first, Drivers(n)));
      HandOver(Run(first, Drivers(n)));
    }
  }

  /** After the copy: publish, record, kick. */
  lemma HandOver(sys: System)
    requires Ok(sys) && sys.pc.Copying? && sys.pc.done == |sys.pc.frame.bytes|
    ensures var end, tx, f := Advance(Advance(Advance(sys))), sys.tx, sys.pc.frame;
      var i := tx.prod % TX_DESC_COUNT;
      && end.pc.Idle? && end.queued == sys.queued + [f]
      && end.tx == TxState(tx.desc[i := Desc(false, i == TX_DESC_COUNT - 1, |f.bytes|, false)], tx.buffers,
                           tx.user[i := f.user], (tx.prod + 1) % TWO_16, tx.cons)
  {
  }

  lemma ThreeSteps(sys: System)
    requires Ok(sys)
    ensures Run(sys, Drivers(3)) == Advance(Advance(Advance(sys)))
  {
    var d := Drivers(3);
    assert d[1..] == Drivers(2) && Drivers(2)[1..] == Drivers(1) && Drivers(1)[1..] == [];
    assert Run(Advance(Advance(sys)), Drivers(1)) == Advance(Advance(Advance(sys)));
  }

  lemma {:induction false} IdleStays(sys: System, n: nat)
    requires Ok(sys) && sys.pc.Idle?
    ensures Run(sys, Drivers(n)) == sys
  {
    if n > 0 {
      assert Drivers(n)[1..] == Drivers(n - 1);
      IdleStays(sys, n - 1);
    }
  }
}
