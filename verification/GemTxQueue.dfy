/**
 The driver's side of the transmit ring, with the engine at work between any two of its
 accesses to what they share: each method is proved to be the steps of GemTxRing.dfy in order.
 */
module GemTxQueue {
  import opened Bytes
  import opened GemTxRing

  /** Steps with no new call among them: the accesses of a call under way, and the engine's. */
  predicate Inside(steps: seq<Action>) {
    forall i :: 0 <= i < |steps| ==> !steps[i].Begin?
  }

  predicate OnlyHardware(steps: seq<Action>) {
    forall i :: 0 <= i < |steps| ==> steps[i].Hardware?
  }

  /** The engine changes descriptors and nothing else that the driver sees. */
  lemma {:induction false} HardwareFrame(sys: System, steps: seq<Action>)
    requires Ok(sys) && OnlyHardware(steps)
    ensures ActionsOk(steps)
    ensures var end := Run(sys, steps);
      && end.tx == sys.tx.(desc := end.tx.desc) && end.pc == sys.pc
      && end.queued == sys.queued && end.recycled == sys.recycled
    decreases |steps|
  {
    if steps != [] {
      HardwareFrame(Step(sys, steps[0]), steps[1..]);
    }
  }

  class TxQueue {
    const desc: array<Desc>
    const buffers: array<byte>
    const user: array<nat>
    var prod: nat
    var cons: nat
    var sys: System               // the session: the memory below, the engine, and what has happened
    var env: seq<seq<Action>>     // what the engine does before each of the driver's next accesses

    predicate Allocated()
      reads this
    {
      && desc.Length == TX_DESC_COUNT && buffers.Length == TX_DESC_COUNT * TX_BUFFER_SIZE && user.Length == TX_DESC_COUNT
      && forall i :: 0 <= i < |env| ==> OnlyHardware(env[i])
    }

    function State(): TxState
      reads this, desc, buffers, user
    {
      TxState(desc[..], buffers[..], user[..], prod, cons)
    }

    ghost predicate Valid()
      reads this, desc, buffers, user
    {
      Allocated() && Inv(sys) && sys.tx == State()
    }

    constructor (env: seq<seq<Action>>)
      requires forall i :: 0 <= i < |env| ==> OnlyHardware(env[i])
      ensures Allocated() && this.env == env && fresh(desc) && fresh(buffers) && fresh(user)
    {
      desc := new Desc[TX_DESC_COUNT](_ => Desc(true, false, 0, false));
      buffers := new byte[TX_DESC_COUNT * TX_BUFFER_SIZE](_ => 0);
      user := new nat[TX_DESC_COUNT](_ => 0);
      prod, cons := 0, 0;
      sys := Start([]);
      this.env := env;
    }

    /** GemInitRings: a new session. */
    method InitRings()
      requires Allocated()
      modifies this, desc, user
      ensures Valid() && sys == Start(old(buffers[..])) && env == old(env)
    {
      for index := 0 to TX_DESC_COUNT
        modifies desc, user
        invariant forall i :: 0 <= i < index ==> desc[i] == Desc(true, i == TX_DESC_COUNT - 1, 0, false) && user[i] == 0
      {
        desc[index] := Desc(true, index == TX_DESC_COUNT - 1, 0, false);
        user[index] := 0;
      }
      prod, cons := 0, 0;
      sys := Start(buffers[..]);
      StartInv(buffers[..]);
    }

    /** The engine at work between two accesses of the driver. */
    method Interfere() returns (ghost steps: seq<Action>)
      requires Valid()
      modifies this`env, this`sys, desc
      ensures Valid() && OnlyHardware(steps) && ActionsOk(steps)
      ensures Ok(old(sys)) && sys == Run(old(sys), steps)
      ensures sys.pc == old(sys.pc) && sys.queued == old(sys.queued) && sys.recycled == old(sys.recycled)
    {
      hide Inv, Run, Ok;
      InvOk(sys);
      steps := [];
      if env != [] {
        steps := env[0];
        HardwareFrame(sys, env[0]);
        TxSafety(sys, env[0]);
        sys := Run(sys, env[0]);
        env := env[1..];
        InvOk(sys);
        RightLength(sys);
        forall i | 0 <= i < TX_DESC_COUNT {
          desc[i] := sys.tx.desc[i];
        }
        assert desc[..] == sys.tx.desc;
      } else {
        RunNothing(sys);
      }
    }

    /** One byte of the copy. */
    method StoreByte(index: nat, k: nat, b: byte) returns (ghost steps: seq<Action>)
      requires Valid() && sys.pc.Copying? && sys.pc.done == k < |sys.pc.frame.bytes| && b == sys.pc.frame.bytes[k]
      requires index == prod % TX_DESC_COUNT
      modifies this`env, this`sys, desc, buffers
      ensures Valid() && sys.pc == Copying(old(sys.pc.frame), k + 1) && After(old(sys), steps, sys)
      ensures sys.queued == old(sys.queued) && sys.recycled == old(sys.recycled)
    {
      hide Inv, Run, After;
      steps := Interfere();
      InvOk(sys);
      CopyInv(sys);
      AfterAccess(old(sys), steps, sys);
      buffers[index * TX_BUFFER_SIZE + k] := b;
      sys := Advance(sys);
      steps := steps + [Driver];
    }

    /** The copy into the bounce buffer. */
    method CopyIn(index: nat, f: Frame) returns (ghost steps: seq<Action>)
      requires Valid() && sys.pc == Copying(f, 0) && index == prod % TX_DESC_COUNT
      modifies this`env, this`sys, desc, buffers
      ensures Valid() && sys.pc == Copying(f, |f.bytes|) && After(old(sys), steps, sys)
      ensures sys.queued == old(sys.queued) && sys.recycled == old(sys.recycled)
    {
      hide Inv, After;
      InvOk(sys);
      steps := [];
      AfterNothing(sys);
      var k := 0;
      while k < |f.bytes|
        invariant k <= |f.bytes| && Valid() && sys.pc == Copying(f, k) && After(old(sys), steps, sys)
        invariant sys.queued == old(sys.queued) && sys.recycled == old(sys.recycled)
      {
        ghost var before := sys;
        ghost var one := StoreByte(index, k, f.bytes[k]);
        AfterJoin(old(sys), steps, before, one, sys);
        steps := steps + one;
        k := k + 1;
      }
    }

    /** The control word, in one write, with USED clear: the descriptor is the hardware's. */
    method Publish(index: nat, ctrl: Desc) returns (ghost steps: seq<Action>)
      requires Valid() && sys.pc.Copying? && sys.pc.done == |sys.pc.frame.bytes|
      requires index == prod % TX_DESC_COUNT && ctrl == Desc(false, index == TX_DESC_COUNT - 1, |sys.pc.frame.bytes|, false)
      modifies this`env, this`sys, desc
      ensures Valid() && sys.pc == Published(old(sys.pc.frame)) && After(old(sys), steps, sys)
      ensures sys.queued == old(sys.queued) + [old(sys.pc.frame)] && sys.recycled == old(sys.recycled)
    {
      hide Inv, Run, After;
      steps := Interfere();
      InvOk(sys);
      PublishInv(sys);
      AfterAccess(old(sys), steps, sys);
      desc[index] := ctrl;
      sys := Advance(sys);
      steps := steps + [Driver];
    }

    /** The caller's buffer and the cursor, for GetStatus. */
    method Record(index: nat, buffer: nat) returns (ghost steps: seq<Action>)
      requires Valid() && sys.pc.Published? && buffer == sys.pc.frame.user && index == prod % TX_DESC_COUNT
      modifies this`env, this`sys, this`prod, desc, user
      ensures Valid() && sys.pc == Recorded && After(old(sys), steps, sys)
      ensures sys.queued == old(sys.queued) && sys.recycled == old(sys.recycled)
    {
      hide Inv, Run, After;
      steps := Interfere();
      InvOk(sys);
      RecordInv(sys);
      AfterAccess(old(sys), steps, sys);
      user[index] := buffer;
      prod := (prod + 1) % TWO_16;
      sys := Advance(sys);
      steps := steps + [Driver];
    }

    /** START_TX. */
    method Kick() returns (ghost steps: seq<Action>)
      requires Valid() && sys.pc == Recorded
      modifies this`env, this`sys, desc
      ensures Valid() && sys.pc == Idle && After(old(sys), steps, sys)
      ensures sys.queued == old(sys.queued) && sys.recycled == old(sys.recycled)
    {
      hide Inv, Run, After;
      steps := Interfere();
      InvOk(sys);
      KickInv(sys);
      AfterAccess(old(sys), steps, sys);
      sys := Advance(sys);
      steps := steps + [Driver];
    }

    /** GemTransmitFrame, with the engine at work all through it. Whatever the engine does, the call is its steps in
        order; it is turned away exactly when 8 frames are in flight, and otherwise its frame is the next of the queue. */
    method TransmitFrame(f: Frame) returns (status: Status, ghost call: seq<Action>)
      requires Valid() && sys.pc == Idle && FrameOk(f)
      modifies this, desc, buffers, user
      ensures Valid() && sys.pc == Idle && CallOf(old(sys), call, Transmit(f), sys)
      ensures status == if |old(sys).queued| - |old(sys).recycled| == TX_DESC_COUNT then NotReady else Success
      ensures sys.queued == (if status == Success then old(sys).queued + [f] else old(sys).queued)
      ensures sys.recycled == old(sys).recycled
    {
      hide Inv, After, CallOf;
      InvOk(sys);
      EnterInv(sys, Transmit(f));
      ghost var start := sys;
      sys := Enter(sys, Transmit(f));
      ghost var begun := sys;
      InvOk(begun);
      AfterNothing(begun);
      if (prod - cons) % TWO_16 >= TX_DESC_COUNT {
        status, call := NotReady, Called(start, Transmit(f), [], sys);
        return;
      }
      var index := prod % TX_DESC_COUNT;
      ghost var copy := CopyIn(index, f);
      ghost var copied := sys;
      ghost var hand := Publish(index, Desc(false, index == TX_DESC_COUNT - 1, |f.bytes|, false));
      ghost var published := sys;
      ghost var record := Record(index, f.user);
      ghost var recorded := sys;
      ghost var kick := Kick();
      AfterJoin(begun, copy, copied, hand, published);
      AfterJoin(begun, copy + hand, published, record, recorded);
      AfterJoin(begun, copy + hand + record, recorded, kick, sys);
      status, call := Success, Called(start, Transmit(f), copy + hand + record + kick, sys);
    }

    method TxPendingCompletion() returns (pending: bool)
      requires Valid() && Shaped(sys.tx)
      ensures pending == Pending(sys.tx)
    {
      if cons == prod {
        return false;
      }
      pending := desc[cons % TX_DESC_COUNT].used;
    }

    /** The read of the oldest descriptor. */
    method ReadUsed(index: nat) returns (used: bool, ghost steps: seq<Action>)
      requires Valid() && sys.pc == Polling && index == cons % TX_DESC_COUNT
      modifies this`env, this`sys, desc
      ensures Valid() && sys.pc == (if used then Reclaiming else Idle) && After(old(sys), steps, sys)
      ensures sys.queued == old(sys.queued) && sys.recycled == old(sys.recycled)
      ensures used == (|sys.recycled| < |sys.wire|)
    {
      hide Inv, Run, After;
      steps := Interfere();
      InvOk(sys);
      PollInv(sys);
      AfterAccess(old(sys), steps, sys);
      used := desc[index].used;
      sys := Advance(sys);
      steps := steps + [Driver];
    }

    /** Take the buffer of a completed descriptor. */
    method Take(index: nat) returns (txBuf: nat, ghost steps: seq<Action>)
      requires Valid() && sys.pc == Reclaiming && index == cons % TX_DESC_COUNT
      modifies this`env, this`sys, this`cons, desc, user
      ensures Valid() && sys.pc == Idle && After(old(sys), steps, sys)
      ensures sys.queued == old(sys.queued) && sys.recycled == old(sys.recycled) + [txBuf] && txBuf != 0
    {
      hide Inv, Run, After;
      steps := Interfere();
      InvOk(sys);
      ReclaimInv(sys);
      AfterAccess(old(sys), steps, sys);
      txBuf := user[index];
      user[index] := 0;
      cons := (cons + 1) % TWO_16;
      sys := Advance(sys);
      steps := steps + [Driver];
    }

    /** GemGetRecycledTxBuffer, with the engine at work all through it: NULL, or the oldest buffer not yet given back, and
        then its frame is on the wire. */
    method GetRecycledTxBuffer() returns (txBuf: nat, ghost call: seq<Action>)
      requires Valid() && sys.pc == Idle
      modifies this, desc, user
      ensures Valid() && sys.pc == Idle && CallOf(old(sys), call, GetStatus, sys)
      ensures sys.queued == old(sys).queued
      ensures sys.recycled == if txBuf == 0 then old(sys).recycled else old(sys).recycled + [txBuf]
    {
      hide Inv, After, CallOf;
      InvOk(sys);
      EnterInv(sys, GetStatus);
      ghost var start := sys;
      sys := Enter(sys, GetStatus);
      ghost var begun := sys;
      InvOk(begun);
      AfterNothing(begun);
      txBuf := 0;
      if cons == prod {
        call := Called(start, GetStatus, [], sys);
        return;
      }
      var index := cons % TX_DESC_COUNT;
      var used;
      ghost var read, take;
      used, read := ReadUsed(index);
      if !used {
        call := Called(start, GetStatus, read, sys);
        return;
      }
      ghost var seen := sys;
      txBuf, take := Take(index);
      AfterJoin(begun, read, seen, take, sys);
      call := Called(start, GetStatus, read + take, sys);
    }
  }

  // ----- traces of calls -----

  /** `steps`, with no new call among them, lead from one state to the other. */
  ghost predicate After(from: System, steps: seq<Action>, to: System) {
    Inside(steps) && Ok(from) && ActionsOk(steps) && Run(from, steps) == to
  }

  /** `call` is a whole call made in the first state and ends in the second. */
  ghost predicate CallOf(from: System, call: seq<Action>, request: Request, to: System) {
    && call != [] && call[0] == Begin(request) && Inside(call[1..])
    && Ok(from) && ActionsOk(call) && Run(from, call) == to
  }

  lemma AfterNothing(sys: System)
    requires Ok(sys)
    ensures After(sys, [], sys)
  {
  }

  lemma AfterAccess(from: System, engine: seq<Action>, now: System)
    requires Ok(from) && OnlyHardware(engine) && ActionsOk(engine) && now == Run(from, engine)
    ensures After(from, engine + [Driver], Advance(now))
  {
    hide Step, Advance;
    RunOne(now, Driver);
    RunJoin(from, engine, [Driver]);
    assert Step(now, Driver) == Advance(now) by { DriverStep(now); }
  }

  lemma DriverStep(sys: System)
    requires Ok(sys)
    ensures Step(sys, Driver) == Advance(sys)
  {
  }

  lemma AfterJoin(a: System, s: seq<Action>, b: System, t: seq<Action>, c: System)
    requires After(a, s, b) && After(b, t, c)
    ensures After(a, s + t, c)
  {
    hide Run;
    RunJoin(a, s, t);
  }

  ghost function Called(from: System, request: Request, steps: seq<Action>, to: System): (call: seq<Action>)
    requires Ok(from) && ActionOk(Begin(request)) && After(Enter(from, request), steps, to)
    ensures CallOf(from, call, request, to)
  {
    RunOne(from, Begin(request));
    RunJoin(from, [Begin(request)], steps);
    assert ([Begin(request)] + steps)[1..] == steps;
    [Begin(request)] + steps
  }

  lemma RightLength(sys: System)
    requires Ok(sys)
    ensures |sys.tx.desc| == TX_DESC_COUNT
  {
  }

  lemma RunNothing(sys: System)
    requires Ok(sys)
    ensures ActionsOk([]) && Run(sys, []) == sys
  {
  }
}
