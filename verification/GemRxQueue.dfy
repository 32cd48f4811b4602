/**
 The driver's side of the receive ring, with the engine at work between any two of its
 accesses to what they share: each method is proved to be the steps of GemRxRing.dfy in order.
 */
module GemRxQueue {
  import opened Bytes
  import opened GemRxRing

  /** Steps with no new call among them: the accesses of a call under way, and the engine's. */
  predicate Inside(steps: seq<Action>) {
    forall i :: 0 <= i < |steps| ==> !steps[i].Begin?
  }

  predicate OnlyHardware(steps: seq<Action>) {
    forall i :: 0 <= i < |steps| ==> (steps[i].Arrive? || steps[i].Hardware?) && ActionOk(steps[i])
  }

  /** The engine changes descriptors and buffers and nothing else that the driver sees. */
  lemma {:induction false} HardwareFrame(sys: System, steps: seq<Action>)
    requires Ok(sys) && OnlyHardware(steps)
    ensures ActionsOk(steps)
    ensures var end := Run(sys, steps);
      && end.rx.head == sys.rx.head && end.pc == sys.pc && end.taken == sys.taken
      && end.delivered == sys.delivered && end.answer == sys.answer
    decreases |steps|
  {
    if steps != [] {
      HardwareFrame(Step(sys, steps[0]), steps[1..]);
    }
  }

  class RxQueue {
    const desc: array<Desc>
    const buffers: array<byte>
    var head: nat
    var sys: System               // the session: the memory below, the engine, and what has happened
    var env: seq<seq<Action>>     // what the engine does before each of the driver's next accesses

    predicate Allocated()
      reads this
    {
      && desc.Length == RX_DESC_COUNT && buffers.Length == RX_DESC_COUNT * RX_BUFFER_SIZE
      && forall i :: 0 <= i < |env| ==> OnlyHardware(env[i])
    }

    function State(): RxState
      reads this, desc, buffers
    {
      RxState(desc[..], buffers[..], head)
    }

    ghost predicate Valid()
      reads this, desc, buffers
    {
      Allocated() && Inv(sys) && sys.rx == State()
    }

    constructor (env: seq<seq<Action>>)
      requires forall i :: 0 <= i < |env| ==> OnlyHardware(env[i])
      ensures Allocated() && this.env == env && fresh(desc) && fresh(buffers)
    {
      desc := new Desc[RX_DESC_COUNT](_ => Desc(false, false, false, false, 0));
      buffers := new byte[RX_DESC_COUNT * RX_BUFFER_SIZE](_ => 0);
      head := 0;
      sys := Start([]);
      this.env := env;
    }

    /** GemInitRings: a new session. */
    method InitRings()
      requires Allocated()
      modifies this, desc
      ensures Valid() && sys == Start(old(buffers[..])) && env == old(env)
    {
      for index := 0 to RX_DESC_COUNT
        modifies desc
        invariant forall i :: 0 <= i < index ==> desc[i] == Desc(false, i == RX_DESC_COUNT - 1, false, false, 0)
      {
        desc[index] := Desc(false, index == RX_DESC_COUNT - 1, false, false, 0);
      }
      head := 0;
      sys := Start(buffers[..]);
      StartInv(buffers[..]);
    }

    /** The engine at work between two accesses of the driver. */
    method Interfere() returns (ghost steps: seq<Action>)
      requires Valid()
      modifies this`env, this`sys, desc, buffers
      ensures Valid() && OnlyHardware(steps) && ActionsOk(steps)
      ensures Ok(old(sys)) && sys == Run(old(sys), steps)
      ensures sys.pc == old(sys.pc) && sys.taken == old(sys.taken)
      ensures sys.delivered == old(sys.delivered) && sys.answer == old(sys.answer)
      ensures old(env) == [] ==> env == [] && sys == old(sys)
      ensures old(env) != [] ==> |env| == |old(env)| - 1
    {
      hide Inv, Run, Ok;
      InvOk(sys);
      steps := [];
      if env != [] {
        steps := env[0];
        HardwareFrame(sys, env[0]);
        RxSafety(sys, env[0]);
        sys := Run(sys, env[0]);
        env := env[1..];
        InvOk(sys);
        RightLengths(sys);
        forall i | 0 <= i < RX_DESC_COUNT {
          desc[i] := sys.rx.desc[i];
        }
        forall i | 0 <= i < RX_DESC_COUNT * RX_BUFFER_SIZE {
          buffers[i] := sys.rx.buffers[i];
        }
        assert desc[..] == sys.rx.desc && buffers[..] == sys.rx.buffers;
      } else {
        RunNothing(sys);
      }
    }

    method RxPending() returns (pending: bool)
      requires Valid() && Shaped(sys.rx)
      ensures pending == Pending(sys.rx)
    {
      pending := desc[head].own;
    }

    /** The read of the address word at the head. */
    method ReadOwn(size: nat) returns (own: bool, ghost steps: seq<Action>)
      requires Valid() && sys.pc == Looking(size)
      modifies this`env, this`sys, desc, buffers
      ensures Valid() && After(old(sys), steps, sys) && Spent(old(env), env)
      ensures sys.pc == (if own then Checking(size) else Idle) && (!own ==> sys.answer == Answer(NotReady, size, []))
      ensures sys.taken == old(sys.taken) && sys.delivered == old(sys.delivered)
      ensures old(env) == [] ==> sys.arrived == old(sys.arrived)
    {
      hide Inv, Run, After;
      steps := Interfere();
      InvOk(sys);
      LookInv(sys);
      AfterAccess(old(sys), steps, sys);
      own := desc[head].own;
      sys := Advance(sys);
      steps := steps + [Driver];
    }

    /** The read of the control word, and what the driver makes of it. */
    method ReadCtrl(size: nat) returns (d: Desc, ghost steps: seq<Action>)
      requires Valid() && sys.pc == Checking(size)
      modifies this`env, this`sys, desc, buffers
      ensures Valid() && After(old(sys), steps, sys) && Spent(old(env), env)
      ensures sys.pc == (if !Good(d) then Clearing(size, None) else if size < d.length then Idle else Copying(size, d.length, []))
      ensures Good(d) && size < d.length ==> sys.answer == Answer(BufferTooSmall, d.length, [])
      ensures sys.taken == old(sys.taken) && sys.delivered == old(sys.delivered)
      ensures old(env) == [] ==> sys.arrived == old(sys.arrived)
    {
      hide Inv, Run, After;
      steps := Interfere();
      InvOk(sys);
      CheckInv(sys);
      AfterAccess(old(sys), steps, sys);
      d := desc[head];
      sys := Advance(sys);
      steps := steps + [Driver];
    }

    /** One byte of the copy. */
    method LoadByte(index: nat, k: nat) returns (b: byte, ghost steps: seq<Action>)
      requires Valid() && sys.pc.Copying? && k == |sys.pc.got| < sys.pc.length && index == head
      modifies this`env, this`sys, desc, buffers
      ensures Valid() && After(old(sys), steps, sys) && Spent(old(env), env)
      ensures sys.pc == Copying(old(sys.pc.size), old(sys.pc.length), old(sys.pc.got) + [b])
      ensures sys.taken == old(sys.taken) && sys.delivered == old(sys.delivered)
      ensures old(env) == [] ==> sys.arrived == old(sys.arrived)
    {
      hide Inv, Run, After;
      HeadInside(sys);
      steps := Interfere();
      InvOk(sys);
      HeadInside(sys);
      CopyInv(sys);
      AfterAccess(old(sys), steps, sys);
      b := buffers[index * RX_BUFFER_SIZE + k];
      sys := Advance(sys);
      steps := steps + [Driver];
    }

    /** The copy out of the receive buffer; its last step is private. */
    method CopyOut(index: nat, size: nat, length: nat) returns (frame: seq<byte>, ghost steps: seq<Action>)
      requires Valid() && sys.pc == Copying(size, length, []) && index == head
      modifies this`env, this`sys, desc, buffers
      ensures Valid() && After(old(sys), steps, sys) && |env| <= |old(env)|
      ensures |frame| == length && sys.pc == Clearing(size, Some(frame))
      ensures sys.taken == old(sys.taken) && sys.delivered == old(sys.delivered)
    {
      hide Inv, Run, After;
      InvOk(sys);
      steps := [];
      frame := [];
      AfterNothing(sys);
      while |frame| < length
        invariant |frame| <= length && Valid() && sys.pc == Copying(size, length, frame)
        invariant After(old(sys), steps, sys) && |env| <= |old(env)|
        invariant sys.taken == old(sys.taken) && sys.delivered == old(sys.delivered)
      {
        ghost var before := sys;
        var b;
        ghost var one;
        b, one := LoadByte(index, |frame|);
        AfterJoin(old(sys), steps, before, one, sys);
        frame, steps := frame + [b], steps + one;
      }
      ghost var copied := sys;
      InvOk(sys);
      CopyInv(sys);
      RunNothing(sys);
      AfterAccess(sys, [], sys);
      sys := Advance(sys);
      AfterJoin(old(sys), steps, copied, [] + [Driver], sys);
      steps := steps + ([] + [Driver]);
    }

    method ClearCtrl(index: nat) returns (ghost steps: seq<Action>)
      requires Valid() && sys.pc.Clearing? && index == head
      modifies this`env, this`sys, desc, buffers
      ensures Valid() && After(old(sys), steps, sys) && Spent(old(env), env)
      ensures sys.pc == Releasing(old(sys.pc.size), old(sys.pc.frame))
      ensures sys.taken == old(sys.taken) && sys.delivered == old(sys.delivered)
      ensures old(env) == [] ==> sys.arrived == old(sys.arrived)
    {
      hide Inv, Run, After;
      HeadInside(sys);
      steps := Interfere();
      InvOk(sys);
      HeadInside(sys);
      ClearInv(sys);
      AfterAccess(old(sys), steps, sys);
      desc[index] := desc[index].(sof := false, eof := false, length := 0);
      sys := Advance(sys);
      steps := steps + [Driver];
    }

    method ClearOwn(index: nat) returns (ghost steps: seq<Action>)
      requires Valid() && sys.pc.Releasing? && index == head
      modifies this`env, this`sys, desc, buffers
      ensures Valid() && After(old(sys), steps, sys) && Spent(old(env), env)
      ensures sys.pc == Advancing(old(sys.pc.size), old(sys.pc.frame))
      ensures sys.taken == old(sys.taken) + 1 && sys.delivered == old(sys.delivered)
      ensures old(env) == [] ==> sys.arrived == old(sys.arrived)
    {
      hide Inv, Run, After;
      HeadInside(sys);
      steps := Interfere();
      InvOk(sys);
      HeadInside(sys);
      ReleaseInv(sys);
      AfterAccess(old(sys), steps, sys);
      desc[index] := desc[index].(own := false);
      sys := Advance(sys);
      steps := steps + [Driver];
    }

    method MoveHead(index: nat) returns (ghost steps: seq<Action>)
      requires Valid() && sys.pc.Advancing? && index == head
      modifies this`env, this`sys, this`head, desc, buffers
      ensures Valid() && After(old(sys), steps, sys) && Spent(old(env), env)
      ensures var frame := old(sys.pc.frame);
        if frame.None? then sys.pc == Looking(old(sys.pc.size)) && sys.delivered == old(sys.delivered)
        else sys.pc == Idle && sys.delivered == old(sys.delivered) + [frame.value]
             && sys.answer == Answer(Success, |frame.value|, frame.value)
      ensures sys.taken == old(sys.taken)
      ensures old(env) == [] ==> sys.arrived == old(sys.arrived)
    {
      hide Inv, Run, After;
      HeadInside(sys);
      steps := Interfere();
      InvOk(sys);
      PassInv(sys);
      AfterAccess(old(sys), steps, sys);
      head := (index + 1) % RX_DESC_COUNT;
      sys := Advance(sys);
      steps := steps + [Driver];
    }

    /** GemRecycleRxDescriptor: the control word, then OWN, then the head. */
    method RecycleDescriptor(index: nat) returns (ghost steps: seq<Action>)
      requires Valid() && sys.pc.Clearing? && index == head
      modifies this`env, this`sys, this`head, desc, buffers
      ensures Valid() && After(old(sys), steps, sys) && Spent(old(env), env)
      ensures var frame := old(sys.pc.frame);
        if frame.None? then sys.pc == Looking(old(sys.pc.size)) && sys.delivered == old(sys.delivered)
        else sys.pc == Idle && sys.delivered == old(sys.delivered) + [frame.value]
             && sys.answer == Answer(Success, |frame.value|, frame.value)
      ensures sys.taken == old(sys.taken) + 1
      ensures old(env) == [] ==> sys.arrived == old(sys.arrived)
    {
      hide Inv, Run, After;
      ghost var clear := ClearCtrl(index);
      ghost var cleared := sys;
      ghost var own := ClearOwn(index);
      ghost var released := sys;
      ghost var move := MoveHead(index);
      AfterJoin(old(sys), clear, cleared, own, released);
      AfterJoin(old(sys), clear + own, released, move, sys);
      steps := clear + own + move;
    }

    /** GemReceiveFrame, with the engine at work all through it: it returns once the engine stops feeding it bad
        descriptors. Whatever the engine does, the call is its steps in order, and a frame returned is the next one
        delivered. */
    method ReceiveFrame(size: nat) returns (status: Status, frameSize: nat, frame: seq<byte>, ghost call: seq<Action>)
      requires Valid() && sys.pc == Idle
      modifies this, desc, buffers
      ensures Valid() && sys.pc == Idle && CallOf(old(sys), call, size, sys)
      ensures sys.answer == Answer(status, frameSize, frame)
      ensures status == Success || status == NotReady || status == BufferTooSmall
      ensures sys.delivered == if status == Success then old(sys.delivered) + [frame] else old(sys.delivered)
      ensures status == Success ==> |frame| == frameSize
      ensures status == BufferTooSmall ==> size < frameSize
    {
      hide Inv, Run, After, CallOf, Step;
      InvOk(sys);
      BeginInv(sys, size);
      ghost var start := sys;
      sys := Step(sys, Begin(size));
      ghost var begun := sys;
      InvOk(begun);
      AfterNothing(begun);
      frame := [];
      ghost var steps := [];
      while true
        invariant Valid() && sys.pc == Looking(size) && frame == [] && sys.delivered == old(sys.delivered)
        invariant After(begun, steps, sys)
        decreases |env|, |sys.arrived| - sys.taken
      {
        InvOk(sys);
        ghost var looking := sys;
        var index := head;
        var own, d;
        ghost var look, check, copy, recycle;
        own, look := ReadOwn(size);
        AfterJoin(begun, steps, looking, look, sys);
        steps := steps + look;
        if !own {
          call := Called(start, size, steps, sys);
          return NotReady, size, frame, call;
        }
        ghost var checking := sys;
        d, check := ReadCtrl(size);
        AfterJoin(begun, steps, checking, check, sys);
        steps := steps + check;
        ghost var checked := sys;
        if !(d.sof && d.eof) || d.length < ETHER_HEADER_SIZE || d.length > RX_BUFFER_SIZE {
          recycle := RecycleDescriptor(index);
          AfterJoin(begun, steps, checked, recycle, sys);
          steps := steps + recycle;
          InvOk(sys);
          continue;
        }
        if size < d.length {
          call := Called(start, size, steps, sys);
          return BufferTooSmall, d.length, frame, call;
        }
        frame, copy := CopyOut(index, size, d.length);
        AfterJoin(begun, steps, checked, copy, sys);
        steps := steps + copy;
        ghost var copied := sys;
        recycle := RecycleDescriptor(index);
        AfterJoin(begun, steps, copied, recycle, sys);
        steps := steps + recycle;
        call := Called(start, size, steps, sys);
        return Success, d.length, frame, call;
      }
    }
  }

  // ----- traces of calls -----

  /** The engine has less left to do, or had nothing. */
  predicate Spent(before: seq<seq<Action>>, after: seq<seq<Action>>) {
    |after| < |before| || (before == [] && after == [])
  }

  /** `steps`, with no new call among them, lead from one state to the other. */
  ghost predicate After(from: System, steps: seq<Action>, to: System) {
    Inside(steps) && Ok(from) && ActionsOk(steps) && Run(from, steps) == to
  }

  /** `call` is a whole call made in the first state and ends in the second. */
  ghost predicate CallOf(from: System, call: seq<Action>, size: nat, to: System) {
    && call != [] && call[0] == Begin(size) && Inside(call[1..])
    && Ok(from) && ActionsOk(call) && Run(from, call) == to
  }

  lemma AfterNothing(sys: System)
    requires Ok(sys)
    ensures After(sys, [], sys)
  {
  }

  lemma AfterAccess(from: System, engine: seq<Action>, now: System)
    requires Ok(from) && OnlyHardware(engine) && ActionsOk(engine) && now == Run(from, engine)
    ensures After(from, engine + [Driver], Advance(now))
  {
    hide Step, Advance;
    RunOne(now, Driver);
    RunJoin(from, engine, [Driver]);
    assert Step(now, Driver) == Advance(now) by { DriverStep(now); }
  }

  lemma DriverStep(sys: System)
    requires Ok(sys)
    ensures Step(sys, Driver) == Advance(sys)
  {
  }

  lemma AfterJoin(a: System, s: seq<Action>, b: System, t: seq<Action>, c: System)
    requires After(a, s, b) && After(b, t, c)
    ensures After(a, s + t, c)
  {
    hide Run;
    RunJoin(a, s, t);
  }

  ghost function Called(from: System, size: nat, steps: seq<Action>, to: System): (call: seq<Action>)
    requires Ok(from) && After(Step(from, Begin(size)), steps, to)
    ensures CallOf(from, call, size, to)
  {
    RunOne(from, Begin(size));
    RunJoin(from, [Begin(size)], steps);
    assert ([Begin(size)] + steps)[1..] == steps;
    [Begin(size)] + steps
  }

  lemma RightLengths(sys: System)
    requires Ok(sys)
    ensures |sys.rx.desc| == RX_DESC_COUNT && |sys.rx.buffers| == RX_DESC_COUNT * RX_BUFFER_SIZE
  {
  }

  lemma HeadInside(sys: System)
    requires Inv(sys)
    ensures sys.rx.head < RX_DESC_COUNT && (sys.pc.Copying? ==> sys.pc.length <= RX_BUFFER_SIZE)
  {
  }
}
