/**
 The network interface as a whole: the Simple Network Protocol calls, the two descriptor rings
 they work on, and the DMA engines, which run only while NET_CTRL enables them. A run is any
 interleaving of calls, of the accesses a call under way makes, and of the engines' accesses.

 Initialize starts a session of both rings. NetSafety is about every run over any number of
 sessions.
 */
module SnpNet {
  import opened Bytes
  import opened Snp
  import Tx = GemTxRing
  import Rx = GemRxRing

  /** What both rings do from one Initialize to the next. */
  datatype Session = Session(tx: Tx.System, rx: Rx.System)

  /** The rings hold what memory held before the first session. */
  datatype Net = Net(mac: Mac, bounce: seq<byte>, receive: seq<byte>, past: seq<Session>, now: Option<Session>)

  datatype Action =
    | Snp(c: SnpCall)
    | TxDriver                       // the next access of a Transmit or GetStatus under way
    | RxDriver                       // the next access of a Receive under way
    | TxHardware(failed: bool)
    | RxArrive(arrival: Rx.Arrival)
    | RxHardware

  predicate Ok(net: Net) {
    && |net.bounce| == Tx.TX_DESC_COUNT * Tx.TX_BUFFER_SIZE && |net.receive| == Rx.RX_DESC_COUNT * Rx.RX_BUFFER_SIZE
    && (net.now.Some? ==> Tx.Ok(net.now.value.tx) && Rx.Ok(net.now.value.rx))
  }

  predicate ActionOk(a: Action) {
    && (a.RxArrive? ==> Rx.ArrivalOk(a.arrival))
    && (a.Snp? && a.c.CallTransmit? ==> PacketShaped(a.c.packet))
  }

  /** A call is under way. */
  predicate Busy(net: Net) {
    net.now.Some? && !(net.now.value.tx.pc.Idle? && net.now.value.rx.pc.Idle?)
  }

  /** The rings as GemInitRings leaves them. */
  function NewSession(net: Net): Session
    requires Ok(net)
  {
    var bounce := if net.now.Some? then net.now.value.tx.tx.buffers else net.bounce;
    var receive := if net.now.Some? then net.now.value.rx.rx.buffers else net.receive;
    Session(Tx.Start(bounce), Rx.Start(receive))
  }

  function Frame(p: Packet): (f: Tx.Frame)
    requires PacketShaped(p) && PacketCheck(p) == Success && p.user != 0
    ensures Tx.FrameOk(f)
  {
    Tx.Frame(p.user, PacketBytes(p))
  }

  /** A call starts: its effect on mode and registers, a new session for Initialize, and the start of a ring call. */
  function Enter(net: Net, c: SnpCall): (r: Net)
    requires Ok(net) && ActionOk(Snp(c))
    ensures Ok(r)
  {
    var (status, mac) := Call(net.mac, c);
    var called := net.(mac := mac);
    if c.CallInitialize? && net.mac.state == Started then
      called.(past := if net.now.Some? then net.past + [net.now.value] else net.past, now := Some(NewSession(net)))
    else if status != Success || net.now.None? then called
    else match c
      case CallGetStatus(_, wants) =>
        if wants then called.(now := Some(net.now.value.(tx := Tx.Enter(net.now.value.tx, Tx.GetStatus)))) else called
      case CallTransmit(packet, _) =>
        called.(now := Some(net.now.value.(tx := Tx.Enter(net.now.value.tx, Tx.Transmit(Frame(packet))))))
      case CallReceive(size) =>
        called.(now := Some(net.now.value.(rx := Rx.Step(net.now.value.rx, Rx.Begin(size)))))
      case _ => called
  }

  predicate TxOn(m: Mac) { m.netCtrl & TX_EN != 0 }
  predicate RxOn(m: Mac) { m.netCtrl & RX_EN != 0 }

  function Step(net: Net, a: Action): (r: Net)
    requires Ok(net) && ActionOk(a)
    ensures Ok(r)
  {
    if a.Snp? then (if Busy(net) then net else Enter(net, a.c))
    else if net.now.None? then net
    else
      var s := net.now.value;
      var tx := match a
                case TxDriver => Tx.Advance(s.tx)
                case TxHardware(failed) => if TxOn(net.mac) then Tx.Transfer(s.tx, failed) else s.tx
                case _ => s.tx;
      var rx := match a
                case RxDriver => Rx.Advance(s.rx)
                case RxArrive(x) => if RxOn(net.mac) then Rx.Step(s.rx, Rx.Arrive(x)) else s.rx
                case RxHardware => if RxOn(net.mac) then Rx.Transfer(s.rx) else s.rx
                case _ => s.rx;
      net.(now := Some(Session(tx, rx)))
  }

  predicate ActionsOk(actions: seq<Action>) {
    forall i :: 0 <= i < |actions| ==> ActionOk(actions[i])
  }

  function Run(net: Net, actions: seq<Action>): (r: Net)
    requires Ok(net) && ActionsOk(actions)
    ensures Ok(r)
    decreases |actions|
  {
    if actions == [] then net else Run(Step(net, actions[0]), actions[1..])
  }

  // ----- what every run keeps -----

  ghost predicate SessionInv(s: Session) {
    Tx.Inv(s.tx) && Rx.Inv(s.rx)
  }

  ghost predicate Inv(net: Net) {
    && Ok(net) && Snp.Inv(net.mac)
    && (forall i :: 0 <= i < |net.past| ==> SessionInv(net.past[i]))
    && (net.now.Some? ==> SessionInv(net.now.value))
    && (net.mac.state == Initialized ==> net.now.Some?)
    && (Busy(net) ==> net.mac.state == Initialized)
  }

  /** The enable bits follow the state. */
  lemma Gates(m: Mac)
    requires Snp.Inv(m)
    ensures TxOn(m) == RxOn(m) == (m.state == Initialized)
  {
    hide FiltersSay, Managed;
    if m.state == Initialized { RunningBits(m.netCtrl); } else { SilentBits(m.netCtrl); }
  }

  lemma RunningBits(ctrl: bv32)
    requires Running(ctrl)
    ensures ctrl & TX_EN != 0 && ctrl & RX_EN != 0
  {
  }

  lemma SilentBits(ctrl: bv32)
    requires Silent(ctrl)
    ensures ctrl & TX_EN == 0 && ctrl & RX_EN == 0
  {
  }

  /** The hardware moves a ring only while the interface is initialized. */
  lemma HardwareGated(net: Net, a: Action)
    requires Inv(net) && ActionOk(a) && (a.TxHardware? || a.RxArrive? || a.RxHardware?)
    ensures net.mac.state != Initialized ==> Step(net, a) == net
  {
    hide Snp.Inv, Tx.Inv, Rx.Inv, TxOn, RxOn;
    Gates(net.mac);
  }

  lemma NewSessionInv(net: Net)
    requires Ok(net)
    ensures SessionInv(NewSession(net))
    ensures NewSession(net).tx.pc.Idle? && NewSession(net).rx.pc.Idle?
    ensures var s := NewSession(net); s.tx.queued == [] && s.tx.wire == [] && s.tx.recycled == [] && s.rx.arrived == [] && s.rx.delivered == []
  {
    hide Tx.Inv, Rx.Inv;
    Tx.StartInv(NewSession(net).tx.tx.buffers);
    Rx.StartInv(NewSession(net).rx.rx.buffers);
  }

  /** Initialize, and nothing else, starts a session: the old one is closed and the new one has no history. */
  lemma EnterSessions(net: Net, c: SnpCall)
    requires Inv(net) && ActionOk(Snp(c))
    ensures var next := Enter(net, c);
      if c.CallInitialize? && net.mac.state == Started then
        && next.past == (if net.now.Some? then net.past + [net.now.value] else net.past)
        && next.now == Some(NewSession(net))
      else
        && next.past == net.past && next.now.Some? == net.now.Some?
        && (net.now.Some? ==> Grown(net.now.value, next.now.value))
  {
    hide Snp.Inv, Tx.Inv, Rx.Inv, Call;
  }

  /** The later state of a session: its histories have grown at the end. */
  predicate Grown(s: Session, t: Session) {
    && s.tx.queued <= t.tx.queued && s.tx.wire <= t.tx.wire && s.tx.recycled <= t.tx.recycled
    && s.rx.arrived <= t.rx.arrived && s.rx.delivered <= t.rx.delivered && s.rx.taken <= t.rx.taken
  }

  lemma GrownJoin(a: Session, b: Session, c: Session)
    requires Grown(a, b) && Grown(b, c)
    ensures Grown(a, c)
  {
  }

  lemma ReadyAfter(m: Mac, c: SnpCall)
    requires (c.CallGetStatus? || c.CallTransmit? || c.CallReceive?) && Call(m, c).0 == Success
    ensures m.state == Initialized && Call(m, c).1.state == Initialized
  {
    hide Linked, AwaitLink, PacketCheck;
    match c {
      case CallGetStatus(link, _) => LinkedState(m, link);
      case CallTransmit(_, links) => AwaitKeeps(m, links, LINK_RETRIES);
      case _ =>
    }
  }

  lemma LinkedState(m: Mac, link: Link)
    ensures Linked(m, link).state == m.state
  {
  }

  /** The plain calls touch no ring and leave no call under way. */
  lemma PlainKeeps(net: Net, c: SnpCall)
    requires Inv(net) && !Busy(net) && ActionOk(Snp(c))
    requires !(c.CallGetStatus? || c.CallTransmit? || c.CallReceive?)
    ensures Inv(Enter(net, c)) && !Busy(Enter(net, c))
  {
    hide Snp.Inv, Tx.Inv, Rx.Inv, NewSession;
    Snp.CallKeeps(net.mac, c);
    NewSessionInv(net);
    StateAfter(net.mac, c);
    hide Call;
  }

  lemma StateAfter(m: Mac, c: SnpCall)
    ensures Call(m, c).1.state == Initialized && m.state != Initialized ==> c.CallInitialize? && m.state == Started
  {
    hide Linked, AwaitLink, PacketCheck, Filtered, ConfigureMac, Supported, ListOk;
    match c {
      case CallInitialize(_, _) =>
      case CallReceiveFilters(_, _, _) =>
      case _ =>
    }
  }

  lemma RingCallKeeps(net: Net, c: SnpCall)
    requires Inv(net) && !Busy(net) && ActionOk(Snp(c))
    requires c.CallGetStatus? || c.CallTransmit? || c.CallReceive?
    ensures Inv(Enter(net, c))
  {
    hide Snp.Inv, Tx.Inv, Rx.Inv, Tx.Enter, Rx.Step, Busy;
    Snp.CallKeeps(net.mac, c);
    StateAfter(net.mac, c);
    RingIdle(net);
    if Call(net.mac, c).0 == Success {
      ReadyAfter(net.mac, c);
      var s := net.now.value;
      match c {
        case CallGetStatus(_, wants) => Tx.EnterInv(s.tx, Tx.GetStatus);
        case CallTransmit(packet, _) => PacketPassed(net.mac, c); Tx.EnterInv(s.tx, Tx.Transmit(Frame(packet)));
        case CallReceive(size) => Rx.BeginInv(s.rx, size);
      }
    }
    StillIdle(net, c);
  }

  lemma PacketPassed(m: Mac, c: SnpCall)
    requires c.CallTransmit? && Call(m, c).0 == Success
    ensures c.packet.user != 0 && PacketCheck(c.packet) == Success
  {
  }

  lemma RingIdle(net: Net)
    requires !Busy(net)
    ensures net.now.Some? ==> net.now.value.tx.pc.Idle? && net.now.value.rx.pc.Idle?
  {
  }

  /** A ring call that is refused leaves no call under way. */
  lemma StillIdle(net: Net, c: SnpCall)
    requires Ok(net) && !Busy(net) && ActionOk(Snp(c)) && (c.CallGetStatus? || c.CallTransmit? || c.CallReceive?)
    ensures Call(net.mac, c).0 != Success ==> !Busy(Enter(net, c))
  {
    hide Call;
  }

  /** Every action keeps it. */
  lemma StepInv(net: Net, a: Action)
    requires Inv(net) && ActionOk(a)
    ensures Inv(Step(net, a))
  {
    hide Snp.Inv, Tx.Inv, Rx.Inv, Enter, TxOn, RxOn;
    if a.Snp? {
      if !Busy(net) {
        if a.c.CallGetStatus? || a.c.CallTransmit? || a.c.CallReceive? { RingCallKeeps(net, a.c); } else { PlainKeeps(net, a.c); }
      }
    } else if net.now.Some? {
      var s := net.now.value;
      Gates(net.mac);
      match a {
        case TxDriver => Tx.AdvanceInv(s.tx); if s.tx.pc.Idle? { Tx.StandsStill(s.tx); }
        case RxDriver => Rx.AdvanceInv(s.rx); if s.rx.pc.Idle? { Rx.StandsStill(s.rx); }
        case TxHardware(failed) => Tx.TransferInv(s.tx, failed);
        case RxArrive(x) => Rx.ArriveInv(s.rx, x);
        case RxHardware => Rx.TransferInv(s.rx);
      }
    }
  }

  lemma StepGrows(net: Net, a: Action)
    requires Inv(net) && ActionOk(a) && net.now.Some?
    ensures var next := Step(net, a);
      && next.now.Some? && net.past <= next.past
      && (if |next.past| > |net.past| then next.past[|net.past|] == net.now.value else Grown(net.now.value, next.now.value))
  {
    hide Snp.Inv, Tx.Inv, Rx.Inv, Enter, NewSession;
    if a.Snp? {
      EnterSessions(net, a.c);
    }
  }

  /** Over every run, from any state of the interface: the invariant holds, and a session that has been closed is never
      touched again, by a call or by the hardware. */
  lemma {:induction false} NetSafety(net: Net, actions: seq<Action>)
    requires Inv(net) && ActionsOk(actions)
    ensures Ok(net) && Inv(Run(net, actions)) && net.past <= Run(net, actions).past
    decreases |actions|
  {
    hide Inv, Step;
    InvOk(net);
    if actions != [] {
      StepInv(net, actions[0]);
      PastStays(net, actions[0]);
      NetSafety(Step(net, actions[0]), actions[1..]);
    }
  }

  lemma InvOk(net: Net)
    requires Inv(net)
    ensures Ok(net)
  {
  }

  lemma PastStays(net: Net, a: Action)
    requires Inv(net) && ActionOk(a)
    ensures net.past <= Step(net, a).past
  {
    hide Snp.Inv, Tx.Inv, Rx.Inv, Enter, NewSession;
    if a.Snp? {
      EnterSessions(net, a.c);
    }
  }

  /** What a session has done: only its own frames have been on the wire and only their buffers given back, only its own
      arrivals delivered, and WRAP is on the last descriptor of each ring only. */
  ghost predicate Says(s: Session) {
    && |s.tx.recycled| <= |s.tx.wire| <= |s.tx.queued| <= |s.tx.recycled| + Tx.TX_DESC_COUNT
    && (forall n :: 0 <= n < |s.tx.wire| ==> s.tx.wire[n] == s.tx.queued[n].bytes)
    && (forall n :: 0 <= n < |s.tx.recycled| ==> s.tx.recycled[n] == s.tx.queued[n].user)
    && 0 <= Rx.Passed(s.rx) <= |s.rx.arrived| && s.rx.delivered == Rx.GoodFrames(s.rx.arrived[..Rx.Passed(s.rx)])
    && |s.tx.tx.desc| == Tx.TX_DESC_COUNT && |s.rx.rx.desc| == Rx.RX_DESC_COUNT
    && (forall i :: 0 <= i < Tx.TX_DESC_COUNT ==> s.tx.tx.desc[i].wrap == (i == Tx.TX_DESC_COUNT - 1))
    && (forall i :: 0 <= i < Rx.RX_DESC_COUNT ==> s.rx.rx.desc[i].wrap == (i == Rx.RX_DESC_COUNT - 1))
  }

  lemma SessionSays(s: Session)
    requires SessionInv(s)
    ensures Says(s)
  {
    hide Rx.GoodFrames, Rx.Slot, Tx.Slot, Rx.Stored, Tx.Loaded, Rx.PcInv, Rx.EngineInv, Tx.PcInv, Tx.EngineInv;
  }

  /** Over every run: so it is in the session under way and in every one before it; a session only adds to what it has
      done, until it is closed; and the receiver and transmitter are enabled exactly while the interface is initialized,
      with the filter bits as the receive filter setting says. */
  lemma {:induction false} NetSessions(net: Net, actions: seq<Action>)
    requires Inv(net) && ActionsOk(actions)
    ensures Ok(net)
    ensures var end := Run(net, actions);
      && (forall i :: 0 <= i < |end.past| ==> Says(end.past[i]))
      && (end.now.Some? ==> Says(end.now.value))
      && net.past <= end.past
      && (net.now.Some? ==>
            end.now.Some? && Grown(net.now.value, if |end.past| > |net.past| then end.past[|net.past|] else end.now.value))
      && TxOn(end.mac) == RxOn(end.mac) == (end.mac.state == Initialized)
      && (end.mac.state == Initialized ==> FiltersSay(end.mac))
  {
    hide Says, SessionInv, TxOn, RxOn, FiltersSay, Running, Silent, Managed, Grown;
    InvOk(net);
    NetSafety(net, actions);
    var end := Run(net, actions);
    forall i | 0 <= i < |end.past| ensures Says(end.past[i]) {
      SessionSays(end.past[i]);
    }
    if end.now.Some? {
      SessionSays(end.now.value);
    }
    if net.now.Some? {
      RunGrows(net, actions);
    }
    Gates(end.mac);
  }

  lemma {:induction false} RunGrows(net: Net, actions: seq<Action>)
    requires Inv(net) && ActionsOk(actions) && net.now.Some?
    ensures Ok(net)
    ensures var end := Run(net, actions);
      && end.now.Some? && net.past <= end.past
      && Grown(net.now.value, if |end.past| > |net.past| then end.past[|net.past|] else end.now.value)
    decreases |actions|
  {
    InvOk(net);
    if actions == [] {
    } else {
      var next := Step(net, actions[0]);
      StepInv(net, actions[0]);
      StepGrows(net, actions[0]);
      hide Inv, Step, Grown, ActionOk;
      RunGrows(next, actions[1..]);
      GrownSelf(net.now.value);
      if |next.past| == |net.past| {
        var end := Run(next, actions[1..]);
        GrownJoin(net.now.value, next.now.value, if |end.past| > |net.past| then end.past[|net.past|] else end.now.value);
      }
    }
  }

  lemma GrownSelf(s: Session)
    ensures Grown(s, s)
  {
  }

  // ----- where the frames of a session come from -----

  /** The frames the calls of a run hand to the transmit ring. */
  function Offered(actions: seq<Action>): set<Tx.Frame>
    requires ActionsOk(actions)
  {
    if actions == [] then {} else OfferedBy(actions[0]) + Offered(actions[1..])
  }

  function OfferedBy(a: Action): set<Tx.Frame>
    requires ActionOk(a)
  {
    if a.Snp? && a.c.CallTransmit? && a.c.packet.user != 0 && PacketCheck(a.c.packet) == Success then {Frame(a.c.packet)} else {}
  }

  /** Every frame of the session, queued or being copied, is one of these. */
  ghost predicate Within(s: Session, frames: set<Tx.Frame>) {
    && (forall n :: 0 <= n < |s.tx.queued| ==> s.tx.queued[n] in frames)
    && (s.tx.pc.Copying? || s.tx.pc.Published? ==> s.tx.pc.frame in frames)
  }

  predicate Initializes(a: Action) {
    a.Snp? && a.c.CallInitialize?
  }

  lemma StepWithin(net: Net, a: Action, frames: set<Tx.Frame>)
    requires Inv(net) && ActionOk(a) && !Initializes(a) && net.now.Some? && Within(net.now.value, frames)
    ensures Step(net, a).now.Some? && Within(Step(net, a).now.value, frames + OfferedBy(a))
  {
    hide Snp.Inv, Tx.Inv, Rx.Inv, Call, NewSession, PacketCheck, PacketBytes, Rx.Advance, Rx.Transfer, Rx.Step;
    if a.Snp? && a.c.CallTransmit? && Call(net.mac, a.c).0 == Success {
      PacketPassed(net.mac, a.c);
    }
  }

  /** From an Initialize to the next, the session's frames are frames its own Transmit calls handed in: nothing of an
      earlier session is queued, so nothing of it is sent or given back. */
  lemma {:induction false} SessionIsOwn(net: Net, actions: seq<Action>, frames: set<Tx.Frame>)
    requires Inv(net) && ActionsOk(actions) && net.now.Some? && Within(net.now.value, frames)
    requires forall i :: 0 <= i < |actions| ==> !Initializes(actions[i])
    ensures Ok(net) && Run(net, actions).now.Some? && Within(Run(net, actions).now.value, frames + Offered(actions))
    decreases |actions|
  {
    InvOk(net);
    if actions == [] {
      assert frames + Offered(actions) == frames;
    } else {
      StepInv(net, actions[0]);
      StepWithin(net, actions[0], frames);
      hide Inv, Step, ActionOk, Within, OfferedBy;
      SessionIsOwn(Step(net, actions[0]), actions[1..], frames + OfferedBy(actions[0]));
      assert frames + OfferedBy(actions[0]) + Offered(actions[1..]) == frames + Offered(actions);
    }
  }

  /** The packet was handed in by a Transmit call of the run that was not refused for it. */
  ghost predicate HandedIn(actions: seq<Action>, p: Packet) {
    p.user != 0 && PacketCheck(p) == Success && exists i :: 0 <= i < |actions| && IsTransmit(actions[i], p)
  }

  predicate IsTransmit(a: Action, p: Packet) {
    a.Snp? && a.c.CallTransmit? && a.c.packet == p
  }

  /** The bytes carry a packet that was handed in; the buffer is that of one. */
  ghost predicate FromPacket(actions: seq<Action>, b: seq<byte>, user: nat) {
    exists p: Packet :: HandedIn(actions, p) && Carries(b, p) && p.user == user
  }

  lemma {:induction false} OfferedCarries(actions: seq<Action>, f: Tx.Frame)
    requires ActionsOk(actions) && f in Offered(actions)
    ensures FromPacket(actions, f.bytes, f.user)
  {
    hide PacketCheck, PacketBytes, Carries;
    if f in OfferedBy(actions[0]) {
      var p := actions[0].c.packet;
      PacketCarries(p);
      assert IsTransmit(actions[0], p);
      assert HandedIn(actions, p);
    } else {
      OfferedCarries(actions[1..], f);
      var p: Packet :| HandedIn(actions[1..], p) && Carries(f.bytes, p) && p.user == f.user;
      var i :| 0 <= i < |actions[1..]| && IsTransmit(actions[1..][i], p);
      assert IsTransmit(actions[i + 1], p);
      assert HandedIn(actions, p);
    }
  }

  /** From an Initialize to the next: every frame on the wire carries a packet one of the session's own Transmit calls
      handed in, header fields in place, and its buffer is the one given back for it. */
  lemma WireCarries(net: Net, actions: seq<Action>)
    requires Inv(net) && ActionsOk(actions) && net.now.Some? && Within(net.now.value, {})
    requires forall i :: 0 <= i < |actions| ==> !Initializes(actions[i])
    ensures Ok(net) && Run(net, actions).now.Some?
    ensures var tx := Run(net, actions).now.value.tx;
      && |tx.recycled| <= |tx.wire| <= |tx.queued|
      && (forall n :: 0 <= n < |tx.queued| ==> FromPacket(actions, tx.queued[n].bytes, tx.queued[n].user))
      && (forall n :: 0 <= n < |tx.wire| ==> FromPacket(actions, tx.wire[n], tx.queued[n].user))
      && (forall n :: 0 <= n < |tx.recycled| ==> FromPacket(actions, tx.wire[n], tx.recycled[n]))
  {
    hide Inv, Run, FromPacket, Offered;
    InvOk(net);
    SessionIsOwn(net, actions, {});
    NetSessions(net, actions);
    var tx := Run(net, actions).now.value.tx;
    assert {} + Offered(actions) == Offered(actions);
    forall n | 0 <= n < |tx.queued| ensures FromPacket(actions, tx.queued[n].bytes, tx.queued[n].user) {
      OfferedCarries(actions, tx.queued[n]);
    }
  }

  /** An Initialize that is accepted closes the session before it and starts one with no frames, no arrivals and no call
      under way, whether or not the PHY then comes up. */
  lemma InitializeStarts(net: Net, c: SnpCall)
    requires Inv(net) && !Busy(net) && c.CallInitialize? && net.mac.state == Started
    ensures var next := Step(net, Snp(c));
      && next.past == (if net.now.Some? then net.past + [net.now.value] else net.past)
      && next.now.Some? && Within(next.now.value, {}) && !Busy(next)
      && next.now.value.tx.recycled == [] && next.now.value.tx.wire == []
      && next.now.value.rx.arrived == [] && next.now.value.rx.delivered == []
  {
    hide Snp.Inv, Tx.Inv, Rx.Inv, Call;
    NewSessionInv(net);
  }
}
