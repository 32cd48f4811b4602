/**
 The driver behind the Simple Network Protocol, over its two ring objects: each call is proved
 to be the steps SnpNet.dfy has for it, with the transmit and receive engines at work while a
 ring call is under way.
 */
module SnpDriver {
  import opened Bytes
  import opened Snp
  import Tx = GemTxRing
  import Rx = GemRxRing
  import TxQ = GemTxQueue
  import RxQ = GemRxQueue
  import N = SnpNet

  // ----- ring steps as steps of the interface -----

  function TxStep(a: Tx.Action): N.Action
    requires !a.Begin?
  {
    match a
    case Driver => N.TxDriver
    case Hardware(failed) => N.TxHardware(failed)
  }

  function TxSteps(steps: seq<Tx.Action>): (r: seq<N.Action>)
    requires TxQ.Inside(steps)
    ensures N.ActionsOk(r) && |r| == |steps| && forall i :: 0 <= i < |r| ==> !r[i].Snp?
  {
    if steps == [] then [] else [TxStep(steps[0])] + TxSteps(steps[1..])
  }

  function RxStep(a: Rx.Action): N.Action
    requires !a.Begin?
  {
    match a
    case Driver => N.RxDriver
    case Arrive(x) => N.RxArrive(x)
    case Hardware => N.RxHardware
  }

  function RxSteps(steps: seq<Rx.Action>): (r: seq<N.Action>)
    requires RxQ.Inside(steps) && Rx.ActionsOk(steps)
    ensures N.ActionsOk(r) && |r| == |steps| && forall i :: 0 <= i < |r| ==> !r[i].Snp?
  {
    if steps == [] then [] else [RxStep(steps[0])] + RxSteps(steps[1..])
  }

  lemma {:induction false} LiftTx(net: N.Net, steps: seq<Tx.Action>)
    requires N.Ok(net) && net.now.Some? && N.TxOn(net.mac) && TxQ.Inside(steps) && Tx.ActionsOk(steps)
    ensures N.Run(net, TxSteps(steps)) == net.(now := Some(net.now.value.(tx := Tx.Run(net.now.value.tx, steps))))
    decreases |steps|
  {
    hide N.TxOn, Tx.Advance, Tx.Transfer;
    if steps != [] {
      LiftTx(N.Step(net, TxStep(steps[0])), steps[1..]);
    }
  }

  lemma {:induction false} LiftRx(net: N.Net, steps: seq<Rx.Action>)
    requires N.Ok(net) && net.now.Some? && N.RxOn(net.mac) && RxQ.Inside(steps) && Rx.ActionsOk(steps)
    ensures N.Run(net, RxSteps(steps)) == net.(now := Some(net.now.value.(rx := Rx.Run(net.now.value.rx, steps))))
    decreases |steps|
  {
    hide N.RxOn, Rx.Advance, Rx.Transfer;
    if steps != [] {
      LiftRx(N.Step(net, RxStep(steps[0])), steps[1..]);
    }
  }

  /** `call` is one call of the interface, made in the first state, with everything that happens until it returns. */
  ghost predicate CallOf(from: N.Net, call: seq<N.Action>, c: SnpCall, to: N.Net) {
    && call != [] && call[0] == N.Snp(c) && (forall i :: 1 <= i < |call| ==> !call[i].Snp?)
    && N.Ok(from) && N.ActionsOk(call) && N.Run(from, call) == to
  }

  lemma PlainCall(from: N.Net, c: SnpCall)
    requires N.Ok(from) && N.ActionOk(N.Snp(c))
    ensures CallOf(from, [N.Snp(c)], c, N.Step(from, N.Snp(c)))
  {
    hide N.Step;
    assert [N.Snp(c)][1..] == [];
    assert N.Run(N.Step(from, N.Snp(c)), []) == N.Step(from, N.Snp(c));
  }

  lemma TxCall(from: N.Net, c: SnpCall, request: Tx.Request, ring: seq<Tx.Action>, to: Tx.System)
      returns (call: seq<N.Action>)
    requires N.Ok(from) && N.ActionOk(N.Snp(c)) && from.now.Some?
    requires TxQ.CallOf(from.now.value.tx, ring, request, to)
    requires Tx.ActionOk(Tx.Begin(request)) && N.TxOn(Call(from.mac, c).1)
    requires N.Step(from, N.Snp(c))
          == from.(mac := Call(from.mac, c).1, now := Some(from.now.value.(tx := Tx.Enter(from.now.value.tx, request))))
    ensures CallOf(from, call, c,
                   from.(mac := Call(from.mac, c).1, now := Some(from.now.value.(tx := to))))
  {
    hide N.Step, Call, N.TxOn, Tx.Enter, N.ActionOk;
    var begun := N.Step(from, N.Snp(c));
    TxInside(ring);
    LiftTx(begun, ring[1..]);
    call := [N.Snp(c)] + TxSteps(ring[1..]);
    assert call[1..] == TxSteps(ring[1..]);
    assert Tx.Run(from.now.value.tx, ring) == Tx.Run(Tx.Enter(from.now.value.tx, request), ring[1..]);
  }

  lemma TxInside(ring: seq<Tx.Action>)
    requires ring != [] && Tx.ActionsOk(ring)
    ensures Tx.ActionsOk(ring[1..])
  {
  }

  lemma RxCall(from: N.Net, c: SnpCall, size: nat, ring: seq<Rx.Action>, to: Rx.System)
      returns (call: seq<N.Action>)
    requires N.Ok(from) && N.ActionOk(N.Snp(c)) && from.now.Some?
    requires RxQ.CallOf(from.now.value.rx, ring, size, to) && N.RxOn(Call(from.mac, c).1)
    requires N.Step(from, N.Snp(c))
          == from.(mac := Call(from.mac, c).1, now := Some(from.now.value.(rx := Rx.Step(from.now.value.rx, Rx.Begin(size)))))
    ensures CallOf(from, call, c,
                   from.(mac := Call(from.mac, c).1, now := Some(from.now.value.(rx := to))))
  {
    hide N.Step, Call, N.RxOn, Rx.Step, N.ActionOk;
    var begun := N.Step(from, N.Snp(c));
    RxInside(ring);
    LiftRx(begun, ring[1..]);
    call := [N.Snp(c)] + RxSteps(ring[1..]);
    assert call[1..] == RxSteps(ring[1..]);
  }

  lemma RxInside(ring: seq<Rx.Action>)
    requires ring != [] && Rx.ActionsOk(ring)
    ensures Rx.ActionsOk(ring[1..])
  {
  }

  // ----- the driver -----

  /** FilterCfg, by the branches of the code. */
  lemma FilterCases(netCfg: bv32, filters: bv32)
    ensures var cleared := netCfg & !(COPY_ALL | NO_BCAST | MULTI_HASH_EN | UNI_HASH_EN);
      FilterCfg(netCfg, filters) ==
        if filters & PROMISCUOUS != 0 then cleared | COPY_ALL
        else if filters & BROADCAST == 0 then
          if filters & (MULTICAST | PROMISCUOUS_MULTICAST) != 0 then cleared | NO_BCAST | MULTI_HASH_EN
          else cleared | NO_BCAST
        else if filters & (MULTICAST | PROMISCUOUS_MULTICAST) != 0 then cleared | MULTI_HASH_EN
        else cleared
  {
  }

  class SnpDriver {
    var mac: Mac
    const tx: TxQ.TxQueue
    const rx: RxQ.RxQueue
    var begun: bool                        // the rings have been initialised
    ghost var past: seq<N.Session>         // the sessions before this one
    ghost var bounce: seq<byte>            // what the buffers held before the first
    ghost var receive: seq<byte>

    ghost predicate Apart()
      reads this, tx, rx
    {
      && tx.Allocated() && rx.Allocated()
      && tx.buffers != rx.buffers && tx.desc as object != rx.desc as object && tx.user as object != rx.desc as object
      && |bounce| == Tx.TX_DESC_COUNT * Tx.TX_BUFFER_SIZE && |receive| == Rx.RX_DESC_COUNT * Rx.RX_BUFFER_SIZE
    }

    /** The interface as SnpNet has it. */
    ghost function Net(): N.Net
      reads this, tx, rx
    {
      N.Net(mac, bounce, receive, past, if begun then Some(N.Session(tx.sys, rx.sys)) else None)
    }

    ghost predicate Valid()
      reads this, tx, tx.desc, tx.buffers, tx.user, rx, rx.desc, rx.buffers
    {
      && Apart() && N.Inv(Net()) && !N.Busy(Net())
      && (if begun then tx.Valid() && rx.Valid() else tx.buffers[..] == bounce && rx.buffers[..] == receive)
    }

    /** Driver start: state Stopped, default filters, MAC reset. */
    constructor (tx: TxQ.TxQueue, rx: RxQ.RxQueue)
      requires tx.Allocated() && rx.Allocated() && tx.buffers != rx.buffers
      requires tx.desc as object != rx.desc as object && tx.user as object != rx.desc as object
      ensures Valid() && mac.state == Stopped && !begun && past == []
    {
      this.tx, this.rx := tx, rx;
      mac := Mac(Stopped, UNICAST | BROADCAST, false, MGMT_PORT_EN, CfgBase(64), 0, false);
      begun := false;
      past, bounce, receive := [], tx.buffers[..], rx.buffers[..];
      new;
      hide FiltersSay, CfgBase;
      AfterReset();
    }

    /** GemMacReset. */
    method MacReset(busWidth: nat)
      modifies this`mac
      ensures mac == ResetMac(old(mac), busWidth)
    {
      mac := mac.(netCtrl := 0);
      mac := mac.(netCfg := CfgBase(busWidth));
      mac := mac.(hash := 0);
      mac := mac.(netCtrl := MGMT_PORT_EN);
    }

    /** GemMacConfigure, the register half. */
    method MacConfigure(busWidth: nat)
      modifies this`mac
      ensures mac == ConfigureMac(old(mac), busWidth)
    {
      mac := mac.(netCfg := CfgBase(busWidth) | FCS_REMOVE | PAUSE_EN | RXEN_1536 | FULL_DUPLEX | GIGE_EN);
      SetReceiveFilters(mac.setting);
    }

    method SetReceiveFilters(filters: bv32)
      modifies this`mac
      ensures mac == Filtered(old(mac), filters)
    {
      FilterCases(mac.netCfg, filters);
      hide FilterCfg;
      var cfg := mac.netCfg & !(COPY_ALL | NO_BCAST | MULTI_HASH_EN | UNI_HASH_EN);
      var hash: bv32 := 0;
      if filters & PROMISCUOUS != 0 {
        cfg := cfg | COPY_ALL;
      } else {
        if filters & BROADCAST == 0 {
          cfg := cfg | NO_BCAST;
        }
        if filters & (MULTICAST | PROMISCUOUS_MULTICAST) != 0 {
          cfg := cfg | MULTI_HASH_EN;
          hash := 0xFFFF_FFFF;
        }
      }
      mac := mac.(hash := hash);
      mac := mac.(netCfg := cfg);
    }

    /** Rp1GemPhyUpdateConfig. */
    method PhyUpdate(link: Link) returns (up: bool)
      modifies this`mac
      ensures mac == Linked(old(mac), link) && up == link.Up?
    {
      hide WithMdio, LinkCfg;
      mac := mac.(netCtrl := WithMdio(mac.netCtrl));
      if link.MdioError? {
        return false;
      }
      if mac.linkUp != link.Up? {
        if link.Up? {
          mac := mac.(netCfg := LinkCfg(mac.netCfg, link.speed, link.fullDuplex));
        }
        mac := mac.(linkUp := link.Up?);
      }
      up := link.Up?;
    }

    /** Rp1GemPhyInit, as far as the MAC sees it. */
    method PhyInit(phy: Status) returns (r: Status)
      modifies this`mac
      ensures mac == PhyStarted(old(mac)) && r == phy
    {
      mac := mac.(linkUp := false);
      mac := mac.(netCtrl := WithMdio(mac.netCtrl));
      r := phy;
    }

    /** GemInitRings, both halves: a new session. */
    method InitRings()
      requires Apart() && N.Ok(Net())
      requires if begun then tx.Valid() && rx.Valid() else tx.buffers[..] == bounce && rx.buffers[..] == receive
      modifies this`past, this`begun, tx, tx.desc, tx.user, rx, rx.desc
      ensures Apart() && tx.Valid() && rx.Valid() && begun
      ensures Net() == old(Net()).(
        past := if old(begun) then old(past) + [N.Session(old(tx.sys), old(rx.sys))] else old(past),
        now := Some(N.NewSession(old(Net()))))
    {
      hide Tx.Inv, Rx.Inv;
      ghost var closed := N.Session(tx.sys, rx.sys);
      tx.InitRings();
      rx.InitRings();
      past := if begun then past + [closed] else past;
      begun := true;
    }

    /** GemMacReset, then GemMacConfigure: registers and rings. */
    method BringUp(busWidth: nat)
      requires Apart() && N.Ok(Net())
      requires if begun then tx.Valid() && rx.Valid() else tx.buffers[..] == bounce && rx.buffers[..] == receive
      modifies this`mac, this`past, this`begun, tx, tx.desc, tx.user, rx, rx.desc
      ensures Apart() && tx.Valid() && rx.Valid() && begun
      ensures Net() == old(Net()).(
        mac := ConfigureMac(ResetMac(old(mac), busWidth), busWidth),
        past := if old(begun) then old(past) + [N.Session(old(tx.sys), old(rx.sys))] else old(past),
        now := Some(N.NewSession(old(Net()))))
    {
      hide Tx.Inv, Rx.Inv, N.Ok, N.NewSession, ConfigureMac, ResetMac;
      MacReset(busWidth);
      MacConfigure(busWidth);
      SameRings(old(Net()), mac);
      assert Net() == old(Net()).(mac := mac);
      InitRings();
    }

    method Start() returns (r: Status)
      requires Valid()
      modifies this`mac
      ensures Valid() && CallOf(old(Net()), [N.Snp(CallStart)], CallStart, Net()) && r == Call(old(mac), CallStart).0
    {
      hide N.Inv, N.Run, N.Step, N.Busy, N.Ok, CallOf;
      Plain(Net(), CallStart);
      if mac.state == Started {
        return AlreadyStarted;
      } else if mac.state != Stopped {
        return DeviceError;
      }
      mac := mac.(state := Started);
      r := Success;
    }

    method Stop() returns (r: Status)
      requires Valid()
      modifies this`mac
      ensures Valid() && CallOf(old(Net()), [N.Snp(CallStop)], CallStop, Net()) && r == Call(old(mac), CallStop).0
    {
      hide N.Inv, N.Run, N.Step, N.Busy, N.Ok, CallOf, DisableTxRx;
      Plain(Net(), CallStop);
      if mac.state == Stopped {
        return NotStarted;
      } else if mac.state != Started {
        return DeviceError;
      }
      mac := mac.(netCtrl := DisableTxRx(mac.netCtrl));
      mac := mac.(state := Stopped);
      r := Success;
    }

    /** Initialize: registers and rings, then the PHY, then the receiver and transmitter. */
    method Initialize(busWidth: nat, phy: Status) returns (r: Status)
      requires Valid()
      modifies this, tx, tx.desc, tx.user, rx, rx.desc
      ensures Valid() && r == Call(old(mac), CallInitialize(busWidth, phy)).0
      ensures var c := CallInitialize(busWidth, phy); CallOf(old(Net()), [N.Snp(c)], c, Net())
    {
      hide N.Inv, N.Run, N.Enter, N.Step, N.NewSession, N.Busy, N.Ok, CallOf, Call, ResetMac, ConfigureMac, EnableTxRx, WithMdio,
           Tx.Inv, Rx.Inv, PhyStarted;
      InitializeCall(mac, busWidth, phy);
      Plain(Net(), CallInitialize(busWidth, phy));
      OpenCall(Net(), busWidth, phy);
      if mac.state == Stopped {
        return NotStarted;
      } else if mac.state != Started {
        return DeviceError;
      }
      ConfigureState(mac, busWidth);
      BringUp(busWidth);
      r := PhyInit(phy);
      if r != Success {
        return;
      }
      GoLive();
    }

    /** The end of Initialize: GemMacEnableTxRx, then the mode. */
    method GoLive()
      modifies this`mac
      ensures mac == old(mac).(netCtrl := EnableTxRx(old(mac).netCtrl), media := false, state := Initialized)
    {
      hide EnableTxRx;
      mac := mac.(netCtrl := EnableTxRx(mac.netCtrl));
      mac := mac.(media := false);
      mac := mac.(state := Initialized);
    }

    method Reset(phy: Status) returns (r: Status)
      requires Valid()
      modifies this`mac
      ensures Valid() && CallOf(old(Net()), [N.Snp(CallReset(phy))], CallReset(phy), Net()) && r == Call(old(mac), CallReset(phy)).0
    {
      hide N.Inv, N.Run, N.Step, N.Busy, N.Ok, CallOf, WithMdio;
      Plain(Net(), CallReset(phy));
      if mac.state == Stopped {
        return NotStarted;
      }
      if mac.state != Initialized {
        return DeviceError;
      }
      r := PhyInit(phy);
      if r != Success {
        return;
      }
      mac := mac.(media := false);
    }

    method Shutdown(busWidth: nat) returns (r: Status)
      requires Valid()
      modifies this`mac
      ensures Valid() && r == Call(old(mac), CallShutdown(busWidth)).0
      ensures CallOf(old(Net()), [N.Snp(CallShutdown(busWidth))], CallShutdown(busWidth), Net())
    {
      hide N.Inv, N.Run, N.Step, N.Busy, N.Ok, CallOf, DisableTxRx, CfgBase;
      Plain(Net(), CallShutdown(busWidth));
      if mac.state == Stopped {
        return NotStarted;
      }
      if mac.state != Initialized {
        return DeviceError;
      }
      mac := mac.(netCtrl := DisableTxRx(mac.netCtrl));
      MacReset(busWidth);
      mac := mac.(media := false);
      mac := mac.(state := Started);
      r := Success;
    }

    method ReceiveFilters(enable: bv32, disable: bv32, list: McastList) returns (r: Status)
      requires Valid()
      modifies this`mac
      ensures var c := CallReceiveFilters(enable, disable, list);
        Valid() && CallOf(old(Net()), [N.Snp(c)], c, Net()) && r == Call(old(mac), c).0
    {
      hide N.Inv, N.Run, N.Step, N.Busy, N.Ok, CallOf, Supported, ListOk, NewSetting, Filtered;
      Plain(Net(), CallReceiveFilters(enable, disable, list));
      if !Supported(enable, disable) {
        return InvalidParameter;
      }
      if !ListOk(enable, disable, list) {
        return InvalidParameter;
      }
      if mac.state == Stopped {
        return NotStarted;
      }
      if mac.state != Initialized {
        return DeviceError;
      }
      var setting := NewSetting(mac.setting, enable, disable);
      SetReceiveFilters(setting);
      mac := mac.(setting := setting);
      r := Success;
    }

    /** GetStatus: the link, then the oldest completed buffer if one is wanted, then what waits. */
    method GetStatus(link: Link, wantsTxBuf: bool)
      returns (r: Status, txBuf: nat, received: bool, completed: bool, ghost call: seq<N.Action>)
      requires Valid()
      modifies this`mac, tx, tx.desc, tx.user
      ensures Valid() && CallOf(old(Net()), call, CallGetStatus(link, wantsTxBuf), Net())
      ensures r == Call(old(mac), CallGetStatus(link, wantsTxBuf)).0
      ensures tx.sys.recycled == old(tx.sys.recycled) + (if txBuf == 0 then [] else [txBuf])
      ensures r == Success ==> Rx.Shaped(rx.sys.rx) && received == Rx.Pending(rx.sys.rx)
      ensures r == Success ==> Tx.Shaped(tx.sys.tx) && completed == Tx.Pending(tx.sys.tx)
    {
      hide N.Inv, N.Run, N.Step, N.Ok, CallOf, Linked, Tx.Inv, Rx.Inv, TxQ.CallOf, N.TxOn, N.RxOn, Tx.Enter, Tx.Pending,
           Rx.Pending, Tx.Shaped, Rx.Shaped;
      ghost var c, net := CallGetStatus(link, wantsTxBuf), Net();
      RingCall(net, c);
      txBuf, received, completed, call := 0, false, false, [N.Snp(c)];
      if mac.state == Stopped {
        r := NotStarted;
        return;
      }
      if mac.state != Initialized {
        r := DeviceError;
        return;
      }
      var up := PhyUpdate(link);
      mac := mac.(media := up);
      if wantsTxBuf {
        txBuf, call := Collect(net, link);
      }
      received, completed := WhatWaits();
      r := Success;
    }

    /** The oldest completed buffer, after the link poll. */
    method Collect(ghost net: N.Net, ghost link: Link) returns (txBuf: nat, ghost call: seq<N.Action>)
      requires Apart() && begun && tx.Valid() && rx.Valid() && net.mac.state == Initialized
      requires N.Inv(net) && !N.Busy(net) && Net() == net.(mac := Linked(net.mac, link).(media := link.Up?))
      modifies tx, tx.desc, tx.user
      ensures Valid() && CallOf(net, call, CallGetStatus(link, true), Net())
      ensures tx.sys.recycled == old(tx.sys.recycled) + (if txBuf == 0 then [] else [txBuf])
    {
      hide N.Inv, N.Run, N.Step, N.Ok, CallOf, Linked, Tx.Inv, Rx.Inv, TxQ.CallOf, N.TxOn, N.RxOn, Tx.Enter;
      ghost var c := CallGetStatus(link, true);
      RingCall(net, c);
      ghost var ring;
      txBuf, ring := tx.GetRecycledTxBuffer();
      call := TxCall(net, c, Tx.GetStatus, ring, tx.sys);
      RunKeeps(net, call, c, Net());
    }

    /** The interrupt bits of GetStatus. */
    method WhatWaits() returns (received: bool, completed: bool)
      requires Valid() && begun
      ensures Rx.Shaped(rx.sys.rx) && received == Rx.Pending(rx.sys.rx)
      ensures Tx.Shaped(tx.sys.tx) && completed == Tx.Pending(tx.sys.tx)
    {
      hide N.Inv, Tx.Inv, Rx.Inv, Tx.Pending, Rx.Pending;
      Shapes(tx.sys, rx.sys);
      received := rx.RxPending();
      completed := tx.TxPendingCompletion();
    }

    /** The wait for a link: up to 500 polls, 10 ms apart. */
    method AwaitUp(links: seq<Link>) returns (up: bool)
      modifies this`mac
      ensures (mac, up) == AwaitLink(old(mac), links, LINK_RETRIES)
    {
      hide Linked, AwaitLink;
      var retries: nat, answers := LINK_RETRIES, links;
      while retries > 0
        invariant AwaitLink(old(mac), links, LINK_RETRIES) == AwaitLink(mac, answers, retries)
      {
        AwaitStep(mac, answers, retries);
        up := PhyUpdate(if answers == [] then Down else answers[0]);
        if up {
          return;
        }
        answers := if answers == [] then [] else answers[1..];
        retries := retries - 1;
      }
      AwaitStep(mac, answers, 0);
      up := false;
    }

    /** Transmit: refused by state or packet, given up without a link, or handed to the ring, which is turned away when 8
        frames are in flight. A packet accepted is the next frame of the session. */
    method Transmit(packet: Packet, links: seq<Link>) returns (r: Status, ghost call: seq<N.Action>)
      requires Valid() && PacketShaped(packet)
      modifies this`mac, tx, tx.desc, tx.buffers, tx.user
      ensures Valid() && CallOf(old(Net()), call, CallTransmit(packet, links), Net())
      ensures var reached := Call(old(mac), CallTransmit(packet, links)).0;
        r == if reached == Success && |old(tx.sys.queued)| - |old(tx.sys.recycled)| == Tx.TX_DESC_COUNT then NotReady
             else reached
      ensures r == Success ==>
        && packet.user != 0 && PacketCheck(packet) == Success
        && tx.sys.queued == old(tx.sys.queued) + [N.Frame(packet)]
        && Carries(tx.sys.queued[|tx.sys.queued| - 1].bytes, packet)
        && tx.sys.queued[|tx.sys.queued| - 1].user == packet.user
      ensures r != Success ==> tx.sys.queued == old(tx.sys.queued)
    {
      hide N.Inv, N.Run, N.Step, N.Ok, CallOf, AwaitLink, Tx.Inv, Rx.Inv, TxQ.CallOf, N.TxOn, N.RxOn, PacketBytes;
      ghost var c, net := CallTransmit(packet, links), Net();
      RingCall(net, c);
      call := [N.Snp(c)];
      if packet.user == 0 {
        return InvalidParameter, call;
      }
      if mac.state == Stopped {
        return NotStarted, call;
      }
      if mac.state != Initialized {
        return DeviceError, call;
      }
      if packet.headerSize != 0 {
        if packet.headerSize != MEDIA_HEADER_SIZE {
          return InvalidParameter, call;
        }
        if packet.dest.None? || packet.protocol.None? {
          return InvalidParameter, call;
        }
      }
      if |packet.bytes| < MEDIA_HEADER_SIZE {
        return BufferTooSmall, call;
      }
      if |packet.bytes| > MAX_FRAME_SIZE {
        return InvalidParameter, call;
      }
      if !mac.media {
        var up := AwaitUp(links);
        if !up {
          return NotReady, call;
        }
        mac := mac.(media := true);
      }
      var f := N.Frame(packet);
      PacketCarries(packet);
      ghost var ring;
      r, ring := tx.TransmitFrame(f);
      call := TxCall(net, c, Tx.Transmit(f), ring, tx.sys);
      RunKeeps(net, call, c, Net());
    }

    /** Receive: refused by state, or the receive ring's answer; a frame returned is the next one delivered. */
    method Receive(size: nat) returns (r: Status, frameSize: nat, frame: seq<byte>, ghost call: seq<N.Action>)
      requires Valid()
      modifies rx, rx.desc, rx.buffers
      ensures Valid() && CallOf(old(Net()), call, CallReceive(size), Net())
      ensures Ready(old(mac)) != Success ==> r == Ready(old(mac)) && rx.sys == old(rx.sys)
      ensures Ready(old(mac)) == Success ==> rx.sys.answer == Rx.Answer(r, frameSize, frame)
      ensures rx.sys.delivered == if r == Success then old(rx.sys.delivered) + [frame] else old(rx.sys.delivered)
    {
      hide N.Inv, N.Run, N.Step, N.Ok, CallOf, Tx.Inv, Rx.Inv, RxQ.CallOf, N.TxOn, N.RxOn;
      ghost var c, net := CallReceive(size), Net();
      RingCall(net, c);
      frameSize, frame, call := size, [], [N.Snp(c)];
      if mac.state == Stopped {
        r := NotStarted;
        return;
      }
      if mac.state != Initialized {
        r := DeviceError;
        return;
      }
      ghost var ring;
      r, frameSize, frame, ring := rx.ReceiveFrame(size);
      call := RxCall(net, c, size, ring, rx.sys);
      RunKeeps(net, call, c, Net());
    }
  }

  /** A call that touches no ring. */
  lemma Plain(net: N.Net, c: SnpCall)
    requires N.Inv(net) && !N.Busy(net) && N.ActionOk(N.Snp(c))
    requires !(c.CallGetStatus? || c.CallTransmit? || c.CallReceive?)
    ensures N.Ok(net)
    ensures var next := N.Step(net, N.Snp(c));
      && N.Inv(next) && !N.Busy(next) && CallOf(net, [N.Snp(c)], c, next)
      && (!c.CallInitialize? ==> next == net.(mac := Call(net.mac, c).1))
  {
    hide N.Inv, Call;
    N.InvOk(net);
    PlainCall(net, c);
    N.PlainKeeps(net, c);
  }

  /** What an Initialize does to the interface. */
  lemma OpenCall(net: N.Net, busWidth: nat, phy: Status)
    requires N.Inv(net) && !N.Busy(net)
    ensures N.Ok(net)
    ensures var c := CallInitialize(busWidth, phy);
      N.Step(net, N.Snp(c)) ==
        if net.mac.state != Started then net
        else net.(mac := Call(net.mac, c).1, now := Some(N.NewSession(net)),
                  past := if net.now.Some? then net.past + [net.now.value] else net.past)
  {
    hide N.Inv, N.NewSession, N.Busy, ConfigureMac, ResetMac;
    N.InvOk(net);
  }

  lemma InitializeCall(m: Mac, busWidth: nat, phy: Status)
    ensures Call(m, CallInitialize(busWidth, phy)) ==
      if m.state == Stopped then (NotStarted, m) else if m.state != Started then (DeviceError, m) else
        var up := PhyStarted(ConfigureMac(ResetMac(m, busWidth), busWidth));
        if phy != Success then (phy, up)
        else (Success, up.(netCtrl := EnableTxRx(up.netCtrl), media := false, state := Initialized))
  {
    hide ResetMac, ConfigureMac;
  }

  /** The rings of a new session do not depend on the registers. */
  lemma SameRings(net: N.Net, mac: Mac)
    requires N.Ok(net)
    ensures N.Ok(net.(mac := mac)) && N.NewSession(net.(mac := mac)) == N.NewSession(net)
  {
  }

  /** A call that goes on to a ring, or is refused before it gets there. */
  lemma RingCall(net: N.Net, c: SnpCall)
    requires N.Inv(net) && !N.Busy(net) && N.ActionOk(N.Snp(c)) && (c.CallGetStatus? || c.CallTransmit? || c.CallReceive?)
    ensures N.Ok(net) && CallOf(net, [N.Snp(c)], c, N.Step(net, N.Snp(c))) && N.Inv(N.Step(net, N.Snp(c)))
    ensures var (status, mac) := Call(net.mac, c);
      var next := N.Step(net, N.Snp(c));
      if status != Success then next == net.(mac := mac)
      else
        && net.now.Some? && net.mac.state == Initialized && N.TxOn(mac) && N.RxOn(mac) && Tx.Ok(net.now.value.tx) && Rx.Ok(net.now.value.rx)
        && match c
           case CallGetStatus(_, wants) =>
             next == net.(mac := mac, now := Some(net.now.value.(
               tx := if wants then Tx.Enter(net.now.value.tx, Tx.GetStatus) else net.now.value.tx)))
           case CallTransmit(packet, _) =>
             && packet.user != 0 && PacketCheck(packet) == Success
             && next == net.(mac := mac, now := Some(net.now.value.(
                  tx := Tx.Enter(net.now.value.tx, Tx.Transmit(N.Frame(packet))))))
           case CallReceive(size) =>
             next == net.(mac := mac, now := Some(net.now.value.(rx := Rx.Step(net.now.value.rx, Rx.Begin(size)))))
  {
    hide Snp.Inv, Tx.Inv, Rx.Inv, Tx.Enter, Rx.Step, Call, N.TxOn, N.RxOn, CallOf;
    N.InvOk(net);
    PlainCall(net, c);
    N.StepInv(net, N.Snp(c));
    if Call(net.mac, c).0 == Success {
      N.ReadyAfter(net.mac, c);
      N.Gates(Call(net.mac, c).1);
      if c.CallTransmit? {
        N.PacketPassed(net.mac, c);
      }
    }
  }

  lemma RunKeeps(from: N.Net, call: seq<N.Action>, c: SnpCall, to: N.Net)
    requires N.Inv(from) && CallOf(from, call, c, to)
    ensures N.Inv(to)
  {
    hide N.Inv, N.Run;
    N.NetSafety(from, call);
  }

  lemma Shapes(tx: Tx.System, rx: Rx.System)
    requires Tx.Inv(tx) && Rx.Inv(rx)
    ensures Tx.Shaped(tx.tx) && Rx.Shaped(rx.rx)
  {
  }

  lemma AwaitStep(m: Mac, links: seq<Link>, retries: nat)
    ensures var link := if links == [] then Down else links[0];
      AwaitLink(m, links, retries) ==
        if retries == 0 then (m, false)
        else if link.Up? then (Linked(m, link), true)
        else AwaitLink(Linked(m, link), if links == [] then [] else links[1..], retries - 1)
  {
  }
}
