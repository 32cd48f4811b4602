/**
 The MAC behind the Simple Network Protocol: what each call does to the mode and the registers,
 which calls enable the receiver and transmitter, and what the filter bits of NET_CFG say while
 they run. SnpNet.dfy adds the descriptor rings, SnpDriver.dfy the driver's code.
 */
module Snp {
  import opened Bytes

  // NET_CTRL
  const MGMT_PORT_EN: bv32 := 0x10
  const TX_EN: bv32 := 0x8
  const RX_EN: bv32 := 0x4

  // NET_CFG
  const DBUS_WIDTH_64: bv32 := 0x20_0000
  const DBUS_WIDTH_128: bv32 := 0x40_0000
  const MDC_CLK_DIV_96: bv32 := 0x14_0000
  const FCS_REMOVE: bv32 := 0x2_0000
  const PAUSE_EN: bv32 := 0x2000
  const GIGE_EN: bv32 := 0x400
  const RXEN_1536: bv32 := 0x100
  const UNI_HASH_EN: bv32 := 0x80
  const MULTI_HASH_EN: bv32 := 0x40
  const NO_BCAST: bv32 := 0x20
  const COPY_ALL: bv32 := 0x10
  const FULL_DUPLEX: bv32 := 0x2
  const SPEED100: bv32 := 0x1

  // EFI_SIMPLE_NETWORK_RECEIVE_*
  const UNICAST: bv32 := 0x1
  const MULTICAST: bv32 := 0x2
  const BROADCAST: bv32 := 0x4
  const PROMISCUOUS: bv32 := 0x8
  const PROMISCUOUS_MULTICAST: bv32 := 0x10
  const FILTER_MASK: bv32 := 0x1F

  const MAX_MCAST_FILTER_CNT := 16
  const MEDIA_HEADER_SIZE := 14
  const MAX_FRAME_SIZE := 1536
  const LINK_RETRIES := 500

  datatype State = Stopped | Started | Initialized

  /** Driver mode and MAC registers; `media` is MediaPresent. */
  datatype Mac = Mac(state: State, setting: bv32, media: bool, netCtrl: bv32, netCfg: bv32, hash: bv32, linkUp: bool)

  /** GemSetReceiveFilters: the NET_CFG value. */
  function FilterCfg(netCfg: bv32, filters: bv32): bv32 {
    var cleared := netCfg & !(COPY_ALL | NO_BCAST | MULTI_HASH_EN | UNI_HASH_EN);
    if filters & PROMISCUOUS != 0 then cleared | COPY_ALL
    else
      (if filters & BROADCAST == 0 then cleared | NO_BCAST else cleared)
      | (if filters & (MULTICAST | PROMISCUOUS_MULTICAST) != 0 then MULTI_HASH_EN else 0)
  }

  /** GemSetReceiveFilters: the hash registers, all ones to accept every multicast frame. */
  function FilterHash(filters: bv32): bv32 {
    if filters & PROMISCUOUS == 0 && filters & (MULTICAST | PROMISCUOUS_MULTICAST) != 0 then 0xFFFF_FFFF else 0
  }

  /** GemUpdateLinkSpeed: the NET_CFG value. */
  function LinkCfg(netCfg: bv32, speed: nat, fullDuplex: bool): bv32 {
    WithLink(netCfg, if speed == 1000 then GIGE_EN else if speed == 100 then SPEED100 else 0,
             if fullDuplex then FULL_DUPLEX else 0)
  }

  function WithLink(netCfg: bv32, speed: bv32, duplex: bv32): bv32 {
    var cleared := netCfg & !(SPEED100 | GIGE_EN | FULL_DUPLEX);
    cleared | speed | duplex
  }

  /** GemNetCfgBase, from the data bus width the design register reports. */
  function CfgBase(busWidth: nat): bv32 {
    (if busWidth == 64 then DBUS_WIDTH_64 else if busWidth == 128 then DBUS_WIDTH_128 else 0) | MDC_CLK_DIV_96
  }

  /** GemMacEnableTxRx, GemMacDisableTxRx, and the management port every MDIO access keeps on. */
  function EnableTxRx(ctrl: bv32): bv32 { ctrl | (RX_EN | TX_EN) }
  function DisableTxRx(ctrl: bv32): bv32 { ctrl & !(RX_EN | TX_EN) }
  function WithMdio(ctrl: bv32): bv32 { ctrl | MGMT_PORT_EN }

  /** ReceiveFilters: the bits asked for are supported, and the setting that results. */
  predicate Supported(enable: bv32, disable: bv32) { (enable | disable) & !FILTER_MASK == 0 }
  function NewSetting(setting: bv32, enable: bv32, disable: bv32): bv32 { (setting | enable) & !disable }

  /** The multicast list of a ReceiveFilters call. */
  datatype McastList = McastList(reset: bool, count: nat, given: bool)

  /** A list that comes with a new multicast filter must be there and fit. */
  predicate ListOk(enable: bv32, disable: bv32, list: McastList) {
    list.reset || enable & !disable & MULTICAST == 0
    || (list.count <= MAX_MCAST_FILTER_CNT && (list.count == 0 || list.given))
  }

  /** What the PHY says when polled. */
  datatype Link = Down | Up(speed: nat, fullDuplex: bool) | MdioError

  /** A packet for Transmit(); a header to fill in when headerSize is not 0. `source` is the address in effect. */
  datatype Packet = Packet(
    user: nat, bytes: seq<byte>, headerSize: nat,
    dest: Option<seq<byte>>, source: seq<byte>, protocol: Option<nat>)

  predicate PacketShaped(p: Packet) {
    |p.source| == 6 && (p.dest.Some? ==> |p.dest.value| == 6) && (p.protocol.Some? ==> p.protocol.value < 0x1_0000)
  }

  /** The tests of the packet, in order. */
  function PacketCheck(p: Packet): Status {
    if p.headerSize != 0 && (p.headerSize != MEDIA_HEADER_SIZE || p.dest.None? || p.protocol.None?) then InvalidParameter
    else if |p.bytes| < MEDIA_HEADER_SIZE then BufferTooSmall
    else if |p.bytes| > MAX_FRAME_SIZE then InvalidParameter
    else Success
  }

  /** The bytes that are sent: the caller's, with the media header filled in when asked for. */
  function PacketBytes(p: Packet): (r: seq<byte>)
    requires PacketCheck(p) == Success && PacketShaped(p)
    ensures |r| == |p.bytes| <= MAX_FRAME_SIZE
  {
    if p.headerSize == 0 then p.bytes
    else p.dest.value + p.source + [(p.protocol.value / 256) as byte, (p.protocol.value % 256) as byte] + p.bytes[14..]
  }

  /** These bytes carry the packet: the caller's bytes, or with a header its fields first: the destination, the source,
      the protocol with its high byte first; from the 14th byte on the caller's. */
  predicate Carries(b: seq<byte>, p: Packet) {
    |b| == |p.bytes| &&
    if p.headerSize == 0 then b == p.bytes
    else
      && |b| >= 14 && p.dest.Some? && p.protocol.Some?
      && b[0..6] == p.dest.value && b[6..12] == p.source
      && b[12] as nat * 256 + b[13] as nat == p.protocol.value
      && b[14..] == p.bytes[14..]
  }

  lemma PacketCarries(p: Packet)
    requires PacketCheck(p) == Success && PacketShaped(p)
    ensures Carries(PacketBytes(p), p)
  {
    var b := PacketBytes(p);
    if p.headerSize != 0 {
      assert b[0..6] == p.dest.value && b[6..12] == p.source;
      assert b[14..] == p.bytes[14..];
    }
  }

  // ----- the calls -----

  datatype SnpCall =
    | CallStart
    | CallStop
    | CallInitialize(busWidth: nat, phy: Status)
    | CallReset(phy: Status)
    | CallShutdown(busWidth: nat)
    | CallReceiveFilters(enable: bv32, disable: bv32, list: McastList)
    | CallGetStatus(link: Link, wantsTxBuf: bool)
    | CallTransmit(packet: Packet, links: seq<Link>)   // the answers of the PHY while it waits for a link
    | CallReceive(size: nat)

  function ResetMac(m: Mac, busWidth: nat): Mac {
    m.(netCtrl := MGMT_PORT_EN, netCfg := CfgBase(busWidth), hash := 0)
  }

  function Filtered(m: Mac, filters: bv32): Mac {
    m.(netCfg := FilterCfg(m.netCfg, filters), hash := FilterHash(filters))
  }

  /** NET_CFG before the filters are applied. */
  function ConfiguredFrom(m: Mac, busWidth: nat): Mac {
    m.(netCfg := CfgBase(busWidth) | FCS_REMOVE | PAUSE_EN | RXEN_1536 | FULL_DUPLEX | GIGE_EN)
  }

  function ConfigureMac(m: Mac, busWidth: nat): Mac {
    Filtered(ConfiguredFrom(m, busWidth), m.setting)
  }

  /** Rp1GemPhyUpdateConfig: the speed is propagated on a transition to link up only. */
  function Linked(m: Mac, link: Link): Mac {
    var polled := m.(netCtrl := WithMdio(m.netCtrl));
    match link
    case MdioError => polled
    case Down => polled.(linkUp := false)
    case Up(speed, duplex) =>
      if m.linkUp then polled else polled.(linkUp := true, netCfg := LinkCfg(m.netCfg, speed, duplex))
  }

  /** Transmit() waits for a link, polling until it is up or the retries are used up. */
  function AwaitLink(m: Mac, links: seq<Link>, retries: nat): (Mac, bool)
    decreases retries
  {
    if retries == 0 then (m, false) else
      var link := if links == [] then Down else links[0];
      var polled := Linked(m, link);
      if link.Up? then (polled, true)
      else AwaitLink(polled, if links == [] then [] else links[1..], retries - 1)
  }

  /** Rp1GemPhyInit, as far as the MAC sees it. */
  function PhyStarted(m: Mac): Mac {
    m.(linkUp := false, netCtrl := WithMdio(m.netCtrl))
  }

  /** The state test of a call that needs an initialized interface. */
  function Ready(m: Mac): Status {
    if m.state == Stopped then NotStarted else if m.state != Initialized then DeviceError else Success
  }

  /** Every call: its result and the MAC afterwards. Success of a call that goes on to a ring means it got there. */
  function Call(m: Mac, c: SnpCall): (Status, Mac) {
    match c
    case CallStart =>
      if m.state == Started then (AlreadyStarted, m) else if m.state != Stopped then (DeviceError, m)
      else (Success, m.(state := Started))
    case CallStop =>
      if m.state == Stopped then (NotStarted, m) else if m.state != Started then (DeviceError, m)
      else (Success, m.(netCtrl := DisableTxRx(m.netCtrl), state := Stopped))
    case CallInitialize(busWidth, phy) =>
      if m.state == Stopped then (NotStarted, m) else if m.state != Started then (DeviceError, m) else
        var up := PhyStarted(ConfigureMac(ResetMac(m, busWidth), busWidth));
        if phy != Success then (phy, up)
        else (Success, up.(netCtrl := EnableTxRx(up.netCtrl), media := false, state := Initialized))
    case CallReset(phy) =>
      if Ready(m) != Success then (Ready(m), m)
      else (phy, if phy == Success then PhyStarted(m).(media := false) else PhyStarted(m))
    case CallShutdown(busWidth) =>
      if Ready(m) != Success then (Ready(m), m)
      else (Success, ResetMac(m, busWidth).(media := false, state := Started))
    case CallReceiveFilters(enable, disable, list) =>
      if !Supported(enable, disable) || !ListOk(enable, disable, list) then (InvalidParameter, m)
      else if Ready(m) != Success then (Ready(m), m)
      else
        var setting := NewSetting(m.setting, enable, disable);
        (Success, Filtered(m, setting).(setting := setting))
    case CallGetStatus(link, _) =>
      if Ready(m) != Success then (Ready(m), m) else (Success, Linked(m, link).(media := link.Up?))
    case CallTransmit(packet, links) =>
      if packet.user == 0 then (InvalidParameter, m)
      else if Ready(m) != Success then (Ready(m), m)
      else if PacketCheck(packet) != Success then (PacketCheck(packet), m)
      else if m.media then (Success, m)
      else
        var (waited, up) := AwaitLink(m, links, LINK_RETRIES);
        if up then (Success, waited.(media := true)) else (NotReady, waited)
    case CallReceive(_) => (Ready(m), m)
  }

  // ----- what one call does -----

  /** The mode is a state machine: which calls change the state, and what the others answer in the wrong one. */
  lemma StatesAndAnswers(m: Mac, c: SnpCall)
    ensures var (status, next) := Call(m, c);
      && next.state == (if m.state == Stopped && c.CallStart? then Started
                        else if m.state == Started && c.CallStop? then Stopped
                        else if m.state == Started && c.CallInitialize? && c.phy == Success then Initialized
                        else if m.state == Initialized && c.CallShutdown? then Started
                        else m.state)
      && (c.CallStart? ==> status == match m.state
                                     case Stopped => Success
                                     case Started => AlreadyStarted
                                     case Initialized => DeviceError)
      && (m.state == Stopped && !c.CallStart? ==>
            status == if Malformed(c) then InvalidParameter else NotStarted)
      && (m.state == Started && !c.CallStart? && !c.CallStop? && !c.CallInitialize? ==>
            status == if Malformed(c) then InvalidParameter else DeviceError)
      && (m.state == Initialized && (c.CallStart? || c.CallStop? || c.CallInitialize?) ==> status == DeviceError)
      && (m.state == Started && c.CallStop? ==> status == Success)
      && (m.state == Initialized && (c.CallShutdown? || c.CallGetStatus? || c.CallReceive?) ==> status == Success)
      && (m.state == Started && c.CallInitialize? ==> status == c.phy)
      && (m.state == Initialized && c.CallReset? ==> status == c.phy)
      && (m.state == Initialized && c.CallReceiveFilters? ==> status == if Malformed(c) then InvalidParameter else Success)
  {
    hide FilterCfg, FilterHash, CfgBase, LinkCfg, PacketCheck;
    match c {
      case CallTransmit(_, links) => AwaitKeeps(m, links, LINK_RETRIES);
      case CallReceiveFilters(_, _, _) => MalformedFilters(c);
      case _ =>
    }
  }

  /** Refused for their arguments alone: a Transmit without a buffer; filter bits that are not supported, or a new
      multicast filter without a list that fits. */
  predicate Malformed(c: SnpCall) {
    match c
    case CallTransmit(packet, _) => packet.user == 0
    case CallReceiveFilters(enable, disable, list) =>
      || (enable | disable) & 0xFFFF_FFE0 != 0
      || (!list.reset && enable & MULTICAST != 0 && disable & MULTICAST == 0
          && (list.count > 16 || (list.count != 0 && !list.given)))
    case _ => false
  }

  lemma MalformedFilters(c: SnpCall)
    requires c.CallReceiveFilters?
    ensures Malformed(c) <==> !Supported(c.enable, c.disable) || !ListOk(c.enable, c.disable, c.list)
  {
  }

  lemma {:induction false} AwaitKeeps(m: Mac, links: seq<Link>, retries: nat)
    ensures AwaitLink(m, links, retries).0.state == m.state
    decreases retries
  {
    hide LinkCfg;
    if retries > 0 {
      var link := if links == [] then Down else links[0];
      AwaitKeeps(Linked(m, link), if links == [] then [] else links[1..], retries - 1);
    }
  }

  /** What Transmit answers while initialized: refused for its buffer or its header, then for its length, and NotReady only
      when there was no link and none of 500 polls finds one. */
  lemma TransmitAnswers(m: Mac, p: Packet, links: seq<Link>)
    requires m.state == Initialized
    ensures var (status, next) := Call(m, CallTransmit(p, links));
      var header := p.headerSize == 0 || (p.headerSize == 14 && p.dest.Some? && p.protocol.Some?);
      && (status == InvalidParameter <==> p.user == 0 || !header || |p.bytes| > 1536)
      && (status == BufferTooSmall <==> p.user != 0 && header && |p.bytes| < 14)
      && (p.user != 0 && header && 14 <= |p.bytes| <= 1536 ==>
            && (status == Success <==> m.media || exists i :: 0 <= i < |links| && i < 500 && links[i].Up?)
            && (status == NotReady <==> !m.media && forall i :: 0 <= i < |links| && i < 500 ==> !links[i].Up?))
  {
    hide AwaitLink;
    AwaitMeans(m, links, LINK_RETRIES);
  }

  /** Waiting for a link ends well exactly when one of the polls finds it up. */
  lemma {:induction false} AwaitMeans(m: Mac, links: seq<Link>, retries: nat)
    ensures AwaitLink(m, links, retries).1 <==> exists i :: 0 <= i < |links| && i < retries && links[i].Up?
    decreases retries
  {
    hide Linked;
    if retries > 0 && links != [] {
      AwaitMeans(Linked(m, links[0]), links[1..], retries - 1);
      if i :| 0 <= i < |links| && i < retries && links[i].Up? && i > 0 {
        assert links[1..][i - 1].Up?;
      }
    } else if retries > 0 {
      AwaitMeans(Linked(m, Down), [], retries - 1);
    }
  }

  /** Media is reported present while the last word of the PHY was that the link is up: GetStatus says what it polls, a
      frame that goes out had a link, and a new start of interface or PHY forgets it. The setting is ReceiveFilters' own. */
  lemma MediaSays(m: Mac, c: SnpCall)
    ensures var (status, next) := Call(m, c);
      && (next.media <==>
            if status != Success then m.media
            else match c
                 case CallGetStatus(link, _) => link.Up?
                 case CallTransmit(_, _) => true
                 case CallInitialize(_, _) => false
                 case CallReset(_) => false
                 case CallShutdown(_) => false
                 case _ => m.media)
      && next.setting == if c.CallReceiveFilters? && status == Success then NewSetting(m.setting, c.enable, c.disable)
                         else m.setting
  {
    hide FilterCfg, FilterHash, CfgBase, LinkCfg, PacketCheck, NewSetting;
    if c.CallTransmit? {
      AwaitMode(m, c.links, LINK_RETRIES);
    }
  }

  lemma {:induction false} AwaitMode(m: Mac, links: seq<Link>, retries: nat)
    ensures var next := AwaitLink(m, links, retries).0; next.media == m.media && next.setting == m.setting
    decreases retries
  {
    hide LinkCfg;
    if retries > 0 {
      var link := if links == [] then Down else links[0];
      AwaitMode(Linked(m, link), if links == [] then [] else links[1..], retries - 1);
    }
  }

  /** A filter is on after ReceiveFilters when it was on or is enabled, and is not disabled. */
  lemma SettingBits(setting: bv32, enable: bv32, disable: bv32, bit: bv32)
    requires bit == UNICAST || bit == MULTICAST || bit == BROADCAST || bit == PROMISCUOUS || bit == PROMISCUOUS_MULTICAST
    ensures NewSetting(setting, enable, disable) & bit != 0
      <==> (setting & bit != 0 || enable & bit != 0) && disable & bit == 0
  {
    SetBit(setting, enable, disable, bit);
    OneBit(setting, bit);
    OneBit(enable, bit);
    OneBit(disable, bit);
    AllOrNone(setting & bit, enable & bit, disable & bit, bit);
    hide NewSetting;
  }

  lemma OneBit(x: bv32, bit: bv32)
    requires bit == UNICAST || bit == MULTICAST || bit == BROADCAST || bit == PROMISCUOUS || bit == PROMISCUOUS_MULTICAST
    ensures x & bit == 0 || x & bit == bit
  {
  }

  lemma AllOrNone(s: bv32, e: bv32, d: bv32, bit: bv32)
    requires (s == 0 || s == bit) && (e == 0 || e == bit) && (d == 0 || d == bit)
    ensures (s | e) & !d != 0 <==> (s != 0 || e != 0) && d == 0
  {
  }

  lemma SetBit(setting: bv32, enable: bv32, disable: bv32, bit: bv32)
    ensures NewSetting(setting, enable, disable) & bit == ((setting & bit) | (enable & bit)) & !(disable & bit)
  {
  }

  /** The link bits of NET_CFG: gigabit, 100 Mb or neither, and the duplex; no other bit differs from what was there. */
  predicate LinkBits(cfg: bv32, was: bv32, speed: nat, fullDuplex: bool) {
    && cfg & 0x400 == (if speed == 1000 then 0x400 else 0)
    && cfg & 0x1 == (if speed == 100 then 0x1 else 0)
    && cfg & 0x2 == (if fullDuplex then 0x2 else 0)
    && cfg & 0xFFFF_FBFC == was & 0xFFFF_FBFC
  }

  lemma LinkSays(netCfg: bv32, speed: nat, fullDuplex: bool)
    ensures LinkBits(LinkCfg(netCfg, speed, fullDuplex), netCfg, speed, fullDuplex)
  {
    hide WithLink;
    LinkWord(netCfg, if speed == 1000 then GIGE_EN else if speed == 100 then SPEED100 else 0,
             if fullDuplex then FULL_DUPLEX else 0);
  }

  lemma LinkWord(netCfg: bv32, speed: bv32, duplex: bv32)
    requires speed == 0 || speed == GIGE_EN || speed == SPEED100
    requires duplex == 0 || duplex == FULL_DUPLEX
    ensures var cfg := WithLink(netCfg, speed, duplex);
      && cfg & 0x400 == (if speed == GIGE_EN then 0x400 else 0) && cfg & 0x1 == (if speed == SPEED100 then 0x1 else 0)
      && cfg & 0x2 == (if duplex == FULL_DUPLEX then 0x2 else 0) && cfg & 0xFFFF_FBFC == netCfg & 0xFFFF_FBFC
  {
  }

  /** They are set when a link comes up, and at no other poll; the link is remembered until the PHY says it is down. */
  lemma LinkPoll(m: Mac, link: Link)
    ensures var polled := Linked(m, link);
      && polled.linkUp == (if link.Up? then true else if link.Down? then false else m.linkUp)
      && (if link.Up? && !m.linkUp then LinkBits(polled.netCfg, m.netCfg, link.speed, link.fullDuplex)
          else polled.netCfg == m.netCfg)
  {
    hide LinkCfg, LinkBits, WithMdio;
    if link.Up? {
      LinkSays(m.netCfg, link.speed, link.fullDuplex);
    }
  }

  /** NET_CFG after Initialize, outside the filter bits: the data bus width, the MDC divider, and frame options. */
  lemma ConfiguredBits(m: Mac, busWidth: nat)
    ensures ConfigureMac(ResetMac(m, busWidth), busWidth).netCfg & 0xFFFF_FF0F
      == 0x16_2502 | (if busWidth == 64 then 0x20_0000 else if busWidth == 128 then 0x40_0000 else 0)
  {
    FilterKeepsOthers(ConfiguredFrom(ResetMac(m, busWidth), busWidth).netCfg, m.setting);
    hide FilterCfg;
  }

  lemma FilterKeepsOthers(netCfg: bv32, filters: bv32)
    ensures FilterCfg(netCfg, filters) & 0xFFFF_FF0F == netCfg & 0xFFFF_FF0F
  {
  }

  // ----- what every sequence of calls keeps -----

  /** Receiver and transmitter both on. */
  predicate Running(ctrl: bv32) {
    ctrl & (RX_EN | TX_EN) == RX_EN | TX_EN
  }

  predicate Silent(ctrl: bv32) {
    ctrl & (RX_EN | TX_EN) == 0
  }

  /** The management port stays on, so the PHY stays reachable. */
  predicate Managed(ctrl: bv32) {
    ctrl & MGMT_PORT_EN != 0
  }

  /** The filter bits of NET_CFG and the hash say what the setting says: which frames the MAC lets through. */
  predicate FiltersSay(m: Mac) {
    && (m.netCfg & COPY_ALL != 0 <==> m.setting & PROMISCUOUS != 0)
    && (m.netCfg & NO_BCAST != 0 <==> m.setting & (PROMISCUOUS | BROADCAST) == 0)
    && (m.netCfg & MULTI_HASH_EN != 0 <==>
          m.setting & PROMISCUOUS == 0 && m.setting & (MULTICAST | PROMISCUOUS_MULTICAST) != 0)
    && m.netCfg & UNI_HASH_EN == 0
    && m.hash == (if m.netCfg & MULTI_HASH_EN != 0 then 0xFFFF_FFFF else 0)
  }

  /** Enabled exactly while initialized; then the filters say what the setting says. */
  predicate Inv(m: Mac) {
    && (if m.state == Initialized then Running(m.netCtrl) && FiltersSay(m) else Silent(m.netCtrl) && !m.media)
    && Managed(m.netCtrl)
  }

  lemma FilteredSays(m: Mac, filters: bv32)
    ensures FiltersSay(Filtered(m, filters).(setting := filters))
  {
  }

  /** Link updates do not touch the filter bits. */
  lemma LinkKeepsFilters(netCfg: bv32, speed: nat, fullDuplex: bool, bit: bv32)
    requires bit == COPY_ALL || bit == NO_BCAST || bit == MULTI_HASH_EN || bit == UNI_HASH_EN
    ensures LinkCfg(netCfg, speed, fullDuplex) & bit == netCfg & bit
  {
  }

  lemma LinkedKeeps(m: Mac, link: Link)
    requires FiltersSay(m)
    ensures FiltersSay(Linked(m, link))
  {
    hide LinkCfg;
    if link.Up? {
      LinkKeepsFilters(m.netCfg, link.speed, link.fullDuplex, COPY_ALL);
      LinkKeepsFilters(m.netCfg, link.speed, link.fullDuplex, NO_BCAST);
      LinkKeepsFilters(m.netCfg, link.speed, link.fullDuplex, MULTI_HASH_EN);
      LinkKeepsFilters(m.netCfg, link.speed, link.fullDuplex, UNI_HASH_EN);
    }
  }

  lemma EnableBits(ctrl: bv32)
    ensures Running(EnableTxRx(ctrl)) && Managed(EnableTxRx(ctrl)) == Managed(ctrl)
  {
  }

  lemma DisableBits(ctrl: bv32)
    ensures Silent(DisableTxRx(ctrl)) && Managed(DisableTxRx(ctrl)) == Managed(ctrl)
  {
  }

  lemma MdioBits(ctrl: bv32)
    ensures Running(WithMdio(ctrl)) == Running(ctrl) && Silent(WithMdio(ctrl)) == Silent(ctrl) && Managed(WithMdio(ctrl))
  {
  }

  lemma AfterReset()
    ensures Silent(MGMT_PORT_EN) && Managed(MGMT_PORT_EN)
  {
  }

  lemma FilterState(m: Mac, filters: bv32)
    ensures Filtered(m, filters).netCtrl == m.netCtrl && Filtered(m, filters).state == m.state
  {
    hide FilterCfg, FilterHash;
  }

  lemma ConfiguredSays(m: Mac, busWidth: nat)
    ensures var c := ConfigureMac(ResetMac(m, busWidth), busWidth);
      c.netCtrl == MGMT_PORT_EN && c.setting == m.setting && FiltersSay(c)
  {
    hide FilterCfg, FilterHash, FiltersSay, CfgBase;
    var before := ConfiguredFrom(ResetMac(m, busWidth), busWidth);
    FilteredSays(before, m.setting);
    SaysOnly(Filtered(before, m.setting).(setting := m.setting), ConfigureMac(ResetMac(m, busWidth), busWidth));
  }

  lemma ConfigureState(m: Mac, busWidth: nat)
    ensures var c := ConfigureMac(ResetMac(m, busWidth), busWidth); c.state == m.state && c.media == m.media
  {
    hide FilterCfg, FilterHash, CfgBase;
  }

  lemma LinkedStays(m: Mac, link: Link)
    ensures Linked(m, link).netCtrl == WithMdio(m.netCtrl)
    ensures Linked(m, link).state == m.state && Linked(m, link).setting == m.setting && Linked(m, link).media == m.media
    ensures FiltersSay(m) ==> FiltersSay(Linked(m, link))
  {
    hide LinkCfg, FiltersSay, WithMdio;
    if FiltersSay(m) {
      LinkedKeeps(m, link);
    }
  }

  lemma SaysOnly(m: Mac, m': Mac)
    requires m'.netCfg == m.netCfg && m'.hash == m.hash && m'.setting == m.setting
    ensures FiltersSay(m') == FiltersSay(m)
  {
  }

  lemma InitializeKeeps(m: Mac, busWidth: nat, phy: Status)
    requires Inv(m) && m.state == Started
    ensures Inv(Call(m, CallInitialize(busWidth, phy)).1)
  {
    hide ConfigureMac, ResetMac, FiltersSay, Running, Silent, Managed, EnableTxRx, WithMdio;
    var configured := ConfigureMac(ResetMac(m, busWidth), busWidth);
    ConfiguredSays(m, busWidth);
    AfterReset();
    MdioBits(MGMT_PORT_EN);
    EnableBits(WithMdio(MGMT_PORT_EN));
    ConfigureState(m, busWidth);
    SaysOnly(configured, Call(m, CallInitialize(busWidth, phy)).1);
  }

  lemma LinkedInv(m: Mac, link: Link)
    requires Inv(m) && m.state == Initialized
    ensures var next := Linked(m, link);
      && next.state == Initialized && next.setting == m.setting && next.media == m.media
      && forall media :: Inv(next.(media := media))
  {
    hide FiltersSay, Running, Silent, Managed, WithMdio, Linked;
    var next := Linked(m, link);
    LinkedStays(m, link);
    MdioBits(m.netCtrl);
    forall media ensures Inv(next.(media := media)) {
      SaysOnly(next, next.(media := media));
    }
  }

  lemma {:induction false} AwaitInv(m: Mac, links: seq<Link>, retries: nat)
    requires Inv(m) && m.state == Initialized
    ensures var next := AwaitLink(m, links, retries).0;
      && next.state == Initialized && next.setting == m.setting && next.media == m.media
      && forall media :: Inv(next.(media := media))
    decreases retries
  {
    hide Inv, Linked;
    if retries == 0 {
      MediaFree(m);
    } else {
      var link := if links == [] then Down else links[0];
      LinkedInv(m, link);
      var polled := Linked(m, link);
      assert polled.(media := m.media) == polled;
      AwaitInv(polled, if links == [] then [] else links[1..], retries - 1);
    }
  }

  lemma MediaFree(m: Mac)
    requires Inv(m) && m.state == Initialized
    ensures forall media :: Inv(m.(media := media))
  {
    hide FiltersSay, Running, Silent, Managed;
    forall media ensures Inv(m.(media := media)) {
      SaysOnly(m, m.(media := media));
    }
  }

  lemma FilterCallKeeps(m: Mac, setting: bv32)
    requires Inv(m) && m.state == Initialized
    ensures Inv(Filtered(m, setting).(setting := setting))
  {
    hide FiltersSay, Running, Silent, Managed, Filtered;
    FilterState(m, setting);
    FilteredSays(m, setting);
  }

  lemma TransmitKeeps(m: Mac, packet: Packet, links: seq<Link>)
    requires Inv(m) && m.state == Initialized
    ensures Inv(Call(m, CallTransmit(packet, links)).1)
  {
    hide Inv, AwaitLink, PacketCheck;
    AwaitInv(m, links, LINK_RETRIES);
    assert AwaitLink(m, links, LINK_RETRIES).0.(media := m.media) == AwaitLink(m, links, LINK_RETRIES).0;
  }

  lemma ResetKeeps(m: Mac, phy: Status)
    requires Inv(m) && m.state == Initialized
    ensures Inv(Call(m, CallReset(phy)).1)
  {
    hide FiltersSay, Running, Silent, Managed, WithMdio;
    MdioBits(m.netCtrl);
    SaysOnly(m, Call(m, CallReset(phy)).1);
  }

  lemma ShutdownKeeps(m: Mac, busWidth: nat)
    requires Inv(m) && m.state == Initialized
    ensures Inv(Call(m, CallShutdown(busWidth)).1)
  {
    hide FiltersSay, Running, Silent, Managed, CfgBase;
    AfterReset();
  }

  lemma GetStatusKeeps(m: Mac, link: Link, wants: bool)
    requires Inv(m) && m.state == Initialized
    ensures Inv(Call(m, CallGetStatus(link, wants)).1)
  {
    hide Inv, Linked;
    LinkedInv(m, link);
  }

  lemma FiltersKeeps(m: Mac, enable: bv32, disable: bv32, list: McastList)
    requires Inv(m) && m.state == Initialized
    ensures Inv(Call(m, CallReceiveFilters(enable, disable, list)).1)
  {
    hide Inv, Filtered, Supported, ListOk, NewSetting;
    FilterCallKeeps(m, NewSetting(m.setting, enable, disable));
  }

  lemma ReadyKeeps(m: Mac, c: SnpCall)
    requires Inv(m) && m.state == Initialized
    ensures Inv(Call(m, c).1)
  {
    hide Inv, Call;
    match c {
      case CallReceiveFilters(enable, disable, list) => FiltersKeeps(m, enable, disable, list);
      case CallReset(phy) => ResetKeeps(m, phy);
      case CallShutdown(busWidth) => ShutdownKeeps(m, busWidth);
      case CallGetStatus(link, wants) => GetStatusKeeps(m, link, wants);
      case CallTransmit(packet, links) => TransmitKeeps(m, packet, links);
      case _ => RefusedWhileUp(m, c);
    }
  }

  lemma RefusedWhileUp(m: Mac, c: SnpCall)
    requires m.state == Initialized && (c.CallStart? || c.CallStop? || c.CallInitialize? || c.CallReceive?)
    ensures Call(m, c).1 == m
  {
  }

  /** Every call keeps it; and every refusal by state or by argument leaves mode and registers alone. */
  lemma CallKeeps(m: Mac, c: SnpCall)
    requires Inv(m)
    ensures Inv(Call(m, c).1)
    ensures (c.CallInitialize? ==> m.state != Started) && (c.CallReset? ==> m.state != Initialized)
      && Call(m, c).0 in {NotStarted, DeviceError, AlreadyStarted, InvalidParameter, BufferTooSmall}
      ==> Call(m, c).1 == m
  {
    hide FiltersSay, Running, Silent, Managed, EnableTxRx, DisableTxRx, WithMdio, Supported, NewSetting, ListOk,
         ConfigureMac, Linked, Filtered, AwaitLink, PacketCheck;
    if m.state == Initialized {
      ReadyKeeps(m, c);
    } else if m.state == Started && c.CallInitialize? {
      InitializeKeeps(m, c.busWidth, c.phy);
    } else {
      DisableBits(m.netCtrl);
    }
  }
}
