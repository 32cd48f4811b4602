/**
 The polled reader of the boot EEPROM: a FIFO transfer that must end whatever the controller
 does, the JEDEC probe, and the read that tries both pin-mux encodings and hands the pins
 back as it found them.
 */
module SpiFlash {
  import opened Bytes

  const STALL_LIMIT := 10000000
  const CMD_RDID: byte := 0x9F
  const CMD_READ: byte := 0x03

  /** The status bits of one poll: room to send, a byte to fetch, all sent. */
  datatype Flags = Flags(txd: bool, rxd: bool, done: bool)

  /** A controller with a device behind it. Its status may be anything, by poll and by bytes sent and fetched. The FIFO keeps
      order: the n-th byte fetched is the device's answer to the first n bytes sent, or noise if those were not sent. */
  datatype Controller = Controller(status: (nat, nat, nat) -> Flags, answer: seq<byte> -> byte, noise: nat -> byte)

  /** It offers a byte only after clocking one out. */
  ghost predicate Honest(c: Controller) {
    forall poll: nat, sent: nat, received: nat :: c.status(poll, sent, received).rxd ==> received < sent
  }

  function FifoByte(c: Controller, poll: nat, out: seq<byte>, received: nat): byte {
    if received < |out| then c.answer(out[..received + 1]) else c.noise(poll)
  }

  /** What a transfer puts on the wire. */
  function Wire(tx: seq<byte>, rxLen: nat): (w: seq<byte>)
    ensures |w| == |tx| + rxLen
  {
    tx + Fill(rxLen, 0)
  }

  /** The first n bytes of the response are the device's answers to the wire. */
  ghost predicate Answered(c: Controller, tx: seq<byte>, rxLen: nat, rx: seq<byte>, n: nat)
    requires n <= rxLen <= |rx|
  {
    forall k :: 0 <= k < n ==> rx[k] == c.answer(Wire(tx, rxLen)[..|tx| + k + 1])
  }

  /** The last STALL_LIMIT + 1 polls all found nothing to fetch. */
  ghost predicate Quiet(polls: seq<Flags>) {
    |polls| > STALL_LIMIT && forall i :: |polls| - STALL_LIMIT - 1 <= i < |polls| ==> !polls[i].rxd
  }

  function Past(received: nat, txLen: nat): nat { if received < txLen then 0 else received - txLen }

  /** SpiXfer. It ends for every controller. What went out is a prefix of the wire; with an honest controller every byte
      stored is the device's answer at its place, and success means all of them; a timeout means a full stall. */
  method SpiXfer(c: Controller, tx: seq<byte>, rx: array<byte>, rxLen: nat)
    returns (status: Status, out: seq<byte>, received: nat, ghost polls: seq<Flags>)
    requires rxLen <= rx.Length
    modifies rx
    ensures out <= Wire(tx, rxLen) && received <= |tx| + rxLen
    ensures rx[Past(received, |tx|)..] == old(rx[..])[Past(received, |tx|)..]
    ensures Honest(c) ==> received <= |out| && Answered(c, tx, rxLen, rx[..], Past(received, |tx|))
    ensures status == Success <==> received == |tx| + rxLen
    ensures Honest(c) && status == Success ==> out == Wire(tx, rxLen) && Answered(c, tx, rxLen, rx[..], rxLen)
    ensures status != Success ==> status == Timeout && Quiet(polls)
  {
    var total := |tx| + rxLen;
    var sent, stall, poll := 0, 0, 0;
    received := 0;
    out := [];
    polls := [];
    while received < total
      invariant received <= total && sent == |out| <= total && stall <= STALL_LIMIT && poll == |polls|
      invariant out <= Wire(tx, rxLen)
      invariant rx[Past(received, |tx|)..] == old(rx[..])[Past(received, |tx|)..]
      invariant Honest(c) ==> received <= sent && Answered(c, tx, rxLen, rx[..], Past(received, |tx|))
      invariant stall <= poll && forall i :: poll - stall <= i < poll ==> !polls[i].rxd
      decreases total - received, STALL_LIMIT - stall
    {
      var flags := c.status(poll, sent, received);
      if flags.txd && sent < total {
        out := out + [if sent < |tx| then tx[sent] else 0];
        sent := sent + 1;
      }
      if flags.rxd {
        var b := FifoByte(c, poll, out, received);
        assert received < |out| ==> out[..received + 1] == Wire(tx, rxLen)[..received + 1];
        if received >= |tx| {
          rx[received - |tx|] := b;
        }
        received := received + 1;
        stall := 0;
      } else {
        stall := stall + 1;
        if stall > STALL_LIMIT {
          polls := polls + [flags];
          return Timeout, out, received, polls;
        }
      }
      polls := polls + [flags];
      poll := poll + 1;
    }
    stall := 0;
    while !c.status(poll, sent, received).done
      invariant stall <= STALL_LIMIT
      decreases STALL_LIMIT - stall
    {
      stall := stall + 1;
      if stall > STALL_LIMIT {
        break;
      }
      poll := poll + 1;
    }
    status := Success;
  }

  // ----- the pins -----

  /** The function the boot SPI needs in a nibble of the pin-mux register, by stepping: None for a pin that is not its
      own. The chip-select nibble is only touched when the chip select is pin 1. */
  function PinFunction(isD0: bool, csPin: nat, nibble: nat): Option<nat> {
    if isD0 then
      (if nibble == 0 then (if csPin == 1 then Some(0) else None)
       else if nibble == 1 then Some(7) else if nibble == 2 || nibble == 3 then Some(6) else None)
    else
      (if nibble == 1 then (if csPin == 1 then Some(0) else None)
       else if nibble == 2 || nibble == 4 then Some(6) else if nibble == 3 then Some(5) else None)
  }

  const MUX_C0 := [(4, 0), (8, 6), (12, 5), (16, 6)]   // shift and function of CS, MISO, MOSI, SCLK
  const MUX_D0 := [(0, 0), (4, 7), (8, 6), (12, 6)]

  /** The pin-mux register as its eight nibbles, set up for the boot SPI. */
  function MuxFor(mux: seq<nat>, isD0: bool, csPin: nat): (r: seq<nat>)
    ensures |r| == |mux|
  {
    seq(|mux|, i requires 0 <= i < |mux| =>
      match PinFunction(isD0, csPin, i)
      case Some(f) => f
      case None => mux[i])
  }

  /** The whole register: GPIO 2 to 4 of the C0 stepping, GPIO 1 to 3 of D0, and the chip select only when it is pin 1. */
  lemma PinsByNibble(mux: seq<nat>, csPin: nat)
    requires |mux| == 8
    ensures MuxFor(mux, false, csPin) == [mux[0], if csPin == 1 then 0 else mux[1], 6, 5, 6] + mux[5..]
    ensures MuxFor(mux, true, csPin) == [if csPin == 1 then 0 else mux[0], 7, 6, 6] + mux[4..]
  {
  }

  /** On the wire of a READ of n bytes: the command, three address bytes 0, and n zeros to clock the answer out; of a probe:
      the command and three zeros. */
  lemma WiresOf(n: nat)
    ensures var read, probe := Wire([CMD_READ, 0, 0, 0], n), Wire([CMD_RDID], 3);
      && |read| == 4 + n && read[0] == 0x03 && (forall k :: 1 <= k < 4 + n ==> read[k] == 0)
      && probe == [0x9F, 0, 0, 0]
  {
  }

  /** All zero or all ones: nothing drives the line. */
  predicate NoDevice(id: seq<byte>) {
    id == [0x00, 0x00, 0x00] || id == [0xFF, 0xFF, 0xFF]
  }

  class BootSpi {
    var mux: seq<nat>        // pin-mux register 0, by nibble
    var line: bool           // level of the chip-select line
    var transfers: nat
    const hasPinctrl: bool   // the device tree names a pin-mux block
    const isD0: bool         // and the stepping it names
    const csPin: nat
    const csActiveLow: bool
    const board: (nat, seq<nat>) -> Controller   // what the n-th transfer meets, with the pins as they are

    constructor (mux: seq<nat>, line: bool, hasPinctrl: bool, isD0: bool, csPin: nat, csActiveLow: bool,
                 board: (nat, seq<nat>) -> Controller)
      ensures this.mux == mux && this.line == line && transfers == 0
      ensures this.hasPinctrl == hasPinctrl && this.isD0 == isD0 && this.csPin == csPin
      ensures this.csActiveLow == csActiveLow && this.board == board
    {
      this.mux, this.line, transfers := mux, line, 0;
      this.hasPinctrl, this.isD0, this.csPin, this.csActiveLow, this.board := hasPinctrl, isD0, csPin, csActiveLow, board;
    }

    predicate Selected()
      reads this
    {
      line != csActiveLow
    }

    method SpiCsSet(select: bool)
      modifies this`line
      ensures Selected() == select
    {
      line := if select then !csActiveLow else csActiveLow;
    }

    method SpiMuxPins(workD0: bool) returns (original: seq<nat>)
      requires |mux| == 8
      modifies this`mux
      ensures original == old(mux) && mux == MuxFor(old(mux), workD0, csPin)
    {
      var fields := if workD0 then MUX_D0 else MUX_C0;
      original := mux;
      var value := original;
      var index := 0;
      ghost var first := if workD0 then 0 else 1;
      while index < 4
        invariant 0 <= index <= 4 && |value| == 8
        invariant forall i :: 0 <= i < 8 ==>
          value[i] == if first <= i < first + index && PinFunction(workD0, csPin, i).Some?
                      then PinFunction(workD0, csPin, i).value else original[i]
      {
        if !(index == 0 && csPin != 1) {
          value := value[fields[index].0 / 4 := fields[index].1];
        }
        index := index + 1;
      }
      if value != original {
        mux := value;
      }
    }

    /** One transfer with the chip select held. */
    method Exchange(tx: seq<byte>, rx: array<byte>, rxLen: nat) returns (status: Status)
      requires rxLen <= rx.Length
      modifies this`line, this`transfers, rx
      ensures !Selected() && transfers == old(transfers) + 1
      ensures status == Success || status == Timeout
      ensures rx[rxLen..] == old(rx[..])[rxLen..]
      ensures var c := board(old(transfers), mux);
        Honest(c) && status == Success ==> Answered(c, tx, rxLen, rx[..], rxLen)
    {
      SpiCsSet(true);
      var out, received;
      ghost var polls;
      status, out, received, polls := SpiXfer(board(transfers, mux), tx, rx, rxLen);
      transfers := transfers + 1;
      SpiCsSet(false);
    }

    /** SpiProbeJedec: two tries. */
    method SpiProbeJedec(id: array<byte>) returns (status: Status)
      requires id.Length == 3
      modifies this`line, this`transfers, id
      ensures old(transfers) < transfers <= old(transfers) + 2 && !Selected()
      ensures status == Success || (status == DeviceError && transfers == old(transfers) + 2)
      ensures status == Success ==> !NoDevice(id[..])
      ensures var c := board(transfers - 1, mux);
        Honest(c) && status == Success ==> Answered(c, [CMD_RDID], 3, id[..], 3)
    {
      var try := 0;
      while try < 2
        invariant 0 <= try <= 2 && transfers == old(transfers) + try && (try > 0 ==> !Selected())
      {
        id[0], id[1], id[2] := 0, 0, 0;
        status := Exchange([CMD_RDID], id, 3);
        if status == Success
           && !(id[0] == 0x00 && id[1] == 0x00 && id[2] == 0x00)
           && !(id[0] == 0xFF && id[1] == 0xFF && id[2] == 0xFF) {
          return Success;
        }
        try := try + 1;
      }
      status := DeviceError;
    }

    /** The attempt loop: the encoding the tree names first, then the other one. */
    method Attach(id: array<byte>) returns (status: Status, usedD0: bool, muxed: bool, savedMux: seq<nat>)
      requires |mux| == 8 && id.Length == 3
      modifies this`mux, this`line, this`transfers, id
      ensures !Selected() && transfers > old(transfers)
      ensures usedD0 != isD0 ==> hasPinctrl && transfers > old(transfers) + 1
      ensures status != Success ==>
        status == DeviceError && mux == old(mux) && transfers == old(transfers) + if hasPinctrl then 4 else 2
      ensures status == Success ==>
        && mux == (if hasPinctrl then MuxFor(old(mux), usedD0, csPin) else old(mux))
        && muxed == hasPinctrl && (muxed ==> savedMux == old(mux))
        && !NoDevice(id[..])
        && (Honest(board(transfers - 1, mux)) ==> Answered(board(transfers - 1, mux), [CMD_RDID], 3, id[..], 3))
    {
      hide Answered, MuxFor, Honest, NoDevice;
      savedMux, muxed := [], false;
      status := DeviceError;
      usedD0 := isD0;
      var attempt := 0;
      while attempt < 2
        invariant 0 <= attempt <= 2 && !muxed && mux == old(mux) && status == DeviceError
        invariant transfers == old(transfers) + 2 * attempt
        invariant attempt > 0 ==> hasPinctrl && !Selected() && transfers > old(transfers)
        invariant usedD0 != isD0 ==> attempt == 2 && transfers > old(transfers) + 1
      {
        usedD0 := if attempt == 0 then isD0 else !isD0;
        muxed := false;
        if hasPinctrl {
          savedMux := SpiMuxPins(usedD0);
          muxed := true;
        }
        SpiCsSet(false);    // SpiIdle
        status := SpiProbeJedec(id);
        if status == Success {
          break;
        }
        if muxed {
          mux := savedMux;
          muxed := false;
        } else {
          break;
        }
        attempt := attempt + 1;
      }
    }

    /** Bcm2712BootSpiReadImage: probe with the encoding the tree names, then with the other one, and read. However it
        ends, the pins are back as they were and the chip is deselected. Success means that a device answered the probe
        and the buffer holds its answers to a READ from address 0, with the pins in the encoding reported. */
    method ReadImage(buffer: array<byte>, len: nat) returns (status: Status, probed: seq<byte>, usedD0: bool)
      requires |mux| == 8 && len <= buffer.Length
      modifies this`mux, this`line, this`transfers, buffer
      ensures mux == old(mux) && !Selected()
      ensures status == Success || status == Timeout || status == DeviceError
      ensures status == DeviceError ==>
        buffer[..] == old(buffer[..]) && transfers == old(transfers) + if hasPinctrl then 4 else 2   // every try was made
      ensures usedD0 != isD0 ==> hasPinctrl && transfers > old(transfers) + 1
      ensures status == Success ==> transfers >= old(transfers) + 2
      ensures status == Success ==>
        var pins := if hasPinctrl then MuxFor(old(mux), usedD0, csPin) else old(mux);
        var probe, read := board(transfers - 2, pins), board(transfers - 1, pins);
        && !NoDevice(probed)
        && (Honest(probe) ==> |probed| == 3 && Answered(probe, [CMD_RDID], 3, probed, 3))
        && (Honest(read) ==> Answered(read, [CMD_READ, 0, 0, 0], len, buffer[..], len))
    {
      hide Answered, MuxFor, Honest, NoDevice;
      var id := new byte[3];
      id[0], id[1], id[2] := 0, 0, 0;
      var muxed, savedMux;
      status, usedD0, muxed, savedMux := Attach(id);
      probed := id[..];
      if status != Success {
        return DeviceError, probed, usedD0;
      }
      status := Exchange([CMD_READ, 0, 0, 0], buffer, len);
      if muxed {
        mux := savedMux;
      }
    }
  }
}
