/** The receiving node around the update state machine: its radio
    addresses, the identity record it publishes on pipe 2, the dispatcher
    that drains the radio's receive queue (`process_incoming_data`) and the
    polling loop (`loop`). The nordic radio driver is an object whose
    operations record their effect; the decoded interrupt status and the
    serial input are parameters. */
module ReceiverApp {
  import opened Bytes
  import opened Protocol
  import opened FirmwareUpdate
  import opened UpdateSessions

  /** `broadcast_address`, `boot_address` and `info_address`, most significant
      byte first. */
  const BROADCAST_ADDRESS: seq<byte> := [0xE7, 0xE7, 0xE7, 0xE7, 0xE7]
  const BOOT_ADDRESS: seq<byte> := [0x3E, 0x3E, 0x3E, 0x3E, 0x3E]
  const INFO_ADDRESS: seq<byte> := [0x3E, 0x3E, 0x3E, 0x3E, 0x24]

  /** Pipe 2 is configured with the last byte of `info_address` only; the
      radio takes the other four from pipe 1. The result is `info_address`,
      which differs from the boot address in that byte alone. */
  function Pipe2Address(): (r: seq<byte>)
    ensures r == INFO_ADDRESS
    ensures r[..4] == BOOT_ADDRESS[..4] && r[4] != BOOT_ADDRESS[4]
  {
    BOOT_ADDRESS[..4] + [INFO_ADDRESS[4]]
  }

  /** The part's constants: the three signature bytes and `XB_APP_SIZE`, the
      size in bytes of the application image xboot accepts. */
  datatype Identity = Identity(signature0: byte, signature1: byte, signature2: byte, appSize: nat)

  /** `set_device_info`'s record: 's', the signature from byte 2 down to
      byte 0, the page size and the image size in pages, both big-endian;
      the page count is a `uint16_t`. */
  function DeviceInfo(id: Identity): (r: seq<byte>)
    ensures |r| == 8 && r[0] == TAG_INFO
    ensures r[1] == id.signature2 && r[2] == id.signature1 && r[3] == id.signature0
    ensures FromBE16(r[4], r[5]) == PAGE_SIZE
    ensures FromBE16(r[6], r[7]) == (id.appSize / PAGE_SIZE) % 0x1_0000
  {
    [TAG_INFO, id.signature2, id.signature1, id.signature0]
      + BE16(PAGE_SIZE) + BE16((id.appSize / PAGE_SIZE) % 0x1_0000)
  }

  /** A received packet: the pipe it came in on and its payload. */
  type RadioPayload = s: seq<byte> | |s| <= MAX_PAYLOAD

  datatype Packet = Packet(pipe: byte, data: RadioPayload)

  const INFO_PIPE: byte := 2
  const UPDATE_PIPE: byte := 1

  /** What the dispatcher changes: the update session, the radio's auto-ack
      payloads by pipe, and the packet counter. */
  datatype Receiving = Receiving(node: Node, acks: map<byte, seq<byte>>, count: byte)

  /** One packet through the dispatcher: count it, then pipe 1 goes to the
      update state machine, pipe 2 re-publishes the identity record, and any
      other pipe is ignored. */
  function Deliver(r: Receiving, id: Identity, p: Packet, a: Answers): (r': Receiving)
    ensures r'.count == (r.count + 1) % 256
    ensures r'.node == if p.pipe == UPDATE_PIPE then Step(r.node, p.data, a) else r.node
    ensures r'.acks == if p.pipe == INFO_PIPE then r.acks[INFO_PIPE := DeviceInfo(id)] else r.acks
  {
    var r := r.(count := (r.count + 1) % 256);
    if p.pipe == UPDATE_PIPE then r.(node := Step(r.node, p.data, a))
    else if p.pipe == INFO_PIPE then r.(acks := r.acks[INFO_PIPE := DeviceInfo(id)])
    else r
  }

  /** `process_incoming_data`: deliver queued packets in order until the queue
      is empty, or until an install resets the processor. The `i`-th packet
      meets the backend answers `answers[i]`. Returns the new state and the
      packets left in the queue: none, unless the processor was reset. */
  function Drain(r: Receiving, id: Identity, pkts: seq<Packet>, answers: seq<Answers>): (d: (Receiving, seq<Packet>))
    requires |answers| >= |pkts|
    ensures |d.1| <= |pkts| && d.1 == pkts[|pkts| - |d.1|..]
    ensures d.1 != [] ==> Halted(d.0.node)
    decreases |pkts|
  {
    if pkts == [] || Halted(r.node) then (r, pkts)
    else
      var d := Drain(Deliver(r, id, pkts[0], answers[0]), id, pkts[1..], answers[1..]);
      assert pkts[1..][|pkts| - 1 - |d.1|..] == pkts[|pkts| - |d.1|..];
      d
  }

  /** The counter goes up once per delivered packet, modulo 256. */
  lemma {:induction false} DrainCounts(r: Receiving, id: Identity, pkts: seq<Packet>, answers: seq<Answers>)
    requires |answers| >= |pkts|
    ensures var d := Drain(r, id, pkts, answers);
      d.0.count == (r.count + |pkts| - |d.1|) % 256
    decreases |pkts|
  {
    if pkts != [] && !Halted(r.node) {
      var r' := Deliver(r, id, pkts[0], answers[0]);
      DrainCounts(r', id, pkts[1..], answers[1..]);
      var left := |Drain(r', id, pkts[1..], answers[1..]).1|;
      CountWraps(r.count, |pkts| - 1 - left);
    }
  }

  lemma CountWraps(c: nat, k: nat)
    ensures ((c + 1) % 256 + k) % 256 == (c + 1 + k) % 256
  {
  }

  /** Only pipe 1 reaches the update state machine, and pipe 2 only ever
      publishes the identity record, whatever the update session's state. */
  lemma {:induction false} DrainRoutes(r: Receiving, id: Identity, pkts: seq<Packet>, answers: seq<Answers>)
    requires |answers| >= |pkts|
    ensures var d := Drain(r, id, pkts, answers);
      d.0.acks == r.acks || d.0.acks == r.acks[INFO_PIPE := DeviceInfo(id)]
    ensures (forall i :: 0 <= i < |pkts| ==> pkts[i].pipe != UPDATE_PIPE) ==> Drain(r, id, pkts, answers).0.node == r.node
    decreases |pkts|
  {
    if pkts != [] && !Halted(r.node) {
      var r' := Deliver(r, id, pkts[0], answers[0]);
      DrainRoutes(r', id, pkts[1..], answers[1..]);
      if forall i :: 0 <= i < |pkts| ==> pkts[i].pipe != UPDATE_PIPE {
        assert pkts[0].pipe != UPDATE_PIPE;
        assert forall i :: 0 <= i < |pkts[1..]| ==> pkts[1..][i].pipe != UPDATE_PIPE by {
          forall i | 0 <= i < |pkts[1..]|
            ensures pkts[1..][i].pipe != UPDATE_PIPE
          {
            assert pkts[1..][i] == pkts[i + 1];
          }
        }
      }
    }
  }

  /** Bits of the nRF24L01+ STATUS register. */
  const RX_DR: byte := 0x40
  const TX_DS: byte := 0x20
  const MAX_RT: byte := 0x10

  predicate HasBit(status: byte, bit: byte)
    requires bit in {RX_DR, TX_DS, MAX_RT}
  {
    (status / bit) % 2 == 1
  }

  /** The serial byte that resets the processor into the bootloader. */
  const ESCAPE: byte := 0x1B

  /** The nordic radio driver, as far as the receiver uses it. Its code is not
      part of this model. */
  class Radio {
    var rx: seq<Packet>
    var acks: map<byte, seq<byte>>
    var rxAddresses: map<byte, seq<byte>>
    var listening: bool
    var txFlushes: nat

    constructor (queued: seq<Packet>)
      ensures rx == queued && acks == map[] && rxAddresses == map[] && !listening && txFlushes == 0
    {
      rx := queued;
      acks := map[];
      rxAddresses := map[];
      listening := false;
      txFlushes := 0;
    }

    /** `nordic_get_packet`: the oldest queued packet, or none. */
    method GetPacket() returns (p: Option<Packet>)
      modifies this
      ensures old(rx) == [] ==> p == None && rx == []
      ensures old(rx) != [] ==> p == Some(old(rx)[0]) && rx == old(rx)[1..]
      ensures acks == old(acks) && rxAddresses == old(rxAddresses)
      ensures listening == old(listening) && txFlushes == old(txFlushes)
    {
      if rx == [] {
        p := None;
      } else {
        p := Some(rx[0]);
        rx := rx[1..];
      }
    }

    /** `nordic_set_ack_payload(data, len, pipe)`. */
    method SetAckPayload(data: seq<byte>, pipe: byte)
      modifies this
      ensures acks == old(acks)[pipe := data]
      ensures rx == old(rx) && rxAddresses == old(rxAddresses)
      ensures listening == old(listening) && txFlushes == old(txFlushes)
    {
      acks := acks[pipe := data];
    }

    /** `nordic_set_rx_addr(address, len, pipe)`. */
    method SetRxAddr(address: seq<byte>, pipe: byte)
      modifies this
      ensures rxAddresses == old(rxAddresses)[pipe := address]
      ensures rx == old(rx) && acks == old(acks)
      ensures listening == old(listening) && txFlushes == old(txFlushes)
    {
      rxAddresses := rxAddresses[pipe := address];
    }

    /** `nordic_start_listening`. */
    method StartListening()
      modifies this
      ensures listening
      ensures rx == old(rx) && acks == old(acks) && rxAddresses == old(rxAddresses)
      ensures txFlushes == old(txFlushes)
    {
      listening := true;
    }

    /** `nordic_flush_tx_fifo`. */
    method FlushTx()
      modifies this
      ensures txFlushes == old(txFlushes) + 1
      ensures rx == old(rx) && acks == old(acks) && rxAddresses == old(rxAddresses)
      ensures listening == old(listening)
    {
      txFlushes := txFlushes + 1;
    }
  }

  /** The receiving node: its identity, radio and update session, the
      interrupt flag the radio's ISR sets, the dispatcher's packet counter and
      the number of resets requested over the serial line. */
  class Receiver {
    const id: Identity
    const radio: Radio
    const session: UpdateSession
    var interruptPending: bool
    var count: byte
    var serialResets: nat

    ghost predicate Valid()
      reads this, session
    {
      session.Valid()
    }

    function Model(): Receiving
      requires Valid()
      reads this, radio, session, session.pageBuffer, session.xboot
    {
      Receiving(session.Model(), radio.acks, count)
    }

    /** The node after `nordic_setup` and `nordic_start_listening`: the three
        pipes configured, the identity record published on pipe 2, and the
        radio listening. */
    constructor (id: Identity, queued: seq<Packet>)
      ensures Valid() && fresh(radio) && fresh(session) && fresh(session.pageBuffer) && fresh(session.xboot)
      ensures this.id == id && radio.rx == queued
      ensures radio.rxAddresses == map[0 := BROADCAST_ADDRESS, UPDATE_PIPE := BOOT_ADDRESS, INFO_PIPE := [INFO_ADDRESS[4]]]
      ensures radio.acks == map[INFO_PIPE := DeviceInfo(id)] && radio.listening
      ensures Model() == Receiving(Initial(), map[INFO_PIPE := DeviceInfo(id)], 0)
      ensures !interruptPending && serialResets == 0
    {
      this.id := id;
      var radio := new Radio(queued);
      this.radio := radio;
      session := new UpdateSession();
      interruptPending := false;
      count := 0;
      serialResets := 0;
      new;
      radio.SetRxAddr(BROADCAST_ADDRESS, 0);
      radio.SetRxAddr(BOOT_ADDRESS, UPDATE_PIPE);
      radio.SetRxAddr([INFO_ADDRESS[4]], INFO_PIPE);
      SetDeviceInfo();
      radio.StartListening();
    }

    /** `set_device_info`: publish the identity record as pipe 2's auto-ack
        payload, whatever state the update is in. */
    method SetDeviceInfo()
      modifies radio
      ensures radio.acks == old(radio.acks)[INFO_PIPE := DeviceInfo(id)]
      ensures radio.rx == old(radio.rx) && radio.rxAddresses == old(radio.rxAddresses)
      ensures radio.listening == old(radio.listening) && radio.txFlushes == old(radio.txFlushes)
    {
      radio.SetAckPayload(DeviceInfo(id), INFO_PIPE);
    }

    /** One packet taken from the queue, counted and routed by pipe. */
    method Dispatch(p: Packet, a: Answers)
      requires Valid()
      modifies this, radio, session, session.pageBuffer, session.xboot
      ensures Valid()
      ensures Model() == Deliver(old(Model()), id, p, a)
      ensures radio.rx == old(radio.rx) && radio.rxAddresses == old(radio.rxAddresses)
      ensures radio.listening == old(radio.listening) && radio.txFlushes == old(radio.txFlushes)
      ensures interruptPending == old(interruptPending) && serialResets == old(serialResets)
    {
      count := (count + 1) % 256;
      if p.pipe == UPDATE_PIPE {
        session.ProcessData(p.data, a);
      } else if p.pipe == INFO_PIPE {
        SetDeviceInfo();
      }
    }

    /** `process_incoming_data`. The `i`-th packet taken from the queue meets
        the backend answers `answers[i]`. `xboot_reset` does not return, so
        the drain ends there. */
    method ProcessIncomingData(answers: seq<Answers>)
      requires Valid() && |answers| >= |radio.rx|
      modifies this, radio, session, session.pageBuffer, session.xboot
      ensures Valid()
      ensures (Model(), radio.rx) == Drain(old(Model()), id, old(radio.rx), answers)
      ensures radio.rxAddresses == old(radio.rxAddresses) && radio.listening == old(radio.listening)
      ensures radio.txFlushes == old(radio.txFlushes)
      ensures interruptPending == old(interruptPending) && serialResets == old(serialResets)
    {
      ghost var queued := radio.rx;
      var i := 0;
      while true
        invariant Valid() && 0 <= i <= |queued| && radio.rx == queued[i..]
        invariant Drain(old(Model()), id, queued, answers) == Drain(Model(), id, radio.rx, answers[i..])
        invariant radio.rxAddresses == old(radio.rxAddresses) && radio.listening == old(radio.listening)
        invariant radio.txFlushes == old(radio.txFlushes)
        invariant interruptPending == old(interruptPending) && serialResets == old(serialResets)
        decreases |radio.rx|
      {
        if Halted(session.Model()) {
          return;
        }
        var packet := radio.GetPacket();
        if packet.None? {
          break;
        }
        ghost var before := Model();
        Dispatch(packet.value, answers[i]);
        assert answers[i..][1..] == answers[i + 1..];
        assert Drain(before, id, queued[i..], answers[i..])
            == Drain(Model(), id, queued[i + 1..], answers[i + 1..]);
        i := i + 1;
      }
    }

    /** `loop`. `status` is what `nordic_process_interrupt` decodes from the
        radio, `serial` the byte `serial_get_byte` returns, if any. */
    method Loop(status: byte, serial: Option<byte>, answers: seq<Answers>)
      requires Valid() && !Halted(Model().node) && |answers| >= |radio.rx|
      modifies this, radio, session, session.pageBuffer, session.xboot
      ensures Valid() && !interruptPending
      ensures var decoded := old(interruptPending);
        && radio.txFlushes == old(radio.txFlushes) + (if decoded && HasBit(status, MAX_RT) then 1 else 0)
        && (if decoded && (HasBit(status, MAX_RT) || HasBit(status, TX_DS))
            then radio.rxAddresses == old(radio.rxAddresses)[0 := BROADCAST_ADDRESS] && radio.listening
            else radio.rxAddresses == old(radio.rxAddresses) && radio.listening == old(radio.listening))
        && (if decoded && HasBit(status, RX_DR)
            then (Model(), radio.rx) == Drain(old(Model()), id, old(radio.rx), answers)
            else Model() == old(Model()) && radio.rx == old(radio.rx))
      ensures serialResets == old(serialResets) + (if serial == Some(ESCAPE) && !Halted(Model().node) then 1 else 0)
    {
      if interruptPending {
        interruptPending := false;
        if HasBit(status, MAX_RT) || HasBit(status, TX_DS) {
          if HasBit(status, MAX_RT) {
            radio.FlushTx();
          }
          radio.SetRxAddr(BROADCAST_ADDRESS, 0);
          radio.StartListening();
        }
        if HasBit(status, RX_DR) {
          ProcessIncomingData(answers);
          if Halted(session.Model()) {
            return;
          }
        }
      }
      if serial == Some(ESCAPE) {
        serialResets := serialResets + 1;
      }
    }
  }
}
