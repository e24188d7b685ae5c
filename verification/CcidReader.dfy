/** The CCID reader (reader.c): slot status, power-on, and APDU blocks. */
module CcidReaders {
  import opened Bytes
  import opened Buffers
  import opened Usb
  import opened CcidFrames
  import opened CcidTransport

  const IFD_MAX_ATR_LEN: nat := 64

  // What the reader does, as functions of the link

  function SlotStatusCommand(slot: byte): Command {
    Command(slot, CMD_GETSLOTSTAT, CTL_ZERO, [], RESP_SLOTSTAT)
  }

  function PowerOnCommand(slot: byte, voltage: byte): Command {
    Command(slot, CMD_ICCPOWERON, [voltage, 0, 0], [], RESP_DATA)
  }

  function BlockCommand(slot: byte, apdu: bytes): Command {
    Command(slot, CMD_XFRBLOCK, CTL_ZERO, apdu, RESP_DATA)
  }

  predicate CardPresent(m: Message) {
    m.ctl[0] % 4 != 2
  }

  function QuerySlot(w: Wire, st: Link, slot: byte): (Link, bool) {
    var (st', resp) := Transact(w, st, SlotStatusCommand(slot));
    (st', resp.Some? && CardPresent(resp.value))
  }

  function PowerOn(w: Wire, st: Link, slot: byte, voltage: byte): (Link, Option<bytes>) {
    var (st', resp) := Transact(w, st, PowerOnCommand(slot, voltage));
    (st', match resp
          case None => None
          case Some(m) => Some(m.payload[..Min(|m.payload|, IFD_MAX_ATR_LEN)]))
  }

  // Bit i of the supported voltages stands for 5 V, 3 V and 1.8 V.
  predicate HasVoltage(voltages: byte, i: nat)
    requires i < 3
  {
    voltages / [1, 2, 4][i] % 2 == 1
  }

  function TryVoltages(w: Wire, st: Link, slot: byte, voltages: byte, i: nat): (Link, Option<bytes>)
    requires i <= 3
    decreases 3 - i
  {
    if i == 3 then (st, None)
    else if !HasVoltage(voltages, i) then TryVoltages(w, st, slot, voltages, i + 1)
    else
      var (st', atr) := PowerOn(w, st, slot, i + 1);
      if atr.Some? then (st', atr) else TryVoltages(w, st', slot, voltages, i + 1)
  }

  function Reset(w: Wire, st: Link, slot: byte, autoVoltage: bool, voltages: byte): (Link, Option<bytes>) {
    if !autoVoltage then TryVoltages(w, st, slot, voltages, 0) else
    var (st', atr) := PowerOn(w, st, slot, 0);
    if atr.Some? then (st', atr) else TryVoltages(w, st', slot, voltages, 0)
  }

  // On the octets of the answer, section 6.2.6 of the USB CCID specification Rev 1.1: bits 0 and 1
  // of octet 7 are the state of the card, 0 active, 1 inactive, 2 absent. Only 2 is no card.
  lemma SlotAnswerDecides(w: Wire, st: Link, slot: byte, p: bytes)
    requires var pkt := Packet(st, SlotStatusCommand(slot));
      && Accepts(w.oracle, st.log, pkt)
      && NextPacket(w.oracle, w.max, st.log + [BulkOut(pkt, true)]) == Some(p)
    ensures IsSuccess(slot, st.seqno % 256, 0x81, p) ==> (QuerySlot(w, st, slot).1 <==> p[7] % 4 in {0, 1, 3})
    ensures IsFailure(slot, st.seqno % 256, 0x81, p) ==> !QuerySlot(w, st, slot).1
  {
    hide Await, Packet, RespondsTo;
    PacketDecides(w, st.log + [BulkOut(Packet(st, SlotStatusCommand(slot)), true)], slot, st.seqno % 256, 0x81, p, RETRIES);
    SuccessIsWhole(slot, st.seqno % 256, 0x81, p);
  }

  lemma SuccessIsWhole(slot: byte, seqno: byte, expected: byte, p: bytes)
    ensures IsSuccess(slot, seqno, expected, p) ==> HoldsMessage(p)
  {
  }

  // Powering on is a search: of the selectors 0 to 3, those that the reader supports are tried in
  // order, each once, until one is answered; and if none is, all were tried.

  // The selectors of the supported voltages from bit i on.
  function Supported(voltages: byte, i: nat): seq<byte>
    requires i <= 3
    decreases 3 - i
  {
    if i == 3 then [] else (if HasVoltage(voltages, i) then [i + 1] else []) + Supported(voltages, i + 1)
  }

  function Plan(autoVoltage: bool, voltages: byte): seq<byte> {
    (if autoVoltage then [0] else []) + Supported(voltages, 0)
  }

  // Bit by bit: 5 V is selector 1, 3 V is 2 and 1.8 V is 3.
  lemma PlanOnBits(autoVoltage: bool, v: seq<bool>)
    requires 3 <= |v| && Binary(v) < 0x100
    ensures Plan(autoVoltage, Binary(v)) ==
      (if autoVoltage then [0] else [])
      + ((if v[0] then [1] else []) + ((if v[1] then [2] else []) + (if v[2] then [3] else [])))
  {
    hide Binary;
    PowersOf2();
    DigitsAt(v, 0);
    DigitsAt(v, 1);
    DigitsAt(v, 2);
    assert Supported(Binary(v), 3) == [];
    assert Supported(Binary(v), 2) == if v[2] then [3] else [];
  }

  function FirstAnswered(w: Wire, st: Link, slot: byte, selectors: seq<byte>): (Link, Option<bytes>)
    decreases |selectors|
  {
    if selectors == [] then (st, None) else
    var (st', atr) := PowerOn(w, st, slot, selectors[0]);
    if atr.Some? then (st', atr) else FirstAnswered(w, st', slot, selectors[1..])
  }

  lemma {:induction false} TryVoltagesFollowsPlan(w: Wire, st: Link, slot: byte, voltages: byte, i: nat)
    requires i <= 3
    ensures TryVoltages(w, st, slot, voltages, i) == FirstAnswered(w, st, slot, Supported(voltages, i))
    decreases 3 - i
  {
    hide PowerOn;
    if i < 3 {
      var rest := Supported(voltages, i + 1);
      TryVoltagesFollowsPlan(w, st, slot, voltages, i + 1);
      if HasVoltage(voltages, i) {
        TryVoltagesFollowsPlan(w, PowerOn(w, st, slot, i + 1).0, slot, voltages, i + 1);
        assert Supported(voltages, i) == [i + 1] + rest && ([i + 1] + rest)[1..] == rest;
      } else {
        assert Supported(voltages, i) == rest;
      }
    }
  }

  lemma ResetFollowsPlan(w: Wire, st: Link, slot: byte, autoVoltage: bool, voltages: byte)
    ensures Reset(w, st, slot, autoVoltage, voltages) == FirstAnswered(w, st, slot, Plan(autoVoltage, voltages))
  {
    hide PowerOn, TryVoltages;
    var rest := Supported(voltages, 0);
    TryVoltagesFollowsPlan(w, st, slot, voltages, 0);
    if autoVoltage {
      TryVoltagesFollowsPlan(w, PowerOn(w, st, slot, 0).0, slot, voltages, 0);
      assert ([0] + rest)[1..] == rest;
    } else {
      assert [] + rest == rest;
    }
  }

  // ccid_command_t
  datatype BuiltCommand = BuiltCommand(slot: byte, seqno: byte, pkt: Buffer)

  class Reader {
    const dev: UsbDevice
    const maxMessage: u32
    const autoVoltage: bool
    const supportedVoltages: byte
    var currentSlot: int
    var ccidSeq: nat

    constructor (dev: UsbDevice, maxMessage: u32, autoVoltage: bool, supportedVoltages: byte)
      ensures this.dev == dev && this.maxMessage == maxMessage
      ensures this.autoVoltage == autoVoltage && this.supportedVoltages == supportedVoltages
      ensures currentSlot == -1 && ccidSeq == 0
    {
      this.dev, this.maxMessage, this.autoVoltage := dev, maxMessage, autoVoltage;
      this.supportedVoltages, currentSlot, ccidSeq := supportedVoltages, -1, 0;
    }

    ghost function Wire(): Wire {
      CcidTransport.Wire(dev.oracle, maxMessage)
    }

    ghost function Link(): Link
      reads this, dev
    {
      CcidTransport.Link(ccidSeq, dev.log)
    }

    // A response's payload stays in the packet it came in, behind the header.
    ghost predicate Delivered(resp: Option<Message>, payload: Buffer?)
      reads payload, if payload == null then {} else {payload.mem}
    {
      && (resp.None? <==> payload == null)
      && (payload != null ==>
            && payload.Valid() && payload.Contents() == resp.value.payload
            && payload.rpos == HDR_SIZE && payload.size == Capacity(maxMessage))
    }

    // ccid_build_command: the counter moves only once the packet is sent.
    method BuildCommand(c: Command) returns (cmd: Option<BuiltCommand>)
      requires |c.payload| < 0x1_0000_0000
      ensures cmd.Some? <==> |c.payload| + 24 <= 0x1_0000_0000
      ensures cmd.Some? ==> cmd.value.slot == c.slot && cmd.value.seqno == ccidSeq % 256
      ensures cmd.Some? ==> fresh(cmd.value.pkt) && cmd.value.pkt.Valid()
      ensures cmd.Some? ==> cmd.value.pkt.Contents() == Packet(Link(), c)
    {
      var seqno := ccidSeq % 256;
      var bp := BuildFrame(Message(c.kind, c.slot, seqno, c.ctl, c.payload));
      return if bp == null then None else Some(BuiltCommand(c.slot, seqno, bp));
    }

    method Xfer(cmd: BuiltCommand, expected: byte) returns (resp: Option<Message>, payload: Buffer?)
      requires cmd.pkt.Valid() && |cmd.pkt.Contents()| < 0x1_0000_0000
      modifies this`ccidSeq, dev`log
      ensures
        var pkt := old(cmd.pkt.Contents());
        var sent := Accepts(dev.oracle, old(dev.log), pkt);
        var log := old(dev.log) + [BulkOut(pkt, sent)];
        if !sent then dev.log == log && ccidSeq == old(ccidSeq) && resp == None
        else (dev.log, resp) == Await(Wire(), log, cmd.slot, cmd.seqno, expected, RETRIES) && ccidSeq == cmd.seqno + 1
      ensures Delivered(resp, payload)
      ensures payload != null ==> fresh(payload) && fresh(payload.mem)
    {
      hide Judge;
      var rv := dev.Send(cmd.pkt);
      assert cmd.pkt.Contents()[..cmd.pkt.Available()] == cmd.pkt.Contents();
      if !rv {
        return None, null;
      }
      ccidSeq := cmd.seqno + 1;
      ghost var log := dev.log;
      var retries := RETRIES;
      while true
        invariant 0 <= retries <= RETRIES && ccidSeq == cmd.seqno + 1
        invariant Await(Wire(), log, cmd.slot, cmd.seqno, expected, RETRIES)
               == Await(Wire(), dev.log, cmd.slot, cmd.seqno, expected, retries)
        decreases retries
      {
        if retries == 0 {
          return None, null;
        }
        retries := retries - 1;
        var rbuf := dev.Recv(maxMessage);
        if rbuf == null {
          return None, null;
        }
        var verdict := Consider(rbuf, cmd.slot, cmd.seqno, expected);
        if verdict.Accept? {
          return Some(verdict.m), rbuf;
        }
        if verdict.Fail? {
          return None, null;
        }
      }
    }

    // What one received packet means; a packet cut short is discarded and costs a retry.
    method Consider(rbuf: Buffer, slot: byte, seqno: byte, expected: byte) returns (verdict: Verdict)
      requires rbuf.Valid() && rbuf.rpos == 0 && rbuf.size == Capacity(maxMessage)
      requires |rbuf.Contents()| < 0x1_0000_0000
      modifies rbuf`rpos, rbuf`wpos
      ensures verdict == Judge(slot, seqno, expected, old(rbuf.Contents()))
      ensures var p := old(rbuf.Contents());
        && (verdict.Ignore? <==> !RespondsTo(slot, seqno, p) || IsExtension(slot, seqno, expected, p))
        && (verdict.Fail? <==> IsFailure(slot, seqno, expected, p))
        && (verdict.Accept? <==> IsSuccess(slot, seqno, expected, p))
        && (verdict.Accept? ==> verdict.m == MessageOf(p))
      ensures verdict.Accept? ==> Delivered(Some(verdict.m), rbuf)
    {
      hide LeDecode;
      var resp := ParseResponse(rbuf);
      if resp.None? {
        return Ignore;
      }
      var m := resp.value;
      if m.slot == slot && m.seqno == seqno {
        var ctl := m.ctl[0];
        if m.kind != expected {
          return Fail;
        }
        if ctl / 0x40 == 0 {
          return Accept(m);
        }
        if ctl / 0x40 != 2 {
          return Fail;
        }
      }
      return Ignore;
    }

    // Every caller of ccid_xfer builds its command first.
    method Exchange(c: Command) returns (resp: Option<Message>, payload: Buffer?)
      requires |c.payload| + 24 <= 0x1_0000_0000
      modifies this`ccidSeq, dev`log
      ensures (Link(), resp) == Transact(Wire(), old(Link()), c)
      ensures Delivered(resp, payload)
      ensures payload != null ==> fresh(payload) && fresh(payload.mem)
    {
      var cmd := BuildCommand(c);
      resp, payload := Xfer(cmd.value, c.expected);
    }

    method GetSlotStatus(slot: byte) returns (ok: bool, status: nat)
      modifies this`ccidSeq, dev`log
      ensures var (st', resp) := Transact(Wire(), old(Link()), SlotStatusCommand(slot));
        && Link() == st' && ok == resp.Some?
        && (ok ==> status == if resp.value.ctl[0] % 4 == 2 then 0 else 1)
    {
      hide Transact;
      var resp, _ := Exchange(SlotStatusCommand(slot));
      if resp.None? {
        return false, 0;
      }
      return true, if resp.value.ctl[0] % 4 == 2 then 0 else 1;
    }

    method CardPowerOn(slot: byte, voltage: byte) returns (atr: Option<bytes>)
      modifies this`ccidSeq, dev`log
      ensures (Link(), atr) == PowerOn(Wire(), old(Link()), slot, voltage)
      ensures atr.Some? ==>
        var payload := Transact(Wire(), old(Link()), PowerOnCommand(slot, voltage)).1.value.payload;
        atr.value <= payload && |atr.value| == if |payload| < 64 then |payload| else 64
    {
      hide Transact;
      var resp, _ := Exchange(PowerOnCommand(slot, voltage));
      if resp.None? {
        return None;
      }
      return Some(resp.value.payload[..Min(|resp.value.payload|, IFD_MAX_ATR_LEN)]);
    }

    method ResetCard(slot: byte) returns (atr: Option<bytes>)
      modifies this`ccidSeq, dev`log
      ensures (Link(), atr) == Reset(Wire(), old(Link()), slot, autoVoltage, supportedVoltages)
    {
      hide PowerOn;
      if autoVoltage {
        atr := CardPowerOn(slot, 0);
        if atr.Some? {
          return;
        }
      }
      ghost var st := Link();
      var i := 0;
      while i < 3
        invariant i <= 3
        invariant TryVoltages(Wire(), st, slot, supportedVoltages, 0)
               == TryVoltages(Wire(), Link(), slot, supportedVoltages, i)
      {
        if HasVoltage(supportedVoltages, i) {
          atr := CardPowerOn(slot, i + 1);
          if atr.Some? {
            return;
          }
        }
        i := i + 1;
      }
      return None;
    }

    // Asks the reader once; a slot that is current already is not asked about again.
    method SelectSlot(slot: byte) returns (ok: bool)
      modifies this, dev`log
      ensures old(currentSlot) == slot ==> ok && Link() == old(Link()) && currentSlot == slot
      ensures old(currentSlot) != slot ==>
        (Link(), ok) == QuerySlot(Wire(), old(Link()), slot)
        && currentSlot == if ok then slot else old(currentSlot)
      ensures old(currentSlot) != slot ==>
        var resp := Transact(Wire(), old(Link()), SlotStatusCommand(slot)).1;
        ok <==> resp.Some? && (resp.value.ctl[0] % 4 == 0 || resp.value.ctl[0] % 4 == 1 || resp.value.ctl[0] % 4 == 3)
    {
      if currentSlot == slot {
        return true;
      }
      hide Transact;
      var status;
      ok, status := GetSlotStatus(slot);
      if !ok || status == 0 {
        return false;
      }
      currentSlot := slot;
      return true;
    }

    // The ATR of the card in the current slot; no other slot is touched.
    method IdentifyCard(slot: byte) returns (atr: Option<bytes>)
      modifies this`ccidSeq, dev`log
      ensures slot != currentSlot ==> atr == None && Link() == old(Link())
      ensures slot == currentSlot ==>
        (Link(), atr) == Reset(Wire(), old(Link()), slot, autoVoltage, supportedVoltages)
    {
      if slot != currentSlot {
        return None;
      }
      atr := ResetCard(slot);
    }

    // ccid_reader_apdu_xfer
    method ApduXfer(slot: byte, apdu: Buffer) returns (payload: Buffer?, ghost resp: Option<Message>)
      requires apdu.Valid() && |apdu.Contents()| + 24 <= 0x1_0000_0000
      modifies this`ccidSeq, dev`log
      ensures (Link(), resp) == Transact(Wire(), old(Link()), BlockCommand(slot, old(apdu.Contents())))
      ensures Delivered(resp, payload)
      ensures payload != null ==> fresh(payload) && fresh(payload.mem)
    {
      hide Transact;
      var data := apdu.mem[apdu.off + apdu.rpos..apdu.off + apdu.wpos];
      var r;
      r, payload := Exchange(BlockCommand(slot, data));
      resp := r;
    }
  }
}
