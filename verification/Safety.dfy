/**
 What goes over the wire in a run, watched by an automaton that knows nothing of the driver: it
 reads the kernel's log event by event and says which command may come next.
 */
module Safety {
  import opened Bytes
  import opened Usb
  import opened Interfaces
  import opened CcidFrames
  import opened CcidTransport
  import opened CcidReaders
  import opened Scard
  import opened PivDriver
  import PivCodec
  import opened Sessions

  // The application commands in the order they may come, GET RESPONSE aside.
  datatype Phase = Selecting | Probing | Presenting | Deciphering

  datatype Stage =
    | Fresh
    | SlotAsked(answer: Option<Message>)
    | PowerTried(select: byte, answer: Option<Message>)
    | Applet(phase: Phase, status: Option<u16>)
    | Violated

  // The stage, the command whose answer is outstanding, and how many commands were sent.
  datatype Watch = Watch(stage: Stage, inFlight: Option<Message>, sent: nat)

  function Expected(kind: byte): byte {
    if kind == CMD_GETSLOTSTAT then RESP_SLOTSTAT else RESP_DATA
  }

  predicate IsAuthenticate(apdu: bytes) {
    |apdu| >= 5 && apdu[1] == INS_AUTHENTICATE
  }

  // A VERIFY that carries a PIN, and so can cost a try.
  predicate IsPinVerify(apdu: bytes) {
    |apdu| >= 5 && apdu[1] == INS_VERIFY && apdu[4] != 0
  }

  predicate MayDecipher(pinGiven: bool, stage: Stage) {
    stage.Applet? &&
    match stage.phase
    case Probing => !pinGiven
    case Presenting => stage.status == Some(SW_SUCCESS)
    case Deciphering => stage.status == Some(SW_SUCCESS)
    case Selecting => false
  }

  // Where a block takes a stage in which blocks are allowed.
  function NextBlock(pinGiven: bool, stage: Stage, apdu: bytes): Stage
    requires stage.Applet?
  {
    if stage.status.Some? && More(stage.status.value) && apdu == GetResponse(stage.status.value) then
      Applet(stage.phase, None)
    else if stage.phase == Selecting && stage.status == Some(SW_SUCCESS) && apdu == VerifyApdu(None) then
      Applet(Probing, None)
    else if stage.phase == Probing && pinGiven && IsPinVerify(apdu) then
      Applet(Presenting, None)
    else if IsAuthenticate(apdu) && MayDecipher(pinGiven, stage) then
      Applet(Deciphering, None)
    else
      Violated
  }

  // Any state of the card but absent, 2.
  predicate ReportsCard(m: Message) {
    m.ctl[0] % 4 != 2
  }

  predicate PowersOn(kind: byte, ctl: Ctl) {
    kind == CMD_ICCPOWERON && ctl[0] <= 3
  }

  // Slot status first; then power-on with rising selectors until one is answered; then blocks.
  function Next(pinGiven: bool, stage: Stage, kind: byte, ctl: Ctl, payload: bytes): Stage {
    match stage
    case Fresh => if kind == CMD_GETSLOTSTAT then SlotAsked(None) else Violated
    case SlotAsked(answer) =>
      if answer.Some? && ReportsCard(answer.value) && PowersOn(kind, ctl) then PowerTried(ctl[0], None) else Violated
    case PowerTried(select, answer) =>
      if answer.None? then
        if PowersOn(kind, ctl) && select < ctl[0] then PowerTried(ctl[0], None) else Violated
      else if kind == CMD_XFRBLOCK && payload == SelectApdu() then Applet(Selecting, None) else Violated
    case Applet(_, _) => if kind == CMD_XFRBLOCK then NextBlock(pinGiven, stage, payload) else Violated
    case Violated => Violated
  }

  function StatusOf(m: Message): Option<u16> {
    match SplitStatus(m.payload)
    case None => None
    case Some(r) => Some(r.sw)
  }

  function Answered(stage: Stage, m: Message): Stage {
    match stage
    case SlotAsked(_) => SlotAsked(Some(m))
    case PowerTried(select, _) => PowerTried(select, Some(m))
    case Applet(phase, _) => Applet(phase, StatusOf(m))
    case _ => stage
  }

  // Commands must be numbered in the order they are sent; packets may only be received for one.
  function Observe(pinGiven: bool, w: Watch, e: Event): Watch {
    match e
    case SetConfiguration(_, _) => if w.stage == Fresh then w else w.(stage := Violated)
    case ClaimInterface(_, _) => if w.stage == Fresh then w else w.(stage := Violated)
    case BulkOut(pkt, ok) =>
      (match ParseFrame(pkt)
       case None => w.(stage := Violated)
       case Some(m) =>
         var stage := if m.seqno == w.sent % 256 then Next(pinGiven, w.stage, m.kind, m.ctl, m.payload) else Violated;
         if ok then Watch(stage, Some(m), w.sent + 1) else Watch(stage, None, w.sent))
    case BulkIn(got) =>
      if w.inFlight.None? then w.(stage := Violated)
      else if got.None? then w.(inFlight := None)
      else
        var c := w.inFlight.value;
        match Judge(c.slot, c.seqno, Expected(c.kind), got.value)
        case Accept(m) => Watch(Answered(w.stage, m), None, w.sent)
        case Fail => w.(inFlight := None)
        case Ignore => w
  }

  function Monitor(pinGiven: bool, log: Log): Watch {
    if log == [] then Watch(Fresh, None, 0)
    else Observe(pinGiven, Monitor(pinGiven, log[..|log| - 1]), log[|log| - 1])
  }

  lemma MonitorStep(pinGiven: bool, log: Log, e: Event)
    ensures Monitor(pinGiven, log + [e]) == Observe(pinGiven, Monitor(pinGiven, log), e)
  {
    assert (log + [e])[..|log|] == log;
  }

  // The driver never leaves the automaton

  // The link and the automaton agree on the next number, and the stage is this one.
  ghost predicate OnTrack(pinGiven: bool, st: Link, stage: Stage) {
    && Monitor(pinGiven, st.log).stage == stage
    && st.seqno <= 256 && st.seqno % 256 == Monitor(pinGiven, st.log).sent % 256
  }

  lemma {:induction false} AwaitWatched(
      pinGiven: bool, w: Wire, log: Log, c: Message, retries: nat)
    requires Monitor(pinGiven, log).inFlight == Some(c)
    ensures var (log', resp) := Await(w, log, c.slot, c.seqno, Expected(c.kind), retries);
      && Monitor(pinGiven, log').sent == Monitor(pinGiven, log).sent
      && Monitor(pinGiven, log').stage ==
           if resp.Some? then Answered(Monitor(pinGiven, log).stage, resp.value) else Monitor(pinGiven, log).stage
    decreases retries
  {
    hide Judge, Next, Answered;
    if retries != 0 {
      var got := NextPacket(w.oracle, w.max, log);
      MonitorStep(pinGiven, log, BulkIn(got));
      if got.Some? && Judge(c.slot, c.seqno, Expected(c.kind), got.value) == Ignore {
        AwaitWatched(pinGiven, w, log + [BulkIn(got)], c, retries - 1);
      }
    }
  }

  lemma TransactWatched(pinGiven: bool, w: Wire, st: Link, stage: Stage, c: Command)
    requires OnTrack(pinGiven, st, stage)
    requires c.expected == Expected(c.kind) && |c.payload| < 0x1_0000_0000
    ensures var (st', resp) := Transact(w, st, c);
      var next := Next(pinGiven, stage, c.kind, c.ctl, c.payload);
      OnTrack(pinGiven, st', if resp.Some? then Answered(next, resp.value) else next)
  {
    hide Judge, Next, Answered, Await, Frame, ParseFrame, Monitor;
    var m := Message(c.kind, c.slot, st.seqno % 256, c.ctl, c.payload);
    var pkt := Packet(st, c);
    FrameRoundTrip(m, []);
    assert Frame(m) + [] == pkt;
    var sent := Accepts(w.oracle, st.log, pkt);
    MonitorStep(pinGiven, st.log, BulkOut(pkt, sent));
    if sent {
      AwaitWatched(pinGiven, w, st.log + [BulkOut(pkt, sent)], m, RETRIES);
    }
  }

  // A block that is allowed leads on, and its status word is the stage's.
  lemma TransmitWatched(pinGiven: bool, w: Wire, st: Link, stage: Stage, apdu: bytes, phase: Phase)
    requires OnTrack(pinGiven, st, stage) && |apdu| < 0x1_0000_0000
    requires Next(pinGiven, stage, CMD_XFRBLOCK, CTL_ZERO, apdu) == Applet(phase, None)
    ensures var (st', r) := Transmit(w, st, 0, apdu);
      OnTrack(pinGiven, st', Applet(phase, if r.Some? then Some(r.value.sw) else None))
  {
    hide Transact, Next, Monitor;
    TransactWatched(pinGiven, w, st, stage, BlockCommand(0, apdu));
  }

  lemma {:induction false} CollectWatched(
      pinGiven: bool, w: Wire, st: Link, phase: Phase, got: Reply, room: nat) returns (status: Option<u16>)
    requires OnTrack(pinGiven, st, Applet(phase, Some(got.sw)))
    ensures var (st', r) := Collect(w, st, 0, got, room);
      OnTrack(pinGiven, st', Applet(phase, status)) && (r.Some? ==> status == Some(r.value.sw))
    decreases room
  {
    hide Transmit, Monitor;
    status := Some(got.sw);
    if More(got.sw) {
      TransmitWatched(pinGiven, w, st, Applet(phase, Some(got.sw)), GetResponse(got.sw), phase);
      var (st', r) := Transmit(w, st, 0, GetResponse(got.sw));
      if r.None? || |r.value.data| != Advertised(got.sw) || |r.value.data| > room {
        status := if r.Some? then Some(r.value.sw) else None;
      } else {
        status := CollectWatched(
          pinGiven, w, st', phase, Reply(got.data + r.value.data, r.value.sw), room - |r.value.data|);
      }
    }
  }

  lemma ExchangeWatched(pinGiven: bool, w: Wire, st: Link, stage: Stage, apdu: bytes, phase: Phase)
    returns (status: Option<u16>)
    requires OnTrack(pinGiven, st, stage) && |apdu| < 0x1_0000_0000
    requires Next(pinGiven, stage, CMD_XFRBLOCK, CTL_ZERO, apdu) == Applet(phase, None)
    ensures var (st', r) := ExchangeCard(w, st, 0, apdu);
      OnTrack(pinGiven, st', Applet(phase, status)) && (r.Some? ==> status == Some(r.value.sw))
  {
    hide Transmit, Next, Monitor;
    TransmitWatched(pinGiven, w, st, stage, apdu, phase);
    var (st1, r) := Transmit(w, st, 0, apdu);
    status := None;
    if r.Some? {
      status := CollectWatched(pinGiven, w, st1, phase, r.value, Room(w, |r.value.data|));
    }
  }

  // A stage from which select value v may be tried.
  predicate MayPower(stage: Stage, v: nat) {
    || (stage.SlotAsked? && stage.answer.Some? && ReportsCard(stage.answer.value))
    || (stage.PowerTried? && stage.answer.None? && stage.select < v)
  }

  lemma PowerOnWatched(pinGiven: bool, w: Wire, st: Link, stage: Stage, v: byte) returns (stage': Stage)
    requires OnTrack(pinGiven, st, stage) && MayPower(stage, v) && v <= 3
    ensures var (st', atr) := PowerOn(w, st, 0, v);
      && OnTrack(pinGiven, st', stage')
      && (atr.Some? ==> stage'.PowerTried? && stage'.answer.Some?)
      && (atr.None? ==> MayPower(stage', v + 1))
  {
    hide Transact, Monitor;
    TransactWatched(pinGiven, w, st, stage, PowerOnCommand(0, v));
    var (st', resp) := Transact(w, st, PowerOnCommand(0, v));
    stage' := if resp.Some? then PowerTried(v, Some(resp.value)) else PowerTried(v, None);
  }

  lemma {:induction false} TryVoltagesWatched(pinGiven: bool, w: Wire, st: Link, stage: Stage, voltages: byte, i: nat)
    returns (stage': Stage)
    requires i <= 3 && OnTrack(pinGiven, st, stage) && MayPower(stage, i + 1)
    ensures var (st', atr) := TryVoltages(w, st, 0, voltages, i);
      && OnTrack(pinGiven, st', stage') && stage' != Violated
      && (atr.Some? ==> stage'.PowerTried? && stage'.answer.Some?)
    decreases 3 - i
  {
    hide PowerOn, Monitor;
    stage' := stage;
    if i < 3 {
      if HasVoltage(voltages, i) {
        stage' := PowerOnWatched(pinGiven, w, st, stage, i + 1);
        var (st', atr) := PowerOn(w, st, 0, i + 1);
        if atr.None? {
          stage' := TryVoltagesWatched(pinGiven, w, st', stage', voltages, i + 1);
        }
      } else {
        stage' := TryVoltagesWatched(pinGiven, w, st, stage, voltages, i + 1);
      }
    }
  }

  lemma ResetWatched(pinGiven: bool, w: Wire, st: Link, stage: Stage, autoVoltage: bool, voltages: byte)
    returns (stage': Stage)
    requires OnTrack(pinGiven, st, stage) && stage.SlotAsked? && MayPower(stage, 0)
    ensures var (st', atr) := Reset(w, st, 0, autoVoltage, voltages);
      && OnTrack(pinGiven, st', stage') && stage' != Violated
      && (atr.Some? ==> stage'.PowerTried? && stage'.answer.Some?)
  {
    hide PowerOn, Monitor, TryVoltages;
    if autoVoltage {
      stage' := PowerOnWatched(pinGiven, w, st, stage, 0);
      var (st', atr) := PowerOn(w, st, 0, 0);
      if atr.None? {
        stage' := TryVoltagesWatched(pinGiven, w, st', stage', voltages, 0);
      }
    } else {
      stage' := TryVoltagesWatched(pinGiven, w, st, stage, voltages, 0);
    }
  }

  lemma {:induction false} SendAllWatched(
      pinGiven: bool, w: Wire, st: Link, stage: Stage, algorithm: byte, key: byte, fs: seq<Fragment>, last: Option<Reply>)
    returns (stage': Stage)
    requires OnTrack(pinGiven, st, stage) && MayDecipher(pinGiven, stage)
    requires forall f <- fs :: |f.data| <= 0xFF
    ensures OnTrack(pinGiven, SendAll(w, st, 0, algorithm, key, fs, last).0, stage') && stage'.Applet?
    decreases |fs|
  {
    hide ExchangeCard, Monitor;
    stage' := stage;
    if fs != [] {
      var apdu := FragmentApdu(algorithm, key, fs[0]);
      assert apdu[1] == INS_AUTHENTICATE;
      var status := ExchangeWatched(pinGiven, w, st, stage, apdu, Deciphering);
      stage' := Applet(Deciphering, status);
      var (st', r) := ExchangeCard(w, st, 0, apdu);
      if Success(r) {
        stage' := SendAllWatched(pinGiven, w, st', stage', algorithm, key, fs[1..], r);
      }
    }
  }

  lemma DecipherWatched(pinGiven: bool, w: Wire, st: Link, stage: Stage, key: byte, ciphertext: bytes)
    returns (stage': Stage)
    requires OnTrack(pinGiven, st, stage) && MayDecipher(pinGiven, stage)
    ensures OnTrack(pinGiven, Decipher(w, st, 0, key, ciphertext).0, stage') && stage'.Applet?
  {
    hide SendAll, Monitor, PivCodec.Template, Unwrap;
    stage' := stage;
    var n := ToU32(|ciphertext|);
    if Algorithm(n).Some? {
      var template := PivCodec.Template(ciphertext[..n]);
      FragmentsFit(template);
      stage' := SendAllWatched(pinGiven, w, st, stage, Algorithm(n).value, key, Fragments(template), None);
    }
  }

  // Selecting, then asking whether there is a PIN.
  lemma ConnectWatched(pinGiven: bool, w: Wire, st: Link, stage: Stage) returns (stage': Stage)
    requires OnTrack(pinGiven, st, stage) && stage.PowerTried? && stage.answer.Some?
    ensures var (st', c) := Connect(w, st, 0);
      && OnTrack(pinGiven, st', stage') && stage'.Applet?
      && (c.Connected? ==> stage'.phase == Probing)
  {
    hide ExchangeCard, Monitor;
    var status := ExchangeWatched(pinGiven, w, st, stage, SelectApdu(), Selecting);
    stage' := Applet(Selecting, status);
    var (st1, r) := ExchangeCard(w, st, 0, SelectApdu());
    if Success(r) {
      status := ExchangeWatched(pinGiven, w, st1, stage', VerifyApdu(None), Probing);
      stage' := Applet(Probing, status);
    }
  }

  lemma UseCardWatched(w: Wire, st: Link, stage: Stage, key: byte, pin: Option<bytes>, ciphertext: bytes)
    returns (stage': Stage)
    requires OnTrack(pin.Some?, st, stage) && stage.PowerTried? && stage.answer.Some?
    ensures OnTrack(pin.Some?, UseCard(w, st, key, pin, ciphertext).0, stage') && stage'.Applet?
  {
    hide ExchangeCard, Monitor, Connect, Decipher;
    var pinGiven := pin.Some?;
    stage' := ConnectWatched(pinGiven, w, st, stage);
    var (st3, c) := Connect(w, st, 0);
    if c.Connected? {
      if pin == None {
        stage' := DecipherWatched(pinGiven, w, st3, stage', EffectiveKey(key), ciphertext);
      } else if |pin.value| <= PIN_SIZE {
        var apdu := VerifyApdu(pin);
        assert IsPinVerify(apdu);
        var status := ExchangeWatched(pinGiven, w, st3, stage', apdu, Presenting);
        stage' := Applet(Presenting, status);
        var (st4, r) := Verify(w, st3, 0, pin);
        if Success(r) {
          stage' := DecipherWatched(pinGiven, w, st4, stage', EffectiveKey(key), ciphertext);
        }
      }
    }
  }

  // Whatever the device does: from a fresh log on, the session stays inside the automaton, and
  // its commands are numbered 0, 1, 2, ... modulo 256.
  lemma SessionWatched(
      w: Wire, setup: Setup, st: Link, pin: Option<bytes>, opts: seq<Option<byte>>, ciphertext: bytes)
    returns (stage: Stage)
    requires OnTrack(pin.Some?, st, Fresh)
    ensures OnTrack(pin.Some?, Session(w, setup, st, pin, opts, ciphertext).0, stage) && stage != Violated
  {
    hide Transact, Monitor, Reset, UseCard;
    var pinGiven := pin.Some?;
    TransactWatched(pinGiven, w, st, Fresh, SlotStatusCommand(0));
    var (st1, present) := QuerySlot(w, st, 0);
    stage := SlotAsked(Transact(w, st, SlotStatusCommand(0)).1);
    if present {
      stage := ResetWatched(pinGiven, w, st1, stage, setup.autoVoltage, setup.voltages);
      var (st2, atr) := Reset(w, st1, 0, setup.autoVoltage, setup.voltages);
      if atr.Some? && atr.value in ATRS && KeySlot(opts, 0).Some? {
        stage := UseCardWatched(w, st2, stage, KeySlot(opts, 0).value, pin, ciphertext);
      }
    }
  }

  // Choosing the interface sends nothing.
  lemma {:induction false} ChooseWatched(pinGiven: bool, o: Oracle, log: Log, t: Tree, ss: seq<Slot>)
    requires forall s <- ss :: InTree(t, s)
    requires Monitor(pinGiven, log) == Watch(Fresh, None, 0)
    ensures Monitor(pinGiven, Choose(o, log, t, ss).0) == Watch(Fresh, None, 0)
    decreases |ss|
  {
    hide Usable, Monitor;
    if ss != [] {
      assert ss[0] in ss && forall s <- ss[1..] :: s in ss;
      var c, i := t.configs[ss[0].config], Interfaces.At(t, ss[0]);
      var value, number := c.descriptor.bConfigurationValue, i.descriptor.bInterfaceNumber;
      var log1 := log + [SetConfiguration(value, o.configures(log, value))];
      MonitorStep(pinGiven, log, SetConfiguration(value, o.configures(log, value)));
      MonitorStep(pinGiven, log, ClaimInterface(number, o.claims(log, number)));
      MonitorStep(pinGiven, log1, ClaimInterface(number, o.claims(log1, number)));
      ChooseWatched(pinGiven, o, log, t, ss[1..]);
      var (log', ok) := Select(o, log, t, ss[0]);
      ChooseWatched(pinGiven, o, log', t, ss[1..]);
    }
  }

  // The same for the whole program, on a device just opened.
  lemma RunIsSafe(o: Oracle, t: Tree, pin: Option<bytes>, opts: seq<Option<byte>>, ciphertext: bytes)
    ensures Monitor(pin.Some?, ProgramRun(o, [], t, pin, opts, ciphertext).0).stage != Violated
  {
    hide Choose, Session, SetupOf;
    SlotsAreAll(t, 0, 0);
    ChooseWatched(pin.Some?, o, [], t, Slots(t, 0, 0));
    var (log0, chosen) := ChooseInterface(o, [], t);
    if chosen.Some? && InTree(t, chosen.value) && Interfaces.At(t, chosen.value).ccid.Some? {
      var setup := SetupOf(Interfaces.At(t, chosen.value).ccid.value);
      if setup.Some? {
        var stage := SessionWatched(Wire(o, setup.value.max), setup.value, Link(0, log0), pin, opts, ciphertext);
      }
    }
  }
}
