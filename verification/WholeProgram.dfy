/**
 The whole program, from the descriptors of a device to the message: on a device that keeps its
 word it ends with the message exactly if the card admits the PIN. And there are such devices.
 */
module WholeProgram {
  import opened Bytes
  import opened CcidDescriptors
  import opened Usb
  import opened Descriptors
  import opened DescriptorRoundTrip
  import opened Interfaces
  import opened CcidFrames
  import opened CcidTransport
  import opened CcidReaders
  import opened Scard
  import opened PivCodec
  import opened PivCards
  import opened Sessions
  import opened Runs
  import opened EndToEnd

  ghost predicate Powers(w: Wire, c: CardModel, st: Link, v: byte) {
    Obeys(w, st, PowerOnCommand(0, v), AtrDue(c.atr))
  }

  // Besides serving blocks, the device reports its card and powers it on with selector `good`;
  // any other selector it may leave unanswered.
  ghost predicate ServesReader(w: Wire, c: CardModel, base: Log, good: byte) {
    && Serves(w, c, base)
    && (forall st: Link | base <= st.log :: Obeys(w, st, SlotStatusCommand(0), StatusDue))
    && (forall st: Link, v: byte | base <= st.log ::
          Powers(w, c, st, v) || (v != good && PowerOn(w, st, 0, v).1 == None))
  }

  // What is no block costs no try, answered or not.
  lemma TransactKeepsTries(w: Wire, card: CardModel, st: Link, c: Command)
    requires c.kind != CMD_XFRBLOCK && |c.payload| <= 0x104
    ensures var st' := Transact(w, st, c).0;
      st.log <= st'.log && CardRun(card, st'.log).tries == CardRun(card, st.log).tries
  {
    hide Await, CardRun, Frame, ParseFrame;
    var m := Message(c.kind, c.slot, st.seqno % 256, c.ctl, c.payload);
    FrameRoundTrip(m, []);
    assert Frame(m) + [] == Packet(st, c);
    var sent := Accepts(w.oracle, st.log, Packet(st, c));
    var e := BulkOut(Packet(st, c), sent);
    if sent {
      CardRunStep(card, st.log, e);
      AwaitKeepsCard(w, card, st.log + [e], c.slot, st.seqno % 256, c.expected, RETRIES);
    } else {
      UnsentIsUnseen(card, st.log, Packet(st, c));
    }
  }

  lemma UnsentIsUnseen(card: CardModel, log: Log, pkt: bytes)
    ensures CardRun(card, log + [BulkOut(pkt, false)]) == CardRun(card, log)
  {
    hide CardStep;
    assert (log + [BulkOut(pkt, false)])[..|log|] == log;
  }

  // The reset finds the selector that works, and the card is none the worse for it.
  lemma {:induction false} PowerIsFound(
      w: Wire, c: CardModel, base: Log, st: Link, selectors: seq<byte>, good: byte)
    requires ServesReader(w, c, base, good) && base <= st.log
    requires good in selectors && |c.atr| <= IFD_MAX_ATR_LEN
    ensures var (st', atr) := FirstAnswered(w, st, 0, selectors);
      && atr == Some(c.atr) && base <= st'.log
      && CardRun(c, st'.log).tries == CardRun(c, st.log).tries
    decreases |selectors|
  {
    hide Transact, CardRun, Obeys, Serves, SendsOnly;
    var v := selectors[0];
    TransactKeepsTries(w, c, st, PowerOnCommand(0, v));
    if Powers(w, c, st, v) {
      TransactServed(w, c, st, PowerOnCommand(0, v), AtrDue(c.atr));
      assert c.atr[..|c.atr|] == c.atr;
    } else {
      PowerIsFound(w, c, base, PowerOn(w, st, 0, v).0, selectors[1..], good);
    }
  }

  lemma AtrsAreShort()
    ensures forall atr <- ATRS :: |atr| <= IFD_MAX_ATR_LEN
  {
  }

  // One session: the message, exactly if the card admits the PIN.
  lemma SessionReturnsMessage(
      w: Wire, setup: Setup, c: CardModel, st: Link, pin: Option<bytes>, opts: seq<Option<byte>>,
      ciphertext: bytes, ps: bytes, message: bytes, good: byte)
    requires ServesReader(w, c, st.log, good) && good in Plan(setup.autoVoltage, setup.voltages)
    requires c.atr in ATRS && KeySlot(opts, 0).Some?
    requires Suits(w, c, st.log, ciphertext, ps, message)
    ensures var s := CardRun(c, st.log);
      var (st', m) := Session(w, setup, st, pin, opts, ciphertext);
      && m == (if Admits(c, s, pin) && HasKey(c, KeySlot(opts, 0).value, |ciphertext|) then Some(message) else None)
      && CardRun(c, st'.log).tries == TriesAfter(c, s, pin)
  {
    hide Transact, CardRun, Reset, UseCard, Serves, ServesReader, Obeys, Pad, Wrap, Cuts, FirstAnswered, Plan, SendsOnly;
    var base := st.log;
    SlotServed(w, c, st, good);
    var st1 := QuerySlot(w, st, 0).0;
    AtrsAreShort();
    ResetFollowsPlan(w, st1, 0, setup.autoVoltage, setup.voltages);
    PowerIsFound(w, c, base, st1, Plan(setup.autoVoltage, setup.voltages), good);
    var st2 := Reset(w, st1, 0, setup.autoVoltage, setup.voltages).0;
    ServesLater(w, c, base, st2.log);
    UseCardReturnsMessage(w, c, st2, KeySlot(opts, 0).value, pin, ciphertext, ps, message);
  }

  lemma SlotServed(w: Wire, c: CardModel, st: Link, good: byte)
    requires ServesReader(w, c, st.log, good)
    ensures var (st', present) := QuerySlot(w, st, 0);
      present && st.log <= st'.log && CardRun(c, st'.log).tries == CardRun(c, st.log).tries
  {
    hide Transact, CardRun, Obeys, Serves, Powers, SendsOnly;
    TransactServed(w, c, st, SlotStatusCommand(0), StatusDue);
    TransactKeepsTries(w, c, st, SlotStatusCommand(0));
  }

  // An empty slot, state 2, ends the session at once.
  lemma EmptySlotEndsSession(
      w: Wire, setup: Setup, st: Link, pin: Option<bytes>, opts: seq<Option<byte>>, ciphertext: bytes, p: bytes)
    requires var pkt := Packet(st, SlotStatusCommand(0));
      && Accepts(w.oracle, st.log, pkt)
      && NextPacket(w.oracle, w.max, st.log + [BulkOut(pkt, true)]) == Some(p)
    requires IsSuccess(0, st.seqno % 256, 0x81, p) && p[7] % 4 == 2
    ensures var (st', m) := Session(w, setup, st, pin, opts, ciphertext);
      && m == None
      && st'.log == st.log + [BulkOut(Packet(st, SlotStatusCommand(0)), true), BulkIn(Some(p))]
  {
    hide Reset, UseCard, Packet, Await, IsSuccess, KeySlot;
    SlotAnswerDecides(w, st, 0, p);
    var log := st.log + [BulkOut(Packet(st, SlotStatusCommand(0)), true)];
    PacketDecides(w, log, 0, st.seqno % 256, 0x81, p, RETRIES);
    assert log + [BulkIn(Some(p))] == st.log + [BulkOut(Packet(st, SlotStatusCommand(0)), true), BulkIn(Some(p))];
  }

  // Choosing the interface does not reach the card.
  lemma {:induction false} ChooseKeepsCard(c: CardModel, o: Oracle, log: Log, t: Tree, ss: seq<Slot>)
    requires forall s <- ss :: InTree(t, s)
    ensures CardRun(c, Choose(o, log, t, ss).0) == CardRun(c, log)
    decreases |ss|
  {
    hide Usable, CardRun;
    if ss != [] {
      assert ss[0] in ss && forall s <- ss[1..] :: s in ss;
      var config, i := t.configs[ss[0].config], At(t, ss[0]);
      var value, number := config.descriptor.bConfigurationValue, i.descriptor.bInterfaceNumber;
      var log1 := log + [SetConfiguration(value, o.configures(log, value))];
      CardRunStep(c, log, SetConfiguration(value, o.configures(log, value)));
      CardRunStep(c, log, ClaimInterface(number, o.claims(log, number)));
      CardRunStep(c, log1, ClaimInterface(number, o.claims(log1, number)));
      ChooseKeepsCard(c, o, log, t, ss[1..]);
      ChooseKeepsCard(c, o, Select(o, log, t, ss[0]).0, t, ss[1..]);
    }
  }

  // One run of the program on a device just opened and described by any descriptors.
  lemma ProgramReturnsMessage(
      o: Oracle, t: Tree, setup: Setup, c: CardModel, pin: Option<bytes>, opts: seq<Option<byte>>,
      ciphertext: bytes, ps: bytes, message: bytes, good: byte)
    requires ChosenSetup(o, t) == Some(setup)
    requires var w := Wire(o, setup.max);
      ServesReader(w, c, [], good) && Suits(w, c, [], ciphertext, ps, message)
    requires good in Plan(setup.autoVoltage, setup.voltages) && c.atr in ATRS && KeySlot(opts, 0).Some?
    ensures var (log, m) := ProgramRun(o, [], t, pin, opts, ciphertext);
      && m == (if Admits(c, CardRun(c, []), pin) && HasKey(c, KeySlot(opts, 0).value, |ciphertext|)
               then Some(message) else None)
      && CardRun(c, log).tries == TriesAfter(c, CardRun(c, []), pin)
  {
    hide CardRun, Choose, Session, Serves, Obeys, Powers, PowerOn, Pad, Wrap, Cuts, Plan, SetupOf;
    SlotsAreAll(t, 0, 0);
    ChooseKeepsCard(c, o, [], t, Slots(t, 0, 0));
    var log0 := ChooseInterface(o, [], t).0;
    var w := Wire(o, setup.max);
    ServesLater(w, c, [], log0);
    ServesReaderLater(w, c, log0, good);
    SessionReturnsMessage(w, setup, c, Link(0, log0), pin, opts, ciphertext, ps, message, good);
  }

  lemma ServesReaderLater(w: Wire, c: CardModel, log: Log, good: byte)
    requires ServesReader(w, c, [], good) && Serves(w, c, log)
    ensures ServesReader(w, c, log, good)
  {
    hide Serves, Obeys, Powers, PowerOn;
  }

  // A device that answers everything at once, and whose card is inactive until it is powered on

  function PromptAnswer(c: CardModel, s: CardState, m: Message): Message {
    var ctl := [if s.powered then 0 else 1, 0, 0];
    if m.kind == 0x65 then Message(0x81, m.slot, m.seqno, ctl, [])
    else if m.kind == 0x62 then Message(0x80, m.slot, m.seqno, [0, 0, 0], c.atr)
    else
      var reply := CardStep(c, s, m.payload).1;
      Message(0x80, m.slot, m.seqno, ctl, reply.data + [reply.sw / 256, reply.sw % 256])
  }

  function PromptPacket(c: CardModel, log: Log): Option<bytes> {
    if log == [] || !log[|log| - 1].BulkOut? then None else
    match ParseFrame(log[|log| - 1].pkt)
    case None => None
    case Some(m) => Some(Frame(PromptAnswer(c, CardRun(c, log[..|log| - 1]), m)))
  }

  function PromptDevice(c: CardModel, writesBack: bool): Oracle {
    Oracle((_, _) => true, (_, _) => true, (_, _) => true, log => PromptPacket(c, log), writesBack)
  }

  lemma PromptDeviceObeys(w: Wire, card: CardModel, st: Link, c: Command, due: Due)
    requires w.oracle == PromptDevice(card, w.oracle.writesBack) && IsInt(Capacity(w.max)) && |c.payload| <= 0x104
    requires var answer := PromptAnswer(
        card, CardRun(card, st.log), Message(c.kind, c.slot, st.seqno % 256, c.ctl, c.payload));
      && HDR_SIZE + |answer.payload| <= Capacity(w.max) && answer.kind == TypeOf(due) && Pays(due, answer)
    ensures Obeys(w, st, c, due)
  {
    hide CardRun, PromptAnswer, ParseFrame, Pays, Frame;
    var m := Message(c.kind, c.slot, st.seqno % 256, c.ctl, c.payload);
    var answer := PromptAnswer(card, CardRun(card, st.log), m);
    FrameRoundTrip(m, []);
    assert Frame(m) + [] == Packet(st, c);
    var log := st.log + [BulkOut(Packet(st, c), true)];
    assert log[..|log| - 1] == st.log;
    FrameSize(m);
    FrameSize(answer);
    assert w.oracle.answers(log) == Some(Frame(answer));
    var arrived := Frame(answer)[..Min(|Frame(answer)|, Capacity(w.max))];
    assert arrived == Frame(answer);
    var fill := Filler(if w.oracle.writesBack then 0 else Capacity(w.max) - |arrived|);
    FrameRoundTrip(answer, fill);
    ParsedOnOctets(Frame(answer) + fill);
    AnswerFits(card, CardRun(card, st.log), m);
  }

  lemma FrameSize(m: Message)
    ensures |Frame(m)| == HDR_SIZE + |m.payload|
  {
  }

  lemma AnswerFits(c: CardModel, s: CardState, m: Message)
    ensures var answer := PromptAnswer(c, s, m);
      answer.slot == m.slot && answer.seqno == m.seqno && answer.ctl[0] < 0x40
  {
    hide CardStep;
  }

  lemma PromptDeviceServes(w: Wire, c: CardModel, good: byte)
    requires w.oracle == PromptDevice(c, w.oracle.writesBack) && CutsShort(c) && c.atr in ATRS
    requires HDR_SIZE + 258 <= Capacity(w.max) && IsInt(Capacity(w.max))
    ensures ServesReader(w, c, [], good)
  {
    hide Obeys, CardStep, CardRun;
    AtrsAreShort();
    forall st: Link, slot: byte, apdu: bytes | |apdu| <= 0x104
      ensures ServesAt(w, c, st, slot, apdu)
    {
      ReplyIsShort(c, st.log, apdu);
      PromptDeviceObeys(w, c, st, BlockCommand(slot, apdu), ReplyDue(CardStep(c, CardRun(c, st.log), apdu).1));
    }
    forall st: Link
      ensures Obeys(w, st, SlotStatusCommand(0), StatusDue)
    {
      PromptDeviceObeys(w, c, st, SlotStatusCommand(0), StatusDue);
    }
    forall st: Link, v: byte
      ensures Powers(w, c, st, v)
    {
      PromptDeviceObeys(w, c, st, PowerOnCommand(0, v), AtrDue(c.atr));
    }
  }

  // A token with one configuration and one interface, that of a reader with this class descriptor.

  function TokenItems(d: CcidDescriptor): seq<Item> {
    [ClassSpecific(Record(0x21, EncodeCcid(d, []))),
     Endpoint(EndpointDescriptor(0x02, 2), [64, 0, 0]),
     Endpoint(EndpointDescriptor(0x81, 2), [64, 0, 0])]
  }

  function TokenInterface(d: CcidDescriptor): InterfacePlan {
    InterfacePlan(InterfaceDescriptor(0, 0, 2, ClassProto(11, 0, 0)), [0], TokenItems(d))
  }

  function TokenPlan(d: CcidDescriptor): DevicePlan {
    Device([Bare(1, [TokenInterface(d)])])
  }

  const TOKEN_ENDPOINTS: seq<EndpointDescriptor> := [EndpointDescriptor(0x02, 2), EndpointDescriptor(0x81, 2)]

  lemma TokenItemsMean(d: CcidDescriptor)
    ensures Endpoints(TokenItems(d)) == TOKEN_ENDPOINTS
    ensures LastCcid(TokenItems(d), None) == Some(d)
  {
    hide DecodeCcid, EncodeCcid;
    var items := TokenItems(d);
    CcidRoundTrip(d, []);
    assert items[1..][1..][1..] == [];
    assert LastCcid(items[1..], Some(d)) == LastCcid(items[1..][1..], Some(d));
    assert Endpoints(items[1..][1..]) == [items[2].d] + [];
  }

  function TokenTree(d: CcidDescriptor): Tree {
    var i := Interface(TokenInterface(d).d, Some(Ccid), Some(d), TOKEN_ENDPOINTS);
    Tree(ONE_CONFIGURATION, [Config(Bare(1, []).d, [i])])
  }

  lemma TokenIsBuilt(d: CcidDescriptor)
    ensures ParseBlob(Serialise(TokenPlan(d))) == Parsed(TokenTree(d))
  {
    hide ParseBlob, Serialise, DecodeCcid, FindType, LastCcid;
    var c := Bare(1, [TokenInterface(d)]);
    KnownTypes(ClassProto(11, 0, 0));
    TokenItemsMean(d);
    ParseUndoesSerialise(TokenPlan(d));
    BuildOne(c, TokenInterface(d));
  }

  // Nothing needs to be asked of the kernel to choose its interface.
  lemma TokenIsChosen(d: CcidDescriptor, o: Oracle)
    ensures var t := TokenTree(d);
      ChooseInterface(o, [], t) == ([], Some(Slot(0, 0))) && InTree(t, Slot(0, 0)) && At(t, Slot(0, 0)).ccid == Some(d)
  {
    var t := TokenTree(d);
    var es := TOKEN_ENDPOINTS;
    assert es[..1] == [es[0]];
    assert LastOf(es, BULK, false) == LastOf(es[..1], BULK, false) == 2 && LastOf(es, BULK, true) == 0x81;
    ChooseStep(o, [], t, 0, 0);
  }

  // What is written goes to its endpoint 02 and what is read comes from 81.
  lemma TokenEndpoints(dev: UsbDevice)
    requires HasEndpointsOf(dev, TOKEN_ENDPOINTS)
    ensures dev.epOut == 0x02 && dev.epIn == 0x81 && dev.epIntr == -1
  {
    var es := TOKEN_ENDPOINTS;
    assert es[..1] == [es[0]] && es[..1][..0] == [];
    assert LastOf(es, INTERRUPT, true) == LastOf(es[..1], INTERRUPT, true) == LastOf(es[..1][..0], INTERRUPT, true);
  }

  // A token with two configurations, whose reader is interface n of the one with value v: the kernel
  // is asked to set v, then to claim n unless that is 0, and either refusal ends it.

  function TwoConfigurations(d: CcidDescriptor, v: byte, n: byte, alternate: byte): DevicePlan {
    var i := InterfacePlan(InterfaceDescriptor(n, alternate, 2, ClassProto(11, 0, 0)), [0], TokenItems(d));
    var c := ConfigPlan(ConfigDescriptor(1, v, 0x80, 15), 0, 0, [], [], [i]);
    Device([Bare(0, []), c]).(d := ONE_CONFIGURATION.(bNumConfigurations := 2))
  }

  function TwoConfigurationsTree(d: CcidDescriptor, v: byte, n: byte, alternate: byte): Tree {
    var i := Interface(InterfaceDescriptor(n, alternate, 2, ClassProto(11, 0, 0)), Some(Ccid), Some(d), TOKEN_ENDPOINTS);
    Tree(ONE_CONFIGURATION.(bNumConfigurations := 2),
         [Config(Bare(0, []).d, []), Config(ConfigDescriptor(1, v, 0x80, 15), [i])])
  }

  lemma TwoConfigurationsAreBuilt(d: CcidDescriptor, v: byte, n: byte, alternate: byte)
    ensures ParseBlob(Serialise(TwoConfigurations(d, v, n, alternate)))
         == Parsed(TwoConfigurationsTree(d, v, n, alternate))
  {
    hide ParseBlob, Serialise, DecodeCcid, FindType, LastCcid;
    var p := TwoConfigurations(d, v, n, alternate);
    var c := p.configs[1];
    KnownTypes(ClassProto(11, 0, 0));
    TokenItemsMean(d);
    ParseUndoesSerialise(p);
    assert p.configs[1..] == [c];
    BuildOne(c, c.interfaces[0]);
  }

  lemma SecondConfigurationIsSelected(d: CcidDescriptor, v: byte, n: byte, alternate: byte, o: Oracle)
    ensures var set' := SetConfiguration(v, o.configures([], v));
      var claim := ClaimInterface(n, o.claims([set'], n));
      ChooseInterface(o, [], TwoConfigurationsTree(d, v, n, alternate)) ==
        if !set'.ok then ([set'], None)
        else if n == 0 then ([set'], Some(Slot(1, 0)))
        else ([set', claim], if claim.ok then Some(Slot(1, 0)) else None)
  {
    var t, es := TwoConfigurationsTree(d, v, n, alternate), TOKEN_ENDPOINTS;
    assert es[..1] == [es[0]];
    assert LastOf(es, BULK, false) == LastOf(es[..1], BULK, false) == 2 && LastOf(es, BULK, true) == 0x81;
    assert Usable(At(t, Slot(1, 0)));
    var log := Select(o, [], t, Slot(1, 0)).0;
    hide LastOf, Usable, Select, ChooseFrom;
    ChooseStep(o, [], t, 0, 0);
    ChooseStep(o, [], t, 1, 0);
    ChooseStep(o, log, t, 1, 1);
    ChooseStep(o, log, t, 2, 0);
    SelectsSecond(d, v, n, alternate, o);
  }

  lemma SelectsSecond(d: CcidDescriptor, v: byte, n: byte, alternate: byte, o: Oracle)
    ensures var set' := SetConfiguration(v, o.configures([], v));
      var claim := ClaimInterface(n, o.claims([set'], n));
      Select(o, [], TwoConfigurationsTree(d, v, n, alternate), Slot(1, 0)) ==
        if !set'.ok then ([set'], false)
        else if n == 0 then ([set'], true)
        else ([set', claim], claim.ok)
  {
    var set' := SetConfiguration(v, o.configures([], v));
    var claim := ClaimInterface(n, o.claims([set'], n));
    var empty: Log := [];
    assert empty + [set'] == [set'] && [set'] + [claim] == [set', claim];
  }

  // From the octets of its descriptors to the message: whatever the reader's features and voltages,
  // the key operation, the PIN and the message, some device does all that is asked of one.
  lemma SomeDeviceReturnsMessage(
      d: CcidDescriptor, setup: Setup, c: CardModel, pin: Option<bytes>, opts: seq<Option<byte>>,
      ciphertext: bytes, ps: bytes, message: bytes, writesBack: bool)
    requires SetupOf(d) == Some(setup) && Plan(setup.autoVoltage, setup.voltages) != []
    requires HDR_SIZE + 258 <= Capacity(setup.max) && IsInt(Capacity(setup.max)) && HDR_SIZE + |Wrap(Pad(ps, message))| <= Capacity(setup.max)
    requires c.cut == Chop && c.atr in ATRS && KeySlot(opts, 0).Some?
    requires |ciphertext| == Modulus(c.rsa)
    requires c.decrypt(ciphertext) == Pad(ps, message) && 0 !in ps && |Pad(ps, message)| + 4 < 0x1_0000
    ensures var o := ParseBlob(Serialise(TokenPlan(d)));
      && o.Parsed?
      && ProgramRun(PromptDevice(c, writesBack), [], o.tree, pin, opts, ciphertext).1
         == if Admits(c, CardRun(c, []), pin) && HasKey(c, KeySlot(opts, 0).value, |ciphertext|) then Some(message) else None
  {
    hide ParseBlob, Serialise, SetupOf, ChooseInterface, ProgramRun, ServesReader, Serves, CardRun, Pad, Wrap;
    hide Plan, Chop, Fetchable, Flatten;
    var w := Wire(PromptDevice(c, writesBack), setup.max);
    var good := Plan(setup.autoVoltage, setup.voltages)[0];
    forall r: bytes
      ensures forall i: nat | i < |c.cut(r)| :: |c.cut(r)[i]| <= 256
    {
      ChopCuts(r);
    }
    PromptDeviceServes(w, c, good);
    ServesBlocks(w, c, good);
    ChopFetches(Wrap(Pad(ps, message)));
    TokenIsBuilt(d);
    TokenIsChosen(d, w.oracle);
    ProgramReturnsMessage(w.oracle, TokenTree(d), setup, c, pin, opts, ciphertext, ps, message, good);
  }

  lemma ServesBlocks(w: Wire, c: CardModel, good: byte)
    requires ServesReader(w, c, [], good)
    ensures Serves(w, c, [])
  {
  }

  lemma ChopFetches(r: bytes)
    ensures Chop(r) != [] && Flatten(Chop(r)) == r && Fetchable(Chop(r)[1..])
  {
    ChopCuts(r);
    if r == [] {
      assert Chop(r)[1..] == [];
    }
  }
}
