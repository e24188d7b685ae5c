/**
 A run of the program is a run of commands: whatever holds of the commands one by one holds of the
 whole. Here that says when the receive loops as they are written do what is intended.
 */
module Runs {
  import opened Bytes
  import opened Usb
  import opened Interfaces
  import opened CcidFrames
  import opened CcidTransport
  import opened CcidReaders
  import opened Scard
  import opened PivDriver
  import PivCodec
  import opened Sessions
  import opened Safety
  import opened SafetyMeaning

  // What the program is to do: the PIN it was given, the key it uses, the ciphertext as far as its
  // length fits an unsigned int, and whether there is a card it may send blocks to.
  datatype Errand = Errand(pin: Option<bytes>, key: byte, ciphertext: bytes, blocks: bool)

  function KeyOf(opts: seq<Option<byte>>): byte {
    var chosen := if opts != [] && opts[|opts| - 1].Some? then opts[|opts| - 1].value else 0;
    if chosen == 0 then 0x9e else chosen
  }

  // The APDUs of an errand, octet by octet: SELECT, VERIFY without and with the PIN, AUTHENTICATE
  // in one piece for 128 octets and in two for 256, and GET RESPONSE.

  predicate IsKeyApdu(x: Errand, a: bytes) {
    var ct := x.ciphertext;
    var short := [0x7c, 0x81, 0x85, 0x82, 0x00, 0x81, 0x81, 0x80] + ct;
    var long := [0x7c, 0x82, 0x01, 0x06, 0x82, 0x00, 0x81, 0x82, 0x01, 0x00] + ct;
    || (|ct| == 128 && a == [0x00, 0x87, 0x06, x.key, 0x88] + short)
    || (|ct| == 256 && a == [0x10, 0x87, 0x07, x.key, 0xff] + long[..0xff])
    || (|ct| == 256 && a == [0x00, 0x87, 0x07, x.key, 0x0b] + long[0xff..])
  }

  predicate IsApdu(x: Errand, a: bytes) {
    || a == [0x00, 0xa4, 0x04, 0x00, 0x05, 0xa0, 0x00, 0x00, 0x03, 0x08]
    || a == [0x00, 0x20, 0x00, 0x80, 0x00]
    || (x.pin.Some? && |x.pin.value| <= 8
        && a == [0x00, 0x20, 0x00, 0x80, 0x08] + (x.pin.value + seq(8 - |x.pin.value|, _ => 0xff)))
    || IsKeyApdu(x, a)
    || (|a| == 5 && a[..4] == [0x00, 0xc0, 0x00, 0x00])
  }

  // Slot status, power-on and block, each with the type of response it waits for.
  predicate Proper(x: Errand, c: Command) {
    && c.slot == 0
    && (|| (c.kind == 0x65 && c.ctl == [0, 0, 0] && c.payload == [] && c.expected == 0x81)
        || (c.kind == 0x62 && c.ctl[0] <= 3 && c.ctl[1..] == [0, 0] && c.payload == [] && c.expected == 0x80)
        || (c.kind == 0x6f && x.blocks && c.ctl == [0, 0, 0] && IsApdu(x, c.payload) && c.expected == 0x80))
  }

  ghost predicate IsRun(x: Errand, w: Wire, st: Link, cs: seq<Command>, st': Link) {
    Run(w, st, cs) == st' && forall c <- cs :: Proper(x, c)
  }

  lemma {:induction false} RunsJoin(x: Errand, w: Wire, st: Link, cs: seq<Command>, st1: Link, ds: seq<Command>, st2: Link)
    requires IsRun(x, w, st, cs, st1) && IsRun(x, w, st1, ds, st2)
    ensures IsRun(x, w, st, cs + ds, st2)
    decreases |cs|
  {
    hide Transact, Proper;
    if cs == [] {
      assert [] + ds == ds;
    } else {
      assert (cs + ds)[1..] == cs[1..] + ds;
      RunsJoin(x, w, Transact(w, st, cs[0]).0, cs[1..], st1, ds, st2);
    }
  }

  lemma OneIsRun(x: Errand, w: Wire, st: Link, c: Command)
    requires Proper(x, c)
    ensures IsRun(x, w, st, [c], Transact(w, st, c).0)
  {
    hide Transact;
    var st' := Transact(w, st, c).0;
    assert Run(w, st, [c]) == Run(w, st', [c][1..]) == Run(w, st', []) == st';
  }

  lemma NoneIsRun(x: Errand, w: Wire, st: Link)
    ensures IsRun(x, w, st, [], st)
  {
  }

  lemma TransmitIsRun(x: Errand, w: Wire, st: Link, apdu: bytes)
    requires x.blocks && IsApdu(x, apdu)
    ensures IsRun(x, w, st, [BlockCommand(0, apdu)], Transmit(w, st, 0, apdu).0)
  {
    hide Transact, IsApdu;
    OneIsRun(x, w, st, BlockCommand(0, apdu));
  }

  lemma {:induction false} CollectIsRun(x: Errand, w: Wire, st: Link, got: Reply, room: nat) returns (cs: seq<Command>)
    requires x.blocks
    ensures IsRun(x, w, st, cs, Collect(w, st, 0, got, room).0)
    decreases room
  {
    hide Transmit, IsRun, IsApdu;
    if !More(got.sw) {
      cs := [];
      NoneIsRun(x, w, st);
    } else {
      cs := [BlockCommand(0, GetResponse(got.sw))];
      GetResponseIsSaid(x, got.sw);
      TransmitIsRun(x, w, st, GetResponse(got.sw));
      var (st', r) := Transmit(w, st, 0, GetResponse(got.sw));
      if r.Some? && |r.value.data| == Advertised(got.sw) && |r.value.data| <= room {
        var rest := CollectIsRun(x, w, st', Reply(got.data + r.value.data, r.value.sw), room - |r.value.data|);
        RunsJoin(x, w, st, cs, st', rest, Collect(w, st, 0, got, room).0);
        cs := cs + rest;
      }
    }
  }

  lemma ExchangeIsRun(x: Errand, w: Wire, st: Link, apdu: bytes) returns (cs: seq<Command>)
    requires x.blocks && IsApdu(x, apdu)
    ensures IsRun(x, w, st, cs, ExchangeCard(w, st, 0, apdu).0)
  {
    hide Transmit, IsRun, IsApdu;
    cs := [BlockCommand(0, apdu)];
    TransmitIsRun(x, w, st, apdu);
    var (st1, r) := Transmit(w, st, 0, apdu);
    if r.Some? {
      var rest := CollectIsRun(x, w, st1, r.value, Room(w, |r.value.data|));
      RunsJoin(x, w, st, cs, st1, rest, ExchangeCard(w, st, 0, apdu).0);
      cs := cs + rest;
    }
  }

  lemma {:induction false} SendAllIsRun(x: Errand, w: Wire, st: Link, algorithm: byte, key: byte, fs: seq<Fragment>, last: Option<Reply>)
    returns (cs: seq<Command>)
    requires forall f <- fs :: |f.data| <= 0xFF && IsApdu(x, FragmentApdu(algorithm, key, f))
    requires x.blocks
    ensures IsRun(x, w, st, cs, SendAll(w, st, 0, algorithm, key, fs, last).0)
    decreases |fs|
  {
    hide ExchangeCard, IsRun, IsApdu;
    if fs == [] {
      cs := [];
      NoneIsRun(x, w, st);
    } else {
      var apdu := FragmentApdu(algorithm, key, fs[0]);
      cs := ExchangeIsRun(x, w, st, apdu);
      var (st1, r) := ExchangeCard(w, st, 0, apdu);
      if Success(r) {
        var rest := SendAllIsRun(x, w, st1, algorithm, key, fs[1..], r);
        RunsJoin(x, w, st, cs, st1, rest, SendAll(w, st, 0, algorithm, key, fs, last).0);
        cs := cs + rest;
      }
    }
  }

  // Both templates, and the pieces that they are sent in.
  lemma FragmentsAreSaid(x: Errand)
    requires |x.ciphertext| in {128, 256}
    ensures forall f <- Fragments(PivCodec.Template(x.ciphertext)) ::
      |f.data| <= 0xFF && IsApdu(x, FragmentApdu(Algorithm(|x.ciphertext|).value, x.key, f))
  {
    var ct, t := x.ciphertext, PivCodec.Template(x.ciphertext);
    var n := |PivCodec.Inner(ct)|;
    FirstFragment(t);
    if |ct| == 128 {
      assert t == [0x7c, 0x81, 0x85, 0x82, 0x00, 0x81, 0x81, 0x80] + ct;
      assert Fragments(t) == [Fragment(0x00, t)];
    } else {
      assert t == [0x7c, 0x82, 0x01, 0x06, 0x82, 0x00, 0x81, 0x82, 0x01, 0x00] + ct;
      FirstFragment(t[0xff..]);
      assert Fragments(t[0xff..]) == [Fragment(0x00, t[0xff..])];
      assert Fragments(t) == [Fragment(0x10, t[..0xff]), Fragment(0x00, t[0xff..])];
    }
  }

  lemma GetResponseIsSaid(x: Errand, sw: u16)
    ensures IsApdu(x, GetResponse(sw))
  {
    hide IsKeyApdu;
    assert GetResponse(sw)[..4] == [0x00, 0xc0, 0x00, 0x00];
  }

  lemma SelectIsSaid(x: Errand)
    ensures IsApdu(x, SelectApdu())
  {
    hide IsKeyApdu;
  }

  lemma VerifyIsSaid(x: Errand, pin: Option<bytes>)
    requires pin == None || pin == x.pin
    requires pin.Some? ==> |pin.value| <= PIN_SIZE
    ensures IsApdu(x, VerifyApdu(pin))
  {
    hide IsKeyApdu;
    if pin.Some? {
      assert PaddedPin(pin.value) == pin.value + seq(8 - |pin.value|, _ => 0xff);
    }
  }

  lemma DecipherIsRun(x: Errand, w: Wire, st: Link, key: byte, ciphertext: bytes) returns (cs: seq<Command>)
    requires key == x.key && ciphertext[..ToU32(|ciphertext|)] == x.ciphertext
    requires x.blocks
    ensures IsRun(x, w, st, cs, Decipher(w, st, 0, key, ciphertext).0)
  {
    hide SendAll, IsRun, IsApdu, PivCodec.Template, Unwrap;
    var n := ToU32(|ciphertext|);
    if Algorithm(n).None? {
      cs := [];
      NoneIsRun(x, w, st);
    } else {
      var template := PivCodec.Template(ciphertext[..n]);
      FragmentsFit(template);
      FragmentsAreSaid(x);
      cs := SendAllIsRun(x, w, st, Algorithm(n).value, key, Fragments(template), None);
    }
  }

  lemma VerifyIsRun(x: Errand, w: Wire, st: Link, pin: Option<bytes>) returns (cs: seq<Command>)
    requires pin == None || pin == x.pin
    requires x.blocks
    ensures IsRun(x, w, st, cs, Verify(w, st, 0, pin).0)
  {
    hide ExchangeCard, IsRun, IsApdu;
    if pin.Some? && |pin.value| > PIN_SIZE {
      cs := [];
      NoneIsRun(x, w, st);
    } else {
      VerifyIsSaid(x, pin);
      cs := ExchangeIsRun(x, w, st, VerifyApdu(pin));
    }
  }

  lemma ConnectIsRun(x: Errand, w: Wire, st: Link) returns (cs: seq<Command>)
    requires x.blocks
    ensures IsRun(x, w, st, cs, Connect(w, st, 0).0)
  {
    hide ExchangeCard, Verify, IsRun, IsApdu;
    SelectIsSaid(x);
    cs := ExchangeIsRun(x, w, st, SelectApdu());
    var (st1, r) := ExchangeCard(w, st, 0, SelectApdu());
    if Success(r) {
      var rest := VerifyIsRun(x, w, st1, None);
      RunsJoin(x, w, st, cs, st1, rest, Connect(w, st, 0).0);
      cs := cs + rest;
    }
  }

  lemma UseCardIsRun(x: Errand, w: Wire, st: Link, key: byte, pin: Option<bytes>, ciphertext: bytes) returns (cs: seq<Command>)
    requires x == Errand(pin, if key == 0 then 0x9e else key, ciphertext[..ToU32(|ciphertext|)], x.blocks)
    requires x.blocks
    ensures IsRun(x, w, st, cs, UseCard(w, st, key, pin, ciphertext).0)
  {
    hide Connect, Verify, Decipher, IsRun;
    cs := ConnectIsRun(x, w, st);
    var (st3, c) := Connect(w, st, 0);
    if c.Connected? {
      var st4, ok := st3, true;
      if pin.Some? {
        var more := VerifyIsRun(x, w, st3, pin);
        st4, ok := Verify(w, st3, 0, pin).0, Success(Verify(w, st3, 0, pin).1);
        RunsJoin(x, w, st, cs, st3, more, st4);
        cs := cs + more;
      }
      if ok {
        var rest := DecipherIsRun(x, w, st4, EffectiveKey(key), ciphertext);
        RunsJoin(x, w, st, cs, st4, rest, UseCard(w, st, key, pin, ciphertext).0);
        cs := cs + rest;
      }
    }
  }

  lemma {:induction false} PoweringIsRun(x: Errand, w: Wire, st: Link, selectors: seq<byte>) returns (cs: seq<Command>)
    requires forall v <- selectors :: v <= 3
    ensures IsRun(x, w, st, cs, FirstAnswered(w, st, 0, selectors).0)
    decreases |selectors|
  {
    hide Transact, IsRun;
    if selectors == [] {
      cs := [];
      NoneIsRun(x, w, st);
    } else {
      assert selectors[0] in selectors && forall v <- selectors[1..] :: v in selectors;
      var c := PowerOnCommand(0, selectors[0]);
      cs := [c];
      OneIsRun(x, w, st, c);
      var (st1, atr) := PowerOn(w, st, 0, selectors[0]);
      if atr.None? {
        var rest := PoweringIsRun(x, w, st1, selectors[1..]);
        RunsJoin(x, w, st, cs, st1, rest, FirstAnswered(w, st, 0, selectors).0);
        cs := cs + rest;
      }
    }
  }

  lemma PlanIsSmall(autoVoltage: bool, voltages: byte)
    ensures forall v <- Plan(autoVoltage, voltages) :: v <= 3
  {
    assert Supported(voltages, 3) == [];
    assert forall v <- Supported(voltages, 2) :: v <= 3;
    assert forall v <- Supported(voltages, 1) :: v <= 3;
  }

  // The answer to reset, if the card in slot 0 gives one.
  function Identity(w: Wire, setup: Setup, st: Link): Option<bytes> {
    Reset(w, QuerySlot(w, st, 0).0, 0, setup.autoVoltage, setup.voltages).1
  }

  // Blocks are for cards that are known, and only if no option was refused.
  function ErrandOf(
      w: Wire, setup: Setup, st: Link, pin: Option<bytes>, opts: seq<Option<byte>>, ciphertext: bytes): Errand
  {
    var atr := Identity(w, setup, st);
    Errand(pin, KeyOf(opts), ciphertext[..ToU32(|ciphertext|)], None !in opts && atr.Some? && atr.value in ATRS)
  }

  // What a session says is a run of these commands, each awaited before the next; without blocks
  // there is no cleartext.
  lemma SessionIsRun(
      x: Errand, w: Wire, setup: Setup, st: Link, pin: Option<bytes>, opts: seq<Option<byte>>, ciphertext: bytes)
    returns (cs: seq<Command>)
    requires x == ErrandOf(w, setup, st, pin, opts, ciphertext)
    ensures !x.blocks ==> Session(w, setup, st, pin, opts, ciphertext).1 == None
    ensures IsRun(x, w, st, cs, Session(w, setup, st, pin, opts, ciphertext).0)
  {
    hide Transact, Reset, UseCard, IsRun, IsApdu, Plan;
    PlanIsSmall(setup.autoVoltage, setup.voltages);
    cs := [SlotStatusCommand(0)];
    OneIsRun(x, w, st, SlotStatusCommand(0));
    var (st1, present) := QuerySlot(w, st, 0);
    if present {
      var powering := PoweringIsRun(x, w, st1, Plan(setup.autoVoltage, setup.voltages));
      ResetFollowsPlan(w, st1, 0, setup.autoVoltage, setup.voltages);
      var (st2, atr) := Reset(w, st1, 0, setup.autoVoltage, setup.voltages);
      RunsJoin(x, w, st, cs, st1, powering, st2);
      cs := cs + powering;
      if atr.Some? && atr.value in ATRS && KeySlot(opts, 0).Some? {
        var rest := UseCardIsRun(x, w, st2, KeySlot(opts, 0).value, pin, ciphertext);
        RunsJoin(x, w, st, cs, st2, rest, UseCard(w, st2, KeySlot(opts, 0).value, pin, ciphertext).0);
        cs := cs + rest;
      }
    }
  }

  // On the wire: every packet of every run, octet by octet

  // Type, length, slot 0, number, three parameters; and behind a block's header the APDU.
  predicate IsSaid(x: Errand, p: bytes) {
    && HDR_SIZE <= |p| && p[5] == 0
    && (|| (p[0] == 0x65 && p[1..5] == [0, 0, 0, 0] && p[7..] == [0, 0, 0])
        || (p[0] == 0x62 && p[1..5] == [0, 0, 0, 0] && p[7] <= 3 && p[8..] == [0, 0])
        || (p[0] == 0x6f && x.blocks && p[1..5] == [(|p| - 10) % 256, (|p| - 10) / 256 % 256, 0, 0]
            && p[7..10] == [0, 0, 0] && IsApdu(x, p[10..])))
  }

  ghost predicate SaysOnly(x: Errand, log: Log) {
    forall e <- log | e.BulkOut? :: IsSaid(x, e.pkt)
  }

  lemma LengthOnTheWire(n: nat)
    requires n < 0x1_0000
    ensures LeEncode(n, 4) == [n % 256, n / 256, 0, 0]
  {
    assert LeEncode(0, 2) == [0, 0];
    assert LeEncode(n / 256, 3) == [n / 256] + LeEncode(0, 2);
  }

  lemma ProperIsSaid(x: Errand, st: Link, c: Command)
    requires Proper(x, c)
    ensures IsSaid(x, Packet(st, c))
  {
    hide IsApdu, LeEncode;
    ProperIsShort(x, c);
    var n, p := |c.payload|, Packet(st, c);
    LengthOnTheWire(n);
    assert |p| == 10 + n && p[0] == c.kind && p[5] == c.slot;
    assert p[1..5] == [n % 256, n / 256, 0, 0];
    assert p[7..10] == c.ctl && p[10..] == c.payload;
    if c.payload == [] {
      assert p[7..] == p[7..10] && p[8..] == c.ctl[1..];
    }
  }

  lemma TransactSays(x: Errand, w: Wire, st: Link, c: Command)
    requires SaysOnly(x, st.log) && Proper(x, c)
    ensures SaysOnly(x, Transact(w, st, c).0.log)
  {
    hide Await, IsSaid, Packet, Proper;
    ProperIsSaid(x, st, c);
    var log1 := st.log + [BulkOut(Packet(st, c), Accepts(w.oracle, st.log, Packet(st, c)))];
    AwaitIsDecidedByLast(w, log1, c.slot, st.seqno % 256, c.expected, RETRIES);
  }

  lemma {:induction false} RunSays(x: Errand, w: Wire, st: Link, cs: seq<Command>)
    requires SaysOnly(x, st.log) && forall c <- cs :: Proper(x, c)
    ensures SaysOnly(x, Run(w, st, cs).log)
    decreases |cs|
  {
    hide Transact, SaysOnly, Proper;
    if cs != [] {
      TransactSays(x, w, st, cs[0]);
      RunSays(x, w, Transact(w, st, cs[0]).0, cs[1..]);
    }
  }

  lemma {:induction false} ChooseSays(x: Errand, o: Oracle, log: Log, t: Tree, ss: seq<Slot>)
    requires (forall s <- ss :: InTree(t, s)) && SaysOnly(x, log)
    ensures SaysOnly(x, Choose(o, log, t, ss).0)
    decreases |ss|
  {
    hide Usable, IsSaid;
    if ss != [] {
      assert ss[0] in ss && forall s <- ss[1..] :: s in ss;
      ChooseSays(x, o, log, t, ss[1..]);
      ChooseSays(x, o, Select(o, log, t, ss[0]).0, t, ss[1..]);
    }
  }

  // The set-up that the chosen interface's class descriptor calls for.
  ghost function ChosenSetup(o: Oracle, t: Tree): Option<Setup> {
    var chosen := ChooseInterface(o, [], t).1;
    if chosen.Some? && InTree(t, chosen.value) && Interfaces.At(t, chosen.value).ccid.Some?
    then SetupOf(Interfaces.At(t, chosen.value).ccid.value)
    else None
  }

  ghost function ProgramErrand(
      o: Oracle, t: Tree, pin: Option<bytes>, opts: seq<Option<byte>>, ciphertext: bytes): Errand
  {
    match ChosenSetup(o, t)
    case None => Errand(pin, KeyOf(opts), ciphertext, false)
    case Some(setup) =>
      ErrandOf(Wire(o, setup.max), setup, Link(0, ChooseInterface(o, [], t).0), pin, opts, ciphertext)
  }

  // For every device, every tree, every PIN, options and ciphertext: nothing goes over the wire but
  // these packets, each with the number of commands sent before it, modulo 256, in octet 6.
  lemma ProgramSaysOnly(o: Oracle, t: Tree, pin: Option<bytes>, opts: seq<Option<byte>>, ciphertext: bytes)
    ensures var log := ProgramRun(o, [], t, pin, opts, ciphertext).0;
      var x := ProgramErrand(o, t, pin, opts, ciphertext);
      forall k: nat | k < |log| && log[k].BulkOut? ::
        IsSaid(x, log[k].pkt) && log[k].pkt[6] == SentCount(log[..k]) % 256
  {
    hide Choose, Session, SetupOf, IsSaid, Run, SentCount, Monitor;
    var x := ProgramErrand(o, t, pin, opts, ciphertext);
    var log := ProgramRun(o, [], t, pin, opts, ciphertext).0;
    SlotsAreAll(t, 0, 0);
    ChooseSays(x, o, [], t, Slots(t, 0, 0));
    if ChosenSetup(o, t).Some? {
      var setup, st := ChosenSetup(o, t).value, Link(0, ChooseInterface(o, [], t).0);
      var cs := SessionIsRun(x, Wire(o, setup.max), setup, st, pin, opts, ciphertext);
      RunSays(x, Wire(o, setup.max), st, cs);
    }
    RunIsSafe(o, t, pin, opts, ciphertext);
    SafeIsNumbered(pin.Some?, log);
    assert forall k: nat | k < |log| && log[k].BulkOut? :: log[k] in log;
  }

  // The receive loop behind the command at k, as it is written, lets go of a null response.
  ghost predicate LoopFails(w: Wire, log: Log, k: nat) {
    && k < |log| && log[k].BulkOut? && log[k].ok && Sent(log[k]).Some?
    && var m := Sent(log[k]).value;
       AwaitAsWritten(w, log[..k + 1], m.slot, m.seqno, Expected(m.kind), RETRIES).1 == NullAccess
  }

  ghost predicate FailsIffCut(w: Wire, log: Log) {
    (exists k: nat :: LoopFails(w, log, k)) <==> exists e <- log :: !Whole(e)
  }

  // Events that are neither a command sent nor a packet received change nothing.
  lemma QuietStep(w: Wire, log: Log, e: Event)
    requires FailsIffCut(w, log) && !e.BulkIn? && (e.BulkOut? ==> !e.ok)
    ensures FailsIffCut(w, log + [e])
  {
    hide AwaitAsWritten, Sent;
    var log' := log + [e];
    forall k: nat
      ensures LoopFails(w, log', k) <==> LoopFails(w, log, k)
    {
      assert k < |log| ==> log'[..k + 1] == log[..k + 1];
    }
    assert forall x :: !Whole(x) ==> (x in log' <==> x in log);
  }

  // A command that is sent, and the packets received for it.
  lemma LoopStep(w: Wire, log: Log, e: Event, ins: Log)
    requires FailsIffCut(w, log) && (forall x <- ins :: x.BulkIn?)
    requires LoopFails(w, log + [e], |log|) <==> exists x <- ins :: !Whole(x)
    requires e.BulkOut?
    ensures FailsIffCut(w, log + [e] + ins)
  {
    hide AwaitAsWritten, Sent, ParseFrame;
    var log1 := log + [e];
    var log' := log1 + ins;
    assert log'[..|log| + 1] == log1 && log1[..|log| + 1] == log1;
    forall k: nat | k < |log|
      ensures LoopFails(w, log', k) <==> LoopFails(w, log, k)
    {
      assert log'[..k + 1] == log[..k + 1];
    }
    assert LoopFails(w, log', |log|) <==> LoopFails(w, log1, |log|);
    forall k: nat | |log| < k < |log'|
      ensures !LoopFails(w, log', k)
    {
      assert log'[k] in ins;
    }
    assert forall x :: x in log' <==> x in log || x == e || x in ins;
  }

  lemma ProperIsShort(x: Errand, c: Command)
    requires Proper(x, c)
    ensures |c.payload| <= 0x104 && c.expected == Expected(c.kind)
  {
  }

  lemma TransactFailsIffCut(x: Errand, w: Wire, st: Link, c: Command)
    requires FailsIffCut(w, st.log) && Proper(x, c)
    ensures FailsIffCut(w, Transact(w, st, c).0.log)
  {
    hide Await, AwaitAsWritten, FailsIffCut, Frame, ParseFrame, Whole, IsApdu;
    ProperIsShort(x, c);
    var seqno := st.seqno % 256;
    var m := Message(c.kind, c.slot, seqno, c.ctl, c.payload);
    var pkt := Packet(st, c);
    FrameRoundTrip(m, []);
    assert Frame(m) + [] == pkt;
    var e := BulkOut(pkt, Accepts(w.oracle, st.log, pkt));
    var log1 := st.log + [e];
    if e.ok {
      var log' := Await(w, log1, c.slot, seqno, c.expected, RETRIES).0;
      WrittenIsIntendedIffWhole(w, log1, c.slot, seqno, c.expected, RETRIES);
      AwaitIsDecidedByLast(w, log1, c.slot, seqno, c.expected, RETRIES);
      assert log1[..|st.log| + 1] == log1;
      assert log' == log1 + log'[|log1|..];
      LoopStep(w, st.log, e, log'[|log1|..]);
    } else {
      QuietStep(w, st.log, e);
    }
  }

  lemma {:induction false} RunFailsIffCut(x: Errand, w: Wire, st: Link, cs: seq<Command>)
    requires FailsIffCut(w, st.log) && forall c <- cs :: Proper(x, c)
    ensures FailsIffCut(w, Run(w, st, cs).log)
    decreases |cs|
  {
    hide Transact, FailsIffCut, Proper;
    if cs != [] {
      TransactFailsIffCut(x, w, st, cs[0]);
      RunFailsIffCut(x, w, Transact(w, st, cs[0]).0, cs[1..]);
    }
  }

  lemma {:induction false} ChooseFailsIffCut(w: Wire, o: Oracle, log: Log, t: Tree, ss: seq<Slot>)
    requires (forall s <- ss :: InTree(t, s)) && FailsIffCut(w, log)
    ensures FailsIffCut(w, Choose(o, log, t, ss).0)
    decreases |ss|
  {
    hide Usable, FailsIffCut;
    if ss != [] {
      assert ss[0] in ss && forall s <- ss[1..] :: s in ss;
      var c, i := t.configs[ss[0].config], Interfaces.At(t, ss[0]);
      var value, number := c.descriptor.bConfigurationValue, i.descriptor.bInterfaceNumber;
      var log1 := log + [SetConfiguration(value, o.configures(log, value))];
      QuietStep(w, log, SetConfiguration(value, o.configures(log, value)));
      QuietStep(w, log, ClaimInterface(number, o.claims(log, number)));
      QuietStep(w, log1, ClaimInterface(number, o.claims(log1, number)));
      ChooseFailsIffCut(w, o, log, t, ss[1..]);
      ChooseFailsIffCut(w, o, Select(o, log, t, ss[0]).0, t, ss[1..]);
    }
  }

  // The whole program, on every device: some receive loop as it is written fails exactly if some
  // packet that is received does not hold a whole message.
  lemma RunFailsAsWrittenIffCut(
      o: Oracle, t: Tree, max: u32, pin: Option<bytes>, opts: seq<Option<byte>>, ciphertext: bytes)
    requires ChosenSetup(o, t).Some? ==> max == ChosenSetup(o, t).value.max
    ensures var log := ProgramRun(o, [], t, pin, opts, ciphertext).0;
      (exists k: nat :: LoopFails(Wire(o, max), log, k)) <==> exists e <- log :: !Whole(e)
  {
    hide Choose, Session, SetupOf, LoopFails, Whole, Run;
    var w := Wire(o, max);
    NothingFails(w);
    SlotsAreAll(t, 0, 0);
    ChooseFailsIffCut(w, o, [], t, Slots(t, 0, 0));
    if ChosenSetup(o, t).Some? {
      var setup, st := ChosenSetup(o, t).value, Link(0, ChooseInterface(o, [], t).0);
      var x := ProgramErrand(o, t, pin, opts, ciphertext);
      var cs := SessionIsRun(x, w, setup, st, pin, opts, ciphertext);
      RunFailsIffCut(x, w, st, cs);
    }
  }

  lemma NothingFails(w: Wire)
    ensures FailsIffCut(w, [])
  {
  }
}
