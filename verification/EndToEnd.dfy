/**
 A decryption from end to end: the driver against a card that keeps its word, through a reader
 that may hand over a few packets too many.
 */
module EndToEnd {
  import opened Bytes
  import opened Usb
  import opened CcidFrames
  import opened CcidTransport
  import opened CcidReaders
  import opened Scard
  import opened PivCodec
  import opened PivDriver
  import opened PivCards
  import opened Sessions
  import opened Safety
  import opened SafetyMeaning

  const MAX_NOISE: nat := 5

  // What a command is owed: that there is a card, active (0) or inactive (1), the card's ATR, or
  // its reply, data first.
  datatype Due = StatusDue | AtrDue(atr: bytes) | ReplyDue(reply: Reply)

  predicate Pays(due: Due, m: Message) {
    match due
    case StatusDue => m.ctl[0] % 4 == 0 || m.ctl[0] % 4 == 1
    case AtrDue(atr) => m.payload == atr
    case ReplyDue(reply) => m.payload == reply.data + [reply.sw / 256, reply.sw % 256]
  }

  // The type of such a response, table 6.2-1 of the USB CCID specification Rev 1.1.
  function TypeOf(due: Due): byte {
    if due.StatusDue? then 0x81 else 0x80
  }

  // After at most `noise` packets that are none of this command's, or ask for more time, comes
  // what is due.
  ghost predicate AnswersSoon(w: Wire, log: Log, slot: byte, seqno: byte, due: Due, noise: nat)
    decreases noise
  {
    match NextPacket(w.oracle, w.max, log)
    case None => false
    case Some(p) =>
      if IsSuccess(slot, seqno, TypeOf(due), p) then Pays(due, MessageOf(p))
      else if RespondsTo(slot, seqno, p) && !IsExtension(slot, seqno, TypeOf(due), p) then false
      else noise > 0 && AnswersSoon(w, log + [BulkIn(Some(p))], slot, seqno, due, noise - 1)
  }

  ghost predicate Obeys(w: Wire, st: Link, c: Command, due: Due) {
    && Accepts(w.oracle, st.log, Packet(st, c))
    && AnswersSoon(w, st.log + [BulkOut(Packet(st, c), true)], c.slot, st.seqno % 256, due, MAX_NOISE)
  }

  ghost predicate ServesAt(w: Wire, c: CardModel, st: Link, slot: byte, apdu: bytes) {
    Obeys(w, st, BlockCommand(slot, apdu), ReplyDue(CardStep(c, CardRun(c, st.log), apdu).1))
  }

  // From `base` on the device takes every block and answers it as the card does.
  ghost predicate Serves(w: Wire, c: CardModel, base: Log) {
    forall st: Link, slot: byte, apdu: bytes | base <= st.log && |apdu| <= 0x104 :: ServesAt(w, c, st, slot, apdu)
  }

  // Polling does not reach the card.
  lemma {:induction false} AwaitKeepsCard(
      w: Wire, c: CardModel, log: Log, slot: byte, seqno: byte, expected: byte, retries: nat)
    ensures var log' := Await(w, log, slot, seqno, expected, retries).0;
      log <= log' && CardRun(c, log') == CardRun(c, log) && forall e <- log'[|log|..] :: !e.BulkOut?
    decreases retries
  {
    hide Judge, CardRun;
    if retries == 0 {
      assert log[|log|..] == [];
    } else {
      var got := NextPacket(w.oracle, w.max, log);
      var log1, log' := log + [BulkIn(got)], Await(w, log, slot, seqno, expected, retries).0;
      CardRunStep(c, log, BulkIn(got));
      AwaitKeepsCard(w, c, log1, slot, seqno, expected, retries - 1);
      assert log1[|log|..] == [BulkIn(got)];
      assert log1 <= log' ==> log'[|log|..] == [BulkIn(got)] + log'[|log1|..];
    }
  }

  lemma {:induction false} AwaitServed(w: Wire, log: Log, slot: byte, seqno: byte, due: Due, noise: nat)
    requires AnswersSoon(w, log, slot, seqno, due, noise)
    ensures var resp := Await(w, log, slot, seqno, TypeOf(due), noise + 1).1;
      resp.Some? && Pays(due, resp.value)
    decreases noise
  {
    hide Judge, Pays, TypeOf;
    var p := NextPacket(w.oracle, w.max, log).value;
    JudgedOnOctets(slot, seqno, TypeOf(due), p);
    if noise > 0 && Judge(slot, seqno, TypeOf(due), p) == Ignore {
      AwaitServed(w, log + [BulkIn(Some(p))], slot, seqno, due, noise - 1);
    }
  }

  // What is sent on the way from one log to another: this command, and nothing else.
  ghost predicate SendsOnly(log: Log, log': Log, kind: byte, payload: bytes) {
    && log <= log'
    && forall e <- log'[|log|..] | e.BulkOut? ::
         Sent(e).Some? && Sent(e).value.kind == kind && Sent(e).value.payload == payload
  }

  lemma TransactServed(w: Wire, card: CardModel, st: Link, c: Command, due: Due)
    requires Obeys(w, st, c, due) && c.expected == TypeOf(due) && |c.payload| <= 0x104
    ensures var (st', resp) := Transact(w, st, c);
      && resp.Some? && Pays(due, resp.value)
      && SendsOnly(st.log, st'.log, c.kind, c.payload)
      && CardRun(card, st'.log) ==
           Hear(card, CardRun(card, st.log), c.kind, c.payload)
  {
    hide Hear, Await, AnswersSoon, CardStep, CardRun, Frame, ParseFrame, Pays;
    var seqno := st.seqno % 256;
    var m := Message(c.kind, c.slot, seqno, c.ctl, c.payload);
    FrameRoundTrip(m, []);
    assert Frame(m) + [] == Packet(st, c);
    var e := BulkOut(Packet(st, c), true);
    var log := st.log + [e];
    CardRunStep(card, st.log, e);
    AwaitServed(w, log, c.slot, seqno, due, MAX_NOISE);
    AwaitKeepsCard(w, card, log, c.slot, seqno, c.expected, RETRIES);
    var log' := Await(w, log, c.slot, seqno, c.expected, RETRIES).0;
    assert log'[|st.log|..] == [e] + log'[|log|..];
  }

  lemma TransmitServed(w: Wire, c: CardModel, base: Log, st: Link, slot: byte, apdu: bytes)
    requires Serves(w, c, base) && base <= st.log && |apdu| <= 0x104
    ensures var (s', reply) := CardStep(c, CardRun(c, st.log), apdu);
      var (st', r) := Transmit(w, st, slot, apdu);
      && r == Some(reply) && base <= st'.log && CardRun(c, st'.log) == s'
      && SendsOnly(st.log, st'.log, CMD_XFRBLOCK, apdu)
  {
    hide Transact, Obeys, CardStep, CardRun, SendsOnly;
    var reply := CardStep(c, CardRun(c, st.log), apdu).1;
    assert ServesAt(w, c, st, slot, apdu);
    TransactServed(w, c, st, BlockCommand(slot, apdu), ReplyDue(reply));
    SplitStatusOfReply(reply);
    SendsOnlyExtends(st.log, Transmit(w, st, slot, apdu).0.log, CMD_XFRBLOCK, apdu);
  }

  lemma SendsOnlyExtends(log: Log, log': Log, kind: byte, payload: bytes)
    requires SendsOnly(log, log', kind, payload)
    ensures log <= log'
  {
  }

  // Whatever the fragments, GET RESPONSE fetches them all.
  lemma {:induction false} CollectServed(w: Wire, c: CardModel, base: Log, st: Link, slot: byte, got: Reply, room: nat)
    requires Serves(w, c, base) && base <= st.log
    requires var q := CardRun(c, st.log).queue; Fetchable(q) && got.sw == Announce(q) && |Flatten(q)| <= room
    ensures var s := CardRun(c, st.log);
      var (st', r) := Collect(w, st, slot, got, room);
      && r == Some(Reply(got.data + Flatten(s.queue), SW_SUCCESS))
      && base <= st'.log && CardRun(c, st'.log) == s.(queue := [])
    decreases room
  {
    hide Transmit, CardRun, CardStep, Serves, SendsOnly;
    var s := CardRun(c, st.log);
    var q := s.queue;
    if q == [] {
      assert got.data + [] == got.data;
    } else {
      GetResponseIsUnderstood(c, s, got.sw);
      TransmitServed(w, c, base, st, slot, GetResponse(got.sw));
      var (st1, r) := Transmit(w, st, slot, GetResponse(got.sw));
      assert r == Some(Reply(q[0], Announce(q[1..])));
      assert |Flatten(q)| == |q[0]| + |Flatten(q[1..])| && |q[0]| == Advertised(got.sw);
      assert Fetchable(q[1..]);
      CollectServed(w, c, base, st1, slot, Reply(got.data + q[0], r.value.sw), room - |q[0]|);
      assert (got.data + q[0]) + Flatten(q[1..]) == got.data + Flatten(q);
    }
  }

  lemma ExchangeServed(w: Wire, c: CardModel, base: Log, st: Link, slot: byte, apdu: bytes)
    requires Serves(w, c, base) && base <= st.log && |apdu| <= 0x104
    requires var (s', reply) := CardStep(c, CardRun(c, st.log), apdu);
      && Fetchable(s'.queue) && reply.sw == Announce(s'.queue)
      && HDR_SIZE + |reply.data + Flatten(s'.queue)| <= Capacity(w.max)
    ensures var (s', reply) := CardStep(c, CardRun(c, st.log), apdu);
      var (st', r) := ExchangeCard(w, st, slot, apdu);
      && r == Some(Reply(reply.data + Flatten(s'.queue), SW_SUCCESS))
      && base <= st'.log && CardRun(c, st'.log) == s'.(queue := [])
  {
    hide Transmit, CardRun, CardStep, Serves, SendsOnly;
    TransmitServed(w, c, base, st, slot, apdu);
    var (st1, r) := Transmit(w, st, slot, apdu);
    CollectServed(w, c, base, st1, slot, r.value, Room(w, |r.value.data|));
  }

  // A reply that announces no more is all there is, and nothing but the command is sent.
  lemma ExchangeAnswered(w: Wire, c: CardModel, base: Log, st: Link, slot: byte, apdu: bytes)
    requires Serves(w, c, base) && base <= st.log && |apdu| <= 0x104
    requires !More(CardStep(c, CardRun(c, st.log), apdu).1.sw)
    ensures var (s', reply) := CardStep(c, CardRun(c, st.log), apdu);
      var (st', r) := ExchangeCard(w, st, slot, apdu);
      && r == Some(reply) && base <= st'.log && CardRun(c, st'.log) == s'
      && SendsOnly(st.log, st'.log, CMD_XFRBLOCK, apdu)
  {
    hide Transmit, CardRun, CardStep, Serves, SendsOnly;
    TransmitServed(w, c, base, st, slot, apdu);
  }

  // What the card makes of the driver's commands

  lemma SelectIsUnderstood(c: CardModel, s: CardState)
    ensures CardStep(c, s, SelectApdu()) == (Restart(s), Reply([], SW_SUCCESS))
  {
    var apdu := SelectApdu();
    assert apdu[..4] == [0x00, 0xa4, 0x04, 0x00] && apdu[5..] == [0xa0, 0x00, 0x00, 0x03, 0x08];
  }

  lemma VerifyIsUnderstood(c: CardModel, s: CardState, pin: Option<bytes>)
    requires pin.Some? ==> |pin.value| <= PIN_SIZE
    ensures CardStep(c, s, VerifyApdu(pin)) ==
      VerifyStep(c, s, if pin.Some? then pin.value + Fill(8 - |pin.value|) else [])
  {
    hide VerifyStep;
    var apdu := VerifyApdu(pin);
    assert apdu[..4] == [0x00, 0x20, 0x00, 0x80];
    if pin.Some? {
      assert apdu[5..] == PaddedPin(pin.value) == pin.value + Fill(8 - |pin.value|);
    } else {
      assert apdu[5..] == [];
    }
  }

  lemma FragmentIsUnderstood(c: CardModel, s: CardState, algorithm: byte, key: byte, f: Fragment)
    requires 1 <= |f.data| <= 0xFF && f.cla in {0x00, 0x10}
    ensures CardStep(c, s, FragmentApdu(algorithm, key, f)) ==
      if algorithm == Reference(c.rsa) && key == c.key then KeyStep(c, s, f.cla == 0x10, f.data)
      else (s.(acc := [], queue := []), Reply([], SW_INCORRECT_P1_P2))
  {
    hide KeyStep, Reference;
    var apdu := FragmentApdu(algorithm, key, f);
    assert apdu[..4][1] == 0x87 && apdu[5..] == f.data && apdu[4] == |f.data|;
  }

  lemma GetResponseIsUnderstood(c: CardModel, s: CardState, sw: u16)
    ensures CardStep(c, s, GetResponse(sw)) == FetchStep(s, sw % 256)
  {
    hide FetchStep;
    assert GetResponse(sw)[..4] == [0x00, 0xc0, 0x00, 0x00];
  }

  // The card joins what the driver split, and answers it when it is complete.
  lemma {:induction false} SendAllServed(
      w: Wire, c: CardModel, base: Log, st: Link, slot: byte, algorithm: byte, key: byte,
      data: bytes, ct: bytes, last: Option<Reply>)
    requires Serves(w, c, base) && base <= st.log && data != []
    requires MayUseKey(c, CardRun(c, st.log)) && algorithm == Reference(c.rsa) && key == c.key
    requires |ct| == Modulus(c.rsa) && ReadTemplate(CardRun(c, st.log).acc + data) == Some(ct)
    requires Cuts(c, Wrap(c.decrypt(ct))) && HDR_SIZE + |Wrap(c.decrypt(ct))| <= Capacity(w.max)
    ensures forall f <- Fragments(data) :: |f.data| <= 0xFF
    ensures var (st', r) := SendAll(w, st, slot, algorithm, key, Fragments(data), last);
      && r == Some(Reply(Wrap(c.decrypt(ct)), SW_SUCCESS))
      && CardRun(c, st'.log) == CardRun(c, st.log).(acc := [], queue := [])
    decreases |data|
  {
    hide ExchangeCard, CardRun, CardStep, Serves, ReadTemplate, Wrap, Reference, Modulus;
    FragmentsFit(data);
    FirstFragment(data);
    var s, fs := CardRun(c, st.log), Fragments(data);
    var apdu := FragmentApdu(algorithm, key, fs[0]);
    FragmentIsUnderstood(c, s, algorithm, key, fs[0]);
    if |data| <= 0xFF {
      var parts := c.cut(Wrap(c.decrypt(ct)));
      assert fs == [Fragment(0x00, data)];
      assert CardStep(c, s, apdu) == (s.(acc := [], queue := parts[1..]), Reply(parts[0], Announce(parts[1..])));
      assert Flatten(parts) == parts[0] + Flatten(parts[1..]);
      ExchangeServed(w, c, base, st, slot, apdu);
    } else {
      assert fs[1..] == Fragments(data[0xFF..]);
      assert CardStep(c, s, apdu) == (s.(acc := s.acc + data[..0xFF], queue := []), Reply([], SW_SUCCESS));
      ExchangeServed(w, c, base, st, slot, apdu);
      var (st1, r) := ExchangeCard(w, st, slot, apdu);
      assert (s.acc + data[..0xFF]) + data[0xFF..] == s.acc + data;
      SendAllServed(w, c, base, st1, slot, algorithm, key, data[0xFF..], ct, r);
    }
  }

  // What the theorems ask of the card and the response to this ciphertext.
  ghost predicate Suits(w: Wire, c: CardModel, log: Log, ciphertext: bytes, ps: bytes, message: bytes) {
    && Serves(w, c, log)
    && |ciphertext| == Modulus(c.rsa)
    && c.decrypt(ciphertext) == Pad(ps, message) && 0 !in ps && |Pad(ps, message)| + 4 < 0x1_0000
    && Cuts(c, Wrap(Pad(ps, message))) && HDR_SIZE + |Wrap(Pad(ps, message))| <= Capacity(w.max)
  }

  // The whole way: chaining, the template, GET RESPONSE, unwrapping and unpadding, for any key
  // operation, any padding, any message, any cut of the response and up to five packets to ignore
  // before each answer.
  lemma DecipherReturnsMessage(
      w: Wire, c: CardModel, st: Link, slot: byte, key: byte, ciphertext: bytes, ps: bytes, message: bytes)
    requires Suits(w, c, st.log, ciphertext, ps, message)
    requires CardRun(c, st.log).acc == [] && MayUseKey(c, CardRun(c, st.log)) && key == c.key
    ensures var (st', m) := Decipher(w, st, slot, key, ciphertext);
      m == Some(message) && CardRun(c, st'.log).tries == CardRun(c, st.log).tries
  {
    hide Serves, SendAll, CardRun, Template, ReadTemplate, Wrap, Pad, HeaderSize, PaddingSize;
    var template, padded := Template(ciphertext), Pad(ps, message);
    assert ciphertext[..|ciphertext|] == ciphertext;
    TemplateRoundTrip(ciphertext);
    TemplateParts(ciphertext);
    assert [] + template == template;
    SendAllServed(w, c, st.log, st, slot, Algorithm(|ciphertext|).value, key, template, ciphertext, None);
    WrapRoundTrip(padded);
    UnpadOfPad(ps, message);
  }

  // A card that does not let the key be used, or has no such key, says so to the first fragment,
  // and that is the end.
  lemma DecipherIsRefused(w: Wire, c: CardModel, st: Link, slot: byte, key: byte, ciphertext: bytes)
    requires Serves(w, c, st.log)
    requires !MayUseKey(c, CardRun(c, st.log)) || key != c.key || ToU32(|ciphertext|) != Modulus(c.rsa)
    ensures var (st', m) := Decipher(w, st, slot, key, ciphertext);
      m == None && CardRun(c, st'.log).tries == CardRun(c, st.log).tries
  {
    hide Serves, ExchangeCard, CardRun, CardStep, Template, Unwrap, SendsOnly;
    var n := ToU32(|ciphertext|);
    if Algorithm(n).Some? {
      var template := Template(ciphertext[..n]);
      TemplateParts(ciphertext[..n]);
      FragmentsFit(template);
      FirstFragment(template);
      var f := Fragments(template)[0];
      FragmentIsUnderstood(c, CardRun(c, st.log), Algorithm(n).value, key, f);
      var apdu := FragmentApdu(Algorithm(n).value, key, f);
      assert CardStep(c, CardRun(c, st.log), apdu).1.sw in {SW_NOT_VERIFIED, SW_INCORRECT_P1_P2};
      ExchangeAnswered(w, c, st.log, st, slot, apdu);
    }
  }

  ghost predicate NoAuthenticate(log: Log, log': Log) {
    log <= log' && forall e <- log'[|log|..] :: !SendsAuthenticate(e)
  }

  lemma NoneSent(log: Log, log': Log, apdu: bytes)
    requires SendsOnly(log, log', CMD_XFRBLOCK, apdu) && !IsAuthenticate(apdu)
    ensures NoAuthenticate(log, log')
  {
    hide IsAuthenticate;
  }

  lemma NoneSentAfter(log: Log, log1: Log, log2: Log)
    requires NoAuthenticate(log, log1) && NoAuthenticate(log1, log2)
    ensures NoAuthenticate(log, log2)
  {
    hide SendsAuthenticate;
    assert log2[|log|..] == log1[|log|..] + log2[|log1|..];
  }

  lemma ServesLater(w: Wire, c: CardModel, base: Log, later: Log)
    requires Serves(w, c, base) && base <= later
    ensures Serves(w, c, later)
  {
    hide ServesAt;
  }

  // Connecting restarts the application, and costs no try.
  lemma ConnectServed(w: Wire, c: CardModel, st: Link)
    requires Serves(w, c, st.log)
    ensures var (st', connection) := Connect(w, st, 0);
      && connection == Connected(c.pin.Some?)
      && Serves(w, c, st'.log) && CardRun(c, st'.log) == Restart(CardRun(c, st.log))
      && NoAuthenticate(st.log, st'.log)
  {
    hide ExchangeCard, CardRun, CardStep, Serves, SendsOnly, NoAuthenticate;
    var s := CardRun(c, st.log);
    SelectIsUnderstood(c, s);
    ExchangeAnswered(w, c, st.log, st, 0, SelectApdu());
    var st1 := ExchangeCard(w, st, 0, SelectApdu()).0;
    VerifyIsUnderstood(c, CardRun(c, st1.log), None);
    ExchangeAnswered(w, c, st.log, st1, 0, VerifyApdu(None));
    var st2 := ExchangeCard(w, st1, 0, VerifyApdu(None)).0;
    NoneSent(st.log, st1.log, SelectApdu());
    NoneSent(st1.log, st2.log, VerifyApdu(None));
    NoneSentAfter(st.log, st1.log, st2.log);
    ServesLater(w, c, st.log, st2.log);
  }

  // A PIN is verified exactly if the card admits it, and after a wrong one the tries left are told.
  lemma VerifyServed(w: Wire, c: CardModel, st: Link, pin: bytes)
    requires Serves(w, c, st.log)
    ensures var s := CardRun(c, st.log);
      var (st', r) := Verify(w, st, 0, Some(pin));
      && (Success(r) <==> Admits(c, s, Some(pin)))
      && TriesLeft(r) == (if |pin| <= 8 && s.tries > 0 && !Success(r) then Some(Min(s.tries - 1, 15)) else None)
      && CardRun(c, st'.log) == s.(
           tries := TriesAfter(c, s, Some(pin)),
           verified := if c.pin == None || |pin| > PIN_SIZE || s.tries == 0 then s.verified else Success(r))
      && Serves(w, c, st'.log) && NoAuthenticate(st.log, st'.log)
  {
    hide ExchangeCard, CardRun, CardStep, Serves, SendsOnly, NoAuthenticate;
    if |pin| <= PIN_SIZE {
      var apdu := VerifyApdu(Some(pin));
      VerifyIsUnderstood(c, CardRun(c, st.log), Some(pin));
      ExchangeAnswered(w, c, st.log, st, 0, apdu);
      var st1 := ExchangeCard(w, st, 0, apdu).0;
      NoneSent(st.log, st1.log, apdu);
      ServesLater(w, c, st.log, st1.log);
    } else {
      NothingSent(st.log);
    }
  }

  lemma NothingSent(log: Log)
    ensures NoAuthenticate(log, log)
  {
  }

  // A PIN that is wrong, too long or out of tries, or none where one is needed: no cleartext, for
  // any ciphertext; at most one try is spent, none if none was presented; and with a PIN given
  // the key is not even asked for. Nor is there a cleartext if the card has no such key.
  lemma UseCardRefuses(w: Wire, c: CardModel, st: Link, key: byte, pin: Option<bytes>, ciphertext: bytes)
    requires Serves(w, c, st.log)
    requires !Admits(c, CardRun(c, st.log), pin) || !HasKey(c, key, ToU32(|ciphertext|))
    ensures var s := CardRun(c, st.log);
      var (st', m) := UseCard(w, st, key, pin, ciphertext);
      && m == None
      && CardRun(c, st'.log).tries == TriesAfter(c, s, pin)
      && (!Admits(c, s, pin) ==> TriesAfter(c, s, pin) >= if pin.Some? then s.tries - 1 else s.tries)
      && (!Admits(c, s, pin) && pin.Some? ==> NoAuthenticate(st.log, st'.log))
  {
    hide CardRun, Serves, Connect, Verify, Decipher, NoAuthenticate;
    ConnectServed(w, c, st);
    var st3 := Connect(w, st, 0).0;
    if pin.Some? {
      VerifyServed(w, c, st3, pin.value);
      var (st4, r) := Verify(w, st3, 0, pin);
      NoneSentAfter(st.log, st3.log, st4.log);
      if Success(r) {
        DecipherIsRefused(w, c, st4, 0, EffectiveKey(key), ciphertext);
      }
    } else {
      DecipherIsRefused(w, c, st3, 0, EffectiveKey(key), ciphertext);
    }
  }

  // On an identified card the run ends with the message exactly if the card admits the PIN given,
  // or admits that none is given, and has the key asked for; the tries are what that costs.
  lemma UseCardReturnsMessage(
      w: Wire, c: CardModel, st: Link, key: byte, pin: Option<bytes>, ciphertext: bytes, ps: bytes, message: bytes)
    requires Suits(w, c, st.log, ciphertext, ps, message)
    ensures var s := CardRun(c, st.log);
      var (st', m) := UseCard(w, st, key, pin, ciphertext);
      && m == (if Admits(c, s, pin) && HasKey(c, key, |ciphertext|) then Some(message) else None)
      && CardRun(c, st'.log).tries == TriesAfter(c, s, pin)
  {
    hide CardRun, Serves, Connect, Verify, Decipher, NoAuthenticate, Pad, Wrap, Cuts;
    if Admits(c, CardRun(c, st.log), pin) && HasKey(c, key, |ciphertext|) {
      ConnectServed(w, c, st);
      var st3 := Connect(w, st, 0).0;
      if pin.Some? {
        VerifyServed(w, c, st3, pin.value);
        var st4 := Verify(w, st3, 0, pin).0;
        DecipherReturnsMessage(w, c, st4, 0, EffectiveKey(key), ciphertext, ps, message);
      } else {
        DecipherReturnsMessage(w, c, st3, 0, EffectiveKey(key), ciphertext, ps, message);
      }
    } else {
      UseCardRefuses(w, c, st, key, pin, ciphertext);
    }
  }
}
