/**
 A card that keeps its word: it joins chained commands, performs its key operation, hands over
 long responses in pieces, and guards the key with a PIN and a counter of tries if it has a PIN.
 */
module PivCards {
  import opened Bytes
  import opened Usb
  import opened CcidFrames
  import opened Scard
  import opened PivCodec

  // Everything the card looks at is written here octet by octet, after NIST SP 800-73-4 Part 2 and
  // ISO/IEC 7816-4: it shares no constant with the driver.

  const SW_OK: u16 := 0x9000
  const SW_WRONG_LENGTH: u16 := 0x6700
  const SW_NOT_VERIFIED: u16 := 0x6982
  const SW_BLOCKED: u16 := 0x6983
  const SW_NOTHING_LEFT: u16 := 0x6985
  const SW_INCORRECT_PARAM: u16 := 0x6a80
  const SW_NOT_FOUND: u16 := 0x6a82
  const SW_INCORRECT_P1_P2: u16 := 0x6a86
  const SW_WRONG_LE: u16 := 0x6c00
  const SW_UNKNOWN_INSTRUCTION: u16 := 0x6d00

  type PinBlock = b: bytes | |b| == 8 witness [0, 0, 0, 0, 0, 0, 0, 0]

  datatype Rsa = Rsa1024 | Rsa2048

  // Table 6-2 of NIST SP 800-78-4
  function Reference(rsa: Rsa): byte {
    match rsa
    case Rsa1024 => 0x06
    case Rsa2048 => 0x07
  }

  function Modulus(rsa: Rsa): nat {
    match rsa
    case Rsa1024 => 128
    case Rsa2048 => 256
  }

  /**
   The key: its reference, its size, and its operation, which is arbitrary, as is how the card cuts
   a response. The PIN if the card has one, and whether the key may be used without it; the tries it
   grants, and those left at the start.
   */
  datatype CardModel = CardModel(
    key: byte, rsa: Rsa, decrypt: bytes -> bytes, cut: bytes -> seq<bytes>, atr: bytes,
    pin: Option<PinBlock>, open: bool, tries: nat, left: nat)

  // The chained data so far, and the fragments of a response not fetched yet; whether the PIN was
  // presented, and the tries left; whether there is power.
  datatype CardState = CardState(acc: bytes, queue: seq<bytes>, verified: bool, tries: nat, powered: bool)

  ghost predicate Cuts(c: CardModel, r: bytes) {
    var parts := c.cut(r);
    parts != [] && Flatten(parts) == r && Fetchable(parts[1..])
  }

  predicate Fetchable(queue: seq<bytes>) {
    forall i | 0 <= i < |queue| :: 1 <= |queue[i]| <= 256
  }

  function Announce(queue: seq<bytes>): u16 {
    if queue == [] then SW_OK else 0x6100 + |queue[0]| % 256
  }

  // Status 63Cx
  function Refusal(tries: nat): u16 {
    0x63C0 + Min(tries, 15)
  }

  // Without data the card is only asked; every wrong PIN costs a try.
  function VerifyStep(c: CardModel, s: CardState, data: bytes): (CardState, Reply) {
    if c.pin.None? then (s, Reply([], SW_OK))
    else if data == [] then (s, Reply([], if s.verified then SW_OK else Refusal(s.tries)))
    else if s.tries == 0 then (s, Reply([], SW_BLOCKED))
    else if data == c.pin.value then (s.(verified := true, tries := c.tries), Reply([], SW_OK))
    else (s.(verified := false, tries := s.tries - 1), Reply([], Refusal(s.tries - 1)))
  }

  predicate MayUseKey(c: CardModel, s: CardState) {
    c.open || c.pin.None? || s.verified
  }

  function KeyStep(c: CardModel, s: CardState, chained: bool, data: bytes): (CardState, Reply) {
    var acc, s' := s.acc + data, s.(acc := [], queue := []);
    if !MayUseKey(c, s) then (s', Reply([], SW_NOT_VERIFIED))
    else if chained then (s'.(acc := acc), Reply([], SW_OK))
    else match ReadTemplate(acc)
      case None => (s', Reply([], SW_INCORRECT_PARAM))
      case Some(ct) =>
        var parts := c.cut(Wrap(c.decrypt(ct)));
        if |ct| != Modulus(c.rsa) || parts == [] then (s', Reply([], SW_INCORRECT_PARAM))
        else (s'.(queue := parts[1..]), Reply(parts[0], Announce(parts[1..])))
  }

  // The next piece, if just that much is asked for; 00 stands for 256.
  function FetchStep(s: CardState, le: byte): (CardState, Reply) {
    if s.queue == [] then (s, Reply([], SW_NOTHING_LEFT))
    else if le != |s.queue[0]| % 256 then (s, Reply([], SW_WRONG_LE + |s.queue[0]| % 256))
    else (s.(queue := s.queue[1..]), Reply(s.queue[0], Announce(s.queue[1..])))
  }

  // Selecting the application and powering on both forget that the PIN was presented.
  function Restart(s: CardState): CardState {
    CardState([], [], false, s.tries, s.powered)
  }

  function CardStep(c: CardModel, s: CardState, apdu: bytes): (CardState, Reply) {
    if |apdu| < 5 then (s, Reply([], SW_WRONG_LENGTH))
    else if apdu[..4] == [0x00, 0xc0, 0x00, 0x00] then FetchStep(s, apdu[4])
    else if |apdu| - 5 != apdu[4] then (s, Reply([], SW_WRONG_LENGTH))
    else
      var data := apdu[5..];
      if apdu[..4] == [0x00, 0xa4, 0x04, 0x00] then
        if data == [0xa0, 0x00, 0x00, 0x03, 0x08] then (Restart(s), Reply([], SW_OK)) else (s, Reply([], SW_NOT_FOUND))
      else if apdu[..4] == [0x00, 0x20, 0x00, 0x80] then VerifyStep(c, s, data)
      else if apdu[0] in {0x00, 0x10} && apdu[1] == 0x87 then
        if apdu[2] != Reference(c.rsa) || apdu[3] != c.key then (s.(acc := [], queue := []), Reply([], SW_INCORRECT_P1_P2))
        else KeyStep(c, s, apdu[0] == 0x10, data)
      else (s, Reply([], SW_UNKNOWN_INSTRUCTION))
  }

  // Power-on is command 62 of a reader, a block for the card 6F.
  function Hear(c: CardModel, s: CardState, kind: byte, payload: bytes): CardState {
    if kind == 0x6F then CardStep(c, s, payload).0
    else if kind == 0x62 then Restart(s).(powered := true)
    else s
  }

  // The card after everything that was sent to it.
  function CardRun(c: CardModel, log: Log): CardState {
    if log == [] then CardState([], [], false, c.left, false) else
    var s := CardRun(c, log[..|log| - 1]);
    match log[|log| - 1]
    case BulkOut(pkt, true) =>
      (match ParseFrame(pkt)
       case None => s
       case Some(m) => Hear(c, s, m.kind, m.payload))
    case _ => s
  }

  lemma CardRunStep(c: CardModel, log: Log, e: Event)
    ensures !e.BulkOut? ==> CardRun(c, log + [e]) == CardRun(c, log)
    ensures e.BulkOut? && e.ok && ParseFrame(e.pkt).Some? ==>
      var m := ParseFrame(e.pkt).value;
      CardRun(c, log + [e]) == Hear(c, CardRun(c, log), m.kind, m.payload)
  {
    hide ParseFrame, Hear;
    assert (log + [e])[..|log|] == log;
  }

  // A PIN is followed by FF, section 2.4.3 of NIST SP 800-73-4 Part 1.
  function Fill(n: nat): bytes {
    seq(n, _ => 0xFF)
  }

  // Who gets a cleartext: without a PIN whoever the card lets use the key, otherwise whoever
  // presents the right one while there are tries.
  predicate Admits(c: CardModel, s: CardState, pin: Option<bytes>) {
    match pin
    case None => c.open || c.pin.None?
    case Some(p) => |p| <= 8 && (c.pin == None || (s.tries > 0 && p + Fill(8 - |p|) == c.pin.value))
  }

  // The key asked for, 9e unless an option names another, and the octets it is used on.
  predicate HasKey(c: CardModel, key: byte, n: nat) {
    (if key == 0 then 0x9e else key) == c.key && n == Modulus(c.rsa)
  }

  // The tries left once this PIN was presented: a wrong one costs one, if it was sent at all.
  function TriesAfter(c: CardModel, s: CardState, pin: Option<bytes>): nat {
    if c.pin == None || pin == None || |pin.value| > 8 || s.tries == 0 then s.tries
    else if pin.value + Fill(8 - |pin.value|) == c.pin.value then c.tries
    else s.tries - 1
  }

  // Cards that cut into short pieces

  ghost predicate CutsShort(c: CardModel) {
    forall r: bytes, i: nat :: i < |c.cut(r)| ==> |c.cut(r)[i]| <= 256
  }

  lemma {:induction false} QueueStaysShort(c: CardModel, log: Log)
    requires CutsShort(c)
    ensures forall part <- CardRun(c, log).queue :: |part| <= 256
    decreases |log|
  {
    if log != [] {
      hide ReadTemplate, ParseFrame, Wrap, Fetchable;
      QueueStaysShort(c, log[..|log| - 1]);
    }
  }

  lemma ReplyIsShort(c: CardModel, log: Log, apdu: bytes)
    requires CutsShort(c)
    ensures |CardStep(c, CardRun(c, log), apdu).1.data| <= 256
  {
    hide ReadTemplate, CardRun;
    QueueStaysShort(c, log);
  }

  function Chop(r: bytes): (parts: seq<bytes>)
    decreases |r|
  {
    if |r| <= 256 then [r] else [r[..256]] + Chop(r[256..])
  }

  lemma {:induction false} ChopCuts(r: bytes)
    ensures Chop(r) != [] && Flatten(Chop(r)) == r
    ensures forall i | 0 <= i < |Chop(r)| :: |Chop(r)[i]| <= 256 && (r != [] ==> 1 <= |Chop(r)[i]|)
    decreases |r|
  {
    if |r| <= 256 {
      assert Chop(r)[1..] == [] && r + [] == r;
    } else {
      ChopCuts(r[256..]);
      assert Chop(r)[1..] == Chop(r[256..]) && r == r[..256] + r[256..];
    }
  }
}
