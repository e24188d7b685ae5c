/** The YubiKey's PIV application (yubikey.c): selecting it, presenting the PIN, deciphering. */
module PivDriver {
  import opened Bytes
  import opened Buffers
  import opened Usb
  import opened CcidFrames
  import opened CcidTransport
  import opened CcidReaders
  import opened Scard
  import opened PivCodec

  const INS_VERIFY: byte := 0x20
  const INS_AUTHENTICATE: byte := 0x87
  const INS_SELECT_APPLICATION: byte := 0xa4
  const ALGO_RSA1024: byte := 0x06
  const ALGO_RSA2048: byte := 0x07
  const CLA_CHAINED: byte := 0x10
  const SW_SUCCESS: u16 := 0x9000
  const DEFAULT_KEY_SLOT: byte := 0x9e
  const PIN_SIZE: nat := 8

  const PIV_AID: bytes := [0xa0, 0x00, 0x00, 0x03, 0x08]

  predicate Success(r: Option<Reply>) {
    r.Some? && r.value.sw == SW_SUCCESS
  }

  // Selecting and verifying

  function SelectApdu(): bytes {
    Apdu(0x00, INS_SELECT_APPLICATION, 0x04, 0x00, |PIV_AID|, PIV_AID)
  }

  function PaddedPin(pin: bytes): (s: bytes)
    requires |pin| <= PIN_SIZE
    ensures |s| == PIN_SIZE && pin <= s && forall i | |pin| <= i < PIN_SIZE :: s[i] == 0xFF
  {
    pin + seq(PIN_SIZE - |pin|, _ => 0xFF)
  }

  // Without a PIN the card is only asked whether it wants one.
  function VerifyApdu(pin: Option<bytes>): bytes
    requires pin.Some? ==> |pin.value| <= PIN_SIZE
  {
    match pin
    case None => Apdu(0x00, INS_VERIFY, 0x00, 0x80, 0, [])
    case Some(p) => Apdu(0x00, INS_VERIFY, 0x00, 0x80, PIN_SIZE, PaddedPin(p))
  }

  // A PIN too long for the field is not sent at all.
  function Verify(w: Wire, st: Link, slot: byte, pin: Option<bytes>): (Link, Option<Reply>) {
    if pin.Some? && |pin.value| > PIN_SIZE then (st, None)
    else ExchangeCard(w, st, slot, VerifyApdu(pin))
  }

  // Status 63Cx leaves x tries.
  function TriesLeft(r: Option<Reply>): Option<nat> {
    if r.Some? && r.value.sw / 256 == 0x63 then Some(r.value.sw % 16) else None
  }

  datatype Connection = NotConnected | Connected(pinRequired: bool)

  function Connect(w: Wire, st: Link, slot: byte): (Link, Connection) {
    var (st1, r) := ExchangeCard(w, st, slot, SelectApdu());
    if !Success(r) then (st1, NotConnected) else
    var (st2, probe) := Verify(w, st1, slot, None);
    (st2, Connected(!Success(probe)))
  }

  method SelectApplication(card: Card, aid: bytes) returns (ok: bool)
    requires |aid| <= 0xFF
    modifies card.reader`ccidSeq, card.reader.dev`log
    ensures var (st', r) := ExchangeCard(card.Wire(), old(card.Link()), card.slot,
                                         Apdu(0x00, INS_SELECT_APPLICATION, 0x04, 0x00, |aid|, aid));
      card.Link() == st' && ok == Success(r)
  {
    hide ExchangeCard;
    var apdu := BuildApdu(0x00, INS_SELECT_APPLICATION, 0x04, 0x00, Some(aid), |aid|);
    var rapdu, sw, reply := card.CardXfer(apdu);
    return rapdu != null && sw == SW_SUCCESS;
  }

  method VerifyPin(card: Card, pin: Option<bytes>) returns (ok: bool, triesLeft: Option<nat>)
    modifies card.reader`ccidSeq, card.reader.dev`log
    ensures var (st', r) := Verify(card.Wire(), old(card.Link()), card.slot, pin);
      card.Link() == st' && ok == Success(r) && triesLeft == TriesLeft(r)
  {
    hide ExchangeCard;
    var apdu: Buffer?;
    if pin == None {
      apdu := BuildApdu(0x00, INS_VERIFY, 0x00, 0x80, None, 0);
    } else if |pin.value| > PIN_SIZE {
      return false, None;
    } else {
      apdu := BuildApdu(0x00, INS_VERIFY, 0x00, 0x80, Some(PaddedPin(pin.value)), PIN_SIZE);
    }
    var rapdu, sw, reply := card.CardXfer(apdu);
    if rapdu == null {
      return false, None;
    }
    if sw / 256 == 0x63 {
      return false, Some(sw % 16);
    }
    return sw == SW_SUCCESS, None;
  }

  // yubikey_connect
  method ConnectCard(card: Card) returns (ok: bool)
    modifies card, card.reader`ccidSeq, card.reader.dev`log
    ensures var (st', c) := Connect(card.Wire(), old(card.Link()), card.slot);
      && card.Link() == st' && ok == c.Connected?
      && (ok ==> card.keySlot == (if old(card.keySlot) == 0 then DEFAULT_KEY_SLOT else old(card.keySlot)))
      && (ok ==> card.pinRequired == (old(card.pinRequired) && c.pinRequired))
  {
    hide ExchangeCard;
    ok := SelectApplication(card, PIV_AID);
    if !ok {
      return;
    }
    if card.keySlot == 0 {
      card.keySlot := DEFAULT_KEY_SLOT;
    }
    var verified, _ := VerifyPin(card, None);
    if verified {
      card.pinRequired := false;
    }
  }

  // Command chaining, section 5.1.1.1 of ISO/IEC 7816-4:2005

  datatype Fragment = Fragment(cla: byte, data: bytes)

  function Fragments(data: bytes): seq<Fragment>
    decreases |data|
  {
    if data == [] then []
    else if |data| <= 0xFF then [Fragment(0x00, data)]
    else [Fragment(CLA_CHAINED, data[..0xFF])] + Fragments(data[0xFF..])
  }

  lemma FirstFragment(data: bytes)
    requires data != []
    ensures var fs := Fragments(data);
      var n := if |data| > 0xFF then 0xFF else |data|;
      && fs != []
      && fs[0] == Fragment(if |data| > 0xFF then CLA_CHAINED else 0x00, data[..n])
      && fs[1..] == Fragments(data[n..])
  {
    assert data[..|data|] == data && data[|data|..] == [];
  }

  function DataOf(fs: seq<Fragment>): bytes {
    if fs == [] then [] else fs[0].data + DataOf(fs[1..])
  }

  // The message survives: nothing is lost or reordered, every fragment but the last is full and
  // marked as chained, and only the last one is not.
  lemma {:induction false} FragmentsKeepMessage(data: bytes)
    ensures DataOf(Fragments(data)) == data
    ensures var fs := Fragments(data);
      && (fs == [] <==> data == [])
      && forall i | 0 <= i < |fs| ::
           && 1 <= |fs[i].data| <= 0xFF
           && (i < |fs| - 1 ==> |fs[i].data| == 0xFF && fs[i].cla == CLA_CHAINED)
           && (i == |fs| - 1 ==> fs[i].cla == 0x00)
    decreases |data|
  {
    if |data| > 0xFF {
      FragmentsKeepMessage(data[0xFF..]);
      var fs, rest := Fragments(data), Fragments(data[0xFF..]);
      assert fs[1..] == rest && data == data[..0xFF] + data[0xFF..];
      assert forall i | 0 < i < |fs| :: fs[i] == rest[i - 1];
    } else if data != [] {
      var fs := Fragments(data);
      assert fs[1..] == [] && data + [] == data;
    }
  }

  // A receiver that collects chained fragments until one that is not, command by command.
  function Reassemble(acc: bytes, fs: seq<Fragment>): seq<bytes>
    decreases |fs|
  {
    if fs == [] then []
    else if fs[0].cla == CLA_CHAINED then Reassemble(acc + fs[0].data, fs[1..])
    else [acc + fs[0].data] + Reassemble([], fs[1..])
  }

  lemma {:induction false} ReceiverRecoversMessage(acc: bytes, data: bytes)
    requires data != []
    ensures Reassemble(acc, Fragments(data)) == [acc + data]
    decreases |data|
  {
    var fs := Fragments(data);
    if |data| > 0xFF {
      ReceiverRecoversMessage(acc + data[..0xFF], data[0xFF..]);
      assert fs[1..] == Fragments(data[0xFF..]);
      assert (acc + data[..0xFF]) + data[0xFF..] == acc + data;
    } else {
      assert fs[1..] == [];
    }
  }

  function FragmentApdu(algorithm: byte, key: byte, f: Fragment): bytes
    requires |f.data| <= 0xFF
  {
    Apdu(f.cla, INS_AUTHENTICATE, algorithm, key, |f.data|, f.data)
  }

  // Every fragment must be answered 9000 before the next is sent; the last answer counts.
  function SendAll(w: Wire, st: Link, slot: byte, algorithm: byte, key: byte, fs: seq<Fragment>, last: Option<Reply>)
    : (Link, Option<Reply>)
    requires forall f <- fs :: |f.data| <= 0xFF
    decreases |fs|
  {
    if fs == [] then (st, last) else
    var (st', r) := ExchangeCard(w, st, slot, FragmentApdu(algorithm, key, fs[0]));
    if Success(r) then SendAll(w, st', slot, algorithm, key, fs[1..], r) else (st', None)
  }

  lemma {:induction false} FragmentsFit(data: bytes)
    ensures forall f <- Fragments(data) :: |f.data| <= 0xFF
    decreases |data|
  {
    FragmentsKeepMessage(data);
  }

  // A fragment that is not answered 9000 is the last one sent, and there is no answer to use.
  lemma {:induction false} FailureStops(
      w: Wire, st: Link, slot: byte, algorithm: byte, key: byte,
      before: seq<Fragment>, f: Fragment, after: seq<Fragment>, last: Option<Reply>)
    requires forall g <- before + [f] + after :: |g.data| <= 0xFF
    requires forall g <- before :: |g.data| <= 0xFF
    requires |f.data| <= 0xFF
    requires before == [] || SendAll(w, st, slot, algorithm, key, before, last).1.Some?
    requires var (st1, _) := SendAll(w, st, slot, algorithm, key, before, last);
             !Success(ExchangeCard(w, st1, slot, FragmentApdu(algorithm, key, f)).1)
    ensures var (st1, _) := SendAll(w, st, slot, algorithm, key, before, last);
            SendAll(w, st, slot, algorithm, key, before + [f] + after, last)
            == (ExchangeCard(w, st1, slot, FragmentApdu(algorithm, key, f)).0, None)
    decreases |before|
  {
    hide ExchangeCard;
    var fs := before + [f] + after;
    if before == [] {
      assert fs[0] == f;
    } else {
      assert fs[0] == before[0] && fs[1..] == before[1..] + [f] + after;
      assert forall g <- before[1..] :: g in before;
      assert forall g <- fs[1..] :: g in fs;
      var (st', r) := ExchangeCard(w, st, slot, FragmentApdu(algorithm, key, before[0]));
      FailureStops(w, st', slot, algorithm, key, before[1..], f, after, r);
    }
  }

  // Deciphering

  function Algorithm(inLen: nat): Option<byte> {
    if inLen == 128 then Some(ALGO_RSA1024)
    else if inLen == 256 then Some(ALGO_RSA2048)
    else None
  }

  function Unwrap(data: bytes): Option<bytes> {
    match HeaderSize(data)
    case None => None
    case Some(h) =>
      match PaddingSize(data[h..])
      case None => None
      case Some(p) => UnpadIff(data[h..]); Some(data[h..][p..])
  }

  // The length of the ciphertext is taken as an unsigned int.
  function Decipher(w: Wire, st: Link, slot: byte, key: byte, ciphertext: bytes): (Link, Option<bytes>) {
    var n := ToU32(|ciphertext|);
    var algorithm := Algorithm(n);
    if algorithm.None? then (st, None) else
    var template := Template(ciphertext[..n]);
    FragmentsFit(template);
    var (st', r) := SendAll(w, st, slot, algorithm.value, key, Fragments(template), None);
    (st', if r.None? then None else Unwrap(r.value.data))
  }

  // So the first fragment not answered 9000 ends the decryption: nothing is sent after it, and
  // there is no cleartext.
  lemma FailedFragmentEndsDecipher(w: Wire, st: Link, slot: byte, key: byte, ciphertext: bytes, k: nat)
    requires |ciphertext| in {128, 256}
    requires var fs := Fragments(Template(ciphertext)); k < |fs| && forall f <- fs :: |f.data| <= 0xFF
    requires var fs, algorithm := Fragments(Template(ciphertext)), Algorithm(|ciphertext|).value;
      var (st1, r) := SendAll(w, st, slot, algorithm, key, fs[..k], None);
      && (k > 0 ==> r.Some?)
      && !Success(ExchangeCard(w, st1, slot, FragmentApdu(algorithm, key, fs[k])).1)
    ensures var fs, algorithm := Fragments(Template(ciphertext)), Algorithm(|ciphertext|).value;
      var (st1, _) := SendAll(w, st, slot, algorithm, key, fs[..k], None);
      Decipher(w, st, slot, key, ciphertext)
      == (ExchangeCard(w, st1, slot, FragmentApdu(algorithm, key, fs[k])).0, None)
  {
    hide ExchangeCard, Template, Unwrap, Fragments;
    var fs := Fragments(Template(ciphertext));
    assert ciphertext[..|ciphertext|] == ciphertext;
    assert fs == fs[..k] + [fs[k]] + fs[k + 1..];
    assert forall f <- fs[..k] :: f in fs;
    FailureStops(w, st, slot, Algorithm(|ciphertext|).value, key, fs[..k], fs[k], fs[k + 1..], None);
  }

  // yubikey_decipher. The cleartext is the rest of the last response, in the packet it came in.
  method DecipherData(card: Card, ciphertext: Buffer) returns (cleartext: Buffer?)
    requires ciphertext.Valid() && Capacity(card.reader.maxMessage) >= 24
    modifies card.reader`ccidSeq, card.reader.dev`log
    ensures var (st', m) := Decipher(card.Wire(), old(card.Link()), card.slot, card.keySlot, ciphertext.Contents());
      && card.Link() == st'
      && (m.None? <==> cleartext == null)
      && (cleartext != null ==> cleartext.Valid() && cleartext.Contents() == m.value)
    ensures cleartext != null ==> fresh(cleartext) && fresh(cleartext.mem)
  {
    hide ExchangeCard, Template, Unwrap, Buffer.Model;
    var inLen := ciphertext.Available();
    var algorithm: byte;
    if inLen == 128 {
      algorithm := ALGO_RSA1024;
    } else if inLen == 256 {
      algorithm := ALGO_RSA2048;
    } else {
      return null;
    }
    var ct := ciphertext.mem[ciphertext.off + ciphertext.rpos..ciphertext.off + ciphertext.rpos + inLen];
    assert ct == ciphertext.Contents()[..inLen];
    var data := EncodeDecipherArgs(ct);
    ghost var reply;
    cleartext, reply := SendTemplate(card, algorithm, data);
    if cleartext == null {
      return null;
    }
    var ok := StripResponse(cleartext);
    if !ok {
      return null;
    }
  }

  // The chaining loop: what is left in `data` is what is left to send.
  method SendTemplate(card: Card, algorithm: byte, data: Buffer) returns (rapdu: Buffer?, ghost reply: Option<Reply>)
    requires data.Valid() && 0 < |data.Contents()| < 0x1_0000_0000
    modifies data`rpos, card.reader`ccidSeq, card.reader.dev`log
    ensures var template := old(data.Contents());
      && (forall f <- Fragments(template) :: |f.data| <= 0xFF)
      && (card.Link(), reply) == SendAll(card.Wire(), old(card.Link()), card.slot, algorithm, card.keySlot, Fragments(template), None)
    ensures card.HoldsReply(rapdu, SW_SUCCESS, reply)
    ensures rapdu != null ==> fresh(rapdu) && fresh(rapdu.mem)
  {
    hide ExchangeCard, Buffer.Model;
    ghost var st, template := card.Link(), data.Contents();
    FragmentsFit(template);
    rapdu, reply := null, None;
    while data.Available() != 0
      invariant data.Valid() && |data.Contents()| <= |template|
      invariant forall f <- Fragments(data.Contents()) :: |f.data| <= 0xFF
      invariant SendAll(card.Wire(), st, card.slot, algorithm, card.keySlot, Fragments(template), None)
             == SendAll(card.Wire(), card.Link(), card.slot, algorithm, card.keySlot, Fragments(data.Contents()), reply)
      invariant card.HoldsReply(rapdu, SW_SUCCESS, reply)
      invariant (rapdu == null <==> reply == None) && (reply.None? ==> data.Contents() == template)
      invariant rapdu != null ==> fresh(rapdu) && fresh(rapdu.mem)
      decreases |data.Contents()|
    {
      rapdu, reply := SendFragment(card, algorithm, data);
      if rapdu == null {
        return null, None;
      }
    }
  }

  // One round of that loop. The fragment leaves `data` only once it is answered 9000.
  method SendFragment(card: Card, algorithm: byte, data: Buffer) returns (rapdu: Buffer?, ghost reply: Option<Reply>)
    requires data.Valid() && 0 < |data.Contents()| < 0x1_0000_0000
    requires forall f <- Fragments(data.Contents()) :: |f.data| <= 0xFF
    modifies data`rpos, card.reader`ccidSeq, card.reader.dev`log
    ensures data.Valid() && card.HoldsReply(rapdu, SW_SUCCESS, reply)
    ensures rapdu != null ==> fresh(rapdu) && fresh(rapdu.mem)
    ensures var fs := Fragments(old(data.Contents()));
      fs != [] &&
      var (st', r) := ExchangeCard(card.Wire(), old(card.Link()), card.slot,
                                   FragmentApdu(algorithm, card.keySlot, fs[0]));
      && card.Link() == st' && reply == (if Success(r) then r else None)
      && (reply.Some? ==> fs[1..] == Fragments(data.Contents()) && |data.Contents()| < |old(data.Contents())|)
  {
    hide ExchangeCard, Buffer.Model, Fragments;
    ghost var left := data.Contents();
    FirstFragment(left);
    var len := data.Available();
    var cla: byte := 0x00;
    if len > 0xFF {
      len := 0xFF;
      cla := CLA_CHAINED;
    }
    var piece := data.mem[data.off + data.rpos..data.off + data.rpos + len];
    assert piece == left[..len] && Fragments(left)[0] == Fragment(cla, piece);
    var apdu := BuildApdu(cla, INS_AUTHENTICATE, algorithm, card.keySlot, Some(piece), len);
    var sw;
    rapdu, sw, reply := card.CardXfer(apdu);
    if rapdu == null || sw != SW_SUCCESS {
      return null, None;
    }
    Advance(data, len);
  }

  // buffer_skip, on what is known to be there.
  method Advance(data: Buffer, len: u32)
    requires data.Valid() && len <= |data.Contents()|
    modifies data`rpos
    ensures data.Valid() && data.Contents() == old(data.Contents())[len..]
  {
    var _ := data.Skip(len);
  }

  // Unwrapping and unpadding in place.
  method StripResponse(rapdu: Buffer) returns (ok: bool)
    requires rapdu.Valid() && rapdu.rpos == HDR_SIZE && 24 <= rapdu.size
    requires |rapdu.Contents()| < 0x1_0000_0000
    modifies rapdu`rpos
    ensures rapdu.Valid()
    ensures var m := Unwrap(old(rapdu.Contents()));
      ok == m.Some? && (ok ==> rapdu.Contents() == m.value)
  {
    hide HeaderSize, PaddingSize;
    ok := DecodeDecipherResp(rapdu);
    if ok {
      assert rapdu.Contents()[..rapdu.Available()] == rapdu.Contents();
      ok := RemovePadding(rapdu);
    }
  }
}
