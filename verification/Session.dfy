/** One run of the program on one device (main.c), from choosing the reader to the cleartext. */
module Sessions {
  import opened Bytes
  import opened Buffers
  import opened CcidDescriptors
  import opened Usb
  import opened Interfaces
  import opened CcidTransport
  import opened CcidReaders
  import opened Scard
  import opened PivDriver

  // What a reader is made from.
  datatype Setup = Setup(max: u32, autoVoltage: bool, voltages: byte)

  predicate Bit(n: nat, place: nat)
    requires place > 0
  {
    n / place % 2 == 1
  }

  // A reader must speak a protocol, exchange whole APDUs, and need no parameter negotiation.
  function SetupOf(d: CcidDescriptor): Option<Setup> {
    if d.dwProtocols % 4 == 0 then None
    else if d.dwFeatures / 0x20000 % 4 == 0 then None
    else if !Bit(d.dwFeatures, 0x2) || !Bit(d.dwFeatures, 0x40) then None
    else Some(Setup(d.dwMaxCCIDMessageLength, Bit(d.dwFeatures, 0x4) || Bit(d.dwFeatures, 0x8), d.bVoltageSupport % 8))
  }

  // Bit by bit, table 5.1-1 of the USB CCID specification Rev 1.1: T=0 or T=1; whole APDUs, short or
  // extended; configured by the ATR and without negotiation. The voltage is automatic if activation
  // or voltage selection is, and then tried first, before 5 V, 3 V and 1.8 V.
  lemma SetupOnBits(d: CcidDescriptor, protocols: seq<bool>, features: seq<bool>, voltages: seq<bool>)
    requires |voltages| == 8 && d.bVoltageSupport == Binary(voltages)
    requires |protocols| == 32 && d.dwProtocols == Binary(protocols)
    requires |features| == 32 && d.dwFeatures == Binary(features)
    ensures SetupOf(d).Some? <==>
      (protocols[0] || protocols[1]) && (features[17] || features[18]) && features[1] && features[6]
    ensures SetupOf(d).Some? ==>
      var setup := SetupOf(d).value;
      && setup.max == d.dwMaxCCIDMessageLength
      && setup.autoVoltage == (features[2] || features[3])
      && Plan(setup.autoVoltage, setup.voltages) ==
           (if features[2] || features[3] then [0] else [])
           + ((if voltages[0] then [1] else [])
              + ((if voltages[1] then [2] else []) + (if voltages[2] then [3] else [])))
  {
    hide Binary, Plan, Bit;
    LowThree(voltages);
    PlanOnBits(features[2] || features[3], voltages[..3]);
    FieldsOnBits(d.dwProtocols, protocols);
    FieldsOnBits(d.dwFeatures, features);
  }

  lemma FieldsOnBits(n: nat, bits: seq<bool>)
    requires |bits| == 32 && n == Binary(bits)
    ensures n % 4 != 0 <==> bits[0] || bits[1]
    ensures n / 0x20000 % 4 != 0 <==> bits[17] || bits[18]
    ensures (Bit(n, 0x2) <==> bits[1]) && (Bit(n, 0x4) <==> bits[2]) && (Bit(n, 0x8) <==> bits[3])
    ensures Bit(n, 0x40) <==> bits[6]
  {
    PowersOf2();
    hide Binary, Pow2;
    DigitsAt(bits, 0);
    DigitsAt(bits, 1);
    DigitsAt(bits, 2);
    DigitsAt(bits, 3);
    DigitsAt(bits, 6);
    DigitsAt(bits, 17);
  }

  // The answers to reset of the cards there is a driver for.
  const ATRS: seq<bytes> := [
    [0x3b, 0xfc, 0x13, 0x00, 0x00, 0x81, 0x31, 0xfe, 0x15, 0x59, 0x75, 0x62, 0x69, 0x6b, 0x65, 0x79, 0x4e, 0x45, 0x4f, 0x72, 0x33, 0xe1],
    [0x3b, 0xf8, 0x13, 0x00, 0x00, 0x81, 0x31, 0xfe, 0x15, 0x59, 0x75, 0x62, 0x69, 0x6b, 0x65, 0x79, 0x34, 0xd4],
    [0x3b, 0xfd, 0x13, 0x00, 0x00, 0x81, 0x31, 0xfe, 0x15, 0x80, 0x73, 0xc0, 0x21, 0xc0, 0x57, 0x59, 0x75, 0x62, 0x69, 0x4b, 0x65, 0x79, 0x40],
    [0x3b, 0xf8, 0x13, 0x00, 0x00, 0x81, 0x31, 0xfe, 0x15, 0x01, 0x59, 0x75, 0x62, 0x69, 0x4b, 0x65, 0x79, 0xc1]]

  // Card options, each already read as a key slot, or as nothing the card understands: one of
  // those refuses all, otherwise the last one counts.
  function KeySlot(opts: seq<Option<byte>>, key: byte): (r: Option<byte>)
    ensures r == None <==> None in opts
    ensures r.Some? ==> r == if opts == [] then Some(key) else opts[|opts| - 1]
  {
    if opts == [] then Some(key)
    else if opts[0] == None then None
    else KeySlot(opts[1..], opts[0].value)
  }

  function EffectiveKey(key: byte): byte {
    if key == 0 then DEFAULT_KEY_SLOT else key
  }

  // On an identified card: connect, present the PIN if there is one, decipher.
  function UseCard(w: Wire, st: Link, key: byte, pin: Option<bytes>, ciphertext: bytes): (Link, Option<bytes>) {
    var (st3, c) := Connect(w, st, 0);
    if !c.Connected? then (st3, None) else
    if pin == None then Decipher(w, st3, 0, EffectiveKey(key), ciphertext) else
    var (st4, r) := Verify(w, st3, 0, pin);
    if !Success(r) then (st4, None) else Decipher(w, st4, 0, EffectiveKey(key), ciphertext)
  }

  // From the reader on: each step only if the one before succeeded.
  function Session(
      w: Wire, setup: Setup, st: Link, pin: Option<bytes>, opts: seq<Option<byte>>, ciphertext: bytes)
    : (Link, Option<bytes>)
  {
    var (st1, present) := QuerySlot(w, st, 0);
    if !present then (st1, None) else
    var (st2, atr) := Reset(w, st1, 0, setup.autoVoltage, setup.voltages);
    if atr == None || atr.value !in ATRS then (st2, None) else
    var key := KeySlot(opts, 0);
    if key == None then (st2, None) else
    UseCard(w, st2, key.value, pin, ciphertext)
  }

  // ccid_reader_create
  method CreateReader(dev: UsbDevice) returns (reader: Reader?)
    modifies dev`log, dev`epOut, dev`epIn, dev`epIntr
    ensures var (log, chosen) := ChooseInterface(dev.oracle, old(dev.log), dev.tree);
      && dev.log == log
      && (reader != null ==>
            && chosen.Some? && InTree(dev.tree, chosen.value)
            && At(dev.tree, chosen.value).ccid.Some?
            && SetupOf(At(dev.tree, chosen.value).ccid.value)
               == Some(Setup(reader.maxMessage, reader.autoVoltage, reader.supportedVoltages))
            && 0 <= dev.epOut < 0x80 <= dev.epIn
            && HasEndpointsOf(dev, At(dev.tree, chosen.value).endpoints))
      && (reader == null && chosen.Some? && InTree(dev.tree, chosen.value) ==>
            At(dev.tree, chosen.value).ccid.Some? && SetupOf(At(dev.tree, chosen.value).ccid.value) == None)
    ensures reader != null ==> fresh(reader) && reader.dev == dev && reader.currentSlot == -1 && reader.ccidSeq == 0
  {
    var ccid := SelectCcidInterface(dev);
    if ccid == None {
      return null;
    }
    var d := ccid.value;
    if d.dwProtocols % 4 == 0 {
      return null;
    }
    if d.dwFeatures / 0x20000 % 4 == 0 {
      return null;
    }
    var autoAtr := Bit(d.dwFeatures, 0x2);
    var autoVoltage := Bit(d.dwFeatures, 0x4);
    if Bit(d.dwFeatures, 0x8) {
      autoVoltage := true;
    }
    var noPts, noSetParam := false, false;
    if Bit(d.dwFeatures, 0x40) {
      noPts, noSetParam := true, true;
    }
    if Bit(d.dwFeatures, 0x80) {
      noPts := true;
    }
    if !autoAtr || !noPts || !noSetParam {
      return null;
    }
    reader := new Reader(dev, d.dwMaxCCIDMessageLength, autoVoltage, d.bVoltageSupport % 8);
  }

  // The card in slot 0, if there is a driver for it and the options suit it.
  method OpenCard(reader: Reader, opts: seq<Option<byte>>) returns (card: Card?)
    requires reader.currentSlot == -1
    modifies reader, reader.dev`log
    ensures
      var (st1, present) := QuerySlot(reader.Wire(), old(reader.Link()), 0);
      var (st2, atr) := Reset(reader.Wire(), st1, 0, reader.autoVoltage, reader.supportedVoltages);
      if !present then card == null && reader.Link() == st1
      else
        && reader.Link() == st2
        && (card != null <==> atr.Some? && atr.value in ATRS && KeySlot(opts, 0).Some?)
        && (card != null ==> card.keySlot == KeySlot(opts, 0).value)
    ensures card != null ==> fresh(card) && card.reader == reader && card.slot == 0 && card.pinRequired
  {
    hide QuerySlot, Reset;
    var ok := reader.SelectSlot(0);
    if !ok {
      return null;
    }
    var atr := reader.IdentifyCard(0);
    if atr == None || atr.value !in ATRS {
      return null;
    }
    card := new Card(reader, 0);
    assert opts[0..] == opts;
    ghost var st := reader.Link();
    var i := 0;
    while i < |opts|
      invariant reader.Link() == st
      invariant i <= |opts| && fresh(card) && card.pinRequired && card.reader == reader && card.slot == 0
      invariant KeySlot(opts, 0) == KeySlot(opts[i..], card.keySlot)
    {
      assert opts[i..][0] == opts[i] && opts[i..][1..] == opts[i + 1..];
      if opts[i] == None {
        assert KeySlot(opts[i..], card.keySlot) == None;
        return null;
      }
      card.keySlot := opts[i].value;
      i := i + 1;
    }
    assert opts[i..] == [];
    assert KeySlot(opts[i..], card.keySlot) == Some(card.keySlot);
  }

  method RunCard(card: Card, pin: Option<bytes>, ciphertext: Buffer) returns (cleartext: Buffer?)
    requires ciphertext.Valid() && card.slot == 0 && Capacity(card.reader.maxMessage) >= 24
    modifies card, card.reader`ccidSeq, card.reader.dev`log
    ensures
      var (st, m) := UseCard(card.Wire(), old(card.Link()), old(card.keySlot), pin, ciphertext.Contents());
      && card.Link() == st
      && (m.None? <==> cleartext == null)
      && (cleartext != null ==> cleartext.Valid() && cleartext.Contents() == m.value)
  {
    hide Connect, Verify, Decipher;
    var ok := ConnectCard(card);
    if !ok {
      return null;
    }
    if pin.Some? {
      var triesLeft;
      ok, triesLeft := VerifyPin(card, pin);
      if !ok {
        return null;
      }
    }
    cleartext := DecipherData(card, ciphertext);
  }

  // The interface that is chosen, if any, leaves room for the octets the driver looks at.
  ghost predicate RoomyChoice(o: Oracle, log: Log, t: Tree) {
    var chosen := ChooseInterface(o, log, t).1;
    chosen.Some? && InTree(t, chosen.value) && At(t, chosen.value).ccid.Some? ==>
      24 <= Capacity(At(t, chosen.value).ccid.value.dwMaxCCIDMessageLength)
  }

  // What doit does to the kernel's log, and what it returns.
  ghost function ProgramRun(o: Oracle, log: Log, t: Tree, pin: Option<bytes>, opts: seq<Option<byte>>, ciphertext: bytes)
    : (Log, Option<bytes>)
  {
    var (log0, chosen) := ChooseInterface(o, log, t);
    if chosen == None || !InTree(t, chosen.value) || At(t, chosen.value).ccid == None then (log0, None) else
    var setup := SetupOf(At(t, chosen.value).ccid.value);
    if setup == None then (log0, None) else
    var (st, m) := Session(Wire(o, setup.value.max), setup.value, Link(0, log0), pin, opts, ciphertext);
    (st.log, m)
  }

  method DoIt(dev: UsbDevice, pin: Option<bytes>, opts: seq<Option<byte>>, ciphertext: Buffer) returns (cleartext: Buffer?)
    requires ciphertext.Valid() && RoomyChoice(dev.oracle, dev.log, dev.tree)
    modifies dev`log, dev`epOut, dev`epIn, dev`epIntr
    ensures
      var (log, m) := ProgramRun(dev.oracle, old(dev.log), dev.tree, pin, opts, ciphertext.Contents());
      && dev.log == log
      && (m.None? <==> cleartext == null)
      && (cleartext != null ==> cleartext.Valid() && cleartext.Contents() == m.value)
  {
    hide ChooseInterface, QuerySlot, Reset, UseCard, HasEndpointsOf;
    ghost var chosen := ChooseInterface(dev.oracle, dev.log, dev.tree).1;
    var reader := CreateReader(dev);
    if reader == null {
      return null;
    }
    assert At(dev.tree, chosen.value).ccid.value.dwMaxCCIDMessageLength == reader.maxMessage;
    var card := OpenCard(reader, opts);
    if card == null {
      return null;
    }
    cleartext := RunCard(card, pin, ciphertext);
  }
}
