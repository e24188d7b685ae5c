/** The class descriptor of a CCID interface (ccid.c). */
module CcidDescriptors {
  import opened Bytes
  import opened DtParsers

  datatype CcidDescriptor = CcidDescriptor(
    bcdCCID: u16,
    bMaxSlotIndex: byte,
    bVoltageSupport: byte,
    dwProtocols: u32,
    dwDefaultClock: u32,
    dwMaximumClock: u32,
    bNumClockRatesSupported: byte,
    dwDataRate: u32,
    dwMaxDataRate: u32,
    bNumDataRatesSupported: byte,
    dwMaxIFSD: u32,
    dwSynchProtocols: u32,
    dwMechanical: u32,
    dwFeatures: u32,
    dwMaxCCIDMessageLength: u32,
    bClassGetResponse: byte,
    bClassEnvelope: byte,
    wLcdLayout: u16,
    bPINSupport: byte,
    bMaxCCIDBusySlots: byte)

  const CCID_BODY_SIZE: nat := 52

  // The wire form, section 5.1 of the CCID specification, behind the length and type octets.
  function EncodeCcid(d: CcidDescriptor, rest: bytes): (s: bytes)
    ensures |s| == CCID_BODY_SIZE + |rest|
  {
    LeEncode(d.bcdCCID, 2) + (
    LeEncode(d.bMaxSlotIndex, 1) + (
    LeEncode(d.bVoltageSupport, 1) + (
    LeEncode(d.dwProtocols, 4) + (
    LeEncode(d.dwDefaultClock, 4) + (
    LeEncode(d.dwMaximumClock, 4) + (
    LeEncode(d.bNumClockRatesSupported, 1) + (
    LeEncode(d.dwDataRate, 4) + (
    LeEncode(d.dwMaxDataRate, 4) + (
    LeEncode(d.bNumDataRatesSupported, 1) + (
    LeEncode(d.dwMaxIFSD, 4) + (
    LeEncode(d.dwSynchProtocols, 4) + (
    LeEncode(d.dwMechanical, 4) + (
    LeEncode(d.dwFeatures, 4) + (
    LeEncode(d.dwMaxCCIDMessageLength, 4) + (
    LeEncode(d.bClassGetResponse, 1) + (
    LeEncode(d.bClassEnvelope, 1) + (
    LeEncode(d.wLcdLayout, 2) + (
    LeEncode(d.bPINSupport, 1) + (
    LeEncode(d.bMaxCCIDBusySlots, 1) + rest)))))))))))))))))))
  }

  // The n-octet field at offset k.
  function FieldAt(body: bytes, k: nat, n: nat): (v: nat)
    requires n in {1, 2, 4} && k + n <= |body|
    ensures n == 1 ==> v < 0x100
    ensures n == 2 ==> v < 0x1_0000
    ensures n == 4 ==> v < 0x1_0000_0000
    ensures body[k..] == LeEncode(v, n) + body[k + n..]
  {
    Narrowing(body[k..], n);
    assert body[k..][..n] == body[k..k + n] && body[k..][n..] == body[k + n..];
    LeDecode(body[k..k + n])
  }

  // The descriptor that 52 octets stand for, field by field at its offset.
  function DecodeCcid(body: bytes): Option<CcidDescriptor> {
    if |body| < CCID_BODY_SIZE then None else
    Some(CcidDescriptor(
      FieldAt(body, 0, 2), FieldAt(body, 2, 1), FieldAt(body, 3, 1), FieldAt(body, 4, 4),
      FieldAt(body, 8, 4), FieldAt(body, 12, 4), FieldAt(body, 16, 1), FieldAt(body, 17, 4),
      FieldAt(body, 21, 4), FieldAt(body, 25, 1), FieldAt(body, 26, 4), FieldAt(body, 30, 4),
      FieldAt(body, 34, 4), FieldAt(body, 38, 4), FieldAt(body, 42, 4), FieldAt(body, 46, 1),
      FieldAt(body, 47, 1), FieldAt(body, 48, 2), FieldAt(body, 50, 1), FieldAt(body, 51, 1)))
  }

  // The parser succeeds exactly when the 52 octets of the body are there, consumes just those,
  // and fills the descriptor from them.
  method ParseCcidBody(dt: DtParser) returns (d: Option<CcidDescriptor>)
    requires dt.Valid() && dt.okay
    modifies dt
    ensures dt.Valid() && d == DecodeCcid(old(dt.Rest()))
    ensures d.Some? ==> dt.okay && dt.Rest() == old(dt.Rest())[CCID_BODY_SIZE..]
  {
    d := ReadFields(dt);
    if d.Some? {
      EncodeOfDecode(old(dt.Rest()));
      CcidIsRecovered(d.value, DecodeCcid(old(dt.Rest())).value, dt.Rest(), old(dt.Rest())[CCID_BODY_SIZE..]);
    }
  }

  // ccid_parse_usb_descriptor, on the record at `start`.
  method ParseCcidDescriptor(data: bytes, start: nat, len: nat) returns (d: Option<CcidDescriptor>)
    requires 2 <= len && start + len <= |data|
    ensures d == DecodeCcid(data[start..start + len][2..])
  {
    var dt := new DtParser(data, start, len);
    d := ParseCcidBody(dt);
  }

  method ReadFields(dt: DtParser) returns (d: Option<CcidDescriptor>)
    requires dt.Valid() && dt.okay
    modifies dt
    ensures dt.Valid()
    ensures d.Some? <==> CCID_BODY_SIZE <= |old(dt.Rest())|
    ensures d.Some? ==> old(dt.Rest()) == EncodeCcid(d.value, dt.Rest()) && dt.okay
  {
    hide LeEncode;
    var ok;
    var bcdCCID;
    ok, bcdCCID := dt.GetWord16(); if !ok { return None; }
    var bMaxSlotIndex;
    ok, bMaxSlotIndex := dt.GetByte(); if !ok { return None; }
    var bVoltageSupport;
    ok, bVoltageSupport := dt.GetByte(); if !ok { return None; }
    var dwProtocols;
    ok, dwProtocols := dt.GetWord32(); if !ok { return None; }
    var dwDefaultClock;
    ok, dwDefaultClock := dt.GetWord32(); if !ok { return None; }
    var dwMaximumClock;
    ok, dwMaximumClock := dt.GetWord32(); if !ok { return None; }
    var bNumClockRatesSupported;
    ok, bNumClockRatesSupported := dt.GetByte(); if !ok { return None; }
    var dwDataRate;
    ok, dwDataRate := dt.GetWord32(); if !ok { return None; }
    var dwMaxDataRate;
    ok, dwMaxDataRate := dt.GetWord32(); if !ok { return None; }
    var bNumDataRatesSupported;
    ok, bNumDataRatesSupported := dt.GetByte(); if !ok { return None; }
    var dwMaxIFSD;
    ok, dwMaxIFSD := dt.GetWord32(); if !ok { return None; }
    var dwSynchProtocols;
    ok, dwSynchProtocols := dt.GetWord32(); if !ok { return None; }
    var dwMechanical;
    ok, dwMechanical := dt.GetWord32(); if !ok { return None; }
    var dwFeatures;
    ok, dwFeatures := dt.GetWord32(); if !ok { return None; }
    var dwMaxCCIDMessageLength;
    ok, dwMaxCCIDMessageLength := dt.GetWord32(); if !ok { return None; }
    var bClassGetResponse;
    ok, bClassGetResponse := dt.GetByte(); if !ok { return None; }
    var bClassEnvelope;
    ok, bClassEnvelope := dt.GetByte(); if !ok { return None; }
    var wLcdLayout;
    ok, wLcdLayout := dt.GetWord16(); if !ok { return None; }
    var bPINSupport;
    ok, bPINSupport := dt.GetByte(); if !ok { return None; }
    var bMaxCCIDBusySlots;
    ok, bMaxCCIDBusySlots := dt.GetByte(); if !ok { return None; }
    d := Some(CcidDescriptor(
      bcdCCID, bMaxSlotIndex, bVoltageSupport, dwProtocols, dwDefaultClock, dwMaximumClock,
      bNumClockRatesSupported, dwDataRate, dwMaxDataRate, bNumDataRatesSupported, dwMaxIFSD,
      dwSynchProtocols, dwMechanical, dwFeatures, dwMaxCCIDMessageLength, bClassGetResponse,
      bClassEnvelope, wLcdLayout, bPINSupport, bMaxCCIDBusySlots));
  }

  // A field in front of a message is determined by the message.
  lemma FieldsAgree(v: nat, w: nat, n: nat, x: bytes, y: bytes)
    requires v < Pow256(n) && w < Pow256(n)
    requires LeEncode(v, n) + x == LeEncode(w, n) + y
    ensures v == w && x == y
  {
    assert (LeEncode(v, n) + x)[..n] == LeEncode(v, n) && (LeEncode(w, n) + y)[..n] == LeEncode(w, n);
    assert (LeEncode(v, n) + x)[n..] == x && (LeEncode(w, n) + y)[n..] == y;
    LeDecodeOfEncode(v, n);
    LeDecodeOfEncode(w, n);
  }

  // Whatever follows the body, it is the wire form of one descriptor only.
  lemma CcidIsRecovered(d: CcidDescriptor, e: CcidDescriptor, x: bytes, y: bytes)
    requires EncodeCcid(d, x) == EncodeCcid(e, y)
    ensures d == e && x == y
  {
    PowersOf256();
    var x20, y20 := x, y;
    var x19, y19 := LeEncode(d.bMaxCCIDBusySlots, 1) + x20, LeEncode(e.bMaxCCIDBusySlots, 1) + y20;
    var x18, y18 := LeEncode(d.bPINSupport, 1) + x19, LeEncode(e.bPINSupport, 1) + y19;
    var x17, y17 := LeEncode(d.wLcdLayout, 2) + x18, LeEncode(e.wLcdLayout, 2) + y18;
    var x16, y16 := LeEncode(d.bClassEnvelope, 1) + x17, LeEncode(e.bClassEnvelope, 1) + y17;
    var x15, y15 := LeEncode(d.bClassGetResponse, 1) + x16, LeEncode(e.bClassGetResponse, 1) + y16;
    var x14, y14 := LeEncode(d.dwMaxCCIDMessageLength, 4) + x15, LeEncode(e.dwMaxCCIDMessageLength, 4) + y15;
    var x13, y13 := LeEncode(d.dwFeatures, 4) + x14, LeEncode(e.dwFeatures, 4) + y14;
    var x12, y12 := LeEncode(d.dwMechanical, 4) + x13, LeEncode(e.dwMechanical, 4) + y13;
    var x11, y11 := LeEncode(d.dwSynchProtocols, 4) + x12, LeEncode(e.dwSynchProtocols, 4) + y12;
    var x10, y10 := LeEncode(d.dwMaxIFSD, 4) + x11, LeEncode(e.dwMaxIFSD, 4) + y11;
    var x9, y9 := LeEncode(d.bNumDataRatesSupported, 1) + x10, LeEncode(e.bNumDataRatesSupported, 1) + y10;
    var x8, y8 := LeEncode(d.dwMaxDataRate, 4) + x9, LeEncode(e.dwMaxDataRate, 4) + y9;
    var x7, y7 := LeEncode(d.dwDataRate, 4) + x8, LeEncode(e.dwDataRate, 4) + y8;
    var x6, y6 := LeEncode(d.bNumClockRatesSupported, 1) + x7, LeEncode(e.bNumClockRatesSupported, 1) + y7;
    var x5, y5 := LeEncode(d.dwMaximumClock, 4) + x6, LeEncode(e.dwMaximumClock, 4) + y6;
    var x4, y4 := LeEncode(d.dwDefaultClock, 4) + x5, LeEncode(e.dwDefaultClock, 4) + y5;
    var x3, y3 := LeEncode(d.dwProtocols, 4) + x4, LeEncode(e.dwProtocols, 4) + y4;
    var x2, y2 := LeEncode(d.bVoltageSupport, 1) + x3, LeEncode(e.bVoltageSupport, 1) + y3;
    var x1, y1 := LeEncode(d.bMaxSlotIndex, 1) + x2, LeEncode(e.bMaxSlotIndex, 1) + y2;
    FieldsAgree(d.bcdCCID, e.bcdCCID, 2, x1, y1);
    FieldsAgree(d.bMaxSlotIndex, e.bMaxSlotIndex, 1, x2, y2);
    FieldsAgree(d.bVoltageSupport, e.bVoltageSupport, 1, x3, y3);
    FieldsAgree(d.dwProtocols, e.dwProtocols, 4, x4, y4);
    FieldsAgree(d.dwDefaultClock, e.dwDefaultClock, 4, x5, y5);
    FieldsAgree(d.dwMaximumClock, e.dwMaximumClock, 4, x6, y6);
    FieldsAgree(d.bNumClockRatesSupported, e.bNumClockRatesSupported, 1, x7, y7);
    FieldsAgree(d.dwDataRate, e.dwDataRate, 4, x8, y8);
    FieldsAgree(d.dwMaxDataRate, e.dwMaxDataRate, 4, x9, y9);
    FieldsAgree(d.bNumDataRatesSupported, e.bNumDataRatesSupported, 1, x10, y10);
    FieldsAgree(d.dwMaxIFSD, e.dwMaxIFSD, 4, x11, y11);
    FieldsAgree(d.dwSynchProtocols, e.dwSynchProtocols, 4, x12, y12);
    FieldsAgree(d.dwMechanical, e.dwMechanical, 4, x13, y13);
    FieldsAgree(d.dwFeatures, e.dwFeatures, 4, x14, y14);
    FieldsAgree(d.dwMaxCCIDMessageLength, e.dwMaxCCIDMessageLength, 4, x15, y15);
    FieldsAgree(d.bClassGetResponse, e.bClassGetResponse, 1, x16, y16);
    FieldsAgree(d.bClassEnvelope, e.bClassEnvelope, 1, x17, y17);
    FieldsAgree(d.wLcdLayout, e.wLcdLayout, 2, x18, y18);
    FieldsAgree(d.bPINSupport, e.bPINSupport, 1, x19, y19);
    FieldsAgree(d.bMaxCCIDBusySlots, e.bMaxCCIDBusySlots, 1, x20, y20);
  }

  // The offsets are those of the wire form.
  lemma EncodeOfDecode(body: bytes)
    requires CCID_BODY_SIZE <= |body|
    ensures body == EncodeCcid(DecodeCcid(body).value, body[CCID_BODY_SIZE..])
  {
    hide LeEncode, LeDecode;
    assert body[0..] == body;
  }

  // Reading back what was written recovers all twenty fields, whatever follows.
  lemma CcidRoundTrip(d: CcidDescriptor, rest: bytes)
    ensures DecodeCcid(EncodeCcid(d, rest)) == Some(d)
  {
    var body := EncodeCcid(d, rest);
    EncodeOfDecode(body);
    CcidIsRecovered(d, DecodeCcid(body).value, rest, body[CCID_BODY_SIZE..]);
  }
}
