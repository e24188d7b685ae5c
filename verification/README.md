# A verified model of utoken-decrypt

utoken-decrypt decrypts a secret with the PIV application of a YubiKey: it reads the USB
descriptors of the device, chooses its CCID interface, powers on the card, selects the PIV
application, presents a PIN if there is one, and has the card decipher the secret. This project
models that stack in Dafny, from the buffer underneath to one whole run, and proves what each
layer means. `dafny verify dfyconfig.toml` checks everything.

Everything outside the program (kernel, reader, card) is one `Oracle`: functions of the complete
log of what happened before. A statement for every oracle is a statement for every behaviour of
the device. Each method that changes state is proved against a specification function over that
log; the theorems are about those functions.

| file | what it models |
|---|---|
| Bytes.dfy | octets, integer widths, little-endian fields |
| Fifo.dfy, Buffer.dfy | the cursor buffer (`bufparser.h`) and the queue it stands for |
| DtParser.dfy, CcidDescriptor.dfy | the cursor over one descriptor (`uusb_const.h`), the CCID class descriptor (`ccid.c`) |
| Usb.dfy | the descriptor tree (`uusb_impl.h`), the kernel interface and its log |
| Descriptors.dfy, DescriptorTheorems.dfy, DescriptorRoundTrip.dfy | the descriptor parser (`descriptor.c`) and what parsing means |
| DescriptorOctets.dfy | each descriptor octet by octet |
| Interfaces.dfy | choosing the CCID interface (`usb.c`) |
| CcidFrames.dfy, CcidTransport.dfy, CcidReader.dfy | CCID messages, one command and its response, the reader (`reader.c`) |
| Scard.dfy | APDUs, status words, GET RESPONSE (`scard.c`) |
| PivCodec.dfy, PivDriver.dfy | the template, the padding, the PIV driver (`yubikey.c`) |
| PivStandards.dfy | strict readers of the same formats, and exactly when the driver agrees with them |
| Session.dfy | one run of the program (`main.c`) |
| Safety.dfy, SafetyMeaning.dfy | an automaton over the log that no run leaves, and what that says |
| Runs.dfy | every run of the program as a run of commands: every packet it sends octet by octet, and when its receive loops as written are safe |
| PivCard.dfy, EndToEnd.dfy | a card with a key, a PIN and a counter of tries, and a decryption against it |
| WholeProgram.dfy | one run from the descriptors to the message, and a device on which it succeeds |

A specification function and the method proved against it could be wrong in the same way. So what
goes over the wire is stated a second time, in octets and without those functions: what is sent in
`ProgramSaysOnly`, what is received in `PacketDecides` and `SlotAnswerDecides`, descriptors in
DescriptorOctets.dfy, features and voltages in `SetupOnBits`; and the card of the end-to-end theorems
shares no constant with the driver.

## How C is rendered

- A C pointer into a buffer is an array and an offset, so sub-buffers share memory. `size_t` is
  unbounded; where the code stores one in an `unsigned int`, the model takes it modulo 2^32, and
  where it reads that as an `int`, lengths of 2^31 and more count as failures.
- `uusb_bulk` returns the length in its request (`usb.c:451`). A kernel may have written there how
  much arrived; if it does not, every packet has the length asked for, filled with AA
  (`usb.c:471`). The oracle says which kernel it is, and the theorems are about both.
- The moving pointers of the descriptor parser are indices into the tree; a NULL pointer is -1.
- Loop bodies and long chains of calls are sometimes split into methods of their own
  (`Consider`, `FetchMore`, `SendFragment`, `ProcessRecord`, `GetHeader`); the order of effects is
  the source's.
- What C leaves undefined is a precondition: eight octets of memory behind a response's read
  position (`yubikey.c:301-316`) and two behind a padded block's (`yubikey.c:326`), which for a
  whole run means that the reader chosen declares a message size of at least 17 that does not
  round to 2^32; a ciphertext length to the encoder below 2^32 - 32 (`yubikey.c:282`); descriptor
  records of at least two octets and no more nodes than the arrays hold (`descriptor.c:185-261`,
  the outcome `Undefined`, which `UndefinedIff` reads off the blob).

## Where the code differs from its standards

Each of these has an input that shows it and the exact condition under which the code does meet the
standard or its own intent. All but the last are kept in the model as the code has them.

- The limits on configurations, interfaces and endpoints are checked with `>` before counting, so
  one node more than declared gets through (`descriptor.c:217`, `descriptor.c:233`,
  `descriptor.c:256`): `OneConfigurationTooMany`, `OneInterfaceTooMany` and `OneEndpointTooMany`
  are such blobs. `DeclaredIffCounts` reads off the records of a blob whether its tree respects the
  declared counts.
- Nothing checks the declared counts of interfaces and endpoints against the arrays
  (`descriptor.c:238`, `descriptor.c:261`): `FifthEndpointIsUndefined` is a blob whose fifth
  endpoint lies behind the array, and `UndefinedIff` says for which blobs something does.
- Unpadding accepts a PS of any length, where section 7.2.2 of RFC 8017 asks for eight octets
  (`yubikey.c:329-335`): `ShortPaddingIsAccepted`. The two agree iff the block does not start
  00 02 with a zero at one of the indices 2 to 9 (`PaddingAgreesIff`).
- `decode_length` takes a first octet of 80 or of 83 to FF for the length itself
  (`yubikey.c:242-257`): `LooseLengthIsAccepted`. It agrees with a reader of all definite forms of
  section 8.1.3 of ITU-T X.690 iff there is no first octet, or it is below 80, or it is 81 or 82
  (`LooseLengthRoundTrip`). So legal responses with a length on four octets or more are refused or
  misread: `LongFormIsRefused`, `LongFormIsNotUnwrapped`.
- The lengths read are ignored (`yubikey.c:301-316`), so octets behind an empty object become its
  payload and can become cleartext: `IgnoredLengthIsAccepted`, `TrailingOctetsAreUnwrapped`.
- `HeaderAgreesIff` and, for header and padding together, `UnwrapAgreesIff` put both together: what
  a strict reader finds the driver finds iff both lengths are short forms, and what the driver finds
  a strict reader finds iff both lengths are ones and count what follows, and PS is not short.
- A packet too short for its payload is meant to be discarded (`reader.c:282-284`), but the code
  falls through to freeing a response that is not there (`reader.c:308`). The model of the loop
  discards the packet, which costs one retry; `WrittenIsIntendedIffWhole` shows that the loop as
  written does the same iff every packet consumed holds a whole message, and
  `RunFailsAsWrittenIffCut` carries that to whole runs. `OverlongPacketIsFatal` and
  `EmptyPacketIsFatal` are inputs for which it does not. Where the kernel does not write the length
  back, a packet cut behind its header goes unnoticed, completed with AA: `CutPacketIsCompleted`.

## Model

| member | source | states |
|---|---|---|
| Fifos.RunIsFifo | bufparser.h:47-333 | of queue values: over any run of put, get, skip, sub-buffer and copy, consumed followed by readable octets are the initial ones followed by what was delivered, in order; capacity never changes and what was consumed stays consumed |
| Buffers.Perform | bufparser.h:47-333 | of buffers over separate memory: whatever is called in whatever order, they go through the run of the queues they stand for, so the same holds of their octets |
| Buffers.PerformOne | bufparser.h:47-324 | one call of any kind on one of them, a copy between two included, is one step of those queues and disturbs no other buffer |
| Fifos.ApplyDelivers | bufparser.h:313-324 | one call, a copy between two buffers included: what it delivers is appended to the target stream and nothing else moves |
| Buffers.Buffer.InitRead | bufparser.h:38-45 | a view over foreign memory: all readable, no room |
| Buffers.Buffer.InitWrite | bufparser.h:189-196 | a view over foreign memory: nothing readable, all room |
| Buffers.Buffer.AllocWrite | bufparser.h:189-208 | capacity is the requested size rounded up to a multiple of eight, as an unsigned int: 0 if that is 2^32 |
| Buffers.Buffer.Skip | bufparser.h:47-55 | succeeds iff that much is readable, and then consumes exactly that; otherwise nothing changes |
| Buffers.Buffer.Seek | bufparser.h:75-83 | moves the read position within what was written, keeping the whole stream |
| Buffers.Buffer.Get | bufparser.h:85-94 | hands out the next octets and consumes them, or fails and changes nothing |
| Buffers.Buffer.GetU16le | bufparser.h:104-111 | the value whose little-endian encoding the two octets are |
| Buffers.Buffer.GetU32le | bufparser.h:113-120 | the value whose little-endian encoding the four octets are |
| Buffers.Buffer.GetU64le | bufparser.h:122-129 | the value whose little-endian encoding the eight octets are |
| Buffers.Buffer.GetBuffer | bufparser.h:153-162 | the sub-buffer shares the memory, holds exactly the next octets, and those are consumed |
| Buffers.Buffer.Put | bufparser.h:235-244 | appends all or nothing, keeps what was consumed, and touches no memory but the octets appended |
| Buffers.Buffer.PutU16le | bufparser.h:252-258 | appends the encoding, from which the value is read back |
| Buffers.Buffer.PutU32le | bufparser.h:260-266 | appends the encoding, from which the value is read back |
| Buffers.Buffer.PutU64le | bufparser.h:268-274 | appends the encoding, from which the value is read back |
| Buffers.Buffer.Truncate | bufparser.h:326-333 | keeps the first octets readable, or fails and keeps all |
| Buffers.Copy | bufparser.h:313-324 | moves octets between two buffers as one step of the queue model, comparing the count with the tailroom as an unsigned int |
| Bytes.LeDecodeOfEncode | bufparser.h:252-274 | decoding undoes little-endian encoding of every value that fits the field |
| Bytes.LeEncodeOfDecode | bufparser.h:104-129 | encoding undoes little-endian decoding of every octet string, whose value fits the field |
| DtParsers.DtParser.constructor | uusb_const.h:64-70 | the cursor covers the record behind its length and type octets |
| DtParsers.DtParser.Assemble | uusb_const.h:85-86 | the down-counting loop yields the positional value of its octets in 64 bits |
| DtParsers.DtParser.GetInteger | uusb_const.h:72-91 | a field inside the record is read and passed; one that does not fit fails the cursor for good |
| DtParsers.DtParser.Skip | uusb_const.h:93-105 | passes n octets or fails the cursor for good |
| DtParsers.DtParser.GetWord16 | uusb_const.h:114-119 | nothing is lost by narrowing: the record is the encoding of the value followed by the rest |
| DtParsers.DtParser.GetWord32 | uusb_const.h:121-126 | nothing is lost by narrowing: the record is the encoding of the value followed by the rest |
| CcidDescriptors.ParseCcidBody | ccid.c:26-53 | succeeds iff 52 body octets are there, consumes exactly those, and yields what they encode |
| CcidDescriptors.ParseCcidDescriptor | ccid.c:26-53 | the same for a record inside the descriptor blob |
| CcidDescriptors.ReadFields | ccid.c:33-52 | the record is the wire form of the twenty fields read, followed by what is left |
| CcidDescriptors.CcidIsRecovered | ccid.c:33-52 | the wire form determines all twenty fields, whatever follows |
| CcidDescriptors.CcidRoundTrip | ccid.c:26-53 | parsing a serialised CCID descriptor recovers all twenty fields |
| Descriptors.FindInterfaceType | descriptor.c:82-93 | the first known class that matches, FF being a wildcard |
| Descriptors.KnownTypes | descriptor.c:35-40 | boot keyboards, CCID readers and storage of any kind are the known interfaces |
| Descriptors.ReadDevice | descriptor.c:95-110 | the kept fields of a device body, or failure when it is short |
| Descriptors.ReadConfig | descriptor.c:112-123 | the kept fields of a configuration body, or failure when it is short |
| Descriptors.ReadInterface | descriptor.c:125-135 | the kept fields of an interface body, or failure when it is short |
| Descriptors.ReadEndpoint | descriptor.c:137-144 | the kept fields of an endpoint body, or failure when it is short |
| Descriptors.ProcessRecord | descriptor.c:211-273 | the switch through the current pointers is one step of the fold, and keeps the pointers on the last configuration and interface |
| Descriptors.ParseDescriptors | descriptor.c:177-277 | the loop terminates, and accepts and builds exactly what the fold over length-prefixed records does |
| DescriptorTheorems.StepAppends | descriptor.c:211-273 | one record appends its node, or none, at the end of the tree in preorder |
| DescriptorTheorems.TreeListsRecords | descriptor.c:185-274 | for every accepted blob, the tree in preorder is exactly the recognised records in order: counts agree, and each node hangs below the nearest parent before it |
| DescriptorTheorems.ParsedTreeListsRecords | descriptor.c:177-277 | the same for a whole blob, device record included |
| DescriptorTheorems.AcceptedWithinLimits | descriptor.c:217-261 | an accepted tree has at most one child more than each parent declared, and fits the arrays |
| DescriptorTheorems.DeclaredIffCounts | descriptor.c:217-261 | an accepted tree respects the declared counts iff, counting the blob's records, there are no more configurations, no more interfaces up to the next configuration and no more endpoints up to the next other node than declared |
| DescriptorRoundTrip.OneConfigurationTooMany | descriptor.c:217-222 | a blob that declares one configuration and is accepted with two: the limit is one too loose |
| DescriptorRoundTrip.OneInterfaceTooMany | descriptor.c:233-238 | a blob whose configuration declares no interface and is accepted with one |
| DescriptorRoundTrip.OneEndpointTooMany | descriptor.c:256-261 | a blob whose interface declares no endpoint and is accepted with one, for every endpoint |
| DescriptorTheorems.UndefinedIff | descriptor.c:185-261 | parsing goes astray iff what is before some record is accepted and that record is shorter than its header, or meets eight configurations, eight interfaces or four endpoints, counted in the records before it, where more are declared |
| DescriptorRoundTrip.FifthEndpointIsUndefined | descriptor.c:256-263 | a blob whose interface declares and has five endpoints |
| DescriptorOctets.DeviceOnTheWire | descriptor.c:95-110 | the 18 octets of a device descriptor: accepted iff octet 17 is 1 to 8, and where each kept field is |
| DescriptorOctets.ConfigOnTheWire | descriptor.c:112-123 | the nine octets of a configuration descriptor, and what becomes of each |
| DescriptorOctets.InterfaceOnTheWire | descriptor.c:125-135 | the nine octets of an interface descriptor, and what becomes of each |
| DescriptorOctets.EndpointOnTheWire | descriptor.c:137-144 | the seven octets of an endpoint descriptor, and what becomes of each |
| DescriptorOctets.CcidOnTheWire | ccid.c:33-52 | the 52 octets of a CCID class descriptor, and which field each belongs to |
| DescriptorOctets.SecondDeviceIsRejected | descriptor.c:212-214 | a second device record is refused |
| DescriptorOctets.MalformedBlobIsRejected | descriptor.c:191-203 | a blob that does not begin with a whole device record of 18 octets is refused |
| DescriptorOctets.OverlongRecordIsRejected | descriptor.c:191-194 | so is one with a record that reaches behind its end |
| DescriptorOctets.MisplacedRecordIsRejected | descriptor.c:211-273 | and one with a record that is too short for what it describes, or comes before what it belongs to |
| DescriptorRoundTrip.ParseIsFold | descriptor.c:185-198 | parsing the octets of a list of records is folding over the list, an unread two-octet tail included |
| DescriptorRoundTrip.ItemsFold | descriptor.c:250-271 | endpoints join the interface in order, and its last class descriptor stays |
| DescriptorRoundTrip.InterfacesFold | descriptor.c:227-248 | interfaces join their configuration in order, each with its own children |
| DescriptorRoundTrip.ConfigsFold | descriptor.c:216-226 | configurations join the device in order, class descriptors before the first interface being passed over |
| DescriptorRoundTrip.ParseUndoesSerialise | descriptor.c:177-277 | serialising any well-formed device and parsing it rebuilds every kept field, child order and counts, and the last CCID descriptor of each CCID interface |
| Usb.UsbDevice.Send | usb.c:454-461 | sends exactly the readable octets; the outcome is the oracle's |
| Usb.UsbDevice.Recv | usb.c:424-486 | a fresh buffer holding what arrived, cut to the buffer's tailroom and followed by filler up to the length reported; nothing if that is negative as an int |
| Interfaces.LastOfIsLast | usb.c:375-390 | on the fields: the address kept is that of the last endpoint of that transfer type, with bit 7 set for input and clear for output, or -1 if there is none |
| Interfaces.LastIsOne | usb.c:375-390 | there is only one such address |
| Interfaces.SetEndpoints | usb.c:366-393 | written to is the last bulk endpoint below 80, read from the last bulk one from 80 on, and the interrupt endpoint is the last of those; usable iff both bulk ones exist |
| Interfaces.SelectInterface | usb.c:335-364 | which requests reach the kernel, and that the first refusal ends them |
| Interfaces.SlotsAreAll | usb.c:403-407 | the positions visited are all there are, in lexicographic order |
| Interfaces.SelectCcidInterface | usb.c:395-420 | the nested loops choose as the search does, and leave the endpoints of the chosen interface, output below 80 and input from 80 on; if none is chosen, those of the last interface with a CCID descriptor, or the old ones |
| Interfaces.LastCcidIsLast | usb.c:403-411 | that interface is the last with a CCID descriptor in the order of the loops, and there is none only if no interface has one |
| Interfaces.ChoiceIsFirst | usb.c:395-420 | the interface chosen is the first that is usable and granted, given what the kernel saw before it; none is chosen only if none is |
| CcidFrames.BuildFrame | reader.c:186-215 | the buffer holds the framed message, and runs out iff its rounded size does not fit an unsigned int |
| CcidFrames.ParseResponse | reader.c:148-174 | yields the message at the front of the packet and leaves exactly its payload readable |
| CcidFrames.FrameRoundTrip | reader.c:148-215 | any message is recovered from its frame, whatever trails it |
| CcidFrames.CutFrameIsRejected | reader.c:154-170 | no strict prefix of a frame is taken for a message |
| CcidFrames.ParsedIsFront | reader.c:148-174 | a parsed message is the packet's own front |
| CcidTransport.AwaitIsDecidedByLast | reader.c:266-310 | at most one packet a retry is consumed, all but the last are ignorable, and the result is what the last one says |
| CcidTransport.PacketDecides | reader.c:281-305 | on the octets: a packet ends the polling iff it answers the command and is no time extension (octet 7 in 80 to BF); it ends it without a response iff the type is another or octet 7 is 40 to 7F or C0 to FF, with its message iff octet 7 is below 40 |
| CcidTransport.JudgedOnOctets | reader.c:281-305 | the same of one packet |
| CcidTransport.ExtensionsOnlyDelay | reader.c:295-303 | whatever time extensions come before it, as long as there are retries, the answer is what is returned |
| CcidTransport.SlowAnswerIsReturned | reader.c:246-318 | up to five of them before the answer to a command, and the command returns the answer |
| CcidTransport.WrittenIsIntendedIffWhole | reader.c:281-308 | the receive loop as written does what is intended iff every packet that is consumed holds a whole message; otherwise it accesses a null response |
| CcidTransport.OverlongPacketIsFatal | reader.c:281-308 | one packet that announces more than is there is enough for that |
| CcidTransport.EmptyPacketIsFatal | usb.c:463-486 | and so is an empty one, with its buffer filled or not |
| CcidTransport.CutPacketIsCompleted | usb.c:463-486 | where the length is not written back, a packet cut behind its header is taken for a whole message whose payload ends in filler |
| CcidTransport.IgnorableOnlyCostsRetries | reader.c:266-310 | inserting an ignorable packet anywhere can only use up retries, never change which response is returned |
| CcidTransport.AwaitFilters | reader.c:246-318 | polling a device that delivers a stream decides as the filter on that stream |
| CcidTransport.TransactInStep | reader.c:260-264 | one command, sent or not, keeps the counter in 0..256 and in step with the commands sent |
| CcidTransport.RunInStep | reader.c:186-264 | over every run, sent commands carry 0, 1, 2, ... modulo 256 and a failed send leaves its number to the next |
| CcidTransport.StaleIsIgnored | reader.c:286-304 | a response to any of the 255 commands sent before is ignored, whatever else it says |
| CcidReaders.Reader.BuildCommand | reader.c:186-215 | the frame carries the counter modulo 256, and the counter does not move; no frame exactly when its buffer runs out |
| CcidReaders.Reader.Consider | reader.c:281-305 | one packet is judged by slot, number, type and status bits, on its octets, a cut one being discarded; an accepted one keeps its payload in place |
| CcidReaders.Reader.Xfer | reader.c:246-318 | sends once, then at most six receives; log, counter and response are those of the transport's specification |
| CcidReaders.Reader.GetSlotStatus | reader.c:320-348 | status 0 iff the low two bits of the status octet are 2 |
| CcidReaders.SlotAnswerDecides | reader.c:333-336 | on the octets of the answer: a card is there iff it is active (0), inactive (1) or in the unused state 3, not if absent (2) |
| CcidReaders.Reader.CardPowerOn | reader.c:350-380 | one power-on with that selector; the ATR is the payload, cut to 64 octets |
| CcidReaders.Reader.ResetCard | reader.c:382-401 | automatic voltage first if supported, then each supported voltage until one is answered |
| CcidReaders.ResetFollowsPlan | reader.c:382-401 | the supported ones of the selectors 0 to 3 are tried in order, each once, until one is answered; if none is, all were tried |
| CcidReaders.PlanOnBits | reader.c:391-395 | bit 0 of the supported voltages stands for selector 1, bit 1 for 2 and bit 2 for 3, tried in that order |
| CcidReaders.Reader.SelectSlot | reader.c:403-425 | the slot becomes current iff its status octet reports a card that is not absent; a current slot is not asked about |
| CcidReaders.Reader.IdentifyCard | reader.c:427-440 | only the current slot is reset |
| CcidReaders.Reader.ApduXfer | reader.c:524-550 | the payload of the response, in the packet it came in |
| Scard.BuildApdu | scard.c:269-290 | class, instruction, P1, P2 and length in this order, then the data; refused iff the length exceeds 255 |
| Scard.Card.CardApdu | scard.c:198-221 | the last two octets become the status word and leave the buffer; a shorter response is an error |
| Scard.Card.FetchMore | scard.c:231-259 | one round appends exactly the advertised octets, or ends the exchange |
| Scard.Card.CardXfer | scard.c:223-267 | the loop terminates by the buffer's tailroom and computes the specified reassembly |
| Scard.ContinuesMeans | scard.c:246-251 | every later fragment has exactly the length that the status word before it advertised, 00 meaning 256 |
| Scard.CollectJoins | scard.c:231-261 | whatever is returned is the first data and every later fragment in order, with the last status word |
| Scard.ReassemblyIsConcatenation | scard.c:223-267 | for every card: a reply is returned iff the answers are as long as advertised and fit, and it is then their concatenation without the intermediate status words |
| Scard.CollectIsBounded | scard.c:231-259 | each surviving round adds an octet at least, so the room bounds the rounds; the final status never asks for more |
| Scard.CardXferIsBounded | scard.c:223-267 | a card that keeps asking is cut off: an exchange sends one APDU, or at least eight fewer than the buffer has octets |
| PivCodec.PushByte | yubikey.c:219-224 | one octet in front, nothing else in the array changed |
| PivCodec.PushLength | yubikey.c:226-240 | the minimal BER length in front, nothing else in the array changed |
| PivCodec.Push | yubikey.c:259-268 | the block in front if it fits, otherwise nothing is written |
| PivCodec.LengthRoundTrip | yubikey.c:226-257 | a reader of all definite BER forms reads back every length below 65536 and stops right behind it |
| PivCodec.LengthIsMinimal | yubikey.c:226-240 | no definite form, of however many octets, is shorter |
| PivCodec.LooseLengthRoundTrip | yubikey.c:242-257 | decode_length undoes the encoding whatever follows, and agrees with a reader of all definite forms iff there is no first octet or it begins one of at most three octets |
| PivCodec.DecodeLength | yubikey.c:242-257 | the length and the position right behind it |
| PivCodec.PushInner | yubikey.c:285-290 | written back to front, the octets are the inner template read forward |
| PivCodec.EncodeDecipherArgs | yubikey.c:273-299 | refused iff the ciphertext exceeds 992 octets; otherwise exactly the template, the write position never below 22 |
| PivCodec.TemplateRoundTrip | yubikey.c:273-299 | a forward reader of the template finds lengths that cover the rest and the ciphertext itself |
| PivCodec.HeaderOfPrefix | yubikey.c:301-316 | octets behind the readable ones never decide whether a response is unwrapped |
| PivCodec.DecodeDecipherResp | yubikey.c:301-316 | the header is skipped iff it is readable in full; otherwise everything stays |
| PivCodec.WrapRoundTrip | yubikey.c:301-316 | unwrapping any payload wrapped in 7c and 82 leaves exactly the payload |
| PivCodec.RemovePadding | yubikey.c:318-338 | leaves what follows the padding, or everything when there is none |
| PivCodec.UnpadOfPad | yubikey.c:318-338 | unpadding undoes padding for every zero-free PS and every message, zeros included |
| PivCodec.UnpadIff | yubikey.c:318-338 | it succeeds iff the block starts 00 02 and has a zero at index 2 or later |
| PivCodec.SplitIsUnique | yubikey.c:318-338 | a block has only one reading as padding and message |
| PivStandards.RfcPaddingMeans | yubikey.c:318-338 | the strict reader of padding accepts exactly 00 02, a zero-free PS of eight octets or more, and 00 |
| PivStandards.PaddingAgreesIff | yubikey.c:318-338 | the driver's unpadding agrees with it iff no zero stands at an index 2 to 9 behind 00 02 |
| PivStandards.ShortPaddingIsAccepted | yubikey.c:329-335 | 00 02 00 is unpadded to nothing |
| PivStandards.LooseLengthIsAccepted | yubikey.c:242-257 | the octet 80 is taken for a length, and 83 00 00 02 for the length 83 and not 2 |
| PivStandards.StrictHeaderOfWrap | yubikey.c:301-316 | the strict reader of headers unwraps every payload up to 65531 octets |
| PivStandards.HeaderAgreesIff | yubikey.c:301-316 | a header that a strict reader finds is the driver's iff both lengths are on three octets or fewer; one that the driver finds is a strict reader's iff both lengths are ones and count what follows |
| PivStandards.LongFormIsRefused | yubikey.c:242-257 | a legal header with a length on four octets that the driver refuses |
| PivStandards.IgnoredLengthIsAccepted | yubikey.c:301-316 | two octets behind an empty object are taken for its payload |
| PivStandards.StrictUnwrapOfResponse | yubikey.c:408-418 | the strict reader of header and padding gets every message back |
| PivStandards.UnwrapAgreesIff | yubikey.c:408-418 | a strict reader's message is the driver's iff both lengths are on three octets or fewer; the driver's cleartext is a strict reader's iff both lengths are ones and count what follows and PS is not short |
| PivStandards.LongFormIsNotUnwrapped | yubikey.c:408-418 | a legal response around every message up to 112 octets of which the driver makes nothing |
| PivStandards.TrailingOctetsAreUnwrapped | yubikey.c:408-418 | any message behind an object that is empty by its own account becomes cleartext |
| PivDriver.PaddedPin | yubikey.c:178-187 | the field is eight octets: the PIN, then FF |
| PivDriver.SelectApplication | yubikey.c:87-116 | true iff the card ends the SELECT with 9000 |
| PivDriver.VerifyPin | yubikey.c:168-217 | a PIN over eight octets is not sent; true iff 9000; 63Cx yields the tries left |
| PivDriver.ConnectCard | yubikey.c:138-166 | fails iff SELECT does; sets the default key slot, and learns whether a PIN is wanted |
| PivDriver.FragmentsKeepMessage | yubikey.c:372-406 | the fragments concatenate to the message, each has 1 to 255 octets, all but the last are full and chained, the last is not |
| PivDriver.ReceiverRecoversMessage | yubikey.c:372-406 | a receiver that joins chained fragments gets the message back as one command |
| PivDriver.FailureStops | yubikey.c:386-403 | the first fragment not answered 9000 is the last one sent |
| PivDriver.FailedFragmentEndsDecipher | yubikey.c:389-403 | and there is no cleartext then |
| PivDriver.SendFragment | yubikey.c:373-405 | one round sends the next fragment, and drops it only once it is answered 9000 |
| PivDriver.SendTemplate | yubikey.c:372-406 | the loop sends the fragments as specified and hands up the last answer |
| PivDriver.StripResponse | yubikey.c:408-418 | unwraps and unpads in place |
| PivDriver.DecipherData | yubikey.c:340-426 | log and cleartext are those of the specification, for every device |
| EndToEnd.CollectServed | scard.c:231-261 | against a card that keeps its word, GET RESPONSE fetches all fragments of any cut |
| EndToEnd.SendAllServed | yubikey.c:372-406 | against such a card, which looks at algorithm and key reference, chaining delivers the template and brings back the whole response |
| EndToEnd.DecipherReturnsMessage | yubikey.c:340-426 | for any key operation, padding, message, cut of the response and up to five packets to ignore before each answer: the cleartext is exactly the message, once the card lets the key be used |
| EndToEnd.DecipherIsRefused | yubikey.c:389-403 | while it does not, or if its key has another reference or size, there is no cleartext |
| EndToEnd.ConnectServed | yubikey.c:138-166 | connecting succeeds, finds out whether the card has a PIN, and costs no try |
| EndToEnd.VerifyServed | yubikey.c:168-217 | a PIN is verified iff it fits the field and is the card's, or the card has none, and there are tries; a wrong one costs one try and the tries left, up to 15, are told; one too long costs none |
| EndToEnd.UseCardRefuses | main.c:175-195 | wrong PIN, PIN too long, no tries left, or no PIN where the key needs one: no cleartext for any ciphertext, at most one try spent, none without a PIN, and with a PIN no AUTHENTICATE sent; nor is there a cleartext if the card's key is not the one asked for |
| EndToEnd.UseCardReturnsMessage | main.c:175-195 | on an identified card the run ends with the message exactly if the card admits the PIN given, or admits that none is given, and has the key asked for, 9e by default; the tries are what that costs |
| WholeProgram.PowerIsFound | reader.c:382-401 | if one of the supported selectors works, the reset finds it, whichever others go unanswered |
| WholeProgram.SessionReturnsMessage | main.c:160-195 | the same for the whole session with a device that reports and powers its card |
| WholeProgram.EmptySlotEndsSession | main.c:160-162 | an answer that says absent ends the session with nothing more sent |
| WholeProgram.ProgramReturnsMessage | main.c:148-196 | and for the whole program on a device just opened, through the interface that is chosen: the message exactly if the card admits the PIN |
| WholeProgram.TokenIsBuilt | descriptor.c:177-277 | the descriptors of a small token, with any CCID class descriptor, parse to the tree they describe |
| WholeProgram.TokenIsChosen | usb.c:395-420 | its one interface is chosen without a request to the kernel |
| WholeProgram.TokenEndpoints | usb.c:375-390 | what is written to it goes to its endpoint 02 and what is read comes from 81 |
| WholeProgram.TwoConfigurationsAreBuilt | descriptor.c:177-277 | the descriptors of a token with two configurations parse to the tree they describe |
| WholeProgram.SecondConfigurationIsSelected | usb.c:335-364 | of that token: the kernel is asked for the configuration value of the reader's configuration, then for its interface number unless that is 0, and either refusal ends the search |
| WholeProgram.SomeDeviceReturnsMessage | main.c:148-196 | from the octets of those descriptors to the message: for every suitable class descriptor, key operation, PIN and message some device meets all that the theorems ask |
| Sessions.KeySlot | main.c:167-173 | one option the card refuses ends the run, otherwise the last one counts |
| Sessions.CreateReader | reader.c:87-126 | a reader exists iff an interface is chosen and its features suit; it starts with number 0 and no slot |
| Sessions.SetupOnBits | reader.c:553-593 | bit by bit: T=0 or T=1, feature 17 or 18, 1 and 6 are needed; feature 2 or 3 is automatic voltage, which is tried first and then the supported ones |
| Sessions.OpenCard | main.c:160-173 | slot, reset, known ATR and options in that order, nothing sent after a failure |
| Sessions.RunCard | main.c:175-195 | connect, PIN if given, decipher, each only after the one before |
| Sessions.DoIt | main.c:148-196 | log and cleartext are those of the specification, for every device, tree, PIN and options |
| Safety.SessionWatched | main.c:160-195 | for every device the session stays inside the automaton of allowed commands, numbered in the order sent |
| Safety.RunIsSafe | main.c:148-196 | the same from a device just opened, choosing the interface included |
| SafetyMeaning.PinAtMostOnce | yubikey.c:168-195 | a safe log has at most one VERIFY that carries a PIN, and none without one |
| SafetyMeaning.SelectorsRise | reader.c:382-401 | power-on selectors strictly rise within 0..3 |
| SafetyMeaning.NoPowerOnAfterAnswer | reader.c:382-401 | no power-on follows an answered one |
| SafetyMeaning.FirstAsksForSlot | reader.c:403-414 | the first command is the slot status |
| SafetyMeaning.CommandsAreEarned | main.c:148-196 | a power-on follows an answered slot status that reports a card, a block an answered power-on; AUTHENTICATE follows a SELECT that ended 9000 and, with a PIN, a VERIFY that ended 9000 |
| SafetyMeaning.NothingElseIsSent | main.c:148-196 | every command is a slot status, a power-on, or a block with SELECT, VERIFY, AUTHENTICATE or GET RESPONSE |
| SafetyMeaning.SafeIsNumbered | reader.c:186-264 | every command carries the number of commands sent before it, modulo 256 |
| SafetyMeaning.SafeIsDisciplined | main.c:148-196 | every log inside the automaton: slot status first, no command of another kind, commands numbered in order, at most one PIN, rising selectors and none after an answer, and no power-on, block, PIN or AUTHENTICATE before what it needs was granted |
| SafetyMeaning.WholeRun | main.c:148-196 | that holds of every run of the program, on every device |
| Runs.SessionIsRun | main.c:160-195 | what a session does is a run of well-formed commands, each awaited before the next; blocks only to a known card and with no option refused, and no cleartext without them |
| Runs.ProgramSaysOnly | main.c:148-196 | for every device and every input: each packet sent is, octet by octet, a slot status, a power-on with selector 0 to 3, or a block with SELECT, VERIFY without or with the padded PIN, AUTHENTICATE with the algorithm of the ciphertext's length, the key and the template in its pieces, or GET RESPONSE, numbered in order |
| Runs.RunFailsAsWrittenIffCut | reader.c:266-310 | over every run of the program, some receive loop as written accesses a null response iff some packet received does not hold a whole message |

## Left out

- CcidReaders.Reader.Consider: the discard of a packet cut short is the intended one; what the code does at `reader.c:308`, where it accesses a null response, is stated by WrittenIsIntendedIffWhole and RunFailsAsWrittenIffCut and not part of the runs.
- Descriptors.ParseDescriptors: says nothing about the tree when parsing fails; the program then drops the device.
- File input and output, sysfs, `/dev/bus/usb` and the ioctls behind the log (`bufparser.c`, most of `usb.c`).
- Command-line parsing, logging and the dump helpers.
- RSA: the card's key operation is an arbitrary function of the ciphertext.
- Allocation failure, freeing and leaks.
- The text of card options: each comes as the key slot it was read as, or as nothing (`yubikey.c:118-136`).
- The driver registry: a card is known if its ATR is one of the four that are registered (`yubikey.c:54-57`, `scard.c:86-136`).
- The endpoint address of a transfer: the log does not repeat it; it is the chosen interface's throughout.
- Code compiled out (`NOT_NEEDED`, `WITH_UTF16`) and the unused hex parser of `util.c`.
