/** The USB device: its descriptor tree (uusb_impl.h) and the kernel interface behind it (usb.c). */
module Usb {
  import opened Bytes
  import opened Buffers
  import opened CcidDescriptors

  const UUSB_MAX_CONFIGS: nat := 8
  const UUSB_MAX_INTERFACES: nat := 8
  const UUSB_MAX_ENDPOINTS: nat := 4

  datatype ClassProto = ClassProto(cls: byte, subclass: byte, protocol: byte)

  datatype DeviceDescriptor = DeviceDescriptor(
    bDevice: ClassProto, bMaxPacketSize0: byte, idVendor: u16, idProduct: u16, bNumConfigurations: byte)

  datatype ConfigDescriptor = ConfigDescriptor(
    bNumInterfaces: byte, bConfigurationValue: byte, bmAttributes: byte, maxPower: byte)

  datatype InterfaceDescriptor = InterfaceDescriptor(
    bInterfaceNumber: byte, bAlternateSetting: byte, bNumEndpoints: byte, bInterface: ClassProto)

  datatype EndpointDescriptor = EndpointDescriptor(bEndpointAddress: byte, bmAttributes: byte)

  datatype InterfaceType = Keyboard | Ccid | Storage

  datatype Interface = Interface(
    descriptor: InterfaceDescriptor,
    kind: Option<InterfaceType>,
    ccid: Option<CcidDescriptor>,
    endpoints: seq<EndpointDescriptor>)

  datatype Config = Config(descriptor: ConfigDescriptor, interfaces: seq<Interface>)

  // The part of uusb_dev_t that the descriptors fill; the counters are the lengths of the sequences.
  datatype Tree = Tree(descriptor: DeviceDescriptor, configs: seq<Config>)

  const BLANK_DEVICE := DeviceDescriptor(ClassProto(0, 0, 0), 0, 0, 0, 0)

  // One interaction with the kernel, in the order they happen.
  datatype Event =
    | SetConfiguration(value: byte, ok: bool)
    | ClaimInterface(number: byte, ok: bool)
    | BulkOut(pkt: bytes, ok: bool)
    | BulkIn(got: Option<bytes>)

  type Log = seq<Event>

  /**
   What kernel, reader and card do, as an arbitrary function of everything that happened before:
   a theorem for every oracle is a theorem for every behaviour of the device. A kernel may write
   the length of what arrived back into the request, or leave there the length asked for.
   */
  datatype Oracle = Oracle(
    configures: (Log, byte) -> bool,
    claims: (Log, byte) -> bool,
    accepts: (Log, bytes) -> bool,
    answers: Log -> Option<bytes>,
    writesBack: bool)

  function Min(a: nat, b: nat): nat {
    if a < b then a else b
  }

  // The octets uusb_recv offers to the kernel: the tailroom of its fresh buffer, as an unsigned int.
  function Capacity(maxlen: u32): u32 {
    ToU32(RoundUp8(maxlen))
  }

  // Lengths of 2^31 and more are negative to uusb_bulk's callers.
  predicate IsInt(n: nat) {
    n < 0x8000_0000
  }

  function Filler(n: nat): (s: bytes)
    ensures |s| == n && forall i | 0 <= i < n :: s[i] == 0xAA
  {
    seq(n, _ => 0xAA)
  }

  // The packet uusb_recv hands up: what arrived, and behind it what the buffer was filled with,
  // as far as the length in the request goes.
  function NextPacket(o: Oracle, maxlen: u32, log: Log): (r: Option<bytes>)
    ensures r.Some? ==> |r.value| <= Capacity(maxlen)
  {
    match o.answers(log)
    case None => None
    case Some(p) =>
      var arrived := p[..Min(|p|, Capacity(maxlen))];
      var s := arrived + Filler(if o.writesBack then 0 else Capacity(maxlen) - |arrived|);
      if IsInt(|s|) then Some(s) else None
  }

  predicate Accepts(o: Oracle, log: Log, pkt: bytes) {
    o.accepts(log, pkt) && IsInt(|pkt|)
  }

  class UsbDevice {
    const oracle: Oracle
    var tree: Tree
    var epOut: int
    var epIn: int
    var epIntr: int
    var log: Log

    // usb_open's zeroed device, before its descriptors are read.
    constructor (oracle: Oracle)
      ensures this.oracle == oracle && log == [] && tree == Tree(BLANK_DEVICE, [])
    {
      this.oracle := oracle;
      tree, epOut, epIn, epIntr, log := Tree(BLANK_DEVICE, []), 0, 0, 0, [];
    }

    // uusb_send
    method Send(pkt: Buffer) returns (ok: bool)
      requires pkt.Valid()
      modifies this`log
      ensures var sent := pkt.Contents()[..pkt.Available()];
              ok == Accepts(oracle, old(log), sent) && log == old(log) + [BulkOut(sent, ok)]
    {
      var sent := pkt.mem[pkt.off + pkt.rpos..pkt.off + pkt.rpos + pkt.Available()];
      ok := Accepts(oracle, log, sent);
      log := log + [BulkOut(sent, ok)];
      assert sent == pkt.Contents()[..pkt.Available()];
    }

    // uusb_recv: a buffer of its own for every packet, filled with 0xAA where nothing arrives.
    method Recv(maxlen: u32) returns (pkt: Buffer?)
      modifies this`log
      ensures var got := NextPacket(oracle, maxlen, old(log));
              && log == old(log) + [BulkIn(got)]
              && (got == None <==> pkt == null)
              && (pkt != null ==>
                    && fresh(pkt) && fresh(pkt.mem) && pkt.Valid() && pkt.Contents() == got.value
                    && pkt.off == pkt.rpos == 0 && pkt.size == Capacity(maxlen))
    {
      var answer := oracle.answers(log);
      var buf := AllocFilled(maxlen);
      if answer == None {
        log := log + [BulkIn(None)];
        return null;
      }
      var data := answer.value[..Min(|answer.value|, buf.Tailroom())];
      var len := if oracle.writesBack then |data| else buf.Tailroom();
      if !IsInt(len) {
        log := log + [BulkIn(None)];
        return null;
      }
      Fill(buf, data, len);
      log := log + [BulkIn(Some(data + Filler(len - |data|)))];
      return buf;
    }

    // What the kernel does to the buffer, and that the write position moves by the length reported.
    static method Fill(buf: Buffer, data: bytes, len: nat)
      requires buf.Valid() && buf.off == buf.rpos == buf.wpos == 0 && |data| <= len <= buf.size
      requires forall i | 0 <= i < buf.size :: buf.mem[i] == 0xAA
      modifies buf`wpos, buf.mem
      ensures buf.Valid() && buf.Contents() == data + Filler(len - |data|)
    {
      buf.Write(0, data);
      buf.wpos := buf.wpos + len;
    }

    static method AllocFilled(maxlen: u32) returns (buf: Buffer)
      ensures fresh(buf) && fresh(buf.mem) && buf.Valid() && buf.Contents() == []
      ensures buf.off == buf.rpos == buf.wpos == 0 && buf.size == Capacity(maxlen)
      ensures forall i | 0 <= i < buf.size :: buf.mem[i] == 0xAA
    {
      buf := new Buffer.AllocWrite(maxlen);
      forall i | buf.wpos <= i < buf.size {
        buf.mem[i] := 0xAA;
      }
    }
  }
}
