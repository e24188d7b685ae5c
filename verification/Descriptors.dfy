/** The USB descriptor parser (descriptor.c), section 9.6 of the USB 2.0 specification. */
module Descriptors {
  import opened Bytes
  import opened DtParsers
  import opened CcidDescriptors
  import opened Usb

  const DT_DEVICE: byte := 0x01
  const DT_CONFIG: byte := 0x02
  const DT_INTERFACE: byte := 0x04
  const DT_ENDPOINT: byte := 0x05

  // The known interface classes, in the order they are tried; FF matches anything.
  const INTERFACE_TYPES: seq<(InterfaceType, ClassProto)> := [
    (Keyboard, ClassProto(3, 1, 1)),
    (Ccid, ClassProto(11, 0, 0)),
    (Storage, ClassProto(8, 0xFF, 0xFF))]

  predicate Matches(want: ClassProto, got: ClassProto) {
    && (want.cls == 0xFF || want.cls == got.cls)
    && (want.subclass == 0xFF || want.subclass == got.subclass)
    && (want.protocol == 0xFF || want.protocol == got.protocol)
  }

  function FindType(got: ClassProto, i: nat): Option<InterfaceType>
    requires i <= |INTERFACE_TYPES|
    decreases |INTERFACE_TYPES| - i
  {
    if i == |INTERFACE_TYPES| then None
    else if Matches(INTERFACE_TYPES[i].1, got) then Some(INTERFACE_TYPES[i].0)
    else FindType(got, i + 1)
  }

  // Boot keyboards, CCID readers and storage of any kind are known, nothing else is.
  lemma KnownTypes(got: ClassProto)
    ensures FindType(got, 0) ==
      if got == ClassProto(3, 1, 1) then Some(Keyboard)
      else if got == ClassProto(11, 0, 0) then Some(Ccid)
      else if got.cls == 8 then Some(Storage)
      else None
  {
    assert FindType(got, 1) == if Matches(INTERFACE_TYPES[1].1, got) then Some(Ccid) else FindType(got, 2);
    assert FindType(got, 3) == None;
  }

  // The fields that are kept of each body, and how long it must be.

  function DecodeDevice(b: bytes): Option<DeviceDescriptor> {
    if |b| < 16 then None else
    Some(DeviceDescriptor(ClassProto(b[2], b[3], b[4]), b[5], FieldAt(b, 6, 2), FieldAt(b, 8, 2), b[15]))
  }

  function DecodeConfig(b: bytes): Option<ConfigDescriptor> {
    if |b| < 7 then None else Some(ConfigDescriptor(b[2], b[3], b[5], b[6]))
  }

  function DecodeInterface(b: bytes): Option<InterfaceDescriptor> {
    if |b| < 7 then None else Some(InterfaceDescriptor(b[0], b[1], b[2], ClassProto(b[3], b[4], b[5])))
  }

  function DecodeEndpoint(b: bytes): Option<EndpointDescriptor> {
    if |b| < 5 then None else Some(EndpointDescriptor(b[0], b[1]))
  }

  // Undefined stands for what the parser is not made for: a record shorter than its own header,
  // from which it reads on or does not move on, or a node behind the end of one of the arrays.
  datatype Outcome = Parsed(tree: Tree) | Rejected | Undefined

  function LastConfig(t: Tree): Config
    requires t.configs != []
  {
    t.configs[|t.configs| - 1]
  }

  function WithLastConfig(t: Tree, c: Config): Tree
    requires t.configs != []
  {
    t.(configs := t.configs[|t.configs| - 1 := c])
  }

  function LastInterface(c: Config): Interface
    requires c.interfaces != []
  {
    c.interfaces[|c.interfaces| - 1]
  }

  function WithLastInterface(c: Config, i: Interface): Config
    requires c.interfaces != []
  {
    c.(interfaces := c.interfaces[|c.interfaces| - 1 := i])
  }

  function NewInterface(d: InterfaceDescriptor): Interface {
    Interface(d, FindType(d.bInterface, 0), None, [])
  }

  // One record behind the first: a configuration joins the device, an interface the last
  // configuration, an endpoint or class descriptor that configuration's last interface. The
  // limits are the source's own, which let one node more than declared pass.
  function Step(t: Tree, r: bytes): Outcome
    requires 2 <= |r|
  {
    var kind, b := r[1], r[2..];
    if kind == DT_DEVICE then Rejected
    else if kind == DT_CONFIG then
      if |t.configs| > t.descriptor.bNumConfigurations then Rejected
      else if |t.configs| >= UUSB_MAX_CONFIGS then Undefined
      else match DecodeConfig(b)
        case None => Rejected
        case Some(d) => Parsed(t.(configs := t.configs + [Config(d, [])]))
    else if t.configs == [] then
      if kind == DT_INTERFACE || kind == DT_ENDPOINT then Rejected else Parsed(t)
    else
      var c := LastConfig(t);
      if kind == DT_INTERFACE then
        if |c.interfaces| > c.descriptor.bNumInterfaces then Rejected
        else if |c.interfaces| >= UUSB_MAX_INTERFACES then Undefined
        else match DecodeInterface(b)
          case None => Rejected
          case Some(d) => Parsed(WithLastConfig(t, c.(interfaces := c.interfaces + [NewInterface(d)])))
      else if c.interfaces == [] then
        if kind == DT_ENDPOINT then Rejected else Parsed(t)
      else
        var i := LastInterface(c);
        if kind == DT_ENDPOINT then
          if |i.endpoints| > i.descriptor.bNumEndpoints then Rejected
          else if |i.endpoints| >= UUSB_MAX_ENDPOINTS then Undefined
          else match DecodeEndpoint(b)
            case None => Rejected
            case Some(d) => Parsed(WithLastConfig(t, WithLastInterface(c, i.(endpoints := i.endpoints + [d]))))
        else if i.kind != Some(Ccid) then Parsed(t)
        else match DecodeCcid(b)
          case None => Rejected
          case Some(d) => Parsed(WithLastConfig(t, WithLastInterface(c, i.(ccid := Some(d)))))
  }

  // Records one after another; two octets or fewer at the end are not a record.
  function ParseRest(t: Tree, s: bytes): Outcome
    decreases |s|
  {
    if |s| <= 2 then Parsed(t)
    else if s[0] > |s| then Rejected
    else if s[0] < 2 then Undefined
    else match Step(t, s[..s[0]])
      case Parsed(t') => ParseRest(t', s[s[0]..])
      case bad => bad
  }

  predicate GoodDevice(d: DeviceDescriptor) {
    1 <= d.bNumConfigurations <= UUSB_MAX_CONFIGS
  }

  // The first record must be the device's.
  function ParseBlob(s: bytes): Outcome {
    if |s| <= 2 then Parsed(Tree(BLANK_DEVICE, []))
    else if s[0] > |s| then Rejected
    else if s[0] < 2 then Undefined
    else if s[1] != DT_DEVICE then Rejected
    else match DecodeDevice(s[..s[0]][2..])
      case None => Rejected
      case Some(d) => if GoodDevice(d) then ParseRest(Tree(d, []), s[s[0]..]) else Rejected
  }

  // The readers

  method FindInterfaceType(got: ClassProto) returns (kind: Option<InterfaceType>)
    ensures kind == FindType(got, 0)
  {
    var i := 0;
    while i < |INTERFACE_TYPES|
      invariant i <= |INTERFACE_TYPES| && FindType(got, 0) == FindType(got, i)
    {
      if Matches(INTERFACE_TYPES[i].1, got) {
        return Some(INTERFACE_TYPES[i].0);
      }
      i := i + 1;
    }
    return None;
  }

  // The same reads, said of the octets in front.

  lemma FrontField(s: bytes, v: nat, n: nat, rest: bytes)
    requires n in {1, 2} && v < Pow256(n) && s == LeEncode(v, n) + rest
    ensures rest == s[n..] && v == LeDecode(s[..n])
    ensures n == 1 ==> v == s[0]
  {
    LeDecodeOfEncode(v, n);
    assert s[..n] == LeEncode(v, n);
  }

  method NextByte(dt: DtParser) returns (ok: bool, v: byte)
    requires dt.Valid() && dt.okay
    modifies dt
    ensures dt.Valid() && ok == dt.okay == (1 <= |old(dt.Rest())|)
    ensures ok ==> v == old(dt.Rest())[0] && dt.Rest() == old(dt.Rest())[1..]
  {
    PowersOf256();
    ok, v := dt.GetByte();
    if ok {
      FrontField(old(dt.Rest()), v, 1, dt.Rest());
    }
  }

  method NextWord(dt: DtParser) returns (ok: bool, v: u16)
    requires dt.Valid() && dt.okay
    modifies dt
    ensures dt.Valid() && ok == dt.okay == (2 <= |old(dt.Rest())|)
    ensures ok ==> v == LeDecode(old(dt.Rest())[..2]) && dt.Rest() == old(dt.Rest())[2..]
  {
    PowersOf256();
    ok, v := dt.GetWord16();
    if ok {
      FrontField(old(dt.Rest()), v, 2, dt.Rest());
    }
  }

  method ReadClassProto(dt: DtParser) returns (ok: bool, c: ClassProto)
    requires dt.Valid() && dt.okay
    modifies dt
    ensures dt.Valid() && ok == dt.okay == (3 <= |old(dt.Rest())|)
    ensures ok ==> dt.Rest() == old(dt.Rest())[3..]
    ensures ok ==> var b := old(dt.Rest()); c == ClassProto(b[0], b[1], b[2])
  {
    var cls, subclass, protocol;
    c := ClassProto(0, 0, 0);
    ok, cls := NextByte(dt); if !ok { return; }
    ok, subclass := NextByte(dt); if !ok { return; }
    ok, protocol := NextByte(dt); if !ok { return; }
    c := ClassProto(cls, subclass, protocol);
  }

  method SkipReleaseAndStrings(dt: DtParser) returns (ok: bool)
    requires dt.Valid() && dt.okay
    modifies dt
    ensures dt.Valid() && ok == dt.okay == (5 <= |old(dt.Rest())|)
    ensures ok ==> dt.Rest() == old(dt.Rest())[5..]
  {
    ok := dt.Skip(2); if !ok { return; }
    ok := dt.Skip(1); if !ok { return; }
    ok := dt.Skip(1); if !ok { return; }
    ok := dt.Skip(1); if !ok { return; }
  }

  method ReadDevice(dt: DtParser) returns (d: Option<DeviceDescriptor>)
    requires dt.Valid() && dt.okay
    modifies dt
    ensures d == DecodeDevice(old(dt.Rest()))
  {
    hide LeDecode;
    ghost var b := dt.Rest();
    var ok := dt.Skip(2); if !ok { return None; }
    var bDevice, bMaxPacketSize0, idVendor, idProduct, bNumConfigurations;
    ok, bDevice := ReadClassProto(dt); if !ok { return None; }
    ok, bMaxPacketSize0 := NextByte(dt); if !ok { return None; }
    assert dt.Rest() == b[6..];
    ok, idVendor := NextWord(dt); if !ok { return None; }
    assert b[6..][..2] == b[6..8];
    ok, idProduct := NextWord(dt); if !ok { return None; }
    assert b[8..][..2] == b[8..10] && dt.Rest() == b[10..];
    ok := SkipReleaseAndStrings(dt); if !ok { return None; }
    assert dt.Rest() == b[15..];
    ok, bNumConfigurations := NextByte(dt); if !ok { return None; }
    return Some(DeviceDescriptor(bDevice, bMaxPacketSize0, idVendor, idProduct, bNumConfigurations));
  }

  method ReadConfig(dt: DtParser) returns (d: Option<ConfigDescriptor>)
    requires dt.Valid() && dt.okay
    modifies dt
    ensures d == DecodeConfig(old(dt.Rest()))
  {
    ghost var b := dt.Rest();
    var ok := dt.Skip(2); if !ok { return None; }
    var bNumInterfaces, bConfigurationValue, bmAttributes, maxPower;
    ok, bNumInterfaces := NextByte(dt); if !ok { return None; }
    ok, bConfigurationValue := NextByte(dt); if !ok { return None; }
    ok := dt.Skip(1); if !ok { return None; }
    assert dt.Rest() == b[5..];
    ok, bmAttributes := NextByte(dt); if !ok { return None; }
    ok, maxPower := NextByte(dt); if !ok { return None; }
    return Some(ConfigDescriptor(bNumInterfaces, bConfigurationValue, bmAttributes, maxPower));
  }

  method ReadInterface(dt: DtParser) returns (d: Option<InterfaceDescriptor>)
    requires dt.Valid() && dt.okay
    modifies dt
    ensures d == DecodeInterface(old(dt.Rest()))
  {
    ghost var b := dt.Rest();
    var ok, bInterfaceNumber := NextByte(dt); if !ok { return None; }
    var bAlternateSetting, bNumEndpoints, bInterface;
    ok, bAlternateSetting := NextByte(dt); if !ok { return None; }
    ok, bNumEndpoints := NextByte(dt); if !ok { return None; }
    assert dt.Rest() == b[3..];
    ok, bInterface := ReadClassProto(dt); if !ok { return None; }
    ok := dt.Skip(1); if !ok { return None; }
    return Some(InterfaceDescriptor(bInterfaceNumber, bAlternateSetting, bNumEndpoints, bInterface));
  }

  method ReadEndpoint(dt: DtParser) returns (d: Option<EndpointDescriptor>)
    requires dt.Valid() && dt.okay
    modifies dt
    ensures d == DecodeEndpoint(old(dt.Rest()))
  {
    var ok, bEndpointAddress := NextByte(dt); if !ok { return None; }
    var bmAttributes;
    ok, bmAttributes := NextByte(dt); if !ok { return None; }
    ok := dt.Skip(2); if !ok { return None; }
    ok := dt.Skip(1); if !ok { return None; }
    return Some(EndpointDescriptor(bEndpointAddress, bmAttributes));
  }

  // The current configuration and interface are the last ones there are; -1 stands for NULL.
  ghost predicate Current(t: Tree, config: int, interface: int) {
    && config == |t.configs| - 1
    && interface == if t.configs == [] then -1 else |LastConfig(t).interfaces| - 1
  }

  // uusb_parse_descriptors, for what the kernel hands out of a device: positions are unsigned ints.
  method ParseDescriptors(dev: UsbDevice, data: bytes) returns (ok: bool)
    requires |data| <= 0xFFFF_FF00
    requires dev.tree == Tree(BLANK_DEVICE, []) && !ParseBlob(data).Undefined?
    modifies dev`tree
    ensures ok == ParseBlob(data).Parsed?
    ensures ok ==> dev.tree == ParseBlob(data).tree
  {
    hide DecodeDevice, DecodeConfig, DecodeInterface, DecodeEndpoint, DecodeCcid, Step;
    var config, interface := -1, -1;
    var pos: u32 := 0;
    while pos + 2 < |data|
      invariant pos <= |data| && Current(dev.tree, config, interface)
      invariant if pos == 0 then dev.tree == old(dev.tree) else ParseBlob(data) == ParseRest(dev.tree, data[pos..])
      decreases |data| - pos
    {
      ghost var s := data[pos..];
      var dtLen, dtType := data[pos], data[pos + 1];
      if pos + dtLen > |data| {
        return false;
      }
      ghost var r := s[..dtLen];
      assert r == data[pos..pos + dtLen] && s[dtLen..] == data[pos + dtLen..];
      if pos == 0 {
        assert s == data;
        if dtType != DT_DEVICE {
          return false;
        }
        var dt := new DtParser(data, pos, dtLen);
        var d := ReadDevice(dt);
        if d == None || d.value.bNumConfigurations == 0 || d.value.bNumConfigurations > UUSB_MAX_CONFIGS {
          return false;
        }
        dev.tree := dev.tree.(descriptor := d.value);
      } else {
        assert Step(dev.tree, r) != Undefined;
        ok, config, interface := ProcessRecord(dev, data, pos, config, interface);
        if !ok {
          return false;
        }
      }
      pos := pos + dtLen;
    }
    return true;
  }

  // The loop's switch: each case finds its parent through the current pointers.
  method ProcessRecord(dev: UsbDevice, data: bytes, pos: u32, config: int, interface: int)
    returns (ok: bool, config': int, interface': int)
    requires pos + 2 < |data| && 2 <= data[pos] && pos + data[pos] <= |data|
    requires Current(dev.tree, config, interface)
    requires Step(dev.tree, data[pos..pos + data[pos]]) != Undefined
    modifies dev`tree
    ensures ok == Step(old(dev.tree), data[pos..pos + data[pos]]).Parsed?
    ensures ok ==> dev.tree == Step(old(dev.tree), data[pos..pos + data[pos]]).tree
    ensures ok ==> Current(dev.tree, config', interface')
  {
    hide DecodeConfig, DecodeInterface, DecodeEndpoint, DecodeCcid, FindType, LeDecode;
    var t, dtLen, dtType := dev.tree, data[pos], data[pos + 1];
    config', interface' := config, interface;
    assert data[pos..pos + dtLen][1] == dtType;
    var dt := new DtParser(data, pos, dtLen);
    if dtType == DT_DEVICE {
      return false, config, interface;
    } else if dtType == DT_CONFIG {
      if |t.configs| > t.descriptor.bNumConfigurations {
        return false, config, interface;
      }
      var d := ReadConfig(dt);
      if d == None {
        return false, config, interface;
      }
      config' := |t.configs|;
      dev.tree := t.(configs := t.configs + [Config(d.value, [])]);
      interface' := -1;
    } else if dtType == DT_INTERFACE {
      if config == -1 || |t.configs[config].interfaces| > t.configs[config].descriptor.bNumInterfaces {
        return false, config, interface;
      }
      var d := ReadInterface(dt);
      if d == None {
        return false, config, interface;
      }
      var kind := FindInterfaceType(d.value.bInterface);
      var c := t.configs[config];
      interface' := |c.interfaces|;
      dev.tree := t.(configs := t.configs[config := c.(interfaces := c.interfaces + [Interface(d.value, kind, None, [])])]);
    } else if dtType == DT_ENDPOINT {
      if interface == -1 {
        return false, config, interface;
      }
      var c := t.configs[config];
      var i := c.interfaces[interface];
      if |i.endpoints| > i.descriptor.bNumEndpoints {
        return false, config, interface;
      }
      var d := ReadEndpoint(dt);
      if d == None {
        return false, config, interface;
      }
      dev.tree := t.(configs := t.configs[config :=
        c.(interfaces := c.interfaces[interface := i.(endpoints := i.endpoints + [d.value])])]);
    } else if interface != -1 {
      var c := t.configs[config];
      var i := c.interfaces[interface];
      if i.kind == Some(Ccid) {
        var d := ParseCcidDescriptor(data, pos, dtLen);
        if d == None {
          return false, config, interface;
        }
        dev.tree := t.(configs := t.configs[config := c.(interfaces := c.interfaces[interface := i.(ccid := d)])]);
      }
    }
    return true, config', interface';
  }
}
