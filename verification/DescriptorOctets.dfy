/**
 Descriptors octet by octet, as sections 9.6.1 to 9.6.6 of the USB specification Revision 2.0 and
 section 5.1 of the USB CCID specification Rev 1.1 lay them out, and what becomes of each.
 */
module DescriptorOctets {
  import opened Bytes
  import opened CcidDescriptors
  import opened Usb
  import opened Descriptors
  import opened DescriptorRoundTrip

  // Fields of two and of four octets, the lowest first.

  function Word(b: bytes, k: nat): u16
    requires k + 2 <= |b|
  {
    var b0: nat, b1: nat := b[k], b[k + 1];
    b0 + 0x100 * b1
  }

  function Dword(b: bytes, k: nat): u32
    requires k + 4 <= |b|
  {
    var b0: nat, b1: nat, b2: nat, b3: nat := b[k], b[k + 1], b[k + 2], b[k + 3];
    b0 + 0x100 * b1 + 0x1_0000 * b2 + 0x100_0000 * b3
  }

  lemma FieldOnTheWire(b: bytes, k: nat)
    ensures k + 1 <= |b| ==> FieldAt(b, k, 1) == b[k]
    ensures k + 2 <= |b| ==> FieldAt(b, k, 2) == Word(b, k)
    ensures k + 4 <= |b| ==> FieldAt(b, k, 4) == Dword(b, k)
  {
    if k + 1 <= |b| {
      assert b[k..k + 1][1..] == [];
      assert LeDecode(b[k..k + 1]) == b[k];
    }
    if k + 2 <= |b| {
      assert b[k..k + 2][1..][1..] == [];
      assert LeDecode(b[k..k + 2][1..]) == b[k + 1];
    }
    if k + 4 <= |b| {
      var s := b[k..k + 4];
      assert s[1..][1..][1..][1..] == [];
      assert LeDecode(s[1..][1..][1..]) == b[k + 3];
      assert LeDecode(s[1..][1..]) == b[k + 2] + 256 * LeDecode(s[1..][1..][1..]);
      assert LeDecode(s[1..]) == b[k + 1] + 256 * LeDecode(s[1..][1..]);
    }
  }

  // A device descriptor alone: accepted iff it has one to eight configurations.
  lemma DeviceOnTheWire(s: bytes)
    requires |s| == 18 && s[0] == 18 && s[1] == 1
    ensures ParseBlob(s) ==
      if s[17] == 0 || s[17] > 8 then Rejected
      else Parsed(Tree(DeviceDescriptor(ClassProto(s[4], s[5], s[6]), s[7], Word(s, 8), Word(s, 10), s[17]), []))
  {
    hide FieldAt;
    assert s[..18] == s;
    FieldOnTheWire(s[2..], 6);
    FieldOnTheWire(s[2..], 8);
  }

  // The records behind it.

  lemma ConfigOnTheWire(
      t: Tree, total0: byte, total1: byte, interfaces: byte, value: byte, name: byte, attributes: byte, power: byte)
    requires |t.configs| <= t.descriptor.bNumConfigurations && |t.configs| < 8
    ensures var r := [9, 2, total0, total1, interfaces, value, name, attributes, power];
      Step(t, r) == Parsed(t.(configs := t.configs + [Config(ConfigDescriptor(interfaces, value, attributes, power), [])]))
  {
    var r := [9, 2, total0, total1, interfaces, value, name, attributes, power];
    assert r[2..] == [total0, total1, interfaces, value, name, attributes, power];
  }

  lemma InterfaceOnTheWire(
      d: DeviceDescriptor, cs: seq<Config>, c: Config,
      number: byte, alternate: byte, endpoints: byte, cls: byte, subclass: byte, protocol: byte, name: byte)
    requires |c.interfaces| <= c.descriptor.bNumInterfaces && |c.interfaces| < 8
    ensures var r := [9, 4, number, alternate, endpoints, cls, subclass, protocol, name];
      var i := NewInterface(InterfaceDescriptor(number, alternate, endpoints, ClassProto(cls, subclass, protocol)));
      Step(Tree(d, cs + [c]), r) == Parsed(Tree(d, cs + [c.(interfaces := c.interfaces + [i])]))
  {
    hide FindType;
    var r := [9, 4, number, alternate, endpoints, cls, subclass, protocol, name];
    assert r[2..] == [number, alternate, endpoints, cls, subclass, protocol, name];
    assert LastConfig(Tree(d, cs + [c])) == c;
  }

  lemma EndpointOnTheWire(
      d: DeviceDescriptor, cs: seq<Config>, c: ConfigDescriptor, ifs: seq<Interface>, i: Interface,
      address: byte, attributes: byte, size0: byte, size1: byte, interval: byte)
    requires |i.endpoints| <= i.descriptor.bNumEndpoints && |i.endpoints| < 4
    ensures var r := [7, 5, address, attributes, size0, size1, interval];
      Step(Open(d, cs, c, ifs, i), r)
      == Parsed(Open(d, cs, c, ifs, i.(endpoints := i.endpoints + [EndpointDescriptor(address, attributes)])))
  {
    hide FindType;
    var r := [7, 5, address, attributes, size0, size1, interval];
    assert r[2..] == [address, attributes, size0, size1, interval];
    var t, i' := Open(d, cs, c, ifs, i), i.(endpoints := i.endpoints + [EndpointDescriptor(address, attributes)]);
    assert LastInterface(LastConfig(t)) == i;
    assert (ifs + [i])[|ifs| := i'] == ifs + [i'];
    assert WithLastConfig(t, Config(c, ifs + [i'])) == Open(d, cs, c, ifs, i');
  }

  // The class descriptor of a reader, behind its length and type.
  lemma CcidOnTheWire(b: bytes)
    requires 52 <= |b|
    ensures DecodeCcid(b) == Some(CcidDescriptor(
      Word(b, 0), b[2], b[3], Dword(b, 4), Dword(b, 8), Dword(b, 12), b[16], Dword(b, 17), Dword(b, 21), b[25],
      Dword(b, 26), Dword(b, 30), Dword(b, 34), Dword(b, 38), Dword(b, 42), b[46], b[47], Word(b, 48), b[50], b[51]))
  {
    hide FieldAt, Word, Dword;
    FieldOnTheWire(b, 0);
    FieldOnTheWire(b, 2);
    FieldOnTheWire(b, 3);
    FieldOnTheWire(b, 4);
    FieldOnTheWire(b, 8);
    FieldOnTheWire(b, 12);
    FieldOnTheWire(b, 16);
    FieldOnTheWire(b, 17);
    FieldOnTheWire(b, 21);
    FieldOnTheWire(b, 25);
    FieldOnTheWire(b, 26);
    FieldOnTheWire(b, 30);
    FieldOnTheWire(b, 34);
    FieldOnTheWire(b, 38);
    FieldOnTheWire(b, 42);
    FieldOnTheWire(b, 46);
    FieldOnTheWire(b, 47);
    FieldOnTheWire(b, 48);
    FieldOnTheWire(b, 50);
    FieldOnTheWire(b, 51);
  }

  // What is refused

  lemma SecondDeviceIsRejected(t: Tree, r: bytes)
    requires 2 <= |r| && r[1] == 1
    ensures Step(t, r) == Rejected
  {
  }

  // The blob must begin with a device record of 18 octets or more, and no record may reach behind
  // its end.
  lemma MalformedBlobIsRejected(s: bytes)
    requires 2 < |s|
    ensures s[0] > |s| || (2 <= s[0] && s[1] != 1) || (2 <= s[0] < 18) ==> ParseBlob(s) == Rejected
  {
  }

  lemma OverlongRecordIsRejected(t: Tree, s: bytes)
    requires 2 < |s| && s[0] > |s|
    ensures ParseRest(t, s) == Rejected
  {
  }

  predicate BelongsToCcid(t: Tree) {
    t.configs != [] && LastConfig(t).interfaces != [] && LastInterface(LastConfig(t)).kind == Some(Ccid)
  }

  // A record that is too short for what it describes, or comes before what it belongs to.
  lemma MisplacedRecordIsRejected(t: Tree, r: bytes)
    requires 2 <= |r|
    requires |t.configs| < 8
    requires t.configs != [] ==> var c := LastConfig(t); |c.interfaces| < 8 && (c.interfaces != [] ==> |LastInterface(c).endpoints| < 4)
    ensures r[1] == 2 && |r| < 9 ==> Step(t, r) == Rejected
    ensures r[1] == 4 && (|r| < 9 || t.configs == []) ==> Step(t, r) == Rejected
    ensures r[1] == 5 && (|r| < 7 || t.configs == [] || LastConfig(t).interfaces == []) ==> Step(t, r) == Rejected
    ensures r[1] !in {1, 2, 4, 5} && |r| < 54 && BelongsToCcid(t) ==> Step(t, r) == Rejected
  {
  }
}
