/** Serialising a device's descriptors, and that parsing undoes it. */
module DescriptorRoundTrip {
  import opened Bytes
  import opened CcidDescriptors
  import opened Usb
  import opened Descriptors

  // A device as its firmware describes it: also what the parser skips, and class-specific
  // descriptors anywhere behind a configuration or an interface.

  datatype Record = Record(kind: byte, body: bytes)

  datatype Item =
    | Endpoint(d: EndpointDescriptor, tail: bytes)
    | ClassSpecific(record: Record)

  datatype InterfacePlan = InterfacePlan(d: InterfaceDescriptor, tail: bytes, items: seq<Item>)

  datatype ConfigPlan = ConfigPlan(
    d: ConfigDescriptor, totalLength: u16, iConfiguration: byte, tail: bytes,
    extras: seq<Record>, interfaces: seq<InterfacePlan>)

  datatype DevicePlan = DevicePlan(
    d: DeviceDescriptor, bcdUSB: u16, bcdDevice: u16,
    iManufacturer: byte, iProduct: byte, iSerialNumber: byte, tail: bytes, configs: seq<ConfigPlan>)

  function DeviceBody(p: DevicePlan): bytes {
    LeEncode(p.bcdUSB, 2)
    + [p.d.bDevice.cls, p.d.bDevice.subclass, p.d.bDevice.protocol, p.d.bMaxPacketSize0]
    + LeEncode(p.d.idVendor, 2) + LeEncode(p.d.idProduct, 2) + LeEncode(p.bcdDevice, 2)
    + [p.iManufacturer, p.iProduct, p.iSerialNumber, p.d.bNumConfigurations] + p.tail
  }

  function ConfigBody(p: ConfigPlan): bytes {
    LeEncode(p.totalLength, 2)
    + [p.d.bNumInterfaces, p.d.bConfigurationValue, p.iConfiguration, p.d.bmAttributes, p.d.maxPower] + p.tail
  }

  function InterfaceBody(p: InterfacePlan): bytes {
    [p.d.bInterfaceNumber, p.d.bAlternateSetting, p.d.bNumEndpoints,
     p.d.bInterface.cls, p.d.bInterface.subclass, p.d.bInterface.protocol] + p.tail
  }

  function EndpointBody(d: EndpointDescriptor, tail: bytes): bytes {
    [d.bEndpointAddress, d.bmAttributes] + tail
  }

  // What a device may serialise: records of at most 255 octets, no more nodes than accepted, and
  // class descriptors of a kind of their own, complete where a CCID interface has them.

  predicate GoodExtra(e: Record) {
    |e.body| <= 253 && e.kind !in {DT_DEVICE, DT_CONFIG, DT_INTERFACE, DT_ENDPOINT}
  }

  predicate GoodItem(d: InterfaceDescriptor, item: Item) {
    match item
    case Endpoint(_, tail) => 3 <= |tail| <= 251
    case ClassSpecific(e) => GoodExtra(e) && (FindType(d.bInterface, 0) == Some(Ccid) ==> CCID_BODY_SIZE <= |e.body|)
  }

  function Endpoints(items: seq<Item>): seq<EndpointDescriptor> {
    if items == [] then []
    else (if items[0].Endpoint? then [items[0].d] else []) + Endpoints(items[1..])
  }

  predicate GoodInterface(p: InterfacePlan) {
    && 1 <= |p.tail| <= 247
    && |Endpoints(p.items)| <= Min(UUSB_MAX_ENDPOINTS, p.d.bNumEndpoints + 1)
    && forall item <- p.items :: GoodItem(p.d, item)
  }

  predicate GoodConfig(p: ConfigPlan) {
    && |p.tail| <= 246 && (forall e <- p.extras :: GoodExtra(e))
    && |p.interfaces| <= Min(UUSB_MAX_INTERFACES, p.d.bNumInterfaces + 1)
    && forall i <- p.interfaces :: GoodInterface(i)
  }

  predicate GoodPlan(p: DevicePlan) {
    && |p.tail| <= 237 && GoodDevice(p.d)
    && |p.configs| <= Min(UUSB_MAX_CONFIGS, p.d.bNumConfigurations + 1)
    && forall c <- p.configs :: GoodConfig(c)
  }

  // Serialising: the records in order, each behind its length and type octets.

  function ItemRecord(item: Item): Record {
    match item
    case Endpoint(d, tail) => Record(DT_ENDPOINT, EndpointBody(d, tail))
    case ClassSpecific(r) => r
  }

  function ItemRecords(items: seq<Item>): seq<Record> {
    if items == [] then [] else [ItemRecord(items[0])] + ItemRecords(items[1..])
  }

  function InterfaceGroup(p: InterfacePlan): seq<Record> {
    [Record(DT_INTERFACE, InterfaceBody(p))] + ItemRecords(p.items)
  }

  function InterfaceRecords(ps: seq<InterfacePlan>): seq<Record> {
    if ps == [] then [] else InterfaceGroup(ps[0]) + InterfaceRecords(ps[1..])
  }

  function ConfigGroup(p: ConfigPlan): seq<Record> {
    [Record(DT_CONFIG, ConfigBody(p))] + (p.extras + InterfaceRecords(p.interfaces))
  }

  function ConfigRecords(ps: seq<ConfigPlan>): seq<Record> {
    if ps == [] then [] else ConfigGroup(ps[0]) + ConfigRecords(ps[1..])
  }

  function Octets(r: Record): bytes {
    [(|r.body| + 2) % 256, r.kind] + r.body
  }

  function Encode(rs: seq<Record>): bytes {
    if rs == [] then [] else Octets(rs[0]) + Encode(rs[1..])
  }

  function Serialise(p: DevicePlan): bytes {
    Octets(Record(DT_DEVICE, DeviceBody(p))) + Encode(ConfigRecords(p.configs))
  }

  // What should be left of it in memory

  function LastCcid(items: seq<Item>, found: Option<CcidDescriptor>): Option<CcidDescriptor> {
    if items == [] then found
    else LastCcid(items[1..], if items[0].ClassSpecific? then DecodeCcid(items[0].record.body) else found)
  }

  function BuildInterface(p: InterfacePlan): Interface {
    var kind := FindType(p.d.bInterface, 0);
    Interface(p.d, kind, if kind == Some(Ccid) then LastCcid(p.items, None) else None, Endpoints(p.items))
  }

  function BuildInterfaces(ps: seq<InterfacePlan>): seq<Interface> {
    if ps == [] then [] else [BuildInterface(ps[0])] + BuildInterfaces(ps[1..])
  }

  function BuildConfigs(ps: seq<ConfigPlan>): seq<Config> {
    if ps == [] then [] else [Config(ps[0].d, BuildInterfaces(ps[0].interfaces))] + BuildConfigs(ps[1..])
  }

  function Build(p: DevicePlan): Tree {
    Tree(p.d, BuildConfigs(p.configs))
  }

  // Each body decodes to the fields that are kept.

  lemma DeviceDecodes(p: DevicePlan)
    ensures DecodeDevice(DeviceBody(p)) == Some(p.d)
  {
    hide LeEncode;
    var b := DeviceBody(p);
    assert b[6..8] == LeEncode(p.d.idVendor, 2) && b[8..10] == LeEncode(p.d.idProduct, 2);
    PowersOf256();
    LeDecodeOfEncode(p.d.idVendor, 2);
    LeDecodeOfEncode(p.d.idProduct, 2);
  }

  // Parsing octets is folding over records

  function Fold(t: Tree, rs: seq<Record>): Outcome
    decreases |rs|
  {
    if rs == [] then Parsed(t) else
    match Step(t, Octets(rs[0]))
    case Parsed(t') => Fold(t', rs[1..])
    case bad => bad
  }

  predicate Encodable(r: Record) {
    |r.body| <= 253 && (r.body == [] ==> r.kind !in {DT_DEVICE, DT_CONFIG, DT_INTERFACE, DT_ENDPOINT})
  }

  // A last record of two octets goes unread, and would have changed nothing.
  lemma EmptyRecordIsNoStep(t: Tree, r: Record)
    requires Encodable(r) && r.body == [] && Step(t, Octets(r)).Parsed?
    ensures Step(t, Octets(r)) == Parsed(t)
  {
    assert Octets(r)[2..] == [];
  }

  lemma EncodedSize(rs: seq<Record>)
    ensures rs != [] ==> 2 <= |Encode(rs)|
  {
  }

  lemma {:induction false} ParseIsFold(t: Tree, rs: seq<Record>)
    requires (forall r <- rs :: Encodable(r)) && Fold(t, rs).Parsed?
    ensures ParseRest(t, Encode(rs)) == Fold(t, rs)
    decreases |rs|
  {
    hide Step;
    if rs != [] {
      var r, s := Octets(rs[0]), Encode(rs);
      assert rs[0] in rs && forall x <- rs[1..] :: x in rs;
      assert s[..|r|] == r && s[|r|..] == Encode(rs[1..]);
      ParseIsFold(Step(t, r).tree, rs[1..]);
      if |s| <= 2 {
        EmptyRecordIsNoStep(t, rs[0]);
        EncodedSize(rs[1..]);
      }
    }
  }

  lemma {:induction false} FoldAppend(t: Tree, rs: seq<Record>, more: seq<Record>)
    requires Fold(t, rs).Parsed?
    ensures Fold(t, rs + more) == Fold(Fold(t, rs).tree, more)
    decreases |rs|
  {
    hide Step;
    if rs == [] {
      assert [] + more == more;
    } else {
      assert (rs + more)[1..] == rs[1..] + more;
      FoldAppend(Step(t, Octets(rs[0])).tree, rs[1..], more);
    }
  }

  // Each level of the plan, folded into the tree it grows

  // The tree while interface i of configuration c is being read.
  function Open(d: DeviceDescriptor, cs: seq<Config>, c: ConfigDescriptor, ifs: seq<Interface>, i: Interface): Tree {
    Tree(d, cs + [Config(c, ifs + [i])])
  }

  function WithItem(i: Interface, item: Item): Interface {
    match item
    case Endpoint(d, _) => i.(endpoints := i.endpoints + [d])
    case ClassSpecific(r) => if i.kind == Some(Ccid) then i.(ccid := DecodeCcid(r.body)) else i
  }

  lemma ItemStep(
      d: DeviceDescriptor, cs: seq<Config>, c: ConfigDescriptor, ifs: seq<Interface>, i: Interface, item: Item)
    requires GoodItem(i.descriptor, item) && i.kind == FindType(i.descriptor.bInterface, 0)
    requires item.Endpoint? ==> |i.endpoints| < Min(UUSB_MAX_ENDPOINTS, i.descriptor.bNumEndpoints + 1)
    ensures Step(Open(d, cs, c, ifs, i), Octets(ItemRecord(item))) == Parsed(Open(d, cs, c, ifs, WithItem(i, item)))
  {
    hide FindType, DecodeEndpoint, EndpointBody, DecodeCcid;
    var t, i', r := Open(d, cs, c, ifs, i), WithItem(i, item), ItemRecord(item);
    assert LastInterface(LastConfig(t)) == i && Octets(r)[2..] == r.body;
    assert (ifs + [i])[|ifs| := i'] == ifs + [i'];
    assert WithLastConfig(t, Config(c, ifs + [i'])) == Open(d, cs, c, ifs, i');
    if item.Endpoint? {
      EndpointDecodes(item.d, item.tail);
    } else {
      CcidDecodes(r.body);
    }
  }

  lemma CcidDecodes(body: bytes)
    ensures CCID_BODY_SIZE <= |body| ==> DecodeCcid(body).Some?
  {
  }

  lemma EndpointDecodes(e: EndpointDescriptor, tail: bytes)
    requires 3 <= |tail|
    ensures DecodeEndpoint(EndpointBody(e, tail)) == Some(e)
  {
  }

  lemma {:induction false} ItemsFold(
      d: DeviceDescriptor, cs: seq<Config>, c: ConfigDescriptor, ifs: seq<Interface>, i: Interface, items: seq<Item>)
    requires forall item <- items :: GoodItem(i.descriptor, item)
    requires i.kind == FindType(i.descriptor.bInterface, 0)
    requires |i.endpoints| + |Endpoints(items)| <= Min(UUSB_MAX_ENDPOINTS, i.descriptor.bNumEndpoints + 1)
    ensures Fold(Open(d, cs, c, ifs, i), ItemRecords(items))
         == Parsed(Open(d, cs, c, ifs, i.(
              ccid := if i.kind == Some(Ccid) then LastCcid(items, i.ccid) else i.ccid,
              endpoints := i.endpoints + Endpoints(items))))
    decreases |items|
  {
    hide Step, FindType, DecodeCcid, GoodItem;
    if items == [] {
      assert i.endpoints + [] == i.endpoints;
    } else {
      hide Open;
      assert items[0] in items && forall x <- items[1..] :: x in items;
      ItemStep(d, cs, c, ifs, i, items[0]);
      var i' := WithItem(i, items[0]);
      var rs := ItemRecords(items);
      assert rs[0] == ItemRecord(items[0]) && rs[1..] == ItemRecords(items[1..]);
      ItemsFold(d, cs, c, ifs, i', items[1..]);
      assert i'.endpoints + Endpoints(items[1..]) == i.endpoints + Endpoints(items);
    }
  }

  lemma InterfaceStep(d: DeviceDescriptor, cs: seq<Config>, c: ConfigDescriptor, ifs: seq<Interface>, p: InterfacePlan)
    requires GoodInterface(p) && |ifs| < Min(UUSB_MAX_INTERFACES, c.bNumInterfaces + 1)
    ensures Step(Tree(d, cs + [Config(c, ifs)]), Octets(Record(DT_INTERFACE, InterfaceBody(p))))
         == Parsed(Open(d, cs, c, ifs, NewInterface(p.d)))
  {
    hide FindType, DecodeInterface;
    var t, r := Tree(d, cs + [Config(c, ifs)]), Record(DT_INTERFACE, InterfaceBody(p));
    InterfaceDecodes(p);
    assert Octets(r)[2..] == r.body;
    assert WithLastConfig(t, Config(c, ifs + [NewInterface(p.d)])) == Open(d, cs, c, ifs, NewInterface(p.d));
  }

  lemma InterfaceDecodes(p: InterfacePlan)
    requires 1 <= |p.tail|
    ensures DecodeInterface(InterfaceBody(p)) == Some(p.d)
  {
  }

  lemma GroupFolds(d: DeviceDescriptor, cs: seq<Config>, c: ConfigDescriptor, ifs: seq<Interface>, p: InterfacePlan)
    requires GoodInterface(p) && |ifs| < Min(UUSB_MAX_INTERFACES, c.bNumInterfaces + 1)
    ensures Fold(Tree(d, cs + [Config(c, ifs)]), InterfaceGroup(p))
         == Parsed(Tree(d, cs + [Config(c, ifs + [BuildInterface(p)])]))
  {
    hide Step, FindType, LastCcid, GoodItem, ItemRecords, InterfaceBody, Endpoints;
    var i := NewInterface(p.d);
    InterfaceStep(d, cs, c, ifs, p);
    ItemsFold(d, cs, c, ifs, i, p.items);
    assert [] + Endpoints(p.items) == Endpoints(p.items);
    assert InterfaceGroup(p)[1..] == ItemRecords(p.items);
  }

  lemma {:induction false} InterfacesFold(
      d: DeviceDescriptor, cs: seq<Config>, c: ConfigDescriptor, ifs: seq<Interface>, ps: seq<InterfacePlan>)
    requires forall p <- ps :: GoodInterface(p)
    requires |ifs| + |ps| <= Min(UUSB_MAX_INTERFACES, c.bNumInterfaces + 1)
    ensures Fold(Tree(d, cs + [Config(c, ifs)]), InterfaceRecords(ps))
         == Parsed(Tree(d, cs + [Config(c, ifs + BuildInterfaces(ps))]))
    decreases |ps|
  {
    hide Fold, GoodInterface, InterfaceGroup, BuildInterface;
    if ps == [] {
      FoldNothing(Tree(d, cs + [Config(c, ifs)]));
      assert ifs + [] == ifs;
    } else {
      var p, t := ps[0], Tree(d, cs + [Config(c, ifs)]);
      assert p in ps && forall x <- ps[1..] :: x in ps;
      GroupFolds(d, cs, c, ifs, p);
      FoldAppend(t, InterfaceGroup(p), InterfaceRecords(ps[1..]));
      InterfacesFold(d, cs, c, ifs + [BuildInterface(p)], ps[1..]);
      assert (ifs + [BuildInterface(p)]) + BuildInterfaces(ps[1..]) == ifs + BuildInterfaces(ps);
    }
  }

  lemma FoldNothing(t: Tree)
    ensures Fold(t, []) == Parsed(t)
  {
  }

  // In front of a configuration's first interface, class descriptors are passed over.
  lemma {:induction false} ExtrasFold(t: Tree, es: seq<Record>)
    requires forall e <- es :: GoodExtra(e)
    requires t.configs != [] && LastConfig(t).interfaces == []
    ensures Fold(t, es) == Parsed(t)
    decreases |es|
  {
    if es != [] {
      assert es[0] in es && forall x <- es[1..] :: x in es;
      ExtrasFold(t, es[1..]);
    }
  }

  lemma ConfigStep(d: DeviceDescriptor, cs: seq<Config>, p: ConfigPlan)
    requires GoodConfig(p) && |cs| < Min(UUSB_MAX_CONFIGS, d.bNumConfigurations + 1)
    ensures Step(Tree(d, cs), Octets(Record(DT_CONFIG, ConfigBody(p)))) == Parsed(Tree(d, cs + [Config(p.d, [])]))
  {
    hide DecodeConfig;
    var r := Record(DT_CONFIG, ConfigBody(p));
    ConfigDecodes(p);
    assert Octets(r)[2..] == r.body;
  }

  lemma ConfigDecodes(p: ConfigPlan)
    ensures DecodeConfig(ConfigBody(p)) == Some(p.d)
  {
  }

  lemma ConfigGroupFolds(d: DeviceDescriptor, cs: seq<Config>, p: ConfigPlan)
    requires GoodConfig(p) && |cs| < Min(UUSB_MAX_CONFIGS, d.bNumConfigurations + 1)
    ensures Fold(Tree(d, cs), ConfigGroup(p)) == Parsed(Tree(d, cs + [Config(p.d, BuildInterfaces(p.interfaces))]))
  {
    hide Step, GoodInterface, GoodExtra, InterfaceRecords, ConfigBody, BuildInterfaces;
    var t, rs := Tree(d, cs + [Config(p.d, [])]), InterfaceRecords(p.interfaces);
    ConfigStep(d, cs, p);
    ExtrasFold(t, p.extras);
    FoldAppend(t, p.extras, rs);
    InterfacesFold(d, cs, p.d, [], p.interfaces);
    assert [] + BuildInterfaces(p.interfaces) == BuildInterfaces(p.interfaces);
    assert ConfigGroup(p)[1..] == p.extras + rs;
  }

  lemma {:induction false} ConfigsFold(d: DeviceDescriptor, cs: seq<Config>, ps: seq<ConfigPlan>)
    requires forall p <- ps :: GoodConfig(p)
    requires |cs| + |ps| <= Min(UUSB_MAX_CONFIGS, d.bNumConfigurations + 1)
    ensures Fold(Tree(d, cs), ConfigRecords(ps)) == Parsed(Tree(d, cs + BuildConfigs(ps)))
    decreases |ps|
  {
    hide Fold, GoodConfig, ConfigGroup, BuildInterfaces;
    if ps == [] {
      FoldNothing(Tree(d, cs));
      assert cs + [] == cs;
    } else {
      var p := ps[0];
      assert p in ps && forall x <- ps[1..] :: x in ps;
      var built := Config(p.d, BuildInterfaces(p.interfaces));
      ConfigGroupFolds(d, cs, p);
      FoldAppend(Tree(d, cs), ConfigGroup(p), ConfigRecords(ps[1..]));
      var more := BuildConfigs(ps[1..]);
      assert BuildConfigs(ps) == [built] + more;
      ConfigsFold(d, cs + [built], ps[1..]);
      assert (cs + [built]) + BuildConfigs(ps[1..]) == cs + BuildConfigs(ps);
    }
  }

  // All records fit their length octet

  lemma {:induction false} ItemsEncodable(d: InterfaceDescriptor, items: seq<Item>)
    requires forall item <- items :: GoodItem(d, item)
    ensures forall r <- ItemRecords(items) :: Encodable(r)
    decreases |items|
  {
    hide FindType;
    if items != [] {
      assert items[0] in items && forall x <- items[1..] :: x in items;
      ItemsEncodable(d, items[1..]);
    }
  }

  lemma {:induction false} InterfacesEncodable(ps: seq<InterfacePlan>)
    requires forall p <- ps :: GoodInterface(p)
    ensures forall r <- InterfaceRecords(ps) :: Encodable(r)
    decreases |ps|
  {
    hide GoodItem;
    if ps != [] {
      assert ps[0] in ps && forall x <- ps[1..] :: x in ps;
      ItemsEncodable(ps[0].d, ps[0].items);
      InterfacesEncodable(ps[1..]);
    }
  }

  lemma {:induction false} ConfigsEncodable(ps: seq<ConfigPlan>)
    requires forall p <- ps :: GoodConfig(p)
    ensures forall r <- ConfigRecords(ps) :: Encodable(r)
    decreases |ps|
  {
    hide GoodInterface;
    if ps != [] {
      assert ps[0] in ps && forall x <- ps[1..] :: x in ps;
      InterfacesEncodable(ps[0].interfaces);
      ConfigsEncodable(ps[1..]);
    }
  }

  // Any well-formed device: parsing what it serialises rebuilds every field that is kept, all
  // children in order, and the last class descriptor of each CCID interface.
  lemma ParseUndoesSerialise(p: DevicePlan)
    requires GoodPlan(p)
    ensures ParseBlob(Serialise(p)) == Parsed(Build(p))
  {
    hide ParseBlob, ParseRest, Fold, GoodConfig, DeviceBody, Octets, Encode, ConfigRecords, BuildConfigs;
    var rs := ConfigRecords(p.configs);
    DeviceFirst(p, Encode(rs));
    ConfigsFold(p.d, [], p.configs);
    ConfigsEncodable(p.configs);
    ParseIsFold(Tree(p.d, []), rs);
    assert [] + BuildConfigs(p.configs) == BuildConfigs(p.configs);
  }

  lemma DeviceFirst(p: DevicePlan, rest: bytes)
    requires GoodPlan(p)
    ensures ParseBlob(Octets(Record(DT_DEVICE, DeviceBody(p))) + rest) == ParseRest(Tree(p.d, []), rest)
  {
    hide DecodeDevice, DeviceBody, ParseRest, GoodConfig;
    var r := Octets(Record(DT_DEVICE, DeviceBody(p)));
    var s := r + rest;
    DeviceDecodes(p);
    DeviceBodySize(p);
    assert s[..s[0]] == r && s[s[0]..] == rest && r[2..] == DeviceBody(p);
  }

  lemma DeviceBodySize(p: DevicePlan)
    ensures |DeviceBody(p)| == 16 + |p.tail|
  {
  }

  // The limits are one too loose at each level: whole blobs that are accepted and hold one
  // configuration, one interface, one endpoint more than declared.

  const ONE_CONFIGURATION := DeviceDescriptor(ClassProto(0, 0, 0), 64, 0x1050, 0x0407, 1)

  function Bare(numInterfaces: byte, interfaces: seq<InterfacePlan>): ConfigPlan {
    ConfigPlan(ConfigDescriptor(numInterfaces, 1, 0x80, 15), 0, 0, [], [], interfaces)
  }

  function Device(configs: seq<ConfigPlan>): DevicePlan {
    DevicePlan(ONE_CONFIGURATION, 0x200, 0x500, 1, 2, 0, [], configs)
  }

  function NoEndpoints(items: seq<Item>): InterfacePlan {
    InterfacePlan(InterfaceDescriptor(0, 0, 0, ClassProto(3, 1, 1)), [0], items)
  }

  lemma BuildOne(c: ConfigPlan, i: InterfacePlan)
    ensures BuildConfigs([c]) == [Config(c.d, BuildInterfaces(c.interfaces))]
    ensures BuildInterfaces([i]) == [BuildInterface(i)] && BuildInterfaces([]) == []
  {
    assert [c][1..] == [] && [i][1..] == [];
  }

  lemma OneConfigurationTooMany()
    ensures var o := ParseBlob(Serialise(Device([Bare(0, []), Bare(0, [])])));
      o.Parsed? && |o.tree.configs| == 2 && o.tree.descriptor.bNumConfigurations == 1
  {
    hide ParseBlob, Serialise;
    var p := Device([Bare(0, []), Bare(0, [])]);
    ParseUndoesSerialise(p);
    assert p.configs[1..] == [Bare(0, [])];
    BuildOne(Bare(0, []), NoEndpoints([]));
  }

  lemma OneInterfaceTooMany()
    ensures var o := ParseBlob(Serialise(Device([Bare(0, [NoEndpoints([])])])));
      o.Parsed? && |o.tree.configs| == 1
      && |o.tree.configs[0].interfaces| == 1 && o.tree.configs[0].descriptor.bNumInterfaces == 0
  {
    hide ParseBlob, Serialise, FindType;
    var c := Bare(0, [NoEndpoints([])]);
    ParseUndoesSerialise(Device([c]));
    BuildOne(c, NoEndpoints([]));
  }

  lemma OneEndpointTooMany(e: EndpointDescriptor)
    ensures var o := ParseBlob(Serialise(Device([Bare(1, [NoEndpoints([Endpoint(e, [64, 0, 0])])])])));
      o.Parsed? && |o.tree.configs| == 1 && |o.tree.configs[0].interfaces| == 1
      && var i := o.tree.configs[0].interfaces[0];
         |i.endpoints| == 1 && i.descriptor.bNumEndpoints == 0
  {
    hide ParseBlob, Serialise, FindType;
    var items := [Endpoint(e, [64, 0, 0])];
    var c := Bare(1, [NoEndpoints(items)]);
    assert items[1..] == [] && Endpoints(items) == [e] + [];
    ParseUndoesSerialise(Device([c]));
    BuildOne(c, NoEndpoints(items));
  }

  // Records in front of others are parsed as by themselves.
  lemma {:induction false} ParseBehind(t: Tree, rs: seq<Record>, more: bytes)
    requires (forall r <- rs :: Encodable(r)) && Fold(t, rs).Parsed? && 2 < |more|
    ensures ParseRest(t, Encode(rs) + more) == ParseRest(Fold(t, rs).tree, more)
    decreases |rs|
  {
    hide Step;
    if rs == [] {
      assert [] + more == more;
    } else {
      var r, rest := Octets(rs[0]), Encode(rs[1..]);
      assert rs[0] in rs && forall x <- rs[1..] :: x in rs;
      ParseBehind(Step(t, r).tree, rs[1..], more);
      Behind(t, r, rest, more);
    }
  }

  lemma Behind(t: Tree, r: bytes, rest: bytes, more: bytes)
    requires 2 <= |r| && r[0] == |r| && 2 < |more| && Step(t, r).Parsed?
    ensures ParseRest(t, (r + rest) + more) == ParseRest(Step(t, r).tree, rest + more)
  {
    hide Step;
    var s := (r + rest) + more;
    assert s[..s[0]] == r && s[s[0]..] == rest + more;
  }

  // An interface that declares and has five endpoints: the fifth is written behind the array.
  lemma FifthEndpointIsUndefined(e: EndpointDescriptor)
    ensures var item := Endpoint(e, [64, 0, 0]);
      var four := InterfacePlan(InterfaceDescriptor(0, 0, 5, ClassProto(3, 1, 1)), [0], [item, item, item, item]);
      ParseBlob(Serialise(Device([Bare(1, [four])])) + Octets(ItemRecord(item))) == Undefined
  {
    hide Serialise, FindType, ParseBlob;
    var item := Endpoint(e, [64, 0, 0]);
    var i := InterfacePlan(InterfaceDescriptor(0, 0, 5, ClassProto(3, 1, 1)), [0], [item, item, item, item]);
    var c := Bare(1, [i]);
    var p := Device([c]);
    FourEndpoints(item);
    BuildOne(c, i);
    NoRoomForFifth(Build(p), item);
    BlobBehind(p, Octets(ItemRecord(item)));
  }

  lemma FourEndpoints(item: Item)
    requires item.Endpoint?
    ensures Endpoints([item, item, item, item]) == [item.d, item.d, item.d, item.d]
  {
    var items := [item, item, item, item];
    assert items[1..][1..][1..][1..] == [];
    assert Endpoints(items[1..][1..][1..]) == [item.d] + [];
    assert Endpoints(items[1..][1..]) == [item.d] + [item.d];
    assert Endpoints(items[1..]) == [item.d] + [item.d, item.d];
  }

  lemma BlobBehind(p: DevicePlan, more: bytes)
    requires GoodPlan(p) && 2 < |more|
    ensures ParseBlob(Serialise(p) + more) == ParseRest(Build(p), more)
  {
    hide ParseBlob, ParseRest, GoodConfig, DeviceBody, Octets, Encode, ConfigRecords, BuildConfigs;
    var r, rs := Octets(Record(DT_DEVICE, DeviceBody(p))), ConfigRecords(p.configs);
    DeviceFirst(p, Encode(rs) + more);
    assert (r + Encode(rs)) + more == r + (Encode(rs) + more);
    ConfigsFold(p.d, [], p.configs);
    ConfigsEncodable(p.configs);
    ParseBehind(Tree(p.d, []), rs, more);
    assert [] + BuildConfigs(p.configs) == BuildConfigs(p.configs);
  }

  lemma NoRoomForFifth(t: Tree, item: Item)
    requires item.Endpoint? && |item.tail| == 3
    requires t.configs != [] && LastConfig(t).interfaces != []
    requires var i := LastInterface(LastConfig(t)); |i.endpoints| == 4 && i.descriptor.bNumEndpoints == 5
    ensures 2 < |Octets(ItemRecord(item))| && ParseRest(t, Octets(ItemRecord(item))) == Undefined
  {
    var r := Octets(ItemRecord(item));
    assert |r| == 7 && r[..7] == r;
  }
}
