/** Choosing the CCID interface of a device (usb.c). */
module Interfaces {
  import opened Bytes
  import opened Usb
  import opened CcidDescriptors

  // Transfer types of table 9-13 of the USB specification Revision 2.0.
  const BULK: nat := 2
  const INTERRUPT: nat := 3

  predicate IsKind(e: EndpointDescriptor, transfer: nat, input: bool) {
    e.bmAttributes % 4 == transfer && e.bEndpointAddress / 0x80 == (if input then 1 else 0)
  }

  // The address of the last endpoint of a kind, or -1.
  function LastOf(es: seq<EndpointDescriptor>, transfer: nat, input: bool): int {
    if es == [] then -1
    else if IsKind(es[|es| - 1], transfer, input) then es[|es| - 1].bEndpointAddress
    else LastOf(es[..|es| - 1], transfer, input)
  }

  // The same on the fields: input addresses are those from 80 on.
  ghost predicate IsLastAddress(es: seq<EndpointDescriptor>, transfer: nat, input: bool, address: int) {
    || (address == -1
        && forall i | 0 <= i < |es| :: !(es[i].bmAttributes % 4 == transfer && (input <==> 0x80 <= es[i].bEndpointAddress)))
    || exists i | 0 <= i < |es| ::
         && es[i].bmAttributes % 4 == transfer && (input <==> 0x80 <= es[i].bEndpointAddress)
         && address == es[i].bEndpointAddress
         && forall j | i < j < |es| :: !(es[j].bmAttributes % 4 == transfer && (input <==> 0x80 <= es[j].bEndpointAddress))
  }

  lemma {:induction false} LastOfIsLast(es: seq<EndpointDescriptor>, transfer: nat, input: bool)
    ensures IsLastAddress(es, transfer, input, LastOf(es, transfer, input))
    decreases |es|
  {
    if es != [] && !IsKind(es[|es| - 1], transfer, input) {
      var front, address := es[..|es| - 1], LastOf(es, transfer, input);
      LastOfIsLast(front, transfer, input);
      assert es == front + [es[|es| - 1]];
      if address != -1 {
        var i :| 0 <= i < |front| && IsKind(front[i], transfer, input) && address == front[i].bEndpointAddress
                 && forall j | i < j < |front| :: !IsKind(front[j], transfer, input);
        assert es[i] == front[i] && forall j | i < j < |front| :: es[j] == front[j];
      }
    } else if es != [] {
      assert IsKind(es[|es| - 1], transfer, input);
    }
  }

  // There is only one such address.
  lemma LastIsOne(es: seq<EndpointDescriptor>, transfer: nat, input: bool, a: int, b: int)
    requires IsLastAddress(es, transfer, input, a) && IsLastAddress(es, transfer, input, b)
    ensures a == b
  {
  }

  // To write to, to read from, and to be interrupted by.
  ghost predicate HasEndpointsOf(dev: UsbDevice, es: seq<EndpointDescriptor>)
    reads dev
  {
    && dev.epOut == LastOf(es, BULK, false)
    && dev.epIn == LastOf(es, BULK, true)
    && dev.epIntr == LastOf(es, INTERRUPT, true)
  }

  predicate SameEndpoints(dev: UsbDevice, epOut: int, epIn: int, epIntr: int)
    reads dev
  {
    dev.epOut == epOut && dev.epIn == epIn && dev.epIntr == epIntr
  }

  // The endpoints after a search in vain: those of the last CCID interface, if there is one.
  ghost predicate LeftBehind(dev: UsbDevice, t: Tree, last: Option<Slot>, epOut: int, epIn: int, epIntr: int)
    reads dev
  {
    match last
    case Some(s) => InTree(t, s) && HasEndpointsOf(dev, At(t, s).endpoints)
    case None => SameEndpoints(dev, epOut, epIn, epIntr)
  }

  predicate Usable(i: Interface) {
    i.ccid.Some? && LastOf(i.endpoints, BULK, false) >= 0 && LastOf(i.endpoints, BULK, true) >= 0
  }

  // uusb_set_endpoints: a later endpoint of the same kind replaces an earlier one.
  method SetEndpoints(dev: UsbDevice, interface: Interface) returns (ok: bool)
    modifies dev`epOut, dev`epIn, dev`epIntr
    ensures HasEndpointsOf(dev, interface.endpoints)
    ensures IsLastAddress(interface.endpoints, 2, false, dev.epOut) && dev.epOut < 0x80
    ensures IsLastAddress(interface.endpoints, 2, true, dev.epIn) && (dev.epIn == -1 || 0x80 <= dev.epIn)
    ensures IsLastAddress(interface.endpoints, 3, true, dev.epIntr) && (dev.epIntr == -1 || 0x80 <= dev.epIntr)
    ensures ok == (dev.epOut != -1 && dev.epIn != -1)
  {
    dev.epOut, dev.epIn, dev.epIntr := -1, -1, -1;
    var es := interface.endpoints;
    var i := 0;
    while i < |es|
      invariant i <= |es| && HasEndpointsOf(dev, es[..i])
    {
      assert es[..i + 1][..i] == es[..i];
      var d := es[i];
      if d.bmAttributes % 4 == 2 {
        if d.bEndpointAddress / 0x80 == 1 {
          dev.epIn := d.bEndpointAddress;
        } else {
          dev.epOut := d.bEndpointAddress;
        }
      } else if d.bmAttributes % 4 == 3 {
        if d.bEndpointAddress / 0x80 == 1 {
          dev.epIntr := d.bEndpointAddress;
        }
      }
      i := i + 1;
    }
    assert es[..|es|] == es;
    LastOfIsLast(es, BULK, false);
    LastOfIsLast(es, BULK, true);
    LastOfIsLast(es, INTERRUPT, true);
    return dev.epOut >= 0 && dev.epIn >= 0;
  }

  // A position in the tree: configuration, then interface.
  datatype Slot = Slot(config: nat, interface: nat)

  predicate InTree(t: Tree, s: Slot) {
    s.config < |t.configs| && s.interface < |t.configs[s.config].interfaces|
  }

  function At(t: Tree, s: Slot): Interface
    requires InTree(t, s)
  {
    t.configs[s.config].interfaces[s.interface]
  }

  // uusb_select_interface: a sole configuration is not set, interface 0 is not claimed.
  function Select(o: Oracle, log: Log, t: Tree, s: Slot): (Log, bool)
    requires InTree(t, s)
  {
    var value, number := t.configs[s.config].descriptor.bConfigurationValue, At(t, s).descriptor.bInterfaceNumber;
    var many := t.descriptor.bNumConfigurations > 1;
    var set' := !many || o.configures(log, value);
    var log1 := if many then log + [SetConfiguration(value, set')] else log;
    if !set' || number == 0 then (log1, set')
    else (log1 + [ClaimInterface(number, o.claims(log1, number))], o.claims(log1, number))
  }

  method SelectInterface(dev: UsbDevice, s: Slot) returns (ok: bool)
    requires InTree(dev.tree, s)
    modifies dev`log
    ensures (dev.log, ok) == Select(dev.oracle, old(dev.log), dev.tree, s)
  {
    var value := dev.tree.configs[s.config].descriptor.bConfigurationValue;
    var number := At(dev.tree, s).descriptor.bInterfaceNumber;
    if dev.tree.descriptor.bNumConfigurations > 1 {
      ok := dev.oracle.configures(dev.log, value);
      dev.log := dev.log + [SetConfiguration(value, ok)];
      if !ok {
        return;
      }
    }
    if number != 0 {
      ok := dev.oracle.claims(dev.log, number);
      dev.log := dev.log + [ClaimInterface(number, ok)];
      return;
    }
    return true;
  }

  // All positions from one on, configuration by configuration.
  function Slots(t: Tree, i: nat, j: nat): seq<Slot>
    requires i <= |t.configs|
    decreases |t.configs| - i, if i < |t.configs| then |t.configs[i].interfaces| - j else 0
  {
    if i == |t.configs| then []
    else if j >= |t.configs[i].interfaces| then Slots(t, i + 1, 0)
    else [Slot(i, j)] + Slots(t, i, j + 1)
  }

  predicate Before(a: Slot, b: Slot) {
    a.config < b.config || (a.config == b.config && a.interface < b.interface)
  }

  // They are all there, in lexicographic order.
  lemma {:induction false} SlotsAreAll(t: Tree, i: nat, j: nat)
    requires i <= |t.configs|
    ensures forall s: Slot :: s in Slots(t, i, j) <==> InTree(t, s) && !Before(s, Slot(i, j))
    ensures forall a, b | 0 <= a < b < |Slots(t, i, j)| :: Before(Slots(t, i, j)[a], Slots(t, i, j)[b])
    decreases |t.configs| - i, if i < |t.configs| then |t.configs[i].interfaces| - j else 0
  {
    if i < |t.configs| {
      if j >= |t.configs[i].interfaces| {
        SlotsAreAll(t, i + 1, 0);
      } else {
        SlotsAreAll(t, i, j + 1);
        var ss, rest := Slots(t, i, j), Slots(t, i, j + 1);
        forall s: Slot ensures s in ss <==> InTree(t, s) && !Before(s, Slot(i, j)) {
          assert s in ss <==> s == Slot(i, j) || s in rest;
        }
        forall a, b | 0 <= a < b < |ss| ensures Before(ss[a], ss[b]) {
          assert ss[b] == rest[b - 1] && rest[b - 1] in rest;
          assert a > 0 ==> ss[a] == rest[a - 1];
        }
      }
    }
  }

  // The first of these positions that is usable and that the kernel grants; each grant that is
  // refused has still been asked for.
  function Choose(o: Oracle, log: Log, t: Tree, ss: seq<Slot>): (Log, Option<Slot>)
    requires forall s <- ss :: InTree(t, s)
    decreases |ss|
  {
    if ss == [] then (log, None)
    else if !Usable(At(t, ss[0])) then Choose(o, log, t, ss[1..])
    else
      var (log', ok) := Select(o, log, t, ss[0]);
      if ok then (log', Some(ss[0])) else Choose(o, log', t, ss[1..])
  }

  function ChooseFrom(o: Oracle, log: Log, t: Tree, i: nat, j: nat): (Log, Option<Slot>)
    requires i <= |t.configs|
  {
    SlotsAreAll(t, i, j);
    Choose(o, log, t, Slots(t, i, j))
  }

  function ChooseInterface(o: Oracle, log: Log, t: Tree): (Log, Option<Slot>) {
    ChooseFrom(o, log, t, 0, 0)
  }

  // How the nested loops move through the list.
  lemma ChooseStep(o: Oracle, log: Log, t: Tree, i: nat, j: nat)
    requires i <= |t.configs|
    ensures i == |t.configs| ==> ChooseFrom(o, log, t, i, j) == (log, None)
    ensures i < |t.configs| && j >= |t.configs[i].interfaces| ==>
      ChooseFrom(o, log, t, i, j) == ChooseFrom(o, log, t, i + 1, 0)
    ensures InTree(t, Slot(i, j)) ==>
      ChooseFrom(o, log, t, i, j) ==
        if !Usable(At(t, Slot(i, j))) then ChooseFrom(o, log, t, i, j + 1) else
        var (log', ok) := Select(o, log, t, Slot(i, j));
        if ok then (log', Some(Slot(i, j))) else ChooseFrom(o, log', t, i, j + 1)
  {
    hide Select, Usable;
    if InTree(t, Slot(i, j)) {
      assert Slots(t, i, j)[1..] == Slots(t, i, j + 1);
    }
  }

  // The last position from one on whose interface has a CCID descriptor, or else `found`.
  function LastCcidSlot(t: Tree, i: nat, j: nat, found: Option<Slot>): Option<Slot>
    requires i <= |t.configs|
    decreases |t.configs| - i, if i < |t.configs| then |t.configs[i].interfaces| - j else 0
  {
    if i == |t.configs| then found
    else if j >= |t.configs[i].interfaces| then LastCcidSlot(t, i + 1, 0, found)
    else LastCcidSlot(t, i, j + 1, if At(t, Slot(i, j)).ccid.Some? then Some(Slot(i, j)) else found)
  }

  ghost predicate IsLastCcid(t: Tree, s: Slot) {
    && InTree(t, s) && At(t, s).ccid.Some?
    && forall r: Slot | InTree(t, r) && Before(s, r) :: At(t, r).ccid == None
  }

  lemma {:induction false} LastCcidSlotFrom(t: Tree, i: nat, j: nat, found: Option<Slot>)
    requires i <= |t.configs|
    ensures var last := LastCcidSlot(t, i, j, found);
      || (last.Some? && !Before(last.value, Slot(i, j)) && IsLastCcid(t, last.value))
      || (last == found && forall r: Slot | InTree(t, r) && !Before(r, Slot(i, j)) :: At(t, r).ccid == None)
    decreases |t.configs| - i, if i < |t.configs| then |t.configs[i].interfaces| - j else 0
  {
    if i < |t.configs| {
      if j >= |t.configs[i].interfaces| {
        LastCcidSlotFrom(t, i + 1, 0, found);
      } else {
        LastCcidSlotFrom(t, i, j + 1, if At(t, Slot(i, j)).ccid.Some? then Some(Slot(i, j)) else found);
      }
    }
  }

  lemma LastCcidIsLast(t: Tree)
    ensures match LastCcidSlot(t, 0, 0, None)
      case Some(s) => IsLastCcid(t, s)
      case None => forall r: Slot | InTree(t, r) :: At(t, r).ccid == None
  {
    LastCcidSlotFrom(t, 0, 0, None);
  }

  // The three conditions on one interface; only a usable one is asked for. Its endpoints are set
  // as soon as it has a CCID descriptor.
  method TrySlot(dev: UsbDevice, s: Slot) returns (ccid: Option<CcidDescriptor>)
    requires InTree(dev.tree, s)
    modifies dev`log, dev`epOut, dev`epIn, dev`epIntr
    ensures !Usable(At(dev.tree, s)) ==> ccid == None && dev.log == old(dev.log)
    ensures Usable(At(dev.tree, s)) ==> (dev.log, ccid.Some?) == Select(dev.oracle, old(dev.log), dev.tree, s)
    ensures ccid.Some? ==> ccid == At(dev.tree, s).ccid && 0 <= dev.epOut < 0x80 <= dev.epIn
    ensures At(dev.tree, s).ccid.Some? ==> HasEndpointsOf(dev, At(dev.tree, s).endpoints)
    ensures At(dev.tree, s).ccid == None ==> SameEndpoints(dev, old(dev.epOut), old(dev.epIn), old(dev.epIntr))
  {
    hide Select, LastOf;
    var interface := At(dev.tree, s);
    if interface.ccid == None {
      return None;
    }
    var ok := SetEndpoints(dev, interface);
    if !ok {
      return None;
    }
    ok := SelectInterface(dev, s);
    return if ok then interface.ccid else None;
  }

  // uusb_dev_select_ccid_interface
  method SelectCcidInterface(dev: UsbDevice) returns (ccid: Option<CcidDescriptor>)
    modifies dev`log, dev`epOut, dev`epIn, dev`epIntr
    ensures var (log, chosen) := ChooseInterface(dev.oracle, old(dev.log), dev.tree);
      && dev.log == log && ccid.Some? == chosen.Some?
      && (chosen.Some? ==>
            && InTree(dev.tree, chosen.value)
            && ccid == At(dev.tree, chosen.value).ccid
            && 0 <= dev.epOut < 0x80 <= dev.epIn
            && HasEndpointsOf(dev, At(dev.tree, chosen.value).endpoints))
      && (chosen == None ==>
            LeftBehind(dev, dev.tree, LastCcidSlot(dev.tree, 0, 0, None), old(dev.epOut), old(dev.epIn), old(dev.epIntr)))
  {
    hide Select, Usable, ChooseFrom, LastOf;
    ghost var t, o, last := dev.tree, dev.oracle, None;
    var i := 0;
    while i < |dev.tree.configs|
      invariant i <= |t.configs| && dev.tree == t
      invariant ChooseInterface(o, old(dev.log), t) == ChooseFrom(o, dev.log, t, i, 0)
      invariant LastCcidSlot(t, 0, 0, None) == LastCcidSlot(t, i, 0, last)
      invariant LeftBehind(dev, t, last, old(dev.epOut), old(dev.epIn), old(dev.epIntr))
    {
      var j := 0;
      while j < |dev.tree.configs[i].interfaces|
        invariant j <= |t.configs[i].interfaces| && dev.tree == t
        invariant ChooseInterface(o, old(dev.log), t) == ChooseFrom(o, dev.log, t, i, j)
        invariant LastCcidSlot(t, 0, 0, None) == LastCcidSlot(t, i, j, last)
        invariant LeftBehind(dev, t, last, old(dev.epOut), old(dev.epIn), old(dev.epIntr))
      {
        ChooseStep(o, dev.log, t, i, j);
        ccid := TrySlot(dev, Slot(i, j));
        if ccid.Some? {
          return;
        }
        last := if At(t, Slot(i, j)).ccid.Some? then Some(Slot(i, j)) else last;
        j := j + 1;
      }
      ChooseStep(o, dev.log, t, i, j);
      i := i + 1;
    }
    ChooseStep(o, dev.log, t, i, 0);
    return None;
  }

  // The choice is that of a search over the finished list: the kernel's log before a position is
  // tried is the one after every usable position before it was tried in vain.

  function LogBefore(o: Oracle, log: Log, t: Tree, ss: seq<Slot>): Log
    requires forall s <- ss :: InTree(t, s)
    decreases |ss|
  {
    if ss == [] then log else
    var before := LogBefore(o, log, t, ss[..|ss| - 1]);
    if Usable(At(t, ss[|ss| - 1])) then Select(o, before, t, ss[|ss| - 1]).0 else before
  }

  predicate Works(o: Oracle, log: Log, t: Tree, ss: seq<Slot>, k: nat)
    requires k < |ss| && forall s <- ss :: InTree(t, s)
  {
    Usable(At(t, ss[k])) && Select(o, LogBefore(o, log, t, ss[..k]), t, ss[k]).1
  }

  lemma {:induction false} LogBeforeFromFront(o: Oracle, log: Log, t: Tree, ss: seq<Slot>)
    requires ss != [] && forall s <- ss :: InTree(t, s)
    ensures LogBefore(o, log, t, ss) ==
      LogBefore(o, if Usable(At(t, ss[0])) then Select(o, log, t, ss[0]).0 else log, t, ss[1..])
    decreases |ss|
  {
    hide Select, Usable;
    if |ss| == 1 {
      assert ss[..0] == [] && ss[1..] == [];
    } else {
      var n := |ss| - 1;
      LogBeforeFromFront(o, log, t, ss[..n]);
      assert ss[..n][1..] == ss[1..][..n - 1];
    }
  }

  // The lexicographically first position that works is chosen, and none only if none does.
  lemma {:induction false} ChoiceIsFirst(o: Oracle, log: Log, t: Tree, ss: seq<Slot>)
    requires forall s <- ss :: InTree(t, s)
    ensures match Choose(o, log, t, ss).1
      case Some(s) => exists k | 0 <= k < |ss| ::
        ss[k] == s && Works(o, log, t, ss, k) && forall j | 0 <= j < k :: !Works(o, log, t, ss, j)
      case None => forall j | 0 <= j < |ss| :: !Works(o, log, t, ss, j)
    decreases |ss|
  {
    hide Select, Usable;
    if ss != [] {
      assert ss[0] in ss && forall s <- ss[1..] :: s in ss;
      assert ss[..0] == [];
      if !Works(o, log, t, ss, 0) {
        var log1 := if Usable(At(t, ss[0])) then Select(o, log, t, ss[0]).0 else log;
        ChoiceIsFirst(o, log1, t, ss[1..]);
        forall j | 0 < j < |ss|
          ensures Works(o, log, t, ss, j) == Works(o, log1, t, ss[1..], j - 1)
        {
          LogBeforeFromFront(o, log, t, ss[..j]);
          assert ss[..j][1..] == ss[1..][..j - 1];
        }
        if Choose(o, log1, t, ss[1..]).1.Some? {
          var k :| 0 <= k < |ss| - 1 && ss[1..][k] == Choose(o, log1, t, ss[1..]).1.value
            && Works(o, log1, t, ss[1..], k) && forall j | 0 <= j < k :: !Works(o, log1, t, ss[1..], j);
          assert Works(o, log, t, ss, k + 1);
          forall j | 0 < j < k + 1 ensures !Works(o, log, t, ss, j) {
            assert !Works(o, log1, t, ss[1..], j - 1);
          }
        }
      }
    }
  }
}
