/** What parsing descriptors means: the tree is the records in order, and serialising is undone. */
module DescriptorTheorems {
  import opened Bytes
  import opened CcidDescriptors
  import opened Usb
  import opened Descriptors

  // The tree is the records, in order

  datatype Node =
    | ConfigNode(config: ConfigDescriptor)
    | InterfaceNode(interface: InterfaceDescriptor)
    | EndpointNode(endpoint: EndpointDescriptor)

  function EndpointNodes(es: seq<EndpointDescriptor>): seq<Node> {
    if es == [] then [] else EndpointNodes(es[..|es| - 1]) + [EndpointNode(es[|es| - 1])]
  }

  function InterfaceNodes(ifs: seq<Interface>): seq<Node> {
    if ifs == [] then [] else
    var i := ifs[|ifs| - 1];
    InterfaceNodes(ifs[..|ifs| - 1]) + ([InterfaceNode(i.descriptor)] + EndpointNodes(i.endpoints))
  }

  // Each node before its children, children in order.
  function Preorder(cs: seq<Config>): seq<Node> {
    if cs == [] then [] else
    var c := cs[|cs| - 1];
    Preorder(cs[..|cs| - 1]) + ([ConfigNode(c.descriptor)] + InterfaceNodes(c.interfaces))
  }

  // The node a record describes, if any.
  function NodeOf(r: bytes): seq<Node>
    requires 2 <= |r|
  {
    var kind, b := r[1], r[2..];
    if kind == DT_CONFIG && DecodeConfig(b).Some? then [ConfigNode(DecodeConfig(b).value)]
    else if kind == DT_INTERFACE && DecodeInterface(b).Some? then [InterfaceNode(DecodeInterface(b).value)]
    else if kind == DT_ENDPOINT && DecodeEndpoint(b).Some? then [EndpointNode(DecodeEndpoint(b).value)]
    else []
  }

  // The nodes of a run of records, split by their length octets.
  function Listing(s: bytes): seq<Node>
    decreases |s|
  {
    if |s| <= 2 || s[0] > |s| || s[0] < 2 then [] else NodeOf(s[..s[0]]) + Listing(s[s[0]..])
  }

  lemma PreorderWithLast(cs: seq<Config>, c: Config)
    ensures Preorder(cs + [c]) == Preorder(cs) + ([ConfigNode(c.descriptor)] + InterfaceNodes(c.interfaces))
  {
    assert (cs + [c])[..|cs|] == cs;
  }

  lemma InterfaceNodesWithLast(ifs: seq<Interface>, i: Interface)
    ensures InterfaceNodes(ifs + [i]) == InterfaceNodes(ifs) + ([InterfaceNode(i.descriptor)] + EndpointNodes(i.endpoints))
  {
    assert (ifs + [i])[..|ifs|] == ifs;
  }

  // Changing the last configuration by appending to its nodes appends to the whole listing.
  lemma LastConfigGrows(t: Tree, c: Config, added: seq<Node>)
    requires t.configs != [] && c.descriptor == LastConfig(t).descriptor
    requires InterfaceNodes(c.interfaces) == InterfaceNodes(LastConfig(t).interfaces) + added
    ensures Preorder(WithLastConfig(t, c).configs) == Preorder(t.configs) + added
  {
    var front, old' := t.configs[..|t.configs| - 1], LastConfig(t);
    assert t.configs == front + [old'] && WithLastConfig(t, c).configs == front + [c];
    PreorderWithLast(front, old');
    PreorderWithLast(front, c);
  }

  lemma LastInterfaceGrows(c: Config, i: Interface, added: seq<Node>)
    requires c.interfaces != [] && i.descriptor == LastInterface(c).descriptor
    requires EndpointNodes(i.endpoints) == EndpointNodes(LastInterface(c).endpoints) + added
    ensures InterfaceNodes(WithLastInterface(c, i).interfaces) == InterfaceNodes(c.interfaces) + added
  {
    var front, old' := c.interfaces[..|c.interfaces| - 1], LastInterface(c);
    assert c.interfaces == front + [old'] && WithLastInterface(c, i).interfaces == front + [i];
    InterfaceNodesWithLast(front, old');
    InterfaceNodesWithLast(front, i);
  }

  lemma StepAppends(t: Tree, r: bytes)
    requires 2 <= |r| && Step(t, r).Parsed?
    ensures Preorder(Step(t, r).tree.configs) == Preorder(t.configs) + NodeOf(r)
    ensures Step(t, r).tree.descriptor == t.descriptor
  {
    hide DecodeConfig, DecodeInterface, DecodeEndpoint, DecodeCcid, FindType;
    var kind, b := r[1], r[2..];
    if kind == DT_CONFIG {
      PreorderWithLast(t.configs, Config(DecodeConfig(b).value, []));
    } else if t.configs != [] {
      var c := LastConfig(t);
      if kind == DT_INTERFACE {
        var i := NewInterface(DecodeInterface(b).value);
        InterfaceNodesWithLast(c.interfaces, i);
        LastConfigGrows(t, c.(interfaces := c.interfaces + [i]), NodeOf(r));
      } else if c.interfaces != [] {
        var i := LastInterface(c);
        if kind == DT_ENDPOINT {
          var d := DecodeEndpoint(b).value;
          assert (i.endpoints + [d])[..|i.endpoints|] == i.endpoints;
          var i' := i.(endpoints := i.endpoints + [d]);
          LastInterfaceGrows(c, i', NodeOf(r));
          LastConfigGrows(t, WithLastInterface(c, i'), NodeOf(r));
        } else if i.kind == Some(Ccid) {
          var i' := i.(ccid := DecodeCcid(b));
          LastInterfaceGrows(c, i', []);
          LastConfigGrows(t, WithLastInterface(c, i'), []);
        }
      }
    }
  }

  // Every blob that is accepted: the tree, walked from the top, lists exactly the recognised
  // records in their order. So every node is there once, and hangs below the nearest parent
  // before it.
  lemma {:induction false} TreeListsRecords(t: Tree, s: bytes)
    requires ParseRest(t, s).Parsed?
    ensures Preorder(ParseRest(t, s).tree.configs) == Preorder(t.configs) + Listing(s)
    ensures ParseRest(t, s).tree.descriptor == t.descriptor
    decreases |s|
  {
    hide Step, NodeOf;
    if |s| > 2 {
      var r := s[..s[0]];
      StepAppends(t, r);
      var t1 := Step(t, r).tree;
      TreeListsRecords(t1, s[s[0]..]);
      assert (Preorder(t.configs) + NodeOf(r)) + Listing(s[s[0]..]) == Preorder(t.configs) + Listing(s);
    }
  }

  lemma ParsedTreeListsRecords(s: bytes)
    requires ParseBlob(s).Parsed? && 2 < |s|
    ensures Preorder(ParseBlob(s).tree.configs) == Listing(s[s[0]..])
  {
    var d := DecodeDevice(s[..s[0]][2..]).value;
    TreeListsRecords(Tree(d, []), s[s[0]..]);
    assert [] + Listing(s[s[0]..]) == Listing(s[s[0]..]);
  }

  // No accepted tree has more nodes than declared plus one, nor more than the arrays hold. The
  // one too many does get through: the limits are checked with `>` before counting.
  ghost predicate WithinLimits(t: Tree) {
    && |t.configs| <= UUSB_MAX_CONFIGS && |t.configs| <= t.descriptor.bNumConfigurations + 1
    && forall c <- t.configs ::
         && |c.interfaces| <= UUSB_MAX_INTERFACES && |c.interfaces| <= c.descriptor.bNumInterfaces + 1
         && forall i <- c.interfaces ::
              |i.endpoints| <= UUSB_MAX_ENDPOINTS && |i.endpoints| <= i.descriptor.bNumEndpoints + 1
  }

  lemma StepWithinLimits(t: Tree, r: bytes)
    requires 2 <= |r| && Step(t, r).Parsed? && WithinLimits(t)
    ensures WithinLimits(Step(t, r).tree)
  {
    hide DecodeConfig, DecodeInterface, DecodeEndpoint, DecodeCcid, FindType;
  }

  lemma {:induction false} AcceptedWithinLimits(t: Tree, s: bytes)
    requires ParseRest(t, s).Parsed? && WithinLimits(t)
    ensures WithinLimits(ParseRest(t, s).tree)
    decreases |s|
  {
    hide Step;
    if |s| > 2 {
      StepWithinLimits(t, s[..s[0]]);
      AcceptedWithinLimits(Step(t, s[..s[0]]).tree, s[s[0]..]);
    }
  }

  // Exactly when does an accepted tree have no more nodes than declared? It can be read off the
  // records beforehand, by counting: configurations in all, interfaces up to the next
  // configuration, endpoints up to the next record that is none.

  function ConfigCount(ns: seq<Node>): nat {
    if ns == [] then 0 else (if ns[0].ConfigNode? then 1 else 0) + ConfigCount(ns[1..])
  }

  function InterfacesAhead(ns: seq<Node>): nat {
    if ns == [] || ns[0].ConfigNode? then 0
    else (if ns[0].InterfaceNode? then 1 else 0) + InterfacesAhead(ns[1..])
  }

  function EndpointsAhead(ns: seq<Node>): nat {
    if ns == [] || !ns[0].EndpointNode? then 0 else 1 + EndpointsAhead(ns[1..])
  }

  predicate CountsDeclared(ns: seq<Node>) {
    ns == [] ||
    (CountsDeclared(ns[1..])
     && match ns[0]
        case ConfigNode(d) => InterfacesAhead(ns[1..]) <= d.bNumInterfaces
        case InterfaceNode(d) => EndpointsAhead(ns[1..]) <= d.bNumEndpoints
        case EndpointNode(_) => true)
  }

  ghost predicate WithinDeclared(t: Tree) {
    |t.configs| <= t.descriptor.bNumConfigurations && AllConfigsWithinDeclared(t.configs)
  }

  ghost predicate AllConfigsWithinDeclared(cs: seq<Config>) {
    forall c <- cs :: ConfigWithinDeclared(c)
  }

  ghost predicate ConfigWithinDeclared(c: Config) {
    |c.interfaces| <= c.descriptor.bNumInterfaces && AllWithinDeclared(c.interfaces)
  }

  ghost predicate AllWithinDeclared(ifs: seq<Interface>) {
    forall i <- ifs :: InterfaceWithinDeclared(i)
  }

  ghost predicate InterfaceWithinDeclared(i: Interface) {
    |i.endpoints| <= i.descriptor.bNumEndpoints
  }

  lemma LastConfigWithin(cs: seq<Config>)
    requires cs != []
    ensures AllConfigsWithinDeclared(cs) <==>
      AllConfigsWithinDeclared(cs[..|cs| - 1]) && ConfigWithinDeclared(cs[|cs| - 1])
  {
    hide ConfigWithinDeclared;
    assert cs == cs[..|cs| - 1] + [cs[|cs| - 1]];
  }

  lemma LastInterfaceWithin(ifs: seq<Interface>)
    requires ifs != []
    ensures AllWithinDeclared(ifs) <==>
      AllWithinDeclared(ifs[..|ifs| - 1]) && InterfaceWithinDeclared(ifs[|ifs| - 1])
  {
    hide InterfaceWithinDeclared;
    assert ifs == ifs[..|ifs| - 1] + [ifs[|ifs| - 1]];
  }

  lemma {:induction false} EndpointsCount(es: seq<EndpointDescriptor>, rest: seq<Node>)
    ensures var ns := EndpointNodes(es) + rest;
      && EndpointsAhead(ns) == |es| + EndpointsAhead(rest)
      && InterfacesAhead(ns) == InterfacesAhead(rest)
      && ConfigCount(ns) == ConfigCount(rest)
      && CountsDeclared(ns) == CountsDeclared(rest)
    decreases |es|
  {
    if es == [] {
      assert [] + rest == rest;
    } else {
      var n := EndpointNode(es[|es| - 1]);
      EndpointsCount(es[..|es| - 1], [n] + rest);
      assert EndpointNodes(es) + rest == EndpointNodes(es[..|es| - 1]) + ([n] + rest);
      assert ([n] + rest)[1..] == rest;
    }
  }

  lemma InterfaceGroupCounts(i: Interface, rest: seq<Node>)
    requires rest == [] || rest[0].ConfigNode? || rest[0].InterfaceNode?
    ensures var group := [InterfaceNode(i.descriptor)] + (EndpointNodes(i.endpoints) + rest);
      && InterfacesAhead(group) == 1 + InterfacesAhead(rest)
      && ConfigCount(group) == ConfigCount(rest)
      && (CountsDeclared(group) <==> InterfaceWithinDeclared(i) && CountsDeclared(rest))
  {
    hide EndpointNodes;
    var group := [InterfaceNode(i.descriptor)] + (EndpointNodes(i.endpoints) + rest);
    EndpointsCount(i.endpoints, rest);
    assert group[1..] == EndpointNodes(i.endpoints) + rest;
  }

  lemma {:induction false} InterfacesCount(ifs: seq<Interface>, rest: seq<Node>)
    requires rest == [] || rest[0].ConfigNode? || rest[0].InterfaceNode?
    ensures var ns := InterfaceNodes(ifs) + rest;
      && (ns == [] || !ns[0].EndpointNode?)
      && InterfacesAhead(ns) == |ifs| + InterfacesAhead(rest)
      && ConfigCount(ns) == ConfigCount(rest)
      && (CountsDeclared(ns) <==> AllWithinDeclared(ifs) && CountsDeclared(rest))
    decreases |ifs|
  {
    hide EndpointNodes, InterfaceWithinDeclared, CountsDeclared, ConfigCount, InterfacesAhead;
    if ifs == [] {
      assert InterfaceNodes(ifs) + rest == rest;
    } else {
      hide AllWithinDeclared;
      var front, i := ifs[..|ifs| - 1], ifs[|ifs| - 1];
      var group := [InterfaceNode(i.descriptor)] + (EndpointNodes(i.endpoints) + rest);
      InterfaceGroupCounts(i, rest);
      InterfacesCount(front, group);
      assert InterfaceNodes(ifs) + rest == InterfaceNodes(front) + group;
      LastInterfaceWithin(ifs);
    }
  }

  lemma ConfigGroupCounts(c: Config, rest: seq<Node>)
    requires rest == [] || rest[0].ConfigNode?
    ensures var group := [ConfigNode(c.descriptor)] + (InterfaceNodes(c.interfaces) + rest);
      && ConfigCount(group) == 1 + ConfigCount(rest)
      && (CountsDeclared(group) <==> ConfigWithinDeclared(c) && CountsDeclared(rest))
  {
    hide InterfaceNodes;
    var group := [ConfigNode(c.descriptor)] + (InterfaceNodes(c.interfaces) + rest);
    InterfacesCount(c.interfaces, rest);
    assert group[1..] == InterfaceNodes(c.interfaces) + rest;
  }

  lemma {:induction false} ConfigsCount(cs: seq<Config>, rest: seq<Node>)
    requires rest == [] || rest[0].ConfigNode?
    ensures var ns := Preorder(cs) + rest;
      && ConfigCount(ns) == |cs| + ConfigCount(rest)
      && (CountsDeclared(ns) <==> AllConfigsWithinDeclared(cs) && CountsDeclared(rest))
    decreases |cs|
  {
    hide InterfaceNodes, ConfigWithinDeclared, CountsDeclared, ConfigCount;
    if cs == [] {
      assert Preorder(cs) + rest == rest;
    } else {
      hide AllConfigsWithinDeclared;
      var front, c := cs[..|cs| - 1], cs[|cs| - 1];
      var group := [ConfigNode(c.descriptor)] + (InterfaceNodes(c.interfaces) + rest);
      ConfigGroupCounts(c, rest);
      ConfigsCount(front, group);
      assert Preorder(cs) + rest == Preorder(front) + group;
      LastConfigWithin(cs);
    }
  }

  lemma DeclaredIffCounts(s: bytes)
    requires ParseBlob(s).Parsed? && 2 < |s|
    ensures var t, ns := ParseBlob(s).tree, Listing(s[s[0]..]);
      WithinDeclared(t) <==> ConfigCount(ns) <= t.descriptor.bNumConfigurations && CountsDeclared(ns)
  {
    var t := ParseBlob(s).tree;
    ParsedTreeListsRecords(s);
    ConfigsCount(t.configs, []);
    assert Preorder(t.configs) + [] == Preorder(t.configs);
  }

  // When is the outcome undefined? At the first record that is shorter than its own header, or
  // that describes a node for which there is no room in its parent's array although the parent
  // declares more than the array holds. That can be read off the records before it.

  // The last configuration and how many interfaces it has so far.
  function OpenConfig(ns: seq<Node>): Option<(ConfigDescriptor, nat)> {
    if ns == [] then None else
    var front := ns[..|ns| - 1];
    match ns[|ns| - 1]
    case ConfigNode(d) => Some((d, 0))
    case InterfaceNode(_) =>
      (match OpenConfig(front)
       case None => None
       case Some(c) => Some((c.0, c.1 + 1)))
    case EndpointNode(_) => OpenConfig(front)
  }

  // The last configuration's last interface and how many endpoints it has so far.
  function OpenInterface(ns: seq<Node>): Option<(InterfaceDescriptor, nat)> {
    if ns == [] then None else
    match ns[|ns| - 1]
    case ConfigNode(_) => None
    case InterfaceNode(d) => Some((d, 0))
    case EndpointNode(_) =>
      match OpenInterface(ns[..|ns| - 1])
      case None => None
      case Some(i) => Some((i.0, i.1 + 1))
  }

  predicate Overruns(numConfigs: nat, ns: seq<Node>, kind: byte) {
    if kind == DT_CONFIG then 8 <= ConfigCount(ns) <= numConfigs
    else if kind == DT_INTERFACE then
      OpenConfig(ns).Some? && 8 <= OpenConfig(ns).value.1 <= OpenConfig(ns).value.0.bNumInterfaces
    else if kind == DT_ENDPOINT then
      OpenInterface(ns).Some? && 4 <= OpenInterface(ns).value.1 <= OpenInterface(ns).value.0.bNumEndpoints
    else false
  }

  lemma {:induction false} EndpointsOpen(front: seq<Node>, es: seq<EndpointDescriptor>)
    ensures var ns := front + EndpointNodes(es);
      && OpenConfig(ns) == OpenConfig(front)
      && OpenInterface(ns) ==
           match OpenInterface(front)
           case None => None
           case Some(i) => Some((i.0, i.1 + |es|))
    decreases |es|
  {
    if es == [] {
      assert front + [] == front;
    } else {
      var ns, n := front + EndpointNodes(es[..|es| - 1]), EndpointNode(es[|es| - 1]);
      EndpointsOpen(front, es[..|es| - 1]);
      assert front + EndpointNodes(es) == ns + [n];
      assert (ns + [n])[..|ns|] == ns;
    }
  }

  lemma {:induction false} InterfacesOpen(front: seq<Node>, d: ConfigDescriptor, ifs: seq<Interface>)
    ensures var ns := front + [ConfigNode(d)] + InterfaceNodes(ifs);
      && OpenConfig(ns) == Some((d, |ifs|))
      && OpenInterface(ns) ==
           if ifs == [] then None else Some((ifs[|ifs| - 1].descriptor, |ifs[|ifs| - 1].endpoints|))
    decreases |ifs|
  {
    hide EndpointNodes;
    var group := front + [ConfigNode(d)];
    if ifs == [] {
      assert group + [] == group;
    } else {
      var i := ifs[|ifs| - 1];
      var ns := group + InterfaceNodes(ifs[..|ifs| - 1]);
      InterfacesOpen(front, d, ifs[..|ifs| - 1]);
      var ns' := ns + [InterfaceNode(i.descriptor)];
      assert ns'[..|ns|] == ns;
      EndpointsOpen(ns', i.endpoints);
      assert group + InterfaceNodes(ifs) == ns' + EndpointNodes(i.endpoints);
    }
  }

  lemma StepOverruns(t: Tree, r: bytes)
    requires 2 <= |r|
    ensures Step(t, r) == Undefined <==> Overruns(t.descriptor.bNumConfigurations, Preorder(t.configs), r[1])
  {
    hide DecodeConfig, DecodeInterface, DecodeEndpoint, DecodeCcid, FindType, InterfaceNodes;
    hide OpenConfig, OpenInterface, ConfigCount;
    TreeOpens(t);
  }

  lemma TreeOpens(t: Tree)
    ensures var ns := Preorder(t.configs);
      && ConfigCount(ns) == |t.configs|
      && (t.configs == [] ==> OpenConfig(ns) == None && OpenInterface(ns) == None)
      && (t.configs != [] ==> var c := LastConfig(t);
            && OpenConfig(ns) == Some((c.descriptor, |c.interfaces|))
            && OpenInterface(ns) ==
                 if c.interfaces == [] then None
                 else Some((LastInterface(c).descriptor, |LastInterface(c).endpoints|)))
  {
    hide InterfaceNodes;
    var ns := Preorder(t.configs);
    ConfigsCount(t.configs, []);
    assert ns + [] == ns;
    if t.configs != [] {
      var c := LastConfig(t);
      var front := Preorder(t.configs[..|t.configs| - 1]);
      InterfacesOpen(front, c.descriptor, c.interfaces);
      assert ns == front + [ConfigNode(c.descriptor)] + InterfaceNodes(c.interfaces);
    }
  }

  // Whether a record begins at n.
  predicate Boundary(s: bytes, n: nat)
    requires n <= |s|
    decreases n
  {
    n == 0 || (2 <= s[0] <= n && Boundary(s[s[0]..], n - s[0]))
  }

  ghost predicate StuckAt(t: Tree, s: bytes, n: nat) {
    && n + 2 < |s| && Boundary(s, n) && s[n] <= |s| - n
    && ParseRest(t, s[..n + 2]).Parsed?
    && (s[n] < 2 || Step(ParseRest(t, s[..n + 2]).tree, s[n..n + s[n]]) == Undefined)
  }

  lemma {:induction false} RestIsStuck(t: Tree, s: bytes)
    ensures ParseRest(t, s) == Undefined <==> exists n: nat :: StuckAt(t, s, n)
    decreases |s|
  {
    hide Step;
    if |s| > 2 && s[0] <= |s| {
      if s[0] < 2 {
        assert StuckAt(t, s, 0);
      } else {
        var r, rest := s[..s[0]], s[s[0]..];
        assert Step(t, r) == Undefined <==> StuckAt(t, s, 0);
        forall n: nat | n > 0
          ensures StuckAt(t, s, n) <==>
            n >= |r| && Step(t, r).Parsed? && StuckAt(Step(t, r).tree, rest, n - |r|)
        {
          StuckBehind(t, s, n);
        }
        if Step(t, r).Parsed? {
          var t' := Step(t, r).tree;
          RestIsStuck(t', rest);
          if n: nat :| StuckAt(t', rest, n) {
            assert StuckAt(t, s, n + |r|);
          }
        }
      }
    }
  }

  lemma StuckBehind(t: Tree, s: bytes, n: nat)
    requires 2 < |s| && 2 <= s[0] <= |s| && n > 0
    ensures var r, rest := s[..s[0]], s[s[0]..];
      StuckAt(t, s, n) <==> n >= |r| && Step(t, r).Parsed? && StuckAt(Step(t, r).tree, rest, n - |r|)
  {
    hide Step;
    var r, rest := s[..s[0]], s[s[0]..];
    if |r| <= n && n + 2 < |s| {
      var p := s[..n + 2];
      assert p[..p[0]] == r && p[p[0]..] == rest[..n - |r| + 2];
      assert rest[n - |r|] == s[n];
      assert s[n] <= |s| - n ==> s[n..n + s[n]] == rest[n - |r|..n - |r| + s[n]];
    }
  }

  // What is before n is accepted, and the record at n is too short or has no room.
  ghost predicate UndefinedAt(s: bytes, n: nat) {
    && n + 2 < |s| && Boundary(s, n) && s[n] <= |s| - n
    && var before := ParseBlob(s[..n + 2]);
       && before.Parsed?
       && (s[n] < 2
           || (n > 0 && Overruns(before.tree.descriptor.bNumConfigurations, Listing(s[s[0]..n + 2]), s[n + 1])))
  }

  lemma UndefinedIff(s: bytes)
    ensures ParseBlob(s) == Undefined <==> exists n: nat :: UndefinedAt(s, n)
  {
    hide Step, Overruns, Listing, DecodeDevice;
    if |s| > 2 && s[0] <= |s| {
      if s[0] < 2 {
        assert UndefinedAt(s, 0);
      } else {
        var r, rest := s[..s[0]], s[s[0]..];
        var d := DecodeDevice(r[2..]);
        forall n: nat
          ensures UndefinedAt(s, n) <==>
            && n >= |r| && s[1] == DT_DEVICE && d.Some? && GoodDevice(d.value)
            && StuckAt(Tree(d.value, []), rest, n - |r|)
        {
          UndefinedBehind(s, n);
        }
        if s[1] == DT_DEVICE && d.Some? && GoodDevice(d.value) {
          var t := Tree(d.value, []);
          RestIsStuck(t, rest);
          if n: nat :| StuckAt(t, rest, n) {
            assert UndefinedAt(s, n + |r|);
          }
        }
      }
    }
  }

  lemma UndefinedBehind(s: bytes, n: nat)
    requires 2 < |s| && 2 <= s[0] <= |s|
    ensures var r, rest := s[..s[0]], s[s[0]..];
      var d := DecodeDevice(r[2..]);
      UndefinedAt(s, n) <==>
        && n >= |r| && s[1] == DT_DEVICE && d.Some? && GoodDevice(d.value)
        && StuckAt(Tree(d.value, []), rest, n - |r|)
  {
    hide Step, Overruns, Listing, DecodeDevice;
    var r, rest := s[..s[0]], s[s[0]..];
    if |r| <= n && n + 2 < |s| {
      var p, k := s[..n + 2], n - |r|;
      assert p[..p[0]] == r && p[p[0]..] == rest[..k + 2];
      assert rest[k] == s[n] && rest[k + 1] == s[n + 1];
      if ParseBlob(p).Parsed? && 2 <= s[n] <= |s| - n {
        assert s[n..n + s[n]] == rest[k..k + s[n]];
        ParsedTreeListsRecords(p);
        assert p[s[0]..] == s[s[0]..n + 2];
        StepOverruns(ParseBlob(p).tree, rest[k..k + s[n]]);
      }
    }
  }
}
