/** IntegrationPluginZwave: how the plugin maps the registry's nodes onto things. Shutter
    things are bound to a node by their id parameter; the plugin marks them connected when their
    node shows up, proposes new shutter things for unbound Qubino shutters, announces things
    whose node went away, and drives a shutter by pressing and releasing its buttons. */
module Plugin {
  import opened Collections
  import opened OpenZWave
  import opened Registry

  type UInt32 = x: int | 0 <= x < 0x1_0000_0000
  type ThingId = nat

  /** The thing classes the plugin declares; a class of another plugin is OtherClass. */
  datatype ThingClass = Stick | Shutter | Plug | MotionSensor | OtherClass(id: nat)

  /** A parameter value as QVariant holds it: an unsigned number or a string. */
  datatype ParamValue = UIntValue(n: UInt32) | StringValue(s: string)

  /** A configured thing: its id, its class, the value of its parameter (the node id of a
      shutter, the serial port path of a stick) and its connected state. */
  datatype Thing = Thing(id: ThingId, thingClass: ThingClass, param: ParamValue, connected: bool)

  datatype ParamType = ShutterThingIdParam | StickThingPathParam
  datatype Param = Param(paramType: ParamType, value: ParamValue)

  /** A thing proposed to the user: its class, title, description, the id of the existing
      thing it would reconfigure (if any) and its parameters. */
  datatype ThingDescriptor = ThingDescriptor(
    thingClass: ThingClass,
    title: string,
    description: string,
    thingId: Option<ThingId>,
    params: seq<Param>)

  /** A serial port as QSerialPortInfo describes it. */
  datatype SerialPort = SerialPort(portName: string, manufacturer: string, description: string, serialNumber: string)

  datatype ThingError = NoError | HardwareNotAvailable | ActionTypeNotFound | ThingClassNotFound

  /** How an action ends: finished with an error code, or never finished by the plugin. */
  datatype ActionOutcome = Unfinished | Finished(error: ThingError)

  datatype ActionType = ShutterOpen | ShutterClose | ShutterStop | PlugPower | OtherAction(id: nat)

  /** A button operation the plugin asked ZwaveManager for. */
  datatype ButtonCall = Press(valueId: ValueId) | Release(valueId: ValueId)

  /** The signals the plugin emits towards the thing manager. */
  datatype PluginSignal =
    | AutoThingsAppeared(descriptors: seq<ThingDescriptor>)
    | AutoThingDisappeared(thingId: ThingId)

  /** The device type OpenZWave reports for the Qubino shutter. */
  const QubinoShutterDeviceType: UInt16 := 6656

  // ---------------------------------------------------------------------------------------
  // Parameter conversions.

  predicate IsDigit(c: char)
  {
    '0' <= c <= '9'
  }

  predicate IsDecimal(s: string)
  {
    |s| > 0 && forall k :: 0 <= k < |s| ==> IsDigit(s[k])
  }

  function DigitChar(d: nat): (c: char)
    requires d < 10
    ensures IsDigit(c) && (c as int) - ('0' as int) == d
  {
    (('0' as int) + d) as char
  }

  function DigitValue(c: char): (d: nat)
    requires IsDigit(c)
    ensures d < 10
  {
    (c as int) - ('0' as int)
  }

  /** The number a string of digits spells in base 10. */
  function DecimalValue(s: string): nat
    requires forall k :: 0 <= k < |s| ==> IsDigit(s[k])
  {
    if s == [] then 0
    else 10 * DecimalValue(s[..|s| - 1]) + DigitValue(s[|s| - 1])
  }

  /** QVariant::toString of an unsigned number: its decimal digits, without leading zeros. */
  function DecimalString(n: nat): (s: string)
    ensures IsDecimal(s)
    ensures |s| > 1 ==> s[0] != '0'
  {
    if n < 10 then [DigitChar(n)] else DecimalString(n / 10) + [DigitChar(n % 10)]
  }

  /** QVariant::toUInt: a number as it is; a string of digits whose value fits in 32 bits as
      that value; any other string as 0. */
  function ToUInt(v: ParamValue): UInt32
  {
    match v
    case UIntValue(n) => n
    case StringValue(s) => if IsDecimal(s) && DecimalValue(s) < 0x1_0000_0000 then DecimalValue(s) else 0
  }

  /** QVariant::toString. */
  function ParamString(v: ParamValue): string
  {
    match v
    case UIntValue(n) => DecimalString(n)
    case StringValue(s) => s
  }

  // ---------------------------------------------------------------------------------------
  // Binding shutter things to nodes.

  /** The node id a thing's parameter names, after the conversion to quint8. */
  function ShutterNodeId(t: Thing): NodeId
  {
    ToUInt(t.param) % 0x100
  }

  /** A thing is bound to node n when it is a shutter whose truncated parameter is n. */
  predicate BoundTo(t: Thing, n: NodeId)
  {
    t.thingClass == Shutter && ShutterNodeId(t) == n
  }

  /** alreadyAdded(n): whether some configured thing is bound to node n. */
  function AlreadyAdded(things: seq<Thing>, n: NodeId): (r: bool)
    ensures r <==> exists i :: 0 <= i < |things| && BoundTo(things[i], n)
  {
    if things == [] then false
    else if BoundTo(things[0], n) then true
    else
      assert forall i :: 1 <= i < |things| ==> things[i] == things[1..][i - 1];
      AlreadyAdded(things[1..], n)
  }

  /** The descriptor onInitialized proposes for a shutter node. */
  function ShutterDescriptor(n: NodeId): ThingDescriptor
  {
    ThingDescriptor(Shutter, "", "", None, [Param(ShutterThingIdParam, UIntValue(n))])
  }

  /** A node onInitialized proposes: a Qubino shutter that no thing is bound to yet. */
  predicate Proposable(node: Node, things: seq<Thing>)
  {
    node.info.deviceType == QubinoShutterDeviceType && !AlreadyAdded(things, node.nodeId)
  }

  /** The descriptors onInitialized proposes for a node list, in list order. */
  function Proposals(nodes: seq<Node>, things: seq<Thing>): seq<ThingDescriptor>
  {
    if nodes == [] then []
    else
      var last := nodes[|nodes| - 1];
      Proposals(nodes[..|nodes| - 1], things)
      + if Proposable(last, things) then [ShutterDescriptor(last.nodeId)] else []
  }

  /** Whether some node of the list has the id a thing is bound to. */
  function AnyBinds(nodes: seq<Node>, t: Thing): (r: bool)
    ensures r <==> exists i :: 0 <= i < |nodes| && BoundTo(t, nodes[i].nodeId)
  {
    if nodes == [] then false
    else AnyBinds(nodes[..|nodes| - 1], t) || BoundTo(t, nodes[|nodes| - 1].nodeId)
  }

  /** A thing after the connected-state pass over a node list. */
  function Connect(t: Thing, nodes: seq<Node>): Thing
  {
    if AnyBinds(nodes, t) then t.(connected := true) else t
  }

  function ConnectAll(things: seq<Thing>, nodes: seq<Node>): seq<Thing>
  {
    seq(|things|, k requires 0 <= k < |things| => Connect(things[k], nodes))
  }

  /** The autoThingDisappeared signals of onNodeRemoved(n), in thing order. */
  function Disappearances(things: seq<Thing>, n: NodeId): seq<PluginSignal>
  {
    if things == [] then []
    else
      var last := things[|things| - 1];
      Disappearances(things[..|things| - 1], n)
      + if BoundTo(last, n) then [AutoThingDisappeared(last.id)] else []
  }

  /** The first configured thing whose parameter, as a string, is the serial number. */
  function SerialMatch(things: seq<Thing>, serial: string): (r: Option<nat>)
    ensures r.Some? ==> r.value < |things| && ParamString(things[r.value].param) == serial
    ensures r.Some? ==> forall j :: 0 <= j < r.value ==> ParamString(things[j].param) != serial
    ensures r.None? ==> forall j :: 0 <= j < |things| ==> ParamString(things[j].param) != serial
  {
    if things == [] then None
    else if ParamString(things[0].param) == serial then Some(0)
    else match SerialMatch(things[1..], serial)
      case None => None
      case Some(k) => Some(k + 1)
  }

  /** The descriptor discoverThings builds for one serial port. */
  function DiscoveryDescriptor(thingClass: ThingClass, port: SerialPort, things: seq<Thing>): ThingDescriptor
  {
    ThingDescriptor(
      thingClass,
      port.portName,
      port.manufacturer + " " + port.description + " " + port.serialNumber,
      match SerialMatch(things, port.serialNumber)
        case None => None
        case Some(k) => Some(things[k].id),
      [Param(StickThingPathParam, StringValue(port.portName))])
  }

  // ---------------------------------------------------------------------------------------
  // Shutter buttons.

  /** The button labels a shutter action operates on. */
  function ShutterLabels(action: ActionType): set<string>
  {
    match action
    case ShutterOpen => {"Up"}
    case ShutterClose => {"Down"}
    case ShutterStop => {"Up", "Down"}
    case _ => {}
  }

  predicate IsTarget(v: ValueId, lib: Library, labels: set<string>)
  {
    v.valueType == Button && lib.valueLabel(v) in labels
  }

  function Call(v: ValueId, release: bool): ButtonCall
  {
    if release then Release(v) else Press(v)
  }

  /** The library's answer to a press or a release of a value. */
  predicate Accepts(lib: Library, v: ValueId, release: bool)
  {
    if release then lib.releaseButton(v) else lib.pressButton(v)
  }

  /** The button calls of the shutter loop from position i of a node's value list on: one
      call per target, in list order, up to and including the first the library refuses. */
  function CallsFrom(values: seq<ValueId>, i: nat, lib: Library, labels: set<string>, release: bool): seq<ButtonCall>
    decreases |values| - i
  {
    if i >= |values| then []
    else if !IsTarget(values[i], lib, labels) then CallsFrom(values, i + 1, lib, labels, release)
    else [Call(values[i], release)] + if Accepts(lib, values[i], release) then CallsFrom(values, i + 1, lib, labels, release) else []
  }

  /** The connected state plays no part in binding. */
  lemma ConnectKeepsBindings(things: seq<Thing>, nodes: seq<Node>, n: NodeId)
    ensures AlreadyAdded(ConnectAll(things, nodes), n) == AlreadyAdded(things, n)
  {
    var connected := ConnectAll(things, nodes);
    assert forall i :: 0 <= i < |things| ==> BoundTo(connected[i], n) == BoundTo(things[i], n);
  }

  /** The plugin: the things the thing manager has configured for it, the ZwaveManager it
      talks to (none before setup and after the last thing is removed) and the log of the
      signals it has emitted. */
  class IntegrationPluginZwave {
    var things: seq<Thing>
    var manager: ZwaveManager?
    var signals: seq<PluginSignal>

    constructor ()
      ensures things == [] && manager == null && signals == []
    {
      things := [];
      manager := null;
      signals := [];
    }

    /** discoverThings: one descriptor per serial port, in port order; a descriptor reuses the
        id of the first thing whose parameter is the port's serial number. Discovery always
        finishes without error. */
    method DiscoverThings(thingClass: ThingClass, ports: seq<SerialPort>) returns (descriptors: seq<ThingDescriptor>, finished: ThingError)
      ensures |descriptors| == |ports|
      ensures forall i :: 0 <= i < |ports| ==> descriptors[i] == DiscoveryDescriptor(thingClass, ports[i], things)
      ensures finished == NoError
    {
      descriptors := [];
      var i := 0;
      while i < |ports|
        invariant 0 <= i <= |ports|
        invariant |descriptors| == i
        invariant forall k :: 0 <= k < i ==> descriptors[k] == DiscoveryDescriptor(thingClass, ports[k], things)
      {
        var port := ports[i];
        var description := port.manufacturer + " " + port.description + " " + port.serialNumber;
        var descriptor := ThingDescriptor(thingClass, port.portName, description, None, []);
        var j := 0;
        while j < |things|
          invariant 0 <= j <= |things|
          invariant descriptor == ThingDescriptor(thingClass, port.portName, description, None, [])
          invariant forall k :: 0 <= k < j ==> ParamString(things[k].param) != port.serialNumber
        {
          if ParamString(things[j].param) == port.serialNumber {
            assert SerialMatch(things, port.serialNumber) == Some(j);
            descriptor := descriptor.(thingId := Some(things[j].id));
            break;
          }
          j := j + 1;
        }
        descriptor := descriptor.(params := [Param(StickThingPathParam, StringValue(port.portName))]);
        descriptors := descriptors + [descriptor];
        i := i + 1;
      }
      finished := NoError;
    }

    /** executeAction: a shutter action presses (open, close) or releases (stop) the node's
        labelled buttons; a shutter whose node is unknown fails with HardwareNotAvailable, an
        unknown action with ActionTypeNotFound, an unknown class with ThingClassNotFound. The
        successful paths never finish the action. */
    method ExecuteAction(thing: Thing, action: ActionType, lib: Library) returns (outcome: ActionOutcome, calls: seq<ButtonCall>)
      ensures thing.thingClass == Stick ==> outcome == Unfinished && calls == []
      ensures thing.thingClass == Shutter && manager == null ==> outcome == Unfinished && calls == []
      ensures thing.thingClass == Shutter && manager != null && manager.GetNode(ShutterNodeId(thing)).None? ==>
        outcome == Finished(HardwareNotAvailable) && calls == []
      ensures thing.thingClass == Shutter && manager != null && manager.GetNode(ShutterNodeId(thing)).Some? ==>
        if action.ShutterOpen? || action.ShutterClose? || action.ShutterStop? then
          && outcome == Unfinished
          && calls == CallsFrom(manager.GetNode(ShutterNodeId(thing)).value.valueIds, 0, lib, ShutterLabels(action), action.ShutterStop?)
        else outcome == Finished(ActionTypeNotFound) && calls == []
      ensures thing.thingClass == Plug ==>
        calls == [] && outcome == if action == PlugPower then Unfinished else Finished(ActionTypeNotFound)
      ensures thing.thingClass.MotionSensor? || thing.thingClass.OtherClass? ==>
        outcome == Finished(ThingClassNotFound) && calls == []
    {
      outcome, calls := Unfinished, [];
      match thing.thingClass {
      case Stick =>
      case Shutter =>
        var nodeId := ShutterNodeId(thing);
        if manager == null {
          return;
        }
        var node := manager.GetNode(nodeId);
        if node.None? {
          outcome := Finished(HardwareNotAvailable);
          return;
        }
        match action {
        case ShutterOpen =>
          calls := OperateButtons(manager, nodeId, node.value.valueIds, {"Up"}, false, lib);
        case ShutterClose =>
          calls := OperateButtons(manager, nodeId, node.value.valueIds, {"Down"}, false, lib);
        case ShutterStop =>
          calls := OperateButtons(manager, nodeId, node.value.valueIds, {"Up", "Down"}, true, lib);
        case _ =>
          outcome := Finished(ActionTypeNotFound);
        }
      case Plug =>
        if action != PlugPower {
          outcome := Finished(ActionTypeNotFound);
        }
      case _ =>
        outcome := Finished(ThingClassNotFound);
      }
    }

    /** The button loop of the shutter actions: walks the node's value list and presses (or
        releases) every button with one of the labels, giving up at the first refusal. */
    method OperateButtons(mgr: ZwaveManager, nodeId: NodeId, values: seq<ValueId>, labels: set<string>, release: bool, lib: Library)
      returns (calls: seq<ButtonCall>)
      requires mgr.GetNode(nodeId).Some? && mgr.GetNode(nodeId).value.valueIds == values
      ensures calls == CallsFrom(values, 0, lib, labels, release)
    {
      calls := [];
      var i := 0;
      while i < |values|
        invariant 0 <= i <= |values|
        invariant calls + CallsFrom(values, i, lib, labels, release) == CallsFrom(values, 0, lib, labels, release)
      {
        var v := values[i];
        if v.valueType == Button && lib.valueLabel(v) in labels {
          var accepted := Operate(mgr, nodeId, v, release, lib);
          calls := calls + [Call(v, release)];
          if !accepted {
            return;
          }
        }
        i := i + 1;
      }
    }

    /** One press or release through ZwaveManager, for a value its node is known to hold: the
        guard lets it through, so the answer is the library's. */
    method Operate(mgr: ZwaveManager, nodeId: NodeId, v: ValueId, release: bool, lib: Library) returns (accepted: bool)
      requires mgr.GetNode(nodeId).Some? && v in mgr.GetNode(nodeId).value.valueIds
      ensures accepted == Accepts(lib, v, release)
    {
      var forwarded;
      if release {
        accepted, forwarded := mgr.ReleaseButton(nodeId, v, lib);
      } else {
        accepted, forwarded := mgr.PressButton(nodeId, v, lib);
      }
    }

    /** thingRemoved: once the plugin has no thing left it lets go of its ZwaveManager. */
    method ThingRemoved(thing: Thing)
      modifies this
      ensures manager == if old(things) == [] then null else old(manager)
      ensures things == old(things) && signals == old(signals)
    {
      if things == [] {
        manager := null;
      }
    }

    /** onInitialized: marks every shutter bound to a node of the sender's list connected, and
        proposes one batch holding a shutter descriptor for each Qubino shutter node that no
        thing is bound to. */
    method OnInitialized(sender: ZwaveManager)
      modifies this
      ensures things == ConnectAll(old(things), sender.nodes)
      ensures signals == old(signals) + [AutoThingsAppeared(Proposals(sender.nodes, old(things)))]
      ensures manager == old(manager)
    {
      var nodeList := sender.nodes;
      var descriptorList: seq<ThingDescriptor> := [];
      var i := 0;
      while i < |nodeList|
        invariant 0 <= i <= |nodeList|
        invariant things == ConnectAll(old(things), nodeList[..i])
        invariant descriptorList == Proposals(nodeList[..i], old(things))
        invariant signals == old(signals) && manager == old(manager)
      {
        var node := nodeList[i];
        assert nodeList[..i + 1] == nodeList[..i] + [node];
        MarkConnected(node, old(things), nodeList[..i]);
        ConnectKeepsBindings(old(things), nodeList[..i + 1], node.nodeId);
        if node.info.deviceType == QubinoShutterDeviceType && !AlreadyAdded(things, node.nodeId) {
          descriptorList := descriptorList + [ShutterDescriptor(node.nodeId)];
        }
        i := i + 1;
      }
      assert nodeList[..i] == nodeList;
      signals := signals + [AutoThingsAppeared(descriptorList)];
    }

    /** onNodeAdded: marks every shutter bound to the new node connected; proposes nothing. */
    method OnNodeAdded(node: Node)
      modifies this
      ensures things == ConnectAll(old(things), [node])
      ensures signals == old(signals) && manager == old(manager)
    {
      assert things == ConnectAll(things, []);
      MarkConnected(node, things, []);
      assert [] + [node] == [node];
    }

    /** The loop over the things for one node: every shutter bound to the node is marked
        connected, every other thing is left as it is. */
    method MarkConnected(node: Node, ghost original: seq<Thing>, ghost seen: seq<Node>)
      requires things == ConnectAll(original, seen)
      modifies this
      ensures things == ConnectAll(original, seen + [node])
      ensures signals == old(signals) && manager == old(manager)
    {
      assert (seen + [node])[..|seen|] == seen;
      var j := 0;
      while j < |things|
        invariant 0 <= j <= |things| == |original|
        invariant forall k :: 0 <= k < j ==> things[k] == Connect(original[k], seen + [node])
        invariant forall k :: j <= k < |things| ==> things[k] == Connect(original[k], seen)
        invariant signals == old(signals) && manager == old(manager)
      {
        var thing := things[j];
        if thing.thingClass == Shutter && ShutterNodeId(thing) == node.nodeId {
          things := things[j := thing.(connected := true)];
        }
        j := j + 1;
      }
    }

    /** onNodeRemoved(n): announces the disappearance of every shutter bound to n. */
    method OnNodeRemoved(nodeId: NodeId)
      modifies this
      ensures signals == old(signals) + Disappearances(things, nodeId)
      ensures things == old(things) && manager == old(manager)
    {
      var j := 0;
      while j < |things|
        invariant 0 <= j <= |things|
        invariant signals == old(signals) + Disappearances(things[..j], nodeId)
        invariant things == old(things) && manager == old(manager)
      {
        var thing := things[j];
        assert things[..j + 1][..j] == things[..j];
        if thing.thingClass == Shutter && ShutterNodeId(thing) == nodeId {
          signals := signals + [AutoThingDisappeared(thing.id)];
        }
        j := j + 1;
      }
      assert things[..j] == things;
    }
  }
}
