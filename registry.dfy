/** The node/value registry of ZwaveManager: the list of node records it keeps, the way each
    library notification changes that list, the signals it emits, and the two node lookups
    and the button guards built on the list. */
module Registry {
  import opened Collections
  import opened OpenZWave

  /** A ZwaveNode record: its identity, the polled flag, the metadata read from the library
      and the ordered list of value ids known to belong to it. */
  datatype Node = Node(homeId: HomeId, nodeId: NodeId, polled: bool, info: NodeInfo, valueIds: seq<ValueId>)

  /** The signals ZwaveManager emits. */
  datatype Signal =
    | NodeAddedSignal(node: Node)
    | NodeRemovedSignal(nodeId: NodeId)
    | InitializedSignal
    | DriverReadyChangedSignal(homeId: Option<HomeId>)

  /** One entry of the output log: the signal, and the node list as a receiver connected to
      the signal would find it at the moment of emission. */
  datatype Emission = Emission(signal: Signal, registry: seq<Node>)

  predicate HasIdentity(node: Node, homeId: HomeId, nodeId: NodeId)
  {
    node.homeId == homeId && node.nodeId == nodeId
  }

  /** The search of getNode(nodeId): index of the first record with this node id, whatever
      its home id. */
  function FindByNodeId(nodes: seq<Node>, nodeId: NodeId): (r: Option<nat>)
    ensures r.Some? ==> r.value < |nodes| && nodes[r.value].nodeId == nodeId
    ensures r.Some? ==> forall j :: 0 <= j < r.value ==> nodes[j].nodeId != nodeId
    ensures r.None? ==> forall j :: 0 <= j < |nodes| ==> nodes[j].nodeId != nodeId
  {
    if nodes == [] then None
    else if nodes[0].nodeId == nodeId then Some(0)
    else match FindByNodeId(nodes[1..], nodeId)
      case None => None
      case Some(k) => Some(k + 1)
  }

  /** The search of getNode(notification): index of the first record whose home id and node
      id both match. */
  function FindByIdentity(nodes: seq<Node>, homeId: HomeId, nodeId: NodeId): (r: Option<nat>)
    ensures r.Some? ==> r.value < |nodes| && HasIdentity(nodes[r.value], homeId, nodeId)
    ensures r.Some? ==> forall j :: 0 <= j < r.value ==> !HasIdentity(nodes[j], homeId, nodeId)
    ensures r.None? ==> forall j :: 0 <= j < |nodes| ==> !HasIdentity(nodes[j], homeId, nodeId)
  {
    if nodes == [] then None
    else if HasIdentity(nodes[0], homeId, nodeId) then Some(0)
    else match FindByIdentity(nodes[1..], homeId, nodeId)
      case None => None
      case Some(k) => Some(k + 1)
  }

  /** Number of records with the given identity. */
  function CountIdentity(nodes: seq<Node>, homeId: HomeId, nodeId: NodeId): nat
  {
    if nodes == [] then 0
    else CountIdentity(nodes[..|nodes| - 1], homeId, nodeId)
         + (if HasIdentity(nodes[|nodes| - 1], homeId, nodeId) then 1 else 0)
  }

  // ---------------------------------------------------------------------------------------
  // The effect of each notification on the node list, as functions of the list before it.

  /** ValueAdded: the value goes to the end of the first matching record's list. */
  function WithValueAdded(nodes: seq<Node>, homeId: HomeId, nodeId: NodeId, valueId: ValueId): seq<Node>
  {
    match FindByIdentity(nodes, homeId, nodeId)
    case None => nodes
    case Some(k) => nodes[k := nodes[k].(valueIds := nodes[k].valueIds + [valueId])]
  }

  /** ValueRemoved: the first occurrence of the value leaves the first matching record's list. */
  function WithValueRemoved(nodes: seq<Node>, homeId: HomeId, nodeId: NodeId, valueId: ValueId): seq<Node>
  {
    match FindByIdentity(nodes, homeId, nodeId)
    case None => nodes
    case Some(k) => nodes[k := nodes[k].(valueIds := RemoveFirst(nodes[k].valueIds, valueId))]
  }

  /** The record NodeAdded creates. */
  function NewRecord(homeId: HomeId, nodeId: NodeId, lib: Library): Node
  {
    Node(homeId, nodeId, false, lib.nodeInfo(homeId, nodeId), [])
  }

  /** NodeRemoved: the list without any record of the identity, the others in their order. */
  function WithoutIdentity(nodes: seq<Node>, homeId: HomeId, nodeId: NodeId): (r: seq<Node>)
    ensures |r| <= |nodes|
    ensures forall j :: 0 <= j < |r| ==> !HasIdentity(r[j], homeId, nodeId)
  {
    if nodes == [] then []
    else
      var last := nodes[|nodes| - 1];
      WithoutIdentity(nodes[..|nodes| - 1], homeId, nodeId)
      + (if HasIdentity(last, homeId, nodeId) then [] else [last])
  }

  /** The node list after the first i records of a snapshot have been visited by the
      NodeRemoved loop. */
  function PartlyRemoved(snapshot: seq<Node>, homeId: HomeId, nodeId: NodeId, i: nat): seq<Node>
    requires i <= |snapshot|
  {
    WithoutIdentity(snapshot[..i], homeId, nodeId) + snapshot[i..]
  }

  /** The removal signals of the NodeRemoved loop over the first k records: one per matching
      record, each carrying the list as it stands right after that record left it. */
  function RemovalLog(snapshot: seq<Node>, homeId: HomeId, nodeId: NodeId, k: nat): seq<Emission>
    requires k <= |snapshot|
  {
    if k == 0 then []
    else RemovalLog(snapshot, homeId, nodeId, k - 1)
         + if HasIdentity(snapshot[k - 1], homeId, nodeId)
           then [Emission(NodeRemovedSignal(nodeId), PartlyRemoved(snapshot, homeId, nodeId, k))]
           else []
  }

  function RefreshRecord(node: Node, lib: Library): Node
  {
    node.(info := lib.nodeInfo(node.homeId, node.nodeId))
  }

  /** AllNodesQueried: every record's metadata read again from the library. */
  function Refreshed(nodes: seq<Node>, lib: Library): seq<Node>
  {
    seq(|nodes|, j requires 0 <= j < |nodes| => RefreshRecord(nodes[j], lib))
  }

  /** The node list after one notification. */
  function Step(nodes: seq<Node>, note: Notification, lib: Library): seq<Node>
  {
    match note.kind
    case ValueAdded => WithValueAdded(nodes, note.homeId, note.nodeId, note.valueId)
    case ValueRemoved => WithValueRemoved(nodes, note.homeId, note.nodeId, note.valueId)
    case NodeAdded => nodes + [NewRecord(note.homeId, note.nodeId, lib)]
    case NodeRemoved => WithoutIdentity(nodes, note.homeId, note.nodeId)
    case AllNodesQueried => Refreshed(nodes, lib)
    case _ => nodes
  }

  /** The signals emitted while handling one notification, in order. */
  function Emissions(nodes: seq<Node>, note: Notification, lib: Library): seq<Emission>
  {
    match note.kind
    case NodeAdded =>
      var record := NewRecord(note.homeId, note.nodeId, lib);
      [Emission(NodeAddedSignal(record), nodes + [record])]
    case NodeRemoved => RemovalLog(nodes, note.homeId, note.nodeId, |nodes|)
    case DriverReady => [Emission(DriverReadyChangedSignal(Some(note.homeId)), nodes)]
    case DriverFailed => [Emission(DriverReadyChangedSignal(Some(note.homeId)), nodes)]
    case DriverReset => [Emission(DriverReadyChangedSignal(Some(note.homeId)), nodes)]
    case DriverRemoved => [Emission(DriverReadyChangedSignal(None), nodes)]
    case AllNodesQueriedSomeDead => [Emission(InitializedSignal, nodes)]
    case AllNodesQueried => [Emission(InitializedSignal, Refreshed(nodes, lib))]
    case _ => []
  }

  /** valueTypeToString: the label of each value kind; only an unknown kind is shown as "-". */
  function ValueTypeToString(t: ValueType): (r: string)
    ensures r == "-" <==> t.UnknownType?
    ensures t == Decimal ==> r == "Double"
  {
    match t
    case Bool => "Bool"
    case Byte => "Byte"
    case Decimal => "Double"
    case Int => "Int"
    case List => "List"
    case Schedule => "Schedule"
    case Short => "Short"
    case String => "String"
    case Button => "Button"
    case Raw => "Raw"
    case UnknownType(_) => "-"
  }

  // ---------------------------------------------------------------------------------------
  // Facts the loops of ZwaveManager need.

  lemma WithoutIdentityAppend(nodes: seq<Node>, last: Node, homeId: HomeId, nodeId: NodeId)
    ensures WithoutIdentity(nodes + [last], homeId, nodeId)
         == WithoutIdentity(nodes, homeId, nodeId) + if HasIdentity(last, homeId, nodeId) then [] else [last]
  {
    assert (nodes + [last])[..|nodes|] == nodes;
  }

  /** The list before and after the record at position i is visited. */
  lemma PartlyRemovedSplit(snapshot: seq<Node>, homeId: HomeId, nodeId: NodeId, i: nat)
    requires i < |snapshot|
    ensures PartlyRemoved(snapshot, homeId, nodeId, i)
         == WithoutIdentity(snapshot[..i], homeId, nodeId) + [snapshot[i]] + snapshot[i + 1..]
    ensures PartlyRemoved(snapshot, homeId, nodeId, i + 1)
         == WithoutIdentity(snapshot[..i], homeId, nodeId)
            + (if HasIdentity(snapshot[i], homeId, nodeId) then [] else [snapshot[i]])
            + snapshot[i + 1..]
  {
    assert snapshot[..i + 1] == snapshot[..i] + [snapshot[i]];
    WithoutIdentityAppend(snapshot[..i], snapshot[i], homeId, nodeId);
    assert snapshot[i..] == [snapshot[i]] + snapshot[i + 1..];
  }

  /** One turn of the NodeRemoved loop: a matching record is the first occurrence of itself in
      the current list, so removeOne takes exactly it; any other record leaves the list as it is. */
  lemma PartlyRemovedStep(snapshot: seq<Node>, homeId: HomeId, nodeId: NodeId, i: nat)
    requires i < |snapshot|
    ensures HasIdentity(snapshot[i], homeId, nodeId) ==>
      RemoveFirst(PartlyRemoved(snapshot, homeId, nodeId, i), snapshot[i]) == PartlyRemoved(snapshot, homeId, nodeId, i + 1)
    ensures !HasIdentity(snapshot[i], homeId, nodeId) ==>
      PartlyRemoved(snapshot, homeId, nodeId, i + 1) == PartlyRemoved(snapshot, homeId, nodeId, i)
  {
    PartlyRemovedSplit(snapshot, homeId, nodeId, i);
    var done := WithoutIdentity(snapshot[..i], homeId, nodeId);
    if HasIdentity(snapshot[i], homeId, nodeId) {
      assert snapshot[i] !in done;
      RemoveFirstSplit(done, snapshot[i], snapshot[i + 1..]);
      assert done + [] + snapshot[i + 1..] == done + snapshot[i + 1..];
    }
  }

  /** One turn of the NodeRemoved loop, for the node list and the log together. */
  lemma RemovalStep(snapshot: seq<Node>, homeId: HomeId, nodeId: NodeId, i: nat)
    requires i < |snapshot|
    ensures HasIdentity(snapshot[i], homeId, nodeId) ==>
      && RemoveFirst(PartlyRemoved(snapshot, homeId, nodeId, i), snapshot[i]) == PartlyRemoved(snapshot, homeId, nodeId, i + 1)
      && RemovalLog(snapshot, homeId, nodeId, i + 1)
         == RemovalLog(snapshot, homeId, nodeId, i) + [Emission(NodeRemovedSignal(nodeId), PartlyRemoved(snapshot, homeId, nodeId, i + 1))]
    ensures !HasIdentity(snapshot[i], homeId, nodeId) ==>
      && PartlyRemoved(snapshot, homeId, nodeId, i + 1) == PartlyRemoved(snapshot, homeId, nodeId, i)
      && RemovalLog(snapshot, homeId, nodeId, i + 1) == RemovalLog(snapshot, homeId, nodeId, i)
  {
    PartlyRemovedStep(snapshot, homeId, nodeId, i);
  }

  /** Once every record has been visited, the list holds exactly the other identities' records. */
  lemma PartlyRemovedAll(snapshot: seq<Node>, homeId: HomeId, nodeId: NodeId)
    ensures PartlyRemoved(snapshot, homeId, nodeId, |snapshot|) == WithoutIdentity(snapshot, homeId, nodeId)
  {
    assert snapshot[..|snapshot|] == snapshot;
    assert snapshot[|snapshot|..] == [];
  }

  /** ZwaveManager: the registry of node records and the log of emitted signals. */
  class ZwaveManager {
    var nodes: seq<Node>
    var signals: seq<Emission>

    constructor ()
      ensures nodes == [] && signals == []
    {
      nodes := [];
      signals := [];
    }

    /** getNode(nodeId): the first record with this node id, whatever its home id. */
    function GetNode(nodeId: NodeId): (r: Option<Node>)
      reads this
      ensures r.None? <==> forall i :: 0 <= i < |nodes| ==> nodes[i].nodeId != nodeId
      ensures r.Some? ==> exists i :: 0 <= i < |nodes| && nodes[i] == r.value && r.value.nodeId == nodeId
                                      && forall j :: 0 <= j < i ==> nodes[j].nodeId != nodeId
    {
      match FindByNodeId(nodes, nodeId)
      case None => None
      case Some(k) => Some(nodes[k])
    }

    /** pressButton: the library is asked only when getNode(nodeId) finds a record whose value
        list holds the value; the answer is the library's. */
    method PressButton(nodeId: NodeId, valueId: ValueId, lib: Library) returns (accepted: bool, forwarded: bool)
      ensures forwarded <==> GetNode(nodeId).Some? && valueId in GetNode(nodeId).value.valueIds
      ensures accepted <==> forwarded && lib.pressButton(valueId)
    {
      accepted, forwarded := false, false;
      var node := GetNode(nodeId);
      if node.None? {
        return;
      }
      if valueId !in node.value.valueIds {
        return;
      }
      forwarded := true;
      accepted := lib.pressButton(valueId);
    }

    /** releaseButton: the same guard in front of Manager::ReleaseButton. */
    method ReleaseButton(nodeId: NodeId, valueId: ValueId, lib: Library) returns (accepted: bool, forwarded: bool)
      ensures forwarded <==> GetNode(nodeId).Some? && valueId in GetNode(nodeId).value.valueIds
      ensures accepted <==> forwarded && lib.releaseButton(valueId)
    {
      accepted, forwarded := false, false;
      var node := GetNode(nodeId);
      if node.None? {
        return;
      }
      if valueId !in node.value.valueIds {
        return;
      }
      forwarded := true;
      accepted := lib.releaseButton(valueId);
    }

    /** onNotification: applies one notification to the node list and emits its signals. */
    method OnNotification(note: Notification, lib: Library)
      modifies this
      ensures nodes == Step(old(nodes), note, lib)
      ensures signals == old(signals) + Emissions(old(nodes), note, lib)
    {
      match note.kind
      case ValueAdded => AddValue(note.homeId, note.nodeId, note.valueId);
      case ValueRemoved => RemoveValue(note.homeId, note.nodeId, note.valueId);
      case NodeAdded => AddNode(note.homeId, note.nodeId, lib);
      case NodeRemoved => RemoveNodes(note.homeId, note.nodeId);
      case DriverReady => Emit(DriverReadyChangedSignal(Some(note.homeId)));
      case DriverFailed => Emit(DriverReadyChangedSignal(Some(note.homeId)));
      case DriverReset => Emit(DriverReadyChangedSignal(Some(note.homeId)));
      case DriverRemoved => Emit(DriverReadyChangedSignal(None));
      case AllNodesQueriedSomeDead => Emit(InitializedSignal);
      case AllNodesQueried =>
        RefreshNodes(lib);
        Emit(InitializedSignal);
      case _ =>
    }

    method Emit(signal: Signal)
      modifies this
      ensures nodes == old(nodes)
      ensures signals == old(signals) + [Emission(signal, nodes)]
    {
      signals := signals + [Emission(signal, nodes)];
    }

    method AddValue(homeId: HomeId, nodeId: NodeId, valueId: ValueId)
      modifies this
      ensures nodes == WithValueAdded(old(nodes), homeId, nodeId, valueId)
      ensures signals == old(signals)
    {
      var k := FindByIdentity(nodes, homeId, nodeId);
      if k.None? {
        return;  // no record for the value: the notification is dropped
      }
      var node := nodes[k.value];
      nodes := nodes[k.value := node.(valueIds := node.valueIds + [valueId])];
    }

    method RemoveValue(homeId: HomeId, nodeId: NodeId, valueId: ValueId)
      modifies this
      ensures nodes == WithValueRemoved(old(nodes), homeId, nodeId, valueId)
      ensures signals == old(signals)
    {
      var k := FindByIdentity(nodes, homeId, nodeId);
      if k.None? {
        return;
      }
      var node := nodes[k.value];
      var values := node.valueIds;
      var i := 0;
      while i < |values|
        invariant 0 <= i <= |values|
        invariant valueId !in values[..i]
        invariant nodes == old(nodes)
      {
        if values[i] == valueId {
          nodes := nodes[k.value := node.(valueIds := RemoveFirst(values, valueId))];
          return;
        }
        i := i + 1;
      }
      assert values[..i] == values;
    }

    method AddNode(homeId: HomeId, nodeId: NodeId, lib: Library)
      modifies this
      ensures nodes == old(nodes) + [NewRecord(homeId, nodeId, lib)]
      ensures signals == old(signals) + [Emission(NodeAddedSignal(NewRecord(homeId, nodeId, lib)), nodes)]
    {
      var record := Node(homeId, nodeId, false, lib.nodeInfo(homeId, nodeId), []);
      nodes := nodes + [record];
      Emit(NodeAddedSignal(record));
    }

    /** The NodeRemoved loop: it walks a copy of the list (as Qt's foreach does), removes each
        matching record with removeOne and emits the removal right after. */
    method RemoveNodes(homeId: HomeId, nodeId: NodeId)
      modifies this
      ensures nodes == WithoutIdentity(old(nodes), homeId, nodeId)
      ensures signals == old(signals) + RemovalLog(old(nodes), homeId, nodeId, |old(nodes)|)
    {
      var snapshot := nodes;
      var i := 0;
      while i < |snapshot|
        invariant 0 <= i <= |snapshot|
        invariant nodes == PartlyRemoved(snapshot, homeId, nodeId, i)
        invariant signals == old(signals) + RemovalLog(snapshot, homeId, nodeId, i)
      {
        VisitRecord(snapshot, homeId, nodeId, i, old(signals));
        i := i + 1;
      }
      PartlyRemovedAll(snapshot, homeId, nodeId);
    }

    /** One turn of the NodeRemoved loop: the record at position i of the copy is removed from
        the live list and announced when it has the identity, and skipped otherwise. */
    method VisitRecord(snapshot: seq<Node>, homeId: HomeId, nodeId: NodeId, i: nat, ghost before: seq<Emission>)
      requires i < |snapshot|
      requires nodes == PartlyRemoved(snapshot, homeId, nodeId, i)
      requires signals == before + RemovalLog(snapshot, homeId, nodeId, i)
      modifies this
      ensures nodes == PartlyRemoved(snapshot, homeId, nodeId, i + 1)
      ensures signals == before + RemovalLog(snapshot, homeId, nodeId, i + 1)
    {
      var record := snapshot[i];
      RemovalStep(snapshot, homeId, nodeId, i);
      if record.homeId == homeId && record.nodeId == nodeId {
        nodes := RemoveFirst(nodes, record);
        Emit(NodeRemovedSignal(record.nodeId));
      }
    }

    /** The metadata refresh of AllNodesQueried. */
    method RefreshNodes(lib: Library)
      modifies this
      ensures nodes == Refreshed(old(nodes), lib)
      ensures signals == old(signals)
    {
      var i := 0;
      while i < |nodes|
        invariant 0 <= i <= |nodes| == |old(nodes)|
        invariant forall j :: 0 <= j < i ==> nodes[j] == RefreshRecord(old(nodes)[j], lib)
        invariant forall j :: i <= j < |nodes| ==> nodes[j] == old(nodes)[j]
        invariant signals == old(signals)
      {
        var node := nodes[i];
        nodes := nodes[i := node.(info := lib.nodeInfo(node.homeId, node.nodeId))];
        i := i + 1;
      }
    }
  }
}
