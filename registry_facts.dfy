/** What one notification does to the registry, stated against the node list before it:
    which records change, which stay, which signals go out and what the list looks like to a
    receiver when each of them does. */
module RegistryFacts {
  import opened Collections
  import opened OpenZWave
  import opened Registry

  /** Position k holds the first record of the identity: the one getNode(notification) finds. */
  predicate IsFirstRecord(nodes: seq<Node>, homeId: HomeId, nodeId: NodeId, k: nat)
  {
    k < |nodes| && HasIdentity(nodes[k], homeId, nodeId)
    && forall j :: 0 <= j < k ==> !HasIdentity(nodes[j], homeId, nodeId)
  }

  /** The kinds that change the node list; every other kind leaves it alone. */
  predicate ChangesNodes(kind: NotificationType)
  {
    kind.ValueAdded? || kind.ValueRemoved? || kind.NodeAdded? || kind.NodeRemoved? || kind.AllNodesQueried?
  }

  lemma FirstRecordIsFound(nodes: seq<Node>, homeId: HomeId, nodeId: NodeId, k: nat)
    requires IsFirstRecord(nodes, homeId, nodeId, k)
    ensures FindByIdentity(nodes, homeId, nodeId) == Some(k)
  {
  }

  // ---------------------------------------------------------------------------------------
  // Counting and filtering.

  lemma {:induction false} CountAppend(a: seq<Node>, b: seq<Node>, homeId: HomeId, nodeId: NodeId)
    ensures CountIdentity(a + b, homeId, nodeId) == CountIdentity(a, homeId, nodeId) + CountIdentity(b, homeId, nodeId)
    decreases |b|
  {
    if b != [] {
      var b' := b[..|b| - 1];
      assert (a + b)[..|a + b| - 1] == a + b';
      CountAppend(a, b', homeId, nodeId);
    } else {
      assert a + b == a;
    }
  }

  /** WithoutIdentity drops exactly the records of the identity. */
  lemma {:induction false} WithoutIdentityCount(nodes: seq<Node>, homeId: HomeId, nodeId: NodeId)
    ensures CountIdentity(WithoutIdentity(nodes, homeId, nodeId), homeId, nodeId) == 0
    ensures |WithoutIdentity(nodes, homeId, nodeId)| == |nodes| - CountIdentity(nodes, homeId, nodeId)
  {
    if nodes != [] {
      var init := nodes[..|nodes| - 1];
      var last := nodes[|nodes| - 1];
      WithoutIdentityCount(init, homeId, nodeId);
      var w := WithoutIdentity(init, homeId, nodeId);
      var tail := if HasIdentity(last, homeId, nodeId) then [] else [last];
      CountAppend(w, tail, homeId, nodeId);
      assert CountIdentity(tail, homeId, nodeId) == 0 by {
        if tail != [] { assert tail[..0] == []; }
      }
    }
  }

  /** WithoutIdentity keeps every record of the other identities, and nothing new. */
  lemma {:induction false} WithoutIdentityKeepsOthers(nodes: seq<Node>, homeId: HomeId, nodeId: NodeId)
    ensures forall x :: x in nodes && !HasIdentity(x, homeId, nodeId) ==> x in WithoutIdentity(nodes, homeId, nodeId)
    ensures forall x :: x in WithoutIdentity(nodes, homeId, nodeId) ==> x in nodes
  {
    if nodes != [] {
      var init := nodes[..|nodes| - 1];
      var last := nodes[|nodes| - 1];
      WithoutIdentityKeepsOthers(init, homeId, nodeId);
      assert nodes == init + [last];
    }
  }

  /** WithoutIdentity keeps the order of what it keeps: removing from a concatenation is
      removing from each part. With WithoutIdentityOne this fixes the survivors and their
      order. */
  lemma {:induction false} WithoutIdentityConcat(a: seq<Node>, b: seq<Node>, homeId: HomeId, nodeId: NodeId)
    ensures WithoutIdentity(a + b, homeId, nodeId)
         == WithoutIdentity(a, homeId, nodeId) + WithoutIdentity(b, homeId, nodeId)
  {
    if b == [] {
      assert a + b == a;
    } else {
      var init := b[..|b| - 1];
      var last := b[|b| - 1];
      WithoutIdentityConcat(a, init, homeId, nodeId);
      assert (a + b)[..|a + b| - 1] == a + init;
      assert (a + b)[|a + b| - 1] == last;
    }
  }

  /** A single record stays exactly when it is of another identity. */
  lemma WithoutIdentityOne(x: Node, homeId: HomeId, nodeId: NodeId)
    ensures WithoutIdentity([x], homeId, nodeId) == if HasIdentity(x, homeId, nodeId) then [] else [x]
  {
    assert [x][..0] == [];
  }

  lemma WithoutIdentityOfAbsent(nodes: seq<Node>, homeId: HomeId, nodeId: NodeId)
    requires forall j :: 0 <= j < |nodes| ==> !HasIdentity(nodes[j], homeId, nodeId)
    ensures WithoutIdentity(nodes, homeId, nodeId) == nodes
    decreases |nodes|
  {
    if nodes != [] {
      WithoutIdentityOfAbsent(nodes[..|nodes| - 1], homeId, nodeId);
      assert nodes == nodes[..|nodes| - 1] + [nodes[|nodes| - 1]];
    }
  }

  lemma {:induction false} RemovalLogOfAbsent(nodes: seq<Node>, homeId: HomeId, nodeId: NodeId, k: nat)
    requires k <= |nodes|
    requires forall j :: 0 <= j < |nodes| ==> !HasIdentity(nodes[j], homeId, nodeId)
    ensures RemovalLog(nodes, homeId, nodeId, k) == []
  {
    if k > 0 {
      RemovalLogOfAbsent(nodes, homeId, nodeId, k - 1);
    }
  }

  /** Part way through the NodeRemoved loop, the records of the identity still in the list are
      those of the part not yet visited. */
  lemma PartlyRemovedCount(s: seq<Node>, homeId: HomeId, nodeId: NodeId, k: nat)
    requires k <= |s|
    ensures CountIdentity(PartlyRemoved(s, homeId, nodeId, k), homeId, nodeId)
         == CountIdentity(s, homeId, nodeId) - CountIdentity(s[..k], homeId, nodeId)
  {
    WithoutIdentityCount(s[..k], homeId, nodeId);
    CountAppend(WithoutIdentity(s[..k], homeId, nodeId), s[k..], homeId, nodeId);
    assert s == s[..k] + s[k..];
    CountAppend(s[..k], s[k..], homeId, nodeId);
  }

  /** One removal signal per matching record visited. */
  lemma {:induction false} RemovalLogLength(s: seq<Node>, homeId: HomeId, nodeId: NodeId, k: nat)
    requires k <= |s|
    ensures |RemovalLog(s, homeId, nodeId, k)| == CountIdentity(s[..k], homeId, nodeId)
  {
    if k == 0 {
      assert s[..0] == [];
    } else {
      RemovalLogLength(s, homeId, nodeId, k - 1);
      assert s[..k][..k - 1] == s[..k - 1];
    }
  }

  /** The j-th removal signal is emitted when j + 1 records of the identity have left the list. */
  lemma {:induction false} RemovalLogShape(s: seq<Node>, homeId: HomeId, nodeId: NodeId, k: nat)
    requires k <= |s|
    ensures forall j :: 0 <= j < |RemovalLog(s, homeId, nodeId, k)| ==>
      && RemovalLog(s, homeId, nodeId, k)[j].signal == NodeRemovedSignal(nodeId)
      && CountIdentity(RemovalLog(s, homeId, nodeId, k)[j].registry, homeId, nodeId)
         == CountIdentity(s, homeId, nodeId) - j - 1
  {
    if k > 0 {
      RemovalLogShape(s, homeId, nodeId, k - 1);
      if HasIdentity(s[k - 1], homeId, nodeId) {
        RemovalLogLength(s, homeId, nodeId, k - 1);
        PartlyRemovedCount(s, homeId, nodeId, k);
        assert s[..k][..k - 1] == s[..k - 1];
      }
    }
  }

  /** The last removal signal sees the list as the loop leaves it. */
  lemma {:induction false} LastRemovalSeesResult(s: seq<Node>, homeId: HomeId, nodeId: NodeId, k: nat)
    requires k <= |s|
    requires RemovalLog(s, homeId, nodeId, k) != []
    ensures RemovalLog(s, homeId, nodeId, k)[|RemovalLog(s, homeId, nodeId, k)| - 1].registry
         == PartlyRemoved(s, homeId, nodeId, k)
  {
    if !HasIdentity(s[k - 1], homeId, nodeId) {
      LastRemovalSeesResult(s, homeId, nodeId, k - 1);
      PartlyRemovedStep(s, homeId, nodeId, k - 1);
    }
  }

  // ---------------------------------------------------------------------------------------
  // One lemma per kind of notification.

  /** ValueAdded with a record: the value goes to the end of the first matching record's list;
      every other record, and the length of the list, stay as they were; nothing is emitted. */
  lemma ValueAddedAppends(nodes: seq<Node>, note: Notification, lib: Library, k: nat)
    requires note.kind == ValueAdded && IsFirstRecord(nodes, note.homeId, note.nodeId, k)
    ensures |Step(nodes, note, lib)| == |nodes|
    ensures Step(nodes, note, lib)[k] == nodes[k].(valueIds := nodes[k].valueIds + [note.valueId])
    ensures forall j :: 0 <= j < |nodes| && j != k ==> Step(nodes, note, lib)[j] == nodes[j]
    ensures Emissions(nodes, note, lib) == []
  {
    FirstRecordIsFound(nodes, note.homeId, note.nodeId, k);
  }

  /** ValueRemoved with a record: only the first occurrence of the value leaves the first
      matching record's list; the list shrinks by one exactly when the value was in it. */
  lemma ValueRemovedDropsFirstOccurrence(nodes: seq<Node>, note: Notification, lib: Library, k: nat, p: nat)
    requires note.kind == ValueRemoved && IsFirstRecord(nodes, note.homeId, note.nodeId, k)
    requires p < |nodes[k].valueIds| && nodes[k].valueIds[p] == note.valueId
    requires note.valueId !in nodes[k].valueIds[..p]
    ensures |Step(nodes, note, lib)| == |nodes|
    ensures Step(nodes, note, lib)[k]
         == nodes[k].(valueIds := nodes[k].valueIds[..p] + nodes[k].valueIds[p + 1..])
    ensures forall j :: 0 <= j < |nodes| && j != k ==> Step(nodes, note, lib)[j] == nodes[j]
    ensures Emissions(nodes, note, lib) == []
  {
    FirstRecordIsFound(nodes, note.homeId, note.nodeId, k);
    RemoveFirstAt(nodes[k].valueIds, note.valueId, p);
  }

  /** ValueRemoved of a value the record does not hold changes nothing. */
  lemma ValueRemovedAbsentValue(nodes: seq<Node>, note: Notification, lib: Library, k: nat)
    requires note.kind == ValueRemoved && IsFirstRecord(nodes, note.homeId, note.nodeId, k)
    requires note.valueId !in nodes[k].valueIds
    ensures Step(nodes, note, lib) == nodes
    ensures Emissions(nodes, note, lib) == []
  {
    FirstRecordIsFound(nodes, note.homeId, note.nodeId, k);
  }

  /** ValueAdded and then ValueRemoved of a value the record did not hold restore the list. */
  lemma ValueRoundTrip(nodes: seq<Node>, homeId: HomeId, nodeId: NodeId, valueId: ValueId, lib: Library)
    requires forall k: nat :: IsFirstRecord(nodes, homeId, nodeId, k) ==> valueId !in nodes[k].valueIds
    ensures Step(Step(nodes, Notification(ValueAdded, homeId, nodeId, valueId), lib),
                 Notification(ValueRemoved, homeId, nodeId, valueId), lib) == nodes
  {
    var added := Step(nodes, Notification(ValueAdded, homeId, nodeId, valueId), lib);
    match FindByIdentity(nodes, homeId, nodeId)
    case None =>
      assert added == nodes;
    case Some(k) =>
      assert IsFirstRecord(nodes, homeId, nodeId, k);
      var values := nodes[k].valueIds;
      assert added == nodes[k := nodes[k].(valueIds := values + [valueId])];
      assert IsFirstRecord(added, homeId, nodeId, k);
      FirstRecordIsFound(added, homeId, nodeId, k);
      AppendThenRemoveFirst(values, valueId);
      assert added[k := added[k].(valueIds := values)] == nodes;
  }

  /** ValueAdded and then ValueRemoved of a value the first record already holds move its first
      occurrence to the end of the list; nothing else changes. */
  lemma HeldValueRotates(nodes: seq<Node>, homeId: HomeId, nodeId: NodeId, valueId: ValueId, lib: Library,
                         k: nat, before: seq<ValueId>, after: seq<ValueId>)
    requires IsFirstRecord(nodes, homeId, nodeId, k)
    requires nodes[k].valueIds == before + [valueId] + after && valueId !in before
    ensures Step(Step(nodes, Notification(ValueAdded, homeId, nodeId, valueId), lib),
                 Notification(ValueRemoved, homeId, nodeId, valueId), lib)
         == nodes[k := nodes[k].(valueIds := before + after + [valueId])]
  {
    var values := nodes[k].valueIds;
    FirstRecordIsFound(nodes, homeId, nodeId, k);
    var added := Step(nodes, Notification(ValueAdded, homeId, nodeId, valueId), lib);
    assert added == nodes[k := nodes[k].(valueIds := values + [valueId])];
    assert IsFirstRecord(added, homeId, nodeId, k);
    FirstRecordIsFound(added, homeId, nodeId, k);
    AppendThenRemoveFirstHeld(before, valueId, after);
  }

  /** ValueAdded and then ValueRemoved of any value keep every record's identity, flag and
      metadata, and the contents of every value list; only the order can change. */
  lemma ValueRoundTripKeepsContents(nodes: seq<Node>, homeId: HomeId, nodeId: NodeId, valueId: ValueId, lib: Library)
    ensures var r := Step(Step(nodes, Notification(ValueAdded, homeId, nodeId, valueId), lib),
                          Notification(ValueRemoved, homeId, nodeId, valueId), lib);
      && |r| == |nodes|
      && forall j :: 0 <= j < |nodes| ==>
           r[j].(valueIds := nodes[j].valueIds) == nodes[j] && multiset(r[j].valueIds) == multiset(nodes[j].valueIds)
  {
    var added := Step(nodes, Notification(ValueAdded, homeId, nodeId, valueId), lib);
    match FindByIdentity(nodes, homeId, nodeId)
    case None =>
      assert added == nodes;
    case Some(k) =>
      assert IsFirstRecord(nodes, homeId, nodeId, k);
      var values := nodes[k].valueIds;
      assert added == nodes[k := nodes[k].(valueIds := values + [valueId])];
      assert IsFirstRecord(added, homeId, nodeId, k);
      FirstRecordIsFound(added, homeId, nodeId, k);
      AppendThenRemoveFirstKeepsContents(values, valueId);
  }

  /** Value notifications and NodeRemoved for an identity without a record change nothing and
      emit nothing. */
  lemma UnknownIdentityIsNoOp(nodes: seq<Node>, note: Notification, lib: Library)
    requires note.kind.ValueAdded? || note.kind.ValueRemoved? || note.kind.ValueChanged?
             || note.kind.ValueRefreshed? || note.kind.NodeRemoved?
    requires forall j :: 0 <= j < |nodes| ==> !HasIdentity(nodes[j], note.homeId, note.nodeId)
    ensures Step(nodes, note, lib) == nodes
    ensures Emissions(nodes, note, lib) == []
  {
    if note.kind.NodeRemoved? {
      WithoutIdentityOfAbsent(nodes, note.homeId, note.nodeId);
      RemovalLogOfAbsent(nodes, note.homeId, note.nodeId, |nodes|);
    }
  }

  /** Every kind that does not change nodes leaves the list alone. Only the four driver kinds
      and AllNodesQueriedSomeDead emit anything: the driver kinds exactly one driverReadyChanged,
      with the home id except for DriverRemoved, AllNodesQueriedSomeDead one initialized; each
      sees the unchanged list. */
  lemma OtherKindsKeepNodes(nodes: seq<Node>, note: Notification, lib: Library)
    requires !ChangesNodes(note.kind)
    ensures Step(nodes, note, lib) == nodes
    ensures |Emissions(nodes, note, lib)| <= 1
    ensures forall e :: e in Emissions(nodes, note, lib) ==>
      e.registry == nodes && (e.signal.InitializedSignal? || e.signal.DriverReadyChangedSignal?)
    ensures Emissions(nodes, note, lib) == [] <==>
      !(note.kind.DriverReady? || note.kind.DriverFailed? || note.kind.DriverReset?
        || note.kind.DriverRemoved? || note.kind.AllNodesQueriedSomeDead?)
    ensures note.kind.DriverReady? || note.kind.DriverFailed? || note.kind.DriverReset? || note.kind.DriverRemoved? ==>
      Emissions(nodes, note, lib)
      == [Emission(DriverReadyChangedSignal(if note.kind.DriverRemoved? then None else Some(note.homeId)), nodes)]
  {
  }

  /** NodeAdded never looks for an existing record: it appends one more, with the notification's
      identity, polled false and no values, and then announces it. */
  lemma NodeAddedAppendsRecord(nodes: seq<Node>, note: Notification, lib: Library)
    requires note.kind == NodeAdded
    ensures |Step(nodes, note, lib)| == |nodes| + 1
    ensures Step(nodes, note, lib)[..|nodes|] == nodes
    ensures var record := Step(nodes, note, lib)[|nodes|];
      && HasIdentity(record, note.homeId, note.nodeId) && !record.polled && record.valueIds == []
      && record.info == lib.nodeInfo(note.homeId, note.nodeId)
      && Emissions(nodes, note, lib) == [Emission(NodeAddedSignal(record), Step(nodes, note, lib))]
    ensures CountIdentity(Step(nodes, note, lib), note.homeId, note.nodeId)
         == CountIdentity(nodes, note.homeId, note.nodeId) + 1
  {
    var r := Step(nodes, note, lib);
    assert r[..|r| - 1] == nodes;
  }

  /** NodeRemoved takes out every record of the identity and keeps the others; it emits one
      removal per record taken out, the j-th when j + 1 of them have left the list. The
      survivors keep their order: removing from the list is removing from each part of it. */
  lemma NodeRemovedRemovesEveryRecord(nodes: seq<Node>, note: Notification, lib: Library)
    requires note.kind == NodeRemoved
    ensures CountIdentity(Step(nodes, note, lib), note.homeId, note.nodeId) == 0
    ensures |Step(nodes, note, lib)| == |nodes| - CountIdentity(nodes, note.homeId, note.nodeId)
    ensures forall x :: x in nodes && !HasIdentity(x, note.homeId, note.nodeId) ==> x in Step(nodes, note, lib)
    ensures forall x :: x in Step(nodes, note, lib) ==> x in nodes
    ensures |Emissions(nodes, note, lib)| == CountIdentity(nodes, note.homeId, note.nodeId)
    ensures forall j :: 0 <= j < |Emissions(nodes, note, lib)| ==>
      && Emissions(nodes, note, lib)[j].signal == NodeRemovedSignal(note.nodeId)
      && CountIdentity(Emissions(nodes, note, lib)[j].registry, note.homeId, note.nodeId)
         == CountIdentity(nodes, note.homeId, note.nodeId) - j - 1
    ensures forall i :: 0 <= i <= |nodes| ==>
      Step(nodes, note, lib)
      == WithoutIdentity(nodes[..i], note.homeId, note.nodeId) + WithoutIdentity(nodes[i..], note.homeId, note.nodeId)
  {
    forall i | 0 <= i <= |nodes|
      ensures Step(nodes, note, lib)
           == WithoutIdentity(nodes[..i], note.homeId, note.nodeId) + WithoutIdentity(nodes[i..], note.homeId, note.nodeId)
    {
      assert nodes == nodes[..i] + nodes[i..];
      WithoutIdentityConcat(nodes[..i], nodes[i..], note.homeId, note.nodeId);
    }
    WithoutIdentityCount(nodes, note.homeId, note.nodeId);
    WithoutIdentityKeepsOthers(nodes, note.homeId, note.nodeId);
    RemovalLogLength(nodes, note.homeId, note.nodeId, |nodes|);
    RemovalLogShape(nodes, note.homeId, note.nodeId, |nodes|);
    assert nodes[..|nodes|] == nodes;
  }

  /** AllNodesQueried rewrites only the metadata of each record, then emits initialized once. */
  lemma AllNodesQueriedRefreshesMetadata(nodes: seq<Node>, note: Notification, lib: Library)
    requires note.kind == AllNodesQueried
    ensures |Step(nodes, note, lib)| == |nodes|
    ensures forall j :: 0 <= j < |nodes| ==>
      Step(nodes, note, lib)[j] == nodes[j].(info := lib.nodeInfo(nodes[j].homeId, nodes[j].nodeId))
    ensures Emissions(nodes, note, lib) == [Emission(InitializedSignal, Step(nodes, note, lib))]
  {
  }

  /** AllNodesQueriedSomeDead emits initialized without reading any metadata. */
  lemma SomeDeadOnlyInitializes(nodes: seq<Node>, note: Notification, lib: Library)
    requires note.kind == AllNodesQueriedSomeDead
    ensures Step(nodes, note, lib) == nodes
    ensures Emissions(nodes, note, lib) == [Emission(InitializedSignal, nodes)]
  {
  }

  /** The last removal signal of NodeRemoved sees the list without any record of the identity. */
  lemma LastRemovalSeesFilteredList(nodes: seq<Node>, homeId: HomeId, nodeId: NodeId)
    requires RemovalLog(nodes, homeId, nodeId, |nodes|) != []
    ensures var log := RemovalLog(nodes, homeId, nodeId, |nodes|);
      log[|log| - 1].registry == WithoutIdentity(nodes, homeId, nodeId)
  {
    LastRemovalSeesResult(nodes, homeId, nodeId, |nodes|);
    PartlyRemovedAll(nodes, homeId, nodeId);
  }

  /** Every signal goes out after the change it reports: the last one emitted for a
      notification sees the node list as the notification leaves it. */
  lemma EmittedAfterMutation(nodes: seq<Node>, note: Notification, lib: Library)
    requires Emissions(nodes, note, lib) != []
    ensures Emissions(nodes, note, lib)[|Emissions(nodes, note, lib)| - 1].registry == Step(nodes, note, lib)
  {
    match note.kind
    case NodeRemoved => LastRemovalSeesFilteredList(nodes, note.homeId, note.nodeId);
    case _ =>
  }

  /** A node announced twice gets two records, and its removal then emits two signals and
      takes both records out. */
  lemma ReannouncedNodeIsRemovedTwice(nodes: seq<Node>, homeId: HomeId, nodeId: NodeId, valueId: ValueId, lib: Library)
    requires forall j :: 0 <= j < |nodes| ==> !HasIdentity(nodes[j], homeId, nodeId)
    ensures var added := Notification(NodeAdded, homeId, nodeId, valueId);
      var twice := Step(Step(nodes, added, lib), added, lib);
      var removed := Notification(NodeRemoved, homeId, nodeId, valueId);
      && |twice| == |nodes| + 2
      && CountIdentity(twice, homeId, nodeId) == 2
      && |Emissions(twice, removed, lib)| == 2
      && Step(twice, removed, lib) == nodes
  {
    var added := Notification(NodeAdded, homeId, nodeId, valueId);
    var removed := Notification(NodeRemoved, homeId, nodeId, valueId);
    var once := Step(nodes, added, lib);
    var twice := Step(once, added, lib);
    var record := NewRecord(homeId, nodeId, lib);
    NodeAddedAppendsRecord(nodes, added, lib);
    NodeAddedAppendsRecord(once, added, lib);
    WithoutIdentityOfAbsent(nodes, homeId, nodeId);
    assert CountIdentity(nodes, homeId, nodeId) == 0 by {
      WithoutIdentityCount(nodes, homeId, nodeId);
    }
    NodeRemovedRemovesEveryRecord(twice, removed, lib);
    WithoutIdentityAppend(nodes, record, homeId, nodeId);
    WithoutIdentityAppend(once, record, homeId, nodeId);
  }

  // ---------------------------------------------------------------------------------------
  // Sequences of notifications.

  /** The node list after a sequence of notifications, handled in order. */
  function Run(nodes: seq<Node>, notes: seq<Notification>, lib: Library): seq<Node>
  {
    if notes == [] then nodes
    else Step(Run(nodes, notes[..|notes| - 1], lib), notes[|notes| - 1], lib)
  }

  /** Whether the list holds some record of the identity. */
  predicate Present(nodes: seq<Node>, homeId: HomeId, nodeId: NodeId)
  {
    exists j :: 0 <= j < |nodes| && HasIdentity(nodes[j], homeId, nodeId)
  }

  /** The kind of the last notification about the identity, if there is one. */
  function LastAbout(notes: seq<Notification>, homeId: HomeId, nodeId: NodeId): Option<NotificationType>
  {
    if notes == [] then None
    else if notes[|notes| - 1].homeId == homeId && notes[|notes| - 1].nodeId == nodeId then Some(notes[|notes| - 1].kind)
    else LastAbout(notes[..|notes| - 1], homeId, nodeId)
  }

  /** After any sequence of NodeAdded and NodeRemoved notifications, an identity has a record
      exactly when the last of them about it was NodeAdded, or, when none was about it, when it
      had a record before. How many NodeAdded came before does not matter: one NodeRemoved
      takes every record out. */
  lemma {:induction false} PresentAfterRun(nodes: seq<Node>, notes: seq<Notification>, lib: Library,
                                           homeId: HomeId, nodeId: NodeId)
    requires forall i :: 0 <= i < |notes| ==> notes[i].kind == NodeAdded || notes[i].kind == NodeRemoved
    ensures Present(Run(nodes, notes, lib), homeId, nodeId)
        <==> match LastAbout(notes, homeId, nodeId)
             case None => Present(nodes, homeId, nodeId)
             case Some(kind) => kind == NodeAdded
  {
    if notes != [] {
      var init := notes[..|notes| - 1];
      var note := notes[|notes| - 1];
      PresentAfterRun(nodes, init, lib, homeId, nodeId);
      var before := Run(nodes, init, lib);
      var after := Step(before, note, lib);
      assert Run(nodes, notes, lib) == after;
      if note.kind == NodeAdded {
        NodeAddedAppendsRecord(before, note, lib);
        if note.homeId == homeId && note.nodeId == nodeId {
          assert HasIdentity(after[|before|], homeId, nodeId);
        } else {
          assert !HasIdentity(after[|before|], homeId, nodeId);
          if Present(after, homeId, nodeId) {
            var j :| 0 <= j < |after| && HasIdentity(after[j], homeId, nodeId);
            assert after[j] == before[j];
          }
          if Present(before, homeId, nodeId) {
            var j :| 0 <= j < |before| && HasIdentity(before[j], homeId, nodeId);
            assert after[j] == before[j];
          }
        }
      } else {
        assert after == WithoutIdentity(before, note.homeId, note.nodeId);
        if note.homeId != homeId || note.nodeId != nodeId {
          WithoutIdentityKeepsOthers(before, note.homeId, note.nodeId);
          if Present(after, homeId, nodeId) {
            var j :| 0 <= j < |after| && HasIdentity(after[j], homeId, nodeId);
            assert after[j] in before;
          }
          if Present(before, homeId, nodeId) {
            var j :| 0 <= j < |before| && HasIdentity(before[j], homeId, nodeId);
            assert before[j] in after;
          }
        }
      }
    }
  }
}
