/** What the plugin's handlers promise, stated against the functions that specify them:
    which nodes are proposed, which things are marked connected or announced as gone, which
    button calls a shutter action makes, and how the parameter conversions fit together. */
module PluginFacts {
  import opened Collections
  import opened OpenZWave
  import opened Registry
  import opened Plugin

  // ---------------------------------------------------------------------------------------
  // Parameter conversions.

  /** The digits of a number spell that number. */
  lemma {:induction false} DecimalRoundTrip(n: nat)
    ensures DecimalValue(DecimalString(n)) == n
  {
    var s := DecimalString(n);
    if n >= 10 {
      DecimalRoundTrip(n / 10);
      assert s[..|s| - 1] == DecimalString(n / 10);
    } else {
      assert s[..0] == [];
    }
  }

  /** A numeric parameter shown as a string and read back as a number is the same number. */
  lemma ParamStringRoundTrip(v: ParamValue)
    requires v.UIntValue?
    ensures ToUInt(StringValue(ParamString(v))) == ToUInt(v)
  {
    DecimalRoundTrip(v.n);
  }

  // ---------------------------------------------------------------------------------------
  // Binding.

  /** Things of any other class never make a node count as added. */
  lemma AlreadyAddedIgnoresOtherClasses(things: seq<Thing>, t: Thing, n: NodeId)
    requires t.thingClass != Shutter
    ensures AlreadyAdded(things + [t], n) == AlreadyAdded(things, n)
  {
    if AlreadyAdded(things + [t], n) {
      var i :| 0 <= i < |things + [t]| && BoundTo((things + [t])[i], n);
      assert i < |things| && BoundTo(things[i], n);
    }
    if AlreadyAdded(things, n) {
      var i :| 0 <= i < |things| && BoundTo(things[i], n);
      assert BoundTo((things + [t])[i], n);
    }
  }

  /** The parameter is truncated to 8 bits: a shutter whose parameter is n + 256 is bound to n. */
  lemma AlreadyAddedTruncates(things: seq<Thing>, t: Thing, n: NodeId)
    requires t.thingClass == Shutter && t.param == UIntValue(n + 0x100)
    ensures AlreadyAdded(things + [t], n)
  {
    assert BoundTo((things + [t])[|things|], n);
  }

  // ---------------------------------------------------------------------------------------
  // onInitialized.

  /** The proposals of a list are those of its first part followed by those of the rest. */
  lemma {:induction false} ProposalsAppend(a: seq<Node>, b: seq<Node>, things: seq<Thing>)
    ensures Proposals(a + b, things) == Proposals(a, things) + Proposals(b, things)
    decreases |b|
  {
    if b == [] {
      assert a + b == a;
    } else {
      var b' := b[..|b| - 1];
      assert (a + b)[..|a + b| - 1] == a + b';
      ProposalsAppend(a, b', things);
    }
  }

  /** A descriptor is proposed exactly when it is the shutter descriptor of a node of the list
      that is a Qubino shutter no thing is bound to. */
  lemma {:induction false} ProposalsExact(nodes: seq<Node>, things: seq<Thing>, d: ThingDescriptor)
    ensures d in Proposals(nodes, things) <==>
      exists i :: 0 <= i < |nodes| && Proposable(nodes[i], things) && d == ShutterDescriptor(nodes[i].nodeId)
  {
    if nodes != [] {
      var init := nodes[..|nodes| - 1];
      var last := nodes[|nodes| - 1];
      ProposalsExact(init, things, d);
      if d in Proposals(nodes, things) && d !in Proposals(init, things) {
        assert Proposable(last, things) && d == ShutterDescriptor(last.nodeId);
      }
      if exists i :: 0 <= i < |nodes| && Proposable(nodes[i], things) && d == ShutterDescriptor(nodes[i].nodeId) {
        var i :| 0 <= i < |nodes| && Proposable(nodes[i], things) && d == ShutterDescriptor(nodes[i].nodeId);
        if i < |nodes| - 1 {
          assert init[i] == nodes[i];
        }
      }
    }
  }

  /** A node id with two records is proposed twice: only things count as already added. */
  lemma DuplicateRecordsProposedTwice(node: Node, things: seq<Thing>)
    requires Proposable(node, things)
    ensures Proposals([node, node], things) == [ShutterDescriptor(node.nodeId), ShutterDescriptor(node.nodeId)]
  {
    assert [node, node][..1] == [node];
    assert [node][..0] == [];
    assert Proposals([node], things) == [ShutterDescriptor(node.nodeId)];
  }

  /** The connected-state pass only ever sets connected to true, and only on a shutter bound to
      a node of the list; nothing else about any thing changes. */
  lemma ConnectOnlyMarksBound(things: seq<Thing>, nodes: seq<Node>)
    ensures |ConnectAll(things, nodes)| == |things|
    ensures forall i :: 0 <= i < |things| ==>
      && ConnectAll(things, nodes)[i].(connected := things[i].connected) == things[i]
      && (ConnectAll(things, nodes)[i].connected <==>
            things[i].connected || exists j :: 0 <= j < |nodes| && BoundTo(things[i], nodes[j].nodeId))
    ensures forall i :: 0 <= i < |things| && ConnectAll(things, nodes)[i] != things[i] ==>
      things[i].thingClass == Shutter && !things[i].connected
  {
  }

  // ---------------------------------------------------------------------------------------
  // onNodeRemoved.

  /** A disappearance is announced exactly for the things bound to the node. */
  lemma {:induction false} DisappearancesExact(things: seq<Thing>, n: NodeId, sig: PluginSignal)
    ensures sig in Disappearances(things, n) <==>
      exists i :: 0 <= i < |things| && BoundTo(things[i], n) && sig == AutoThingDisappeared(things[i].id)
  {
    if things != [] {
      var init := things[..|things| - 1];
      var last := things[|things| - 1];
      DisappearancesExact(init, n, sig);
      if exists i :: 0 <= i < |things| && BoundTo(things[i], n) && sig == AutoThingDisappeared(things[i].id) {
        var i :| 0 <= i < |things| && BoundTo(things[i], n) && sig == AutoThingDisappeared(things[i].id);
        if i < |things| - 1 {
          assert init[i] == things[i];
        }
      }
    }
  }

  /** The announcements follow the things one by one: those of a concatenation are those of
      each part, in order. With DisappearancesOne this fixes the whole log, so each bound
      thing is announced exactly once, at its place in the thing list. */
  lemma {:induction false} DisappearancesConcat(a: seq<Thing>, b: seq<Thing>, n: NodeId)
    ensures Disappearances(a + b, n) == Disappearances(a, n) + Disappearances(b, n)
  {
    if b == [] {
      assert a + b == a;
    } else {
      var init := b[..|b| - 1];
      DisappearancesConcat(a, init, n);
      assert (a + b)[..|a + b| - 1] == a + init;
      assert (a + b)[|a + b| - 1] == b[|b| - 1];
    }
  }

  /** A single thing is announced once when it is bound to the node, and otherwise not. */
  lemma DisappearancesOne(t: Thing, n: NodeId)
    ensures Disappearances([t], n) == if BoundTo(t, n) then [AutoThingDisappeared(t.id)] else []
  {
    assert [t][..0] == [];
  }

  /** onNodeRemoved emits only disappearances, and none at all exactly when no thing is bound
      to the node. */
  lemma {:induction false} DisappearancesCount(things: seq<Thing>, n: NodeId)
    ensures Disappearances(things, n) == [] <==> !AlreadyAdded(things, n)
    ensures forall sig :: sig in Disappearances(things, n) ==> sig.AutoThingDisappeared?
  {
    if things != [] {
      var init := things[..|things| - 1];
      DisappearancesCount(init, n);
      if AlreadyAdded(things, n) {
        var i :| 0 <= i < |things| && BoundTo(things[i], n);
        if i < |things| - 1 {
          assert init[i] == things[i];
        }
      }
    }
  }

  // ---------------------------------------------------------------------------------------
  // Shutter buttons: a reference definition of the loop's calls, in two stages.

  /** The button values of a value list carrying one of the labels, in list order. */
  function Targets(values: seq<ValueId>, lib: Library, labels: set<string>): seq<ValueId>
  {
    if values == [] then []
    else (if IsTarget(values[0], lib, labels) then [values[0]] else []) + Targets(values[1..], lib, labels)
  }

  /** The calls made for a list of targets: one per target in order, up to and including the
      first the library refuses. */
  function ButtonCalls(targets: seq<ValueId>, release: bool, lib: Library): seq<ButtonCall>
  {
    if targets == [] then []
    else
      [Call(targets[0], release)]
      + if Accepts(lib, targets[0], release) then ButtonCalls(targets[1..], release, lib) else []
  }

  lemma {:induction false} TargetsExact(values: seq<ValueId>, lib: Library, labels: set<string>)
    ensures |Targets(values, lib, labels)| <= |values|
    ensures forall v :: v in Targets(values, lib, labels) <==> v in values && IsTarget(v, lib, labels)
  {
    if values != [] {
      TargetsExact(values[1..], lib, labels);
      assert values == [values[0]] + values[1..];
    }
  }

  /** The calls are a prefix of the targets, each pressed (or released); all but the last were
      accepted, and the calls stop short of the targets only at a refusal. */
  lemma {:induction false} ButtonCallsShape(targets: seq<ValueId>, release: bool, lib: Library)
    ensures |ButtonCalls(targets, release, lib)| <= |targets|
    ensures forall k :: 0 <= k < |ButtonCalls(targets, release, lib)| ==>
      ButtonCalls(targets, release, lib)[k] == Call(targets[k], release)
    ensures forall k :: 0 <= k < |ButtonCalls(targets, release, lib)| - 1 ==> Accepts(lib, targets[k], release)
    ensures |ButtonCalls(targets, release, lib)| < |targets| ==>
      0 < |ButtonCalls(targets, release, lib)| && !Accepts(lib, targets[|ButtonCalls(targets, release, lib)| - 1], release)
  {
    if targets != [] {
      ButtonCallsShape(targets[1..], release, lib);
      var r := ButtonCalls(targets, release, lib);
      if Accepts(lib, targets[0], release) {
        var rest := ButtonCalls(targets[1..], release, lib);
        assert r == [Call(targets[0], release)] + rest;
        assert forall k :: 1 <= k < |r| ==> r[k] == rest[k - 1];
      }
    }
  }

  lemma TargetsStep(values: seq<ValueId>, i: nat, lib: Library, labels: set<string>)
    requires i < |values|
    ensures Targets(values[i..], lib, labels)
         == (if IsTarget(values[i], lib, labels) then [values[i]] else []) + Targets(values[i + 1..], lib, labels)
  {
    assert values[i..][0] == values[i];
    assert values[i..][1..] == values[i + 1..];
  }

  lemma ButtonCallsStep(v: ValueId, rest: seq<ValueId>, release: bool, lib: Library)
    ensures ButtonCalls([v] + rest, release, lib)
         == [Call(v, release)] + if Accepts(lib, v, release) then ButtonCalls(rest, release, lib) else []
  {
    assert ([v] + rest)[0] == v;
    assert ([v] + rest)[1..] == rest;
  }

  /** The shutter loop makes exactly the reference calls: those of its targets, in order,
      up to the first refusal. */
  lemma {:induction false} CallsFromIsReference(values: seq<ValueId>, i: nat, lib: Library, labels: set<string>, release: bool)
    requires i <= |values|
    ensures CallsFrom(values, i, lib, labels, release) == ButtonCalls(Targets(values[i..], lib, labels), release, lib)
    decreases |values| - i
  {
    if i == |values| {
      assert values[i..] == [];
    } else {
      CallsFromIsReference(values, i + 1, lib, labels, release);
      TargetsStep(values, i, lib, labels);
      var rest := Targets(values[i + 1..], lib, labels);
      if IsTarget(values[i], lib, labels) {
        ButtonCallsStep(values[i], rest, release, lib);
      } else {
        assert [] + rest == rest;
      }
    }
  }

  /** The calls of the shutter loop over a value list: a prefix of its targets, each pressed
      (or released), all but the last accepted, ending early only at a refusal. */
  lemma CallsFromShape(values: seq<ValueId>, lib: Library, labels: set<string>, release: bool)
    ensures var targets := Targets(values, lib, labels);
      var calls := CallsFrom(values, 0, lib, labels, release);
      && |calls| <= |targets|
      && (forall k :: 0 <= k < |calls| ==>
            && calls[k] == Call(targets[k], release)
            && calls[k].valueId in values && IsTarget(calls[k].valueId, lib, labels))
      && (forall k :: 0 <= k < |calls| - 1 ==> Accepts(lib, targets[k], release))
      && (|calls| < |targets| ==> 0 < |calls| && !Accepts(lib, targets[|calls| - 1], release))
  {
    var targets := Targets(values, lib, labels);
    CallsFromIsReference(values, 0, lib, labels, release);
    assert values[0..] == values;
    ButtonCallsShape(targets, release, lib);
    TargetsExact(values, lib, labels);
    var calls := CallsFrom(values, 0, lib, labels, release);
    forall k | 0 <= k < |calls|
      ensures calls[k].valueId in values && IsTarget(calls[k].valueId, lib, labels)
    {
      assert calls[k].valueId == targets[k];
    }
  }

  /** Open presses only "Up" buttons, close presses only "Down" buttons, and stop releases
      buttons labelled either way. */
  lemma ShutterCalls(values: seq<ValueId>, lib: Library, action: ActionType)
    requires action.ShutterOpen? || action.ShutterClose? || action.ShutterStop?
    ensures forall c :: c in CallsFrom(values, 0, lib, ShutterLabels(action), action.ShutterStop?) ==>
      && c.valueId in values && c.valueId.valueType == Button
      && (action.ShutterOpen? ==> c.Press? && lib.valueLabel(c.valueId) == "Up")
      && (action.ShutterClose? ==> c.Press? && lib.valueLabel(c.valueId) == "Down")
      && (action.ShutterStop? ==> c.Release? && lib.valueLabel(c.valueId) in {"Up", "Down"})
  {
    var labels := ShutterLabels(action);
    var release := action.ShutterStop?;
    CallsFromShape(values, lib, labels, release);
    var calls := CallsFrom(values, 0, lib, labels, release);
    forall c | c in calls
      ensures c.valueId in values && IsTarget(c.valueId, lib, labels) && c == Call(c.valueId, release)
    {
      var k :| 0 <= k < |calls| && calls[k] == c;
    }
  }
}
