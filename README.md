# Z-Wave integration: node registry and device mapping

This project models two parts of the nymea Z-Wave integration.

- `ZwaveManager` is a Qt object that watches OpenZWave. It keeps a list of node records, one
  per node announcement. Each record holds the node's identity (home id and node id), a polled
  flag, the metadata read from the library and the ordered list of value ids that belong to
  the node. For each library notification it updates that list, and it emits the `nodeAdded`,
  node-removed, `initialized` and `driverReadyChanged` signals. It also offers `getNode` lookups
  and guarded `pressButton`/`releaseButton` calls.
- `IntegrationPluginZwave` maps those nodes onto nymea things. A shutter thing is bound to a node
  when its id parameter, truncated to 8 bits, equals the node id. The plugin marks bound shutters
  connected, proposes new shutter things for unbound Qubino shutters (device type 6656), and
  announces shutter things whose node went away. It drives a shutter by pressing or releasing
  the node's buttons labelled "Up" and "Down". It also proposes one stick descriptor per serial
  port.

Modules:

- `Collections`: an `Option` type and `RemoveFirst`, which is `QList::removeOne`.
- `OpenZWave`: identifiers, value and notification kinds, node metadata, and a `Library` record.
  The record holds the library calls the core makes as functions supplied from outside.
- `Registry`: the `Node` record and the search functions. `Step` and `Emissions` give the node
  list after a notification and the signals it emits. The `ZwaveManager` class has a `nodes` list
  and a `signals` log. Each log entry stores the node list as it stood when the signal went out,
  so "emitted after the mutation" can be stated.
- `RegistryFacts`: what each kind of notification does, proved against `Step` and `Emissions`.
- `Plugin`: things, descriptors, parameter conversions and the functions that specify the
  handlers. The `IntegrationPluginZwave` class has `things` (what `myThings()` returns), the
  `manager` pointer and a log of emitted signals.
- `PluginFacts`: what the handlers promise. This includes a second, independent definition of
  the shutter button calls, proved equal to the loop's.

Each `onNotification`, `onInitialized`, `onNodeAdded`, `onNodeRemoved`, `discoverThings` and
shutter-action loop is a method with loop invariants. Its `ensures` ties the new state and the
log to a specification function of the old state. The lemmas then prove the promised behaviour
about those functions.

The model keeps these behaviours of the code as they are:

- NodeAdded never looks for an existing record. A re-announced node gets a second record.
- ValueAdded appends even a value the record already holds, and ValueRemoved then drops its
  first occurrence. The contents survive the pair, but that value moves to the end of the list.
- NodeRemoved removes every record of the identity. It emits one removal signal per removed
  record, each after that record has left the list. An identity with no record emits nothing.
- `initialized` is emitted on every AllNodesQueried and every AllNodesQueriedSomeDead
  notification. There is no once-per-home-id rule.
- There is no driver lifecycle tracker. Driver notifications only emit `driverReadyChanged`:
  DriverRemoved without a home id, the others with it.
- Shutter descriptors are proposed only by `onInitialized`. `onNodeAdded` proposes nothing.
- The removal signal is emitted as `noderRemoved` in zwavemanager.cpp:315 and connected under
  that name in integrationpluginzwave.cpp:95. zwavemanager.h declares it as `nodeRemoved`. The
  model has one node-removed signal. `driverReadyChanged` is likewise emitted but not declared in
  the header.
- The shutter actions never finish, whether they succeed or a button is refused. The model
  reports these outcomes as `Unfinished`. A shutter action with no manager also returns without
  finishing. The lookup failure (HardwareNotAvailable) is checked before the action type
  (ActionTypeNotFound). `executeAction` has no motion-sensor branch, so a motion sensor gets
  ThingClassNotFound.

## Model

| member | source | states |
|---|---|---|
| Collections.RemoveFirst | zwavemanager.cpp:314 | `removeOne`: one element fewer when the element is present; the list unchanged when it is absent |
| Collections.RemoveFirstSplit | zwavemanager.cpp:260 | only the first occurrence is removed; everything before and after it stays, in order |
| Collections.AppendThenRemoveFirstHeld | zwavemanager.cpp:248-262 | appending an element the list already holds and then `removeOne` of it moves its first occurrence to the end |
| Collections.AppendThenRemoveFirstKeepsContents | zwavemanager.cpp:248-262 | appending any element and then `removeOne` of it keeps the list's contents |
| Registry.FindByNodeId | zwavemanager.cpp:115-123 | the index of the first record with the node id, whatever its home id; none exactly when no record has it |
| Registry.FindByIdentity | zwavemanager.cpp:159-166 | the index of the first record whose home id and node id both match; none exactly when no record matches |
| Registry.WithoutIdentity | zwavemanager.cpp:309-320 | no record of the identity is left, and the list does not grow |
| Registry.PartlyRemoved | zwavemanager.cpp:312-318 | no contract; the live list part way through the removal loop over the copy. See Registry.PartlyRemovedStep, Registry.PartlyRemovedAll, RegistryFacts.PartlyRemovedCount |
| Registry.RemovalLog | zwavemanager.cpp:312-318 | no contract; the removal signals of that loop, each with the list right after its record left. See RegistryFacts.RemovalLogLength, RegistryFacts.RemovalLogShape, RegistryFacts.LastRemovalSeesResult, RegistryFacts.RemovalLogOfAbsent |
| Registry.NewRecord | zwavemanager.cpp:294-302 | no contract; the record NodeAdded builds. See RegistryFacts.NodeAddedAppendsRecord |
| Registry.WithValueAdded | zwavemanager.cpp:239-251 | no contract; the ValueAdded list. See RegistryFacts.ValueAddedAppends, RegistryFacts.ValueRoundTrip |
| Registry.WithValueRemoved | zwavemanager.cpp:252-265 | no contract; the ValueRemoved list. See RegistryFacts.ValueRemovedDropsFirstOccurrence, RegistryFacts.ValueRemovedAbsentValue |
| Registry.Refreshed | zwavemanager.cpp:397-403 | no contract; the AllNodesQueried list. See RegistryFacts.AllNodesQueriedRefreshesMetadata |
| Registry.RefreshRecord | zwavemanager.cpp:398-402 | no contract; one record's metadata read again. See RegistryFacts.AllNodesQueriedRefreshesMetadata |
| Registry.Step | zwavemanager.cpp:234-448 | no contract; the node list after one notification. See the RegistryFacts lemmas, one per kind of notification |
| Registry.Emissions | zwavemanager.cpp:234-448 | no contract; the signals one notification emits, in order. See RegistryFacts.NodeAddedAppendsRecord, RegistryFacts.NodeRemovedRemovesEveryRecord, RegistryFacts.AllNodesQueriedRefreshesMetadata, RegistryFacts.SomeDeadOnlyInitializes, RegistryFacts.OtherKindsKeepNodes (which kinds emit nothing and what each driver kind emits), RegistryFacts.EmittedAfterMutation |
| Registry.ValueTypeToString | zwavemanager.cpp:450-477 | "-" exactly for an unknown value type; Decimal is shown as "Double" |
| Registry.PartlyRemovedStep | zwavemanager.cpp:312-318 | one turn of the removal loop: `removeOne` of a matching record of the copy takes exactly that record from the live list; other records change nothing |
| Registry.PartlyRemovedAll | zwavemanager.cpp:312-318 | once the loop has visited the whole copy, the live list is the copy without any record of the identity |
| Registry.ZwaveManager.constructor | zwavemanager.cpp:38-45 | a new manager has no records and has emitted nothing |
| Registry.ZwaveManager.GetNode | zwavemanager.cpp:115-123 | `getNode(nodeId)`: null exactly when no record has the node id; otherwise the first record with it, whatever its home id |
| Registry.ZwaveManager.PressButton | zwavemanager.cpp:125-135 | the library is asked only when `getNode` finds a record whose value list holds the value; the result is true only when the library accepted the press |
| Registry.ZwaveManager.ReleaseButton | zwavemanager.cpp:137-147 | the same guard in front of the library's release |
| Registry.ZwaveManager.OnNotification | zwavemanager.cpp:234-448 | the new node list is `Step` of the old one and the log grows by exactly `Emissions` of the old list |
| Registry.ZwaveManager.Emit | zwavemanager.cpp:304-437 | each `emit` (305, 315, 364-374, 391, 405, 436) appends exactly one entry to the log, holding the signal and the node list at that moment; the list is unchanged |
| Registry.ZwaveManager.AddValue | zwavemanager.cpp:239-251 | ValueAdded: the value is appended to the first record of the identity; an unknown identity changes nothing |
| Registry.ZwaveManager.RemoveValue | zwavemanager.cpp:252-265 | ValueRemoved: the first occurrence of the value leaves the first record of the identity |
| Registry.ZwaveManager.AddNode | zwavemanager.cpp:291-308 | NodeAdded appends a new record and then emits `nodeAdded` with the list that holds it |
| Registry.ZwaveManager.RemoveNodes | zwavemanager.cpp:309-320 | the loop over a copy of the list leaves exactly the other identities' records and logs one removal per matching record |
| Registry.ZwaveManager.VisitRecord | zwavemanager.cpp:312-318 | one turn of that loop keeps the list and the log in step with the visited part of the copy |
| Registry.ZwaveManager.RefreshNodes | zwavemanager.cpp:397-403 | AllNodesQueried re-reads the metadata of every record and changes nothing else |
| RegistryFacts.FirstRecordIsFound | zwavemanager.cpp:159-166 | the record `getNode(notification)` finds is the first record of the identity |
| RegistryFacts.ValueAddedAppends | zwavemanager.cpp:239-251 | the value goes to the end of the record's list; every other record and the list length are unchanged; nothing is emitted |
| RegistryFacts.ValueRemovedDropsFirstOccurrence | zwavemanager.cpp:252-265 | only the first occurrence of the value leaves the record's list, which shrinks by one; every other record is unchanged |
| RegistryFacts.ValueRemovedAbsentValue | zwavemanager.cpp:258-263 | removing a value the record does not hold changes nothing |
| RegistryFacts.ValueRoundTrip | zwavemanager.cpp:248-262 | ValueAdded and then ValueRemoved of a value the record did not hold give back the original list |
| RegistryFacts.HeldValueRotates | zwavemanager.cpp:248-262 | ValueAdded and then ValueRemoved of a value the record already holds move its first occurrence to the end of the record's list; nothing else changes |
| RegistryFacts.ValueRoundTripKeepsContents | zwavemanager.cpp:239-265 | ValueAdded and then ValueRemoved of any value keep the list length, every record's identity, flag and metadata, and the contents of every value list |
| RegistryFacts.UnknownIdentityIsNoOp | zwavemanager.cpp:239-320 | value notifications and NodeRemoved for an identity with no record change nothing and emit nothing |
| RegistryFacts.OtherKindsKeepNodes | zwavemanager.cpp:266-448 | every other kind leaves the list alone; DriverReady, DriverFailed and DriverReset emit exactly one `driverReadyChanged(homeId)`, DriverRemoved exactly one `driverReadyChanged()` without a home id, AllNodesQueriedSomeDead one `initialized`, each seeing the unchanged list; every other kind (ValueChanged, ValueRefreshed, Group, NodeNew, the node and button events, the query-complete markers, Type_Notification, ControllerCommand, unrecognised codes) emits nothing |
| RegistryFacts.NodeAddedAppendsRecord | zwavemanager.cpp:291-308 | exactly one record is appended: the notification's identity, not polled, no values, the library's metadata; existing records, even of the same identity, are untouched; the identity's record count goes up by one; `nodeAdded` carries the new list |
| RegistryFacts.NodeRemovedRemovesEveryRecord | zwavemanager.cpp:309-320 | no record of the identity is left; every other record stays, in its order (by WithoutIdentityConcat), and none is added; one removal is emitted per removed record, the j-th after j + 1 records have left the list |
| RegistryFacts.AllNodesQueriedRefreshesMetadata | zwavemanager.cpp:394-405 | only each record's metadata is rewritten; identities, count and value lists stay; `initialized` is emitted once, after the refresh |
| RegistryFacts.SomeDeadOnlyInitializes | zwavemanager.cpp:389-393 | AllNodesQueriedSomeDead emits `initialized` without any refresh |
| RegistryFacts.EmittedAfterMutation | zwavemanager.cpp:291-405 | the last signal of any notification sees the node list as the notification leaves it |
| RegistryFacts.ReannouncedNodeIsRemovedTwice | zwavemanager.cpp:291-320 | a node announced twice gets two records; its removal then emits two signals and takes both records out |
| RegistryFacts.PresentAfterRun | zwavemanager.cpp:291-320 | after any sequence of NodeAdded and NodeRemoved notifications, an identity has a record exactly when the last of them about it was NodeAdded, or, with none about it, when it had one before; Added, Added, Removed leaves none |
| RegistryFacts.Run | zwavemanager.cpp:234-448 | no contract; the node list after a sequence of notifications handled in order. See RegistryFacts.PresentAfterRun |
| RegistryFacts.LastAbout | zwavemanager.cpp:291-320 | no contract; the kind of the last notification about an identity. See RegistryFacts.PresentAfterRun |
| RegistryFacts.CountAppend | zwavemanager.cpp:312-318 | records of an identity in two lists add up |
| RegistryFacts.WithoutIdentityCount | zwavemanager.cpp:309-320 | removal drops exactly the records of the identity |
| RegistryFacts.WithoutIdentityKeepsOthers | zwavemanager.cpp:309-320 | removal keeps every record of another identity and adds none |
| RegistryFacts.WithoutIdentityConcat | zwavemanager.cpp:312-318 | removal keeps the order of what it keeps: removing from a concatenation is removing from each part, in order |
| RegistryFacts.WithoutIdentityOne | zwavemanager.cpp:313-316 | a single record stays exactly when it is of another identity |
| RegistryFacts.WithoutIdentityOfAbsent | zwavemanager.cpp:312-318 | removal of an identity with no record leaves the list as it is |
| RegistryFacts.RemovalLogOfAbsent | zwavemanager.cpp:312-318 | an identity with no record emits no removal signal |
| RegistryFacts.PartlyRemovedCount | zwavemanager.cpp:312-318 | part way through the loop, the identity's records left are those of the part not yet visited |
| RegistryFacts.RemovalLogLength | zwavemanager.cpp:312-318 | one removal signal per matching record visited |
| RegistryFacts.RemovalLogShape | zwavemanager.cpp:312-318 | every removal signal carries the node id, and the j-th sees j + 1 fewer records of the identity |
| RegistryFacts.LastRemovalSeesResult | zwavemanager.cpp:312-318 | the last removal signal sees the list as the loop leaves it |
| RegistryFacts.LastRemovalSeesFilteredList | zwavemanager.cpp:312-318 | the last removal signal sees no record of the identity |
| Plugin.DecimalString | integrationpluginzwave.cpp:53 | a number's string form is a non-empty run of digits without a leading zero |
| Plugin.ParamString | integrationpluginzwave.cpp:53 | no contract; `QVariant::toString` of a parameter. See PluginFacts.ParamStringRoundTrip, PluginFacts.DecimalRoundTrip |
| Plugin.ToUInt | integrationpluginzwave.cpp:126 | no contract; `toUInt` of a parameter. See PluginFacts.ParamStringRoundTrip |
| Plugin.AlreadyAdded | integrationpluginzwave.cpp:197-207 | true exactly when some shutter thing's truncated parameter equals the node id |
| Plugin.BoundTo | integrationpluginzwave.cpp:200-201 | no contract; the bound-shutter test of the `alreadyAdded`, connect and removal loops (201, 231, 260, 273). See Plugin.AlreadyAdded, PluginFacts.AlreadyAddedIgnoresOtherClasses, PluginFacts.AlreadyAddedTruncates |
| Plugin.Proposable | integrationpluginzwave.cpp:238 | no contract; the Qubino-shutter and not-yet-added test. See PluginFacts.ProposalsExact |
| Plugin.ShutterDescriptor | integrationpluginzwave.cpp:239-243 | no contract; the shutter descriptor `onInitialized` builds. See PluginFacts.ProposalsExact |
| Plugin.ShutterNodeId | integrationpluginzwave.cpp:201 | no contract; the `(quint8)` cast of `toUInt`. See PluginFacts.AlreadyAddedTruncates |
| Plugin.Proposals | integrationpluginzwave.cpp:237-244 | no contract; the onInitialized descriptors. See PluginFacts.ProposalsAppend, PluginFacts.ProposalsExact, PluginFacts.DuplicateRecordsProposedTwice |
| Plugin.ConnectAll | integrationpluginzwave.cpp:229-235 | no contract; the things after the connect pass. See PluginFacts.ConnectOnlyMarksBound, Plugin.ConnectKeepsBindings |
| Plugin.Connect | integrationpluginzwave.cpp:229-235 | no contract; one thing's connected pass over the nodes. See PluginFacts.ConnectOnlyMarksBound, Plugin.ConnectKeepsBindings |
| Plugin.Disappearances | integrationpluginzwave.cpp:271-277 | no contract; the onNodeRemoved signals. See PluginFacts.DisappearancesExact, PluginFacts.DisappearancesCount, PluginFacts.DisappearancesConcat, PluginFacts.DisappearancesOne |
| Plugin.AnyBinds | integrationpluginzwave.cpp:229-235 | true exactly when some node of the list has the id a shutter thing is bound to |
| Plugin.SerialMatch | integrationpluginzwave.cpp:52-57 | the first thing whose parameter, as a string, is the serial number; none exactly when no thing's is |
| Plugin.DiscoveryDescriptor | integrationpluginzwave.cpp:47-60 | no contract; one port's descriptor. See Plugin.IntegrationPluginZwave.DiscoverThings |
| Plugin.ConnectKeepsBindings | integrationpluginzwave.cpp:229-238 | marking things connected does not change which nodes count as already added |
| Plugin.IntegrationPluginZwave.constructor | integrationpluginzwave.cpp:38-41 | a new plugin has no things, no manager and has emitted nothing |
| Plugin.IntegrationPluginZwave.DiscoverThings | integrationpluginzwave.cpp:43-63 | one descriptor per port, in port order: the port's path as parameter, and the id of the first thing whose parameter is the port's serial number when there is one; always finishes without error |
| Plugin.IntegrationPluginZwave.ExecuteAction | integrationpluginzwave.cpp:117-178 | an unknown shutter node gives HardwareNotAvailable with no button call; open, close and stop make exactly the loop's button calls and never finish; an unknown shutter or plug action gives ActionTypeNotFound; a motion sensor or an unknown class gives ThingClassNotFound; a missing manager returns without finishing |
| Plugin.IntegrationPluginZwave.OperateButtons | integrationpluginzwave.cpp:135-163 | the button loop makes exactly `CallsFrom` of the node's value list: one call per labelled button, in list order, up to and including the first refusal |
| Plugin.CallsFrom | integrationpluginzwave.cpp:135-163 | no contract; the button loop's calls from a position on. See PluginFacts.CallsFromIsReference, PluginFacts.CallsFromShape, PluginFacts.ShutterCalls |
| Plugin.ShutterLabels | integrationpluginzwave.cpp:135-163 | no contract; the labels each shutter action operates on. See PluginFacts.ShutterCalls |
| Plugin.IsTarget | integrationpluginzwave.cpp:137 | no contract; the Button-and-label test of the shutter loops. See PluginFacts.TargetsExact, PluginFacts.CallsFromShape |
| Plugin.IntegrationPluginZwave.Operate | integrationpluginzwave.cpp:138-159 | for a value the node holds, `pressButton`/`releaseButton` answers what the library answers |
| Plugin.IntegrationPluginZwave.ThingRemoved | integrationpluginzwave.cpp:180-195 | with no thing left the plugin drops its manager; otherwise nothing changes |
| Plugin.IntegrationPluginZwave.OnInitialized | integrationpluginzwave.cpp:221-247 | the things become `ConnectAll` of the sender's nodes, and exactly one `autoThingsAppeared` batch is emitted, holding `Proposals` of the nodes |
| Plugin.IntegrationPluginZwave.MarkConnected | integrationpluginzwave.cpp:229-235 | the pass over the things for one node marks every shutter bound to it connected and leaves the rest alone |
| Plugin.IntegrationPluginZwave.OnNodeAdded | integrationpluginzwave.cpp:254-265 | marks the shutters bound to the new node connected; emits nothing |
| Plugin.IntegrationPluginZwave.OnNodeRemoved | integrationpluginzwave.cpp:267-278 | emits `Disappearances` of the things for the node; the things are unchanged |
| PluginFacts.DecimalRoundTrip | integrationpluginzwave.cpp:53 | the digits of a number spell that number |
| PluginFacts.ParamStringRoundTrip | integrationpluginzwave.cpp:126 | a numeric parameter turned into a string and read back with `toUInt` is the same number |
| PluginFacts.AlreadyAddedIgnoresOtherClasses | integrationpluginzwave.cpp:199-205 | things of other classes never make a node count as already added |
| PluginFacts.AlreadyAddedTruncates | integrationpluginzwave.cpp:201 | the parameter is cut to 8 bits: a shutter with parameter n + 256 is bound to node n |
| PluginFacts.ProposalsAppend | integrationpluginzwave.cpp:226-246 | proposals follow the node list's order |
| PluginFacts.ProposalsExact | integrationpluginzwave.cpp:237-244 | a descriptor is proposed exactly when it is the shutter descriptor of a node with device type 6656 that no thing is bound to |
| PluginFacts.DuplicateRecordsProposedTwice | integrationpluginzwave.cpp:226-246 | two records of one unbound shutter node give two descriptors, since only things count as already added |
| PluginFacts.ConnectOnlyMarksBound | integrationpluginzwave.cpp:229-235 | the connected state is only ever set to true, and only on a shutter bound to a node of the list; nothing else about a thing changes |
| PluginFacts.DisappearancesExact | integrationpluginzwave.cpp:271-277 | a disappearance is announced exactly for the ids of the things bound to the node |
| PluginFacts.DisappearancesCount | integrationpluginzwave.cpp:267-278 | nothing is announced exactly when no thing is bound to the node |
| PluginFacts.DisappearancesConcat | integrationpluginzwave.cpp:271-277 | the announcements follow the things one by one: those of a concatenation are those of each part, in order |
| PluginFacts.DisappearancesOne | integrationpluginzwave.cpp:272-276 | a single thing is announced once when it is bound to the node, and otherwise not |
| PluginFacts.TargetsExact | integrationpluginzwave.cpp:136-137 | the targets are exactly the node's Button values with one of the labels |
| PluginFacts.ButtonCallsShape | integrationpluginzwave.cpp:138-140 | the calls are a prefix of the targets; all but the last were accepted; they stop short only at a refusal |
| PluginFacts.TargetsStep | integrationpluginzwave.cpp:136-137 | the targets of a suffix of the value list, one value at a time |
| PluginFacts.ButtonCallsStep | integrationpluginzwave.cpp:138-140 | the calls for a list of targets, one target at a time |
| PluginFacts.CallsFromIsReference | integrationpluginzwave.cpp:135-163 | the loop's calls equal the reference definition: the calls for the targets, in order |
| PluginFacts.CallsFromShape | integrationpluginzwave.cpp:135-163 | every call is on a target value of the node, in order; all but the last were accepted; the loop ends early only at a refusal |
| PluginFacts.ShutterCalls | integrationpluginzwave.cpp:135-163 | open presses only "Up" buttons, close presses only "Down" buttons, stop releases buttons with either label |

## Left out

- The OpenZWave setup and teardown: `Options`, `Manager::Create`, `AddWatcher`/`RemoveWatcher`, `AddDriver`/`RemoveDriver`, `init`, `libraryVersion`, `serialPortAvailable`, the destructor (zwavemanager.cpp:43-108, 149-157). They are library configuration with no registry logic.
- The library getters are inputs of the model. One `nodeInfo` function stands for the five metadata getters. `valueLabel`, `pressButton` and `releaseButton` stand for `GetValueLabel`, `PressButton` and `ReleaseButton`. `Manager::Get()` and `m_manager` are taken to be the same library.
- `getValue` (zwavemanager.cpp:168-232). Its typed reads are foreign calls, one of them floating point. The ValueChanged logging that uses it is left out too.
- Debug output, including the dump loop after AllNodesQueried (zwavemanager.cpp:408-426).
- The background thread of notification delivery, and Qt's signal and slot plumbing. The model handles notifications one at a time and records emitted signals in a log. `deleteLater` of a removed record is not modelled.
- Records are values in the model, not shared pointers. A `ZwaveNode*` that a receiver still holds after the record was changed or removed is not modelled.
- `setupThing` (integrationpluginzwave.cpp:65-110). As written it does not compile: it has an empty `if ()` and unbalanced braces. So the wiring between the manager's signals and the plugin's slots is not modelled either. Each slot is a method that takes its input directly. `things` is filled by the thing manager, which is not part of this model.
- `postSetupThing`, `setCalibrationMode`, `onDriverReadyChanged`, `onNodesChanged`. They only log or return a constant.
- Declarations with no body in the code: the controller commands in zwavemanager.h:86-98, the slots in zwavemanager.h:134-135, and `findSerialPortPathBySerialnumber` and `onDriverEvent` in integrationpluginzwave.h:63 and 68.
- The serial port list of `discoverThings` is an input, not a call to `QSerialPortInfo`.
- zwavenode.h is not part of this model. The record's fields follow their use in zwavemanager.cpp.
- Plugin.ToUInt: a string parameter is read as a number only when it is a plain run of digits whose value fits in 32 bits; anything else reads as 0. QVariant's acceptance of surrounding whitespace and a leading sign is not modelled.
- Plugin.IntegrationPluginZwave.ThingRemoved: when no thing is left and there is no manager, the source calls `deleteLater` through a null pointer. The model just keeps the manager null.
- Plugin.IntegrationPluginZwave.OperateButtons: stop tests each value for "Up" and then for "Down". The model tests once whether the label is either. A label cannot be both, so the calls are the same.
- A thing has a single parameter. `discoverThings` reads it as `paramValue()` with no parameter type, and the shutter paths read it as the id parameter.
