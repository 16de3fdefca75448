/** The OpenZWave library as the plugin sees it: the identifiers and enumerations it hands
    over, and the handful of library calls the core makes, gathered in one capability record
    so that each call's answer is an input of the model rather than something it computes. */
module OpenZWave {

  /** A network's home id (uint32) and a node id within it (uint8). */
  type HomeId = x: int | 0 <= x < 0x1_0000_0000
  type NodeId = x: int | 0 <= x < 0x100
  type UInt16 = x: int | 0 <= x < 0x1_0000

  /** ValueID::ValueType; a code outside the listed ones is kept as UnknownType. */
  datatype ValueType =
    | Bool | Byte | Decimal | Int | List | Schedule | Short | String | Button | Raw
    | UnknownType(code: int)

  /** A ValueID: an opaque handle compared by equality, carrying the kind of value it names. */
  datatype ValueId = ValueId(handle: nat, valueType: ValueType)

  /** Notification::NotificationType, in the order the notification handler lists them;
      any other code the library may deliver is Unrecognized. */
  datatype NotificationType =
    | ValueAdded | ValueRemoved | ValueChanged | ValueRefreshed
    | Group
    | NodeNew | NodeAdded | NodeRemoved | NodeProtocolInfo | NodeNaming | NodeEvent
    | PollingDisabled | PollingEnabled
    | SceneEvent | CreateButton | DeleteButton | ButtonOn | ButtonOff
    | DriverReady | DriverFailed | DriverReset
    | EssentialNodeQueriesComplete | NodeQueriesComplete | AwakeNodesQueried
    | AllNodesQueriedSomeDead | AllNodesQueried
    | NotificationMessage  // Type_Notification: an error or status report from the library
    | DriverRemoved
    | ControllerCommand
    | Unrecognized(code: int)

  /** One notification as delivered to the watcher callback. Fields a kind does not use are
      present but ignored. */
  datatype Notification = Notification(kind: NotificationType, homeId: HomeId, nodeId: NodeId, valueId: ValueId)

  /** What the library reports about one node: GetNodeName, GetNodeManufacturerName,
      GetNodeProductName, GetNodeDeviceTypeString and GetNodeDeviceType. */
  datatype NodeInfo = NodeInfo(
    name: string,
    manufacturerName: string,
    productName: string,
    deviceTypeString: string,
    deviceType: UInt16)

  /** The library calls the core makes, as functions supplied from outside: the node metadata
      getters, Manager::GetValueLabel, and the answers Manager::PressButton and
      Manager::ReleaseButton give for a value. */
  datatype Library = Library(
    nodeInfo: (HomeId, NodeId) -> NodeInfo,
    valueLabel: ValueId -> string,
    pressButton: ValueId -> bool,
    releaseButton: ValueId -> bool)
}
