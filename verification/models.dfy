/**
 * The persisted and exchanged records: `FlowyEvent` (with its coordinate),
 * `DeviceInfo`, the captured tree node `FlowyDomNode` and the fused
 * `FlowyHybridElement`. Field names follow Swift conventions here; the JSON
 * keys of an event are `timestamp`, `deviceInfo`, `action`, `ocr_text`,
 * `coordinates` and `screen_name`.
 */
module Models {
  import opened Wrappers
  import opened Geometry

  datatype Coordinate = Coordinate(x: real, y: real)

  datatype DeviceInfo = DeviceInfo(model: string, osVersion: string)

  /** The device description recorded when UIKit is not available. */
  const UnknownDevice := DeviceInfo("Unknown", "0.0")

  /**
   * One log record. `timestamp`, `deviceInfo` and `action` are always
   * present; the recognised text, the tap coordinates and the screen name
   * are optional.
   */
  datatype Event = Event(
    timestamp: real,
    deviceInfo: DeviceInfo,
    action: string,
    ocrText: Option<string>,
    coordinates: Option<Coordinate>,
    screenName: Option<string>)

  /**
   * `FlowyEvent.init`: the caller supplies action, text, coordinates and
   * screen name; the timestamp is read from the clock (`now`) and the device
   * description from the platform (`platform`, `None` without UIKit).
   */
  function NewEvent(action: string, ocrText: Option<string>, coordinates: Option<Coordinate>,
                    screenName: Option<string>, now: real, platform: Option<DeviceInfo>): (e: Event)
    ensures e.action == action && e.ocrText == ocrText
    ensures e.coordinates == coordinates && e.screenName == screenName
    ensures e.timestamp == now
    ensures platform.Some? ==> e.deviceInfo == platform.value
    ensures platform.None? ==> e.deviceInfo == DeviceInfo("Unknown", "0.0")
  {
    Event(now, platform.GetOr(UnknownDevice), action, ocrText, coordinates, screenName)
  }

  /** The optional child list of a captured node (`[FlowyDomNode]?`). */
  datatype Subviews = NoSubviews | Subviews(nodes: seq<DomNode>)

  /** One captured view; `frame` is in window coordinates. */
  datatype DomNode = DomNode(
    className: string,
    frame: Rect,
    accessibilityIdentifier: Option<string>,
    isUserInteractionEnabled: bool,
    subviews: Subviews)

  /** A recognised text region fused with the view under it, if any. */
  datatype HybridElement = HybridElement(
    kind: string,
    ocrText: Option<string>,
    domId: Option<string>,
    frame: Rect)

  /** The children of a node; an absent list has none. */
  function Children(n: DomNode): seq<DomNode> {
    match n.subviews
    case NoSubviews => []
    case Subviews(cs) => cs
  }

  function NodeCount(n: DomNode): nat {
    1 + match n.subviews
        case NoSubviews => 0
        case Subviews(cs) => ForestCount(cs)
  }

  /** Number of nodes in a forest, descendants included. */
  function ForestCount(ns: seq<DomNode>): nat {
    if ns == [] then 0 else NodeCount(ns[0]) + ForestCount(ns[1..])
  }

  lemma {:induction false} ForestCountAppend(a: seq<DomNode>, b: seq<DomNode>)
    ensures ForestCount(a + b) == ForestCount(a) + ForestCount(b)
  {
    if a == [] {
      assert a + b == b;
    } else {
      assert (a + b)[1..] == a[1..] + b;
      ForestCountAppend(a[1..], b);
    }
  }

  /** All nodes of a forest in depth-first pre-order. */
  function Flatten(ns: seq<DomNode>): (r: seq<DomNode>)
    ensures |r| == ForestCount(ns)
  {
    if ns == [] then []
    else
      [ns[0]] + (match ns[0].subviews
                 case NoSubviews => []
                 case Subviews(cs) => Flatten(cs))
      + Flatten(ns[1..])
  }
}
