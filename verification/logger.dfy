/**
 * `FlowyLogger`: the current-screen-name register and the construction of
 * every event the SDK records. Each operation reports the events it emits,
 * and the store gains exactly those events through `appendEvent`. The clock,
 * the device description, the file system and the codec are an `Env`.
 */
module Logger {
  import opened Wrappers
  import opened Text
  import opened Geometry
  import opened Models
  import opened Ui
  import opened Storage
  import TreeWalker
  import HybridMatcher
  import Heuristics
  import ScreenReader
  import VisionEngine
  import Recognition
  import Select

  /** The name a screen has before any screen was seen. */
  const InitialScreenName := "Unknown"

  /** The text the secure-field interception passes instead of recognised text. */
  const SecureField := "[SECURE_FIELD]"

  /** The text logged for a tap whose text could not be recognised. */
  const NoText := "NIL"

  /** The class-name fragments that mark a control worth naming in the tap text. */
  const ControlKinds: seq<string> := ["Switch", "Button", "TextField", "Slider"]

  /** `scanVisibleStatus` looks at no more views than this. */
  const ScanLimit: nat := 50

  /** The logger's own state and the session log it writes to. */
  datatype Logger = Logger(currentScreenName: string, store: Store)

  /** What the platform supplies to an operation: file system facts, codec, clock and device. */
  datatype Env = Env(platform: Platform, codec: Codec, now: real, device: Option<DeviceInfo>)

  /** The state after an operation and the events it emitted, in order. */
  datatype Logged = Logged(logger: Logger, events: seq<Event>)

  /** The shared logger as first created, over whatever log is on disk. */
  function Init(store: Store): (l: Logger)
    ensures l.currentScreenName == InitialScreenName && l.store == store
  {
    Logger(InitialScreenName, store)
  }

  /** Appends the events in order; the screen name is untouched. */
  function Record(l: Logger, env: Env, events: seq<Event>): (r: Logged)
    ensures r.logger.currentScreenName == l.currentScreenName && r.events == events
    ensures r.logger.store == AppendAll(l.store, env.platform, env.codec, events)
  {
    Logged(Logger(l.currentScreenName, AppendAll(l.store, env.platform, env.codec, events)), events)
  }

  /** An event stamped with the environment's clock and device. */
  function Stamp(env: Env, action: string, text: Option<string>, coordinates: Option<Coordinate>, screenName: string): Event {
    NewEvent(action, text, coordinates, Some(screenName), env.now, env.device)
  }

  function ToCoordinate(p: Point): Coordinate {
    Coordinate(p.x, p.y)
  }

  function MapPoint(p: Option<Point>): (r: Option<Coordinate>)
    ensures r.None? <==> p.None?
    ensures r.Some? ==> r.value.x == p.value.x && r.value.y == p.value.y
  {
    match p
    case None => None
    case Some(q) => Some(ToCoordinate(q))
  }

  predicate IsControlKind(className: string) {
    ContainsAny(className, ControlKinds)
  }

  /**
   * The class name added to a tap's text: the best-matching captured view
   * under the tap, when there is a tap point and a window and that view's
   * class name names a control.
   */
  function ElementType(coordinates: Option<Point>, window: Option<View>): (r: Option<string>)
    ensures coordinates.None? || window.None? ==> r.None?
    ensures r.Some? ==> exists k :: 0 <= k < |ControlKinds| && Text.Contains(r.value, ControlKinds[k])
    ensures r.Some? ==>
      exists n :: n in Flatten(TreeWalker.CaptureHierarchy(window.value))
        && Geometry.Contains(n.frame, coordinates.value) && n.className == r.value
    ensures coordinates.Some? && window.Some?
      && (forall i :: 0 <= i < |TreeWalker.CaptureHierarchy(window.value)|
            ==> !Geometry.Contains(TreeWalker.CaptureHierarchy(window.value)[i].frame, coordinates.value))
      ==> r.None?
    ensures coordinates.Some? && window.Some? ==>
      var m := HybridMatcher.FindBestMatch(TreeWalker.CaptureHierarchy(window.value), coordinates.value);
      && (r.Some? <==> m.Some? && IsControlKind(m.value.className))
      && (r.Some? ==> r.value == m.value.className)
  {
    if coordinates.None? || window.None? then None
    else
      match HybridMatcher.FindBestMatch(TreeWalker.CaptureHierarchy(window.value), coordinates.value)
      case None => None
      case Some(m) =>
        ContainsAnyIff(m.className, ControlKinds);
        if IsControlKind(m.className) then Some(m.className) else None
  }

  /**
   * `logVisionInteraction(text:coordinates:window:)`: one TAP event with the
   * recognised text, "NIL" when there is none, followed by ` [Class]` when
   * the tap is on a control; the action is SECURE_TAP exactly when the
   * final text is the secure-field marker. The screen name is not changed.
   */
  function LogVisionInteraction(l: Logger, env: Env, text: Option<string>, coordinates: Option<Point>,
                                window: Option<View>): (r: Logged)
    ensures r.logger.currentScreenName == l.currentScreenName
    ensures r.logger.store == AppendAll(l.store, env.platform, env.codec, r.events)
    ensures |r.events| == 1
    ensures var e := r.events[0];
      && e.ocrText.Some?
      && (e.action == "SECURE_TAP" <==> e.ocrText.value == SecureField)
      && (e.action != "SECURE_TAP" ==> e.action == "TAP")
      && e.coordinates == MapPoint(coordinates)
      && e.screenName == Some(l.currentScreenName)
      && e.timestamp == env.now
    ensures var base := text.GetOr(NoText);
      && (ElementType(coordinates, window).None? ==> r.events[0].ocrText == Some(base))
      && (ElementType(coordinates, window).Some? ==>
            r.events[0].ocrText == Some(base + " [" + ElementType(coordinates, window).value + "]"))
  {
    var base := text.GetOr(NoText);
    var logged := match ElementType(coordinates, window)
                  case None => base
                  case Some(kind) => base + " [" + kind + "]";
    var action := if logged == SecureField then "SECURE_TAP" else "TAP";
    Record(l, env, [Stamp(env, action, Some(logged), MapPoint(coordinates), l.currentScreenName)])
  }

  /** The tap the secure-field interception reports is a SECURE_TAP without coordinates. */
  lemma SecureFieldTap(l: Logger, env: Env, window: Option<View>)
    ensures var e := LogVisionInteraction(l, env, Some(SecureField), None, window).events[0];
      e.action == "SECURE_TAP" && e.ocrText == Some(SecureField) && e.coordinates.None?
  {
  }

  /** A tap without recognised text or a control under it is logged as "NIL". */
  lemma UnrecognisedTap(l: Logger, env: Env, coordinates: Option<Point>)
    ensures var e := LogVisionInteraction(l, env, None, coordinates, None).events[0];
      e.action == "TAP" && e.ocrText == Some(NoText)
  {
  }

  /** A 100 by 40 button at (10, 10) titled "Submit". */
  const SubmitButton := View("UIButton", false, 1.0, Rect(10.0, 10.0, 100.0, 40.0), Rect(10.0, 10.0, 100.0, 40.0),
                             None, true, Button(Some("Submit")), [])

  /** A 400 by 800 window holding only that button. */
  const SubmitWindow := View("UIWindow", false, 1.0, Rect(0.0, 0.0, 400.0, 800.0), Rect(0.0, 0.0, 400.0, 800.0),
                             None, true, OtherView, [SubmitButton])

  const SubmitButtonNode := DomNode("UIButton", Rect(10.0, 10.0, 100.0, 40.0), None, true, NoSubviews)

  const SubmitWindowNode := DomNode("UIWindow", Rect(0.0, 0.0, 400.0, 800.0), None, true, Subviews([SubmitButtonNode]))

  lemma SubmitWindowCapture()
    ensures TreeWalker.CaptureHierarchy(SubmitWindow) == [SubmitWindowNode]
  {
    assert TreeWalker.CaptureAll([SubmitButton]) == [SubmitButtonNode];
  }

  lemma SubmitCandidates()
    ensures HybridMatcher.Candidates([SubmitWindowNode], Point(20.0, 20.0)) == [SubmitWindowNode, SubmitButtonNode]
  {
    assert HybridMatcher.Candidates([SubmitButtonNode], Point(20.0, 20.0)) == [SubmitButtonNode];
  }

  lemma SubmitLookup()
    ensures HybridMatcher.LookupList([SubmitWindowNode, SubmitButtonNode]) == [SubmitWindowNode, SubmitButtonNode]
  {
    var cands := [SubmitWindowNode, SubmitButtonNode];
    assert Select.Filter(cands, HybridMatcher.IsInteractive) == cands;
  }

  lemma SubmitSmallest()
    ensures HybridMatcher.Smallest([SubmitWindowNode, SubmitButtonNode]) == Some(SubmitButtonNode)
  {
    var m := HybridMatcher.Smallest([SubmitWindowNode, SubmitButtonNode]);
    assert Area(SubmitWindowNode.frame) == 320000.0;
    assert Area(SubmitButtonNode.frame) == 4000.0;
    assert m.value == SubmitWindowNode || m.value == SubmitButtonNode;
    assert Area(m.value.frame) <= Area(SubmitButtonNode.frame);
  }

  /** The button, being the smaller of the two views under the tap, is the best match. */
  lemma SubmitWindowMatch()
    ensures HybridMatcher.FindBestMatch([SubmitWindowNode], Point(20.0, 20.0)) == Some(SubmitButtonNode)
  {
    SubmitCandidates();
    SubmitLookup();
    SubmitSmallest();
  }

  lemma ButtonIsControl()
    ensures IsControlKind("UIButton")
  {
    assert "UIButton"[2..8] == "Button";
    Text.ContainsAt("UIButton", "Button", 2);
    ContainsAnyMember("UIButton", ControlKinds, 1);
  }

  /**
   * A tap on a button inside a window: the recognised "Submit" is logged
   * with the button's class name after it.
   */
  lemma ButtonTapNamesClass(l: Logger, env: Env)
    ensures LogVisionInteraction(l, env, Some("Submit"), Some(Point(20.0, 20.0)), Some(SubmitWindow)).events[0].ocrText
      == Some("Submit [UIButton]")
  {
    var kind := ElementType(Some(Point(20.0, 20.0)), Some(SubmitWindow));
    assert kind == Some("UIButton") by {
      SubmitWindowCapture();
      SubmitWindowMatch();
      ButtonIsControl();
    }
    SubmitText();
  }

  lemma SubmitText()
    ensures "Submit" + " [" + "UIButton" + "]" == "Submit [UIButton]"
  {
  }

  /**
   * The same button with its title drawn by a 60 by 30 label inside it; the
   * label takes touches or not.
   */
  function TitleLabel(interactive: bool): View {
    View("UILabel", false, 1.0, Rect(20.0, 5.0, 60.0, 30.0), Rect(30.0, 15.0, 60.0, 30.0),
         None, interactive, Label(Some("Submit"), false, 17.0), [])
  }

  function LabelledButton(interactive: bool): View {
    View("UIButton", false, 1.0, Rect(10.0, 10.0, 100.0, 40.0), Rect(10.0, 10.0, 100.0, 40.0),
         None, true, Button(Some("Submit")), [TitleLabel(interactive)])
  }

  function LabelledWindow(interactive: bool): View {
    View("UIWindow", false, 1.0, Rect(0.0, 0.0, 400.0, 800.0), Rect(0.0, 0.0, 400.0, 800.0),
         None, true, OtherView, [LabelledButton(interactive)])
  }

  function LabelNode(interactive: bool): DomNode {
    DomNode("UILabel", Rect(30.0, 15.0, 60.0, 30.0), None, interactive, NoSubviews)
  }

  function LabelledButtonNode(interactive: bool): DomNode {
    DomNode("UIButton", Rect(10.0, 10.0, 100.0, 40.0), None, true, Subviews([LabelNode(interactive)]))
  }

  function LabelledWindowNode(interactive: bool): DomNode {
    DomNode("UIWindow", Rect(0.0, 0.0, 400.0, 800.0), None, true, Subviews([LabelledButtonNode(interactive)]))
  }

  lemma LabelledCapture(interactive: bool)
    ensures TreeWalker.CaptureHierarchy(LabelledWindow(interactive)) == [LabelledWindowNode(interactive)]
  {
    assert TreeWalker.CaptureAll([TitleLabel(interactive)]) == [LabelNode(interactive)];
    assert TreeWalker.CaptureAll([LabelledButton(interactive)]) == [LabelledButtonNode(interactive)];
  }

  lemma LabelledCandidates(interactive: bool)
    ensures HybridMatcher.Candidates([LabelledWindowNode(interactive)], Point(40.0, 20.0))
      == [LabelledWindowNode(interactive), LabelledButtonNode(interactive), LabelNode(interactive)]
  {
    var p := Point(40.0, 20.0);
    assert HybridMatcher.Candidates([LabelNode(interactive)], p) == [LabelNode(interactive)];
    assert HybridMatcher.Candidates([LabelledButtonNode(interactive)], p)
      == [LabelledButtonNode(interactive), LabelNode(interactive)];
  }

  lemma LabelledLookup(interactive: bool)
    ensures var w, b, l := LabelledWindowNode(interactive), LabelledButtonNode(interactive), LabelNode(interactive);
      HybridMatcher.LookupList([w, b, l]) == (if interactive then [w, b, l] else [w, b])
  {
    var w, b, l := LabelledWindowNode(interactive), LabelledButtonNode(interactive), LabelNode(interactive);
    assert Select.Filter([l], HybridMatcher.IsInteractive) == (if interactive then [l] else []);
    assert Select.Filter([b, l], HybridMatcher.IsInteractive) == [b] + Select.Filter([l], HybridMatcher.IsInteractive);
    assert Select.Filter([w, b, l], HybridMatcher.IsInteractive) == [w] + Select.Filter([b, l], HybridMatcher.IsInteractive);
  }

  lemma LabelledSmallest(interactive: bool)
    ensures var w, b, l := LabelledWindowNode(interactive), LabelledButtonNode(interactive), LabelNode(interactive);
      && HybridMatcher.Smallest([w, b, l]) == Some(l)
      && HybridMatcher.Smallest([w, b]) == Some(b)
  {
    var w, b, l := LabelledWindowNode(interactive), LabelledButtonNode(interactive), LabelNode(interactive);
    assert Area(w.frame) == 320000.0 && Area(b.frame) == 4000.0 && Area(l.frame) == 1800.0;
    var m3 := HybridMatcher.Smallest([w, b, l]);
    assert m3.value == w || m3.value == b || m3.value == l;
    assert Area(m3.value.frame) <= Area(l.frame);
    var m2 := HybridMatcher.Smallest([w, b]);
    assert m2.value == w || m2.value == b;
    assert Area(m2.value.frame) <= Area(b.frame);
  }

  /**
   * Under the tap lie the window, the button and the label. The smallest
   * interactive one is the best match: the label when it takes touches, the
   * button when it does not (UIKit's default for a label).
   */
  lemma LabelledMatch(interactive: bool)
    ensures HybridMatcher.FindBestMatch([LabelledWindowNode(interactive)], Point(40.0, 20.0))
      == Some(if interactive then LabelNode(interactive) else LabelledButtonNode(interactive))
  {
    LabelledCandidates(interactive);
    LabelledLookup(interactive);
    LabelledSmallest(interactive);
  }

  lemma LabelIsNoControl()
    ensures !IsControlKind("UILabel")
  {
    NotContainedByChar("UILabel", "Switch", 'S');
    NotContainedByChar("UILabel", "Button", 'B');
    NotContainedByChar("UILabel", "TextField", 'T');
    NotContainedByChar("UILabel", "Slider", 'S');
    assert ControlKinds[1..][1..][1..][1..] == [];
  }

  /**
   * A tap on the title of a button whose label takes touches names no
   * control: the label is the best match, not the button around it. With a
   * label that does not take touches the button is named.
   */
  lemma LabelTapElementType(interactive: bool)
    ensures ElementType(Some(Point(40.0, 20.0)), Some(LabelledWindow(interactive)))
      == (if interactive then None else Some("UIButton"))
  {
    LabelledCapture(interactive);
    LabelledMatch(interactive);
    LabelIsNoControl();
    ButtonIsControl();
  }

  /**
   * `logScreenView(name:)`: the name becomes the current screen name and one
   * SCREEN event without text or coordinates records it.
   */
  function LogScreenView(l: Logger, env: Env, name: string): (r: Logged)
    ensures r.logger.currentScreenName == name
    ensures r.logger.store == AppendAll(l.store, env.platform, env.codec, r.events)
    ensures |r.events| == 1
    ensures var e := r.events[0];
      e.action == "SCREEN" && e.ocrText.None? && e.coordinates.None? && e.screenName == Some(name)
  {
    var r := Record(Logger(name, l.store), env, [Stamp(env, "SCREEN", None, None, name)]);
    r
  }

  /**
   * `logManualEvent(type:text:)`: one event of the given type carrying the
   * current screen name and no coordinates. The screen name is not changed.
   */
  function LogManualEvent(l: Logger, env: Env, kind: string, text: Option<string>): (r: Logged)
    ensures r.logger.currentScreenName == l.currentScreenName
    ensures r.logger.store == AppendAll(l.store, env.platform, env.codec, r.events)
    ensures |r.events| == 1
    ensures var e := r.events[0];
      e.action == kind && e.ocrText == text && e.coordinates.None? && e.screenName == Some(l.currentScreenName)
  {
    Record(l, env, [Stamp(env, kind, text, None, l.currentScreenName)])
  }

  /**
   * `logAction(type:view:touchPoint:window:)`: one event of the given type
   * with no text, the touch point as coordinates and the current screen
   * name. The hierarchy it captures is never used, so the window does not
   * matter. The screen name is not changed.
   */
  function LogAction(l: Logger, env: Env, kind: string, touchPoint: Option<Point>, window: Option<View>): (r: Logged)
    ensures r.logger.currentScreenName == l.currentScreenName
    ensures r.logger.store == AppendAll(l.store, env.platform, env.codec, r.events)
    ensures |r.events| == 1
    ensures var e := r.events[0];
      && e.action == kind && e.ocrText.None? && e.coordinates == MapPoint(touchPoint)
      && e.screenName == Some(l.currentScreenName)
  {
    Record(l, env, [Stamp(env, kind, None, MapPoint(touchPoint), l.currentScreenName)])
  }

  /** A screen change names every later event, until the next one. */
  lemma ScreenNameCarried(l: Logger, env: Env, name: string, kind: string, text: Option<string>)
    ensures var after := LogScreenView(l, env, name).logger;
      LogManualEvent(after, env, kind, text).events[0].screenName == Some(name)
  {
  }

  // ---- Status scans ----------------------------------------------------------

  /** The error text a view shows: a label with non-empty text that reads as an error. */
  function LabelError(v: View): (r: Option<string>)
    ensures r.Some? ==> v.content.Label? && v.content.text == r && r.value != [] && Heuristics.IsErrorText(r)
    ensures r.None? ==> !(v.content.Label? && v.content.text.Some? && v.content.text.value != []
                          && Heuristics.IsErrorText(v.content.text))
  {
    match v.content
    case Label(text, _, _) =>
      if text.Some? && text.value != [] && Heuristics.IsErrorText(text) then text else None
    case _ => None
  }

  /** The first error text among the views, in order. */
  function FirstErrorLabel(vs: seq<View>): (r: Option<string>)
    ensures r.None? <==> forall i :: 0 <= i < |vs| ==> LabelError(vs[i]).None?
    ensures r.Some? ==>
      exists k :: 0 <= k < |vs| && LabelError(vs[k]) == r && forall j :: 0 <= j < k ==> LabelError(vs[j]).None?
  {
    if vs == [] then None
    else if LabelError(vs[0]).Some? then LabelError(vs[0])
    else
      var rest := FirstErrorLabel(vs[1..]);
      assert forall i :: 1 <= i < |vs| ==> vs[i] == vs[1..][i - 1];
      rest
  }

  lemma {:induction false} FirstErrorLabelAppend(a: seq<View>, b: seq<View>)
    ensures FirstErrorLabel(a + b) == if FirstErrorLabel(a).Some? then FirstErrorLabel(a) else FirstErrorLabel(b)
  {
    if a == [] {
      assert a + b == b;
    } else {
      assert (a + b)[0] == a[0] && (a + b)[1..] == a[1..] + b;
      FirstErrorLabelAppend(a[1..], b);
    }
  }

  /** Breadth-first order of the trees in the queue: front first, its subviews queued at the back. */
  function BfsOrder(queue: seq<View>): (r: seq<View>)
    decreases ViewsCount(queue)
  {
    if queue == [] then []
    else
      ViewsCountAppend(queue[1..], queue[0].subviews);
      assert ViewsCount(queue) == 1 + ViewsCount(queue[0].subviews) + ViewsCount(queue[1..]);
      [queue[0]] + BfsOrder(queue[1..] + queue[0].subviews)
  }

  /** The breadth-first order lists every view of the queued trees exactly as often as they hold views. */
  lemma {:induction false} BfsOrderCount(queue: seq<View>)
    ensures |BfsOrder(queue)| == ViewsCount(queue)
    decreases ViewsCount(queue)
  {
    if queue != [] {
      ViewsCountAppend(queue[1..], queue[0].subviews);
      assert ViewsCount(queue) == 1 + ViewsCount(queue[0].subviews) + ViewsCount(queue[1..]);
      BfsOrderCount(queue[1..] + queue[0].subviews);
    }
  }

  /** The reference reading of `scanVisibleStatus`: the first error label among the first 50 views in breadth-first order. */
  function StatusScan(root: View): (r: Option<string>)
    ensures r.Some? ==> Heuristics.IsErrorText(r)
    ensures ViewCount(root) <= ScanLimit ==> r == FirstErrorLabel(BfsOrder([root]))
  {
    BfsOrderCount([root]);
    assert ViewsCount([root]) == ViewCount(root) by {
      assert [root][1..] == [];
    }
    FirstErrorLabel(Select.Take(BfsOrder([root]), ScanLimit))
  }

  lemma BfsStep(queue: seq<View>)
    requires queue != []
    ensures BfsOrder(queue) == [queue[0]] + BfsOrder(queue[1..] + queue[0].subviews)
  {
  }

  /** A hit within the first `n` views survives truncation to `n`. */
  lemma {:induction false} HitSurvivesTake(seen: seq<View>, tail: seq<View>, n: nat)
    requires |seen| <= n && FirstErrorLabel(seen).Some?
    ensures FirstErrorLabel(Select.Take(seen + tail, n)) == FirstErrorLabel(seen)
  {
    Select.TakePrefix(seen, tail, n);
    FirstErrorLabelAppend(seen, Select.Take(tail, n - |seen|));
  }

  /** An error label met before the limit is what the reference scan finds. */
  lemma ScanFound(visited: seq<View>, current: View, tail: seq<View>)
    requires FirstErrorLabel(visited).None? && LabelError(current).Some? && |visited| < ScanLimit
    ensures FirstErrorLabel(Select.Take(visited + [current] + tail, ScanLimit)) == LabelError(current)
  {
    FoundLast(visited, current);
    HitSurvivesTake(visited + [current], tail, ScanLimit);
  }

  lemma FoundLast(visited: seq<View>, current: View)
    requires FirstErrorLabel(visited).None? && LabelError(current).Some?
    ensures FirstErrorLabel(visited + [current]) == LabelError(current)
  {
    FirstErrorLabelAppend(visited, [current]);
    assert [current][1..] == [];
  }

  /** Running out of views, or reaching the limit, without an error label means the reference scan finds none. */
  lemma ScanExhausted(visited: seq<View>, tail: seq<View>)
    requires FirstErrorLabel(visited).None?
    requires (tail == [] && |visited| <= ScanLimit) || |visited| == ScanLimit
    ensures FirstErrorLabel(Select.Take(visited + tail, ScanLimit)) == None
  {
    if tail == [] {
      assert visited + tail == visited;
    } else {
      Select.TakePrefix(visited, tail, ScanLimit);
      assert Select.Take(tail, 0) == [];
      assert visited + [] == visited;
    }
  }

  /**
   * `scanVisibleStatus(in:)`'s loop: a queue starting at the root, at most
   * 50 views taken from its front, each one's subviews appended at the back,
   * stopping at the first label whose non-empty text is an error. Hidden
   * views are not skipped.
   */
  method ScanVisibleStatus(root: View) returns (found: Option<string>)
    ensures found == StatusScan(root)
  {
    var queue := [root];
    var scanned := 0;
    ghost var visited: seq<View> := [];
    while queue != [] && scanned < ScanLimit
      invariant 0 <= scanned <= ScanLimit && |visited| == scanned
      invariant BfsOrder([root]) == visited + BfsOrder(queue)
      invariant FirstErrorLabel(visited).None?
      decreases ScanLimit - scanned
    {
      var current := queue[0];
      var rest := queue[1..] + current.subviews;
      BfsStep(queue);
      Select.AppendAssoc(visited, [current], BfsOrder(rest));
      scanned := scanned + 1;
      if current.content.Label? && current.content.text.Some? && current.content.text.value != []
        && Heuristics.IsErrorText(current.content.text)
      {
        found := current.content.text;
        ScanFound(visited, current, BfsOrder(rest));
        return;
      }
      FirstErrorLabelAppend(visited, [current]);
      visited := visited + [current];
      queue := rest;
    }
    ScanExhausted(visited, BfsOrder(queue));
    found := None;
  }

  /** The status event `scanVisibleStatus` emits, if any. */
  function StatusEvents(l: Logger, env: Env, root: View): (r: Logged)
    ensures r.logger.currentScreenName == l.currentScreenName
    ensures r.logger.store == AppendAll(l.store, env.platform, env.codec, r.events)
    ensures |r.events| <= 1
    ensures r.events == [] <==> StatusScan(root).None?
    ensures r.events != [] ==>
      && r.events[0].action == "ERROR" && r.events[0].ocrText == StatusScan(root)
      && r.events[0].screenName == Some(l.currentScreenName)
  {
    match StatusScan(root)
    case None => Record(l, env, [])
    case Some(t) => LogManualEvent(l, env, "ERROR", Some(t))
  }

  /**
   * The screen-appear path of `logScreenView(vc:)`: nothing when the
   * controller is gone by the time the delayed block runs; otherwise the
   * cleaned deduced name becomes the current screen name, a SCREEN event
   * records it, and the status scan of the controller's view may add one
   * ERROR event under that new name.
   */
  function LogScreenAppear(l: Logger, env: Env, vc: Option<Controller>): (r: Logged)
    requires vc.Some? ==> Heuristics.CleanDefined(ScreenReader.Deduce(vc.value))
    ensures r.logger.store == AppendAll(l.store, env.platform, env.codec, r.events)
    ensures vc.None? ==> r.logger == l && r.events == []
    ensures vc.Some? ==>
      var name := Heuristics.CleanScreenName(ScreenReader.Deduce(vc.value));
      && r.logger.currentScreenName == name
      && 1 <= |r.events| <= 2
      && r.events[0].action == "SCREEN" && r.events[0].screenName == Some(name)
      && (|r.events| == 2 <==> StatusScan(vc.value.view).Some?)
      && (|r.events| == 2 ==> r.events[1].action == "ERROR" && r.events[1].screenName == Some(name)
                              && Heuristics.IsErrorText(r.events[1].ocrText))
      && (|r.events| == 2 ==> r.events[1].ocrText == StatusScan(vc.value.view))
  {
    match vc
    case None => Record(l, env, [])
    case Some(c) =>
      var name := Heuristics.CleanScreenName(ScreenReader.Deduce(c));
      var first := LogScreenView(l, env, name);
      var second := StatusEvents(first.logger, env, c.view);
      AppendAllConcat(l.store, env.platform, env.codec, first.events, second.events);
      Logged(second.logger, first.events + second.events)
  }

  /** What the post-action scan logs: the first string that is an error or a success, error checked first. */
  function FirstStatus(strings: seq<string>, isSuccess: string -> bool): (r: Option<(string, string)>)
    ensures r.None? <==> forall i :: 0 <= i < |strings| ==> !Heuristics.IsErrorText(Some(strings[i])) && !isSuccess(strings[i])
    ensures r.Some? ==>
      exists k :: 0 <= k < |strings| && r.value.1 == strings[k]
        && (forall j :: 0 <= j < k ==> !Heuristics.IsErrorText(Some(strings[j])) && !isSuccess(strings[j]))
        && (r.value.0 == "ERROR" <==> Heuristics.IsErrorText(Some(strings[k])))
        && (r.value.0 != "ERROR" ==> r.value.0 == "SUCCESS" && isSuccess(strings[k]))
  {
    var k := Select.FirstWhere(strings, t => Heuristics.IsErrorText(Some(t)) || isSuccess(t));
    if k == -1 then None
    else if Heuristics.IsErrorText(Some(strings[k])) then Some(("ERROR", strings[k]))
    else Some(("SUCCESS", strings[k]))
  }

  /**
   * `performAfterActionScan()`: nothing without a key window; otherwise the
   * snapshot's recognised strings are scanned and at most one ERROR or
   * SUCCESS event is logged. `isSuccess` stands for
   * `FlowyHeuristics.isSuccessText`, which is not part of this model.
   */
  function PerformAfterActionScan(l: Logger, env: Env, keyWindow: Option<View>, snapshot: VisionEngine.Snapshot,
                                  outcome: Recognition.Outcome, isSuccess: string -> bool): (r: Logged)
    ensures r.logger.currentScreenName == l.currentScreenName
    ensures r.logger.store == AppendAll(l.store, env.platform, env.codec, r.events)
    ensures |r.events| <= 1
    ensures keyWindow.None? ==> r.events == []
    ensures r.events != [] ==>
      && r.events[0].ocrText.Some?
      && r.events[0].ocrText.value in VisionEngine.ScanScreen(snapshot, outcome)
      && (r.events[0].action == "ERROR" <==> Heuristics.IsErrorText(r.events[0].ocrText))
      && (r.events[0].action != "ERROR" ==> r.events[0].action == "SUCCESS" && isSuccess(r.events[0].ocrText.value))
    ensures keyWindow.Some? && r.events == [] ==>
      forall s :: s in VisionEngine.ScanScreen(snapshot, outcome) ==> !Heuristics.IsErrorText(Some(s)) && !isSuccess(s)
    ensures keyWindow.Some? ==>
      var hit := FirstStatus(VisionEngine.ScanScreen(snapshot, outcome), isSuccess);
      && (hit.None? ==> r.events == [])
      && (hit.Some? ==>
            && |r.events| == 1
            && r.events[0].action == hit.value.0
            && r.events[0].ocrText == Some(hit.value.1)
            && r.events[0].screenName == Some(l.currentScreenName))
  {
    if keyWindow.None? then Record(l, env, [])
    else
      var strings := VisionEngine.ScanScreen(snapshot, outcome);
      match FirstStatus(strings, isSuccess)
      case None => Record(l, env, [])
      case Some(hit) => LogManualEvent(l, env, hit.0, Some(hit.1))
  }

  /**
   * Whatever an operation emits is what the log reads back afterwards, when
   * the file system cooperates and the codec keeps its promise.
   */
  lemma EmittedEventsAreRead(before: Logger, env: Env, after: Logged)
    requires Lawful(env.codec) && Terminated(before.store)
    requires env.platform.hasDocuments && env.platform.canWrite && env.platform.canRead
    requires AllEncodable(env.codec, after.events)
    requires after.logger.store == AppendAll(before.store, env.platform, env.codec, after.events)
    requires before.store.file.Some? || after.events != []
    ensures RetrieveAndClearLog(after.logger.store, env.platform, env.codec).0
      == Some(FileContents(before.store.file.GetOr([]), env.codec) + after.events)
  {
    AppendAllThenRetrieve(before.store, env.platform, env.codec, after.events);
  }
}
