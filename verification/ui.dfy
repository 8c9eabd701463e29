/**
 * The UIKit facts the SDK reads, as plain data: a view with its visibility,
 * frames, text-bearing kind and subviews, and a view controller with its
 * titles, root view and container role. Type tests (`as? UILabel`,
 * `as? UINavigationController`) become constructors, and values UIKit
 * computes (the frame converted to window coordinates, font traits) become
 * fields.
 */
module Ui {
  import opened Wrappers
  import opened Geometry

  /** What `getText(from:)` and the header heuristic can see of a view. */
  datatype Content =
    | Label(text: Option<string>, isBold: bool, pointSize: real)
    | Button(normalTitle: Option<string>)
    | TextField(text: Option<string>, placeholder: Option<string>)
    | TextView(text: Option<string>)
    | OtherView

  /**
   * A `UIView`. `frame` is in the superview's space (used for `isEmpty`);
   * `windowFrame` is `convert(bounds, to: window)`, which equals
   * `convert(bounds, to: nil)` for a view in the key window.
   */
  datatype View = View(
    className: string,
    isHidden: bool,
    alpha: real,
    frame: Rect,
    windowFrame: Rect,
    accessibilityIdentifier: Option<string>,
    isUserInteractionEnabled: bool,
    content: Content,
    subviews: seq<View>)

  function ViewCount(v: View): nat {
    1 + ViewsCount(v.subviews)
  }

  function ViewsCount(vs: seq<View>): nat {
    if vs == [] then 0 else ViewCount(vs[0]) + ViewsCount(vs[1..])
  }

  lemma {:induction false} ViewsCountAppend(a: seq<View>, b: seq<View>)
    ensures ViewsCount(a + b) == ViewsCount(a) + ViewsCount(b)
  {
    if a == [] {
      assert a + b == b;
    } else {
      assert (a + b)[1..] == a[1..] + b;
      ViewsCountAppend(a[1..], b);
    }
  }

  /** The title sources the screen reader consults, each already unwrapped by UIKit. */
  datatype Titles = Titles(
    title: Option<string>,
    navigationItemTitle: Option<string>,
    navigationBarTopItemTitle: Option<string>,
    titleViewLabelText: Option<string>)

  /** An optional child controller (`UIViewController?`). */
  datatype ChildController = NoController | Child(controller: Controller)

  /** The container role of a controller, if it is one of the three UIKit containers. */
  datatype Container =
    | NotContainer
    | Split(viewControllers: seq<Controller>)
    | Navigation(topViewController: ChildController)
    | TabBar(selectedViewController: ChildController)

  /** A `UIViewController`: its dynamic type name, titles, root view and container role. */
  datatype Controller = Controller(
    className: string,
    titles: Titles,
    view: View,
    container: Container)
}
